/** Building trampolines and patching routines: how an inline hook gets into memory,
    and what the machine does afterwards. */
module HookInstall {
  import opened Wrappers
  import opened X64
  import opened Trampolines

  // ---------- byte buffers ----------

  /** copy_from_slice into the middle of a buffer. */
  method CopyInto(buffer: array<Byte>, from: nat, bytes: seq<Byte>)
    requires from + |bytes| <= buffer.Length
    modifies buffer
    ensures buffer[..] == old(buffer[..from]) + bytes + old(buffer[from + |bytes|..])
  {
    for k := 0 to |bytes|
      invariant forall i :: 0 <= i < buffer.Length ==>
                  buffer[i] == if from <= i < from + k then bytes[i - from] else old(buffer[i])
    {
      buffer[from + k] := bytes[k];
    }
  }

  method BuildAbsoluteJump(destination: Word) returns (jump: array<Byte>)
    ensures fresh(jump) && jump[..] == AbsoluteJump(destination)
  {
    hide ToLe;
    jump := new Byte[14](_ => 0);
    CopyInto(jump, 0, [0xFF, 0x25, 0, 0, 0, 0]);
    CopyInto(jump, 6, ToLe(destination, 8));
  }

  method BuildAvailabilityTrampoline(cookie: Word, returnAddress: Word) returns (trampoline: array<Byte>)
    ensures fresh(trampoline) && trampoline[..] == AvailabilityTrampoline(cookie, returnAddress)
  {
    hide ToLe, AbsoluteJump;
    trampoline := new Byte[34](_ => 0);
    CopyInto(trampoline, 0, [0x48, 0x83, 0xEC, 0x48]);
    CopyInto(trampoline, 4, [0x48, 0xB8]);
    assert trampoline[..6] == [0x48, 0x83, 0xEC, 0x48, 0x48, 0xB8];
    CopyInto(trampoline, 6, ToLe(cookie, 8));
    assert trampoline[..14] == [0x48, 0x83, 0xEC, 0x48, 0x48, 0xB8] + ToLe(cookie, 8);
    CopyInto(trampoline, 14, [0x48, 0x8B, 0x00]);
    CopyInto(trampoline, 17, [0x48, 0x33, 0xC4]);
    assert trampoline[..20]
           == [0x48, 0x83, 0xEC, 0x48, 0x48, 0xB8] + ToLe(cookie, 8) + [0x48, 0x8B, 0x00, 0x48, 0x33, 0xC4];
    var jump := BuildAbsoluteJump(returnAddress);
    CopyInto(trampoline, 20, jump[..]);
  }

  // ---------- memory ranges ----------

  /** Neither range wraps around, and they have no byte in common. */
  predicate Disjoint(a: Word, m: nat, b: Word, n: nat) {
    a + m <= MODULUS && b + n <= MODULUS && (a + m <= b || b + n <= a)
  }

  predicate Within(a: Word, address: Word, length: nat) {
    address <= a < address + length
  }

  ghost predicate UnchangedOutside(m: Memory, n: Memory, address: Word, length: nat) {
    forall a: Word :: Within(a, address, length) || n(a) == m(a)
  }

  ghost predicate UnchangedOutsideBoth(m: Memory, n: Memory, a: Word, lengthA: nat, b: Word, lengthB: nat) {
    forall x: Word :: Within(x, a, lengthA) || Within(x, b, lengthB) || n(x) == m(x)
  }

  lemma WrittenCode(m: Memory, address: Word, code: seq<Byte>)
    requires address + |code| <= MODULUS && |code| < MODULUS
    ensures CodeAt(Write(m, address, code), address, code)
    ensures UnchangedOutside(m, Write(m, address, code), address, |code|)
  {
    forall i | 0 <= i < |code| ensures code[i] == ByteAt(Write(m, address, code), address + i) {
      assert Wrap(address + i) == address + i && Wrap(i) == i;
      assert Write(m, address, code)(address + i) == code[i];
    }
  }

  lemma CodeIsKept(m: Memory, n: Memory, address: Word, code: seq<Byte>, other: Word, length: nat)
    requires CodeAt(m, address, code) && Disjoint(address, |code|, other, length)
    requires UnchangedOutside(m, n, other, length)
    ensures CodeAt(n, address, code)
  {
    forall i | 0 <= i < |code| ensures code[i] == ByteAt(n, address + i) {
      assert Wrap(address + i) == address + i;
      assert code[i] == ByteAt(m, address + i);
    }
  }

  lemma ReadIsKept(m: Memory, n: Memory, address: Word, count: nat, other: Word, length: nat)
    requires Disjoint(address, count, other, length) && UnchangedOutside(m, n, other, length)
    ensures Read(m, address, count) == Read(n, address, count)
  {
    forall i | 0 <= i < count ensures Read(m, address, count)[i] == Read(n, address, count)[i] {
      assert Wrap(address + i) == address + i;
    }
  }

  lemma ReadIsCode(m: Memory, address: Word, code: seq<Byte>)
    ensures CodeAt(m, address, code) <==> Read(m, address, |code|) == code
  {
    if Read(m, address, |code|) == code {
      forall i | 0 <= i < |code| ensures code[i] == ByteAt(m, address + i) {
        assert code[i] == Read(m, address, |code|)[i];
      }
    }
  }

  // ---------- installing ----------

  datatype InstallError =
    | HookWithoutOriginal
    | PrologueMismatch
    | NotRelocatable
    | NoMemory
    | ProtectFailed
    | AlreadyInitialized
    | WriteFailed
    | VerificationFailed

  /** What writing to protected memory may do: nothing, or copy the bytes and then
      fail to flush the instruction cache or to restore the protection, or succeed. */
  datatype WriteOutcome = Refused | FailedAfterCopy | Written

  /** What the platform decides: where the trampoline goes, if anywhere, how the calls
      end, and what another thread writes over the patch before it is verified. */
  datatype Platform = Platform(
    place: Option<Word>,
    protects: bool,
    write: WriteOutcome,
    interference: Option<seq<Byte>>,
    restore: WriteOutcome)

  /** The process's memory and the published trampoline of one hook. */
  class HookSite {
    const target: Word
    const prologue: seq<Byte>
    const replacement: Word
    var memory: Memory
    var original: Option<Word>

    ghost predicate Valid()
      reads this
    {
      |prologue| == PROLOGUE_LENGTH && target + PROLOGUE_LENGTH < MODULUS
    }

    /** Our jump stands where the prologue was. */
    ghost predicate Patched()
      reads this
    {
      CodeAt(memory, target, AbsoluteJump(replacement))
    }

    /** Everything an installation needs, before it changes anything. */
    ghost predicate Ready(code: Option<seq<Byte>>, platform: Platform)
      reads this
    {
      && code.Some? && !Patched() && CodeAt(memory, target, prologue)
      && platform.place.Some? && platform.protects && original.None?
    }

    /** The patch is still there when it is read back. */
    ghost predicate Sticks(platform: Platform)
      reads this
    {
      platform.interference.None? || platform.interference.value == AbsoluteJump(replacement)
    }

    constructor (target: Word, prologue: seq<Byte>, replacement: Word, memory: Memory)
      requires |prologue| == PROLOGUE_LENGTH && target + PROLOGUE_LENGTH < MODULUS
      ensures Valid() && original == None && this.memory == memory
      ensures this.target == target && this.prologue == prologue && this.replacement == replacement
    {
      this.target, this.prologue, this.replacement := target, prologue, replacement;
      this.memory, original := memory, None;
    }

    /** Publishes a trampoline with this code and patches the routine; without code
        the prologue could not be relocated. The place the platform offers is a fresh
        allocation apart from the routine. */
    method Install(code: Option<seq<Byte>>, platform: Platform) returns (result: Result<Word, InstallError>)
      requires Valid() && (code.Some? ==> |code.value| < MODULUS)
      requires platform.interference.Some? ==> |platform.interference.value| == PROLOGUE_LENGTH
      requires code.Some? && platform.place.Some? ==>
                 Disjoint(target, PROLOGUE_LENGTH, platform.place.value, |code.value|)
      modifies this
      ensures result.Ok? <==>
                || (old(Patched()) && old(original).Some?)
                || (old(Ready(code, platform)) && platform.write.Written? && Sticks(platform))
      ensures result.Ok? ==> original == Some(result.value)
      ensures result.Err? ==> original == old(original)
      ensures result == Err(NotRelocatable) ==> code.None?
      // Installing over an installed hook changes nothing.
      ensures old(Patched()) ==> memory == old(memory) && original == old(original)
      // A first installation publishes the code, and the routine jumps to the replacement.
      ensures old(Ready(code, platform)) && platform.write.Written? && Sticks(platform) ==>
                && result.value == platform.place.value && Patched()
                && CodeAt(memory, result.value, code.value)
                && UnchangedOutsideBoth(old(memory), memory, target, PROLOGUE_LENGTH, result.value, |code.value|)
      // A failure leaves the routine as it was, unless the bytes were copied before it.
      ensures result.Err? && !(old(Ready(code, platform)) && !platform.write.Refused?) ==>
                if code.Some? && platform.place.Some? then
                  UnchangedOutside(old(memory), memory, platform.place.value, |code.value|)
                else memory == old(memory)
      // A patch that was overwritten is replaced by the prologue, if that can be written.
      ensures old(Ready(code, platform)) && platform.write.Written? && !Sticks(platform) ==>
                && result == Err(VerificationFailed)
                && CodeAt(memory, target, if platform.restore.Refused? then platform.interference.value else prologue)
                && UnchangedOutsideBoth(old(memory), memory, target, PROLOGUE_LENGTH,
                                        platform.place.value, |code.value|)
      // The routine jumps to a replacement without an original to call in just this case.
      ensures Patched() && original.None? <==>
                || old(Patched() && original.None?)
                || (old(Ready(code, platform)) && platform.write.FailedAfterCopy?)
    {
      hide AbsoluteJump, Write, CodeAt, ReadWord;
      hide Read;
      var patch := AbsoluteJump(replacement);
      ReadIsCode(memory, target, patch);
      ReadIsCode(memory, target, prologue);
      var actual := Read(memory, target, PROLOGUE_LENGTH);
      if actual == patch {
        return if original.None? then Err(HookWithoutOriginal) else Ok(original.value);
      }
      if actual != prologue {
        return Err(PrologueMismatch);
      }
      if code.None? {
        return Err(NotRelocatable);
      }
      if platform.place.None? {
        return Err(NoMemory);
      }
      var place := platform.place.value;
      WrittenCode(memory, place, code.value);
      ReadIsKept(memory, Write(memory, place, code.value), target, PROLOGUE_LENGTH, place, |code.value|);
      memory := Write(memory, place, code.value);
      ReadIsCode(memory, target, patch);
      if !platform.protects {
        return Err(ProtectFailed);
      }
      if original.Some? {
        return Err(AlreadyInitialized);
      }
      original := Some(place);
      if platform.write.Refused? {
        original := None;
        return Err(WriteFailed);
      }
      WrittenCode(memory, target, patch);
      ghost var placed := memory;
      memory := Write(memory, target, patch);
      if platform.write.FailedAfterCopy? {
        original := None;
        return Err(WriteFailed);
      }
      if platform.interference.Some? {
        WrittenCode(memory, target, platform.interference.value);
        memory := Write(memory, target, platform.interference.value);
        ReadIsCode(memory, target, platform.interference.value);
      }
      ReadIsCode(memory, target, patch);
      if Read(memory, target, PROLOGUE_LENGTH) != patch {
        if !platform.restore.Refused? {
          WrittenCode(memory, target, prologue);
          memory := Write(memory, target, prologue);
          ReadIsCode(memory, target, prologue);
          ReadIsCode(memory, target, patch);
        }
        original := None;
        return Err(VerificationFailed);
      }
      CodeIsKept(placed, memory, place, code.value, target, PROLOGUE_LENGTH);
      return Ok(place);
    }
  }
}

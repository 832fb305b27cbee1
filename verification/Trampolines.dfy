/** Inline hooks: the jump written over a routine's prologue, and the trampolines
    that run the displaced prologue somewhere else. */
module Trampolines {
  import opened Wrappers
  import opened X64

  const PROLOGUE_LENGTH: nat := 14

  /** jmp [rip + 0], followed by the destination. */
  function AbsoluteJump(destination: Word): (code: seq<Byte>)
    ensures |code| == 14
  {
    [0xFF, 0x25, 0, 0, 0, 0] + ToLe(destination, 8)
  }

  /** sub rsp, 48h; mov rax, [rip + displacement]; xor rax, rsp. */
  function AvailabilityPrologue(displacement: seq<Byte>): (code: seq<Byte>)
    requires |displacement| == 4
    ensures |code| == 14
  {
    [0x48, 0x83, 0xEC, 0x48, 0x48, 0x8B, 0x05] + displacement + [0x48, 0x33, 0xC4]
  }

  /** The same with the cookie's absolute address, then a jump back. */
  function AvailabilityTrampoline(cookie: Word, returnAddress: Word): (code: seq<Byte>)
    ensures |code| == 34
  {
    [0x48, 0x83, 0xEC, 0x48, 0x48, 0xB8] + ToLe(cookie, 8) + [0x48, 0x8B, 0x00, 0x48, 0x33, 0xC4]
    + AbsoluteJump(returnAddress)
  }

  // ---------- single steps ----------

  /** Whatever follows them, these bytes decode to this instruction. */
  ghost predicate Encodes(code: seq<Byte>, i: Instruction) {
    |code| <= 15 && forall c: seq<Byte> :: |c| == 15 && code <= c ==> Decode(c) == Some(Decoded(i, |code|))
  }

  lemma StepEncoded(s: Machine, code: seq<Byte>, i: Instruction)
    requires Encodes(code, i) && CodeAt(s.memory, s.rip, code)
    ensures Step(s) == Some(Execute(i, Wrap(s.rip + |code|), s))
  {
    hide Decode, Execute;
    assert code <= Read(s.memory, s.rip, 15);
  }

  lemma EncodesSub()
    ensures Encodes([0x48, 0x83, 0xEC, 0x48], SubRsp(0x48))
    ensures Encodes([0x48, 0x83, 0xEC, 0x20], SubRsp(0x20))
    ensures Encodes([0x48, 0x83, 0xEC, 0x28], SubRsp(0x28))
  {
    hide Signed;
    forall c: seq<Byte> | |c| == 15 && (c[3] == 0x48 || c[3] == 0x20 || c[3] == 0x28) ensures Signed(c[3..4]) == c[3] {
      SmallByte(c[3..4]);
    }
  }

  lemma EncodesLoadRelative(d: seq<Byte>)
    requires |d| == 4
    ensures Encodes([0x48, 0x8B, 0x05] + d, LoadRelative(Signed(d)))
  {
    forall c: seq<Byte> | |c| == 15 && [0x48, 0x8B, 0x05] + d <= c ensures c[3..7] == d {
    }
  }

  lemma EncodesMoveImmediate(w: Word)
    ensures Encodes([0x48, 0xB8] + ToLe(w, 8), MoveImmediate(w))
  {
    WordRoundTrip(w);
    forall c: seq<Byte> | |c| == 15 && [0x48, 0xB8] + ToLe(w, 8) <= c ensures c[2..10] == ToLe(w, 8) {
    }
  }

  lemma EncodesJump()
    ensures Encodes([0xFF, 0x25, 0, 0, 0, 0], JumpThrough(0))
  {
    forall c: seq<Byte> | |c| == 15 && [0xFF, 0x25, 0, 0, 0, 0] <= c ensures Signed(c[2..6]) == 0 {
      assert c[2..6] == [0, 0, 0, 0];
      assert FromLe([0, 0, 0, 0]) == 0 by {
        assert [0, 0, 0, 0][1..] == [0, 0, 0] && [0, 0, 0][1..] == [0, 0] && [0, 0][1..] == [0] && [0][1..] == [];
      }
    }
  }

  /** The jump reaches its destination and changes nothing else. */
  lemma JumpReachesItsDestination(s: Machine, destination: Word)
    requires CodeAt(s.memory, s.rip, AbsoluteJump(destination))
    ensures Step(s) == Some(s.(rip := destination))
  {
    hide Decode, Encodes, ToLe, FromLe, Step;
    var code := AbsoluteJump(destination);
    EncodesJump();
    assert CodeAt(s.memory, s.rip, code[..6]);
    assert code[..6] == [0xFF, 0x25, 0, 0, 0, 0];
    StepEncoded(s, code[..6], JumpThrough(0));
    CodeAtSuffix(s.memory, s.rip, code, 6);
    assert code[6..] == ToLe(destination, 8);
    var slot := Wrap(s.rip + 6);
    assert Wrap(slot + 0) == slot;
    ReadCode(s.memory, slot, ToLe(destination, 8), 8);
    assert ToLe(destination, 8)[..8] == ToLe(destination, 8);
    WordRoundTrip(destination);
  }

  // ---------- the availability trampoline ----------

  /** Two steps are the two halves of more steps. */
  lemma {:induction false} StepsAdd(s: Machine, m: nat, n: nat)
    requires Steps(s, m).Some?
    ensures Steps(s, m + n) == Steps(Steps(s, m).value, n)
    decreases m
  {
    hide Step;
    if m != 0 {
      StepsAdd(Step(s).value, m - 1, n);
    }
  }

  lemma OneStep(s: Machine, s1: Machine, n: nat)
    requires Step(s) == Some(s1)
    ensures Steps(s, n + 1) == Steps(s1, n)
  {
    hide Step;
  }

  lemma Slice(m: Memory, address: Word, code: seq<Byte>, from: nat, to: nat)
    requires CodeAt(m, address, code) && from <= to <= |code|
    ensures CodeAt(m, Wrap(address + from), code[from..to])
  {
    CodeAtSuffix(m, address, code, from);
  }

  lemma Advances(i: Instruction, next: Word, s: Machine)
    requires !i.JumpThrough? && !i.CallRelative? && !i.Return?
    ensures Execute(i, next, s).rip == next
    ensures !i.Push? && !i.StoreAlThroughRcx? ==> Execute(i, next, s).memory == s.memory
  {
  }

  /** The next instruction of code that stands at `base`, `k` bytes in. */
  lemma StepInside(base: Word, code: seq<Byte>, k: nat, s: Machine, part: seq<Byte>, i: Instruction)
    requires CodeAt(s.memory, base, code) && s.rip == Wrap(base + k)
    requires k + |part| <= |code| && code[k..k + |part|] == part
    requires Encodes(part, i) && !i.JumpThrough? && !i.CallRelative? && !i.Return? && !i.Push? && !i.StoreAlThroughRcx?
    ensures var next := Wrap(base + (k + |part|));
            var s1 := Execute(i, next, s);
            Step(s) == Some(s1) && s1.rip == next && s1.memory == s.memory
  {
    hide Execute, Step, Encodes;
    Slice(s.memory, base, code, k, k + |part|);
    StepEncoded(s, part, i);
    WrapAdd(base, k, |part|);
    Advances(i, Wrap(base + (k + |part|)), s);
  }

  /** The three instructions of the prologue in its original place. */
  lemma RunPrologue(s: Machine, displacement: seq<Byte>)
    requires |displacement| == 4 && CodeAt(s.memory, s.rip, AvailabilityPrologue(displacement))
    ensures var s1 := Execute(SubRsp(0x48), Wrap(s.rip + 4), s);
            var s2 := Execute(LoadRelative(Signed(displacement)), Wrap(s.rip + 11), s1);
            Steps(s, 3) == Some(Execute(XorRaxRsp, Wrap(s.rip + 14), s2))
  {
    hide Step, Encodes, Signed, Execute, Steps, CodeAt;
    var code := AvailabilityPrologue(displacement);
    assert Wrap(s.rip + 0) == s.rip;
    EncodesSub();
    EncodesLoadRelative(displacement);
    EncodesXor();
    StepInside(s.rip, code, 0, s, [0x48, 0x83, 0xEC, 0x48], SubRsp(0x48));
    var s1 := Execute(SubRsp(0x48), Wrap(s.rip + 4), s);
    StepInside(s.rip, code, 4, s1, [0x48, 0x8B, 0x05] + displacement, LoadRelative(Signed(displacement)));
    var s2 := Execute(LoadRelative(Signed(displacement)), Wrap(s.rip + 11), s1);
    StepInside(s.rip, code, 11, s2, [0x48, 0x33, 0xC4], XorRaxRsp);
    ThreeSteps(s, s1, s2, Execute(XorRaxRsp, Wrap(s.rip + 14), s2));
  }

  lemma EncodesXor()
    ensures Encodes([0x48, 0x33, 0xC4], XorRaxRsp)
    ensures Encodes([0x48, 0x8B, 0x00], LoadRaxThroughRax)
  {
  }

  lemma ThreeSteps(s: Machine, s1: Machine, s2: Machine, s3: Machine)
    requires Step(s) == Some(s1) && Step(s1) == Some(s2) && Step(s2) == Some(s3)
    ensures Steps(s, 3) == Some(s3)
  {
    OneStep(s, s1, 2);
    OneStep(s1, s2, 1);
    OneStep(s2, s3, 0);
    hide Step;
  }

  /** The five instructions of the trampoline. */
  lemma RunTrampoline(s: Machine, cookie: Word, returnAddress: Word)
    requires CodeAt(s.memory, s.rip, AvailabilityTrampoline(cookie, returnAddress))
    ensures var s1 := Execute(SubRsp(0x48), Wrap(s.rip + 4), s);
            var s2 := Execute(MoveImmediate(cookie), Wrap(s.rip + 14), s1);
            var s3 := Execute(LoadRaxThroughRax, Wrap(s.rip + 17), s2);
            var s4 := Execute(XorRaxRsp, Wrap(s.rip + 20), s3);
            Steps(s, 5) == Some(s4.(rip := returnAddress))
  {
    hide Step, Encodes, ToLe, Execute, Steps, CodeAt, AbsoluteJump;
    var code := AvailabilityTrampoline(cookie, returnAddress);
    assert Wrap(s.rip + 0) == s.rip;
    EncodesSub();
    EncodesMoveImmediate(cookie);
    EncodesXor();
    StepInside(s.rip, code, 0, s, [0x48, 0x83, 0xEC, 0x48], SubRsp(0x48));
    var s1 := Execute(SubRsp(0x48), Wrap(s.rip + 4), s);
    StepInside(s.rip, code, 4, s1, [0x48, 0xB8] + ToLe(cookie, 8), MoveImmediate(cookie));
    var s2 := Execute(MoveImmediate(cookie), Wrap(s.rip + 14), s1);
    StepInside(s.rip, code, 14, s2, [0x48, 0x8B, 0x00], LoadRaxThroughRax);
    var s3 := Execute(LoadRaxThroughRax, Wrap(s.rip + 17), s2);
    StepInside(s.rip, code, 17, s3, [0x48, 0x33, 0xC4], XorRaxRsp);
    var s4 := Execute(XorRaxRsp, Wrap(s.rip + 20), s3);
    Slice(s.memory, s.rip, code, 20, 34);
    assert code[20..34] == AbsoluteJump(returnAddress);
    JumpReachesItsDestination(s4, returnAddress);
    ThreeSteps(s, s1, s2, s3);
    StepsAdd(s, 3, 2);
    OneStep(s3, s4, 1);
    OneStep(s4, s4.(rip := returnAddress), 0);
    NoSteps(s4.(rip := returnAddress));
  }

  lemma NoSteps(s: Machine)
    ensures Steps(s, 0) == Some(s)
  {
  }

  /** What the prologue comes to, given the cookie's value. */
  function AfterPrologue(s: Machine, cookieValue: Word, next: Word): Machine {
    Execute(XorRaxRsp, next, s.(regs := s.regs.(rsp := Wrap(s.regs.rsp - 0x48), rax := cookieValue)))
  }

  lemma AfterPrologueAlike(regs: Registers, flags: Flags, a: Word, m: Memory, b: Word, n: Memory, w: Word, next: Word)
    ensures var x := AfterPrologue(Machine(a, regs, flags, m), w, next);
            && x.rip == next && x.memory == m
            && AfterPrologue(Machine(b, regs, flags, n), w, next) == x.(memory := n)
  {
    hide Xor, LogicFlags;
  }

  lemma PrologueResult(s: Machine, displacement: int, cookie: Word)
    requires Wrap(Wrap(s.rip + 11) + displacement) == cookie
    ensures var s1 := Execute(SubRsp(0x48), Wrap(s.rip + 4), s);
            var s2 := Execute(LoadRelative(displacement), Wrap(s.rip + 11), s1);
            Execute(XorRaxRsp, Wrap(s.rip + 14), s2) == AfterPrologue(s, ReadWord(s.memory, cookie), Wrap(s.rip + 14))
  {
    hide ReadWord, Xor, SubtractFlags, LogicFlags;
  }

  lemma TrampolineResult(s: Machine, cookie: Word, next: Word)
    ensures var s1 := Execute(SubRsp(0x48), Wrap(s.rip + 4), s);
            var s2 := Execute(MoveImmediate(cookie), Wrap(s.rip + 14), s1);
            var s3 := Execute(LoadRaxThroughRax, Wrap(s.rip + 17), s2);
            Execute(XorRaxRsp, Wrap(s.rip + 20), s3).(rip := next) == AfterPrologue(s, ReadWord(s.memory, cookie), next)
  {
    hide ReadWord, Xor, SubtractFlags, LogicFlags;
  }

  /** What the prologue in its place and the trampoline come to. */
  lemma BothRun(original: Memory, patched: Memory, target: Word, trampoline: Word,
                displacement: seq<Byte>, cookie: Word, regs: Registers, flags: Flags)
    requires |displacement| == 4
    requires CodeAt(original, target, AvailabilityPrologue(displacement))
    requires CodeAt(patched, trampoline, AvailabilityTrampoline(cookie, Wrap(target + 14)))
    requires cookie == target + 11 + Signed(displacement)
    ensures var s, t := Machine(target, regs, flags, original), Machine(trampoline, regs, flags, patched);
            && Steps(s, 3) == Some(AfterPrologue(s, ReadWord(original, cookie), Wrap(target + 14)))
            && Steps(t, 5) == Some(AfterPrologue(t, ReadWord(patched, cookie), Wrap(target + 14)))
  {
    hide Steps, Read, Signed, CodeAt, FromLe, Execute, AfterPrologue, AvailabilityPrologue, AvailabilityTrampoline;
    var s, t := Machine(target, regs, flags, original), Machine(trampoline, regs, flags, patched);
    WrapAdd(target, 11, Signed(displacement));
    RunPrologue(s, displacement);
    PrologueResult(s, Signed(displacement), cookie);
    RunTrampoline(t, cookie, Wrap(target + 14));
    TrampolineResult(t, cookie, Wrap(target + 14));
  }

  /** Running the trampoline is running the displaced prologue: from the same
      registers and flags both reach the instruction after it with the same
      registers and flags, and neither writes to memory. `patched` is the memory
      after the hook was written; it must still hold the cookie. */
  lemma TrampolineReplacesPrologue(original: Memory, patched: Memory, target: Word, trampoline: Word,
                                   displacement: seq<Byte>, cookie: Word, regs: Registers, flags: Flags)
    requires |displacement| == 4
    requires CodeAt(original, target, AvailabilityPrologue(displacement))
    requires CodeAt(patched, trampoline, AvailabilityTrampoline(cookie, Wrap(target + 14)))
    requires cookie == target + 11 + Signed(displacement)
    requires Read(original, cookie, 8) == Read(patched, cookie, 8)
    ensures var before := Steps(Machine(target, regs, flags, original), 3);
            var after := Steps(Machine(trampoline, regs, flags, patched), 5);
            && before.Some? && after.Some?
            && after.value == before.value.(memory := patched)
            && before.value.rip == Wrap(target + 14)
            && before.value.memory == original
  {
    hide Steps, Read, Signed, CodeAt, FromLe, Execute, AfterPrologue, AvailabilityPrologue, AvailabilityTrampoline;
    assert ReadWord(original, cookie) == ReadWord(patched, cookie);
    BothRun(original, patched, target, trampoline, displacement, cookie, regs, flags);
    var value := ReadWord(original, cookie);
    AfterPrologueAlike(regs, flags, target, original, trampoline, patched, value, Wrap(target + 14));
  }

  lemma AfterPrologueRax(s: Machine, w: Word, next: Word)
    ensures AfterPrologue(s, w, next).regs.rax == Xor(w, Wrap(s.regs.rsp - 0x48))
  {
    hide Xor, LogicFlags;
  }

  /** And only then: if the patched memory holds another cookie, RAX comes out
      differently, whatever the registers were. */
  lemma TrampolineNeedsTheCookie(original: Memory, patched: Memory, target: Word, trampoline: Word,
                                 displacement: seq<Byte>, cookie: Word, regs: Registers, flags: Flags)
    requires |displacement| == 4
    requires CodeAt(original, target, AvailabilityPrologue(displacement))
    requires CodeAt(patched, trampoline, AvailabilityTrampoline(cookie, Wrap(target + 14)))
    requires cookie == target + 11 + Signed(displacement)
    requires Read(original, cookie, 8) != Read(patched, cookie, 8)
    ensures var before := Steps(Machine(target, regs, flags, original), 3);
            var after := Steps(Machine(trampoline, regs, flags, patched), 5);
            before.Some? && after.Some? && before.value.regs.rax != after.value.regs.rax
  {
    hide Steps, Read, Signed, CodeAt, FromLe, Execute, AfterPrologue, Xor, AvailabilityPrologue, AvailabilityTrampoline;
    BothRun(original, patched, target, trampoline, displacement, cookie, regs, flags);
    var x, z, top := ReadWord(original, cookie), ReadWord(patched, cookie), Wrap(regs.rsp - 0x48);
    AfterPrologueRax(Machine(target, regs, flags, original), x, Wrap(target + 14));
    AfterPrologueRax(Machine(trampoline, regs, flags, patched), z, Wrap(target + 14));
    if Xor(x, top) == Xor(z, top) {
      XorInjective(x, z, top);
      FromLeInjective(Read(original, cookie, 8), Read(patched, cookie, 8));
      assert false;
    }
  }

  /** The routine itself now enters the replacement at once, with nothing changed. */
  lemma HookedRoutineEntersReplacement(s: Machine, replacement: Word)
    requires CodeAt(s.memory, s.rip, AbsoluteJump(replacement))
    ensures Steps(s, 1) == Some(s.(rip := replacement))
  {
    JumpReachesItsDestination(s, replacement);
    OneStep(s, s.(rip := replacement), 0);
    NoSteps(s.(rip := replacement));
  }
}

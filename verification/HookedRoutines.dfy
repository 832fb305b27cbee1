/** The hooks in place: the routine goes to its replacement, and the published original
    does what the routine did before it was patched. */
module HookedRoutines {
  import opened Wrappers
  import opened X64
  import opened Trampolines
  import opened InlineHooks
  import opened HookInstall
  import opened PeImage
  import opened Scanners
  import opened HookTargets

  ghost predicate EntersReplacement(after: Memory, target: Word, replacement: Word) {
    forall regs: Registers, flags: Flags ::
      Steps(Machine(target, regs, flags, after), 1) == Some(Machine(replacement, regs, flags, after))
  }

  lemma PatchedEntersReplacement(after: Memory, target: Word, replacement: Word)
    requires CodeAt(after, target, AbsoluteJump(replacement))
    ensures EntersReplacement(after, target, replacement)
  {
    hide CodeAt, AbsoluteJump, Steps;
    forall regs: Registers, flags: Flags
      ensures Steps(Machine(target, regs, flags, after), 1) == Some(Machine(replacement, regs, flags, after))
    {
      HookedRoutineEntersReplacement(Machine(target, regs, flags, after), replacement);
    }
  }

  // ---------- the availability routine ----------

  /** From any registers and flags, the trampoline ends as the three displaced
      instructions did, behind them, and neither changes memory. */
  ghost predicate StandsForPrologue(before: Memory, target: Word, after: Memory, trampoline: Word) {
    forall regs: Registers, flags: Flags ::
      var b := Steps(Machine(target, regs, flags, before), 3);
      var a := Steps(Machine(trampoline, regs, flags, after), 5);
      && b.Some? && b.value.rip == Wrap(target + 14) && b.value.memory == before
      && a == Some(b.value.(memory := after))
  }

  /** It does so exactly if patching has not changed the cookie. */
  lemma TrampolineStandsForPrologueIff(before: Memory, target: Word, after: Memory, trampoline: Word, d: seq<Byte>,
                                       cookie: Word)
    requires |d| == 4 && CodeAt(before, target, AvailabilityPrologue(d))
    requires CodeAt(after, trampoline, AvailabilityTrampoline(cookie, Wrap(target + 14)))
    requires cookie == target + 11 + Signed(d)
    ensures StandsForPrologue(before, target, after, trampoline) <==> Read(before, cookie, 8) == Read(after, cookie, 8)
  {
    hide CodeAt, Signed, Steps, Read, AvailabilityPrologue, AvailabilityTrampoline;
    if Read(before, cookie, 8) == Read(after, cookie, 8) {
      forall regs: Registers, flags: Flags
        ensures var b := Steps(Machine(target, regs, flags, before), 3);
                var a := Steps(Machine(trampoline, regs, flags, after), 5);
                && b.Some? && b.value.rip == Wrap(target + 14) && b.value.memory == before
                && a == Some(b.value.(memory := after))
      {
        TrampolineReplacesPrologue(before, after, target, trampoline, d, cookie, regs, flags);
      }
    } else {
      var regs, flags := Registers(0, 0, 0, 0, 0, 0), Flags(false, false, false, false, false, false);
      TrampolineNeedsTheCookie(before, after, target, trampoline, d, cookie, regs, flags);
    }
  }

  lemma CookieFits(image: Image, cookie: nat)
    requires Loaded(image) && InData(image, cookie, 8)
    ensures image.base + cookie + 8 < MODULUS
  {
  }

  /** Hooks the availability routine whose cookie was resolved. The original that is
      published stands for the routine exactly if neither the patch nor the trampoline
      has changed the cookie, as is the case if they do not overlap it. */
  method HookAvailability(image: Image, availability: nat, cookie: nat, site: HookSite, platform: HookInstall.Platform)
    returns (result: Result<Word, InstallError>)
    requires Loaded(image) && IsCookieOf(image, availability, cookie) && site.Valid()
    requires site.target == image.base + availability && site.prologue == BytesOf(image, availability, 14)
    requires platform.interference.Some? ==> |platform.interference.value| == PROLOGUE_LENGTH
    requires platform.place.Some? ==> Disjoint(site.target, PROLOGUE_LENGTH, platform.place.value, 34)
    modifies site
    ensures image.base + cookie < MODULUS
    ensures result != Err(NotRelocatable)
    ensures result.Ok? ==> site.original == Some(result.value)
                           && EntersReplacement(site.memory, site.target, site.replacement)
    ensures result.Ok? && !old(site.Patched()) ==>
              var address: Word := image.base + cookie;
              && (StandsForPrologue(old(site.memory), site.target, site.memory, result.value)
                  <==> Read(old(site.memory), address, 8) == Read(site.memory, address, 8))
              && (Disjoint(address, 8, site.target, PROLOGUE_LENGTH) && Disjoint(address, 8, result.value, 34) ==>
                    StandsForPrologue(old(site.memory), site.target, site.memory, result.value))
    ensures result.Ok? && old(site.Patched()) ==> site.memory == old(site.memory) && site.original == old(site.original)
  {
    hide AbsoluteJump, CodeAt, Signed, Read, Loaded, InData, Backed, AvailabilityTrampoline, EntersReplacement;
    hide StandsForPrologue;
    ghost var before := site.memory;
    CookieFits(image, cookie);
    ghost var d: seq<Byte> :| LoadsCookie(image, availability, d, cookie);
    PrologueParts(d);
    var address: Word := image.base + cookie;
    var displacement := Signed(site.prologue[7..11]);
    var code: Option<seq<Byte>> := None;
    if RelativeTarget(site.target + 11, displacement) == Some(address) {
      var built := BuildAvailabilityTrampoline(address, site.target + PROLOGUE_LENGTH);
      code := Some(built[..]);
    }
    assert code == Some(AvailabilityTrampoline(address, site.target + 14));
    result := site.Install(code, platform);
    if result.Ok? {
      PatchedEntersReplacement(site.memory, site.target, site.replacement);
      if !old(site.Patched()) {
        Small(site.target + 14);
        TrampolineStandsForPrologueIff(before, site.target, site.memory, result.value, d, address);
        if Disjoint(address, 8, site.target, PROLOGUE_LENGTH) && Disjoint(address, 8, result.value, 34) {
          ReadIsKeptByBoth(before, site.memory, address, 8, site.target, PROLOGUE_LENGTH, result.value, 34);
        }
      }
    }
  }

  lemma ReadIsKeptByBoth(m: Memory, n: Memory, address: Word, count: nat, a: Word, lengthA: nat, b: Word, lengthB: nat)
    requires Disjoint(address, count, a, lengthA) && Disjoint(address, count, b, lengthB)
    requires UnchangedOutsideBoth(m, n, a, lengthA, b, lengthB)
    ensures Read(m, address, count) == Read(n, address, count)
  {
    forall i | 0 <= i < count ensures Read(m, address, count)[i] == Read(n, address, count)[i] {
      assert Wrap(address + i) == address + i;
    }
  }

  // ---------- the routines whose prologue is copied ----------

  ghost function CodeBytes(target: Word, place: Word): iset<Word> {
    iset a: Word | Within(a, target, PROLOGUE_LENGTH) || Within(a, place, 2 * PROLOGUE_LENGTH)
  }

  /** From any registers and flags from which the displaced instructions write to no
      code, both arrive behind them, alike if what they read means the same in both
      places; for prologues that reveal what they read, only then. */
  ghost predicate StandsForCopied(items: seq<Item>, before: Memory, target: Word, after: Memory, trampoline: Word) {
    forall regs: Registers, flags: Flags ::
      ArrivesAlike(items, Machine(target, regs, flags, before), Machine(trampoline, regs, flags, after),
                   Wrap(target + PROLOGUE_LENGTH), CodeBytes(target, trampoline))
  }

  ghost predicate ArrivesAlike(items: seq<Item>, s: Machine, t: Machine, next: Word, code: iset<Word>) {
    AllWriteOutside(items, s, code) && AllWriteOutside(items, t, code) ==>
      && var b, a := Steps(s, |items|), Steps(t, |items| + 1);
      && b.Some? && a.Some? && b.value.rip == a.value.rip == next
      && (AllSee(items, s, t) ==> Alike(b.value, a.value, code))
      && (Revealing(items) ==> (Alike(b.value, a.value, code) <==> AllSee(items, s, t)))
  }

  lemma RangeIsCovered(code: iset<Word>, address: Word, length: nat)
    requires address + length <= MODULUS && forall a: Word :: Within(a, address, length) ==> a in code
    ensures Covers(code, address, length)
  {
    forall k | 0 <= k < length ensures Offset(address, k) in code {
      assert Wrap(address + k) == address + k;
      assert Within(address + k, address, length);
    }
  }

  lemma CopyStandsForPrologue(items: seq<Item>, before: Memory, target: Word, after: Memory, trampoline: Word)
    requires Relocatable(items) && |Bytes(items)| == PROLOGUE_LENGTH && target + PROLOGUE_LENGTH < MODULUS
    requires CodeAt(before, target, Bytes(items))
    requires CodeAt(after, trampoline, Bytes(items) + AbsoluteJump(Wrap(target + PROLOGUE_LENGTH)))
    requires trampoline + 2 * PROLOGUE_LENGTH <= MODULUS
    requires UnchangedOutsideBoth(before, after, target, PROLOGUE_LENGTH, trampoline, 2 * PROLOGUE_LENGTH)
    ensures StandsForCopied(items, before, target, after, trampoline)
  {
    hide Relocatable, Bytes, CodeAt, AbsoluteJump, AllWriteOutside, AllSee, Revealing, Steps, Covers;
    var code := CodeBytes(target, trampoline);
    RangeIsCovered(code, target, PROLOGUE_LENGTH);
    RangeIsCovered(code, trampoline, 2 * PROLOGUE_LENGTH);
    forall regs: Registers, flags: Flags
      ensures ArrivesAlike(items, Machine(target, regs, flags, before), Machine(trampoline, regs, flags, after),
                           Wrap(target + PROLOGUE_LENGTH), code)
    {
      var s, t := Machine(target, regs, flags, before), Machine(trampoline, regs, flags, after);
      assert Alike(s, t, code);
      if AllWriteOutside(items, s, code) && AllWriteOutside(items, t, code) {
        CopiedPrologueRunsAlike(items, s, t, code);
      }
    }
  }

  /** Hooks a routine whose first bytes can be copied. */
  method HookCopied(site: HookSite, ghost items: seq<Item>, platform: HookInstall.Platform)
    returns (result: Result<Word, InstallError>)
    requires site.Valid() && Relocatable(items) && Bytes(items) == site.prologue
    requires platform.interference.Some? ==> |platform.interference.value| == PROLOGUE_LENGTH
    requires platform.place.Some? ==> Disjoint(site.target, PROLOGUE_LENGTH, platform.place.value, 2 * PROLOGUE_LENGTH)
    modifies site
    ensures result != Err(NotRelocatable)
    ensures result.Ok? ==> site.original == Some(result.value)
                           && EntersReplacement(site.memory, site.target, site.replacement)
    ensures result.Ok? && !old(site.Patched()) ==>
              StandsForCopied(items, old(site.memory), site.target, site.memory, result.value)
    ensures result.Ok? && old(site.Patched()) ==> site.memory == old(site.memory) && site.original == old(site.original)
  {
    hide Relocatable, Bytes, AbsoluteJump, CodeAt, EntersReplacement, StandsForCopied;
    ghost var before := site.memory;
    var jump := BuildAbsoluteJump(site.target + PROLOGUE_LENGTH);
    result := site.Install(Some(site.prologue + jump[..]), platform);
    if result.Ok? {
      PatchedEntersReplacement(site.memory, site.target, site.replacement);
      if !old(site.Patched()) {
        Small(site.target + PROLOGUE_LENGTH);
        CopyStandsForPrologue(items, before, site.target, site.memory, result.value);
      }
    }
  }
}

/** What the scanned code around the availability routine means: its call sites, its
    security cookie and the body of the menu gate. */
module HookTargets {
  import opened Wrappers
  import opened X64
  import opened Trampolines
  import opened PeImage
  import opened Scanners

  // ---------- what a call site means ----------

  lemma EncodesCall(d: seq<Byte>)
    requires |d| == 4
    ensures Encodes([0xE8] + d, CallRelative(Signed(d)))
  {
    forall c: seq<Byte> | |c| == 15 && [0xE8] + d <= c ensures c[1..5] == d {
    }
  }

  /** A relative call in the image: the sites the scan reports for a target are those
      from which the processor goes there, with the return address on the stack. */
  lemma CallSitesAreCalls(image: Image, rva: nat, target: nat, s: Machine)
    requires Loaded(image) && rva + 5 <= image.size && target < image.size && image.size <= 0x4000_0000
    requires s.memory == image.memory && s.rip == image.base + rva
    requires BytesOf(image, rva, 1)[0] == 0xE8
    ensures Step(s).Some?
    ensures IsCallTo(image, rva, target) <==> Step(s).value.rip == image.base + target
    ensures IsCallTo(image, rva, target) ==>
              Step(s).value == Execute(CallRelative(target - (rva + 5)), image.base + rva + 5, s)
  {
    hide *;
    var d := BytesOf(image, rva + 1, 4);
    var next := image.base + rva + 5;
    EncodesCall(d);
    CallCode(image, rva);
    LoadedFits(image);
    Small(s.rip);
    Small(next);
    StepEncoded(s, [0xE8] + d, CallRelative(Signed(d)));
    CallJumps(Signed(d), next, s);
    DisplacementBound(d);
    NoAmbiguity(image.base, rva + 5, Signed(d), target);
    CallMeans(image, rva, target);
  }

  lemma Small(w: Word)
    ensures Wrap(w) == w
  {
  }

  lemma CallMeans(image: Image, rva: nat, target: nat)
    requires target < MODULUS
    ensures IsCallTo(image, rva, target) <==>
              BytesOf(image, rva, 1)[0] == 0xE8 && rva + 5 + Signed(BytesOf(image, rva + 1, 4)) == target
  {
    hide Signed, BytesOf;
  }

  lemma CallCode(image: Image, rva: nat)
    requires BytesOf(image, rva, 1)[0] == 0xE8
    ensures CodeAt(image.memory, Wrap(image.base + rva), [0xE8] + BytesOf(image, rva + 1, 4))
  {
    BytesStand(image, rva, 1);
    BytesStand(image, rva + 1, 4);
    WrapAdd(image.base, rva, 1);
    hide *;
    CodeAtConcat(image.memory, Wrap(image.base + rva), BytesOf(image, rva, 1), BytesOf(image, rva + 1, 4));
    assert BytesOf(image, rva, 1) == [0xE8];
  }

  lemma BytesStand(image: Image, rva: nat, length: nat)
    ensures CodeAt(image.memory, Wrap(image.base + rva), BytesOf(image, rva, length))
  {
  }

  lemma CodeAtConcat(m: Memory, address: Word, a: seq<Byte>, b: seq<Byte>)
    requires CodeAt(m, address, a) && CodeAt(m, Wrap(address + |a|), b)
    ensures CodeAt(m, address, a + b)
  {
    forall i | 0 <= i < |a + b| ensures (a + b)[i] == ByteAt(m, address + i) {
      if i >= |a| {
        WrapAdd(address, |a|, i - |a|);
        assert b[i - |a|] == ByteAt(m, Wrap(address + |a|) + (i - |a|));
      }
    }
  }

  lemma NoAmbiguity(base: Word, next: nat, d: int, target: nat)
    requires next <= 0x4000_0000 && target < 0x4000_0000 && -0x8000_0000 <= d < 0x8000_0000
    requires base + target < MODULUS
    ensures Wrap(base + next + d) == base + target <==> next + d == target
  {
    if Wrap(base + next + d) == base + target {
      assert (next + d - target) % MODULUS == 0;
    }
  }

  lemma LoadedFits(image: Image)
    requires Loaded(image)
    ensures image.base + image.size < MODULUS
  {
  }

  lemma CallJumps(d: int, next: Word, s: Machine)
    ensures Execute(CallRelative(d), next, s).rip == Wrap(next + d)
  {
  }

  lemma DisplacementBound(d: seq<Byte>)
    requires |d| == 4
    ensures -0x8000_0000 <= Signed(d) < 0x8000_0000
  {
    FromLeBound(d);
    assert Power(4) == 0x1_0000_0000;
  }

  // ---------- the security cookie ----------

  /** The address arithmetic of the resolver, relative to the image, and the one of the
      installer, on absolute addresses, agree. */
  lemma RelativeAndAbsoluteAgree(image: Image, next: nat, displacement: int, target: nat)
    requires Loaded(image) && target < image.size
    ensures RelativeTarget(next, displacement) == Some(target)
            <==> RelativeTarget(image.base + next, displacement) == Some(image.base + target)
  {
  }

  /** This routine starts with the cookie prologue and loads this cookie. */
  ghost predicate IsCookieOf(image: Image, availability: nat, cookie: nat) {
    && Backed(image, availability, 14)
    && (exists d: seq<Byte> :: LoadsCookie(image, availability, d, cookie))
    && cookie % 8 == 0 && InData(image, cookie, 8)
  }

  ghost predicate LoadsCookie(image: Image, availability: nat, d: seq<Byte>, cookie: nat) {
    && |d| == 4 && BytesOf(image, availability, 14) == AvailabilityPrologue(d)
    && RelativeTarget(availability + 11, Signed(d)) == Some(cookie)
  }

  method ResolveSecurityCookie(image: Image, availability: nat) returns (cookie: Option<nat>)
    requires Loaded(image)
    ensures forall c: nat :: cookie == Some(c) <==> IsCookieOf(image, availability, c)
    ensures cookie.Some? ==> cookie.value % 8 == 0 && InData(image, cookie.value, 8)
  {
    hide Signed, BytesOf, InData, Backed, Loaded;
    var found := BytesAt(image, availability, 14);
    if found.Err? {
      return None;
    }
    var prologue := found.value;
    if prologue[..7] != [0x48, 0x83, 0xEC, 0x48, 0x48, 0x8B, 0x05] || prologue[11..] != [0x48, 0x33, 0xC4] {
      forall d: seq<Byte> | |d| == 4 ensures prologue != AvailabilityPrologue(d) {
        PrologueParts(d);
      }
      return None;
    }
    var d := prologue[7..11];
    assert prologue == prologue[..7] + d + prologue[11..];
    forall e: seq<Byte> | |e| == 4 && prologue == AvailabilityPrologue(e) ensures e == d {
      PrologueParts(e);
    }
    var target := RelativeTarget(availability + 11, Signed(d));
    if target.None? || target.value % 8 != 0 || !InData(image, target.value, 8) {
      return None;
    }
    assert LoadsCookie(image, availability, d, target.value);
    return target;
  }

  lemma PrologueParts(d: seq<Byte>)
    requires |d| == 4
    ensures AvailabilityPrologue(d)[..7] == [0x48, 0x83, 0xEC, 0x48, 0x48, 0x8B, 0x05]
    ensures AvailabilityPrologue(d)[7..11] == d && AvailabilityPrologue(d)[11..] == [0x48, 0x33, 0xC4]
  {
  }

  // ---------- the menu gate ----------

  /** sub rsp, 28h; call; test al, al; sete al; add rsp, 28h; ret */
  function GateBody(d: seq<Byte>): (body: seq<Byte>)
    requires |d| == 4
    ensures |body| == 19
  {
    [0x48, 0x83, 0xEC, 0x28, 0xE8] + d + [0x84, 0xC0, 0x0F, 0x94, 0xC0, 0x48, 0x83, 0xC4, 0x28, 0xC3]
  }

  ghost predicate IsGateOf(image: Image, gate: nat, availability: nat) {
    exists d: seq<Byte> :: |d| == 4 && BytesOf(image, gate, 19) == GateBody(d)
                           && RelativeTarget(gate + 9, Signed(d)) == Some(availability)
  }

  method MenuGateBodyMatches(image: Image, gate: nat, availability: nat) returns (result: Result<bool, ReadError>)
    requires Loaded(image)
    ensures result.Ok? <==> Backed(image, gate, 19)
    ensures result.Ok? ==> (result.value <==> IsGateOf(image, gate, availability))
  {
    hide Signed, BytesOf, Backed, Loaded;
    var found := BytesAt(image, gate, 19);
    if found.Err? {
      return Err(found.error);
    }
    var body := found.value;
    forall e: seq<Byte> | |e| == 4 && body == GateBody(e) ensures e == body[5..9] {
      GateParts(e);
    }
    if body[..4] != [0x48, 0x83, 0xEC, 0x28] || body[4] != 0xE8
       || body[9..] != [0x84, 0xC0, 0x0F, 0x94, 0xC0, 0x48, 0x83, 0xC4, 0x28, 0xC3]
    {
      forall e: seq<Byte> | |e| == 4 ensures body != GateBody(e) {
        GateParts(e);
      }
      return Ok(false);
    }
    var d := body[5..9];
    assert body == body[..4] + [body[4]] + d + body[9..];
    assert body == GateBody(d);
    return Ok(RelativeTarget(gate + 9, Signed(d)) == Some(availability));
  }

  lemma GateParts(d: seq<Byte>)
    requires |d| == 4
    ensures GateBody(d)[..4] == [0x48, 0x83, 0xEC, 0x28] && GateBody(d)[4] == 0xE8
    ensures GateBody(d)[5..9] == d
    ensures GateBody(d)[9..] == [0x84, 0xC0, 0x0F, 0x94, 0xC0, 0x48, 0x83, 0xC4, 0x28, 0xC3]
  {
  }

  /** The gate's own call is one of the calls that the scan finds. */
  lemma GateCallsAvailability(image: Image, gate: nat, availability: nat)
    requires IsGateOf(image, gate, availability)
    ensures IsCallTo(image, gate + 4, availability)
  {
    hide Signed;
    var d: seq<Byte> :| |d| == 4 && BytesOf(image, gate, 19) == GateBody(d)
                        && RelativeTarget(gate + 9, Signed(d)) == Some(availability);
    GateParts(d);
    Part(image, gate, 19, 4, 1);
    Part(image, gate, 19, 5, 4);
    assert BytesOf(image, gate, 19)[4..5][0] == BytesOf(image, gate, 19)[4];
  }

  lemma Part(image: Image, rva: nat, length: nat, k: nat, n: nat)
    requires k + n <= length
    ensures BytesOf(image, rva, length)[k..k + n] == BytesOf(image, rva + k, n)
  {
    ReadSlice(image.memory, Wrap(image.base + rva), length, k, k + n);
    WrapAdd(image.base, rva, k);
  }

  // ---------- what the gate does ----------

  lemma EncodesGate()
    ensures Encodes([0x48, 0x83, 0xEC, 0x28], SubRsp(0x28)) && Encodes([0x48, 0x83, 0xC4, 0x28], AddRsp(0x28))
    ensures Encodes([0x84, 0xC0], TestAl) && Encodes([0x0F, 0x94, 0xC0], SetZeroAl) && Encodes([0xC3], Return)
  {
    hide Signed;
    forall c: seq<Byte> | |c| == 15 && c[3] == 0x28 ensures Signed(c[3..4]) == 0x28 {
      SmallByte(c[3..4]);
    }
  }

  lemma GateSlices(d: seq<Byte>)
    requires |d| == 4
    ensures var g := GateBody(d);
            && g[0..4] == [0x48, 0x83, 0xEC, 0x28] && g[4..9] == [0xE8] + d && g[9..11] == [0x84, 0xC0]
            && g[11..14] == [0x0F, 0x94, 0xC0] && g[14..18] == [0x48, 0x83, 0xC4, 0x28] && g[18..19] == [0xC3]
  {
  }

  lemma EnterSteps(s: Machine, d: seq<Byte>)
    requires |d| == 4 && CodeAt(s.memory, s.rip, GateBody(d))
    ensures Steps(s, 2) == Some(Execute(CallRelative(Signed(d)), Wrap(s.rip + 9),
                                        Execute(SubRsp(0x28), Wrap(s.rip + 4), s)))
  {
    hide *;
    GateSlices(d);
    EncodesGate();
    EncodesCall(d);
    var g := GateBody(d);
    Small(s.rip);
    StepInside(s.rip, g, 0, s, g[0..4], SubRsp(0x28));
    var s1 := Execute(SubRsp(0x28), Wrap(s.rip + 4), s);
    Slice(s1.memory, s.rip, g, 4, 9);
    StepEncoded(s1, g[4..9], CallRelative(Signed(d)));
    WrapAdd(s.rip, 4, 5);
    var s2 := Execute(CallRelative(Signed(d)), Wrap(s.rip + 9), s1);
    OneStep(s, s1, 1);
    OneStep(s1, s2, 0);
    NoSteps(s2);
  }

  /** Two instructions after its start the gate is in the routine it calls, with the
      address behind the call on top of the stack. */
  lemma GateEnters(s: Machine, d: seq<Byte>)
    requires |d| == 4 && CodeAt(s.memory, s.rip, GateBody(d))
    ensures Steps(s, 2).Some?
    ensures var s2 := Steps(s, 2).value;
            && s2.rip == Wrap(s.rip + 9 + Signed(d)) && s2.regs.rsp == Wrap(s.regs.rsp - 0x30)
            && ReadWord(s2.memory, s2.regs.rsp) == Wrap(s.rip + 9)
  {
    hide Step, Steps, Encodes, Execute, Signed, CodeAt, GateBody, ReadWord;
    EnterSteps(s, d);
    EnterResult(s, Signed(d));
    WrapAdd(s.rip, 9, Signed(d));
  }

  lemma EnterResult(s: Machine, d: int)
    ensures var s2 := Execute(CallRelative(d), Wrap(s.rip + 9), Execute(SubRsp(0x28), Wrap(s.rip + 4), s));
            && s2.rip == Wrap(Wrap(s.rip + 9) + d) && s2.regs.rsp == Wrap(s.regs.rsp - 0x30)
            && ReadWord(s2.memory, s2.regs.rsp) == Wrap(s.rip + 9)
  {
    hide SubtractFlags, ToLe, Write, ReadWord;
    WrapAdd(s.regs.rsp, -0x28, -8);
    WriteThenRead(s.memory, Wrap(Wrap(s.regs.rsp - 0x28) - 8), Wrap(s.rip + 9));
  }

  function AfterTest(s: Machine, gate: Word): Machine {
    Execute(AddRsp(0x28), Wrap(gate + 18), Execute(SetZeroAl, Wrap(gate + 14), Execute(TestAl, Wrap(gate + 11), s)))
  }

  lemma ReturnSteps(s: Machine, gate: Word, d: seq<Byte>)
    requires |d| == 4 && CodeAt(s.memory, gate, GateBody(d)) && s.rip == Wrap(gate + 9)
    ensures Steps(s, 4) == Some(Execute(Return, Wrap(gate + 19), AfterTest(s, gate)))
  {
    hide Step, Steps, Encodes, Execute, CodeAt, GateBody, Wrap, Decode;
    GateSlices(d);
    EncodesGate();
    var g := GateBody(d);
    StepInside(gate, g, 9, s, g[9..11], TestAl);
    var s1 := Execute(TestAl, Wrap(gate + 11), s);
    StepInside(gate, g, 11, s1, g[11..14], SetZeroAl);
    var s2 := Execute(SetZeroAl, Wrap(gate + 14), s1);
    StepInside(gate, g, 14, s2, g[14..18], AddRsp(0x28));
    var s3 := Execute(AddRsp(0x28), Wrap(gate + 18), s2);
    Slice(s3.memory, gate, g, 18, 19);
    StepEncoded(s3, g[18..19], Return);
    WrapAdd(gate, 18, 1);
    var s4 := Execute(Return, Wrap(gate + 19), s3);
    OneStep(s, s1, 3);
    OneStep(s1, s2, 2);
    OneStep(s2, s3, 1);
    OneStep(s3, s4, 0);
    NoSteps(s4);
  }

  lemma TestResult(s: Machine, gate: Word)
    ensures var t := AfterTest(s, gate);
            && t.memory == s.memory && t.regs == s.regs.(rax := t.regs.rax, rsp := Wrap(s.regs.rsp + 0x28))
            && t.regs.rax % 0x100 == (if s.regs.rax % 0x100 == 0 then 1 else 0)
  {
    hide AddFlags, OnesMod2;
  }

  /** Behind the call it negates the routine's answer in AL and returns. */
  lemma GateReturns(s: Machine, gate: Word, d: seq<Byte>)
    requires |d| == 4 && CodeAt(s.memory, gate, GateBody(d)) && s.rip == Wrap(gate + 9)
    ensures Steps(s, 4).Some?
    ensures var end := Steps(s, 4).value;
            && end.rip == ReadWord(s.memory, Wrap(s.regs.rsp + 0x28)) && end.regs.rsp == Wrap(s.regs.rsp + 0x30)
            && end.regs.rax % 0x100 == (if s.regs.rax % 0x100 == 0 then 1 else 0)
            && end.regs == s.regs.(rax := end.regs.rax, rsp := end.regs.rsp) && end.memory == s.memory
  {
    hide AfterTest, Step, Steps, Execute, CodeAt, GateBody, ReadWord;
    ReturnSteps(s, gate, d);
    TestResult(s, gate);
    ReturnResult(AfterTest(s, gate), Wrap(gate + 19));
    WrapAdd(s.regs.rsp, 0x28, 8);
  }

  lemma ReturnResult(s: Machine, next: Word)
    ensures Execute(Return, next, s)
            == s.(rip := ReadWord(s.memory, s.regs.rsp), regs := s.regs.(rsp := Wrap(s.regs.rsp + 8)))
  {
    hide ReadWord;
  }

  /** The whole gate: whatever the routine does meanwhile, if it comes back with the stack
      pointer as it found it above the return address and has not touched the gate's code
      or its caller's return address, the gate returns to its caller the negation of the
      routine's answer. */
  lemma GateNegatesAvailability(s: Machine, d: seq<Byte>, back: Machine)
    requires |d| == 4 && CodeAt(s.memory, s.rip, GateBody(d)) && CodeAt(back.memory, s.rip, GateBody(d))
    requires back.rip == Wrap(s.rip + 9) && back.regs.rsp == Wrap(s.regs.rsp - 0x28)
    requires Read(back.memory, s.regs.rsp, 8) == Read(s.memory, s.regs.rsp, 8)
    ensures Steps(s, 2).Some? && Steps(s, 2).value.rip == Wrap(s.rip + 9 + Signed(d))
    ensures Steps(back, 4).Some?
    ensures var end := Steps(back, 4).value;
            && end.rip == ReadWord(s.memory, s.regs.rsp) && end.regs.rsp == Wrap(s.regs.rsp + 8)
            && (end.regs.rax % 0x100 == 1 <==> back.regs.rax % 0x100 == 0)
            && end.regs.rax % 0x100 < 2
  {
    hide CodeAt, Steps, Execute, Signed, Read, FromLe, GateBody;
    GateEnters(s, d);
    GateReturns(back, s.rip, d);
    WrapAdd(s.regs.rsp, -0x28, 0x28);
    WrapAdd(s.regs.rsp, -0x28, 0x30);
    Small(s.regs.rsp);
  }
}

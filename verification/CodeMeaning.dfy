/** What the instructions that the resolver follows do on the processor, and what the
    resolved places have to do with each other. */
module CodeMeaning {
  import opened Wrappers
  import opened X64
  import opened Trampolines
  import opened PeImage
  import opened Scanners
  import opened MenuGate
  import opened GateResolver
  import opened HookTargets
  import opened HookBundle
  import HookInstall

  // ---------- references ----------

  /** The instructions that count: a REX.W prefix, the opcode, and a ModRM byte that
      selects any register and RIP-relative addressing. */
  lemma LeaBytes(image: Image, rva: nat)
    ensures IsLea(image, rva) <==>
              && BytesOf(image, rva, 1)[0] in {0x48, 0x49, 0x4A, 0x4B, 0x4C, 0x4D, 0x4E, 0x4F}
              && BytesOf(image, rva + 1, 1)[0] == 0x8D
              && BytesOf(image, rva + 2, 1)[0] in {0x05, 0x0D, 0x15, 0x1D, 0x25, 0x2D, 0x35, 0x3D}
  {
    hide BytesOf;
    var modRm := BytesOf(image, rva + 2, 1)[0];
    if modRm / 64 == 0 && modRm % 8 == 5 {
      assert modRm == 8 * (modRm / 8) + 5 && modRm / 8 < 8;
    }
  }

  lemma EncodesLea(modRm: Byte, d: seq<Byte>)
    requires |d| == 4 && AddressRegister(modRm).Some?
    ensures Encodes([0x48, 0x8D, modRm] + d, LoadAddress(AddressRegister(modRm).value, Signed(d)))
  {
    forall c: seq<Byte> | |c| == 15 && [0x48, 0x8D, modRm] + d <= c ensures c[3..7] == d {
    }
  }

  lemma LeaCode(image: Image, rva: nat, modRm: Byte)
    requires BytesOf(image, rva, 1)[0] == 0x48 && BytesOf(image, rva + 1, 1)[0] == 0x8D
    requires BytesOf(image, rva + 2, 1)[0] == modRm
    ensures CodeAt(image.memory, Wrap(image.base + rva), [0x48, 0x8D, modRm] + BytesOf(image, rva + 3, 4))
  {
    var all := BytesOf(image, rva, 7);
    BytesStand(image, rva, 7);
    Part(image, rva, 7, 0, 1);
    Part(image, rva, 7, 1, 1);
    Part(image, rva, 7, 2, 1);
    Part(image, rva, 7, 3, 4);
    hide *;
    assert rva + 0 == rva;
    assert all[0] == all[0..1][0] && all[1] == all[1..2][0] && all[2] == all[2..3][0];
    assert all == [all[0], all[1], all[2]] + all[3..7];
  }

  lemma IsLeaWith(image: Image, rva: nat, modRm: Byte)
    requires BytesOf(image, rva, 1)[0] == 0x48 && BytesOf(image, rva + 1, 1)[0] == 0x8D
    requires BytesOf(image, rva + 2, 1)[0] == modRm && AddressRegister(modRm).Some?
    ensures IsLea(image, rva)
  {
    hide BytesOf;
  }

  lemma LeaResult(register: Register, d: int, next: Word, s: Machine)
    ensures Execute(LoadAddress(register, d), next, s).regs.Get(register) == Wrap(next + d)
  {
  }

  lemma RefersMeans(image: Image, rva: nat, target: nat)
    requires IsLea(image, rva) && target < MODULUS
    ensures RefersTo(image, rva, target) <==> rva + 7 + Signed(BytesOf(image, rva + 3, 4)) == target
  {
    hide Signed, BytesOf, IsLea;
  }

  lemma LeaStep(image: Image, rva: nat, modRm: Byte, s: Machine)
    requires image.base + rva + 7 < MODULUS
    requires s.memory == image.memory && s.rip == image.base + rva
    requires BytesOf(image, rva, 1)[0] == 0x48 && BytesOf(image, rva + 1, 1)[0] == 0x8D
    requires BytesOf(image, rva + 2, 1)[0] == modRm && AddressRegister(modRm).Some?
    ensures Step(s) == Some(Execute(LoadAddress(AddressRegister(modRm).value, Signed(BytesOf(image, rva + 3, 4))),
                                    image.base + rva + 7, s))
  {
    hide *;
    var register, d := AddressRegister(modRm).value, BytesOf(image, rva + 3, 4);
    EncodesLea(modRm, d);
    LeaCode(image, rva, modRm);
    Small(s.rip);
    Small(image.base + rva + 7);
    StepEncoded(s, [0x48, 0x8D, modRm] + d, LoadAddress(register, Signed(d)));
  }

  /** A reference in the image: the sites that refer to a target are those whose
      instruction loads the target's address (shown for the registers of the model). */
  lemma ReferencesLoadTheTarget(image: Image, rva: nat, target: nat, modRm: Byte, s: Machine)
    requires Loaded(image) && rva + 7 <= image.size && target < image.size && image.size <= 0x4000_0000
    requires s.memory == image.memory && s.rip == image.base + rva
    requires BytesOf(image, rva, 1)[0] == 0x48 && BytesOf(image, rva + 1, 1)[0] == 0x8D
    requires BytesOf(image, rva + 2, 1)[0] == modRm && AddressRegister(modRm).Some?
    ensures Step(s).Some?
    ensures RefersTo(image, rva, target) <==>
              Step(s).value.regs.Get(AddressRegister(modRm).value) == image.base + target
  {
    hide *;
    var register, d := AddressRegister(modRm).value, BytesOf(image, rva + 3, 4);
    IsLeaWith(image, rva, modRm);
    LoadedFits(image);
    LeaStep(image, rva, modRm, s);
    LeaResult(register, Signed(d), image.base + rva + 7, s);
    DisplacementBound(d);
    NoAmbiguity(image.base, rva + 7, Signed(d), target);
    RefersMeans(image, rva, target);
  }

  // ---------- names ----------

  /** The names the compiler gives this lambda, spelled out. */
  lemma LambdaNamesIff(name: string)
    ensures IsHdrMenuLambdaName(name) <==>
              exists hash: string ::
                && |hash| == 32 && (forall c <- hash :: '0' <= c <= '9' || 'a' <= c <= 'f' || 'A' <= c <= 'F')
                && name == ".?AV?$_Func_impl@V<lambda_" + (hash + ">@@V?$allocator@H@std@@_N$$V@std@@")
  {
    hide IsHdrMenuLambdaName;
    assert forall c :: IsHexDigit(c) <==> '0' <= c <= '9' || 'a' <= c <= 'f' || 'A' <= c <= 'F';
  }

  // ---------- the places of a bundle ----------

  lemma MatchIsCode(image: Image, signature: Signature, rva: nat, n: nat)
    requires Loaded(image) && OnlyMatch(image, signature, rva) && n <= signature.length
    ensures InCode(image, rva, n)
  {
    hide BytesOf;
    var s: Site :| IsOnlySite(image, SignatureSites(image, signature), s, rva);
    assert s in SignatureSites(image, signature);
    assert image.sections[s.section] in image.sections;
    assert image.sections[s.section].Contains(rva, n);
  }

  /** In a linked image the cookie lies apart from the routine's prologue, so patching
      that cannot change it. */
  lemma CookieIsApart(image: Image, signature: Signature, availability: nat, cookie: nat)
    requires Loaded(image) && SectionsApart(image) && 14 <= signature.length
    requires OnlyMatch(image, signature, availability) && IsCookieOf(image, availability, cookie)
    ensures image.base + cookie < MODULUS && image.base + availability < MODULUS
    ensures HookInstall.Disjoint(image.base + cookie, 8, image.base + availability, 14)
  {
    hide BytesOf, SignatureSites, Backed, AvailabilityPrologue, OnlyMatch;
    MatchIsCode(image, signature, availability, 14);
    DataIsNotCode(image, cookie, 8, availability, 14);
  }

  /** Nor is any entry of the menu's vtable, the gate among them, within the vtable. */
  lemma VtableIsApart(image: Image, gate: nat, v: VtableMatch)
    requires SectionsApart(image) && Describes(image, gate, v)
    ensures forall e <- v.entries :: v.rva + 48 <= e || e + 1 <= v.rva - 8
    ensures v.rva + 48 <= gate || gate + 1 <= v.rva - 8
  {
    hide PointsTo, IsLocatorOf, InData, InCode;
    VtableLayout(image, gate, v);
    forall e | e in v.entries ensures v.rva + 48 <= e || e + 1 <= v.rva - 8 {
      var i :| 0 <= i < 6 && v.entries[i] == e;
      assert InCode(image, v.entries[i], 1);
      DataIsNotCode(image, v.rva - 8, 56, e, 1);
    }
    assert v.entries[2] in v.entries;
  }
}

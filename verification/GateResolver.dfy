/** Resolving the HDR menu gate's vtable: every RIP-relative LEA in executable code is
    followed, and exactly one vtable must be referred to, at least twice. */
module GateResolver {
  import opened Wrappers
  import opened X64
  import opened PeImage
  import opened Scanners
  import opened MenuGate

  datatype ResolveError = Unreadable | NotOneCandidate | TooFewReferences

  // ---------- references ----------

  /** lea r64, [rip + disp32] */
  ghost predicate IsLea(image: Image, rva: nat) {
    && BytesOf(image, rva, 1)[0] / 8 == 9
    && BytesOf(image, rva + 1, 1)[0] == 0x8D
    && BytesOf(image, rva + 2, 1)[0] / 64 == 0 && BytesOf(image, rva + 2, 1)[0] % 8 == 5
  }

  ghost predicate RefersTo(image: Image, rva: nat, target: nat) {
    IsLea(image, rva) && RelativeTarget(rva + 7, Signed(BytesOf(image, rva + 3, 4))) == Some(target)
  }

  ghost predicate RefersToGate(image: Image, rva: nat, gate: nat) {
    exists t :: RefersTo(image, rva, t) && IsMenuGateVtable(image, t, gate)
  }

  /** The places in executable sections that refer to some vtable of the gate. */
  ghost function References(image: Image, gate: nat): iset<Site> {
    iset s: Site | && s.section < |image.sections| && image.sections[s.section].executable
                   && s.offset + 7 <= image.sections[s.section].size
                   && RefersToGate(image, RvaOf(image, s), gate)
  }

  /** What must hold for a vtable to be accepted: at least two references, and every
      reference to a vtable of the gate is a reference to this one. */
  ghost predicate ResolvesTo(image: Image, gate: nat, vtable: nat) {
    && (exists s, t :: s in References(image, gate) && t in References(image, gate) && s != t)
    && forall s <- References(image, gate) :: RefersTo(image, RvaOf(image, s), vtable)
  }

  /** The masks that pick out the opcode's fixed bits. */
  lemma Masks(b: Byte)
    ensures And(b, 0xF8) == 0x48 <==> b / 8 == 9
    ensures And(b, 0xC7) == 0x05 <==> b / 64 == 0 && b % 8 == 5
  {
    MaskBits(b);
  }

  lemma MaskBits(b: Byte)
    ensures And(b, 0xF8) == 8 * (b / 8)
    ensures And(b, 0xC7) == 64 * (b / 64) + b % 8
  {
    hide AndBits, TwoTo;
    var b1 := b / 2;
    var b2 := b1 / 2;
    var b3 := b2 / 2;
    var b4 := b3 / 2;
    var b5 := b4 / 2;
    var b6 := b5 / 2;
    assert b3 == b / 8 && b6 == b / 64;
    AndBitsParts(b, 248, 7);
    AndBitsParts(b1, 124, 6);
    AndBitsParts(b2, 62, 5);
    FiveBits(b3);
    AndBitsParts(b, 199, 7);
    AndBitsParts(b1, 99, 6);
    AndBitsParts(b2, 49, 5);
    AndBitsParts(b3, 24, 4);
    AndBitsParts(b4, 12, 3);
    AndBitsParts(b5, 6, 2);
    TwoBits(b6);
  }

  lemma FiveBits(x: nat)
    requires x < 32
    ensures AndBits(x, 31, 5) == x
  {
    assert TwoTo(5) == 32;
    LowBits(x, 5);
  }

  lemma TwoBits(x: nat)
    requires x < 4
    ensures AndBits(x, 3, 2) == x
  {
    assert TwoTo(2) == 4;
    LowBits(x, 2);
  }

  lemma LowBits(x: nat, bits: nat)
    requires x < TwoTo(bits)
    ensures AndBits(x, TwoTo(bits) - 1, bits) == x
    decreases bits
  {
    if bits != 0 {
      LowBits(x / 2, bits - 1);
    }
  }

  // ---------- counting candidates ----------

  /** The candidates are the distinct targets seen so far, each described and with the
      number of times it was seen. */
  ghost predicate Tallied(image: Image, gate: nat, candidates: seq<VtableMatch>, targets: seq<nat>) {
    && (forall i, j :: 0 <= i < j < |candidates| ==> candidates[i].rva != candidates[j].rva)
    && (forall i :: 0 <= i < |candidates| ==> Counted(image, gate, candidates[i], targets))
    && forall t <- targets :: exists i :: 0 <= i < |candidates| && candidates[i].rva == t
  }

  ghost predicate Counted(image: Image, gate: nat, c: VtableMatch, targets: seq<nat>) {
    Describes(image, gate, c) && c.references == multiset(targets)[c.rva] && c.references != 0
  }

  method Tally(image: Image, gate: nat, candidates: seq<VtableMatch>, validated: VtableMatch, ghost targets: seq<nat>)
    returns (updated: seq<VtableMatch>)
    requires Tallied(image, gate, candidates, targets)
    requires Describes(image, gate, validated) && validated.references == 1
    ensures Tallied(image, gate, updated, targets + [validated.rva])
  {
    hide Describes;
    ghost var all := targets + [validated.rva];
    var i := 0;
    while i < |candidates| && candidates[i].rva != validated.rva
      invariant i <= |candidates| && forall j :: 0 <= j < i ==> candidates[j].rva != validated.rva
    {
      i := i + 1;
    }
    if i < |candidates| {
      updated := candidates[i := candidates[i].(references := candidates[i].references + 1)];
      ReferencesAreNotDescribed(image, gate, candidates[i], candidates[i].references + 1);
    } else {
      updated := candidates + [validated];
      assert validated.rva !in targets;
    }
    forall j | 0 <= j < |updated| ensures Counted(image, gate, updated[j], all) {
      assert j < |candidates| ==> Counted(image, gate, candidates[j], targets);
    }
    forall t | t in all ensures exists j :: 0 <= j < |updated| && updated[j].rva == t {
      if t in targets {
        var j :| 0 <= j < |candidates| && candidates[j].rva == t;
        assert updated[j].rva == t;
      } else {
        assert updated[i].rva == t;
      }
    }
  }

  lemma ReferencesAreNotDescribed(image: Image, gate: nat, v: VtableMatch, n: nat)
    requires Describes(image, gate, v)
    ensures Describes(image, gate, v.(references := n))
  {
    hide IsPlausible, PointsTo, IsLocatorOf, AreEntries;
  }

  /** One candidate is left iff all targets are the same. */
  lemma OneCandidate(image: Image, gate: nat, candidates: seq<VtableMatch>, targets: seq<nat>)
    requires Tallied(image, gate, candidates, targets)
    ensures |candidates| == 1 <==> targets != [] && forall t <- targets :: t == targets[0]
    ensures |candidates| == 1 ==> candidates[0].rva == targets[0] && candidates[0].references == |targets|
  {
    hide Describes;
    forall i | 0 <= i < |candidates| ensures candidates[i].rva in targets {
      assert Counted(image, gate, candidates[i], targets);
    }
    if |candidates| == 1 {
      assert candidates[0].rva in targets && targets[0] in targets;
      forall t | t in targets ensures t == candidates[0].rva {
        var i :| 0 <= i < |candidates| && candidates[i].rva == t;
      }
      AllTheSame(targets, candidates[0].rva);
      assert Counted(image, gate, candidates[0], targets);
    } else if targets != [] {
      assert targets[0] in targets;
      assert |candidates| > 1;
      assert candidates[0].rva in targets && candidates[1].rva in targets && candidates[0].rva != candidates[1].rva;
    }
  }

  lemma {:induction false} AllTheSame(targets: seq<nat>, t: nat)
    requires forall u <- targets :: u == t
    ensures multiset(targets)[t] == |targets|
    decreases |targets|
  {
    if targets != [] {
      assert targets[0] in targets;
      forall u | u in targets[1..] ensures u == t {
        assert u in targets;
      }
      AllTheSame(targets[1..], t);
      assert targets == [targets[0]] + targets[1..];
    }
  }

  // ---------- the scan ----------

  /** The target of the LEA at this place of a section, if there is one. */
  method DecodeLea(image: Image, section: Section, bytes: seq<Byte>, offset: nat) returns (target: Option<nat>)
    requires offset + 7 <= section.size && bytes == BytesOf(image, section.rva, section.size)
    ensures forall t: nat :: target == Some(t) <==> RefersTo(image, section.At(offset), t)
  {
    hide BytesOf, Signed, And;
    FirstByte(image, section, offset);
    FirstByte(image, section, offset + 1);
    FirstByte(image, section, offset + 2);
    Window(image, section, offset + 3, 4);
    var rex, modRm := bytes[offset], bytes[offset + 2];
    Masks(rex);
    Masks(modRm);
    if And(rex, 0xF8) != 0x48 || bytes[offset + 1] != 0x8D || And(modRm, 0xC7) != 0x05 {
      return None;
    }
    var displacement := Signed(bytes[offset + 3..offset + 7]);
    return RelativeTarget(section.rva + offset + 7, displacement);
  }

  lemma PlausibleFirst(image: Image, vtable: nat, gate: nat)
    ensures IsMenuGateVtable(image, vtable, gate) ==> IsPlausible(image, vtable, gate)
  {
    hide IsPlausible, PointsTo, IsLocatorOf, AreEntries;
  }

  /** The vtable that the code at this place of a section refers to, checked and described. */
  method CheckReference(image: Image, section: Section, bytes: seq<Byte>, offset: nat, gate: nat)
    returns (found: Option<VtableMatch>)
    requires Loaded(image) && offset + 7 <= section.size
    requires bytes == BytesOf(image, section.rva, section.size)
    ensures found.Some? <==> RefersToGate(image, section.At(offset), gate)
    ensures found.Some? ==> && RefersTo(image, section.At(offset), found.value.rva)
                            && Describes(image, gate, found.value) && found.value.references == 1
  {
    hide RefersTo, IsMenuGateVtable, IsPlausible, Describes, Loaded, BytesOf;
    var target := DecodeLea(image, section, bytes, offset);
    if target.None? {
      return None;
    }
    PlausibleFirst(image, target.value, gate);
    var plausible := Plausible(image, target.value, gate);
    if !plausible {
      return None;
    }
    found := ValidateMenuGateVtable(image, target.value, gate);
  }

  /** The vtables referred to by the hits. */
  ghost predicate Targets(image: Image, hits: seq<Site>, targets: seq<nat>) {
    |targets| == |hits| && forall k :: 0 <= k < |hits| ==>
      hits[k].section < |image.sections| && RefersTo(image, RvaOf(image, hits[k]), targets[k])
  }

  /** Resolves the gate's vtable: succeeds iff all executable code can be read and
      exactly one vtable is referred to, at least twice; the count it reports is the
      number of references. */
  method ResolveMenuGateVtable(image: Image, gate: nat)
    returns (result: Result<VtableMatch, ResolveError>, ghost hits: seq<Site>)
    requires Loaded(image)
    ensures result.Ok? <==> AllScannable(image) && exists t :: ResolvesTo(image, gate, t)
    ensures result.Ok? ==> && ResolvesTo(image, gate, result.value.rva) && Describes(image, gate, result.value)
                           && Enumerates(hits, References(image, gate)) && result.value.references == |hits| >= 2
    ensures result == Err(Unreadable) <==> !AllScannable(image)
    ensures result == Err(TooFewReferences) <==>
              AllScannable(image) && exists s: Site :: References(image, gate) == iset{s}
  {
    hide Enumerates, BytesOf, Scannable, Loaded, Upto, Describes, RefersTo, RefersToGate, Tallied;
    ghost var sites := References(image, gate);
    var candidates: seq<VtableMatch> := [];
    ghost var targets: seq<nat> := [];
    hits := [];
    NothingPassed(sites);
    NothingTallied(image, gate);
    for i := 0 to |image.sections|
      invariant ScannableUpto(image, i)
      invariant Enumerates(hits, Upto(sites, i, 0))
      invariant Targets(image, hits, targets) && Tallied(image, gate, candidates, targets)
    {
      var section := image.sections[i];
      if !section.executable {
        SectionPassed(sites, i, 0);
        continue;
      }
      var bytes := SectionBytes(image, section);
      if bytes.Err? {
        return Err(Unreadable), hits;
      }
      if |bytes.value| < 7 {
        SectionPassed(sites, i, 0);
        continue;
      }
      for offset := 0 to |bytes.value| - 6
        invariant Enumerates(hits, Upto(sites, i, offset))
        invariant Targets(image, hits, targets) && Tallied(image, gate, candidates, targets)
      {
        Passed(sites, i, offset, hits);
        assert RvaOf(image, Site(i, offset)) == section.rva + offset;
        var validated := CheckReference(image, section, bytes.value, offset, gate);
        if validated.Some? {
          candidates := Tally(image, gate, candidates, validated.value, targets);
          hits := hits + [Site(i, offset)];
          targets := targets + [validated.value.rva];
        }
      }
      SectionPassed(sites, i, |bytes.value| - 6);
    }
    AllPassed(image, sites);
    OneCandidate(image, gate, candidates, targets);
    Conclusion(image, gate, hits, targets);
    if |candidates| != 1 {
      return Err(NotOneCandidate), hits;
    }
    var candidate := candidates[0];
    if candidate.references < 2 {
      return Err(TooFewReferences), hits;
    }
    CandidateIsDescribed(image, gate, candidates, targets);
    return Ok(candidate), hits;
  }

  lemma NothingTallied(image: Image, gate: nat)
    ensures Tallied(image, gate, [], [])
  {
  }

  lemma CandidateIsDescribed(image: Image, gate: nat, candidates: seq<VtableMatch>, targets: seq<nat>)
    requires Tallied(image, gate, candidates, targets) && candidates != []
    ensures Describes(image, gate, candidates[0])
  {
    assert Counted(image, gate, candidates[0], targets);
  }

  lemma TargetIsUnique(image: Image, rva: nat, a: nat, b: nat)
    requires RefersTo(image, rva, a) && RefersTo(image, rva, b)
    ensures a == b
  {
  }

  lemma ResolvedTargets(image: Image, gate: nat, hits: seq<Site>, targets: seq<nat>, t: nat)
    requires Enumerates(hits, References(image, gate)) && Targets(image, hits, targets)
    requires ResolvesTo(image, gate, t)
    ensures |hits| >= 2 && forall k :: 0 <= k < |targets| ==> targets[k] == t
  {
    hide RefersTo, References;
    var sites := References(image, gate);
    var a, b :| a in sites && b in sites && a != b;
    assert a in hits && b in hits;
    forall k | 0 <= k < |targets| ensures targets[k] == t {
      assert hits[k] in hits;
      TargetIsUnique(image, RvaOf(image, hits[k]), targets[k], t);
    }
  }

  /** What the list of hits says about the set of references. */
  lemma Conclusion(image: Image, gate: nat, hits: seq<Site>, targets: seq<nat>)
    requires Enumerates(hits, References(image, gate)) && Targets(image, hits, targets)
    ensures (exists t :: ResolvesTo(image, gate, t)) <==> |hits| >= 2 && forall u <- targets :: u == targets[0]
    ensures |hits| >= 2 && (forall u <- targets :: u == targets[0]) ==> ResolvesTo(image, gate, targets[0])
    ensures |hits| == 1 <==> exists s: Site :: References(image, gate) == iset{s}
  {
    hide RefersTo, References;
    var sites := References(image, gate);
    if t :| ResolvesTo(image, gate, t) {
      ResolvedTargets(image, gate, hits, targets, t);
    }
    if |hits| >= 2 && forall u <- targets :: u == targets[0] {
      assert hits[0] in hits && hits[1] in hits && Before(hits[0], hits[1]);
      assert hits[0] in sites && hits[1] in sites;
      forall s | s in sites ensures RefersTo(image, RvaOf(image, s), targets[0]) {
        assert s in hits;
        var k :| 0 <= k < |hits| && hits[k] == s;
        assert targets[k] in targets;
      }
      assert hits[0] != hits[1];
      assert ResolvesTo(image, gate, targets[0]);
    }
    if |hits| == 1 {
      assert sites == iset{hits[0]};
    }
    if s: Site :| sites == iset{s} {
      EnumerationIsUnique(hits, [s], sites);
    }
  }
}

/** Exhaustive scans over the executable sections of an image. */
module Scanners {
  import opened Wrappers
  import opened X64
  import opened PeImage

  // ---------- sites ----------

  datatype Site = Site(section: nat, offset: nat)

  predicate Before(a: Site, b: Site) {
    a.section < b.section || (a.section == b.section && a.offset < b.offset)
  }

  /** The hits are the sites, each once, in the order of the scan. */
  ghost predicate Enumerates(hits: seq<Site>, sites: iset<Site>) {
    && (forall i, j :: 0 <= i < j < |hits| ==> Before(hits[i], hits[j]))
    && forall s: Site :: s in hits <==> s in sites
  }

  /** Whatever enumerates a set of sites is determined by it. */
  lemma {:induction false} EnumerationIsUnique(a: seq<Site>, b: seq<Site>, sites: iset<Site>)
    requires Enumerates(a, sites) && Enumerates(b, sites)
    ensures a == b
    decreases |a|
  {
    assert a != [] ==> a[0] in a && a[0] in b;
    assert b != [] ==> b[0] in b && b[0] in a;
    if a != [] {
      var i :| 0 <= i < |b| && b[i] == a[0];
      assert i == 0;
      var rest := iset s | s in sites && s != a[0];
      TailEnumerates(a, sites, rest);
      TailEnumerates(b, sites, rest);
      EnumerationIsUnique(a[1..], b[1..], rest);
      assert a == [a[0]] + a[1..] && b == [b[0]] + b[1..];
    }
  }

  lemma TailEnumerates(a: seq<Site>, sites: iset<Site>, rest: iset<Site>)
    requires Enumerates(a, sites) && a != [] && rest == iset s | s in sites && s != a[0]
    ensures Enumerates(a[1..], rest)
  {
    forall s: Site ensures s in a[1..] <==> s in rest {
      if s in a[1..] {
        var i :| 0 <= i < |a[1..]| && a[1..][i] == s;
        assert Before(a[0], a[i + 1]);
      }
    }
  }

  /** The sites a scan has passed when it stands at this place. */
  ghost function Upto(sites: iset<Site>, section: nat, offset: nat): iset<Site> {
    iset s | s in sites && Before(s, Site(section, offset))
  }

  lemma Passed(sites: iset<Site>, i: nat, o: nat, hits: seq<Site>)
    requires Enumerates(hits, Upto(sites, i, o))
    ensures Site(i, o) in sites ==> Enumerates(hits + [Site(i, o)], Upto(sites, i, o + 1))
    ensures Site(i, o) !in sites ==> Enumerates(hits, Upto(sites, i, o + 1))
  {
    forall s: Site | s in Upto(sites, i, o + 1) ensures s in Upto(sites, i, o) || s == Site(i, o) {
    }
    if Site(i, o) in sites {
      forall k | 0 <= k < |hits| ensures Before(hits[k], Site(i, o)) {
        assert hits[k] in hits;
      }
    }
  }

  lemma SectionPassed(sites: iset<Site>, i: nat, o: nat)
    requires forall s <- sites :: s.section == i ==> s.offset < o
    ensures Upto(sites, i, o) == Upto(sites, i + 1, 0)
  {
  }

  lemma NothingPassed(sites: iset<Site>)
    ensures Enumerates([], Upto(sites, 0, 0))
  {
  }

  lemma AllPassed(image: Image, sites: iset<Site>)
    requires InExecutableSections(image, sites)
    ensures Upto(sites, |image.sections|, 0) == sites
  {
  }

  ghost predicate InExecutableSections(image: Image, sites: iset<Site>) {
    forall s <- sites :: s.section < |image.sections| && image.sections[s.section].executable
                         && s.offset <= image.sections[s.section].size
  }

  ghost function RvaOf(image: Image, site: Site): nat
    requires site.section < |image.sections|
  {
    image.sections[site.section].At(site.offset)
  }

  /** These are the addresses of the hits. */
  ghost predicate Locates(image: Image, hits: seq<Site>, rvas: seq<nat>) {
    |rvas| == |hits| && forall k :: 0 <= k < |hits| ==>
      hits[k].section < |image.sections| && rvas[k] == RvaOf(image, hits[k])
  }

  /** Every executable section can be read in full. */
  ghost predicate AllScannable(image: Image) {
    ScannableUpto(image, |image.sections|)
  }

  ghost predicate ScannableUpto(image: Image, n: nat) {
    forall k :: 0 <= k < n && k < |image.sections| && image.sections[k].executable ==>
      Scannable(image, image.sections[k])
  }

  /** Reading a window of a section is reading at the window's address. */
  lemma Window(image: Image, section: Section, offset: nat, length: nat)
    requires offset + length <= section.size
    ensures BytesOf(image, section.rva, section.size)[offset..offset + length]
            == BytesOf(image, section.rva + offset, length)
  {
    var start := Wrap(image.base + section.rva);
    ReadSlice(image.memory, start, section.size, offset, offset + length);
    WrapAdd(image.base, section.rva, offset);
  }

  // ---------- signatures ----------

  datatype Segment = Segment(offset: Word, bytes: seq<Byte>)

  datatype Signature = Signature(length: nat, segments: seq<Segment>) {
    predicate Matches(bytes: seq<Byte>) {
      && length <= |bytes|
      && forall segment <- segments ::
           var end := segment.offset + |segment.bytes|;
           end < MODULUS && end <= length && bytes[segment.offset..end] == segment.bytes
    }

    /** Some segment prescribes the byte at i. */
    predicate Covers(i: nat) {
      exists segment <- segments :: segment.offset <= i < segment.offset + |segment.bytes|
    }
  }

  /** Byte by byte: a signature matches exactly if every byte of every segment stands in
      its place within the signature's length. */
  lemma MatchesIffEveryByteDoes(signature: Signature, bytes: seq<Byte>)
    requires signature.length <= |bytes| < MODULUS
    ensures signature.Matches(bytes) <==>
              forall segment <- signature.segments ::
                && segment.offset + |segment.bytes| <= signature.length
                && forall k :: 0 <= k < |segment.bytes| ==> StandsAt(segment, k, bytes)
  {
    if forall segment <- signature.segments ::
         && segment.offset + |segment.bytes| <= signature.length
         && forall k :: 0 <= k < |segment.bytes| ==> StandsAt(segment, k, bytes)
    {
      forall segment | segment in signature.segments
        ensures bytes[segment.offset..segment.offset + |segment.bytes|] == segment.bytes
      {
        forall k | 0 <= k < |segment.bytes|
          ensures bytes[segment.offset..segment.offset + |segment.bytes|][k] == segment.bytes[k]
        {
          assert StandsAt(segment, k, bytes);
        }
      }
    }
    if signature.Matches(bytes) {
      forall segment, k | segment in signature.segments && 0 <= k < |segment.bytes|
        ensures StandsAt(segment, k, bytes)
      {
        assert bytes[segment.offset..segment.offset + |segment.bytes|][k] == segment.bytes[k];
      }
    }
  }

  predicate StandsAt(segment: Segment, k: nat, bytes: seq<Byte>) {
    k < |segment.bytes| && segment.offset + k < |bytes| && bytes[segment.offset + k] == segment.bytes[k]
  }

  /** Given one match, the others are exactly the byte strings that agree with it
      on the covered positions: no covered byte is ignored, and no other one matters. */
  lemma MatchesAreDeterminedByCoveredBytes(signature: Signature, a: seq<Byte>, b: seq<Byte>)
    requires signature.Matches(a) && signature.length <= |b|
    ensures signature.Matches(b) <==> forall i: nat :: signature.Covers(i) ==> a[i] == b[i]
  {
    if signature.Matches(b) {
      forall i: nat | signature.Covers(i) ensures a[i] == b[i] {
        var segment :| segment in signature.segments && segment.offset <= i < segment.offset + |segment.bytes|;
        var k := i - segment.offset;
        var end := segment.offset + |segment.bytes|;
        assert a[segment.offset..end][k] == b[segment.offset..end][k];
      }
    }
    if forall i: nat :: signature.Covers(i) ==> a[i] == b[i] {
      forall segment | segment in signature.segments
        ensures b[segment.offset..segment.offset + |segment.bytes|] == segment.bytes
      {
        var end := segment.offset + |segment.bytes|;
        forall k | 0 <= k < |segment.bytes| ensures b[segment.offset..end][k] == a[segment.offset..end][k] {
          assert signature.Covers(segment.offset + k);
        }
      }
    }
  }

  ghost function SignatureSites(image: Image, signature: Signature): iset<Site> {
    iset s: Site | && s.section < |image.sections| && image.sections[s.section].executable
                   && s.offset + signature.length <= image.sections[s.section].size
                   && signature.Matches(BytesOf(image, RvaOf(image, s), signature.length))
  }

  /** All places where a signature matches, or an error if some executable section
      cannot be read. */
  method FindSignature(image: Image, signature: Signature)
    returns (result: Result<seq<nat>, ReadError>, ghost hits: seq<Site>)
    requires Loaded(image)
    ensures result.Ok? <==> AllScannable(image)
    ensures result.Ok? ==> Enumerates(hits, SignatureSites(image, signature)) && Locates(image, hits, result.value)
  {
    hide Enumerates, Read, Scannable, Loaded, Upto;
    hide Signature.Matches;
    ghost var sites := SignatureSites(image, signature);
    var rvas: seq<nat> := [];
    hits := [];
    NothingPassed(sites);
    for i := 0 to |image.sections|
      invariant ScannableUpto(image, i)
      invariant Enumerates(hits, Upto(sites, i, 0)) && Locates(image, hits, rvas)
    {
      var section := image.sections[i];
      if !section.executable {
        SectionPassed(sites, i, 0);
        continue;
      }
      var bytes := SectionBytes(image, section);
      if bytes.Err? {
        return Err(bytes.error), hits;
      }
      if |bytes.value| < signature.length {
        SectionPassed(sites, i, 0);
        continue;
      }
      var last := |bytes.value| - signature.length;
      for offset := 0 to last + 1
        invariant Enumerates(hits, Upto(sites, i, offset)) && Locates(image, hits, rvas)
      {
        Window(image, section, offset, signature.length);
        assert RvaOf(image, Site(i, offset)) == section.rva + offset;
        Passed(sites, i, offset, hits);
        if signature.Matches(bytes.value[offset..offset + signature.length]) {
          rvas := rvas + [section.rva + offset];
          hits := hits + [Site(i, offset)];
        }
      }
      SectionPassed(sites, i, last + 1);
    }
    AllPassed(image, sites);
    return Ok(rvas), hits;
  }

  // ---------- relative calls ----------

  /** The place `displacement` bytes from the next instruction, if it is an address at all. */
  function RelativeTarget(next: nat, displacement: int): (target: Option<nat>)
    ensures forall t: nat :: target == Some(t) <==> t == next + displacement && t < MODULUS
  {
    var t := next + displacement;
    if 0 <= t < MODULUS then Some(t) else None
  }

  /** call rel32 */
  ghost predicate IsCallTo(image: Image, rva: nat, target: nat) {
    BytesOf(image, rva, 1)[0] == 0xE8
    && RelativeTarget(rva + 5, Signed(BytesOf(image, rva + 1, 4))) == Some(target)
  }

  ghost function CallSites(image: Image, target: nat): iset<Site> {
    iset s: Site | && s.section < |image.sections| && image.sections[s.section].executable
                   && s.offset + 5 <= image.sections[s.section].size
                   && IsCallTo(image, RvaOf(image, s), target)
  }

  lemma FirstByte(image: Image, section: Section, offset: nat)
    requires offset < section.size
    ensures BytesOf(image, section.rva, section.size)[offset] == BytesOf(image, section.rva + offset, 1)[0]
  {
    Window(image, section, offset, 1);
    var bytes := BytesOf(image, section.rva, section.size);
    assert bytes[offset..offset + 1][0] == bytes[offset];
  }

  method FindDirectCallsTo(image: Image, target: nat)
    returns (result: Result<seq<nat>, ReadError>, ghost hits: seq<Site>)
    requires Loaded(image)
    ensures result.Ok? <==> AllScannable(image)
    ensures result.Ok? ==> Enumerates(hits, CallSites(image, target)) && Locates(image, hits, result.value)
  {
    hide Enumerates, Read, Scannable, Loaded, Upto, Signed;
    ghost var sites := CallSites(image, target);
    var rvas: seq<nat> := [];
    hits := [];
    NothingPassed(sites);
    for i := 0 to |image.sections|
      invariant ScannableUpto(image, i)
      invariant Enumerates(hits, Upto(sites, i, 0)) && Locates(image, hits, rvas)
    {
      var section := image.sections[i];
      if !section.executable {
        SectionPassed(sites, i, 0);
        continue;
      }
      var found := SectionBytes(image, section);
      if found.Err? {
        return Err(found.error), hits;
      }
      var bytes := found.value;
      if |bytes| < 5 {
        SectionPassed(sites, i, 0);
        continue;
      }
      for offset := 0 to |bytes| - 4
        invariant Enumerates(hits, Upto(sites, i, offset)) && Locates(image, hits, rvas)
      {
        FirstByte(image, section, offset);
        Window(image, section, offset + 1, 4);
        assert RvaOf(image, Site(i, offset)) == section.rva + offset;
        Passed(sites, i, offset, hits);
        if bytes[offset] != 0xE8 {
          continue;
        }
        var displacement := Signed(bytes[offset + 1..offset + 5]);
        var rva := section.rva + offset;
        if RelativeTarget(rva + 5, displacement) == Some(target) {
          rvas := rvas + [rva];
          hits := hits + [Site(i, offset)];
        }
      }
      SectionPassed(sites, i, |bytes| - 4);
    }
    AllPassed(image, sites);
    return Ok(rvas), hits;
  }

  // ---------- uniqueness ----------

  /** Accepts a scan with exactly one hit. */
  function RequireUnique(matches: seq<nat>): (r: Option<nat>)
    ensures forall x :: r == Some(x) <==> matches == [x]
  {
    if |matches| == 1 then Some(matches[0]) else None
  }

  ghost predicate IsOnlySite(image: Image, sites: iset<Site>, s: Site, rva: nat) {
    sites == iset{s} && s.section < |image.sections| && RvaOf(image, s) == rva
  }

  /** A scan passes the uniqueness test iff its set of sites is a singleton, and what
      it returns is that site's address. */
  lemma UniqueIffOneSite(image: Image, hits: seq<Site>, rvas: seq<nat>, sites: iset<Site>, x: nat)
    requires Enumerates(hits, sites) && Locates(image, hits, rvas)
    ensures RequireUnique(rvas) == Some(x) <==>
              exists s: Site :: IsOnlySite(image, sites, s, x)
  {
    if RequireUnique(rvas) == Some(x) {
      assert hits == [hits[0]];
      assert IsOnlySite(image, sites, hits[0], x);
    }
    if s: Site :| IsOnlySite(image, sites, s, x) {
      assert s in hits;
      EnumerationIsUnique(hits, [s], sites);
      assert rvas == [x];
    }
  }
}

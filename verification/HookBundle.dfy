/** All targets resolved together, or none. */
module HookBundle {
  import opened Wrappers
  import opened X64
  import opened Trampolines
  import opened PeImage
  import opened Scanners
  import opened MenuGate
  import opened GateResolver
  import opened HookTargets

  datatype Signatures = Signatures(availability: Signature, config: Signature, backend: Signature)

  datatype Targets = Targets(availability: nat, gate: nat, vtable: VtableMatch, config: nat, backend: nat, cookie: nat)

  /** The addresses on record for a known build of the game. */
  datatype KnownTargets = KnownTargets(availability: nat, gate: nat, vtable: nat, locator: nat, entries: seq<nat>,
                                       config: nat, backend: nat, cookie: nat)

  predicate Agrees(known: Option<KnownTargets>, t: Targets) {
    known.Some? ==>
      known.value == KnownTargets(t.availability, t.gate, t.vtable.rva, t.vtable.locator, t.vtable.entries,
                                  t.config, t.backend, t.cookie)
  }

  ghost predicate OnlyMatch(image: Image, signature: Signature, rva: nat) {
    exists s: Site :: IsOnlySite(image, SignatureSites(image, signature), s, rva)
  }

  ghost predicate IsGateCaller(image: Image, availability: nat, rva: nat) {
    4 <= rva && IsGateOf(image, rva - 4, availability)
  }

  ghost predicate Checkable(image: Image, rva: nat) {
    4 <= rva ==> Backed(image, rva - 4, 19)
  }

  /** The routine has two callers that can be examined, and only one of them is a gate. */
  ghost predicate OnlyGate(image: Image, availability: nat, gate: nat) {
    exists a: Site, b: Site :: TwoCallers(image, availability, a, b)
      && IsGateCaller(image, availability, RvaOf(image, a)) && !IsGateCaller(image, availability, RvaOf(image, b))
      && RvaOf(image, a) == gate + 4
  }

  ghost predicate TwoCallers(image: Image, availability: nat, a: Site, b: Site) {
    && a != b && CallSites(image, availability) == iset{a, b}
    && a.section < |image.sections| && b.section < |image.sections|
    && Checkable(image, RvaOf(image, a)) && Checkable(image, RvaOf(image, b))
  }

  ghost predicate Bundle(image: Image, signatures: Signatures, t: Targets) {
    && AllScannable(image)
    && OnlyMatch(image, signatures.availability, t.availability)
    && OnlyGate(image, t.availability, t.gate)
    && ResolvesTo(image, t.gate, t.vtable.rva) && Describes(image, t.gate, t.vtable)
    && OnlyMatch(image, signatures.config, t.config) && Backed(image, t.config, 14)
    && OnlyMatch(image, signatures.backend, t.backend) && Backed(image, t.backend, 14)
    && IsCookieOf(image, t.availability, t.cookie)
  }

  // ---------- the steps ----------

  method UniqueMatch(image: Image, signature: Signature) returns (rva: Option<nat>)
    requires Loaded(image)
    ensures forall x: nat :: rva == Some(x) <==> AllScannable(image) && OnlyMatch(image, signature, x)
  {
    hide Enumerates, SignatureSites, AllScannable, Loaded, Locates;
    var found, hits := FindSignature(image, signature);
    if found.Err? {
      return None;
    }
    forall x { UniqueIffOneSite(image, hits, found.value, SignatureSites(image, signature), x); }
    return RequireUnique(found.value);
  }

  /** The gates among some callers, in order. */
  ghost function Gates(image: Image, availability: nat, callers: seq<nat>): seq<nat> {
    if callers == [] then []
    else
      var rest := Gates(image, availability, callers[..|callers| - 1]);
      var last := callers[|callers| - 1];
      if IsGateCaller(image, availability, last) then rest + [last - 4] else rest
  }

  method GatesAmong(image: Image, availability: nat, callers: seq<nat>) returns (gates: Option<seq<nat>>)
    requires Loaded(image)
    ensures gates.Some? <==> forall c <- callers :: Checkable(image, c)
    ensures gates.Some? ==> gates.value == Gates(image, availability, callers)
  {
    hide IsGateOf, Backed, Loaded;
    var found: seq<nat> := [];
    for k := 0 to |callers|
      invariant found == Gates(image, availability, callers[..k])
      invariant forall i :: 0 <= i < k ==> Checkable(image, callers[i])
    {
      assert callers[..k + 1][..k] == callers[..k];
      if 4 <= callers[k] {
        var matches := MenuGateBodyMatches(image, callers[k] - 4, availability);
        if matches.Err? {
          assert !Checkable(image, callers[k]);
          return None;
        }
        if matches.value {
          found := found + [callers[k] - 4];
        }
      }
    }
    assert callers[..|callers|] == callers;
    return Some(found);
  }

  lemma TwoSites(hits: seq<Site>, sites: iset<Site>)
    requires Enumerates(hits, sites)
    ensures |hits| == 2 ==> hits[0] != hits[1] && sites == iset{hits[0], hits[1]}
    ensures forall a, b: Site :: a != b && sites == iset{a, b} ==> hits == [a, b] || hits == [b, a]
  {
    if |hits| == 2 {
      assert hits == [hits[0], hits[1]] && Before(hits[0], hits[1]);
    }
    forall a: Site, b: Site | a != b && sites == iset{a, b} ensures hits == [a, b] || hits == [b, a] {
      if Before(a, b) {
        EnumerationIsUnique(hits, [a, b], sites);
      } else {
        EnumerationIsUnique(hits, [b, a], sites);
      }
    }
  }

  method FindGate(image: Image, availability: nat) returns (gate: Option<nat>)
    requires Loaded(image)
    ensures forall g: nat :: gate == Some(g) <==> AllScannable(image) && OnlyGate(image, availability, g)
  {
    hide Enumerates, CallSites, AllScannable, Loaded, IsGateCaller, Checkable;
    var found, hits := FindDirectCallsTo(image, availability);
    if found.Err? {
      return None;
    }
    TwoSites(hits, CallSites(image, availability));
    var callers := found.value;
    if |callers| != 2 {
      return None;
    }
    var gates := GatesAmong(image, availability, callers);
    OnlyGateOfHits(image, availability, hits, callers);
    return if gates.None? then None else RequireUnique(gates.value);
  }

  lemma GatesOfTwo(image: Image, availability: nat, x: nat, y: nat)
    ensures Gates(image, availability, [x, y]) ==
            (if IsGateCaller(image, availability, x) then [x - 4] else [])
            + (if IsGateCaller(image, availability, y) then [y - 4] else [])
  {
    hide IsGateCaller;
    assert [x, y][..1] == [x] && [x][..0] == [];
    assert Gates(image, availability, []) == [];
    assert Gates(image, availability, [x]) == if IsGateCaller(image, availability, x) then [x - 4] else [];
  }

  lemma OnlyGateIsFound(image: Image, availability: nat, hits: seq<Site>, callers: seq<nat>, g: nat)
    requires Enumerates(hits, CallSites(image, availability)) && Locates(image, hits, callers)
    requires OnlyGate(image, availability, g)
    ensures |callers| == 2 && Checkable(image, callers[0]) && Checkable(image, callers[1])
    ensures Gates(image, availability, callers) == [g]
  {
    hide Enumerates, CallSites, IsGateCaller, Checkable, Gates;
    TwoSites(hits, CallSites(image, availability));
    var a: Site, b: Site :| && TwoCallers(image, availability, a, b)
      && IsGateCaller(image, availability, RvaOf(image, a)) && !IsGateCaller(image, availability, RvaOf(image, b))
      && RvaOf(image, a) == g + 4;
    assert hits == [a, b] || hits == [b, a];
    assert callers == [callers[0], callers[1]];
    GatesOfTwo(image, availability, callers[0], callers[1]);
  }

  lemma FoundGateIsOnly(image: Image, availability: nat, hits: seq<Site>, callers: seq<nat>, g: nat)
    requires Enumerates(hits, CallSites(image, availability)) && Locates(image, hits, callers)
    requires |callers| == 2 && Checkable(image, callers[0]) && Checkable(image, callers[1])
    requires Gates(image, availability, callers) == [g]
    ensures OnlyGate(image, availability, g)
  {
    hide Enumerates, CallSites, IsGateOf, Checkable, Gates;
    TwoSites(hits, CallSites(image, availability));
    assert callers == [callers[0], callers[1]];
    GatesOfTwo(image, availability, callers[0], callers[1]);
    assert iset{hits[0], hits[1]} == iset{hits[1], hits[0]};
    assert TwoCallers(image, availability, hits[0], hits[1]) && TwoCallers(image, availability, hits[1], hits[0]);
    var k := if IsGateCaller(image, availability, callers[0]) then 0 else 1;
    assert IsGateCaller(image, availability, callers[k]) && !IsGateCaller(image, availability, callers[1 - k]);
    assert Gates(image, availability, callers) == [callers[k] - 4];
    assert [callers[k] - 4][0] == g;
  }

  lemma OnlyGateOfHits(image: Image, availability: nat, hits: seq<Site>, callers: seq<nat>)
    requires Enumerates(hits, CallSites(image, availability)) && Locates(image, hits, callers)
    ensures |callers| != 2 ==> forall g :: !OnlyGate(image, availability, g)
    ensures |callers| == 2 ==> forall g: nat ::
              OnlyGate(image, availability, g) <==>
                (forall c <- callers :: Checkable(image, c)) && Gates(image, availability, callers) == [g]
  {
    hide Enumerates, CallSites, Locates, OnlyGate, Checkable, Gates;
    forall g: nat | OnlyGate(image, availability, g)
      ensures |callers| == 2 && Checkable(image, callers[0]) && Checkable(image, callers[1])
      ensures Gates(image, availability, callers) == [g]
    {
      OnlyGateIsFound(image, availability, hits, callers, g);
    }
    if |callers| == 2 {
      assert callers[0] in callers && callers[1] in callers;
      forall g: nat | Checkable(image, callers[0]) && Checkable(image, callers[1])
                      && Gates(image, availability, callers) == [g]
        ensures OnlyGate(image, availability, g)
      {
        FoundGateIsOnly(image, availability, hits, callers, g);
      }
    }
  }

  // ---------- everything ----------

  /** Resolves all targets, or none. It succeeds exactly when there is a bundle that
      agrees with what is on record for a known build. */
  method Resolve(image: Image, signatures: Signatures, known: Option<KnownTargets>) returns (result: Option<Targets>)
    requires Loaded(image)
    ensures result.Some? ==> Bundle(image, signatures, result.value) && Agrees(known, result.value)
    ensures result.None? ==> !exists t :: Bundle(image, signatures, t) && Agrees(known, t)
    ensures result.Some? && known.Some? ==>
              var r, k := result.value, known.value;
              && r.availability == k.availability && r.gate == k.gate && r.cookie == k.cookie
              && r.vtable.rva == k.vtable && r.vtable.locator == k.locator && r.vtable.entries == k.entries
              && r.config == k.config && r.backend == k.backend
  {
    hide OnlyMatch, OnlyGate, ResolvesTo, Describes, IsCookieOf, Backed, AllScannable, Loaded, Enumerates, References;
    var availability := UniqueMatch(image, signatures.availability);
    if availability.None? {
      return None;
    }
    var gate := FindGate(image, availability.value);
    if gate.None? {
      return None;
    }
    var vtable, hits := ResolveMenuGateVtable(image, gate.value);
    if vtable.Err? {
      return None;
    }
    var config := UniqueMatch(image, signatures.config);
    if config.None? {
      return None;
    }
    var backend := UniqueMatch(image, signatures.backend);
    if backend.None? {
      return None;
    }
    var cookie := ResolveSecurityCookie(image, availability.value);
    if cookie.None? {
      return None;
    }
    var configPrologue := BytesAt(image, config.value, 14);
    var backendPrologue := BytesAt(image, backend.value, 14);
    if configPrologue.Err? || backendPrologue.Err? {
      return None;
    }
    var t := Targets(availability.value, gate.value, vtable.value, config.value, backend.value, cookie.value);
    forall u | Bundle(image, signatures, u) ensures Agrees(known, u) <==> Agrees(known, t) {
      BundleIsUnique(image, signatures, t, u);
    }
    return if Agrees(known, t) then Some(t) else None;
  }

  lemma OnlyMatchIsUnique(image: Image, signature: Signature, x: nat, y: nat)
    requires OnlyMatch(image, signature, x) && OnlyMatch(image, signature, y)
    ensures x == y
  {
    hide SignatureSites;
    var sites := SignatureSites(image, signature);
    var s: Site, t: Site :| IsOnlySite(image, sites, s, x) && IsOnlySite(image, sites, t, y);
    assert s in iset{t};
  }

  lemma OnlyGateIsUnique(image: Image, availability: nat, g: nat, h: nat)
    requires OnlyGate(image, availability, g) && OnlyGate(image, availability, h)
    ensures g == h
  {
    hide CallSites, IsGateCaller, Checkable;
    var a: Site, b: Site :| && TwoCallers(image, availability, a, b)
      && IsGateCaller(image, availability, RvaOf(image, a)) && !IsGateCaller(image, availability, RvaOf(image, b))
      && RvaOf(image, a) == g + 4;
    var c: Site, d: Site :| && TwoCallers(image, availability, c, d)
      && IsGateCaller(image, availability, RvaOf(image, c)) && !IsGateCaller(image, availability, RvaOf(image, d))
      && RvaOf(image, c) == h + 4;
    assert c in iset{a, b};
  }

  lemma VtableIsUnique(image: Image, gate: nat, v: VtableMatch, w: VtableMatch)
    requires ResolvesTo(image, gate, v.rva) && Describes(image, gate, v)
    requires ResolvesTo(image, gate, w.rva) && Describes(image, gate, w)
    ensures w == v.(references := w.references)
  {
    hide RefersTo, Describes, RefersToGate;
    var s :| s in References(image, gate);
    TargetIsUnique(image, RvaOf(image, s), v.rva, w.rva);
    DescriptionIsUnique(image, gate, v, w);
  }

  lemma CookieIsUnique(image: Image, availability: nat, a: nat, b: nat)
    requires IsCookieOf(image, availability, a) && IsCookieOf(image, availability, b)
    ensures a == b
  {
    hide Signed, BytesOf, AvailabilityPrologue;
    var d: seq<Byte> :| LoadsCookie(image, availability, d, a);
    var e: seq<Byte> :| LoadsCookie(image, availability, e, b);
    PrologueParts(d);
    PrologueParts(e);
  }

  /** An image determines its bundle, up to the count of references. */
  lemma BundleIsUnique(image: Image, signatures: Signatures, t: Targets, u: Targets)
    requires Bundle(image, signatures, t) && Bundle(image, signatures, u)
    ensures u == t.(vtable := t.vtable.(references := u.vtable.references))
  {
    hide OnlyMatch, OnlyGate, ResolvesTo, Describes, IsCookieOf, Backed, AllScannable;
    OnlyMatchIsUnique(image, signatures.availability, t.availability, u.availability);
    OnlyMatchIsUnique(image, signatures.config, t.config, u.config);
    OnlyMatchIsUnique(image, signatures.backend, t.backend, u.backend);
    OnlyGateIsUnique(image, t.availability, t.gate, u.gate);
    VtableIsUnique(image, t.gate, t.vtable, u.vtable);
    CookieIsUnique(image, t.availability, t.cookie, u.cookie);
  }

  /** A signature that prescribes the first bytes of a routine fixes its prologue. */
  lemma SignaturePinsPrologue(image: Image, signature: Signature, segment: Segment, rva: nat, n: nat)
    requires OnlyMatch(image, signature, rva)
    requires segment in signature.segments && segment.offset == 0 && n <= |segment.bytes|
    ensures BytesOf(image, rva, n) == segment.bytes[..n]
  {
    hide BytesOf;
    var s: Site :| IsOnlySite(image, SignatureSites(image, signature), s, rva);
    assert s in SignatureSites(image, signature);
    var length := |segment.bytes|;
    assert rva + 0 == rva;
    Part(image, rva, signature.length, 0, length);
    assert BytesOf(image, rva, length) == segment.bytes;
    Part(image, rva, length, 0, n);
  }
}

/** The active swap chain with its revision counter, and the one-entry eligibility
    cache keyed by both. */
module ActiveChain {
  import opened Wrappers

  /** An address; 0 is null. */
  type Address = nat

  datatype Active = Active(chain: Address, revision: nat)

  function Note(a: Active, chain: Address): Active {
    if chain == 0 || chain == a.chain then a else Active(chain, a.revision + 1)
  }

  function NoteReconfigured(a: Active, chain: Address): Active {
    if chain == a.chain then Active(a.chain, a.revision + 1) else a
  }

  function Retire(a: Active, chain: Address): Active {
    if chain == a.chain then Active(0, a.revision + 1) else a
  }

  function RevisionOf(a: Active, chain: Address): nat {
    if chain == a.chain then a.revision else 0
  }

  datatype Cache = Cache(chain: Address, revision: nat, eligible: Option<bool>)

  predicate Hit(c: Cache, chain: Address, revision: nat) {
    c.chain == chain && c.revision == revision && c.eligible.Some?
  }

  /** Looks a chain up, inspecting it on a miss; a failed inspection counts as
      ineligible and is cached as such. */
  function Lookup(c: Cache, chain: Address, revision: nat, inspection: Option<bool>): (Cache, bool) {
    if Hit(c, chain, revision) then (c, c.eligible.value)
    else
      var eligible := inspection == Some(true);
      (Cache(chain, revision, Some(eligible)), eligible)
  }

  /** Everything together with the truth: what inspecting each captured chain would
      find. Inspecting any other chain fails. */
  datatype World = World(active: Active, cache: Cache, captured: map<Address, bool>)

  const INITIAL: World := World(Active(0, 1), Cache(0, 0, None), map[])

  datatype Event =
    | Create(chain: Address, eligible: bool)       // hooked by the factory, becomes active
    | Adopt(chain: Address, eligible: bool)        // hooked through QueryInterface
    | Reconfigure(chain: Address, eligible: bool)  // a hooked call that may change eligibility
    | Release(chain: Address)                      // the last reference is gone
    | BackendSeen(chain: Address)                  // notes the backend's chain without asking about it
    | BackendQuery(chain: Address)                 // notes the backend's chain and looks it up
    | Availability                                 // looks the active chain up

  function Inspect(w: World, chain: Address): Option<bool> {
    if chain != 0 && chain in w.captured then Some(w.captured[chain]) else None
  }

  predicate Truth(w: World, chain: Address) {
    Inspect(w, chain) == Some(true)
  }

  /** What the lookup an event performs, if any, is about. */
  function Asked(w: World, e: Event): Option<Address> {
    match e
    case BackendQuery(chain) => Some(chain)
    case Availability => if w.active.chain == 0 then None else Some(w.active.chain)
    case _ => None
  }

  function Answer(w: World, e: Event): Option<bool> {
    var chain := Asked(w, e);
    if chain.None? then None
    else
      var active := Note(w.active, chain.value);
      Some(Lookup(w.cache, chain.value, RevisionOf(active, chain.value), Inspect(w, chain.value)).1)
  }

  function Next(w: World, e: Event): World {
    match e
    case Create(chain, eligible) =>
      if chain == 0 then w
      else w.(captured := w.captured[chain := eligible], active := Note(w.active, chain))
    case Adopt(chain, eligible) =>
      if chain == 0 then w else w.(captured := w.captured[chain := eligible])
    case Reconfigure(chain, eligible) =>
      if chain !in w.captured then w
      else w.(captured := w.captured[chain := eligible], active := NoteReconfigured(w.active, chain))
    case Release(chain) =>
      if chain !in w.captured then w
      else w.(captured := w.captured - {chain}, active := Retire(w.active, chain))
    case BackendSeen(chain) => w.(active := Note(w.active, chain))
    case BackendQuery(chain) =>
      var active := Note(w.active, chain);
      w.(active := active, cache := Lookup(w.cache, chain, RevisionOf(active, chain), Inspect(w, chain)).0)
    case Availability =>
      if w.active.chain == 0 then w
      else w.(cache := Lookup(w.cache, w.active.chain, w.active.revision, Inspect(w, w.active.chain)).0)
  }

  function Run(w: World, events: seq<Event>): World
    decreases |events|
  {
    if events == [] then w else Run(Next(w, events[0]), events[1..])
  }

  /** A chain is captured at the address that is already active, with another
      inspection result than before: nothing tells the cache. */
  predicate Surprise(w: World, e: Event) {
    (e.Create? || e.Adopt?) && e.chain == w.active.chain && Truth(w, e.chain) != e.eligible && e.chain != 0
  }

  /** A surprise matters only while the cache would answer for the active chain. */
  predicate Misleads(w: World, e: Event) {
    Surprise(w, e) && Hit(w.cache, w.active.chain, w.active.revision)
  }

  predicate NeverMisled(w: World, events: seq<Event>)
    decreases |events|
  {
    events == [] || (!Misleads(w, events[0]) && NeverMisled(Next(w, events[0]), events[1..]))
  }

  ghost predicate Valid(w: World) {
    && 1 <= w.active.revision && w.cache.revision <= w.active.revision
    && 0 !in w.captured
    && (w.cache.chain == 0 ==> w.cache.eligible != Some(true))
  }

  /** The cache speaks the truth about the active chain whenever it would be hit. */
  ghost predicate Coherent(w: World) {
    Hit(w.cache, w.active.chain, w.active.revision) ==> w.cache.eligible.value == Truth(w, w.active.chain)
  }

  lemma NextIsValid(w: World, e: Event)
    requires Valid(w)
    ensures Valid(Next(w, e))
    ensures Next(w, e).active.chain != w.active.chain ==> Next(w, e).active.revision > w.active.revision
    ensures Coherent(w) ==> (Coherent(Next(w, e)) <==> !Misleads(w, e))
  {
  }

  lemma {:induction false} RunIsCoherent(w: World, events: seq<Event>)
    requires Valid(w) && Coherent(w) && NeverMisled(w, events)
    ensures Valid(Run(w, events)) && Coherent(Run(w, events))
    decreases |events|
  {
    if events != [] {
      NextIsValid(w, events[0]);
      RunIsCoherent(Next(w, events[0]), events[1..]);
    }
  }

  /** Every answer the hooks get equals a fresh inspection, hit or miss, through
      releases and address reuse. */
  lemma AnswersAreFresh(events: seq<Event>, query: Event)
    requires NeverMisled(INITIAL, events)
    requires Asked(Run(INITIAL, events), query).Some?
    ensures var w := Run(INITIAL, events);
            Answer(w, query) == Some(Truth(w, Asked(w, query).value))
  {
    RunIsCoherent(INITIAL, events);
    var w := Run(INITIAL, events);
    var chain := Asked(w, query).value;
    var active := Note(w.active, chain);
    assert Lookup(w.cache, chain, RevisionOf(active, chain), Inspect(w, chain)).1 == Truth(w, chain);
  }

  /** Whether capturing a chain leaves the next answer about it correct: unless it
      was a surprise that a current cache entry hides. */
  lemma AnswerAfterCaptureIff(w: World, e: Event)
    requires Valid(w) && Coherent(w) && (e.Create? || e.Adopt?) && e.chain != 0
    ensures var after := Next(w, e);
            Answer(after, BackendQuery(e.chain)) == Some(Truth(after, e.chain))
            <==> !Misleads(w, e)
  {
  }

  /** Such a run exists: the backend names a chain before it is captured. */
  lemma SurpriseBreaksCoherence()
    ensures exists events, query ::
              var w := Run(INITIAL, events);
              Asked(w, query) == Some(7) && Answer(w, query) == Some(false) && Truth(w, 7)
  {
    var events := [BackendQuery(7), Adopt(7, true)];
    assert events[1..] == [Adopt(7, true)] && events[1..][1..] == [];
    assert Run(INITIAL, events) == Next(Next(INITIAL, events[0]), events[1]);
    assert Answer(Run(INITIAL, events), Availability) == Some(false);
  }

  /** The revision rises with every change of the active chain, so a key is never
      reused for a chain that was active before. */
  lemma {:induction false} KeysAreNotReused(w: World, events: seq<Event>)
    requires Valid(w)
    ensures Valid(Run(w, events))
    ensures w.active.revision <= Run(w, events).active.revision
    ensures Run(w, events).active.revision == w.active.revision ==> Run(w, events).active == w.active
    decreases |events|
  {
    if events != [] {
      NextIsValid(w, events[0]);
      KeysAreNotReused(Next(w, events[0]), events[1..]);
    }
  }

  // ---------- which chain is active ----------

  /** The events that name a chain as the active one. */
  predicate Names(e: Event, chain: Address) {
    (e.Create? || e.BackendSeen? || e.BackendQuery?) && e.chain == chain && chain != 0
  }

  predicate NamesAnother(e: Event, chain: Address) {
    (e.Create? || e.BackendSeen? || e.BackendQuery?) && e.chain != chain && e.chain != 0
  }

  predicate NeverNamed(chain: Address, events: seq<Event>) {
    forall e <- events :: !Names(e, chain)
  }

  lemma {:induction false} UnnamedStaysInactive(w: World, chain: Address, events: seq<Event>)
    requires chain != 0 && w.active.chain != chain && NeverNamed(chain, events)
    ensures Run(w, events).active.chain != chain
    decreases |events|
  {
    if events != [] {
      assert events[0] in events;
      UnnamedStaysInactive(Next(w, events[0]), chain, events[1..]);
    }
  }

  /** After the last release of a captured chain it is not active until it is created
      or named again; if it was active, nothing is. */
  lemma ReleasedStaysInactive(w: World, chain: Address, events: seq<Event>)
    requires Valid(w) && chain in w.captured && NeverNamed(chain, events)
    ensures Run(Next(w, Release(chain)), events).active.chain != chain
    ensures w.active.chain == chain ==> Next(w, Release(chain)).active.chain == 0
    ensures chain !in Next(w, Release(chain)).captured
  {
    UnnamedStaysInactive(Next(w, Release(chain)), chain, events);
  }

  /** A chain that is named is active, and stays so until another one is named or it is
      released. */
  lemma {:induction false} NamedStaysActive(w: World, chain: Address, events: seq<Event>)
    requires w.active.chain == chain && forall e <- events :: !NamesAnother(e, chain) && e != Release(chain)
    ensures Run(w, events).active.chain == chain
    decreases |events|
  {
    if events != [] {
      assert events[0] in events;
      NamedStaysActive(Next(w, events[0]), chain, events[1..]);
    }
  }

  lemma NamingActivates(w: World, e: Event, chain: Address)
    requires Names(e, chain)
    ensures Next(w, e).active.chain == chain
    ensures Next(w, e).active.revision == w.active.revision + if w.active.chain != chain then 1 else 0
  {
  }

  /** Only a reconfiguration or release of the active chain counts without naming another. */
  lemma OthersDoNotCount(w: World, e: Event)
    requires Valid(w) && (e.Reconfigure? || e.Release?) && e.chain in w.captured
    ensures Next(w, e).active.revision == w.active.revision + if e.chain == w.active.chain then 1 else 0
    ensures e.chain != w.active.chain ==> Next(w, e).active == w.active
  {
  }

  // ---------- what the cache remembers ----------

  /** An answer is remembered: asked again under the same key, the cache gives it without
      regard to what an inspection would say by then. */
  lemma AnswersAreRemembered(c: Cache, chain: Address, revision: nat, first: Option<bool>, later: Option<bool>)
    ensures var (filled, answer) := Lookup(c, chain, revision, first);
            Lookup(filled, chain, revision, later) == (filled, answer)
  {
  }

  /** It has one entry: under any other key the inspection decides, and a failed one
      means not eligible. */
  lemma OtherKeysAreInspected(c: Cache, chain: Address, revision: nat, inspection: Option<bool>)
    requires c.chain != chain || c.revision != revision || c.eligible.None?
    ensures Lookup(c, chain, revision, inspection).1 <==> inspection == Some(true)
  {
  }

  /** The key's revision is 0 exactly for chains that are not active. */
  lemma ZeroRevisionIff(w: World, chain: Address)
    requires Valid(w)
    ensures RevisionOf(w.active, chain) == 0 <==> chain != w.active.chain
    ensures chain == w.active.chain ==> RevisionOf(w.active, chain) == w.active.revision
  {
  }

  // ---------- the state as the program keeps it ----------

  class ActiveSwapChain {
    var chain: Address
    var revision: nat

    function View(): Active
      reads this
    {
      Active(chain, revision)
    }

    constructor ()
      ensures View() == Active(0, 1)
    {
      chain, revision := 0, 1;
    }

    method NoteActive(swapChain: Address)
      modifies this
      ensures View() == Note(old(View()), swapChain)
    {
      if swapChain == 0 {
        return;
      }
      var previous := chain;
      chain := swapChain;
      if previous != swapChain {
        revision := revision + 1;
      }
    }

    method NoteReconfiguration(swapChain: Address)
      modifies this
      ensures View() == NoteReconfigured(old(View()), swapChain)
    {
      if chain == swapChain {
        revision := revision + 1;
      }
    }

    method NoteRelease(swapChain: Address)
      modifies this
      ensures View() == Retire(old(View()), swapChain)
    {
      if chain == swapChain {
        chain := 0;
        revision := revision + 1;
      }
    }
  }

  class CandidateCache {
    var chain: Address
    var revision: nat
    var eligible: Option<bool>

    function View(): Cache
      reads this
    {
      Cache(chain, revision, eligible)
    }

    constructor ()
      ensures View() == Cache(0, 0, None)
    {
      chain, revision, eligible := 0, 0, None;
    }

    method IsEligible(swapChain: Address, atRevision: nat, inspection: Option<bool>) returns (result: bool)
      modifies this
      ensures (View(), result) == Lookup(old(View()), swapChain, atRevision, inspection)
    {
      if chain == swapChain && revision == atRevision && eligible.Some? {
        return eligible.value;
      }
      chain := swapChain;
      revision := atRevision;
      eligible := None;
      match inspection {
        case Some(found) =>
          eligible := Some(found);
          return found;
        case None =>
          eligible := Some(false);
          return false;
      }
    }
  }

  /** The hooks that ask about a chain. `captured` is the truth they cannot see; the
      inspection they may perform is passed in. */
  class Eligibility {
    const active: ActiveSwapChain
    const cache: CandidateCache
    ghost var captured: map<Address, bool>

    ghost function View(): World
      reads this, active, cache
    {
      World(active.View(), cache.View(), captured)
    }

    constructor ()
      ensures View() == INITIAL && fresh(active) && fresh(cache)
    {
      active := new ActiveSwapChain();
      cache := new CandidateCache();
      captured := map[];
    }

    /** The candidate check of the backend query, for the chain the backend names. */
    method BackendCandidate(swapChain: Address, inspection: Option<bool>) returns (candidate: bool)
      requires Valid(View()) && Coherent(View()) && inspection == Inspect(View(), swapChain)
      modifies active, cache
      ensures View() == Next(old(View()), BackendQuery(swapChain))
      ensures Valid(View()) && Coherent(View())
      ensures candidate <==> Truth(View(), swapChain)
    {
      NextIsValid(View(), BackendQuery(swapChain));
      active.NoteActive(swapChain);
      var revision := if active.chain == swapChain then active.revision else 0;
      candidate := cache.IsEligible(swapChain, revision, inspection);
    }

    /** The availability query, answered for the active chain. */
    method CommonAvailability(native: bool, overrideEnabled: bool, inspection: Option<bool>) returns (effective: bool)
      requires Valid(View()) && Coherent(View()) && inspection == Inspect(View(), active.chain)
      modifies cache
      ensures View() == if overrideEnabled && !native then Next(old(View()), Availability) else old(View())
      ensures Valid(View()) && Coherent(View())
      ensures effective <==> native || (overrideEnabled && Truth(View(), active.chain))
    {
      NextIsValid(View(), Availability);
      var candidate := false;
      if overrideEnabled && !native && active.chain != 0 {
        candidate := cache.IsEligible(active.chain, active.revision, inspection);
      }
      effective := native || (overrideEnabled && candidate);
    }
  }
}

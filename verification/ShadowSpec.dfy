/** What installing and expanding an object-local shadow vtable does to the tables
    involved, as values: the shadow's slots, the saved originals and the entry
    counts of its generations, newest first. */
module ShadowSpec {
  import opened Wrappers

  datatype Kind = Factory | SwapChain

  /** A function pointer in a vtable slot. `Own(kind, index)` is our replacement for
      that slot; everything else is some other address. */
  datatype Entry = Null | Own(kind: Kind, index: nat) | Other(address: nat)

  const FACTORY_LENGTHS: set<nat> := {12, 14, 25, 26, 28, 29, 30, 32}
  const SWAP_CHAIN_LENGTHS: set<nat> := {18, 29, 36, 40, 41}

  /** The table lengths of the COM interfaces that are ever hooked. */
  predicate InterfaceLength(kind: Kind, n: nat) {
    n in if kind.Factory? then FACTORY_LENGTHS else SWAP_CHAIN_LENGTHS
  }

  /** The slots hooked in a table of n entries. */
  function HookList(kind: Kind, n: nat): seq<nat> {
    match kind
    case Factory => [0, 2, 10] + if n > 24 then [15, 16, 24] else []
    case SwapChain =>
      [0, 2, 8, 10, 13, 14]
      + (if n > 22 then [22] else [])
      + (if n > 38 then [37, 38] else [])
      + (if n > 39 then [39] else [])
      + (if n > 40 then [40] else [])
  }

  /** The slots that have a replacement at all. */
  predicate HasReplacement(kind: Kind, i: nat) {
    match kind
    case Factory => i in {0, 2, 10, 15, 16, 24}
    case SwapChain => i in {0, 2, 8, 10, 13, 14, 22, 37, 38, 39, 40}
  }

  predicate Fits(kind: Kind, n: nat) {
    n > 0 && forall i <- HookList(kind, n) :: i < n
  }

  /** Every hooked original exists and is not already our replacement. */
  predicate Usable(kind: Kind, originals: seq<Entry>)
    requires Fits(kind, |originals|)
  {
    forall i <- HookList(kind, |originals|) :: originals[i] != Null && originals[i] != Own(kind, i)
  }

  lemma HooksAreReplacements(kind: Kind, n: nat, i: nat)
    ensures i in HookList(kind, n) ==> HasReplacement(kind, i)
    ensures InterfaceLength(kind, n) && HasReplacement(kind, i) && i < n ==> i in HookList(kind, n)
    ensures InterfaceLength(kind, n) ==> Fits(kind, n)
  {
  }

  lemma HooksGrow(kind: Kind, m: nat, n: nat, i: nat)
    requires m <= n && i in HookList(kind, m)
    ensures i in HookList(kind, n)
  {
  }

  datatype Shadow = Shadow(kind: Kind, slots: seq<Entry>, originals: seq<Entry>, counts: seq<nat>)

  datatype InstallError =
    | NoTable | NoFit | CloneFailed | UnusableOriginal | ProtectFailed | SwapFailed | LostRace
    | NoRoom | UnprotectFailed | ReprotectFailed

  function Hook(kind: Kind, n: nat, slots: seq<Entry>): (r: seq<Entry>)
    ensures |r| == |slots|
  {
    seq(|slots|, i requires 0 <= i < |slots| => if i in HookList(kind, n) then Own(kind, i) else slots[i])
  }

  /** Like `Hook`, but a slot that was hooked before and no longer holds our
      replacement has been wrapped by somebody else, and stays. */
  function Rehook(kind: Kind, old_n: nat, n: nat, slots: seq<Entry>): (r: seq<Entry>)
    ensures |r| == |slots|
  {
    seq(|slots|, i requires 0 <= i < |slots| =>
      if i in HookList(kind, n) && !(i < old_n && slots[i] != Own(kind, i)) then Own(kind, i) else slots[i])
  }

  /** A first installation over the table `root`. */
  function Fresh(kind: Kind, root: seq<Entry>, n: nat): Result<Shadow, InstallError> {
    if !Fits(kind, n) then Err(NoFit)
    else if n > |root| then Err(CloneFailed)
    else if !Usable(kind, root[..n]) then Err(UnusableOriginal)
    else Ok(Shadow(kind, Hook(kind, n, root), root[..n], [n]))
  }

  predicate WellFormed(sh: Shadow) {
    && sh.counts != []
    && |sh.originals| == sh.counts[0] <= |sh.slots|
    && Fits(sh.kind, sh.counts[0])
    && Usable(sh.kind, sh.originals)
    && forall i, j :: 0 <= i < j < |sh.counts| ==> sh.counts[j] < sh.counts[i]
  }

  /** A further installation, of an interface with n entries, on the same object. */
  function Again(sh: Shadow, n: nat): Result<Shadow, InstallError>
    requires WellFormed(sh)
  {
    var count := sh.counts[0];
    if !Fits(sh.kind, n) then Err(NoFit)
    else if n <= count then Ok(sh)
    else if n > |sh.slots| then Err(NoRoom)
    else
      var originals := sh.originals + sh.slots[count..n];
      if !Usable(sh.kind, originals) then Err(UnusableOriginal)
      else Ok(Shadow(sh.kind, Rehook(sh.kind, count, n, sh.slots), originals, [n] + sh.counts))
  }

  lemma FreshIsWellFormed(kind: Kind, root: seq<Entry>, n: nat)
    ensures Fresh(kind, root, n).Ok? ==> WellFormed(Fresh(kind, root, n).value)
  {
  }

  lemma AgainIsWellFormed(sh: Shadow, n: nat)
    requires WellFormed(sh)
    ensures Again(sh, n).Ok? ==> WellFormed(Again(sh, n).value)
  {
  }

  /** A first installation hooks every listed slot, leaves all others, and saves the
      original of each slot of the interface. */
  lemma FreshHooksEverySlot(kind: Kind, root: seq<Entry>, n: nat)
    requires Fresh(kind, root, n).Ok?
    ensures var sh := Fresh(kind, root, n).value;
            && sh.kind == kind && |sh.slots| == |root| && |sh.originals| == n && sh.counts == [n]
            && (forall i: nat :: i < |root| ==>
                  sh.slots[i] == if i in HookList(kind, n) then Own(kind, i) else root[i])
            && (forall i: nat :: i < n ==> sh.originals[i] == root[i])
  {
  }

  /** Every listed slot is hooked unless it was one of the first `count` and somebody
      had wrapped it; all others are as before. */
  ghost predicate HookedUnlessWrapped(kind: Kind, n: nat, count: nat, before: seq<Entry>, after: seq<Entry>) {
    |after| == |before| && forall i: nat :: i < |after| ==>
      if i !in HookList(kind, n) || (i < count && before[i] != Own(kind, i)) then after[i] == before[i]
      else after[i] == Own(kind, i)
  }

  /** That is what an expansion does; new originals are what stood in the new slots. */
  lemma AgainHooksEverySlot(sh: Shadow, n: nat)
    requires WellFormed(sh) && Again(sh, n).Ok?
    ensures var r := Again(sh, n).value;
            && HookedUnlessWrapped(sh.kind, n, sh.counts[0], sh.slots, r.slots)
            && |r.originals| == (if n > sh.counts[0] then n else sh.counts[0])
            && (forall i: nat :: i < |r.originals| ==>
                  r.originals[i] == if i < sh.counts[0] then sh.originals[i] else sh.slots[i])
  {
    hide HookList, Usable;
  }

  /** The slots that are hooked in the longest interfaces. */
  lemma FullHookLists(i: nat)
    ensures i in HookList(Factory, 32) <==> i in {0, 2, 10, 15, 16, 24}
    ensures i in HookList(SwapChain, 41) <==> i in {0, 2, 8, 10, 13, 14, 22, 37, 38, 39, 40}
  {
  }

  /** A shorter interface has those of them that it has slots for. */
  lemma ShorterHookLists(kind: Kind, n: nat, i: nat)
    requires InterfaceLength(kind, n)
    ensures i in HookList(kind, n) <==> i < n && i in HookList(kind, if kind.Factory? then 32 else 41)
  {
  }

  // ---------- arbitrary interference ----------

  /** A step of an object's life: one more installation (failed ones change
      nothing), or anybody overwriting a slot of the shadow. */
  datatype Step = Install(length: nat) | Overwrite(slot: nat, entry: Entry)

  function Apply(sh: Shadow, step: Step): Shadow
    requires WellFormed(sh)
  {
    match step
    case Install(n) => (match Again(sh, n) case Ok(r) => r case Err(_) => sh)
    case Overwrite(i, e) => if i < |sh.slots| then sh.(slots := sh.slots[i := e]) else sh
  }

  lemma ApplyIsWellFormed(sh: Shadow, step: Step)
    requires WellFormed(sh)
    ensures WellFormed(Apply(sh, step))
  {
    if step.Install? {
      AgainIsWellFormed(sh, step.length);
    }
  }

  function Run(sh: Shadow, steps: seq<Step>): (r: Shadow)
    requires WellFormed(sh)
    ensures WellFormed(r) && r.kind == sh.kind && |r.slots| == |sh.slots|
    decreases |steps|
  {
    if steps == [] then sh
    else
      ApplyIsWellFormed(sh, steps[0]);
      Run(Apply(sh, steps[0]), steps[1..])
  }

  // ---------- dispatch ----------

  function LoadSaved(sh: Shadow, i: nat): Option<Entry> {
    if i < |sh.originals| && sh.originals[i] != Null then Some(sh.originals[i]) else None
  }

  /** The function a hook forwards to: the live root slot if the root table belongs
      to DXGI and somebody else owns the slot, the saved original otherwise. */
  function Load(sh: Shadow, liveRoot: bool, root: seq<Entry>, i: nat): Option<Entry> {
    var saved := LoadSaved(sh, i);
    if saved.None? then None
    else if liveRoot && i < |root| && root[i] != Null
            && !(HasReplacement(sh.kind, i) && root[i] == Own(sh.kind, i)) then
      Some(root[i])
    else saved
  }

  /** A hook with a saved original prefers a live foreign entry of the root table; it
      forwards to the original if that is missing or our own, or the root is not live. */
  lemma LivePreference(sh: Shadow, liveRoot: bool, root: seq<Entry>, i: nat)
    requires i < |sh.originals| && sh.originals[i] != Null
    ensures liveRoot && i < |root| && root[i] != Null && !(HasReplacement(sh.kind, i) && root[i] == Own(sh.kind, i)) ==>
              Load(sh, liveRoot, root, i) == Some(root[i])
    ensures !liveRoot || i >= |root| || root[i] == Null ==> Load(sh, liveRoot, root, i) == Some(sh.originals[i])
    ensures i < |root| && HasReplacement(sh.kind, i) && root[i] == Own(sh.kind, i) ==>
              Load(sh, liveRoot, root, i) == Some(sh.originals[i])
  {
  }

  /** Without one there is nothing to forward to. */
  lemma NothingSavedNothingLoaded(sh: Shadow, liveRoot: bool, root: seq<Entry>, i: nat)
    requires i >= |sh.originals| || sh.originals[i] == Null
    ensures Load(sh, liveRoot, root, i) == None
  {
  }

  /** Whatever anybody writes into the shadow or the root table, a hook always has
      something to forward to, and it is never itself. */
  lemma HooksNeverDispatchToThemselves(sh: Shadow, steps: seq<Step>, liveRoot: bool, root: seq<Entry>, i: nat)
    requires WellFormed(sh)
    requires i in HookList(sh.kind, Run(sh, steps).counts[0])
    ensures var f := Load(Run(sh, steps), liveRoot, root, i);
            f.Some? && f.value != Null && f.value != Own(sh.kind, i)
  {
    var r := Run(sh, steps);
    HooksAreReplacements(r.kind, r.counts[0], i);
  }

  /** For the lengths real interfaces have, that covers every slot for which a
      replacement exists. */
  lemma NoSelfDispatch(sh: Shadow, steps: seq<Step>, liveRoot: bool, root: seq<Entry>, i: nat)
    requires WellFormed(sh) && InterfaceLength(sh.kind, Run(sh, steps).counts[0])
    ensures HasReplacement(sh.kind, i) ==> Load(Run(sh, steps), liveRoot, root, i) != Some(Own(sh.kind, i))
  {
    HooksAreReplacements(sh.kind, Run(sh, steps).counts[0], i);
    if HasReplacement(sh.kind, i) && i < Run(sh, steps).counts[0] {
      HooksNeverDispatchToThemselves(sh, steps, liveRoot, root, i);
    }
  }

  /** Expansion leaves an in-place wrapper around one of our hooks in charge, with
      the original it eventually reaches still saved beneath it. */
  lemma ExpansionKeepsWrappers(sh: Shadow, n: nat, i: nat)
    requires WellFormed(sh) && Again(sh, n).Ok?
    requires i < sh.counts[0] && sh.slots[i] != Own(sh.kind, i)
    ensures var r := Again(sh, n).value;
            r.slots[i] == sh.slots[i] && r.originals[i] == sh.originals[i]
  {
  }

  /** Saved originals are never lost or replaced by later installations. */
  lemma {:induction false} OriginalsOnlyGrow(sh: Shadow, steps: seq<Step>)
    requires WellFormed(sh)
    ensures sh.originals <= Run(sh, steps).originals
    decreases |steps|
  {
    if steps != [] {
      ApplyIsWellFormed(sh, steps[0]);
      OriginalsOnlyGrow(Apply(sh, steps[0]), steps[1..]);
    }
  }

  // ---------- confluence ----------

  /** No slot below the old count becomes hooked only by the longer list. */
  predicate NoGap(kind: Kind, m: nat, n: nat) {
    forall i <- HookList(kind, n) :: i < m ==> i in HookList(kind, m)
  }

  lemma InterfaceLengthsHaveNoGap(kind: Kind, m: nat, n: nat)
    requires InterfaceLength(kind, m)
    ensures NoGap(kind, m, n)
  {
  }

  /** On an untampered object, expanding from m to n entries gives the slots of a
      direct installation with n entries exactly when there is no gap; the saved
      originals agree in any case. */
  lemma ExpansionIsDirectIff(kind: Kind, root: seq<Entry>, m: nat, n: nat)
    requires Fresh(kind, root, n).Ok? && Fits(kind, m) && m < n
    ensures Fresh(kind, root, m).Ok? && WellFormed(Fresh(kind, root, m).value)
    ensures var direct := Fresh(kind, root, n).value;
            var expanded := Again(Fresh(kind, root, m).value, n);
            && expanded.Ok?
            && expanded.value.originals == direct.originals
            && expanded.value.counts[0] == direct.counts[0]
            && (expanded.value.slots == direct.slots <==> NoGap(kind, m, n))
  {
    hide HookList;
    var direct := Fresh(kind, root, n).value;
    forall i | i in HookList(kind, m) ensures i in HookList(kind, n) {
      HooksGrow(kind, m, n, i);
    }
    assert Usable(kind, root[..m]) by {
      assert forall i <- HookList(kind, m) :: root[..m][i] == root[..n][i];
    }
    var first := Fresh(kind, root, m).value;
    FreshIsWellFormed(kind, root, m);
    forall i | m <= i < n ensures first.slots[i] == root[i] {
      assert i !in HookList(kind, m);
    }
    assert first.originals + first.slots[m..n] == root[..n];
    var expanded := Again(first, n).value;
    if !NoGap(kind, m, n) {
      var i :| i in HookList(kind, n) && i < m && i !in HookList(kind, m);
      assert expanded.slots[i] == root[..n][i] != Own(kind, i) == direct.slots[i];
    } else {
      forall i | 0 <= i < |root| ensures expanded.slots[i] == direct.slots[i] {
      }
    }
  }

  /** A table of 20 entries leaves slot 15 alone; expanding it to 25 entries takes the
      untouched original for somebody's wrapper and never hooks it. */
  lemma GapLosesAHook(root: seq<Entry>)
    requires Fresh(Factory, root, 25).Ok?
    ensures var first := Fresh(Factory, root, 20);
            && first.Ok? && WellFormed(first.value) && Again(first.value, 25).Ok?
            && 15 in HookList(Factory, 25) && Again(first.value, 25).value.slots[15] == root[15] != Own(Factory, 15)
  {
    ExpansionIsDirectIff(Factory, root, 20, 25);
    assert 15 in HookList(Factory, 25) && root[..25][15] != Own(Factory, 15);
  }

  function InstallAll(kind: Kind, root: seq<Entry>, lengths: seq<nat>): (r: Result<Shadow, InstallError>)
    requires lengths != []
    ensures r.Ok? ==> WellFormed(r.value)
    decreases |lengths|
  {
    var last := |lengths| - 1;
    if last == 0 then
      FreshIsWellFormed(kind, root, lengths[0]);
      Fresh(kind, root, lengths[0])
    else
      var before := InstallAll(kind, root, lengths[..last]);
      if before.Err? then before
      else
        AgainIsWellFormed(before.value, lengths[last]);
        Again(before.value, lengths[last])
  }

  function Max(lengths: seq<nat>): (m: nat)
    requires lengths != []
    ensures m in lengths && forall n <- lengths :: n <= m
  {
    var last := |lengths| - 1;
    if last == 0 then lengths[0]
    else
      assert forall n <- lengths :: n in lengths[..last] || n == lengths[last];
      var m := Max(lengths[..last]);
      if lengths[last] > m then lengths[last] else m
  }

  /** The tables of one installation with n entries. */
  ghost predicate LikeDirect(kind: Kind, root: seq<Entry>, n: nat, sh: Shadow) {
    var direct := Fresh(kind, root, n);
    && direct.Ok? && sh.kind == kind
    && sh.slots == direct.value.slots && sh.originals == direct.value.originals
    && sh.counts != [] && sh.counts[0] == direct.value.counts[0]
  }

  /** What an expansion does depends on the slots, originals and newest count only. */
  lemma OneMore(kind: Kind, root: seq<Entry>, m: nat, n: nat, sh: Shadow)
    requires InterfaceLength(kind, m) && InterfaceLength(kind, n)
    requires WellFormed(sh) && LikeDirect(kind, root, m, sh)
    requires Fresh(kind, root, if n > m then n else m).Ok?
    ensures Again(sh, n).Ok? && LikeDirect(kind, root, if n > m then n else m, Again(sh, n).value)
  {
    HooksAreReplacements(kind, m, 0);
    HooksAreReplacements(kind, n, 0);
    hide InterfaceLength, HookList, Usable, Hook, Rehook, NoGap, Fits;
    if n > m {
      ExpansionIsDirectIff(kind, root, m, n);
      InterfaceLengthsHaveNoGap(kind, m, n);
      assert sh.counts[0] == m;
    }
  }

  lemma ShorterIsFine(kind: Kind, root: seq<Entry>, m: nat, n: nat)
    requires InterfaceLength(kind, m) && InterfaceLength(kind, n) && m <= n && Fresh(kind, root, n).Ok?
    ensures Fresh(kind, root, m).Ok?
  {
    HooksAreReplacements(kind, m, 0);
    if m < n {
      ExpansionIsDirectIff(kind, root, m, n);
    }
  }

  lemma {:induction false} InstallAllIsDirect(kind: Kind, root: seq<Entry>, lengths: seq<nat>)
    requires lengths != [] && forall n <- lengths :: InterfaceLength(kind, n)
    requires Fresh(kind, root, Max(lengths)).Ok?
    ensures var r := InstallAll(kind, root, lengths); r.Ok? && LikeDirect(kind, root, Max(lengths), r.value)
    decreases |lengths|
  {
    hide InterfaceLength, Fresh, Again, WellFormed, LikeDirect;
    var last := |lengths| - 1;
    if last > 0 {
      var m, n := Max(lengths[..last]), lengths[last];
      assert m in lengths && n in lengths;
      assert Max(lengths) == if n > m then n else m;
      ShorterIsFine(kind, root, m, Max(lengths));
      InstallAllIsDirect(kind, root, lengths[..last]);
      OneMore(kind, root, m, n, InstallAll(kind, root, lengths[..last]).value);
    } else {
      DirectIsLikeItself(kind, root, lengths[0]);
    }
  }

  lemma DirectIsLikeItself(kind: Kind, root: seq<Entry>, n: nat)
    requires Fresh(kind, root, n).Ok?
    ensures LikeDirect(kind, root, n, Fresh(kind, root, n).value)
  {
  }

  /** Confluence: interfaces queried in any order and number leave the tables of one
      installation with the longest of them. */
  lemma ExpansionIsConfluent(kind: Kind, root: seq<Entry>, lengths: seq<nat>)
    requires lengths != [] && forall n <- lengths :: InterfaceLength(kind, n)
    requires Fresh(kind, root, Max(lengths)).Ok?
    ensures var r := InstallAll(kind, root, lengths);
            var direct := Fresh(kind, root, Max(lengths)).value;
            && r.Ok?
            && r.value.kind == kind
            && r.value.slots == direct.slots
            && r.value.originals == direct.originals
            && r.value.counts[0] == direct.counts[0]
  {
    hide InterfaceLength, HookList, Usable, Hook, Fits;
    InstallAllIsDirect(kind, root, lengths);
  }
}

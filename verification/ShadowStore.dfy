/** The shadow-vtable store on the heap: COM objects whose table pointer is swapped,
    shadow tables written in place, and records that outlive their objects. */
module ShadowStore {
  import opened Wrappers
  import opened ShadowSpec

  /** The address of a COM object; its first word is the table pointer. */
  class ComObject {
    var vtable: array?<Entry>
  }

  /** One published view of a shadow table, newest first in its record. */
  datatype Generation = Generation(vtable: array<Entry>, entryCount: nat)

  class ShadowRecord {
    const instance: ComObject
    const kind: Kind
    const root: array<Entry>
    const liveRootSlots: bool
    /** The cloned table every generation of this record works on. */
    ghost const shadow: array<Entry>
    var active: bool
    var entryCount: nat
    var originals: seq<Entry>
    var generations: seq<Generation>

    constructor (instance: ComObject, kind: Kind, root: array<Entry>, liveRootSlots: bool, originals: seq<Entry>,
                 ghost shadow: array<Entry>)
      ensures this.shadow == shadow
      ensures this.instance == instance && this.kind == kind && this.root == root && this.liveRootSlots == liveRootSlots
      ensures active && entryCount == |originals| && this.originals == originals && generations == []
    {
      this.instance, this.kind, this.root := instance, kind, root;
      this.liveRootSlots, this.shadow := liveRootSlots, shadow;
      active, entryCount, this.originals, generations := true, |originals|, originals, [];
    }

    /** What interference cannot break: it mentions no slot of any table. */
    ghost predicate Valid()
      reads this
    {
      && generations != []
      && (forall g <- generations :: g.vtable == shadow)
      && shadow != root && shadow.Length == root.Length
      && entryCount == |originals| == generations[0].entryCount <= shadow.Length
      && (forall i, j :: 0 <= i < j < |generations| ==> generations[j].entryCount < generations[i].entryCount)
      && Fits(kind, entryCount)
      && Usable(kind, originals)
    }

    ghost function Counts(): seq<nat>
      reads this
    {
      seq(|generations|, i requires 0 <= i < |generations| reads this => generations[i].entryCount)
    }

    ghost function View(): (sh: Shadow)
      requires Valid()
      reads this, shadow
      ensures WellFormed(sh) && sh.kind == kind
    {
      Shadow(kind, shadow[..], originals, Counts())
    }
  }

  /** Outcomes the operating system and other modules decide. */
  datatype Platform = Platform(
    cloneSucceeds: bool,
    protectSucceeds: bool,
    swapSucceeds: bool,
    rival: Option<array<Entry>>,   // a table installed by somebody else just before our swap
    rootInDxgi: bool,
    unprotectSucceeds: bool,
    reprotectSucceeds: bool)

  /** Two active records serve different instances or kinds, through different tables. */
  ghost predicate Apart(r: ShadowRecord, s: ShadowRecord)
  {
    !(r.instance == s.instance && r.kind == s.kind) && r.shadow != s.shadow
  }

  ghost predicate Consistent(records: seq<ShadowRecord>)
    reads records
  {
    && (forall i, j :: 0 <= i < j < |records| ==> records[i] != records[j])
    && (forall r <- records :: r.active ==> r.Valid())
    && (forall r, s | r in records && s in records && r.active && s.active && r != s :: Apart(r, s))
  }

  /** The active record of an instance whose n-entry table `root` has just been shadowed. */
  ghost predicate ShadowsOver(r: ShadowRecord, instance: ComObject, kind: Kind, n: nat, root: array?<Entry>,
                              entries: seq<Entry>)
    reads r, r.shadow, instance
  {
    && r.active && r.Valid() && r.instance == instance && r.kind == kind && r.root == root
    && instance.vtable == r.shadow && r.shadow.Length == |entries|
    && Fresh(kind, entries, n) == Ok(r.View())
    && forall i: nat :: i < |entries| ==>
         r.shadow[i] == if i in HookList(kind, n) then Own(kind, i) else entries[i]
  }

  lemma ActiveRecordsAreValid(records: seq<ShadowRecord>)
    requires Consistent(records)
    ensures forall r <- records :: r.active ==> r.Valid()
  {
  }

  lemma PushIsConsistent(record: ShadowRecord, records: seq<ShadowRecord>)
    requires Consistent(records) && record !in records
    requires record.active ==> record.Valid() && forall r <- records :: r.active ==> Apart(record, r)
    ensures Consistent([record] + records)
  {
    var all := [record] + records;
    forall r | r in all && r.active ensures r.Valid() {
      if r != record {
        assert r in records;
      }
    }
    forall r, s | r in all && s in all && r.active && s.active && r != s ensures Apart(r, s) {
      assert (r == record || r in records) && (s == record || s in records);
    }
  }

  class ShadowStore {
    /** Newest first; records are never removed. */
    var records: seq<ShadowRecord>

    constructor ()
      ensures records == [] && Valid()
    {
      records := [];
    }

    ghost predicate Valid()
      reads this, records
    {
      Consistent(records)
    }

    ghost predicate Active(instance: ComObject, kind: Kind)
      reads this, records
    {
      exists r <- records :: r.active && r.instance == instance && r.kind == kind
    }

    /** The active record of an instance, unique by `Valid`. */
    method FindRecord(instance: ComObject, kind: Kind) returns (found: Option<ShadowRecord>)
      requires Valid()
      ensures found.Some? <==> Active(instance, kind)
      ensures found.Some? ==>
                var r := found.value; r in records && r.active && r.instance == instance && r.kind == kind && r.Valid()
    {
      for i := 0 to |records|
        invariant forall j :: 0 <= j < i ==>
                    !(records[j].active && records[j].instance == instance && records[j].kind == kind)
      {
        var r := records[i];
        if r.instance == instance && r.kind == kind && r.active {
          return Some(r);
        }
      }
      return None;
    }

    method FindGeneration(record: ShadowRecord, vtable: array<Entry>) returns (found: Option<Generation>)
      requires record.Valid()
      ensures found == if vtable == record.shadow then Some(record.generations[0]) else None
    {
      for i := 0 to |record.generations|
        invariant forall j :: 0 <= j < i ==> record.generations[j].vtable != vtable
      {
        if record.generations[i].vtable == vtable {
          return Some(record.generations[i]);
        }
      }
      assert record.generations[0] in record.generations;
      return None;
    }

    /** The record and table that installing on this instance may touch. */
    ghost function Owned(instance: ComObject, kind: Kind): set<object>
      reads this, records
    {
      (set r | r in records && r.active && r.instance == instance && r.kind == kind :: r as object)
      + (set r | r in records && r.active && r.instance == instance && r.kind == kind :: r.shadow as object)
    }

    /** Publishes a record for a hooked clone and swaps the clone in, unless the
        swap fails or somebody else got there first. */
    method Publish(instance: ComObject, kind: Kind, shadow: array<Entry>, originals: seq<Entry>, platform: Platform)
      returns (result: Result<(), InstallError>)
      requires Valid() && !Active(instance, kind)
      requires instance.vtable != null && instance.vtable != shadow
      requires shadow.Length == instance.vtable.Length
      requires forall r <- records :: r.shadow != shadow
      requires Fits(kind, |originals|) && |originals| <= shadow.Length && Usable(kind, originals)
      modifies `records, instance
      ensures Valid()
      ensures |records| == |old(records)| + 1 && records[1..] == old(records) && fresh(records[0])
      ensures records[0].active <==> result.Ok?
      ensures instance.vtable == if result.Ok? then shadow else if platform.rival.Some? && platform.swapSucceeds
                                 then platform.rival.value else old(instance.vtable)
      ensures result == if !platform.swapSucceeds then Err(SwapFailed)
                        else if platform.rival.Some? && platform.rival.value != old(instance.vtable) then Err(LostRace)
                        else Ok(())
      ensures var r := records[0];
              && r.instance == instance && r.kind == kind && r.root == old(instance.vtable)
              && r.originals == originals && r.liveRootSlots == platform.rootInDxgi
              && (result.Ok? ==> r.generations == [Generation(shadow, |originals|)])
    {
      hide HookList, Usable, Fits;
      hide Consistent;
      var root: array<Entry> := instance.vtable;
      ghost var older := records;
      var record := new ShadowRecord(instance, kind, root, platform.rootInDxgi, originals, shadow);
      records := [record] + records;
      if !platform.swapSucceeds {
        record.active := false;
        PushIsConsistent(record, older);
        return Err(SwapFailed);
      }
      if platform.rival.Some? {
        instance.vtable := platform.rival.value;
      }
      if instance.vtable != root {
        record.active := false;
        PushIsConsistent(record, older);
        return Err(LostRace);
      }
      instance.vtable := shadow;
      record.generations := [Generation(shadow, |originals|)];
      assert record.Valid();
      ActiveRecordsAreValid(older);
      assert !exists r <- older :: r.active && r.instance == instance && r.kind == kind;
      PushIsConsistent(record, older);
      return Ok(());
    }

    /** Installs on an instance that already has an active record. */
    method InstallAgain(record: ShadowRecord, n: nat, platform: Platform) returns (result: Result<(), InstallError>)
      requires Valid() && record in records && record.active && record.Valid()
      modifies record, record.shadow
      ensures Valid() && record.active && record.Valid()
      ensures Outcome(old(record.View()), record.instance.vtable != record.shadow, record.instance.vtable == null, n,
                      platform, record.View(), result)
      ensures forall r <- records :: old(r.active) && r != record ==> r.active && r.Valid() && r.View() == old(r.View())
    {
      hide HookList, Usable, Fits, Again;
      OnlyActiveRecord(records, record);
      if record.instance.vtable == null {
        return Err(NoTable);
      }
      if !Fits(record.kind, n) {
        return Err(NoFit);
      }
      var generation := FindGeneration(record, record.instance.vtable);
      if generation.None? || generation.value.entryCount >= n {
        return Ok(());
      }
      result := Expand(record, n, platform);
    }

    /** Installs on an instance without an active record: it is shadowed over its own
        table, or nothing active is added. */
    method InstallNew(instance: ComObject, kind: Kind, n: nat, platform: Platform)
      returns (result: Result<(), InstallError>)
      requires Valid() && !Active(instance, kind)
      modifies `records, instance
      ensures Valid()
      ensures old(instance.vtable) == null ==> result == Err(NoTable)
      ensures old(instance.vtable) != null && !Fits(kind, n) ==> result == Err(NoFit)
      ensures old(instance.vtable) != null && Fits(kind, n) ==>
                result == FirstOutcome(Fresh(kind, old(instance.vtable[..]), n), platform,
                                       platform.rival.Some? && platform.rival.value != old(instance.vtable))
      ensures result.Ok? ==> && |records| == |old(records)| + 1 && records[1..] == old(records)
                             && fresh(records[0]) && fresh(records[0].shadow)
                             && records[0].liveRootSlots == platform.rootInDxgi
                             && ShadowsOver(records[0], instance, kind, n, old(instance.vtable),
                                            old(instance.vtable[..]))
      ensures result.Err? ==> forall r <- records :: r.active ==> r in old(records)
      ensures result.Err? && result.error != LostRace ==> instance.vtable == old(instance.vtable)
      ensures forall r <- old(records) :: r in records
    {
      hide HookList, Usable, Fits, Hook, Consistent, Fresh;
      if instance.vtable == null {
        return Err(NoTable);
      }
      if !Fits(kind, n) {
        return Err(NoFit);
      }
      FreshIsWellFormed(kind, instance.vtable[..], n);
      FreshView(kind, instance.vtable[..], n);
      if Fresh(kind, instance.vtable[..], n).Ok? {
        FreshHooksEverySlot(kind, instance.vtable[..], n);
      }
      var error, shadow, originals := CloneAndHook(instance.vtable, kind, n, platform);
      if error.Some? {
        return Err(error.value);
      }
      result := Publish(instance, kind, shadow, originals, platform);
      if result.Ok? {
        ActiveRecordsAreValid(records);
        assert records[0].Counts() == [n];
      }
    }

    /** Installs the hooks for an interface of n entries on an instance. */
    method Install(instance: ComObject, kind: Kind, n: nat, platform: Platform)
      returns (result: Result<(), InstallError>)
      requires Valid()
      modifies `records, instance, Owned(instance, kind)
      ensures Valid()
      // A shadowed instance keeps its table pointer, and its record changes as `Outcome` says.
      ensures forall r <- old(records) :: old(r.active) && r.instance == instance && r.kind == kind ==>
                && records == old(records)
                && instance.vtable == old(instance.vtable)
                && r.active && r.Valid()
                && r.root[..] == old(r.root[..])
                && Outcome(old(r.View()), instance.vtable != r.shadow, instance.vtable == null, n, platform,
                           r.View(), result)
      // A new instance is shadowed over its own table, or nothing active is added.
      ensures !old(Active(instance, kind)) && result.Ok? ==>
                && old(instance.vtable) != null
                && |records| == |old(records)| + 1 && records[1..] == old(records)
                && fresh(records[0]) && fresh(records[0].shadow)
                && records[0].liveRootSlots == platform.rootInDxgi
                && ShadowsOver(records[0], instance, kind, n, old(instance.vtable), old(instance.vtable[..]))
      ensures !old(Active(instance, kind)) && result.Err? ==>
                && (forall r <- records :: r.active ==> r in old(records))
                && (result.error != LostRace ==> instance.vtable == old(instance.vtable))
      ensures !old(Active(instance, kind)) && old(instance.vtable) != null && Fits(kind, n) ==>
                result == FirstOutcome(Fresh(kind, old(instance.vtable[..]), n), platform,
                                       platform.rival.Some? && platform.rival.value != old(instance.vtable))
      // Every other active table is left alone.
      ensures forall r <- old(records) :: old(r.active) && !(r.instance == instance && r.kind == kind) ==>
                r in records && r.active && r.Valid() && r.View() == old(r.View())
      // So is every root, unless it is the very table that is the shadow of this instance.
      ensures forall r <- old(records) :: r.root !in old(Owned(instance, kind)) ==> r.root[..] == old(r.root[..])
    {
      hide HookList, Usable, Fits, Hook, Again, Fresh, Consistent, Outcome, FirstOutcome;
      hide ShadowsOver, ShadowRecord.Valid, ShadowRecord.View;
      ActiveRecordsAreValid(records);
      var found := FindRecord(instance, kind);
      if found.None? {
        result := InstallNew(instance, kind, n, platform);
      } else {
        OnlyActiveRecord(records, found.value);
        result := InstallAgain(found.value, n, platform);
      }
    }

    /** Runs the hooked Release, which reports `remaining` references, and retires
        the record after the last one. */
    method Release(instance: ComObject, kind: Kind, remaining: nat) returns (result: nat, callee: Option<Entry>)
      requires Valid()
      modifies set r | r in records && r.active && r.instance == instance && r.kind == kind
      ensures Valid()
      ensures result == if old(Active(instance, kind)) then remaining else 0
      ensures old(Active(instance, kind)) ==> callee.Some? && callee.value != Null && callee.value != Own(kind, 2)
      ensures forall r <- records :: old(r.active) && r.instance == instance && r.kind == kind ==>
                2 < |r.originals| && callee == Some(r.originals[2]) && (r.active <==> remaining != 0)
      ensures Active(instance, kind) <==> old(Active(instance, kind)) && remaining != 0
      ensures forall r <- records :: old(r.active) && !(r.instance == instance && r.kind == kind) ==>
                r.active && r.Valid() && r.View() == old(r.View())
    {
      ActiveRecordsAreValid(records);
      var found := FindRecord(instance, kind);
      if found.None? {
        return 0, None;
      }
      var record := found.value;
      OnlyActiveRecord(records, record);
      assert 2 in HookList(kind, record.entryCount);
      callee := Some(record.originals[2]);
      if remaining == 0 {
        record.active := false;
      }
      return remaining, callee;
    }

    /** The function a hook on slot i of this instance forwards to. */
    method LoadFunction(instance: ComObject, kind: Kind, i: nat) returns (f: Option<Entry>)
      requires Valid()
      ensures !Active(instance, kind) ==> f == None
      ensures forall r <- records :: r.active && r.instance == instance && r.kind == kind ==>
                && r.Valid()
                && f == Load(r.View(), r.liveRootSlots, r.root[..], i)
                && (i in HookList(kind, r.entryCount) ==> f.Some? && f.value != Null && f.value != Own(kind, i))
    {
      ActiveRecordsAreValid(records);
      var found := FindRecord(instance, kind);
      if found.None? {
        return None;
      }
      var record := found.value;
      OnlyActiveRecord(records, record);
      HooksNeverDispatchToThemselvesNow(record, i);
      hide HookList, HasReplacement;
      if i >= record.entryCount || record.originals[i] == Null {
        return None;
      }
      if record.liveRootSlots {
        var current := record.root[i];
        if current != Null && !(HasReplacement(kind, i) && current == Own(kind, i)) {
          return Some(current);
        }
      }
      return Some(record.originals[i]);
    }
  }

  lemma HooksNeverDispatchToThemselvesNow(record: ShadowRecord, i: nat)
    requires record.Valid()
    ensures i in HookList(record.kind, record.entryCount) ==>
              var f := Load(record.View(), record.liveRootSlots, record.root[..], i);
              f.Some? && f.value != Null && f.value != Own(record.kind, i)
  {
    if i in HookList(record.kind, record.entryCount) {
      assert Run(record.View(), []) == record.View();
      HooksNeverDispatchToThemselves(record.View(), [], record.liveRootSlots, record.root[..], i);
    }
  }

  /** Hooks an instance that has no active record and loads the function of slot i. */
  method InstallAndLoad(store: ShadowStore, instance: ComObject, kind: Kind, n: nat, platform: Platform, i: nat)
    returns (result: Result<(), InstallError>, f: Option<Entry>)
    requires store.Valid() && !store.Active(instance, kind) && instance.vtable != null
    requires Fits(kind, n) && i < n
    modifies store, instance
    ensures store.Valid()
    ensures result.Ok? ==>
              && i < old(instance.vtable.Length)
              && f == if old(instance.vtable[i]) == Null then None else Some(old(instance.vtable[i]))
  {
    hide HookList, Usable, Fits, Hook, Consistent, FirstOutcome, HasReplacement, Load, Fresh;
    var table: array<Entry> := instance.vtable;
    ghost var entries := table[..];
    result := store.InstallNew(instance, kind, n, platform);
    f := store.LoadFunction(instance, kind, i);
    if result.Ok? {
      ghost var r := store.records[0];
      assert r in store.records && r.active && r.root == table && table[..] == entries;
      FreshDispatch(kind, entries, n, r.View(), r.liveRootSlots, i);
    }
  }

  /** An instance is released for the last time, another one with its own table is
      allocated at the same address, and hooking it starts over from that table. */
  method ReinstallAtReusedAddress(store: ShadowStore, instance: ComObject, kind: Kind, table: array<Entry>, n: nat,
                                  platform: Platform, i: nat)
    returns (result: Result<(), InstallError>, f: Option<Entry>)
    requires store.Valid() && store.Active(instance, kind)
    requires Fits(kind, n) && i < n
    modifies store, instance, store.Owned(instance, kind)
    ensures store.Valid()
    ensures result.Ok? ==> i < table.Length && f == if table[i] == Null then None else Some(table[i])
    ensures table[..] == old(table[..])
  {
    hide HookList, Fits, Consistent;
    var _, _ := store.Release(instance, kind, 0);
    instance.vtable := table;
    result, f := InstallAndLoad(store, instance, kind, n, platform, i);
  }

  /** Right after a first installation every slot forwards to the root's own entry. */
  lemma FreshDispatch(kind: Kind, root: seq<Entry>, n: nat, sh: Shadow, liveRoot: bool, i: nat)
    requires Fresh(kind, root, n) == Ok(sh) && i < n
    ensures i < |root| && Load(sh, liveRoot, root, i) == if root[i] == Null then None else Some(root[i])
  {
  }

  /** An installation on a foreign table changes nothing and is no error; every error but
      the final one leaves the tables alone. */
  lemma OutcomeFrames(before: Shadow, foreign: bool, noTable: bool, n: nat, platform: Platform,
                      after: Shadow, result: Result<(), InstallError>)
    requires WellFormed(before) && Outcome(before, foreign, noTable, n, platform, after, result)
    ensures foreign && !noTable && Fits(before.kind, n) ==> after == before && result == Ok(())
    ensures result.Err? && result.error != ReprotectFailed ==> after == before
    ensures before.counts[0] <= after.counts[0] && after.kind == before.kind
    ensures result.Ok? && !foreign ==> n <= after.counts[0]
  {
    hide HookList, Usable, Fits, Rehook;
  }

  /** A further installation that succeeds on our own table leaves every listed slot
      hooked or wrapped. */
  lemma OutcomeHooks(before: Shadow, n: nat, platform: Platform, after: Shadow)
    requires WellFormed(before) && Outcome(before, false, false, n, platform, after, Ok(()))
    ensures HookedUnlessWrapped(before.kind, n, before.counts[0], before.slots, after.slots)
  {
    hide HookList, Again, HookedUnlessWrapped, Usable;
    if n <= before.counts[0] {
      NothingToHook(before.kind, n, before.counts[0], before.slots);
    } else {
      AgainHooksEverySlot(before, n);
    }
  }

  lemma NothingToHook(kind: Kind, n: nat, count: nat, slots: seq<Entry>)
    requires Fits(kind, n) && n <= count
    ensures HookedUnlessWrapped(kind, n, count, slots, slots)
  {
    hide HookList;
  }

  lemma FreshView(kind: Kind, root: seq<Entry>, n: nat)
    ensures var sh := Fresh(kind, root, n); sh.Ok? ==>
              sh.value == Shadow(kind, sh.value.slots, root[..n], [n]) && Fits(kind, n) && Usable(kind, root[..n])
  {
    hide Usable;
  }

  lemma OnlyActiveRecord(records: seq<ShadowRecord>, record: ShadowRecord)
    requires Consistent(records) && record in records && record.active
    ensures forall r <- records :: r.active && r != record ==>
              !(r.instance == record.instance && r.kind == record.kind) && r.shadow != record.shadow
  {
    forall r | r in records && r.active && r != record ensures Apart(r, record) {
    }
  }

  /** How a first installation ends; `lost` says that another table got there first. */
  function FirstOutcome(planned: Result<Shadow, InstallError>, platform: Platform, lost: bool)
    : Result<(), InstallError>
  {
    if !platform.cloneSucceeds then Err(CloneFailed)
    else if planned.Err? then Err(planned.error)
    else if !platform.protectSucceeds then Err(ProtectFailed)
    else if !platform.swapSucceeds then Err(SwapFailed)
    else if lost then Err(LostRace)
    else Ok(())
  }

  /** A first installation succeeds exactly if nothing at all goes wrong. */
  lemma FirstOutcomeIsOkIff(planned: Result<Shadow, InstallError>, platform: Platform, lost: bool)
    ensures FirstOutcome(planned, platform, lost).Ok? <==>
              && planned.Ok? && platform.cloneSucceeds && platform.protectSucceeds && platform.swapSucceeds && !lost
  {
  }

  /** What a further installation on a shadowed instance does: nothing if the
      instance now runs through a foreign table, an expansion otherwise. */
  ghost predicate Outcome(before: Shadow, foreign: bool, noTable: bool, n: nat, platform: Platform,
                          after: Shadow, result: Result<(), InstallError>)
    requires WellFormed(before)
  {
    if noTable then after == before && result == Err(NoTable)
    else if !Fits(before.kind, n) then after == before && result == Err(NoFit)
    else if foreign || n <= before.counts[0] then after == before && result == Ok(())
    else
      match Again(before, n)
      case Err(e) => after == before && result == Err(e)
      case Ok(sh) =>
        if !platform.unprotectSucceeds then after == before && result == Err(UnprotectFailed)
        else after == sh && result == if platform.reprotectSucceeds then Ok(()) else Err(ReprotectFailed)
  }

  /** Clones a table, hooks the clone and makes it read-only. */
  method CloneAndHook(root: array<Entry>, kind: Kind, n: nat, platform: Platform)
    returns (error: Option<InstallError>, shadow: array<Entry>, originals: seq<Entry>)
    requires Fits(kind, n)
    ensures fresh(shadow)
    ensures var planned := Fresh(kind, root[..], n);
            && error == (if !platform.cloneSucceeds then Some(CloneFailed)
                         else if planned.Err? then Some(planned.error)
                         else if !platform.protectSucceeds then Some(ProtectFailed) else None)
            && shadow.Length == root.Length
            && (error.None? ==> shadow[..] == planned.value.slots && originals == planned.value.originals)
  {
    hide HookList, Usable, Hook;
    shadow := new Entry[root.Length](i requires 0 <= i < root.Length reads root => root[i]);
    assert shadow[..] == root[..];
    originals := [];
    if !platform.cloneSucceeds || n > root.Length {
      return Some(CloneFailed), shadow, originals;
    }
    originals := shadow[..n];
    assert originals == root[..][..n];
    if !Usable(kind, originals) {
      return Some(UnusableOriginal), shadow, originals;
    }
    WriteHooks(kind, n, shadow);
    error := if platform.protectSucceeds then None else Some(ProtectFailed);
  }

  /** Writes our replacements into a table that was never hooked before. */
  method WriteHooks(kind: Kind, n: nat, shadow: array<Entry>)
    requires Fits(kind, n) && n <= shadow.Length
    modifies shadow
    ensures shadow[..] == Hook(kind, n, old(shadow[..]))
  {
    hide HookList;
    var hooks := HookList(kind, n);
    for k := 0 to |hooks|
      invariant forall i :: 0 <= i < shadow.Length ==>
                  shadow[i] == if i in hooks[..k] then Own(kind, i) else old(shadow[i])
    {
      assert hooks[k] in hooks && hooks[..k + 1] == hooks[..k] + [hooks[k]];
      shadow[hooks[k]] := Own(kind, hooks[k]);
    }
    assert hooks[..|hooks|] == hooks;
  }

  /** Writes our replacements into a table hooked up to `count`, leaving slots that
      somebody else has wrapped in place. */
  method RewriteHooks(kind: Kind, count: nat, n: nat, shadow: array<Entry>)
    requires Fits(kind, n) && n <= shadow.Length
    modifies shadow
    ensures shadow[..] == Rehook(kind, count, n, old(shadow[..]))
  {
    hide HookList;
    var hooks := HookList(kind, n);
    for k := 0 to |hooks|
      invariant forall i :: 0 <= i < shadow.Length ==>
                  shadow[i] == if i in hooks[..k] && !(i < count && old(shadow[i]) != Own(kind, i)) then Own(kind, i)
                               else old(shadow[i])
    {
      var index := hooks[k];
      assert index in hooks && hooks[..k + 1] == hooks[..k] + [index];
      var current := shadow[index];
      var wrappedInPlace := index < count && current != Own(kind, index);
      if !wrappedInPlace && current != Own(kind, index) {
        shadow[index] := Own(kind, index);
      }
    }
    assert hooks[..|hooks|] == hooks;
  }

  method Expand(record: ShadowRecord, n: nat, platform: Platform) returns (result: Result<(), InstallError>)
    requires record.Valid() && record.entryCount < n && Fits(record.kind, n)
    modifies record, record.shadow
    ensures record.Valid() && record.active == old(record.active)
    ensures match Again(old(record.View()), n)
            case Err(e) => result == Err(e) && record.View() == old(record.View())
            case Ok(sh) =>
              if !platform.unprotectSucceeds then result == Err(UnprotectFailed) && record.View() == old(record.View())
              else record.View() == sh && result == if platform.reprotectSucceeds then Ok(()) else Err(ReprotectFailed)
  {
    hide HookList, Rehook, Usable, Fits;
    AgainIsWellFormed(record.View(), n);
    var generation := record.generations[0];
    var shadow, count := generation.vtable, generation.entryCount;
    ghost var before := record.View();
    if n > shadow.Length {
      return Err(NoRoom);
    }
    var originals := record.originals + shadow[count..n];
    assert shadow[..][count..n] == shadow[count..n];
    if !Usable(record.kind, originals) {
      return Err(UnusableOriginal);
    }
    if !platform.unprotectSucceeds {
      return Err(UnprotectFailed);
    }
    record.originals := originals;
    record.entryCount := n;
    RewriteHooks(record.kind, count, n, shadow);
    record.generations := [Generation(shadow, n)] + record.generations;
    assert record.Counts() == [n] + before.counts;
    result := if platform.reprotectSucceeds then Ok(()) else Err(ReprotectFailed);
  }
}

/** A hook loads the function it forwards to without taking the installation lock, while
    expansions store a longer table of originals and then its length, and anybody
    writes to the root table. */
module ConcurrentLoad {
  import opened Wrappers
  import opened ShadowSpec

  /** The fields of one record that hooks read. A table of originals never changes after
      it was stored. */
  datatype Record = Record(kind: Kind, originals: seq<Entry>, entryCount: nat, liveRoot: bool, root: seq<Entry>)

  datatype Reader =
    | Start
    | Counted(count: nat)
    | Saved(saved: Entry)
    | Done(result: Option<Entry>)
    | Overrun                          // would have read behind the end of the table

  /** The reader wants slot i. */
  datatype System = System(record: Record, i: nat, reader: Reader)

  datatype Step =
    | StoreOriginals(added: seq<Entry>)     // first half of an expansion
    | StoreCount                            // second half
    | WriteRoot(slot: nat, entry: Entry)
    | Read

  /** An expansion holds the lock from its checks until both stores are done. */
  predicate MayStore(r: Record, added: seq<Entry>) {
    && r.entryCount == |r.originals| && added != []
    && Fits(r.kind, |r.originals + added|) && Usable(r.kind, r.originals + added)
  }

  function ReadNext(r: Record, i: nat, reader: Reader): Reader {
    match reader
    case Start => Counted(r.entryCount)
    case Counted(count) =>
      if i >= count then Done(None)
      else if i >= |r.originals| then Overrun
      else if r.originals[i] == Null then Done(None)
      else Saved(r.originals[i])
    case Saved(saved) =>
      if r.liveRoot && i < |r.root| && r.root[i] != Null
         && !(HasReplacement(r.kind, i) && r.root[i] == Own(r.kind, i)) then Done(Some(r.root[i]))
      else Done(Some(saved))
    case _ => reader
  }

  function Next(sys: System, step: Step): System {
    var r := sys.record;
    match step
    case StoreOriginals(added) =>
      if MayStore(r, added) then sys.(record := r.(originals := r.originals + added)) else sys
    case StoreCount => sys.(record := r.(entryCount := |r.originals|))
    case WriteRoot(slot, entry) =>
      if slot < |r.root| then sys.(record := r.(root := r.root[slot := entry])) else sys
    case Read => sys.(reader := ReadNext(r, sys.i, sys.reader))
  }

  function Run(sys: System, steps: seq<Step>): System
    decreases |steps|
  {
    if steps == [] then sys else Run(Next(sys, steps[0]), steps[1..])
  }

  /** The record at every instant from `sys` on, in order. */
  function History(sys: System, steps: seq<Step>): (h: seq<Record>)
    ensures |h| == |steps| + 1 && h[0] == sys.record
    decreases |steps|
  {
    [sys.record] + if steps == [] then [] else History(Next(sys, steps[0]), steps[1..])
  }

  predicate Valid(r: Record) {
    && r.entryCount <= |r.originals|
    && Fits(r.kind, |r.originals|) && Usable(r.kind, r.originals)
    && Fits(r.kind, r.entryCount)
  }

  /** The record as published: the originals up to the count. Before, between and after
      the two stores of an expansion that is the shorter, the shorter and the longer. */
  function Published(r: Record): Shadow
    requires r.entryCount <= |r.originals|
  {
    Shadow(r.kind, r.originals, r.originals[..r.entryCount], [r.entryCount])
  }

  /** What a load that nothing interrupts returns. */
  function LoadNow(r: Record, i: nat): Option<Entry>
    requires r.entryCount <= |r.originals|
  {
    Load(Published(r), r.liveRoot, r.root, i)
  }

  ghost predicate Loaded(past: seq<Record>, i: nat, f: Option<Entry>) {
    exists r <- past :: r.entryCount <= |r.originals| && LoadNow(r, i) == f
  }

  /** What the reader holds is explained by some earlier instant, or still holds. `hooked`
      says that slot i was hooked when the load began. */
  ghost predicate Explained(past: seq<Record>, sys: System, hooked: bool) {
    var r := sys.record;
    && Valid(r) && r in past
    && (hooked ==> sys.i in HookList(r.kind, r.entryCount))
    && match sys.reader
       case Start => true
       case Counted(count) =>
         && (sys.i < count ==> sys.i < r.entryCount)
         && (sys.i >= count ==> Loaded(past, sys.i, None))
         && (hooked ==> sys.i < count)
       case Saved(saved) => sys.i < r.entryCount && saved == r.originals[sys.i] != Null
       case Done(f) => Loaded(past, sys.i, f) && (hooked ==> Forwards(r.kind, sys.i, f))
       case Overrun => false
  }

  /** Something to forward to that is not the hook itself. */
  predicate Forwards(kind: Kind, i: nat, f: Option<Entry>) {
    f.Some? && f.value != Null && f.value != Own(kind, i)
  }

  lemma RecordStaysValid(sys: System, step: Step)
    requires Valid(sys.record)
    ensures var r := Next(sys, step).record;
            && Valid(r) && r.kind == sys.record.kind
            && sys.record.originals <= r.originals && sys.record.entryCount <= r.entryCount
            && (sys.i in HookList(r.kind, sys.record.entryCount) ==> sys.i in HookList(r.kind, r.entryCount))
  {
    hide HookList, Usable, Fits;
    var r := Next(sys, step).record;
    if sys.i in HookList(r.kind, sys.record.entryCount) {
      HooksGrow(r.kind, sys.record.entryCount, r.entryCount, sys.i);
    }
  }

  lemma LoadedStays(past: seq<Record>, r: Record, i: nat, f: Option<Entry>)
    requires Loaded(past, i, f)
    ensures Loaded(past + [r], i, f)
  {
    var x :| x in past && x.entryCount <= |x.originals| && LoadNow(x, i) == f;
    assert x in past + [r];
  }

  /** One of the reader's own loads. */
  lemma ReadIsExplained(past: seq<Record>, sys: System, hooked: bool)
    requires Explained(past, sys, hooked)
    ensures Explained(past, Next(sys, Read), hooked)
  {
    hide HookList, Fits;
    var r := sys.record;
    if hooked {
      HookedForwards(r, sys.i);
    }
    match sys.reader
    case Start =>
      assert sys.i >= r.entryCount ==> LoadNow(r, sys.i) == None;
    case Counted(count) =>
      if sys.i < count && r.originals[sys.i] == Null {
        assert LoadNow(r, sys.i) == None;
      }
    case Saved(saved) =>
      assert Next(sys, Read).reader == Done(LoadNow(r, sys.i));
    case _ =>
  }

  lemma HookedForwards(r: Record, i: nat)
    requires Valid(r) && i in HookList(r.kind, r.entryCount)
    ensures i < r.entryCount && r.originals[i] != Null && Forwards(r.kind, i, LoadNow(r, i))
  {
    HooksAreReplacements(r.kind, r.entryCount, i);
    HooksGrow(r.kind, r.entryCount, |r.originals|, i);
    hide HookList;
  }

  lemma NextIsExplained(past: seq<Record>, sys: System, step: Step, hooked: bool)
    requires Explained(past, sys, hooked)
    ensures Explained(past + [Next(sys, step).record], Next(sys, step), hooked)
  {
    hide HookList, Usable, Fits, Loaded, Forwards;
    var next := Next(sys, step);
    if step == Read {
      ReadIsExplained(past, sys, hooked);
    } else {
      RecordStaysValid(sys, step);
    }
    var held := if step == Read then next.reader else sys.reader;
    match held
    case Counted(count) =>
      if sys.i >= count { LoadedStays(past, next.record, sys.i, None); }
    case Done(f) =>
      LoadedStays(past, next.record, sys.i, f);
    case _ =>
  }

  lemma Regroup(past: seq<Record>, x: Record, rest: seq<Record>)
    ensures past + ([x] + rest) == past + [x] + rest
  {
  }

  lemma HistorySplits(past: seq<Record>, sys: System, steps: seq<Step>)
    requires steps != []
    ensures var next := Next(sys, steps[0]);
            past + History(sys, steps)[1..] == past + [next.record] + History(next, steps[1..])[1..]
  {
    var h := History(Next(sys, steps[0]), steps[1..]);
    assert History(sys, steps)[1..] == h && h[0] == Next(sys, steps[0]).record;
    hide *;
    assert h == [h[0]] + h[1..];
    Regroup(past, h[0], h[1..]);
  }

  lemma {:induction false} RunIsExplained(past: seq<Record>, sys: System, steps: seq<Step>, hooked: bool)
    requires Explained(past, sys, hooked)
    ensures Explained(past + History(sys, steps)[1..], Run(sys, steps), hooked)
    decreases |steps|
  {
    hide Explained, Next;
    if steps == [] {
      assert past + History(sys, steps)[1..] == past;
    } else {
      var next := Next(sys, steps[0]);
      NextIsExplained(past, sys, steps[0], hooked);
      RunIsExplained(past + [next.record], next, steps[1..], hooked);
      HistorySplits(past, sys, steps);
    }
  }

  /** Under every interleaving with expansions and foreign writes to the root, a load
      never reads behind the end of a table, and what it returns is what an
      uninterrupted load would have returned at some instant of the call. For a slot
      that was hooked when it began, that is something other than the hook itself. */
  lemma LoadsAreAtomic(record: Record, i: nat, steps: seq<Step>)
    requires Valid(record)
    ensures var sys := System(record, i, Start);
            var end := Run(sys, steps).reader;
            && !end.Overrun?
            && (end.Done? ==> Loaded(History(sys, steps), i, end.result))
            && (end.Done? && i in HookList(record.kind, record.entryCount) ==>
                  Forwards(record.kind, i, end.result))
  {
    hide HookList, Fits, Usable, Loaded, Forwards, Next, Run;
    var sys := System(record, i, Start);
    var hooked := i in HookList(record.kind, record.entryCount);
    RunIsExplained([record], sys, steps, hooked);
    assert [record] + History(sys, steps)[1..] == History(sys, steps);
    KindStays(sys, steps);
  }

  lemma {:induction false} KindStays(sys: System, steps: seq<Step>)
    ensures Run(sys, steps).record.kind == sys.record.kind && Run(sys, steps).i == sys.i
    decreases |steps|
  {
    if steps != [] {
      KindStays(Next(sys, steps[0]), steps[1..]);
    }
  }

  /** The order of the two stores matters: with the count first, a load between them
      would read behind the end of the old table. */
  lemma CountFirstWouldOverrun(r: Record, longer: nat, i: nat)
    requires |r.originals| <= i < longer
    ensures ReadNext(r, i, ReadNext(r.(entryCount := longer), i, Start)) == Overrun
  {
  }
}

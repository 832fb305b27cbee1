/** Reading the active chain and its revision without a lock: the reader loads the
    revision, the pointer and the revision again, while writers change the pointer
    first and count the change up in a second step. */
module Snapshot {
  import opened ActiveChain

  datatype Reader =
    | Idle
    | HasRevision(before: nat)
    | HasPointer(before: nat, chain: Address)
    | Done(snapshot: Active)

  /** `owed` counts the writers that are between their two steps. */
  datatype System = System(shared: Active, owed: nat, reader: Reader)

  datatype Step =
    | SwapIn(chain: Address)       // first half of noting an active chain
    | SwapOut(chain: Address)      // first half of retiring a chain
    | SeeActive(chain: Address)    // first half of noting a reconfiguration
    | Count                        // second half of any of them
    | Read                         // the reader's next load

  function Next(sys: System, step: Step): System {
    match step
    case SwapIn(chain) =>
      if chain == 0 || chain == sys.shared.chain then sys
      else sys.(shared := sys.shared.(chain := chain), owed := sys.owed + 1)
    case SwapOut(chain) =>
      if chain != sys.shared.chain then sys
      else sys.(shared := sys.shared.(chain := 0), owed := sys.owed + 1)
    case SeeActive(chain) =>
      if chain != sys.shared.chain then sys else sys.(owed := sys.owed + 1)
    case Count =>
      if sys.owed == 0 then sys
      else sys.(shared := sys.shared.(revision := sys.shared.revision + 1), owed := sys.owed - 1)
    case Read =>
      sys.(reader :=
        match sys.reader
        case Idle => HasRevision(sys.shared.revision)
        case HasRevision(before) => HasPointer(before, sys.shared.chain)
        case HasPointer(before, chain) =>
          if before != sys.shared.revision then Idle else Done(Active(chain, sys.shared.revision))
        case Done(_) => sys.reader)
  }

  /** The shared values at every instant from `sys` on, in order. */
  function History(sys: System, steps: seq<Step>): (h: seq<Active>)
    ensures |h| == |steps| + 1
    decreases |steps|
  {
    [sys.shared] + if steps == [] then [] else History(Next(sys, steps[0]), steps[1..])
  }

  function Run(sys: System, steps: seq<Step>): System
    decreases |steps|
  {
    if steps == [] then sys else Run(Next(sys, steps[0]), steps[1..])
  }

  /** Some earlier instant had this pointer at a revision of at least `before`. */
  ghost predicate Seen(past: seq<Active>, chain: Address, before: nat) {
    exists a <- past :: a.chain == chain && before <= a.revision
  }

  ghost predicate Explained(past: seq<Active>, sys: System) {
    && sys.shared in past
    && (forall a <- past :: a.revision <= sys.shared.revision)
    && match sys.reader
       case Idle => true
       case HasRevision(before) => before <= sys.shared.revision
       case HasPointer(before, chain) => Seen(past, chain, before)
       case Done(snapshot) => snapshot in past
  }

  lemma NextIsExplained(past: seq<Active>, sys: System, step: Step)
    requires Explained(past, sys)
    ensures Explained(past + [Next(sys, step).shared], Next(sys, step))
  {
    var next := Next(sys, step);
    var longer := past + [next.shared];
    assert next.shared in longer;
    assert forall a <- past :: a in longer;
    if sys.reader.HasPointer? {
      var a :| a in past && a.chain == sys.reader.chain && sys.reader.before <= a.revision;
      assert a in longer;
    }
  }

  lemma Regroup(past: seq<Active>, x: Active, rest: seq<Active>)
    ensures past + ([x] + rest) == past + [x] + rest
  {
  }

  lemma HistorySplits(past: seq<Active>, sys: System, steps: seq<Step>)
    requires steps != []
    ensures var next := Next(sys, steps[0]);
            past + History(sys, steps)[1..] == past + [next.shared] + History(next, steps[1..])[1..]
  {
    var h := History(Next(sys, steps[0]), steps[1..]);
    assert History(sys, steps)[1..] == h && h[0] == Next(sys, steps[0]).shared;
    hide *;
    assert h == [h[0]] + h[1..];
    Regroup(past, h[0], h[1..]);
  }

  lemma {:induction false} RunIsExplained(past: seq<Active>, sys: System, steps: seq<Step>)
    requires Explained(past, sys)
    ensures Explained(past + History(sys, steps)[1..], Run(sys, steps))
    decreases |steps|
  {
    hide Explained, Next;
    if steps == [] {
      assert past + History(sys, steps)[1..] == past;
    } else {
      var next := Next(sys, steps[0]);
      NextIsExplained(past, sys, steps[0]);
      RunIsExplained(past + [next.shared], next, steps[1..]);
      HistorySplits(past, sys, steps);
    }
  }

  /** Whatever the writers do, a snapshot is a pair of values that really held
      together at some instant between the start of the call and its return. */
  lemma SnapshotHeldAtSomeInstant(shared: Active, owed: nat, steps: seq<Step>)
    requires Run(System(shared, owed, Idle), steps).reader.Done?
    ensures Run(System(shared, owed, Idle), steps).reader.snapshot in History(System(shared, owed, Idle), steps)
  {
    var sys := System(shared, owed, Idle);
    RunIsExplained([shared], sys, steps);
    assert [shared] + History(sys, steps)[1..] == History(sys, steps);
  }

  /** A reader that is left alone for three loads gets its answer. */
  lemma UndisturbedReadSucceeds(shared: Active, owed: nat)
    ensures Run(System(shared, owed, Idle), [Read, Read, Read]).reader == Done(shared)
  {
    var s0 := System(shared, owed, Idle);
    var s1 := Next(s0, Read);
    var s2 := Next(s1, Read);
    var loads := [Read, Read, Read];
    assert loads[1..] == [Read, Read] && loads[1..][1..] == [Read] && loads[1..][1..][1..] == [];
    assert Run(s0, loads) == Run(s1, loads[1..]) == Run(s2, [Read]) == Next(s2, Read);
  }

  // ---------- when a key identifies a state ----------

  /** Whether the step is the first half of a change that takes effect. */
  predicate Begins(sys: System, step: Step) {
    match step
    case SwapIn(chain) => chain != 0 && chain != sys.shared.chain
    case SwapOut(chain) => chain == sys.shared.chain
    case SeeActive(chain) => chain == sys.shared.chain
    case _ => false
  }

  function Changes(sys: System, steps: seq<Step>): nat
    decreases |steps|
  {
    if steps == [] then 0 else (if Begins(sys, steps[0]) then 1 else 0) + Changes(Next(sys, steps[0]), steps[1..])
  }

  /** Every change is counted once: what has been counted and what is still owed. */
  lemma {:induction false} ChangesAreCounted(sys: System, steps: seq<Step>)
    ensures var end := Run(sys, steps);
            end.shared.revision + end.owed == sys.shared.revision + sys.owed + Changes(sys, steps)
    ensures sys.shared.revision <= Run(sys, steps).shared.revision
    ensures Changes(sys, steps) == 0 ==> Run(sys, steps).shared.chain == sys.shared.chain
    decreases |steps|
  {
    if steps != [] {
      ChangesAreCounted(Next(sys, steps[0]), steps[1..]);
    }
  }

  /** A revision seen again hides no change exactly if no more writers are half done
      than before; then the whole key is the same. */
  lemma KeyHidesNoChangeIff(sys: System, steps: seq<Step>)
    requires Run(sys, steps).shared.revision == sys.shared.revision
    ensures Changes(sys, steps) == 0 <==> Run(sys, steps).owed == sys.owed
    ensures Run(sys, steps).owed == 0 ==> Changes(sys, steps) == 0 && sys.owed == 0
    ensures Changes(sys, steps) == 0 ==> Run(sys, steps).shared == sys.shared
  {
    ChangesAreCounted(sys, steps);
  }

  /** The pair alone does not tell generations apart while a writer is half done:
      a chain released and created again at the same address can show its old key. */
  lemma HalfDoneWritersHideAReuse()
    ensures exists steps ::
              var sys := System(Active(7, 2), 0, Idle);
              && Active(0, 2) in History(sys, steps)
              && Run(sys, steps).reader == Done(Active(7, 2))
  {
    var sys := System(Active(7, 2), 0, Idle);
    var steps := [SwapOut(7), SwapIn(7), Read, Read, Read];
    var s1 := Next(sys, steps[0]);
    var s2 := Next(s1, steps[1]);
    assert steps[1..][1..] == [Read, Read, Read];
    assert Run(sys, steps) == Run(s1, steps[1..]) == Run(s2, [Read, Read, Read]);
    UndisturbedReadSucceeds(s2.shared, s2.owed);
    assert History(sys, steps)[1] == History(s1, steps[1..])[0] == Active(0, 2);
  }

  // ---------- what that means for a cached answer ----------

  /** The shared values together with the chains that an inspection would find eligible.
      `unnoted` counts the calls that may have changed that for the chain that is
      active now and whose hooks have not begun to note them. */
  datatype Watched = Watched(sys: System, eligible: set<Address>, unnoted: nat)

  /** A reconfiguring call returns, or a chain is created where another one was: its
      eligibility changes before anything is noted. */
  datatype Move = Plain(step: Step) | Alter(chain: Address, eligible: bool)

  function After(w: Watched, move: Move): Watched {
    match move
    case Alter(chain, eligible) =>
      w.(eligible := if eligible then w.eligible + {chain} else w.eligible - {chain},
         unnoted := if chain == w.sys.shared.chain then w.unnoted + 1 else w.unnoted)
    case Plain(step) =>
      w.(sys := Next(w.sys, step),
         unnoted := if Next(w.sys, step).shared.chain != w.sys.shared.chain then 0
                    else if step.SeeActive? && Begins(w.sys, step) && w.unnoted != 0 then w.unnoted - 1
                    else w.unnoted)
  }

  function Watch(w: Watched, moves: seq<Move>): Watched
    decreases |moves|
  {
    if moves == [] then w else Watch(After(w, moves[0]), moves[1..])
  }

  /** The steps on the shared values among the moves. */
  function Steps(moves: seq<Move>): seq<Step> {
    if moves == [] then []
    else if moves[0].Plain? then [moves[0].step] + Steps(moves[1..])
    else Steps(moves[1..])
  }

  /** How many of the moves alter the chain that is active at the time. */
  function Alterations(w: Watched, moves: seq<Move>): nat
    decreases |moves|
  {
    if moves == [] then 0
    else (if moves[0].Alter? && moves[0].chain == w.sys.shared.chain then 1 else 0)
         + Alterations(After(w, moves[0]), moves[1..])
  }

  lemma {:induction false} WatchRuns(w: Watched, moves: seq<Move>)
    ensures Watch(w, moves).sys == Run(w.sys, Steps(moves))
    decreases |moves|
  {
    if moves != [] {
      if moves[0].Plain? {
        assert Steps(moves)[0] == moves[0].step && Steps(moves)[1..] == Steps(moves[1..]);
      }
      WatchRuns(After(w, moves[0]), moves[1..]);
    }
  }

  /** Without a change to the shared values every alteration is still unnoted. */
  lemma {:induction false} AlterationsStayUnnoted(w: Watched, moves: seq<Move>)
    requires Changes(w.sys, Steps(moves)) == 0
    ensures var end, chain := Watch(w, moves), w.sys.shared.chain;
            && end.unnoted == w.unnoted + Alterations(w, moves)
            && (Alterations(w, moves) == 0 ==> (chain in end.eligible <==> chain in w.eligible))
    decreases |moves|
  {
    if moves != [] {
      if moves[0].Plain? {
        var steps := Steps(moves);
        assert steps[0] == moves[0].step && steps[1..] == Steps(moves[1..]);
        assert !Begins(w.sys, steps[0]);
        assert Changes(After(w, moves[0]).sys, Steps(moves[1..])) == 0;
      }
      AlterationsStayUnnoted(After(w, moves[0]), moves[1..]);
    }
  }

  /** Whether a key that is seen again stands for the same chain, unaltered: exactly
      if no more writers are half done, and no more alterations unnoted, than before. */
  lemma KeyIdentifiesTheStateIff(w: Watched, moves: seq<Move>)
    requires Watch(w, moves).sys.shared.revision == w.sys.shared.revision
    ensures var end := Watch(w, moves);
            Changes(w.sys, Steps(moves)) == 0 && Alterations(w, moves) == 0
            <==> end.sys.owed == w.sys.owed && end.unnoted == w.unnoted
  {
    WatchRuns(w, moves);
    KeyHidesNoChangeIff(w.sys, Steps(moves));
    if Changes(w.sys, Steps(moves)) == 0 {
      AlterationsStayUnnoted(w, moves);
    }
  }

  lemma {:induction false} WatchAppend(w: Watched, first: seq<Move>, second: seq<Move>)
    ensures Watch(w, first + second) == Watch(Watch(w, first), second)
    decreases |first|
  {
    if first == [] {
      assert first + second == second;
    } else {
      assert (first + second)[1..] == first[1..] + second;
      WatchAppend(After(w, first[0]), first[1..], second);
    }
  }

  /** Nobody is between two halves, and nothing waits to be noted. */
  predicate Quiet(w: Watched) {
    w.sys.owed == 0 && w.unnoted == 0
  }

  /** An answer is found by an inspection some moves after its key's revision was read,
      and given again some moves later under the same revision. If it is quiet by then,
      it is what inspecting the active chain would find. */
  lemma CachedAnswerIsFresh(w: Watched, untilInspection: seq<Move>, untilHit: seq<Move>)
    requires var hit := Watch(w, untilInspection + untilHit);
             hit.sys.shared.revision == w.sys.shared.revision && Quiet(hit)
    ensures var inspected, hit := Watch(w, untilInspection), Watch(w, untilInspection + untilHit);
            && inspected.sys.shared == hit.sys.shared == w.sys.shared
            && (w.sys.shared.chain in inspected.eligible <==> w.sys.shared.chain in hit.eligible)
  {
    var inspected, hit := Watch(w, untilInspection), Watch(w, untilInspection + untilHit);
    WatchAppend(w, untilInspection, untilHit);
    WatchRuns(w, untilInspection);
    WatchRuns(inspected, untilHit);
    ChangesAreCounted(w.sys, Steps(untilInspection));
    ChangesAreCounted(inspected.sys, Steps(untilHit));
    AlterationsStayUnnoted(inspected, untilHit);
  }

  /** Otherwise it need not be: a reused address under the old key. */
  lemma StaleAnswerWhileHalfDone()
    ensures exists moves ::
              var w := Watched(System(Active(7, 2), 0, Idle), {7}, 0);
              var end := Watch(w, moves);
              end.sys.shared == w.sys.shared && end.unnoted == 0 && 7 !in end.eligible
  {
    var w := Watched(System(Active(7, 2), 0, Idle), {7}, 0);
    var moves := [Plain(SwapOut(7)), Alter(7, false), Plain(SwapIn(7))];
    WatchOne(w, moves[0], [Alter(7, false), Plain(SwapIn(7))]);
    WatchOne(After(w, moves[0]), moves[1], [Plain(SwapIn(7))]);
    WatchOne(After(After(w, moves[0]), moves[1]), moves[2], []);
    assert moves == [moves[0]] + [Alter(7, false), Plain(SwapIn(7))];
  }

  lemma WatchOne(w: Watched, move: Move, rest: seq<Move>)
    ensures Watch(w, [move] + rest) == Watch(After(w, move), rest)
  {
    assert ([move] + rest)[1..] == rest;
  }

  // ---------- the backend's key ----------

  /** The backend query compares the pointer and then loads the revision, some moves
      later; while another chain is active its key is 0. */
  function BackendKey(chain: Address, w: Watched, between: seq<Move>): nat {
    if w.sys.shared.chain == chain then Watch(w, between).sys.shared.revision else 0
  }

  /** The two loads need not belong together, and an answer may be cached under a pair
      that never held. Still, an answer given under a nonzero key when it is quiet is
      what inspecting the chain would find. `a` and `d` are the moves between the two
      loads of each query, `b` those until the inspection, `c` those until the hit. */
  lemma BackendAnswerIsFresh(chain: Address, w: Watched, a: seq<Move>, b: seq<Move>, c: seq<Move>, d: seq<Move>)
    requires var inspected := Watch(Watch(w, a), b);
             var second := Watch(inspected, c);
             && BackendKey(chain, w, a) == BackendKey(chain, second, d) != 0
             && Quiet(Watch(second, d))
    ensures var inspected := Watch(Watch(w, a), b);
            var hit := Watch(Watch(inspected, c), d);
            && inspected.sys.shared.chain == hit.sys.shared.chain == chain
            && (chain in inspected.eligible <==> chain in hit.eligible)
  {
    hide Watch, Quiet, After;
    var keyed := Watch(w, a);
    var inspected := Watch(keyed, b);
    WatchAppend(inspected, c, d);
    WatchAppend(keyed, b, c + d);
    CachedAnswerIsFresh(keyed, b, c + d);
    WatchAppend(keyed, b + c, d);
    WatchAppend(keyed, b, c);
    RegroupMoves(b, c, d);
    CachedAnswerIsFresh(keyed, b + c, d);
  }

  lemma RegroupMoves(b: seq<Move>, c: seq<Move>, d: seq<Move>)
    ensures (b + c) + d == b + (c + d)
  {
  }

  /** The zero key promises nothing, even when it is quiet at every look: the chain is
      reconfigured while another one is active, and noted and overtaken once more. */
  lemma ZeroKeyHidesAReconfiguration()
    ensures exists w, moves ::
              var end := Watch(w, moves);
              && BackendKey(7, w, []) == BackendKey(7, end, []) == 0
              && Quiet(w) && Quiet(end) && 7 in w.eligible && 7 !in end.eligible
              && w.sys.shared.revision < end.sys.shared.revision
  {
    var w := Watched(System(Active(8, 3), 0, Idle), {7}, 0);
    var moves := [Alter(7, false), Plain(SwapIn(7)), Plain(Count), Plain(SwapIn(8)), Plain(Count)];
    var w1 := After(w, moves[0]);
    var w2 := After(w1, moves[1]);
    var w3 := After(w2, moves[2]);
    var w4 := After(w3, moves[3]);
    WatchOne(w, moves[0], moves[1..]);
    WatchOne(w1, moves[1], moves[2..]);
    WatchOne(w2, moves[2], moves[3..]);
    WatchOne(w3, moves[3], moves[4..]);
    WatchOne(w4, moves[4], []);
    assert moves == [moves[0]] + moves[1..] && moves[1..] == [moves[1]] + moves[2..];
    assert moves[2..] == [moves[2]] + moves[3..] && moves[3..] == [moves[3]] + moves[4..];
    assert moves[4..] == [moves[4]] + [];
    assert Watch(w, moves) == After(w4, moves[4]);
  }
}

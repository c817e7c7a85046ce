/** The draw log and the cycle rules of performDraw: which cycle a new draw
    is filed under (computeCycleIndex, then the rollover at the append), which
    active entries are still to be drawn in it, and the pool the winner is
    taken from. */
module Cycles {
  import opened Results
  import opened Records

  /** `WheelEntryModel.find({ isActive: true })`, in store order. */
  function ActiveEntries(entries: seq<Entry>): (r: seq<Entry>)
    ensures forall e :: e in r <==> e in entries && e.isActive
    ensures UniqueEntryIds(entries) ==> UniqueEntryIds(r)
    decreases |entries|
  {
    if entries == [] then []
    else
      var pre := entries[..|entries| - 1];
      var last := entries[|entries| - 1];
      var p := ActiveEntries(pre);
      assert entries == pre + [last];
      assert UniqueEntryIds(entries) ==> forall e :: e in pre ==> e.id != last.id;
      if last.isActive then p + [last] else p
  }

  /** The ids of `es`. */
  function IdsOf(es: seq<Entry>): (ids: set<nat>)
    ensures forall x :: x in ids <==> exists i :: 0 <= i < |es| && es[i].id == x
    decreases |es|
  {
    if es == [] then {}
    else
      var pre := es[..|es| - 1];
      assert forall i :: 0 <= i < |pre| ==> pre[i] == es[i];
      IdsOf(pre) + {es[|es| - 1].id}
  }

  /** Entries with pairwise distinct ids have as many ids as entries. */
  lemma {:induction false} IdsCount(es: seq<Entry>)
    requires UniqueEntryIds(es)
    ensures |IdsOf(es)| == |es|
    decreases |es|
  {
    if es != [] {
      var pre := es[..|es| - 1];
      assert forall i :: 0 <= i < |pre| ==> pre[i] == es[i];
      IdsCount(pre);
      assert es[|es| - 1].id !in IdsOf(pre);
    }
  }

  /** `DrawModel.countDocuments({ cycleIndex: c })` */
  function CountInCycle(draws: seq<Draw>, c: int): (n: nat)
    ensures n <= |draws|
    decreases |draws|
  {
    if draws == [] then 0
    else CountInCycle(draws[..|draws| - 1], c) + (if draws[|draws| - 1].cycleIndex == c then 1 else 0)
  }

  /** `DrawModel.find({ cycleIndex: c }).distinct("entry")`: the ids of the
      entries drawn in cycle `c`. */
  function DrawnInCycle(draws: seq<Draw>, c: int): (ids: set<nat>)
    ensures forall x :: x in ids <==> exists i :: 0 <= i < |draws| && draws[i].cycleIndex == c && draws[i].entry == x
    decreases |draws|
  {
    if draws == [] then {}
    else
      var pre := draws[..|draws| - 1];
      var last := draws[|draws| - 1];
      assert forall i :: 0 <= i < |pre| ==> pre[i] == draws[i];
      DrawnInCycle(pre, c) + (if last.cycleIndex == c then {last.entry} else {})
  }

  /** The draw `findOne().sort({ drawnAt: -1 })` returns: the last one appended. */
  function Last(draws: seq<Draw>): (d: Draw)
    requires draws != []
    ensures d in draws
  {
    draws[|draws| - 1]
  }

  predicate CyclesPositive(draws: seq<Draw>) {
    forall i :: 0 <= i < |draws| ==> draws[i].cycleIndex >= 1
  }

  predicate CyclesSorted(draws: seq<Draw>) {
    forall i, j :: 0 <= i < j < |draws| ==> draws[i].cycleIndex <= draws[j].cycleIndex
  }

  /** No entry is drawn twice within one cycle. */
  predicate NoRepeatInCycle(draws: seq<Draw>) {
    forall i, j :: 0 <= i < j < |draws| && draws[i].cycleIndex == draws[j].cycleIndex ==> draws[i].entry != draws[j].entry
  }

  /** What a log built by performDraw alone satisfies. */
  predicate HistoryInvariant(draws: seq<Draw>) {
    CyclesPositive(draws) && CyclesSorted(draws) && NoRepeatInCycle(draws)
  }

  /** computeCycleIndex: fails on an empty wheel, starts at 1 on an empty
      log, and otherwise moves past the last draw's cycle exactly when that
      cycle already holds at least `totalEntries` draws. */
  function ComputeCycleIndex(draws: seq<Draw>, totalEntries: nat): (r: Result<int>)
    ensures r.Err? <==> totalEntries == 0
    ensures r.Err? ==> r.error == EmptyWheel
    ensures r.Ok? && draws == [] ==> r.value == 1
    ensures r.Ok? && draws != [] ==>
      var last := Last(draws).cycleIndex;
      && (r.value == last + 1 <==> CountInCycle(draws, last) >= totalEntries)
      && (r.value == last <==> CountInCycle(draws, last) < totalEntries)
    ensures r.Ok? && CyclesPositive(draws) ==> r.value >= 1
  {
    if totalEntries == 0 then Err(EmptyWheel)
    else if draws == [] then Ok(1)
    else
      var last := Last(draws);
      if CountInCycle(draws, last.cycleIndex) >= totalEntries then Ok(last.cycleIndex + 1)
      else Ok(last.cycleIndex)
  }

  /** `activeEntries.filter(...)`: the active entries whose id is not in `drawn`. */
  function Remaining(active: seq<Entry>, drawn: set<nat>): (r: seq<Entry>)
    ensures forall e :: e in r <==> e in active && e.id !in drawn
    ensures drawn == {} ==> r == active
    decreases |active|
  {
    if active == [] then []
    else
      var pre := active[..|active| - 1];
      var last := active[|active| - 1];
      assert active == pre + [last];
      var p := Remaining(pre, drawn);
      if last.id in drawn then p else p + [last]
  }

  /** The cycle performDraw resolves for a wheel whose active entries are `active`. */
  function ResolvedCycle(draws: seq<Draw>, active: seq<Entry>): (c: int)
    requires active != []
    ensures draws == [] ==> c == 1
    ensures draws != [] ==> c == Last(draws).cycleIndex || c == Last(draws).cycleIndex + 1
  {
    ComputeCycleIndex(draws, |active|).value
  }

  /** `remainingEntries.length ? remainingEntries : activeEntries`: the pool
      the winner is drawn from. */
  function DrawPool(draws: seq<Draw>, active: seq<Entry>): (pool: seq<Entry>)
    requires active != []
    ensures pool != []
    ensures forall e :: e in pool ==> e in active
    ensures (exists e :: e in active && e.id !in DrawnInCycle(draws, ResolvedCycle(draws, active))) ==>
      forall e :: e in pool ==> e.id !in DrawnInCycle(draws, ResolvedCycle(draws, active))
    ensures forall e :: e in active && e.id !in DrawnInCycle(draws, ResolvedCycle(draws, active)) ==> e in pool
    ensures (forall e :: e in active ==> e.id in DrawnInCycle(draws, ResolvedCycle(draws, active))) ==> pool == active
  {
    var remaining := Remaining(active, DrawnInCycle(draws, ResolvedCycle(draws, active)));
    if remaining != [] then
      assert remaining[0] in remaining;
      remaining
    else active
  }

  /** The `cycleIndex` the new draw is stored with: the resolved cycle, or
      the next one when nothing remained to be drawn in it. It never lies
      below the last draw's cycle, nor below 1. */
  function AssignedCycle(draws: seq<Draw>, active: seq<Entry>): (c: int)
    requires active != []
    ensures draws != [] ==> c >= Last(draws).cycleIndex
    ensures CyclesPositive(draws) ==> c >= 1
  {
    var resolved := ResolvedCycle(draws, active);
    if Remaining(active, DrawnInCycle(draws, resolved)) != [] then resolved else resolved + 1
  }

  /** In a sorted log nothing has been drawn in a cycle past the last draw's. */
  lemma NothingDrawnPastLast(draws: seq<Draw>, c: int)
    requires CyclesSorted(draws)
    requires draws == [] || c > Last(draws).cycleIndex
    ensures DrawnInCycle(draws, c) == {}
  {
    forall i | 0 <= i < |draws|
      ensures draws[i].cycleIndex != c
    {
      assert draws[i].cycleIndex <= Last(draws).cycleIndex;
    }
  }

  /** When no entry repeats within a cycle, counting a cycle's draws counts
      the distinct entries drawn in it. */
  lemma {:induction false} CountIsDistinctDrawn(draws: seq<Draw>, c: int)
    requires NoRepeatInCycle(draws)
    ensures CountInCycle(draws, c) == |DrawnInCycle(draws, c)|
    decreases |draws|
  {
    if draws != [] {
      var pre := draws[..|draws| - 1];
      var last := Last(draws);
      assert forall i :: 0 <= i < |pre| ==> pre[i] == draws[i];
      assert NoRepeatInCycle(pre);
      CountIsDistinctDrawn(pre, c);
      if last.cycleIndex == c {
        forall i | 0 <= i < |pre| && pre[i].cycleIndex == c
          ensures pre[i].entry != last.entry
        {
          assert draws[i].entry != draws[|draws| - 1].entry;
        }
        assert last.entry !in DrawnInCycle(pre, c);
      }
    }
  }

  /** The fallback to the full active pool (and with it the `cycleIndex + 1`
      branch of the append) is never taken on a log built by performDraw
      alone: whenever the resolver stays in a cycle, that cycle holds fewer
      distinct entries than the wheel has active ones; whenever it moves on,
      nothing has been drawn in the new cycle yet. */
  lemma FallbackUnreachable(draws: seq<Draw>, active: seq<Entry>)
    requires HistoryInvariant(draws)
    requires active != [] && UniqueEntryIds(active)
    ensures Remaining(active, DrawnInCycle(draws, ResolvedCycle(draws, active))) != []
    ensures AssignedCycle(draws, active) == ResolvedCycle(draws, active)
  {
    var c := ResolvedCycle(draws, active);
    var drawn := DrawnInCycle(draws, c);
    if draws == [] || c == Last(draws).cycleIndex + 1 {
      NothingDrawnPastLast(draws, c);
      assert active[0] in Remaining(active, drawn);
    } else {
      CountIsDistinctDrawn(draws, c);
      IdsCount(active);
      DifferenceCardinality(IdsOf(active), drawn);
      var x :| x in IdsOf(active) - drawn;
      var i :| 0 <= i < |active| && active[i].id == x;
      assert active[i] in Remaining(active, drawn);
    }
  }

  lemma SubsetCardinality(a: set<nat>, b: set<nat>)
    requires a <= b
    ensures |a| <= |b|
  {
    assert b == a + (b - a);
  }

  lemma DifferenceCardinality(a: set<nat>, b: set<nat>)
    ensures |a - b| >= |a| - |b|
  {
    assert a == (a - b) + (a * b);
    SubsetCardinality(a * b, b);
  }

  /** Appending the draw performDraw builds keeps the log's invariant:
      cycles stay positive and never decrease (cycle monotonicity), and the
      winner has not been drawn before in the cycle it is filed under. */
  lemma DrawKeepsHistoryInvariant(draws: seq<Draw>, active: seq<Entry>, winner: Entry, admin: nat)
    requires HistoryInvariant(draws)
    requires active != [] && winner in DrawPool(draws, active)
    ensures var d := Draw(winner.id, winner.name, admin, AssignedCycle(draws, active));
      && (draws != [] ==> d.cycleIndex >= Last(draws).cycleIndex)
      && d.entry !in DrawnInCycle(draws, d.cycleIndex)
      && HistoryInvariant(draws + [d])
  {
    var resolved := ResolvedCycle(draws, active);
    var d := Draw(winner.id, winner.name, admin, AssignedCycle(draws, active));
    if Remaining(active, DrawnInCycle(draws, resolved)) == [] {
      NothingDrawnPastLast(draws, d.cycleIndex);
    } else {
      var e := Remaining(active, DrawnInCycle(draws, resolved))[0];
      assert e in active && e.id !in DrawnInCycle(draws, resolved);
    }
    AppendKeepsHistory(draws, d);
  }

  /** A draw filed under a positive cycle no earlier than the last one, for
      an entry not yet drawn in that cycle, keeps the invariant. */
  lemma AppendKeepsHistory(draws: seq<Draw>, d: Draw)
    requires HistoryInvariant(draws) && d.cycleIndex >= 1
    requires draws != [] ==> d.cycleIndex >= Last(draws).cycleIndex
    requires d.entry !in DrawnInCycle(draws, d.cycleIndex)
    ensures HistoryInvariant(draws + [d])
  {
    var after := draws + [d];
    forall i, j | 0 <= i < j < |after|
      ensures after[i].cycleIndex <= after[j].cycleIndex
      ensures after[i].cycleIndex == after[j].cycleIndex ==> after[i].entry != after[j].entry
    {
      if j == |draws| {
        assert after[i] == draws[i];
        assert draws[i].cycleIndex <= Last(draws).cycleIndex;
      }
    }
  }

  /** When every draw of cycle `c` is of an entry still active and the cycle
      holds as many draws as the wheel has active entries, every active entry
      has been drawn exactly once in it. */
  lemma CycleCoversWheel(draws: seq<Draw>, active: seq<Entry>, c: int)
    requires HistoryInvariant(draws) && UniqueEntryIds(active)
    requires forall i :: 0 <= i < |draws| && draws[i].cycleIndex == c ==> draws[i].entry in IdsOf(active)
    requires CountInCycle(draws, c) >= |active|
    ensures DrawnInCycle(draws, c) == IdsOf(active)
  {
    var drawn := DrawnInCycle(draws, c);
    CountIsDistinctDrawn(draws, c);
    IdsCount(active);
    assert drawn <= IdsOf(active);
    DifferenceCardinality(IdsOf(active), drawn);
    assert |IdsOf(active) - drawn| == 0;
  }
}

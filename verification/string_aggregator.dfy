/**
  `StringAggregator`: grouped COUNT over a STRING column, the only operator
  the class accepts. Its state is one hash map from group key to count; the
  aggregated field's value itself is never read.
*/
module StringAggregator {
  import opened Types
  import opened Grouping

  datatype StrAgg = StrAgg(
    gbfield: int,             // group-by index, or NoGrouping
    gbType: Option<Type>,     // group-by column type; absent (`null`) when ungrouped
    afield: nat,              // index of the aggregated STRING column
    op: Op,
    counts: map<Key, Int32>)  // `groups`: per-group count

  /** The constructor: any operator other than COUNT is an `IllegalArgumentException`. */
  function New(gbfield: int, gbType: Option<Type>, afield: nat, op: Op): (r: Result<StrAgg>)
    ensures r.Ok? <==> op == Count
    ensures r.Err? ==> r.error == IllegalArgument
    ensures r.Ok? ==> r.value == StrAgg(gbfield, gbType, afield, Count, map[])
  {
    if op != Count then Err(IllegalArgument)
    else Ok(StrAgg(gbfield, gbType, afield, op, map[]))
  }

  /** `mergeTupleIntoGroup`: an unseen group starts at 0, then the group's count goes up by one. */
  function Merge(a: StrAgg, t: Tuple): (r: StrAgg)
    requires HasGroupField(a.gbfield, t)
    ensures r.gbfield == a.gbfield && r.gbType == a.gbType && r.afield == a.afield && r.op == a.op
    ensures r.counts.Keys == a.counts.Keys + {GroupKey(a.gbfield, t)}
    ensures forall k :: k in a.counts && k != GroupKey(a.gbfield, t) ==> r.counts[k] == a.counts[k]
    ensures GroupKey(a.gbfield, t) !in a.counts ==> r.counts[GroupKey(a.gbfield, t)] == 1
    ensures GroupKey(a.gbfield, t) in a.counts ==>
      r.counts[GroupKey(a.gbfield, t)] == Wrap32(a.counts[GroupKey(a.gbfield, t)] as int + 1)
  {
    var k := GroupKey(a.gbfield, t);
    var counts := if k in a.counts then a.counts else a.counts[k := 0];
    a.(counts := counts[k := Wrap32(counts[k] + 1)])
  }

  predicate AllGroupable(gbfield: int, ts: seq<Tuple>)
  {
    forall i :: 0 <= i < |ts| ==> HasGroupField(gbfield, ts[i])
  }

  /** The merges `Aggregate.open` performs, in child order. */
  function MergeAll(a: StrAgg, ts: seq<Tuple>): (r: StrAgg)
    requires AllGroupable(a.gbfield, ts)
    ensures r.gbfield == a.gbfield && r.gbType == a.gbType && r.afield == a.afield && r.op == a.op
    decreases |ts|
  {
    if ts == [] then a
    else Merge(MergeAll(a, ts[..|ts| - 1]), ts[|ts| - 1])
  }

  /** The number of tuples of `ts` in group `k`. */
  function CountOf(gbfield: int, ts: seq<Tuple>, k: Key): (n: nat)
    requires AllGroupable(gbfield, ts)
    ensures n <= |ts|
    decreases |ts|
  {
    if ts == [] then 0
    else CountOf(gbfield, ts[..|ts| - 1], k) + (if GroupKey(gbfield, ts[|ts| - 1]) == k then 1 else 0)
  }

  /**
    After merging `ts` into a fresh aggregator, a group exists exactly for
    the keys some input tuple has, and its count is the number of input
    tuples with that key (as a Java `int`).
  */
  lemma {:induction false} MergeAllCounts(gbfield: int, gbType: Option<Type>, afield: nat, ts: seq<Tuple>)
    requires AllGroupable(gbfield, ts)
    ensures var r := MergeAll(StrAgg(gbfield, gbType, afield, Count, map[]), ts);
      forall k :: (k in r.counts <==> CountOf(gbfield, ts, k) > 0)
        && (k in r.counts ==> r.counts[k] == Wrap32(CountOf(gbfield, ts, k)))
    decreases |ts|
  {
    if ts != [] {
      var init := ts[..|ts| - 1];
      assert AllGroupable(gbfield, init);
      MergeAllCounts(gbfield, gbType, afield, init);
      var p := MergeAll(StrAgg(gbfield, gbType, afield, Count, map[]), init);
      var c := Merge(p, ts[|ts| - 1]).counts;
      forall k
        ensures (k in c <==> CountOf(gbfield, ts, k) > 0) && (k in c ==> c[k] == Wrap32(CountOf(gbfield, ts, k)))
      {
        CountStep(p, gbfield, ts, k);
      }
    }
  }

  /** The count map agrees with `CountOf` on key `k`. */
  predicate CountMatches(counts: map<Key, Int32>, gbfield: int, ts: seq<Tuple>, k: Key)
    requires AllGroupable(gbfield, ts)
  {
    && (k in counts <==> CountOf(gbfield, ts, k) > 0)
    && (k in counts ==> counts[k] == Wrap32(CountOf(gbfield, ts, k)))
  }

  /** Merging the last tuple keeps the count map in agreement with `CountOf` on each key. */
  lemma CountStep(p: StrAgg, gbfield: int, ts: seq<Tuple>, k: Key)
    requires ts != [] && AllGroupable(gbfield, ts) && p.gbfield == gbfield
    requires AllGroupable(gbfield, ts[..|ts| - 1]) && CountMatches(p.counts, gbfield, ts[..|ts| - 1], k)
    ensures CountMatches(Merge(p, ts[|ts| - 1]).counts, gbfield, ts, k)
  {
    var init := ts[..|ts| - 1];
    if GroupKey(gbfield, ts[|ts| - 1]) == k && k in p.counts {
      Wrap32Add(CountOf(gbfield, init, k), 1);
    }
  }

  /** Sum of the values of a map, in no particular key order. */
  ghost function SumValues(m: map<Key, Int32>): int
    decreases |m|
  {
    if m == map[] then 0
    else
      var k :| k in m;
      m[k] + SumValues(m - {k})
  }

  /** `SumValues` does not depend on which key it picks first. */
  lemma {:induction false} SumValuesRemove(m: map<Key, Int32>, k: Key)
    requires k in m
    ensures SumValues(m) == m[k] + SumValues(m - {k})
    decreases |m|
  {
    var j :| j in m && SumValues(m) == m[j] + SumValues(m - {j});
    if j != k {
      var mj := m - {j};
      var mk := m - {k};
      SumValuesRemove(mj, k);
      SumValuesRemove(mk, j);
      assert mj - {k} == mk - {j};
    }
  }

  /**
    The per-group counts add up to the number of merged tuples, as long as
    no count overflows a Java `int`.
  */
  lemma {:induction false} CountsSumToLength(gbfield: int, gbType: Option<Type>, afield: nat, ts: seq<Tuple>)
    requires AllGroupable(gbfield, ts)
    requires |ts| <= IntMax
    ensures SumValues(MergeAll(StrAgg(gbfield, gbType, afield, Count, map[]), ts).counts) == |ts|
    decreases |ts|
  {
    if ts != [] {
      var init := ts[..|ts| - 1];
      assert AllGroupable(gbfield, init);
      CountsSumToLength(gbfield, gbType, afield, init);
      MergeAllCounts(gbfield, gbType, afield, init);
      var p := MergeAll(StrAgg(gbfield, gbType, afield, Count, map[]), init);
      var k := GroupKey(gbfield, ts[|ts| - 1]);
      if k in p.counts {
        assert p.counts[k] == CountOf(gbfield, init, k);
      }
      MergeAddsOne(p, ts[|ts| - 1]);
    }
  }

  /** A merge that does not overflow raises the total of the counts by exactly one. */
  lemma MergeAddsOne(a: StrAgg, t: Tuple)
    requires HasGroupField(a.gbfield, t)
    requires GroupKey(a.gbfield, t) in a.counts ==> a.counts[GroupKey(a.gbfield, t)] < IntMax
    ensures SumValues(Merge(a, t).counts) == SumValues(a.counts) + 1
  {
    var r := Merge(a, t);
    var k := GroupKey(a.gbfield, t);
    assert r.counts - {k} == a.counts - {k};
    SumValuesRemove(r.counts, k);
    if k in a.counts {
      SumValuesRemove(a.counts, k);
    } else {
      assert a.counts - {k} == a.counts;
    }
  }

  /** Under NO_GROUPING a non-empty input yields the single `null` group holding the input length. */
  lemma UngroupedCount(gbType: Option<Type>, afield: nat, ts: seq<Tuple>)
    requires AllGroupable(NoGrouping, ts)
    requires 0 < |ts| <= IntMax
    ensures MergeAll(StrAgg(NoGrouping, gbType, afield, Count, map[]), ts).counts == map[None := |ts|]
  {
    var r := MergeAll(StrAgg(NoGrouping, gbType, afield, Count, map[]), ts);
    MergeAllCounts(NoGrouping, gbType, afield, ts);
    UngroupedCountOf(ts);
    forall k | k in r.counts
      ensures k == None
    {
      if k != None {
        NoOtherKey(ts, k);
      }
    }
    assert r.counts.Keys == {None};
  }

  lemma {:induction false} UngroupedCountOf(ts: seq<Tuple>)
    requires AllGroupable(NoGrouping, ts)
    ensures CountOf(NoGrouping, ts, None) == |ts|
    decreases |ts|
  {
    if ts != [] {
      assert AllGroupable(NoGrouping, ts[..|ts| - 1]);
      UngroupedCountOf(ts[..|ts| - 1]);
    }
  }

  lemma {:induction false} NoOtherKey(ts: seq<Tuple>, k: Key)
    requires AllGroupable(NoGrouping, ts)
    requires k != None
    ensures CountOf(NoGrouping, ts, k) == 0
    decreases |ts|
  {
    if ts != [] {
      assert AllGroupable(NoGrouping, ts[..|ts| - 1]);
      NoOtherKey(ts[..|ts| - 1], k);
    }
  }

  /** `iterator()`: one row per group carrying its count as an INT field. */
  method Iterator(a: StrAgg) returns (rows: seq<Tuple>)
    ensures EmitsExactly(a.counts, rows)
  {
    rows := Emit(a.counts);
  }

  /** `getTupleDesc`: one INT column when ungrouped; the group column's type and INT when grouped. */
  function GetTupleDesc(a: StrAgg): (td: TupleDesc)
    requires a.gbfield != NoGrouping ==> a.gbType.Some?
    ensures td.Valid()
    ensures a.gbfield == NoGrouping ==> td.types == [IntType]
    ensures a.gbfield != NoGrouping ==> td.types == [a.gbType.value, IntType]
    ensures td.names[|td.names| - 1] == "aggregateVal"
  {
    if a.gbfield == NoGrouping then TupleDesc([IntType], ["aggregateVal"])
    else TupleDesc([a.gbType.value, IntType], ["groupVal", "aggregateVal"])
  }
}

/**
  `IntegerAggregator`: grouped COUNT, SUM, AVG, MIN and MAX over an INT
  column. The Java object holds two hash maps keyed by group: `aggVal`, the
  running accumulator, and `groups`, the running count that only AVG uses.
  Merging a tuple is a pure update of those maps; `MergeAll` is the fold of
  merges over the child's tuples that `Aggregate.open` performs.
*/
module IntegerAggregator {
  import opened Types
  import opened Grouping

  datatype IntAgg = IntAgg(
    gbfield: int,             // group-by index, or NoGrouping
    gbType: Option<Type>,     // group-by column type; absent (`null`) when ungrouped
    afield: nat,              // index of the aggregated INT column
    op: Op,
    counts: map<Key, Int32>,  // `groups`: per-group tuple count, advanced by AVG only
    acc: map<Key, Int32>)     // `aggVal`: per-group accumulator
  {
    /** Both maps are created together for a new key, so they share their key set. */
    predicate Valid() { counts.Keys == acc.Keys }
  }

  /** A fresh aggregator: the constructor records its arguments and two empty maps. */
  function New(gbfield: int, gbType: Option<Type>, afield: nat, op: Op): (a: IntAgg)
    ensures a.Valid() && a.acc == map[] && a.counts == map[]
    ensures a.gbfield == gbfield && a.gbType == gbType && a.afield == afield && a.op == op
  {
    IntAgg(gbfield, gbType, afield, op, map[], map[])
  }

  /** The accumulator a group starts from: `Integer.MIN_VALUE` for MAX, `Integer.MAX_VALUE` for MIN, else 0. */
  function InitialValue(op: Op): (r: Int32)
    ensures op == Max ==> r == IntMin
    ensures op == Min ==> r == IntMax
    ensures op != Max && op != Min ==> r == 0
  {
    match op
    case Max => IntMin
    case Min => IntMax
    case _ => 0
  }

  /** The tuple carries the fields a merge reads: the group-by field and an INT aggregate field. */
  predicate CanMerge(gbfield: int, afield: nat, t: Tuple)
  {
    && HasGroupField(gbfield, t)
    && afield < |t.fields|
    && t.fields[afield].IntField?
  }

  function Value(afield: nat, t: Tuple): Int32
    requires afield < |t.fields| && t.fields[afield].IntField?
  {
    t.fields[afield].n
  }

  /** One step of the `switch` on the operator: the new accumulator given the old one and the value. */
  function Combine(op: Op, cur: Int32, v: Int32): Int32
  {
    match op
    case Count => Wrap32(cur + 1)
    case Max => if v > cur then v else cur
    case Min => if v < cur then v else cur
    case Sum => Wrap32(cur + v)
    case Avg => Wrap32(cur + v)
  }

  /** The accumulator group `k` holds before a merge: its entry, or the initial value if unseen. */
  function Before(a: IntAgg, k: Key): Int32
  {
    if k in a.acc then a.acc[k] else InitialValue(a.op)
  }

  /** The count group `k` holds before a merge: its entry, or 0 if unseen. */
  function BeforeCount(a: IntAgg, k: Key): Int32
  {
    if k in a.counts then a.counts[k] else 0
  }

  /** `mergeTupleIntoGroup`. */
  function Merge(a: IntAgg, t: Tuple): (r: IntAgg)
    requires a.Valid() && CanMerge(a.gbfield, a.afield, t)
    ensures r.Valid()
    ensures r.gbfield == a.gbfield && r.gbType == a.gbType && r.afield == a.afield && r.op == a.op
    ensures r.acc.Keys == a.acc.Keys + {GroupKey(a.gbfield, t)}
    // a merge touches only the tuple's own group
    ensures forall k :: k in a.acc && k != GroupKey(a.gbfield, t) ==> r.acc[k] == a.acc[k] && r.counts[k] == a.counts[k]
    // the tuple's group moves from its prior (or initial) accumulator by one step of the operator
    ensures r.acc[GroupKey(a.gbfield, t)] == Combine(a.op, Before(a, GroupKey(a.gbfield, t)), Value(a.afield, t))
    // only AVG advances the group's count; the division waits for `iterator`
    ensures r.counts[GroupKey(a.gbfield, t)] ==
      if a.op == Avg then Wrap32(BeforeCount(a, GroupKey(a.gbfield, t)) + 1) else BeforeCount(a, GroupKey(a.gbfield, t))
  {
    var k := GroupKey(a.gbfield, t);
    var counts := if k in a.acc then a.counts else a.counts[k := 0];
    var acc := if k in a.acc then a.acc else a.acc[k := InitialValue(a.op)];
    var counts' := if a.op == Avg then counts[k := Wrap32(counts[k] + 1)] else counts;
    a.(counts := counts', acc := acc[k := Combine(a.op, acc[k], Value(a.afield, t))])
  }

  /**
    What one merge does to the tuple's group, operator by operator: COUNT
    adds one, SUM and AVG add the value (Java `int` addition, so wrapping),
    MAX and MIN replace the accumulator only by a strictly larger / smaller
    value; an unseen group starts from `InitialValue` with count 0.
  */
  lemma MergeRule(a: IntAgg, t: Tuple)
    requires a.Valid() && CanMerge(a.gbfield, a.afield, t)
    ensures var k := GroupKey(a.gbfield, t);
      var r := Merge(a, t);
      var before: int := if k in a.acc then a.acc[k] else InitialValue(a.op);
      var count: int := if k in a.counts then a.counts[k] else 0;
      var v: int := Value(a.afield, t);
      && (a.op == Count ==> r.acc[k] == Wrap32(before + 1))
      && (a.op == Sum ==> r.acc[k] == Wrap32(before + v))
      && (a.op == Avg ==> r.acc[k] == Wrap32(before + v) && r.counts[k] == Wrap32(count + 1))
      && (a.op == Max ==> r.acc[k] == (if v > before then v else before))
      && (a.op == Min ==> r.acc[k] == (if v < before then v else before))
      && (a.op != Avg ==> r.counts[k] == count)
  {
  }

  predicate AllMergeable(gbfield: int, afield: nat, ts: seq<Tuple>)
  {
    forall i :: 0 <= i < |ts| ==> CanMerge(gbfield, afield, ts[i])
  }

  /** The merges `Aggregate.open` performs, in child order: a left fold of `Merge`. */
  function MergeAll(a: IntAgg, ts: seq<Tuple>): (r: IntAgg)
    requires a.Valid() && AllMergeable(a.gbfield, a.afield, ts)
    ensures r.Valid()
    ensures r.gbfield == a.gbfield && r.gbType == a.gbType && r.afield == a.afield && r.op == a.op
    decreases |ts|
  {
    if ts == [] then a
    else Merge(MergeAll(a, ts[..|ts| - 1]), ts[|ts| - 1])
  }

  // ---------------------------------------------------------------------------
  // Reference definitions of each group's result
  // ---------------------------------------------------------------------------

  /** The aggregate-field values of the tuples in group `k`, in input order. */
  function ValuesOf(gbfield: int, afield: nat, ts: seq<Tuple>, k: Key): (vs: seq<Int32>)
    requires AllMergeable(gbfield, afield, ts)
    ensures |vs| <= |ts|
    decreases |ts|
  {
    if ts == [] then []
    else
      var last := ts[|ts| - 1];
      ValuesOf(gbfield, afield, ts[..|ts| - 1], k)
        + (if GroupKey(gbfield, last) == k then [Value(afield, last)] else [])
  }

  function SumOf(vs: seq<int>): int
    decreases |vs|
  {
    if vs == [] then 0 else SumOf(vs[..|vs| - 1]) + vs[|vs| - 1]
  }

  function MaxOf(vs: seq<Int32>): Int32
    requires vs != []
    decreases |vs|
  {
    if |vs| == 1 then vs[0]
    else
      var m := MaxOf(vs[..|vs| - 1]);
      if vs[|vs| - 1] > m then vs[|vs| - 1] else m
  }

  function MinOf(vs: seq<Int32>): Int32
    requires vs != []
    decreases |vs|
  {
    if |vs| == 1 then vs[0]
    else
      var m := MinOf(vs[..|vs| - 1]);
      if vs[|vs| - 1] < m then vs[|vs| - 1] else m
  }

  /** `MaxOf` is the largest value of the sequence. */
  lemma {:induction false} MaxOfIsMaximum(vs: seq<Int32>)
    requires vs != []
    ensures MaxOf(vs) in vs
    ensures forall i :: 0 <= i < |vs| ==> vs[i] <= MaxOf(vs)
    decreases |vs|
  {
    if |vs| > 1 {
      var init := vs[..|vs| - 1];
      MaxOfIsMaximum(init);
      assert vs == init + [vs[|vs| - 1]];
    }
  }

  /** `MinOf` is the smallest value of the sequence. */
  lemma {:induction false} MinOfIsMinimum(vs: seq<Int32>)
    requires vs != []
    ensures MinOf(vs) in vs
    ensures forall i :: 0 <= i < |vs| ==> MinOf(vs) <= vs[i]
    decreases |vs|
  {
    if |vs| > 1 {
      var init := vs[..|vs| - 1];
      MinOfIsMinimum(init);
      assert vs == init + [vs[|vs| - 1]];
    }
  }

  /**
    The accumulator a group holds once all its values are merged: the count,
    the sum or the running AVG total, each wrapped to 32 bits as Java's `int`
    wraps, or the largest or smallest value.
  */
  function GroupValue(op: Op, vs: seq<Int32>): Int32
    requires vs != []
  {
    match op
    case Count => Wrap32(|vs|)
    case Sum => Wrap32(SumOf(vs))
    case Avg => Wrap32(SumOf(vs))
    case Max => MaxOf(vs)
    case Min => MinOf(vs)
  }

  /** Group `k` of `r` is what merging exactly the tuples `ts` produces. */
  ghost predicate GroupMatches(r: IntAgg, ts: seq<Tuple>, k: Key)
    requires r.Valid() && AllMergeable(r.gbfield, r.afield, ts)
  {
    var vs := ValuesOf(r.gbfield, r.afield, ts, k);
    && (k in r.acc <==> vs != [])
    && (k in r.acc ==>
          && r.acc[k] == GroupValue(r.op, vs)
          && r.counts[k] == (if r.op == Avg then Wrap32(|vs|) else 0))
  }

  /**
    After merging `ts` into a fresh aggregator, a group exists exactly for
    the keys some input tuple has, its accumulator is that group's
    `GroupValue`, and its count is the group's size for AVG and 0 otherwise.
  */
  lemma {:induction false} MergeAllGroups(gbfield: int, gbType: Option<Type>, afield: nat, op: Op, ts: seq<Tuple>)
    requires AllMergeable(gbfield, afield, ts)
    ensures forall k :: GroupMatches(MergeAll(New(gbfield, gbType, afield, op), ts), ts, k)
    decreases |ts|
  {
    if ts != [] {
      var init := ts[..|ts| - 1];
      assert AllMergeable(gbfield, afield, init);
      MergeAllGroups(gbfield, gbType, afield, op, init);
      var p := MergeAll(New(gbfield, gbType, afield, op), init);
      forall k
        ensures GroupMatches(MergeAll(New(gbfield, gbType, afield, op), ts), ts, k)
      {
        MergeStep(p, ts, k);
      }
    }
  }

  /** One more merge keeps every group in line with the reference definition. */
  lemma MergeStep(p: IntAgg, ts: seq<Tuple>, k: Key)
    requires ts != []
    requires p.Valid() && AllMergeable(p.gbfield, p.afield, ts)
    requires GroupMatches(p, ts[..|ts| - 1], k)
    ensures GroupMatches(Merge(p, ts[|ts| - 1]), ts, k)
  {
    var init := ts[..|ts| - 1];
    var last := ts[|ts| - 1];
    var r := Merge(p, last);
    var pv := ValuesOf(p.gbfield, p.afield, init, k);
    var v := Value(p.afield, last);
    if k == GroupKey(p.gbfield, last) {
      var vs := pv + [v];
      assert ValuesOf(p.gbfield, p.afield, ts, k) == vs;
      if pv == [] {
        assert vs == [v];
        MergeOneValue(p.op, v);
      } else {
        MergeNextValue(p.op, pv, v, p.acc[k], p.counts[k]);
      }
    } else {
      assert ValuesOf(p.gbfield, p.afield, ts, k) == pv;
    }
  }

  /** The first value merged into a group yields the one-element group's value. */
  lemma MergeOneValue(op: Op, v: Int32)
    ensures Combine(op, InitialValue(op), v) == GroupValue(op, [v])
  {
    assert SumOf([v]) == v by {
      assert [v][..0] == [];
    }
  }

  /** Merging one more value into a group's accumulator extends the group's value by it. */
  lemma MergeNextValue(op: Op, vs: seq<Int32>, v: Int32, cur: Int32, count: Int32)
    requires vs != []
    requires cur == GroupValue(op, vs)
    requires op == Avg ==> count == Wrap32(|vs|)
    ensures Combine(op, cur, v) == GroupValue(op, vs + [v])
    ensures op == Avg ==> Wrap32(count + 1) == Wrap32(|vs + [v]|)
  {
    var ws := vs + [v];
    assert ws[..|ws| - 1] == vs;
    Wrap32Add(|vs|, 1);
    Wrap32Add(SumOf(vs), v);
  }

  /** Under NO_GROUPING every tuple falls under the `null` key, so there is at most one group. */
  lemma {:induction false} UngroupedHasOneGroup(gbType: Option<Type>, afield: nat, op: Op, ts: seq<Tuple>)
    requires AllMergeable(NoGrouping, afield, ts)
    ensures MergeAll(New(NoGrouping, gbType, afield, op), ts).acc.Keys <= {None}
    ensures ts != [] ==> MergeAll(New(NoGrouping, gbType, afield, op), ts).acc.Keys == {None}
    decreases |ts|
  {
    if ts != [] {
      assert AllMergeable(NoGrouping, afield, ts[..|ts| - 1]);
      UngroupedHasOneGroup(gbType, afield, op, ts[..|ts| - 1]);
    }
  }

  // ---------------------------------------------------------------------------
  // Finalisation
  // ---------------------------------------------------------------------------

  /**
    The value `iterator()` reports for each group. AVG divides the running
    total by the group's count here, once, with Java's truncating `int`
    division, which throws `ArithmeticException` on a zero count.
  */
  function FinalValues(a: IntAgg): (r: Result<map<Key, Int32>>)
    requires a.Valid()
    ensures r.Err? <==> a.op == Avg && exists k :: k in a.counts && a.counts[k] == 0
    ensures r.Err? ==> r.error == Arithmetic
    ensures r.Ok? ==> r.value.Keys == a.acc.Keys
    ensures r.Ok? && a.op != Avg ==> r.value == a.acc
    ensures r.Ok? && a.op == Avg ==> forall k :: k in r.value ==> r.value[k] == JavaDiv(a.acc[k], a.counts[k])
  {
    if a.op == Avg && exists k :: k in a.counts && a.counts[k] == 0 then Err(Arithmetic)
    else if a.op == Avg then Ok(map k | k in a.acc :: JavaDiv(a.acc[k], a.counts[k]))
    else Ok(a.acc)
  }

  /** `iterator()`: one output row per group, `(val)` when ungrouped and `(key, val)` when grouped. */
  method Iterator(a: IntAgg) returns (r: Result<seq<Tuple>>)
    requires a.Valid()
    ensures r.Ok? <==> FinalValues(a).Ok?
    ensures r.Err? ==> r.error == FinalValues(a).error
    ensures r.Ok? ==> EmitsExactly(FinalValues(a).value, r.value)
  {
    var fv := FinalValues(a);
    if fv.Err? {
      return Err(fv.error);
    }
    var rows := Emit(fv.value);
    return Ok(rows);
  }

  /**
    For AVG over fewer than 2^31 tuples, finalisation succeeds and each
    group's result is its (wrapped) total divided by its size, rounding
    toward zero.
  */
  lemma AvgResult(gbfield: int, gbType: Option<Type>, afield: nat, ts: seq<Tuple>)
    requires AllMergeable(gbfield, afield, ts)
    requires |ts| < TwoTo31
    ensures var r := MergeAll(New(gbfield, gbType, afield, Avg), ts);
      && FinalValues(r).Ok?
      && forall k :: k in FinalValues(r).value ==>
           var vs := ValuesOf(gbfield, afield, ts, k);
           vs != [] && FinalValues(r).value[k] == TruncDiv(Wrap32(SumOf(vs)), |vs|)
  {
    var r := MergeAll(New(gbfield, gbType, afield, Avg), ts);
    MergeAllGroups(gbfield, gbType, afield, Avg, ts);
    forall k | k in r.counts
      ensures r.counts[k] == |ValuesOf(gbfield, afield, ts, k)| && r.counts[k] > 0
      ensures r.acc[k] == Wrap32(SumOf(ValuesOf(gbfield, afield, ts, k)))
    {
      assert GroupMatches(r, ts, k);
    }
    assert !exists k :: k in r.counts && r.counts[k] == 0;
    var fv := FinalValues(r);
    assert fv.Ok?;
    forall k | k in fv.value
      ensures var vs := ValuesOf(gbfield, afield, ts, k);
        vs != [] && fv.value[k] == TruncDiv(Wrap32(SumOf(vs)), |vs|)
    {
      assert fv.value[k] == JavaDiv(r.acc[k], r.counts[k]);
    }
  }

  /** `getTupleDesc`: one INT column when ungrouped; the group column's type and INT when grouped. */
  function GetTupleDesc(a: IntAgg): (td: TupleDesc)
    requires a.gbfield != NoGrouping ==> a.gbType.Some?
    ensures td.Valid()
    ensures a.gbfield == NoGrouping ==> td.types == [IntType]
    ensures a.gbfield != NoGrouping ==> td.types == [a.gbType.value, IntType]
    ensures a.gbfield == NoGrouping ==> td.names == ["aggrregateVal"]
    ensures a.gbfield != NoGrouping ==> td.names == ["groupVal", "aggregateVal"]
  {
    if a.gbfield == NoGrouping then TupleDesc([IntType], ["aggrregateVal"])
    else TupleDesc([a.gbType.value, IntType], ["groupVal", "aggregateVal"])
  }

  /** Every row `iterator()` emits has the shape `getTupleDesc` describes. */
  lemma RowsConform(a: IntAgg, k: Key, v: Int32)
    requires a.gbfield != NoGrouping ==> a.gbType.Some?
    requires a.gbfield == NoGrouping <==> k.None?
    requires k.Some? ==> TypeOf(k.value) == a.gbType.value
    ensures Conforms(Row(k, v), GetTupleDesc(a))
  {
  }

  /** A group with values was formed by some input tuple: its key is that tuple's group key. */
  lemma {:induction false} KeyHasTuple(gbfield: int, afield: nat, ts: seq<Tuple>, k: Key)
    requires AllMergeable(gbfield, afield, ts)
    requires ValuesOf(gbfield, afield, ts, k) != []
    ensures exists i :: 0 <= i < |ts| && GroupKey(gbfield, ts[i]) == k
    decreases |ts|
  {
    var init := ts[..|ts| - 1];
    if GroupKey(gbfield, ts[|ts| - 1]) != k {
      assert AllMergeable(gbfield, afield, init);
      KeyHasTuple(gbfield, afield, init, k);
      var i :| 0 <= i < |init| && GroupKey(gbfield, init[i]) == k;
      assert ts[i] == init[i];
    }
  }

  /**
    The rows `iterator()` emits after merging tuples of the child's
    descriptor `td` all match `getTupleDesc`: the group column has the
    child's group-by type, because every group key is a child tuple's field.
  */
  lemma EmittedRowsConform(td: TupleDesc, gbfield: int, afield: nat, op: Op, ts: seq<Tuple>)
    requires gbfield == NoGrouping || 0 <= gbfield < |td.types|
    requires forall i :: 0 <= i < |ts| ==> Conforms(ts[i], td)
    requires AllMergeable(gbfield, afield, ts)
    ensures var a := MergeAll(New(gbfield, if gbfield == NoGrouping then None else Some(td.types[gbfield]), afield, op), ts);
      FinalValues(a).Ok? ==>
        forall k :: k in FinalValues(a).value ==> Conforms(Row(k, FinalValues(a).value[k]), GetTupleDesc(a))
  {
    var gbType := if gbfield == NoGrouping then None else Some(td.types[gbfield]);
    var a := MergeAll(New(gbfield, gbType, afield, op), ts);
    MergeAllGroups(gbfield, gbType, afield, op, ts);
    if FinalValues(a).Ok? {
      var m := FinalValues(a).value;
      forall k | k in m
        ensures Conforms(Row(k, m[k]), GetTupleDesc(a))
      {
        assert GroupMatches(a, ts, k);
        KeyHasTuple(gbfield, afield, ts, k);
        var i :| 0 <= i < |ts| && GroupKey(gbfield, ts[i]) == k;
        if k.Some? {
          assert Conforms(ts[i], td);
          assert TypeOf(ts[i].fields[gbfield]) == td.types[gbfield];
        }
        RowsConform(a, k, m[k]);
      }
    }
  }
}

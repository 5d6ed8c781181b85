/**
  The `Aggregate` operator: picks the integer or the string aggregator from
  the aggregated column's type, drains its child completely inside `open`,
  and then hands out the finished group rows one `fetchNext` at a time.
  The child is given as the sequence of tuples it produces.
*/
module Aggregate {
  import opened Types
  import opened Grouping
  import IA = IntegerAggregator
  import SA = StringAggregator

  /** The aggregator chosen once at construction: numeric for INT columns, textual for STRING ones. */
  datatype Aggregator = Numeric(ia: IA.IntAgg) | Textual(sa: SA.StrAgg)

  datatype AggregateOp = AggregateOp(
    childDesc: TupleDesc,   // the child's output descriptor
    afield: nat,            // aggregated column of the child
    gfield: int,            // group-by column of the child, or NoGrouping
    op: Op,
    agg: Aggregator,        // running state, kept across `open` calls
    results: seq<Tuple>,    // the finished rows `aggIter` walks
    cursor: nat)            // `aggIter`'s position in `results`

  /** The group-by column's type, or none (`null`) when ungrouped. */
  function GroupType(td: TupleDesc, gfield: int): Option<Type>
    requires gfield == NoGrouping || 0 <= gfield < |td.types|
  {
    if gfield == NoGrouping then None else Some(td.types[gfield])
  }

  /** The aggregator a freshly built operator holds for this configuration. */
  function FreshAggregator(td: TupleDesc, afield: nat, gfield: int, op: Op): Aggregator
    requires afield < |td.types|
    requires gfield == NoGrouping || 0 <= gfield < |td.types|
    requires td.types[afield] == IntType || op == Count
  {
    if td.types[afield] == IntType then Numeric(IA.New(gfield, GroupType(td, gfield), afield, op))
    else Textual(SA.New(gfield, GroupType(td, gfield), afield, op).value)
  }

  /** The aggregator carries the operator's configuration and keeps its own invariant. */
  predicate AggregatorFits(a: AggregateOp)
    requires a.afield < |a.childDesc.types|
    requires a.gfield == NoGrouping || 0 <= a.gfield < |a.childDesc.types|
  {
    match a.agg
    case Numeric(ia) =>
      && a.childDesc.types[a.afield] == IntType
      && ia.Valid()
      && ia.gbfield == a.gfield && ia.afield == a.afield && ia.op == a.op
      && ia.gbType == GroupType(a.childDesc, a.gfield)
    case Textual(sa) =>
      && a.childDesc.types[a.afield] == StringType
      && a.op == Count
      && sa.gbfield == a.gfield && sa.afield == a.afield && sa.op == Count
      && sa.gbType == GroupType(a.childDesc, a.gfield)
  }

  predicate Valid(a: AggregateOp)
  {
    && a.childDesc.Valid()
    && a.afield < |a.childDesc.types|
    && (a.gfield == NoGrouping || 0 <= a.gfield < |a.childDesc.types|)
    && AggregatorFits(a)
    && a.cursor <= |a.results|
  }

  /**
    The constructor. A group-by argument of -1 means NO_GROUPING; the
    aggregated column's type selects the aggregator. Reading the type of a
    column the child does not have fails (`NoSuchElementException`), and the
    string aggregator rejects any operator but COUNT.
  */
  function New(td: TupleDesc, agfield: int, gbfield: int, op: Op): (r: Result<AggregateOp>)
    requires td.Valid()
    ensures r.Ok? <==>
      && 0 <= agfield < |td.types|
      && (gbfield == -1 || 0 <= gbfield < |td.types|)
      && (td.types[agfield] == IntType || op == Count)
    ensures r.Err? && !(0 <= agfield < |td.types| && (gbfield == -1 || 0 <= gbfield < |td.types|)) ==>
      r.error == NoSuchElement
    ensures r.Err? && 0 <= agfield < |td.types| && (gbfield == -1 || 0 <= gbfield < |td.types|) ==>
      r.error == IllegalArgument
    ensures r.Ok? ==> Valid(r.value)
    ensures r.Ok? ==> r.value.gfield == (if gbfield == -1 then NoGrouping else gbfield)
    ensures r.Ok? ==> (r.value.agg.Numeric? <==> td.types[agfield] == IntType)
    ensures r.Ok? ==> r.value.agg == FreshAggregator(td, agfield, r.value.gfield, op)
    ensures r.Ok? ==> r.value.results == [] && r.value.cursor == 0
  {
    var gfield := if gbfield == -1 then NoGrouping else gbfield;
    if gfield != NoGrouping && !(0 <= gfield < |td.types|) then Err(NoSuchElement)
    else if !(0 <= agfield < |td.types|) then Err(NoSuchElement)
    else if td.types[agfield] == StringType && op != Count then Err(IllegalArgument)
    else Ok(AggregateOp(td, agfield, gfield, op, FreshAggregator(td, agfield, gfield, op), [], 0))
  }

  // ---------------------------------------------------------------------------
  // open: drain the child, then finalise
  // ---------------------------------------------------------------------------

  predicate AllConform(ts: seq<Tuple>, td: TupleDesc)
  {
    forall i :: 0 <= i < |ts| ==> Conforms(ts[i], td)
  }

  /** Every tuple of the child can be merged by the operator's aggregator. */
  lemma ConformingTuplesMerge(a: AggregateOp, ts: seq<Tuple>)
    requires Valid(a) && AllConform(ts, a.childDesc)
    ensures a.agg.Numeric? ==> IA.AllMergeable(a.gfield, a.afield, ts)
    ensures SA.AllGroupable(a.gfield, ts)
  {
    if a.agg.Numeric? {
      forall i | 0 <= i < |ts|
        ensures IA.CanMerge(a.gfield, a.afield, ts[i])
      {
        assert Conforms(ts[i], a.childDesc);
        assert TypeOf(ts[i].fields[a.afield]) == IntType;
      }
    }
  }

  /** Merges the child's tuples, in order, into aggregator `agg`. */
  function MergeChild(a: AggregateOp, agg: Aggregator, ts: seq<Tuple>): (r: Aggregator)
    requires Valid(a) && AllConform(ts, a.childDesc)
    requires Valid(a.(agg := agg))
    ensures Valid(a.(agg := r))
    ensures r.Numeric? <==> agg.Numeric?
    ensures r.Numeric? ==> r.ia == IA.MergeAll(agg.ia, ts)
    ensures r.Textual? ==> r.sa == SA.MergeAll(agg.sa, ts)
  {
    ConformingTuplesMerge(a.(agg := agg), ts);
    match agg
    case Numeric(ia) => Numeric(IA.MergeAll(ia, ts))
    case Textual(sa) => Textual(SA.MergeAll(sa, ts))
  }

  /** The per-group values the finished rows carry (AVG divided here), or the division error. */
  function FinalMap(agg: Aggregator): Result<map<Key, Int32>>
    requires agg.Numeric? ==> agg.ia.Valid()
  {
    match agg
    case Numeric(ia) => IA.FinalValues(ia)
    case Textual(sa) => Ok(sa.counts)
  }

  /** `agg.iterator()`, dispatched on the aggregator's kind. */
  method Finalise(agg: Aggregator) returns (r: Result<seq<Tuple>>)
    requires agg.Numeric? ==> agg.ia.Valid()
    ensures r.Ok? <==> FinalMap(agg).Ok?
    ensures r.Ok? ==> EmitsExactly(FinalMap(agg).value, r.value)
  {
    match agg
    case Numeric(ia) =>
      r := IA.Iterator(ia);
    case Textual(sa) =>
      var rows := SA.Iterator(sa);
      r := Ok(rows);
  }

  /**
    `open` exactly as written: every child tuple is merged, in child order,
    into the aggregator the operator already holds, and only then are the
    result rows built. On a second `open` that aggregator still holds the
    groups of the first one.
  */
  method OpenAsWritten(a: AggregateOp, child: seq<Tuple>) returns (r: Result<AggregateOp>)
    requires Valid(a) && AllConform(child, a.childDesc)
    ensures var merged := MergeChild(a, a.agg, child);
      && (r.Ok? <==> FinalMap(merged).Ok?)
      && (r.Ok? ==>
            && Valid(r.value)
            && r.value == a.(agg := merged, results := r.value.results, cursor := 0)
            && EmitsExactly(FinalMap(merged).value, r.value.results))
  {
    var merged := MergeChild(a, a.agg, child);
    var rows := Finalise(merged);
    if rows.Err? {
      return Err(rows.error);
    }
    return Ok(a.(agg := merged, results := rows.value, cursor := 0));
  }

  /**
    `open` as evidently intended: the drain starts from the aggregator the
    constructor built, so each `open` reports the child's groups and nothing
    left over from an earlier run.
  */
  method Open(a: AggregateOp, child: seq<Tuple>) returns (r: Result<AggregateOp>)
    requires Valid(a) && AllConform(child, a.childDesc)
    ensures var merged := MergeChild(a, FreshAggregator(a.childDesc, a.afield, a.gfield, a.op), child);
      && (r.Ok? <==> FinalMap(merged).Ok?)
      && (r.Ok? ==>
            && Valid(r.value)
            && r.value == a.(agg := merged, results := r.value.results, cursor := 0)
            && EmitsExactly(FinalMap(merged).value, r.value.results))
  {
    var initial := FreshAggregator(a.childDesc, a.afield, a.gfield, a.op);
    var merged := MergeChild(a, initial, child);
    var rows := Finalise(merged);
    if rows.Err? {
      return Err(rows.error);
    }
    return Ok(a.(agg := merged, results := rows.value, cursor := 0));
  }

  /** `close` closes `aggIter`; the aggregator's maps are not cleared. */
  function Close(a: AggregateOp): (r: AggregateOp)
    requires Valid(a)
    ensures Valid(r) && r.agg == a.agg && r.results == [] && r.cursor == 0
  {
    a.(results := [], cursor := 0)
  }

  /**
    Reopening as written merges the child a second time into the groups of
    the first run: a COUNT over a one-tuple child reports 2 after
    open, close, open.
  */
  lemma ReopenCountsTwice()
    ensures var td := TupleDesc([IntType], ["x"]);
      var child := [Tuple([IntField(7)], None)];
      var a := New(td, 0, -1, Count).value;
      var first := MergeChild(a, a.agg, child);
      var second := MergeChild(Close(a.(agg := first)), first, child);
      && first.Numeric? && first.ia.acc == map[None := 1]
      && second.Numeric? && second.ia.acc == map[None := 2]
  {
    var td := TupleDesc([IntType], ["x"]);
    var child := [Tuple([IntField(7)], None)];
    var a := New(td, 0, -1, Count).value;
    assert child[..0] == [];
    var first := MergeChild(a, a.agg, child);
    assert first.ia == IA.Merge(a.agg.ia, child[0]);
    var second := MergeChild(Close(a.(agg := first)), first, child);
    assert second.ia == IA.Merge(first.ia, child[0]);
  }

  /**
    With the drain starting from the constructor's aggregator, reopening
    after `close` rebuilds exactly the groups of the first `open`.
  */
  lemma ReopenIsIdempotent(a: AggregateOp, child: seq<Tuple>, merged: Aggregator)
    requires Valid(a) && AllConform(child, a.childDesc)
    requires merged == MergeChild(a, FreshAggregator(a.childDesc, a.afield, a.gfield, a.op), child)
    ensures var b := Close(a.(agg := merged));
      MergeChild(b, FreshAggregator(b.childDesc, b.afield, b.gfield, b.op), child) == merged
  {
  }

  // ---------------------------------------------------------------------------
  // fetchNext, rewind and the descriptor
  // ---------------------------------------------------------------------------

  /** `fetchNext`: the next finished row, or none (`null`) once they are exhausted. */
  function FetchNext(a: AggregateOp): (r: (Option<Tuple>, AggregateOp))
    requires Valid(a)
    ensures Valid(r.1) && r.1 == a.(cursor := r.1.cursor)
    ensures r.0.None? <==> a.cursor == |a.results|
    ensures r.0.Some? ==> r.0.value == a.results[a.cursor] && r.1.cursor == a.cursor + 1
    ensures r.0.None? ==> r.1 == a
  {
    if a.cursor < |a.results| then (Some(a.results[a.cursor]), a.(cursor := a.cursor + 1))
    else (None, a)
  }

  /** The rows successive `fetchNext` calls return until the first none. */
  function Drain(a: AggregateOp): (out: seq<Tuple>)
    requires Valid(a)
    ensures out == a.results[a.cursor..]
    decreases |a.results| - a.cursor
  {
    var (t, a') := FetchNext(a);
    match t
    case None => []
    case Some(row) => [row] + Drain(a')
  }

  /** `rewind` restarts `aggIter`: the finished rows are replayed, the child is not read again. */
  function Rewind(a: AggregateOp): (r: AggregateOp)
    requires Valid(a)
    ensures Valid(r) && r.results == a.results && r.agg == a.agg
    ensures Drain(r) == a.results
  {
    a.(cursor := 0)
  }

  /** `aggregateFieldName`: the child's name for the aggregated column. */
  function AggregateFieldName(a: AggregateOp): string
    requires Valid(a)
  {
    a.childDesc.names[a.afield]
  }

  /** `groupFieldName`: absent (`null`) exactly when there is no grouping, else the child's column name. */
  function GroupFieldName(a: AggregateOp): (r: Option<string>)
    requires Valid(a)
    ensures r.None? <==> a.gfield == NoGrouping
    ensures r.Some? ==> r.value == a.childDesc.names[a.gfield]
  {
    if a.gfield == NoGrouping then None else Some(a.childDesc.names[a.gfield])
  }

  /**
    `getTupleDesc`: one INT column named after the aggregated column when
    ungrouped; otherwise "groupVal" with the group-by column's type followed
    by the INT aggregate column.
  */
  function GetTupleDesc(a: AggregateOp): (td: TupleDesc)
    requires Valid(a)
    ensures td.Valid()
    ensures a.gfield == NoGrouping ==> td == TupleDesc([IntType], [AggregateFieldName(a)])
    ensures a.gfield != NoGrouping ==>
      td == TupleDesc([a.childDesc.types[a.gfield], IntType], ["groupVal", a.childDesc.names[a.afield]])
  {
    if a.gfield == NoGrouping then TupleDesc([IntType], [AggregateFieldName(a)])
    else TupleDesc([a.childDesc.types[a.gfield], IntType], ["groupVal", a.childDesc.names[a.afield]])
  }

  /** The operator's column types are those of the rows its aggregator builds. */
  lemma DescMatchesAggregator(a: AggregateOp)
    requires Valid(a)
    ensures a.agg.Numeric? ==> GetTupleDesc(a).types == IA.GetTupleDesc(a.agg.ia).types
    ensures a.agg.Textual? ==> GetTupleDesc(a).types == SA.GetTupleDesc(a.agg.sa).types
  {
  }
}

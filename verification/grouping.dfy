/**
  What both aggregators share: the group key a tuple falls under, the shape of
  an output row, and the emission of one row per group. The Java aggregators
  keep their state in a `HashMap<Field, Integer>` whose `null` key stands for
  "no grouping"; here that key type is `Option<Field>`.
*/
module Grouping {
  import opened Types

  /** `Aggregator.NO_GROUPING`: the group-by index that disables grouping. */
  const NoGrouping: int := -1

  type Key = Option<Field>

  /** The tuple has the group-by field the aggregator reads (or grouping is off). */
  predicate HasGroupField(gbfield: int, t: Tuple)
  {
    gbfield == NoGrouping || 0 <= gbfield < |t.fields|
  }

  /** The group a tuple merges into: the `null` key when ungrouped, else its group-by field. */
  function GroupKey(gbfield: int, t: Tuple): (k: Key)
    requires HasGroupField(gbfield, t)
    ensures k.None? <==> gbfield == NoGrouping
    ensures k.Some? ==> k.value == t.fields[gbfield]
  {
    if gbfield == NoGrouping then None else Some(t.fields[gbfield])
  }

  /** The output tuple for a group: `(val)` for the `null` key, `(key, val)` otherwise. */
  function Row(k: Key, v: Int32): (t: Tuple)
  {
    match k
    case None => Tuple([IntField(v)], None)
    case Some(f) => Tuple([f, IntField(v)], None)
  }

  /** The group an output row belongs to; inverse of `Row` in its key. */
  function RowKey(t: Tuple): Key
  {
    if |t.fields| == 2 then Some(t.fields[0]) else None
  }

  /** Rows are synthesised (no record id), one INT column when ungrouped, two when grouped. */
  lemma RowShape(k: Key, v: Int32)
    ensures Row(k, v).rid.None?
    ensures |Row(k, v).fields| == (if k.None? then 1 else 2)
    ensures Row(k, v).fields[|Row(k, v).fields| - 1] == IntField(v)
    ensures k.Some? ==> Row(k, v).fields[0] == k.value
    ensures RowKey(Row(k, v)) == k
  {
  }

  /**
    `ts` lists the finished groups of `m`: one row per key, carrying that
    key's value, no key twice, in some order.
  */
  ghost predicate EmitsExactly(m: map<Key, Int32>, ts: seq<Tuple>)
  {
    && |ts| == |m|
    && (forall i :: 0 <= i < |ts| ==> RowKey(ts[i]) in m && ts[i] == Row(RowKey(ts[i]), m[RowKey(ts[i])]))
    && (forall k :: k in m ==> Row(k, m[k]) in ts)
    && (forall i, j :: 0 <= i < j < |ts| ==> RowKey(ts[i]) != RowKey(ts[j]))
  }

  /**
    Builds the result list of an aggregator's `iterator()`. Java walks the
    `HashMap`'s key set, whose order is unspecified; the model picks the next
    key arbitrarily, so the contract fixes the rows but not their order.
  */
  method Emit(m: map<Key, Int32>) returns (ts: seq<Tuple>)
    ensures EmitsExactly(m, ts)
  {
    ts := [];
    var remaining := m.Keys;
    while remaining != {}
      invariant remaining <= m.Keys
      invariant |ts| + |remaining| == |m.Keys|
      invariant forall i :: 0 <= i < |ts| ==>
        RowKey(ts[i]) in m.Keys - remaining && ts[i] == Row(RowKey(ts[i]), m[RowKey(ts[i])])
      invariant forall k :: k in m.Keys - remaining ==> Row(k, m[k]) in ts
      invariant forall i, j :: 0 <= i < j < |ts| ==> RowKey(ts[i]) != RowKey(ts[j])
      decreases |remaining|
    {
      var k :| k in remaining;
      RowShape(k, m[k]);
      ts := ts + [Row(k, m[k])];
      assert remaining == (remaining - {k}) + {k};
      remaining := remaining - {k};
    }
    assert |m.Keys| == |m|;
  }
}

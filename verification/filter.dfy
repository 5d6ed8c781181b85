/**
  The `Filter` operator (relational selection). Its child is modelled as the
  sequence of tuples it will produce plus a read position, and its predicate
  as a total function on tuples. The child behaves as the heap file's
  iterator does: `close` sends it back to its first tuple, so a closed and
  reopened child is read from the start.
*/
module Filter {
  import opened Types

  /** A child operator: its descriptor, its output, how far it has been read, and whether it is open. */
  datatype Child = Child(desc: TupleDesc, tuples: seq<Tuple>, pos: nat, isOpen: bool)
  {
    predicate Valid() { pos <= |tuples| }

    /** The tuples the child has yet to produce. */
    function Remaining(): seq<Tuple>
      requires Valid()
    {
      tuples[pos..]
    }
  }

  datatype FilterOp = FilterOp(pred: Tuple -> bool, child: Child)

  /** The tuples of `ts` the predicate accepts, in their original order. */
  function Select(pred: Tuple -> bool, ts: seq<Tuple>): seq<Tuple>
    decreases |ts|
  {
    if ts == [] then []
    else (if pred(ts[0]) then [ts[0]] else []) + Select(pred, ts[1..])
  }

  /** Selection keeps exactly the accepted tuples. */
  lemma {:induction false} SelectMembers(pred: Tuple -> bool, ts: seq<Tuple>)
    ensures forall t :: t in Select(pred, ts) <==> t in ts && pred(t)
    decreases |ts|
  {
    if ts != [] {
      SelectMembers(pred, ts[1..]);
      assert ts == [ts[0]] + ts[1..];
    }
  }

  /** `getTupleDesc`: the child's descriptor, unchanged. */
  function GetTupleDesc(f: FilterOp): (td: TupleDesc)
    ensures td == f.child.desc
  {
    f.child.desc
  }

  /** `open` opens the child; nothing else changes. */
  function Open(f: FilterOp): (r: FilterOp)
    ensures r.child.isOpen
    ensures r.pred == f.pred && r.child == f.child.(isOpen := true)
  {
    f.(child := f.child.(isOpen := true))
  }

  /** `close` closes the child, which goes back to its first tuple; nothing else changes. */
  function Close(f: FilterOp): (r: FilterOp)
    ensures !r.child.isOpen && r.child.pos == 0
    ensures r.pred == f.pred && r.child == f.child.(isOpen := false, pos := 0)
  {
    f.(child := f.child.(isOpen := false, pos := 0))
  }

  /** Closing and reopening, at any point of a scan, makes the whole child remain to be read. */
  lemma CloseOpenRestarts(f: FilterOp)
    ensures Open(Close(f)).child.isOpen && Open(Close(f)).child.Valid()
    ensures Open(Close(f)).child.Remaining() == f.child.tuples
    ensures Open(Close(f)).pred == f.pred
  {
    assert f.child.tuples[0..] == f.child.tuples;
  }

  /** `rewind` rewinds the child to its first tuple. */
  function Rewind(f: FilterOp): (r: FilterOp)
    ensures r.child.Valid() && r.child.Remaining() == f.child.tuples
    ensures r.pred == f.pred && r.child == f.child.(pos := 0)
  {
    f.(child := f.child.(pos := 0))
  }

  /** `setChildren`: the first child of a non-empty array replaces the current one; an empty array changes nothing. */
  function SetChildren(f: FilterOp, children: seq<Child>): (r: FilterOp)
    ensures r.pred == f.pred
    ensures |children| > 0 ==> r.child == children[0]
    ensures |children| == 0 ==> r.child == f.child
  {
    if |children| > 0 then f.(child := children[0]) else f
  }

  /**
    `fetchNext`: pulls child tuples until one passes the predicate, which is
    returned; the failing tuples before it are consumed. Returns none
    (`null`) with the child exhausted when no remaining tuple passes.
  */
  method FetchNext(f: FilterOp) returns (r: Option<Tuple>, f': FilterOp)
    requires f.child.Valid() && f.child.isOpen
    ensures f'.pred == f.pred && f'.child.Valid()
    ensures f'.child == f.child.(pos := f'.child.pos) && f.child.pos <= f'.child.pos
    ensures r.None? <==> forall i :: f.child.pos <= i < |f.child.tuples| ==> !f.pred(f.child.tuples[i])
    ensures r.None? ==> f'.child.pos == |f.child.tuples|
    ensures r.Some? ==>
      && f'.child.pos > f.child.pos
      && r.value == f.child.tuples[f'.child.pos - 1]
      && f.pred(r.value)
      && forall i :: f.child.pos <= i < f'.child.pos - 1 ==> !f.pred(f.child.tuples[i])
    ensures Select(f.pred, f.child.Remaining()) ==
      (if r.Some? then [r.value] else []) + Select(f.pred, f'.child.Remaining())
  {
    var pos := f.child.pos;
    var tuples := f.child.tuples;
    while pos < |tuples|
      invariant f.child.pos <= pos <= |tuples|
      invariant forall i :: f.child.pos <= i < pos ==> !f.pred(tuples[i])
      invariant Select(f.pred, tuples[f.child.pos..]) == Select(f.pred, tuples[pos..])
    {
      var t := tuples[pos];
      assert tuples[pos..][1..] == tuples[pos + 1..];
      pos := pos + 1;
      if f.pred(t) {
        return Some(t), f.(child := f.child.(pos := pos));
      }
    }
    return None, f.(child := f.child.(pos := pos));
  }

  /**
    Calling `fetchNext` until it returns none yields exactly the child's
    remaining tuples that pass the predicate, in their original order.
  */
  method Drain(f: FilterOp) returns (out: seq<Tuple>, f': FilterOp)
    requires f.child.Valid() && f.child.isOpen
    ensures out == Select(f.pred, f.child.Remaining())
    ensures f'.child.Valid() && f'.child.pos == |f.child.tuples|
    ensures f'.pred == f.pred && f'.child == f.child.(pos := |f.child.tuples|)
  {
    out := [];
    f' := f;
    while true
      invariant f'.pred == f.pred && f'.child.Valid()
      invariant f'.child == f.child.(pos := f'.child.pos)
      invariant out + Select(f.pred, f'.child.Remaining()) == Select(f.pred, f.child.Remaining())
      decreases |f.child.tuples| - f'.child.pos
    {
      var r;
      r, f' := FetchNext(f');
      if r.None? {
        return;
      }
      out := out + [r.value];
    }
  }

  /**
    After `rewind` on an open filter, draining it again yields the selection
    over the child's whole output.
  */
  method DrainAfterRewind(f: FilterOp) returns (out: seq<Tuple>)
    requires f.child.isOpen
    ensures out == Select(f.pred, f.child.tuples)
  {
    var g := Rewind(f);
    assert g.child.tuples[0..] == f.child.tuples;
    out, g := Drain(g);
  }
}

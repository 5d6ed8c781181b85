/**
  `HeapFile.HeapFileIterator`: walks the file page by page through the buffer
  pool, surfacing the pages' tuples as one flat stream. Its state is the
  current page number and the current page's tuple iterator, `null` before
  `open` and after `close`; that iterator is modelled by the tuples it has
  yet to yield.
*/
module HeapFileIterator {
  import opened Types
  import opened HeapFile

  datatype Iter = Iter(pageNo: nat, local: Option<seq<Tuple>>)

  /** The constructor: page 0, no page iterator yet. */
  const Init := Iter(0, None)

  /**
    Every reachable state: without a page iterator the page number is 0
    (only the constructor and `close` clear the iterator, and both reset it).
  */
  predicate Inv(it: Iter)
  {
    it.local.None? ==> it.pageNo == 0
  }

  /** The tuples of pages `p`, `p + 1`, ... in page and slot order. */
  function ContentsFrom(pages: seq<Page>, p: nat): seq<Tuple>
    decreases |pages| - p
  {
    if p >= |pages| then [] else Occupied(pages[p].slots) + ContentsFrom(pages, p + 1)
  }

  /** The stream the iterator has yet to produce: the rest of the current page, then every later page. */
  function Remaining(pages: seq<Page>, it: Iter): seq<Tuple>
  {
    if it.local.None? then [] else it.local.value + ContentsFrom(pages, it.pageNo + 1)
  }

  /** Reading from page `p` on yields the file's contents from page `p` on. */
  lemma {:induction false} ContentsFromIsSuffix(pages: seq<Page>, p: nat)
    requires p <= |pages|
    ensures ContentsFrom(pages, p) == Contents(pages[p..])
    decreases |pages| - p
  {
    if p < |pages| {
      ContentsFromIsSuffix(pages, p + 1);
      assert pages[p..][1..] == pages[p + 1..];
      assert pages[p..][0] == pages[p];
    } else {
      assert pages[p..] == [];
    }
  }

  // ---------------------------------------------------------------------------
  // open, close, rewind
  // ---------------------------------------------------------------------------

  /**
    `open`: fetches the current page through the buffer pool and takes its
    tuple iterator. A page number at or past `numPages()` makes the read
    fail with an `IllegalArgumentException`, leaving the iterator as it was.
  */
  function Open(pages: seq<Page>, it: Iter): (r: Result<Iter>)
    ensures r.Ok? <==> it.pageNo < |pages|
    ensures r.Err? ==> r.error == IllegalArgument
    ensures r.Ok? ==> r.value.pageNo == it.pageNo && r.value.local == Some(Occupied(pages[it.pageNo].slots))
  {
    if it.pageNo < |pages| then Ok(Iter(it.pageNo, Some(Occupied(pages[it.pageNo].slots))))
    else Err(IllegalArgument)
  }

  /** `close`: drops the page iterator and goes back to page 0. */
  function Close(it: Iter): (r: Iter)
    ensures r == Init && Inv(r)
  {
    Iter(0, None)
  }

  /** `rewind`: `close` if a page iterator is held, then `open`. */
  function Rewind(pages: seq<Page>, it: Iter): (r: Result<Iter>)
    ensures it.local.Some? ==> r == Open(pages, Close(it))
    ensures it.local.None? ==> r == Open(pages, it)
  {
    Open(pages, if it.local.Some? then Close(it) else it)
  }

  /** Opening a new iterator yields the whole file, or fails when the file has no pages. */
  lemma OpenYieldsFile(pages: seq<Page>)
    ensures Open(pages, Init).Ok? <==> |pages| > 0
    ensures Open(pages, Init).Ok? ==> Remaining(pages, Open(pages, Init).value) == Contents(pages)
  {
    if |pages| > 0 {
      ContentsFromIsSuffix(pages, 0);
      assert pages[0..] == pages;
    }
  }

  /** In any reachable state `rewind` restarts the stream at the file's first tuple. */
  lemma RewindRestarts(pages: seq<Page>, it: Iter)
    requires Inv(it)
    ensures Rewind(pages, it) == Open(pages, Init)
    ensures Rewind(pages, it).Ok? <==> |pages| > 0
    ensures Rewind(pages, it).Ok? ==> Remaining(pages, Rewind(pages, it).value) == Contents(pages)
  {
    OpenYieldsFile(pages);
  }

  // ---------------------------------------------------------------------------
  // hasNext and next
  // ---------------------------------------------------------------------------

  /**
    The loop in `hasNext`: from page `p` on, the first page whose iterator
    has a tuple, with that page's tuples; or, when none has, the page
    number the loop stops at (`numPages()`, unless `p` is already past it).
  */
  function Seek(pages: seq<Page>, p: nat): (r: (nat, Option<seq<Tuple>>))
    ensures r.1.Some? ==> p <= r.0 < |pages| && r.1.value == Occupied(pages[r.0].slots) && r.1.value != []
    ensures r.1.None? ==> r.0 == (if p < |pages| then |pages| else p)
    decreases |pages| - p
  {
    if p >= |pages| then (p, None)
    else if Occupied(pages[p].slots) != [] then (p, Some(Occupied(pages[p].slots)))
    else Seek(pages, p + 1)
  }

  /** The page `Seek` stops at holds the next tuples of the stream, and the pages it skips hold none. */
  lemma {:induction false} SeekSkipsEmptyPages(pages: seq<Page>, p: nat)
    ensures var r := Seek(pages, p);
      && (r.1.Some? ==> ContentsFrom(pages, p) == r.1.value + ContentsFrom(pages, r.0 + 1))
      && (r.1.None? ==> ContentsFrom(pages, p) == [])
    decreases |pages| - p
  {
    if p < |pages| && Occupied(pages[p].slots) == [] {
      SeekSkipsEmptyPages(pages, p + 1);
      assert ContentsFrom(pages, p) == [] + ContentsFrom(pages, p + 1);
    }
  }

  /**
    `hasNext`: false without a page iterator; true while the current page
    has tuples left; otherwise moves to the next page and skips pages with
    no tuples, taking the first non-empty page's iterator. When every later
    page is empty it stops with the page number at `numPages()` and keeps
    the exhausted iterator.
  */
  function HasNext(pages: seq<Page>, it: Iter): (r: (bool, Iter))
    ensures it.local.None? ==> r == (false, it)
    ensures r.1.pageNo >= it.pageNo && r.1.local.Some? == it.local.Some?
    ensures r.0 ==> r.1.local.value != []
    ensures !r.0 && it.local.Some? ==> r.1.local == Some([]) && r.1.pageNo >= |pages|
  {
    if it.local.None? then (false, it)
    else if it.local.value != [] then (true, it)
    else
      var (q, found) := Seek(pages, it.pageNo + 1);
      if found.Some? then (true, Iter(q, found)) else (false, Iter(q, it.local))
  }

  /** `hasNext` is true exactly when the stream has a tuple left, and it does not change the stream. */
  lemma HasNextPeeks(pages: seq<Page>, it: Iter)
    ensures HasNext(pages, it).0 <==> Remaining(pages, it) != []
    ensures Remaining(pages, HasNext(pages, it).1) == Remaining(pages, it)
  {
    if it.local.Some? && it.local.value == [] {
      var s := Seek(pages, it.pageNo + 1);
      SeekSkipsEmptyPages(pages, it.pageNo + 1);
      assert Remaining(pages, it) == ContentsFrom(pages, it.pageNo + 1);
      if s.1.Some? {
        assert HasNext(pages, it) == (true, Iter(s.0, s.1));
      } else {
        assert HasNext(pages, it) == (false, Iter(s.0, it.local));
        assert ContentsFrom(pages, s.0 + 1) == [];
      }
    }
  }

  /**
    `next`: calls `hasNext` and takes the page iterator's next tuple, or
    throws `NoSuchElementException` when `hasNext` is false.
  */
  function Next(pages: seq<Page>, it: Iter): (r: (Result<Tuple>, Iter))
    ensures r.0.Err? <==> !HasNext(pages, it).0
    ensures r.0.Err? ==> r.0.error == NoSuchElement && r.1 == HasNext(pages, it).1
    ensures r.0.Ok? ==> r.0.value == HasNext(pages, it).1.local.value[0]
  {
    var (more, it') := HasNext(pages, it);
    if !more then (Err(NoSuchElement), it')
    else (Ok(it'.local.value[0]), it'.(local := Some(it'.local.value[1..])))
  }

  /** `next` yields the stream's first tuple and leaves the rest; on an exhausted stream it fails. */
  lemma NextTakesHead(pages: seq<Page>, it: Iter)
    ensures Next(pages, it).0.Ok? <==> Remaining(pages, it) != []
    ensures Next(pages, it).0.Ok? ==>
      && Next(pages, it).0.value == Remaining(pages, it)[0]
      && Remaining(pages, Next(pages, it).1) == Remaining(pages, it)[1..]
  {
    var h := HasNext(pages, it);
    HasNextPeeks(pages, it);
    if h.0 {
      var local := h.1.local.value;
      var later := ContentsFrom(pages, h.1.pageNo + 1);
      assert Next(pages, it) == (Ok(local[0]), h.1.(local := Some(local[1..])));
      assert Remaining(pages, h.1) == local + later;
      assert (local + later)[1..] == local[1..] + later;
    } else {
      assert Next(pages, it).0.Err?;
    }
  }

  /** Every operation keeps the iterator in a reachable state. */
  lemma OperationsKeepInv(pages: seq<Page>, it: Iter)
    requires Inv(it)
    ensures Inv(HasNext(pages, it).1) && Inv(Next(pages, it).1) && Inv(Close(it))
    ensures Open(pages, it).Ok? ==> Inv(Open(pages, it).value)
    ensures Rewind(pages, it).Ok? ==> Inv(Rewind(pages, it).value)
  {
  }

  /** Calling `next` until it throws yields exactly the remaining stream. */
  method Drain(pages: seq<Page>, it: Iter) returns (out: seq<Tuple>, it': Iter)
    ensures out == Remaining(pages, it)
    ensures Remaining(pages, it') == []
  {
    out := [];
    it' := it;
    while true
      invariant out + Remaining(pages, it') == Remaining(pages, it)
      decreases |Remaining(pages, it')|
    {
      NextTakesHead(pages, it');
      var (r, next) := Next(pages, it');
      if r.Err? {
        return;
      }
      out := out + [r.value];
      it' := next;
    }
  }

  /**
    A full scan: a new iterator, opened and drained, yields every tuple of
    the file in page and slot order, pages without tuples contributing
    nothing; a file with no pages fails to open.
  */
  method Scan(pages: seq<Page>) returns (r: Result<seq<Tuple>>)
    ensures r.Ok? <==> |pages| > 0
    ensures r.Err? ==> r.error == IllegalArgument
    ensures r.Ok? ==> r.value == Contents(pages)
  {
    OpenYieldsFile(pages);
    var started := Open(pages, Init);
    if started.Err? {
      return Err(started.error);
    }
    var out, _ := Drain(pages, started.value);
    return Ok(out);
  }

  /** Four pages holding 0, 3, 0 and 5 tuples: a scan yields the 8 tuples of pages 1 and 3, in order. */
  lemma EmptyPagesSkipped(pages: seq<Page>)
    requires |pages| == 4
    requires |Occupied(pages[0].slots)| == 0 && |Occupied(pages[1].slots)| == 3
    requires |Occupied(pages[2].slots)| == 0 && |Occupied(pages[3].slots)| == 5
    ensures Contents(pages) == Occupied(pages[1].slots) + Occupied(pages[3].slots)
    ensures |Contents(pages)| == 8
  {
    ContentsFromIsSuffix(pages, 0);
    assert pages[0..] == pages;
    var a, b := Occupied(pages[1].slots), Occupied(pages[3].slots);
    assert ContentsFrom(pages, 3) == b + [];
    assert ContentsFrom(pages, 2) == [] + ContentsFrom(pages, 3);
    assert ContentsFrom(pages, 1) == a + ContentsFrom(pages, 2);
    assert ContentsFrom(pages, 0) == [] + ContentsFrom(pages, 1);
  }
}

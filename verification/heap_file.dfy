/**
  The page-level side of `HeapFile`: the file as the sequence of its pages as
  the buffer pool hands them out, each page a row of slots that are empty or
  hold a tuple. `insertTuple` picks the lowest page with a free slot (or a new
  page numbered `numPages()`), `deleteTuple` routes by the tuple's record id.
*/
module HeapFile {
  import opened Types
  import HeapFileDisk

  /** A heap page: its page number, its slots, and the transaction that dirtied it (`null` when clean). */
  datatype Page = Page(id: nat, slots: seq<Option<Tuple>>, dirtier: Option<TxnId>)

  /** A heap file: the slot count every page has, and the pages in page-number order. */
  datatype File = File(capacity: nat, pages: seq<Page>)

  /** What `insertTuple` yields: the updated file, the pages it returns, and the record id it gave the tuple. */
  datatype Inserted = Inserted(file: File, returned: seq<Page>, rid: RecordId)

  /** What `deleteTuple` yields: the updated file and the pages it returns. */
  datatype Deleted = Deleted(file: File, returned: seq<Page>)

  /** `HeapPage.createEmptyPageData`: a clean page with every slot empty. */
  function EmptyPage(id: nat, capacity: nat): (p: Page)
    ensures p.id == id && |p.slots| == capacity && p.dirtier.None?
    ensures forall j :: 0 <= j < capacity ==> p.slots[j].None?
  {
    Page(id, seq(capacity, _ => None), None)
  }

  /** Every stored tuple carries the record id of the slot that holds it. */
  predicate PageValid(p: Page, capacity: nat)
  {
    && |p.slots| == capacity
    && forall j :: 0 <= j < |p.slots| && p.slots[j].Some? ==> p.slots[j].value.rid == Some(RecordId(p.id, j))
  }

  /** Page `i` has page number `i`, and all pages are well formed. */
  predicate Valid(f: File)
  {
    forall i :: 0 <= i < |f.pages| ==> f.pages[i].id == i && PageValid(f.pages[i], f.capacity)
  }

  /** `getNumEmptySlots() > 0`. */
  predicate HasSpace(p: Page)
  {
    exists j :: 0 <= j < |p.slots| && p.slots[j].None?
  }

  // ---------------------------------------------------------------------------
  // Contents
  // ---------------------------------------------------------------------------

  /** The tuple a slot holds, as a sequence of zero or one tuples. */
  function SlotTuples(slot: Option<Tuple>): seq<Tuple>
  {
    if slot.Some? then [slot.value] else []
  }

  /** The tuples a page holds, in slot order: what the page's own iterator yields. */
  function Occupied(slots: seq<Option<Tuple>>): seq<Tuple>
    decreases |slots|
  {
    if slots == [] then [] else SlotTuples(slots[0]) + Occupied(slots[1..])
  }

  /** The tuples of a file, in (page number, slot) order. */
  function Contents(pages: seq<Page>): seq<Tuple>
    decreases |pages|
  {
    if pages == [] then [] else Occupied(pages[0].slots) + Contents(pages[1..])
  }

  /** A page without space holds one tuple per slot. */
  lemma {:induction false} FullPageOccupied(slots: seq<Option<Tuple>>)
    requires forall j :: 0 <= j < |slots| ==> slots[j].Some?
    ensures |Occupied(slots)| == |slots|
    decreases |slots|
  {
    if slots != [] {
      FullPageOccupied(slots[1..]);
    }
  }

  /** A page's tuples are those of the slots before `j`, then slot `j`'s, then those after. */
  lemma {:induction false} OccupiedSplit(slots: seq<Option<Tuple>>, j: nat)
    requires j < |slots|
    ensures Occupied(slots) == Occupied(slots[..j]) + SlotTuples(slots[j]) + Occupied(slots[j + 1..])
    decreases j
  {
    if j == 0 {
      assert slots[..0] == [];
    } else {
      var rest := slots[1..];
      OccupiedSplit(rest, j - 1);
      assert rest[..j - 1] == slots[..j][1..];
      assert rest[j..] == slots[j + 1..];
      var head, mid, x, tail := SlotTuples(slots[0]), Occupied(rest[..j - 1]), SlotTuples(slots[j]), Occupied(slots[j + 1..]);
      assert Occupied(slots[..j]) == head + mid;
      assert Occupied(slots) == head + (mid + x + tail);
      assert head + (mid + x + tail) == head + mid + x + tail;
    }
  }

  /** A file's tuples are those of the pages before `i`, then page `i`'s, then those after. */
  lemma {:induction false} ContentsSplit(pages: seq<Page>, i: nat)
    requires i < |pages|
    ensures Contents(pages) == Contents(pages[..i]) + Occupied(pages[i].slots) + Contents(pages[i + 1..])
    decreases i
  {
    if i == 0 {
      assert pages[..0] == [];
    } else {
      ContentsSplit(pages[1..], i - 1);
      assert pages[1..][..i - 1] == pages[..i][1..];
      assert pages[1..][i - 1 + 1..] == pages[i + 1..];
      assert pages[..i][0] == pages[0];
    }
  }

  /** Replacing slot `j` of page `i` swaps that slot's tuple in the file's contents and leaves the rest in place. */
  lemma ReplaceSlot(pages: seq<Page>, i: nat, page': Page, j: nat, x: Option<Tuple>)
    requires i < |pages| && j < |pages[i].slots|
    requires page'.slots == pages[i].slots[j := x]
    ensures var s := pages[i].slots;
      && Contents(pages) == Contents(pages[..i]) + (Occupied(s[..j]) + SlotTuples(s[j]) + Occupied(s[j + 1..])) + Contents(pages[i + 1..])
      && Contents(pages[i := page']) == Contents(pages[..i]) + (Occupied(s[..j]) + SlotTuples(x) + Occupied(s[j + 1..])) + Contents(pages[i + 1..])
  {
    var s := pages[i].slots;
    var ps := pages[i := page'];
    ContentsSplit(pages, i);
    ContentsSplit(ps, i);
    assert ps[..i] == pages[..i] && ps[i + 1..] == pages[i + 1..];
    OccupiedSplit(s, j);
    OccupiedSplit(page'.slots, j);
    assert page'.slots[..j] == s[..j] && page'.slots[j + 1..] == s[j + 1..];
  }

  /** Appending a page appends its tuples. */
  lemma {:induction false} ContentsAppend(pages: seq<Page>, p: Page)
    ensures Contents(pages + [p]) == Contents(pages) + Occupied(p.slots)
    decreases |pages|
  {
    if pages == [] {
      assert pages + [p] == [p] && [p][1..] == [];
      assert Contents([p]) == Occupied(p.slots) + Contents([]);
    } else {
      var rest := pages[1..];
      ContentsAppend(rest, p);
      var whole := pages + [p];
      assert whole[0] == pages[0] && whole[1..] == rest + [p];
      var head := Occupied(pages[0].slots);
      assert Contents(whole) == head + (Contents(rest) + Occupied(p.slots));
      assert Contents(pages) == head + Contents(rest);
      assert head + (Contents(rest) + Occupied(p.slots)) == head + Contents(rest) + Occupied(p.slots);
    }
  }

  // ---------------------------------------------------------------------------
  // Free-space search
  // ---------------------------------------------------------------------------

  /** The lowest empty slot at or after `from`. */
  function FirstEmptyFrom(slots: seq<Option<Tuple>>, from: nat): (r: Option<nat>)
    requires from <= |slots|
    ensures r.None? <==> forall j :: from <= j < |slots| ==> slots[j].Some?
    ensures r.Some? ==> from <= r.value < |slots| && slots[r.value].None?
    ensures r.Some? ==> forall j :: from <= j < r.value ==> slots[j].Some?
    decreases |slots| - from
  {
    if from == |slots| then None
    else if slots[from].None? then Some(from)
    else FirstEmptyFrom(slots, from + 1)
  }

  /** The lowest page at or after `from` with a free slot. */
  function FirstPageWithSpace(pages: seq<Page>, from: nat): (r: Option<nat>)
    requires from <= |pages|
    ensures r.None? <==> forall i :: from <= i < |pages| ==> !HasSpace(pages[i])
    ensures r.Some? ==> from <= r.value < |pages| && HasSpace(pages[r.value])
    ensures r.Some? ==> forall i :: from <= i < r.value ==> !HasSpace(pages[i])
    decreases |pages| - from
  {
    if from == |pages| then None
    else if HasSpace(pages[from]) then Some(from)
    else FirstPageWithSpace(pages, from + 1)
  }

  // ---------------------------------------------------------------------------
  // insertTuple
  // ---------------------------------------------------------------------------

  /**
    `writePage` seen from the pages: the page's image becomes page `id` of
    the file, and the page is marked clean (`markDirty(false, null)`). Writing
    past the end extends the file; the pages of the gap are all-zero images,
    which read back as empty pages.
  */
  function WritePage(f: File, p: Page): (r: (File, Page))
    ensures r.1.dirtier.None? && r.1.id == p.id && r.1.slots == p.slots
    ensures r.0.capacity == f.capacity
    ensures |r.0.pages| == if p.id < |f.pages| then |f.pages| else p.id + 1
    ensures r.0.pages[p.id] == r.1
    ensures forall i :: 0 <= i < |f.pages| && i != p.id ==> r.0.pages[i] == f.pages[i]
    ensures forall i :: |f.pages| <= i < p.id ==> r.0.pages[i] == EmptyPage(i, f.capacity)
    ensures Valid(f) && PageValid(p, f.capacity) ==> Valid(r.0)
  {
    var clean := p.(dirtier := None);
    var n := |f.pages|;
    if p.id < n then (f.(pages := f.pages[p.id := clean]), clean)
    else
      var gap := seq(p.id - n, i requires 0 <= i => EmptyPage(n + i, f.capacity));
      (f.(pages := f.pages + gap + [clean]), clean)
  }

  /** Writing the same page twice leaves the file as one write does. */
  lemma WritePageIdempotent(f: File, p: Page)
    ensures WritePage(WritePage(f, p).0, p) == WritePage(f, p)
  {
    var (g, c) := WritePage(f, p);
    var (h, d) := WritePage(g, p);
    assert |h.pages| == |g.pages|;
    assert forall i :: 0 <= i < |g.pages| ==> h.pages[i] == g.pages[i];
    assert h.pages == g.pages;
    assert h == g && d == c;
  }

  /**
    `insertTuple`, with a file of no pages handled like one whose pages are
    all full. The scan stops at the lowest page with an empty slot; if there
    is none a fresh empty page numbered `numPages()` is used. The tuple goes
    into the page's lowest empty slot and gets that slot's record id. The
    page is marked dirty and then written back, which marks it clean again,
    so the one page returned is clean. A page with no slot at all cannot take
    the tuple (a `DbException` from the page).
  */
  function InsertTuple(f: File, tid: TxnId, t: Tuple): (r: Result<Inserted>)
    requires Valid(f)
    ensures r.Ok? <==> (exists i :: 0 <= i < |f.pages| && HasSpace(f.pages[i])) || f.capacity > 0
    ensures r.Err? ==> r.error == Db
    ensures r.Ok? ==>
      var rid := r.value.rid;
      && rid.pageNo <= |f.pages|
      && (forall i :: 0 <= i < rid.pageNo ==> !HasSpace(f.pages[i]))
      && (rid.pageNo < |f.pages| ==> HasSpace(f.pages[rid.pageNo]))
      && |r.value.file.pages| == (if rid.pageNo == |f.pages| then |f.pages| + 1 else |f.pages|)
    ensures r.Ok? ==>
      var rid := r.value.rid;
      var f' := r.value.file;
      && Valid(f') && f'.capacity == f.capacity
      && (forall i :: 0 <= i < |f.pages| && i != rid.pageNo ==> f'.pages[i] == f.pages[i])
      && r.value.returned == [f'.pages[rid.pageNo]]
      && f'.pages[rid.pageNo].dirtier.None?
    ensures r.Ok? ==>
      var rid := r.value.rid;
      var before := if rid.pageNo < |f.pages| then f.pages[rid.pageNo].slots else EmptyPage(rid.pageNo, f.capacity).slots;
      && rid.slot < |before| && before[rid.slot].None?
      && (forall j :: 0 <= j < rid.slot ==> before[j].Some?)
      && r.value.file.pages[rid.pageNo].slots == before[rid.slot := Some(t.(rid := Some(rid)))]
  {
    var target := FirstPageWithSpace(f.pages, 0);
    var pageNo := if target.Some? then target.value else |f.pages|;
    var page := if target.Some? then f.pages[pageNo] else EmptyPage(pageNo, f.capacity);
    var slot := FirstEmptyFrom(page.slots, 0);
    if slot.None? then
      Err(Db)
    else
      var rid := RecordId(pageNo, slot.value);
      var dirty := page.(slots := page.slots[slot.value := Some(t.(rid := Some(rid)))], dirtier := Some(tid));
      var (f', written) := WritePage(f, dirty);
      Ok(Inserted(f', [written], rid))
  }

  /**
    `insertTuple` as written. With no pages the scan loop never runs, the
    page variable stays `null`, and the non-short-circuit `&` in the
    full-page test still calls `getNumEmptySlots()` on it: a
    `NullPointerException`. Otherwise it behaves as `InsertTuple`.
  */
  function InsertTupleAsWritten(f: File, tid: TxnId, t: Tuple): (r: Result<Inserted>)
    requires Valid(f)
    ensures |f.pages| == 0 ==> r == Err(NullPointer)
    ensures |f.pages| > 0 ==> r == InsertTuple(f, tid, t)
  {
    if |f.pages| == 0 then Err(NullPointer) else InsertTuple(f, tid, t)
  }

  /** On an empty file with room for tuples, the code as written fails where the corrected insert creates page 0. */
  lemma InsertIntoEmptyFile(capacity: nat, tid: TxnId, t: Tuple)
    requires capacity > 0
    ensures InsertTupleAsWritten(File(capacity, []), tid, t) == Err(NullPointer)
    ensures var r := InsertTuple(File(capacity, []), tid, t);
      r.Ok? && r.value.rid == RecordId(0, 0) && |r.value.file.pages| == 1
  {
  }

  /** Inserting adds exactly the stored tuple, with its new record id, to the file's contents. */
  lemma InsertAddsTuple(f: File, tid: TxnId, t: Tuple)
    requires Valid(f)
    requires InsertTuple(f, tid, t).Ok?
    ensures var r := InsertTuple(f, tid, t).value;
      multiset(Contents(r.file.pages)) == multiset(Contents(f.pages)) + multiset{t.(rid := Some(r.rid))}
  {
    var r := InsertTuple(f, tid, t).value;
    var p := r.rid.pageNo;
    var page' := r.file.pages[p];
    if p < |f.pages| {
      assert r.file.pages == f.pages[p := page'];
      FillSlotInPage(f.pages, p, page', r.rid.slot, t.(rid := Some(r.rid)));
    } else {
      assert r.file.pages == f.pages + [page'];
      FillSlotInNewPage(f.pages, EmptyPage(p, f.capacity).slots, page', r.rid.slot, t.(rid := Some(r.rid)));
    }
  }

  lemma FillSlotInPage(pages: seq<Page>, p: nat, page': Page, slot: nat, x: Tuple)
    requires p < |pages| && slot < |pages[p].slots| && pages[p].slots[slot].None?
    requires page'.slots == pages[p].slots[slot := Some(x)]
    ensures multiset(Contents(pages[p := page'])) == multiset(Contents(pages)) + multiset{x}
  {
    ReplaceSlot(pages, p, page', slot, Some(x));
  }

  lemma FillSlotInNewPage(pages: seq<Page>, empty: seq<Option<Tuple>>, page': Page, slot: nat, x: Tuple)
    requires forall j :: 0 <= j < |empty| ==> empty[j].None?
    requires slot < |empty| && page'.slots == empty[slot := Some(x)]
    ensures multiset(Contents(pages + [page'])) == multiset(Contents(pages)) + multiset{x}
  {
    ContentsAppend(pages, page');
    OccupiedSplit(page'.slots, slot);
    NoTuples(empty[..slot]);
    NoTuples(empty[slot + 1..]);
    assert page'.slots[..slot] == empty[..slot] && page'.slots[slot + 1..] == empty[slot + 1..];
    assert Occupied(page'.slots) == [x];
  }

  lemma {:induction false} NoTuples(slots: seq<Option<Tuple>>)
    requires forall j :: 0 <= j < |slots| ==> slots[j].None?
    ensures Occupied(slots) == []
    decreases |slots|
  {
    if slots != [] {
      NoTuples(slots[1..]);
    }
  }

  // ---------------------------------------------------------------------------
  // deleteTuple
  // ---------------------------------------------------------------------------

  /**
    `deleteTuple`: the tuple's record id names the page (a tuple without one
    fails on the `null` record id; a page number at or past `numPages()` is
    rejected by the read). The page empties that slot, failing with a
    `DbException` if the slot does not exist or is already empty. The page
    is marked dirty by the transaction and returned; it is not written back.
  */
  function DeleteTuple(f: File, tid: TxnId, t: Tuple): (r: Result<Deleted>)
    requires Valid(f)
    ensures t.rid.None? ==> r == Err(NullPointer)
    ensures t.rid.Some? && t.rid.value.pageNo >= |f.pages| ==> r == Err(IllegalArgument)
    ensures t.rid.Some? && t.rid.value.pageNo < |f.pages| ==>
      (r.Ok? <==> t.rid.value.slot < f.capacity && f.pages[t.rid.value.pageNo].slots[t.rid.value.slot].Some?)
    ensures r.Err? && t.rid.Some? && t.rid.value.pageNo < |f.pages| ==> r.error == Db
    ensures r.Ok? ==>
      var rid := t.rid.value;
      var f' := r.value.file;
      && Valid(f') && f'.capacity == f.capacity && |f'.pages| == |f.pages|
      && (forall i :: 0 <= i < |f.pages| && i != rid.pageNo ==> f'.pages[i] == f.pages[i])
      && f'.pages[rid.pageNo].slots == f.pages[rid.pageNo].slots[rid.slot := None]
      && f'.pages[rid.pageNo].dirtier == Some(tid)
      && r.value.returned == [f'.pages[rid.pageNo]]
  {
    if t.rid.None? then Err(NullPointer)
    else
      var rid := t.rid.value;
      if rid.pageNo >= |f.pages| then Err(IllegalArgument)
      else
        var page := f.pages[rid.pageNo];
        if rid.slot >= |page.slots| || page.slots[rid.slot].None? then Err(Db)
        else
          var page' := page.(slots := page.slots[rid.slot := None], dirtier := Some(tid));
          Ok(Deleted(f.(pages := f.pages[rid.pageNo := page']), [page']))
  }

  /** Deleting removes exactly the tuple stored under the record id from the file's contents. */
  lemma DeleteRemovesTuple(f: File, tid: TxnId, t: Tuple)
    requires Valid(f)
    requires DeleteTuple(f, tid, t).Ok?
    ensures var rid := t.rid.value;
      var gone := f.pages[rid.pageNo].slots[rid.slot].value;
      && gone.rid == t.rid
      && multiset(Contents(DeleteTuple(f, tid, t).value.file.pages)) == multiset(Contents(f.pages)) - multiset{gone}
  {
    var rid := t.rid.value;
    var r := DeleteTuple(f, tid, t).value;
    assert r.file.pages == f.pages[rid.pageNo := r.file.pages[rid.pageNo]];
    EmptySlotInPage(f.pages, rid.pageNo, r.file.pages[rid.pageNo], rid.slot);
  }

  lemma EmptySlotInPage(pages: seq<Page>, p: nat, page': Page, slot: nat)
    requires p < |pages| && slot < |pages[p].slots| && pages[p].slots[slot].Some?
    requires page'.slots == pages[p].slots[slot := None]
    ensures multiset(Contents(pages[p := page'])) == multiset(Contents(pages)) - multiset{pages[p].slots[slot].value}
  {
    ReplaceSlot(pages, p, page', slot, None);
  }

  /** After a delete the file has a free slot, so the next insert does not add a page. */
  lemma InsertAfterDeleteDoesNotGrow(f: File, tid: TxnId, t: Tuple, u: Tuple)
    requires Valid(f)
    requires DeleteTuple(f, tid, t).Ok?
    ensures var f' := DeleteTuple(f, tid, t).value.file;
      var r := InsertTuple(f', tid, u);
      r.Ok? && r.value.rid.pageNo <= t.rid.value.pageNo && |r.value.file.pages| == |f.pages|
  {
    var rid := t.rid.value;
    var f' := DeleteTuple(f, tid, t).value.file;
    assert f'.pages[rid.pageNo].slots[rid.slot].None?;
    assert HasSpace(f'.pages[rid.pageNo]);
  }

  /**
    If the file had no free slot before the delete, the next insert lands in
    exactly the slot the delete freed.
  */
  lemma InsertAfterDeleteReusesSlot(f: File, tid: TxnId, t: Tuple, u: Tuple)
    requires Valid(f)
    requires forall i :: 0 <= i < |f.pages| ==> !HasSpace(f.pages[i])
    requires DeleteTuple(f, tid, t).Ok?
    ensures var f' := DeleteTuple(f, tid, t).value.file;
      InsertTuple(f', tid, u).Ok? && InsertTuple(f', tid, u).value.rid == t.rid.value
  {
    var rid := t.rid.value;
    var f' := DeleteTuple(f, tid, t).value.file;
    InsertAfterDeleteDoesNotGrow(f, tid, t, u);
    var r := InsertTuple(f', tid, u).value;
    assert !HasSpace(f.pages[rid.pageNo]);
    var s := f'.pages[rid.pageNo].slots;
    assert forall j :: 0 <= j < |s| && j != rid.slot ==> s[j].Some? by {
      forall j | 0 <= j < |s| && j != rid.slot
        ensures s[j].Some?
      {
        assert s[j] == f.pages[rid.pageNo].slots[j];
      }
    }
  }

  // ---------------------------------------------------------------------------
  // Insert-only files stay packed
  // ---------------------------------------------------------------------------

  /** Inserting a sequence of tuples one after another, stopping at the first failure. */
  function InsertAll(f: File, tid: TxnId, ts: seq<Tuple>): (r: Result<File>)
    requires Valid(f)
    ensures r.Ok? ==> Valid(r.value) && r.value.capacity == f.capacity
    decreases |ts|
  {
    if ts == [] then Ok(f)
    else
      var r := InsertTuple(f, tid, ts[0]);
      if r.Err? then Err(r.error) else InsertAll(r.value.file, tid, ts[1..])
  }

  /**
    The shape insert-only use leaves a file in: every page but the last is
    full and the last one holds at least one tuple.
  */
  predicate Packed(f: File)
  {
    && Valid(f) && f.capacity > 0
    && (forall i :: 0 <= i < |f.pages| - 1 ==> !HasSpace(f.pages[i]))
    && (|f.pages| > 0 ==> |Occupied(f.pages[|f.pages| - 1].slots)| > 0)
  }

  /** A page holds at most one tuple per slot, and fewer when a slot is free. */
  lemma {:induction false} OccupiedBound(slots: seq<Option<Tuple>>)
    ensures |Occupied(slots)| <= |slots|
    ensures (exists j :: 0 <= j < |slots| && slots[j].None?) ==> |Occupied(slots)| < |slots|
    decreases |slots|
  {
    if slots != [] {
      OccupiedBound(slots[1..]);
      if slots[0].Some? && exists j :: 0 <= j < |slots| && slots[j].None? {
        var j :| 0 <= j < |slots| && slots[j].None?;
        assert slots[1..][j - 1].None?;
      }
    }
  }

  /** `k` full pages of `capacity` slots hold `k * capacity` tuples. */
  lemma {:induction false} FullPagesSize(pages: seq<Page>, capacity: nat)
    requires forall i :: 0 <= i < |pages| ==> |pages[i].slots| == capacity && !HasSpace(pages[i])
    ensures |Contents(pages)| == |pages| * capacity
    decreases |pages|
  {
    if pages != [] {
      FullPagesSize(pages[1..], capacity);
      FullPageOccupied(pages[0].slots);
      assert |pages| * capacity == capacity + (|pages| - 1) * capacity;
    }
  }

  /** A packed file of `P` pages holds more than `(P - 1) * capacity` and at most `P * capacity` tuples. */
  lemma PackedSize(f: File)
    requires Packed(f) && |f.pages| > 0
    ensures (|f.pages| - 1) * f.capacity < |Contents(f.pages)| <= |f.pages| * f.capacity
  {
    var n := |f.pages|;
    var last := f.pages[n - 1];
    assert f.pages == f.pages[..n - 1] + [last];
    ContentsAppend(f.pages[..n - 1], last);
    FullPagesSize(f.pages[..n - 1], f.capacity);
    OccupiedBound(last.slots);
    assert n * f.capacity == (n - 1) * f.capacity + f.capacity;
  }

  /** One insert into a packed file succeeds, adds one tuple, and leaves the file packed. */
  lemma InsertKeepsPacked(f: File, tid: TxnId, t: Tuple)
    requires Packed(f)
    ensures var r := InsertTuple(f, tid, t);
      r.Ok? && Packed(r.value.file) && |Contents(r.value.file.pages)| == |Contents(f.pages)| + 1
  {
    var r := InsertTuple(f, tid, t).value;
    InsertAddsTuple(f, tid, t);
    OneMore(Contents(r.file.pages), Contents(f.pages), t.(rid := Some(r.rid)));
    var p := r.rid.pageNo;
    var page' := r.file.pages[p];
    OccupiedSplit(page'.slots, r.rid.slot);
    StillPacked(f, r.file, p);
  }

  lemma OneMore(a: seq<Tuple>, b: seq<Tuple>, x: Tuple)
    requires multiset(a) == multiset(b) + multiset{x}
    ensures |a| == |b| + 1
  {
    assert |multiset(a)| == |multiset(b)| + 1;
  }

  /** Filling a slot of the last page, or appending a page after full ones, keeps a file packed. */
  lemma StillPacked(f: File, f': File, p: nat)
    requires Packed(f) && Valid(f') && f'.capacity == f.capacity
    requires p <= |f.pages| && |f'.pages| == (if p == |f.pages| then |f.pages| + 1 else |f.pages|)
    requires forall i :: 0 <= i < p ==> !HasSpace(f.pages[i])
    requires p < |f.pages| ==> HasSpace(f.pages[p])
    requires forall i :: 0 <= i < |f.pages| && i != p ==> f'.pages[i] == f.pages[i]
    requires |Occupied(f'.pages[p].slots)| > 0
    ensures Packed(f')
  {
    if p < |f.pages| {
      assert HasSpace(f.pages[p]);
      assert !(p < |f.pages| - 1);
    }
    assert p == |f'.pages| - 1;
    forall i | 0 <= i < p
      ensures !HasSpace(f'.pages[i])
    {
      assert f'.pages[i] == f.pages[i];
    }
  }

  /** Inserting a sequence into a packed file succeeds and adds one tuple per insert. */
  lemma {:induction false} InsertAllKeepsPacked(f: File, tid: TxnId, ts: seq<Tuple>)
    requires Packed(f)
    ensures var r := InsertAll(f, tid, ts);
      r.Ok? && Packed(r.value) && |Contents(r.value.pages)| == |Contents(f.pages)| + |ts|
    decreases |ts|
  {
    if ts != [] {
      InsertKeepsPacked(f, tid, ts[0]);
      InsertAllKeepsPacked(InsertTuple(f, tid, ts[0]).value.file, tid, ts[1..]);
    }
  }

  /**
    Starting from an empty file, `n` inserts and no deletes leave
    `ceil(n / capacity)` pages.
  */
  lemma InsertsPackPages(capacity: nat, tid: TxnId, ts: seq<Tuple>)
    requires capacity > 0
    ensures var r := InsertAll(File(capacity, []), tid, ts);
      r.Ok? && |r.value.pages| == (|ts| + capacity - 1) / capacity
  {
    var f := File(capacity, []);
    InsertAllKeepsPacked(f, tid, ts);
    var g := InsertAll(f, tid, ts).value;
    if |g.pages| > 0 {
      PackedSize(g);
      CeilDiv(|g.pages|, |ts|, capacity);
    } else {
      assert |Contents(g.pages)| == 0;
    }
  }

  /** `P` is `ceil(n / c)` when `(P - 1) * c < n <= P * c`. */
  lemma CeilDiv(pages: nat, n: nat, c: nat)
    requires c > 0 && pages > 0
    requires (pages - 1) * c < n <= pages * c
    ensures pages == (n + c - 1) / c
  {
    var q := (n + c - 1) / c;
    assert q * c <= n + c - 1 < (q + 1) * c by {
      assert n + c - 1 == q * c + (n + c - 1) % c;
    }
    if q < pages {
      HeapFileDisk.MulMono(q + 1, pages, c);
    } else if q > pages {
      HeapFileDisk.MulMono(pages + 1, q, c);
    }
  }
}

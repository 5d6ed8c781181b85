/**
  The byte-level side of `HeapFile`: the file is a flat byte sequence of
  fixed-size pages, page `n` occupying bytes `[n * pageSize, (n + 1) * pageSize)`.
  The page count is derived from the file length, `readPage` checks the page
  number against it, and `writePage` overwrites (or appends) one page image.
*/
module HeapFileDisk {
  import opened Types

  type Byte = b: int | 0 <= b < 256

  // ---------------------------------------------------------------------------
  // Arithmetic on page numbers and offsets
  // ---------------------------------------------------------------------------

  lemma MulMono(a: nat, b: nat, c: nat)
    requires a <= b
    ensures a * c <= b * c
  {
    var d := b - a;
    assert b * c == a * c + d * c;
  }

  /** `n` whole pages fit in `length` bytes exactly when `n` is at most `length / pageSize`. */
  lemma FitsIffBelowQuotient(n: nat, length: nat, pageSize: nat)
    requires pageSize > 0
    ensures n * pageSize <= length <==> n <= length / pageSize
  {
    var q := length / pageSize;
    assert q * pageSize <= length < (q + 1) * pageSize by {
      assert length == q * pageSize + length % pageSize;
      assert (q + 1) * pageSize == q * pageSize + pageSize;
    }
    if n <= q {
      MulMono(n, q, pageSize);
    } else {
      MulMono(q + 1, n, pageSize);
    }
  }

  /** `numPages`: the number of whole pages in a file of `length` bytes (integer division, rounding down). */
  function NumPages(length: nat, pageSize: nat): (n: nat)
    requires pageSize > 0
    ensures n * pageSize <= length < (n + 1) * pageSize
  {
    FitsIffBelowQuotient(length / pageSize, length, pageSize);
    FitsIffBelowQuotient(length / pageSize + 1, length, pageSize);
    length / pageSize
  }

  /** The byte offset of page `pageNo`, computed without overflow. */
  function PageOffset(pageNo: nat, pageSize: nat): nat
  {
    pageNo * pageSize
  }

  /** Pages tile the file: page 0 starts at byte 0 and each page starts where the previous one ends. */
  lemma PagesTile(pageNo: nat, pageSize: nat)
    ensures PageOffset(0, pageSize) == 0
    ensures PageOffset(pageNo + 1, pageSize) == PageOffset(pageNo, pageSize) + pageSize
  {
  }

  /** A page number below `NumPages` names a page that lies wholly inside the file. */
  lemma PageInsideFile(pageNo: nat, length: nat, pageSize: nat)
    requires pageSize > 0
    ensures pageNo < NumPages(length, pageSize) <==> PageOffset(pageNo, pageSize) + pageSize <= length
  {
    FitsIffBelowQuotient(pageNo + 1, length, pageSize);
  }

  /**
    The offset as `readPage` and `writePage` compute it: the product of two
    Java `int`s, which wraps once it passes `Integer.MAX_VALUE`.
  */
  function PageOffsetAsWritten(pageNo: Int32, pageSize: Int32): (off: Int32)
    ensures 0 <= pageNo && 0 <= pageSize && pageNo * pageSize <= IntMax ==> off == PageOffset(pageNo, pageSize)
  {
    Wrap32(pageNo * pageSize)
  }

  /**
    With the default 4096-byte page, page 524288 (the first page past 2 GiB)
    gets a negative offset as written, so the seek fails, while its true
    offset is 2^31.
  */
  lemma OffsetOverflowsAt2GiB()
    ensures PageOffset(524288, 4096) == TwoTo31
    ensures PageOffsetAsWritten(524288, 4096) == IntMin
    ensures PageOffsetAsWritten(524288, 4096) < 0
  {
  }

  /**
    From page 1048576 on (4 GiB with 4096-byte pages) the product wraps back
    to a non-negative offset: as written, writing page 1048576 lands on
    page 0's bytes.
  */
  lemma OffsetWrapsToPageZero()
    ensures PageOffset(1048576, 4096) == 2 * TwoTo31
    ensures PageOffsetAsWritten(1048576, 4096) == PageOffset(0, 4096) == 0
    ensures PageOffsetAsWritten(1048577, 4096) == PageOffset(1, 4096)
  {
  }

  // ---------------------------------------------------------------------------
  // readPage and writePage
  // ---------------------------------------------------------------------------

  /**
    `readPage`: a page number at or past `numPages()` is an
    `IllegalArgumentException`; otherwise the `pageSize` bytes at the page's
    offset.
  */
  function ReadPage(bytes: seq<Byte>, pageSize: nat, pageNo: nat): (r: Result<seq<Byte>>)
    requires pageSize > 0
    ensures r.Ok? <==> pageNo < NumPages(|bytes|, pageSize)
    ensures r.Err? ==> r.error == IllegalArgument
    ensures r.Ok? ==>
      && PageOffset(pageNo, pageSize) + pageSize <= |bytes|
      && |r.value| == pageSize
      && forall i :: 0 <= i < pageSize ==> r.value[i] == bytes[PageOffset(pageNo, pageSize) + i]
  {
    var off := PageOffset(pageNo, pageSize);
    var inside := pageNo < NumPages(|bytes|, pageSize);
    PageInsideFile(pageNo, |bytes|, pageSize);
    assert inside <==> off + pageSize <= |bytes|;
    if inside then
      Slice(bytes, off, pageSize)
    else
      Err(IllegalArgument)
  }

  function Slice(bytes: seq<Byte>, off: nat, len: nat): (r: Result<seq<Byte>>)
    requires off + len <= |bytes|
    ensures r.Ok? && |r.value| == len && forall i :: 0 <= i < len ==> r.value[i] == bytes[off + i]
  {
    Ok(bytes[off..off + len])
  }

  function Zeros(n: nat): (z: seq<Byte>)
    ensures |z| == n && forall i :: 0 <= i < n ==> z[i] == 0
  {
    seq(n, _ => 0)
  }

  /**
    `writePage`: writes the first `pageSize` bytes of the page image at the
    page's offset. A shorter image is an `IndexOutOfBoundsException`. Writing
    past the end extends the file; bytes skipped over read as zero.
  */
  function WritePage(bytes: seq<Byte>, pageSize: nat, pageNo: nat, data: seq<Byte>): (r: Result<seq<Byte>>)
    requires pageSize > 0
    ensures r.Ok? <==> |data| >= pageSize
    ensures r.Err? ==> r.error == IndexOutOfBounds
    ensures r.Ok? ==>
      var off := PageOffset(pageNo, pageSize);
      && |r.value| == (if off + pageSize <= |bytes| then |bytes| else off + pageSize)
      && off + pageSize <= |r.value|
      && (forall i :: 0 <= i < pageSize ==> r.value[off + i] == data[i])
      && (forall i :: 0 <= i < |bytes| && !(off <= i < off + pageSize) ==> r.value[i] == bytes[i])
      && (forall i :: |bytes| <= i < off ==> r.value[i] == 0)
  {
    if |data| < pageSize then Err(IndexOutOfBounds)
    else
      var off := PageOffset(pageNo, pageSize);
      var padded := if off <= |bytes| then bytes else bytes + Zeros(off - |bytes|);
      var tail := if off + pageSize <= |padded| then padded[off + pageSize..] else [];
      Ok(padded[..off] + data[..pageSize] + tail)
  }

  /** Reading a page back after writing it returns the written image. */
  lemma ReadAfterWrite(bytes: seq<Byte>, pageSize: nat, pageNo: nat, data: seq<Byte>)
    requires pageSize > 0 && |data| >= pageSize
    ensures ReadPage(WritePage(bytes, pageSize, pageNo, data).value, pageSize, pageNo) == Ok(data[..pageSize])
  {
    var w := WritePage(bytes, pageSize, pageNo, data).value;
    PageInsideFile(pageNo, |w|, pageSize);
    var r := ReadPage(w, pageSize, pageNo);
    assert r.Ok?;
    assert r.value == data[..pageSize];
  }

  /** Writing one page leaves every other page of the file as it was. */
  lemma WriteKeepsOtherPages(bytes: seq<Byte>, pageSize: nat, pageNo: nat, data: seq<Byte>, other: nat)
    requires pageSize > 0 && |data| >= pageSize
    requires other != pageNo && other < NumPages(|bytes|, pageSize)
    ensures ReadPage(WritePage(bytes, pageSize, pageNo, data).value, pageSize, other) == ReadPage(bytes, pageSize, other)
  {
    var w := WritePage(bytes, pageSize, pageNo, data).value;
    var off := PageOffset(other, pageSize);
    var woff := PageOffset(pageNo, pageSize);
    PagesDisjoint(other, pageNo, pageSize);
    PageInsideFile(other, |bytes|, pageSize);
    assert off + pageSize <= |bytes| <= |w|;
    PageInsideFile(other, |w|, pageSize);
    var ra := ReadPage(w, pageSize, other);
    var rb := ReadPage(bytes, pageSize, other);
    WindowUnchanged(bytes, w, off, woff, pageSize, ra.value, rb.value);
  }

  /** Distinct pages occupy disjoint byte ranges. */
  lemma PagesDisjoint(p: nat, q: nat, pageSize: nat)
    requires p != q
    ensures PageOffset(p, pageSize) + pageSize <= PageOffset(q, pageSize)
         || PageOffset(q, pageSize) + pageSize <= PageOffset(p, pageSize)
  {
    if p < q {
      MulMono(p + 1, q, pageSize);
    } else {
      MulMono(q + 1, p, pageSize);
    }
  }

  lemma WindowUnchanged(bytes: seq<Byte>, w: seq<Byte>, off: nat, woff: nat, len: nat, a: seq<Byte>, b: seq<Byte>)
    requires off + len <= woff || woff + len <= off
    requires off + len <= |bytes| <= |w|
    requires forall i :: 0 <= i < |bytes| && !(woff <= i < woff + len) ==> w[i] == bytes[i]
    requires |a| == len && forall i :: 0 <= i < len ==> a[i] == w[off + i]
    requires |b| == len && forall i :: 0 <= i < len ==> b[i] == bytes[off + i]
    ensures a == b
  {
    forall i | 0 <= i < len
      ensures a[i] == b[i]
    {
      assert w[off + i] == bytes[off + i];
    }
  }

  /** After a write the file holds `max(numPages(), pageNo + 1)` pages. */
  lemma WriteGrowsToPage(bytes: seq<Byte>, pageSize: nat, pageNo: nat, data: seq<Byte>)
    requires pageSize > 0 && |data| >= pageSize
    ensures var n := NumPages(|bytes|, pageSize);
      NumPages(|WritePage(bytes, pageSize, pageNo, data).value|, pageSize) == if pageNo + 1 > n then pageNo + 1 else n
  {
    var w := WritePage(bytes, pageSize, pageNo, data).value;
    PageInsideFile(pageNo, |bytes|, pageSize);
    if PageOffset(pageNo, pageSize) + pageSize <= |bytes| {
      assert |w| == |bytes|;
    } else {
      assert |w| == (pageNo + 1) * pageSize;
      FitsIffBelowQuotient(pageNo + 1, |w|, pageSize);
      FitsIffBelowQuotient(pageNo + 2, |w|, pageSize);
      MulMono(pageNo + 1, pageNo + 2, pageSize);
    }
  }

  /** A file that is a whole number of pages stays one after a write. */
  lemma WriteKeepsWholePages(bytes: seq<Byte>, pageSize: nat, pageNo: nat, data: seq<Byte>)
    requires pageSize > 0 && |data| >= pageSize
    requires |bytes| == NumPages(|bytes|, pageSize) * pageSize
    ensures var w := WritePage(bytes, pageSize, pageNo, data).value;
      |w| == NumPages(|w|, pageSize) * pageSize
  {
    var w := WritePage(bytes, pageSize, pageNo, data).value;
    WriteGrowsToPage(bytes, pageSize, pageNo, data);
    PageInsideFile(pageNo, |bytes|, pageSize);
  }
}

# SimpleDB execution and storage core, in Dafny

This project models the part of SimpleDB that holds checkable logic. That
covers the grouping aggregation engine (`IntegerAggregator`,
`StringAggregator`, driven by the `Aggregate` operator), the `Filter`
selection operator, the heap file's page arithmetic and page-level
insert/delete, and the heap file iterator. Everything is stated over
immutable values: tuples, maps from group keys to accumulators, sequences
of pages. Each Java method becomes a function or a method, and lemmas
relate it to an independent reference definition.

| module | file | what it holds |
|---|---|---|
| `Types` | `types.dfy` | fields, tuples, record ids, tuple descriptors, errors; Java `int` wrap-around (`Wrap32`) and Java's truncating division (`JavaDiv`) |
| `Grouping` | `grouping.dfy` | the group key of a tuple (`null` under NO_GROUPING), the shape of an output row, and `Emit`: one row per map entry in an unspecified order, since the Java code walks a `HashMap` |
| `IntegerAggregator` | `integer_aggregator.dfy` | `mergeTupleIntoGroup` as a map update, the fold `Aggregate.open` performs, reference definitions (the group's values, their sum, max, min), finalisation with the AVG division, `getTupleDesc` |
| `StringAggregator` | `string_aggregator.dfy` | the COUNT-only constructor, the count update, per-group counts, the counts summing to the input length, `getTupleDesc` |
| `Aggregate` | `aggregate.dfy` | constructor (the -1 sentinel, the choice of aggregator), `open` as a full drain of the child then finalisation, `fetchNext`, `rewind`, `close`, `groupFieldName`, `getTupleDesc` |
| `Filter` | `filter.dfy` | `fetchNext` as a loop over the child's remaining tuples; draining the operator yields exactly the accepted tuples in order |
| `HeapFileDisk` | `heap_file_disk.dfy` | the file as bytes: `numPages`, the `readPage` bound check and offset, `writePage`'s offset and its effect on the file |
| `HeapFile` | `heap_file.dfy` | the file as pages of slots: `insertTuple`'s choice of page and slot, `deleteTuple` by record id, and their effect on the file's contents |
| `HeapFileIterator` | `heap_iterator.dfy` | the iterator's state machine (page number plus the page's tuple iterator); its stream is the file's tuples in page and slot order |

In the aggregators, Java `int` arithmetic is modelled exactly: sums and
counts wrap modulo 2^32, and AVG divides with Java's truncating division
(`TruncDiv`), not Dafny's Euclidean `/`. The heap file is different. Its
page offsets are `int` products that overflow for files past 2 GiB. The
byte-level `readPage` and `writePage` are modelled with the true product,
as the code evidently intends. The wrapping product is a separate member
(`HeapFileDisk.PageOffsetAsWritten`, see Findings). Likewise, `insertTuple`
is modelled as corrected for an empty file; the code as written is
`HeapFile.InsertTupleAsWritten`. Group keys are `Option<Field>`, with `None` for Java's
`null` key. A `Result` carries each Java exception the modelled code
throws, named by its class.

Where the code and its own documentation differ, the model follows the code:

- `insertTuple` marks the chosen page dirty and then calls `writePage`, which marks it clean again. So the page it returns is clean (`HeapFile.InsertTuple`, through `HeapFile.WritePage`).
- A new `HeapFileIterator` opened on a file with no pages fails: `open` asks for page 0, and `readPage` rejects page numbers at or past `numPages()`. It does not report an empty stream (`HeapFileIterator.OpenYieldsFile`).
- An aggregate over an empty child produces no rows, even without grouping. The group map stays empty, and `iterator()` emits one row per map entry.
- `Aggregate.open` merges into the aggregator it already holds, so a second `open` counts the child again (see Findings).
- `rewind` on `Aggregate` replays the finished rows. The child is not read again.

`TupleDesc.java` is not part of this model. An out-of-range column index in the `Aggregate` constructor is taken to fail with `NoSuchElementException`. `HeapPage.java` is not part of this model either. A page is taken to fill its lowest empty slot on insert, to stamp the tuple with that slot's record id, and to reject a delete whose slot does not exist or is empty. An all-zero page image, which `writePage` leaves in any gap it skips over, is taken to read back as an empty page.

## Model

| member | source | states |
|---|---|---|
| Types.Wrap32 | src/java/simpledb/IntegerAggregator.java:91-96 | the result is a 32-bit value congruent to the exact result modulo 2^32, and equal to it whenever that fits: Java `int` overflow |
| Types.Wrap32Add | src/java/simpledb/IntegerAggregator.java:79-96 | wrapping after every addition gives the same value as wrapping once at the end, which is what lets a running Java total be compared with the exact sum |
| Types.TruncDiv | src/java/simpledb/IntegerAggregator.java:147 | for a positive divisor the remainder has the dividend's sign and is smaller than the divisor, and the quotient is no larger in magnitude than the dividend: rounding toward zero |
| Types.JavaDiv | src/java/simpledb/IntegerAggregator.java:147 | Java `int` division agrees with truncating division for a positive divisor |
| Grouping.GroupKey | src/java/simpledb/IntegerAggregator.java:56 | the key is `null` exactly when grouping is off, otherwise the tuple's group-by field |
| Grouping.RowShape | src/java/simpledb/IntegerAggregator.java:149-154 | an output row is `(val)` for the `null` key and `(key, val)` otherwise, has no record id, and its key can be read back |
| Grouping.Emit | src/java/simpledb/IntegerAggregator.java:142-157 | the rows list every group of the map exactly once, each carrying its group's value, in some order |
| IntegerAggregator.New | src/java/simpledb/IntegerAggregator.java:36-44 | a new aggregator records its configuration and holds no groups |
| IntegerAggregator.InitialValue | src/java/simpledb/IntegerAggregator.java:58-68 | a new group starts at `Integer.MIN_VALUE` for MAX, `Integer.MAX_VALUE` for MIN, 0 otherwise |
| IntegerAggregator.Merge | src/java/simpledb/IntegerAggregator.java:53-104 | a merge adds the tuple's group if unseen, moves its accumulator by one step of the operator from its prior or initial value, advances its count only for AVG, and leaves every other group's accumulator and count untouched |
| IntegerAggregator.MergeRule | src/java/simpledb/IntegerAggregator.java:77-100 | the step per operator: COUNT adds 1, SUM and AVG add the value with `int` wrap, MAX and MIN replace only on a strictly larger or smaller value, and only AVG increments the count |
| IntegerAggregator.MaxOfIsMaximum | src/java/simpledb/IntegerAggregator.java:83-86 | the reference maximum is one of the values and no value exceeds it |
| IntegerAggregator.MinOfIsMinimum | src/java/simpledb/IntegerAggregator.java:87-90 | the reference minimum is one of the values and no value is below it |
| IntegerAggregator.MergeAllGroups | src/java/simpledb/IntegerAggregator.java:53-104 | after merging a tuple sequence, a group exists exactly for the keys some tuple has; its accumulator is the group's count, wrapped sum, max or min, and its count is the group's size for AVG and 0 otherwise |
| IntegerAggregator.UngroupedHasOneGroup | src/java/simpledb/IntegerAggregator.java:56 | under NO_GROUPING there is at most one group, the `null` key, and exactly one once a tuple is merged |
| IntegerAggregator.FinalValues | src/java/simpledb/IntegerAggregator.java:142-147 | finalisation keeps the group set; AVG divides total by count with Java division (an `ArithmeticException` exactly when some AVG count is 0); the other operators report the accumulator unchanged |
| IntegerAggregator.Iterator | src/java/simpledb/IntegerAggregator.java:135-162 | one row per group carrying its finalised value, or the division error |
| IntegerAggregator.AvgResult | src/java/simpledb/IntegerAggregator.java:94-147 | for fewer than 2^31 input tuples, each AVG result is the group's wrapped total divided by its size, rounding toward zero, and finalisation cannot fail |
| IntegerAggregator.GetTupleDesc | src/java/simpledb/IntegerAggregator.java:107-123 | one INT column when ungrouped; the group column's type then INT when grouped; the value column is named `aggrregateVal` (spelled so in the code) when ungrouped and `aggregateVal` when grouped |
| IntegerAggregator.RowsConform | src/java/simpledb/IntegerAggregator.java:138-154 | a row built for a key of the group-by column's type (or the `null` key when ungrouped) matches the descriptor `getTupleDesc` returns |
| IntegerAggregator.EmittedRowsConform | src/java/simpledb/IntegerAggregator.java:53-162 | after merging tuples of the child's descriptor, every row `iterator()` emits matches `getTupleDesc`: each group key is some child tuple's group-by field, so it has the group-by column's type |
| StringAggregator.New | src/java/simpledb/StringAggregator.java:39-40 | construction succeeds exactly for COUNT; any other operator is an `IllegalArgumentException` |
| StringAggregator.Merge | src/java/simpledb/StringAggregator.java:47-56 | an unseen group gets count 1, a seen one its count plus one (wrapping), and other groups are untouched |
| StringAggregator.MergeAllCounts | src/java/simpledb/StringAggregator.java:47-56 | after merging a tuple sequence, a group exists exactly for the keys some tuple has, and its count is the number of tuples with that key |
| StringAggregator.CountsSumToLength | src/java/simpledb/StringAggregator.java:51-55 | with at most `Integer.MAX_VALUE` tuples the group counts add up to the number of tuples merged |
| StringAggregator.UngroupedCount | src/java/simpledb/StringAggregator.java:49-55 | under NO_GROUPING a non-empty input yields the single `null` group whose count is the input length |
| StringAggregator.Iterator | src/java/simpledb/StringAggregator.java:86-108 | one row per group, carrying its count as an INT field |
| StringAggregator.GetTupleDesc | src/java/simpledb/StringAggregator.java:59-75 | one INT column when ungrouped; the group column's type then INT when grouped; the value column is named `aggregateVal` either way |
| Aggregate.New | src/java/simpledb/Aggregate.java:40-56 | -1 becomes NO_GROUPING; an INT column selects the integer aggregator and a STRING column the string aggregator, which rejects non-COUNT operators; reading a missing column fails |
| Aggregate.MergeChild | src/java/simpledb/Aggregate.java:113-119 | the drain merges every child tuple, in child order, into the chosen aggregator |
| Aggregate.Finalise | src/java/simpledb/Aggregate.java:121 | the result rows are the chosen aggregator's finished groups, one row per group |
| Aggregate.OpenAsWritten | src/java/simpledb/Aggregate.java:108-124 | `open` merges the whole child into the aggregator already held before any row is produced, then positions the cursor at the first row |
| Aggregate.Open | src/java/simpledb/Aggregate.java:108-124 | the same, with the drain starting from the constructor's empty aggregator |
| Aggregate.ReopenCountsTwice | src/java/simpledb/Aggregate.java:108-124 | as written, COUNT over a one-tuple child gives 1 on the first `open` and 2 on the next |
| Aggregate.ReopenIsIdempotent | src/java/simpledb/Aggregate.java:108-124 | from the empty aggregator, reopening after `close` rebuilds exactly the first run's groups |
| Aggregate.Close | src/java/simpledb/Aggregate.java:178-183 | `close` drops the result rows and keeps the aggregator's state |
| Aggregate.FetchNext | src/java/simpledb/Aggregate.java:133-140 | the next finished row, or `null` exactly when the rows are exhausted; nothing else changes |
| Aggregate.Drain | src/java/simpledb/Aggregate.java:133-140 | repeated `fetchNext` yields exactly the rows not yet returned, in order |
| Aggregate.Rewind | src/java/simpledb/Aggregate.java:142-145 | after `rewind` the operator replays all finished rows without re-reading the child |
| Aggregate.GroupFieldName | src/java/simpledb/Aggregate.java:72-77 | `null` exactly when there is no grouping, otherwise the child's name for the group-by column |
| Aggregate.GetTupleDesc | src/java/simpledb/Aggregate.java:158-175 | one INT column named after the aggregated column when ungrouped; `groupVal` with the group-by column's type, then INT, when grouped |
| Aggregate.DescMatchesAggregator | src/java/simpledb/Aggregate.java:158-175 | the operator's column types are those of the rows its aggregator builds |
| Filter.SelectMembers | src/java/simpledb/Filter.java:63-75 | the reference selection holds exactly the tuples of the input that the predicate accepts |
| Filter.GetTupleDesc | src/java/simpledb/Filter.java:34-37 | the output descriptor is the child's |
| Filter.Open | src/java/simpledb/Filter.java:39-43 | `open` opens the child and changes nothing else |
| Filter.Close | src/java/simpledb/Filter.java:45-48 | `close` closes the child, which goes back to its first tuple as the heap-file iterator's `close` does (HeapFile.java:107-110); the predicate is kept |
| Filter.CloseOpenRestarts | src/java/simpledb/Filter.java:39-48 | after `close` and `open`, at any point of a scan, the child's whole output remains to be read |
| Filter.Rewind | src/java/simpledb/Filter.java:50-52 | `rewind` puts the child back at its first tuple |
| Filter.SetChildren | src/java/simpledb/Filter.java:85-89 | a non-empty array replaces the child with its first entry; an empty one changes nothing |
| Filter.FetchNext | src/java/simpledb/Filter.java:63-75 | returns the first remaining child tuple the predicate accepts, consuming the rejected ones before it; returns `null` exactly when no remaining tuple passes, with the child exhausted |
| Filter.Drain | src/java/simpledb/Filter.java:63-75 | calling `fetchNext` until `null` yields exactly the accepted remaining tuples, in their original order, and leaves the child exhausted with its output, descriptor and the predicate unchanged |
| Filter.DrainAfterRewind | src/java/simpledb/Filter.java:50-75 | after `rewind`, draining yields the selection over the child's whole output |
| HeapFileDisk.NumPages | src/java/simpledb/HeapFile.java:207-209 | the page count is the largest `n` with `n * pageSize` at most the file length |
| HeapFileDisk.PageInsideFile | src/java/simpledb/HeapFile.java:168-171 | a page number passes the bound check exactly when the whole page lies inside the file |
| HeapFileDisk.PageOffsetAsWritten | src/java/simpledb/HeapFile.java:191 | the `int` product agrees with the true offset while it fits in an `int` |
| HeapFileDisk.OffsetOverflowsAt2GiB | src/java/simpledb/HeapFile.java:171 | with 4096-byte pages, page 524288 gets a negative offset as written; its true offset is 2^31 |
| HeapFileDisk.OffsetWrapsToPageZero | src/java/simpledb/HeapFile.java:191 | with 4096-byte pages, page 1048576 gets offset 0 as written, and page 1048577 gets page 1's offset: the write silently lands on another page |
| HeapFileDisk.ReadPage | src/java/simpledb/HeapFile.java:164-185 | reading succeeds exactly for page numbers below `numPages()` and returns the `pageSize` bytes at the page's offset; other page numbers are an `IllegalArgumentException` |
| HeapFileDisk.WritePage | src/java/simpledb/HeapFile.java:188-202 | with the true offset (the corrected line 191), writing puts the first `pageSize` bytes of the image at the page's offset and leaves every other byte as it was; a file too short is extended, the gap reads as zeros; a short image is an `IndexOutOfBoundsException` |
| HeapFileDisk.ReadAfterWrite | src/java/simpledb/HeapFile.java:164-202 | reading a page after writing it returns the written image |
| HeapFileDisk.WriteKeepsOtherPages | src/java/simpledb/HeapFile.java:164-202 | writing one page leaves every other page's bytes as they were |
| HeapFileDisk.WriteGrowsToPage | src/java/simpledb/HeapFile.java:188-209 | after writing page `p` the file has `max(numPages(), p + 1)` pages |
| HeapFileDisk.WriteKeepsWholePages | src/java/simpledb/HeapFile.java:188-209 | a file whose length is a whole number of pages keeps that shape after a write |
| HeapFile.WritePage | src/java/simpledb/HeapFile.java:188-202 | the written page becomes page `id` of the file and is marked clean (`markDirty(false, null)`); other pages are unchanged, a gap before it holds empty pages, and the file grows to `id + 1` pages when needed |
| HeapFile.WritePageIdempotent | src/java/simpledb/HeapFile.java:188-202 | writing the same page again changes nothing |
| HeapFile.EmptyPage | src/java/simpledb/HeapFile.java:239-240 | a new page has the given number, the full slot count, every slot empty, and is clean |
| HeapFile.FirstPageWithSpace | src/java/simpledb/HeapFile.java:228-235 | the scan finds the lowest page with an empty slot, or reports that none has one |
| HeapFile.FirstEmptyFrom | src/java/simpledb/HeapFile.java:243 | the lowest empty slot of a page, or none when the page is full |
| HeapFile.InsertTuple | src/java/simpledb/HeapFile.java:220-251 | the corrected insert (see Findings): the tuple goes to the lowest page with an empty slot, otherwise to a new page numbered `numPages()`; it fills that page's lowest empty slot and gets its record id; only that page changes, it is returned alone and clean; the insert fails only when no page can hold the tuple |
| HeapFile.InsertTupleAsWritten | src/java/simpledb/HeapFile.java:237 | on a file with no pages the code as written throws `NullPointerException`; otherwise it behaves as `InsertTuple` |
| HeapFile.InsertIntoEmptyFile | src/java/simpledb/HeapFile.java:226-243 | on an empty file the code as written fails where the corrected insert creates page 0 and stores the tuple at slot 0 |
| HeapFile.InsertAddsTuple | src/java/simpledb/HeapFile.java:243-249 | an insert adds exactly the stored tuple, with its new record id, to the file's contents |
| HeapFile.DeleteTuple | src/java/simpledb/HeapFile.java:254-266 | the record id routes the delete: none is a `NullPointerException`, a page past the end an `IllegalArgumentException`, a missing or empty slot a `DbException`; otherwise only that slot empties, the page is marked dirty by the transaction and returned alone |
| HeapFile.DeleteRemovesTuple | src/java/simpledb/HeapFile.java:258-260 | a delete removes exactly the tuple stored under the record id from the file's contents |
| HeapFile.InsertAfterDeleteDoesNotGrow | src/java/simpledb/HeapFile.java:228-241 | after a delete, the next insert lands at or before the freed page and does not add a page |
| HeapFile.InsertAfterDeleteReusesSlot | src/java/simpledb/HeapFile.java:228-243 | if no slot was free before the delete, the next insert reuses exactly the freed slot |
| HeapFile.InsertKeepsPacked | src/java/simpledb/HeapFile.java:228-243 | an insert into a file whose pages before the last are full succeeds, adds one tuple, and keeps that shape |
| HeapFile.InsertsPackPages | src/java/simpledb/HeapFile.java:220-251 | for the corrected insert (the code as written fails on the first insert into an empty file), `n` inserts into an empty file with no deletes leave `ceil(n / slotsPerPage)` pages |
| HeapFileIterator.Open | src/java/simpledb/HeapFile.java:30-42 | `open` takes the tuple iterator of the current page; a page number past the end fails with `IllegalArgumentException` |
| HeapFileIterator.Close | src/java/simpledb/HeapFile.java:107-110 | `close` resets to page 0 with no page iterator |
| HeapFileIterator.Rewind | src/java/simpledb/HeapFile.java:96-102 | `rewind` is `close` (when a page iterator is held) followed by `open` |
| HeapFileIterator.OpenYieldsFile | src/java/simpledb/HeapFile.java:23-42 | a new iterator opens exactly when the file has a page, and its stream is then every tuple of the file in page and slot order |
| HeapFileIterator.RewindRestarts | src/java/simpledb/HeapFile.java:96-110 | in every reachable state `rewind` restarts the stream at the file's first tuple |
| HeapFileIterator.Seek | src/java/simpledb/HeapFile.java:57-71 | the loop stops at a page with tuples, or at `numPages()` |
| HeapFileIterator.SeekSkipsEmptyPages | src/java/simpledb/HeapFile.java:53-72 | the page the loop stops at holds the next tuples of the stream, and the pages it skips hold none |
| HeapFileIterator.HasNext | src/java/simpledb/HeapFile.java:45-74 | without a page iterator it is false; when true the held page iterator has a tuple; when false the page number has reached `numPages()` |
| HeapFileIterator.HasNextPeeks | src/java/simpledb/HeapFile.java:45-74 | `hasNext` is true exactly when the stream has a tuple left, and never changes the stream |
| HeapFileIterator.Next | src/java/simpledb/HeapFile.java:83-90 | `next` throws `NoSuchElementException` exactly when `hasNext` is false, keeping the state `hasNext` reached; otherwise it returns the first tuple of the page iterator `hasNext` settled on |
| HeapFileIterator.NextTakesHead | src/java/simpledb/HeapFile.java:83-90 | `next` returns the stream's first tuple and leaves the rest, and fails exactly on an exhausted stream |
| HeapFileIterator.OperationsKeepInv | src/java/simpledb/HeapFile.java:23-110 | every operation keeps the iterator in a reachable state: with no page iterator, the page number is 0 |
| HeapFileIterator.Drain | src/java/simpledb/HeapFile.java:83-90 | calling `next` until it throws yields exactly the remaining stream |
| HeapFileIterator.Scan | src/java/simpledb/HeapFile.java:30-90 | a full scan yields every tuple of the file in page and slot order, with empty pages contributing nothing; a file with no pages fails to open |
| HeapFileIterator.EmptyPagesSkipped | src/java/simpledb/HeapFile.java:57-67 | pages holding 0, 3, 0 and 5 tuples give a stream of the 8 tuples of pages 1 and 3 |

## Left out

- File I/O: `RandomAccessFile`, `file.length()` and the exceptions `readPage` catches and prints before returning `null` (HeapFile.java:179-184). The file is a byte sequence or a page sequence, and reads and writes cannot fail for I/O reasons.
- HeapFileDisk.NumPages: does not model the `(int)` cast of the page count (HeapFile.java:208), which only matters past 2^31 pages.
- HeapFileDisk.WritePage: computes the offset as the true product, not the wrapping `int` product of HeapFile.java:191 (that one is `HeapFileDisk.PageOffsetAsWritten`, see Findings). The page's dirty flag is not part of a byte image; clearing it is modelled by `HeapFile.WritePage`.
- HeapFileDisk.ReadPage: the page-number bound is taken as unbounded `nat`; a negative page number cannot arise, because `HeapPageId` numbers are never negative in the modelled code.
- The buffer pool, transactions, permissions and locking. `getPage` is a lookup into the page sequence, and a transaction id is only recorded as the page's dirtier.
- The HeapPage byte codec (header bitmap, slot layout) and `HeapPage.java` itself. The page-level model (`HeapFile`) and the byte-level model (`HeapFileDisk`) are not connected by an encoding. `insertTuple`'s schema check inside the page is not modelled.
- `getFreePage` (HeapFile.java:211-216), an unused stub that returns `null`.
- `getId` and the table id inside a record id. A file's record ids carry only page and slot.
- The `ClassCastException` handlers in the iterator (HeapFile.java:39-41, 68-70). Every page is a heap page here; the handler inside `hasNext`'s loop would otherwise retry the same page forever.
- The `Operator` base class's lookahead (`hasNext`/`next` over `fetchNext`) and the `super.open()`/`super.close()` calls. Operators are modelled through `fetchNext`, `open`, `close` and `rewind`.
- `Filter.getChildren` (Filter.java:78-82), which stores into index 1 of a one-element array. It is a defect with no contract to model.
- `Delete.java`. Its `fetchNext` is an unimplemented stub returning `null` (Delete.java:59-62), and the rest is delegation.
- The debug print in `Aggregate.open` (Aggregate.java:117) and the unreachable `assert(false)` for a third column type (Aggregate.java:53).
- Filter.Open: the child's `open` and `close` are modelled on the heap-file iterator's: `open` keeps the position and `close` returns the child to its first tuple. Other child operators are not part of this model.
- Aggregate.Close: drops the finished rows. The Java `close` only closes `aggIter` (Aggregate.java:178-183); the list iterator's class is not part of this model. So `rewind` after `close` replays nothing here, and `fetchNext` after `close` is not an error here. A `close` before any `open` throws `NullPointerException` on the still-`null` `aggIter`; that is not modelled either.
- Aggregate.Rewind: omits `iter.rewind()` (Aggregate.java:143). The child is read only inside `open`, so rewinding it has no effect on the rows produced.
- The predicate of `Filter` is any total function on tuples. `Predicate.java` is not part of this model.
- Trivial getters: `Filter.getPredicate`, `Aggregate.groupField`, `aggregateField`, `aggregateOp`, `nameOfAggregatorOp`. `Aggregate.aggregateFieldName` appears only through `GetTupleDesc`.
- The order of `HashMap` iteration. Output rows are specified as one row per group in some order.
- A tuple whose aggregate field is not an INT (a `ClassCastException` in `mergeTupleIntoGroup`). Merges require the field, and `Aggregate` guarantees it for children whose tuples match its descriptor.

## Findings

| source | as written | input that shows it | evidently intended | confidence | as-written member | corrected member |
|---|---|---|---|---|---|---|
| src/java/simpledb/HeapFile.java:237 | `hpage != null & hpage.getNumEmptySlots() == 0` uses the non-short-circuit `&`, so with no pages it calls a method on `null` | any insert into a file with 0 pages (`HeapFile.InsertIntoEmptyFile`) | create page 0 and insert into it, as for a file whose pages are all full | high; not executed | HeapFile.InsertTupleAsWritten | HeapFile.InsertTuple |
| src/java/simpledb/HeapFile.java:171 | the offset `pageNo * pageSize` is an `int` product, as is the one at line 191 | page 524288 with 4096-byte pages, the first page past 2 GiB: the offset wraps to -2^31 and the seek fails (`HeapFileDisk.OffsetOverflowsAt2GiB`); from page 1048576 on it wraps back to non-negative offsets of other pages (`HeapFileDisk.OffsetWrapsToPageZero`) | page `n` starts at byte `n * pageSize` for every page of the file | medium; not executed | HeapFileDisk.PageOffsetAsWritten | HeapFileDisk.ReadPage |
| src/java/simpledb/HeapFile.java:191 | `writePage` computes the offset `this.pageSize * page.getId().pageNumber()` as an `int` product | page 1048576 with 4096-byte pages: the offset wraps to 0, so the write overwrites page 0 (`HeapFileDisk.OffsetWrapsToPageZero`) | page `n` is written at byte `n * pageSize` | medium; not executed | HeapFileDisk.PageOffsetAsWritten | HeapFileDisk.WritePage |
| src/java/simpledb/Aggregate.java:108-124 | `open` merges the child into the aggregator built by the constructor and never cleared | COUNT, no grouping, child yielding one tuple: `open`, `close`, `open` reports 2 (`Aggregate.ReopenCountsTwice`) | each `open` reports the groups of the child's tuples only | medium; not executed | Aggregate.OpenAsWritten | Aggregate.Open |

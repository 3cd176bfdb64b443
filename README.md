# SimpleDB storage and aggregation core, modelled in Dafny

This project models the core of SimpleDB, a teaching database written in
Java. It covers:

- **Schema.** The row schema (`TupleDesc`): its constructors, field lookups,
  name search, byte size, concatenation and equality.
- **Addressing.** The address of a stored tuple (`RecordId`).
- **Heap file.** A table stored as fixed-size pages in one file, reduced to
  the file's byte image and the buffer pool's view of its pages. It covers
  page slicing on read, writes, first-fit insertion and deletion.
- **Sequential scan.** The cursor that walks a heap file page by page,
  skipping empty pages.
- **Aggregation.** The COUNT-only string aggregator, which groups values in a
  map from group key to value list. Also the iterator that folds every group
  with MIN, MAX, SUM, COUNT or AVG into one result tuple per key.
- **Insert.** The operator that drains a child operator into a table and
  answers with the number of tuples drawn.

## Model conventions

- **Modules.** There is one module per source class:
  - `Schema`, `Addressing`, `HeapFiles`, `HeapScan`, `AggIterators`,
    `StringAggregators` and `Inserts`;
  - `Wrappers` holds `Option`/`Result`, with Java exceptions as `Err` values;
  - `Tuples` holds field values and tuples;
  - `Pages` holds the abstract page and buffer pool the heap file talks to.
- **Classes.** Objects whose fields the Java code updates are Dafny classes
  with `modifies` frames: `TupleDesc`, `RecordId`, `HeapFile`,
  `HeapFileIterator`, `StringAggregator`, `AggIterator` and `Insert`.
- **Specification functions.** Each loop of the source is a method proved
  against a specification function, with lemmas stating what that function
  means.
- **Nulls.** A Java `null` field or result is `None`. A `NullPointerException`
  that follows from it is `Err(NullPointer)`.
- **Follows the code.** Where a doc-comment and the code disagree, the model
  follows the code:
  - `TupleDesc.equals` compares field names as well as types, although its
    doc-comment speaks of types only. `Schema.EqualsStricterThanTypes` shows
    the difference.
  - The two-array constructor silently builds an empty schema when the array
    lengths differ.
  - A second `AggIterator.open` appends the groups' rows again, because it
    never clears the result list.

  The three places where the code departs from evident intent are listed
  under "## Findings". Each is modelled both as written and corrected.

## Model

| member | source | states |
|---|---|---|
| Schema.WidthAppend | src/java/simpledb/storage/TupleDesc.java:174-198 | The byte size of a concatenation of item lists is the sum of their sizes, so a merged schema is as wide as its halves together. |
| Schema.EqualsStricterThanTypes | src/java/simpledb/storage/TupleDesc.java:200-225 | Item-wise equality (names included) implies same length and types. The converse fails on two one-field schemas differing only in the name. |
| Schema.TupleDesc.Empty | src/java/simpledb/storage/TupleDesc.java:110-111 | The no-argument constructor yields no items. |
| Schema.TupleDesc.FromArrays | src/java/simpledb/storage/TupleDesc.java:87-94 | With equal array lengths, item i is (typeAr[i], fieldAr[i]) and there are exactly that many items. With unequal lengths there are no items at all. |
| Schema.TupleDesc.FromTypes | src/java/simpledb/storage/TupleDesc.java:103-108 | One item per type, in order, every name null. |
| Schema.TupleDesc.SetTupleDesc | src/java/simpledb/storage/TupleDesc.java:62-64 | The item list becomes the given one. |
| Schema.TupleDesc.GetFieldNameAsWritten | src/java/simpledb/storage/TupleDesc.java:128-133 | Item i's name for 0 <= i < numFields. IndexOutOfBounds at i == numFields, which the `i > numFields()` guard lets through. NoSuchElement for every other index. |
| Schema.TupleDesc.GetFieldName | src/java/simpledb/storage/TupleDesc.java:121-133 | Succeeds exactly for 0 <= i < numFields, with item i's name. Otherwise throws NoSuchElement, as documented. |
| Schema.TupleDesc.GetFieldTypeAsWritten | src/java/simpledb/storage/TupleDesc.java:143-148 | Item i's type for a valid index. IndexOutOfBounds at i == numFields. NoSuchElement otherwise. |
| Schema.TupleDesc.GetFieldType | src/java/simpledb/storage/TupleDesc.java:135-148 | Succeeds exactly for valid indices, with item i's type. Otherwise throws NoSuchElement. |
| Schema.FieldBoundCounterexample | src/java/simpledb/storage/TupleDesc.java:129-130 | On a one-field schema at index 1, the written lookups fail with IndexOutOfBounds where the documented ones throw NoSuchElement. |
| Schema.TupleDesc.FieldNameToIndex | src/java/simpledb/storage/TupleDesc.java:157-168 | Returns the smallest index whose non-null name equals the query, so a null name never matches. NoSuchElement exactly when no item matches. |
| Schema.TupleDesc.NumFields | src/java/simpledb/storage/TupleDesc.java:116-119 | The field count is the number of items, zero exactly for an empty schema. |
| Schema.TupleDesc.GetSize | src/java/simpledb/storage/TupleDesc.java:174-180 | The size is the sum of the items' type widths. |
| Schema.TupleDesc.Merge | src/java/simpledb/storage/TupleDesc.java:190-198 | A fresh descriptor holding td1's items then td2's. Its length and byte size are the sums of the inputs'. The inputs are not modified. |
| Schema.TupleDesc.Equals | src/java/simpledb/storage/TupleDesc.java:210-225 | True exactly when o is a TupleDesc of the same length whose items are equal in type and name at every index (TDItem.equals at :50-55). It then also has the same types. |
| Schema.EqualsReflexive | src/java/simpledb/storage/TupleDesc.java:210-225 | Every descriptor equals itself. |
| Addressing.RecordId.constructor | src/java/simpledb/storage/RecordId.java:23-40 | The getters return exactly the constructor's page id and tuple number. |
| Addressing.RecordId.SetPageId | src/java/simpledb/storage/RecordId.java:42-44 | Changes the page id and leaves the tuple number alone. |
| Addressing.RecordId.SetTupleno | src/java/simpledb/storage/RecordId.java:46-48 | Changes the tuple number and leaves the page id alone. |
| Addressing.RecordId.Equals | src/java/simpledb/storage/RecordId.java:57-63 | True only for a RecordId, and for a RecordId exactly when its page id and tuple number equal this one's. |
| Addressing.RecordId.HashCode | src/java/simpledb/storage/RecordId.java:72-74 | `Objects.hash(pid, tupleno)`: the Arrays.hashCode fold (start at 1, then 31 times the running value plus each element's hash) over the page id's hash and the tuple number. |
| Addressing.EqualsIsEquivalence | src/java/simpledb/storage/RecordId.java:57-63 | equals is reflexive, symmetric and transitive. It holds iff page ids and tuple numbers are equal, and is false for any object that is not a RecordId. |
| Addressing.EqualsImpliesSameHash | src/java/simpledb/storage/RecordId.java:72-74 | Equal RecordIds have equal hash codes. |
| HeapFiles.NumPagesOf | src/java/simpledb/storage/HeapFile.java:117-119 | The page count n is the number of whole pages in the image: n * P <= length < (n + 1) * P. |
| HeapFiles.HeapFile.NumPages | src/java/simpledb/storage/HeapFile.java:117-119 | The number of whole pages in the file: n pages take at most its length, n + 1 more than it. |
| HeapFiles.HeapFile.ReadPage | src/java/simpledb/storage/HeapFile.java:80-95 | Succeeds iff the page number is below numPages, with exactly the page-size bytes at that page's offset; otherwise IndexOutOfBounds from the array copy. |
| HeapFiles.PageSlice | src/java/simpledb/storage/HeapFile.java:80-95 | Reading page n succeeds iff n < numPages. The page is exactly the P bytes at offsets n * P .. (n + 1) * P - 1. Otherwise the array copy throws IndexOutOfBounds. |
| HeapFiles.WriteAt | src/java/simpledb/storage/HeapFile.java:104-106 | A seek-and-write puts the data at the offset and keeps every other byte. A gap past the old end reads as zeros. The file grows just enough to hold the data. |
| HeapFiles.ReadAfterWrite | src/java/simpledb/storage/HeapFile.java:80-119 | After writing page n, reading page n yields the written bytes and every other existing page reads as before. The page count stays the same when n existed and becomes n + 1 otherwise. |
| HeapFiles.HeapFile.constructor | src/java/simpledb/storage/HeapFile.java:33-38 | Stores the table's file, as its id and byte image, and its schema, together with the pool, page size and page serialiser the file works with. |
| HeapFiles.PagesAfterWrite | src/java/simpledb/storage/HeapFile.java:104-119 | A write at page n's offset leaves n + 1 pages when n was at or past the end, and the old page count otherwise. |
| HeapFiles.ReadBackWritten | src/java/simpledb/storage/HeapFile.java:80-112 | Reading the page just written yields exactly the written bytes. |
| HeapFiles.ReadOtherKept | src/java/simpledb/storage/HeapFile.java:80-112 | Reading any other page that existed before the write yields what it did before. |
| HeapFiles.FirstWithRoom | src/java/simpledb/storage/HeapFile.java:125-133 | The page first-fit settles on: the lowest-numbered page with a free slot, with every earlier page full. None when every page is full. |
| HeapFiles.HeapFile.WritePage | src/java/simpledb/storage/HeapFile.java:98-112 | The image becomes the written one. The written page reads back, other existing pages read as before, and the page count follows ReadAfterWrite. |
| HeapFiles.HeapFile.Probe | src/java/simpledb/storage/HeapFile.java:125-133 | insertTuple's search loop: it settles on the first page with room, or on none, and fetches pages 0..k READ_WRITE in order (all pages when none has room). The pool's pages are unchanged. |
| HeapFiles.HeapFile.InsertTuple | src/java/simpledb/storage/HeapFile.java:122-140 | If some page has room, the first such page gains the tuple; pages 0..k are fetched READ_WRITE in order, the file is untouched and the result is that page alone. Otherwise every page is fetched, and a fresh page numbered numPages() holding just the tuple is written at the end, so numPages grows by one. A fresh page with no slots throws DbException. |
| HeapFiles.HeapFile.DeleteTuple | src/java/simpledb/storage/HeapFile.java:143-152 | Fetches the page named by the tuple's RecordId, READ_WRITE, removes the tuple there and returns that page alone; no other page or byte changes. A null RecordId is a NullPointerException; a page without the tuple a DbException. |
| HeapFiles.HeapFile.Iterator | src/java/simpledb/storage/HeapFile.java:155-158 | A fresh, closed READ_ONLY scan of this table, bound to the page count at creation. |
| HeapScan.HeapFileIterator.constructor | src/java/simpledb/storage/HeapFileIterator.java:24-30 | Stores table, transaction, permission and page bound. Starts at page 0 with no cursor. |
| HeapScan.HeapFileIterator.Open | src/java/simpledb/storage/HeapFileIterator.java:45-50 | Fetches page 0 and positions on its tuples, leaving the page counter at 1. The tuples still to come are then every page's tuples in page order. A missing page 0 is a NullPointerException. |
| HeapScan.HeapFileIterator.HasNext | src/java/simpledb/storage/HeapFileIterator.java:53-70 | With the intended bound: false before open or after close. Otherwise true iff tuples remain, which are unchanged. When true the current page has a tuple, which may mean skipping empty pages; the cursor is then at the start of the page just fetched. It does not move while the current page has tuples. The pool receives one request per page it passes, from the page counter on, in order; when it answers false the counter has reached the bound. |
| HeapScan.HeapFileIterator.HasNextAsWritten | src/java/simpledb/storage/HeapFileIterator.java:53-70 | The loop testing the never-updated `i`: false before open, and true without moving while the current page has tuples. With the current page exhausted and the counter below the bound, it fetches pages from the counter on, past the bound if need be, up to the first page holding a tuple, and answers true positioned there. When no page from the counter on holds one, the fetch past the last page fails and it throws NullPointerException. So it answers true when tuples remain, throws when none remain and the bound is the pool's last page, and answers true from a page past the bound when the file has grown. |
| HeapScan.HeapFileIterator.SkipAsWritten | src/java/simpledb/storage/HeapFileIterator.java:59-68 | The skip loop as written: one request per page from the counter up to the first page with a tuple, then true at that page's start; NullPointerException when no such page exists. |
| HeapScan.FlattenFromFirst | src/java/simpledb/storage/HeapFileIterator.java:59-68 | The tuples of a page range are those of its first non-empty page followed by the pages after it, and none when the range has no non-empty page. |
| HeapScan.HasNextBoundCounterexample | src/java/simpledb/storage/HeapFileIterator.java:60 | On a table of two empty pages after open, hasNext as written throws, while the intended bound answers false. |
| HeapScan.GrownFileCounterexample | src/java/simpledb/storage/HeapFileIterator.java:60 | Two empty pages under a bound of 2 and a later third page holding a tuple: after open, hasNext as written answers true from page 2, while the intended bound answers false. |
| HeapScan.HeapFileIterator.Next | src/java/simpledb/storage/HeapFileIterator.java:73-78 | Yields the first remaining tuple and drops it from the remaining ones. Throws NoSuchElement before open, after close, and when the current page is exhausted. |
| HeapScan.HeapFileIterator.Rewind | src/java/simpledb/storage/HeapFileIterator.java:81-83 | Behaves exactly like open: one request for page 0, then back at page 0 with every tuple of the file still to come; a NullPointerException when page 0 cannot be had. |
| HeapScan.HeapFileIterator.Close | src/java/simpledb/storage/HeapFileIterator.java:86-88 | Drops the cursor, so hasNext is false and next fails afterwards. |
| HeapScan.ScanAll | src/java/simpledb/storage/HeapFileIterator.java:45-77 | open, then alternating hasNext and next, yields the concatenation of the pages' tuples in page order. |
| HeapScan.Drain | src/java/simpledb/storage/HeapFileIterator.java:53-78 | On an open cursor, asking hasNext and taking next until hasNext is false yields exactly the tuples that remained, in order. |
| AggIterators.LeastIsLeast | src/java/simpledb/execution/AggIterator.java:42-54 | The MIN fold's value is a member of the list and no greater than any member. |
| AggIterators.GreatestIsGreatest | src/java/simpledb/execution/AggIterator.java:55-67 | The MAX fold's value is a member of the list and no smaller than any member. |
| AggIterators.JavaDivRemainder | src/java/simpledb/execution/AggIterator.java:95 | Java int division: the remainder has the dividend's sign and is smaller in size than the divisor (truncation toward zero). |
| AggIterators.AggregateMeaning | src/java/simpledb/execution/AggIterator.java:41-99 | What each fold means for the group: MIN a member no greater than any other; MAX a member no smaller than any other; SUM the total; COUNT the size; AVG the total divided by the size, truncated toward zero, and between MIN and MAX. |
| AggIterators.AvgBetweenMinAndMax | src/java/simpledb/execution/AggIterator.java:88-98 | The truncated average of a non-empty list lies between its least and greatest values. |
| AggIterators.EnumerateKeys | src/java/simpledb/execution/AggIterator.java:43 | The key set's iteration lists every key exactly once. |
| AggIterators.EnumerationSize | src/java/simpledb/execution/AggIterator.java:43 | Such an enumeration is exactly as long as the key set. |
| AggIterators.FoldKeys | src/java/simpledb/execution/AggIterator.java:41-100 | Folds the keys' groups in order, making one row per key. Stops at the first group the operator cannot fold (IndexOutOfBounds for MIN/MAX, ArithmeticException for AVG), keeping the rows made so far. |
| AggIterators.FoldGroups | src/java/simpledb/execution/AggIterator.java:41-100 | Succeeds iff every group can be folded. The keys used are then an enumeration of the map, with one row per key holding that key's aggregate. |
| AggIterators.RowsAt | src/java/simpledb/execution/AggIterator.java:105-114 | Result row i has the output schema. It holds (key i, aggregate of key i's group) under a two-field schema, and the aggregate alone under a one-field schema. |
| AggIterators.OneRowPerKey | src/java/simpledb/execution/AggIterator.java:41-100 | An open over an enumeration of the keys adds exactly as many rows as the map has keys. |
| AggIterators.AggIterator.constructor | src/java/simpledb/execution/AggIterator.java:22-37 | The output schema is (group type, INT) named after the group and aggregate fields when grouping, and a lone INT named after the aggregate field otherwise. Result empty, no cursor. |
| AggIterators.AggIterator.Fold | src/java/simpledb/execution/AggIterator.java:41-99 | One case of open's switch: succeeds iff the group can be folded, with the aggregate's value. The exception is IndexOutOfBounds for MIN/MAX and ArithmeticException for AVG. |
| AggIterators.AggIterator.MinOf | src/java/simpledb/execution/AggIterator.java:45-50 | The MIN loop computes the least value of the group. |
| AggIterators.AggIterator.MaxOf | src/java/simpledb/execution/AggIterator.java:58-63 | The MAX loop computes the greatest value of the group. |
| AggIterators.AggIterator.SumOf | src/java/simpledb/execution/AggIterator.java:71-74 | The SUM/AVG accumulation loop computes the total of the group. |
| AggIterators.AggIterator.Open | src/java/simpledb/execution/AggIterator.java:40-103 | Succeeds iff the operator has no case in the switch or every group can be folded. On success the result gains one row per key in key-set order, after any rows of an earlier open, and the cursor is at the start. On failure the exception is IndexOutOfBounds for MIN/MAX and ArithmeticException for AVG; the result has gained the rows of some keys whose groups could be folded, and the cursor is unchanged, which leaves it stale when rows were appended. |
| AggIterators.AggIterator.HasNext | src/java/simpledb/execution/AggIterator.java:117-119 | True iff the cursor has a row left. A NullPointerException when there is no cursor. |
| AggIterators.AggIterator.Next | src/java/simpledb/execution/AggIterator.java:122-124 | Returns the row under the cursor and advances the cursor. NoSuchElement past the end; NullPointerException with no cursor. A cursor made before a failing open appended rows is stale and throws ConcurrentModificationException, as ArrayList's fail-fast iterator does. |
| AggIterators.AggIterator.Rewind | src/java/simpledb/execution/AggIterator.java:127-129 | A fresh cursor at the start of the same result list, current with the list as it now is. |
| AggIterators.AggIterator.Close | src/java/simpledb/execution/AggIterator.java:137-139 | Drops the cursor and keeps the result. |
| AggIterators.ReadAll | src/java/simpledb/execution/AggIterator.java:116-129 | Rewinding and then alternating hasNext/next reads the whole result list, in order. |
| StringAggregators.GroupedIsFilter | src/java/simpledb/execution/StringAggregator.java:67-73 | After a sequence of merges the map holds a key iff some merged tuple is filed under it. That key's list is the aggregate values of exactly those tuples, in merge order. |
| StringAggregators.GroupedKeys | src/java/simpledb/execution/StringAggregator.java:67-73 | The map holds a key iff some merged tuple is filed under it. |
| StringAggregators.GroupedValues | src/java/simpledb/execution/StringAggregator.java:67-73 | A key's list is the aggregate values of the tuples filed under it, in merge order. A key the map lacks has no such values. |
| StringAggregators.GroupedSnoc | src/java/simpledb/execution/StringAggregator.java:67-73 | Merging one more tuple appends its value to its key's list, or starts a one-element list, and leaves every other group as it was. |
| StringAggregators.GroupSizeIsCount | src/java/simpledb/execution/StringAggregator.java:67-73 | A group's list is as long as the number of tuples filed under its key. |
| StringAggregators.NoGroupingSingleKey | src/java/simpledb/execution/StringAggregator.java:52-65 | Without grouping every merged tuple lands in the single group keyed by null, which holds one value per tuple. |
| StringAggregators.CountMatchesMerges | src/java/simpledb/execution/StringAggregator.java:84-86 | The COUNT the iterator produces for a key is the number of tuples merged under it, which is positive. |
| StringAggregators.StringAggregator.Create | src/java/simpledb/execution/StringAggregator.java:36-45 | IllegalArgumentException iff the operator is not COUNT. Otherwise a COUNT aggregator with the given fields and group type, an empty map and both field names still null. |
| StringAggregators.StringAggregator.constructor | src/java/simpledb/execution/StringAggregator.java:40-44 | Stores the configuration. Starts with an empty map and unset field names. |
| StringAggregators.StringAggregator.CaptureNames | src/java/simpledb/execution/StringAggregator.java:55-64 | Each field name is looked up only while it is still null, so the first name captured sticks; the group-by name only when grouping. A failing lookup ends the merge. The map is untouched. |
| StringAggregators.StringAggregator.MergeTupleIntoGroup | src/java/simpledb/execution/StringAggregator.java:51-74 | Appends the tuple's aggregate value to its key's list, or starts a one-element list; every other group is unchanged. The map stays the grouping of all merged tuples. Field names are captured from the first tuple and never overwritten. A failing name lookup leaves the map as it was. |
| StringAggregators.StringAggregator.Iterator | src/java/simpledb/execution/StringAggregator.java:84-86 | A fresh AggIterator over the current map and COUNT, with the schema built from the captured names. |
| Inserts.Insert.constructor | src/java/simpledb/execution/Insert.java:52-56 | Stores transaction, child and table. The output schema is one unnamed INT field. |
| Inserts.Insert.Create | src/java/simpledb/execution/Insert.java:43-57 | DbException iff the child's schema differs from the target table's, names included. Otherwise an operator with a one-INT schema. |
| Inserts.Insert.Open | src/java/simpledb/execution/Insert.java:63-66 | Opens the child, which starts it at its first tuple, then marks the operator open. |
| Inserts.Insert.Close | src/java/simpledb/execution/Insert.java:68-71 | Closes the child, then the operator. |
| Inserts.Insert.Rewind | src/java/simpledb/execution/Insert.java:73-75 | Rewinds the child and nothing else. |
| Inserts.CallsAt | src/java/simpledb/execution/Insert.java:92-100 | The calls a drain makes are one per tuple drawn, the i-th inserting the i-th tuple with the operator's transaction and table. |
| Inserts.Insert.InsertOne | src/java/simpledb/execution/Insert.java:93-99 | One turn of the drain loop: the child advances by one and the pool receives exactly one insert of that tuple. An IOException from the pool is swallowed; any other exception escapes. |
| Inserts.Insert.FetchNextAsWritten | src/java/simpledb/execution/Insert.java:90-104 | Drains the child. The pool receives one insert per tuple drawn, in child order, with the operator's transaction and table. When no insert throws anything but IOException it answers with the number of tuples the child had left, counting those whose insert threw IOException, and leaves the child exhausted. Otherwise it stops at the first insert that threw DbException or TransactionAbortedException and fails with that exception. |
| Inserts.Insert.FetchNext | src/java/simpledb/execution/Insert.java:84-104 | As documented: the first call drains as above and answers with the count; every later call answers null and inserts nothing. A call that fails answers nothing, so the next call drains again. |
| Inserts.FetchTwice | src/java/simpledb/execution/Insert.java:84-85 | On a one-tuple child, a second fetchNext as written answers a count of 0 where the documented one answers null. |
| Inserts.AbortEndsDrain | src/java/simpledb/execution/Insert.java:94-98 | A TransactionAbortedException on the first of two inserts escapes the drain, which answers no count. |
| Inserts.IOExceptionCounted | src/java/simpledb/execution/Insert.java:94-99 | An IOException on the first of two inserts is swallowed and both tuples are counted. |

## Left out

- **Buffer pool and locking.** BufferPool.java, the lock manager and
  transactions are not part of this model.
  - The pool is the sequence of pages its page numbers resolve to, plus a
    log of `getPage` requests. Locking, eviction and dirty tracking are not
    modelled.
  - A request the pool cannot serve is `Err(PageUnavailable)`. In the scan
    it appears as the null page the iterator then dereferences. Which
    exception the real pool throws there is outside this model.
- **Pages.** HeapPage.java and its byte layout (header bitmap, slot
  encoding) are not part of this model.
  - A page is its id, its slot capacity and its tuples in iterator order.
    `getPageData` is the heap file's `pageData` parameter.
  - A fresh page's slot count is the `slotsPerPage` parameter.
  - The page's check that the tuple's schema matches, and its setting of
    the inserted tuple's RecordId, are not modelled.
  - A page deletes the first equal tuple rather than the slot the RecordId
    names.
  - A page appends an inserted tuple after its others. The real page puts
    it in the lowest free slot, reusing a slot a delete emptied, so the
    model does not capture that slot reuse, the tuple number the RecordId
    then gets, or where the tuple appears in a later scan.
- **File I/O.**
  - The file is its byte image `bytes`. `numPages` reads it instead of
    `File.length()`; the two agree because the image is refreshed after
    every write.
  - An I/O error swallowed by `printStackTrace` is not modelled.
  - `getId` (a hash of the absolute path) is the opaque `tableId`.
  - `getFile` and `getTupleDesc` are plain accessors.
- **HeapFiles.HeapFile.WritePage**: requires the serialised page to be
  exactly one page long, which `getPageData` always produces. A shorter or
  longer write is not modelled.
- **HeapFiles.HeapFile.InsertTuple**: requires the same of the new page's
  serialisation and that the pool resolves exactly the file's pages. It
  does not model a pool whose pages and file disagree.
- **HeapScan.HeapFileIterator.HasNext**: requires the pool to resolve every
  page below the iterator's bound. Heap files only grow, so this holds for
  an iterator made by `HeapFile.iterator`.
- **HeapFiles.HeapFile.DeleteTuple**: the pool serves one table, so a
  RecordId naming a page of another table gets `Err(PageUnavailable)`. The
  Java code fetches that page from the shared pool and deletes the tuple
  there; that cross-table delete is not modelled.
- **Catalog.** The catalog lookup of the target schema in the Insert
  constructor is the `targetTd` parameter. Its NoSuchElementException for
  an unknown table is not modelled.
- **Operator.** Operator.java is not part of this model. Its `open` flag is
  the `isOpen` field, and its `next`/`hasNext` caching of `fetchNext` is not
  modelled.
  - The child operator is a cursor over a fixed tuple list.
  - `getChildren`/`setChildren` are not modelled.
  - The corrected `FetchNext` keeps its "already answered" flag across
    `rewind`, as the code gives it no reset point.
- **Field and tuple details.**
  - `Field.compare` is the order of ints.
  - `Type.getLen` is the `len` parameter of `GetSize`.
  - `TupleDesc.toString`, `TupleDesc.hashCode`, `iterator()`,
    `getTupleDesc()` and serialisation are not modelled.
- **AggIterators.AggIterator.Open**: requires every group of MIN, MAX, SUM
  and AVG to hold only IntFields.
  - A MIN or MAX group of StringFields is compared by `StringField.compare`
    and yields its lexicographic least or greatest string. Such groups are
    not modelled.
  - The ClassCastException of SUM and AVG on a string value, and the
    NullPointerException of a null value, are not modelled.
- **AggIterators.AggIterator.SumOf**: computes with unbounded integers. The
  32-bit wrap-around of Java's `int` in SUM and AVG is not modelled.
- **Key-set order.** The HashMap's key-set order is not fixed: open's
  key order is some enumeration of the keys (`Enumerates`), not a
  particular hash order.
- **StringAggregators.StringAggregator.Iterator**: hands over the map as a
  value. The Java iterator shares the same HashMap object, so a later merge
  would be visible to it; that aliasing is not modelled.
- **StringAggregators.StringAggregator.MergeTupleIntoGroup**:
  - Requires the tuple to have the aggregate and group-by fields.
    `Tuple.getField` on a missing index is not modelled.
  - Uses the documented `getFieldName`. At an index equal to the field
    count, only the exception kind differs from the code as written.
- **Creation with a null group type.** `gbfieldtype` is always a type here;
  a null group type is not modelled.

## Findings

| source | as written | input that shows it | evidently intended | confidence | as-written member | corrected member |
|---|---|---|---|---|---|---|
| src/java/simpledb/storage/TupleDesc.java:129 | `getFieldName` guards with `i > numFields()`, so `i == numFields()` reaches `List.get` and throws IndexOutOfBoundsException | a one-field schema, index 1 | NoSuchElementException for every index outside 0 .. numFields - 1, as the doc-comment says | not executed | Schema.TupleDesc.GetFieldNameAsWritten, Schema.FieldBoundCounterexample | Schema.TupleDesc.GetFieldName |
| src/java/simpledb/storage/TupleDesc.java:144 | `getFieldType` has the same `i > numFields()` guard | a one-field schema, index 1 | NoSuchElementException for every invalid index | not executed | Schema.TupleDesc.GetFieldTypeAsWritten, Schema.FieldBoundCounterexample | Schema.TupleDesc.GetFieldType |
| src/java/simpledb/storage/HeapFileIterator.java:60 | the page-skipping loop tests `i`, which never changes, instead of `currentPageNumber`, so it runs past the bound: past the last page when no later page has a tuple, and onto pages added after the iterator was made | a table of two empty pages, after `open`, then `hasNext`; or two empty pages under a bound of 2 with a third page, added later, holding a tuple | stop at `currentPageNumber < pageNumber` and answer false | not executed | HeapScan.HeapFileIterator.HasNextAsWritten, HeapScan.HasNextBoundCounterexample, HeapScan.GrownFileCounterexample | HeapScan.HeapFileIterator.HasNext |
| src/java/simpledb/execution/Insert.java:90-104 | `fetchNext` always answers a count tuple, 0 once the child is drained | a one-tuple child, `fetchNext` called twice | the count on the first call, null on later calls, as its documentation says | not executed | Inserts.Insert.FetchNextAsWritten, Inserts.FetchTwice | Inserts.Insert.FetchNext |

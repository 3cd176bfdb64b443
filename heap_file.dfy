/** simpledb.storage.HeapFile: a table stored as a sequence of fixed-size
    pages in one file. The file is its byte image; page n occupies the bytes
    [n * pageSize, (n + 1) * pageSize). */
module HeapFiles {
  import opened Wrappers
  import opened Schema
  import opened Addressing
  import opened Tuples
  import opened Pages
  import opened HeapScan

  type PosInt = x: int | x > 0 witness 1

  /** Multiplying by a positive page size keeps the order of page numbers. */
  lemma MulMono(a: nat, b: nat, size: PosInt)
    requires a <= b
    ensures a * size <= b * size
  {
  }

  lemma MulSucc(n: nat, size: PosInt)
    ensures (n + 1) * size == n * size + size
  {
  }

  /** Floor division by the page size: page n lies wholly inside an image
      exactly when n is below the page count. */
  lemma {:induction false} PageFits(len: nat, size: PosInt, n: nat)
    ensures n < len / size <==> (n + 1) * size <= len
  {
    var q := len / size;
    assert len == q * size + len % size;
    if n < q {
      MulMono(n + 1, q, size);
    } else {
      MulMono(q + 1, n + 1, size);
      assert (q + 1) * size == q * size + size;
    }
  }

  /** numPages on an image: its length divided by the page size, rounded
      down, i.e. the number of whole pages it holds. */
  function NumPagesOf(image: seq<bv8>, size: PosInt): (n: nat)
    ensures n * size <= |image| < (n + 1) * size
  {
    var n := |image| / size;
    assert |image| == n * size + |image| % size;
    assert (n + 1) * size == n * size + size;
    n
  }

  /** The bytes readPage copies for page n: the `size` bytes starting at
      offset n * size, or IndexOutOfBoundsException from the array copy when
      the page does not lie wholly inside the image. */
  function PageSlice(image: seq<bv8>, size: PosInt, n: nat): (r: Result<seq<bv8>>)
    ensures r.Ok? <==> n < NumPagesOf(image, size)
    ensures r.Ok? ==> n * size + size <= |image| && |r.value| == size
    ensures r.Ok? ==> forall j :: 0 <= j < size ==> r.value[j] == image[n * size + j]
    ensures r.Err? ==> r.error == IndexOutOfBounds
  {
    PageFits(|image|, size, n);
    MulSucc(n, size);
    var off := n * size;
    if off + size <= |image| then
      var page := image[off .. off + size];
      assert forall j :: 0 <= j < size ==> page[j] == image[off + j];
      Ok(page)
    else Err(IndexOutOfBounds)
  }

  function Zeros(k: nat): (z: seq<bv8>)
    ensures |z| == k && forall j :: 0 <= j < k ==> z[j] == 0
  {
    if k == 0 then [] else Zeros(k - 1) + [0]
  }

  /** The image after a seek to `off` and a write of `data`: the data
      overwrites the bytes it covers, the file grows to hold it, a gap
      between the old end and `off` reads as zeros, and every other byte is
      kept. */
  function WriteAt(image: seq<bv8>, off: nat, data: seq<bv8>): (r: seq<bv8>)
    ensures |r| == if off + |data| <= |image| then |image| else off + |data|
    ensures forall j :: 0 <= j < |data| ==> r[off + j] == data[j]
    ensures forall j :: 0 <= j < |image| && (j < off || off + |data| <= j) ==> r[j] == image[j]
    ensures forall j :: |image| <= j < off ==> r[j] == 0
  {
    if off <= |image| then
      image[..off] + data + (if off + |data| <= |image| then image[off + |data|..] else [])
    else
      image + Zeros(off - |image|) + data
  }

  /** A write at page n's offset leaves the file n + 1 pages long when it
      lands at or past the end, and as long as before otherwise. */
  lemma PagesAfterWrite(image: seq<bv8>, size: PosInt, n: nat, data: seq<bv8>)
    requires |data| == size
    ensures NumPagesOf(WriteAt(image, n * size, data), size) ==
      if n < NumPagesOf(image, size) then NumPagesOf(image, size) else n + 1
  {
    var image' := WriteAt(image, n * size, data);
    PageFits(|image|, size, n);
    MulSucc(n, size);
    if n >= NumPagesOf(image, size) {
      PageFits(|image'|, size, n);
      PageFits(|image'|, size, n + 1);
      MulSucc(n + 1, size);
    }
  }

  /** The page just written reads back as the written bytes. */
  lemma ReadBackWritten(image: seq<bv8>, size: PosInt, n: nat, data: seq<bv8>)
    requires |data| == size
    ensures PageSlice(WriteAt(image, n * size, data), size, n) == Ok(data)
  {
    var image' := WriteAt(image, n * size, data);
    MulSucc(n, size);
    PageFits(|image'|, size, n);
    var r := PageSlice(image', size, n);
    assert r.value == data;
  }

  /** Two different pages occupy disjoint byte ranges. */
  lemma PagesApart(m: nat, n: nat, size: PosInt)
    requires m != n
    ensures m * size + size <= n * size || n * size + size <= m * size
  {
    MulSucc(m, size);
    MulSucc(n, size);
    if m < n {
      MulMono(m + 1, n, size);
    } else {
      MulMono(n + 1, m, size);
    }
  }

  /** A write leaves every byte range of the old image it does not cover as
      it was. */
  lemma KeptRange(image: seq<bv8>, off: nat, data: seq<bv8>, lo: nat, hi: nat)
    requires lo <= hi <= |image| && (hi <= off || off + |data| <= lo)
    ensures WriteAt(image, off, data)[lo..hi] == image[lo..hi]
  {
    var image' := WriteAt(image, off, data);
    forall j | lo <= j < hi
      ensures image'[j] == image[j]
    {
    }
  }

  /** Another page that existed before the write reads as it did. */
  lemma ReadOtherKept(image: seq<bv8>, size: PosInt, n: nat, data: seq<bv8>, m: nat)
    requires |data| == size && m != n && m < NumPagesOf(image, size)
    ensures PageSlice(WriteAt(image, n * size, data), size, m) == PageSlice(image, size, m)
  {
    var image' := WriteAt(image, n * size, data);
    PageFits(|image|, size, m);
    PageFits(|image'|, size, m);
    MulSucc(m, size);
    PagesApart(m, n, size);
    KeptRange(image, n * size, data, m * size, m * size + size);
  }

  /** writePage followed by readPage: the written page reads back as the
      written bytes, every other page that existed reads as before, and the
      page count grows only when the write lands at or past the end. */
  lemma ReadAfterWrite(image: seq<bv8>, size: PosInt, n: nat, data: seq<bv8>)
    requires |data| == size
    ensures PageSlice(WriteAt(image, n * size, data), size, n) == Ok(data)
    ensures forall m: nat :: m != n && m < NumPagesOf(image, size) ==>
      PageSlice(WriteAt(image, n * size, data), size, m) == PageSlice(image, size, m)
    ensures NumPagesOf(WriteAt(image, n * size, data), size) ==
      if n < NumPagesOf(image, size) then NumPagesOf(image, size) else n + 1
  {
    ReadBackWritten(image, size, n, data);
    forall m: nat | m != n && m < NumPagesOf(image, size)
      ensures PageSlice(WriteAt(image, n * size, data), size, m) == PageSlice(image, size, m)
    {
      ReadOtherKept(image, size, n, data, m);
    }
    PagesAfterWrite(image, size, n, data);
  }

  /** The first page, from `from` on, with a free slot: the page insertTuple
      settles on. */
  function FirstWithRoom(pages: seq<HeapPage>, from: nat): (k: Option<nat>)
    decreases |pages| - from
    ensures k.Some? ==> from <= k.value < |pages| && pages[k.value].NumEmptySlots() > 0
    ensures k.Some? ==> forall j :: from <= j < k.value ==> pages[j].NumEmptySlots() == 0
    ensures k.None? ==> forall j :: from <= j < |pages| ==> pages[j].NumEmptySlots() == 0
  {
    if from >= |pages| then None
    else if pages[from].NumEmptySlots() > 0 then Some(from)
    else FirstWithRoom(pages, from + 1)
  }

  class HeapFile {
    const tableId: int                      // getId(), an opaque table identifier
    const td: TupleDesc
    const pageSize: PosInt                  // BufferPool.getPageSize()
    const slotsPerPage: nat                 // the slot count of a fresh page
    const pageData: HeapPage -> seq<bv8>    // HeapPage.getPageData
    const pool: BufferPool
    var bytes: seq<bv8>                     // the file's contents

    /** The pool serves this table, resolves exactly the file's page
        numbers, and page k carries page id k. */
    ghost predicate Valid()
      reads this, pool
    {
      && pool.tableId == tableId
      && |pool.pages| == NumPages()
      && (forall k :: 0 <= k < |pool.pages| ==> pool.pages[k].pid == PageId(tableId, k) && pool.pages[k].Valid())
    }

    constructor (tableId: int, td: TupleDesc, pageSize: PosInt, slotsPerPage: nat,
                 pageData: HeapPage -> seq<bv8>, pool: BufferPool, bytes: seq<bv8>)
      ensures this.tableId == tableId && this.td == td && this.pageSize == pageSize
      ensures this.slotsPerPage == slotsPerPage && this.pageData == pageData
      ensures this.pool == pool && this.bytes == bytes
    {
      this.tableId := tableId;
      this.td := td;
      this.pageSize := pageSize;
      this.slotsPerPage := slotsPerPage;
      this.pageData := pageData;
      this.pool := pool;
      this.bytes := bytes;
    }

    /** numPages: the file length divided by the page size. */
    function NumPages(): (n: nat)
      reads this
      ensures n * pageSize <= |bytes| < (n + 1) * pageSize
    {
      NumPagesOf(bytes, pageSize)
    }

    /** readPage: the bytes page `pid` is built from. The table part of the
        id is not consulted. */
    function ReadPage(pid: PageId): (r: Result<seq<bv8>>)
      reads this
      ensures r.Ok? <==> pid.pageNumber < NumPages()
      ensures r.Ok? ==> pid.pageNumber * pageSize + pageSize <= |bytes| && |r.value| == pageSize
      ensures r.Ok? ==> forall j :: 0 <= j < pageSize ==> r.value[j] == bytes[pid.pageNumber * pageSize + j]
      ensures r.Err? ==> r.error == IndexOutOfBounds
    {
      PageSlice(bytes, pageSize, pid.pageNumber)
    }

    /** writePage: the page's bytes land at offset pageNumber * pageSize and
        the image is refreshed; reading that page afterwards yields them, and
        every other existing page reads as before. */
    method WritePage(page: HeapPage)
      requires |pageData(page)| == pageSize
      modifies this
      ensures bytes == WriteAt(old(bytes), page.pid.pageNumber * pageSize, pageData(page))
      ensures ReadPage(page.pid) == Ok(pageData(page))
      ensures forall pid: PageId :: pid.pageNumber != page.pid.pageNumber && pid.pageNumber < old(NumPages()) ==>
        ReadPage(pid) == old(ReadPage(pid))
      ensures NumPages() == if page.pid.pageNumber < old(NumPages()) then old(NumPages()) else page.pid.pageNumber + 1
    {
      ReadAfterWrite(bytes, pageSize, page.pid.pageNumber, pageData(page));
      bytes := WriteAt(bytes, page.pid.pageNumber * pageSize, pageData(page));
    }

    /** insertTuple's search: fetches pages 0, 1, ... READ_WRITE until one
        has a free slot, and reports that page or that none has room. */
    method Probe(tid: TransactionId) returns (k: Option<nat>, page: HeapPage)
      requires Valid()
      modifies pool
      ensures Valid() && pool.pages == old(pool.pages)
      ensures k == FirstWithRoom(pool.pages, 0)
      ensures k.Some? ==> page == pool.pages[k.value]
      ensures pool.accesses == old(pool.accesses) + Fetches(tid, tableId, ReadWrite, 0, if k.Some? then k.value + 1 else NumPages())
    {
      var n := NumPages();
      var i := 0;
      page := HeapPage(PageId(tableId, 0), 0, []);
      while i < n
        invariant 0 <= i <= n
        invariant Valid() && pool.pages == old(pool.pages)
        invariant pool.accesses == old(pool.accesses) + Fetches(tid, tableId, ReadWrite, 0, i)
        invariant FirstWithRoom(pool.pages, 0) == FirstWithRoom(pool.pages, i)
      {
        var p := pool.GetPage(tid, PageId(tableId, i), ReadWrite);
        assert pool.accesses == old(pool.accesses) + Fetches(tid, tableId, ReadWrite, 0, i + 1);
        if p.value.NumEmptySlots() > 0 {
          return Some(i), p.value;
        }
        i := i + 1;
      }
      return None, page;
    }

    /** insertTuple: visits pages 0, 1, ... in order and inserts into the
        first one with a free slot, changing no other page and not the file;
        when no page has room, a fresh page numbered numPages() receives the
        tuple and is written at the end of the file, which then holds one
        page more. The result lists the one page that changed. A serialised
        page is one page long, as getPageData's always is. */
    method InsertTuple(tid: TransactionId, t: Tuple) returns (r: Result<seq<HeapPage>>)
      requires Valid()
      requires |pageData(HeapPage(PageId(tableId, NumPages()), slotsPerPage, [t]))| == pageSize
      modifies this, pool
      ensures Valid()
      ensures match FirstWithRoom(old(pool.pages), 0)
        case Some(k) =>
          && pool.accesses == old(pool.accesses) + Fetches(tid, tableId, ReadWrite, 0, k + 1)
          && pool.pages == old(pool.pages)[k := old(pool.pages)[k].(tuples := old(pool.pages)[k].tuples + [t])]
          && r == Ok([pool.pages[k]])
          && bytes == old(bytes)
        case None =>
          && pool.accesses == old(pool.accesses) + Fetches(tid, tableId, ReadWrite, 0, old(NumPages()))
          && (slotsPerPage == 0 ==> r == Err(Db) && pool.pages == old(pool.pages) && bytes == old(bytes))
          && (slotsPerPage > 0 ==>
                var added := HeapPage(PageId(tableId, old(NumPages())), slotsPerPage, [t]);
                && r == Ok([added])
                && pool.pages == old(pool.pages) + [added]
                && bytes == WriteAt(old(bytes), old(NumPages()) * pageSize, pageData(added))
                && NumPages() == old(NumPages()) + 1)
    {
      var n := NumPages();
      var k, page := Probe(tid);
      if k.Some? {
        var stored := page.InsertTuple(t);
        pool.Update(k.value, stored.value);
        return Ok([stored.value]);
      }
      var newPage := HeapPage(PageId(tableId, n), slotsPerPage, []);
      var stored := newPage.InsertTuple(t);
      if stored.Err? {
        return Err(stored.error);
      }
      assert stored.value == HeapPage(PageId(tableId, n), slotsPerPage, [t]);
      WritePage(stored.value);
      pool.Admit(stored.value);
      return Ok([stored.value]);
    }

    /** deleteTuple: fetches the page the tuple's RecordId names, READ_WRITE,
        removes the tuple from it and returns that page alone. A tuple with
        no RecordId fails with a NullPointerException; a page the pool cannot
        produce, or a page that does not hold the tuple, fails as those calls
        do. The file image is not touched. */
    method DeleteTuple(tid: TransactionId, t: Tuple) returns (r: Result<seq<HeapPage>>)
      requires Valid()
      modifies pool
      ensures Valid() && bytes == old(bytes)
      ensures t.rid == null ==> r == Err(NullPointer) && pool.accesses == old(pool.accesses) && pool.pages == old(pool.pages)
      ensures t.rid != null ==> pool.accesses == old(pool.accesses) + [Access(tid, t.rid.pid, ReadWrite)]
      ensures t.rid != null && old(pool.Lookup(t.rid.pid)).Err? ==>
        r == Err(PageUnavailable) && pool.pages == old(pool.pages)
      ensures t.rid != null && old(pool.Lookup(t.rid.pid)).Ok? ==>
        var page := old(pool.Lookup(t.rid.pid)).value;
        match page.DeleteTuple(t)
        case Err(e) => r == Err(Db) && pool.pages == old(pool.pages)
        case Ok(p) => r == Ok([p]) && pool.pages == old(pool.pages)[t.rid.pid.pageNumber := p]
    {
      if t.rid == null {
        return Err(NullPointer);
      }
      var pid := t.rid.pid;
      var page := pool.GetPage(tid, pid, ReadWrite);
      if page.Err? {
        return Err(page.error);
      }
      var removed := page.value.DeleteTuple(t);
      if removed.Err? {
        return Err(removed.error);
      }
      pool.Update(pid.pageNumber, removed.value);
      return Ok([removed.value]);
    }

    /** iterator: a closed READ_ONLY scan of this table, bound to the page
        count at the moment it is created. */
    method Iterator(tid: TransactionId) returns (it: HeapFileIterator)
      requires Valid()
      ensures fresh(it) && it.Valid()
      ensures it.tableId == tableId && it.tid == tid && it.perm == ReadOnly && it.pool == pool
      ensures it.pageNumber == NumPages()
      ensures it.cursor == None && it.currentPageNumber == 0
    {
      it := new HeapFileIterator(tableId, tid, ReadOnly, NumPages(), pool);
    }
  }
}

/** simpledb.storage.HeapFileIterator: a cursor over every tuple of a heap
    file, page after page, fetched through the buffer pool. */
module HeapScan {
  import opened Wrappers
  import opened Addressing
  import opened Tuples
  import opened Pages
  import Schema

  /** A page's tuple cursor: the page's tuples and the position of the
      next one. */
  datatype Cursor = Cursor(tuples: seq<Tuple>, pos: nat) {
    predicate HasNext() {
      pos < |tuples|
    }

    function Rest(): seq<Tuple> {
      if pos <= |tuples| then tuples[pos..] else []
    }
  }

  /** The tuples of pages `from` .. `to - 1`, page after page. */
  function Flatten(pages: seq<HeapPage>, from: nat, to: nat): seq<Tuple>
    requires to <= |pages|
    decreases (to as int) - (from as int)
  {
    if from >= to then [] else pages[from].tuples + Flatten(pages, from + 1, to)
  }

  /** A scan over a range splits at any page boundary inside it. */
  lemma {:induction false} FlattenSplit(pages: seq<HeapPage>, a: nat, b: nat, c: nat)
    requires a <= b <= c <= |pages|
    ensures Flatten(pages, a, c) == Flatten(pages, a, b) + Flatten(pages, b, c)
    decreases b - a
  {
    if a < b {
      FlattenSplit(pages, a + 1, b, c);
    }
  }

  /** Every tuple of every page in range shows up in the scan, and the scan
      is exactly as long as the pages' tuple counts added up. */
  lemma {:induction false} FlattenHolds(pages: seq<HeapPage>, from: nat, to: nat, k: nat)
    requires from <= k < to <= |pages|
    ensures |Flatten(pages, from, to)| >= |pages[k].tuples|
    ensures (forall t :: t in pages[k].tuples ==> t in Flatten(pages, from, to))
    decreases k - from
  {
    if from < k {
      FlattenHolds(pages, from + 1, to, k);
    }
  }

  /** The getPage requests for pages `lo` .. `hi - 1` of one table, in
      page order, all with one transaction and permission. */
  function Fetches(tid: TransactionId, tableId: int, perm: Permission, lo: nat, hi: nat): (log: seq<Access>)
    requires lo <= hi
    decreases hi
    ensures |log| == hi - lo
    ensures forall j :: 0 <= j < hi - lo ==> log[j] == Access(tid, PageId(tableId, lo + j), perm)
  {
    if hi == lo then [] else Fetches(tid, tableId, perm, lo, hi - 1) + [Access(tid, PageId(tableId, hi - 1), perm)]
  }

  /** The first page at or after `from` that holds a tuple, or `|pages|`
      when none does. */
  function FirstNonEmpty(pages: seq<HeapPage>, from: nat): (k: nat)
    requires from <= |pages|
    decreases |pages| - from
    ensures from <= k <= |pages|
    ensures forall j :: from <= j < k ==> pages[j].tuples == []
    ensures k < |pages| ==> pages[k].tuples != []
  {
    if from == |pages| then from
    else if pages[from].tuples != [] then from
    else FirstNonEmpty(pages, from + 1)
  }

  /** A scan over a range starts at the range's first page with a tuple:
      it is empty when there is none in range, and that page's tuples
      followed by the pages after it otherwise. */
  lemma {:induction false} FlattenFromFirst(pages: seq<HeapPage>, from: nat, to: nat)
    requires from <= to <= |pages|
    ensures FirstNonEmpty(pages, from) >= to ==> Flatten(pages, from, to) == []
    ensures FirstNonEmpty(pages, from) < to ==>
      Flatten(pages, from, to) == pages[FirstNonEmpty(pages, from)].tuples + Flatten(pages, FirstNonEmpty(pages, from) + 1, to)
    decreases (to as int) - (from as int)
  {
    if from < to {
      if pages[from].tuples == [] {
        FlattenFromFirst(pages, from + 1, to);
        assert FirstNonEmpty(pages, from) == FirstNonEmpty(pages, from + 1);
        assert Flatten(pages, from, to) == [] + Flatten(pages, from + 1, to);
      } else {
        assert FirstNonEmpty(pages, from) == from;
      }
    }
  }

  class HeapFileIterator {
    const tableId: int
    const tid: TransactionId
    const perm: Permission
    const pageNumber: nat
    const pool: BufferPool
    var currentPageNumber: nat
    var page: Option<HeapPage>
    var cursor: Option<Cursor>  // the `iterator` field; None is null

    /** The pool resolves every page the iterator was created for. Heap
        files only grow, so this holds for the iterator's whole life. */
    ghost predicate Valid()
      reads this, pool
    {
      pool.tableId == tableId && pageNumber <= |pool.pages|
    }

    /** The tuples `hasNext`/`next` have still to yield: the rest of the
        current page and every later page up to the bound. */
    ghost function Remaining(): seq<Tuple>
      reads this, pool
      requires Valid()
    {
      (if cursor.Some? then cursor.value.Rest() else []) + Flatten(pool.pages, currentPageNumber, pageNumber)
    }

    constructor (tableId: int, tid: TransactionId, perm: Permission, pageNumber: nat, pool: BufferPool)
      ensures this.tableId == tableId && this.tid == tid && this.perm == perm
      ensures this.pageNumber == pageNumber && this.pool == pool
      ensures currentPageNumber == 0 && page == None && cursor == None
    {
      this.tableId := tableId;
      this.tid := tid;
      this.perm := perm;
      this.pageNumber := pageNumber;
      this.pool := pool;
      currentPageNumber := 0;
      page := None;
      cursor := None;
    }

    /** open: positions on page 0's tuples and leaves the page counter at 1.
        When the pool cannot produce page 0 the page handle is null and the
        dereference that follows fails. */
    method Open() returns (r: Result<()>)
      requires Valid()
      modifies this, pool
      ensures Valid() && pool.pages == old(pool.pages)
      ensures pool.accesses == old(pool.accesses) + [Access(tid, PageId(tableId, 0), perm)]
      ensures r.Ok? <==> 0 < |pool.pages|
      ensures r.Ok? ==> currentPageNumber == 1 && page == Some(pool.pages[0])
      ensures r.Ok? ==> cursor == Some(Cursor(pool.pages[0].tuples, 0))
      ensures r.Ok? && 1 <= pageNumber ==> Remaining() == Flatten(pool.pages, 0, pageNumber)
      ensures r.Err? ==> r.error == NullPointer && currentPageNumber == 0 && page == None
      ensures r.Err? ==> cursor == old(cursor)
    {
      currentPageNumber := 0;
      var p := pool.GetPage(tid, PageId(tableId, currentPageNumber), perm);
      if p.Err? {
        page := None;
        return Err(NullPointer);
      }
      page := Some(p.value);
      cursor := Some(Cursor(p.value.tuples, 0));
      currentPageNumber := currentPageNumber + 1;
      return Ok(());
    }

    /** hasNext with the loop bound the code evidently intends
        (`currentPageNumber < pageNumber`): true while tuples remain, moving
        past exhausted and empty pages; false before open and after close. */
    method HasNext() returns (r: bool)
      requires Valid()
      modifies this, pool
      ensures Valid() && pool.pages == old(pool.pages)
      ensures old(cursor).None? ==> !r && cursor == None && currentPageNumber == old(currentPageNumber)
      ensures old(cursor).Some? ==> r == (old(Remaining()) != []) && cursor.Some? && Remaining() == old(Remaining())
      ensures r ==> cursor.Some? && cursor.value.HasNext()
      ensures old(cursor).Some? && old(cursor.value.HasNext()) ==>
        cursor == old(cursor) && currentPageNumber == old(currentPageNumber)
      ensures old(currentPageNumber) <= currentPageNumber
      ensures pool.accesses == old(pool.accesses) + Fetches(tid, tableId, perm, old(currentPageNumber), currentPageNumber)
      ensures old(cursor).Some? && !r ==>
        currentPageNumber == if old(currentPageNumber) < pageNumber then pageNumber else old(currentPageNumber)
      ensures old(cursor).Some? && !old(cursor.value.HasNext()) && r ==>
        && old(currentPageNumber) < currentPageNumber <= pageNumber
        && page == Some(pool.pages[currentPageNumber - 1])
        && cursor == Some(Cursor(pool.pages[currentPageNumber - 1].tuples, 0))
    {
      if cursor.None? {
        return false;
      }
      if cursor.value.HasNext() {
        return true;
      }
      while currentPageNumber < pageNumber
        invariant Valid() && pool.pages == old(pool.pages)
        invariant cursor == old(cursor) && !cursor.value.HasNext()
        invariant Remaining() == old(Remaining())
        invariant old(currentPageNumber) <= currentPageNumber
        invariant currentPageNumber <= pageNumber || currentPageNumber == old(currentPageNumber)
        invariant pool.accesses == old(pool.accesses) + Fetches(tid, tableId, perm, old(currentPageNumber), currentPageNumber)
        decreases pageNumber - currentPageNumber
      {
        var p := pool.GetPage(tid, PageId(tableId, currentPageNumber), perm);
        page := Some(p.value);
        if |p.value.tuples| > 0 {
          cursor := Some(Cursor(p.value.tuples, 0));
          currentPageNumber := currentPageNumber + 1;
          return true;
        }
        currentPageNumber := currentPageNumber + 1;
      }
      return false;
    }

    /** Where the skip loop as written leaves the iterator when it starts at
        page `start` with the pool's request log at `log0`. Let k be the
        first page from `start` on that holds a tuple: pages start .. k
        have been requested in order, the answer is true and the cursor is
        at the start of page k, with the counter just past it. When no such
        page exists, the request for the page past the last one fails and
        the answer is a NullPointerException. */
    ghost predicate SkippedAsWritten(start: nat, log0: seq<Access>, r: Result<bool>)
      reads this, pool
      requires start <= |pool.pages|
    {
      var k := FirstNonEmpty(pool.pages, start);
      && pool.accesses == log0 + Fetches(tid, tableId, perm, start, k + 1)
      && (k < |pool.pages| ==>
            && r == Ok(true) && currentPageNumber == k + 1 && page == Some(pool.pages[k])
            && cursor == Some(Cursor(pool.pages[k].tuples, 0)))
      && (k == |pool.pages| ==> r == Err(NullPointer))
    }

    /** hasNext as written: the skip loop tests `i`, which it never updates,
        so once the current page is exhausted and no later page has a tuple,
        the loop walks past the last page; the page fetch there fails, the
        page handle is null and its dereference throws instead of returning
        `false`. On a file that has grown since the iterator was made, it
        reads on past the bound and answers from a page the scan should not
        reach. */
    method HasNextAsWritten() returns (r: Result<bool>)
      requires Valid()
      modifies this, pool
      ensures Valid() && pool.pages == old(pool.pages)
      ensures old(cursor).None? ==> r == Ok(false)
      ensures old(cursor).Some? && old(Remaining()) != [] ==>
        r == Ok(true) && cursor.Some? && cursor.value.HasNext() && Remaining() == old(Remaining())
      ensures old(cursor).Some? && !old(cursor.value.HasNext()) && old(currentPageNumber) >= pageNumber ==>
        r == Ok(false)
      ensures old(cursor).Some? && old(Remaining()) == [] && old(currentPageNumber) < pageNumber == |pool.pages| ==>
        r == Err(NullPointer)
      ensures old(cursor).Some? && !old(cursor.value.HasNext()) && old(currentPageNumber) < pageNumber ==>
        SkippedAsWritten(old(currentPageNumber), old(pool.accesses), r)
    {
      if cursor.None? {
        return Ok(false);
      }
      if cursor.value.HasNext() {
        return Ok(true);
      }
      if currentPageNumber < pageNumber {
        FlattenFromFirst(pool.pages, currentPageNumber, pageNumber);
        r := SkipAsWritten();
        return;
      }
      return Ok(false);
    }

    /** The skip loop of hasNext as written, entered with the current page
        exhausted and the counter below the bound. Its test `i <
        pageNumber` never changes, so it fetches page after page up to the
        first one holding a tuple, past the bound if need be; a fetch past
        the last page fails and the null page handle throws. */
    method SkipAsWritten() returns (r: Result<bool>)
      requires Valid() && cursor.Some? && !cursor.value.HasNext() && currentPageNumber < pageNumber
      modifies this, pool
      ensures Valid() && pool.pages == old(pool.pages)
      ensures SkippedAsWritten(old(currentPageNumber), old(pool.accesses), r)
    {
      ghost var start := currentPageNumber;
      var i := currentPageNumber;
      while i < pageNumber
        invariant Valid() && pool.pages == old(pool.pages)
        invariant i == start <= currentPageNumber <= |pool.pages|
        invariant FirstNonEmpty(pool.pages, currentPageNumber) == FirstNonEmpty(pool.pages, start)
        invariant pool.accesses == old(pool.accesses) + Fetches(tid, tableId, perm, start, currentPageNumber)
        decreases |pool.pages| - currentPageNumber
      {
        var p := pool.GetPage(tid, PageId(tableId, currentPageNumber), perm);
        if p.Err? {
          return Err(NullPointer);
        }
        page := Some(p.value);
        if |p.value.tuples| > 0 {
          cursor := Some(Cursor(p.value.tuples, 0));
          currentPageNumber := currentPageNumber + 1;
          return Ok(true);
        }
        currentPageNumber := currentPageNumber + 1;
      }
      return Ok(false);
    }

    /** next: the next tuple of the current page, NoSuchElementException
        before open, after close and when the current page is exhausted. It
        never moves to another page; that is hasNext's job. */
    method Next() returns (r: Result<Tuple>)
      requires Valid()
      modifies this
      ensures Valid()
      ensures old(cursor).None? ==> r == Err(NoSuchElement) && cursor == None
      ensures old(cursor).Some? && old(cursor.value.HasNext()) ==>
        old(Remaining()) != [] && r == Ok(old(Remaining())[0]) && Remaining() == old(Remaining())[1..]
      ensures old(cursor).Some? && !old(cursor.value.HasNext()) ==>
        r == Err(NoSuchElement) && cursor == old(cursor)
      ensures old(cursor).Some? ==> cursor.Some?
      ensures currentPageNumber == old(currentPageNumber)
    {
      if cursor.None? {
        return Err(NoSuchElement);
      }
      var c := cursor.value;
      if !c.HasNext() {
        return Err(NoSuchElement);
      }
      r := Ok(c.tuples[c.pos]);
      cursor := Some(Cursor(c.tuples, c.pos + 1));
      assert c.Rest() == [c.tuples[c.pos]] + cursor.value.Rest();
    }

    /** rewind: exactly open, restarting at page 0. */
    method Rewind() returns (r: Result<()>)
      requires Valid()
      modifies this, pool
      ensures Valid() && pool.pages == old(pool.pages)
      ensures pool.accesses == old(pool.accesses) + [Access(tid, PageId(tableId, 0), perm)]
      ensures r.Ok? <==> 0 < |pool.pages|
      ensures r.Ok? ==> currentPageNumber == 1 && page == Some(pool.pages[0])
      ensures r.Ok? ==> cursor == Some(Cursor(pool.pages[0].tuples, 0))
      ensures r.Ok? && 1 <= pageNumber ==> Remaining() == Flatten(pool.pages, 0, pageNumber)
      ensures r.Err? ==> r.error == NullPointer && currentPageNumber == 0 && page == None
      ensures r.Err? ==> cursor == old(cursor)
    {
      r := Open();
    }

    /** close: drops the cursor, after which hasNext is false and next
        fails. */
    method Close()
      modifies this
      ensures cursor == None
      ensures currentPageNumber == old(currentPageNumber) && page == old(page)
    {
      cursor := None;
    }
  }

  /** A consumer on an open cursor: it asks hasNext and, while the answer
      is true, takes next and goes on; it receives exactly the tuples that
      remained. */
  method Drain(it: HeapFileIterator) returns (out: seq<Tuple>)
    requires it.Valid() && it.cursor.Some?
    modifies it, it.pool
    ensures it.pool.pages == old(it.pool.pages)
    ensures out == old(it.Remaining())
    decreases |it.Remaining()|
  {
    var more := it.HasNext();
    if !more {
      return [];
    }
    var t := it.Next();
    var rest := Drain(it);
    out := [t.value] + rest;
  }

  /** A consumer that opens the cursor and alternates hasNext and next
      until hasNext is false receives every tuple of the file's pages, in
      page order and in each page's own order. */
  method ScanAll(it: HeapFileIterator) returns (r: Result<seq<Tuple>>)
    requires it.Valid()
    modifies it, it.pool
    ensures it.pool.pages == old(it.pool.pages)
    ensures r.Ok? <==> 0 < |it.pool.pages|
    ensures r.Ok? && 1 <= it.pageNumber ==> r.value == Flatten(it.pool.pages, 0, it.pageNumber)
  {
    var started := it.Open();
    if started.Err? {
      return Err(started.error);
    }
    var out := Drain(it);
    return Ok(out);
  }

  /** The input that shows the hasNext loop bound wrong: a two-page table
      whose pages are both empty. After open, the corrected hasNext answers
      false; the loop as written fetches page 2, which does not exist. */
  method HasNextBoundCounterexample() returns (asWritten: Result<bool>, intended: bool)
    ensures asWritten == Err(NullPointer)
    ensures !intended
  {
    var empty := [HeapPage(PageId(7, 0), 1, []), HeapPage(PageId(7, 1), 1, [])];
    var pool1 := new BufferPool(7, empty);
    var it1 := new HeapFileIterator(7, TransactionId(1), ReadOnly, 2, pool1);
    var _ := it1.Open();
    assert it1.Remaining() == [] by {
      assert Flatten(pool1.pages, 1, 2) == [] + Flatten(pool1.pages, 2, 2);
    }
    asWritten := it1.HasNextAsWritten();

    var pool2 := new BufferPool(7, empty);
    var it2 := new HeapFileIterator(7, TransactionId(1), ReadOnly, 2, pool2);
    var _ := it2.Open();
    assert it2.Remaining() == [] by {
      assert Flatten(pool2.pages, 1, 2) == [] + Flatten(pool2.pages, 2, 2);
    }
    intended := it2.HasNext();
  }

  /** The same loop on a file that has grown since the iterator was made:
      two empty pages under a bound of 2 and a third page, added later,
      holding a tuple. After open, the corrected hasNext answers false; the
      loop as written reads on past the bound and answers true from page 2. */
  method GrownFileCounterexample() returns (asWritten: Result<bool>, intended: bool)
    ensures asWritten == Ok(true)
    ensures !intended
  {
    var td := new Schema.TupleDesc.Empty();
    var t := Tuple(td, [], null);
    var pages := [HeapPage(PageId(7, 0), 1, []), HeapPage(PageId(7, 1), 1, []), HeapPage(PageId(7, 2), 1, [t])];
    var pool1 := new BufferPool(7, pages);
    var it1 := new HeapFileIterator(7, TransactionId(1), ReadOnly, 2, pool1);
    var _ := it1.Open();
    assert FirstNonEmpty(pool1.pages, 1) == 2;
    asWritten := it1.HasNextAsWritten();

    var pool2 := new BufferPool(7, pages);
    var it2 := new HeapFileIterator(7, TransactionId(1), ReadOnly, 2, pool2);
    var _ := it2.Open();
    assert it2.Remaining() == [] by {
      assert Flatten(pool2.pages, 1, 2) == [] + Flatten(pool2.pages, 2, 2);
    }
    intended := it2.HasNext();
  }
}

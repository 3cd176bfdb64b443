/** The collaborators HeapFile and its scan rely on. HeapPage.java and
    BufferPool.java are not part of this model: a page is reduced to its
    capacity and its ordered tuple list, and the buffer pool to the page each
    page number of one table resolves to, plus a log of the requests made. */
module Pages {
  import opened Wrappers
  import opened Addressing
  import opened Tuples

  datatype TransactionId = TransactionId(id: int)

  /** Permissions.READ_ONLY / READ_WRITE. */
  datatype Permission = ReadOnly | ReadWrite

  /** One getPage request as the buffer pool received it. */
  datatype Access = Access(tid: TransactionId, pid: PageId, perm: Permission)

  /** A heap page: its id, its slot capacity and the tuples it holds, in the
      order its iterator yields them. */
  datatype HeapPage = HeapPage(pid: PageId, capacity: nat, tuples: seq<Tuple>) {

    predicate Valid() {
      |tuples| <= capacity
    }

    function NumEmptySlots(): nat {
      if |tuples| <= capacity then capacity - |tuples| else 0
    }

    /** HeapPage.insertTuple: stores `t`, or throws DbException when the page
        is full. */
    function InsertTuple(t: Tuple): Result<HeapPage> {
      if |tuples| < capacity then Ok(HeapPage(pid, capacity, tuples + [t])) else Err(Db)
    }

    /** HeapPage.deleteTuple: removes `t`, or throws DbException when the page
        does not hold it. */
    function DeleteTuple(t: Tuple): Result<HeapPage> {
      if t in tuples then
        var k := FirstIndex(tuples, t);
        Ok(HeapPage(pid, capacity, tuples[..k] + tuples[k + 1..]))
      else Err(Db)
    }
  }

  function FirstIndex(s: seq<Tuple>, t: Tuple): (k: nat)
    requires t in s
    ensures k < |s| && s[k] == t
  {
    if s[0] == t then 0 else 1 + FirstIndex(s[1..], t)
  }

  /** The buffer pool as seen by one table: getPage for page number k of
      `tableId` yields `pages[k]`, cached or read from disk alike. */
  class BufferPool {
    const tableId: int
    var pages: seq<HeapPage>
    var accesses: seq<Access>

    constructor (tableId: int, pages: seq<HeapPage>)
      ensures this.tableId == tableId && this.pages == pages && accesses == []
    {
      this.tableId := tableId;
      this.pages := pages;
      accesses := [];
    }

    /** What getPage produces for `pid`: the page, or a failure for a page
        of another table or past the last one. */
    function Lookup(pid: PageId): Result<HeapPage>
      reads this
    {
      if pid.tableId == tableId && pid.pageNumber < |pages| then Ok(pages[pid.pageNumber])
      else Err(PageUnavailable)
    }

    /** getPage: logs the request and returns the page. Locking is not part
        of this model. */
    method GetPage(tid: TransactionId, pid: PageId, perm: Permission) returns (r: Result<HeapPage>)
      modifies this
      ensures pages == old(pages)
      ensures accesses == old(accesses) + [Access(tid, pid, perm)]
      ensures r == Lookup(pid)
    {
      accesses := accesses + [Access(tid, pid, perm)];
      r := Lookup(pid);
    }

    /** Stands for an in-place update of the cached page object numbered
        `k`: later requests for it see `p`. */
    method Update(k: nat, p: HeapPage)
      requires k < |pages|
      modifies this
      ensures pages == old(pages)[k := p] && accesses == old(accesses)
    {
      pages := pages[k := p];
    }

    /** A page appended to the file becomes the one its number resolves to. */
    method Admit(p: HeapPage)
      modifies this
      ensures pages == old(pages) + [p] && accesses == old(accesses)
    {
      pages := pages + [p];
    }
  }
}

/** Physical addressing: a page locator and simpledb.storage.RecordId, the
    (page, slot) pair that names one stored tuple. */
module Addressing {

  /** HeapPageId: a table identifier and a page number. Its Java class is not
      part of this model; as a value it is equal exactly when both fields are. */
  datatype PageId = PageId(tableId: int, pageNumber: nat)

  /** java.util.Arrays.hashCode over the elements' hash codes, which is what
      Objects.hash computes: starting from 1, each element multiplies the
      running value by 31 and adds its own hash. */
  function ObjectsHash(hs: seq<int>): int {
    if hs == [] then 1 else 31 * ObjectsHash(hs[..|hs| - 1]) + hs[|hs| - 1]
  }

  /** A stand-in for HeapPageId.hashCode, which is not part of this model:
      some fixed function of the two fields. */
  function PageHash(pid: PageId): int {
    31 * (31 + pid.tableId) + pid.pageNumber
  }

  class RecordId {
    var pid: PageId
    var tupleno: int

    /** RecordId(pid, tupleno): the getters afterwards return exactly the
        constructor's arguments. */
    constructor (pid: PageId, tupleno: int)
      ensures GetPageId() == pid && GetTupleNumber() == tupleno
    {
      this.pid := pid;
      this.tupleno := tupleno;
    }

    function GetTupleNumber(): int
      reads this
    {
      tupleno
    }

    function GetPageId(): PageId
      reads this
    {
      pid
    }

    /** setPageId changes the page id and leaves the tuple number alone. */
    method SetPageId(pid: PageId)
      modifies this
      ensures GetPageId() == pid && GetTupleNumber() == old(GetTupleNumber())
    {
      this.pid := pid;
    }

    /** setTupleno changes the tuple number and leaves the page id alone. */
    method SetTupleno(tupleno: int)
      modifies this
      ensures GetTupleNumber() == tupleno && GetPageId() == old(GetPageId())
    {
      this.tupleno := tupleno;
    }

    /** equals: `o` is a RecordId naming the same page and slot; anything
        else, null included, is unequal. */
    predicate Equals(o: object?)
      reads this, o
      ensures Equals(o) ==> o is RecordId
      ensures o is RecordId ==>
        (Equals(o) <==> GetPageId() == (o as RecordId).GetPageId() && GetTupleNumber() == (o as RecordId).GetTupleNumber())
    {
      o is RecordId && pid == (o as RecordId).pid && tupleno == (o as RecordId).tupleno
    }

    /** hashCode: Objects.hash over (pid, tupleno), without Java's 32-bit
        wrap-around. */
    function HashCode(): (h: int)
      reads this
      ensures h == ObjectsHash([PageHash(GetPageId()), GetTupleNumber()])
    {
      assert [PageHash(pid)][..0] == [];
      assert ObjectsHash([PageHash(pid)]) == 31 + PageHash(pid);
      assert [PageHash(pid), tupleno][..1] == [PageHash(pid)];
      31 * (31 + PageHash(pid)) + tupleno
    }
  }

  /** equals is an equivalence on RecordIds and says false for every object
      that is not a RecordId. */
  lemma EqualsIsEquivalence(a: RecordId, b: RecordId, c: RecordId, o: object?)
    ensures a.Equals(a)
    ensures a.Equals(b) <==> b.Equals(a)
    ensures a.Equals(b) && b.Equals(c) ==> a.Equals(c)
    ensures a.Equals(b) <==> a.GetPageId() == b.GetPageId() && a.GetTupleNumber() == b.GetTupleNumber()
    ensures !(o is RecordId) ==> !a.Equals(o)
  {
  }

  /** Equal RecordIds have equal hash codes. */
  lemma EqualsImpliesSameHash(a: RecordId, b: RecordId)
    requires a.Equals(b)
    ensures a.HashCode() == b.HashCode()
  {
  }
}

/** simpledb.execution.Insert: drains a child operator into a table through
    the buffer pool and answers with a one-field tuple holding the number of
    tuples drawn. */
module Inserts {
  import opened Wrappers
  import opened Schema
  import opened Tuples
  import opened Pages

  /** The child operator, reduced to a cursor over the tuples it yields.
      OpIterator implementations are not part of this model. */
  class ChildOp {
    const desc: TupleDesc
    const tuples: seq<Tuple>
    var pos: nat
    var isOpen: bool

    ghost predicate Valid()
      reads this
    {
      pos <= |tuples|
    }

    /** The tuples still to come. */
    ghost function Remaining(): seq<Tuple>
      reads this
      requires Valid()
    {
      tuples[pos..]
    }

    constructor (desc: TupleDesc, tuples: seq<Tuple>)
      ensures Valid() && this.desc == desc && this.tuples == tuples
      ensures pos == 0 && !isOpen
    {
      this.desc := desc;
      this.tuples := tuples;
      pos := 0;
      isOpen := false;
    }

    method Open()
      modifies this
      ensures Valid() && isOpen && pos == 0
    {
      isOpen := true;
      pos := 0;
    }

    function HasNext(): bool
      reads this
    {
      pos < |tuples|
    }

    method Next() returns (r: Result<Tuple>)
      requires Valid()
      modifies this
      ensures Valid() && isOpen == old(isOpen)
      ensures old(HasNext()) ==> r == Ok(tuples[old(pos)]) && pos == old(pos) + 1
      ensures old(HasNext()) ==> r == Ok(old(Remaining())[0]) && Remaining() == old(Remaining())[1..]
      ensures !old(HasNext()) ==> r == Err(NoSuchElement) && pos == old(pos)
    {
      if pos < |tuples| {
        r := Ok(tuples[pos]);
        pos := pos + 1;
      } else {
        r := Err(NoSuchElement);
      }
    }

    method Rewind()
      modifies this
      ensures Valid() && pos == 0 && isOpen == old(isOpen)
    {
      pos := 0;
    }

    method Close()
      modifies this
      ensures pos == old(pos) && !isOpen
    {
      isOpen := false;
    }
  }

  /** One BufferPool.insertTuple call as the pool received it. */
  datatype InsertCall = InsertCall(tid: TransactionId, tableId: int, t: Tuple)

  /** The calls inserting `ts[lo]` .. `ts[hi - 1]`, in order, for one
      transaction and table. */
  function Calls(tid: TransactionId, tableId: int, ts: seq<Tuple>, lo: nat, hi: nat): seq<InsertCall>
    requires lo <= hi <= |ts|
    decreases hi
  {
    if hi == lo then [] else Calls(tid, tableId, ts, lo, hi - 1) + [InsertCall(tid, tableId, ts[hi - 1])]
  }

  /** The pool receives one call per tuple, the i-th for the i-th tuple of
      the range. */
  lemma {:induction false} CallsAt(tid: TransactionId, tableId: int, ts: seq<Tuple>, lo: nat, hi: nat)
    requires lo <= hi <= |ts|
    ensures |Calls(tid, tableId, ts, lo, hi)| == hi - lo
    ensures forall i :: 0 <= i < hi - lo ==> Calls(tid, tableId, ts, lo, hi)[i] == InsertCall(tid, tableId, ts[lo + i])
    decreases hi
  {
    if hi > lo {
      CallsAt(tid, tableId, ts, lo, hi - 1);
    }
  }

  /** BufferPool.insertTuple as the insert operator sees it: every call is
      logged, and the call at position k of the log throws `failing[k]`
      when k is a key of `failing` (IOException, DbException for a schema
      mismatch, TransactionAbortedException). What the pool does with the
      tuple (HeapFile.insertTuple, dirtying pages) is modelled by HeapFiles
      and not repeated here. */
  class TupleSink {
    const failing: map<nat, Exception>
    var received: seq<InsertCall>

    constructor (failing: map<nat, Exception>)
      ensures this.failing == failing && received == []
    {
      this.failing := failing;
      received := [];
    }

    /** Whether call k throws an exception fetchNext does not catch: any
        but IOException. */
    predicate Escapes(k: nat) {
      k in failing && failing[k] != IO
    }

    method InsertTuple(tid: TransactionId, tableId: int, t: Tuple) returns (r: Result<()>)
      modifies this
      ensures received == old(received) + [InsertCall(tid, tableId, t)]
      ensures r.Err? <==> |old(received)| in failing
      ensures r.Err? ==> r.error == failing[|old(received)|]
    {
      r := if |received| in failing then Err(failing[|received|]) else Ok(());
      received := received + [InsertCall(tid, tableId, t)];
    }
  }

  /** The answer tuple: one INT field holding `count`. */
  function CountTuple(td: TupleDesc, count: int): Tuple {
    Tuple(td, [Some(IntField(count))], null)
  }

  class Insert {
    const t: TransactionId
    const child: ChildOp
    const tableId: int
    const sink: TupleSink
    const td: TupleDesc
    var isOpen: bool    // Operator's open flag
    var fetched: bool   // the corrected fetchNext's "already answered" flag

    constructor (t: TransactionId, child: ChildOp, tableId: int, sink: TupleSink)
      ensures this.t == t && this.child == child && this.tableId == tableId && this.sink == sink
      ensures fresh(td) && td.items == [TDItem(IntType, None)]
      ensures !isOpen && !fetched
    {
      this.t := t;
      this.child := child;
      this.tableId := tableId;
      this.sink := sink;
      td := new TupleDesc.FromTypes([IntType]);
      isOpen := false;
      fetched := false;
    }

    /** The constructor's check: DbException unless the child's schema
        equals the target table's (TupleDesc.equals, names included), and
        an operator whose own schema is a single unnamed INT field. The
        catalog lookup of the target schema is its parameter. */
    static method Create(t: TransactionId, child: ChildOp, tableId: int, targetTd: TupleDesc, sink: TupleSink)
      returns (r: Result<Insert>)
      ensures r.Err? <==> child.desc.items != targetTd.items
      ensures r.Err? ==> r.error == Db
      ensures r.Ok? ==> fresh(r.value) && fresh(r.value.td)
      ensures r.Ok? ==> r.value.child == child && r.value.t == t && r.value.tableId == tableId && r.value.sink == sink
      ensures r.Ok? ==> r.value.td.items == [TDItem(IntType, None)] && !r.value.isOpen
    {
      var same := child.desc.Equals(targetTd);
      if !same {
        return Err(Db);
      }
      var ins := new Insert(t, child, tableId, sink);
      return Ok(ins);
    }

    function GetTupleDesc(): TupleDesc {
      td
    }

    /** open: opens the child, then the operator itself. */
    method Open()
      modifies this, child
      ensures child.Valid() && child.isOpen && child.pos == 0 && isOpen
      ensures fetched == old(fetched)
    {
      child.Open();
      isOpen := true;
    }

    /** close: closes the child, then the operator itself. */
    method Close()
      modifies this, child
      ensures !child.isOpen && child.pos == old(child.pos) && !isOpen
      ensures fetched == old(fetched)
    {
      child.Close();
      isOpen := false;
    }

    /** rewind: rewinds the child and nothing else. */
    method Rewind()
      modifies child
      ensures child.Valid() && child.pos == 0 && child.isOpen == old(child.isOpen)
    {
      child.Rewind();
    }

    /** One turn of fetchNext's loop: the child's next tuple goes to the
        buffer pool; an IOException from the pool is swallowed, any other
        exception escapes. */
    method InsertOne() returns (r: Result<()>)
      requires child.Valid() && child.HasNext()
      modifies child, sink
      ensures child.Valid() && child.isOpen == old(child.isOpen) && child.pos == old(child.pos) + 1
      ensures sink.received == old(sink.received) + [InsertCall(t, tableId, child.tuples[old(child.pos)])]
      ensures r.Err? <==> sink.Escapes(|old(sink.received)|)
      ensures r.Err? ==> r.error == sink.failing[|old(sink.received)|]
    {
      var next := child.Next();
      var inserted := sink.InsertTuple(t, tableId, next.value);
      if inserted.Err? && inserted.error != IO {
        return Err(inserted.error);
      }
      return Ok(());
    }

    /** What a drain that found the child at `from` and the pool's log at
        `log0` has done. The pool received one call per tuple drawn, in
        order. With `escaped` None, every remaining tuple was drawn and no
        call threw anything but IOException. With `escaped` Some(e), the
        drain stopped at the first call that threw something else, `e`. */
    ghost predicate Drained(from: nat, log0: seq<InsertCall>, escaped: Option<Exception>)
      reads child, sink
    {
      && child.Valid() && from <= child.pos
      && sink.received == log0 + Calls(t, tableId, child.tuples, from, child.pos)
      && (escaped.None? ==>
            && child.pos == |child.tuples|
            && forall k :: |log0| <= k < |sink.received| ==> !sink.Escapes(k))
      && (escaped.Some? ==>
            && from < child.pos
            && sink.Escapes(|sink.received| - 1)
            && escaped.value == sink.failing[|sink.received| - 1]
            && forall k :: |log0| <= k < |sink.received| - 1 ==> !sink.Escapes(k))
    }

    /** fetchNext as written: drains the child, handing each tuple in turn
        to the buffer pool with the operator's transaction and table,
        counting it whether or not the pool threw IOException, and answers
        with the count. It answers on every call, with 0 once the child is
        drained, never with null. Any other exception from the pool ends
        the drain at the tuple that raised it, with no count. */
    method FetchNextAsWritten() returns (r: Result<Tuple>)
      requires child.Valid()
      modifies child, sink
      ensures child.isOpen == old(child.isOpen)
      ensures Drained(old(child.pos), old(sink.received), if r.Ok? then None else Some(r.error))
      ensures r.Ok? ==> r.value == CountTuple(td, |child.tuples| - old(child.pos))
    {
      var count := 0;
      while child.HasNext()
        invariant child.Valid() && child.isOpen == old(child.isOpen)
        invariant old(child.pos) <= child.pos && count == child.pos - old(child.pos)
        invariant sink.received == old(sink.received) + Calls(t, tableId, child.tuples, old(child.pos), child.pos)
        invariant forall k :: |old(sink.received)| <= k < |sink.received| ==> !sink.Escapes(k)
        decreases |child.tuples| - child.pos
      {
        var inserted := InsertOne();
        if inserted.Err? {
          return Err(inserted.error);
        }
        count := count + 1;
      }
      return Ok(CountTuple(td, count));
    }

    /** fetchNext as its documentation states it: the count tuple on the
        first call, null on every later one. A call that ends in an
        exception has answered nothing, so the next call drains again. */
    method FetchNext() returns (r: Result<Option<Tuple>>)
      requires child.Valid()
      modifies this, child, sink
      ensures isOpen == old(isOpen) && fetched == (old(fetched) || r.Ok?)
      ensures old(fetched) ==>
        r == Ok(None) && child.pos == old(child.pos) && sink.received == old(sink.received)
      ensures !old(fetched) ==>
        && child.isOpen == old(child.isOpen)
        && Drained(old(child.pos), old(sink.received), if r.Ok? then None else Some(r.error))
        && (r.Ok? ==> r.value == Some(CountTuple(td, |child.tuples| - old(child.pos))))
    {
      if fetched {
        return Ok(None);
      }
      var answer := FetchNextAsWritten();
      if answer.Err? {
        return Err(answer.error);
      }
      fetched := true;
      return Ok(Some(answer.value));
    }
  }

  /** The input that shows fetchNext never answers null: a second call on
      a drained child. As written it answers a count of 0; as documented it
      answers null. */
  method FetchTwice() returns (secondAsWritten: Result<Tuple>, secondIntended: Result<Option<Tuple>>)
    ensures secondAsWritten.Ok? && secondAsWritten.value.fields == [Some(IntField(0))]
    ensures secondIntended == Ok(None)
  {
    var desc := new TupleDesc.FromTypes([IntType]);
    var row := Tuple(desc, [Some(IntField(42))], null);

    var child1 := new ChildOp(desc, [row]);
    var sink1 := new TupleSink(map[]);
    var ins1 := new Insert(TransactionId(1), child1, 5, sink1);
    var first1 := ins1.FetchNextAsWritten();
    secondAsWritten := ins1.FetchNextAsWritten();

    var child2 := new ChildOp(desc, [row]);
    var sink2 := new TupleSink(map[]);
    var ins2 := new Insert(TransactionId(1), child2, 5, sink2);
    var first2 := ins2.FetchNext();
    secondIntended := ins2.FetchNext();
  }

  /** A pool that throws TransactionAbortedException on the first of two
      inserts: the exception escapes fetchNext, which answers no count. */
  method AbortEndsDrain() returns (r: Result<Tuple>)
    ensures r == Err(TransactionAborted)
  {
    var desc := new TupleDesc.FromTypes([IntType]);
    var rows := [Tuple(desc, [Some(IntField(1))], null), Tuple(desc, [Some(IntField(2))], null)];
    var child := new ChildOp(desc, rows);
    var sink := new TupleSink(map[0 := TransactionAborted]);
    var ins := new Insert(TransactionId(1), child, 5, sink);
    r := ins.FetchNextAsWritten();
    CallsAt(TransactionId(1), 5, rows, 0, child.pos);
    assert sink.Escapes(0);
  }

  /** A pool that throws IOException on the first of two inserts: the
      exception is swallowed and both tuples are counted. */
  method IOExceptionCounted() returns (r: Result<Tuple>)
    ensures r.Ok? && r.value.fields == [Some(IntField(2))]
  {
    var desc := new TupleDesc.FromTypes([IntType]);
    var rows := [Tuple(desc, [Some(IntField(1))], null), Tuple(desc, [Some(IntField(2))], null)];
    var child := new ChildOp(desc, rows);
    var sink := new TupleSink(map[0 := IO]);
    var ins := new Insert(TransactionId(1), child, 5, sink);
    r := ins.FetchNextAsWritten();
  }
}

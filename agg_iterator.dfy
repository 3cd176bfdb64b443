/** simpledb.execution.AggIterator: turns a map from group key to the list of
    aggregate-field values merged under it into one result tuple per group,
    folded with MIN, MAX, SUM, COUNT or AVG. */
module AggIterators {
  import opened Wrappers
  import opened Schema
  import opened Tuples

  /** Aggregator.Op. */
  datatype Op = Min | Max | Sum | Avg | Count | SumCount | ScAvg

  /** Aggregator.NO_GROUPING. */
  const NO_GROUPING: int := -1

  /** A group key: the group-by field's value, or null without grouping. */
  type Key = Option<Field>

  /** The operators open's switch has a case for; SUM_COUNT and SC_AVG
      produce no rows. */
  predicate Handled(what: Op) {
    what != SumCount && what != ScAvg
  }

  /** The folds that read the values as ints. */
  predicate ReadsInts(what: Op) {
    what == Min || what == Max || what == Sum || what == Avg
  }

  /** The folds that fail on an empty list: MIN and MAX through
      `fields.get(0)`, AVG through the division by the list size. */
  predicate NeedsValue(what: Op) {
    what == Min || what == Max || what == Avg
  }

  predicate IsInt(v: Option<Field>) {
    v.Some? && v.value.IntField?
  }

  predicate AllInts(vals: seq<Option<Field>>) {
    forall i :: 0 <= i < |vals| ==> IsInt(vals[i])
  }

  /** What open demands of each list: IntFields wherever it casts or
      compares them. */
  predicate IntsWhereNeeded(what: Op, vals: seq<Option<Field>>) {
    ReadsInts(what) ==> AllInts(vals)
  }

  /** A list of IntFields where needed that `what` folds without throwing:
      one that is not empty when the fold needs a value. */
  predicate Ready(what: Op, vals: seq<Option<Field>>) {
    NeedsValue(what) ==> vals != []
  }

  /** The int values of a list of IntFields. */
  function Ints(vals: seq<Option<Field>>): (xs: seq<int>)
    requires AllInts(vals)
    ensures |xs| == |vals|
  {
    if vals == [] then [] else Ints(vals[..|vals| - 1]) + [vals[|vals| - 1].value.i]
  }

  /** Value i of the list is the int held by field i. */
  lemma {:induction false} IntsAt(vals: seq<Option<Field>>)
    requires AllInts(vals)
    ensures forall i :: 0 <= i < |vals| ==> Ints(vals)[i] == vals[i].value.i
  {
    if vals != [] {
      var init := vals[..|vals| - 1];
      IntsAt(init);
      forall i | 0 <= i < |vals|
        ensures Ints(vals)[i] == vals[i].value.i
      {
        if i < |init| {
          assert vals[i] == init[i];
        }
      }
    }
  }

  /** The MIN fold, scanning left to right and replacing the candidate by
      any strictly smaller value. */
  function Least(xs: seq<int>): int
    requires |xs| > 0
  {
    if |xs| == 1 then xs[0]
    else
      var m := Least(xs[..|xs| - 1]);
      if m > xs[|xs| - 1] then xs[|xs| - 1] else m
  }

  /** The MIN fold yields the least value of the list. */
  lemma {:induction false} LeastIsLeast(xs: seq<int>)
    requires |xs| > 0
    ensures Least(xs) in xs
    ensures forall x :: x in xs ==> Least(xs) <= x
  {
    if |xs| > 1 {
      var init := xs[..|xs| - 1];
      LeastIsLeast(init);
      assert forall x :: x in init ==> x in xs;
      assert forall x :: x in xs ==> x in init || x == xs[|xs| - 1];
    }
  }

  /** The MAX fold, replacing the candidate by any strictly larger value. */
  function Greatest(xs: seq<int>): int
    requires |xs| > 0
  {
    if |xs| == 1 then xs[0]
    else
      var m := Greatest(xs[..|xs| - 1]);
      if m < xs[|xs| - 1] then xs[|xs| - 1] else m
  }

  /** The MAX fold yields the greatest value of the list. */
  lemma {:induction false} GreatestIsGreatest(xs: seq<int>)
    requires |xs| > 0
    ensures Greatest(xs) in xs
    ensures forall x :: x in xs ==> x <= Greatest(xs)
  {
    if |xs| > 1 {
      var init := xs[..|xs| - 1];
      GreatestIsGreatest(init);
      assert forall x :: x in init ==> x in xs;
      assert forall x :: x in xs ==> x in init || x == xs[|xs| - 1];
    }
  }

  function IntSum(xs: seq<int>): int {
    if xs == [] then 0 else IntSum(xs[..|xs| - 1]) + xs[|xs| - 1]
  }

  /** Java's int division: the quotient truncated toward zero. */
  function JavaDiv(x: int, n: int): int
    requires n > 0
  {
    if x >= 0 then x / n else -((-x) / n)
  }

  /** The remainder of Java's division has the dividend's sign and is
      smaller than the divisor. */
  lemma JavaDivRemainder(x: int, n: int)
    requires n > 0
    ensures x >= 0 ==> 0 <= x - JavaDiv(x, n) * n < n
    ensures x < 0 ==> -n < x - JavaDiv(x, n) * n <= 0
  {
    if x < 0 {
      assert (-x) == ((-x) / n) * n + (-x) % n;
    }
  }

  /** The value open stores for one group. */
  function Aggregate(what: Op, vals: seq<Option<Field>>): int
    requires Handled(what) && IntsWhereNeeded(what, vals) && Ready(what, vals)
  {
    match what
    case Min => Least(Ints(vals))
    case Max => Greatest(Ints(vals))
    case Sum => IntSum(Ints(vals))
    case Count => |vals|
    case Avg => JavaDiv(IntSum(Ints(vals)), |vals|)
  }

  lemma {:induction false} SumAtLeast(xs: seq<int>, lo: int)
    requires forall x :: x in xs ==> lo <= x
    ensures IntSum(xs) >= |xs| * lo
  {
    if xs != [] {
      var init := xs[..|xs| - 1];
      assert forall x :: x in init ==> x in xs;
      assert xs[|xs| - 1] in xs;
      SumAtLeast(init, lo);
      assert |xs| * lo == |init| * lo + lo;
    }
  }

  lemma {:induction false} SumAtMost(xs: seq<int>, hi: int)
    requires forall x :: x in xs ==> x <= hi
    ensures IntSum(xs) <= |xs| * hi
  {
    if xs != [] {
      var init := xs[..|xs| - 1];
      assert forall x :: x in init ==> x in xs;
      assert xs[|xs| - 1] in xs;
      SumAtMost(init, hi);
      assert |xs| * hi == |init| * hi + hi;
    }
  }

  /** An integer quotient of a sum lying between n * lo and n * hi lies
      between lo and hi. */
  lemma QuotientBetween(s: int, n: int, lo: int, hi: int)
    requires n > 0 && n * lo <= s <= n * hi
    ensures lo <= JavaDiv(s, n) <= hi
  {
    var q := JavaDiv(s, n);
    JavaDivRemainder(s, n);
    assert q * n > (lo - 1) * n by {
      assert (lo - 1) * n == lo * n - n;
    }
    CancelFactor(lo - 1, q, n);
    assert (hi + 1) * n > q * n by {
      assert (hi + 1) * n == hi * n + n;
    }
    CancelFactor(q, hi + 1, n);
  }

  /** A positive factor cancels from a strict inequality of products. */
  lemma CancelFactor(a: int, b: int, n: int)
    requires n > 0 && a * n < b * n
    ensures a < b
  {
  }

  /** The truncated average of a group lies between its MIN and its MAX. */
  lemma AvgBetweenMinAndMax(xs: seq<int>)
    requires |xs| > 0
    ensures Least(xs) <= JavaDiv(IntSum(xs), |xs|) <= Greatest(xs)
  {
    LeastIsLeast(xs);
    GreatestIsGreatest(xs);
    SumAtLeast(xs, Least(xs));
    SumAtMost(xs, Greatest(xs));
    QuotientBetween(IntSum(xs), |xs|, Least(xs), Greatest(xs));
  }

  /** What each fold computes, in the terms of the group itself: MIN is a
      member no greater than any other, MAX one no smaller, SUM the total of
      the values, COUNT the list size, and AVG the total divided by the size
      with the quotient truncated toward zero. */
  lemma AggregateMeaning(what: Op, vals: seq<Option<Field>>)
    requires Handled(what) && IntsWhereNeeded(what, vals) && Ready(what, vals)
    ensures what == Min ==> exists i :: 0 <= i < |vals| && vals[i] == Some(IntField(Aggregate(what, vals)))
    ensures what == Min ==> forall i :: 0 <= i < |vals| ==> Aggregate(what, vals) <= vals[i].value.i
    ensures what == Max ==> exists i :: 0 <= i < |vals| && vals[i] == Some(IntField(Aggregate(what, vals)))
    ensures what == Max ==> forall i :: 0 <= i < |vals| ==> vals[i].value.i <= Aggregate(what, vals)
    ensures what == Sum ==> Aggregate(what, vals) == IntSum(Ints(vals))
    ensures what == Count ==> Aggregate(what, vals) == |vals|
    ensures what == Avg ==> Aggregate(what, vals) == JavaDiv(IntSum(Ints(vals)), |vals|)
    ensures what == Avg ==> Least(Ints(vals)) <= Aggregate(what, vals) <= Greatest(Ints(vals))
  {
    if what == Min || what == Max {
      var xs := Ints(vals);
      IntsAt(vals);
      LeastIsLeast(xs);
      GreatestIsGreatest(xs);
      var m := Aggregate(what, vals);
      var i :| 0 <= i < |xs| && xs[i] == m;
      assert vals[i] == Some(IntField(m));
      forall j | 0 <= j < |vals|
        ensures what == Min ==> m <= vals[j].value.i
        ensures what == Max ==> vals[j].value.i <= m
      {
        assert xs[j] in xs;
      }
    }
    if what == Avg {
      AvgBetweenMinAndMax(Ints(vals));
    }
  }

  /** `order` lists every key of `keys` once: the order a HashMap's key set
      happened to yield them in. */
  ghost predicate Enumerates(order: seq<Key>, keys: set<Key>) {
    && (forall i, j :: 0 <= i < j < |order| ==> order[i] != order[j])
    && (forall k :: k in keys <==> k in order)
  }

  /** An enumeration is exactly as long as the key set. */
  lemma {:induction false} EnumerationSize(order: seq<Key>, keys: set<Key>)
    requires Enumerates(order, keys)
    ensures |order| == |keys|
  {
    if order != [] {
      var last := order[|order| - 1];
      var init := order[..|order| - 1];
      assert last !in init by {
        forall i | 0 <= i < |init|
          ensures init[i] != last
        {
          assert order[i] == init[i];
        }
      }
      forall k
        ensures k in keys - {last} <==> k in init
      {
        if k in init {
          var i :| 0 <= i < |init| && init[i] == k;
          assert order[i] == k;
        }
      }
      EnumerationSize(init, keys - {last});
    }
  }

  /** addFieldToResult's tuple under schema `td`, whose field count is
      `width`: the aggregate alone under a one-field schema, the key then
      the aggregate otherwise. The count is passed as a value, read from
      `td` by the caller, so the rows do not depend on the heap. */
  function Row(td: TupleDesc, width: nat, k: Key, v: int): Tuple {
    if width == 1 then Tuple(td, [Some(IntField(v))], null)
    else Tuple(td, [k, Some(IntField(v))], null)
  }

  /** The rows open adds for the keys in `keys`, in that order. */
  function RowsFor(td: TupleDesc, width: nat, what: Op, groups: map<Key, seq<Option<Field>>>, keys: seq<Key>): (rows: seq<Tuple>)
    requires Handled(what)
    requires forall k :: k in groups ==> IntsWhereNeeded(what, groups[k])
    requires forall i :: 0 <= i < |keys| ==> keys[i] in groups && Ready(what, groups[keys[i]])
    ensures |rows| == |keys|
  {
    if keys == [] then []
    else RowsFor(td, width, what, groups, keys[..|keys| - 1]) + [Row(td, width, keys[|keys| - 1], Aggregate(what, groups[keys[|keys| - 1]]))]
  }

  lemma RowsForSnoc(td: TupleDesc, width: nat, what: Op, groups: map<Key, seq<Option<Field>>>, keys: seq<Key>, k: Key)
    requires Handled(what)
    requires forall k :: k in groups ==> IntsWhereNeeded(what, groups[k])
    requires forall i :: 0 <= i < |keys| ==> keys[i] in groups && Ready(what, groups[keys[i]])
    requires k in groups && Ready(what, groups[k])
    ensures RowsFor(td, width, what, groups, keys + [k]) == RowsFor(td, width, what, groups, keys) + [Row(td, width, k, Aggregate(what, groups[k]))]
  {
    assert (keys + [k])[..|keys|] == keys;
  }

  /** One more key folded: the rows for the longer prefix of `keys`. */
  lemma FoldStep(td: TupleDesc, width: nat, what: Op, groups: map<Key, seq<Option<Field>>>, keys: seq<Key>, i: nat)
    requires Handled(what)
    requires forall k :: k in groups ==> IntsWhereNeeded(what, groups[k])
    requires i < |keys| && forall j :: 0 <= j <= i ==> keys[j] in groups && Ready(what, groups[keys[j]])
    ensures RowsFor(td, width, what, groups, keys[..i + 1]) == RowsFor(td, width, what, groups, keys[..i]) + [Row(td, width, keys[i], Aggregate(what, groups[keys[i]]))]
  {
    assert keys[..i + 1] == keys[..i] + [keys[i]];
    RowsForSnoc(td, width, what, groups, keys[..i], keys[i]);
  }

  /** A duplicate-free list of keys drawn from `keys` that covers them is
      an enumeration of them. */
  lemma Covers(order: seq<Key>, keys: set<Key>)
    requires forall i, j :: 0 <= i < j < |order| ==> order[i] != order[j]
    requires forall i :: 0 <= i < |order| ==> order[i] in keys
    requires forall k :: k in keys ==> k in order
    ensures Enumerates(order, keys)
  {
  }

  /** The key set's iteration: every key once, in some order. */
  method EnumerateKeys(keys: set<Key>) returns (order: seq<Key>)
    ensures Enumerates(order, keys)
  {
    var left := keys;
    order := [];
    while left != {}
      invariant left <= keys
      invariant forall k :: k in left ==> k !in order
      invariant forall k :: k in keys && k !in left ==> k in order
      invariant forall i, j :: 0 <= i < j < |order| ==> order[i] != order[j]
      invariant forall i :: 0 <= i < |order| ==> order[i] in keys
      decreases |left|
    {
      var k :| k in left;
      order := order + [k];
      left := left - {k};
    }
    Covers(order, keys);
  }

  /** The loop of open's cases over a list of keys: each key's group
      folded in turn, one row per key. It stops at the first group the
      operator cannot fold, with the keys done and the rows made so far. */
  method FoldKeys(td: TupleDesc, width: nat, what: Op, groups: map<Key, seq<Option<Field>>>, keys: seq<Key>)
      returns (r: Result<()>, done: seq<Key>, rows: seq<Tuple>)
    requires Handled(what)
    requires forall k :: k in groups ==> IntsWhereNeeded(what, groups[k])
    requires forall j :: 0 <= j < |keys| ==> keys[j] in groups
    ensures done <= keys
    ensures forall j :: 0 <= j < |done| ==> Ready(what, groups[done[j]])
    ensures rows == RowsFor(td, width, what, groups, done)
    ensures r.Ok? <==> done == keys
    ensures r.Err? ==> |done| < |keys| && !Ready(what, groups[keys[|done|]])
    ensures r.Err? ==> r.error == (if what == Avg then Arithmetic else IndexOutOfBounds)
  {
    rows := [];
    var i := 0;
    while i < |keys|
      invariant 0 <= i <= |keys|
      invariant forall j :: 0 <= j < i ==> Ready(what, groups[keys[j]])
      invariant rows == RowsFor(td, width, what, groups, keys[..i])
    {
      var v := AggIterator.Fold(what, groups[keys[i]]);
      if v.Err? {
        return Err(v.error), keys[..i], rows;
      }
      FoldStep(td, width, what, groups, keys, i);
      rows := rows + [Row(td, width, keys[i], v.value)];
      i := i + 1;
    }
    assert keys[..i] == keys;
    return Ok(()), keys, rows;
  }

  /** open's cases: every group folded, in the order the key set yields the
      keys. The fold succeeds exactly when every group is ready, and then
      the keys used enumerate the map. */
  method FoldGroups(td: TupleDesc, width: nat, what: Op, groups: map<Key, seq<Option<Field>>>)
      returns (r: Result<()>, order: seq<Key>, rows: seq<Tuple>)
    requires Handled(what)
    requires forall k :: k in groups ==> IntsWhereNeeded(what, groups[k])
    ensures r.Ok? <==> forall k :: k in groups ==> Ready(what, groups[k])
    ensures r.Err? ==> r.error == (if what == Avg then Arithmetic else IndexOutOfBounds)
    ensures forall i :: 0 <= i < |order| ==> order[i] in groups && Ready(what, groups[order[i]])
    ensures rows == RowsFor(td, width, what, groups, order)
    ensures r.Ok? ==> Enumerates(order, groups.Keys)
  {
    var all := EnumerateKeys(groups.Keys);
    assert forall j :: 0 <= j < |all| ==> all[j] in groups;
    r, order, rows := FoldKeys(td, width, what, groups, all);
    if r.Ok? {
      forall k | k in groups
        ensures Ready(what, groups[k])
      {
        var j :| 0 <= j < |all| && all[j] == k;
      }
    } else {
      assert all[|order|] in groups;
    }
  }

  /** The `iterator` field, an ArrayList iterator over the result: the
      position of the next row, and the list's modification count when the
      iterator was made. The result is only ever appended to, so its
      modification count is its length; an iterator whose recorded count
      differs from the length is stale and fails fast. */
  datatype RowCursor = RowCursor(pos: nat, expected: nat)

  class AggIterator {
    const tmpResult: map<Key, seq<Option<Field>>>
    const what: Op
    const td: TupleDesc
    var result: seq<Tuple>
    var cursor: Option<RowCursor>  // None is null
    ghost var order: seq<Key> // the key order the last complete open used

    /** The output schema: (group type, INT) named after the group and
        aggregate fields when grouping, a lone INT named after the aggregate
        field when not; an empty result and no cursor. */
    constructor (tmpResult: map<Key, seq<Option<Field>>>, what: Op, gbfield: int,
                 gbfieldtype: FieldType, nameOfGbField: Option<string>, nameOfAggField: Option<string>)
      ensures this.tmpResult == tmpResult && this.what == what
      ensures gbfield != NO_GROUPING ==>
        td.items == [TDItem(gbfieldtype, nameOfGbField), TDItem(IntType, nameOfAggField)]
      ensures gbfield == NO_GROUPING ==> td.items == [TDItem(IntType, nameOfAggField)]
      ensures fresh(td) && result == [] && cursor == None
    {
      this.tmpResult := tmpResult;
      this.what := what;
      result := [];
      if gbfield != NO_GROUPING {
        td := new TupleDesc.FromArrays([gbfieldtype, IntType], [nameOfGbField, nameOfAggField]);
      } else {
        td := new TupleDesc.FromArrays([IntType], [nameOfAggField]);
      }
      cursor := None;
    }

    function GetTupleDesc(): TupleDesc {
      td
    }

    /** One fold, the way open's cases compute it. */
    static method Fold(what: Op, vals: seq<Option<Field>>) returns (r: Result<int>)
      requires Handled(what) && IntsWhereNeeded(what, vals)
      ensures r.Ok? <==> Ready(what, vals)
      ensures r.Ok? ==> r.value == Aggregate(what, vals)
      ensures r.Err? ==> r.error == (if what == Avg then Arithmetic else IndexOutOfBounds)
    {
      match what
      case Min =>
        if vals == [] {
          return Err(IndexOutOfBounds);
        }
        var m := MinOf(vals);
        return Ok(m);
      case Max =>
        if vals == [] {
          return Err(IndexOutOfBounds);
        }
        var m := MaxOf(vals);
        return Ok(m);
      case Sum =>
        var s := SumOf(vals);
        return Ok(s);
      case Count =>
        return Ok(|vals|);
      case Avg =>
        var s := SumOf(vals);
        if |vals| == 0 {
          return Err(Arithmetic);
        }
        return Ok(JavaDiv(s, |vals|));
    }

    /** The MIN loop: start from the first value, take any strictly smaller
        one. */
    static method MinOf(vals: seq<Option<Field>>) returns (m: int)
      requires AllInts(vals) && vals != []
      ensures m == Least(Ints(vals))
    {
      ghost var xs := Ints(vals);
      IntsAt(vals);
      m := vals[0].value.i;
      var i := 0;
      while i < |vals|
        invariant 0 <= i <= |vals|
        invariant m == if i == 0 then xs[0] else Least(xs[..i])
      {
        assert xs[..i + 1][..i] == xs[..i];
        if m > vals[i].value.i {
          m := vals[i].value.i;
        }
        i := i + 1;
      }
      assert xs[..i] == xs;
    }

    /** The MAX loop: start from the first value, take any strictly larger
        one. */
    static method MaxOf(vals: seq<Option<Field>>) returns (m: int)
      requires AllInts(vals) && vals != []
      ensures m == Greatest(Ints(vals))
    {
      ghost var xs := Ints(vals);
      IntsAt(vals);
      m := vals[0].value.i;
      var i := 0;
      while i < |vals|
        invariant 0 <= i <= |vals|
        invariant m == if i == 0 then xs[0] else Greatest(xs[..i])
      {
        assert xs[..i + 1][..i] == xs[..i];
        if m < vals[i].value.i {
          m := vals[i].value.i;
        }
        i := i + 1;
      }
      assert xs[..i] == xs;
    }

    /** The SUM and AVG accumulation loop. */
    static method SumOf(vals: seq<Option<Field>>) returns (s: int)
      requires AllInts(vals)
      ensures s == IntSum(Ints(vals))
    {
      ghost var xs := Ints(vals);
      IntsAt(vals);
      s := 0;
      var i := 0;
      while i < |vals|
        invariant 0 <= i <= |vals|
        invariant s == IntSum(xs[..i])
      {
        assert xs[..i + 1][..i] == xs[..i];
        s := s + vals[i].value.i;
        i := i + 1;
      }
      assert xs[..i] == xs;
    }

    /** open: folds every group, in the key set's order, appending one row
        per key to the result (rows of an earlier open stay), and starts
        the cursor at the head of the result. A MIN, MAX or AVG over an
        empty list throws, keeping the rows already appended and the old
        cursor; SUM_COUNT and SC_AVG add nothing. */
    method Open() returns (r: Result<()>)
      requires forall k :: k in tmpResult ==> IntsWhereNeeded(what, tmpResult[k])
      modifies this
      ensures r.Ok? <==> !Handled(what) || forall k :: k in tmpResult ==> Ready(what, tmpResult[k])
      ensures r.Ok? && Handled(what) ==>
        && Enumerates(order, tmpResult.Keys)
        && (forall i :: 0 <= i < |order| ==> order[i] in tmpResult && Ready(what, tmpResult[order[i]]))
        && result == old(result) + RowsFor(td, td.NumFields(), what, tmpResult, order)
      ensures r.Ok? && !Handled(what) ==> result == old(result)
      ensures r.Ok? ==> cursor == Some(RowCursor(0, |result|))
      ensures r.Err? ==> cursor == old(cursor)
      ensures r.Err? ==> Handled(what) && r.error == (if what == Avg then Arithmetic else IndexOutOfBounds)
      ensures r.Err? ==> exists done: seq<Key> ::
        && (forall i :: 0 <= i < |done| ==> done[i] in tmpResult && Ready(what, tmpResult[done[i]]))
        && result == old(result) + RowsFor(td, td.NumFields(), what, tmpResult, done)
    {
      if Handled(what) {
        var folded, keys, rows := FoldGroups(td, td.NumFields(), what, tmpResult);
        result := result + rows;
        if folded.Err? {
          return folded;
        }
        order := keys;
      }
      cursor := Some(RowCursor(0, |result|));
      return Ok(());
    }

    /** hasNext: whether the cursor's position differs from the result's
        length, without the staleness check; a NullPointerException before
        open and after close. */
    function HasNext(): (r: Result<bool>)
      reads this
      ensures r.Err? <==> cursor.None?
      ensures r.Err? ==> r.error == NullPointer
      ensures r.Ok? ==> (r.value <==> cursor.value.pos != |result|)
    {
      if cursor.None? then Err(NullPointer) else Ok(cursor.value.pos != |result|)
    }

    /** next: the row under the cursor, which then moves one on. A stale
        cursor, one made before a failing open appended rows, throws
        ConcurrentModificationException first. */
    method Next() returns (r: Result<Tuple>)
      modifies this
      ensures result == old(result)
      ensures old(cursor).None? ==> r == Err(NullPointer) && cursor == None
      ensures old(cursor).Some? && old(cursor.value.expected) != |result| ==>
        r == Err(ConcurrentModification) && cursor == old(cursor)
      ensures old(cursor).Some? && old(cursor.value.expected) == |result| && old(cursor.value.pos) < |result| ==>
        r == Ok(result[old(cursor.value.pos)]) && cursor == Some(old(cursor.value).(pos := old(cursor.value.pos) + 1))
      ensures old(cursor).Some? && old(cursor.value.expected) == |result| && old(cursor.value.pos) >= |result| ==>
        r == Err(NoSuchElement) && cursor == old(cursor)
    {
      if cursor.None? {
        return Err(NullPointer);
      }
      var c := cursor.value;
      if c.expected != |result| {
        return Err(ConcurrentModification);
      }
      if c.pos >= |result| {
        return Err(NoSuchElement);
      }
      r := Ok(result[c.pos]);
      cursor := Some(c.(pos := c.pos + 1));
    }

    /** rewind: a new cursor over the same result list. */
    method Rewind()
      modifies this
      ensures result == old(result) && cursor == Some(RowCursor(0, |result|))
    {
      cursor := Some(RowCursor(0, |result|));
    }

    /** close: drops the cursor. */
    method Close()
      modifies this
      ensures result == old(result) && cursor == None
    {
      cursor := None;
    }
  }

  /** After open, the result holds exactly one row per group key. */
  lemma OneRowPerKey(td: TupleDesc, width: nat, what: Op, groups: map<Key, seq<Option<Field>>>, order: seq<Key>)
    requires Handled(what) && Enumerates(order, groups.Keys)
    requires forall k :: k in groups ==> IntsWhereNeeded(what, groups[k])
    requires forall i :: 0 <= i < |order| ==> order[i] in groups && Ready(what, groups[order[i]])
    ensures |RowsFor(td, width, what, groups, order)| == |groups|
  {
    EnumerationSize(order, groups.Keys);
  }

  /** The rows of an open: row i names the i-th key when the schema has two
      fields, and carries that key's aggregate in its last field. */
  lemma {:induction false} RowsAt(td: TupleDesc, width: nat, what: Op, groups: map<Key, seq<Option<Field>>>, keys: seq<Key>, i: nat)
    requires Handled(what)
    requires forall k :: k in groups ==> IntsWhereNeeded(what, groups[k])
    requires forall j :: 0 <= j < |keys| ==> keys[j] in groups && Ready(what, groups[keys[j]])
    requires i < |keys|
    ensures RowsFor(td, width, what, groups, keys)[i].desc == td
    ensures width == 1 ==>
      RowsFor(td, width, what, groups, keys)[i].fields == [Some(IntField(Aggregate(what, groups[keys[i]])))]
    ensures width != 1 ==>
      RowsFor(td, width, what, groups, keys)[i].fields == [keys[i], Some(IntField(Aggregate(what, groups[keys[i]])))]
    decreases |keys|
  {
    if i < |keys| - 1 {
      RowsAt(td, width, what, groups, keys[..|keys| - 1], i);
    }
  }

  /** A consumer that rewinds and alternates hasNext and next reads the
      result list from the start, every row once and in order. */
  method ReadAll(it: AggIterator) returns (out: seq<Tuple>)
    modifies it
    ensures out == it.result && it.result == old(it.result)
  {
    it.Rewind();
    out := [];
    while it.HasNext() == Ok(true)
      invariant it.result == old(it.result)
      invariant it.cursor.Some? && it.cursor.value.expected == |it.result|
      invariant it.cursor.value.pos <= |it.result|
      invariant out == it.result[..it.cursor.value.pos]
      decreases |it.result| - it.cursor.value.pos
    {
      var t := it.Next();
      out := out + [t.value];
    }
  }
}

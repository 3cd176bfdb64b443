/** simpledb.execution.StringAggregator: COUNT over string-valued fields,
    grouping the merged tuples' aggregate-field values by the group-by
    field's value in a map from key to value list. */
module StringAggregators {
  import opened Wrappers
  import opened Schema
  import opened Tuples
  import opened AggIterators

  /** The tuple has the fields mergeTupleIntoGroup reads. */
  predicate Fits(t: Tuple, gbfield: int, afield: nat) {
    afield < |t.fields| && (gbfield != NO_GROUPING ==> 0 <= gbfield < |t.fields|)
  }

  predicate AllFit(ts: seq<Tuple>, gbfield: int, afield: nat) {
    forall i :: 0 <= i < |ts| ==> Fits(ts[i], gbfield, afield)
  }

  /** The key a tuple is filed under: the group-by field's value, or null
      without grouping. */
  function KeyOf(t: Tuple, gbfield: int): Key
    requires gbfield != NO_GROUPING ==> 0 <= gbfield < |t.fields|
  {
    if gbfield == NO_GROUPING then None else t.fields[gbfield]
  }

  /** The map after merging `ts` in order into an empty map. */
  function Grouped(ts: seq<Tuple>, gbfield: int, afield: nat): map<Key, seq<Option<Field>>>
    requires AllFit(ts, gbfield, afield)
  {
    if ts == [] then map[]
    else
      var m := Grouped(ts[..|ts| - 1], gbfield, afield);
      var t := ts[|ts| - 1];
      var k := KeyOf(t, gbfield);
      if k in m then m[k := m[k] + [t.fields[afield]]] else m[k := [t.fields[afield]]]
  }

  /** Merging one more tuple extends its key's list, or starts it, and
      leaves every other group as it was. */
  lemma GroupedSnoc(ts: seq<Tuple>, gbfield: int, afield: nat, t: Tuple)
    requires AllFit(ts, gbfield, afield) && Fits(t, gbfield, afield)
    ensures AllFit(ts + [t], gbfield, afield)
    ensures var m, k := Grouped(ts, gbfield, afield), KeyOf(t, gbfield);
      Grouped(ts + [t], gbfield, afield) == m[k := (if k in m then m[k] else []) + [t.fields[afield]]]
  {
    assert (ts + [t])[..|ts|] == ts;
    var m, k := Grouped(ts, gbfield, afield), KeyOf(t, gbfield);
    if k !in m {
      assert [] + [t.fields[afield]] == [t.fields[afield]];
    }
  }

  /** The aggregate-field values of the tuples filed under `k`, in merge
      order: an independent, filter-style statement of a group. */
  function ValuesFor(ts: seq<Tuple>, gbfield: int, afield: nat, k: Key): seq<Option<Field>>
    requires AllFit(ts, gbfield, afield)
  {
    if ts == [] then []
    else
      var t := ts[|ts| - 1];
      ValuesFor(ts[..|ts| - 1], gbfield, afield, k) + (if KeyOf(t, gbfield) == k then [t.fields[afield]] else [])
  }

  /** How many of the tuples are filed under `k`. */
  function CountFor(ts: seq<Tuple>, gbfield: int, afield: nat, k: Key): nat
    requires AllFit(ts, gbfield, afield)
  {
    if ts == [] then 0
    else CountFor(ts[..|ts| - 1], gbfield, afield, k) + (if KeyOf(ts[|ts| - 1], gbfield) == k then 1 else 0)
  }

  /** The map holds a key exactly when some merged tuple is filed under
      it. */
  lemma {:induction false} GroupedKeys(ts: seq<Tuple>, gbfield: int, afield: nat, k: Key)
    requires AllFit(ts, gbfield, afield)
    ensures k in Grouped(ts, gbfield, afield) <==> exists i :: 0 <= i < |ts| && KeyOf(ts[i], gbfield) == k
  {
    if ts != [] {
      var init := ts[..|ts| - 1];
      GroupedKeys(init, gbfield, afield, k);
      if exists i :: 0 <= i < |init| && KeyOf(init[i], gbfield) == k {
        var i :| 0 <= i < |init| && KeyOf(init[i], gbfield) == k;
        assert ts[i] == init[i];
      }
      if exists i :: 0 <= i < |ts| && KeyOf(ts[i], gbfield) == k {
        var i :| 0 <= i < |ts| && KeyOf(ts[i], gbfield) == k;
        if i < |init| {
          assert init[i] == ts[i];
        }
      }
    }
  }

  /** A key's list is that key's values in merge order; a key the map
      lacks has no values. */
  lemma {:induction false} GroupedValues(ts: seq<Tuple>, gbfield: int, afield: nat, k: Key)
    requires AllFit(ts, gbfield, afield)
    ensures k in Grouped(ts, gbfield, afield) ==> Grouped(ts, gbfield, afield)[k] == ValuesFor(ts, gbfield, afield, k)
    ensures k !in Grouped(ts, gbfield, afield) ==> ValuesFor(ts, gbfield, afield, k) == []
  {
    if ts != [] {
      GroupedValues(ts[..|ts| - 1], gbfield, afield, k);
    }
  }

  /** The map holds a key exactly when some merged tuple is filed under it,
      and its list is that key's values in merge order. */
  lemma GroupedIsFilter(ts: seq<Tuple>, gbfield: int, afield: nat, k: Key)
    requires AllFit(ts, gbfield, afield)
    ensures k in Grouped(ts, gbfield, afield) <==> exists i :: 0 <= i < |ts| && KeyOf(ts[i], gbfield) == k
    ensures k in Grouped(ts, gbfield, afield) ==> Grouped(ts, gbfield, afield)[k] == ValuesFor(ts, gbfield, afield, k)
    ensures k !in Grouped(ts, gbfield, afield) ==> ValuesFor(ts, gbfield, afield, k) == []
  {
    GroupedKeys(ts, gbfield, afield, k);
    GroupedValues(ts, gbfield, afield, k);
  }

  /** A group is as long as the number of tuples filed under its key. */
  lemma {:induction false} GroupSizeIsCount(ts: seq<Tuple>, gbfield: int, afield: nat, k: Key)
    requires AllFit(ts, gbfield, afield)
    ensures |ValuesFor(ts, gbfield, afield, k)| == CountFor(ts, gbfield, afield, k)
  {
    if ts != [] {
      GroupSizeIsCount(ts[..|ts| - 1], gbfield, afield, k);
    }
  }

  /** Without grouping every tuple lands in the one group keyed by null,
      which holds one value per tuple. */
  lemma {:induction false} NoGroupingSingleKey(ts: seq<Tuple>, afield: nat)
    requires AllFit(ts, NO_GROUPING, afield)
    ensures Grouped(ts, NO_GROUPING, afield).Keys <= {None}
    ensures ts != [] ==> None in Grouped(ts, NO_GROUPING, afield)
    ensures ts != [] ==> |Grouped(ts, NO_GROUPING, afield)[None]| == |ts|
  {
    if ts != [] {
      NoGroupingSingleKey(ts[..|ts| - 1], afield);
    }
  }

  /** COUNT over a group built by merging counts the tuples merged under
      its key. */
  lemma CountMatchesMerges(ts: seq<Tuple>, gbfield: int, afield: nat, k: Key)
    requires AllFit(ts, gbfield, afield) && k in Grouped(ts, gbfield, afield)
    ensures Ready(Count, Grouped(ts, gbfield, afield)[k])
    ensures Aggregate(Count, Grouped(ts, gbfield, afield)[k]) == CountFor(ts, gbfield, afield, k)
    ensures CountFor(ts, gbfield, afield, k) > 0
  {
    GroupedIsFilter(ts, gbfield, afield, k);
    GroupSizeIsCount(ts, gbfield, afield, k);
    var i :| 0 <= i < |ts| && KeyOf(ts[i], gbfield) == k;
    CountPositive(ts, gbfield, afield, k, i);
  }

  lemma {:induction false} CountPositive(ts: seq<Tuple>, gbfield: int, afield: nat, k: Key, i: nat)
    requires AllFit(ts, gbfield, afield)
    requires i < |ts| && KeyOf(ts[i], gbfield) == k
    ensures CountFor(ts, gbfield, afield, k) > 0
  {
    if i < |ts| - 1 {
      CountPositive(ts[..|ts| - 1], gbfield, afield, k, i);
    }
  }

  class StringAggregator {
    const gbfield: int
    const gbfieldtype: FieldType
    const afield: nat
    const what: Op
    var nameOfGbField: Option<string>
    var nameOfAggField: Option<string>
    var tmpResult: map<Key, seq<Option<Field>>>
    ghost var merged: seq<Tuple>   // the tuples merged so far, in order

    /** The map is the grouping of the merged tuples, and the operator is
        COUNT. */
    ghost predicate Valid()
      reads this
    {
      what == Count && AllFit(merged, gbfield, afield) && tmpResult == Grouped(merged, gbfield, afield)
    }

    /** The allocation half of the constructor, once the operator check has
        passed. */
    constructor (gbfield: int, gbfieldtype: FieldType, afield: nat, what: Op)
      requires what == Count
      ensures Valid() && merged == []
      ensures this.gbfield == gbfield && this.gbfieldtype == gbfieldtype
      ensures this.afield == afield && this.what == what
      ensures tmpResult == map[] && nameOfGbField == None && nameOfAggField == None
    {
      this.gbfield := gbfield;
      this.gbfieldtype := gbfieldtype;
      this.afield := afield;
      this.what := what;
      nameOfGbField := None;
      nameOfAggField := None;
      tmpResult := map[];
      merged := [];
    }

    /** The constructor: IllegalArgumentException for any operator but
        COUNT, else an aggregator with an empty map and both field names
        still null. */
    static method Create(gbfield: int, gbfieldtype: FieldType, afield: nat, what: Op)
      returns (r: Result<StringAggregator>)
      ensures r.Err? <==> what != Count
      ensures r.Err? ==> r.error == IllegalArgument
      ensures r.Ok? ==> fresh(r.value) && r.value.Valid() && r.value.merged == []
      ensures r.Ok? ==> r.value.gbfield == gbfield && r.value.afield == afield && r.value.what == Count
      ensures r.Ok? ==> r.value.gbfieldtype == gbfieldtype && r.value.tmpResult == map[]
      ensures r.Ok? ==> r.value.nameOfGbField == None && r.value.nameOfAggField == None
    {
      if what != Count {
        return Err(IllegalArgument);
      }
      var agg := new StringAggregator(gbfield, gbfieldtype, afield, what);
      return Ok(agg);
    }

    /** The name capture at the head of mergeTupleIntoGroup: each field
        name is looked up while it is still null, so the first non-null name
        sticks. A lookup that throws ends the merge. */
    method CaptureNames(tup: Tuple) returns (r: Result<()>)
      modifies this
      ensures merged == old(merged) && tmpResult == old(tmpResult)
      ensures r.Err? <==>
        || (old(nameOfAggField).None? && tup.desc.GetFieldName(afield).Err?)
        || (gbfield != NO_GROUPING && old(nameOfGbField).None? && tup.desc.GetFieldName(gbfield).Err?)
      ensures old(nameOfAggField).Some? ==> nameOfAggField == old(nameOfAggField)
      ensures old(nameOfGbField).Some? || gbfield == NO_GROUPING ==> nameOfGbField == old(nameOfGbField)
      ensures r.Ok? && old(nameOfAggField).None? ==> tup.desc.GetFieldName(afield) == Ok(nameOfAggField)
      ensures r.Ok? && gbfield != NO_GROUPING && old(nameOfGbField).None? ==>
        tup.desc.GetFieldName(gbfield) == Ok(nameOfGbField)
    {
      if nameOfAggField.None? {
        var name := tup.desc.GetFieldName(afield);
        if name.Err? {
          return Err(name.error);
        }
        nameOfAggField := name.value;
      }
      if gbfield != NO_GROUPING && nameOfGbField.None? {
        var name := tup.desc.GetFieldName(gbfield);
        if name.Err? {
          return Err(name.error);
        }
        nameOfGbField := name.value;
      }
      return Ok(());
    }

    /** mergeTupleIntoGroup: appends the tuple's aggregate-field value to
        its key's list, starting a one-element list for a new key and leaving
        every other group alone. The field names are looked up while still
        null, so the first non-null name sticks; a name lookup that throws
        leaves the map as it was. */
    method MergeTupleIntoGroup(tup: Tuple) returns (r: Result<()>)
      requires Valid() && Fits(tup, gbfield, afield)
      modifies this
      ensures Valid()
      ensures r.Ok? ==>
        var k := KeyOf(tup, gbfield);
        && merged == old(merged) + [tup]
        && tmpResult == old(tmpResult)[k := (if k in old(tmpResult) then old(tmpResult)[k] else []) + [tup.fields[afield]]]
      ensures r.Err? ==> merged == old(merged) && tmpResult == old(tmpResult)
      ensures r.Err? <==>
        || (old(nameOfAggField).None? && tup.desc.GetFieldName(afield).Err?)
        || (gbfield != NO_GROUPING && old(nameOfGbField).None? && tup.desc.GetFieldName(gbfield).Err?)
      ensures old(nameOfAggField).Some? ==> nameOfAggField == old(nameOfAggField)
      ensures old(nameOfGbField).Some? || gbfield == NO_GROUPING ==> nameOfGbField == old(nameOfGbField)
      ensures r.Ok? && old(nameOfAggField).None? ==> tup.desc.GetFieldName(afield) == Ok(nameOfAggField)
      ensures r.Ok? && gbfield != NO_GROUPING && old(nameOfGbField).None? ==>
        tup.desc.GetFieldName(gbfield) == Ok(nameOfGbField)
    {
      var aggField := tup.fields[afield];
      var groupByField: Key := if gbfield != NO_GROUPING then tup.fields[gbfield] else None;
      r := CaptureNames(tup);
      if r.Err? {
        return;
      }
      GroupedSnoc(merged, gbfield, afield, tup);
      merged := merged + [tup];
      if groupByField in tmpResult {
        tmpResult := tmpResult[groupByField := tmpResult[groupByField] + [aggField]];
      } else {
        tmpResult := tmpResult[groupByField := [aggField]];
      }
    }

    /** iterator: an AggIterator over the current groups with the captured
        names; the map is handed over as it stands. */
    method Iterator() returns (it: AggIterator)
      requires Valid()
      ensures fresh(it) && fresh(it.td)
      ensures it.tmpResult == tmpResult && it.what == Count
      ensures it.result == [] && it.cursor == None
      ensures gbfield != NO_GROUPING ==>
        it.td.items == [TDItem(gbfieldtype, nameOfGbField), TDItem(IntType, nameOfAggField)]
      ensures gbfield == NO_GROUPING ==> it.td.items == [TDItem(IntType, nameOfAggField)]
    {
      it := new AggIterator(tmpResult, what, gbfield, gbfieldtype, nameOfGbField, nameOfAggField);
    }
  }
}

/** The row schema of simpledb.storage.TupleDesc: an ordered list of
    (type, optional name) items, kept in a field that the constructors fill
    and that `SetTupleDesc` replaces. */
module Schema {
  import opened Wrappers

  /** simpledb.common.Type. Each type's byte width (Type.getLen) is not part
      of this model; the operations that need it take it as `len`. */
  datatype FieldType = IntType | StringType

  /** TupleDesc.TDItem. A `None` name is Java's null. Datatype equality is
      TDItem.equals: equal types and `Objects.equals` on the names. */
  datatype TDItem = TDItem(fieldType: FieldType, fieldName: Option<string>)

  /** Total byte width of a list of items, the sum of the per-type widths. */
  function Width(items: seq<TDItem>, len: FieldType -> nat): nat {
    if items == [] then 0 else Width(items[..|items| - 1], len) + len(items[|items| - 1].fieldType)
  }

  /** Widths add up over concatenation, so a merged schema is as wide as
      its two halves together. */
  lemma {:induction false} WidthAppend(a: seq<TDItem>, b: seq<TDItem>, len: FieldType -> nat)
    ensures Width(a + b, len) == Width(a, len) + Width(b, len)
  {
    if b == [] {
      assert a + b == a;
    } else {
      var b' := b[..|b| - 1];
      assert (a + b)[..|a + b| - 1] == a + b';
      WidthAppend(a, b', len);
    }
  }

  /** The lookup test of fieldNameToIndex: a null item name never matches,
      and a null query never equals a name. */
  predicate Named(item: TDItem, name: Option<string>) {
    item.fieldName.Some? && item.fieldName == name
  }

  /** The equality the doc-comment of TupleDesc.equals describes: same
      length and the same type at every index, names ignored. */
  predicate SameTypes(a: seq<TDItem>, b: seq<TDItem>) {
    |a| == |b| && forall i :: 0 <= i < |a| ==> a[i].fieldType == b[i].fieldType
  }

  /** TupleDesc.equals as written compares whole items, so it is strictly
      finer than the types-only equality of its doc-comment: equal item lists
      have the same types, but two schemas differing only in a name are not
      equal. */
  lemma EqualsStricterThanTypes(a: seq<TDItem>, b: seq<TDItem>)
    ensures a == b ==> SameTypes(a, b)
    ensures var x, y := [TDItem(IntType, Some("a"))], [TDItem(IntType, Some("b"))];
      SameTypes(x, y) && x != y
  {
  }

  class TupleDesc {
    var items: seq<TDItem>

    /** The no-argument constructor, used by merge. */
    constructor Empty()
      ensures items == []
    {
      items := [];
    }

    /** TupleDesc(Type[], String[]): one item per index when the arrays have
        the same length, and silently no items at all when they do not. */
    constructor FromArrays(typeAr: seq<FieldType>, fieldAr: seq<Option<string>>)
      ensures |typeAr| == |fieldAr| ==>
        |items| == |typeAr| && forall i :: 0 <= i < |items| ==> items[i] == TDItem(typeAr[i], fieldAr[i])
      ensures |typeAr| != |fieldAr| ==> items == []
    {
      var acc: seq<TDItem> := [];
      if |typeAr| == |fieldAr| {
        var i := 0;
        while i < |typeAr|
          invariant 0 <= i <= |typeAr|
          invariant |acc| == i
          invariant forall j :: 0 <= j < i ==> acc[j] == TDItem(typeAr[j], fieldAr[j])
        {
          acc := acc + [TDItem(typeAr[i], fieldAr[i])];
          i := i + 1;
        }
      }
      items := acc;
    }

    /** TupleDesc(Type[]): the types in order, every name null. */
    constructor FromTypes(typeAr: seq<FieldType>)
      ensures |items| == |typeAr|
      ensures forall i :: 0 <= i < |items| ==> items[i] == TDItem(typeAr[i], None)
    {
      var acc: seq<TDItem> := [];
      var i := 0;
      while i < |typeAr|
        invariant 0 <= i <= |typeAr|
        invariant |acc| == i
        invariant forall j :: 0 <= j < i ==> acc[j] == TDItem(typeAr[j], None)
      {
        acc := acc + [TDItem(typeAr[i], None)];
        i := i + 1;
      }
      items := acc;
    }

    /** setTupleDesc replaces the item list and nothing else. */
    method SetTupleDesc(newItems: seq<TDItem>)
      modifies this
      ensures items == newItems
    {
      items := newItems;
    }

    /** numFields: the number of items, which is the index bound of every
        field lookup. */
    function NumFields(): (n: nat)
      reads this
      ensures n == |items|
      ensures n == 0 <==> items == []
    {
      |items|
    }

    /** getFieldName as written: the guard `i > numFields()` lets
        `i == numFields()` reach `List.get`, which throws
        IndexOutOfBoundsException instead of NoSuchElementException. */
    function GetFieldNameAsWritten(i: int): (r: Result<Option<string>>)
      reads this
      ensures 0 <= i < NumFields() ==> r == Ok(items[i].fieldName)
      ensures i == NumFields() ==> r == Err(IndexOutOfBounds)
      ensures (i < 0 || i > NumFields()) ==> r == Err(NoSuchElement)
    {
      if i < 0 || i > NumFields() then Err(NoSuchElement)
      else if i == NumFields() then Err(IndexOutOfBounds)
      else Ok(items[i].fieldName)
    }

    /** getFieldName as documented: the name of item `i` for a valid index,
        NoSuchElementException for every other index. */
    function GetFieldName(i: int): (r: Result<Option<string>>)
      reads this
      ensures r.Ok? <==> 0 <= i < NumFields()
      ensures r.Ok? ==> r.value == items[i].fieldName
      ensures r.Err? ==> r.error == NoSuchElement
    {
      if i < 0 || i >= NumFields() then Err(NoSuchElement) else Ok(items[i].fieldName)
    }

    /** getFieldType as written, with the same off-by-one guard. */
    function GetFieldTypeAsWritten(i: int): (r: Result<FieldType>)
      reads this
      ensures 0 <= i < NumFields() ==> r == Ok(items[i].fieldType)
      ensures i == NumFields() ==> r == Err(IndexOutOfBounds)
      ensures (i < 0 || i > NumFields()) ==> r == Err(NoSuchElement)
    {
      if i < 0 || i > NumFields() then Err(NoSuchElement)
      else if i == NumFields() then Err(IndexOutOfBounds)
      else Ok(items[i].fieldType)
    }

    /** getFieldType as documented. */
    function GetFieldType(i: int): (r: Result<FieldType>)
      reads this
      ensures r.Ok? <==> 0 <= i < NumFields()
      ensures r.Ok? ==> r.value == items[i].fieldType
      ensures r.Err? ==> r.error == NoSuchElement
    {
      if i < 0 || i >= NumFields() then Err(NoSuchElement) else Ok(items[i].fieldType)
    }

    /** fieldNameToIndex: the smallest index whose (non-null) name equals
        the query, or NoSuchElementException when there is none. */
    method FieldNameToIndex(name: Option<string>) returns (r: Result<nat>)
      ensures r.Ok? ==> r.value < |items| && Named(items[r.value], name)
      ensures r.Ok? ==> forall j :: 0 <= j < r.value ==> !Named(items[j], name)
      ensures r.Err? ==> r.error == NoSuchElement
      ensures r.Err? ==> forall j :: 0 <= j < |items| ==> !Named(items[j], name)
    {
      var i := 0;
      while i < |items|
        invariant 0 <= i <= |items|
        invariant forall j :: 0 <= j < i ==> !Named(items[j], name)
      {
        var currentName := items[i].fieldName;
        if currentName.Some? {
          if currentName == name {
            return Ok(i);
          }
        }
        i := i + 1;
      }
      return Err(NoSuchElement);
    }

    /** getSize: the byte size of a tuple of this schema. */
    method GetSize(len: FieldType -> nat) returns (length: nat)
      ensures length == Width(items, len)
    {
      length := 0;
      var i := 0;
      while i < |items|
        invariant 0 <= i <= |items|
        invariant length == Width(items[..i], len)
      {
        assert items[..i + 1][..i] == items[..i];
        length := length + len(items[i].fieldType);
        i := i + 1;
      }
      assert items[..i] == items;
    }

    /** merge: a fresh descriptor holding td1's items followed by td2's;
        neither input changes (the method modifies nothing). */
    static method Merge(td1: TupleDesc, td2: TupleDesc) returns (td: TupleDesc)
      ensures fresh(td)
      ensures td.items == td1.items + td2.items
      ensures |td.items| == |td1.items| + |td2.items|
      ensures forall len :: Width(td.items, len) == Width(td1.items, len) + Width(td2.items, len)
    {
      var tdItems := td1.items + td2.items;
      td := new TupleDesc.Empty();
      td.items := tdItems;
      forall len: FieldType -> nat
        ensures Width(td.items, len) == Width(td1.items, len) + Width(td2.items, len)
      {
        WidthAppend(td1.items, td2.items, len);
      }
    }

    /** equals: true exactly when `o` is a TupleDesc of the same length whose
        items are equal index by index, names included. */
    method Equals(o: object?) returns (r: bool)
      ensures r <==> (o is TupleDesc && |(o as TupleDesc).items| == |items| &&
                      forall i :: 0 <= i < |items| ==> items[i] == (o as TupleDesc).items[i])
      ensures r ==> SameTypes(items, (o as TupleDesc).items)
    {
      if o is TupleDesc {
        var o1 := o as TupleDesc;
        var other := o1.items;
        if |items| == |other| {
          var i := 0;
          while i < |items|
            invariant 0 <= i <= |items|
            invariant forall j :: 0 <= j < i ==> items[j] == other[j]
          {
            if items[i] != other[i] {
              return false;
            }
            i := i + 1;
          }
          return true;
        }
      }
      return false;
    }
  }

  /** equals is reflexive. */
  method EqualsReflexive(td: TupleDesc) returns (r: bool)
    ensures r
  {
    r := td.Equals(td);
  }

  /** The input that shows the field-lookup guard wrong: index 1 of a
      one-field schema. As written the lookups fail in List.get with
      IndexOutOfBoundsException; as documented they throw
      NoSuchElementException. */
  method FieldBoundCounterexample()
      returns (nameAsWritten: Result<Option<string>>, nameIntended: Result<Option<string>>,
               typeAsWritten: Result<FieldType>, typeIntended: Result<FieldType>)
    ensures nameAsWritten == Err(IndexOutOfBounds) && nameIntended == Err(NoSuchElement)
    ensures typeAsWritten == Err(IndexOutOfBounds) && typeIntended == Err(NoSuchElement)
  {
    var td := new TupleDesc.FromTypes([IntType]);
    nameAsWritten := td.GetFieldNameAsWritten(1);
    nameIntended := td.GetFieldName(1);
    typeAsWritten := td.GetFieldTypeAsWritten(1);
    typeIntended := td.GetFieldType(1);
  }
}

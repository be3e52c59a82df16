/**
 * TupleDesc: the schema of a tuple, an ordered list of (type, name) items.
 * The Java class keeps the items in an ArrayList and walks them with index
 * loops; here the list is a sequence, each loop is a method, and each method
 * is proved against a function that says what the loop computes.
 */
module TupleDescs {
  import opened JavaLang

  /** The column types of the engine. */
  datatype Type = INT_TYPE | STRING_TYPE

  /** The enum constant's name, which is what `Type.toString()` gives. */
  function TypeName(t: Type): string
  {
    match t
    case INT_TYPE => "INT_TYPE"
    case STRING_TYPE => "STRING_TYPE"
  }

  datatype TDItem = TDItem(fieldType: Type, fieldName: string)

  /** `TDItem.toString()`: the name, then the type in parentheses. */
  function ItemString(item: TDItem): string
  {
    item.fieldName + "(" + TypeName(item.fieldType) + ")"
  }

  datatype TupleDesc = TupleDesc(items: seq<TDItem>)

  /** A null name is stored as the empty string. */
  function NameOrEmpty(name: Option<string>): string
  {
    if name.Some? then name.value else ""
  }

  function NumFields(td: TupleDesc): nat { |td.items| }

  /**
   * `TupleDesc(typeAr, fieldAr)`: one item per type, named by the name at the
   * same index. Reading a name past the end of `fieldAr` throws.
   */
  method New(typeAr: seq<Type>, fieldAr: seq<Option<string>>) returns (r: Result<TupleDesc>)
    ensures r.Err? <==> |fieldAr| < |typeAr|
    ensures r.Err? ==> r.error == IndexOutOfBounds
    ensures r.Ok? ==> NumFields(r.value) == |typeAr|
    ensures r.Ok? ==> forall i :: 0 <= i < |typeAr| ==>
              r.value.items[i] == TDItem(typeAr[i], NameOrEmpty(fieldAr[i]))
  {
    var items: seq<TDItem> := [];
    var field := 0;
    while field < |typeAr|
      invariant 0 <= field <= |typeAr|
      invariant field <= |fieldAr|
      invariant |items| == field
      invariant forall i :: 0 <= i < field ==> items[i] == TDItem(typeAr[i], NameOrEmpty(fieldAr[i]))
    {
      if field >= |fieldAr| {
        return Err(IndexOutOfBounds);
      }
      items := items + [TDItem(typeAr[field], NameOrEmpty(fieldAr[field]))];
      field := field + 1;
    }
    r := Ok(TupleDesc(items));
  }

  /** `TupleDesc(typeAr)`: one anonymous item (name "") per type. */
  method NewUnnamed(typeAr: seq<Type>) returns (td: TupleDesc)
    ensures NumFields(td) == |typeAr|
    ensures forall i :: 0 <= i < |typeAr| ==> td.items[i] == TDItem(typeAr[i], "")
  {
    var items: seq<TDItem> := [];
    var field := 0;
    while field < |typeAr|
      invariant 0 <= field <= |typeAr|
      invariant |items| == field
      invariant forall i :: 0 <= i < field ==> items[i] == TDItem(typeAr[i], "")
    {
      items := items + [TDItem(typeAr[field], "")];
      field := field + 1;
    }
    td := TupleDesc(items);
  }

  /** `getFieldName(i)`: the i-th name, or NoSuchElementException for a bad index. */
  function GetFieldName(td: TupleDesc, i: int): (r: Result<string>)
    ensures r.Ok? <==> 0 <= i < NumFields(td)
    ensures r.Ok? ==> r.value == td.items[i].fieldName
    ensures r.Err? ==> r.error == NoSuchElement
  {
    if 0 <= i < |td.items| then Ok(td.items[i].fieldName) else Err(NoSuchElement)
  }

  /** `getFieldType(i)`: the i-th type, or NoSuchElementException for a bad index. */
  function GetFieldType(td: TupleDesc, i: int): (r: Result<Type>)
    ensures r.Ok? <==> 0 <= i < NumFields(td)
    ensures r.Ok? ==> r.value == td.items[i].fieldType
    ensures r.Err? ==> r.error == NoSuchElement
  {
    if 0 <= i < |td.items| then Ok(td.items[i].fieldType) else Err(NoSuchElement)
  }

  /** What the constructors store can be read back through the getters. */
  lemma ConstructedFieldsReadBack(typeAr: seq<Type>, fieldAr: seq<Option<string>>, td: TupleDesc, i: int)
    requires |fieldAr| >= |typeAr| && 0 <= i < |typeAr|
    requires |td.items| == |typeAr|
    requires forall j :: 0 <= j < |typeAr| ==> td.items[j] == TDItem(typeAr[j], NameOrEmpty(fieldAr[j]))
    ensures GetFieldType(td, i) == Ok(typeAr[i])
    ensures GetFieldName(td, i) == Ok(if fieldAr[i].None? then "" else fieldAr[i].value)
  {
  }

  /**
   * `fieldNameToIndex(name)`: the first index carrying `name`; a null name or
   * a name that no field carries throws NoSuchElementException.
   */
  method FieldNameToIndex(td: TupleDesc, name: Option<string>) returns (r: Result<nat>)
    ensures name.None? ==> r == Err(NoSuchElement)
    ensures r.Err? ==> r.error == NoSuchElement
    ensures r.Ok? ==> name.Some? && r.value < NumFields(td)
                      && td.items[r.value].fieldName == name.value
                      && forall j :: 0 <= j < r.value ==> td.items[j].fieldName != name.value
    ensures name.Some? && r.Err? ==> forall j :: 0 <= j < NumFields(td) ==> td.items[j].fieldName != name.value
  {
    if name.None? {
      return Err(NoSuchElement);
    }
    var field := 0;
    while field < |td.items|
      invariant 0 <= field <= |td.items|
      invariant forall j :: 0 <= j < field ==> td.items[j].fieldName != name.value
    {
      if td.items[field].fieldName == name.value {
        return Ok(field);
      }
      field := field + 1;
    }
    r := Err(NoSuchElement);
  }

  /** The sum of the field lengths of `items`, given the length of each type. */
  function SumLen(items: seq<TDItem>, len: Type -> nat): nat
    decreases |items|
  {
    if items == [] then 0 else SumLen(items[..|items| - 1], len) + len(items[|items| - 1].fieldType)
  }

  lemma {:induction false} SumLenAppend(a: seq<TDItem>, b: seq<TDItem>, len: Type -> nat)
    ensures SumLen(a + b, len) == SumLen(a, len) + SumLen(b, len)
    decreases |b|
  {
    if b != [] {
      var b' := b[..|b| - 1];
      assert (a + b)[..|a + b| - 1] == a + b';
      assert (a + b)[|a + b| - 1] == b[|b| - 1];
      SumLenAppend(a, b', len);
      assert SumLen(b, len) == SumLen(b', len) + len(b[|b| - 1].fieldType);
    } else {
      assert a + b == a;
    }
  }

  /** When every type has a positive length, a tuple takes at least a byte per field. */
  lemma {:induction false} SumLenAtLeastFields(items: seq<TDItem>, len: Type -> nat)
    requires forall t :: len(t) > 0
    ensures SumLen(items, len) >= |items|
    decreases |items|
  {
    if items != [] {
      SumLenAtLeastFields(items[..|items| - 1], len);
    }
  }

  /**
   * `getSize()`: the byte size of a tuple of this schema, the sum of its
   * fields' lengths, added up in a Java `int` and so wrapped to 32 bits.
   * `Type.getLen` is a parameter here.
   */
  method GetSize(td: TupleDesc, len: Type -> nat) returns (size: int)
    ensures size == ToInt32(SumLen(td.items, len))
    ensures IsInt32(SumLen(td.items, len)) ==> size == SumLen(td.items, len)
  {
    size := 0;
    var field := 0;
    while field < |td.items|
      invariant 0 <= field <= |td.items|
      invariant size == ToInt32(SumLen(td.items[..field], len))
    {
      assert td.items[..field + 1][..field] == td.items[..field];
      ToInt32AddWrapped(SumLen(td.items[..field], len), len(td.items[field].fieldType));
      size := ToInt32(size + len(td.items[field].fieldType));
      field := field + 1;
    }
    assert td.items[..field] == td.items;
  }

  /** The schema `merge` builds: the items of `td1`, then those of `td2`. */
  function Merged(td1: TupleDesc, td2: TupleDesc): TupleDesc
  {
    TupleDesc(td1.items + td2.items)
  }

  /** A merged schema has n1 + n2 fields, td1's first, and the two sizes add up. */
  lemma MergedShape(td1: TupleDesc, td2: TupleDesc, len: Type -> nat)
    ensures NumFields(Merged(td1, td2)) == NumFields(td1) + NumFields(td2)
    ensures forall i :: 0 <= i < NumFields(td1) ==> GetFieldType(Merged(td1, td2), i) == GetFieldType(td1, i)
    ensures forall i :: 0 <= i < NumFields(td2) ==>
              GetFieldType(Merged(td1, td2), NumFields(td1) + i) == GetFieldType(td2, i)
    ensures SumLen(Merged(td1, td2).items, len) == SumLen(td1.items, len) + SumLen(td2.items, len)
  {
    var m := Merged(td1, td2);
    forall i | 0 <= i < NumFields(td1)
      ensures GetFieldType(m, i) == GetFieldType(td1, i)
    {
      assert m.items[i] == td1.items[i];
    }
    forall i | 0 <= i < NumFields(td2)
      ensures GetFieldType(m, NumFields(td1) + i) == GetFieldType(td2, i)
    {
      assert m.items[NumFields(td1) + i] == td2.items[i];
    }
    SumLenAppend(td1.items, td2.items, len);
  }

  /**
   * `merge(td1, td2)`: copies the types and names of both schemas into two
   * arrays, td1's first, and builds a schema from them.
   */
  method Merge(td1: TupleDesc, td2: TupleDesc) returns (td: TupleDesc)
    ensures td == Merged(td1, td2)
  {
    var n1, n2 := NumFields(td1), NumFields(td2);
    var typeAr := new Type[n1 + n2];
    var fieldAr := new Option<string>[n1 + n2](_ => None);
    for i := 0 to n1
      invariant forall j :: 0 <= j < i ==> typeAr[j] == td1.items[j].fieldType
      invariant forall j :: 0 <= j < i ==> fieldAr[j] == Some(td1.items[j].fieldName)
    {
      typeAr[i] := td1.items[i].fieldType;
      fieldAr[i] := Some(td1.items[i].fieldName);
    }
    for i := 0 to n2
      invariant forall j :: 0 <= j < n1 ==> typeAr[j] == td1.items[j].fieldType
      invariant forall j :: 0 <= j < n1 ==> fieldAr[j] == Some(td1.items[j].fieldName)
      invariant forall j :: 0 <= j < i ==> typeAr[n1 + j] == td2.items[j].fieldType
      invariant forall j :: 0 <= j < i ==> fieldAr[n1 + j] == Some(td2.items[j].fieldName)
    {
      typeAr[i + n1] := td2.items[i].fieldType;
      fieldAr[i + n1] := Some(td2.items[i].fieldName);
    }
    var r := New(typeAr[..], fieldAr[..]);
    td := r.value;
    assert forall j :: 0 <= j < n1 + n2 ==> td.items[j] == (td1.items + td2.items)[j] by {
      forall j | 0 <= j < n1 + n2
        ensures td.items[j] == (td1.items + td2.items)[j]
      {
        if j >= n1 {
          assert fieldAr[n1 + (j - n1)] == Some(td2.items[j - n1].fieldName);
        }
      }
    }
  }

  /** What `equals` compares: the same number of fields and the same type at each index. */
  predicate SameTypes(a: TupleDesc, b: TupleDesc)
  {
    |a.items| == |b.items| && forall i :: 0 <= i < |a.items| ==> a.items[i].fieldType == b.items[i].fieldType
  }

  /** Type-only equality ignores names, and is an equivalence relation. */
  lemma SameTypesIsEquivalence(a: TupleDesc, b: TupleDesc, c: TupleDesc)
    ensures SameTypes(a, a)
    ensures SameTypes(a, b) ==> SameTypes(b, a)
    ensures SameTypes(a, b) && SameTypes(b, c) ==> SameTypes(a, c)
  {
  }

  /** What `equals(Object o)` may be handed: a schema, or anything else (or null). */
  datatype Obj = TupleDescObj(td: TupleDesc) | OtherObj

  /** `equals`: false for non-schemas, else field counts and types must agree index by index. */
  method Equals(td: TupleDesc, o: Obj) returns (r: bool)
    ensures r <==> o.TupleDescObj? && SameTypes(td, o.td)
  {
    if o.OtherObj? {
      return false;
    }
    var other := o.td;
    if |other.items| != |td.items| {
      return false;
    }
    var field := 0;
    while field < |td.items|
      invariant 0 <= field <= |td.items|
      invariant forall i :: 0 <= i < field ==> td.items[i].fieldType == other.items[i].fieldType
    {
      if td.items[field].fieldType != other.items[field].fieldType {
        return false;
      }
      field := field + 1;
    }
    r := true;
  }

  /** The items' strings joined with ", " ("" for no items). */
  function Describe(items: seq<TDItem>): string
    decreases |items|
  {
    if |items| == 0 then ""
    else if |items| == 1 then ItemString(items[0])
    else Describe(items[..|items| - 1]) + ", " + ItemString(items[|items| - 1])
  }

  /** Describing a merged schema joins the two descriptions with ", ". */
  lemma {:induction false} DescribeAppend(a: seq<TDItem>, b: seq<TDItem>)
    requires a != [] && b != []
    ensures Describe(a + b) == Describe(a) + ", " + Describe(b)
    decreases |b|
  {
    if |b| == 1 {
      assert (a + b)[..|a + b| - 1] == a;
    } else {
      var b' := b[..|b| - 1];
      assert (a + b)[..|a + b| - 1] == a + b';
      DescribeAppend(a, b');
    }
  }

  /** `toString()`: "" for no fields, otherwise every item's string, separated by ", ". */
  method ToString(td: TupleDesc) returns (s: string)
    ensures s == Describe(td.items)
    ensures NumFields(td) == 0 <==> s == ""
  {
    if NumFields(td) == 0 {
      return "";
    }
    s := ItemString(td.items[0]);
    var i := 1;
    assert td.items[..1] == [td.items[0]];
    while i < NumFields(td)
      invariant 1 <= i <= NumFields(td)
      invariant s == Describe(td.items[..i])
    {
      assert td.items[..i + 1][..i] == td.items[..i];
      s := s + ", " + ItemString(td.items[i]);
      i := i + 1;
    }
    assert td.items[..i] == td.items;
    assert |s| > 0 by {
      DescribeNonEmpty(td.items);
    }
  }

  lemma {:induction false} DescribeNonEmpty(items: seq<TDItem>)
    requires items != []
    ensures |Describe(items)| > 0
    decreases |items|
  {
    if |items| > 1 {
      DescribeNonEmpty(items[..|items| - 1]);
    }
  }
}

/** The identity of a heap page: which table, which page of it. */
module HeapPageIds {
  import opened JavaLang

  /** An immutable (table id, page number) pair, compared field by field. */
  datatype HeapPageId = HeapPageId(tableId: int, pgNo: int)

  /**
   * What `equals(Object o)` may be handed: a heap page id, some other
   * implementation of `PageId`, or an object that is no page id at all
   * (including null, for which `instanceof` is false).
   */
  datatype Obj = HeapPageIdObj(id: HeapPageId) | OtherPageIdObj | NotAPageIdObj

  function GetTableId(p: HeapPageId): int { p.tableId }

  function PageNumber(p: HeapPageId): int { p.pgNo }

  /** The getters give back exactly what the constructor was given. */
  lemma GettersReturnConstructorArgs(tableId: int, pgNo: int)
    ensures GetTableId(HeapPageId(tableId, pgNo)) == tableId
    ensures PageNumber(HeapPageId(tableId, pgNo)) == pgNo
  {
  }

  /**
   * `equals`: false for anything that is not a `PageId`; a cast failure for a
   * `PageId` that is not a `HeapPageId`; otherwise both fields must match.
   */
  function Equals(p: HeapPageId, o: Obj): (r: Result<bool>)
    ensures o.NotAPageIdObj? ==> r == Ok(false)
    ensures o.OtherPageIdObj? ==> r == Err(ClassCast)
    ensures o.HeapPageIdObj? ==> r == Ok(p == o.id)
  {
    match o
    case NotAPageIdObj => Ok(false)
    case OtherPageIdObj => Err(ClassCast)
    case HeapPageIdObj(q) => Ok(p.pgNo == q.pgNo && p.tableId == q.tableId)
  }

  /** `equals` restricted to heap page ids is an equivalence relation. */
  lemma EqualsIsEquivalence(p: HeapPageId, q: HeapPageId, s: HeapPageId)
    ensures Equals(p, HeapPageIdObj(p)) == Ok(true)
    ensures Equals(p, HeapPageIdObj(q)) == Equals(q, HeapPageIdObj(p))
    ensures Equals(p, HeapPageIdObj(q)) == Ok(true) && Equals(q, HeapPageIdObj(s)) == Ok(true)
            ==> Equals(p, HeapPageIdObj(s)) == Ok(true)
  {
  }

  /** `serialize`: the two constructor arguments, table id first. */
  function Serialize(p: HeapPageId): (data: seq<int>)
    ensures |data| == 2
  {
    [GetTableId(p), PageNumber(p)]
  }

  /** Feeding the serialized form back to the constructor gives an equal id. */
  lemma SerializeRoundTrip(p: HeapPageId)
    ensures var data := Serialize(p); |data| == 2 && Equals(HeapPageId(data[0], data[1]), HeapPageIdObj(p)) == Ok(true)
  {
  }

  /** The string whose Java hash is the page id's hash: the two decimals, concatenated. */
  function HashKey(p: HeapPageId): string
  {
    Decimal(p.tableId) + Decimal(p.pgNo)
  }

  /** `hashCode`: `String.hashCode` of the concatenated decimal forms. */
  function HashCode(p: HeapPageId): (h: int)
    ensures IsInt32(h)
  {
    StringHash(HashKey(p))
  }

  /** Ids that `equals` relates hash alike, as hash tables require. */
  lemma EqualIdsHashEqually(p: HeapPageId, q: HeapPageId)
    requires Equals(p, HeapPageIdObj(q)) == Ok(true)
    ensures HashCode(p) == HashCode(q)
  {
  }

  /** The hash is not injective: (1, 23) and (12, 3) both hash the string "123". */
  lemma HashCollision()
    ensures HeapPageId(1, 23) != HeapPageId(12, 3)
    ensures HashKey(HeapPageId(1, 23)) == HashKey(HeapPageId(12, 3)) == "123"
    ensures HashCode(HeapPageId(1, 23)) == HashCode(HeapPageId(12, 3))
  {
    assert NatDecimal(1) == "1";
    assert NatDecimal(2) == "2";
    assert NatDecimal(3) == "3";
    assert NatDecimal(23) == NatDecimal(2) + "3" == "23";
    assert NatDecimal(12) == NatDecimal(1) + "2" == "12";
  }
}

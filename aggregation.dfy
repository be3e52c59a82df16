/**
 * What the two grouping aggregators share: the operators, the group key of
 * a tuple, the per-group tuple count as a function of the tuples merged so
 * far, and the schema and shape of the rows their iterators emit.
 */
module Aggregation {
  import opened JavaLang
  import opened Fields
  import opened TupleDescs
  import opened Listings

  /** `Aggregator.NO_GROUPING`: the group-by index meaning "one group". */
  const NO_GROUPING: int := -1

  /** `Aggregator.Op`. */
  datatype Op = MIN | MAX | SUM | AVG | COUNT | SUM_COUNT | SC_AVG

  /** The group-by field can be read from `t` (or there is no grouping). */
  predicate HasGroupField(gbfield: int, t: Tuple)
  {
    gbfield == NO_GROUPING || 0 <= gbfield < |t|
  }

  predicate AllHaveGroupField(gbfield: int, ts: seq<Tuple>)
  {
    forall i :: 0 <= i < |ts| ==> HasGroupField(gbfield, ts[i])
  }

  /** The tuple's group: "" without grouping, otherwise the string form of its group-by field. */
  function GroupKey(gbfield: int, t: Tuple): (k: string)
    requires HasGroupField(gbfield, t)
    ensures gbfield == NO_GROUPING ==> k == ""
    ensures gbfield != NO_GROUPING && t[gbfield].IntField? ==> k == Decimal(t[gbfield].intValue)
    ensures gbfield != NO_GROUPING && t[gbfield].StringField? ==> k == t[gbfield].stringValue
  {
    if gbfield == NO_GROUPING then "" else FieldString(t[gbfield])
  }

  /**
   * The count map after merging `ts` in order: an unseen group starts at 1,
   * a seen one goes up by 1.
   */
  function Counts(gbfield: int, ts: seq<Tuple>): (m: map<string, nat>)
    requires AllHaveGroupField(gbfield, ts)
    ensures forall k :: k in m ==> m[k] >= 1
    decreases |ts|
  {
    if ts == [] then map[]
    else
      var m := Counts(gbfield, ts[..|ts| - 1]);
      var k := GroupKey(gbfield, ts[|ts| - 1]);
      m[k := if k in m then m[k] + 1 else 1]
  }

  /** An independent count: how many of `ts` fall into group `k`. */
  function CountOf(gbfield: int, ts: seq<Tuple>, k: string): nat
    requires AllHaveGroupField(gbfield, ts)
    decreases |ts|
  {
    if ts == [] then 0
    else CountOf(gbfield, ts[..|ts| - 1], k) + (if GroupKey(gbfield, ts[|ts| - 1]) == k then 1 else 0)
  }

  /**
   * The count map holds exactly the groups that occur, each with the number
   * of merged tuples in it.
   */
  lemma {:induction false} CountsAreGroupSizes(gbfield: int, ts: seq<Tuple>, k: string)
    requires AllHaveGroupField(gbfield, ts)
    ensures k in Counts(gbfield, ts) <==> exists i :: 0 <= i < |ts| && GroupKey(gbfield, ts[i]) == k
    ensures k in Counts(gbfield, ts) <==> CountOf(gbfield, ts, k) > 0
    ensures k in Counts(gbfield, ts) ==> Counts(gbfield, ts)[k] == CountOf(gbfield, ts, k)
    decreases |ts|
  {
    if ts != [] {
      var init := ts[..|ts| - 1];
      CountsAreGroupSizes(gbfield, init, k);
      if k in Counts(gbfield, init) {
        var i :| 0 <= i < |init| && GroupKey(gbfield, init[i]) == k;
        assert ts[i] == init[i];
      }
      if exists i :: 0 <= i < |ts| && GroupKey(gbfield, ts[i]) == k {
        var i :| 0 <= i < |ts| && GroupKey(gbfield, ts[i]) == k;
        if i < |init| {
          assert init[i] == ts[i];
        }
      }
    }
  }

  /** Without grouping every tuple lands in the group "", so there is at most one group. */
  lemma NoGroupingHasOneGroup(ts: seq<Tuple>)
    requires AllHaveGroupField(NO_GROUPING, ts)
    ensures Counts(NO_GROUPING, ts).Keys <= {""}
    ensures ts != [] ==> Counts(NO_GROUPING, ts) == map["" := |ts|]
  {
    if ts != [] {
      forall k | k in Counts(NO_GROUPING, ts) ensures k == "" {
        CountsAreGroupSizes(NO_GROUPING, ts, k);
      }
      CountsAreGroupSizes(NO_GROUPING, ts, "");
      CountOfAll(ts);
      assert GroupKey(NO_GROUPING, ts[0]) == "";
    }
  }

  lemma {:induction false} CountOfAll(ts: seq<Tuple>)
    requires AllHaveGroupField(NO_GROUPING, ts)
    ensures CountOf(NO_GROUPING, ts, "") == |ts|
    decreases |ts|
  {
    if ts != [] {
      CountOfAll(ts[..|ts| - 1]);
    }
  }

  /** The sum of `m` over the keys `keys`. */
  ghost function SumOver(m: map<string, nat>, keys: set<string>): nat
    requires keys <= m.Keys
    decreases keys
  {
    if keys == {} then 0
    else
      var k :| k in keys;
      m[k] + SumOver(m, keys - {k})
  }

  /** The sum of all counts. */
  ghost function SumCounts(m: map<string, nat>): nat
  {
    SumOver(m, m.Keys)
  }

  /** The sum may be taken by removing any key first. */
  lemma {:induction false} SumOverRemove(m: map<string, nat>, keys: set<string>, k: string)
    requires keys <= m.Keys && k in keys
    ensures SumOver(m, keys) == m[k] + SumOver(m, keys - {k})
    decreases keys
  {
    var j :| j in keys && SumOver(m, keys) == m[j] + SumOver(m, keys - {j});
    if j != k {
      SumOverRemove(m, keys - {j}, k);
      SumOverRemove(m, keys - {k}, j);
      assert keys - {j} - {k} == keys - {k} - {j};
    }
  }

  /** The sum over `keys` depends only on the values at `keys`. */
  lemma {:induction false} SumOverFrame(m: map<string, nat>, n: map<string, nat>, keys: set<string>)
    requires keys <= m.Keys && keys <= n.Keys
    requires forall k :: k in keys ==> m[k] == n[k]
    ensures SumOver(m, keys) == SumOver(n, keys)
    decreases keys
  {
    if keys != {} {
      var j :| j in keys && SumOver(m, keys) == m[j] + SumOver(m, keys - {j});
      SumOverRemove(n, keys, j);
      SumOverFrame(m, n, keys - {j});
    }
  }

  /** Adding one to a group's count, or opening a group at 1, adds one to the total. */
  lemma SumCountsBump(m: map<string, nat>, k: string)
    ensures SumCounts(m[k := if k in m then m[k] + 1 else 1]) == SumCounts(m) + 1
  {
    var m' := m[k := if k in m then m[k] + 1 else 1];
    SumOverRemove(m', m'.Keys, k);
    SumOverFrame(m, m', m.Keys - {k});
    assert m'.Keys - {k} == m.Keys - {k};
    if k in m {
      SumOverRemove(m, m.Keys, k);
    } else {
      assert m.Keys - {k} == m.Keys;
    }
  }

  /** The counts of all groups add up to the number of tuples merged. */
  lemma {:induction false} CountsSumToTotal(gbfield: int, ts: seq<Tuple>)
    requires AllHaveGroupField(gbfield, ts)
    ensures SumCounts(Counts(gbfield, ts)) == |ts|
    decreases |ts|
  {
    if ts != [] {
      var init := ts[..|ts| - 1];
      CountsSumToTotal(gbfield, init);
      SumCountsBump(Counts(gbfield, init), GroupKey(gbfield, ts[|ts| - 1]));
    }
  }

  /** The shape of the iterator's rows: [INT] without grouping, [group type, INT] with it; no names. */
  function OutputDesc(gbfield: int, gbfieldtype: Type): (td: TupleDesc)
    ensures gbfield == NO_GROUPING ==> NumFields(td) == 1 && td.items[0].fieldType == INT_TYPE
    ensures gbfield != NO_GROUPING ==>
              NumFields(td) == 2 && td.items[0].fieldType == gbfieldtype && td.items[1].fieldType == INT_TYPE
  {
    if gbfield == NO_GROUPING then TupleDesc([TDItem(INT_TYPE, "")])
    else TupleDesc([TDItem(gbfieldtype, ""), TDItem(INT_TYPE, "")])
  }

  /**
   * The group column of an output row: an int group key is parsed back with
   * `new Integer(key)` (NumberFormatException when it is not a number), a
   * string key is kept as is.
   */
  function GroupColumn(gbfieldtype: Type, key: string): (r: Result<Field>)
    ensures gbfieldtype == STRING_TYPE ==> r == Ok(StringField(key))
    ensures gbfieldtype == INT_TYPE ==>
              (r.Ok? <==> ParseInt(key).Ok?) && (r.Ok? ==> r.value == IntField(ParseInt(key).value))
  {
    if gbfieldtype == STRING_TYPE then Ok(StringField(key))
    else
      var n := ParseInt(key);
      if n.Err? then Err(n.error) else Ok(IntField(n.value))
  }

  /** The row for group `key` reporting `v`. */
  function Row(gbfield: int, gbfieldtype: Type, key: string, v: int): Result<Tuple>
  {
    if gbfield == NO_GROUPING then Ok([IntField(v)])
    else
      var g := GroupColumn(gbfieldtype, key);
      if g.Err? then Err(g.error) else Ok([g.value, IntField(v)])
  }

  predicate HasType(f: Field, t: Type)
  {
    if t == INT_TYPE then f.IntField? else f.StringField?
  }

  /**
   * Every row fits the output schema, its last column is the reported
   * value, and its group column gives back the group key of an int group
   * whose value fits in an `int`.
   */
  lemma RowFitsSchema(gbfield: int, gbfieldtype: Type, key: string, v: int)
    ensures var r := Row(gbfield, gbfieldtype, key, v);
            var td := OutputDesc(gbfield, gbfieldtype);
            r.Ok? ==> |r.value| == NumFields(td) && r.value[|r.value| - 1] == IntField(v)
                      && forall i :: 0 <= i < |r.value| ==> HasType(r.value[i], td.items[i].fieldType)
    ensures gbfield == NO_GROUPING || gbfieldtype == STRING_TYPE ==> Row(gbfield, gbfieldtype, key, v).Ok?
  {
  }

  /** Grouping on an int column: the group column of the output is the group's value again. */
  lemma IntGroupKeyParsesBack(gbfield: int, t: Tuple, v: int)
    requires gbfield != NO_GROUPING && HasGroupField(gbfield, t)
    requires t[gbfield].IntField? && IsInt32(t[gbfield].intValue)
    ensures Row(gbfield, INT_TYPE, GroupKey(gbfield, t), v) == Ok([t[gbfield], IntField(v)])
  {
    ParseDecimal(t[gbfield].intValue);
  }

  /** What an aggregator iterator returns: the schema and the rows. */
  datatype TupleIterator = TupleIterator(td: TupleDesc, tuples: seq<Tuple>)
}

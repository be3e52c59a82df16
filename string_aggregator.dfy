/**
 * StringAggregator: COUNT per group over any column. Its only state is the
 * count map, which after merging a sequence of tuples is `Counts` of it.
 */
module StringAggregators {
  import opened JavaLang
  import opened Fields
  import opened TupleDescs
  import opened Aggregation
  import opened Listings

  /** Only COUNT is supported. */
  predicate SupportedOp(what: Op) { what == COUNT }

  /** The aggregate field plays no part: tuples with the same group keys give the same counts. */
  lemma {:induction false} CountsIgnoreOtherFields(gbfield: int, ts: seq<Tuple>, us: seq<Tuple>)
    requires AllHaveGroupField(gbfield, ts) && AllHaveGroupField(gbfield, us)
    requires |ts| == |us|
    requires forall i :: 0 <= i < |ts| ==> GroupKey(gbfield, ts[i]) == GroupKey(gbfield, us[i])
    ensures Counts(gbfield, ts) == Counts(gbfield, us)
    decreases |ts|
  {
    if ts != [] {
      CountsIgnoreOtherFields(gbfield, ts[..|ts| - 1], us[..|us| - 1]);
    }
  }

  class StringAggregator {
    const gbfield: int
    const gbfieldtype: Type
    const afield: int
    const what: Op
    /** Group key to the number of tuples merged into the group. */
    var countMap: map<string, nat>
    /** The tuples merged so far, in order. */
    ghost var merged: seq<Tuple>

    ghost predicate Valid()
      reads this
    {
      SupportedOp(what) && AllHaveGroupField(gbfield, merged) && countMap == Counts(gbfield, merged)
    }

    /** The object the constructor builds once the operator check has passed. */
    constructor (gbfield: int, gbfieldtype: Type, afield: int, what: Op)
      requires SupportedOp(what)
      ensures Valid() && merged == [] && countMap == map[]
      ensures this.gbfield == gbfield && this.gbfieldtype == gbfieldtype && this.afield == afield && this.what == what
    {
      this.gbfield := gbfield;
      this.gbfieldtype := gbfieldtype;
      this.afield := afield;
      this.what := what;
      countMap := map[];
      merged := [];
    }

    /**
     * `mergeTupleIntoGroup(tup)`: an unseen group gets count 1, a seen one one
     * more; only the group-by field is read, and a missing one throws before
     * anything changes.
     */
    method MergeTupleIntoGroup(tup: Tuple) returns (r: Outcome)
      requires Valid()
      modifies this
      ensures Valid()
      ensures r.Pass? <==> HasGroupField(gbfield, tup)
      ensures r.Fail? ==> r.error == IndexOutOfBounds && merged == old(merged) && countMap == old(countMap)
      ensures r.Pass? ==>
                var k := GroupKey(gbfield, tup);
                merged == old(merged) + [tup]
                && countMap == old(countMap)[k := if k in old(countMap) then old(countMap)[k] + 1 else 1]
    {
      if !HasGroupField(gbfield, tup) {
        return Fail(IndexOutOfBounds);
      }
      var groupByFieldValue := if gbfield == NO_GROUPING then "" else FieldString(tup[gbfield]);
      merged := merged + [tup];
      assert merged[..|merged| - 1] == old(merged);
      var count: nat;
      if groupByFieldValue !in countMap {
        count := 1;
      } else {
        count := countMap[groupByFieldValue] + 1;
      }
      countMap := countMap[groupByFieldValue := count];
      r := Pass;
    }

    /** The group counts add up to the number of tuples merged. */
    lemma CountsAddUpToMerged()
      requires Valid()
      ensures SumCounts(countMap) == |merged|
    {
      CountsSumToTotal(gbfield, merged);
    }

    /**
     * `iterator()`: one row per group, in the map's key order (`order`),
     * carrying the group's count; NumberFormatException when an int group
     * key does not parse.
     */
    method Iterator() returns (r: Result<TupleIterator>, ghost order: seq<string>)
      requires Valid()
      ensures r.Err? <==> exists k :: k in countMap && Row(gbfield, gbfieldtype, k, countMap[k]).Err?
      ensures r.Ok? ==>
                r.value.td == OutputDesc(gbfield, gbfieldtype)
                && Distinct(order) && (forall k :: k in order <==> k in countMap)
                && |r.value.tuples| == |order| == |countMap|
                && forall i :: 0 <= i < |order| ==> Row(gbfield, gbfieldtype, order[i], countMap[order[i]]) == Ok(r.value.tuples[i])
    {
      var td := OutputDesc(gbfield, gbfieldtype);
      var tuples: seq<Tuple> := [];
      var keys := countMap.Keys;
      order := [];
      while keys != {}
        invariant keys <= countMap.Keys
        invariant Distinct(order) && forall k :: k in order <==> k in countMap && k !in keys
        invariant |tuples| == |order|
        invariant forall i :: 0 <= i < |order| ==> Row(gbfield, gbfieldtype, order[i], countMap[order[i]]) == Ok(tuples[i])
        invariant forall k :: k in order ==> Row(gbfield, gbfieldtype, k, countMap[k]).Ok?
        decreases keys
      {
        var groupVal :| groupVal in keys;
        var aggregateVal := countMap[groupVal];
        var tup := Row(gbfield, gbfieldtype, groupVal, aggregateVal);
        if tup.Err? {
          return Err(tup.error), order;
        }
        tuples := tuples + [tup.value];
        order := order + [groupVal];
        keys := keys - {groupVal};
      }
      DistinctListingCount(order, countMap.Keys);
      r := Ok(TupleIterator(td, tuples));
    }
  }

  /**
   * `StringAggregator(gbfield, gbfieldtype, afield, what)`: IllegalArgumentException
   * for any operator other than COUNT, otherwise an aggregator with no groups.
   */
  method NewStringAggregator(gbfield: int, gbfieldtype: Type, afield: int, what: Op) returns (r: Result<StringAggregator>)
    ensures r.Err? <==> what != COUNT
    ensures r.Err? ==> r.error == IllegalArgument
    ensures r.Ok? ==> fresh(r.value) && r.value.Valid() && r.value.countMap == map[] && r.value.what == what
  {
    if what != COUNT {
      return Err(IllegalArgument);
    }
    var agg := new StringAggregator(gbfield, gbfieldtype, afield, what);
    r := Ok(agg);
  }
}

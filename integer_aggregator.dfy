/**
 * IntegerAggregator: a per-group running aggregate of an int column. The
 * object keeps a value map and a count map keyed by group key, and a total
 * count; `mergeTupleIntoGroup` updates them in place and `iterator` emits
 * one row per group. The state after merging a sequence of tuples is given
 * by `Values` and `Counts`, and the lemmas say what those mean.
 */
module IntegerAggregators {
  import opened JavaLang
  import opened Fields
  import opened TupleDescs
  import opened Aggregation
  import opened Listings

  /** A tuple the aggregator can merge: its group-by field exists and its aggregate field is an int. */
  predicate Mergeable(gbfield: int, afield: int, t: Tuple)
  {
    HasGroupField(gbfield, t) && 0 <= afield < |t| && t[afield].IntField?
  }

  predicate AllMergeable(gbfield: int, afield: int, ts: seq<Tuple>)
  {
    forall i :: 0 <= i < |ts| ==> Mergeable(gbfield, afield, ts[i])
  }

  lemma MergeableHaveGroupField(gbfield: int, afield: int, ts: seq<Tuple>)
    requires AllMergeable(gbfield, afield, ts)
    ensures AllHaveGroupField(gbfield, ts)
  {
  }

  /**
   * How a group's stored value absorbs a new value: MIN keeps the smaller,
   * MAX the larger, and every other operator adds in `int` arithmetic.
   */
  function Combine(what: Op, stored: int, a: int): (r: int)
    ensures what == MIN ==> r <= stored && r <= a && (r == stored || r == a)
    ensures what == MAX ==> r >= stored && r >= a && (r == stored || r == a)
    ensures what != MIN && what != MAX ==> r == ToInt32(stored + a)
  {
    match what
    case MIN => if a < stored then a else stored
    case MAX => if a > stored then a else stored
    case _ => ToInt32(stored + a)
  }

  /** The value map after merging `ts` in order: a new group stores the tuple's value. */
  function Values(gbfield: int, afield: int, what: Op, ts: seq<Tuple>): map<string, int>
    requires AllMergeable(gbfield, afield, ts)
    decreases |ts|
  {
    if ts == [] then map[]
    else
      var m := Values(gbfield, afield, what, ts[..|ts| - 1]);
      var t := ts[|ts| - 1];
      var k := GroupKey(gbfield, t);
      var a := t[afield].intValue;
      m[k := if k in m then Combine(what, m[k], a) else a]
  }

  /** The aggregate value of tuple `t`. */
  function AValue(afield: int, t: Tuple): int
    requires 0 <= afield < |t| && t[afield].IntField?
  {
    t[afield].intValue
  }

  /** The mathematical sum of the aggregate values of group `k`. */
  function GroupSum(gbfield: int, afield: int, ts: seq<Tuple>, k: string): int
    requires AllMergeable(gbfield, afield, ts)
    decreases |ts|
  {
    if ts == [] then 0
    else
      var t := ts[|ts| - 1];
      GroupSum(gbfield, afield, ts[..|ts| - 1], k) + (if GroupKey(gbfield, t) == k then AValue(afield, t) else 0)
  }

  /** The value map and the count map always hold the same groups. */
  lemma {:induction false} ValuesHaveCountsKeys(gbfield: int, afield: int, what: Op, ts: seq<Tuple>)
    requires AllMergeable(gbfield, afield, ts)
    ensures Values(gbfield, afield, what, ts).Keys == Counts(gbfield, ts).Keys
    decreases |ts|
  {
    if ts != [] {
      ValuesHaveCountsKeys(gbfield, afield, what, ts[..|ts| - 1]);
    }
  }

  /** Merging one more tuple, as `Values` and `Counts` see it. */
  lemma MergeStep(gbfield: int, afield: int, what: Op, ts: seq<Tuple>, t: Tuple)
    requires AllMergeable(gbfield, afield, ts) && Mergeable(gbfield, afield, t)
    ensures AllMergeable(gbfield, afield, ts + [t])
    ensures var m := Values(gbfield, afield, what, ts);
            var k := GroupKey(gbfield, t);
            Values(gbfield, afield, what, ts + [t]) == m[k := if k in m then Combine(what, m[k], AValue(afield, t)) else AValue(afield, t)]
    ensures var c := Counts(gbfield, ts);
            var k := GroupKey(gbfield, t);
            Counts(gbfield, ts + [t]) == c[k := if k in c then c[k] + 1 else 1]
  {
    assert (ts + [t])[..|ts|] == ts;
  }

  /** A group's value is the value of one of its tuples (MIN and MAX only ever keep a value they saw). */
  lemma {:induction false} ExtremumIsAttained(gbfield: int, afield: int, what: Op, ts: seq<Tuple>, k: string)
    requires what == MIN || what == MAX
    requires AllMergeable(gbfield, afield, ts)
    requires k in Values(gbfield, afield, what, ts)
    ensures exists i :: 0 <= i < |ts| && GroupKey(gbfield, ts[i]) == k
              && Values(gbfield, afield, what, ts)[k] == AValue(afield, ts[i])
    decreases |ts|
  {
    var init := ts[..|ts| - 1];
    var last := |ts| - 1;
    var v := Values(gbfield, afield, what, ts)[k];
    if GroupKey(gbfield, ts[last]) == k && v == AValue(afield, ts[last]) {
    } else {
      assert k in Values(gbfield, afield, what, init) && v == Values(gbfield, afield, what, init)[k];
      ExtremumIsAttained(gbfield, afield, what, init, k);
      var j :| 0 <= j < |init| && GroupKey(gbfield, init[j]) == k
               && Values(gbfield, afield, what, init)[k] == AValue(afield, init[j]);
      assert ts[j] == init[j];
    }
  }

  /** MIN: a group's value is at most the aggregate value of each of its tuples. */
  lemma {:induction false} MinIsLowerBound(gbfield: int, afield: int, ts: seq<Tuple>, k: string, i: int)
    requires AllMergeable(gbfield, afield, ts)
    requires 0 <= i < |ts| && GroupKey(gbfield, ts[i]) == k
    ensures k in Values(gbfield, afield, MIN, ts)
    ensures Values(gbfield, afield, MIN, ts)[k] <= AValue(afield, ts[i])
    decreases |ts|
  {
    var init := ts[..|ts| - 1];
    if i < |init| {
      assert init[i] == ts[i];
      MinIsLowerBound(gbfield, afield, init, k, i);
    }
  }

  /** MAX: a group's value is at least the aggregate value of each of its tuples. */
  lemma {:induction false} MaxIsUpperBound(gbfield: int, afield: int, ts: seq<Tuple>, k: string, i: int)
    requires AllMergeable(gbfield, afield, ts)
    requires 0 <= i < |ts| && GroupKey(gbfield, ts[i]) == k
    ensures k in Values(gbfield, afield, MAX, ts)
    ensures Values(gbfield, afield, MAX, ts)[k] >= AValue(afield, ts[i])
    decreases |ts|
  {
    var init := ts[..|ts| - 1];
    if i < |init| {
      assert init[i] == ts[i];
      MaxIsUpperBound(gbfield, afield, init, k, i);
    }
  }

  /**
   * SUM, AVG, COUNT, SUM_COUNT and SC_AVG: a group's value is the sum of its
   * aggregate values wrapped to 32 bits, and the exact sum when that sum
   * fits in an `int`.
   */
  lemma {:induction false} AdditiveIsGroupSum(gbfield: int, afield: int, what: Op, ts: seq<Tuple>, k: string)
    requires what != MIN && what != MAX
    requires AllMergeable(gbfield, afield, ts)
    requires forall i :: 0 <= i < |ts| ==> IsInt32(AValue(afield, ts[i]))
    requires k in Values(gbfield, afield, what, ts)
    ensures Values(gbfield, afield, what, ts)[k] == ToInt32(GroupSum(gbfield, afield, ts, k))
    ensures IsInt32(GroupSum(gbfield, afield, ts, k)) ==>
              Values(gbfield, afield, what, ts)[k] == GroupSum(gbfield, afield, ts, k)
    decreases |ts|
  {
    var init := ts[..|ts| - 1];
    var t := ts[|ts| - 1];
    if GroupKey(gbfield, t) != k {
      AdditiveIsGroupSum(gbfield, afield, what, init, k);
    } else if k in Values(gbfield, afield, what, init) {
      AdditiveIsGroupSum(gbfield, afield, what, init, k);
      ToInt32AddWrapped(GroupSum(gbfield, afield, init, k), AValue(afield, t));
    } else {
      ValuesHaveCountsKeys(gbfield, afield, what, init);
      CountsAreGroupSizes(gbfield, init, k);
      GroupSumOfAbsentGroup(gbfield, afield, init, k);
    }
  }

  /** A group with no tuples sums to zero. */
  lemma {:induction false} GroupSumOfAbsentGroup(gbfield: int, afield: int, ts: seq<Tuple>, k: string)
    requires AllMergeable(gbfield, afield, ts)
    requires forall i :: 0 <= i < |ts| ==> GroupKey(gbfield, ts[i]) != k
    ensures GroupSum(gbfield, afield, ts, k) == 0
    decreases |ts|
  {
    if ts != [] {
      GroupSumOfAbsentGroup(gbfield, afield, ts[..|ts| - 1], k);
    }
  }

  /** The value `iterator` reports for a group: COUNT the count, AVG the truncated mean, the rest the stored value. */
  function Reported(what: Op, stored: int, count: nat): (v: int)
    requires count >= 1
    ensures what == COUNT ==> v == count
    ensures what == AVG ==> v == JavaDiv(stored, count)
    ensures what != COUNT && what != AVG ==> v == stored
  {
    match what
    case COUNT => count
    case AVG => JavaDiv(stored, count)
    case _ => stored
  }

  /** AVG over tuples whose sum fits in an `int` reports the mean rounded toward zero. */
  lemma AvgIsTruncatedMean(gbfield: int, afield: int, ts: seq<Tuple>, k: string)
    requires AllMergeable(gbfield, afield, ts)
    requires forall i :: 0 <= i < |ts| ==> IsInt32(AValue(afield, ts[i]))
    requires k in Values(gbfield, afield, AVG, ts)
    requires IsInt32(GroupSum(gbfield, afield, ts, k))
    ensures k in Counts(gbfield, ts)
    ensures var s := GroupSum(gbfield, afield, ts, k);
            var n := CountOf(gbfield, ts, k);
            n >= 1
            && Reported(AVG, Values(gbfield, afield, AVG, ts)[k], Counts(gbfield, ts)[k]) == JavaDiv(s, n)
            && (s >= 0 ==> JavaDiv(s, n) == s / n)
  {
    ValuesHaveCountsKeys(gbfield, afield, AVG, ts);
    CountsAreGroupSizes(gbfield, ts, k);
    AdditiveIsGroupSum(gbfield, afield, AVG, ts, k);
  }

  class IntegerAggregator {
    const gbfield: int
    const gbfieldtype: Type
    const afield: int
    const what: Op
    /** Group key to stored aggregate value. */
    var valueMap: map<string, int>
    /** Group key to the number of tuples merged into the group. */
    var mapCount: map<string, nat>
    var totalCount: nat
    /** The tuples merged so far, in order. */
    ghost var merged: seq<Tuple>

    ghost predicate Valid()
      reads this
    {
      AllMergeable(gbfield, afield, merged)
      && valueMap == Values(gbfield, afield, what, merged)
      && mapCount == Counts(gbfield, merged)
      && valueMap.Keys == mapCount.Keys
      && totalCount == |merged|
    }

    /** `IntegerAggregator(gbfield, gbfieldtype, afield, what)`: empty maps. */
    constructor (gbfield: int, gbfieldtype: Type, afield: int, what: Op)
      ensures Valid() && merged == []
      ensures this.gbfield == gbfield && this.gbfieldtype == gbfieldtype && this.afield == afield && this.what == what
      ensures valueMap == map[] && mapCount == map[] && totalCount == 0
    {
      this.gbfield := gbfield;
      this.gbfieldtype := gbfieldtype;
      this.afield := afield;
      this.what := what;
      valueMap := map[];
      mapCount := map[];
      totalCount := 0;
      merged := [];
    }

    /**
     * `mergeTupleIntoGroup(tup)`: a new group stores the tuple's value with
     * count 1; a known group combines the value as `Combine` says and counts
     * one more. A missing field or a non-int aggregate field throws before
     * anything changes.
     */
    method MergeTupleIntoGroup(tup: Tuple) returns (r: Outcome)
      requires Valid()
      requires 0 <= afield < |tup| && tup[afield].IntField? ==> IsInt32(tup[afield].intValue)
      modifies this
      ensures Valid()
      ensures r.Pass? <==> Mergeable(gbfield, afield, tup)
      ensures r.Fail? ==> r.error == (if HasGroupField(gbfield, tup) && 0 <= afield < |tup| then ClassCast else IndexOutOfBounds)
      ensures r.Fail? ==> merged == old(merged) && valueMap == old(valueMap) && mapCount == old(mapCount)
                          && totalCount == old(totalCount)
      ensures r.Pass? ==>
                var k := GroupKey(gbfield, tup);
                var a := tup[afield].intValue;
                merged == old(merged) + [tup]
                && valueMap == old(valueMap)[k := if k in old(valueMap) then Combine(what, old(valueMap)[k], a) else a]
                && mapCount == old(mapCount)[k := if k in old(mapCount) then old(mapCount)[k] + 1 else 1]
                && totalCount == old(totalCount) + 1
    {
      if !HasGroupField(gbfield, tup) || !(0 <= afield < |tup|) {
        return Fail(IndexOutOfBounds);
      }
      var groupByFieldValue := if gbfield == NO_GROUPING then "" else FieldString(tup[gbfield]);
      if !tup[afield].IntField? {
        return Fail(ClassCast);
      }
      var aValue := tup[afield].intValue;
      MergeStep(gbfield, afield, what, merged, tup);
      merged := merged + [tup];
      ValuesHaveCountsKeys(gbfield, afield, what, merged);
      if groupByFieldValue !in valueMap {
        valueMap := valueMap[groupByFieldValue := aValue];
        mapCount := mapCount[groupByFieldValue := 1];
        totalCount := totalCount + 1;
        return Pass;
      }
      var aggregateVal := valueMap[groupByFieldValue];
      var groupCountVal := mapCount[groupByFieldValue];
      aggregateVal := Combine(what, aggregateVal, aValue);
      valueMap := valueMap[groupByFieldValue := aggregateVal];
      mapCount := mapCount[groupByFieldValue := groupCountVal + 1];
      totalCount := totalCount + 1;
      r := Pass;
    }

    /** `totalCount` is the sum of the group counts. */
    lemma TotalCountIsSumOfCounts()
      requires Valid()
      ensures totalCount == SumCounts(mapCount)
    {
      MergeableHaveGroupField(gbfield, afield, merged);
      CountsSumToTotal(gbfield, merged);
    }

    /**
     * `iterator()`: one row per group, in the map's key order (`order`),
     * reporting the value `Reported` gives; NumberFormatException when an
     * int group key does not parse.
     */
    method Iterator() returns (r: Result<TupleIterator>, ghost order: seq<string>)
      requires Valid()
      ensures r.Err? <==> exists k :: k in valueMap && Row(gbfield, gbfieldtype, k, Reported(what, valueMap[k], mapCount[k])).Err?
      ensures r.Ok? ==>
                r.value.td == OutputDesc(gbfield, gbfieldtype)
                && Distinct(order) && (forall k :: k in order <==> k in valueMap)
                && |r.value.tuples| == |order| == |valueMap|
                && forall i :: 0 <= i < |order| ==>
                     Row(gbfield, gbfieldtype, order[i], Reported(what, valueMap[order[i]], mapCount[order[i]])) == Ok(r.value.tuples[i])
    {
      var td := OutputDesc(gbfield, gbfieldtype);
      var tuples: seq<Tuple> := [];
      var keys := valueMap.Keys;
      order := [];
      while keys != {}
        invariant keys <= valueMap.Keys
        invariant Distinct(order) && forall k :: k in order <==> k in valueMap && k !in keys
        invariant |tuples| == |order|
        invariant forall i :: 0 <= i < |order| ==>
                    Row(gbfield, gbfieldtype, order[i], Reported(what, valueMap[order[i]], mapCount[order[i]])) == Ok(tuples[i])
        invariant forall k :: k in order ==> Row(gbfield, gbfieldtype, k, Reported(what, valueMap[k], mapCount[k])).Ok?
        decreases keys
      {
        var groupVal :| groupVal in keys;
        var aggregateVal := Reported(what, valueMap[groupVal], mapCount[groupVal]);
        var tup := Row(gbfield, gbfieldtype, groupVal, aggregateVal);
        if tup.Err? {
          return Err(tup.error), order;
        }
        tuples := tuples + [tup.value];
        order := order + [groupVal];
        keys := keys - {groupVal};
      }
      DistinctListingCount(order, valueMap.Keys);
      r := Ok(TupleIterator(td, tuples));
    }
  }
}

/**
 * HashEquiJoin: a partitioned hash join. The left child is read in
 * partitions of at most MAP_SIZE + 1 tuples, each grouped into a hash map
 * by its join field; for each partition the right child is scanned from
 * the start and every right tuple is paired with the partition's left
 * tuples of equal key, in the order they were read.
 *
 * The children are sequences with cursors (`pos1`, `pos2`). The ghost
 * function `Pending` gives the join tuples the operator has still to
 * return from its current state; `FetchNext` is proved to return the head
 * of that sequence and leave the rest, and `Open` to start it at
 * `JoinOutput`, the full result, which the lemmas relate to the matching
 * pairs of the two inputs and, pair for pair, to `NestedLoopJoin`.
 */
module HashEquiJoins {
  import opened JavaLang
  import opened Fields
  import opened TupleDescs

  /** `HashEquiJoin.MAP_SIZE`. */
  const MAP_SIZE: nat := 20000

  /** Every tuple of `ts` has a field at index `f`. */
  predicate Keyed(ts: seq<Tuple>, f: int)
  {
    0 <= f && forall i :: 0 <= i < |ts| ==> f < |ts[i]|
  }

  lemma KeyedSlice(ts: seq<Tuple>, f: int, a: int, b: int)
    requires Keyed(ts, f) && 0 <= a <= b <= |ts|
    ensures Keyed(ts[a..b], f)
  {
    var s := ts[a..b];
    forall i | 0 <= i < |s| ensures f < |s[i]| {
      assert s[i] == ts[a + i];
    }
  }

  /** The hash map `loadMap` builds from `ts`: each key maps to its tuples in arrival order. */
  function GroupBy(ts: seq<Tuple>, f: int): (m: map<Field, seq<Tuple>>)
    requires Keyed(ts, f)
    ensures forall k :: k in m ==> m[k] != []
    decreases |ts|
  {
    if ts == [] then map[]
    else
      KeyedSlice(ts, f, 0, |ts| - 1);
      var m := GroupBy(ts[..|ts| - 1], f);
      var t := ts[|ts| - 1];
      m[t[f] := (if t[f] in m then m[t[f]] else []) + [t]]
  }

  lemma SliceExtend(ts: seq<Tuple>, a: nat, b: nat)
    requires a <= b < |ts|
    ensures ts[a..b + 1] == ts[a..b] + [ts[b]]
  {
    assert ts[a..b + 1][..b - a] == ts[a..b];
  }

  /** Reading one more tuple into the map appends it to its key's list. */
  lemma GroupByAppend(ts: seq<Tuple>, f: int, t: Tuple)
    requires Keyed(ts, f) && f < |t|
    ensures Keyed(ts + [t], f)
    ensures var m := GroupBy(ts, f);
            GroupBy(ts + [t], f) == m[t[f] := (if t[f] in m then m[t[f]] else []) + [t]]
  {
    assert (ts + [t])[..|ts|] == ts;
  }

  /** Reading `ts[b]` into the map of the slice `ts[a..b]` gives the map of `ts[a..b + 1]`. */
  lemma GroupBySliceStep(ts: seq<Tuple>, f: int, a: nat, b: nat)
    requires Keyed(ts, f) && a <= b < |ts|
    ensures Keyed(ts[a..b], f) && Keyed(ts[a..b + 1], f)
    ensures var m := GroupBy(ts[a..b], f);
            var t := ts[b];
            GroupBy(ts[a..b + 1], f) == m[t[f] := (if t[f] in m then m[t[f]] else []) + [t]]
  {
    KeyedSlice(ts, f, a, b);
    SliceExtend(ts, a, b);
    GroupByAppend(ts[a..b], f, ts[b]);
  }

  /** An independent definition: the tuples of `ts` whose field `f` equals `k`, in order. */
  function Filter(ts: seq<Tuple>, f: int, k: Field): seq<Tuple>
    requires Keyed(ts, f)
    decreases |ts|
  {
    if ts == [] then []
    else
      KeyedSlice(ts, f, 0, |ts| - 1);
      Filter(ts[..|ts| - 1], f, k) + (if ts[|ts| - 1][f] == k then [ts[|ts| - 1]] else [])
  }

  /** A key's list is exactly the tuples with that key, in arrival order; keys without tuples are absent. */
  lemma {:induction false} GroupByIsFilter(ts: seq<Tuple>, f: int, k: Field)
    requires Keyed(ts, f)
    ensures k in GroupBy(ts, f) <==> Filter(ts, f, k) != []
    ensures k in GroupBy(ts, f) ==> GroupBy(ts, f)[k] == Filter(ts, f, k)
    decreases |ts|
  {
    if ts != [] {
      GroupByIsFilter(ts[..|ts| - 1], f, k);
    }
  }

  /** What `Filter` keeps: the tuples of `ts` with key `k`. */
  lemma {:induction false} FilterMembers(ts: seq<Tuple>, f: int, k: Field, t: Tuple)
    requires Keyed(ts, f)
    ensures t in Filter(ts, f, k) <==> t in ts && t[f] == k
    decreases |ts|
  {
    if ts != [] {
      var init := ts[..|ts| - 1];
      FilterMembers(init, f, k, t);
      assert ts == init + [ts[|ts| - 1]];
    }
  }

  /** `t1` followed by each of `ls`'s tuples paired with `t2`: left fields first. */
  function Pairs(ls: seq<Tuple>, t2: Tuple): (r: seq<Tuple>)
    ensures |r| == |ls|
    ensures forall i :: 0 <= i < |ls| ==> r[i] == ls[i] + t2
    decreases |ls|
  {
    if ls == [] then [] else [ls[0] + t2] + Pairs(ls[1..], t2)
  }

  /** Every tuple of a match list meets `t2` in the list's pairs. */
  lemma PairsHas(ls: seq<Tuple>, t2: Tuple, l: Tuple)
    requires l in ls
    ensures l + t2 in Pairs(ls, t2)
  {
    var i :| 0 <= i < |ls| && ls[i] == l;
    assert Pairs(ls, t2)[i] == l + t2;
  }

  /** The join tuples one right tuple produces against a partition's map. */
  function Probe(m: map<Field, seq<Tuple>>, f2: int, t2: Tuple): seq<Tuple>
    requires 0 <= f2 < |t2|
  {
    if t2[f2] in m then Pairs(m[t2[f2]], t2) else []
  }

  /** Scanning the right tuples `rs` from index `from` on against a partition's map, in order. */
  function Scan(m: map<Field, seq<Tuple>>, f2: int, rs: seq<Tuple>, from: nat): seq<Tuple>
    requires Keyed(rs, f2) && from <= |rs|
    decreases |rs| - from
  {
    if from == |rs| then []
    else Probe(m, f2, rs[from]) + Scan(m, f2, rs, from + 1)
  }

  /** Where the partition starting at `from` ends: after MAP_SIZE + 1 tuples or at the end of the input. */
  function PartitionEnd(n: nat, from: nat): (to: nat)
    requires from <= n
    ensures from <= to <= n && to - from <= MAP_SIZE + 1
    ensures from < n ==> from < to
  {
    if from + MAP_SIZE + 1 <= n then from + MAP_SIZE + 1 else n
  }

  /** The join of the partitions of `left` from index `from` onward against all of `right`. */
  function JoinFrom(left: seq<Tuple>, f1: int, right: seq<Tuple>, f2: int, from: nat): seq<Tuple>
    requires Keyed(left, f1) && Keyed(right, f2) && from <= |left|
    decreases |left| - from
  {
    if from == |left| then []
    else
      var to := PartitionEnd(|left|, from);
      KeyedSlice(left, f1, from, to);
      Scan(GroupBy(left[from..to], f1), f2, right, 0) + JoinFrom(left, f1, right, f2, to)
  }

  /** The whole result of the join, in the order the operator returns it. */
  function JoinOutput(left: seq<Tuple>, f1: int, right: seq<Tuple>, f2: int): seq<Tuple>
    requires Keyed(left, f1) && Keyed(right, f2)
  {
    JoinFrom(left, f1, right, f2, 0)
  }

  /**
   * What remains to be returned from a state: the rest of the current match
   * list paired with `t2`, then the rest of the right scan against the
   * current partition, then `later`, the output of every later partition.
   */
  function PendingOf(listIt: Option<seq<Tuple>>, t2: Option<Tuple>, m: map<Field, seq<Tuple>>,
                     right: seq<Tuple>, f2: int, pos2: nat, later: seq<Tuple>): seq<Tuple>
    requires Keyed(right, f2) && pos2 <= |right|
  {
    (if listIt.Some? && t2.Some? then Pairs(listIt.value, t2.value) else [])
    + Scan(m, f2, right, pos2) + later
  }

  /** The match list's pairs come first, ahead of the scan and the later partitions. */
  lemma PendingSplitList(listIt: Option<seq<Tuple>>, t2: Option<Tuple>, m: map<Field, seq<Tuple>>,
                         right: seq<Tuple>, f2: int, pos2: nat, later: seq<Tuple>)
    requires Keyed(right, f2) && pos2 <= |right|
    ensures PendingOf(listIt, t2, m, right, f2, pos2, later)
            == (if listIt.Some? && t2.Some? then Pairs(listIt.value, t2.value) else [])
               + PendingOf(None, None, m, right, f2, pos2, later)
  {
  }

  /** An exhausted or absent match list contributes nothing. */
  lemma PendingWithoutList(listIt: Option<seq<Tuple>>, t2: Option<Tuple>, m: map<Field, seq<Tuple>>,
                           right: seq<Tuple>, f2: int, pos2: nat, later: seq<Tuple>)
    requires Keyed(right, f2) && pos2 <= |right|
    requires listIt.None? || listIt.value == []
    ensures PendingOf(listIt, t2, m, right, f2, pos2, later) == PendingOf(None, None, m, right, f2, pos2, later)
  {
  }

  /** Taking the head of the match list: its pair comes first, then the rest. */
  lemma PendingPopList(l: seq<Tuple>, t2: Tuple, m: map<Field, seq<Tuple>>,
                       right: seq<Tuple>, f2: int, pos2: nat, later: seq<Tuple>)
    requires Keyed(right, f2) && pos2 <= |right| && l != []
    ensures PendingOf(Some(l), Some(t2), m, right, f2, pos2, later)
            == [l[0] + t2] + PendingOf(Some(l[1..]), Some(t2), m, right, f2, pos2, later)
  {
    PairsPop(l, t2, Scan(m, f2, right, pos2), later);
  }

  lemma PairsPop(l: seq<Tuple>, t2: Tuple, s: seq<Tuple>, j: seq<Tuple>)
    requires l != []
    ensures (Pairs(l, t2) + s) + j == [l[0] + t2] + ((Pairs(l[1..], t2) + s) + j)
  {
    assert Pairs(l, t2) == [l[0] + t2] + Pairs(l[1..], t2);
  }

  /** Reading one more right tuple: its probe comes first, then the rest. */
  lemma PendingScanStep(m: map<Field, seq<Tuple>>, right: seq<Tuple>, f2: int, pos2: nat, later: seq<Tuple>)
    requires Keyed(right, f2) && pos2 < |right|
    ensures PendingOf(None, None, m, right, f2, pos2, later)
            == Probe(m, f2, right[pos2]) + PendingOf(None, None, m, right, f2, pos2 + 1, later)
  {
  }

  /** A right tuple whose key is in the map: its match list comes first, then the rest of the scan. */
  lemma PendingProbeHit(m: map<Field, seq<Tuple>>, right: seq<Tuple>, f2: int, pos2: nat, later: seq<Tuple>)
    requires Keyed(right, f2) && pos2 < |right|
    requires right[pos2][f2] in m
    ensures PendingOf(Some(m[right[pos2][f2]]), Some(right[pos2]), m, right, f2, pos2 + 1, later)
            == Probe(m, f2, right[pos2]) + PendingOf(None, None, m, right, f2, pos2 + 1, later)
  {
  }

  /** The first index from `from` on whose right tuple has its key in the map; |rs| when there is none. */
  function NextHit(m: map<Field, seq<Tuple>>, f2: int, rs: seq<Tuple>, from: nat): (j: nat)
    requires Keyed(rs, f2) && from <= |rs|
    ensures from <= j <= |rs|
    ensures j < |rs| ==> rs[j][f2] in m
    ensures forall i :: from <= i < j ==> rs[i][f2] !in m
    decreases |rs| - from
  {
    if from == |rs| then |rs|
    else if rs[from][f2] in m then from
    else NextHit(m, f2, rs, from + 1)
  }

  /** Right tuples whose key is not in the map contribute nothing: the scan may skip to the next hit. */
  lemma {:induction false} PendingSkipMisses(m: map<Field, seq<Tuple>>, right: seq<Tuple>, f2: int, pos2: nat, later: seq<Tuple>)
    requires Keyed(right, f2) && pos2 <= |right|
    ensures PendingOf(None, None, m, right, f2, pos2, later)
            == PendingOf(None, None, m, right, f2, NextHit(m, f2, right, pos2), later)
    decreases |right| - pos2
  {
    if pos2 < |right| && right[pos2][f2] !in m {
      PendingScanStep(m, right, f2, pos2, later);
      PendingSkipMisses(m, right, f2, pos2 + 1, later);
    }
  }

  /**
   * With the match list exhausted, what is pending starts with the first
   * match of the next hit of the scan, followed by the rest of its match
   * list; with no hit left only the later partitions remain.
   */
  lemma PendingNextHit(m: map<Field, seq<Tuple>>, right: seq<Tuple>, f2: int, pos2: nat, later: seq<Tuple>)
    requires Keyed(right, f2) && pos2 <= |right|
    requires forall k :: k in m ==> m[k] != []
    ensures var j := NextHit(m, f2, right, pos2);
            if j < |right| then
              var list := m[right[j][f2]];
              PendingOf(None, None, m, right, f2, pos2, later)
              == [list[0] + right[j]] + PendingOf(Some(list[1..]), Some(right[j]), m, right, f2, j + 1, later)
            else
              PendingOf(None, None, m, right, f2, pos2, later) == later
  {
    var j := NextHit(m, f2, right, pos2);
    if j < |right| {
      var list := m[right[j][f2]];
      calc {
        PendingOf(None, None, m, right, f2, pos2, later);
        == { PendingSkipMisses(m, right, f2, pos2, later); }
        PendingOf(None, None, m, right, f2, j, later);
        == { PendingAtHit(m, right, f2, j, later); }
        [list[0] + right[j]] + PendingOf(Some(list[1..]), Some(right[j]), m, right, f2, j + 1, later);
      }
    } else {
      PendingSkipMisses(m, right, f2, pos2, later);
      assert Scan(m, f2, right, j) == [];
    }
  }

  /** At a hit, what is pending starts with the first match, then the rest of the match list. */
  lemma PendingAtHit(m: map<Field, seq<Tuple>>, right: seq<Tuple>, f2: int, j: nat, later: seq<Tuple>)
    requires Keyed(right, f2) && j < |right| && right[j][f2] in m && m[right[j][f2]] != []
    ensures var list := m[right[j][f2]];
            PendingOf(None, None, m, right, f2, j, later)
            == [list[0] + right[j]] + PendingOf(Some(list[1..]), Some(right[j]), m, right, f2, j + 1, later)
  {
    var list := m[right[j][f2]];
    calc {
      PendingOf(None, None, m, right, f2, j, later);
      == { PendingScanStep(m, right, f2, j, later); }
      Probe(m, f2, right[j]) + PendingOf(None, None, m, right, f2, j + 1, later);
      == { PendingProbeHit(m, right, f2, j, later); }
      PendingOf(Some(list), Some(right[j]), m, right, f2, j + 1, later);
      == { PendingPopList(list, right[j], m, right, f2, j + 1, later); }
      [list[0] + right[j]] + PendingOf(Some(list[1..]), Some(right[j]), m, right, f2, j + 1, later);
    }
  }

  /**
   * What the right scan's probe leaves: at the next hit, its first join
   * tuple ahead of the rest of the match list; with no hit, only `later`.
   */
  lemma PendingAfterProbe(m: map<Field, seq<Tuple>>, right: seq<Tuple>, f2: int, from: nat, later: seq<Tuple>,
                          r: Option<Tuple>, pos2: nat, listIt: Option<seq<Tuple>>, t2: Option<Tuple>)
    requires Keyed(right, f2) && from <= |right| && pos2 <= |right|
    requires forall k :: k in m ==> m[k] != []
    requires var j := NextHit(m, f2, right, from);
             if j < |right| then
               var list := m[right[j][f2]];
               r == Some(list[0] + right[j]) && pos2 == j + 1 && t2 == Some(right[j]) && listIt == Some(list[1..])
             else
               r.None? && pos2 == |right| && (listIt.None? || listIt.value == [])
    ensures var before := PendingOf(None, None, m, right, f2, from, later);
            if r.Some? then before == [r.value] + PendingOf(listIt, t2, m, right, f2, pos2, later)
            else before == later && (listIt.None? || listIt.value == [])
  {
    var j := NextHit(m, f2, right, from);
    if j < |right| {
      var list := m[right[j][f2]];
      assert r.Some? && r.value == list[0] + right[j];
      calc {
        PendingOf(None, None, m, right, f2, from, later);
        == { PendingSkipMisses(m, right, f2, from, later); }
        PendingOf(None, None, m, right, f2, j, later);
        == { PendingAtHit(m, right, f2, j, later); }
        [list[0] + right[j]] + PendingOf(Some(list[1..]), Some(right[j]), m, right, f2, j + 1, later);
        == { assert listIt == Some(list[1..]) && t2 == Some(right[j]) && pos2 == j + 1; }
        [r.value] + PendingOf(listIt, t2, m, right, f2, pos2, later);
      }
    } else {
      PendingSkipMisses(m, right, f2, from, later);
      assert Scan(m, f2, right, j) == [];
    }
  }

  /**
   * Loading the partition that starts at `pos1` with the right child
   * rewound leaves pending exactly the join of the partitions from `pos1` on.
   */
  lemma PendingAfterLoad(left: seq<Tuple>, f1: int, pos1: nat, right: seq<Tuple>, f2: int)
    requires Keyed(left, f1) && Keyed(right, f2) && pos1 <= |left|
    ensures var to := PartitionEnd(|left|, pos1);
            Keyed(left[pos1..to], f1)
            && PendingOf(None, None, GroupBy(left[pos1..to], f1), right, f2, 0, JoinFrom(left, f1, right, f2, to))
            == JoinFrom(left, f1, right, f2, pos1)
  {
    var to := PartitionEnd(|left|, pos1);
    KeyedSlice(left, f1, pos1, to);
    var m := GroupBy(left[pos1..to], f1);
    var later := JoinFrom(left, f1, right, f2, to);
    assert PendingOf(None, None, m, right, f2, 0, later) == Scan(m, f2, right, 0) + later;
    if pos1 == |left| {
      assert m == map[] by {
        assert left[pos1..to] == [];
      }
      ScanEmptyMap(f2, right, 0);
    } else {
      assert JoinFrom(left, f1, right, f2, pos1) == Scan(m, f2, right, 0) + later;
    }
  }

  /** An empty map matches nothing. */
  lemma {:induction false} ScanEmptyMap(f2: int, rs: seq<Tuple>, from: nat)
    requires Keyed(rs, f2) && from <= |rs|
    ensures Scan(map[], f2, rs, from) == []
    decreases |rs| - from
  {
    if from < |rs| {
      ScanEmptyMap(f2, rs, from + 1);
    }
  }

  /** Every tuple of a scan pairs a right tuple with a left tuple stored under its key. */
  lemma {:induction false} ScanSound(m: map<Field, seq<Tuple>>, f2: int, rs: seq<Tuple>, from: nat, x: Tuple)
    requires Keyed(rs, f2) && from <= |rs| && x in Scan(m, f2, rs, from)
    ensures exists j, l :: from <= j < |rs| && rs[j][f2] in m && l in m[rs[j][f2]] && x == l + rs[j]
    decreases |rs| - from
  {
    var r := rs[from];
    if x in Probe(m, f2, r) {
      var i :| 0 <= i < |m[r[f2]]| && x == Pairs(m[r[f2]], r)[i];
      assert m[r[f2]][i] in m[r[f2]];
    } else {
      ScanSound(m, f2, rs, from + 1, x);
    }
  }

  /** Every right tuple is paired with every left tuple stored under its key. */
  lemma {:induction false} ScanComplete(m: map<Field, seq<Tuple>>, f2: int, rs: seq<Tuple>, from: nat, j: int, l: Tuple)
    requires Keyed(rs, f2) && from <= j < |rs| && rs[j][f2] in m && l in m[rs[j][f2]]
    ensures l + rs[j] in Scan(m, f2, rs, from)
    decreases |rs| - from
  {
    var x := l + rs[j];
    var here := Probe(m, f2, rs[from]);
    var rest := Scan(m, f2, rs, from + 1);
    assert Scan(m, f2, rs, from) == here + rest;
    if j == from {
      assert here == Pairs(m[rs[j][f2]], rs[j]);
      PairsHas(m[rs[j][f2]], rs[j], l);
      assert x in here;
    } else {
      ScanComplete(m, f2, rs, from + 1, j, l);
      assert x in rest;
    }
  }

  /** Soundness: every tuple of the join is a left tuple followed by a right tuple with the same key. */
  lemma {:induction false} JoinFromSound(left: seq<Tuple>, f1: int, right: seq<Tuple>, f2: int, from: nat, x: Tuple)
    requires Keyed(left, f1) && Keyed(right, f2) && from <= |left|
    requires x in JoinFrom(left, f1, right, f2, from)
    ensures exists i, j :: from <= i < |left| && 0 <= j < |right| && left[i][f1] == right[j][f2] && x == left[i] + right[j]
    decreases |left| - from
  {
    var to := PartitionEnd(|left|, from);
    var part := left[from..to];
    if x in Scan(GroupBy(part, f1), f2, right, 0) {
      ScanSound(GroupBy(part, f1), f2, right, 0, x);
      var j, l :| 0 <= j < |right| && right[j][f2] in GroupBy(part, f1) && l in GroupBy(part, f1)[right[j][f2]]
                  && x == l + right[j];
      GroupByIsFilter(part, f1, right[j][f2]);
      FilterMembers(part, f1, right[j][f2], l);
      var i :| 0 <= i < |part| && part[i] == l;
      assert left[from + i] == l;
    } else {
      JoinFromSound(left, f1, right, f2, to, x);
    }
  }

  /** Completeness: every left tuple from `from` on is paired with every right tuple of equal key. */
  lemma {:induction false} JoinFromComplete(left: seq<Tuple>, f1: int, right: seq<Tuple>, f2: int, from: nat, i: int, j: int)
    requires Keyed(left, f1) && Keyed(right, f2) && from <= |left|
    requires from <= i < |left| && 0 <= j < |right| && left[i][f1] == right[j][f2]
    ensures left[i] + right[j] in JoinFrom(left, f1, right, f2, from)
    decreases |left| - from
  {
    var to := PartitionEnd(|left|, from);
    var part := left[from..to];
    if i < to {
      var k := right[j][f2];
      assert part[i - from] == left[i];
      FilterMembers(part, f1, k, left[i]);
      GroupByIsFilter(part, f1, k);
      ScanComplete(GroupBy(part, f1), f2, right, 0, j, left[i]);
    } else {
      JoinFromComplete(left, f1, right, f2, to, i, j);
    }
  }

  /** The join returns exactly the concatenations of left and right tuples whose join fields are equal. */
  lemma JoinIsEquiJoin(left: seq<Tuple>, f1: int, right: seq<Tuple>, f2: int, x: Tuple)
    requires Keyed(left, f1) && Keyed(right, f2)
    ensures x in JoinOutput(left, f1, right, f2) <==>
              exists i, j :: 0 <= i < |left| && 0 <= j < |right| && left[i][f1] == right[j][f2] && x == left[i] + right[j]
  {
    if x in JoinOutput(left, f1, right, f2) {
      JoinFromSound(left, f1, right, f2, 0, x);
    }
    if exists i, j :: 0 <= i < |left| && 0 <= j < |right| && left[i][f1] == right[j][f2] && x == left[i] + right[j] {
      var i, j :| 0 <= i < |left| && 0 <= j < |right| && left[i][f1] == right[j][f2] && x == left[i] + right[j];
      JoinFromComplete(left, f1, right, f2, 0, i, j);
    }
  }

  /** The join tuples of the left tuple `l` with `right[from..]`, in the right child's order. */
  function Matches(l: Tuple, f1: int, right: seq<Tuple>, f2: int, from: nat): seq<Tuple>
    requires 0 <= f1 < |l| && Keyed(right, f2) && from <= |right|
    decreases |right| - from
  {
    if from == |right| then []
    else (if l[f1] == right[from][f2] then [l + right[from]] else []) + Matches(l, f1, right, f2, from + 1)
  }

  /**
   * The reference the operator's description names: the tuples of left
   * cross right that satisfy the predicate, each pair once, left tuples in
   * order and for each of them the right tuples in order.
   */
  function NestedLoopJoin(left: seq<Tuple>, f1: int, right: seq<Tuple>, f2: int): seq<Tuple>
    requires Keyed(left, f1) && Keyed(right, f2)
    decreases |left|
  {
    if left == [] then []
    else
      KeyedSlice(left, f1, 0, |left| - 1);
      NestedLoopJoin(left[..|left| - 1], f1, right, f2) + Matches(left[|left| - 1], f1, right, f2, 0)
  }

  lemma {:induction false} NestedLoopJoinAppend(a: seq<Tuple>, b: seq<Tuple>, f1: int, right: seq<Tuple>, f2: int)
    requires Keyed(a, f1) && Keyed(b, f1) && Keyed(right, f2)
    ensures Keyed(a + b, f1)
    ensures NestedLoopJoin(a + b, f1, right, f2) == NestedLoopJoin(a, f1, right, f2) + NestedLoopJoin(b, f1, right, f2)
    decreases |b|
  {
    assert Keyed(a + b, f1) by {
      forall i | 0 <= i < |a + b| ensures f1 < |(a + b)[i]| {
        if i >= |a| { assert (a + b)[i] == b[i - |a|]; }
      }
    }
    if b == [] {
      assert a + b == a;
    } else {
      var init := b[..|b| - 1];
      KeyedSlice(b, f1, 0, |b| - 1);
      assert (a + b)[..|a + b| - 1] == a + init;
      NestedLoopJoinAppend(a, init, f1, right, f2);
    }
  }

  lemma PairsAppend(ls: seq<Tuple>, t: Tuple, r: Tuple)
    ensures Pairs(ls + [t], r) == Pairs(ls, r) + [t + r]
  {
    assert |Pairs(ls + [t], r)| == |Pairs(ls, r) + [t + r]|;
    forall i | 0 <= i < |ls| + 1 ensures Pairs(ls + [t], r)[i] == (Pairs(ls, r) + [t + r])[i] {
      if i < |ls| { assert (ls + [t])[i] == ls[i]; }
    }
  }

  /** One right tuple's probe of the map with `t` added gains `t`'s pair exactly when the keys agree. */
  lemma ProbeAddOne(m: map<Field, seq<Tuple>>, m': map<Field, seq<Tuple>>, t: Tuple, f1: int, f2: int, r: Tuple)
    requires 0 <= f1 < |t| && 0 <= f2 < |r|
    requires m' == m[t[f1] := (if t[f1] in m then m[t[f1]] else []) + [t]]
    ensures Probe(m', f2, r) == Probe(m, f2, r) + (if t[f1] == r[f2] then [t + r] else [])
  {
    if r[f2] == t[f1] {
      var ls := if t[f1] in m then m[t[f1]] else [];
      PairsAppend(ls, t, r);
      assert Probe(m, f2, r) == Pairs(ls, r);
    } else {
      assert (r[f2] in m') == (r[f2] in m);
    }
  }

  /**
   * Adding `t` to `t[f1]`'s list in a partition's map adds exactly `t`'s
   * join tuples to the scan of the right child.
   */
  lemma {:induction false} ScanAddOne(m: map<Field, seq<Tuple>>, m': map<Field, seq<Tuple>>, t: Tuple, f1: int,
                                      right: seq<Tuple>, f2: int, from: nat)
    requires 0 <= f1 < |t| && Keyed(right, f2) && from <= |right|
    requires m' == m[t[f1] := (if t[f1] in m then m[t[f1]] else []) + [t]]
    ensures multiset(Scan(m', f2, right, from)) == multiset(Scan(m, f2, right, from)) + multiset(Matches(t, f1, right, f2, from))
    decreases |right| - from
  {
    if from < |right| {
      var r := right[from];
      var hit: seq<Tuple> := if t[f1] == r[f2] then [t + r] else [];
      assert Scan(m', f2, right, from) == (Probe(m, f2, r) + hit) + Scan(m', f2, right, from + 1) by {
        ProbeAddOne(m, m', t, f1, f2, r);
      }
      assert Scan(m, f2, right, from) == Probe(m, f2, r) + Scan(m, f2, right, from + 1);
      assert Matches(t, f1, right, f2, from) == hit + Matches(t, f1, right, f2, from + 1);
      ScanAddOne(m, m', t, f1, right, f2, from + 1);
      MultisetRegroup(Probe(m, f2, r), hit, Scan(m, f2, right, from + 1), Scan(m', f2, right, from + 1),
                      Matches(t, f1, right, f2, from + 1));
    }
  }

  /** Multiset bookkeeping for one step of `ScanAddOne`. */
  lemma MultisetRegroup(p: seq<Tuple>, hit: seq<Tuple>, s: seq<Tuple>, s': seq<Tuple>, rest: seq<Tuple>)
    requires multiset(s') == multiset(s) + multiset(rest)
    ensures multiset((p + hit) + s') == multiset(p + s) + multiset(hit + rest)
  {
  }

  /** Scanning the right child against a partition's map joins the partition with every right tuple. */
  lemma {:induction false} ScanIsNestedLoop(part: seq<Tuple>, f1: int, right: seq<Tuple>, f2: int)
    requires Keyed(part, f1) && Keyed(right, f2)
    ensures multiset(Scan(GroupBy(part, f1), f2, right, 0)) == multiset(NestedLoopJoin(part, f1, right, f2))
    decreases |part|
  {
    if part == [] {
      ScanEmptyMap(f2, right, 0);
    } else {
      var init := part[..|part| - 1];
      var t := part[|part| - 1];
      KeyedSlice(part, f1, 0, |part| - 1);
      ScanIsNestedLoop(init, f1, right, f2);
      GroupByAppend(init, f1, t);
      assert init + [t] == part;
      ScanAddOne(GroupBy(init, f1), GroupBy(part, f1), t, f1, right, f2, 0);
    }
  }

  /** The partitions from `from` on, joined one after another, hold the nested-loop join of `left[from..]`. */
  lemma {:induction false} JoinFromIsNestedLoop(left: seq<Tuple>, f1: int, right: seq<Tuple>, f2: int, from: nat)
    requires Keyed(left, f1) && Keyed(right, f2) && from <= |left|
    ensures Keyed(left[from..], f1)
    ensures multiset(JoinFrom(left, f1, right, f2, from)) == multiset(NestedLoopJoin(left[from..], f1, right, f2))
    decreases |left| - from
  {
    assert left[from..|left|] == left[from..];
    KeyedSlice(left, f1, from, |left|);
    if from < |left| {
      var to := PartitionEnd(|left|, from);
      var part := left[from..to];
      var rest := left[to..];
      assert Keyed(part, f1) && Keyed(rest, f1) by {
        KeyedSlice(left, f1, from, to);
        KeyedSlice(left, f1, to, |left|);
        assert left[to..|left|] == rest;
      }
      calc {
        multiset(JoinFrom(left, f1, right, f2, from));
        multiset(Scan(GroupBy(part, f1), f2, right, 0)) + multiset(JoinFrom(left, f1, right, f2, to));
        == { ScanIsNestedLoop(part, f1, right, f2); JoinFromIsNestedLoop(left, f1, right, f2, to); }
        multiset(NestedLoopJoin(part, f1, right, f2)) + multiset(NestedLoopJoin(rest, f1, right, f2));
        == { NestedLoopJoinAppend(part, rest, f1, right, f2); assert part + rest == left[from..]; }
        multiset(NestedLoopJoin(left[from..], f1, right, f2));
      }
    }
  }

  /**
   * The join returns each matching pair of a left and a right tuple exactly
   * as often as the nested-loop join does: the same tuples with the same
   * multiplicities, only in partition order.
   */
  lemma JoinIsNestedLoopJoin(left: seq<Tuple>, f1: int, right: seq<Tuple>, f2: int)
    requires Keyed(left, f1) && Keyed(right, f2)
    ensures multiset(JoinOutput(left, f1, right, f2)) == multiset(NestedLoopJoin(left, f1, right, f2))
    ensures |JoinOutput(left, f1, right, f2)| == |NestedLoopJoin(left, f1, right, f2)|
  {
    JoinFromIsNestedLoop(left, f1, right, f2, 0);
    assert left[0..] == left;
    assert |multiset(JoinOutput(left, f1, right, f2))| == |JoinOutput(left, f1, right, f2)|;
    assert |multiset(NestedLoopJoin(left, f1, right, f2))| == |NestedLoopJoin(left, f1, right, f2)|;
  }

  /** Tuples that fit the children's schemas give join tuples that fit the merged schema. */
  lemma {:induction false} JoinFitsSchema(left: seq<Tuple>, f1: int, right: seq<Tuple>, f2: int,
                                          td1: TupleDesc, td2: TupleDesc, x: Tuple)
    requires Keyed(left, f1) && Keyed(right, f2)
    requires forall i :: 0 <= i < |left| ==> |left[i]| == NumFields(td1)
    requires forall j :: 0 <= j < |right| ==> |right[j]| == NumFields(td2)
    requires x in JoinOutput(left, f1, right, f2)
    ensures |x| == NumFields(Merged(td1, td2))
  {
    JoinFromSound(left, f1, right, f2, 0, x);
  }

  /**
   * `processList`'s tuple: a tuple of n1 + n2 fields, the first n1 copied
   * from `t1` and the rest from `t2`.
   */
  method Combine(t1: Tuple, t2: Tuple) returns (t: Tuple)
    ensures |t| == |t1| + |t2|
    ensures t[..|t1|] == t1 && t[|t1|..] == t2
  {
    var td1n := |t1|;
    var td2n := |t2|;
    var fields := new Field[td1n + td2n](_ => IntField(0));
    for i := 0 to td1n
      invariant forall j :: 0 <= j < i ==> fields[j] == t1[j]
    {
      fields[i] := t1[i];
    }
    for i := 0 to td2n
      invariant forall j :: 0 <= j < td1n ==> fields[j] == t1[j]
      invariant forall j :: 0 <= j < i ==> fields[td1n + j] == t2[j]
    {
      fields[td1n + i] := t2[i];
    }
    t := fields[..];
    assert t[..td1n] == t1;
    assert t[td1n..] == t2 by {
      forall j | 0 <= j < td2n ensures t[td1n..][j] == t2[j] {
        assert fields[td1n + j] == t2[j];
      }
    }
  }

  class HashEquiJoin {
    /** The left child's tuples, and its join field (`predicate.getField1()`). */
    const left: seq<Tuple>
    const field1: int
    /** The right child's tuples, and its join field (`predicate.getField2()`). */
    const right: seq<Tuple>
    const field2: int
    const td1: TupleDesc
    const td2: TupleDesc
    const comboTD: TupleDesc
    /** The children's cursors: the index of the next tuple each would return. */
    var pos1: nat
    var pos2: nat
    var hashMap: map<Field, seq<Tuple>>
    /** The match list still to pair with `t2`; None for null. */
    var listIt: Option<seq<Tuple>>
    var t1: Option<Tuple>
    var t2: Option<Tuple>

    ghost predicate Valid()
      reads this
    {
      Keyed(left, field1) && Keyed(right, field2) && pos1 <= |left| && pos2 <= |right|
      && forall k :: k in hashMap ==> hashMap[k] != []
    }

    /** The join tuples still to come, as `PendingOf` says. */
    ghost function Pending(): seq<Tuple>
      reads this
      requires Valid()
    {
      PendingOf(listIt, t2, hashMap, right, field2, pos2, JoinFrom(left, field1, right, field2, pos1))
    }

    /** `HashEquiJoin(p, child1, child2)`: the output schema is `merge(td1, td2)`. */
    constructor (field1: int, field2: int, left: seq<Tuple>, right: seq<Tuple>, td1: TupleDesc, td2: TupleDesc)
      requires Keyed(left, field1) && Keyed(right, field2)
      ensures Valid()
      ensures this.left == left && this.right == right && this.field1 == field1 && this.field2 == field2
      ensures this.td1 == td1 && this.td2 == td2 && comboTD == Merged(td1, td2)
      ensures pos1 == 0 && pos2 == 0 && hashMap == map[] && listIt == None && t1 == None && t2 == None
    {
      var combo := Merge(td1, td2);
      this.left := left;
      this.right := right;
      this.field1 := field1;
      this.field2 := field2;
      this.td1 := td1;
      this.td2 := td2;
      comboTD := combo;
      pos1 := 0;
      pos2 := 0;
      hashMap := map[];
      listIt := None;
      t1 := None;
      t2 := None;
    }

    /** `getTupleDesc()`. */
    function GetTupleDesc(): (td: TupleDesc)
      ensures td == comboTD
    {
      comboTD
    }

    /**
     * `loadMap()`: clear the map and read the next partition of the left
     * child into it, at most MAP_SIZE + 1 tuples; true iff a tuple was read.
     */
    method LoadMap() returns (loaded: bool)
      requires Valid()
      modifies this
      ensures Valid()
      ensures pos1 == PartitionEnd(|left|, old(pos1))
      ensures hashMap == GroupBy(left[old(pos1)..pos1], field1)
      ensures loaded <==> pos1 > old(pos1)
      ensures loaded ==> t1 == Some(left[pos1 - 1])
      ensures !loaded ==> t1 == old(t1)
      ensures pos2 == old(pos2) && listIt == old(listIt) && t2 == old(t2)
    {
      var p, m, last;
      p, m, last, loaded := ReadPartition(left, field1, pos1, t1);
      pos1, hashMap, t1 := p, m, last;
    }

    /**
     * The loop of `loadMap()`, on locals: read tuples of `left` from `start`
     * on into a fresh map, stopping after MAP_SIZE + 1 of them; `last` is the
     * last tuple read (`prev` when none was).
     */
    static method ReadPartition(left: seq<Tuple>, field1: int, start: nat, prev: Option<Tuple>)
      returns (p: nat, m: map<Field, seq<Tuple>>, last: Option<Tuple>, loaded: bool)
      requires Keyed(left, field1) && start <= |left|
      ensures p == PartitionEnd(|left|, start)
      ensures Keyed(left[start..p], field1) && m == GroupBy(left[start..p], field1)
      ensures loaded <==> p > start
      ensures last == if loaded then Some(left[p - 1]) else prev
    {
      p, m, last := start, map[], prev;
      var cnt := 0;
      KeyedSlice(left, field1, start, start);
      while p < |left|
        invariant start <= p <= |left| && cnt == p - start <= MAP_SIZE
        invariant Keyed(left[start..p], field1) && m == GroupBy(left[start..p], field1)
        invariant last == if cnt > 0 then Some(left[p - 1]) else prev
        decreases |left| - p
      {
        var next := left[p];
        last := Some(next);
        GroupBySliceStep(left, field1, start, p);
        p := p + 1;
        var key := next[field1];
        var list := if key in m then m[key] else [];
        m := m[key := list + [next]];
        if cnt == MAP_SIZE {
          return p, m, last, true;
        }
        cnt := cnt + 1;
      }
      return p, m, last, cnt > 0;
    }

    /** `open()`: open both children at their first tuple and load the first partition. */
    method Open()
      requires Valid()
      modifies this
      ensures Valid()
      ensures Pending() == (if old(listIt).Some? && old(t2).Some? then Pairs(old(listIt).value, old(t2).value) else [])
                           + JoinOutput(left, field1, right, field2)
    ensures pos1 == PartitionEnd(|left|, 0) && pos2 == 0 && listIt == old(listIt) && t2 == old(t2)
    ensures Keyed(left[0..pos1], field1) && hashMap == GroupBy(left[0..pos1], field1)
    {
      pos1 := 0;
      pos2 := 0;
      PendingAfterLoad(left, field1, 0, right, field2);
      var loaded := LoadMap();
      PendingSplitList(listIt, t2, hashMap, right, field2, 0, JoinFrom(left, field1, right, field2, pos1));
    }

    /**
     * `processList()`: take the next tuple of the match list as `t1` and
     * return it joined with `t2`.
     */
    method ProcessList() returns (t: Tuple)
      requires Valid() && listIt.Some? && listIt.value != [] && t2.Some?
      modifies this
      ensures Valid()
      ensures t1 == Some(old(listIt).value[0]) && listIt == Some(old(listIt).value[1..])
      ensures t2 == old(t2) && pos1 == old(pos1) && pos2 == old(pos2) && hashMap == old(hashMap)
      ensures t == old(listIt).value[0] + t2.value
    {
      t1 := Some(listIt.value[0]);
      listIt := Some(listIt.value[1..]);
      t := Combine(t1.value, t2.value);
      assert t == t1.value + t2.value;
    }

    /**
     * The scan loop of `fetchNext()`: read on through the right child until a
     * tuple whose key is in the map, start its match list and return the
     * first pair; None once the right child is exhausted.
     */
    method ProbeRight() returns (r: Option<Tuple>)
      requires Valid() && (listIt.Some? ==> t2.Some?) && (listIt.None? || listIt.value == [])
      modifies this
      ensures Valid() && (listIt.Some? ==> t2.Some?)
      ensures pos1 == old(pos1) && hashMap == old(hashMap)
      ensures var j := NextHit(hashMap, field2, right, old(pos2));
              if j < |right| then
                var list := hashMap[right[j][field2]];
                r == Some(list[0] + right[j]) && pos2 == j + 1 && t2 == Some(right[j]) && listIt == Some(list[1..])
              else
                r.None? && pos2 == |right| && (listIt.None? || listIt.value == [])
    {
      while pos2 < |right|
        invariant Valid() && (listIt.Some? ==> t2.Some?)
        invariant listIt.None? || listIt.value == []
        invariant pos1 == old(pos1) && hashMap == old(hashMap)
        invariant NextHit(hashMap, field2, right, pos2) == NextHit(hashMap, field2, right, old(pos2))
        decreases |right| - pos2
      {
        var next := right[pos2];
        t2 := Some(next);
        pos2 := pos2 + 1;
        var key := next[field2];
        if key !in hashMap {
          continue;
        }
        listIt := Some(hashMap[key]);
        var t := ProcessList();
        return Some(t);
      }
      return None;
    }

    /**
     * The part of `fetchNext()` that stays inside the loaded partition: the
     * next tuple of the current match list, else the next hit of the right
     * scan; None once the right child is exhausted, when only the later
     * partitions' output is left.
     */
    method NextInPartition() returns (r: Option<Tuple>)
      requires Valid()
      requires listIt.Some? ==> t2.Some?
      modifies this
      ensures Valid() && (listIt.Some? ==> t2.Some?)
      ensures pos1 == old(pos1)
      ensures r.Some? ==> old(Pending()) == [r.value] + Pending()
      ensures r.None? ==> old(Pending()) == JoinFrom(left, field1, right, field2, pos1)
                          && (listIt.None? || listIt.value == [])
    {
      if listIt.Some? && listIt.value != [] {
        PendingPopList(listIt.value, t2.value, hashMap, right, field2, pos2, JoinFrom(left, field1, right, field2, pos1));
        var t := ProcessList();
        return Some(t);
      }
      ghost var later := JoinFrom(left, field1, right, field2, pos1);
      PendingWithoutList(listIt, t2, hashMap, right, field2, pos2, later);
      r := ScanForHit(later);
    }

    /**
     * The scan half of `NextInPartition`: the match list is exhausted or
     * absent; `later` stands for whatever follows the current partition.
     */
    method ScanForHit(ghost later: seq<Tuple>) returns (r: Option<Tuple>)
      requires Valid()
      requires listIt.Some? ==> t2.Some?
      requires listIt.None? || listIt.value == []
      modifies this
      ensures Valid() && (listIt.Some? ==> t2.Some?)
      ensures pos1 == old(pos1)
      ensures var before := PendingOf(None, None, old(hashMap), right, field2, old(pos2), later);
              if r.Some? then before == [r.value] + PendingOf(listIt, t2, hashMap, right, field2, pos2, later)
              else before == later && (listIt.None? || listIt.value == [])
    {
      ghost var m, from := hashMap, pos2;
      r := ProbeRight();
      PendingAfterProbe(m, right, field2, from, later, r, pos2, listIt, t2);
    }

    /**
     * `fetchNext()`: the next join tuple, or None (null) when the join is
     * done. It drains the current match list, then scans on through the
     * right child; when the right child is exhausted it rewinds it, loads
     * the next partition and starts again.
     */
    method FetchNext() returns (r: Option<Tuple>)
      requires Valid()
      requires listIt.Some? ==> t2.Some?
      modifies this
      ensures Valid() && (listIt.Some? ==> t2.Some?)
      ensures old(Pending()) == (if r.Some? then [r.value] + Pending() else [])
      ensures r.None? ==> Pending() == []
      decreases |left| - pos1
    {
      r := NextInPartition();
      if r.Some? {
        return;
      }
      pos2 := 0;
      PendingAfterLoad(left, field1, pos1, right, field2);
      var loaded := LoadMap();
      PendingWithoutList(listIt, t2, hashMap, right, field2, pos2, JoinFrom(left, field1, right, field2, pos1));
      if loaded {
        r := FetchNext();
        return;
      }
    }

    /** `rewind()`: rewinds the two children only; the map and the match list are kept. */
    method Rewind()
      requires Valid()
      modifies this
      ensures Valid()
      ensures pos1 == 0 && pos2 == 0
      ensures hashMap == old(hashMap) && listIt == old(listIt) && t1 == old(t1) && t2 == old(t2)
      ensures Pending() == (if listIt.Some? && t2.Some? then Pairs(listIt.value, t2.value) else [])
                           + Scan(hashMap, field2, right, 0) + JoinOutput(left, field1, right, field2)
    {
      pos1 := 0;
      pos2 := 0;
    }

    /**
     * A rewind that restarts the join: rewind the children, drop the match
     * list and reload the first partition, so that what remains is the
     * whole join again.
     */
    method RewindAndReload()
      requires Valid()
      modifies this
      ensures Valid() && listIt == None
      ensures Pending() == JoinOutput(left, field1, right, field2)
    {
      pos1 := 0;
      pos2 := 0;
      listIt := None;
      PendingAfterLoad(left, field1, 0, right, field2);
      var loaded := LoadMap();
    }

    /** `close()`: the map is emptied and `t1`, `t2` and `listIt` are set to null. */
    method Close()
      requires Valid()
      modifies this
      ensures Valid()
      ensures hashMap == map[] && listIt == None && t1 == None && t2 == None
      ensures pos1 == old(pos1) && pos2 == old(pos2)
    {
      t1 := None;
      t2 := None;
      listIt := None;
      hashMap := map[];
    }
  }

  /**
   * `rewind` right after `open` on a one-row join: the first partition's
   * map is kept, so the pending output holds the one join tuple twice
   * while the join has it once.
   */
  lemma RewindRepeatsFirstPartition()
    ensures var row: Tuple := [IntField(1)];
            var left := [row];
            var right := [row];
            var afterOpen := GroupBy(left[0..PartitionEnd(1, 0)], 0);
            JoinOutput(left, 0, right, 0) == [row + row]
            && PendingOf(None, None, afterOpen, right, 0, 0, JoinOutput(left, 0, right, 0)) == [row + row, row + row]
  {
    var row: Tuple := [IntField(1)];
    var left := [row];
    assert left[0..1] == left;
    assert left[..0] == [];
    assert GroupBy(left[..0], 0) == map[];
    var m := GroupBy(left, 0);
    assert m == map[][IntField(1) := [] + [row]];
    assert [] + [row] == [row];
    assert IntField(1) in m && m[IntField(1)] == [row];
    assert Probe(m, 0, row) == [row + row];
    assert Scan(m, 0, [row], 0) == [row + row];
    assert JoinFrom(left, 0, [row], 0, 1) == [];
  }

  /**
   * The same run on the operator itself: a new join of one row with one
   * row, opened and then rewound, has its one join tuple pending twice.
   */
  method OpenThenRewind() returns (j: HashEquiJoin)
    ensures j.Valid() && j.left == [[IntField(1)]] && j.right == [[IntField(1)]]
    ensures JoinOutput(j.left, j.field1, j.right, j.field2) == [[IntField(1), IntField(1)]]
    ensures j.Pending() == [[IntField(1), IntField(1)], [IntField(1), IntField(1)]]
  {
    var row: Tuple := [IntField(1)];
    var td := NewUnnamed([INT_TYPE]);
    j := new HashEquiJoin(0, 0, [row], [row], td, td);
    j.Open();
    j.Rewind();
    RewindRepeatsFirstPartition();
    assert row + row == [IntField(1), IntField(1)];
  }
}

/**
 * The buffer pool's recency tracker (the inner class `LRUCache`): a
 * LinkedHashSet of page ids kept in insertion order, least recently used
 * first, with a fixed capacity.
 */
module LruCaches {
  import opened JavaLang
  import opened HeapPageIds
  import opened Listings

  /** `LinkedHashSet.remove(key)`: the order of the other keys is kept. */
  function Without(s: seq<HeapPageId>, key: HeapPageId): (r: seq<HeapPageId>)
    ensures forall x :: x in r <==> x in s && x != key
    ensures key !in s ==> r == s
    ensures Distinct(s) ==> Distinct(r)
    ensures Distinct(s) && key in s ==> |r| == |s| - 1
    ensures Distinct(s) && s != [] && s[0] == key ==> r == s[1..]
    decreases |s|
  {
    if s == [] then []
    else if s[0] == key then Without(s[1..], key)
    else
      var rest := Without(s[1..], key);
      DistinctCons(s[0], rest);
      [s[0]] + rest
  }

  /**
   * Removing a key that sits at index `i` of a repetition-free list leaves
   * the keys before it and the keys after it, each in their order.
   */
  lemma {:induction false} WithoutKeepsOrder(s: seq<HeapPageId>, key: HeapPageId, i: nat)
    requires Distinct(s) && i < |s| && s[i] == key
    ensures Without(s, key) == s[..i] + s[i + 1..]
    decreases |s|
  {
    if i == 0 {
      assert s[..0] + s[1..] == s[1..];
    } else {
      var t := s[1..];
      assert Distinct(t) by {
        forall a, b | 0 <= a < b < |t| ensures t[a] != t[b] {
          assert t[a] == s[a + 1] && t[b] == s[b + 1];
        }
      }
      calc {
        Without(s, key);
        == { assert s[0] != key; }
        [s[0]] + Without(t, key);
        == { WithoutKeepsOrder(t, key, i - 1); }
        [s[0]] + (t[..i - 1] + t[i..]);
        == { assert [s[0]] + t[..i - 1] == s[..i]; assert t[i..] == s[i + 1..]; }
        s[..i] + s[i + 1..];
      }
    }
  }

  lemma DistinctCons(x: HeapPageId, r: seq<HeapPageId>)
    ensures x !in r && Distinct(r) ==> Distinct([x] + r)
  {
    if x !in r && Distinct(r) {
      var s := [x] + r;
      forall i, j | 0 <= i < j < |s| ensures s[i] != s[j] {
        assert s[j] == r[j - 1];
        if i > 0 { assert s[i] == r[i - 1]; }
      }
    }
  }

  /**
   * `put(key)`: a present key moves to the most recent end; an absent key is
   * appended, after the least recent key is dropped when the set is full.
   */
  function LruPut(order: seq<HeapPageId>, cap: nat, key: HeapPageId): (r: seq<HeapPageId>)
    requires cap >= 1
    ensures r != [] && r[|r| - 1] == key
    ensures forall x :: x in r ==> x == key || x in order
    ensures forall x :: x in order && x != key && !(key !in order && |order| == cap && x == order[0]) ==> x in r
    ensures Distinct(order) ==> Distinct(r)
    ensures Distinct(order) && |order| <= cap ==> |r| <= cap
    ensures Distinct(order) && key !in order && |order| == cap ==> order[0] !in r && r == order[1..] + [key]
    ensures key !in order && |order| != cap ==> r == order + [key]
  {
    if key in order then
      Without(order, key) + [key]
    else if |order| == cap then Without(order, order[0]) + [key]
    else order + [key]
  }

  /**
   * `put` of a key at index `i` moves it to the most recent end; the keys
   * before it and after it keep their order.
   */
  lemma LruPutMovesKey(order: seq<HeapPageId>, cap: nat, key: HeapPageId, i: nat)
    requires cap >= 1 && Distinct(order) && i < |order| && order[i] == key
    ensures LruPut(order, cap, key) == order[..i] + order[i + 1..] + [key]
  {
    WithoutKeepsOrder(order, key, i);
  }

  class LRUCache {
    /** The LinkedHashSet's keys in insertion order: least recently used first. */
    var order: seq<HeapPageId>
    const capacity: nat

    ghost predicate Valid()
      reads this
    {
      capacity >= 1 && Distinct(order) && |order| <= capacity
    }

    constructor (capacity: nat)
      requires capacity >= 1
      ensures Valid() && this.capacity == capacity && order == []
    {
      this.capacity := capacity;
      order := [];
    }

    /** `get(key)`: false and no change for an absent key; otherwise the key becomes most recent. */
    method Get(key: HeapPageId) returns (found: bool)
      requires Valid()
      modifies this
      ensures Valid()
      ensures found <==> key in old(order)
      ensures !found ==> order == old(order)
      ensures found ==> order == Without(old(order), key) + [key]
    {
      if key !in order {
        return false;
      }
      order := Without(order, key);
      order := order + [key];
      found := true;
    }

    /** `refer(key)`: `get`, and `put` when that missed; the same as `put` in every case. */
    method Refer(key: HeapPageId)
      requires Valid()
      modifies this
      ensures Valid()
      ensures order == LruPut(old(order), capacity, key)
    {
      var found := Get(key);
      if !found {
        Put(key);
      }
    }

    /** `put(key)`. */
    method Put(key: HeapPageId)
      requires Valid()
      modifies this
      ensures Valid()
      ensures order == LruPut(old(order), capacity, key)
    {
      if key in order {
        order := Without(order, key);
      } else if |order| == capacity {
        var firstKey := LruFirstKey();
        LruRemove(firstKey.value);
      }
      order := order + [key];
    }

    /** `lruFirstKey()`: the least recent key, not removed; NoSuchElementException when empty. */
    method LruFirstKey() returns (r: Result<HeapPageId>)
      ensures order == [] ==> r == Err(NoSuchElement)
      ensures order != [] ==> r == Ok(order[0])
    {
      if order == [] {
        return Err(NoSuchElement);
      }
      r := Ok(order[0]);
    }

    /** `lruRemove(key)`. */
    method LruRemove(key: HeapPageId)
      requires Valid()
      modifies this
      ensures Valid()
      ensures order == Without(old(order), key)
    {
      order := Without(order, key);
    }
  }
}

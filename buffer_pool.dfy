/**
 * BufferPool: a bounded cache of pages keyed by page id, in front of the
 * table files. The first half of this module gives the abstract state (the
 * page map, the recency order and what the files hold) and a function per
 * operation; the class at the end is the imperative pool, each method
 * proved to move its state exactly as the function says.
 *
 * Two behaviours of the code are kept as they are:
 *  - the recency set is created with capacity DEFAULT_PAGES (50), not with
 *    the pool's own capacity `numPages`;
 *  - `discardPage` removes the page from the map but not from the recency set.
 * Because of them, "the pool never holds more than numPages pages" holds
 * only while the recency set lists exactly the cached pages and
 * numPages <= DEFAULT_PAGES (lemmas GetPageKeepsCapacity, InstallKeepsCapacity,
 * DiscardThenMissOverflows, FullRecencySetForgetsCachedPage).
 */
module BufferPools {
  import opened JavaLang
  import opened HeapPageIds
  import opened LruCaches
  import opened Listings
  import HeapFiles

  /** Default number of pages; the capacity the recency set is built with. */
  const DEFAULT_PAGES: nat := 50

  /** Transaction ids are opaque tokens. */
  type Tid = nat

  type Data = seq<HeapFiles.byte>

  datatype Permissions = READ_ONLY | READ_WRITE

  /**
   * A cached page: its id, the transaction that last dirtied it (None when
   * clean), its bytes and its before-image.
   */
  datatype Page = Page(id: HeapPageId, dirtier: Option<Tid>, data: Data, beforeImage: Data)

  /** `markDirty(true, tid)`. */
  function MarkDirty(p: Page, tid: Tid): (q: Page)
    ensures q.id == p.id && q.dirtier == Some(tid) && q.data == p.data && q.beforeImage == p.beforeImage
  {
    p.(dirtier := Some(tid))
  }

  /** `markDirty(false, null)` followed by `setBeforeImage()`. */
  function Cleaned(p: Page): (q: Page)
    ensures q.id == p.id && q.dirtier == None && q.data == p.data && q.beforeImage == p.data
  {
    p.(dirtier := None, beforeImage := p.data)
  }

  /**
   * The pool's abstract state: the page map, the recency order (least
   * recent first) and the bytes each table file holds for each page.
   */
  datatype Cache = Cache(pages: map<HeapPageId, Page>, order: seq<HeapPageId>, disk: map<HeapPageId, Data>)

  /** Every cached page sits under its own id. */
  predicate WellKeyed(c: Cache)
  {
    forall k :: k in c.pages ==> c.pages[k].id == k
  }

  /** The recency set lists exactly the cached pages, each once. */
  predicate Synced(c: Cache)
  {
    Distinct(c.order) && Elems(c.order) == c.pages.Keys
  }

  lemma SyncedSizes(c: Cache)
    requires Synced(c)
    ensures |c.order| == |c.pages|
  {
    DistinctCard(c.order);
    assert |Elems(c.order)| == |c.pages.Keys|;
  }

  // ---------------------------------------------------------------------
  // Flushing and discarding
  // ---------------------------------------------------------------------

  /**
   * `flushPage(pid)`: a dirty cached page is written to its file, then
   * becomes clean with its before-image equal to its bytes; an absent or
   * clean page is left alone.
   */
  function Flush(c: Cache, pid: HeapPageId): Cache
  {
    if pid in c.pages && c.pages[pid].dirtier.Some? then
      Cache(c.pages[pid := Cleaned(c.pages[pid])], c.order, c.disk[pid := c.pages[pid].data])
    else c
  }

  lemma FlushContract(c: Cache, pid: HeapPageId)
    ensures pid !in c.pages || c.pages[pid].dirtier.None? ==> Flush(c, pid) == c
    ensures pid in c.pages && c.pages[pid].dirtier.Some? ==>
              var f := Flush(c, pid);
              f.pages == c.pages[pid := Cleaned(c.pages[pid])] && f.order == c.order
              && f.disk == c.disk[pid := c.pages[pid].data]
    ensures Flush(Flush(c, pid), pid) == Flush(c, pid)
  {
  }

  /** The pages of `s` that are cached and dirty: the ones flushing `s` writes. */
  function DirtyIn(c: Cache, s: set<HeapPageId>): set<HeapPageId>
  {
    set k | k in s && k in c.pages && c.pages[k].dirtier.Some?
  }

  /** The state after flushing every page of `s`, in any order. */
  function FlushSet(c: Cache, s: set<HeapPageId>): Cache
  {
    var dirty := DirtyIn(c, s);
    Cache(map k | k in c.pages :: if k in dirty then Cleaned(c.pages[k]) else c.pages[k],
          c.order,
          map k | k in c.disk.Keys + dirty :: if k in dirty then c.pages[k].data else c.disk[k])
  }

  /** Flushing one more page extends the flushed set; the order of flushes does not matter. */
  lemma FlushOneMore(c: Cache, s: set<HeapPageId>, pid: HeapPageId)
    ensures Flush(FlushSet(c, s), pid) == FlushSet(c, s + {pid})
  {
    var f := FlushSet(c, s);
    var g := FlushSet(c, s + {pid});
    var h := Flush(f, pid);
    if pid in c.pages && c.pages[pid].dirtier.Some? && pid !in s {
      assert DirtyIn(c, s + {pid}) == DirtyIn(c, s) + {pid};
      assert h.pages == g.pages by {
        assert h.pages.Keys == g.pages.Keys;
        forall k | k in g.pages ensures h.pages[k] == g.pages[k] {
        }
      }
      assert h.disk == g.disk by {
        assert h.disk.Keys == g.disk.Keys;
        forall k | k in g.disk ensures h.disk[k] == g.disk[k] {
        }
      }
    } else {
      assert DirtyIn(c, s + {pid}) == DirtyIn(c, s);
      assert h == f;
    }
  }

  /** `flushAllPages()`: flushes every cached page. */
  function FlushAll(c: Cache): Cache
  {
    FlushSet(c, c.pages.Keys)
  }

  /**
   * After `flushAllPages` every cached page is clean with unchanged bytes,
   * every page that was dirty has its bytes on disk and a before-image equal
   * to them, and what was on disk for the other pages is kept.
   */
  lemma FlushAllCleansEverything(c: Cache)
    ensures var f := FlushAll(c);
            f.pages.Keys == c.pages.Keys && f.order == c.order
            && (forall k :: k in f.pages ==> f.pages[k].dirtier.None? && f.pages[k].data == c.pages[k].data)
            && (forall k :: k in c.pages && c.pages[k].dirtier.Some? ==>
                  k in f.disk && f.disk[k] == c.pages[k].data && f.pages[k].beforeImage == c.pages[k].data)
            && (forall k :: k in c.disk && (k !in c.pages || c.pages[k].dirtier.None?) ==> k in f.disk && f.disk[k] == c.disk[k])
  {
  }

  /** `discardPage(pid)`: drops the page from the map, unflushed; the recency set keeps its key. */
  function Discard(c: Cache, pid: HeapPageId): Cache
  {
    c.(pages := c.pages - {pid})
  }

  /** Discarding a cached page leaves a key in the recency set that no cached page has. */
  lemma DiscardUnsyncs(c: Cache, pid: HeapPageId)
    requires Synced(c) && pid in c.pages
    ensures var d := Discard(c, pid);
            d.order == c.order && d.disk == c.disk && pid !in d.pages && !Synced(d)
  {
    assert pid in Elems(c.order);
  }

  // ---------------------------------------------------------------------
  // Eviction
  // ---------------------------------------------------------------------

  predicate HasClean(c: Cache)
  {
    exists k :: k in c.pages && c.pages[k].dirtier.None?
  }

  /** `evictPage` finds a victim unless no page is clean and the recency set is empty. */
  predicate CanEvict(c: Cache)
  {
    HasClean(c) || c.order != []
  }

  /**
   * The victims `evictPage` may choose: any clean page (the code picks one at
   * random) when there is one; otherwise the least recent key of the
   * recency set.
   */
  predicate IsVictim(c: Cache, v: HeapPageId)
  {
    if HasClean(c) then v in c.pages && c.pages[v].dirtier.None?
    else c.order != [] && v == c.order[0]
  }

  /** `evictPage` with victim `v`: flush it, drop it from the recency set, drop it from the map. */
  function Evict(c: Cache, v: HeapPageId): Cache
  {
    var f := Flush(c, v);
    Cache(f.pages - {v}, Without(f.order, v), f.disk)
  }

  /** Eviction never loses data: a dirty victim's bytes are on disk once it has left the cache. */
  lemma EvictWritesBackDirtyVictim(c: Cache, v: HeapPageId)
    requires IsVictim(c, v)
    ensures var e := Evict(c, v);
            v !in e.pages && v !in e.order
            && (v in c.pages && c.pages[v].dirtier.Some? ==> !HasClean(c) && v in e.disk && e.disk[v] == c.pages[v].data)
            && (forall k :: k in c.pages && k != v ==> k in e.pages && e.pages[k] == c.pages[k])
  {
  }

  /** Evicting `v` drops exactly `v` from the page map. */
  lemma EvictKeys(c: Cache, v: HeapPageId)
    ensures Evict(c, v).pages.Keys == c.pages.Keys - {v}
  {
    FlushContract(c, v);
  }

  /** Evicting `v` drops exactly `v` from the recency set, keeping it repetition-free. */
  lemma EvictOrder(c: Cache, v: HeapPageId)
    requires Distinct(c.order)
    ensures Distinct(Evict(c, v).order) && Elems(Evict(c, v).order) == Elems(c.order) - {v}
  {
    FlushContract(c, v);
    var r := Without(c.order, v);
    assert Evict(c, v).order == r;
    assert Elems(r) == Elems(c.order) - {v};
  }

  /** Eviction writes at most the victim's bytes: every file page stays, and uncached ones keep their bytes. */
  lemma EvictKeepsDisk(c: Cache, v: HeapPageId)
    ensures var e := Evict(c, v);
            e.disk.Keys >= c.disk.Keys && forall k :: k in c.disk && k !in c.pages ==> e.disk[k] == c.disk[k]
  {
    FlushContract(c, v);
  }

  /** Evicting from a synced pool frees exactly one slot and keeps it synced. */
  lemma EvictFreesOneSlot(c: Cache, v: HeapPageId)
    requires Synced(c) && IsVictim(c, v)
    ensures var e := Evict(c, v);
            Synced(e) && |e.pages| == |c.pages| - 1 && e.pages.Keys == c.pages.Keys - {v}
  {
    assert v in c.pages by {
      if !HasClean(c) {
        assert c.order[0] in Elems(c.order);
      }
    }
    EvictKeys(c, v);
    EvictOrder(c, v);
    var e := Evict(c, v);
    assert |e.pages| == |e.pages.Keys| == |c.pages.Keys| - 1;
  }

  // ---------------------------------------------------------------------
  // getPage
  // ---------------------------------------------------------------------

  /** The pool's state after a call, and what the call returned. */
  datatype Reply = Reply(cache: Cache, result: Result<Page>)

  predicate NeedsEviction(c: Cache, cap: int, pid: HeapPageId)
  {
    pid !in c.pages && |c.pages| == cap
  }

  /**
   * The miss path of `getPage` after any eviction: read the page from its
   * file, cache it with before-image = its bytes, append its id to the
   * recency set, and mark it dirty for a READ_WRITE request. A failed read
   * gives a null page, which the map refuses with a NullPointerException.
   */
  function Load(c: Cache, tid: Tid, pid: HeapPageId, perm: Permissions): Reply
  {
    if pid !in c.disk then Reply(c, Err(NullPointer))
    else
      var fromDisk := Page(pid, None, c.disk[pid], c.disk[pid]);
      var p := if perm == READ_WRITE then MarkDirty(fromDisk, tid) else fromDisk;
      Reply(Cache(c.pages[pid := p], LruPut(c.order, DEFAULT_PAGES, pid), c.disk), Ok(p))
  }

  /**
   * `getPage(tid, pid, perm)` on a pool of capacity `cap`; `victim` is the
   * page `evictPage` picks when the pool is full.
   */
  function GetPageSpec(c: Cache, cap: int, tid: Tid, pid: HeapPageId, perm: Permissions, victim: HeapPageId): Reply
  {
    if pid in c.pages then
      var p := if perm == READ_WRITE then MarkDirty(c.pages[pid], tid) else c.pages[pid];
      Reply(c.(pages := c.pages[pid := p]), Ok(p))
    else if NeedsEviction(c, cap, pid) && !CanEvict(c) then Reply(c, Err(NoSuchElement))
    else Load(if NeedsEviction(c, cap, pid) then Evict(c, victim) else c, tid, pid, perm)
  }

  /**
   * A hit returns the cached page: nothing is loaded, evicted or written,
   * and the recency order is not touched (a hit does not refresh recency).
   */
  lemma GetPageHit(c: Cache, cap: int, tid: Tid, pid: HeapPageId, perm: Permissions, victim: HeapPageId)
    requires pid in c.pages
    ensures var r := GetPageSpec(c, cap, tid, pid, perm, victim);
            r.result.Ok? && r.result.value.data == c.pages[pid].data
            && r.cache.pages.Keys == c.pages.Keys && r.cache.order == c.order && r.cache.disk == c.disk
            && (forall k :: k in c.pages && k != pid ==> r.cache.pages[k] == c.pages[k])
  {
  }

  /**
   * Reading a page that is not cached: it fails exactly when the file has no
   * such page; otherwise the page is cached with its file bytes as data and
   * before-image, is the most recent key, and nothing else changes.
   */
  lemma LoadCachesPage(c: Cache, tid: Tid, pid: HeapPageId, perm: Permissions)
    requires pid !in c.pages
    ensures var r := Load(c, tid, pid, perm);
            (r.result.Ok? <==> pid in c.disk)
            && (r.result.Err? ==> r.cache == c)
            && (r.result.Ok? ==>
                  r.cache.pages == c.pages[pid := r.result.value]
                  && r.result.value.id == pid
                  && r.result.value.data == r.result.value.beforeImage == c.disk[pid]
                  && r.cache.order == LruPut(c.order, DEFAULT_PAGES, pid)
                  && r.cache.disk == c.disk)
  {
  }

  /**
   * A miss succeeds exactly when the file has the page and, on a full pool,
   * something can be evicted. The page read is then cached with its file
   * bytes as data and before-image and is the most recent key; no page other
   * than the victim leaves the map, and no file contents are lost.
   */
  lemma GetPageMiss(c: Cache, cap: int, tid: Tid, pid: HeapPageId, perm: Permissions, victim: HeapPageId)
    requires pid !in c.pages
    requires NeedsEviction(c, cap, pid) && CanEvict(c) ==> IsVictim(c, victim)
    ensures var r := GetPageSpec(c, cap, tid, pid, perm, victim);
            (r.result.Ok? <==> pid in c.disk && (NeedsEviction(c, cap, pid) ==> CanEvict(c)))
            && (r.result.Ok? ==>
                  pid in r.cache.pages && r.cache.pages[pid] == r.result.value
                  && r.result.value.data == r.result.value.beforeImage == c.disk[pid]
                  && r.cache.order[|r.cache.order| - 1] == pid
                  && (forall k :: k in c.pages && k != victim ==> k in r.cache.pages && r.cache.pages[k] == c.pages[k])
                  && (forall k :: k in c.disk ==> k in r.cache.disk)
                  && (NeedsEviction(c, cap, pid) && victim != pid ==> victim !in r.cache.pages))
  {
    if NeedsEviction(c, cap, pid) && CanEvict(c) {
      EvictKeepsDisk(c, victim);
      EvictWritesBackDirtyVictim(c, victim);
      LoadCachesPage(Evict(c, victim), tid, pid, perm);
    } else if !NeedsEviction(c, cap, pid) {
      LoadCachesPage(c, tid, pid, perm);
    }
  }

  /**
   * A READ_WRITE request returns a page dirtied by the requester; a
   * READ_ONLY one leaves the dirty state as it was (clean for a page just read).
   */
  lemma GetPagePermissions(c: Cache, cap: int, tid: Tid, pid: HeapPageId, perm: Permissions, victim: HeapPageId)
    ensures var r := GetPageSpec(c, cap, tid, pid, perm, victim);
            r.result.Ok? ==>
              (perm == READ_WRITE ==> r.result.value.dirtier == Some(tid))
              && (perm == READ_ONLY && pid in c.pages ==> r.result.value == c.pages[pid])
              && (perm == READ_ONLY && pid !in c.pages ==> r.result.value.dirtier.None?)
  {
  }

  /** Reading a page into a synced pool with a free recency slot keeps it synced. */
  lemma LoadKeepsSynced(c: Cache, tid: Tid, pid: HeapPageId, perm: Permissions)
    requires Synced(c) && pid !in c.pages && |c.pages| < DEFAULT_PAGES
    ensures var c' := Load(c, tid, pid, perm).cache;
            Synced(c') && |c'.pages| <= |c.pages| + 1
  {
    if pid in c.disk {
      var c' := Load(c, tid, pid, perm).cache;
      assert c'.pages.Keys == c.pages.Keys + {pid};
      assert Elems(c'.order) == c'.pages.Keys by {
        assert pid !in c.order by {
          assert pid !in Elems(c.order);
        }
        assert c'.order == c.order + [pid] by {
          SyncedSizes(c);
        }
        ElemsAppend(c.order, pid);
      }
    }
  }

  /**
   * The capacity bound: while the recency set lists exactly the cached pages
   * and 1 <= numPages <= DEFAULT_PAGES, `getPage` keeps the two in step and
   * never lets the map grow past numPages.
   */
  lemma GetPageKeepsCapacity(c: Cache, cap: int, tid: Tid, pid: HeapPageId, perm: Permissions, victim: HeapPageId)
    requires Synced(c) && 1 <= cap <= DEFAULT_PAGES && |c.pages| <= cap
    requires NeedsEviction(c, cap, pid) ==> IsVictim(c, victim)
    ensures var c' := GetPageSpec(c, cap, tid, pid, perm, victim).cache;
            Synced(c') && |c'.pages| <= cap
  {
    if pid in c.pages {
      var c' := GetPageSpec(c, cap, tid, pid, perm, victim).cache;
      assert c'.pages.Keys == c.pages.Keys;
    } else if NeedsEviction(c, cap, pid) {
      EvictFreesOneSlot(c, victim);
      LoadKeepsSynced(Evict(c, victim), tid, pid, perm);
    } else {
      LoadKeepsSynced(c, tid, pid, perm);
    }
  }

  /**
   * The recency set is built with 50 slots whatever numPages is. In a pool
   * with room for more than 50 pages, the 51st page read pushes the least
   * recent key out of the set while its page stays cached.
   */
  lemma FullRecencySetForgetsCachedPage(c: Cache, cap: int, tid: Tid, pid: HeapPageId, perm: Permissions, victim: HeapPageId)
    requires Synced(c) && |c.pages| == DEFAULT_PAGES < cap
    requires pid !in c.pages && pid in c.disk
    ensures var c' := GetPageSpec(c, cap, tid, pid, perm, victim).cache;
            c.order[0] in c'.pages && c.order[0] !in c'.order && !Synced(c')
  {
    SyncedSizes(c);
    assert c.order[0] in Elems(c.order);
  }

  /**
   * What `discardPage` costs the bound: with numPages = 1, read A for
   * writing, discard A, read B for writing, then read C. The only victim
   * `evictPage` may pick is A's stale key, so nothing leaves the map and
   * it ends up holding two pages.
   */
  lemma DiscardThenMissOverflows(a: HeapPageId, b: HeapPageId, c: HeapPageId, da: Data, db: Data, dc: Data, tid: Tid)
    requires a != b && b != c && a != c
    ensures var s0 := Cache(map[], [], map[a := da, b := db, c := dc]);
            var s1 := GetPageSpec(s0, 1, tid, a, READ_WRITE, a).cache;
            var s2 := Discard(s1, a);
            var s3 := GetPageSpec(s2, 1, tid, b, READ_WRITE, a).cache;
            var s4 := GetPageSpec(s3, 1, tid, c, READ_ONLY, a).cache;
            NeedsEviction(s3, 1, c) && (forall v :: IsVictim(s3, v) <==> v == a)
            && |s4.pages| == 2
  {
    var s0 := Cache(map[], [], map[a := da, b := db, c := dc]);
    var s3 := GetPageSpec(Discard(GetPageSpec(s0, 1, tid, a, READ_WRITE, a).cache, a), 1, tid, b, READ_WRITE, a).cache;
    DiscardLeavesStaleKey(a, b, s0, tid);
    StaleKeyIsOnlyVictim(s3, a, b, c, tid);
  }

  /** Reading A for writing, discarding it, then reading B for writing into a pool of one. */
  lemma DiscardLeavesStaleKey(a: HeapPageId, b: HeapPageId, s0: Cache, tid: Tid)
    requires a != b && s0.pages == map[] && s0.order == [] && a in s0.disk && b in s0.disk
    ensures var s1 := GetPageSpec(s0, 1, tid, a, READ_WRITE, a).cache;
            var s3 := GetPageSpec(Discard(s1, a), 1, tid, b, READ_WRITE, a).cache;
            s3.pages.Keys == {b} && s3.pages[b].dirtier == Some(tid) && s3.order == [a, b] && s3.disk == s0.disk
  {
    var s1 := GetPageSpec(s0, 1, tid, a, READ_WRITE, a).cache;
    assert s1.pages.Keys == {a} && s1.order == [a] && s1.disk == s0.disk by {
      LoadCachesPage(s0, tid, a, READ_WRITE);
    }
    var s2 := Discard(s1, a);
    assert s2.pages == map[] && s2.order == [a] && s2.disk == s0.disk;
    LoadCachesPage(s2, tid, b, READ_WRITE);
  }

  /** With one dirty page B cached and the stale key A first, only A can be evicted, and reading C leaves two pages. */
  lemma StaleKeyIsOnlyVictim(s3: Cache, a: HeapPageId, b: HeapPageId, c: HeapPageId, tid: Tid)
    requires a != b && b != c && a != c
    requires s3.pages.Keys == {b} && s3.pages[b].dirtier.Some? && s3.order == [a, b] && c in s3.disk
    ensures NeedsEviction(s3, 1, c) && (forall v :: IsVictim(s3, v) <==> v == a)
            && |GetPageSpec(s3, 1, tid, c, READ_ONLY, a).cache.pages| == 2
  {
    assert !HasClean(s3);
    var e := Evict(s3, a);
    assert e.pages.Keys == {b} && c in e.disk by {
      EvictKeys(s3, a);
      EvictKeepsDisk(s3, a);
    }
    var s4 := GetPageSpec(s3, 1, tid, c, READ_ONLY, a).cache;
    assert s4.pages.Keys == {b, c} by {
      LoadCachesPage(e, tid, c, READ_ONLY);
    }
  }

  // ---------------------------------------------------------------------
  // Re-installing the pages a file operation dirtied
  // ---------------------------------------------------------------------

  /**
   * One turn of the loop in `insertTuple` / `deleteTuple`: mark the page
   * dirty for `tid`; if its id is cached, replace the cached version and
   * `refer` the id; otherwise evict when full, cache it and `put` the id.
   */
  function Install(c: Cache, cap: int, tid: Tid, p: Page, victim: HeapPageId): Result<Cache>
  {
    var q := MarkDirty(p, tid);
    if q.id in c.pages then Ok(Cache(c.pages[q.id := q], LruPut(c.order, DEFAULT_PAGES, q.id), c.disk))
    else if NeedsEviction(c, cap, q.id) && !CanEvict(c) then Err(NoSuchElement)
    else
      var e := if NeedsEviction(c, cap, q.id) then Evict(c, victim) else c;
      Ok(Cache(e.pages[q.id := q], LruPut(e.order, DEFAULT_PAGES, q.id), e.disk))
  }

  /** A page version is kept: cached as is, or, once evicted, its bytes are on disk. */
  predicate Retained(c: Cache, q: Page)
  {
    (q.id in c.pages && c.pages[q.id] == q) || (q.id !in c.pages && q.id in c.disk && c.disk[q.id] == q.data)
  }

  /**
   * An installed page replaces any earlier version, is dirty for `tid` and is
   * the most recent key.
   */
  lemma InstallPlacesPage(c: Cache, cap: int, tid: Tid, p: Page, victim: HeapPageId)
    requires Install(c, cap, tid, p, victim).Ok?
    ensures var c' := Install(c, cap, tid, p, victim).value;
            p.id in c'.pages && c'.pages[p.id] == MarkDirty(p, tid)
            && c'.order != [] && c'.order[|c'.order| - 1] == p.id
            && Retained(c', MarkDirty(p, tid))
  {
  }

  /** Evicting never loses a dirty page version: it stays cached or its bytes reach the disk. */
  lemma EvictRetains(c: Cache, v: HeapPageId, q: Page)
    requires IsVictim(c, v) && Retained(c, q) && q.dirtier.Some?
    ensures Retained(Evict(c, v), q)
  {
    FlushContract(c, v);
  }

  /** Installing a page never loses another dirty page version. */
  lemma InstallKeepsOthers(c: Cache, cap: int, tid: Tid, p: Page, victim: HeapPageId, q: Page)
    requires NeedsEviction(c, cap, p.id) ==> IsVictim(c, victim)
    requires Install(c, cap, tid, p, victim).Ok?
    requires Retained(c, q) && q.dirtier.Some? && q.id != p.id
    ensures Retained(Install(c, cap, tid, p, victim).value, q)
  {
    if p.id !in c.pages && NeedsEviction(c, cap, p.id) {
      EvictRetains(c, victim, q);
    }
  }

  /**
   * The capacity bound for the pool as a whole: the recency set lists
   * exactly the cached pages, 1 <= numPages <= DEFAULT_PAGES, and the map
   * holds at most numPages pages.
   */
  predicate InCapacity(c: Cache, cap: int)
  {
    Synced(c) && 1 <= cap <= DEFAULT_PAGES && |c.pages| <= cap
  }

  /**
   * Re-installing a page keeps the capacity bound: a cached id only moves
   * in the recency set, and a new one is added after an eviction when the
   * map is full.
   */
  lemma InstallKeepsCapacity(c: Cache, cap: int, tid: Tid, p: Page, victim: HeapPageId)
    requires Synced(c) && 1 <= cap <= DEFAULT_PAGES && |c.pages| <= cap
    requires NeedsEviction(c, cap, p.id) && CanEvict(c) ==> IsVictim(c, victim)
    requires Install(c, cap, tid, p, victim).Ok?
    ensures var c' := Install(c, cap, tid, p, victim).value;
            Synced(c') && |c'.pages| <= cap
  {
    var id := p.id;
    var q := MarkDirty(p, tid);
    var c' := Install(c, cap, tid, p, victim).value;
    if id in c.pages {
      assert c'.pages.Keys == c.pages.Keys;
      assert id in c.order by {
        assert id in Elems(c.order);
      }
      assert Elems(c'.order) == Elems(c.order);
    } else if NeedsEviction(c, cap, id) {
      var e := Evict(c, victim);
      EvictFreesOneSlot(c, victim);
      assert c' == Cache(e.pages[id := q], LruPut(e.order, DEFAULT_PAGES, id), e.disk);
      PutNewKeepsSynced(e, q);
    } else {
      assert c' == Cache(c.pages[id := q], LruPut(c.order, DEFAULT_PAGES, id), c.disk);
      PutNewKeepsSynced(c, q);
    }
  }

  /** Caching a page under a new id with a free recency slot keeps the pool synced and adds one page. */
  lemma PutNewKeepsSynced(e: Cache, q: Page)
    requires Synced(e) && |e.pages| < DEFAULT_PAGES && q.id !in e.pages
    ensures var c' := Cache(e.pages[q.id := q], LruPut(e.order, DEFAULT_PAGES, q.id), e.disk);
            Synced(c') && |c'.pages| == |e.pages| + 1
  {
    var id := q.id;
    SyncedSizes(e);
    assert id !in e.order by {
      assert id !in Elems(e.order);
    }
    assert LruPut(e.order, DEFAULT_PAGES, id) == e.order + [id];
    ElemsAppend(e.order, id);
    assert e.pages[id := q].Keys == e.pages.Keys + {id};
  }

  /** Installing a page keeps every other page's dirty version and every file page. */
  lemma InstallKeepsRest(c: Cache, cap: int, tid: Tid, p: Page, victim: HeapPageId)
    requires NeedsEviction(c, cap, p.id) && CanEvict(c) ==> IsVictim(c, victim)
    requires Install(c, cap, tid, p, victim).Ok?
    ensures var c' := Install(c, cap, tid, p, victim).value;
            c.disk.Keys <= c'.disk.Keys
            && forall q :: Retained(c, q) && q.dirtier.Some? && q.id != p.id ==> Retained(c', q)
  {
    var c' := Install(c, cap, tid, p, victim).value;
    forall q | Retained(c, q) && q.dirtier.Some? && q.id != p.id
      ensures Retained(c', q)
    {
      InstallKeepsOthers(c, cap, tid, p, victim, q);
    }
    if p.id !in c.pages && NeedsEviction(c, cap, p.id) {
      EvictKeepsDisk(c, victim);
    }
  }

  /** No page of `ps` has the id `id`. */
  predicate Untouched(ps: seq<Page>, id: HeapPageId)
  {
    forall j :: 0 <= j < |ps| ==> ps[j].id != id
  }

  /** The versions of `ps[j]` that no later page of `ps[..i]` supersedes. */
  predicate LatestOf(ps: seq<Page>, j: nat, i: nat)
    requires j < i <= |ps|
  {
    forall k :: j < k < i ==> ps[k].id != ps[j].id
  }

  /** `q` is cached under its id and its id is the most recent key. */
  predicate Placed(c: Cache, q: Page)
  {
    q.id in c.pages && c.pages[q.id] == q && c.order != [] && c.order[|c.order| - 1] == q.id
  }

  /** Every page version of `ps[..i]` that no later one supersedes is kept in `c`. */
  predicate AllRetained(c: Cache, ps: seq<Page>, i: nat, tid: Tid)
    requires i <= |ps|
  {
    forall j :: 0 <= j < i && LatestOf(ps, j, i) ==> Retained(c, MarkDirty(ps[j], tid))
  }

  /** Installing `ps[i]` on top of `ps[..i]` keeps every version that is still the latest. */
  lemma InstallExtendsRetained(c: Cache, cap: int, tid: Tid, ps: seq<Page>, i: nat, victim: HeapPageId)
    requires i < |ps| && AllRetained(c, ps, i, tid)
    requires NeedsEviction(c, cap, ps[i].id) && CanEvict(c) ==> IsVictim(c, victim)
    requires Install(c, cap, tid, ps[i], victim).Ok?
    ensures AllRetained(Install(c, cap, tid, ps[i], victim).value, ps, i + 1, tid)
  {
    var c' := Install(c, cap, tid, ps[i], victim).value;
    forall j | 0 <= j < i + 1 && LatestOf(ps, j, i + 1)
      ensures Retained(c', MarkDirty(ps[j], tid))
    {
      if j < i {
        assert LatestOf(ps, j, i);
        InstallKeepsOthers(c, cap, tid, ps[i], victim, MarkDirty(ps[j], tid));
      } else {
        InstallPlacesPage(c, cap, tid, ps[i], victim);
      }
    }
  }

  // ---------------------------------------------------------------------
  // The pool object
  // ---------------------------------------------------------------------

  class BufferPool {
    /** The capacity the map is meant to respect. */
    const numPages: int
    var pageMap: map<HeapPageId, Page>
    const lruCache: LRUCache
    /** What the table files hold, page by page: read by `readPage`, written by `writePage`. */
    var disk: map<HeapPageId, Data>

    ghost function Abs(): Cache
      reads this, lruCache
    {
      Cache(pageMap, lruCache.order, disk)
    }

    ghost predicate Valid()
      reads this, lruCache
    {
      lruCache.Valid() && lruCache.capacity == DEFAULT_PAGES && WellKeyed(Abs())
    }

    /** `BufferPool(numPages)`: an empty map and an empty recency set of capacity DEFAULT_PAGES. */
    constructor (numPages: int, disk: map<HeapPageId, Data>)
      ensures Valid() && fresh(lruCache)
      ensures this.numPages == numPages && Abs() == Cache(map[], [], disk)
    {
      this.numPages := numPages;
      pageMap := map[];
      lruCache := new LRUCache(DEFAULT_PAGES);
      this.disk := disk;
    }

    /** `getPage(tid, pid, perm)`; `victim` names the page evicted, when one is. */
    method GetPage(tid: Tid, pid: HeapPageId, perm: Permissions) returns (r: Result<Page>, ghost victim: HeapPageId)
      requires Valid()
      modifies this, lruCache
      ensures Valid()
      ensures NeedsEviction(old(Abs()), numPages, pid) && CanEvict(old(Abs())) ==> IsVictim(old(Abs()), victim)
      ensures Reply(Abs(), r) == GetPageSpec(old(Abs()), numPages, tid, pid, perm, victim)
    {
      victim := pid;
      if pid !in pageMap {
        if |pageMap| == numPages {
          var evicted;
          evicted, victim := EvictPage();
          if evicted.Fail? {
            return Err(evicted.error), victim;
          }
        }
        r := ReadPage(tid, pid, perm);
        return;
      }
      if perm == READ_WRITE {
        pageMap := pageMap[pid := MarkDirty(pageMap[pid], tid)];
      }
      r := Ok(pageMap[pid]);
    }

    /**
     * The miss path of `getPage` once there is room: read the page from its
     * file, cache it, `put` its id, set its before-image, mark it dirty for
     * a READ_WRITE request.
     */
    method ReadPage(tid: Tid, pid: HeapPageId, perm: Permissions) returns (r: Result<Page>)
      requires Valid() && pid !in pageMap
      modifies this, lruCache
      ensures Valid()
      ensures Reply(Abs(), r) == Load(old(Abs()), tid, pid, perm)
    {
      if pid !in disk {
        return Err(NullPointer);
      }
      pageMap := pageMap[pid := Page(pid, None, disk[pid], disk[pid])];
      lruCache.Put(pid);
      pageMap := pageMap[pid := pageMap[pid].(beforeImage := pageMap[pid].data)];
      if perm == READ_WRITE {
        pageMap := pageMap[pid := MarkDirty(pageMap[pid], tid)];
      }
      r := Ok(pageMap[pid]);
    }

    /** `flushPage(pid)`. */
    method FlushPage(pid: HeapPageId)
      requires Valid()
      modifies this
      ensures Valid()
      ensures Abs() == Flush(old(Abs()), pid)
    {
      if pid in pageMap && pageMap[pid].dirtier.Some? {
        var page := pageMap[pid];
        disk := disk[pid := page.data];
        pageMap := pageMap[pid := page.(dirtier := None)];
        pageMap := pageMap[pid := pageMap[pid].(beforeImage := pageMap[pid].data)];
      }
    }

    /** `flushAllPages()`: flushes every key of the map, one by one. */
    method FlushAllPages()
      requires Valid()
      modifies this
      ensures Valid()
      ensures Abs() == FlushAll(old(Abs()))
    {
      var keys := pageMap.Keys;
      ghost var done: set<HeapPageId> := {};
      assert FlushSet(old(Abs()), done) == old(Abs());
      while keys != {}
        invariant Valid()
        invariant lruCache.order == old(lruCache.order)
        invariant keys !! done && keys + done == old(pageMap).Keys
        invariant Abs() == FlushSet(old(Abs()), done)
        decreases keys
      {
        var pid :| pid in keys;
        FlushPage(pid);
        FlushOneMore(old(Abs()), done, pid);
        keys := keys - {pid};
        done := done + {pid};
      }
    }

    /** `discardPage(pid)`. */
    method DiscardPage(pid: HeapPageId)
      requires Valid()
      modifies this
      ensures Valid()
      ensures Abs() == Discard(old(Abs()), pid)
    {
      pageMap := pageMap - {pid};
    }

    /**
     * `evictPage()`: collect the clean pages; pick one at random, or the least
     * recent key when none is clean; flush it, drop it from the recency set
     * and from the map.
     */
    method EvictPage() returns (r: Outcome, ghost victim: HeapPageId)
      requires Valid()
      modifies this, lruCache
      ensures Valid()
      ensures r.Pass? <==> CanEvict(old(Abs()))
      ensures r.Fail? ==> r.error == NoSuchElement && Abs() == old(Abs())
      ensures r.Pass? ==> IsVictim(old(Abs()), victim) && Abs() == Evict(old(Abs()), victim)
    {
      var pids := pageMap.Keys;
      var cleanPages: seq<HeapPageId> := [];
      var rest := pids;
      while rest != {}
        invariant rest <= pids
        invariant forall k :: k in cleanPages <==> k in pids - rest && pageMap[k].dirtier.None?
        decreases rest
      {
        var pid :| pid in rest;
        if pageMap[pid].dirtier.None? {
          cleanPages := cleanPages + [pid];
        }
        rest := rest - {pid};
      }
      var evictCandidate;
      if |cleanPages| == 0 {
        var first := lruCache.LruFirstKey();
        if first.Err? {
          return Fail(first.error), HeapPageId(0, 0);
        }
        evictCandidate := first.value;
      } else {
        var i :| 0 <= i < |cleanPages|;
        evictCandidate := cleanPages[i];
        assert cleanPages[i] in cleanPages;
      }
      victim := evictCandidate;
      FlushPage(evictCandidate);
      lruCache.LruRemove(evictCandidate);
      DiscardPage(evictCandidate);
      r := Pass;
    }

    /**
     * The loop shared by `insertTuple` and `deleteTuple` over the pages the
     * table file returned: each page is installed as `Install` says. The
     * last page ends up cached, dirty and most recent; no page version that
     * a later one does not supersede is lost.
     */
    method ReinstallPages(tid: Tid, pageList: seq<Page>) returns (r: Outcome)
      requires Valid()
      modifies this, lruCache
      ensures Valid()
      ensures r.Fail? ==> r.error == NoSuchElement
      ensures old(disk).Keys <= disk.Keys
      ensures InCapacity(old(Abs()), numPages) ==> InCapacity(Abs(), numPages)
      ensures forall q :: Retained(old(Abs()), q) && q.dirtier.Some? && Untouched(pageList, q.id) ==> Retained(Abs(), q)
      ensures r.Fail? ==> exists i :: 0 <= i < |pageList| && AllRetained(Abs(), pageList, i, tid)
                            && NeedsEviction(Abs(), numPages, pageList[i].id) && !CanEvict(Abs())
      ensures r.Pass? ==> forall j :: 0 <= j < |pageList| && LatestOf(pageList, j, |pageList|) ==>
                            Retained(Abs(), MarkDirty(pageList[j], tid))
      ensures r.Pass? && pageList != [] ==>
                var last := pageList[|pageList| - 1];
                last.id in pageMap && pageMap[last.id] == MarkDirty(last, tid)
                && lruCache.order != [] && lruCache.order[|lruCache.order| - 1] == last.id
    {
      var i := 0;
      while i < |pageList|
        invariant 0 <= i <= |pageList|
        invariant Valid()
        invariant AllRetained(Abs(), pageList, i, tid)
        invariant i > 0 ==> Placed(Abs(), MarkDirty(pageList[i - 1], tid))
        invariant old(disk).Keys <= disk.Keys
        invariant InCapacity(old(Abs()), numPages) ==> InCapacity(Abs(), numPages)
        invariant forall q :: Retained(old(Abs()), q) && q.dirtier.Some? && Untouched(pageList, q.id) ==> Retained(Abs(), q)
      {
        ghost var before := Abs();
        ghost var victim;
        r, victim := InstallPage(tid, pageList[i]);
        if r.Fail? {
          assert AllRetained(Abs(), pageList, i, tid);
          return;
        }
        InstallPlacesPage(before, numPages, tid, pageList[i], victim);
        InstallExtendsRetained(before, numPages, tid, pageList, i, victim);
        InstallKeepsRest(before, numPages, tid, pageList[i], victim);
        if InCapacity(before, numPages) {
          InstallKeepsCapacity(before, numPages, tid, pageList[i], victim);
        }
        assert Placed(Abs(), MarkDirty(pageList[i], tid));
        i := i + 1;
      }
      r := Pass;
    }

    /**
     * Caches `q` under its id, replacing any earlier version, and makes the
     * id most recent: with `refer` when the id was cached, with `put` when not.
     */
    method StorePage(q: Page, cached: bool)
      requires Valid() && cached == (q.id in pageMap)
      modifies this, lruCache
      ensures Valid()
      ensures Abs() == Cache(old(pageMap)[q.id := q], LruPut(old(lruCache.order), DEFAULT_PAGES, q.id), old(disk))
    {
      pageMap := pageMap[q.id := q];
      if cached {
        lruCache.Refer(q.id);
      } else {
        lruCache.Put(q.id);
      }
    }

    /** The body of the loop in `insertTuple` / `deleteTuple`, for one page. */
    method InstallPage(tid: Tid, p: Page) returns (r: Outcome, ghost victim: HeapPageId)
      requires Valid()
      modifies this, lruCache
      ensures Valid()
      ensures NeedsEviction(old(Abs()), numPages, p.id) && CanEvict(old(Abs())) ==> IsVictim(old(Abs()), victim)
      ensures var spec := Install(old(Abs()), numPages, tid, p, victim);
              (r.Pass? <==> spec.Ok?) && (r.Pass? ==> Abs() == spec.value)
              && (r.Fail? ==> r.error == spec.error && Abs() == old(Abs()))
    {
      ghost var c0 := Abs();
      var pid := p.id;
      var q := MarkDirty(p, tid);
      victim := pid;
      if pid in pageMap {
        StorePage(q, true);
      } else {
        if |pageMap| == numPages {
          r, victim := EvictPage();
          if r.Fail? {
            return;
          }
        }
        StorePage(q, false);
      }
      r := Pass;
    }

    /**
     * `insertTuple(tid, tableId, t)`: the table file chooses and changes the
     * pages (`pageList` is what it returned); the pool re-installs them.
     */
    method InsertTuple(tid: Tid, pageList: seq<Page>) returns (r: Outcome)
      requires Valid()
      modifies this, lruCache
      ensures Valid()
      ensures r.Fail? ==> r.error == NoSuchElement
      ensures old(disk).Keys <= disk.Keys
      ensures InCapacity(old(Abs()), numPages) ==> InCapacity(Abs(), numPages)
      ensures forall q :: Retained(old(Abs()), q) && q.dirtier.Some? && Untouched(pageList, q.id) ==> Retained(Abs(), q)
      ensures r.Fail? ==> exists i :: 0 <= i < |pageList| && AllRetained(Abs(), pageList, i, tid)
                            && NeedsEviction(Abs(), numPages, pageList[i].id) && !CanEvict(Abs())
      ensures r.Pass? ==> forall j :: 0 <= j < |pageList| && LatestOf(pageList, j, |pageList|) ==>
                            Retained(Abs(), MarkDirty(pageList[j], tid))
      ensures r.Pass? && pageList != [] ==>
                var last := pageList[|pageList| - 1];
                last.id in pageMap && pageMap[last.id] == MarkDirty(last, tid)
                && lruCache.order != [] && lruCache.order[|lruCache.order| - 1] == last.id
    {
      r := ReinstallPages(tid, pageList);
    }

    /** `deleteTuple(tid, t)`: as `insertTuple`, for the pages the delete changed. */
    method DeleteTuple(tid: Tid, pageList: seq<Page>) returns (r: Outcome)
      requires Valid()
      modifies this, lruCache
      ensures Valid()
      ensures r.Fail? ==> r.error == NoSuchElement
      ensures old(disk).Keys <= disk.Keys
      ensures InCapacity(old(Abs()), numPages) ==> InCapacity(Abs(), numPages)
      ensures forall q :: Retained(old(Abs()), q) && q.dirtier.Some? && Untouched(pageList, q.id) ==> Retained(Abs(), q)
      ensures r.Fail? ==> exists i :: 0 <= i < |pageList| && AllRetained(Abs(), pageList, i, tid)
                            && NeedsEviction(Abs(), numPages, pageList[i].id) && !CanEvict(Abs())
      ensures r.Pass? ==> forall j :: 0 <= j < |pageList| && LatestOf(pageList, j, |pageList|) ==>
                            Retained(Abs(), MarkDirty(pageList[j], tid))
      ensures r.Pass? && pageList != [] ==>
                var last := pageList[|pageList| - 1];
                last.id in pageMap && pageMap[last.id] == MarkDirty(last, tid)
                && lruCache.order != [] && lruCache.order[|lruCache.order| - 1] == last.id
    {
      r := ReinstallPages(tid, pageList);
    }
  }
}

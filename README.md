# SimpleDB storage and operator core in Dafny

This project models the core of SimpleDB, a small teaching relational
database written in Java:

- the **buffer pool**, a bounded page cache keyed by page id. It has a
  recency set (its inner `LRUCache`), load-on-miss in `getPage`, flushing,
  discarding, an eviction rule (any clean page, otherwise the least recent
  one), and the re-installation of the pages a tuple insert or delete changed;
- **heap page ids**: structural equality, serialisation and the hash;
- the **heap file**: page count and page offsets, and its tuple iterator;
- the **schema descriptor** `TupleDesc`;
- the two **grouping aggregators**, `IntegerAggregator` and `StringAggregator`;
- the **partitioned hash equi-join** `HashEquiJoin`.

Each Java class whose methods update fields in place is a Dafny `class`
with the same fields. Each of its methods is proved against a pure function
of the old state, such as `GetPageSpec`, `FlushAll`, `Evict`, `LruPut`,
`Values`/`Counts` or `PendingOf`. Lemmas then state what those functions
mean.

Java's semantics are written out where they matter:

- 32-bit `int` wrap-around (`ToInt32`);
- truncating division (`JavaDiv`);
- `Integer.toString` and `new Integer(String)` for ASCII digits (`Decimal`, `ParseInt`);
- `String.hashCode` (`StringHash`);
- exceptions, as `Result`/`Outcome` values.

Modules:

| file | module | models |
|---|---|---|
| java_lang.dfy | JavaLang | exceptions, `int` arithmetic, decimal printing and parsing, string hash |
| listings.dfy | Listings | sets listed in order without repeats: a `LinkedHashSet`'s order, a key set's iteration |
| fields.dfy | Fields | `IntField`/`StringField` and tuples as sequences of fields |
| heap_page_id.dfy | HeapPageIds | `HeapPageId` |
| heap_file.dfy | HeapFiles | `HeapFile.numPages`, the `readPage` offset, `HeapFileIterator` |
| tuple_desc.dfy | TupleDescs | `TupleDesc` |
| lru_cache.dfy | LruCaches | `BufferPool.LRUCache` |
| buffer_pool.dfy | BufferPools | `BufferPool` |
| aggregation.dfy | Aggregation | what both aggregators share: group keys, counts, output rows |
| integer_aggregator.dfy | IntegerAggregators | `IntegerAggregator` |
| string_aggregator.dfy | StringAggregators | `StringAggregator` |
| hash_equi_join.dfy | HashEquiJoins | `HashEquiJoin` |

## Model

| member | source | states |
|---|---|---|
| JavaLang.ToInt32 | java/simpledb/IntegerAggregator.java:92 | Narrowing to `int` gives a 32-bit value congruent to the input modulo 2^32, and the input itself when it already fits |
| JavaLang.ToInt32AddWrapped | java/simpledb/IntegerAggregator.java:92 | Adding to a wrapped running total equals wrapping the exact total, so repeated `+=` on an `int` is exact addition modulo 2^32 |
| JavaLang.JavaDiv | java/simpledb/IntegerAggregator.java:130 | Integer division by a positive count rounds toward zero: the remainder takes the sign of the dividend and is smaller than the divisor |
| JavaLang.ParseInt | java/simpledb/IntegerAggregator.java:145 | `new Integer(s)` yields only `int` values, and the empty string throws NumberFormatException |
| JavaLang.ParseDecimal | java/simpledb/IntegerAggregator.java:145 | Parsing the decimal text of any `int` gives that `int` back |
| JavaLang.StringHash | java/simpledb/HeapPageId.java:46 | `String.hashCode` is a 32-bit value |
| Fields.FieldString | java/simpledb/IntegerAggregator.java:56 | A field's string form is the decimal text of an int field and the text of a string field |
| HeapPageIds.GettersReturnConstructorArgs | java/simpledb/HeapPageId.java:15-34 | `getTableId` and `pageNumber` return exactly the constructor's arguments |
| HeapPageIds.Equals | java/simpledb/HeapPageId.java:56-64 | `equals` is false for a non-PageId (including null) and throws ClassCastException for a PageId of another class. For a heap page id it holds iff both fields match |
| HeapPageIds.EqualsIsEquivalence | java/simpledb/HeapPageId.java:56-64 | `equals` on heap page ids is reflexive, symmetric and transitive |
| HeapPageIds.Serialize | java/simpledb/HeapPageId.java:72-79 | `serialize` gives an array of length 2 |
| HeapPageIds.SerializeRoundTrip | java/simpledb/HeapPageId.java:72-79 | Rebuilding an id from its serialised form gives an id equal to the original |
| HeapPageIds.HashCode | java/simpledb/HeapPageId.java:42-47 | The hash is a 32-bit value computed from the two fields only |
| HeapPageIds.EqualIdsHashEqually | java/simpledb/HeapPageId.java:42-64 | Ids that `equals` relates have the same hash |
| HeapPageIds.HashCollision | java/simpledb/HeapPageId.java:42-47 | The hash is not injective: (1, 23) and (12, 3) are different ids with the same hash |
| HeapFiles.NumPages | java/simpledb/HeapFile.java:97-101 | For a file below 2^31 bytes, `numPages` is floor(length / page size), so every counted page lies wholly inside the file |
| HeapFiles.NumPagesOfHugeFile | java/simpledb/HeapFile.java:99 | The cast to `int` happens before the division, so a 2^31-byte file reports a negative page count |
| HeapFiles.PageOffset | java/simpledb/HeapFile.java:71 | Page k starts at byte k * pageSize whenever that product fits in an `int` |
| HeapFiles.ReadPageData | java/simpledb/HeapFile.java:68-86 | `readPage` returns exactly pageSize bytes, and fails exactly when the seek offset is negative |
| HeapFiles.ReadPageReadsItsSlice | java/simpledb/HeapFile.java:68-101 | For k < numPages, page k's bytes are exactly the file's bytes from k * pageSize to (k + 1) * pageSize |
| HeapFiles.OpenLeavesEverything | java/simpledb/HeapFile.java:138-141 | After `open` the tuples still to come are all the tuples of the file, in page order |
| HeapFiles.HasMoreIffRemaining | java/simpledb/HeapFile.java:143-151 | With no empty page, `hasNext` holds iff some tuple is still to come |
| HeapFiles.NextConsumesOne | java/simpledb/HeapFile.java:153-166 | When `hasNext` holds, `next` returns the first tuple still to come and consumes exactly that tuple |
| HeapFiles.DrainIsRemaining | java/simpledb/HeapFile.java:143-166 | With no empty page, calling `next` while `hasNext` holds yields exactly the remaining tuples |
| HeapFiles.FullScanYieldsAllPages | java/simpledb/HeapFile.java:138-183 | With no empty page, a full scan after `open` or `rewind` yields the concatenation of all pages' tuples |
| HeapFiles.EmptyPageEndsScan | java/simpledb/HeapFile.java:147 | `hasNext` looks only one page ahead: in a file whose pages hold [t], [], [u], the scan stops after t and never returns u |
| HeapFiles.HeapFileIterator.constructor | java/simpledb/HeapFile.java:133-136 | A new iterator is closed |
| HeapFiles.HeapFileIterator.Open | java/simpledb/HeapFile.java:138-141 | `open` puts the cursor on page 0 and holds page 0's tuples, so every tuple of the file is still to come |
| HeapFiles.HeapFileIterator.HasNext | java/simpledb/HeapFile.java:143-151 | `hasNext` is false when the iterator is closed. When it is open, it holds iff tuples are left on this page or the next page is non-empty |
| HeapFiles.HeapFileIterator.Next | java/simpledb/HeapFile.java:153-166 | `next` throws NoSuchElementException when the iterator is closed. Otherwise it returns the page's next tuple, or moves exactly one page on and returns that page's first tuple. While `hasNext` holds it consumes exactly the first remaining tuple |
| HeapFiles.HeapFileIterator.GetPageTuples | java/simpledb/HeapFile.java:168-178 | `getPageTuples(k)` copies page k's tuples in order, and gives an empty list past the last page |
| HeapFiles.HeapFileIterator.Rewind | java/simpledb/HeapFile.java:180-183 | `rewind` is close-then-open, so the whole file is to come again |
| HeapFiles.HeapFileIterator.Close | java/simpledb/HeapFile.java:185-188 | `close` returns the cursor to 0 and leaves no tuple iterator |
| TupleDescs.New | java/simpledb/TupleDesc.java:71-85 | The constructor gives one item per type, with type i and name i; a null name becomes "". A names array shorter than the types array throws |
| TupleDescs.NewUnnamed | java/simpledb/TupleDesc.java:95-107 | The one-argument constructor gives one item per type, with type i and the name "" |
| TupleDescs.GetFieldName | java/simpledb/TupleDesc.java:126-132 | `getFieldName(i)` is item i's name for 0 <= i < numFields, and NoSuchElementException otherwise |
| TupleDescs.GetFieldType | java/simpledb/TupleDesc.java:144-151 | `getFieldType(i)` is item i's type for 0 <= i < numFields, and NoSuchElementException otherwise |
| TupleDescs.ConstructedFieldsReadBack | java/simpledb/TupleDesc.java:71-150 | The getters read back the types and names the constructor was given, with null names read as "" |
| TupleDescs.FieldNameToIndex | java/simpledb/TupleDesc.java:161-171 | `fieldNameToIndex` returns the smallest index carrying the name. A null name, or a name no field carries, throws NoSuchElementException |
| TupleDescs.GetSize | java/simpledb/TupleDesc.java:177-186 | `getSize` is the sum of the field lengths (`SumLen`) wrapped to 32 bits, as the `int` total wraps; it is the exact sum when that fits |
| TupleDescs.SumLenAppend | java/simpledb/TupleDesc.java:177-186 | The size of a concatenation of items is the sum of the sizes |
| TupleDescs.SumLenAtLeastFields | java/simpledb/TupleDesc.java:177-186 | When every type has a positive length, the size is at least the number of fields |
| TupleDescs.Merge | java/simpledb/TupleDesc.java:198-212 | `merge(td1, td2)` is td1's items followed by td2's items (`Merged`) |
| TupleDescs.MergedShape | java/simpledb/TupleDesc.java:198-212 | A merged schema has n1 + n2 fields: the first n1 types are td1's, the rest are td2's, and its size is size(td1) + size(td2) |
| TupleDescs.SameTypesIsEquivalence | java/simpledb/TupleDesc.java:223-240 | Type-only equality ignores names, and is reflexive, symmetric and transitive |
| TupleDescs.Equals | java/simpledb/TupleDesc.java:223-240 | `equals` holds iff the other object is a TupleDesc with the same number of fields and the same type at every index |
| TupleDescs.DescribeAppend | java/simpledb/TupleDesc.java:255-263 | The description of a concatenation is the two descriptions joined by ", " |
| TupleDescs.ToString | java/simpledb/TupleDesc.java:255-263 | `toString` joins the items' strings with ", ", and is "" exactly when there are no fields |
| TupleDescs.DescribeNonEmpty | java/simpledb/TupleDesc.java:255-263 | A schema with at least one field has a non-empty description |
| Listings.DistinctCard | java/simpledb/BufferPool.java:64 | A list of keys without repetition, such as a LinkedHashSet's, has as many elements as its set |
| LruCaches.Without | java/simpledb/BufferPool.java:128-131 | `remove(key)` drops the key and keeps exactly the other keys. It keeps the set repetition-free, shrinks it by one when the key was present, and removing the first key leaves the tail |
| LruCaches.WithoutKeepsOrder | java/simpledb/BufferPool.java:128-131 | Removing the key at index i of a repetition-free set leaves the keys before it followed by the keys after it, each in their order |
| LruCaches.LruPut | java/simpledb/BufferPool.java:102-118 | After `put(key)` the key is most recent and no other key appears. A new key is appended to a set below capacity; on a full set the least recent key is dropped and the rest keep their order. The set stays repetition-free and within capacity |
| LruCaches.LruPutMovesKey | java/simpledb/BufferPool.java:102-108 | `put` of a present key moves it to the most recent end; the keys before it and after it keep their order, so the first key is still the least recent |
| LruCaches.LRUCache.constructor | java/simpledb/BufferPool.java:67-71 | A new recency set is empty with the given capacity |
| LruCaches.LRUCache.Get | java/simpledb/BufferPool.java:77-84 | `get` on an absent key returns false and leaves the order unchanged. On a present key it returns true and moves the key to the most recent end |
| LruCaches.LRUCache.Refer | java/simpledb/BufferPool.java:87-91 | `refer` has the same effect as `put` |
| LruCaches.LRUCache.Put | java/simpledb/BufferPool.java:102-118 | `put` moves the order exactly as `LruPut` says, within capacity |
| LruCaches.LRUCache.LruFirstKey | java/simpledb/BufferPool.java:120-126 | `lruFirstKey` reports the least recent key without removing it, and throws NoSuchElementException on an empty set |
| LruCaches.LRUCache.LruRemove | java/simpledb/BufferPool.java:128-131 | `lruRemove` removes exactly that key |
| BufferPools.MarkDirty | java/simpledb/BufferPool.java:163 | Marking a page dirty tags it with the transaction and changes nothing else |
| BufferPools.Cleaned | java/simpledb/BufferPool.java:330-331 | A cleaned page is not dirty and its before-image equals its data |
| BufferPools.SyncedSizes | java/simpledb/BufferPool.java:33-34 | When the recency set lists exactly the cached pages, the two have the same size |
| BufferPools.FlushContract | java/simpledb/BufferPool.java:323-333 | `flushPage` leaves the pool unchanged for an absent or clean page. A dirty page is written to its file and then cleaned with before-image = data. Flushing twice is flushing once |
| BufferPools.FlushOneMore | java/simpledb/BufferPool.java:295-302 | Flushing pages one after another, in any order, gives the state `FlushSet` describes |
| BufferPools.FlushAllCleansEverything | java/simpledb/BufferPool.java:292-303 | After `flushAllPages` every cached page is clean with unchanged data. Every page that was dirty is on disk with before-image = data. The other pages' file contents are kept |
| BufferPools.DiscardUnsyncs | java/simpledb/BufferPool.java:313-317 | `discardPage` drops the page without flushing and leaves its key in the recency set, which then no longer matches the map |
| BufferPools.EvictWritesBackDirtyVictim | java/simpledb/BufferPool.java:346-380 | Eviction removes the victim from the map and the recency set. A dirty victim is chosen only when no page is clean, and its bytes are then on disk. Every other page stays cached unchanged |
| BufferPools.EvictFreesOneSlot | java/simpledb/BufferPool.java:346-380 | On a pool whose recency set matches its map, eviction removes exactly the victim and keeps the two in step |
| BufferPools.EvictKeys | java/simpledb/BufferPool.java:373-375 | Eviction removes exactly the victim from the page map |
| BufferPools.EvictOrder | java/simpledb/BufferPool.java:374 | Eviction removes exactly the victim from the recency set, which stays repetition-free |
| BufferPools.EvictKeepsDisk | java/simpledb/BufferPool.java:373 | Eviction writes back at most the victim: no file page disappears, and pages that were not cached keep their bytes |
| BufferPools.GetPageHit | java/simpledb/BufferPool.java:153-164 | On a hit `getPage` returns the cached page. Nothing is loaded, evicted or written, and the recency order is not refreshed |
| BufferPools.LoadCachesPage | java/simpledb/BufferPool.java:158-160 | A read succeeds iff the file has the page; a failed read changes nothing. The page read is cached with data = before-image = file bytes and put in the recency set; the files are not written |
| BufferPools.GetPageMiss | java/simpledb/BufferPool.java:153-161 | A miss succeeds iff the file has the page and, on a full pool, a victim exists. The loaded page is cached, is most recent, and has data = before-image = file bytes. Only the victim leaves the map, and no file contents are lost |
| BufferPools.GetPagePermissions | java/simpledb/BufferPool.java:162-164 | READ_WRITE returns a page dirtied by the requester. READ_ONLY returns a cached page as it was, and a page just read as clean |
| BufferPools.LoadKeepsSynced | java/simpledb/BufferPool.java:158-159 | Reading a page into a pool whose recency set matches its map, with a free recency slot, keeps the two in step |
| BufferPools.GetPageKeepsCapacity | java/simpledb/BufferPool.java:153-164 | While the recency set matches the map and numPages is at most 50, `getPage` keeps them in step and the map within numPages |
| BufferPools.FullRecencySetForgetsCachedPage | java/simpledb/BufferPool.java:45 | Because the recency set has 50 slots whatever numPages is, in a larger pool the 51st page read drops a cached page's key from the recency set |
| BufferPools.DiscardThenMissOverflows | java/simpledb/BufferPool.java:313-317 | With numPages = 1, discarding a page and then reading two more leaves two pages in the map: the only victim left is the stale key |
| BufferPools.InstallPlacesPage | java/simpledb/BufferPool.java:234-245 | A page the file returned replaces any earlier version, is dirty for the transaction, and is the most recent key |
| BufferPools.InstallKeepsOthers | java/simpledb/BufferPool.java:234-245 | Installing one page never loses another page's dirty version: that version stays cached or is on disk |
| BufferPools.EvictRetains | java/simpledb/BufferPool.java:346-380 | Evicting never loses a dirty page version: it stays cached, or its bytes are on disk |
| BufferPools.InstallExtendsRetained | java/simpledb/BufferPool.java:234-246 | Installing the next returned page keeps every earlier page version that no later page supersedes |
| BufferPools.InstallKeepsRest | java/simpledb/BufferPool.java:234-245 | Installing one page keeps every file page and never loses the dirty version of a page with another id |
| BufferPools.InstallKeepsCapacity | java/simpledb/BufferPool.java:234-245 | On a synced pool with 1 <= numPages <= 50 and at most numPages pages, re-installing a page keeps it synced and within numPages: a cached id only moves, a new one comes after an eviction when full |
| BufferPools.PutNewKeepsSynced | java/simpledb/BufferPool.java:242-245 | Caching a page under a new id with a free recency slot keeps the map and recency set in step and adds one page |
| BufferPools.BufferPool.constructor | java/simpledb/BufferPool.java:41-46 | A new pool is empty, and its recency set is built with capacity DEFAULT_PAGES |
| BufferPools.BufferPool.GetPage | java/simpledb/BufferPool.java:150-165 | `getPage` moves the pool exactly as `GetPageSpec` says and returns its page or exception; a victim, when needed, is one `evictPage` may choose |
| BufferPools.BufferPool.ReadPage | java/simpledb/BufferPool.java:158-163 | The miss path moves the pool exactly as `Load` says |
| BufferPools.BufferPool.FlushPage | java/simpledb/BufferPool.java:323-333 | `flushPage` moves the pool exactly as `Flush` says |
| BufferPools.BufferPool.FlushAllPages | java/simpledb/BufferPool.java:292-303 | `flushAllPages` moves the pool exactly as `FlushAll` says |
| BufferPools.BufferPool.DiscardPage | java/simpledb/BufferPool.java:313-317 | `discardPage` moves the pool exactly as `Discard` says |
| BufferPools.BufferPool.EvictPage | java/simpledb/BufferPool.java:346-380 | `evictPage` succeeds iff some page is clean or the recency set is non-empty. It then evicts a clean page if there is one, else the least recent key, as `Evict` says; otherwise it throws and changes nothing |
| BufferPools.BufferPool.InstallPage | java/simpledb/BufferPool.java:235-245 | One turn of the re-installation loop moves the pool as `Install` says |
| BufferPools.BufferPool.StorePage | java/simpledb/BufferPool.java:237-245 | Caching a page replaces any earlier version under its id and makes the id most recent, with `refer` when it was cached and `put` when not; the pool stays valid |
| BufferPools.BufferPool.ReinstallPages | java/simpledb/BufferPool.java:234-246 | Every returned page that no later one supersedes ends up cached dirty for the transaction, or is on disk, and the last page is cached and most recent. On both outcomes no file page is lost and every dirty page not in the list stays cached or on disk. On failure the pages installed before the failing one are kept, and that page met a full pool with nothing to evict. A synced pool with 1 <= numPages <= 50 and at most numPages pages stays so on both outcomes |
| BufferPools.BufferPool.InsertTuple | java/simpledb/BufferPool.java:226-249 | `insertTuple` re-installs the pages the file returned, with the guarantees of `ReinstallPages` on success and on failure, including the capacity bound: a synced pool within numPages stays synced and within numPages |
| BufferPools.BufferPool.DeleteTuple | java/simpledb/BufferPool.java:264-285 | `deleteTuple` re-installs the pages the file returned, with the guarantees of `ReinstallPages` on success and on failure, including the capacity bound: a synced pool within numPages stays synced and within numPages |
| Listings.DistinctListingCount | java/simpledb/IntegerAggregator.java:121 | Iterating a key set lists each key once, so the listing has the set's size |
| Aggregation.GroupKey | java/simpledb/IntegerAggregator.java:56 | A tuple's group key is "" without grouping, and otherwise the string form of its group-by field |
| Aggregation.Counts | java/simpledb/StringAggregator.java:45-56 | Every stored count is at least 1 |
| Aggregation.CountsAreGroupSizes | java/simpledb/StringAggregator.java:47-56 | The count map holds exactly the groups that occur among the merged tuples, each with the number of merged tuples in it |
| Aggregation.NoGroupingHasOneGroup | java/simpledb/StringAggregator.java:45 | Without grouping there is at most one group, "", and after n merges it counts n |
| Aggregation.CountOfAll | java/simpledb/IntegerAggregator.java:56 | Without grouping, every merged tuple is counted in group "" |
| Aggregation.SumOverRemove | java/simpledb/IntegerAggregator.java:64-65 | A sum of counts over a key set can be taken by removing any key first |
| Aggregation.SumOverFrame | java/simpledb/IntegerAggregator.java:64-65 | A sum of counts depends only on the counts of the keys summed |
| Aggregation.SumCountsBump | java/simpledb/IntegerAggregator.java:60-97 | Opening a group at 1 or adding one to a group's count adds one to the total |
| Aggregation.CountsSumToTotal | java/simpledb/StringAggregator.java:45-56 | The group counts add up to the number of merged tuples |
| Aggregation.OutputDesc | java/simpledb/IntegerAggregator.java:117 | The output schema is [INT] without grouping and [group type, INT] with it |
| Aggregation.GroupColumn | java/simpledb/IntegerAggregator.java:144-146 | The group column is the key parsed by `new Integer` for an int group, which may throw NumberFormatException, and the key itself for a string group |
| Aggregation.RowFitsSchema | java/simpledb/IntegerAggregator.java:139-148 | Every row has the output schema's arity and column types, and its last column is the reported value. A row without grouping or with a string group cannot fail |
| Aggregation.IntGroupKeyParsesBack | java/simpledb/IntegerAggregator.java:144-145 | For an int group, the row's group column is the group's field value again |
| IntegerAggregators.Combine | java/simpledb/IntegerAggregator.java:71-94 | MIN keeps the smaller of the stored and new value and MAX the larger; every other operator adds them in `int` arithmetic |
| IntegerAggregators.ValuesHaveCountsKeys | java/simpledb/IntegerAggregator.java:60-96 | The value map and the count map always hold the same groups |
| IntegerAggregators.MergeStep | java/simpledb/IntegerAggregator.java:60-97 | Merging one more tuple: a new group stores the tuple's value with count 1, and a known group combines the value and counts one more |
| IntegerAggregators.ExtremumIsAttained | java/simpledb/IntegerAggregator.java:72-77 | Under MIN or MAX a group's value is the aggregate value of one of its tuples |
| IntegerAggregators.MinIsLowerBound | java/simpledb/IntegerAggregator.java:72-74 | Under MIN a group's value is at most every aggregate value in the group |
| IntegerAggregators.MaxIsUpperBound | java/simpledb/IntegerAggregator.java:75-77 | Under MAX a group's value is at least every aggregate value in the group |
| IntegerAggregators.AdditiveIsGroupSum | java/simpledb/IntegerAggregator.java:78-93 | Under SUM, AVG, COUNT, SUM_COUNT and SC_AVG a group's value is its exact sum wrapped to 32 bits, and the exact sum when that fits in an `int` |
| IntegerAggregators.GroupSumOfAbsentGroup | java/simpledb/IntegerAggregator.java:60-62 | A group with no tuples sums to 0 |
| IntegerAggregators.Reported | java/simpledb/IntegerAggregator.java:125-138 | The reported value is the count under COUNT, stored / count rounded toward zero under AVG, and the stored value otherwise |
| IntegerAggregators.AvgIsTruncatedMean | java/simpledb/IntegerAggregator.java:129-131 | AVG reports the group's sum divided by its size, rounded toward zero, when the sum fits in an `int` |
| IntegerAggregators.IntegerAggregator.constructor | java/simpledb/IntegerAggregator.java:33-41 | A new aggregator has no groups and a total count of 0 |
| IntegerAggregators.IntegerAggregator.MergeTupleIntoGroup | java/simpledb/IntegerAggregator.java:50-98 | The maps and the total move as `Values`, `Counts` and one more tuple say. A missing field throws IndexOutOfBounds and a non-int aggregate field throws ClassCast; either way nothing changes |
| IntegerAggregators.IntegerAggregator.TotalCountIsSumOfCounts | java/simpledb/IntegerAggregator.java:64-97 | `totalCount` is the sum of the group counts |
| IntegerAggregators.IntegerAggregator.Iterator | java/simpledb/IntegerAggregator.java:108-153 | The iterator has the output schema and exactly one row per group, in key-set order, each reporting the value `Reported` gives. It throws iff some int group key does not parse |
| StringAggregators.CountsIgnoreOtherFields | java/simpledb/StringAggregator.java:40-57 | Tuples with the same group keys give the same counts: the aggregate field is never read |
| StringAggregators.StringAggregator.constructor | java/simpledb/StringAggregator.java:25-34 | Once the operator check passes, a new aggregator has no groups |
| StringAggregators.StringAggregator.MergeTupleIntoGroup | java/simpledb/StringAggregator.java:40-57 | An unseen group gets count 1 and a seen one one more. A missing group-by field throws before anything changes |
| StringAggregators.StringAggregator.CountsAddUpToMerged | java/simpledb/StringAggregator.java:45-56 | The group counts add up to the number of merged tuples |
| StringAggregators.StringAggregator.Iterator | java/simpledb/StringAggregator.java:67-96 | The iterator has the output schema and exactly one row per group, in key-set order, carrying the group's count. It throws iff some int group key does not parse |
| StringAggregators.NewStringAggregator | java/simpledb/StringAggregator.java:25-34 | The constructor throws IllegalArgumentException exactly for operators other than COUNT, and otherwise gives an aggregator with no groups |
| HashEquiJoins.KeyedSlice | java/simpledb/HashEquiJoin.java:109 | A slice of tuples that all have the join field still all have it |
| HashEquiJoins.GroupBy | java/simpledb/HashEquiJoin.java:97-120 | Every list in the partition map is non-empty |
| HashEquiJoins.GroupByIsFilter | java/simpledb/HashEquiJoin.java:99-114 | Each key's list holds exactly the partition's tuples with that key, in arrival order, and keys with no tuples are absent |
| HashEquiJoins.GroupByAppend | java/simpledb/HashEquiJoin.java:104-114 | Reading one more tuple appends it to its key's list, opening the list when the key is new |
| HashEquiJoins.GroupBySliceStep | java/simpledb/HashEquiJoin.java:103-114 | Reading the next left tuple turns the map of the tuples read so far into the map of one tuple more |
| HashEquiJoins.FilterMembers | java/simpledb/HashEquiJoin.java:109-114 | A key's list holds the partition's tuples whose join field equals the key, and only those |
| HashEquiJoins.Pairs | java/simpledb/HashEquiJoin.java:141-153 | One output tuple per matching left tuple, in list order, each the left tuple followed by the right one |
| HashEquiJoins.PartitionEnd | java/simpledb/HashEquiJoin.java:103-117 | A partition holds at most MAP_SIZE + 1 tuples, and at least one while left tuples remain |
| HashEquiJoins.ScanEmptyMap | java/simpledb/HashEquiJoin.java:169-171 | Scanning against an empty map produces nothing |
| HashEquiJoins.ScanSound | java/simpledb/HashEquiJoin.java:164-174 | Every tuple a scan produces is a left tuple stored under a right tuple's key, followed by that right tuple |
| HashEquiJoins.ScanComplete | java/simpledb/HashEquiJoin.java:164-174 | Each right tuple is paired with every left tuple stored under its key |
| HashEquiJoins.JoinFromSound | java/simpledb/HashEquiJoin.java:156-183 | Every output tuple concatenates a left and a right tuple with equal join fields |
| HashEquiJoins.JoinFromComplete | java/simpledb/HashEquiJoin.java:156-183 | Every pair of left and right tuples with equal join fields appears in the output |
| HashEquiJoins.JoinIsEquiJoin | java/simpledb/HashEquiJoin.java:156-183 | The output holds exactly the concatenations of left and right tuples with equal join fields |
| HashEquiJoins.PairsAppend | java/simpledb/HashEquiJoin.java:140-152 | Extending a match list by one tuple adds that tuple's pair at the end of the list's output |
| HashEquiJoins.ProbeAddOne | java/simpledb/HashEquiJoin.java:164-174 | A right tuple's probe of a map with one more left tuple gains that tuple's pair exactly when the join keys agree |
| HashEquiJoins.ScanAddOne | java/simpledb/HashEquiJoin.java:164-174 | Adding a left tuple to a partition adds exactly its join tuples with the right child to the scan, counted with multiplicity |
| HashEquiJoins.ScanIsNestedLoop | java/simpledb/HashEquiJoin.java:164-174 | Scanning the right child against a partition's map yields the nested-loop join of that partition, with the same multiplicities |
| HashEquiJoins.NestedLoopJoinAppend | java/simpledb/HashEquiJoin.java:123-126 | The nested-loop join of two consecutive runs of left tuples is the join of the first followed by that of the second |
| HashEquiJoins.JoinFromIsNestedLoop | java/simpledb/HashEquiJoin.java:156-183 | The partitions from a given left index on, joined in turn, yield the nested-loop join of the rest of the left child, with the same multiplicities |
| HashEquiJoins.JoinIsNestedLoopJoin | java/simpledb/HashEquiJoin.java:123-126 | The join returns each matching pair of r1 cross r2 exactly as often as the nested-loop join does, so it has as many tuples as there are matching pairs |
| HashEquiJoins.JoinFitsSchema | java/simpledb/HashEquiJoin.java:141-153 | Output tuples have as many fields as the merged schema |
| HashEquiJoins.Combine | java/simpledb/HashEquiJoin.java:143-152 | The combined tuple has n1 + n2 fields: t1's first, then t2's |
| HashEquiJoins.PendingScanStep | java/simpledb/HashEquiJoin.java:164-173 | Reading one right tuple puts its matches ahead of the rest of the scan |
| HashEquiJoins.PendingProbeHit | java/simpledb/HashEquiJoin.java:169-173 | A right tuple whose key is in the map has its whole match list emitted before the scan moves on |
| HashEquiJoins.PendingAfterLoad | java/simpledb/HashEquiJoin.java:177-180 | Rewinding the right child and loading the next partition leaves pending exactly the join of the remaining partitions |
| HashEquiJoins.PendingSplitList | java/simpledb/HashEquiJoin.java:159-161 | The pairs of the current match list come before anything else that is pending |
| HashEquiJoins.PendingWithoutList | java/simpledb/HashEquiJoin.java:159 | An exhausted or null match list adds nothing to what is pending |
| HashEquiJoins.PendingPopList | java/simpledb/HashEquiJoin.java:141-161 | Taking the head of the match list takes the head of what is pending: that left tuple joined with t2 |
| HashEquiJoins.NextHit | java/simpledb/HashEquiJoin.java:164-172 | The index of the first right tuple from a position on whose key is in the map, or the end: every tuple skipped has no match |
| HashEquiJoins.PendingSkipMisses | java/simpledb/HashEquiJoin.java:169-171 | Right tuples whose key is not in the map add nothing: the scan may skip to the next hit |
| HashEquiJoins.PendingNextHit | java/simpledb/HashEquiJoin.java:164-174 | With the match list used up, what is pending starts with the first match of the next hit, then the rest of its list; with no hit only the later partitions remain |
| HashEquiJoins.PendingAtHit | java/simpledb/HashEquiJoin.java:164-174 | At a right tuple whose key is in the map, the first pair of its match list comes first, then the rest of the list |
| HashEquiJoins.PendingAfterProbe | java/simpledb/HashEquiJoin.java:164-174 | After the probe loop stops at the next hit, its first join tuple was returned and the rest of the match list stays pending; with no hit only the later partitions remain |
| HashEquiJoins.HashEquiJoin.constructor | java/simpledb/HashEquiJoin.java:33-42 | The output schema is the merge of the children's schemas |
| HashEquiJoins.HashEquiJoin.GetTupleDesc | java/simpledb/HashEquiJoin.java:49-52 | `getTupleDesc` is the merged schema |
| HashEquiJoins.HashEquiJoin.LoadMap | java/simpledb/HashEquiJoin.java:97-120 | `loadMap` reads the next partition of at most MAP_SIZE + 1 left tuples. The map becomes that partition grouped by key, and the result is true iff a tuple was read |
| HashEquiJoins.HashEquiJoin.ReadPartition | java/simpledb/HashEquiJoin.java:98-118 | The loop of `loadMap` stops after MAP_SIZE + 1 tuples or at the end, returns the map of the tuples it read and the last of them, and reports true iff it read one |
| HashEquiJoins.HashEquiJoin.Open | java/simpledb/HashEquiJoin.java:66-73 | After `open` the left cursor is past the first partition and the right cursor at 0, the map holds that partition grouped by key, the match list and `t2` are untouched, and what remains to be returned is the whole join, after any leftover match list |
| HashEquiJoins.HashEquiJoin.ProcessList | java/simpledb/HashEquiJoin.java:141-154 | `processList` takes the head of the match list as t1 and returns it followed by t2; the cursors and the map are unchanged |
| HashEquiJoins.HashEquiJoin.ProbeRight | java/simpledb/HashEquiJoin.java:164-174 | The scan loop stops at the next right tuple whose key is in the map and returns the head of its match list joined with it, keeping the rest of the list; with no such tuple it returns none with the right child exhausted |
| HashEquiJoins.HashEquiJoin.ScanForHit | java/simpledb/HashEquiJoin.java:164-174 | With the match list used up, the scan returns the head of what is pending and leaves the rest; when it returns none only the later partitions are pending |
| HashEquiJoins.HashEquiJoin.NextInPartition | java/simpledb/HashEquiJoin.java:159-174 | Inside the loaded partition `fetchNext` returns the head of what remains and leaves the rest; when it returns none only the later partitions' join is left |
| HashEquiJoins.HashEquiJoin.FetchNext | java/simpledb/HashEquiJoin.java:156-183 | `fetchNext` returns the head of what remains and leaves the rest, and returns null exactly when nothing remains |
| HashEquiJoins.HashEquiJoin.Rewind | java/simpledb/HashEquiJoin.java:86-90 | `rewind` resets both children only; the map and the match list are kept |
| HashEquiJoins.HashEquiJoin.RewindAndReload | java/simpledb/HashEquiJoin.java:86-90 | A rewind that also reloads the first partition leaves exactly the whole join to be returned |
| HashEquiJoins.HashEquiJoin.Close | java/simpledb/HashEquiJoin.java:75-84 | `close` empties the map and sets t1, t2 and the match list to null |
| HashEquiJoins.RewindRepeatsFirstPartition | java/simpledb/HashEquiJoin.java:86-90 | On a one-row join, after `open` and `rewind` the pending output holds the row's join tuple twice, while the join holds it once |
| HashEquiJoins.OpenThenRewind | java/simpledb/HashEquiJoin.java:86-90 | A new one-row join, opened and then rewound through the operator's own methods, has the row's join tuple pending twice while the join holds it once |

## Left out

- Concurrency: `ConcurrentHashMap` and `synchronized` in BufferPool are modelled as one sequential object.
- `Math.random()` in `evictPage` is a nondeterministic choice among the clean pages (`:|`). The specification functions take the chosen victim as a parameter. The rule that a clean page is always chosen while one exists is proved; the uniformity of the choice is not.
- Locking and transactions are not modelled: `releasePage`, `transactionComplete`, `holdsLock` and `flushPages` are empty or trivial stubs. The `LRUCache.display` method only prints.
- The catalog and the table files are a map from page id to page bytes. `readPage` of an id the map lacks is a failed read, which returns null. `writePage` is an update of that map; in the repository it is an empty stub.
- BufferPools.BufferPool.InsertTuple / DeleteTuple: `HeapFile.insertTuple` and `HeapFile.deleteTuple` are stubs that return null, so the real loop would throw NullPointerException. The model takes the returned page list as a parameter and models the loop over it.
- Page objects are values: the aliasing between the page a caller holds and the page in the map is not modelled. `HeapPage`'s byte layout, its tuple iterator and `Type.getLen` are not part of this model; `getLen` is a parameter of `GetSize`.
- The `HeapFile` iterator reads the tuples of each page from a fixed snapshot, one tuple list per page, rather than through the buffer pool.
- `HeapFile.getId` (the hash of the file path) and the RandomAccessFile I/O in `readPage` are not modelled. Only the offset, length and padding of the read bytes are. Reading past the end of the file is modelled as zero bytes.
- Counts and `totalCount` in the aggregators are unbounded naturals; their 32-bit overflow after 2^31 merges is not modelled.
- IntegerAggregators.IntegerAggregator.MergeTupleIntoGroup requires the aggregate value of an int field to fit in an `int`, which every Java `IntField` does; fields are unbounded integers here.
- JavaLang.ParseInt accepts only the ASCII digits '0' to '9'. `Integer.parseInt` reads digits with `Character.digit`, so it also accepts every other Unicode decimal digit: `new Integer("\u0663")` is 3, where the model throws NumberFormatException. This matters only for an int group column holding such a StringField in the aggregators' iterators. The keys the aggregators build themselves are ASCII `Decimal` text, so `IntGroupKeyParsesBack` is unaffected. The Unicode digit table is not part of this model.
- `StringField`'s truncation to `Type.STRING_LEN` in the aggregators' output rows is not modelled.
- `Tuple.getField` with a bad index is modelled as IndexOutOfBounds in the aggregators. The `Tuple` class is not part of this model.
- HashEquiJoins.HashEquiJoin.constructor requires every left tuple to have the field `getField1()` and every right tuple the field `getField2()`. The exception that `loadMap` and `fetchNext` would throw from `getField` on a tuple lacking its join field is not modelled.
- `TypeName` assumes the default enum `toString`; `Type.java` is not part of this model.
- HashEquiJoin: the children are sequences with cursors, so their own open/closed state and their exceptions are not modelled. The join predicate is taken as equality on `getField1()` and `getField2()`; its operator is not consulted, as in the code.
- The `Operator` base class (its `hasNext`/`next` wrapper around `fetchNext`) is not part of this model.
- `HashEquiJoin.getJoinPredicate`, `getJoinField1Name`, `getJoinField2Name`, `getChildren` and `setChildren` are plain accessors and are not modelled.
- `SeqScan`, `Aggregate`, `Insert` and `Delete` are thin operator wrappers and are not part of this model.

## Findings

| source | as written | input that shows it | evidently intended | confidence | as-written member | corrected member |
|---|---|---|---|---|---|---|
| java/simpledb/HashEquiJoin.java:86-90 | `rewind` rewinds both children but keeps the hash map of the partition already loaded, and does not reload the first partition. After a complete pass the map is empty, so only a rewind before the end shows it | One left and one right tuple with equal keys: after `open` and `rewind`, `fetchNext` returns the join tuple twice, once against the kept map and once after reloading the first partition | `rewind` restarts the join, so the output after it is the join again | not executed | HashEquiJoins.OpenThenRewind | HashEquiJoins.HashEquiJoin.RewindAndReload |

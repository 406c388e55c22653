# mydb storage core in Dafny

This project models the storage layer of mydb, a small key/value server in Go,
and proves properties of the model. The layer has two stores behind one
interface:

- **The bolt store** (`storage/boltdb/storage.go`) keeps everything in one bbolt
  file. A bucket name must be in the configured registry, which is `bucketList`
  followed by `indexList`. Reads and writes go through one engine transaction.
  List and PrevList page through a bucket with the engine's cursor. Entries of
  index buckets are rendered as KV JSON.
- **The sniper store** (`storage/sniper/storage.go`) keeps values in a hash
  store, keyed by the bucket name run together with the key. A second bolt file
  holds one bucket per index name. For each key it stores the text `"0"`, so the
  keys can be paged in order. Every page entry is looked up again in the hash
  store.
- **The helpers** (`storage/utils.go`) are U64tob and Btou64 (the 8-byte
  big-endian encoding of sequence keys) and Contains (the registry check).

The modules, in dependency order:

| module | file | what it is |
|---|---|---|
| `Errors` | errors.dfy | error values (one per error text of the source), `Result`, `Outcome`, and `Listing` (a nil slice or a non-nil one) |
| `ByteOrder` | byteorder.dfy | bytes and `Less`, which is `bytes.Compare(a, b) < 0`. Lemmas prove it is a strict total order. |
| `Utils` | utils.dfy | U64tob as a loop over an 8-byte array, Btou64, Contains, Go's `int`/`uint64` conversions |
| `Strconv` | strconv.dfy | `strconv.Itoa` for positions, and the `"<i>:<key>"` labels of bolt MGet |
| `SortedMap` | sortedmap.dfy | the engine's B+tree seen from outside: an entry sequence whose keys strictly increase, read as a map. Find, Put, Remove and the cursor's Seek. |
| `Bolt` | bolt.dfy | a bbolt file: buckets in name order, each with its entries and its NextSequence counter. Bucket.Put/Delete/NextSequence/Stats and Tx.CreateBucketIfNotExists/DeleteBucket. |
| `Cursor` | cursor.dfy | the pagination loop both stores run in List and PrevList (`Walk`), and what each of its four starting modes emits |
| `BoltStore` | boltstore.dfy | class `Store` for the bolt store |
| `SniperStore` | sniperstore.dfy | class `Store` for the sniper store. The hash store is a `map`, the index file a `Bolt.Db`. |

Each store is a class whose mutable fields are the engine state (`db`, or
`h` and `index`). Its methods change those fields and state the whole new state.

Behaviours of the source that the model keeps:

- When bolt Set is given an empty key, it allocates the next bucket sequence
  number. The key returned is the 8-byte big-endian encoding of that number. The
  decimal rendering at `storage/boltdb/storage.go:93-95` never runs once the
  write transaction has started, because the closure has already replaced `k`.
  The model has `assert false` in that branch.
- A page with a start key leaves that key out. With PrevList the cursor is
  Seek-ed first. If the start key is absent, Seek stops on the least key above
  it, and that entry is emitted first, before the keys below.
- The sniper store joins bucket name and key with no separator. Keys of
  different buckets can therefore collide: ("post", "sx") and ("posts", "x")
  address the same value.

The loop at `storage/sniper/storage.go:228-235` tests for ErrNotFound after
Get and would skip the key. But Get already turns not-found into an empty value
with no error (lines 139-142), so the test never fires. The empty string is
appended for an index key whose value is gone, and it counts toward the page.
`SniperStore.Resolver` models this.

## Model

| member | source | states |
|---|---|---|
| Utils.U64tob | storage/utils.go:9-13 | the result is 8 bytes: `uint64(v)` written most significant byte first. A negative `int` is taken modulo 2^64. |
| Utils.Btou64 | storage/utils.go:16-18 | the result is the big-endian positional value of the first eight bytes |
| Utils.RoundTrip | storage/utils.go:9-18 | Btou64 of U64tob(v) is `uint64(v)`, which is v itself when v is non-negative |
| Utils.Btou64Prefix | storage/utils.go:16-18 | bytes after the eighth do not change Btou64 |
| Utils.U64tobOrder | storage/utils.go:9-13 | for 0 <= a < b, U64tob(a) sorts before U64tob(b) under bytes.Compare, so allocated keys list in allocation order |
| Utils.ToInt64 | storage/boltdb/storage.go:86-87 | `uint64(int(id))` gives back the sequence number id |
| Utils.Contains | storage/utils.go:21-29 | true exactly when `str` is an element of `s` |
| Utils.ToUint64 | storage/utils.go:11 | Go's `uint64(v)` for an `int`: v itself when non-negative, v + 2^64 when negative |
| Utils.EncodingIsPositional | storage/utils.go:11 | the eight bytes of U64tob(v), read as the sum of b[i]·256^(7-i), give back `uint64(v)` |
| Utils.BigEndianOrder | storage/utils.go:11 | for a < b that fit in `width` bytes, the big-endian encoding of a sorts before that of b under bytes.Compare |
| Strconv.Itoa | storage/boltdb/storage.go:176 | `strconv.Itoa` of a position is a non-empty string of decimal digits (AtoiItoa reads it back) |
| Strconv.LabelParts | storage/boltdb/storage.go:176-177 | the label `"<i>:<key>"` is the digits of the position, then one colon, then the key bytes unchanged |
| Strconv.AtoiItoa | storage/boltdb/storage.go:176 | reading back the digits of Itoa(n) gives n |
| Strconv.LabelInjective | storage/boltdb/storage.go:176-177 | two labels `"<i>:<key>"` are equal only when position and key are both equal, whatever bytes the keys contain |
| SortedMap.Find | storage/boltdb/storage.go:151 | Bucket.Get finds a value exactly when the key is in the bucket's map, and the value is the map's |
| SortedMap.Put | storage/boltdb/storage.go:90 | Bucket.Put keeps the keys strictly increasing, and the new map is the old one with k set to v |
| SortedMap.Remove | storage/boltdb/storage.go:205 | Bucket.Delete keeps the keys strictly increasing, and the new map is the old one without k |
| SortedMap.Seek | storage/boltdb/storage.go:230 | Cursor.Seek stops at the first position whose key is not below k, or at the end. Every key before it is below k and none from it on is. |
| SortedMap.SeekFinds | storage/boltdb/storage.go:230-233 | Seek(k) stops on an entry with key k exactly when k is stored |
| SortedMap.CountIsSize | storage/boltdb/storage.go:420 | a bucket has as many entries as its map has keys |
| SortedMap.HasValue | storage/boltdb/storage.go:129-135 | some entry carries v exactly when v is one of the map's values |
| Bolt.HasBucket | storage/boltdb/storage.go:108 | `tx.Bucket(name)` is non-nil exactly when the file has a bucket with that name |
| Bolt.BucketOf | storage/boltdb/storage.go:108 | the bucket `tx.Bucket(name)` hands back is the one stored under that name, and its keys are in order and non-empty |
| Bolt.Put | storage/boltdb/storage.go:90 | the bucket's map gains k mapped to v, its sequence stays the same, and no other bucket changes |
| Bolt.Delete | storage/boltdb/storage.go:205 | the bucket's map loses k (an absent key is no error), its sequence stays the same, and no other bucket changes |
| Bolt.NextSequence | storage/boltdb/storage.go:86 | the counter goes up by one and wraps to 0 after 2^64-1. The new value is returned, the entries are unchanged, and no other bucket changes. |
| Bolt.KeyN | storage/boltdb/storage.go:420 | Stats().KeyN is the number of keys in the bucket's map |
| Bolt.CreateBucketIfNotExists | storage/boltdb/storage.go:43 | an empty name is ErrBucketNameRequired. Otherwise a missing bucket is added empty and an existing one is kept as it is. |
| Bolt.WithBuckets | storage/boltdb/storage.go:42-55 | after creating `names` in turn, the buckets are the old ones plus an empty bucket for each new name |
| Bolt.CreateBuckets | storage/boltdb/storage.go:40-62 | the set-up transaction fails, with nothing written, exactly when some name is empty. Otherwise every name has a bucket and existing buckets are untouched. |
| Bolt.DeleteBucket | storage/boltdb/storage.go:403 | a missing bucket is ErrBucketNotFound. Otherwise exactly that bucket is removed. |
| Cursor.Walk | storage/boltdb/storage.go:230-253 | the loop's items are the page of the entries the cursor visits from its start: rendered in order, without the start key's entry, and at most max(perpage, 1) of them |
| Cursor.VisitForward | storage/boltdb/storage.go:230 | stepping with Next from position i visits exactly the entries from i on |
| Cursor.VisitBackward | storage/boltdb/storage.go:327 | stepping with Prev from position i visits the entries up to i in reverse |
| Cursor.PageBound | storage/boltdb/storage.go:248-252 | a page holds at most max(perpage, 1) items, and fewer only when the cursor ran out of entries |
| Cursor.ForwardFrom | storage/boltdb/storage.go:230-253 | Seek(k) then Next, skipping k, pages exactly the entries strictly above k in key order |
| Cursor.ForwardFirst | storage/boltdb/storage.go:255-275 | First then Next pages the entries from the first one, rendered in order |
| Cursor.BackwardLast | storage/boltdb/storage.go:327-347 | Last then Prev pages the entries from the last one down |
| Cursor.BackwardFromStored | storage/boltdb/storage.go:302-325 | when k is stored, Seek(k) then Prev pages the entries strictly below k, from the highest down |
| Cursor.BackwardFromAbsent | storage/boltdb/storage.go:302-325 | when k is absent but some key is above it, the page is the least entry above k followed by the entries below k, from the highest down |
| Cursor.BackwardPastEnd | storage/boltdb/storage.go:302 | when every key is below k, Seek finds nothing and the page is empty |
| BoltStore.Store.NewStore | storage/boltdb/storage.go:23-67 | read-only leaves the file as it is. Otherwise every bucket of bucketList and then of indexList is created if missing, and any empty name fails the whole set-up with ErrBucketNameRequired. |
| BoltStore.Store.Set | storage/boltdb/storage.go:69-98 | error order: read-only, unknown bucket, empty value. With a key, k is stored under it. Without one, the counter goes up by one (wrapping at 2^64) and the 8-byte big-endian encoding of its new value is stored and returned. Afterwards Get of the returned key gives v. |
| BoltStore.Store.Get | storage/boltdb/storage.go:143-160 | unknown bucket is an error. Otherwise the stored value, or the empty value for an absent key. |
| BoltStore.Store.KeyExist | storage/boltdb/storage.go:100-117 | unknown bucket is an error. Otherwise true exactly when the key is in the bucket. |
| BoltStore.Store.ValueExist | storage/boltdb/storage.go:119-141 | unknown bucket is an error. Otherwise the scan from the first key returns true exactly when some key of the bucket holds v. |
| BoltStore.Store.MGet | storage/boltdb/storage.go:162-188 | unknown bucket is an error. Otherwise there is one entry per requested position, labelled `"<i>:<key>"` and holding that key's value (empty when absent), so the result has exactly \|keys\| entries. |
| BoltStore.LabelledFacts | storage/boltdb/storage.go:172-178 | the map built over the first n positions has exactly their n labels, each holding its key's value |
| BoltStore.Store.Delete | storage/boltdb/storage.go:190-207 | error order: read-only, unknown bucket, empty key. On success the key is gone from that bucket (KeyExist is false), and the counter and other buckets are unchanged. |
| BoltStore.Store.Rendering | storage/boltdb/storage.go:236-244 | an entry of an index bucket is rendered as the KV JSON of its key and value, and an entry of any other bucket as its raw value |
| BoltStore.SuccessiveKeys | storage/boltdb/storage.go:84-87 | two empty-key Sets in a row on one bucket return keys in increasing bytes.Compare order, unless the counter wraps between them |
| BoltStore.Store.List | storage/boltdb/storage.go:216-286 | unknown bucket is an error. Otherwise the first max(perpage, 1) entries, of the whole bucket or strictly above k, rendered as KV JSON for index buckets and as the raw value otherwise. An empty page is nil. |
| BoltStore.Store.PrevList | storage/boltdb/storage.go:288-358 | unknown bucket is an error. Otherwise, from the last entry down when there is no start key. With a stored k, the entries below k. With an absent k, the least entry above k first, then those below. Empty when k is above every key. Never nil. |
| BoltStore.Store.BucketList | storage/boltdb/storage.go:373-391 | the names of the file's buckets that are in bucketList, each once, in strictly increasing name order |
| BoltStore.RegisteredFacts | storage/boltdb/storage.go:377-383 | filtering a sorted file by the registry keeps exactly the listed bucket names, in strictly increasing order |
| BoltStore.Store.DeleteBucket | storage/boltdb/storage.go:393-405 | error order: read-only, unknown bucket, then the engine's ErrBucketNotFound. On success exactly that bucket is removed. |
| BoltStore.Store.HasBucket | storage/boltdb/storage.go:407-409 | true exactly when the name is in bucketList or indexList. Whether the file has the bucket is not consulted. |
| BoltStore.Store.BucketStats | storage/boltdb/storage.go:411-430 | 0 for an unknown bucket, otherwise the number of keys in it |
| BoltStore.Store.Restore | storage/boltdb/storage.go:442-444 | always the "not implemented" error |
| SniperStore.CompositeKey | storage/sniper/storage.go:89-92 | the value-store key is the bucket name followed directly by the key, or the key alone for the empty name |
| SniperStore.CompositeKeyInjective | storage/sniper/storage.go:89-92 | within one bucket, different keys have different value-store keys |
| SniperStore.CompositeKeyCollision | storage/sniper/storage.go:89-92 | across buckets keys collide: ("post", "sx") and ("posts", "x") give the same value-store key |
| SniperStore.PrefixFreeNoCollision | storage/sniper/storage.go:89-92 | two bucket names, neither a prefix of the other, never share a value-store key |
| SniperStore.Mirrored | storage/sniper/storage.go:94-101 | the index bucket lists exactly the keys with a value for that bucket. Then every index key has a value, and a page shows that value rather than the empty string. |
| SniperStore.Resolver | storage/sniper/storage.go:228-235 | a page entry for an index key is the value under its composite key, or the empty string when the value store has none |
| SniperStore.Store.ResolvesLikeGet | storage/sniper/storage.go:228-235 | for an admitted name, the entry a page shows for an index key is exactly what Get returns for that key |
| SniperStore.Store.AdmittedNames | storage/sniper/storage.go:129 | Admitted, the name check of Set, KeyExist, Get, MGet, Delete, List, DeleteBucket and BucketStats (lines 81, 107, 129, 148, 178, 210, 365, 395): the empty name or a name in bucketList + indexList |
| SniperStore.SetKeepsMirror | storage/sniper/storage.go:94-101 | a successful Set keeps the index bucket listing exactly the keys that have a value for that bucket |
| SniperStore.DeleteKeepsMirror | storage/sniper/storage.go:191-197 | so does a successful Delete on an index bucket |
| SniperStore.CollisionLeavesStaleEntry | storage/sniper/storage.go:186-197 | a Delete through a colliding bucket removes another bucket's value while its index keeps the key, and a page then shows that key as the empty string |
| SniperStore.Store.NewStore | storage/sniper/storage.go:26-74 | read-only leaves the index file as it is. Otherwise a bucket is created for each name of indexList only, and an empty name fails the set-up with ErrBucketNameRequired. |
| SniperStore.Store.Set | storage/sniper/storage.go:76-104 | error order: read-only, unknown non-empty bucket, empty key or value. On success the value is stored under the composite key and the key is put in the index bucket with the value "0", whose sequence counter is kept. No other value-store key and no other index bucket changes. A colliding bucket's value (Set("post", "sx") against ("posts", "x")) is overwritten. Get of the key then gives v. |
| SniperStore.Store.Get | storage/sniper/storage.go:128-145 | an unknown non-empty bucket is an error. Otherwise the value under the composite key, or the empty value when none is stored. |
| SniperStore.Store.KeyExist | storage/sniper/storage.go:106-122 | an unknown non-empty bucket is an error. Otherwise true exactly when a non-empty value is stored under the composite key. |
| SniperStore.Store.ValueExist | storage/sniper/storage.go:124-126 | always the "not implemented" error |
| SniperStore.Store.MGet | storage/sniper/storage.go:147-171 | an unknown non-empty bucket is an error. Otherwise the result is keyed by composite key and holds exactly the requested keys that have a value, each with its stored value. |
| SniperStore.Store.Delete | storage/sniper/storage.go:173-200 | error order: read-only, unknown non-empty bucket, empty key. On success the composite key is gone from the value store. For an index bucket, exactly that key goes from the index bucket. No other value-store key and no other index bucket changes. A colliding bucket's value (Delete("post", "sx") against ("posts", "x")) is removed, while its index keeps the key. Get then gives the empty value. |
| SniperStore.Store.List | storage/sniper/storage.go:209-271 | an unknown non-empty bucket is an error. Otherwise the forward page of index keys, each resolved through the value store, with the empty string for a key whose value is gone. An empty page is nil. |
| SniperStore.Store.PrevList | storage/sniper/storage.go:274-336 | even the empty name must be registered. Otherwise the same backward page as the bolt store, with each key resolved through the value store. Never nil. |
| SniperStore.Store.DeleteBucket | storage/sniper/storage.go:360-388 | error order: read-only, unknown non-empty bucket, empty name (not implemented). On success every value of the bucket's index keys is gone from the value store and nothing else is. For an index bucket, that index bucket ends empty with its sequence counter kept, and other index buckets are unchanged. |
| SniperStore.Store.DeleteIndexed | storage/sniper/storage.go:369-385 | the cursor walk calls Delete for each index key in order, and none fails. The result is the state DeleteBucket promises: the values gone, and for an index bucket, the bucket empty with its sequence counter kept. |
| SniperStore.DropAll | storage/sniper/storage.go:374-379 | deleting a sequence of keys one at a time removes exactly those keys and keeps the other values |
| SniperStore.DroppedValues | storage/sniper/storage.go:374-379 | after the walk, the value store has lost exactly the composite keys of the index bucket's keys |
| SniperStore.DroppedIndex | storage/sniper/storage.go:374-379 | after the walk, the index bucket holds no key |
| SniperStore.Store.HasBucket | storage/sniper/storage.go:390-392 | true exactly when the name is non-empty and registered |
| SniperStore.Store.BucketStats | storage/sniper/storage.go:394-413 | 0 for an unknown non-empty bucket, otherwise the number of keys in its index bucket |

## Left out

- File system and process setup are not modelled. This covers CreateDir, DeleteFileOrDirectory, opening or closing the bolt file and the sniper directory, Close, Sync and Stats. An opened file is a parameter of NewStore.
- Backup of both stores and sniper Restore are left out. They copy files or call the hash store's own restore, which this model has no view of.
- Sniper BucketList is left out. It reads a "[buckets]" record from the hash store and splits it on commas, and nothing in the core writes that record.
- KV MarshalBinary (JSON encoding) is a function parameter `renderKV` of the bolt store, not modelled.
- The Store interfaces are not modelled. Both stores are modelled directly.
- BoltStore.Store.Set: if the write transaction fails before it runs the closure (a closed file, say), `k` stays empty and the source then panics in Btou64 at `storage/boltdb/storage.go:94`. Engine errors are not modelled, so the model does not capture this panic.
- Transactions, page layout, file size limits and engine I/O errors are not modelled. Every engine call succeeds unless it returns one of the modelled errors.
- Concurrency is not modelled. Neither is the non-atomicity of the two-engine writes, where the value store can be updated while the index update fails. The same goes for DeleteBucket calling Delete, and so starting a write transaction, inside the read transaction of its cursor walk, which the engine may deadlock on (when the write must grow the file).
- A nil bucket makes the source panic: a registered name whose bucket is missing from the file, or a sniper Set or Delete for a name without an index bucket. The model makes this a precondition that the bucket exists, but only on the paths that reach the bucket. A read-only store, an empty value (bolt Set) or an empty key (bolt Delete) fails before the bucket is looked up, and needs no bucket.
- In the sniper store the empty bucket name passes the name check, but the index file cannot hold a bucket with an empty name. Set, List and BucketStats with the empty name would panic on the nil index bucket, and so would PrevList if the empty name were registered. The model's preconditions exclude those calls.
- The sniper hash store is an exact map. Its own Delete is taken to succeed for an absent key, and its size limits, expiry and errors are not modelled.
- `append(bucketList, indexList...)` may share the backing array of bucketList. The model builds a fresh sequence.
- A nil slice and an empty slice are the same value, except for the List/PrevList result, where `Listing` keeps the difference.
- The two CreateBucketIfNotExists loops of bolt NewStore are modelled as one walk over bucketList followed by indexList. It runs in the same transaction and stops at the same first error.

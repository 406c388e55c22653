/** The ordered engine (bbolt) as both stores use it: a database file is a
    key-ordered sequence of named buckets, a bucket a key-ordered sequence of
    entries plus the counter behind NextSequence. Only the behaviour the
    stores reach is modelled; pages, transactions and I/O are not. */
module Bolt {
  import opened ByteOrder
  import opened Errors
  import opened Utils
  import opened SortedMap

  datatype Bucket = Bucket(entries: seq<Pair<Bytes>>, sequence: uint64)

  type Db = seq<Pair<Bucket>>

  const Empty: Db := []
  const NewBucket: Bucket := Bucket([], 0)

  /** Keys are kept in order and are never empty (Put refuses an empty key). */
  ghost predicate ValidBucket(b: Bucket)
  {
    && Sorted(b.entries)
    && forall i :: 0 <= i < |b.entries| ==> |b.entries[i].key| > 0
  }

  /** The buckets of a file by name. */
  ghost function Buckets(db: Db): map<Bytes, Bucket>
  {
    ToMap(db)
  }

  /** Bucket names are kept in order and are never empty. */
  ghost predicate Valid(db: Db)
  {
    && Sorted(db)
    && forall i :: 0 <= i < |db| ==> |db[i].key| > 0 && ValidBucket(db[i].value)
  }

  /** No key of a sequence is empty exactly when no key of its map is. */
  lemma NonEmptyKeys<V>(s: seq<Pair<V>>)
    ensures (forall k :: k in ToMap(s) ==> |k| > 0) <==> (forall i :: 0 <= i < |s| ==> |s[i].key| > 0)
  {
    if forall k :: k in ToMap(s) ==> |k| > 0 {
      forall i | 0 <= i < |s| ensures |s[i].key| > 0 {
        assert s[i].key in ToMap(s);
      }
    }
  }

  /** Validity read through the map of buckets. */
  lemma ValidByName(db: Db)
    requires Sorted(db)
    ensures Valid(db) <==> forall n :: n in Buckets(db) ==> |n| > 0 && ValidBucket(Buckets(db)[n])
  {
    if Valid(db) {
      forall n | n in Buckets(db) ensures |n| > 0 && ValidBucket(Buckets(db)[n]) {
        var i :| 0 <= i < |db| && db[i].key == n;
        ToMapAt(db, i);
      }
    }
    if forall n :: n in Buckets(db) ==> |n| > 0 && ValidBucket(Buckets(db)[n]) {
      forall i | 0 <= i < |db| ensures |db[i].key| > 0 && ValidBucket(db[i].value) {
        ToMapAt(db, i);
      }
    }
  }

  /** tx.Bucket(name) != nil */
  predicate HasBucket(db: Db, name: Bytes)
    ensures HasBucket(db, name) <==> name in Buckets(db)
  {
    Find(db, name).Some?
  }

  function BucketOf(db: Db, name: Bytes): (b: Bucket)
    requires HasBucket(db, name)
    ensures b == Buckets(db)[name]
    ensures Valid(db) ==> ValidBucket(b)
  {
    Find(db, name).value
  }

  /** The key/value map a bucket holds. */
  ghost function Contents(db: Db, name: Bytes): map<Bytes, Bytes>
    requires HasBucket(db, name)
  {
    ToMap(BucketOf(db, name).entries)
  }

  /** Store `b` as the bucket called `name`; no other bucket changes. */
  function Update(db: Db, name: Bytes, b: Bucket): (r: Db)
    requires Valid(db) && |name| > 0 && ValidBucket(b)
    ensures Valid(r)
    ensures Buckets(r) == Buckets(db)[name := b]
  {
    ValidByName(db);
    var r := SortedMap.Put(db, name, b);
    ValidByName(r);
    r
  }

  /** Bucket.Put: map `k` to `v` in bucket `name`; nothing else changes. */
  function Put(db: Db, name: Bytes, k: Bytes, v: Bytes): (r: Db)
    requires Valid(db) && HasBucket(db, name) && |k| > 0
    ensures Valid(r) && HasBucket(r, name)
    ensures Contents(r, name) == Contents(db, name)[k := v]
    ensures BucketOf(r, name).sequence == BucketOf(db, name).sequence
    ensures Buckets(r) == Buckets(db)[name := BucketOf(r, name)]
  {
    var b := BucketOf(db, name);
    var entries := SortedMap.Put(b.entries, k, v);
    NonEmptyKeys(b.entries);
    NonEmptyKeys(entries);
    Update(db, name, Bucket(entries, b.sequence))
  }

  /** Bucket.Delete: drop `k` from bucket `name`; an absent key is no error. */
  function Delete(db: Db, name: Bytes, k: Bytes): (r: Db)
    requires Valid(db) && HasBucket(db, name)
    ensures Valid(r) && HasBucket(r, name)
    ensures Contents(r, name) == Contents(db, name) - {k}
    ensures BucketOf(r, name).sequence == BucketOf(db, name).sequence
    ensures Buckets(r) == Buckets(db)[name := BucketOf(r, name)]
  {
    var b := BucketOf(db, name);
    var entries := Remove(b.entries, k);
    NonEmptyKeys(b.entries);
    NonEmptyKeys(entries);
    Update(db, name, Bucket(entries, b.sequence))
  }

  /** Bucket.NextSequence: increment the uint64 counter and return it. */
  function NextSequence(db: Db, name: Bytes): (r: (Db, uint64))
    requires Valid(db) && HasBucket(db, name)
    ensures Valid(r.0) && HasBucket(r.0, name)
    ensures r.1 == BucketOf(r.0, name).sequence
    ensures BucketOf(db, name).sequence < TwoTo64 - 1 ==> r.1 == BucketOf(db, name).sequence + 1
    ensures BucketOf(db, name).sequence == TwoTo64 - 1 ==> r.1 == 0
    ensures Contents(r.0, name) == Contents(db, name)
    ensures Buckets(r.0) == Buckets(db)[name := Bucket(BucketOf(db, name).entries, r.1)]
  {
    var b := BucketOf(db, name);
    var next: uint64 := if b.sequence + 1 == TwoTo64 then 0 else b.sequence + 1;
    (Update(db, name, Bucket(b.entries, next)), next)
  }

  /** Bucket.Stats().KeyN: the number of keys in a bucket. */
  function KeyN(db: Db, name: Bytes): (n: nat)
    requires Valid(db) && HasBucket(db, name)
    ensures n == |Contents(db, name)|
  {
    CountIsSize(BucketOf(db, name).entries);
    |BucketOf(db, name).entries|
  }

  /** Tx.CreateBucketIfNotExists: an existing bucket is kept as it is. */
  function CreateBucketIfNotExists(db: Db, name: Bytes): (r: Result<Db>)
    requires Valid(db)
    ensures r.Err? <==> |name| == 0
    ensures r.Err? ==> r.error == BucketNameRequired
    ensures r.Ok? ==> Valid(r.value)
    ensures r.Ok? ==> Buckets(r.value) == WithBucket(Buckets(db), name)
  {
    if |name| == 0 then Err(BucketNameRequired)
    else if HasBucket(db, name) then Ok(db)
    else Ok(Update(db, name, NewBucket))
  }

  /** `m` with an empty bucket under `name` unless it has one already. */
  ghost function WithBucket(m: map<Bytes, Bucket>, name: Bytes): map<Bytes, Bucket>
  {
    if name in m then m else m[name := NewBucket]
  }

  /** `m` with an empty bucket under each of `names` it does not have yet. */
  ghost function WithBuckets(m: map<Bytes, Bucket>, names: seq<Bytes>): (r: map<Bytes, Bucket>)
    ensures forall n :: n in r <==> n in m || n in names
    ensures forall n :: n in r ==> r[n] == if n in m then m[n] else NewBucket
  {
    if names == [] then m
    else
      var last := names[|names| - 1];
      assert names == names[..|names| - 1] + [last];
      WithBucket(WithBuckets(m, names[..|names| - 1]), last)
  }

  /** Tx.DeleteBucket: a bucket that is not there is an error. */
  function DeleteBucket(db: Db, name: Bytes): (r: Result<Db>)
    requires Valid(db)
    ensures r.Err? <==> !HasBucket(db, name)
    ensures r.Err? ==> r.error == BucketNotFound
    ensures r.Ok? ==> Valid(r.value) && Buckets(r.value) == Buckets(db) - {name}
  {
    if !HasBucket(db, name) then Err(BucketNotFound)
    else
      var r := Remove(db, name);
      ValidByName(db);
      ValidByName(r);
      Ok(r)
  }

  /** The bucket set-up of both NewStores: one read-write transaction that
      runs CreateBucketIfNotExists over `names` in order and is rolled back
      as a whole at the first error. */
  method CreateBuckets(db: Db, names: seq<Bytes>) returns (r: Result<Db>)
    requires Valid(db)
    ensures r.Err? <==> [] in names
    ensures r.Err? ==> r.error == BucketNameRequired
    ensures r.Ok? ==> Valid(r.value)
    ensures r.Ok? ==> Buckets(r.value) == WithBuckets(Buckets(db), names)
  {
    var tx := db;
    for i := 0 to |names|
      invariant Valid(tx)
      invariant [] !in names[..i]
      invariant Buckets(tx) == WithBuckets(Buckets(db), names[..i])
    {
      var created := CreateBucketIfNotExists(tx, names[i]);
      if created.Err? {
        return Err(created.error);
      }
      assert names[..i + 1][..i] == names[..i];
      tx := created.value;
    }
    assert names[..|names|] == names;
    r := Ok(tx);
  }
}

/** The bolt-backed store: every operation first checks the bucket name
    against the configured registry (bucketList followed by indexList),
    then runs one engine transaction on the file's buckets. */
module BoltStore {
  import opened ByteOrder
  import opened Errors
  import opened Utils
  import opened SortedMap
  import Bolt
  import opened Cursor
  import Strconv

  /** What a read of an absent key gives back: a nil slice, the empty string. */
  function Lookup(m: map<Bytes, Bytes>, k: Bytes): Bytes
  {
    if k in m then m[k] else []
  }

  /** The map MGet builds from the first `n` requested keys. */
  ghost function Labelled(keys: seq<Bytes>, n: nat, contents: map<Bytes, Bytes>): map<Bytes, Bytes>
    requires n <= |keys|
  {
    if n == 0 then map[]
    else Labelled(keys, n - 1, contents)[Strconv.Label(n - 1, keys[n - 1]) := Lookup(contents, keys[n - 1])]
  }

  /** Labels are pairwise distinct, so every requested position keeps its
      own entry: one entry per position, holding that key's value. */
  lemma {:induction false} LabelledFacts(keys: seq<Bytes>, n: nat, contents: map<Bytes, Bytes>)
    requires n <= |keys|
    ensures var m := Labelled(keys, n, contents);
      && (forall l :: l in m <==> exists i :: 0 <= i < n && l == Strconv.Label(i, keys[i]))
      && (forall i :: 0 <= i < n ==>
            Strconv.Label(i, keys[i]) in m && m[Strconv.Label(i, keys[i])] == Lookup(contents, keys[i]))
      && |m| == n
  {
    if n > 0 {
      LabelledFacts(keys, n - 1, contents);
      var prev := Labelled(keys, n - 1, contents);
      var tag := Strconv.Label(n - 1, keys[n - 1]);
      assert tag !in prev by {
        if tag in prev {
          var i :| 0 <= i < n - 1 && tag == Strconv.Label(i, keys[i]);
          Strconv.LabelInjective(i, keys[i], n - 1, keys[n - 1]);
        }
      }
      var m := prev[tag := Lookup(contents, keys[n - 1])];
      assert Labelled(keys, n, contents) == m;
      assert |m| == |prev| + 1;
      forall i | 0 <= i < n
        ensures Strconv.Label(i, keys[i]) in m && m[Strconv.Label(i, keys[i])] == Lookup(contents, keys[i])
      {
        if i < n - 1 {
          assert Strconv.Label(i, keys[i]) in prev;
        }
      }
    }
  }

  /** The bucket names of `file` that are in `list`, in file order. */
  ghost function Registered(file: Bolt.Db, list: seq<Bytes>): seq<Bytes>
  {
    if file == [] then []
    else
      var last := file[|file| - 1].key;
      Registered(file[..|file| - 1], list) + (if last in list then [last] else [])
  }

  /** Filtering a sorted file keeps exactly the listed bucket names, still
      in strictly increasing order. */
  lemma {:induction false} RegisteredFacts(file: Bolt.Db, list: seq<Bytes>)
    requires Sorted(file)
    ensures var names := Registered(file, list);
      && (forall n :: n in names <==> n in Bolt.Buckets(file) && n in list)
      && (forall i, j :: 0 <= i < j < |names| ==> Less(names[i], names[j]))
  {
    if file != [] {
      var init, last := file[..|file| - 1], file[|file| - 1];
      assert file == init + [last];
      BelowLast(init, last);
      RegisteredFacts(init, list);
      KeysOfSnoc(init, last);
    }
  }

  /** Two empty-key Sets in a row on one bucket allocate the sequence
      numbers s + 1 and s + 2, and the second key sorts after the first, as
      long as the counter does not wrap in between. */
  lemma SuccessiveKeys(s: uint64)
    requires s < TwoTo64 - 2
    ensures Less(BigEndian(s + 1, 8), BigEndian(s + 2, 8))
  {
    Pow256Eight();
    BigEndianOrder(s + 1, s + 2, 8);
  }

  class Store {
    const bucketList: seq<Bytes>
    const indexList: seq<Bytes>
    const allBuckets: seq<Bytes>
    const readOnly: bool
    /** KV{Key, Value}.MarshalBinary: the JSON text of an index entry. */
    const renderKV: (Bytes, Bytes) -> Bytes
    var db: Bolt.Db

    ghost predicate Valid()
      reads this
    {
      Bolt.Valid(db) && allBuckets == bucketList + indexList
    }

    /** A registered bucket must exist in the file: otherwise the engine
        hands back a nil bucket and the operation panics. */
    ghost predicate BucketReady(name: Bytes)
      reads this
    {
      Contains(allBuckets, name) ==> Bolt.HasBucket(db, name)
    }

    constructor Open(bucketList: seq<Bytes>, indexList: seq<Bytes>, readOnly: bool,
                     renderKV: (Bytes, Bytes) -> Bytes, db: Bolt.Db)
      requires Bolt.Valid(db)
      ensures Valid()
      ensures this.bucketList == bucketList && this.indexList == indexList
      ensures this.readOnly == readOnly && this.renderKV == renderKV && this.db == db
    {
      this.bucketList := bucketList;
      this.indexList := indexList;
      this.allBuckets := bucketList + indexList;
      this.readOnly := readOnly;
      this.renderKV := renderKV;
      this.db := db;
    }

    /** NewStore on an opened file: unless read-only, one transaction creates
        every bucket of bucketList and then of indexList that is missing, and
        an empty name rolls the whole transaction back. */
    static method NewStore(bucketList: seq<Bytes>, indexList: seq<Bytes>, file: Bolt.Db,
                           readOnly: bool, renderKV: (Bytes, Bytes) -> Bytes) returns (r: Result<Store>)
      requires Bolt.Valid(file)
      ensures r.Err? <==> !readOnly && [] in bucketList + indexList
      ensures r.Err? ==> r.error == BucketNameRequired
      ensures r.Ok? ==> fresh(r.value) && r.value.Valid()
      ensures r.Ok? ==> r.value.bucketList == bucketList && r.value.indexList == indexList
      ensures r.Ok? ==> r.value.readOnly == readOnly && r.value.renderKV == renderKV
      ensures r.Ok? ==> (Bolt.Buckets(r.value.db) ==
        if readOnly then Bolt.Buckets(file) else Bolt.WithBuckets(Bolt.Buckets(file), bucketList + indexList))
    {
      var db := file;
      if !readOnly {
        var created := Bolt.CreateBuckets(file, bucketList + indexList);
        if created.Err? {
          return Err(created.error);
        }
        db := created.value;
      }
      var s := new Store.Open(bucketList, indexList, readOnly, renderKV, db);
      return Ok(s);
    }

    /** How List and PrevList render an entry: index buckets as KV JSON,
        other buckets as the raw value. */
    function Rendering(name: Bytes): (r: Entry -> Bytes)
      ensures Contains(indexList, name) ==> forall e: Entry :: r(e) == renderKV(e.key, e.value)
      ensures !Contains(indexList, name) ==> forall e: Entry :: r(e) == e.value
    {
      if Contains(indexList, name) then (e: Entry) => renderKV(e.key, e.value)
      else (e: Entry) => e.value
    }

    method Set(name: Bytes, k: Bytes, v: Bytes) returns (key: Bytes, r: Outcome)
      requires Valid() && (!readOnly && |v| > 0 ==> BucketReady(name))
      modifies this
      ensures Valid() && (old(BucketReady(name)) ==> BucketReady(name))
      ensures r == if readOnly then Fail(ReadOnlyMode)
                   else if !Contains(allBuckets, name) then Fail(UnknownBucketName)
                   else if |v| == 0 then Fail(ValueNotFound)
                   else Pass
      ensures r.Fail? ==> key == [] && db == old(db)
      ensures r.Pass? ==> Bolt.HasBucket(db, name)
      ensures r.Pass? && |k| > 0 ==> key == k
      ensures r.Pass? && |k| == 0 ==> key == BigEndian(Bolt.BucketOf(db, name).sequence, 8)
      ensures r.Pass? ==> Bolt.Contents(db, name) == old(Bolt.Contents(db, name))[key := v]
      ensures r.Pass? ==> Bolt.Buckets(db) == old(Bolt.Buckets(db))[name := Bolt.BucketOf(db, name)]
      ensures r.Pass? && |k| > 0 ==>
        Bolt.BucketOf(db, name).sequence == old(Bolt.BucketOf(db, name).sequence)
      ensures r.Pass? && |k| == 0 && old(Bolt.BucketOf(db, name).sequence) < TwoTo64 - 1 ==>
        Bolt.BucketOf(db, name).sequence == old(Bolt.BucketOf(db, name).sequence) + 1
      ensures r.Pass? && |k| == 0 && old(Bolt.BucketOf(db, name).sequence) == TwoTo64 - 1 ==>
        Bolt.BucketOf(db, name).sequence == 0
      ensures r.Pass? ==> Get(name, key) == Ok(v)
    {
      if readOnly {
        return [], Fail(ReadOnlyMode);
      }
      if !Contains(allBuckets, name) {
        return [], Fail(UnknownBucketName);
      }
      if |v| == 0 {
        return [], Fail(ValueNotFound);
      }
      key := k;
      var tx := db;
      if |key| == 0 {
        var next := Bolt.NextSequence(tx, name);
        tx := next.0;
        key := U64tob(ToInt64(next.1));
      }
      db := Bolt.Put(tx, name, key, v);
      UpdateUpdate(old(Bolt.Buckets(db)), name, Bolt.BucketOf(tx, name), Bolt.BucketOf(db, name));
      if |key| == 0 {
        // The decimal rendering of an empty key: the key was given or
        // allocated above, so this branch is never taken.
        assert false;
      }
      r := Pass;
    }

    function Get(name: Bytes, k: Bytes): (r: Result<Bytes>)
      reads this
      requires Valid() && BucketReady(name)
      ensures r.Err? <==> !Contains(allBuckets, name)
      ensures r.Err? ==> r.error == UnknownBucketName
      ensures r.Ok? ==> r.value == Lookup(Bolt.Contents(db, name), k)
    {
      if !Contains(allBuckets, name) then Err(UnknownBucketName)
      else
        match Find(Bolt.BucketOf(db, name).entries, k)
        case Some(v) => Ok(v)
        case None => Ok([])
    }

    function KeyExist(name: Bytes, k: Bytes): (r: Result<bool>)
      reads this
      requires Valid() && BucketReady(name)
      ensures r.Err? <==> !Contains(allBuckets, name)
      ensures r.Err? ==> r.error == UnknownBucketName
      ensures r.Ok? ==> (r.value <==> k in Bolt.Contents(db, name))
    {
      if !Contains(allBuckets, name) then Err(UnknownBucketName)
      else Ok(Find(Bolt.BucketOf(db, name).entries, k).Some?)
    }

    /** A cursor scan from the first key that stops at the first equal value. */
    method ValueExist(name: Bytes, v: Bytes) returns (r: Result<bool>)
      requires Valid() && BucketReady(name)
      ensures r.Err? <==> !Contains(allBuckets, name)
      ensures r.Err? ==> r.error == UnknownBucketName
      ensures r.Ok? ==> (r.value <==> v in Bolt.Contents(db, name).Values)
    {
      if !Contains(allBuckets, name) {
        return Err(UnknownBucketName);
      }
      var es := Bolt.BucketOf(db, name).entries;
      var found := false;
      var i := 0;
      while i < |es|
        invariant 0 <= i <= |es|
        invariant !found
        invariant forall j :: 0 <= j < i ==> es[j].value != v
      {
        if es[i].value == v {
          found := true;
          break;
        }
        i := i + 1;
      }
      HasValue(es, v);
      return Ok(found);
    }

    /** One entry per requested position, labelled "<position>:<key>". */
    method MGet(name: Bytes, keys: seq<Bytes>) returns (r: Result<map<Bytes, Bytes>>)
      requires Valid() && BucketReady(name)
      ensures r.Err? <==> !Contains(allBuckets, name)
      ensures r.Err? ==> r.error == UnknownBucketName
      ensures r.Ok? ==> forall l :: l in r.value <==>
        exists i :: 0 <= i < |keys| && l == Strconv.Label(i, keys[i])
      ensures r.Ok? ==> forall i :: 0 <= i < |keys| ==>
        Strconv.Label(i, keys[i]) in r.value &&
        r.value[Strconv.Label(i, keys[i])] == Lookup(Bolt.Contents(db, name), keys[i])
      ensures r.Ok? ==> |r.value| == |keys|
    {
      if !Contains(allBuckets, name) {
        return Err(UnknownBucketName);
      }
      var contents := Bolt.Contents(db, name);
      var items: map<Bytes, Bytes> := map[];
      for index := 0 to |keys|
        invariant items == Labelled(keys, index, contents)
      {
        var data := Get(name, keys[index]);
        items := items[Strconv.Label(index, keys[index]) := data.value];
      }
      LabelledFacts(keys, |keys|, contents);
      return Ok(items);
    }

    method Delete(name: Bytes, k: Bytes) returns (r: Outcome)
      requires Valid() && (!readOnly && |k| > 0 ==> BucketReady(name))
      modifies this
      ensures Valid() && (old(BucketReady(name)) ==> BucketReady(name))
      ensures r == if readOnly then Fail(ReadOnlyMode)
                   else if !Contains(allBuckets, name) then Fail(UnknownBucketName)
                   else if |k| == 0 then Fail(KeyNotFound)
                   else Pass
      ensures r.Fail? ==> db == old(db)
      ensures r.Pass? ==> Bolt.HasBucket(db, name)
      ensures r.Pass? ==> Bolt.Contents(db, name) == old(Bolt.Contents(db, name)) - {k}
      ensures r.Pass? ==> Bolt.BucketOf(db, name).sequence == old(Bolt.BucketOf(db, name).sequence)
      ensures r.Pass? ==> Bolt.Buckets(db) == old(Bolt.Buckets(db))[name := Bolt.BucketOf(db, name)]
      ensures r.Pass? ==> KeyExist(name, k) == Ok(false)
    {
      if readOnly {
        return Fail(ReadOnlyMode);
      }
      if !Contains(allBuckets, name) {
        return Fail(UnknownBucketName);
      }
      if |k| == 0 {
        return Fail(KeyNotFound);
      }
      db := Bolt.Delete(db, name, k);
      r := Pass;
    }

    /** A forward page: with a start key, the entries strictly after it;
        without one, from the first entry. An empty page is nil. */
    method List(name: Bytes, k: Bytes, perpage: int) returns (r: Result<Listing<Bytes>>)
      requires Valid() && BucketReady(name)
      ensures r.Err? <==> !Contains(allBuckets, name)
      ensures r.Err? ==> r.error == UnknownBucketName
      ensures r.Ok? ==>
        var es := Bolt.BucketOf(db, name).entries;
        var page := Take(Render(if |k| > 0 then Above(es, k) else es, Rendering(name)), PageSize(perpage));
        r.value == if page == [] then Nil else Items(page)
    {
      if !Contains(allBuckets, name) {
        return Err(UnknownBucketName);
      }
      var es := Bolt.BucketOf(db, name).entries;
      var render := Rendering(name);
      var items;
      if |k| > 0 {
        items := Walk(es, Seek(es, k), true, Some(k), perpage, render);
        ForwardFrom(es, k, perpage, render);
      } else {
        items := Walk(es, 0, true, None, perpage, render);
        ForwardFirst(es, perpage, render);
      }
      if |items| == 0 {
        return Ok(Nil);
      }
      return Ok(Items(items));
    }

    /** A backward page. Without a start key it runs from the last entry
        down. With one, the cursor is first Seek-ed: a stored start key is
        skipped, while an absent one leaves the cursor on the least key
        above it, which is emitted before the keys below. The result is
        never nil. */
    method PrevList(name: Bytes, k: Bytes, perpage: int) returns (r: Result<Listing<Bytes>>)
      requires Valid() && BucketReady(name)
      ensures r.Err? <==> !Contains(allBuckets, name)
      ensures r.Err? ==> r.error == UnknownBucketName
      ensures r.Ok? ==> r.value.Items? && Bolt.HasBucket(db, name)
      ensures r.Ok? ==>
        var es := Bolt.BucketOf(db, name).entries;
        var render := Rendering(name);
        var size := PageSize(perpage);
        var below := Render(Reverse(Below(es, k)), render);
        var stored := k in Bolt.Contents(db, name);
        && (|k| == 0 ==> r.value.elems == Take(Render(Reverse(es), render), size))
        && (|k| > 0 && stored ==> r.value.elems == Take(below, size))
        && (|k| > 0 && !stored && Above(es, k) == [] ==> r.value.elems == [])
        && (|k| > 0 && !stored && Above(es, k) != [] ==>
              r.value.elems == Take([render(Above(es, k)[0])] + below, size))
    {
      if !Contains(allBuckets, name) {
        return Err(UnknownBucketName);
      }
      var es := Bolt.BucketOf(db, name).entries;
      var render := Rendering(name);
      var items;
      if |k| > 0 {
        var start := Seek(es, k);
        items := Walk(es, start, false, Some(k), perpage, render);
        SeekFinds(es, k);
        if start == |es| {
          BackwardPastEnd(es, k, perpage, render);
        } else if es[start].key == k {
          BackwardFromStored(es, k, perpage, render);
        } else {
          BackwardFromAbsent(es, k, perpage, render);
        }
      } else {
        items := Walk(es, |es| - 1, false, None, perpage, render);
        BackwardLast(es, perpage, render);
      }
      return Ok(Items(items));
    }

    /** The file's buckets that are in bucketList, in name order; index
        buckets are not listed. */
    method BucketList() returns (r: Result<seq<Bytes>>)
      requires Valid()
      ensures r.Ok?
      ensures forall n :: n in r.value <==> n in Bolt.Buckets(db) && n in bucketList
      ensures forall i, j :: 0 <= i < j < |r.value| ==> Less(r.value[i], r.value[j])
    {
      var file := db;
      var names: seq<Bytes> := [];
      for i := 0 to |file|
        invariant names == Registered(file[..i], bucketList)
      {
        assert file[..i + 1][..i] == file[..i];
        if Contains(bucketList, file[i].key) {
          names := names + [file[i].key];
        }
      }
      assert file[..|file|] == file;
      RegisteredFacts(file, bucketList);
      return Ok(names);
    }

    method DeleteBucket(name: Bytes) returns (r: Outcome)
      requires Valid()
      modifies this
      ensures Valid()
      ensures r == if readOnly then Fail(ReadOnlyMode)
                   else if !Contains(allBuckets, name) then Fail(UnknownBucketName)
                   else if !old(Bolt.HasBucket(db, name)) then Fail(BucketNotFound)
                   else Pass
      ensures r.Fail? ==> db == old(db)
      ensures r.Pass? ==> Bolt.Buckets(db) == old(Bolt.Buckets(db)) - {name}
    {
      if readOnly {
        return Fail(ReadOnlyMode);
      }
      if !Contains(allBuckets, name) {
        return Fail(UnknownBucketName);
      }
      var deleted := Bolt.DeleteBucket(db, name);
      if deleted.Err? {
        return Fail(deleted.error);
      }
      db := deleted.value;
      r := Pass;
    }

    /** Registered names only; whether the file still has the bucket is not
        consulted. */
    predicate HasBucket(name: Bytes)
      reads this
      requires Valid()
      ensures HasBucket(name) <==> name in bucketList || name in indexList
    {
      Contains(allBuckets, name)
    }

    function BucketStats(name: Bytes): (n: int)
      reads this
      requires Valid() && BucketReady(name)
      ensures !Contains(allBuckets, name) ==> n == 0
      ensures Contains(allBuckets, name) ==> n == |Bolt.Contents(db, name)|
    {
      if !Contains(allBuckets, name) then 0 else Bolt.KeyN(db, name)
    }

    function Restore(path: Bytes, filename: Bytes): (r: Outcome)
      ensures r == Fail(NotImplemented)
    {
      Fail(NotImplemented)
    }
  }
}

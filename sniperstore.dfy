/** The dual store: values live in a flat hash store keyed by bucket name
    and key run together, while a bolt file keeps, per index bucket, the
    keys in order (each mapped to the text "0") so that they can be paged. */
module SniperStore {
  import opened ByteOrder
  import opened Errors
  import opened Utils
  import opened SortedMap
  import Bolt
  import opened Cursor

  /** fmt.Sprint(0): what the index stores for every key. */
  const Sentinel: Bytes := [48]

  /** The value-store key: the bucket name, when there is one, followed by
      the key, with no separator in between. */
  function CompositeKey(name: Bytes, k: Bytes): (r: Bytes)
    ensures |r| == |name| + |k|
    ensures r[..|name|] == name && r[|name|..] == k
  {
    if |name| > 0 then name + k else k
  }

  /** Within one bucket, different keys have different value-store keys. */
  lemma CompositeKeyInjective(name: Bytes, k: Bytes, l: Bytes)
    requires CompositeKey(name, k) == CompositeKey(name, l)
    ensures k == l
  {
    var c := CompositeKey(name, k);
    assert k == c[|name|..];
  }

  /** Across buckets the keys collide: ("post", "sx") and ("posts", "x")
      address the same value. */
  lemma CompositeKeyCollision()
    ensures CompositeKey([112, 111, 115, 116], [115, 120])
         == CompositeKey([112, 111, 115, 116, 115], [120])
  {
  }

  /** Two bucket names that are not prefixes of one another never share a
      value-store key. */
  lemma PrefixFreeNoCollision(a: Bytes, k: Bytes, b: Bytes, l: Bytes)
    requires |a| <= |b| ==> b[..|a|] != a
    requires |b| <= |a| ==> a[..|b|] != b
    ensures CompositeKey(a, k) != CompositeKey(b, l)
  {
    var c, d := CompositeKey(a, k), CompositeKey(b, l);
    if |a| <= |b| {
      assert d[..|a|] == d[..|b|][..|a|];
      assert c[..|a|] != d[..|a|];
    } else {
      assert c[..|b|] == c[..|a|][..|b|];
      assert c[..|b|] != d[..|b|];
    }
  }

  /** What List and PrevList emit for an index key: the value Get finds for
      it, or the empty string when the value store has none. */
  function Resolver(h: map<Bytes, Bytes>, name: Bytes): (r: Entry -> Bytes)
    ensures forall e: Entry :: CompositeKey(name, e.key) in h ==> r(e) == h[CompositeKey(name, e.key)]
    ensures forall e: Entry :: CompositeKey(name, e.key) !in h ==> r(e) == []
  {
    (e: Entry) => if CompositeKey(name, e.key) in h then h[CompositeKey(name, e.key)] else []
  }

  /** The index bucket `name` lists exactly the keys the value store holds
      for that bucket. */
  ghost predicate Mirrored(h: map<Bytes, Bytes>, index: map<Bytes, Bytes>, name: Bytes)
    ensures Mirrored(h, index, name) ==>
      forall k :: k in index ==>
        CompositeKey(name, k) in h && Resolver(h, name)(Pair(k, index[k])) == h[CompositeKey(name, k)]
  {
    forall k :: k in index <==> CompositeKey(name, k) in h
  }

  /** A successful Set keeps the two stores in step for its bucket. */
  lemma SetKeepsMirror(h: map<Bytes, Bytes>, index: map<Bytes, Bytes>, name: Bytes, k: Bytes, v: Bytes)
    requires Mirrored(h, index, name)
    ensures Mirrored(h[CompositeKey(name, k) := v], index[k := Sentinel], name)
  {
    forall l ensures l in index[k := Sentinel] <==> CompositeKey(name, l) in h[CompositeKey(name, k) := v] {
      if CompositeKey(name, l) == CompositeKey(name, k) {
        CompositeKeyInjective(name, l, k);
      }
    }
  }

  /** So does a successful Delete on an index bucket. */
  lemma DeleteKeepsMirror(h: map<Bytes, Bytes>, index: map<Bytes, Bytes>, name: Bytes, k: Bytes)
    requires Mirrored(h, index, name)
    ensures Mirrored(h - {CompositeKey(name, k)}, index - {k}, name)
  {
    forall l ensures l in index - {k} <==> CompositeKey(name, l) in h - {CompositeKey(name, k)} {
      if CompositeKey(name, l) == CompositeKey(name, k) {
        CompositeKeyInjective(name, l, k);
      }
    }
  }

  /** A Delete through another bucket whose composite key collides removes
      the value while the index keeps the key: the entry goes stale, and a
      page shows it as the empty string. */
  lemma CollisionLeavesStaleEntry()
    ensures var posts: Bytes := [112, 111, 115, 116, 115];
      var post: Bytes := [112, 111, 115, 116];
      var h := map[CompositeKey(posts, [120]) := [118]];
      var index := map[[120] := Sentinel];
      var after := h - {CompositeKey(post, [115, 120])};
      && Mirrored(h, index, posts)
      && !Mirrored(after, index, posts)
      && Resolver(after, posts)(Pair([120], Sentinel)) == []
  {
    var posts: Bytes := [112, 111, 115, 116, 115];
    var post: Bytes := [112, 111, 115, 116];
    var h := map[CompositeKey(posts, [120]) := [118]];
    var index := map[[120] := Sentinel];
    var after := h - {CompositeKey(post, [115, 120])};
    CompositeKeyCollision();
    forall l ensures l in index <==> CompositeKey(posts, l) in h {
      if CompositeKey(posts, l) in h {
        CompositeKeyInjective(posts, l, [120]);
      }
    }
    assert [120] in index && CompositeKey(posts, [120]) !in after;
  }

  /** The value-store keys of the keys of an index bucket. */
  ghost function CompositeKeys(name: Bytes, contents: map<Bytes, Bytes>): set<Bytes>
  {
    set k | k in contents :: CompositeKey(name, k)
  }

  /** The keys of a bucket's entries, in the order of the entries. */
  function KeysOf(es: seq<Entry>): (keys: seq<Bytes>)
    ensures |keys| == |es| && forall j :: 0 <= j < |es| ==> keys[j] == es[j].key
  {
    seq(|es|, j requires 0 <= j < |es| => es[j].key)
  }

  /** The value-store keys of `keys` in bucket `name`. */
  function Prefixed(name: Bytes, keys: seq<Bytes>): (r: seq<Bytes>)
    ensures |r| == |keys| && forall j :: 0 <= j < |keys| ==> r[j] == CompositeKey(name, keys[j])
  {
    seq(|keys|, j requires 0 <= j < |keys| => CompositeKey(name, keys[j]))
  }

  /** `m` after removing the first `n` of `keys` in turn. */
  ghost function Drop<V>(m: map<Bytes, V>, keys: seq<Bytes>, n: nat): map<Bytes, V>
    requires n <= |keys|
  {
    if n == 0 then m else Drop(m, keys, n - 1) - {keys[n - 1]}
  }

  /** Removing keys one at a time removes exactly those keys. */
  lemma {:induction false} DropAll<V>(m: map<Bytes, V>, keys: seq<Bytes>, n: nat)
    requires n <= |keys|
    ensures forall c :: c in Drop(m, keys, n) <==> c in m && c !in keys[..n]
    ensures forall c :: c in Drop(m, keys, n) ==> Drop(m, keys, n)[c] == m[c]
  {
    if n > 0 {
      DropAll(m, keys, n - 1);
      assert keys[..n] == keys[..n - 1] + [keys[n - 1]];
    }
  }

  /** The value-store keys of an index bucket's entries are the composite
      keys of its map's keys. */
  lemma PrefixedKeys(name: Bytes, es: seq<Entry>, contents: map<Bytes, Bytes>)
    requires contents == ToMap(es)
    ensures forall c :: c in Prefixed(name, KeysOf(es)) <==> c in CompositeKeys(name, contents)
  {
    var keys := KeysOf(es);
    forall c ensures c in Prefixed(name, keys) <==> c in CompositeKeys(name, contents) {
      if c in Prefixed(name, keys) {
        var j :| 0 <= j < |keys| && Prefixed(name, keys)[j] == c;
        assert es[j].key in contents;
      }
      if c in CompositeKeys(name, contents) {
        var k :| k in contents && c == CompositeKey(name, k);
        var j :| 0 <= j < |es| && es[j].key == k;
        assert Prefixed(name, keys)[j] == c;
      }
    }
  }

  /** Every key of an index bucket's map is among its entries' keys. */
  lemma KeysCover(es: seq<Entry>, contents: map<Bytes, Bytes>)
    requires contents == ToMap(es)
    ensures forall k :: k in contents ==> k in KeysOf(es)
  {
    var keys := KeysOf(es);
    forall k | k in contents ensures k in keys {
      var j :| 0 <= j < |es| && es[j].key == k;
      assert keys[j] == k;
    }
  }

  /** After the walk the bucket's values are gone from the value store. */
  lemma DroppedValues(h: map<Bytes, Bytes>, name: Bytes, es: seq<Entry>, contents: map<Bytes, Bytes>)
    requires contents == ToMap(es)
    ensures Drop(h, Prefixed(name, KeysOf(es)), |es|) == h - CompositeKeys(name, contents)
  {
    var composite := Prefixed(name, KeysOf(es));
    var gone := CompositeKeys(name, contents);
    var left := Drop(h, composite, |es|);
    DropAll(h, composite, |es|);
    assert composite[..|es|] == composite;
    PrefixedKeys(name, es, contents);
    forall c ensures c in left <==> c in h - gone {
      assert c in composite[..|es|] <==> c in gone;
    }
    MinusExact(left, h, gone);
  }

  /** After the walk the index bucket is empty. */
  lemma DroppedIndex(es: seq<Entry>, contents: map<Bytes, Bytes>)
    requires contents == ToMap(es)
    ensures Drop(contents, KeysOf(es), |es|) == map[]
  {
    var keys := KeysOf(es);
    DropAll(contents, keys, |es|);
    assert keys[..|es|] == keys;
    KeysCover(es, contents);
    assert forall c :: c !in Drop(contents, keys, |es|);
  }

  class Store {
    const bucketList: seq<Bytes>
    const indexList: seq<Bytes>
    const allBuckets: seq<Bytes>
    const readOnly: bool
    /** The hash store's contents. */
    var h: map<Bytes, Bytes>
    /** The bolt index file. */
    var index: Bolt.Db

    ghost predicate Valid()
      reads this
    {
      Bolt.Valid(index) && allBuckets == bucketList + indexList
    }

    /** The registry check of every operation but PrevList: an empty name
        passes it unchecked. */
    predicate Admitted(name: Bytes)
    {
      |name| == 0 || Contains(allBuckets, name)
    }

    /** The names the check lets through: the empty one and the registered ones. */
    lemma AdmittedNames(name: Bytes)
      requires Valid()
      ensures Admitted(name) <==> |name| == 0 || name in bucketList || name in indexList
    {
    }

    constructor Open(bucketList: seq<Bytes>, indexList: seq<Bytes>, readOnly: bool,
                     h: map<Bytes, Bytes>, index: Bolt.Db)
      requires Bolt.Valid(index)
      ensures Valid()
      ensures this.bucketList == bucketList && this.indexList == indexList
      ensures this.readOnly == readOnly && this.h == h && this.index == index
    {
      this.bucketList := bucketList;
      this.indexList := indexList;
      this.allBuckets := bucketList + indexList;
      this.readOnly := readOnly;
      this.h := h;
      this.index := index;
    }

    /** NewStore on an opened value store and index file: unless read-only,
        one transaction creates the index buckets (those of indexList only),
        and an empty name rolls it back. */
    static method NewStore(bucketList: seq<Bytes>, indexList: seq<Bytes>, h: map<Bytes, Bytes>,
                           file: Bolt.Db, readOnly: bool) returns (r: Result<Store>)
      requires Bolt.Valid(file)
      ensures r.Err? <==> !readOnly && [] in indexList
      ensures r.Err? ==> r.error == BucketNameRequired
      ensures r.Ok? ==> fresh(r.value) && r.value.Valid() && r.value.h == h
      ensures r.Ok? ==> r.value.bucketList == bucketList && r.value.indexList == indexList
      ensures r.Ok? ==> r.value.readOnly == readOnly
      ensures r.Ok? ==> (Bolt.Buckets(r.value.index) ==
        if readOnly then Bolt.Buckets(file) else Bolt.WithBuckets(Bolt.Buckets(file), indexList))
    {
      var index := file;
      if !readOnly {
        var created := Bolt.CreateBuckets(file, indexList);
        if created.Err? {
          return Err(created.error);
        }
        index := created.value;
      }
      var s := new Store.Open(bucketList, indexList, readOnly, h, index);
      return Ok(s);
    }

    /** Writes the value, then the key into the bucket's index. No key is
        ever allocated: an empty key is an error. */
    method Set(name: Bytes, k: Bytes, v: Bytes) returns (key: Bytes, r: Outcome)
      requires Valid()
      requires !readOnly && Admitted(name) && |k| > 0 && |v| > 0 ==> Bolt.HasBucket(index, name)
      modifies this
      ensures Valid()
      ensures r == if readOnly then Fail(ReadOnlyMode)
                   else if !Admitted(name) then Fail(UnknownBucketName)
                   else if |k| == 0 || |v| == 0 then Fail(KeyOrValueNotFound)
                   else Pass
      ensures r.Fail? ==> key == [] && h == old(h) && index == old(index)
      ensures r.Pass? ==> key == k && h == old(h)[CompositeKey(name, k) := v]
      ensures r.Pass? ==> Bolt.HasBucket(index, name)
      ensures r.Pass? ==> Bolt.Contents(index, name) == old(Bolt.Contents(index, name))[k := Sentinel]
      ensures r.Pass? ==> Bolt.BucketOf(index, name).sequence == old(Bolt.BucketOf(index, name).sequence)
      ensures r.Pass? ==> Bolt.Buckets(index) == old(Bolt.Buckets(index))[name := Bolt.BucketOf(index, name)]
      ensures r.Pass? ==> Get(name, k) == Ok(v)
    {
      if readOnly {
        return [], Fail(ReadOnlyMode);
      }
      if !Admitted(name) {
        return [], Fail(UnknownBucketName);
      }
      if |k| == 0 || |v| == 0 {
        return [], Fail(KeyOrValueNotFound);
      }
      h := h[CompositeKey(name, k) := v];
      index := Bolt.Put(index, name, k, Sentinel);
      return k, Pass;
    }

    /** An absent key reads as an empty value and no error. */
    function Get(name: Bytes, k: Bytes): (r: Result<Bytes>)
      reads this
      ensures r.Err? <==> !Admitted(name)
      ensures r.Err? ==> r.error == UnknownBucketName
      ensures r.Ok? && CompositeKey(name, k) in h ==> r.value == h[CompositeKey(name, k)]
      ensures r.Ok? && CompositeKey(name, k) !in h ==> r.value == []
    {
      if !Admitted(name) then Err(UnknownBucketName)
      else
        var key := CompositeKey(name, k);
        if key in h then Ok(h[key]) else Ok([])
    }

    /** What a page shows for an index key is what Get returns for it. */
    lemma ResolvesLikeGet(name: Bytes, e: Entry)
      requires Admitted(name)
      ensures Get(name, e.key) == Ok(Resolver(h, name)(e))
    {
    }

    /** A key exists when its stored value is not empty. */
    function KeyExist(name: Bytes, k: Bytes): (r: Result<bool>)
      reads this
      ensures r.Err? <==> !Admitted(name)
      ensures r.Err? ==> r.error == UnknownBucketName
      ensures r.Ok? ==> (r.value <==> CompositeKey(name, k) in h && |h[CompositeKey(name, k)]| > 0)
    {
      if !Admitted(name) then Err(UnknownBucketName)
      else
        var key := CompositeKey(name, k);
        if key !in h then Ok(false) else Ok(|h[key]| > 0)
    }

    function ValueExist(name: Bytes, v: Bytes): (r: Result<bool>)
      ensures r == Err(NotImplemented)
    {
      Err(NotImplemented)
    }

    /** Found values keyed by composite key; keys without a value are
        skipped, and once the name is admitted there is no error. */
    method MGet(name: Bytes, keys: seq<Bytes>) returns (r: Result<map<Bytes, Bytes>>)
      requires Valid()
      ensures r.Err? <==> !Admitted(name)
      ensures r.Err? ==> r.error == UnknownBucketName
      ensures r.Ok? ==> forall c :: c in r.value <==>
        c in h && exists i :: 0 <= i < |keys| && c == CompositeKey(name, keys[i])
      ensures r.Ok? ==> forall c :: c in r.value ==> r.value[c] == h[c]
    {
      if !Admitted(name) {
        return Err(UnknownBucketName);
      }
      var items: map<Bytes, Bytes> := map[];
      for i := 0 to |keys|
        invariant forall c :: c in items <==>
          c in h && exists j :: 0 <= j < i && c == CompositeKey(name, keys[j])
        invariant forall c :: c in items ==> items[c] == h[c]
      {
        var key := CompositeKey(name, keys[i]);
        if key !in h {
          continue;
        }
        items := items[key := h[key]];
      }
      return Ok(items);
    }

    /** Removes the value; the index entry goes only for index buckets. */
    method Delete(name: Bytes, k: Bytes) returns (r: Outcome)
      requires Valid()
      requires !readOnly && Admitted(name) && |k| > 0 && Contains(indexList, name) ==> Bolt.HasBucket(index, name)
      modifies this
      ensures Valid()
      ensures r == if readOnly then Fail(ReadOnlyMode)
                   else if !Admitted(name) then Fail(UnknownBucketName)
                   else if |k| == 0 then Fail(KeyNotFound)
                   else Pass
      ensures r.Fail? ==> h == old(h) && index == old(index)
      ensures r.Pass? ==> h == old(h) - {CompositeKey(name, k)}
      ensures r.Pass? && !Contains(indexList, name) ==> index == old(index)
      ensures r.Pass? && Contains(indexList, name) ==>
        && Bolt.HasBucket(index, name)
        && Bolt.Contents(index, name) == old(Bolt.Contents(index, name)) - {k}
        && Bolt.BucketOf(index, name).sequence == old(Bolt.BucketOf(index, name).sequence)
        && Bolt.Buckets(index) - {name} == old(Bolt.Buckets(index)) - {name}
      ensures r.Pass? ==> Get(name, k) == Ok([])
    {
      if readOnly {
        return Fail(ReadOnlyMode);
      }
      if !Admitted(name) {
        return Fail(UnknownBucketName);
      }
      if |k| == 0 {
        return Fail(KeyNotFound);
      }
      h := h - {CompositeKey(name, k)};
      if Contains(indexList, name) {
        ghost var before := Bolt.Buckets(index);
        index := Bolt.Delete(index, name, k);
        UpdateMinusSame(before, name, Bolt.BucketOf(index, name));
      }
      r := Pass;
    }

    /** A forward page over the index keys, each resolved through the value
        store; a key without a value gives the empty string and still takes
        its place on the page. An empty page is nil. */
    method List(name: Bytes, k: Bytes, perpage: int) returns (r: Result<Listing<Bytes>>)
      requires Valid()
      requires Admitted(name) ==> Bolt.HasBucket(index, name)
      ensures r.Err? <==> !Admitted(name)
      ensures r.Err? ==> r.error == UnknownBucketName
      ensures r.Ok? ==>
        var es := Bolt.BucketOf(index, name).entries;
        var page := Take(Render(if |k| > 0 then Above(es, k) else es, Resolver(h, name)), PageSize(perpage));
        r.value == if page == [] then Nil else Items(page)
    {
      if !Admitted(name) {
        return Err(UnknownBucketName);
      }
      var es := Bolt.BucketOf(index, name).entries;
      var render := Resolver(h, name);
      var items;
      if |k| > 0 {
        items := Walk(es, Seek(es, k), true, Some(k), perpage, render);
        ForwardFrom(es, k, perpage, render);
      } else {
        items := Walk(es, 0, true, None, perpage, render);
        ForwardFirst(es, perpage, render);
      }
      if |items| == 0 {
        return Ok(Nil);
      }
      return Ok(Items(items));
    }

    /** The backward page, with the same Seek-then-Prev walk as the bolt
        store. Unlike the other operations it rejects the empty name, and
        the result is never nil. */
    method PrevList(name: Bytes, k: Bytes, perpage: int) returns (r: Result<Listing<Bytes>>)
      requires Valid()
      requires Contains(allBuckets, name) ==> Bolt.HasBucket(index, name)
      ensures r.Err? <==> !Contains(allBuckets, name)
      ensures r.Err? ==> r.error == UnknownBucketName
      ensures r.Ok? ==> r.value.Items? && Bolt.HasBucket(index, name)
      ensures r.Ok? ==>
        var es := Bolt.BucketOf(index, name).entries;
        var render := Resolver(h, name);
        var size := PageSize(perpage);
        var below := Render(Reverse(Below(es, k)), render);
        var stored := k in Bolt.Contents(index, name);
        && (|k| == 0 ==> r.value.elems == Take(Render(Reverse(es), render), size))
        && (|k| > 0 && stored ==> r.value.elems == Take(below, size))
        && (|k| > 0 && !stored && Above(es, k) == [] ==> r.value.elems == [])
        && (|k| > 0 && !stored && Above(es, k) != [] ==>
              r.value.elems == Take([render(Above(es, k)[0])] + below, size))
    {
      if !Contains(allBuckets, name) {
        return Err(UnknownBucketName);
      }
      var es := Bolt.BucketOf(index, name).entries;
      var render := Resolver(h, name);
      var items;
      if |k| > 0 {
        var start := Seek(es, k);
        items := Walk(es, start, false, Some(k), perpage, render);
        SeekFinds(es, k);
        if start == |es| {
          BackwardPastEnd(es, k, perpage, render);
        } else if es[start].key == k {
          BackwardFromStored(es, k, perpage, render);
        } else {
          BackwardFromAbsent(es, k, perpage, render);
        }
      } else {
        items := Walk(es, |es| - 1, false, None, perpage, render);
        BackwardLast(es, perpage, render);
      }
      return Ok(Items(items));
    }

    /** Deletes, through Delete and in ascending order, every key the index
        bucket held when the walk began; stops at the first failure. The
        empty name is not implemented. */
    method DeleteBucket(name: Bytes) returns (r: Outcome)
      requires Valid()
      requires !readOnly && |name| > 0 && Contains(allBuckets, name) ==> Bolt.HasBucket(index, name)
      modifies this
      ensures Valid()
      ensures r == if readOnly then Fail(ReadOnlyMode)
                   else if !Admitted(name) then Fail(UnknownBucketName)
                   else if |name| == 0 then Fail(NotImplemented)
                   else Pass
      ensures r.Fail? ==> h == old(h) && index == old(index)
      ensures r.Pass? ==> Bolt.HasBucket(old(index), name)
      ensures r.Pass? ==>
        h == old(h) - CompositeKeys(name, old(Bolt.Contents(index, name)))
      ensures r.Pass? && !Contains(indexList, name) ==> index == old(index)
      ensures r.Pass? && Contains(indexList, name) ==>
        && Bolt.HasBucket(index, name)
        && Bolt.Contents(index, name) == map[]
        && Bolt.BucketOf(index, name).sequence == old(Bolt.BucketOf(index, name).sequence)
        && Bolt.Buckets(index) - {name} == old(Bolt.Buckets(index)) - {name}
    {
      if readOnly {
        return Fail(ReadOnlyMode);
      }
      if !Admitted(name) {
        return Fail(UnknownBucketName);
      }
      if |name| == 0 {
        return Fail(NotImplemented);
      }
      r := DeleteIndexed(name);
    }

    /** The read transaction of DeleteBucket: a cursor walk over the index
        bucket that calls Delete on every key, stopping at the first
        failure (none occurs: each call passes every check). */
    method DeleteIndexed(name: Bytes) returns (r: Outcome)
      requires Valid() && !readOnly && |name| > 0 && Contains(allBuckets, name)
      requires Bolt.HasBucket(index, name)
      modifies this
      ensures Valid() && r == Pass
      ensures h == old(h) - CompositeKeys(name, old(Bolt.Contents(index, name)))
      ensures !Contains(indexList, name) ==> index == old(index)
      ensures Contains(indexList, name) ==>
        && Bolt.HasBucket(index, name)
        && Bolt.Contents(index, name) == map[]
        && Bolt.BucketOf(index, name).sequence == old(Bolt.BucketOf(index, name).sequence)
        && Bolt.Buckets(index) - {name} == old(Bolt.Buckets(index)) - {name}
    {
      var es := Bolt.BucketOf(index, name).entries;
      var keys := KeysOf(es);
      ghost var composite := Prefixed(name, keys);
      ghost var contents := Bolt.Contents(index, name);
      ghost var h0 := h;
      ghost var buckets0 := Bolt.Buckets(index);
      ghost var sequence0 := Bolt.BucketOf(index, name).sequence;
      r := Pass;
      var i := 0;
      while i < |es| && r == Pass
        invariant 0 <= i <= |es| && r == Pass && Valid()
        invariant forall j :: 0 <= j < |keys| ==> |keys[j]| > 0
        invariant h == Drop(h0, composite, i)
        invariant !Contains(indexList, name) ==> index == old(index)
        invariant Contains(indexList, name) ==>
          && Bolt.HasBucket(index, name)
          && Bolt.Contents(index, name) == Drop(contents, keys, i)
          && Bolt.BucketOf(index, name).sequence == sequence0
          && Bolt.Buckets(index) - {name} == buckets0 - {name}
      {
        r := Delete(name, keys[i]);
        assert r == Pass;
        assert composite[i] == CompositeKey(name, keys[i]);
        i := i + 1;
      }
      DroppedValues(h0, name, es, contents);
      DroppedIndex(es, contents);
    }

    /** Registered names only, and never the empty one. */
    predicate HasBucket(name: Bytes)
      reads this
      requires Valid()
      ensures HasBucket(name) <==> |name| > 0 && (name in bucketList || name in indexList)
    {
      |name| > 0 && Contains(allBuckets, name)
    }

    /** The number of keys in the index bucket. */
    function BucketStats(name: Bytes): (n: int)
      reads this
      requires Valid()
      requires Admitted(name) ==> Bolt.HasBucket(index, name)
      ensures !Admitted(name) ==> n == 0
      ensures Admitted(name) ==> n == |Bolt.Contents(index, name)|
    {
      if !Admitted(name) then 0 else Bolt.KeyN(index, name)
    }
  }
}

/** The ordered engine's B+tree, seen from outside: a sequence of entries
    whose keys strictly increase in bytes.Compare order. A bucket is one
    such sequence, and so is the set of buckets of a database file. The
    cursor of the engine is an index into the sequence. */
module SortedMap {
  import opened ByteOrder
  import opened Errors

  datatype Pair<V> = Pair(key: Bytes, value: V)

  ghost predicate Sorted<V>(s: seq<Pair<V>>)
  {
    forall i, j :: 0 <= i < j < |s| ==> Less(s[i].key, s[j].key)
  }

  /** Every key of `s` sorts after `key`. */
  ghost predicate AllAbove<V>(key: Bytes, s: seq<Pair<V>>)
  {
    forall i :: 0 <= i < |s| ==> Less(key, s[i].key)
  }

  /** The map an entry sequence stands for (the first entry of a key wins). */
  ghost function ToMap<V>(s: seq<Pair<V>>): (m: map<Bytes, V>)
    ensures forall k :: k in m <==> exists i :: 0 <= i < |s| && s[i].key == k
  {
    if s == [] then map[]
    else
      var m := ToMap(s[1..])[s[0].key := s[0].value];
      assert forall k :: k in m ==> exists i :: 0 <= i < |s| && s[i].key == k by {
        forall k | k in m ensures exists i :: 0 <= i < |s| && s[i].key == k {
          if k != s[0].key {
            var i :| 0 <= i < |s[1..]| && s[1..][i].key == k;
            assert s[i + 1].key == k;
          }
        }
      }
      assert forall k :: (exists i :: 0 <= i < |s| && s[i].key == k) ==> k in m by {
        forall k | exists i :: 0 <= i < |s| && s[i].key == k ensures k in m {
          var i :| 0 <= i < |s| && s[i].key == k;
          if i > 0 {
            assert s[1..][i - 1].key == k;
          }
        }
      }
      m
  }

  lemma SortedCons<V>(p: Pair<V>, s: seq<Pair<V>>)
    requires Sorted(s) && AllAbove(p.key, s)
    ensures Sorted([p] + s)
  {
  }

  lemma SortedHead<V>(s: seq<Pair<V>>)
    requires Sorted(s) && |s| > 0
    ensures Sorted(s[1..]) && AllAbove(s[0].key, s[1..])
    ensures s[0].key !in ToMap(s[1..])
  {
    if s[0].key in ToMap(s[1..]) {
      var i :| 0 <= i < |s[1..]| && s[1..][i].key == s[0].key;
      assert Less(s[0].key, s[i + 1].key);
      LessIrreflexive(s[0].key);
    }
  }

  /** A key sorting below the head of a sorted sequence sorts below all of it. */
  lemma BelowHead<V>(key: Bytes, s: seq<Pair<V>>)
    requires Sorted(s) && |s| > 0 && Less(key, s[0].key)
    ensures AllAbove(key, s)
  {
    forall i | 0 < i < |s| ensures Less(key, s[i].key) {
      LessTransitive(key, s[0].key, s[i].key);
    }
  }

  /** Every key of the map of a sequence sorts after `key` if all entries do. */
  lemma AllAboveMap<V>(key: Bytes, s: seq<Pair<V>>, t: seq<Pair<V>>)
    requires AllAbove(key, s)
    requires forall k :: k in ToMap(t) ==> k in ToMap(s)
    ensures AllAbove(key, t)
  {
    forall i | 0 <= i < |t| ensures Less(key, t[i].key) {
      assert t[i].key in ToMap(t);
      var j :| 0 <= j < |s| && s[j].key == t[i].key;
    }
  }

  lemma AllAboveUpdate<V>(key: Bytes, s: seq<Pair<V>>, k: Bytes, v: V, t: seq<Pair<V>>)
    requires AllAbove(key, s) && Less(key, k)
    requires ToMap(t) == ToMap(s)[k := v]
    ensures AllAbove(key, t)
  {
    forall i | 0 <= i < |t| ensures Less(key, t[i].key) {
      assert t[i].key in ToMap(t);
      if t[i].key != k {
        var j :| 0 <= j < |s| && s[j].key == t[i].key;
      }
    }
  }

  /** The keys of the map of `init` followed by `last`: those of `init`,
      and the last entry's. */
  lemma KeysOfSnoc<V>(init: seq<Pair<V>>, last: Pair<V>)
    ensures forall k :: k in ToMap(init + [last]) <==> k in ToMap(init) || k == last.key
  {
    var s := init + [last];
    assert s[|init|] == last;
    forall k ensures k in ToMap(s) <==> k in ToMap(init) || k == last.key {
      if k in ToMap(s) && k != last.key {
        var j :| 0 <= j < |s| && s[j].key == k;
        assert init[j] == s[j];
      }
      if k in ToMap(init) {
        var j :| 0 <= j < |init| && init[j].key == k;
        assert s[j] == init[j];
      }
    }
  }

  /** If `init` followed by `last` is sorted, so is `init`, and every key of
      its map sorts below the last key. */
  lemma BelowLast<V>(init: seq<Pair<V>>, last: Pair<V>)
    requires Sorted(init + [last])
    ensures Sorted(init)
    ensures forall k :: k in ToMap(init) ==> Less(k, last.key)
  {
    var s := init + [last];
    forall i, j | 0 <= i < j < |init| ensures Less(init[i].key, init[j].key) {
      assert s[i] == init[i] && s[j] == init[j];
    }
    forall k | k in ToMap(init) ensures Less(k, last.key) {
      var j :| 0 <= j < |init| && init[j].key == k;
      assert s[j] == init[j] && s[|init|] == last;
    }
  }

  /** Lookup by key: a linear walk, standing for the engine's tree search. */
  function Find<V>(s: seq<Pair<V>>, k: Bytes): (r: Option<V>)
    ensures r.Some? <==> k in ToMap(s)
    ensures r.Some? ==> ToMap(s)[k] == r.value
    ensures r.Some? ==> exists i :: 0 <= i < |s| && s[i] == Pair(k, r.value)
  {
    if s == [] then None
    else if s[0].key == k then Some(s[0].value)
    else Find(s[1..], k)
  }

  /** Insert or overwrite the entry for `k`, keeping the key order. */
  function Put<V>(s: seq<Pair<V>>, k: Bytes, v: V): (r: seq<Pair<V>>)
    requires Sorted(s)
    ensures Sorted(r)
    ensures ToMap(r) == ToMap(s)[k := v]
  {
    if s == [] then
      [Pair(k, v)]
    else if Less(k, s[0].key) then
      PutFront(s, Pair(k, v));
      [Pair(k, v)] + s
    else if s[0].key == k then
      PutOver(s, v);
      [Pair(k, v)] + s[1..]
    else
      LessTotal(k, s[0].key);
      var rest := Put(s[1..], k, v);
      PutBehind(s, k, v, rest);
      [s[0]] + rest
  }

  /** A key below the head goes in front. */
  lemma PutFront<V>(s: seq<Pair<V>>, p: Pair<V>)
    requires Sorted(s) && |s| > 0 && Less(p.key, s[0].key)
    ensures Sorted([p] + s)
    ensures ToMap([p] + s) == ToMap(s)[p.key := p.value]
  {
    BelowHead(p.key, s);
    SortedCons(p, s);
    assert ([p] + s)[1..] == s;
  }

  /** The head's key takes the new value in place. */
  lemma PutOver<V>(s: seq<Pair<V>>, v: V)
    requires Sorted(s) && |s| > 0
    ensures Sorted([Pair(s[0].key, v)] + s[1..])
    ensures ToMap([Pair(s[0].key, v)] + s[1..]) == ToMap(s)[s[0].key := v]
  {
    var p := Pair(s[0].key, v);
    SortedHead(s);
    SortedCons(p, s[1..]);
    assert ([p] + s[1..])[1..] == s[1..];
    UpdateUpdate(ToMap(s[1..]), s[0].key, s[0].value, v);
  }

  /** A key above the head goes into the rest, behind the head. */
  lemma PutBehind<V>(s: seq<Pair<V>>, k: Bytes, v: V, rest: seq<Pair<V>>)
    requires Sorted(s) && |s| > 0 && Less(s[0].key, k)
    requires Sorted(rest) && ToMap(rest) == ToMap(s[1..])[k := v]
    ensures Sorted([s[0]] + rest)
    ensures ToMap([s[0]] + rest) == ToMap(s)[k := v]
  {
    SortedHead(s);
    AllAboveUpdate(s[0].key, s[1..], k, v, rest);
    SortedCons(s[0], rest);
    assert ([s[0]] + rest)[1..] == rest;
    LessIrreflexive(k);
    UpdateSwap(ToMap(s[1..]), k, v, s[0].key, s[0].value);
  }

  lemma MinusUpdated<V>(m: map<Bytes, V>, k: Bytes, x: V)
    requires k !in m
    ensures m[k := x] - {k} == m
  {
  }

  lemma UpdateUpdate<V>(m: map<Bytes, V>, k: Bytes, a: V, b: V)
    ensures m[k := a][k := b] == m[k := b]
  {
  }

  /** A map is `m` without `gone` once its keys and values say so. */
  lemma MinusExact<V>(left: map<Bytes, V>, m: map<Bytes, V>, gone: set<Bytes>)
    requires forall c :: c in left <==> c in m && c !in gone
    requires forall c :: c in left ==> left[c] == m[c]
    ensures left == m - gone
  {
  }

  lemma UpdateSwap<V>(m: map<Bytes, V>, a: Bytes, x: V, b: Bytes, y: V)
    requires a != b
    ensures m[a := x][b := y] == m[b := y][a := x]
  {
  }

  lemma UpdateMinusSame<V>(m: map<Bytes, V>, k: Bytes, x: V)
    ensures m[k := x] - {k} == m - {k}
  {
  }

  lemma UpdateMinus<V>(m: map<Bytes, V>, a: Bytes, x: V, k: Bytes)
    requires a != k
    ensures (m - {k})[a := x] == m[a := x] - {k}
  {
  }

  /** Remove the entry for `k`, if any, keeping the key order. */
  function Remove<V>(s: seq<Pair<V>>, k: Bytes): (r: seq<Pair<V>>)
    requires Sorted(s)
    ensures Sorted(r)
    ensures ToMap(r) == ToMap(s) - {k}
  {
    if s == [] then []
    else if s[0].key == k then
      SortedHead(s);
      MinusUpdated(ToMap(s[1..]), k, s[0].value);
      s[1..]
    else
      SortedHead(s);
      var rest := Remove(s[1..], k);
      AllAboveMap(s[0].key, s[1..], rest);
      SortedCons(s[0], rest);
      assert ([s[0]] + rest)[1..] == rest;
      UpdateMinus(ToMap(s[1..]), s[0].key, s[0].value, k);
      [s[0]] + rest
  }

  /** The cursor's Seek: the position of the first key that is not below `k`,
      or |s| when every key is below it. */
  function Seek<V>(s: seq<Pair<V>>, k: Bytes): (i: nat)
    requires Sorted(s)
    ensures i <= |s|
    ensures forall j :: 0 <= j < i ==> Less(s[j].key, k)
    ensures forall j :: i <= j < |s| ==> !Less(s[j].key, k)
  {
    if s == [] then 0
    else if !Less(s[0].key, k) then
      assert forall j :: 0 < j < |s| ==> !Less(s[j].key, k) by {
        forall j | 0 < j < |s| && Less(s[j].key, k) ensures false {
          LessTransitive(s[0].key, s[j].key, k);
        }
      }
      0
    else
      SortedHead(s);
      1 + Seek(s[1..], k)
  }

  /** In a sorted sequence every entry is the map's value for its key. */
  lemma {:induction false} ToMapAt<V>(s: seq<Pair<V>>, i: nat)
    requires Sorted(s) && i < |s|
    ensures s[i].key in ToMap(s) && ToMap(s)[s[i].key] == s[i].value
  {
    SortedHead(s);
    if i > 0 {
      ToMapAt(s[1..], i - 1);
      LessIrreflexive(s[0].key);
      assert s[i].key != s[0].key;
    }
  }

  /** A sorted sequence has one entry per key of its map. */
  lemma {:induction false} CountIsSize<V>(s: seq<Pair<V>>)
    requires Sorted(s)
    ensures |ToMap(s)| == |s|
  {
    if s != [] {
      SortedHead(s);
      CountIsSize(s[1..]);
    }
  }

  /** Seek(k) stops on k itself exactly when k is stored. */
  lemma SeekFinds<V>(s: seq<Pair<V>>, k: Bytes)
    requires Sorted(s)
    ensures k in ToMap(s) <==> Seek(s, k) < |s| && s[Seek(s, k)].key == k
  {
    var i := Seek(s, k);
    if i < |s| && s[i].key == k {
      ToMapAt(s, i);
    }
    if k in ToMap(s) {
      var j :| 0 <= j < |s| && s[j].key == k;
      SeekAt(s, k, j);
    }
  }

  /** An entry with key k sits where Seek(k) stops. */
  lemma SeekAt<V>(s: seq<Pair<V>>, k: Bytes, j: nat)
    requires Sorted(s) && j < |s| && s[j].key == k
    ensures Seek(s, k) == j
  {
    var i := Seek(s, k);
    assert !(j < i) by {
      LessIrreflexive(k);
    }
    assert forall m :: 0 <= m < j ==> Less(s[m].key, k);
    assert !Less(s[i].key, k);
  }

  /** A value is stored under some key exactly when some entry carries it. */
  lemma HasValue<V>(s: seq<Pair<V>>, v: V)
    requires Sorted(s)
    ensures (exists i :: 0 <= i < |s| && s[i].value == v) <==> v in ToMap(s).Values
  {
    if exists i :: 0 <= i < |s| && s[i].value == v {
      var i :| 0 <= i < |s| && s[i].value == v;
      ToMapAt(s, i);
    }
    if v in ToMap(s).Values {
      var k :| k in ToMap(s) && ToMap(s)[k] == v;
      var i :| 0 <= i < |s| && s[i].key == k;
      ToMapAt(s, i);
    }
  }
}

/** The cursor pagination loop that both stores run, in List and PrevList,
    once with a start key and once without: position the cursor, step one
    entry at a time, leave out the start key's own entry, and stop after
    max(perpage, 1) items or when the cursor runs off the end. */
module Cursor {
  import opened ByteOrder
  import opened Errors
  import opened SortedMap

  type Entry = Pair<Bytes>

  /** The entries a cursor standing at position `i` passes when it steps
      forward (Next) or backward (Prev) until it runs off an end. A position
      outside the sequence is the engine's nil key: nothing is visited. */
  function Visit(es: seq<Entry>, i: int, forward: bool): (v: seq<Entry>)
    ensures |v| == if !(0 <= i < |es|) then 0 else if forward then |es| - i else i + 1
    decreases if forward then |es| - i else i + 1
  {
    if !(0 <= i < |es|) then []
    else [es[i]] + Visit(es, if forward then i + 1 else i - 1, forward)
  }

  /** What the loop appends for the visited entries, in order: each entry
      rendered, except an entry whose key is the start key. */
  function Emit(v: seq<Entry>, skip: Option<Bytes>, render: Entry -> Bytes): seq<Bytes>
  {
    if v == [] then []
    else
      var last := v[|v| - 1];
      Emit(v[..|v| - 1], skip, render) + (if skip == Some(last.key) then [] else [render(last)])
  }

  /** The loop stops once `counter >= perpage` after an append, with
      counter starting at 1: at most max(perpage, 1) items. */
  function PageSize(perpage: int): (n: nat)
    ensures n >= 1 && n >= perpage
  {
    if perpage < 1 then 1 else perpage
  }

  function Take<T>(xs: seq<T>, n: nat): (r: seq<T>)
    ensures |r| == if |xs| < n then |xs| else n
    ensures r == xs[..|r|]
  {
    if |xs| < n then xs else xs[..n]
  }

  /** Each entry rendered, in order. */
  function Render(v: seq<Entry>, render: Entry -> Bytes): (r: seq<Bytes>)
    ensures |r| == |v| && forall i :: 0 <= i < |v| ==> r[i] == render(v[i])
  {
    seq(|v|, i requires 0 <= i < |v| => render(v[i]))
  }

  function Page(v: seq<Entry>, skip: Option<Bytes>, perpage: int, render: Entry -> Bytes): seq<Bytes>
  {
    Take(Emit(v, skip, render), PageSize(perpage))
  }

  /** The loop itself. `start` is where First, Last or Seek left the cursor;
      a start outside `es` is the nil key and ends the loop at once. */
  method Walk(es: seq<Entry>, start: int, forward: bool, skip: Option<Bytes>,
              perpage: int, render: Entry -> Bytes) returns (items: seq<Bytes>)
    ensures items == Page(Visit(es, start, forward), skip, perpage, render)
  {
    ghost var v := Visit(es, start, forward);
    ghost var n := 0;
    var counter := 1;
    items := [];
    var i := start;
    while 0 <= i < |es|
      invariant 0 <= n <= |v|
      invariant i == if forward then start + n else start - n
      invariant (0 <= i < |es|) <==> n < |v|
      invariant items == Emit(v[..n], skip, render)
      invariant |items| == counter - 1 < PageSize(perpage)
      decreases if forward then |es| - i else i + 1
    {
      VisitAt(es, start, forward, n);
      assert v[..n + 1][..n] == v[..n];
      n := n + 1;
      if skip == Some(es[i].key) {
        i := if forward then i + 1 else i - 1;
        continue;
      }
      items := items + [render(es[i])];
      if counter >= perpage {
        break;
      }
      counter := counter + 1;
      i := if forward then i + 1 else i - 1;
    }
    PageOfPrefix(v, n, skip, perpage, render);
  }

  /** The n-th visited entry is `n` steps from the start. */
  lemma {:induction false} VisitAt(es: seq<Entry>, i: int, forward: bool, n: nat)
    requires n < |Visit(es, i, forward)|
    ensures Visit(es, i, forward)[n] == es[if forward then i + n else i - n]
    decreases n
  {
    if n > 0 {
      VisitAt(es, if forward then i + 1 else i - 1, forward, n - 1);
    }
  }

  lemma {:induction false} EmitSplit(a: seq<Entry>, b: seq<Entry>, skip: Option<Bytes>, render: Entry -> Bytes)
    ensures Emit(a + b, skip, render) == Emit(a, skip, render) + Emit(b, skip, render)
  {
    if b != [] {
      var init := b[..|b| - 1];
      assert (a + b)[..|a + b| - 1] == a + init;
      EmitSplit(a, init, skip, render);
    } else {
      assert a + b == a;
    }
  }

  /** Once the visited prefix fills a page, or is everything, it is the page. */
  lemma PageOfPrefix(v: seq<Entry>, n: nat, skip: Option<Bytes>, perpage: int, render: Entry -> Bytes)
    requires n <= |v|
    requires |Emit(v[..n], skip, render)| <= PageSize(perpage)
    requires n == |v| || |Emit(v[..n], skip, render)| == PageSize(perpage)
    ensures Page(v, skip, perpage, render) == Emit(v[..n], skip, render)
  {
    assert v == v[..n] + v[n..];
    EmitSplit(v[..n], v[n..], skip, render);
    if n == |v| {
      assert v[n..] == [];
    }
  }

  /** A page holds at most max(perpage, 1) items, and fewer only when the
      cursor ran out of entries. */
  lemma PageBound(v: seq<Entry>, skip: Option<Bytes>, perpage: int, render: Entry -> Bytes)
    ensures |Page(v, skip, perpage, render)| <= PageSize(perpage)
    ensures |Page(v, skip, perpage, render)| < PageSize(perpage) ==>
      Page(v, skip, perpage, render) == Emit(v, skip, render)
  {
  }

  /** Without a start key nothing is skipped. */
  lemma {:induction false} EmitAll(v: seq<Entry>, render: Entry -> Bytes)
    ensures Emit(v, None, render) == Render(v, render)
  {
    if v != [] {
      EmitAll(v[..|v| - 1], render);
    }
  }

  /** A start key that no visited entry has skips nothing either. */
  lemma {:induction false} EmitAbsent(v: seq<Entry>, k: Bytes, render: Entry -> Bytes)
    requires forall i :: 0 <= i < |v| ==> v[i].key != k
    ensures Emit(v, Some(k), render) == Render(v, render)
  {
    if v != [] {
      EmitAbsent(v[..|v| - 1], k, render);
    }
  }

  /** The entries whose key sorts strictly after `k`, in order. */
  function Above(s: seq<Entry>, k: Bytes): seq<Entry>
  {
    if s == [] then []
    else
      var last := s[|s| - 1];
      Above(s[..|s| - 1], k) + (if Less(k, last.key) then [last] else [])
  }

  /** The entries whose key sorts strictly before `k`, in order. */
  function Below(s: seq<Entry>, k: Bytes): seq<Entry>
  {
    if s == [] then []
    else
      var last := s[|s| - 1];
      Below(s[..|s| - 1], k) + (if Less(last.key, k) then [last] else [])
  }

  function Reverse<T>(s: seq<T>): (r: seq<T>)
    ensures |r| == |s| && forall i :: 0 <= i < |s| ==> r[i] == s[|s| - 1 - i]
  {
    if s == [] then [] else [s[|s| - 1]] + Reverse(s[..|s| - 1])
  }

  /** Stepping forward from `i` visits the entries from `i` on. */
  lemma {:induction false} VisitForward(es: seq<Entry>, i: nat)
    requires i <= |es|
    ensures Visit(es, i, true) == es[i..]
    decreases |es| - i
  {
    if i < |es| {
      VisitForward(es, i + 1);
      assert es[i..] == [es[i]] + es[i + 1..];
    }
  }

  /** Stepping backward from `i` visits the entries up to `i`, reversed. */
  lemma {:induction false} VisitBackward(es: seq<Entry>, i: int)
    requires -1 <= i < |es|
    ensures Visit(es, i, false) == Reverse(es[..i + 1])
    decreases i + 1
  {
    if 0 <= i {
      VisitBackward(es, i - 1);
      assert es[..i + 1][..i] == es[..i];
    }
  }

  /** Skipping the start key on entries no lower than it keeps exactly the
      entries above it. */
  lemma {:induction false} EmitFromSeek(v: seq<Entry>, k: Bytes, render: Entry -> Bytes)
    requires forall i :: 0 <= i < |v| ==> !Less(v[i].key, k)
    ensures Emit(v, Some(k), render) == Render(Above(v, k), render)
  {
    if v != [] {
      var last := v[|v| - 1];
      EmitFromSeek(v[..|v| - 1], k, render);
      LessTotal(k, last.key);
      if last.key == k {
        LessIrreflexive(k);
      }
    }
  }

  lemma {:induction false} AboveSplit(a: seq<Entry>, b: seq<Entry>, k: Bytes)
    ensures Above(a + b, k) == Above(a, k) + Above(b, k)
  {
    if b != [] {
      assert (a + b)[..|a + b| - 1] == a + b[..|b| - 1];
      AboveSplit(a, b[..|b| - 1], k);
    } else {
      assert a + b == a;
    }
  }

  lemma {:induction false} BelowSplit(a: seq<Entry>, b: seq<Entry>, k: Bytes)
    ensures Below(a + b, k) == Below(a, k) + Below(b, k)
  {
    if b != [] {
      assert (a + b)[..|a + b| - 1] == a + b[..|b| - 1];
      BelowSplit(a, b[..|b| - 1], k);
    } else {
      assert a + b == a;
    }
  }

  /** A filter that keeps every entry (or none) is the identity (or empty). */
  lemma {:induction false} BelowAll(s: seq<Entry>, k: Bytes)
    requires forall i :: 0 <= i < |s| ==> Less(s[i].key, k)
    ensures Below(s, k) == s
  {
    if s != [] {
      BelowAll(s[..|s| - 1], k);
    }
  }

  lemma {:induction false} BelowNone(s: seq<Entry>, k: Bytes)
    requires forall i :: 0 <= i < |s| ==> !Less(s[i].key, k)
    ensures Below(s, k) == []
  {
    if s != [] {
      BelowNone(s[..|s| - 1], k);
    }
  }

  lemma {:induction false} AboveNone(s: seq<Entry>, k: Bytes)
    requires forall i :: 0 <= i < |s| ==> Less(s[i].key, k)
    ensures Above(s, k) == []
  {
    if s != [] {
      AboveNone(s[..|s| - 1], k);
      LessAsymmetric(s[|s| - 1].key, k);
    }
  }

  /** In key order, the entries below `k` are those before Seek(k). */
  lemma BelowIsPrefix(es: seq<Entry>, k: Bytes)
    requires Sorted(es)
    ensures Below(es, k) == es[..Seek(es, k)]
  {
    var s := Seek(es, k);
    assert es == es[..s] + es[s..];
    BelowSplit(es[..s], es[s..], k);
    BelowAll(es[..s], k);
    BelowNone(es[s..], k);
  }

  /** In key order, the entries above `k` are among those from Seek(k) on. */
  lemma AboveIsSuffix(es: seq<Entry>, k: Bytes)
    requires Sorted(es)
    ensures Above(es, k) == Above(es[Seek(es, k)..], k)
  {
    var s := Seek(es, k);
    assert es == es[..s] + es[s..];
    AboveSplit(es[..s], es[s..], k);
    AboveNone(es[..s], k);
  }

  /** From Seek(k) on, no key sorts below k. */
  lemma FromSeek(es: seq<Entry>, k: Bytes)
    requires Sorted(es)
    ensures var tail := es[Seek(es, k)..];
      forall i :: 0 <= i < |tail| ==> !Less(tail[i].key, k)
  {
    var s := Seek(es, k);
    var tail := es[s..];
    forall i | 0 <= i < |tail| ensures !Less(tail[i].key, k) {
      assert tail[i] == es[s + i];
    }
  }

  /** List with a start key k (forward, exclusive start): the page is the
      first max(perpage, 1) entries whose key is strictly greater than k. */
  lemma ForwardFrom(es: seq<Entry>, k: Bytes, perpage: int, render: Entry -> Bytes)
    requires Sorted(es)
    ensures Page(Visit(es, Seek(es, k), true), Some(k), perpage, render)
         == Take(Render(Above(es, k), render), PageSize(perpage))
  {
    var s := Seek(es, k);
    VisitForward(es, s);
    FromSeek(es, k);
    EmitFromSeek(es[s..], k, render);
    AboveIsSuffix(es, k);
  }

  /** List without a start key: the first max(perpage, 1) entries. */
  lemma ForwardFirst(es: seq<Entry>, perpage: int, render: Entry -> Bytes)
    ensures Page(Visit(es, 0, true), None, perpage, render)
         == Take(Render(es, render), PageSize(perpage))
  {
    VisitForward(es, 0);
    EmitAll(es, render);
  }

  /** PrevList without a start key: from the last entry toward the first. */
  lemma BackwardLast(es: seq<Entry>, perpage: int, render: Entry -> Bytes)
    ensures Page(Visit(es, |es| - 1, false), None, perpage, render)
         == Take(Render(Reverse(es), render), PageSize(perpage))
  {
    VisitBackward(es, |es| - 1);
    assert es[..|es|] == es;
    EmitAll(Reverse(es), render);
  }

  /** Stepping back from `s` when no entry before `s` has the start key k:
      the entry at `s` (emitted unless its key is k), then the earlier
      entries, last first. */
  lemma BackwardEmit(es: seq<Entry>, s: nat, k: Bytes, render: Entry -> Bytes)
    requires s < |es|
    requires forall j :: 0 <= j < s ==> es[j].key != k
    ensures Emit(Visit(es, s, false), Some(k), render)
         == (if es[s].key == k then [] else [render(es[s])]) + Render(Reverse(es[..s]), render)
  {
    var rest := Reverse(es[..s]);
    var head := if es[s].key == k then [] else [render(es[s])];
    assert Visit(es, s, false) == [es[s]] + rest by {
      VisitBackward(es, s);
      assert es[..s + 1][..s] == es[..s];
    }
    assert Emit([es[s]] + rest, Some(k), render) == head + Emit(rest, Some(k), render) by {
      EmitSplit([es[s]], rest, Some(k), render);
      EmitOne(es[s], Some(k), render);
    }
    assert Emit(rest, Some(k), render) == Render(rest, render) by {
      forall i | 0 <= i < |rest| ensures rest[i].key != k {
        assert rest[i] == es[s - 1 - i];
      }
      EmitAbsent(rest, k, render);
    }
  }

  lemma EmitOne(e: Entry, skip: Option<Bytes>, render: Entry -> Bytes)
    ensures Emit([e], skip, render) == if skip == Some(e.key) then [] else [render(e)]
  {
    assert [e][..0] == [];
  }

  /** No entry before Seek(k) has the key k. */
  lemma KeysBelowSeek(es: seq<Entry>, k: Bytes)
    requires Sorted(es)
    ensures forall j :: 0 <= j < Seek(es, k) ==> es[j].key != k
  {
    LessIrreflexive(k);
  }

  /** PrevList with a start key k that is stored: the entries below k,
      highest first. */
  lemma BackwardFromStored(es: seq<Entry>, k: Bytes, perpage: int, render: Entry -> Bytes)
    requires Sorted(es) && Seek(es, k) < |es| && es[Seek(es, k)].key == k
    ensures Page(Visit(es, Seek(es, k), false), Some(k), perpage, render)
         == Take(Render(Reverse(Below(es, k)), render), PageSize(perpage))
  {
    KeysBelowSeek(es, k);
    BackwardEmit(es, Seek(es, k), k, render);
    BelowIsPrefix(es, k);
  }

  /** PrevList with a start key k that is not stored while some key is above
      it: Seek has moved the cursor to the least key above k, and that entry
      leads the page before the entries below k. */
  lemma BackwardFromAbsent(es: seq<Entry>, k: Bytes, perpage: int, render: Entry -> Bytes)
    requires Sorted(es) && Seek(es, k) < |es| && es[Seek(es, k)].key != k
    ensures var s := Seek(es, k);
      && Above(es, k) != [] && Above(es, k)[0] == es[s]
      && Page(Visit(es, s, false), Some(k), perpage, render)
           == Take([render(es[s])] + Render(Reverse(Below(es, k)), render), PageSize(perpage))
  {
    var s := Seek(es, k);
    KeysBelowSeek(es, k);
    BackwardEmit(es, s, k, render);
    BelowIsPrefix(es, k);
    LessTotal(k, es[s].key);
    AboveIsSuffix(es, k);
    assert es[s..] == [es[s]] + es[s + 1..];
    AboveSplit([es[s]], es[s + 1..], k);
    assert Above([es[s]], k) == Above([], k) + [es[s]];
  }

  /** PrevList with a start key above every stored key: Seek finds nothing
      and the page is empty. */
  lemma BackwardPastEnd(es: seq<Entry>, k: Bytes, perpage: int, render: Entry -> Bytes)
    requires Sorted(es) && Seek(es, k) == |es|
    ensures Above(es, k) == []
    ensures Page(Visit(es, Seek(es, k), false), Some(k), perpage, render) == []
  {
    AboveIsSuffix(es, k);
  }
}

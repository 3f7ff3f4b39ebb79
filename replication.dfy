/**
 * The engine steps the product is built from, as functions on lists of
 * rows: an `XSAVE` inside `LOOP i = 1 TO n` run over a dataset
 * (ReplicateEach, ReplicateTagged), `SORT CASES BY tag` (SortByTag) and
 * `MATCH FILES` without a key (MergeByPosition); and the reference
 * definition of the cartesian product they are meant to produce.
 */
module Replication {

  /** A row written to the tagged file: the loop index, then the kept values. */
  datatype Tagged<V> = Tagged(tag: nat, row: seq<V>)

  // ---------------------------------------------------------------------------
  // Arithmetic of block positions

  /** Position j of block i, when every block has m rows. */
  function Pos(i: nat, j: nat, m: nat): nat { i * m + j }

  lemma DivModFundamental(k: nat, m: nat)
    requires m > 0
    ensures k == Pos(k / m, k % m, m) && k % m < m
  {
  }

  lemma {:induction false} MulMono(a: nat, b: nat, m: nat)
    requires a <= b
    ensures a * m <= b * m
  {
    if a < b {
      MulMono(a, b - 1, m);
      assert (b - 1) * m + m == b * m;
    }
  }

  lemma MulSucc(n: nat, m: nat)
    ensures (n + 1) * m == n * m + m
  {
  }

  /** Block i, offset j is the only way to write position i·m + j. */
  lemma DivModPos(i: nat, j: nat, m: nat)
    requires j < m
    ensures Pos(i, j, m) / m == i && Pos(i, j, m) % m == j
  {
    var x := Pos(i, j, m);
    DivModFundamental(x, m);
    if x / m > i {
      MulMono(i + 1, x / m, m);
    } else if x / m < i {
      MulMono(x / m + 1, i, m);
    }
  }

  lemma PosBound(i: nat, j: nat, n: nat, m: nat)
    requires i < n && j < m
    ensures Pos(i, j, m) < n * m
  {
    MulMono(i + 1, n, m);
    MulSucc(i, m);
  }

  lemma DivBound(k: nat, n: nat, m: nat)
    requires k < n * m
    ensures m > 0 && k / m < n
  {
    if m > 0 {
      DivModFundamental(k, m);
      if k / m >= n { MulMono(n, k / m, m); }
    }
  }

  /** Appending a block of m rows to n blocks: block n is the new one, the others are unchanged. */
  lemma BlockAppend<T>(q: seq<T>, p: seq<T>, n: nat, m: nat, i: nat, j: nat)
    requires |q| == n * m && |p| == m && i <= n && j < m
    ensures Pos(i, j, m) < |q + p|
    ensures i < n ==> Pos(i, j, m) < |q|
    ensures (q + p)[Pos(i, j, m)] == if i < n then q[Pos(i, j, m)] else p[j]
  {
    MulSucc(n, m);
    PosBound(i, j, n + 1, m);
    if i < n {
      PosBound(i, j, n, m);
    } else {
      assert Pos(i, j, m) == |q| + j;
    }
  }

  // ---------------------------------------------------------------------------
  // Row replication by LOOP ... XSAVE

  function Repeat<T>(x: T, n: nat): (r: seq<T>)
    ensures |r| == n
    ensures forall i :: 0 <= i < n ==> r[i] == x
  {
    if n == 0 then [] else Repeat(x, n - 1) + [x]
  }

  /** Each row written n times in a row, row after row: `LOOP #i = 1 TO n. XSAVE. END LOOP.` */
  function ReplicateEach<T>(s: seq<T>, n: nat): seq<T>
  {
    if s == [] then [] else ReplicateEach(s[..|s| - 1], n) + Repeat(s[|s| - 1], n)
  }

  /** Copy j of left row i is row i·n + j of the replica. */
  lemma {:induction false} ReplicateEachAt<T>(s: seq<T>, n: nat)
    ensures |ReplicateEach(s, n)| == |s| * n
    ensures forall i, j :: 0 <= i < |s| && 0 <= j < n ==>
              Pos(i, j, n) < |ReplicateEach(s, n)| && ReplicateEach(s, n)[Pos(i, j, n)] == s[i]
  {
    if s != [] {
      var s' := s[..|s| - 1];
      var r', p := ReplicateEach(s', n), Repeat(s[|s| - 1], n);
      assert ReplicateEach(s, n) == r' + p;
      ReplicateEachAt(s', n);
      MulSucc(|s'|, n);
      forall i, j | 0 <= i < |s| && 0 <= j < n
        ensures Pos(i, j, n) < |r' + p| && (r' + p)[Pos(i, j, n)] == s[i]
      {
        BlockAppend(r', p, |s'|, n, i, j);
        if i < |s'| {
          assert s'[i] == s[i];
        }
      }
    }
  }

  /** One row written once per loop index, tagged with the index 1..n. */
  function TagRun<V>(x: seq<V>, n: nat): (r: seq<Tagged<V>>)
    ensures |r| == n
  {
    if n == 0 then [] else TagRun(x, n - 1) + [Tagged(n, x)]
  }

  lemma {:induction false} TagRunAt<V>(x: seq<V>, n: nat)
    ensures forall j :: 0 <= j < n ==> TagRun(x, n)[j] == Tagged(j + 1, x)
  {
    if n > 0 { TagRunAt(x, n - 1); }
  }

  /** `LOOP tag = 1 TO n. XSAVE /KEEP tag vars. END LOOP.` over the rows. */
  function ReplicateTagged<V>(s: seq<seq<V>>, n: nat): seq<Tagged<V>>
  {
    if s == [] then [] else ReplicateTagged(s[..|s| - 1], n) + TagRun(s[|s| - 1], n)
  }

  /** Copy j of right row i is row i·n + j of the tagged replica, tagged j + 1. */
  lemma {:induction false} ReplicateTaggedAt<V>(s: seq<seq<V>>, n: nat)
    ensures |ReplicateTagged(s, n)| == |s| * n
    ensures forall i, j :: 0 <= i < |s| && 0 <= j < n ==>
              Pos(i, j, n) < |ReplicateTagged(s, n)| &&
              ReplicateTagged(s, n)[Pos(i, j, n)] == Tagged(j + 1, s[i])
  {
    if s != [] {
      var s' := s[..|s| - 1];
      var r', p := ReplicateTagged(s', n), TagRun(s[|s| - 1], n);
      assert ReplicateTagged(s, n) == r' + p;
      ReplicateTaggedAt(s', n);
      TagRunAt(s[|s| - 1], n);
      MulSucc(|s'|, n);
      forall i, j | 0 <= i < |s| && 0 <= j < n
        ensures Pos(i, j, n) < |r' + p| && (r' + p)[Pos(i, j, n)] == Tagged(j + 1, s[i])
      {
        BlockAppend(r', p, |s'|, n, i, j);
        if i < |s'| {
          assert s'[i] == s[i];
        }
      }
    }
  }

  // ---------------------------------------------------------------------------
  // SORT CASES BY tag

  /** The rows carrying tag t, in their original order. */
  function WithTag<V>(s: seq<Tagged<V>>, t: nat): seq<Tagged<V>>
  {
    if s == [] then []
    else WithTag(s[..|s| - 1], t) + (if s[|s| - 1].tag == t then [s[|s| - 1]] else [])
  }

  function MaxTag<V>(s: seq<Tagged<V>>): nat
  {
    if s == [] then 0
    else
      var m := MaxTag(s[..|s| - 1]);
      if s[|s| - 1].tag > m then s[|s| - 1].tag else m
  }

  lemma {:induction false} MaxTagBound<V>(s: seq<Tagged<V>>)
    ensures forall i :: 0 <= i < |s| ==> s[i].tag <= MaxTag(s)
  {
    if s != [] { MaxTagBound(s[..|s| - 1]); }
  }

  /** The rows with tags 0 .. h-1, tag by tag, each tag's rows in original order. */
  function Gather<V>(s: seq<Tagged<V>>, h: nat): seq<Tagged<V>>
  {
    if h == 0 then [] else Gather(s, h - 1) + WithTag(s, h - 1)
  }

  /**
   * The engine's `SORT CASES BY tag`. It is taken to be STABLE: rows with
   * equal tags keep their file order. The product construction relies on
   * that; it is an assumption about the engine, built into this definition.
   */
  function SortByTag<V>(s: seq<Tagged<V>>): seq<Tagged<V>>
  {
    Gather(s, MaxTag(s) + 1)
  }

  predicate SortedByTag<V>(s: seq<Tagged<V>>)
  {
    forall i, j :: 0 <= i < j < |s| ==> s[i].tag <= s[j].tag
  }

  lemma {:induction false} WithTagAppend<V>(a: seq<Tagged<V>>, b: seq<Tagged<V>>, t: nat)
    ensures WithTag(a + b, t) == WithTag(a, t) + WithTag(b, t)
  {
    if b != [] {
      var b' := b[..|b| - 1];
      assert (a + b)[..|a + b| - 1] == a + b';
      WithTagAppend(a, b', t);
    } else {
      assert a + b == a;
    }
  }

  lemma {:induction false} WithTagOnly<V>(s: seq<Tagged<V>>, t: nat)
    ensures forall i :: 0 <= i < |WithTag(s, t)| ==> WithTag(s, t)[i].tag == t
    ensures |WithTag(s, t)| <= |s|
  {
    if s != [] { WithTagOnly(s[..|s| - 1], t); }
  }

  lemma {:induction false} WithTagTwice<V>(s: seq<Tagged<V>>, u: nat, t: nat)
    ensures WithTag(WithTag(s, u), t) == if u == t then WithTag(s, t) else []
  {
    if s != [] {
      var s' := s[..|s| - 1];
      var last := s[|s| - 1];
      WithTagTwice(s', u, t);
      var tail: seq<Tagged<V>> := if last.tag == u then [last] else [];
      WithTagAppend(WithTag(s', u), tail, t);
      if last.tag == u {
        assert WithTag(tail, t) == WithTag([], t) + (if last.tag == t then [last] else []);
      }
    }
  }

  lemma {:induction false} GatherTags<V>(s: seq<Tagged<V>>, h: nat)
    ensures SortedByTag(Gather(s, h))
    ensures forall i :: 0 <= i < |Gather(s, h)| ==> Gather(s, h)[i].tag < h
  {
    if h > 0 {
      var g, w := Gather(s, h - 1), WithTag(s, h - 1);
      var r := g + w;
      assert Gather(s, h) == r;
      GatherTags(s, h - 1);
      WithTagOnly(s, h - 1);
      forall i | 0 <= i < |r| ensures r[i].tag == (if i < |g| then g[i].tag else h - 1) {
        if i >= |g| {
          assert r[i] == w[i - |g|];
        }
      }
    }
  }

  /** The rows with tag below h, in their original order. */
  function Below<V>(s: seq<Tagged<V>>, h: nat): seq<Tagged<V>>
  {
    if s == [] then []
    else Below(s[..|s| - 1], h) + (if s[|s| - 1].tag < h then [s[|s| - 1]] else [])
  }

  lemma {:induction false} BelowStep<V>(s: seq<Tagged<V>>, h: nat)
    requires h > 0
    ensures multiset(Below(s, h)) == multiset(Below(s, h - 1)) + multiset(WithTag(s, h - 1))
  {
    if s != [] { BelowStep(s[..|s| - 1], h); }
  }

  lemma {:induction false} BelowAll<V>(s: seq<Tagged<V>>, h: nat)
    requires forall i :: 0 <= i < |s| ==> s[i].tag < h
    ensures Below(s, h) == s
  {
    if s != [] {
      var s', last := s[..|s| - 1], s[|s| - 1];
      assert Below(s', h) == s' by {
        forall i | 0 <= i < |s'| ensures s'[i].tag < h {
          assert s'[i] == s[i];
        }
        BelowAll(s', h);
      }
      assert s == s' + [last];
      BelowLast(s', last, h);
    }
  }

  lemma {:induction false} GatherBelow<V>(s: seq<Tagged<V>>, h: nat)
    ensures multiset(Gather(s, h)) == multiset(Below(s, h))
    decreases h, 1
  {
    if h == 0 {
      BelowNone(s);
    } else {
      GatherBelowStep(s, h);
    }
  }

  lemma {:induction false} GatherBelowStep<V>(s: seq<Tagged<V>>, h: nat)
    requires h > 0
    ensures multiset(Gather(s, h)) == multiset(Below(s, h))
    decreases h, 0
  {
    var g, w := Gather(s, h - 1), WithTag(s, h - 1);
    var mg, mw, mb := multiset(g), multiset(w), multiset(Below(s, h - 1));
    assert multiset(Gather(s, h)) == mg + mw by {
      assert Gather(s, h) == g + w;
    }
    assert mg == mb by {
      GatherBelow(s, h - 1);
    }
    assert multiset(Below(s, h)) == mb + mw by {
      BelowStep(s, h);
    }
  }

  lemma {:induction false} BelowNone<V>(s: seq<Tagged<V>>)
    ensures Below(s, 0) == []
  {
    if s != [] { BelowNone(s[..|s| - 1]); }
  }

  /** Gathering the tags below h keeps every row of a tag below h, in order. */
  lemma {:induction false} GatherWithTagIn<V>(s: seq<Tagged<V>>, h: nat, t: nat)
    requires t < h
    ensures WithTag(Gather(s, h), t) == WithTag(s, t)
    decreases h
  {
    if t < h - 1 {
      GatherWithTagIn(s, h - 1, t);
      GatherLowerTag(s, h, t);
    } else {
      GatherTopTag(s, h);
    }
  }

  /** The last tag gathered contributes all of its rows. */
  lemma GatherTopTag<V>(s: seq<Tagged<V>>, h: nat)
    requires h > 0
    ensures WithTag(Gather(s, h), h - 1) == WithTag(s, h - 1)
  {
    GatherSplit(s, h, h - 1);
    GatherWithTagOut(s, h - 1, h - 1);
    WithTagTwice(s, h - 1, h - 1);
  }

  /** Gathering one more tag leaves the rows of the earlier tags as they were. */
  lemma GatherLowerTag<V>(s: seq<Tagged<V>>, h: nat, t: nat)
    requires t < h - 1
    ensures WithTag(Gather(s, h), t) == WithTag(Gather(s, h - 1), t)
  {
    GatherSplit(s, h, t);
    WithTagTwice(s, h - 1, t);
  }

  /** Gathering the tags below h keeps no row of a tag from h up. */
  lemma {:induction false} GatherWithTagOut<V>(s: seq<Tagged<V>>, h: nat, t: nat)
    requires t >= h
    ensures WithTag(Gather(s, h), t) == []
    decreases h
  {
    if h > 0 {
      var wg, ww := WithTag(Gather(s, h - 1), t), WithTag(WithTag(s, h - 1), t);
      GatherSplit(s, h, t);
      assert wg == [] by {
        GatherWithTagOut(s, h - 1, t);
      }
      assert ww == [] by {
        WithTagTwice(s, h - 1, t);
      }
      assert wg + ww == [];
    }
  }

  /** Gathering one more tag adds that tag's rows after the ones already gathered. */
  lemma GatherSplit<V>(s: seq<Tagged<V>>, h: nat, t: nat)
    requires h > 0
    ensures WithTag(Gather(s, h), t) == WithTag(Gather(s, h - 1), t) + WithTag(WithTag(s, h - 1), t)
  {
    assert Gather(s, h) == Gather(s, h - 1) + WithTag(s, h - 1);
    WithTagAppend(Gather(s, h - 1), WithTag(s, h - 1), t);
  }

  lemma {:induction false} WithTagAbove<V>(s: seq<Tagged<V>>, t: nat)
    requires forall i :: 0 <= i < |s| ==> s[i].tag < t
    ensures WithTag(s, t) == []
  {
    if s != [] { WithTagAbove(s[..|s| - 1], t); }
  }

  /**
   * SortByTag is a stable sort: the result is ordered by tag, is a
   * permutation of its input, and keeps the rows of every tag in their
   * original order.
   */
  lemma SortByTagIsStableSort<V>(s: seq<Tagged<V>>)
    ensures SortedByTag(SortByTag(s))
    ensures multiset(SortByTag(s)) == multiset(s) && |SortByTag(s)| == |s|
    ensures forall t: nat :: WithTag(SortByTag(s), t) == WithTag(s, t)
  {
    GatherTags(s, MaxTag(s) + 1);
    SortIsPermutation(s);
    forall t: nat ensures WithTag(SortByTag(s), t) == WithTag(s, t) {
      SortKeepsTag(s, t);
    }
  }

  lemma SortIsPermutation<V>(s: seq<Tagged<V>>)
    ensures multiset(SortByTag(s)) == multiset(s) && |SortByTag(s)| == |s|
  {
    var h := MaxTag(s) + 1;
    var g := Gather(s, h);
    assert SortByTag(s) == g;
    MaxTagBound(s);
    GatherBelow(s, h);
    BelowAll(s, h);
    assert multiset(g) == multiset(s);
    assert |multiset(g)| == |g| && |multiset(s)| == |s|;
  }

  lemma SortKeepsTag<V>(s: seq<Tagged<V>>, t: nat)
    ensures WithTag(SortByTag(s), t) == WithTag(s, t)
  {
    var h := MaxTag(s) + 1;
    if t < h {
      GatherWithTagIn(s, h, t);
    } else {
      GatherWithTagOut(s, h, t);
      MaxTagBound(s);
      WithTagAbove(s, t);
    }
  }

  // ---------------------------------------------------------------------------
  // Any stable sort

  /** s' is a stable sort of s: ordered by tag, each tag's rows as in s, in order. */
  ghost predicate StableSortOf<V>(s': seq<Tagged<V>>, s: seq<Tagged<V>>)
  {
    SortedByTag(s') && forall t: nat :: WithTag(s', t) == WithTag(s, t)
  }

  /**
   * A stable sort by tag has only one possible result, so `SortByTag`
   * assumes no more about the engine's sort than that it is stable.
   */
  lemma StableSortUnique<V>(s: seq<Tagged<V>>, s': seq<Tagged<V>>)
    requires StableSortOf(s', s)
    ensures s' == SortByTag(s)
  {
    var m := MaxTag(s);
    var h := m + 1 + MaxTag(s');
    assert Gather(s', h) == s' by {
      MaxTagBound(s');
      SortedGatherAll(s', h);
    }
    assert Gather(s', h) == Gather(s, h) by {
      GatherSame(s, s', h);
    }
    assert Gather(s, h) == Gather(s, m + 1) by {
      MaxTagBound(s);
      GatherBeyond(s, m + 1, h);
    }
  }

  /** Gathering every tag of a sequence already ordered by tag gives it back unchanged. */
  lemma SortedGatherAll<V>(s: seq<Tagged<V>>, h: nat)
    requires SortedByTag(s)
    requires forall i :: 0 <= i < |s| ==> s[i].tag < h
    ensures Gather(s, h) == s
  {
    SortedGather(s, h);
    BelowAll(s, h);
  }

  /** In a sequence ordered by tag, the rows below tag h are those below h - 1, then those tagged h - 1. */
  lemma {:induction false} SortedBelowStep<V>(s: seq<Tagged<V>>, h: nat)
    requires SortedByTag(s) && h > 0
    ensures Below(s, h) == Below(s, h - 1) + WithTag(s, h - 1)
  {
    if s != [] {
      var p, e := s[..|s| - 1], s[|s| - 1];
      assert s == p + [e];
      SortedPrefix(s, p, e);
      var bp, wp := Below(p, h - 1), WithTag(p, h - 1);
      assert Below(p, h) == bp + wp by {
        SortedBelowStep(p, h);
      }
      if e.tag < h - 1 {
        assert wp == [] by {
          WithTagAbove(p, h - 1);
        }
        assert Below(s, h) == bp + [e] by {
          BelowLast(p, e, h);
        }
        assert Below(s, h - 1) == bp + [e] by {
          BelowLast(p, e, h - 1);
        }
        assert WithTag(s, h - 1) == [] by {
          WithTagLast(p, e, h - 1);
        }
      } else if e.tag == h - 1 {
        assert Below(s, h) == bp + wp + [e] by {
          BelowLast(p, e, h);
        }
        assert Below(s, h - 1) == bp by {
          BelowLast(p, e, h - 1);
        }
        assert WithTag(s, h - 1) == wp + [e] by {
          WithTagLast(p, e, h - 1);
        }
      } else {
        assert Below(s, h) == bp + wp by {
          BelowLast(p, e, h);
        }
        assert Below(s, h - 1) == bp by {
          BelowLast(p, e, h - 1);
        }
        assert WithTag(s, h - 1) == wp by {
          WithTagLast(p, e, h - 1);
        }
      }
    }
  }

  /** The rows before the last of a sequence ordered by tag are ordered, with tags at most the last one's. */
  lemma SortedPrefix<V>(s: seq<Tagged<V>>, p: seq<Tagged<V>>, e: Tagged<V>)
    requires SortedByTag(s) && s == p + [e]
    ensures SortedByTag(p)
    ensures forall i :: 0 <= i < |p| ==> p[i].tag <= e.tag
  {
    assert s[|p|] == e;
    forall i, j | 0 <= i < j < |p| ensures p[i].tag <= p[j].tag {
      assert s[i] == p[i] && s[j] == p[j];
    }
    forall i | 0 <= i < |p| ensures p[i].tag <= e.tag {
      assert s[i] == p[i];
    }
  }

  /** Appending one row adds it to the rows below h exactly when its tag is below h. */
  lemma BelowLast<V>(s: seq<Tagged<V>>, e: Tagged<V>, h: nat)
    ensures Below(s + [e], h) == Below(s, h) + (if e.tag < h then [e] else [])
  {
    assert (s + [e])[..|s + [e]| - 1] == s;
  }

  /** Gathering a sequence already ordered by tag keeps its rows below h in place. */
  lemma {:induction false} SortedGather<V>(s: seq<Tagged<V>>, h: nat)
    requires SortedByTag(s)
    ensures Gather(s, h) == Below(s, h)
  {
    if h == 0 {
      BelowNone(s);
    } else {
      SortedGather(s, h - 1);
      SortedBelowStep(s, h);
    }
  }

  /** Gathering depends only on the rows of each tag. */
  lemma {:induction false} GatherSame<V>(s: seq<Tagged<V>>, s': seq<Tagged<V>>, h: nat)
    requires forall t: nat :: WithTag(s', t) == WithTag(s, t)
    ensures Gather(s', h) == Gather(s, h)
  {
    if h > 0 {
      GatherSame(s, s', h - 1);
      assert WithTag(s', h - 1) == WithTag(s, h - 1);
    }
  }

  /** Gathering past the largest tag adds nothing. */
  lemma {:induction false} GatherBeyond<V>(s: seq<Tagged<V>>, k: nat, h: nat)
    requires forall i :: 0 <= i < |s| ==> s[i].tag < k
    requires k <= h
    ensures Gather(s, h) == Gather(s, k)
    decreases h
  {
    if k < h {
      GatherBeyond(s, k, h - 1);
      WithTagAbove(s, h - 1);
      assert Gather(s, h) == Gather(s, h - 1) + [];
    }
  }

  // ---------------------------------------------------------------------------
  // The tagged replica after sorting

  /** Every row tagged with t, in order. */
  function AllTagged<V>(b: seq<seq<V>>, t: nat): (r: seq<Tagged<V>>)
    ensures |r| == |b|
    ensures forall j :: 0 <= j < |b| ==> r[j] == Tagged(t, b[j])
  {
    if b == [] then [] else AllTagged(b[..|b| - 1], t) + [Tagged(t, b[|b| - 1])]
  }

  /** All rows tagged 1, then all tagged 2, ..., then all tagged n. */
  function Blocks<V>(b: seq<seq<V>>, n: nat): seq<Tagged<V>>
  {
    if n == 0 then [] else Blocks(b, n - 1) + AllTagged(b, n)
  }

  /** Right row j in block t is row t·|b| + j of the sorted replica, tagged t + 1. */
  lemma {:induction false} BlocksAt<V>(b: seq<seq<V>>, n: nat)
    ensures |Blocks(b, n)| == n * |b|
    ensures forall t, j :: 0 <= t < n && 0 <= j < |b| ==>
              Pos(t, j, |b|) < |Blocks(b, n)| && Blocks(b, n)[Pos(t, j, |b|)] == Tagged(t + 1, b[j])
  {
    if n > 0 {
      var r', p := Blocks(b, n - 1), AllTagged(b, n);
      assert Blocks(b, n) == r' + p;
      BlocksAt(b, n - 1);
      MulSucc(n - 1, |b|);
      forall t, j | 0 <= t < n && 0 <= j < |b|
        ensures Pos(t, j, |b|) < |r' + p| && (r' + p)[Pos(t, j, |b|)] == Tagged(t + 1, b[j])
      {
        BlockAppend(r', p, n - 1, |b|, t, j);
      }
    }
  }

  lemma {:induction false} WithTagRun<V>(x: seq<V>, n: nat, t: nat)
    ensures WithTag(TagRun(x, n), t) == if 1 <= t <= n then [Tagged(t, x)] else []
  {
    if n > 0 {
      var r', e := TagRun(x, n - 1), Tagged(n, x);
      var w := WithTag(r', t);
      assert w == if 1 <= t <= n - 1 then [Tagged(t, x)] else [] by {
        WithTagRun(x, n - 1, t);
      }
      assert WithTag(TagRun(x, n), t) == w + (if n == t then [e] else []) by {
        WithTagLast(r', e, t);
      }
      if t == n {
        assert w + [e] == [] + [e];
      } else {
        assert w + [] == w;
      }
    }
  }

  /** Appending one row adds it to the rows of its own tag only. */
  lemma WithTagLast<V>(s: seq<Tagged<V>>, e: Tagged<V>, t: nat)
    ensures WithTag(s + [e], t) == WithTag(s, t) + (if e.tag == t then [e] else [])
  {
    assert (s + [e])[..|s + [e]| - 1] == s;
  }

  lemma {:induction false} WithTagReplica<V>(b: seq<seq<V>>, n: nat, t: nat)
    ensures WithTag(ReplicateTagged(b, n), t) == if 1 <= t <= n then AllTagged(b, t) else []
  {
    if b != [] {
      var b' := b[..|b| - 1];
      WithTagReplica(b', n, t);
      WithTagAppend(ReplicateTagged(b', n), TagRun(b[|b| - 1], n), t);
      WithTagRun(b[|b| - 1], n, t);
    }
  }

  /** Gathering tags below h, for h - 1 <= n, gives blocks 1 .. h - 1. */
  lemma {:induction false} GatherReplicaUpTo<V>(b: seq<seq<V>>, n: nat, h: nat)
    requires 1 <= h <= n + 1
    ensures Gather(ReplicateTagged(b, n), h) == Blocks(b, h - 1)
  {
    var r := ReplicateTagged(b, n);
    if h == 1 {
      WithTagReplica(b, n, 0);
      GatherEmptyTag(r, 1);
    } else {
      var k := h - 1;
      assert Gather(r, k) == Blocks(b, k - 1) by {
        GatherReplicaUpTo(b, n, k);
      }
      assert WithTag(r, k) == AllTagged(b, k) by {
        WithTagReplica(b, n, k);
      }
      assert Gather(r, h) == Gather(r, k) + WithTag(r, k);
      assert Blocks(b, k) == Blocks(b, k - 1) + AllTagged(b, k);
    }
  }

  /** A tag with no rows adds nothing to the gathered file. */
  lemma GatherEmptyTag<V>(s: seq<Tagged<V>>, h: nat)
    requires h > 0 && WithTag(s, h - 1) == []
    ensures Gather(s, h) == Gather(s, h - 1)
  {
    assert Gather(s, h) == Gather(s, h - 1) + [];
  }

  /** Tags above n do not occur, so gathering further adds nothing. */
  lemma {:induction false} GatherReplicaBeyond<V>(b: seq<seq<V>>, n: nat, h: nat)
    requires n + 1 <= h
    ensures Gather(ReplicateTagged(b, n), h) == Blocks(b, n)
  {
    if h == n + 1 {
      GatherReplicaUpTo(b, n, h);
      assert h - 1 == n;
    } else {
      WithTagReplica(b, n, h - 1);
      GatherEmptyTag(ReplicateTagged(b, n), h);
      GatherReplicaBeyond(b, n, h - 1);
    }
  }

  lemma GatherReplica<V>(b: seq<seq<V>>, n: nat, h: nat)
    requires 1 <= h
    ensures h - 1 <= n ==> Gather(ReplicateTagged(b, n), h) == Blocks(b, h - 1)
    ensures h - 1 > n ==> Gather(ReplicateTagged(b, n), h) == Blocks(b, n)
  {
    if h - 1 <= n {
      GatherReplicaUpTo(b, n, h);
    } else {
      GatherReplicaBeyond(b, n, h);
    }
  }

  /**
   * After the stable sort, the tagged right replica is ordered block by
   * block: all right rows tagged 1, then all tagged 2, up to n.
   */
  lemma SortedReplica<V>(b: seq<seq<V>>, n: nat)
    ensures SortByTag(ReplicateTagged(b, n)) == Blocks(b, n)
  {
    var r := ReplicateTagged(b, n);
    var h := MaxTag(r) + 1;
    GatherReplica(b, n, h);
    ReplicateTaggedAt(b, n);
    BlocksAt(b, n);
    if |b| > 0 && n > 0 {
      MaxTagBound(r);
      PosBound(|b| - 1, n - 1, |b|, n);
      assert r[Pos(|b| - 1, n - 1, n)].tag == n;
    } else {
      BlocksAt(b, h - 1);
      assert |Blocks(b, n)| == 0;
      if h - 1 <= n {
        assert |Blocks(b, h - 1)| == 0;
      }
    }
  }

  // ---------------------------------------------------------------------------
  // MATCH FILES without BY, and the cartesian product

  /** Row k of the result is row k of `a` followed by row k of `b` without its tag. */
  function MergeByPosition<V>(a: seq<seq<V>>, b: seq<Tagged<V>>): (r: seq<seq<V>>)
    requires |a| == |b|
    ensures |r| == |a|
    ensures forall k :: 0 <= k < |a| ==> r[k] == a[k] + b[k].row
  {
    if a == [] then []
    else MergeByPosition(a[..|a| - 1], b[..|b| - 1]) + [a[|a| - 1] + b[|b| - 1].row]
  }

  /** The row x paired with every row of b, in order. */
  function Pairs<V>(x: seq<V>, b: seq<seq<V>>): (r: seq<seq<V>>)
    ensures |r| == |b|
    ensures forall j :: 0 <= j < |b| ==> r[j] == x + b[j]
  {
    if b == [] then [] else Pairs(x, b[..|b| - 1]) + [x + b[|b| - 1]]
  }

  /** The cartesian product in left-major order: for each row of a, all rows of b. */
  function Product<V>(a: seq<seq<V>>, b: seq<seq<V>>): seq<seq<V>>
  {
    if a == [] then [] else Product(a[..|a| - 1], b) + Pairs(a[|a| - 1], b)
  }

  /**
   * The product has |a|·|b| rows, and the pair of left row i and right row
   * j sits at position i·|b| + j.
   */
  lemma {:induction false} ProductAt<V>(a: seq<seq<V>>, b: seq<seq<V>>)
    ensures |Product(a, b)| == |a| * |b|
    ensures forall i, j :: 0 <= i < |a| && 0 <= j < |b| ==>
              Pos(i, j, |b|) < |Product(a, b)| && Product(a, b)[Pos(i, j, |b|)] == a[i] + b[j]
  {
    if a != [] {
      var a' := a[..|a| - 1];
      var r' := Product(a', b);
      var p := Pairs(a[|a| - 1], b);
      assert Product(a, b) == r' + p;
      ProductAt(a', b);
      MulSucc(|a'|, |b|);
      forall i, j | 0 <= i < |a| && 0 <= j < |b|
        ensures Pos(i, j, |b|) < |r' + p| && (r' + p)[Pos(i, j, |b|)] == a[i] + b[j]
      {
        BlockAppend(r', p, |a'|, |b|, i, j);
        if i < |a'| {
          assert a'[i] == a[i];
        }
      }
    }
  }

  /**
   * The replication plan: each left row |b| times, each right row |a| times
   * with tags 1..|a|, the tagged file stably sorted by tag, and the two files
   * merged by position.
   */
  function Plan<V>(a: seq<seq<V>>, b: seq<seq<V>>, n1: nat, n2: nat): (r: seq<seq<V>>)
    requires |a| * n2 == |b| * n1
  {
    ReplicateEachAt(a, n2);
    ReplicateTaggedAt(b, n1);
    SortByTagIsStableSort(ReplicateTagged(b, n1));
    MergeByPosition(ReplicateEach(a, n2), SortByTag(ReplicateTagged(b, n1)))
  }

  /** Two sequences of n·m rows that agree at every block position are equal. */
  lemma EqualByPos<T>(p: seq<T>, q: seq<T>, n: nat, m: nat)
    requires |p| == |q| == n * m
    requires forall i, j :: 0 <= i < n && 0 <= j < m ==>
               Pos(i, j, m) < |p| && p[Pos(i, j, m)] == q[Pos(i, j, m)]
    ensures p == q
  {
    forall k | 0 <= k < |p| ensures p[k] == q[k] {
      DivBound(k, n, m);
      DivModFundamental(k, m);
      assert p[Pos(k / m, k % m, m)] == q[Pos(k / m, k % m, m)];
    }
  }

  /** With the true case counts as loop bounds, the plan computes the cartesian product. */
  lemma PlanIsProduct<V>(a: seq<seq<V>>, b: seq<seq<V>>)
    ensures |a| * |b| == |b| * |a|
    ensures Plan(a, b, |a|, |b|) == Product(a, b)
  {
    var p := Plan(a, b, |a|, |b|);
    var left := ReplicateEach(a, |b|);
    var right := SortByTag(ReplicateTagged(b, |a|));
    ReplicateEachAt(a, |b|);
    SortedReplica(b, |a|);
    BlocksAt(b, |a|);
    ProductAt(a, b);
    forall i, j | 0 <= i < |a| && 0 <= j < |b|
      ensures Pos(i, j, |b|) < |p| && p[Pos(i, j, |b|)] == Product(a, b)[Pos(i, j, |b|)]
    {
      assert left[Pos(i, j, |b|)] == a[i];
      assert right[Pos(i, j, |b|)] == Tagged(i + 1, b[j]);
    }
    EqualByPos(p, Product(a, b), |a|, |b|);
  }

  /** When the right rows have values, the left replica is not the product. */
  lemma ReplicaIsNotProduct<V>(a: seq<seq<V>>, b: seq<seq<V>>)
    requires Product(a, b) != []
    requires forall j :: 0 <= j < |b| ==> |b[j]| > 0
    ensures ReplicateEach(a, |b|) != Product(a, b)
  {
    assert |a| > 0 && |b| > 0 by {
      ProductAt(a, b);
    }
    ReplicateEachPoint(a, |b|, 0, 0);
    ProductPoint(a, b, 0, 0);
    assert Pos(0, 0, |b|) == 0;
    assert |ReplicateEach(a, |b|)[0]| < |Product(a, b)[0]|;
  }

  /**
   * The plan gives the product with any stable sort of the tagged replica,
   * not only with `SortByTag`.
   */
  lemma StableSortGivesProduct<V>(a: seq<seq<V>>, b: seq<seq<V>>, sorted: seq<Tagged<V>>)
    requires StableSortOf(sorted, ReplicateTagged(b, |a|))
    ensures |sorted| == |ReplicateEach(a, |b|)| &&
            MergeByPosition(ReplicateEach(a, |b|), sorted) == Product(a, b)
  {
    var left, r := ReplicateEach(a, |b|), ReplicateTagged(b, |a|);
    ReplicateEachAt(a, |b|);
    ReplicateTaggedAt(b, |a|);
    assert |a| * |b| == |b| * |a|;
    assert sorted == SortByTag(r) by {
      StableSortUnique(r, sorted);
    }
    SortByTagIsStableSort(r);
    PlanIsProduct(a, b);
    assert Plan(a, b, |a|, |b|) == MergeByPosition(left, sorted);
  }

  // ---------------------------------------------------------------------------
  // Row-by-row statements of the four steps

  /** Left replica: |a|·n rows, row k is left row ⌊k/n⌋. */
  lemma ReplicateEachRow<T>(a: seq<T>, n: nat, k: nat)
    requires k < |a| * n
    ensures |ReplicateEach(a, n)| == |a| * n
    ensures k / n < |a| && ReplicateEach(a, n)[k] == a[k / n]
  {
    DivBound(k, |a|, n);
    DivModFundamental(k, n);
    ReplicateEachPoint(a, n, k / n, k % n);
  }

  lemma ReplicateEachPoint<T>(a: seq<T>, n: nat, i: nat, j: nat)
    requires i < |a| && j < n
    ensures |ReplicateEach(a, n)| == |a| * n
    ensures Pos(i, j, n) < |ReplicateEach(a, n)| && ReplicateEach(a, n)[Pos(i, j, n)] == a[i]
  {
    ReplicateEachAt(a, n);
  }

  /** Tagged right replica: |b|·n rows, row k is right row ⌊k/n⌋ tagged k mod n + 1. */
  lemma ReplicateTaggedRow<V>(b: seq<seq<V>>, n: nat, k: nat)
    requires k < |b| * n
    ensures |ReplicateTagged(b, n)| == |b| * n
    ensures k / n < |b| && ReplicateTagged(b, n)[k] == Tagged(k % n + 1, b[k / n])
  {
    DivBound(k, |b|, n);
    DivModFundamental(k, n);
    ReplicateTaggedPoint(b, n, k / n, k % n);
  }

  lemma ReplicateTaggedPoint<V>(b: seq<seq<V>>, n: nat, i: nat, j: nat)
    requires i < |b| && j < n
    ensures |ReplicateTagged(b, n)| == |b| * n
    ensures Pos(i, j, n) < |ReplicateTagged(b, n)| &&
            ReplicateTagged(b, n)[Pos(i, j, n)] == Tagged(j + 1, b[i])
  {
    ReplicateTaggedAt(b, n);
  }

  /** After the stable sort: row k is right row k mod |b|, tagged ⌊k/|b|⌋ + 1. */
  lemma SortedReplicaRow<V>(b: seq<seq<V>>, n: nat, k: nat)
    requires k < n * |b|
    ensures |SortByTag(ReplicateTagged(b, n))| == n * |b|
    ensures k / |b| < n && SortByTag(ReplicateTagged(b, n))[k] == Tagged(k / |b| + 1, b[k % |b|])
  {
    DivBound(k, n, |b|);
    var t, j := k / |b|, k % |b|;
    DivModFundamental(k, |b|);
    BlocksPoint(b, n, t, j);
    SortedReplica(b, n);
  }

  lemma BlocksPoint<V>(b: seq<seq<V>>, n: nat, t: nat, j: nat)
    requires t < n && j < |b|
    ensures |Blocks(b, n)| == n * |b|
    ensures Pos(t, j, |b|) < |Blocks(b, n)| && Blocks(b, n)[Pos(t, j, |b|)] == Tagged(t + 1, b[j])
  {
    BlocksAt(b, n);
  }

  /** The product: |a|·|b| rows, row k is left row ⌊k/|b|⌋ followed by right row k mod |b|. */
  lemma ProductRow<V>(a: seq<seq<V>>, b: seq<seq<V>>, k: nat)
    requires k < |a| * |b|
    ensures |Product(a, b)| == |a| * |b|
    ensures k / |b| < |a| && Product(a, b)[k] == a[k / |b|] + b[k % |b|]
  {
    DivBound(k, |a|, |b|);
    DivModFundamental(k, |b|);
    ProductPoint(a, b, k / |b|, k % |b|);
  }

  lemma ProductPoint<V>(a: seq<seq<V>>, b: seq<seq<V>>, i: nat, j: nat)
    requires i < |a| && j < |b|
    ensures |Product(a, b)| == |a| * |b|
    ensures Pos(i, j, |b|) < |Product(a, b)| && Product(a, b)[Pos(i, j, |b|)] == a[i] + b[j]
  {
    ProductAt(a, b);
  }

  /**
   * Every pair (left i, right j) appears exactly once: position k of the
   * product holds the pair (⌊k/|b|⌋, k mod |b|), and the only position
   * holding (i, j) is i·|b| + j.
   */
  lemma ProductPairOnce<V>(a: seq<seq<V>>, b: seq<seq<V>>, i: nat, j: nat, k: nat)
    requires i < |a| && j < |b| && k < |a| * |b|
    ensures Pos(i, j, |b|) < |Product(a, b)| && Product(a, b)[Pos(i, j, |b|)] == a[i] + b[j]
    ensures k / |b| == i && k % |b| == j <==> k == Pos(i, j, |b|)
  {
    ProductAt(a, b);
    DivModFundamental(k, |b|);
    DivModPos(i, j, |b|);
  }

  // ---------------------------------------------------------------------------
  // Why the sort has to be stable

  /**
   * Two left rows and two right rows. Rearranging the tagged replica so that
   * it is ordered by tag but its two rows tagged 1 are swapped, and merging
   * the left replica with that, gives a table that is not the product.
   */
  lemma UnstableSortBreaksProduct()
    ensures var a, b := [[1], [2]], [[3], [4]];
            var tagged := ReplicateTagged(b, 2);
            var unstable := [Tagged(1, [4]), Tagged(1, [3]), Tagged(2, [3]), Tagged(2, [4])];
            var left := [[1], [1], [2], [2]];
            ReplicateEach(a, 2) == left &&
            tagged == [Tagged(1, [3]), Tagged(2, [3]), Tagged(1, [4]), Tagged(2, [4])] &&
            SortedByTag(unstable) && unstable == [tagged[2], tagged[0], tagged[1], tagged[3]] &&
            MergeByPosition(left, unstable) != Product(a, b)
  {
    LeftReplicaExample();
    RightReplicaExample();
    UnstableIsSorted();
    UnstableMergeDiffers();
  }

  lemma UnstableIsSorted()
    ensures SortedByTag([Tagged(1, [4]), Tagged(1, [3]), Tagged(2, [3]), Tagged(2, [4])])
  {
    var u := [Tagged(1, [4]), Tagged(1, [3]), Tagged(2, [3]), Tagged(2, [4])];
    assert forall i :: 0 <= i < 2 ==> u[i].tag == 1;
    assert forall i :: 2 <= i < 4 ==> u[i].tag == 2;
  }

  lemma UnstableMergeDiffers()
    ensures MergeByPosition([[1], [1], [2], [2]], [Tagged(1, [4]), Tagged(1, [3]), Tagged(2, [3]), Tagged(2, [4])])
            != Product([[1], [2]], [[3], [4]])
  {
    var m := MergeByPosition([[1], [1], [2], [2]], [Tagged(1, [4]), Tagged(1, [3]), Tagged(2, [3]), Tagged(2, [4])]);
    assert m[0] == [1, 4];
    ProductPoint([[1], [2]], [[3], [4]], 0, 0);
    assert Product([[1], [2]], [[3], [4]])[Pos(0, 0, 2)] == [1, 3];
  }

  lemma LeftReplicaExample()
    ensures ReplicateEach([[1], [2]], 2) == [[1], [1], [2], [2]]
  {
    var a := [[1], [2]];
    assert a[..1] == [[1]];
    assert ReplicateEach([[1]], 2) == [[1], [1]];
  }

  lemma RightReplicaExample()
    ensures ReplicateTagged([[3], [4]], 2) == [Tagged(1, [3]), Tagged(2, [3]), Tagged(1, [4]), Tagged(2, [4])]
  {
    var b := [[3], [4]];
    assert b[..1] == [[3]];
    assert ReplicateTagged([[3]], 2) == TagRun([3], 2);
  }
}

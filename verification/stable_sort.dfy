/**
 * `Array.prototype.sort` with a "larger first" comparator, as the post
 * helpers use it. The sort is stable, so elements with equal keys keep their
 * input order; `slice(0, n)` then takes the first `n`.
 */
module StableSort {
  import opened Seqs

  /** A sort key compared lexicographically, larger first: a score, then a tie-breaking integer. */
  datatype Rank = Rank(primary: real, secondary: int)

  /** `a` sorts no later than `b`. */
  predicate RankGe(a: Rank, b: Rank) {
    a.primary > b.primary || (a.primary == b.primary && a.secondary >= b.secondary)
  }

  predicate SortedDesc<T>(s: seq<T>, key: T -> Rank) {
    forall i, j :: 0 <= i < j < |s| ==> RankGe(key(s[i]), key(s[j]))
  }

  /** The elements of `s` whose key is `k`, in order. */
  function WithRank<T>(s: seq<T>, key: T -> Rank, k: Rank): (r: seq<T>)
    ensures |r| <= |s|
  {
    if s == [] then [] else (if key(s[0]) == k then [s[0]] else []) + WithRank(s[1..], key, k)
  }

  lemma {:induction false} WithRankAppend<T>(a: seq<T>, b: seq<T>, key: T -> Rank, k: Rank)
    ensures WithRank(a + b, key, k) == WithRank(a, key, k) + WithRank(b, key, k)
  {
    if a == [] {
      assert a + b == b;
    } else {
      var head := if key(a[0]) == k then [a[0]] else [];
      calc {
        WithRank(a + b, key, k);
        { assert (a + b)[0] == a[0] && (a + b)[1..] == a[1..] + b; }
        head + WithRank(a[1..] + b, key, k);
        { WithRankAppend(a[1..], b, key, k); }
        head + (WithRank(a[1..], key, k) + WithRank(b, key, k));
        (head + WithRank(a[1..], key, k)) + WithRank(b, key, k);
      }
    }
  }

  /** Cutting a sequence short cuts each rank's elements short: they stay a prefix. */
  lemma WithRankOfPrefix<T>(s: seq<T>, n: nat, key: T -> Rank, k: Rank)
    requires n <= |s|
    ensures PrefixOf(WithRank(s[..n], key, k), WithRank(s, key, k))
  {
    assert s == s[..n] + s[n..];
    WithRankAppend(s[..n], s[n..], key, k);
  }

  /** Keeping the elements of one rank keeps only elements of `s`. */
  lemma {:induction false} WithRankMembers<T>(s: seq<T>, key: T -> Rank, k: Rank)
    ensures forall i :: 0 <= i < |WithRank(s, key, k)| ==> WithRank(s, key, k)[i] in s
  {
    if s != [] {
      WithRankMembers(s[1..], key, k);
      var rest := WithRank(s[1..], key, k);
      assert forall i :: 0 <= i < |rest| ==> rest[i] in s[1..] && rest[i] in s;
    }
  }

  /** Keeping the elements of one rank keeps them in their order, here an increasing `pos`. */
  lemma {:induction false} WithRankKeepsIncreasing<T>(s: seq<T>, key: T -> Rank, k: Rank, pos: T -> int)
    requires forall i, j :: 0 <= i < j < |s| ==> pos(s[i]) < pos(s[j])
    ensures forall i, j :: 0 <= i < j < |WithRank(s, key, k)| ==> pos(WithRank(s, key, k)[i]) < pos(WithRank(s, key, k)[j])
    ensures s != [] ==> forall i :: 0 <= i < |WithRank(s, key, k)| ==> pos(s[0]) <= pos(WithRank(s, key, k)[i])
  {
    if s != [] {
      var rest := WithRank(s[1..], key, k);
      WithRankKeepsIncreasing(s[1..], key, k, pos);
      assert |s| > 1 ==> pos(s[0]) < pos(s[1]) && s[1..][0] == s[1];
      var w := (if key(s[0]) == k then [s[0]] else []) + rest;
      assert WithRank(s, key, k) == w;
      forall i | 0 <= i < |w|
        ensures pos(s[0]) <= pos(w[i])
      {
        if key(s[0]) != k || i > 0 {
          var r := if key(s[0]) == k then i - 1 else i;
          assert w[i] == rest[r];
        }
      }
      forall i, j | 0 <= i < j < |w|
        ensures pos(w[i]) < pos(w[j])
      {
        if key(s[0]) == k {
          assert w[j] == rest[j - 1];
          if i > 0 {
            assert w[i] == rest[i - 1];
          }
        } else {
          assert w[i] == rest[i] && w[j] == rest[j];
        }
      }
    }
  }

  /** Inserts `x` before the first element it does not rank below. */
  function Insert<T>(x: T, t: seq<T>, key: T -> Rank): (r: seq<T>)
    ensures multiset(r) == multiset(t) + multiset{x}
    ensures |r| == |t| + 1
  {
    if t == [] || RankGe(key(x), key(t[0])) then
      [x] + t
    else
      assert t == [t[0]] + t[1..];
      [t[0]] + Insert(x, t[1..], key)
  }

  lemma {:induction false} InsertSorted<T>(x: T, t: seq<T>, key: T -> Rank)
    requires SortedDesc(t, key)
    ensures SortedDesc(Insert(x, t, key), key)
  {
    if t != [] && !RankGe(key(x), key(t[0])) {
      var rest := Insert(x, t[1..], key);
      InsertSorted(x, t[1..], key);
      forall i | 0 <= i < |rest|
        ensures RankGe(key(t[0]), key(rest[i]))
      {
        assert rest[i] in multiset(rest);
        if rest[i] != x {
          assert rest[i] in multiset(t[1..]);
          var j :| 0 <= j < |t[1..]| && rest[i] == t[1..][j];
          assert rest[i] == t[j + 1];
        }
      }
      assert Insert(x, t, key) == [t[0]] + rest;
    }
  }

  lemma {:induction false} InsertWithRank<T>(x: T, t: seq<T>, key: T -> Rank, k: Rank)
    ensures WithRank(Insert(x, t, key), key, k)
         == if key(x) == k then [x] + WithRank(t, key, k) else WithRank(t, key, k)
  {
    if t == [] || RankGe(key(x), key(t[0])) {
      assert ([x] + t)[1..] == t;
    } else {
      var rest := Insert(x, t[1..], key);
      InsertWithRank(x, t[1..], key, k);
      assert ([t[0]] + rest)[1..] == rest;
    }
  }

  /** A stable sort, larger keys first. */
  function SortDesc<T>(s: seq<T>, key: T -> Rank): (r: seq<T>)
    ensures multiset(r) == multiset(s)
    ensures |r| == |s|
    ensures SortedDesc(r, key)
  {
    if s == [] then []
    else
      assert s == [s[0]] + s[1..];
      var rest := SortDesc(s[1..], key);
      InsertSorted(s[0], rest, key);
      Insert(s[0], rest, key)
  }

  /** Stability: the elements sharing any one key keep their input order. */
  lemma {:induction false} SortDescIsStable<T>(s: seq<T>, key: T -> Rank, k: Rank)
    ensures WithRank(SortDesc(s, key), key, k) == WithRank(s, key, k)
  {
    if s != [] {
      SortDescIsStable(s[1..], key, k);
      InsertWithRank(s[0], SortDesc(s[1..], key), key, k);
    }
  }

  /** `s.slice(0, end)`: a negative end counts from the back. */
  function JsSlice<T>(s: seq<T>, end: int): (r: seq<T>)
    ensures |r| == if end >= 0 then Min(end, |s|) else Max(|s| + end, 0)
    ensures r == s[..|r|]
  {
    if end >= |s| then s
    else if end >= 0 then s[..end]
    else if |s| + end >= 0 then s[..|s| + end]
    else []
  }

  function Min(a: int, b: int): int { if a <= b then a else b }

  function Max(a: int, b: int): int { if a >= b then a else b }

  /**
   * The part of `TopOfSorted` that stability gives: nothing is taken more
   * often than it occurs, and within each rank the first elements are taken.
   */
  lemma TopKeepsTies<T>(pool: seq<T>, key: T -> Rank, end: int)
    ensures var r := JsSlice(SortDesc(pool, key), end);
      && multiset(r) <= multiset(pool)
      && (forall k :: PrefixOf(WithRank(r, key, k), WithRank(pool, key, k)))
  {
    var s := SortDesc(pool, key);
    var r := JsSlice(s, end);
    PrefixMultiset(s, |r|);
    forall k
      ensures PrefixOf(WithRank(r, key, k), WithRank(pool, key, k))
    {
      WithRankOfPrefix(s, |r|, key, k);
      SortDescIsStable(pool, key, k);
    }
  }

  /**
   * `sort(...).slice(0, end)`: the taken elements come from the input,
   * each no more often than there, in order; nothing left out ranks above
   * anything taken; the taken elements of each rank are the first ones of
   * that rank in the input, in input order; and when fewer than `end` come
   * out, nothing was left out.
   */
  lemma TopOfSorted<T>(pool: seq<T>, key: T -> Rank, end: int)
    ensures var r := JsSlice(SortDesc(pool, key), end);
      && |r| <= |pool|
      && SortedDesc(r, key)
      && multiset(r) <= multiset(pool)
      && (forall k :: PrefixOf(WithRank(r, key, k), WithRank(pool, key, k)))
      && (forall i :: 0 <= i < |r| ==> r[i] in pool)
      && (forall p, i :: p in pool && p !in r && 0 <= i < |r| ==> RankGe(key(r[i]), key(p)))
      && (end >= 0 && |r| < end ==> forall p :: p in pool ==> p in r)
  {
    var s := SortDesc(pool, key);
    var r := JsSlice(s, end);
    TopKeepsTies(pool, key, end);
    assert forall i :: 0 <= i < |r| ==> r[i] in pool by {
      forall i | 0 <= i < |r|
        ensures r[i] in pool
      {
        assert r[i] in multiset(r);
      }
    }
    TopRanksAboveRest(pool, key, end);
    if end >= 0 && |r| < end {
      assert r == s;
      forall p | p in pool
        ensures p in r
      {
        assert p in multiset(s);
      }
    }
  }

  /** Nothing the slice leaves out of the sorted pool ranks above anything it takes. */
  lemma TopRanksAboveRest<T>(pool: seq<T>, key: T -> Rank, end: int)
    ensures var r := JsSlice(SortDesc(pool, key), end);
      forall p, i :: p in pool && p !in r && 0 <= i < |r| ==> RankGe(key(r[i]), key(p))
  {
    var s := SortDesc(pool, key);
    var r := JsSlice(s, end);
    forall p, i | p in pool && p !in r && 0 <= i < |r|
      ensures RankGe(key(r[i]), key(p))
    {
      assert p in multiset(s);
      var j :| 0 <= j < |s| && s[j] == p;
      assert j >= |r|;
      assert r[i] == s[i];
    }
  }

  /**
   * `TopOfSorted` for a pool filtered out of `all` by `ok`: the same
   * guarantees, stated against `all` and `ok`.
   */
  lemma TopOfSubPool<T(!new)>(pool: seq<T>, all: seq<T>, ok: T -> bool, key: T -> Rank, end: int)
    requires pool == Filter(all, ok)
    ensures var r := JsSlice(SortDesc(pool, key), end);
      && (forall i :: 0 <= i < |r| ==> r[i] in all && ok(r[i]))
      && (end >= 0 ==> |r| <= end)
      && SortedDesc(r, key)
      && (forall p, i :: p in all && ok(p) && p !in r && 0 <= i < |r| ==> RankGe(key(r[i]), key(p)))
      && (end >= 0 && |r| < end ==> forall p :: p in all && ok(p) ==> p in r)
      && multiset(r) <= multiset(all)
      && (forall k :: PrefixOf(WithRank(r, key, k), WithRank(pool, key, k)))
  {
    TopOfSorted(pool, key, end);
  }
}

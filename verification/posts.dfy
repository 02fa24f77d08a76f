/**
 * The blog's post-collection helpers: grouping by year, the tag listings and
 * counts, the Jaccard tag similarity and the related-posts recommendation.
 * Every helper works on whatever list it is given; draft filtering happens
 * before.
 */
module Posts {
  import opened StableSort
  import opened Seqs
  import Text

  /** A publish date: its instant in milliseconds and its calendar year in the local time zone. */
  datatype Date = Date(time: int, fullYear: int)

  datatype Post = Post(id: string, tags: seq<string>, publishDate: Date)

  // ---------------------------------------------------------------- years

  /** The test a post of year `y` passes. */
  function InYear(y: int): Post -> bool {
    (p: Post) => p.publishDate.fullYear == y
  }

  /** The posts published in year `y`, in list order. */
  function PostsOfYear(posts: seq<Post>, y: int): (r: seq<Post>)
    ensures forall i :: 0 <= i < |r| ==> r[i].publishDate.fullYear == y && r[i] in posts
    ensures forall p :: p in posts && p.publishDate.fullYear == y ==> p in r
  {
    assert forall p :: InYear(y)(p) == (p.publishDate.fullYear == y);
    Filter(posts, InYear(y))
  }

  /** The years the posts were published in. */
  function Years(posts: seq<Post>): set<int> {
    set i | 0 <= i < |posts| :: posts[i].publishDate.fullYear
  }

  /**
   * `groupPostsByYear(posts)`: one group per year some post has, each holding
   * that year's posts in list order.
   */
  function GroupPostsByYear(posts: seq<Post>): (groups: map<int, seq<Post>>)
    ensures groups.Keys == Years(posts)
  {
    if posts == [] then map[]
    else
      var last := |posts| - 1;
      var init := posts[..last];
      var acc := GroupPostsByYear(init);
      var y := posts[last].publishDate.fullYear;
      assert Years(posts) == Years(init) + {y} by {
        assert forall i :: 0 <= i < last ==> init[i] == posts[i];
      }
      acc[y := (if y in acc then acc[y] else []) + [posts[last]]]
  }

  /** A year no post has selects nothing. */
  lemma PostsOfOtherYear(posts: seq<Post>, y: int)
    requires y !in Years(posts)
    ensures PostsOfYear(posts, y) == []
  {
  }

  /** A post added at the end joins its year's selection at the end. */
  lemma PostsOfYearSnoc(init: seq<Post>, p: Post, y: int)
    ensures PostsOfYear(init + [p], y) == PostsOfYear(init, y) + (if p.publishDate.fullYear == y then [p] else [])
  {
    FilterAppend(init, [p], InYear(y));
    assert [p][1..] == [];
  }

  /** Each group holds exactly its year's posts, in list order, and is never empty. */
  lemma {:induction false} GroupIsFilter(posts: seq<Post>, y: int)
    requires y in GroupPostsByYear(posts)
    ensures GroupPostsByYear(posts)[y] == PostsOfYear(posts, y) != []
  {
    var last := |posts| - 1;
    var init := posts[..last];
    var x := posts[last].publishDate.fullYear;
    assert posts == init + [posts[last]];
    PostsOfYearSnoc(init, posts[last], y);
    if y in GroupPostsByYear(init) {
      GroupIsFilter(init, y);
    } else {
      PostsOfOtherYear(init, y);
    }
  }

  /** Every post lands in the group of its own year. */
  lemma EveryPostGrouped(posts: seq<Post>, i: nat)
    requires i < |posts|
    ensures var groups := GroupPostsByYear(posts);
      posts[i].publishDate.fullYear in groups && posts[i] in groups[posts[i].publishDate.fullYear]
  {
    var y := posts[i].publishDate.fullYear;
    assert y in Years(posts);
    GroupIsFilter(posts, y);
  }

  // ---------------------------------------------------------------- tags

  /** How many tags the posts carry between them, repetitions counted. */
  function TagTotal(posts: seq<Post>): nat {
    if posts == [] then 0 else |posts[0].tags| + TagTotal(posts[1..])
  }

  /**
   * `getAllTags(posts)`: every post's tags, in order, duplicates kept. A tag
   * is listed iff some post carries it, and the listing is as long as all
   * the posts' tag lists together.
   */
  function AllTags(posts: seq<Post>): (all: seq<string>)
    ensures forall t :: t in all <==> exists i :: 0 <= i < |posts| && t in posts[i].tags
    ensures |all| == TagTotal(posts)
  {
    if posts == [] then []
    else
      assert forall i :: 0 < i < |posts| ==> posts[i] == posts[1..][i - 1];
      posts[0].tags + AllTags(posts[1..])
  }

  lemma {:induction false} AllTagsAppend(a: seq<Post>, b: seq<Post>)
    ensures AllTags(a + b) == AllTags(a) + AllTags(b)
  {
    if a == [] {
      assert a + b == b;
    } else {
      assert (a + b)[0] == a[0] && (a + b)[1..] == a[1..] + b;
      AllTagsAppend(a[1..], b);
    }
  }

  /** The listing of one post is that post's tag list, as written. */
  lemma AllTagsOfOne(p: Post)
    ensures AllTags([p]) == p.tags
  {
    assert [p][1..] == [];
  }

  /** Where `x` first occurs in `s`. */
  function FirstIndex(s: seq<string>, x: string): (i: nat)
    requires x in s
    ensures i < |s| && s[i] == x && x !in s[..i]
  {
    if s[0] == x then 0
    else
      assert s == [s[0]] + s[1..];
      1 + FirstIndex(s[1..], x)
  }

  lemma {:induction false} FirstIndexPrefix(s: seq<string>, n: nat, x: string)
    requires n <= |s| && x in s[..n]
    ensures FirstIndex(s, x) == FirstIndex(s[..n], x)
  {
    if s[0] != x {
      assert s[..n][1..] == s[1..][..n - 1];
      FirstIndexPrefix(s[1..], n - 1, x);
    }
  }

  /** The elements of `r` occur in `s`, in the order of their first occurrences there. */
  predicate OrderedByFirstOccurrence(r: seq<string>, s: seq<string>) {
    forall i, j :: 0 <= i < j < |r| ==> r[i] in s && r[j] in s && FirstIndex(s, r[i]) < FirstIndex(s, r[j])
  }

  /**
   * `[...new Set(s)]`: each distinct element once, in the order of its first
   * occurrence.
   */
  function Dedup(s: seq<string>): (r: seq<string>)
    ensures Distinct(r)
    ensures forall x :: x in r <==> x in s
    ensures OrderedByFirstOccurrence(r, s)
  {
    if s == [] then []
    else
      var last := |s| - 1;
      var d := Dedup(s[..last]);
      assert s == s[..last] + [s[last]];
      DedupStep(s[..last], s[last], d);
      if s[last] in d then d else d + [s[last]]
  }

  predicate Distinct(r: seq<string>) {
    forall i, j :: 0 <= i < j < |r| ==> r[i] != r[j]
  }

  /** Seeing one more element keeps the first-occurrence listing. */
  lemma DedupStep(init: seq<string>, x: string, d: seq<string>)
    requires Distinct(d) && (forall y :: y in d <==> y in init) && OrderedByFirstOccurrence(d, init)
    ensures var r := if x in d then d else d + [x];
      Distinct(r) && (forall y :: y in r <==> y in init + [x]) && OrderedByFirstOccurrence(r, init + [x])
  {
    FirstIndexesKept(init, x, d);
    if x !in d {
      AppendNewKeepsOrder(init, x, d);
    }
  }

  /** Elements already seen keep their first index when the sequence grows. */
  lemma FirstIndexesKept(init: seq<string>, x: string, d: seq<string>)
    requires forall y :: y in d ==> y in init
    ensures forall i :: 0 <= i < |d| ==> d[i] in init + [x] && FirstIndex(init + [x], d[i]) == FirstIndex(init, d[i]) < |init|
  {
    var s := init + [x];
    assert s[..|init|] == init;
    forall i | 0 <= i < |d|
      ensures d[i] in s && FirstIndex(s, d[i]) == FirstIndex(init, d[i]) < |init|
    {
      FirstIndexPrefix(s, |init|, d[i]);
    }
  }

  lemma AppendNewKeepsOrder(init: seq<string>, x: string, d: seq<string>)
    requires x !in init && OrderedByFirstOccurrence(d, init)
    requires forall y :: y in d ==> y in init
    requires forall i :: 0 <= i < |d| ==> d[i] in init + [x] && FirstIndex(init + [x], d[i]) == FirstIndex(init, d[i]) < |init|
    ensures OrderedByFirstOccurrence(d + [x], init + [x])
  {
    var s := init + [x];
    var r := d + [x];
    assert FirstIndex(s, x) == |init| by {
      assert s[..|init|] == init;
    }
    forall i, j | 0 <= i < j < |r|
      ensures r[i] in s && r[j] in s && FirstIndex(s, r[i]) < FirstIndex(s, r[j])
    {
      assert r[i] == d[i];
      if j < |d| {
        assert r[j] == d[j];
      }
    }
  }

  /** `getUniqueTags(posts)` */
  function UniqueTags(posts: seq<Post>): (tags: seq<string>)
    ensures Distinct(tags)
    ensures forall t :: t in tags <==> exists i :: 0 <= i < |posts| && t in posts[i].tags
    ensures OrderedByFirstOccurrence(tags, AllTags(posts))
  {
    Dedup(AllTags(posts))
  }

  /** A tag and how many times it occurs. */
  datatype TagCount = TagCount(tag: string, count: nat)

  /** Counts one more occurrence of `t`, appending it when it is new (`Map.set` keeps insertion order). */
  function Bump(m: seq<TagCount>, t: string): (r: seq<TagCount>)
    ensures |r| == if exists i :: 0 <= i < |m| && m[i].tag == t then |m| else |m| + 1
  {
    if m == [] then [TagCount(t, 1)]
    else if m[0].tag == t then [TagCount(t, m[0].count + 1)] + m[1..]
    else
      assert forall i :: 0 < i < |m| ==> m[i] == m[1..][i - 1];
      [m[0]] + Bump(m[1..], t)
  }

  lemma {:induction false} BumpPresent(m: seq<TagCount>, t: string, k: nat)
    requires k < |m| && m[k].tag == t
    requires forall i :: 0 <= i < k ==> m[i].tag != t
    ensures Bump(m, t) == m[k := TagCount(t, m[k].count + 1)]
  {
    if k > 0 {
      BumpPresent(m[1..], t, k - 1);
    }
  }

  lemma {:induction false} BumpAbsent(m: seq<TagCount>, t: string)
    requires forall i :: 0 <= i < |m| ==> m[i].tag != t
    ensures Bump(m, t) == m + [TagCount(t, 1)]
  {
    if m != [] {
      BumpAbsent(m[1..], t);
    }
  }

  /** The tag-to-count map folded over `s`, as its entries in insertion order. */
  function Tally(s: seq<string>): (m: seq<TagCount>)
  {
    if s == [] then [] else Bump(Tally(s[..|s| - 1]), s[|s| - 1])
  }

  /** The tally holds each distinct tag once, in first-occurrence order, with its number of occurrences. */
  predicate TallyMatches(s: seq<string>) {
    && |Tally(s)| == |Dedup(s)|
    && forall i :: 0 <= i < |Tally(s)| ==> Tally(s)[i] == TagCount(Dedup(s)[i], multiset(s)[Dedup(s)[i]])
  }

  lemma {:induction false} TallyCounts(s: seq<string>)
    ensures TallyMatches(s)
  {
    if s != [] {
      var last := |s| - 1;
      TallyCounts(s[..last]);
      assert s == s[..last] + [s[last]];
      TallyStep(s[..last], s[last]);
    }
  }

  /** Counting one more tag keeps the tally matching. */
  lemma TallyStep(init: seq<string>, x: string)
    requires TallyMatches(init)
    ensures TallyMatches(init + [x])
  {
    var s := init + [x];
    var d := Dedup(init);
    assert Tally(s) == Bump(Tally(init), x) && Dedup(s) == (if x in d then d else d + [x]) by {
      assert s[..|s| - 1] == init;
    }
    assert multiset(s) == multiset(init) + multiset{x};
    assert x !in d ==> multiset(init)[x] == 0;
    BumpMatches(Tally(init), d, multiset(init), x);
  }

  /** `Bump` on a tally that lists `d` with the counts of `ms` lists `d` (with `x` appended if new) with the counts of `ms + {x}`. */
  lemma BumpMatches(m: seq<TagCount>, d: seq<string>, ms: multiset<string>, x: string)
    requires |m| == |d|
    requires forall i :: 0 <= i < |m| ==> m[i] == TagCount(d[i], ms[d[i]])
    requires forall i, j :: 0 <= i < j < |d| ==> d[i] != d[j]
    requires x !in d ==> ms[x] == 0
    ensures var d' := if x in d then d else d + [x];
      && |Bump(m, x)| == |d'|
      && forall i :: 0 <= i < |d'| ==> Bump(m, x)[i] == TagCount(d'[i], (ms + multiset{x})[d'[i]])
  {
    if x in d {
      var k :| 0 <= k < |d| && d[k] == x;
      forall i | 0 <= i < k
        ensures m[i].tag != x
      {
        assert m[i].tag == d[i];
      }
      BumpPresent(m, x, k);
    } else {
      BumpAbsent(m, x);
    }
  }

  function ByCount(c: TagCount): Rank {
    Rank(c.count as real, 0)
  }

  /** The elements of `s` appear in increasing first-occurrence order in `all`. */
  predicate InFirstOccurrenceOrder(s: seq<TagCount>, all: seq<string>) {
    forall i, j :: 0 <= i < j < |s| ==>
      (s[i].tag in all && s[j].tag in all && FirstIndex(all, s[i].tag) < FirstIndex(all, s[j].tag))
  }

  lemma WithRankKeepsOrder(s: seq<TagCount>, all: seq<string>, k: Rank)
    requires forall i :: 0 <= i < |s| ==> s[i].tag in all
    requires InFirstOccurrenceOrder(s, all)
    ensures InFirstOccurrenceOrder(WithRank(s, ByCount, k), all)
    ensures forall i :: 0 <= i < |WithRank(s, ByCount, k)| ==> WithRank(s, ByCount, k)[i] in s
  {
    var pos := (c: TagCount) => if c.tag in all then FirstIndex(all, c.tag) else -1;
    WithRankMembers(s, ByCount, k);
    WithRankKeepsIncreasing(s, ByCount, k, pos);
  }

  /** Each entry's tag occurs in `all`, and its count is the tag's number of occurrences there. */
  predicate CountsOccurrences(counts: seq<TagCount>, all: seq<string>) {
    forall i :: 0 <= i < |counts| ==> counts[i].tag in all && counts[i].count == multiset(all)[counts[i].tag]
  }

  /** Every tag of `all` has an entry. */
  predicate CoversTags(counts: seq<TagCount>, all: seq<string>) {
    forall t :: t in all ==> exists i :: 0 <= i < |counts| && counts[i].tag == t
  }

  predicate DistinctTags(counts: seq<TagCount>) {
    forall i, j :: 0 <= i < j < |counts| ==> counts[i].tag != counts[j].tag
  }

  lemma TallyListing(all: seq<string>)
    ensures DistinctTags(Tally(all)) && CountsOccurrences(Tally(all), all) && CoversTags(Tally(all), all)
    ensures InFirstOccurrenceOrder(Tally(all), all)
  {
    TallyCounts(all);
    var d := Dedup(all);
    var tally := Tally(all);
    assert forall i :: 0 <= i < |tally| ==> tally[i].tag == d[i];
    assert CoversTags(tally, all) by {
      forall t | t in all
        ensures exists i :: 0 <= i < |tally| && tally[i].tag == t
      {
        assert t in d;
        var i :| 0 <= i < |d| && d[i] == t;
        assert tally[i].tag == t;
      }
    }
    assert CountsOccurrences(tally, all) by {
      assert forall i :: 0 <= i < |d| ==> d[i] in d;
    }
  }

  /** Two equal elements at different positions occur at least twice. */
  lemma TwiceInMultiset<T>(s: seq<T>, i: nat, j: nat)
    requires i < j < |s| && s[i] == s[j]
    ensures multiset(s)[s[i]] >= 2
  {
    assert s == s[..j] + s[j..];
    assert s[i] == s[..j][i] && s[j] == s[j..][0];
    assert s[i] in multiset(s[..j]) && s[j] in multiset(s[j..]);
  }

  /** A listing with distinct tags holds each entry once. */
  lemma {:induction false} DistinctTagsOnce(counts: seq<TagCount>, c: TagCount)
    requires DistinctTags(counts)
    ensures multiset(counts)[c] <= 1
  {
    if counts != [] {
      assert counts == [counts[0]] + counts[1..];
      DistinctTagsOnce(counts[1..], c);
      if counts[0] == c {
        assert c !in counts[1..];
      }
    }
  }

  /** A permutation of a tag listing is a tag listing of the same tags. */
  lemma PermutedListing(a: seq<TagCount>, b: seq<TagCount>, all: seq<string>)
    requires multiset(a) == multiset(b)
    requires DistinctTags(a) && CountsOccurrences(a, all) && CoversTags(a, all)
    ensures DistinctTags(b) && CountsOccurrences(b, all) && CoversTags(b, all)
  {
    forall i | 0 <= i < |b|
      ensures b[i].tag in all && b[i].count == multiset(all)[b[i].tag]
    {
      assert b[i] in multiset(a);
    }
    forall t | t in all
      ensures exists i :: 0 <= i < |b| && b[i].tag == t
    {
      var k :| 0 <= k < |a| && a[k].tag == t;
      assert a[k] in multiset(b);
    }
    forall i, j | 0 <= i < j < |b|
      ensures b[i].tag != b[j].tag
    {
      // Entries with the same tag have the same count, so they would be one entry listed twice.
      if b[i] == b[j] {
        TwiceInMultiset(b, i, j);
        DistinctTagsOnce(a, b[i]);
      }
    }
  }

  /**
   * `getUniqueTagsWithCount(posts)`: each distinct tag with its number of
   * occurrences, most frequent first; tags with equal counts keep the order in
   * which they first occur.
   */
  function UniqueTagsWithCount(posts: seq<Post>): (counts: seq<TagCount>)
    ensures DistinctTags(counts)
    ensures CountsOccurrences(counts, AllTags(posts)) && CoversTags(counts, AllTags(posts))
    ensures forall i, j :: 0 <= i < j < |counts| ==> counts[i].count >= counts[j].count
    ensures forall k :: InFirstOccurrenceOrder(WithRank(counts, ByCount, k), AllTags(posts))
  {
    var all := AllTags(posts);
    var tally := Tally(all);
    var counts := SortDesc(tally, ByCount);
    assert DistinctTags(counts) && CountsOccurrences(counts, all) && CoversTags(counts, all) by {
      TallyListing(all);
      PermutedListing(tally, counts, all);
    }
    assert forall k :: InFirstOccurrenceOrder(WithRank(counts, ByCount, k), all) by {
      forall k
        ensures InFirstOccurrenceOrder(WithRank(counts, ByCount, k), all)
      {
        TallyListing(all);
        SortDescIsStable(tally, ByCount, k);
        WithRankKeepsOrder(tally, all, k);
      }
    }
    counts
  }
  // ---------------------------------------------------------------- similarity

  function TagSet(p: Post): set<string> {
    set t | t in p.tags
  }

  /**
   * `calculateTagSimilarity(a, b)`: the Jaccard coefficient of the two posts'
   * tag sets, and 0 when either has no tags.
   */
  function TagSimilarity(a: Post, b: Post): (r: real)
    ensures 0.0 <= r <= 1.0
    ensures r > 0.0 <==> TagSet(a) * TagSet(b) != {}
    ensures r == 1.0 <==> TagSet(a) == TagSet(b) != {}
  {
    var s1, s2 := TagSet(a), TagSet(b);
    if |s1| == 0 || |s2| == 0 then 0.0
    else
      var shared, union := s1 * s2, s1 + s2;
      Text.SubsetSize(shared, union);
      Text.SubsetSize(s1, union);
      assert shared == union ==> s1 == s2;
      assert |shared| == 0 <==> shared == {};
      var n, d := |shared| as real, |union| as real;
      assert 0.0 <= n <= d && d > 0.0;
      RatioFacts(n, d);
      n / d
  }

  /** A ratio of a part to a positive whole lies in [0, 1], is positive iff the part is, and is 1 iff the part is the whole. */
  lemma RatioFacts(n: real, d: real)
    requires 0.0 <= n <= d && d > 0.0
    ensures 0.0 <= n / d <= 1.0
    ensures n / d > 0.0 <==> n > 0.0
    ensures n / d == 1.0 <==> n == d
  {
    assert n / d * d == n;
  }

  lemma SimilarityIsSymmetric(a: Post, b: Post)
    ensures TagSimilarity(a, b) == TagSimilarity(b, a)
  {
    assert TagSet(a) * TagSet(b) == TagSet(b) * TagSet(a);
    assert TagSet(a) + TagSet(b) == TagSet(b) + TagSet(a);
  }

  // ---------------------------------------------------------------- related posts

  /** A post that may be recommended alongside `current`: another post, with tags. */
  predicate IsCandidate(current: Post, p: Post) {
    p.id != current.id && |p.tags| > 0
  }

  /** A candidate sharing at least one tag with `current`. */
  predicate IsSimilar(current: Post, p: Post) {
    IsCandidate(current, p) && TagSimilarity(current, p) > 0.0
  }

  /** The tests the two `filter` calls apply, as values. */
  function CandidateTest(current: Post): Post -> bool {
    p => IsCandidate(current, p)
  }

  function SharesTagTest(current: Post): Post -> bool {
    p => TagSimilarity(current, p) > 0.0
  }

  function SimilarTest(current: Post): Post -> bool {
    p => IsSimilar(current, p)
  }

  /** `allPosts.filter(...)`: the candidates, in their listed order. */
  function Candidates(current: Post, all: seq<Post>): seq<Post> {
    Filter(all, CandidateTest(current))
  }

  /** `.filter(item => item.similarity > 0)` over the candidates: the similar ones, in their listed order. */
  function Similar(current: Post, all: seq<Post>): seq<Post> {
    Filter(Candidates(current, all), SharesTagTest(current))
  }

  /** The candidates are the other tagged posts, none more often than listed. */
  lemma CandidatesMembers(current: Post, all: seq<Post>)
    ensures forall p :: p in Candidates(current, all) <==> p in all && IsCandidate(current, p)
    ensures multiset(Candidates(current, all)) <= multiset(all)
  {
  }

  /** The similar posts are the candidates sharing a tag, none more often than listed. */
  lemma SimilarMembers(current: Post, all: seq<Post>)
    ensures forall p :: p in Similar(current, all) <==> p in all && IsSimilar(current, p)
    ensures multiset(Similar(current, all)) <= multiset(all)
  {
    CandidatesMembers(current, all);
  }

  /** Newest first. */
  function Recency(p: Post): Rank {
    Rank(0.0, p.publishDate.time)
  }

  /** Most similar to `current` first, then newest first. */
  function Closeness(current: Post): Post -> Rank {
    p => Rank(TagSimilarity(current, p), p.publishDate.time)
  }

  /** The fallback: the most recent candidates. */
  function MostRecent(current: Post, all: seq<Post>, maxResults: int): (r: seq<Post>)
    ensures forall i :: 0 <= i < |r| ==> r[i] in all && IsCandidate(current, r[i])
    ensures maxResults >= 0 ==> |r| <= maxResults
    ensures SortedDesc(r, Recency)
    ensures forall p, i :: p in all && IsCandidate(current, p) && p !in r && 0 <= i < |r| ==>
      RankGe(Recency(r[i]), Recency(p))
    ensures maxResults >= 0 && |r| < maxResults ==> forall p :: p in all && IsCandidate(current, p) ==> p in r
    ensures multiset(r) <= multiset(all)
    ensures forall k :: PrefixOf(WithRank(r, Recency, k), WithRank(Candidates(current, all), Recency, k))
  {
    var pool := Candidates(current, all);
    TopOfSubPool(pool, all, CandidateTest(current), Recency, maxResults);
    JsSlice(SortDesc(pool, Recency), maxResults)
  }

  /** The candidates sharing a tag with `current`, most similar first, then most recent. */
  function MostSimilar(current: Post, all: seq<Post>, maxResults: int): (r: seq<Post>)
    ensures forall i :: 0 <= i < |r| ==> r[i] in all && IsSimilar(current, r[i])
    ensures maxResults >= 0 ==> |r| <= maxResults
    ensures SortedDesc(r, Closeness(current))
    ensures forall p, i :: p in all && IsSimilar(current, p) && p !in r && 0 <= i < |r| ==>
      RankGe(Closeness(current)(r[i]), Closeness(current)(p))
    ensures maxResults >= 0 && |r| < maxResults ==> forall p :: p in all && IsSimilar(current, p) ==> p in r
    ensures multiset(r) <= multiset(all)
    ensures forall k :: PrefixOf(WithRank(r, Closeness(current), k), WithRank(Similar(current, all), Closeness(current), k))
  {
    var similar := Similar(current, all);
    FilterOfFilter(all, CandidateTest(current), SharesTagTest(current), SimilarTest(current));
    TopOfSubPool(similar, all, SimilarTest(current), Closeness(current), maxResults);
    JsSlice(SortDesc(similar, Closeness(current)), maxResults)
  }

  /**
   * `getRelatedPosts(current, all, maxResults)`: when some other tagged post
   * shares a tag with `current`, the most similar such posts, ties broken by
   * recency; otherwise the most recent other tagged posts. At most
   * `maxResults` are returned; a negative `maxResults` drops that many from
   * the end, as `slice` does.
   */
  function RelatedPosts(current: Post, all: seq<Post>, maxResults: int): (r: seq<Post>)
    ensures (exists p :: p in all && IsSimilar(current, p)) ==> r == MostSimilar(current, all, maxResults)
    ensures (forall p :: p in all ==> !IsSimilar(current, p)) ==> r == MostRecent(current, all, maxResults)
  {
    var similar := Similar(current, all);
    SimilarMembers(current, all);
    if |current.tags| == 0 || |similar| == 0 then
      assert forall p :: p in all ==> !IsSimilar(current, p) by {
        if |current.tags| == 0 {
          assert TagSet(current) == {};
        } else {
          assert forall p :: p in all && IsSimilar(current, p) ==> p in similar;
        }
      }
      MostRecent(current, all, maxResults)
    else
      assert similar[0] in similar;
      MostSimilar(current, all, maxResults)
  }
}

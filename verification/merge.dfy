/** getFeedEntries: cached entries and freshly fetched ones are merged with
    the first copy of every ID winning, stably sorted newest first, and
    enriched. */
module Merge {
  import opened Entries
  import opened VideoDuration
  import opened Enrich

  function Ids(xs: seq<FeedEntry>): set<string> {
    set e | e in xs :: e.id
  }

  predicate DistinctIds(xs: seq<FeedEntry>) {
    forall a, b :: 0 <= a < b < |xs| ==> xs[a].id != xs[b].id
  }

  /** The position of the first entry carrying `id`. */
  function FirstIndex(xs: seq<FeedEntry>, id: string): (i: nat)
    requires id in Ids(xs)
    ensures i < |xs| && xs[i].id == id
    ensures forall j :: 0 <= j < i ==> xs[j].id != id
  {
    if xs[0].id == id then 0
    else
      assert exists e :: e in xs[1..] && e.id == id by {
        var e :| e in xs && e.id == id;
        assert e != xs[0];
      }
      1 + FirstIndex(xs[1..], id)
  }

  /** An entry whose ID did not occur before it is the first of its ID. */
  lemma FirstIndexOfNew(xs: seq<FeedEntry>, i: nat)
    requires i < |xs| && xs[i].id !in Ids(xs[..i])
    ensures xs[i].id in Ids(xs) && FirstIndex(xs, xs[i].id) == i
  {
    assert xs[i] in xs;
    forall j | 0 <= j < i
      ensures xs[j].id != xs[i].id
    {
      assert xs[j] in xs[..i];
    }
  }

  /** An ID that occurs in a prefix has its first occurrence there. */
  lemma FirstIndexInPrefix(xs: seq<FeedEntry>, i: nat, id: string)
    requires i <= |xs| && id in Ids(xs[..i])
    ensures id in Ids(xs) && FirstIndex(xs, id) == FirstIndex(xs[..i], id)
  {
    var e :| e in xs[..i] && e.id == id;
    assert e in xs;
    var f, g := FirstIndex(xs, id), FirstIndex(xs[..i], id);
    assert xs[g].id == id;
  }

  lemma IdsAppend(xs: seq<FeedEntry>, x: FeedEntry)
    ensures Ids(xs + [x]) == Ids(xs) + {x.id}
  {
    assert forall e :: e in xs + [x] <==> e in xs || e == x;
  }

  /** What the dedup loop has established after scanning `xs[..i]`. */
  ghost predicate DedupInvariant(xs: seq<FeedEntry>, i: nat, r: seq<FeedEntry>) {
    && i <= |xs|
    && Ids(r) == Ids(xs[..i])
    && DistinctIds(r)
    && (forall k :: 0 <= k < |r| ==> r[k].id in Ids(xs) && r[k] == xs[FirstIndex(xs, r[k].id)])
    && (forall k :: 0 <= k < |r| ==> FirstIndex(xs, r[k].id) < i)
    && (forall a, b :: 0 <= a < b < |r| ==> FirstIndex(xs, r[a].id) < FirstIndex(xs, r[b].id))
  }

  lemma DedupSkip(xs: seq<FeedEntry>, i: nat, r: seq<FeedEntry>)
    requires i < |xs| && DedupInvariant(xs, i, r) && xs[i].id in Ids(r)
    ensures DedupInvariant(xs, i + 1, r)
  {
    IdsAppend(xs[..i], xs[i]);
    assert xs[..i + 1] == xs[..i] + [xs[i]];
  }

  lemma DedupKeep(xs: seq<FeedEntry>, i: nat, r: seq<FeedEntry>)
    requires i < |xs| && DedupInvariant(xs, i, r) && xs[i].id !in Ids(r)
    ensures DedupInvariant(xs, i + 1, r + [xs[i]])
  {
    IdsAppend(xs[..i], xs[i]);
    assert xs[..i + 1] == xs[..i] + [xs[i]];
    FirstIndexOfNew(xs, i);
    IdsAppend(r, xs[i]);
    var r' := r + [xs[i]];
    forall a, b | 0 <= a < b < |r'|
      ensures r'[a].id != r'[b].id
    {
      if b == |r| {
        assert r[a] in r;
      }
    }
  }

  /** The loop over the concatenation of cached and fetched entries with a
      `seen` set: an entry is appended iff its ID has not been seen. */
  method DedupById(xs: seq<FeedEntry>) returns (r: seq<FeedEntry>)
    ensures DistinctIds(r)
    ensures Ids(r) == Ids(xs)
    ensures forall k :: 0 <= k < |r| ==> r[k].id in Ids(xs) && r[k] == xs[FirstIndex(xs, r[k].id)]
    ensures forall a, b :: 0 <= a < b < |r| ==> FirstIndex(xs, r[a].id) < FirstIndex(xs, r[b].id)
  {
    var seen: set<string> := {};
    r := [];
    var i := 0;
    while i < |xs|
      invariant seen == Ids(r)
      invariant DedupInvariant(xs, i, r)
    {
      if xs[i].id !in seen {
        DedupKeep(xs, i, r);
        IdsAppend(r, xs[i]);
        seen := seen + {xs[i].id};
        r := r + [xs[i]];
      } else {
        DedupSkip(xs, i, r);
      }
      i := i + 1;
    }
    assert xs[..i] == xs;
  }

  /** Sorted newest first by `key`. */
  predicate SortedDesc<T>(key: T -> int, xs: seq<T>) {
    forall a, b :: 0 <= a < b < |xs| ==> key(xs[a]) >= key(xs[b])
  }

  /** The elements whose key is `k`, in their order in `xs`. */
  function WithKey<T>(key: T -> int, xs: seq<T>, k: int): seq<T> {
    if |xs| == 0 then []
    else (if key(xs[0]) == k then [xs[0]] else []) + WithKey(key, xs[1..], k)
  }

  /** Inserts `x` before the first element whose key is not larger, so that
      `x` precedes the elements of equal key that came after it. */
  function InsertDesc<T(==)>(key: T -> int, x: T, s: seq<T>): (r: seq<T>)
    requires SortedDesc(key, s)
    ensures SortedDesc(key, r)
    ensures multiset(r) == multiset(s) + multiset{x}
  {
    if |s| == 0 || key(s[0]) <= key(x) then
      [x] + s
    else
      var t := InsertDesc(key, x, s[1..]);
      assert s == [s[0]] + s[1..];
      forall b | 0 <= b < |t|
        ensures key(t[b]) <= key(s[0])
      {
        assert t[b] in multiset(t);
        assert t[b] == x || t[b] in multiset(s[1..]);
      }
      ConsSorted(key, s[0], t);
      [s[0]] + t
  }

  lemma ConsSorted<T>(key: T -> int, h: T, t: seq<T>)
    requires SortedDesc(key, t)
    requires forall b :: 0 <= b < |t| ==> key(t[b]) <= key(h)
    ensures SortedDesc(key, [h] + t)
  {
    forall a, b | 0 <= a < b < |t| + 1
      ensures key(([h] + t)[a]) >= key(([h] + t)[b])
    {
      assert ([h] + t)[b] == t[b - 1];
    }
  }

  lemma WithKeyCons<T>(key: T -> int, a: T, t: seq<T>, k: int)
    ensures WithKey(key, [a] + t, k) == (if key(a) == k then [a] else []) + WithKey(key, t, k)
  {
    assert ([a] + t)[1..] == t;
  }

  /** Insertion puts `x` first among the elements of its key. */
  lemma {:induction false} InsertDescWithKey<T>(key: T -> int, x: T, s: seq<T>, k: int)
    requires SortedDesc(key, s)
    ensures WithKey(key, InsertDesc(key, x, s), k) == (if key(x) == k then [x] else []) + WithKey(key, s, k)
  {
    if |s| == 0 || key(s[0]) <= key(x) {
      WithKeyCons(key, x, s, k);
    } else {
      var t := InsertDesc(key, x, s[1..]);
      InsertDescWithKey(key, x, s[1..], k);
      WithKeyCons(key, s[0], t, k);
      WithKeyCons(key, s[0], s[1..], k);
      assert s == [s[0]] + s[1..];
    }
  }

  /** sort.SliceStable with "published later" as the order: an insertion
      sort, newest first, stable. */
  function SortDesc<T(==)>(key: T -> int, xs: seq<T>): (r: seq<T>)
    ensures SortedDesc(key, r)
    ensures multiset(r) == multiset(xs)
    ensures forall k :: WithKey(key, r, k) == WithKey(key, xs, k)
  {
    if |xs| == 0 then []
    else
      assert xs == [xs[0]] + xs[1..];
      var r := InsertDesc(key, xs[0], SortDesc(key, xs[1..]));
      forall k
        ensures WithKey(key, r, k) == WithKey(key, xs, k)
      {
        InsertDescWithKey(key, xs[0], SortDesc(key, xs[1..]), k);
      }
      r
  }

  lemma {:induction false} WithKeyMembers<T>(key: T -> int, xs: seq<T>, k: int)
    ensures forall y :: y in WithKey(key, xs, k) <==> y in xs && key(y) == k
  {
    if |xs| > 0 {
      WithKeyMembers(key, xs[1..], k);
      assert xs == [xs[0]] + xs[1..];
    }
  }

  lemma {:induction false} WithKeyAppend<T>(key: T -> int, a: seq<T>, b: seq<T>, k: int)
    ensures WithKey(key, a + b, k) == WithKey(key, a, k) + WithKey(key, b, k)
  {
    if |a| > 0 {
      WithKeyAppend(key, a[1..], b, k);
      assert (a + b)[0] == a[0];
      assert (a + b)[1..] == a[1..] + b;
    } else {
      assert a + b == b;
    }
  }

  /** The number of elements of key `k` before position `i`. */
  function Rank<T>(key: T -> int, xs: seq<T>, i: nat, k: int): nat
    requires i <= |xs|
  {
    |WithKey(key, xs[..i], k)|
  }

  /** The element at `i` sits at position Rank in its key's subsequence,
      and a later element of the same key sits further on. */
  lemma RankPosition<T>(key: T -> int, xs: seq<T>, i: nat, j: nat)
    requires i < j <= |xs| && i < |xs|
    ensures Rank(key, xs, i, key(xs[i])) < |WithKey(key, xs, key(xs[i]))|
    ensures WithKey(key, xs, key(xs[i]))[Rank(key, xs, i, key(xs[i]))] == xs[i]
    ensures Rank(key, xs, i, key(xs[i])) < Rank(key, xs, j, key(xs[i]))
  {
    var k := key(xs[i]);
    assert xs == xs[..i] + [xs[i]] + xs[i + 1..];
    WithKeyAppend(key, xs[..i] + [xs[i]], xs[i + 1..], k);
    WithKeyAppend(key, xs[..i], [xs[i]], k);
    assert xs[..j] == xs[..i] + [xs[i]] + xs[i + 1..j];
    WithKeyAppend(key, xs[..i] + [xs[i]], xs[i + 1..j], k);
  }

  /** Every position of a key's subsequence is the rank of some element. */
  lemma {:induction false} RankOnto<T>(key: T -> int, xs: seq<T>, k: int, p: nat)
    requires p < |WithKey(key, xs, k)|
    ensures exists i :: 0 <= i < |xs| && key(xs[i]) == k && Rank(key, xs, i, k) == p
                        && xs[i] == WithKey(key, xs, k)[p]
    decreases |xs|
  {
    var n := |xs|;
    var front := xs[..n - 1];
    assert xs == front + [xs[n - 1]];
    WithKeyAppend(key, front, [xs[n - 1]], k);
    if p < |WithKey(key, front, k)| {
      RankOnto(key, front, k, p);
      var i :| 0 <= i < |front| && key(front[i]) == k && Rank(key, front, i, k) == p
               && front[i] == WithKey(key, front, k)[p];
      assert front[..i] == xs[..i];
    } else {
      assert xs[..n - 1] == front;
      assert Rank(key, xs, n - 1, k) == p;
    }
  }

  lemma RankMonotone<T>(key: T -> int, xs: seq<T>, i: nat, j: nat, k: int)
    requires i <= j <= |xs|
    ensures Rank(key, xs, i, k) <= Rank(key, xs, j, k)
  {
    assert xs[..j] == xs[..i] + xs[i..j];
    WithKeyAppend(key, xs[..i], xs[i..j], k);
  }

  /** Two arrangements with the same subsequence for every key keep the
      relative order of every pair of elements that share a key. */
  lemma TieOrder<T>(key: T -> int, r: seq<T>, xs: seq<T>, a: nat, b: nat)
    requires forall k :: WithKey(key, r, k) == WithKey(key, xs, k)
    requires a < b < |r| && key(r[a]) == key(r[b])
    ensures exists i, j :: 0 <= i < j < |xs| && xs[i] == r[a] && xs[j] == r[b]
  {
    var k := key(r[a]);
    RankPosition(key, r, a, b);
    RankPosition(key, r, b, |r|);
    var pa, pb := Rank(key, r, a, k), Rank(key, r, b, k);
    RankOnto(key, xs, k, pa);
    RankOnto(key, xs, k, pb);
    var i :| 0 <= i < |xs| && key(xs[i]) == k && Rank(key, xs, i, k) == pa && xs[i] == WithKey(key, xs, k)[pa];
    var j :| 0 <= j < |xs| && key(xs[j]) == k && Rank(key, xs, j, k) == pb && xs[j] == WithKey(key, xs, k)[pb];
    if j <= i {
      RankMonotone(key, xs, j, i, k);
    }
  }

  /** A non-empty sequence has a non-empty subsequence for some key. */
  lemma WithKeyAllEmpty<T>(key: T -> int, xs: seq<T>)
    ensures (forall k :: WithKey(key, xs, k) == []) ==> xs == []
  {
    if |xs| > 0 {
      WithKeyCons(key, xs[0], xs[1..], key(xs[0]));
      assert xs == [xs[0]] + xs[1..];
      assert WithKey(key, xs, key(xs[0])) != [];
    }
  }

  /** A stable sort is determined by its input: two sequences sorted newest
      first that agree on every key's subsequence are equal. So the result
      of any stable sort, the source's included, is the one modelled here. */
  lemma {:induction false} StableSortUnique<T>(key: T -> int, a: seq<T>, b: seq<T>)
    requires SortedDesc(key, a) && SortedDesc(key, b)
    requires forall k :: WithKey(key, a, k) == WithKey(key, b, k)
    ensures a == b
    decreases |a|
  {
    if |a| == 0 {
      assert forall k :: WithKey(key, b, k) == [];
      WithKeyAllEmpty(key, b);
    } else if |b| == 0 {
      assert forall k :: WithKey(key, a, k) == [];
      WithKeyAllEmpty(key, a);
    } else {
      assert a == [a[0]] + a[1..];
      assert b == [b[0]] + b[1..];
      var ka, kb := key(a[0]), key(b[0]);
      WithKeyMembers(key, a, ka);
      WithKeyMembers(key, b, ka);
      WithKeyMembers(key, a, kb);
      WithKeyMembers(key, b, kb);
      assert a[0] in WithKey(key, a, ka);
      assert b[0] in WithKey(key, b, kb);
      var ia :| 0 <= ia < |b| && b[ia] == a[0];
      var ib :| 0 <= ib < |a| && a[ib] == b[0];
      assert ka == kb;
      WithKeyCons(key, a[0], a[1..], ka);
      WithKeyCons(key, b[0], b[1..], ka);
      assert a[0] == WithKey(key, a, ka)[0] == WithKey(key, b, ka)[0] == b[0];
      forall k
        ensures WithKey(key, a[1..], k) == WithKey(key, b[1..], k)
      {
        WithKeyCons(key, a[0], a[1..], k);
        WithKeyCons(key, b[0], b[1..], k);
        var pre := if key(a[0]) == k then [a[0]] else [];
        assert pre + WithKey(key, a[1..], k) == pre + WithKey(key, b[1..], k);
        assert WithKey(key, a[1..], k) == (pre + WithKey(key, a[1..], k))[|pre|..];
      }
      StableSortUnique(key, a[1..], b[1..]);
    }
  }

  /** Every entry in the order the merge visits them: the cached entries
      first, then each fetched feed's entries in turn. */
  function MergeOrder(feeds: seq<Feed>, cached: seq<FeedEntry>): seq<FeedEntry> {
    cached + FeedsEntries(feeds)
  }

  /** A cached entry beats any fetched entry with the same ID. */
  lemma CachedCopyWins(cached: seq<FeedEntry>, fetched: seq<FeedEntry>, id: string)
    requires id in Ids(cached)
    ensures id in Ids(cached + fetched)
    ensures FirstIndex(cached + fetched, id) == FirstIndex(cached, id)
  {
    assert (cached + fetched)[..|cached|] == cached;
    FirstIndexInPrefix(cached + fetched, |cached|, id);
  }

  /** The first copy of every ID can be enriched without a panic. */
  predicate FirstCopiesEnrichable(fetch: Fetcher, all: seq<FeedEntry>) {
    forall i :: 0 <= i < |all| && all[i].id in Ids(all) && FirstIndex(all, all[i].id) == i ==>
      CanEnrich(fetch, all[i])
  }

  lemma ConsDistinct(x: FeedEntry, s: seq<FeedEntry>)
    requires DistinctIds(s) && x.id !in Ids(s)
    ensures DistinctIds([x] + s)
  {
    var r := [x] + s;
    forall a, b | 0 <= a < b < |r|
      ensures r[a].id != r[b].id
    {
      assert r[b] == s[b - 1] && r[b] in s;
    }
  }

  /** The head of a sequence of distinct IDs is not repeated in its tail. */
  lemma HeadDistinct(s: seq<FeedEntry>)
    requires |s| > 0 && DistinctIds(s)
    ensures DistinctIds(s[1..]) && s[0].id !in Ids(s[1..])
  {
    forall e | e in s[1..]
      ensures e.id != s[0].id
    {
      var j :| 0 <= j < |s[1..]| && s[1..][j] == e;
      assert s[j + 1] == e;
    }
  }

  /** Two sequences with the same elements have the same IDs. */
  lemma SameMultisetIds(r: seq<FeedEntry>, xs: seq<FeedEntry>)
    requires multiset(r) == multiset(xs)
    ensures Ids(r) == Ids(xs)
  {
    forall e
      ensures e in r <==> e in xs
    {
      assert e in r <==> e in multiset(r);
      assert e in xs <==> e in multiset(xs);
    }
  }

  lemma {:induction false} InsertDescDistinct(key: FeedEntry -> int, x: FeedEntry, s: seq<FeedEntry>)
    requires SortedDesc(key, s) && DistinctIds(s) && x.id !in Ids(s)
    ensures DistinctIds(InsertDesc(key, x, s))
    decreases |s|
  {
    if |s| == 0 || key(s[0]) <= key(x) {
      ConsDistinct(x, s);
    } else {
      HeadDistinct(s);
      assert s == [s[0]] + s[1..];
      assert Ids(s) == {s[0].id} + Ids(s[1..]);
      InsertDescDistinct(key, x, s[1..]);
      var t := InsertDesc(key, x, s[1..]);
      SameMultisetIds(t, s[1..] + [x]);
      IdsAppend(s[1..], x);
      ConsDistinct(s[0], t);
    }
  }

  lemma {:induction false} SortDescDistinct(key: FeedEntry -> int, xs: seq<FeedEntry>)
    requires DistinctIds(xs)
    ensures DistinctIds(SortDesc(key, xs))
    ensures Ids(SortDesc(key, xs)) == Ids(xs)
    decreases |xs|
  {
    SameMultisetIds(SortDesc(key, xs), xs);
    if |xs| > 0 {
      HeadDistinct(xs);
      SortDescDistinct(key, xs[1..]);
      InsertDescDistinct(key, xs[0], SortDesc(key, xs[1..]));
    }
  }

  /** `e` is the first entry of `all` carrying its ID. */
  predicate IsFirstCopy(all: seq<FeedEntry>, e: FeedEntry) {
    e.id in Ids(all) && all[FirstIndex(all, e.id)] == e
  }

  /** Sorting the deduplicated entries keeps one first copy per ID, and
      entries with equal keys stay in merge order. */
  lemma SortedFirstCopies(key: FeedEntry -> int, all: seq<FeedEntry>, merged: seq<FeedEntry>)
    requires DistinctIds(merged) && Ids(merged) == Ids(all)
    requires forall k :: 0 <= k < |merged| ==> IsFirstCopy(all, merged[k])
    requires forall a, b :: 0 <= a < b < |merged| ==> FirstIndex(all, merged[a].id) < FirstIndex(all, merged[b].id)
    ensures var sorted := SortDesc(key, merged);
      && DistinctIds(sorted) && Ids(sorted) == Ids(all)
      && (forall k :: 0 <= k < |sorted| ==> IsFirstCopy(all, sorted[k]))
      && (forall a, b :: 0 <= a < b < |sorted| && key(sorted[a]) == key(sorted[b]) ==>
            FirstIndex(all, sorted[a].id) < FirstIndex(all, sorted[b].id))
  {
    var sorted := SortDesc(key, merged);
    SortDescDistinct(key, merged);
    forall k | 0 <= k < |sorted|
      ensures IsFirstCopy(all, sorted[k])
    {
      assert sorted[k] in multiset(merged);
      var i :| 0 <= i < |merged| && merged[i] == sorted[k];
    }
    forall a, b | 0 <= a < b < |sorted| && key(sorted[a]) == key(sorted[b])
      ensures FirstIndex(all, sorted[a].id) < FirstIndex(all, sorted[b].id)
    {
      TieOrder(key, sorted, merged, a, b);
      var i, j :| 0 <= i < j < |merged| && merged[i] == sorted[a] && merged[j] == sorted[b];
    }
  }

  /** `e` is the enrichment of the first entry of `all` that carries its ID. */
  predicate IsEnrichedFirstCopy(fetch: Fetcher, all: seq<FeedEntry>, e: FeedEntry) {
    && e.id in Ids(all)
    && CanEnrich(fetch, all[FirstIndex(all, e.id)])
    && e == AddMetadata(fetch, all[FirstIndex(all, e.id)])
  }

  /** Enrichment keeps the ID and the sort key of every entry. */
  lemma EnrichPointwise(key: FeedEntry -> int, fetch: Fetcher, sorted: seq<FeedEntry>, r: seq<FeedEntry>)
    requires forall e: FeedEntry, x: ExtraMetadata :: key(e) == key(e.(extra := x))
    requires forall k :: 0 <= k < |sorted| ==> CanEnrich(fetch, sorted[k])
    requires |r| == |sorted| && forall k :: 0 <= k < |r| ==> r[k] == AddMetadata(fetch, sorted[k])
    ensures forall k :: 0 <= k < |r| ==> r[k].id == sorted[k].id && key(r[k]) == key(sorted[k])
    ensures Ids(r) == Ids(sorted)
  {
    forall k | 0 <= k < |r|
      ensures r[k].id == sorted[k].id && key(r[k]) == key(sorted[k])
    {
      assert r[k].(extra := sorted[k].extra) == sorted[k];
      assert key(r[k]) == key(r[k].(extra := sorted[k].extra));
    }
    forall e | e in r
      ensures e.id in Ids(sorted)
    {
      var k :| 0 <= k < |r| && r[k] == e;
      assert sorted[k] in sorted;
    }
    forall e | e in sorted
      ensures e.id in Ids(r)
    {
      var k :| 0 <= k < |sorted| && sorted[k] == e;
      assert r[k] in r;
    }
  }

  /** What getFeedEntries promises of its result `r` for the merge order
      `all`. */
  predicate IsMergedResult(parse: TimeParser, fetch: Fetcher, all: seq<FeedEntry>, r: seq<FeedEntry>) {
    // each ID once, and every ID seen
    && DistinctIds(r)
    && Ids(r) == Ids(all)
    // the first copy of an ID is the one kept, then enriched
    && (forall k :: 0 <= k < |r| ==> IsEnrichedFirstCopy(fetch, all, r[k]))
    // newest first; entries published at the same time keep merge order
    && SortedDesc(e => PublishedKey(parse, e), r)
    && (forall a, b :: 0 <= a < b < |r| && PublishedKey(parse, r[a]) == PublishedKey(parse, r[b]) ==>
          FirstIndex(all, r[a].id) < FirstIndex(all, r[b].id))
  }

  /** getFeedEntries: merge with the first copy of each ID winning, sort
      stably newest first, then enrich every entry. */
  method GetFeedEntries(parse: TimeParser, fetch: Fetcher, feeds: seq<Feed>, cached: seq<FeedEntry>)
    returns (r: seq<FeedEntry>)
    requires FirstCopiesEnrichable(fetch, MergeOrder(feeds, cached))
    ensures IsMergedResult(parse, fetch, MergeOrder(feeds, cached), r)
  {
    var all := MergeOrder(feeds, cached);
    var merged := DedupById(all);
    var key := e => PublishedKey(parse, e);
    SortedFirstCopies(key, all, merged);
    var sorted := SortDesc(key, merged);
    forall k | 0 <= k < |sorted|
      ensures CanEnrich(fetch, sorted[k])
    {
      var i := FirstIndex(all, sorted[k].id);
      assert all[i] == sorted[k];
    }
    r := BulkAddMetadata(fetch, sorted);
    EnrichPointwise(key, fetch, sorted, r);
  }

  /** In the result of getFeedEntries, an ID that was cached carries the
      cached copy through addMetadata; a cached copy that is already
      enriched comes out exactly as it was stored. */
  lemma CachedMetadataSurvives(fetch: Fetcher, feeds: seq<Feed>, cached: seq<FeedEntry>, r: seq<FeedEntry>, k: nat)
    requires k < |r| && IsEnrichedFirstCopy(fetch, MergeOrder(feeds, cached), r[k])
    requires r[k].id in Ids(cached)
    ensures var c := cached[FirstIndex(cached, r[k].id)];
      && CanEnrich(fetch, c) && r[k] == AddMetadata(fetch, c)
      && (IsEnriched(c) ==> r[k] == c)
  {
    CachedCopyWins(cached, FeedsEntries(feeds), r[k].id);
    var all := MergeOrder(feeds, cached);
    assert all[FirstIndex(cached, r[k].id)] == cached[FirstIndex(cached, r[k].id)];
    var c := cached[FirstIndex(cached, r[k].id)];
    if IsEnriched(c) {
      EnrichedIsFixedPoint(fetch, c);
    }
  }
}

/** The "sort by popularity" button: a stable sort of the catalog,
    descending by popularity score, with a missing score counted as 0. */
module Popularity {
  import opened Catalog
  import Seqs

  /** The sort key `p.popularite || 0`. */
  function Score(p: Product): int {
    p.popularite.GetOr(0)
  }

  /** Scores never increase from left to right. */
  ghost predicate NonIncreasing(s: seq<Product>) {
    forall i, j :: 0 <= i < j < |s| ==> Score(s[i]) >= Score(s[j])
  }

  function HasPopularity(k: int): Product -> bool {
    p => Score(p) == k
  }

  /** The products of `s` whose score is `k`, in their order in `s`. */
  function WithPopularity(s: seq<Product>, k: int): seq<Product> {
    Seqs.Filter(s, HasPopularity(k))
  }

  /** Dropping the first product keeps the order. */
  lemma TailNonIncreasing(t: seq<Product>)
    requires |t| > 0 && NonIncreasing(t)
    ensures NonIncreasing(t[1..])
  {
    forall i, j | 0 <= i < j < |t[1..]|
      ensures Score(t[1..][i]) >= Score(t[1..][j])
    {
      assert t[1..][i] == t[i + 1] && t[1..][j] == t[j + 1];
    }
  }

  /** A product scoring at least as much as everything after it may lead. */
  lemma ConsNonIncreasing(h: Product, t: seq<Product>)
    requires NonIncreasing(t)
    requires forall y :: y in t ==> Score(y) <= Score(h)
    ensures NonIncreasing([h] + t)
  {
    var s := [h] + t;
    forall i, j | 0 <= i < j < |s|
      ensures Score(s[i]) >= Score(s[j])
    {
      assert s[j] == t[j - 1];
      if i > 0 {
        assert s[i] == t[i - 1];
      }
    }
  }

  /** Places `x` in front of the first product of `t` whose score is not
      above its own, so `x` follows every product that outranks it and
      precedes every product it ties with. */
  function Insert(x: Product, t: seq<Product>): (r: seq<Product>)
    ensures multiset(r) == multiset(t) + multiset{x}
    ensures forall y :: y in r ==> y == x || y in t
  {
    if |t| == 0 || Score(x) >= Score(t[0]) then
      [x] + t
    else
      assert t == [t[0]] + t[1..];
      [t[0]] + Insert(x, t[1..])
  }

  /** Inserting into a non-increasing sequence keeps it non-increasing. */
  lemma {:induction false} InsertNonIncreasing(x: Product, t: seq<Product>)
    requires NonIncreasing(t)
    ensures NonIncreasing(Insert(x, t))
  {
    if |t| == 0 || Score(x) >= Score(t[0]) {
      forall y | y in t ensures Score(y) <= Score(x) {
        var j :| 0 <= j < |t| && t[j] == y;
        assert j == 0 || Score(t[0]) >= Score(t[j]);
      }
      ConsNonIncreasing(x, t);
    } else {
      TailNonIncreasing(t);
      InsertNonIncreasing(x, t[1..]);
      forall y | y in t[1..] ensures Score(y) <= Score(t[0]) {
        var j :| 0 <= j < |t[1..]| && t[1..][j] == y;
        assert t[1..][j] == t[j + 1];
      }
      ConsNonIncreasing(t[0], Insert(x, t[1..]));
    }
  }

  /** `produits.sort((a, b) => (b.popularite || 0) - (a.popularite || 0))`:
      a permutation of the catalog ordered by non-increasing score. */
  function SortByPopularity(s: seq<Product>): (r: seq<Product>)
    ensures multiset(r) == multiset(s)
    ensures NonIncreasing(r)
  {
    if |s| == 0 then []
    else
      var rest := SortByPopularity(s[1..]);
      InsertNonIncreasing(s[0], rest);
      assert s == [s[0]] + s[1..];
      Insert(s[0], rest)
  }

  /** The score class of a sequence with a known first product. */
  lemma WithPopularityCons(h: Product, rest: seq<Product>, k: int)
    ensures WithPopularity([h] + rest, k) == (if Score(h) == k then [h] else []) + WithPopularity(rest, k)
  {
    Seqs.FilterAppend([h], rest, HasPopularity(k));
  }

  /** Inserting `x` among equal-score products puts it first among them and
      leaves the other score classes as they were. */
  lemma {:induction false} InsertStable(x: Product, t: seq<Product>, k: int)
    decreases |t|, 1
    ensures WithPopularity(Insert(x, t), k)
         == (if Score(x) == k then [x] else []) + WithPopularity(t, k)
  {
    if |t| == 0 || Score(x) >= Score(t[0]) {
      WithPopularityCons(x, t, k);
    } else {
      InsertStableStep(x, t, k);
    }
  }

  /** The step of `InsertStable` where `x` moves past the first product. */
  lemma {:induction false} InsertStableStep(x: Product, t: seq<Product>, k: int)
    requires |t| > 0 && Score(x) < Score(t[0])
    ensures WithPopularity(Insert(x, t), k)
         == (if Score(x) == k then [x] else []) + WithPopularity(t, k)
    decreases |t|, 0
  {
    var t1 := t[1..];
    var ins := Insert(x, t1);
    assert Insert(x, t) == [t[0]] + ins;
    WithPopularityCons(t[0], ins, k);
    assert t == [t[0]] + t1;
    WithPopularityCons(t[0], t1, k);
    InsertStable(x, t1, k);
    var rest := WithPopularity(t1, k);
    if Score(x) == k {
      assert Score(t[0]) != k;
      assert [] + rest == rest;
      assert WithPopularity(t, k) == rest;
      assert WithPopularity(ins, k) == [x] + rest;
      assert WithPopularity(Insert(x, t), k) == [x] + rest;
    } else {
      var h := if Score(t[0]) == k then [t[0]] else [];
      assert [] + rest == rest;
      assert WithPopularity(ins, k) == rest;
      assert WithPopularity(t, k) == h + rest;
      assert WithPopularity(Insert(x, t), k) == h + rest;
      assert [] + (h + rest) == h + rest;
    }
  }

  /** The sort is stable: among products with equal score, the sorted
      catalog keeps their previous relative order. */
  lemma {:induction false} SortIsStable(s: seq<Product>, k: int)
    ensures WithPopularity(SortByPopularity(s), k) == WithPopularity(s, k)
  {
    if |s| > 0 {
      SortIsStable(s[1..], k);
      InsertStable(s[0], SortByPopularity(s[1..]), k);
      WithPopularityCons(s[0], s[1..], k);
      assert s == [s[0]] + s[1..];
    }
  }

  /** A filtered view of a non-increasing catalog is non-increasing. */
  lemma FilterKeepsOrder(s: seq<Product>, c: Criteria)
    requires NonIncreasing(s)
    ensures NonIncreasing(FilterCatalog(s, c))
  {
    var r := FilterCatalog(s, c);
    var idx := Seqs.KeptPositions(s, MatchesCriteria(c));
    assert Seqs.PicksAt(r, s, idx);
    forall i, j | 0 <= i < j < |r|
      ensures Score(r[i]) >= Score(r[j])
    {
      assert idx[i] < idx[j] < |s|;
      assert r[i] == s[idx[i]] && r[j] == s[idx[j]];
    }
  }

  /** The button's effect: the catalog is reordered for good, then filtered.
      The new view holds the same products as the unsorted view, ordered by
      non-increasing score, with equal-score products in their old order. */
  lemma SortThenFilter(catalog: seq<Product>, c: Criteria)
    ensures multiset(FilterCatalog(SortByPopularity(catalog), c)) == multiset(FilterCatalog(catalog, c))
    ensures NonIncreasing(FilterCatalog(SortByPopularity(catalog), c))
    ensures forall k :: WithPopularity(FilterCatalog(SortByPopularity(catalog), c), k)
                     == WithPopularity(FilterCatalog(catalog, c), k)
  {
    var sorted := SortByPopularity(catalog);
    Seqs.FilterPermutation(sorted, catalog, MatchesCriteria(c));
    FilterKeepsOrder(sorted, c);
    forall k
      ensures WithPopularity(FilterCatalog(sorted, c), k) == WithPopularity(FilterCatalog(catalog, c), k)
    {
      SortIsStable(catalog, k);
      Seqs.FilterCommute(sorted, MatchesCriteria(c), HasPopularity(k));
      Seqs.FilterCommute(catalog, MatchesCriteria(c), HasPopularity(k));
    }
  }
}

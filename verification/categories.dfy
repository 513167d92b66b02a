/** Category derivation: the sections the catalog is rendered in, and the
    options offered by the category selector. */
module Categories {
  import opened Catalog
  import Seqs

  /** Every category some product lists. */
  function ListedCategories(prods: seq<Product>): set<string> {
    set p, c | p in prods && c in p.categorie :: c
  }

  /** Every category entry of the catalog, in catalog order, duplicates
      included. */
  function AllListed(prods: seq<Product>): seq<string> {
    if |prods| == 0 then []
    else AllListed(prods[..|prods| - 1]) + prods[|prods| - 1].categorie
  }

  function ListsCategory(cat: string): Product -> bool {
    (p: Product) => cat in p.categorie
  }

  /** The products that list `cat`, in catalog order. */
  function Listing(prods: seq<Product>, cat: string): seq<Product> {
    Seqs.Filter(prods, ListsCategory(cat))
  }

  /** How many entries of `cats` are `cat`. */
  function Occ(cats: seq<string>, cat: string): nat {
    if |cats| == 0 then 0 else (if cats[0] == cat then 1 else 0) + Occ(cats[1..], cat)
  }

  /** `k` copies of `p`. */
  function Repeat(p: Product, k: nat): seq<Product> {
    if k == 0 then [] else [p] + Repeat(p, k - 1)
  }

  /** Each product, in catalog order, once per entry `cat` has in its
      category list. */
  function Expanded(prods: seq<Product>, cat: string): seq<Product> {
    if |prods| == 0 then []
    else Repeat(prods[0], Occ(prods[0].categorie, cat)) + Expanded(prods[1..], cat)
  }

  /** Section buckets under construction: category name to products. */
  type Groups = map<string, seq<Product>>

  /** The bucket for `cat`, empty while it has not been created. */
  function Bucket(g: Groups, cat: string): seq<Product> {
    if cat in g then g[cat] else []
  }

  /** `groupes[cat].push(prod)`, creating the bucket on first use. */
  function Push(g: Groups, cat: string, p: Product): Groups {
    g[cat := Bucket(g, cat) + [p]]
  }

  /** Pushes `p` into the bucket of each entry of `cats`, left to right. */
  function PushAll(g: Groups, p: Product, cats: seq<string>): Groups
    decreases |cats|
  {
    if |cats| == 0 then g else PushAll(Push(g, cats[0], p), p, cats[1..])
  }

  /** The grouping pass of the renderer: products in order, and for each
      product its categories in order. */
  function Group(prods: seq<Product>): Groups {
    if |prods| == 0 then map[]
    else
      var last := prods[|prods| - 1];
      PushAll(Group(prods[..|prods| - 1]), last, last.categorie)
  }

  /** Pushing a product through its category list adds, to the end of each
      bucket, one copy of it per entry naming that bucket's category. */
  lemma {:induction false} PushAllBucket(g: Groups, p: Product, cats: seq<string>, cat: string)
    ensures Bucket(PushAll(g, p, cats), cat) == Bucket(g, cat) + Repeat(p, Occ(cats, cat))
    decreases |cats|
  {
    if |cats| > 0 {
      var g1 := Push(g, cats[0], p);
      PushAllBucket(g1, p, cats[1..], cat);
      if cats[0] == cat {
        assert Bucket(g1, cat) == Bucket(g, cat) + [p];
        assert Repeat(p, Occ(cats, cat)) == [p] + Repeat(p, Occ(cats[1..], cat));
      } else {
        assert Bucket(g1, cat) == Bucket(g, cat);
      }
    }
  }

  /** Pushing a product never loses a bucket and touches only the buckets
      it lists; every entry it adds is that product. */
  lemma {:induction false} PushAllMembers(g: Groups, p: Product, cats: seq<string>)
    ensures PushAll(g, p, cats).Keys == g.Keys + set c | c in cats
    ensures forall cat, q :: q in Bucket(PushAll(g, p, cats), cat)
                          <==> q in Bucket(g, cat) || (q == p && cat in cats)
    decreases |cats|
  {
    if |cats| > 0 {
      PushAllMembers(Push(g, cats[0], p), p, cats[1..]);
      assert cats == [cats[0]] + cats[1..];
      assert (set c | c in cats) == {cats[0]} + set c | c in cats[1..];
    }
  }

  /** The categories of a longer catalog. */
  lemma ListedCategoriesSnoc(prods: seq<Product>, p: Product)
    ensures ListedCategories(prods + [p]) == ListedCategories(prods) + set c | c in p.categorie
  {
    var lhs := ListedCategories(prods + [p]);
    var rhs := ListedCategories(prods) + set c | c in p.categorie;
    forall c | c in lhs ensures c in rhs {
      var q :| q in prods + [p] && c in q.categorie;
    }
    forall c | c in rhs ensures c in lhs {
      if c !in p.categorie {
        var q :| q in prods && c in q.categorie;
        assert q in prods + [p];
      } else {
        assert p in prods + [p];
      }
    }
  }

  /** One section is rendered per category that some product lists, no more. */
  lemma {:induction false} GroupKeys(prods: seq<Product>)
    ensures Group(prods).Keys == ListedCategories(prods)
  {
    if |prods| > 0 {
      var init := prods[..|prods| - 1];
      var last := prods[|prods| - 1];
      GroupKeys(init);
      PushAllMembers(Group(init), last, last.categorie);
      assert prods == init + [last];
      ListedCategoriesSnoc(init, last);
    }
  }

  /** A section holds exactly the products that list its category (once per
      listing), and every product appears under each category it lists. */
  lemma {:induction false} GroupMembers(prods: seq<Product>)
    ensures forall cat, q :: q in Bucket(Group(prods), cat) <==> q in prods && cat in q.categorie
  {
    if |prods| > 0 {
      var init := prods[..|prods| - 1];
      var last := prods[|prods| - 1];
      GroupMembers(init);
      PushAllMembers(Group(init), last, last.categorie);
      assert prods == init + [last];
    }
  }

  /** One step of the grouping pass, seen from a single section. */
  lemma GroupSnocBucket(prods: seq<Product>, cat: string)
    requires |prods| > 0
    ensures Bucket(Group(prods), cat)
         == Bucket(Group(prods[..|prods| - 1]), cat)
          + Repeat(prods[|prods| - 1], Occ(prods[|prods| - 1].categorie, cat))
  {
    var last := prods[|prods| - 1];
    PushAllBucket(Group(prods[..|prods| - 1]), last, last.categorie, cat);
  }

  /** The expansion of a longer catalog ends with the new product's copies. */
  lemma {:induction false} ExpandedSnoc(prods: seq<Product>, p: Product, cat: string)
    ensures Expanded(prods + [p], cat) == Expanded(prods, cat) + Repeat(p, Occ(p.categorie, cat))
  {
    if |prods| == 0 {
      assert Expanded([p], cat) == Repeat(p, Occ(p.categorie, cat)) + Expanded([], cat);
    } else {
      var longer := prods + [p];
      var head := Repeat(prods[0], Occ(prods[0].categorie, cat));
      var tail := Repeat(p, Occ(p.categorie, cat));
      ExpandedSnoc(prods[1..], p, cat);
      assert longer[0] == prods[0];
      assert longer[1..] == prods[1..] + [p];
      assert Expanded(longer, cat) == head + (Expanded(prods[1..], cat) + tail);
      assert Expanded(prods, cat) == head + Expanded(prods[1..], cat);
    }
  }

  /** Each section is every product, in catalog order, repeated once per
      entry its category list has for that section: a product listing a
      category twice is shown twice there. */
  lemma {:induction false} GroupIsExpanded(prods: seq<Product>, cat: string)
    ensures Bucket(Group(prods), cat) == Expanded(prods, cat)
  {
    if |prods| > 0 {
      var init := prods[..|prods| - 1];
      var last := prods[|prods| - 1];
      GroupIsExpanded(init, cat);
      GroupSnocBucket(prods, cat);
      ExpandedSnoc(init, last, cat);
      assert prods == init + [last];
    }
  }

  /** In a duplicate-free list, a category occurs once if listed and not at
      all otherwise. */
  lemma {:induction false} OccDistinct(cats: seq<string>, cat: string)
    requires Seqs.Distinct(cats)
    ensures Occ(cats, cat) == if cat in cats then 1 else 0
  {
    if |cats| > 0 {
      var rest := cats[1..];
      assert Seqs.Distinct(rest) by {
        forall i, j | 0 <= i < j < |rest| ensures rest[i] != rest[j] {
          assert rest[i] == cats[i + 1] && rest[j] == cats[j + 1];
        }
      }
      OccDistinct(rest, cat);
      assert cats == [cats[0]] + rest;
      if cats[0] == cat {
        assert cat !in rest by {
          forall j | 0 <= j < |rest| ensures rest[j] != cat {
            assert rest[j] == cats[j + 1];
          }
        }
      }
    }
  }

  /** One more product extends the listing by that product when it lists `cat`. */
  lemma ListingSnoc(prods: seq<Product>, cat: string)
    requires |prods| > 0
    ensures Listing(prods, cat)
         == Listing(prods[..|prods| - 1], cat)
          + (if cat in prods[|prods| - 1].categorie then [prods[|prods| - 1]] else [])
  {
    var init := prods[..|prods| - 1];
    var last := prods[|prods| - 1];
    assert prods == init + [last];
    Seqs.FilterAppend(init, [last], ListsCategory(cat));
    assert [last][1..] == [];
  }

  /** When no product lists a category twice, each section is exactly the
      catalog filtered by that category, in catalog order. */
  lemma {:induction false} GroupIsListing(prods: seq<Product>, cat: string)
    requires forall i :: 0 <= i < |prods| ==> Seqs.Distinct(prods[i].categorie)
    ensures Bucket(Group(prods), cat) == Listing(prods, cat)
  {
    if |prods| > 0 {
      var last := prods[|prods| - 1];
      GroupIsListing(prods[..|prods| - 1], cat);
      GroupSnocBucket(prods, cat);
      ListingSnoc(prods, cat);
      OccDistinct(last.categorie, cat);
      assert Repeat(last, 1) == [last];
    }
  }

  /** The elements of `s` in order of first appearance: what a `Set` built
      by adding them one by one iterates over. */
  function FirstSeen(s: seq<string>): (r: seq<string>)
    ensures forall x :: x in r <==> x in s
    ensures Seqs.Distinct(r)
  {
    if |s| == 0 then []
    else
      var init := s[..|s| - 1];
      var last := s[|s| - 1];
      assert s == init + [last];
      if last in init then FirstSeen(init) else FirstSeen(init) + [last]
  }

  /** One more element extends the first-appearance order when it is new. */
  lemma FirstSeenSnoc(s: seq<string>, x: string)
    ensures FirstSeen(s + [x]) == if x in s then FirstSeen(s) else FirstSeen(s) + [x]
  {
    assert (s + [x])[..|s|] == s;
  }

  /** One more entry of `cs` extends the first-appearance order when new. */
  lemma FirstSeenStep(seen: seq<string>, cs: seq<string>, j: nat)
    requires j < |cs|
    ensures FirstSeen(seen + cs[..j + 1])
         == if cs[j] in seen + cs[..j] then FirstSeen(seen + cs[..j])
            else FirstSeen(seen + cs[..j]) + [cs[j]]
  {
    var before := seen + cs[..j];
    FirstSeenSnoc(before, cs[j]);
    assert before + [cs[j]] == seen + cs[..j + 1];
  }

  /** The position where `x` first occurs in `s`. */
  function FirstIdx(s: seq<string>, x: string): (r: nat)
    requires x in s
    ensures r < |s| && s[r] == x && x !in s[..r]
  {
    if s[0] == x then 0
    else
      assert x in s[1..] by { assert s == [s[0]] + s[1..]; }
      var k := FirstIdx(s[1..], x);
      assert s[..k + 1] == [s[0]] + s[1..][..k];
      k + 1
  }

  /** Appending an element does not move the first occurrence of an
      element already present, and a new element first occurs at the end. */
  lemma FirstIdxSnoc(s: seq<string>, y: string, x: string)
    requires x in s + [y]
    ensures x in s ==> FirstIdx(s + [y], x) == FirstIdx(s, x)
    ensures x !in s ==> FirstIdx(s + [y], x) == |s|
  {
    var t := s + [y];
    if |s| > 0 && s[0] != x {
      assert t[0] == s[0] && t[1..] == s[1..] + [y];
      assert x in s <==> x in s[1..] by { assert s == [s[0]] + s[1..]; }
      FirstIdxSnoc(s[1..], y, x);
    }
  }

  /** `FirstSeen` lists the elements in the order of their first occurrence. */
  lemma {:induction false} FirstSeenOrder(s: seq<string>)
    ensures forall i, j :: 0 <= i < j < |FirstSeen(s)|
              ==> FirstIdx(s, FirstSeen(s)[i]) < FirstIdx(s, FirstSeen(s)[j])
  {
    if |s| > 0 {
      var init := s[..|s| - 1];
      var last := s[|s| - 1];
      assert s == init + [last];
      var r0 := FirstSeen(init);
      var r := FirstSeen(s);
      FirstSeenOrder(init);
      forall i, j | 0 <= i < j < |r|
        ensures FirstIdx(s, r[i]) < FirstIdx(s, r[j])
      {
        assert r[i] == r0[i] && r[i] in init;
        FirstIdxSnoc(init, last, r[i]);
        if j < |r0| {
          assert r[j] == r0[j];
          FirstIdxSnoc(init, last, r[j]);
        } else {
          assert r[j] == last && last !in init;
          FirstIdxSnoc(init, last, last);
        }
      }
    }
  }

  /** The categories listed somewhere in the catalog. */
  lemma {:induction false} AllListedMembers(prods: seq<Product>)
    ensures forall c :: c in AllListed(prods) <==> c in ListedCategories(prods)
  {
    if |prods| > 0 {
      var init := prods[..|prods| - 1];
      AllListedMembers(init);
      ListedCategoriesSnoc(init, prods[|prods| - 1]);
      assert prods == init + [prods[|prods| - 1]];
    }
  }

  /** Accepts the categories the selector does not offer yet. */
  function NotOffered(options: seq<string>): string -> bool {
    (c: string) => c !in options
  }

  /** Adds each entry of `cs` in turn to the insertion-ordered set `cats`
      holding what `seen` listed. */
  method AddEach(cats: seq<string>, ghost seen: seq<string>, cs: seq<string>) returns (r: seq<string>)
    requires cats == FirstSeen(seen)
    ensures r == FirstSeen(seen + cs)
  {
    r := cats;
    assert seen + cs[..0] == seen;
    for j := 0 to |cs|
      invariant r == FirstSeen(seen + cs[..j])
    {
      FirstSeenStep(seen, cs, j);
      if cs[j] !in r {
        r := r + [cs[j]];
      }
    }
    assert cs[..|cs|] == cs;
  }

  /** The entries of one more product follow those of the products before it. */
  lemma AllListedStep(prods: seq<Product>, i: nat)
    requires i < |prods|
    ensures AllListed(prods[..i + 1]) == AllListed(prods[..i]) + prods[i].categorie
  {
    assert prods[..i + 1][..i] == prods[..i];
  }

  /** The first pass of `populateCategories`: every category entry of the
      catalog added in turn to a `Set`, which keeps insertion order. */
  method CollectCategories(prods: seq<Product>) returns (cats: seq<string>)
    ensures cats == FirstSeen(AllListed(prods))
  {
    cats := [];
    for i := 0 to |prods|
      invariant cats == FirstSeen(AllListed(prods[..i]))
    {
      cats := AddEach(cats, AllListed(prods[..i]), prods[i].categorie);
      AllListedStep(prods, i);
    }
    assert prods[..|prods|] == prods;
  }

  /** The second pass of `populateCategories`: each collected category the
      selector does not offer yet becomes a new option, in collection order. */
  method AppendMissing(options: seq<string>, cats: seq<string>) returns (result: seq<string>)
    requires Seqs.Distinct(cats)
    ensures result == options + Seqs.Filter(cats, NotOffered(options))
  {
    result := options;
    for k := 0 to |cats|
      invariant result == options + Seqs.Filter(cats[..k], NotOffered(options))
    {
      assert cats[k] !in cats[..k];
      Seqs.FilterStep(cats, k, NotOffered(options));
      if cats[k] !in result {
        result := result + [cats[k]];
      }
    }
    assert cats[..|cats|] == cats;
  }

  /** `populateCategories`: collects the categories in order of first
      appearance, then appends to the selector's options each one not
      already offered. */
  method PopulateCategories(options: seq<string>, prods: seq<Product>) returns (result: seq<string>)
    ensures result == options + Seqs.Filter(FirstSeen(AllListed(prods)), NotOffered(options))
    ensures |result| >= |options| && result[..|options|] == options
    ensures forall c :: c in result <==> c in options || c in ListedCategories(prods)
    ensures forall i, j :: |options| <= i < j < |result| ==> result[i] != result[j]
    ensures forall i :: |options| <= i < |result| ==> result[i] !in options
  {
    var cats := CollectCategories(prods);
    result := AppendMissing(options, cats);
    var added := Seqs.Filter(cats, NotOffered(options));
    AllListedMembers(prods);
    Seqs.FilterDistinct(cats, NotOffered(options));
    assert result[..|options|] == options;
    assert forall i :: |options| <= i < |result| ==> result[i] == added[i - |options|];
  }
}

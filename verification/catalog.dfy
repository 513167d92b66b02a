/** The catalog and the filter engine behind the category selector, the
    search bar and the price inputs. */
module Catalog {
  import opened Wrappers
  import opened Text
  import Seqs

  /** A product record as loaded from the catalog document; only the fields
      the core logic reads are kept. `categorie` may list the same category
      more than once, and `nom` need not be unique. */
  datatype Product = Product(
    nom: string,
    prix: int,
    categorie: seq<string>,
    disponible: bool,
    popularite: Option<int>)

  /** The category selector's value that disables the category check. */
  const AllCategories: string := "all"

  /** The state of the filter controls once read: the selected category, the
      search text, the minimum price and the maximum price (`None` when the
      maximum field is empty, which the page reads as +infinity). */
  datatype Criteria = Criteria(
    category: string,
    search: string,
    minPrice: int,
    maxPrice: Option<int>)

  /** The controls in their initial state: every category, no search text,
      minimum 0 (`value || 0`) and no maximum (`value || Infinity`). */
  const DefaultCriteria: Criteria := Criteria(AllCategories, "", 0, None)

  predicate InCategory(p: Product, c: Criteria) {
    c.category == AllCategories || c.category in p.categorie
  }

  /** Case-insensitive substring match of the search text in the name. */
  predicate InSearch(p: Product, c: Criteria) {
    Contains(Lower(p.nom), Lower(c.search))
  }

  /** Both price bounds are inclusive. */
  predicate InPrice(p: Product, c: Criteria) {
    c.minPrice <= p.prix && (c.maxPrice.None? || p.prix <= c.maxPrice.value)
  }

  /** The predicate the page hands to `filter`: all three checks pass. */
  predicate Matches(p: Product, c: Criteria) {
    InCategory(p, c) && InSearch(p, c) && InPrice(p, c)
  }

  /** `Matches` as a first-class predicate, so every use denotes the same value. */
  function MatchesCriteria(c: Criteria): Product -> bool {
    p => Matches(p, c)
  }

  /** The view shown after any change to the filter controls. */
  function FilterCatalog(catalog: seq<Product>, c: Criteria): (r: seq<Product>)
    ensures |r| <= |catalog|
    ensures forall p :: p in r <==> p in catalog && Matches(p, c)
    ensures forall i :: 0 <= i < |r| ==> Matches(r[i], c)
  {
    Seqs.Filter(catalog, MatchesCriteria(c))
  }

  /** The catalog positions shown in the view: exactly those whose product
      passes the category, search and price checks, in increasing order, and
      the view is the catalog read at these positions. */
  function ShownPositions(catalog: seq<Product>, c: Criteria): (idx: seq<nat>)
    ensures Seqs.PicksAt(FilterCatalog(catalog, c), catalog, idx)
    ensures forall i :: 0 <= i < |catalog| ==> (Matches(catalog[i], c) <==> i in idx)
  {
    Seqs.KeptPositions(catalog, MatchesCriteria(c))
  }

  /** The empty search text is found in every name. */
  lemma EmptySearchMatches(p: Product)
    ensures InSearch(p, Criteria(AllCategories, "", 0, None))
  {
    assert Lower("") == "";
    assert OccursAt(Lower(p.nom), "", 0);
  }

  /** With the controls in their initial state the view is the whole catalog,
      in order, exactly when no product has a negative price. */
  lemma DefaultFilterIsIdentity(catalog: seq<Product>)
    ensures FilterCatalog(catalog, DefaultCriteria) == catalog
        <==> forall i :: 0 <= i < |catalog| ==> catalog[i].prix >= 0
  {
    forall i | 0 <= i < |catalog|
      ensures Matches(catalog[i], DefaultCriteria) <==> catalog[i].prix >= 0
    {
      EmptySearchMatches(catalog[i]);
    }
    Seqs.FilterIdentity(catalog, MatchesCriteria(DefaultCriteria));
  }

  /** A product that lists no category is never shown under a concrete category. */
  lemma UncategorisedExcluded(catalog: seq<Product>, c: Criteria, p: Product)
    requires c.category != AllCategories
    requires p.categorie == []
    ensures p !in FilterCatalog(catalog, c)
  {
  }
}

/** The shopping cart: an ordered list of products, duplicates allowed,
    with its running total and the count shown on the cart badge. */
module Cart {
  import opened Catalog

  /** One line per click on "add"; the line's position is its index. */
  type Cart = seq<Product>

  /** The sum of the prices of all lines. */
  function Total(cart: Cart): int {
    if |cart| == 0 then 0 else cart[0].prix + Total(cart[1..])
  }

  /** The cart badge: the number of lines. */
  function Count(cart: Cart): nat {
    |cart|
  }

  /** Totals add up over concatenation. */
  lemma {:induction false} TotalAppend(a: Cart, b: Cart)
    ensures Total(a + b) == Total(a) + Total(b)
  {
    if |a| == 0 {
      assert a + b == b;
    } else {
      assert (a + b)[1..] == a[1..] + b;
      TotalAppend(a[1..], b);
    }
  }

  /** The cart panel's fold: walks the lines in order, accumulating prices. */
  method ComputeTotal(cart: Cart) returns (total: int)
    ensures total == Total(cart)
  {
    total := 0;
    for i := 0 to |cart|
      invariant total == Total(cart[..i])
    {
      TotalAppend(cart[..i], [cart[i]]);
      assert cart[..i + 1] == cart[..i] + [cart[i]];
      total := total + cart[i].prix;
    }
    assert cart[..|cart|] == cart;
  }

  /** `ajouterPanier`: appends the product as a new last line, merging
      nothing. Availability is not checked here. */
  function Add(cart: Cart, p: Product): (r: Cart)
    ensures Count(r) == Count(cart) + 1
    ensures r[..|cart|] == cart && r[|cart|] == p
    ensures Total(r) == Total(cart) + p.prix
  {
    TotalAppend(cart, [p]);
    cart + [p]
  }

  /** `panier.splice(idx, 1)`: deletes the line at `idx`; an index past the
      end deletes nothing. */
  function RemoveAt(cart: Cart, idx: nat): (r: Cart)
    ensures idx >= |cart| ==> r == cart
    ensures idx < |cart| ==> Count(r) == Count(cart) - 1
    ensures idx < |cart| ==> forall k :: 0 <= k < idx ==> r[k] == cart[k]
    ensures idx < |cart| ==> forall k :: idx <= k < |r| ==> r[k] == cart[k + 1]
    ensures idx < |cart| ==> Total(r) == Total(cart) - cart[idx].prix
  {
    if idx < |cart| then
      TotalAppend(cart[..idx], cart[idx + 1..]);
      TotalAppend(cart[..idx], cart[idx..]);
      assert cart[..idx] + cart[idx..] == cart;
      assert cart[idx..] == [cart[idx]] + cart[idx + 1..];
      cart[..idx] + cart[idx + 1..]
    else
      cart
  }

  /** Removing a line keeps every other line: the cart loses exactly one
      copy of the removed product. */
  lemma RemoveAtMultiset(cart: Cart, idx: nat)
    requires idx < |cart|
    ensures multiset(RemoveAt(cart, idx)) + multiset{cart[idx]} == multiset(cart)
  {
    assert cart == cart[..idx] + [cart[idx]] + cart[idx + 1..];
  }

  /** Removing the line just added restores the cart, and so its total and count. */
  lemma AddThenRemove(cart: Cart, p: Product)
    ensures RemoveAt(Add(cart, p), |cart|) == cart
    ensures Total(RemoveAt(Add(cart, p), |cart|)) == Total(cart)
  {
  }

  /** Only available products have a working "add" button. */
  predicate AddEnabled(p: Product) {
    p.disponible
  }

  /** Every line was available when it was added. */
  predicate AllAvailable(cart: Cart) {
    forall i :: 0 <= i < |cart| ==> cart[i].disponible
  }

  /** Adding through the button and removing lines both keep a cart of
      available products. */
  lemma ButtonsKeepAvailability(cart: Cart, p: Product, idx: nat)
    requires AllAvailable(cart)
    requires AddEnabled(p)
    ensures AllAvailable(Add(cart, p))
    ensures AllAvailable(RemoveAt(cart, idx))
  {
  }
}

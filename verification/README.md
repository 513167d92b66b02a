# Storefront catalog core, modelled in Dafny

This project models the logic of a small client-side storefront page
(`script.js`). The page loads a product catalog and shows it grouped into one
section per category. It filters the catalog by category, by search text and
by price, and can sort it by popularity. It keeps a cart of chosen products
and turns the cart into an order message for a messaging link. Each product
card also has an image carousel.

The model lifts five pure cores out of the page's DOM code:

- **Filter engine** (`catalog.dfy`, `popularity.dfy`, on top of the generic
  order-preserving `Seqs.Filter` in `seqs.dfy`). A product is shown when three
  checks all pass. The selector is `"all"` or one of the product's
  categories. The lower-cased search text occurs in the lower-cased name. The
  price lies between the bounds, both inclusive. The popularity button first
  reorders the catalog for good, by a stable sort descending on
  `popularite || 0`, and then filters.
- **Cart store** (`cart.dfy`). Add appends a line and never merges
  duplicates. Remove is `splice(idx, 1)`. The total is a left fold over the
  prices, and the badge shows the number of lines.
- **Order composer** (`order.dfy`). An empty cart gives no message.
  Otherwise the message is a greeting line, then one `- nom : prix F` line per
  cart line, in cart order.
- **Category derivation** (`categories.dfy`). The render grouping pushes
  each product into the bucket of every category it lists.
  `populateCategories` collects every listed category and offers each one the
  selector does not already have.
- **Carousel** (`carousel.dfy`). The arrows, swipes and the 5-second timer
  all move one index through the card's images.

`text.dfy` holds the string operations these cores need: ASCII lower-casing,
substring search, integer printing and line splitting. `wrappers.dfy` holds
`Option`.

Three details of `script.js` that shape the model:

- `ajouterPanier` has no availability check. Only the button wiring keeps
  unavailable products out: an unavailable product's button is disabled and
  gets no click handler (script.js:116-122). `Cart.Add` has no check, and
  `Cart.ButtonsKeepAvailability` states what the wiring guarantees.
- The price bounds are read with `parseFloat` (script.js:232-233), which reads
  the longest numeric prefix of the field: `"12abc"` gives 12, `"1e3"` gives
  1000. Only text with no numeric prefix gives NaN, and then no product passes
  the price check. The model takes the bounds as already-parsed integers (see
  "Left out").
- The carousel steps compute `% imgs.length` with no guard for a card with no
  images (script.js:277-278). The model requires at least one image.

## Model

| member | source | states |
|---|---|---|
| Seqs.Filter | script.js:235-240 | the result keeps only accepted elements, keeps every accepted element, and is never longer than the input |
| Seqs.KeptPositions | script.js:235-240 | the result is the input read at strictly increasing positions, and those positions are exactly the ones whose element is accepted |
| Seqs.FilterIdentity | script.js:235-240 | filtering returns its input unchanged if and only if every element is accepted |
| Seqs.FilterCommute | script.js:224-240 | two filters applied in either order give the same sequence |
| Seqs.FilterPermutation | script.js:224-240 | permuting the input permutes the filtered result |
| Text.Lower | script.js:231 | lower-casing keeps the length, maps each character independently and leaves no upper-case ASCII letter |
| Text.Contains | script.js:237 | the substring test is true exactly when the search text occurs at some position of the name; empty text occurs everywhere |
| Text.IntToString | script.js:196 | the `${p.prix}` text: at least one character; digits only for a non-negative price; a leading `-` then digits for a negative one; Text.IntToStringRoundTrip states that it reads back as the price |
| Text.IntToStringRoundTrip | script.js:196 | the decimal text printed for a price reads back as that price, negative prices included |
| Text.SplitLinesCons | script.js:195-196 | a newline-free line followed by a newline splits off as the first line |
| Text.SplitJoinLines | script.js:195-196 | newline-free lines, each followed by a newline and joined, split back into the same lines |
| Catalog.InCategory | script.js:236 | the category check: the selector is "all" or one of the product's categories; Catalog.UncategorisedExcluded states its consequence for products with no category |
| Catalog.InSearch | script.js:231-237 | the search check: the lower-cased search text occurs in the lower-cased name; its contract is carried by Text.Contains and Text.Lower |
| Catalog.InPrice | script.js:232-238 | the price check: the price lies between the bounds, both inclusive, with no maximum standing for `Infinity` |
| Catalog.Matches | script.js:235-239 | the filter callback: all three checks pass; Catalog.FilterCatalog and Catalog.ShownPositions state what filtering with it yields |
| Catalog.FilterCatalog | script.js:235-240 | a product is in the view if and only if it is in the catalog and passes the category, search and price checks |
| Catalog.ShownPositions | script.js:235-240 | the view is the catalog read at exactly the positions whose product passes all three checks, in catalog order |
| Catalog.DefaultFilterIsIdentity | script.js:230-240 | with selector "all", empty search, minimum 0 and no maximum, the view equals the catalog if and only if no price is negative |
| Catalog.UncategorisedExcluded | script.js:236 | a product listing no category never appears under a concrete category |
| Popularity.Score | script.js:225 | the sort key `popularite || 0`, a missing popularity counting as 0; Popularity.SortByPopularity and Popularity.SortIsStable state the order it induces |
| Popularity.Insert | script.js:225 | insertion adds exactly one copy of the product and nothing else |
| Popularity.InsertNonIncreasing | script.js:225 | inserting into a sequence with non-increasing score keeps it non-increasing |
| Popularity.InsertStable | script.js:225 | the inserted product goes first among equal-score products, and every other score class is unchanged |
| Popularity.SortByPopularity | script.js:225 | the sorted catalog is a permutation of the catalog, with scores (`popularite`, missing counted as 0) non-increasing |
| Popularity.SortIsStable | script.js:225 | the products of each score keep their previous relative order |
| Popularity.FilterKeepsOrder | script.js:226 | filtering a catalog ordered by score keeps it ordered by score |
| Popularity.SortThenFilter | script.js:224-227 | after the button, the view holds the same products as the unsorted view, ordered by score, with equal-score products in their old order |
| Categories.Push | script.js:32-33 | `groupes[cat].push(prod)`, creating the bucket on first use; Categories.PushAllBucket and Categories.PushAllMembers carry its contract |
| Categories.PushAll | script.js:31-33 | the inner `forEach` over one product's categories, left to right; Categories.PushAllBucket and Categories.PushAllMembers carry its contract |
| Categories.Group | script.js:29-35 | the grouping pass over the products in order; Categories.GroupKeys, Categories.GroupMembers and Categories.GroupIsExpanded carry its contract |
| Categories.PushAllBucket | script.js:31-33 | one product's pass adds to the end of each bucket one copy of the product per entry of its category list naming that bucket, duplicate entries included; buckets it does not list are unchanged |
| Categories.GroupSnocBucket | script.js:30-34 | each product of the grouping pass extends a section by exactly its copies for that section |
| Categories.GroupKeys | script.js:29-35 | one section exists per category that some product lists, and no other |
| Categories.GroupMembers | script.js:29-35 | a section holds a product if and only if the product is in the list and lists that section's category |
| Categories.GroupIsExpanded | script.js:29-35 | every section is the catalog in order, each product repeated once per entry its category list has for that section, so a product listing a category twice is shown twice there |
| Categories.GroupIsListing | script.js:29-35 | when no product lists a category twice, each section is the list filtered by that category, in list order |
| Categories.FirstSeen | script.js:250-251 | the iteration order of a `Set` filled element by element: the same members as the input, each once; Categories.FirstSeenOrder states that they come in order of first appearance |
| Categories.FirstSeenOrder | script.js:250-252 | the collected categories are listed in increasing order of the position where each first occurs in the input |
| Categories.AllListedMembers | script.js:251 | the catalog's category entries, taken in order, are exactly the categories some product lists |
| Categories.AddEach | script.js:251 | adding one product's categories in turn to the insertion-ordered set yields the first-appearance order of everything seen so far |
| Categories.CollectCategories | script.js:250-251 | the collected set is the catalog's category entries in order of first appearance |
| Categories.AppendMissing | script.js:252-258 | the new options are the collected categories not already offered, appended in collection order after the existing options |
| Categories.PopulateCategories | script.js:248-259 | the options become the old ones followed by the listed categories not yet offered, in order of first appearance in the catalog; so existing options stay first and unchanged, the options are exactly the old ones plus every listed category, and added options are distinct and were not offered before |
| Cart.Total | script.js:162-170 | the sum of the line prices; Cart.ComputeTotal, Cart.TotalAppend, Cart.Add and Cart.RemoveAt carry its contract |
| Cart.Count | script.js:187 | the badge value `panier.length`; Cart.Add and Cart.RemoveAt state how it changes |
| Cart.TotalAppend | script.js:164-170 | the total of two carts joined is the sum of their totals |
| Cart.ComputeTotal | script.js:162-170 | the panel's fold over the lines equals the sum of line prices, 0 for an empty cart |
| Cart.Add | script.js:145-146 | add makes the product the new last line, leaves earlier lines unchanged, raises the count by 1 and the total by its price |
| Cart.RemoveAt | script.js:180-187 | removing a valid index deletes exactly that line; the others keep their order, the count drops by 1 and the total by that line's price; an index past the end changes nothing |
| Cart.RemoveAtMultiset | script.js:182 | removal takes away exactly one copy of the removed product |
| Cart.AddThenRemove | script.js:146-182 | removing the line just added restores the cart and its total |
| Cart.ButtonsKeepAvailability | script.js:115-122 | while only available products can be added, the cart holds only available products |
| Order.Compose | script.js:193-196 | there is no message exactly when the cart is empty |
| Order.ComposeMessage | script.js:194-196 | the page's loop of `message +=` produces the composed message |
| Order.OrderLines | script.js:196 | the text `panier.forEach(p => message += …)` appends: each cart line's `LineText` followed by a newline, in cart order; Order.OrderLinesJoin and Order.OrderLinesSnoc carry its contract |
| Order.OrderLinesJoin | script.js:196 | the message body is the cart's line texts, each followed by a newline, in cart order |
| Order.OrderLinesSplit | script.js:196 | the body splits into one line per cart line, in cart order |
| Order.ComposeLines | script.js:194-196 | the message reads line by line as the greeting, then one `- nom : prix F` line per cart line in cart order, so `1 + count` lines each ending in a newline |
| Order.LineText | script.js:196 | the line template `- {nom} : {prix} F`; Order.LinePriceReadsBack, Order.OrderLinesJoin and Order.ComposeLines carry its contract |
| Order.LinePriceReadsBack | script.js:196 | the text after the last space of a line, once the closing " F" is dropped, is the printed price and reads back as the product's price, whatever spaces or " : " the name holds |
| Text.AfterLastField | script.js:196 | the field after the last separator is recovered whatever text precedes it, provided the field holds no separator |
| Order.OrderLinesSnoc | script.js:196 | appending a cart line appends its message line |
| Order.ComposeAfterAdd | script.js:146-196 | adding a product to a non-empty cart appends exactly its line to the message |
| Carousel.Next | script.js:278 | the next index stays within the card's images |
| Carousel.Prev | script.js:277 | the previous index stays within the card's images |
| Carousel.NextIsRemainder | script.js:278 | "next" equals the page's `(index + 1) % n` |
| Carousel.PrevIsRemainder | script.js:277 | "previous" equals the page's `(index - 1 + n) % n` |
| Carousel.Tick | script.js:289 | the timer keeps the index within the card's images |
| Carousel.Swipe | script.js:282-286 | a swipe of at most 50 px changes nothing; more than 50 px right is "previous", more than 50 px left is "next"; the index stays in range |
| Carousel.PrevNextInverse | script.js:277-278 | "previous" undoes "next" and "next" undoes "previous" |
| Carousel.NextTimesCountsUp | script.js:278 | steps that do not reach the last image count the index up by one each |
| Carousel.NextTimesAdd | script.js:289 | stepping a times then b times is stepping a + b times |
| Carousel.FullCycle | script.js:289 | n steps on a card with n images return to the starting image |
| Carousel.SingleImageFixed | script.js:277-289 | with one image, the arrows, the timer and swipes leave the index at 0 |

## Left out

- DOM construction and styling: section and card elements, the description toggle, the promotion and "new" labels, `togglePanier`, `toggleSocial`, and the timed notification of `afficherNotification`. These only render. The product fields they read (description, images, promotion, "new") are not in `Product`.
- Catalog loading (`chargerProduits`): an HTTP fetch and JSON parse. The catalog is a given sequence of products.
- Order handoff: `encodeURIComponent`, the messaging URL, `window.open` and the empty-cart `alert`. These are browser calls. The empty-cart case is `None`.
- Reading the filter inputs with `parseFloat`: the criteria are already-parsed integers, and `None` stands for an infinite maximum. Prefix parsing (`"12abc"` is 12) is not modelled. Neither is text with no numeric prefix, which parses to NaN and empties the view.
- Floating-point prices, bounds, popularity values and touch coordinates: all are integers. The popularity comparator (script.js:225) subtracts arbitrary numbers. The model compares integer scores, with a missing `popularite` counting as 0.
- Timers and touch-event plumbing: only the index transitions are modelled. The repeated timers created on each re-render are not modelled. The background-logo rotation is the same modular step over DOM nodes.
- A carousel with no images: the page divides by zero (NaN). The model requires at least one image.
- Which image is displayed (`showImage`): a rendering of the index.
- Section display order (`Object.keys`): the grouping is a map, so the order of sections is not modelled.
- Negative `splice` indices: rendered indices are never negative, so the index is a natural number.
- Text.Lower: covers only ASCII letters, not the full Unicode case mapping of `toLowerCase`.
- Text.IntToString: prints integers in plain decimal, and does not model JavaScript's exponent notation for magnitudes of 10^21 and above.
- Categories.Group: builds an ordinary bucket for every category name. The page keeps its buckets in a plain object `{}` (script.js:29). A category named after an inherited `Object.prototype` member finds a truthy value in `if (!groupes[cat])`, and `groupes[cat].push(prod)` (script.js:33) then throws. Examples are `"constructor"`, `"toString"`, `"valueOf"` and `"hasOwnProperty"`. The error leaves the emptied container unrendered, and at load it also skips `populateCategories` (script.js:14-17). The model does not represent this failure, so Categories.PushAllBucket, Categories.GroupSnocBucket, Categories.GroupKeys, Categories.GroupMembers, Categories.GroupIsExpanded and Categories.GroupIsListing hold for the page only when no product lists such a name.
- Categories.GroupIsListing: requires each product's category list to be duplicate-free. For other lists, Categories.GroupIsExpanded gives the exact buckets.
- Order.OrderLinesSplit: requires that no product name contains a line break. Otherwise a name would split into several lines.
- Order.ComposeLines: requires that no product name contains a line break. Otherwise a name would split into several lines.

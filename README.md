# Product filter widget — Dafny model

A model of the product-filter state machine of `index.js`. The `App` object
shows a fixed catalog of products (`mock`: records with `id`, `title`,
`company`, `image` and `price`) and re-filters it on three browser events:

- typing in the search field (`keyUpHandler`) shows the products whose
  lower-cased title contains the lower-cased text, and clears the active
  company button;
- clicking a company button (`filterHandler`) shows that company's products,
  or the whole catalog for the `all` button, marks that button alone as
  active and clears the search field; clicks elsewhere in the list are ignored;
- the `search` event of the search field (`searchHandler`) shows the whole
  catalog again.

Every handler recomputes from the catalog, never from what is currently
shown, so filters never accumulate. The company buttons are `all` followed by
the distinct companies of the catalog in order of first appearance. The
result pane shows a "no products matched" message exactly when nothing is
shown.

Files:

- `text.dfy` (module `Text`): ASCII lower-casing and substring search.
- `catalog.dfy` (module `Catalog`): products, the two filters as pure
  functions over the catalog, what they keep and in which order, and the
  company-tag enumeration.
- `app.dfy` (module `FilterApp`): the rendering choice and the `App` class,
  whose fields are the shown products, the search text, the rendered pane,
  the button tags and an array of `active` marks, one per button.

The invariant `App.Valid()` holds between events: the shown products are an
order-preserving subsequence of the catalog, the pane shows exactly them, the
buttons are the company tags, and at most one button is active. The code
leaves no button active at start-up and after a key-up, so the invariant is
"at most one", not "exactly one".

## Model

| member | source | states |
|---|---|---|
| `Text.Lower` | index.js:87 | lower-casing keeps the length, turns each upper-case ASCII letter into its lower-case letter and leaves every other character as it was |
| `Text.LowerEqualIff` | index.js:87 | two strings lower-case alike exactly when they have the same length and agree at each position up to ASCII case |
| `Text.LowerIdempotent` | index.js:87 | lower-casing twice equals lower-casing once |
| `Text.Includes` | index.js:87 | `includes` holds exactly when the needle occurs at some position of the string; the empty needle is always included |
| `Catalog.Matches` | index.js:87-99 | the title predicate holds exactly when the lower-cased query occurs in the lower-cased title; the company predicate exactly when the company equals the tag |
| `Catalog.Filter` | index.js:87-99 | `filter` returns no more products than the catalog has, and only catalog products that satisfy the predicate |
| `Catalog.FilterMembers` | index.js:87-99 | a filtered catalog holds exactly the catalog products that satisfy the predicate |
| `Catalog.FilterCount` | index.js:87-99 | nothing is added or repeated: each kept product occurs as often as in the catalog, every other product never |
| `Catalog.FilterPositions` | index.js:87-99 | the filter result is the catalog read at exactly the positions whose product satisfies the predicate, in increasing order |
| `Catalog.FilterIsSubsequence` | index.js:87-99 | the filter result is an order-preserving subsequence of the catalog |
| `Catalog.FilterKeepsAll` | index.js:87-99 | when every product satisfies the predicate the filter returns the catalog unchanged |
| `Catalog.FilterCongruent` | index.js:87-99 | two predicates that agree on every catalog product give the same result |
| `Catalog.FilterIdempotent` | index.js:87-99 | filtering a filtered catalog again with the same predicate changes nothing |
| `Catalog.FilterNoneMatch` | index.js:87-99 | when no product satisfies the predicate the result is empty |
| `Catalog.SearchByTitle` | index.js:87 | the key-up filter keeps exactly the products whose lower-cased title includes the lower-cased query, as a subsequence of the catalog |
| `Catalog.SelectCompany` | index.js:99 | the `all` tag gives the whole catalog in order; any other tag gives exactly the products of that company, as a subsequence of the catalog |
| `Catalog.SearchEmptyQuery` | index.js:87 | an empty query shows the entire catalog |
| `Catalog.SearchIgnoresCase` | index.js:87 | queries that lower-case alike give the same products |
| `Catalog.SearchIdempotent` | index.js:87 | searching the search result again with the same query changes nothing |
| `Catalog.SelectIdempotent` | index.js:99 | selecting the same company on its own result changes nothing |
| `Catalog.SelectUnknownTag` | index.js:99 | a tag that is neither `all` nor the company of any product selects nothing |
| `Catalog.Companies` | index.js:76 | `mock.map` yields one company per product, the company of the product at the same position |
| `Catalog.Distinct` | index.js:76 | the `Set` of companies holds every catalog company and nothing else, each once |
| `Catalog.DistinctFirstSeenOrder` | index.js:76 | the `Set` lists the companies in the order of their first appearance in the catalog |
| `Catalog.CompanyTags` | index.js:76 | the button tags start with `all`, followed by every catalog company once, in first-seen order |
| `Catalog.CompanyTagsUnique` | index.js:76 | the button tags have no repeat exactly when no product's company is itself `all` |
| `FilterApp.View` | index.js:54-67 | the pane shows the no-results message exactly when the product list is empty, otherwise one card per product in order |
| `FilterApp.SearchShowsNoResults` | index.js:54-55 | after a key-up the no-results message appears exactly when no catalog title contains the query |
| `FilterApp.App.constructor` | index.js:40-43 | the app starts showing the whole catalog, with one button per company tag, none active, and an empty search field |
| `FilterApp.App.RenderProducts` | index.js:53-69 | the pane is redrawn from the current products and nothing else changes |
| `FilterApp.App.ClearActive` | index.js:86 | every company button loses its active mark |
| `FilterApp.App.KeyUpHandler` | index.js:85-89 | no button stays active; the shown products are the title-search result over the catalog for the typed text, independent of what was shown before |
| `FilterApp.App.FilterHandler` | index.js:95-103 | a click off the filter buttons changes nothing; a click on one leaves exactly that button active, shows that tag's company selection over the catalog and clears the search field |
| `FilterApp.App.SearchHandler` | index.js:108-111 | the whole catalog is shown again whatever was shown before; the search field holds the text the browser left in it (empty after the clear button) and the active marks are kept |
| `FilterApp.SearchThenAll` | index.js:85-103 | clicking `all` after any search shows the whole catalog, not the intersection with the search |

## Left out

- Page skeleton, the `innerHTML` templates and their markup (index.js:8-28, 56-67, 77): only the choice between the message and the listing, and what each list item shows, are modelled.
- Event-listener wiring and `querySelector` lookups (index.js:33-47): the handlers are methods called directly; the click target is a `ClickTarget` (a filter button, by position, or elsewhere).
- The order in which the browser fires `keyup` and `search` for one key press, and form submission on Enter: host behaviour.
- The icons, the style sheet and `capitalStr` (index.js:2-5): `capitalStr` only changes the button labels.
- FilterApp.App.FilterHandler: assumes the button's `data-id` attribute reads back as the exact company string. The source writes it unescaped into a single-quoted attribute (index.js:77), so a company containing `'` reads back cut off at the quote and one containing an HTML entity such as `&amp;` reads back decoded; for such companies the source shows no products where the model shows that company's products.
- The contents of `data/mock.js`: the catalog is the constructor parameter.
- Text.Lower: lower-cases ASCII letters only, not full Unicode `toLowerCase`; every search property is stated relative to this function.
- Product prices are kept as text: they are only ever rendered.
- Initial button classes (index.js:77) are the strings `true`/`false`, not `active`: the model starts with no button active.

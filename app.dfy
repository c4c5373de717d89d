/** The product-filter widget: the state the `App` object keeps (the shown
    products, the company buttons and which one is active, the search text)
    and its three event handlers. The catalog is a constructor parameter. */
module FilterApp {
  import opened Text
  import opened Catalog

  /** What one list item of the product listing shows. */
  datatype Card = Card(id: string, image: string, title: string, price: string)

  /** The result pane: the "no products matched" message, or the listing. */
  datatype Rendering = NoResults | Listing(cards: seq<Card>)

  function CardOf(p: Product): Card {
    Card(p.id, p.image, p.title, p.price)
  }

  /** The no-results message exactly for an empty product list; otherwise one
      card per product, in the same order. */
  function View(products: seq<Product>): (v: Rendering)
    ensures v == NoResults <==> products == []
    ensures v.Listing? ==> |v.cards| == |products|
    ensures v.Listing? ==> forall i :: 0 <= i < |products| ==> v.cards[i] == CardOf(products[i])
  {
    if |products| == 0 then NoResults
    else Listing(seq(|products|, i requires 0 <= i < |products| => CardOf(products[i])))
  }

  /** After a key-up the message appears exactly when no catalog title
      contains the query (both lower-cased). */
  lemma SearchShowsNoResults(catalog: seq<Product>, query: string)
    ensures View(SearchByTitle(catalog, query)) == NoResults <==>
      forall p :: p in catalog ==> !Includes(Lower(p.title), Lower(query))
  {
    var r := SearchByTitle(catalog, query);
    if r != [] {
      assert r[0] in r;
    }
  }

  /** Where a click on the company list landed: on a filter button (one that
      carries `data-filter-btn`), given by its position, or elsewhere. */
  datatype ClickTarget = FilterButton(index: nat) | Elsewhere

  predicate AtMostOneActive(marks: seq<bool>) {
    forall i, j :: 0 <= i < j < |marks| ==> !(marks[i] && marks[j])
  }

  class App {
    /** The fixed catalog (`mock`). */
    const catalog: seq<Product>
    /** The tag of each company button, in display order. */
    const buttons: seq<string>
    /** Whether each company button carries the `active` class. */
    const marks: array<bool>
    /** The products currently shown. */
    var products: seq<Product>
    /** The text in the search field. */
    var query: string
    /** What the result pane currently shows. */
    var shown: Rendering

    ghost predicate Valid()
      reads this, marks
    {
      buttons == CompanyTags(catalog) &&
      marks.Length == |buttons| &&
      AtMostOneActive(marks[..]) &&
      IsSubsequence(products, catalog) &&
      shown == View(products)
    }

    predicate NoneActive()
      reads marks
    {
      forall k :: 0 <= k < marks.Length ==> !marks[k]
    }

    /** Shows the whole catalog, builds one button per company tag (none
        marked active) and starts with an empty search field. */
    constructor (mock: seq<Product>)
      ensures Valid() && fresh(marks)
      ensures catalog == mock && products == mock && query == ""
      ensures NoneActive()
    {
      catalog := mock;
      products := mock;
      query := "";
      shown := View(mock);
      buttons := CompanyTags(mock);
      marks := new bool[|CompanyTags(mock)|](_ => false);
      SubsequenceOfItself(mock);
    }

    /** renderProducts: the result pane shows the current products. */
    method RenderProducts()
      modifies this`shown
      ensures shown == View(products)
    {
      shown := View(products);
    }

    /** Removes the `active` class from every company button. */
    method ClearActive()
      requires Valid()
      modifies marks
      ensures Valid() && NoneActive()
    {
      for k := 0 to marks.Length
        invariant forall j :: 0 <= j < k ==> !marks[j]
      {
        marks[k] := false;
      }
    }

    /** keyUpHandler: no button stays active, and the shown products are the
        catalog items whose title contains the typed text, whatever was shown
        before. */
    method KeyUpHandler(value: string)
      requires Valid()
      modifies this, marks
      ensures Valid() && NoneActive()
      ensures products == SearchByTitle(catalog, value)
      ensures query == value
    {
      ClearActive();
      products := SearchByTitle(catalog, value);
      query := value;
      RenderProducts();
    }

    /** filterHandler: a click off the filter buttons changes nothing; a click
        on one makes it the only active button, shows the products of its
        company (the whole catalog for `all`) and clears the search field. */
    method FilterHandler(target: ClickTarget)
      requires Valid()
      requires target.FilterButton? ==> target.index < |buttons|
      modifies this, marks
      ensures Valid()
      ensures target.Elsewhere? ==>
        products == old(products) && query == old(query) && marks[..] == old(marks[..])
      ensures target.FilterButton? ==>
        products == SelectCompany(catalog, buttons[target.index]) && query == "" &&
        forall k :: 0 <= k < marks.Length ==> (marks[k] <==> k == target.index)
    {
      if target.FilterButton? {
        ClearActive();
        marks[target.index] := true;
        products := SelectCompany(catalog, buttons[target.index]);
        query := "";
        RenderProducts();
      }
    }

    /** searchHandler: the `search` event shows the whole catalog again,
        whatever was shown before. The browser fires it after it has set the
        field (emptied it, for the clear button), so the field's text
        `fieldText` is recorded as it is; the active marks are kept. */
    method SearchHandler(fieldText: string)
      requires Valid()
      modifies this
      ensures Valid()
      ensures products == catalog && query == fieldText && marks[..] == old(marks[..])
    {
      products := catalog;
      query := fieldText;
      SubsequenceOfItself(catalog);
      RenderProducts();
    }
  }

  /** Filters do not accumulate: after any search, clicking the first button
      (`all`) shows the whole catalog, not what the search left. */
  method SearchThenAll(mock: seq<Product>, typed: string) returns (shown: seq<Product>)
    ensures shown == mock
  {
    var app := new App(mock);
    app.KeyUpHandler(typed);
    app.FilterHandler(FilterButton(0));
    shown := app.products;
  }
}

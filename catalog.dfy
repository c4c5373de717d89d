/** The fixed product catalog and the pure computations over it: the two
    filter expressions of the app (title search, company selection) and the
    list of company tags shown as buttons. */
module Catalog {
  import opened Text

  /** One catalog record. The price is kept as the text it is rendered as. */
  datatype Product = Product(id: string, title: string, company: string, image: string, price: string)

  /** The company tag that stands for "no company restriction". */
  const AllTag: string := "all"

  /** The two predicates the app filters the catalog with. */
  datatype Criterion = TitleContains(query: string) | CompanyIs(tag: string)

  /** Title search is case-insensitive: both sides are lower-cased.
      Company selection is exact and case-sensitive. */
  predicate Matches(p: Product, c: Criterion)
    ensures c.TitleContains? ==>
      (Matches(p, c) <==> exists i :: OccursAt(Lower(p.title), Lower(c.query), i))
    ensures c.CompanyIs? ==> (Matches(p, c) <==> p.company == c.tag)
  {
    match c
    case TitleContains(q) => Includes(Lower(p.title), Lower(q))
    case CompanyIs(t) => p.company == t
  }

  /** Array.prototype.filter over the catalog: the matching products, in order. */
  function Filter(s: seq<Product>, c: Criterion): (r: seq<Product>)
    ensures |r| <= |s|
    ensures forall p :: p in r ==> p in s && Matches(p, c)
  {
    if s == [] then []
    else (if Matches(s[0], c) then [s[0]] else []) + Filter(s[1..], c)
  }

  // ---------------------------------------------------------------------
  // What Filter keeps

  /** Exactly the matching products of `s` are in the result. */
  lemma {:induction false} FilterMembers(s: seq<Product>, c: Criterion)
    ensures forall p :: p in Filter(s, c) <==> p in s && Matches(p, c)
  {
    if s != [] {
      FilterMembers(s[1..], c);
      assert s == [s[0]] + s[1..];
    }
  }

  /** Nothing is added or repeated: each matching product occurs as often as
      in `s`, every other product not at all. */
  lemma {:induction false} FilterCount(s: seq<Product>, c: Criterion, p: Product)
    ensures multiset(Filter(s, c))[p] == if Matches(p, c) then multiset(s)[p] else 0
  {
    if s != [] {
      FilterCount(s[1..], c, p);
      assert s == [s[0]] + s[1..];
    }
  }

  /** `idx` lists, in increasing order, positions of `s` that hold `r`. */
  ghost predicate Embeds(idx: seq<nat>, r: seq<Product>, s: seq<Product>) {
    |idx| == |r| &&
    (forall k :: 0 <= k < |idx| ==> idx[k] < |s| && s[idx[k]] == r[k]) &&
    (forall k, l :: 0 <= k < l < |idx| ==> idx[k] < idx[l])
  }

  /** `r` is an order-preserving subsequence of `s`. */
  ghost predicate IsSubsequence(r: seq<Product>, s: seq<Product>) {
    exists idx :: Embeds(idx, r, s)
  }

  function Shift(idx: seq<nat>): seq<nat> {
    seq(|idx|, k requires 0 <= k < |idx| => idx[k] + 1)
  }

  /** The positions of `s` whose product matches `c`, in increasing order. */
  function KeptIndices(s: seq<Product>, c: Criterion): seq<nat> {
    if s == [] then []
    else (if Matches(s[0], c) then [0] else []) + Shift(KeptIndices(s[1..], c))
  }

  /** Shifting every position by one moves an embedding into `s[1..]` to one into `s`. */
  lemma ShiftEmbeds(idx: seq<nat>, r: seq<Product>, s: seq<Product>)
    requires s != [] && Embeds(idx, r, s[1..])
    ensures Embeds(Shift(idx), r, s)
    ensures 0 !in Shift(idx)
    ensures forall i :: i in idx <==> i + 1 in Shift(idx)
  {
  }

  /** Position 0 can be put in front of an embedding that avoids it. */
  lemma ConsEmbeds(idx: seq<nat>, r: seq<Product>, s: seq<Product>)
    requires s != [] && Embeds(idx, r, s) && 0 !in idx
    ensures Embeds([0] + idx, [s[0]] + r, s)
  {
  }

  /** Filter keeps catalog order: its result is `s` read at exactly the
      positions whose product matches, in increasing order. */
  lemma {:induction false} FilterPositions(s: seq<Product>, c: Criterion)
    ensures Embeds(KeptIndices(s, c), Filter(s, c), s)
    ensures forall i :: 0 <= i < |s| ==> (i in KeptIndices(s, c) <==> Matches(s[i], c))
  {
    if s != [] {
      FilterPositions(s[1..], c);
      var tail, rest := KeptIndices(s[1..], c), Filter(s[1..], c);
      ShiftEmbeds(tail, rest, s);
      if Matches(s[0], c) {
        assert KeptIndices(s, c) == [0] + Shift(tail);
        assert Filter(s, c) == [s[0]] + rest;
        ConsEmbeds(Shift(tail), rest, s);
      } else {
        assert KeptIndices(s, c) == Shift(tail);
        assert Filter(s, c) == rest;
      }
      KeptAfterHead(s, c, tail);
    }
  }

  /** Position `i > 0` is kept in `s` exactly when `i - 1` is kept in `s[1..]`. */
  lemma KeptAfterHead(s: seq<Product>, c: Criterion, tail: seq<nat>)
    requires s != [] && tail == KeptIndices(s[1..], c)
    requires forall i :: 0 <= i < |s[1..]| ==> (i in tail <==> Matches(s[1..][i], c))
    requires forall i :: i in tail <==> i + 1 in Shift(tail)
    requires 0 !in Shift(tail)
    ensures forall i :: 0 <= i < |s| ==> (i in KeptIndices(s, c) <==> Matches(s[i], c))
  {
  }

  /** Filter's result is an order-preserving subsequence of its input. */
  lemma FilterIsSubsequence(s: seq<Product>, c: Criterion)
    ensures IsSubsequence(Filter(s, c), s)
  {
    FilterPositions(s, c);
  }

  /** Every sequence is a subsequence of itself. */
  lemma SubsequenceOfItself(s: seq<Product>)
    ensures IsSubsequence(s, s)
  {
    var idx: seq<nat> := seq(|s|, k requires 0 <= k < |s| => k);
    assert Embeds(idx, s, s);
  }

  /** When every product matches, Filter returns its input unchanged. */
  lemma {:induction false} FilterKeepsAll(s: seq<Product>, c: Criterion)
    requires forall p :: p in s ==> Matches(p, c)
    ensures Filter(s, c) == s
  {
    if s != [] {
      FilterKeepsAll(s[1..], c);
    }
  }

  /** Two criteria that agree on every product of `s` filter it alike. */
  lemma {:induction false} FilterCongruent(s: seq<Product>, c1: Criterion, c2: Criterion)
    requires forall p :: p in s ==> (Matches(p, c1) <==> Matches(p, c2))
    ensures Filter(s, c1) == Filter(s, c2)
  {
    if s != [] {
      FilterCongruent(s[1..], c1, c2);
    }
  }

  /** Filtering a second time with the same criterion changes nothing. */
  lemma FilterIdempotent(s: seq<Product>, c: Criterion)
    ensures Filter(Filter(s, c), c) == Filter(s, c)
  {
    FilterMembers(s, c);
    FilterKeepsAll(Filter(s, c), c);
  }

  /** No product matching means an empty result. */
  lemma FilterNoneMatch(s: seq<Product>, c: Criterion)
    requires forall p :: p in s ==> !Matches(p, c)
    ensures Filter(s, c) == []
  {
  }

  // ---------------------------------------------------------------------
  // The two filters of the app

  /** The key-up filter: products whose lower-cased title contains the
      lower-cased query, as a subsequence of the catalog. */
  function SearchByTitle(catalog: seq<Product>, query: string): (r: seq<Product>)
    ensures forall p :: p in r <==> p in catalog && Includes(Lower(p.title), Lower(query))
    ensures IsSubsequence(r, catalog)
  {
    FilterMembers(catalog, TitleContains(query));
    FilterIsSubsequence(catalog, TitleContains(query));
    Filter(catalog, TitleContains(query))
  }

  /** The click filter: the whole catalog for the `all` tag, otherwise the
      products of exactly that company, as a subsequence of the catalog. */
  function SelectCompany(catalog: seq<Product>, tag: string): (r: seq<Product>)
    ensures tag == AllTag ==> r == catalog
    ensures tag != AllTag ==> forall p :: p in r <==> p in catalog && p.company == tag
    ensures IsSubsequence(r, catalog)
  {
    if tag == AllTag then
      SubsequenceOfItself(catalog);
      catalog
    else
      FilterMembers(catalog, CompanyIs(tag));
      FilterIsSubsequence(catalog, CompanyIs(tag));
      Filter(catalog, CompanyIs(tag))
  }

  /** An empty query matches every title, so the whole catalog is shown. */
  lemma SearchEmptyQuery(catalog: seq<Product>)
    ensures SearchByTitle(catalog, "") == catalog
  {
    FilterKeepsAll(catalog, TitleContains(""));
  }

  /** The search ignores ASCII case in the query. */
  lemma SearchIgnoresCase(catalog: seq<Product>, q1: string, q2: string)
    requires Lower(q1) == Lower(q2)
    ensures SearchByTitle(catalog, q1) == SearchByTitle(catalog, q2)
  {
    FilterCongruent(catalog, TitleContains(q1), TitleContains(q2));
  }

  /** Searching the result of a search again with the same query changes nothing. */
  lemma SearchIdempotent(catalog: seq<Product>, query: string)
    ensures SearchByTitle(SearchByTitle(catalog, query), query) == SearchByTitle(catalog, query)
  {
    FilterIdempotent(catalog, TitleContains(query));
  }

  /** Selecting the same company twice changes nothing. */
  lemma SelectIdempotent(catalog: seq<Product>, tag: string)
    ensures SelectCompany(SelectCompany(catalog, tag), tag) == SelectCompany(catalog, tag)
  {
    if tag != AllTag {
      FilterIdempotent(catalog, CompanyIs(tag));
    }
  }

  /** A tag that is neither `all` nor any product's company selects nothing. */
  lemma SelectUnknownTag(catalog: seq<Product>, tag: string)
    requires tag != AllTag && tag !in Companies(catalog)
    ensures SelectCompany(catalog, tag) == []
  {
  }

  // ---------------------------------------------------------------------
  // Company tags: ['all', ...new Set(mock.map(p => p.company))]

  /** The `company` field of each product, in catalog order. */
  function Companies(catalog: seq<Product>): (r: seq<string>)
    ensures |r| == |catalog|
    ensures forall i :: 0 <= i < |catalog| ==> r[i] == catalog[i].company
  {
    seq(|catalog|, i requires 0 <= i < |catalog| => catalog[i].company)
  }

  predicate NoDuplicates(s: seq<string>) {
    forall i, j :: 0 <= i < j < |s| ==> s[i] != s[j]
  }

  /** The position of the first occurrence of `x` in `s`. */
  function FirstIndex(s: seq<string>, x: string): (i: nat)
    requires x in s
    ensures i < |s| && s[i] == x && x !in s[..i]
  {
    if s[0] == x then 0
    else
      var j := FirstIndex(s[1..], x);
      assert s[..j + 1] == [s[0]] + s[1..][..j];
      1 + j
  }

  /** JavaScript `new Set(s)` read back in iteration order: the values of `s`
      in insertion order, each once. Built the way a Set is, one insertion at
      a time: the last value is appended only if it was not seen before. */
  function Distinct(s: seq<string>): (r: seq<string>)
    ensures forall x :: x in r <==> x in s
    ensures NoDuplicates(r)
  {
    if s == [] then []
    else
      var init, last := s[..|s| - 1], s[|s| - 1];
      assert s == init + [last];
      if last in init then Distinct(init) else Distinct(init) + [last]
  }

  /** A value that occurs in a prefix of `s` first occurs inside that prefix. */
  lemma FirstIndexPrefix(s: seq<string>, n: nat, x: string)
    requires n <= |s| && x in s[..n]
    ensures FirstIndex(s, x) == FirstIndex(s[..n], x)
  {
  }

  /** Set insertion order: the distinct values appear in the order of their
      first occurrence in `s`. */
  lemma {:induction false} DistinctFirstSeenOrder(s: seq<string>)
    ensures forall i, j :: 0 <= i < j < |Distinct(s)| ==>
      FirstIndex(s, Distinct(s)[i]) < FirstIndex(s, Distinct(s)[j])
  {
    if s != [] {
      var n := |s| - 1;
      var init, last := s[..n], s[n];
      assert s == init + [last];
      DistinctFirstSeenOrder(init);
      var d := Distinct(init);
      forall x | x in d
        ensures FirstIndex(s, x) == FirstIndex(init, x) < n
      {
        FirstIndexPrefix(s, n, x);
      }
      if last !in init {
        assert s[..n] == init;
        assert FirstIndex(s, last) == n;
      }
    }
  }

  /** The tags of the company buttons: `all` first, then every company of the
      catalog once, in order of first appearance. */
  function CompanyTags(catalog: seq<Product>): (r: seq<string>)
    ensures |r| >= 1 && r[0] == AllTag
    ensures forall t :: t in r[1..] <==> t in Companies(catalog)
    ensures NoDuplicates(r[1..])
    ensures forall i, j :: 1 <= i < j < |r| ==>
      FirstIndex(Companies(catalog), r[i]) < FirstIndex(Companies(catalog), r[j])
  {
    var d := Distinct(Companies(catalog));
    DistinctFirstSeenOrder(Companies(catalog));
    assert ([AllTag] + d)[1..] == d;
    [AllTag] + d
  }

  /** The `all` tag is not de-duplicated against the companies: the button
      list repeats a tag exactly when some product's company is `all`. */
  lemma CompanyTagsUnique(catalog: seq<Product>)
    ensures NoDuplicates(CompanyTags(catalog)) <==> AllTag !in Companies(catalog)
  {
  }
}

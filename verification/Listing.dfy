/**
 Keyset pagination over the card table: three sort orders, the continuation predicate
 of each, a page with one row of look-ahead, and the cursor that names its last row.
 */
module Listing {
  import opened Outcomes
  import opened Cards
  import opened Rows
  import F = Facets

  const MAX_PAGE_SIZE := 100

  datatype Sort = Newest | PriceAsc | PriceDesc

  predicate PriceSort(sort: Sort) {
    sort == PriceAsc || sort == PriceDesc
  }

  /**
   `InvalidCursor` is the refusal the service means; the others escape it: a number that does
   not convert, a comparison with nothing, and a parameter the database cannot hold.
   */
  datatype ListingError = InvalidCursor | Unconvertible | NullComparison | OutOfRange

  /** A number sent by the client, which may not fit the column it is compared with. */
  datatype Sent<T> = Fits(value: T) | TooLarge

  /**
   A token as it parses: not at all, with an infinite number for the id, or with the sort it
   was made for, the last id, and the last price. NaN prices are not modelled.
   */
  datatype Token = Garbled | InfiniteId | Fields(sort: Sort, id: Sent<ProductId>, price: Option<Sent<Money>>)

  datatype Query = Query(
    categoryId: Option<int>,
    lang: Lang,
    priceMin: Option<Money>,
    priceMax: Option<Money>,
    valueIds: seq<F.ValueId>,
    onSale: bool,
    featured: bool)

  /** What a page request reads: the card table and the attribute tables of that moment. */
  datatype World = World(cards: CardTable, dict: F.Dictionary)

  datatype Page = Page(data: seq<Card>, next: Option<Token>)

  function EncodeCursor(sort: Sort, id: ProductId, price: Option<Money>): Token {
    Fields(sort, Fits(id), if price.Some? then Some(Fits(price.value)) else None)
  }

  function DecodeCursor(token: Token, sort: Sort): Result<(Sent<ProductId>, Option<Sent<Money>>), ListingError> {
    match token
    case Garbled => Err(InvalidCursor)
    case InfiniteId => Err(Unconvertible)
    case Fields(made, id, price) => if made != sort then Err(InvalidCursor) else Ok((id, price))
  }

  /** ORDER BY: `a` comes strictly before `b`. */
  predicate Before(sort: Sort, a: Card, b: Card) {
    match sort
    case PriceAsc => a.price < b.price || (a.price == b.price && a.productId < b.productId)
    case PriceDesc => a.price > b.price || (a.price == b.price && a.productId > b.productId)
    case Newest => a.productId > b.productId
  }

  /** The WHERE clause that continues after the last row of the previous page. */
  predicate KeysetPredicate(sort: Sort, lastId: ProductId, lastPrice: Option<Money>, c: Card)
    requires PriceSort(sort) ==> lastPrice.Some?
  {
    match sort
    case PriceAsc => c.price > lastPrice.value || (c.price == lastPrice.value && c.productId > lastId)
    case PriceDesc => c.price < lastPrice.value || (c.price == lastPrice.value && c.productId < lastId)
    case Newest => c.productId < lastId
  }

  predicate Matches(w: World, q: Query, c: Card) {
    && c.lang == q.lang
    && c.isActive
    && (q.categoryId.Some? ==> q.categoryId.value in c.path)
    && (q.onSale ==> c.oldPrice.Some?)
    && (q.featured ==> c.isFeatured)
    && (q.priceMin.Some? ==> c.price >= q.priceMin.value)
    && (q.priceMax.Some? ==> c.price <= q.priceMax.value)
    && (q.valueIds != [] ==> F.FacetFilter(w.dict, q.valueIds, c.productId))
  }

  function Filtered(w: World, q: Query): set<Card> {
    set k | k in w.cards && Matches(w, q, w.cards[k]) :: w.cards[k]
  }

  // ---------------------------------------------------------------- ordering a result set

  /** At most one row per product, as the key (product_id, lang) gives inside one language. */
  ghost predicate OneRowPerProduct(rows: set<Card>) {
    forall c, d :: c in rows && d in rows && c.productId == d.productId ==> c == d
  }

  ghost predicate StrictlySorted(sort: Sort, list: seq<Card>) {
    forall i, j :: 0 <= i < j < |list| ==> Before(sort, list[i], list[j])
  }

  lemma FilteredHasOneRowPerProduct(w: World, q: Query)
    requires Keyed(w.cards)
    ensures OneRowPerProduct(Filtered(w, q))
  {
  }

  ghost predicate IsFirst(sort: Sort, rows: set<Card>, c: Card) {
    c in rows && forall d :: d in rows && d != c ==> Before(sort, c, d)
  }

  lemma BeforeIsTransitive(sort: Sort, a: Card, b: Card, c: Card)
    requires Before(sort, a, b) && Before(sort, b, c)
    ensures Before(sort, a, c)
  {}

  lemma BeforeIsTotal(sort: Sort, a: Card, b: Card)
    requires a.productId != b.productId
    ensures Before(sort, a, b) || Before(sort, b, a)
  {}

  lemma {:induction false} FirstExists(sort: Sort, rows: set<Card>)
    requires OneRowPerProduct(rows) && rows != {}
    ensures exists c :: IsFirst(sort, rows, c)
    decreases |rows|
  {
    var x :| x in rows;
    var rest := rows - {x};
    assert rows == rest + {x};
    if rest == {} {
      assert IsFirst(sort, rows, x);
    } else {
      FirstExists(sort, rest);
      var c :| IsFirst(sort, rest, c);
      FirstWithOneMore(sort, rest, c, x);
      assert IsFirst(sort, rows, if Before(sort, c, x) then c else x);
    }
  }

  lemma FirstWithOneMore(sort: Sort, rest: set<Card>, c: Card, x: Card)
    requires IsFirst(sort, rest, c) && c.productId != x.productId
    ensures IsFirst(sort, rest + {x}, if Before(sort, c, x) then c else x)
  {
    BeforeIsTotal(sort, c, x);
    if !Before(sort, c, x) {
      forall d | d in rest && d != c
        ensures Before(sort, x, d)
      {
        BeforeIsTransitive(sort, x, c, d);
      }
    }
  }

  /** The rows in ORDER BY order. */
  ghost function Ordered(sort: Sort, rows: set<Card>): (list: seq<Card>)
    requires OneRowPerProduct(rows)
    ensures Lists(list, rows) && StrictlySorted(sort, list)
  {
    if rows == {} then []
    else
      FirstExists(sort, rows);
      var c :| IsFirst(sort, rows, c);
      var rest := Ordered(sort, rows - {c});
      [c] + rest
  }

  /** A strict order leaves no choice: two sorted lists of the same rows are the same list. */
  lemma {:induction false} SortedListUnique(sort: Sort, a: seq<Card>, b: seq<Card>)
    requires StrictlySorted(sort, a) && StrictlySorted(sort, b)
    requires forall c :: c in a <==> c in b
    ensures a == b
  {
    assert |b| > 0 ==> b[0] in b && b[0] in a;
    if a != [] {
      assert a[0] in b && b != [];
      assert a[0] == b[0];
      forall c
        ensures c in a[1..] <==> c in b[1..]
      {
        if c in a[1..] { assert c in b; }
        if c in b[1..] { assert c in a; }
      }
      SortedListUnique(sort, a[1..], b[1..]);
    }
  }

  // ---------------------------------------------------------------- one page

  function Limit(pageSize: int): nat {
    if pageSize < 1 then 1 else if pageSize > MAX_PAGE_SIZE then MAX_PAGE_SIZE else pageSize
  }

  /** Only the price sorts look at the cursor's price. */
  function PriceUsed(sort: Sort, price: Option<Sent<Money>>): Option<Money>
    requires PriceSort(sort) ==> price.Some? && price.value.Fits?
  {
    if PriceSort(sort) then Some(price.value.value) else None
  }

  /** The rows a request may still return: filtered, and past the cursor if there is one. */
  function Remaining(w: World, q: Query, sort: Sort, token: Option<Token>): Result<set<Card>, ListingError> {
    if token == None then Ok(Filtered(w, q))
    else
      match DecodeCursor(token.value, sort)
      case Err(e) => Err(e)
      case Ok((lastId, lastPrice)) =>
        if PriceSort(sort) && lastPrice.None? then Err(NullComparison)
        else if lastId.TooLarge? || (PriceSort(sort) && lastPrice.value.TooLarge?) then Err(OutOfRange)
        else
          Ok(set c | c in Filtered(w, q) && KeysetPredicate(sort, lastId.value, PriceUsed(sort, lastPrice), c))
  }

  ghost function ListCards(
    w: World, q: Query, sort: Sort, token: Option<Token>, limit: nat): Result<seq<Card>, ListingError>
    requires Keyed(w.cards)
  {
    FilteredHasOneRowPerProduct(w, q);
    match Remaining(w, q, sort, token)
    case Err(e) => Err(e)
    case Ok(rows) => Ok(Take(Ordered(sort, rows), limit))
  }

  /** The cursor that a page ending in `last` hands out. */
  function CursorAfter(sort: Sort, last: Card): Token {
    EncodeCursor(sort, last.productId, if PriceSort(sort) then Some(last.price) else None)
  }

  /** One row more than `limit` was asked for; its presence is what "has more" means. */
  function CutPage(sort: Sort, cards: seq<Card>, limit: nat): Page {
    var hasMore := |cards| > limit;
    var page := Take(cards, limit);
    Page(page, if hasMore && page != [] then Some(CursorAfter(sort, page[|page| - 1])) else None)
  }

  ghost function ListCardsPage(
    w: World, q: Query, sort: Sort, token: Option<Token>, pageSize: int): Result<Page, ListingError>
    requires Keyed(w.cards)
  {
    var limit := Limit(pageSize);
    match ListCards(w, q, sort, token, limit + 1)
    case Err(e) => Err(e)
    case Ok(cards) => Ok(CutPage(sort, cards, limit))
  }

  /** A cursor decodes to its own position, for its own sort and no other. */
  lemma CursorRoundTrip(sort: Sort, other: Sort, last: Card)
    ensures DecodeCursor(CursorAfter(sort, last), other) ==
            if other == sort then Ok((Fits(last.productId), if PriceSort(sort) then Some(Fits(last.price)) else None))
            else Err(InvalidCursor)
  {
  }

  /** What becomes of a token, said of its fields alone. */
  function Fault(token: Token, sort: Sort): Option<ListingError> {
    if token.InfiniteId? then Some(Unconvertible)
    else if token.Garbled? || token.sort != sort then Some(InvalidCursor)
    else if PriceSort(sort) && token.price.None? then Some(NullComparison)
    else if token.id.TooLarge? || (PriceSort(sort) && token.price.value.TooLarge?) then Some(OutOfRange)
    else None
  }

  /** A page request fails exactly as its token's fields say; the table and the filters have no part in it. */
  lemma PageErrors(w: World, q: Query, sort: Sort, token: Option<Token>, pageSize: int, e: ListingError)
    requires Keyed(w.cards)
    ensures ListCardsPage(w, q, sort, token, pageSize) == Err(e) <==> token.Some? && Fault(token.value, sort) == Some(e)
  {
    FilteredHasOneRowPerProduct(w, q);
  }

  /**
   A cursor is refused as invalid or answered if and only if its id converts and, when it is
   for this sort, it has what the sort compares and that fits.
   */
  lemma RefusedOrAnsweredIff(w: World, q: Query, sort: Sort, token: Token, pageSize: int)
    requires Keyed(w.cards)
    ensures var page := ListCardsPage(w, q, sort, Some(token), pageSize);
            page.Ok? || page == Err(InvalidCursor) <==>
              !token.InfiniteId?
              && (token.Fields? && token.sort == sort ==>
                    token.id.Fits? && (PriceSort(sort) ==> token.price.Some? && token.price.value.Fits?))
  {
    if Fault(token, sort).Some? {
      PageErrors(w, q, sort, Some(token), pageSize, Fault(token, sort).value);
    } else {
      PageErrors(w, q, sort, Some(token), pageSize, NullComparison);
      PageErrors(w, q, sort, Some(token), pageSize, OutOfRange);
      PageErrors(w, q, sort, Some(token), pageSize, Unconvertible);
    }
  }

  /** Such tokens: an infinite id, no price for a price sort, an id or a price no column holds. */
  lemma CursorsThatEscapeRefusal(w: World, q: Query, pageSize: int)
    requires Keyed(w.cards)
    ensures ListCardsPage(w, q, Newest, Some(InfiniteId), pageSize) == Err(Unconvertible)
    ensures ListCardsPage(w, q, PriceAsc, Some(Fields(PriceAsc, Fits(1), None)), pageSize) == Err(NullComparison)
    ensures ListCardsPage(w, q, Newest, Some(Fields(Newest, TooLarge, None)), pageSize) == Err(OutOfRange)
    ensures ListCardsPage(w, q, PriceAsc, Some(Fields(PriceAsc, Fits(1), Some(TooLarge))), pageSize) == Err(OutOfRange)
  {
    PageErrors(w, q, Newest, Some(InfiniteId), pageSize, Unconvertible);
    PageErrors(w, q, PriceAsc, Some(Fields(PriceAsc, Fits(1), None)), pageSize, NullComparison);
    PageErrors(w, q, Newest, Some(Fields(Newest, TooLarge, None)), pageSize, OutOfRange);
    PageErrors(w, q, PriceAsc, Some(Fields(PriceAsc, Fits(1), Some(TooLarge))), pageSize, OutOfRange);
  }

  lemma CursorAfterIsAnswered(w: World, q: Query, sort: Sort, last: Card, pageSize: int)
    requires Keyed(w.cards)
    ensures Fault(CursorAfter(sort, last), sort).None?
    ensures ListCardsPage(w, q, sort, Some(CursorAfter(sort, last)), pageSize).Ok?
  {
  }

  lemma IssuedCursorNamesACard(w: World, q: Query, sort: Sort, token: Option<Token>, pageSize: int)
    requires Keyed(w.cards) && ListCardsPage(w, q, sort, token, pageSize).Ok?
    ensures var next := ListCardsPage(w, q, sort, token, pageSize).value.next;
            next.Some? ==> exists last :: next == Some(CursorAfter(sort, last))
  {
  }

  /** No page hands one out: every issued cursor is answered, whatever the table is by then. */
  lemma IssuedCursorsAreAnswered(w: World, q: Query, sort: Sort, token: Option<Token>, pageSize: int, later: World)
    requires Keyed(w.cards) && Keyed(later.cards)
    ensures var page := ListCardsPage(w, q, sort, token, pageSize);
            page.Ok? && page.value.next.Some? ==>
              Fault(page.value.next.value, sort).None? && ListCardsPage(later, q, sort, page.value.next, pageSize).Ok?
  {
    var page := ListCardsPage(w, q, sort, token, pageSize);
    if page.Ok? && page.value.next.Some? {
      IssuedCursorNamesACard(w, q, sort, token, pageSize);
      var last :| page.value.next == Some(CursorAfter(sort, last));
      CursorAfterIsAnswered(later, q, sort, last, pageSize);
    }
  }

  /** The continuation predicate is the ORDER BY comparison with the last row. */
  lemma KeysetContinuesTheOrder(w: World, q: Query, sort: Sort, last: Card)
    ensures Remaining(w, q, sort, Some(CursorAfter(sort, last))) ==
            Ok(set c | c in Filtered(w, q) && Before(sort, last, c))
  {
    var rows := Remaining(w, q, sort, Some(CursorAfter(sort, last)));
    assert rows.Ok?;
    assert rows.value == set c | c in Filtered(w, q) && Before(sort, last, c);
  }

  lemma LookAheadShape(sort: Sort, list: seq<Card>, limit: nat)
    requires limit > 0
    ensures CutPage(sort, Take(list, limit + 1), limit) ==
            if |list| > limit then Page(list[..limit], Some(CursorAfter(sort, list[limit - 1]))) else Page(list, None)
  {
    if |list| > limit {
      assert list[..limit + 1][..limit] == list[..limit];
    } else {
      assert list[..|list|] == list;
    }
  }

  /** What a page is, in terms of the ordered rows that remain. */
  lemma PageShape(w: World, q: Query, sort: Sort, token: Option<Token>, pageSize: int)
    requires Keyed(w.cards) && Remaining(w, q, sort, token).Ok?
    ensures OneRowPerProduct(Remaining(w, q, sort, token).value)
    ensures var list := Ordered(sort, Remaining(w, q, sort, token).value);
            ListCardsPage(w, q, sort, token, pageSize) ==
            Ok(if |list| > Limit(pageSize)
               then Page(list[..Limit(pageSize)], Some(CursorAfter(sort, list[Limit(pageSize) - 1])))
               else Page(list, None))
  {
    FilteredHasOneRowPerProduct(w, q);
    LookAheadShape(sort, Ordered(sort, Remaining(w, q, sort, token).value), Limit(pageSize));
  }
}

/**
 Whole walks: a client that follows `next` from page to page until there is none.
 First on a table that stands still, then on one that changes between any two pages.
 */
module CursorWalks {
  import opened Outcomes
  import opened Cards
  import opened Rows
  import opened Listing

  // ---------------------------------------------------------------- a table that stands still

  /** Rows past a row that is past the cursor are past the cursor. */
  lemma KeysetIsUpwardClosed(sort: Sort, lastId: ProductId, lastPrice: Option<Money>, b: Card, c: Card)
    requires PriceSort(sort) ==> lastPrice.Some?
    requires KeysetPredicate(sort, lastId, lastPrice, b) && Before(sort, b, c)
    ensures KeysetPredicate(sort, lastId, lastPrice, c)
  {
  }

  ghost function OrderedRemaining(w: World, q: Query, sort: Sort, token: Option<Token>): seq<Card>
    requires Keyed(w.cards) && Remaining(w, q, sort, token).Ok?
  {
    FilteredHasOneRowPerProduct(w, q);
    Ordered(sort, Remaining(w, q, sort, token).value)
  }

  /** In a sorted list that takes every row of `all` past any of its own, the rows past `list[k]` are its tail. */
  lemma RowsPast(sort: Sort, all: set<Card>, list: seq<Card>, k: nat, c: Card)
    requires StrictlySorted(sort, list) && k < |list|
    requires forall x :: x in list ==> x in all
    requires c in all && Before(sort, list[k], c) ==> c in list
    ensures c in all && Before(sort, list[k], c) <==> c in list[k + 1..]
  {
    if c in list[k + 1..] {
      var i :| k + 1 <= i < |list| && list[i] == c;
      assert c in list && Before(sort, list[k], list[i]);
    }
    if c in all && Before(sort, list[k], c) {
      var i :| 0 <= i < |list| && list[i] == c;
      assert i <= k ==> i == k || Before(sort, list[i], list[k]);
    }
  }

  /** What remains after a page that has a successor is the rest of the ordered rows. */
  lemma NextPageStartsWhereThisEnds(w: World, q: Query, sort: Sort, token: Option<Token>, n: nat)
    requires Keyed(w.cards) && Remaining(w, q, sort, token).Ok?
    requires 0 < n < |OrderedRemaining(w, q, sort, token)|
    ensures var list := OrderedRemaining(w, q, sort, token);
            var next := Some(CursorAfter(sort, list[n - 1]));
            Remaining(w, q, sort, next).Ok? && OrderedRemaining(w, q, sort, next) == list[n..]
  {
    var list := OrderedRemaining(w, q, sort, token);
    var next := Some(CursorAfter(sort, list[n - 1]));
    KeysetContinuesTheOrder(w, q, sort, list[n - 1]);
    var rest := OrderedRemaining(w, q, sort, next);
    forall c
      ensures c in rest <==> c in list[n..]
    {
      assert list[n - 1] in list;
      if c in Filtered(w, q) && Before(sort, list[n - 1], c) && token.Some? {
        KeysetIsUpwardClosed(sort, token.value.id.value, PriceUsed(sort, token.value.price), list[n - 1], c);
      }
      RowsPast(sort, Filtered(w, q), list, n - 1, c);
    }
    SortedListUnique(sort, rest, list[n..]);
  }

  /** The pages a client gets by following the cursor until there is no next page. */
  ghost function Walk(w: World, q: Query, sort: Sort, token: Option<Token>, pageSize: int): seq<Page>
    requires Keyed(w.cards) && Remaining(w, q, sort, token).Ok?
    decreases |OrderedRemaining(w, q, sort, token)|
  {
    PageShape(w, q, sort, token, pageSize);
    var page := ListCardsPage(w, q, sort, token, pageSize).value;
    if page.next == None then [page]
    else
      NextPageStartsWhereThisEnds(w, q, sort, token, Limit(pageSize));
      [page] + Walk(w, q, sort, page.next, pageSize)
  }

  function Flatten(pages: seq<Page>): seq<Card> {
    if pages == [] then [] else pages[0].data + Flatten(pages[1..])
  }

  /** max(1, ceil(n / limit)). */
  function PageCount(n: nat, limit: nat): nat
    requires limit > 0
  {
    if n == 0 then 1 else (n + limit - 1) / limit
  }

  lemma QuotientIs(x: nat, d: nat, q: nat, r: nat)
    requires 0 < d && x == q * d + r && r < d
    ensures x / d == q
  {
    var e := x / d - q;
    assert e * d == r - x % d;
    MultiplesOf(e, d);
  }

  lemma MultiplesOf(e: int, d: nat)
    ensures e >= 1 ==> e * d >= d
    ensures e <= -1 ==> e * d + d <= 0
  {
  }

  lemma OnePageMore(n: nat, limit: nat)
    requires 0 < limit
    ensures n <= limit ==> PageCount(n, limit) == 1
    ensures n > limit ==> PageCount(n, limit) == 1 + PageCount(n - limit, limit)
  {
    if 0 < n <= limit {
      QuotientIs(n + limit - 1, limit, 1, n - 1);
    } else if n > limit {
      var m := n - 1;
      assert m == m / limit * limit + m % limit;
      QuotientIs(m + limit, limit, m / limit + 1, m % limit);
    }
  }

  lemma WalkUnfolds(w: World, q: Query, sort: Sort, token: Option<Token>, pageSize: int)
    requires Keyed(w.cards) && Remaining(w, q, sort, token).Ok?
    ensures var list := OrderedRemaining(w, q, sort, token);
            var limit := Limit(pageSize);
            if |list| <= limit then Walk(w, q, sort, token, pageSize) == [Page(list, None)]
            else
              var next := Some(CursorAfter(sort, list[limit - 1]));
              && Remaining(w, q, sort, next).Ok?
              && OrderedRemaining(w, q, sort, next) == list[limit..]
              && Walk(w, q, sort, token, pageSize) == [Page(list[..limit], next)] + Walk(w, q, sort, next, pageSize)
  {
    PageShape(w, q, sort, token, pageSize);
    var list := OrderedRemaining(w, q, sort, token);
    if |list| > Limit(pageSize) {
      NextPageStartsWhereThisEnds(w, q, sort, token, Limit(pageSize));
    }
  }

  /** A sorted list cut into pages. */
  ghost function Cut(sort: Sort, list: seq<Card>, limit: nat): seq<Page>
    requires limit > 0
  {
    if |list| <= limit then [Page(list, None)]
    else [Page(list[..limit], Some(CursorAfter(sort, list[limit - 1])))] + Cut(sort, list[limit..], limit)
  }

  lemma {:induction false} WalkCutsTheList(
    w: World, q: Query, sort: Sort, token: Option<Token>, pageSize: int, list: seq<Card>)
    requires Keyed(w.cards) && Remaining(w, q, sort, token).Ok? && list == OrderedRemaining(w, q, sort, token)
    ensures Walk(w, q, sort, token, pageSize) == Cut(sort, list, Limit(pageSize))
    decreases |list|
  {
    var limit := Limit(pageSize);
    WalkUnfolds(w, q, sort, token, pageSize);
    if |list| > limit {
      var next, rest := Some(CursorAfter(sort, list[limit - 1])), list[limit..];
      WalkCutsTheList(w, q, sort, next, pageSize, rest);
      assert Cut(sort, list, limit) == [Page(list[..limit], next)] + Cut(sort, rest, limit);
    }
  }

  lemma FlattenFirst(page: Page, rest: seq<Page>)
    ensures Flatten([page] + rest) == page.data + Flatten(rest)
  {
    assert ([page] + rest)[1..] == rest;
  }

  lemma {:induction false} CutLosesNothing(sort: Sort, list: seq<Card>, limit: nat)
    requires limit > 0
    ensures Flatten(Cut(sort, list, limit)) == list
    ensures |Cut(sort, list, limit)| == PageCount(|list|, limit)
    decreases |list|
  {
    OnePageMore(|list|, limit);
    if |list| > limit {
      CutLosesNothing(sort, list[limit..], limit);
      FlattenFirst(Page(list[..limit], Some(CursorAfter(sort, list[limit - 1]))), Cut(sort, list[limit..], limit));
      assert list == list[..limit] + list[limit..];
    } else {
      FlattenFirst(Page(list, None), []);
    }
  }

  /** A full walk returns exactly the filtered listing in sort order, in max(1, ceil(n/limit)) pages. */
  lemma FullWalkIsTheListing(w: World, q: Query, sort: Sort, pageSize: int)
    requires Keyed(w.cards)
    ensures var pages := Walk(w, q, sort, None, pageSize);
            && Lists(Flatten(pages), Filtered(w, q))
            && StrictlySorted(sort, Flatten(pages))
            && |pages| == PageCount(|Flatten(pages)|, Limit(pageSize))
  {
    var list := OrderedRemaining(w, q, sort, None);
    WalkCutsTheList(w, q, sort, None, pageSize, list);
    CutLosesNothing(sort, list, Limit(pageSize));
  }

  // ---------------------------------------------------------------- a table that changes between pages

  function TokenFor(pages: seq<Page>, i: nat): Option<Token>
    requires i <= |pages|
  {
    if i == 0 then None else pages[i - 1].next
  }

  ghost predicate PageOk(worlds: seq<World>, q: Query, sort: Sort, pageSize: int, pages: seq<Page>, i: nat)
    requires i < |pages| == |worlds|
  {
    && Keyed(worlds[i].cards)
    && (i > 0 ==> pages[i - 1].next.Some?)
    && ListCardsPage(worlds[i], q, sort, TokenFor(pages, i), pageSize) == Ok(pages[i])
  }

  /** Page `i` is read from `worlds[i]`; nothing relates one world to the next. */
  ghost predicate IsWalk(worlds: seq<World>, q: Query, sort: Sort, pageSize: int, pages: seq<Page>) {
    && |pages| == |worlds| > 0
    && forall i {:trigger PageOk(worlds, q, sort, pageSize, pages, i)} ::
         0 <= i < |pages| ==> PageOk(worlds, q, sort, pageSize, pages, i)
  }

  ghost predicate IsCompleteWalk(worlds: seq<World>, q: Query, sort: Sort, pageSize: int, pages: seq<Page>) {
    IsWalk(worlds, q, sort, pageSize, pages) && pages[|pages| - 1].next == None
  }

  function LastOf(page: Page): Card
    requires page.data != []
  {
    page.data[|page.data| - 1]
  }

  lemma CutRows(sort: Sort, rows: set<Card>, list: seq<Card>, limit: nat, page: Page)
    requires limit > 0 && Lists(list, rows) && StrictlySorted(sort, list)
    requires page ==
             if |list| > limit then Page(list[..limit], Some(CursorAfter(sort, list[limit - 1]))) else Page(list, None)
    ensures StrictlySorted(sort, page.data)
    ensures page.next.Some? ==> page.data != [] && page.next == Some(CursorAfter(sort, LastOf(page)))
    ensures forall c :: c in page.data ==> c in rows
    ensures forall c :: c in rows && c !in page.data ==> page.next.Some? && Before(sort, LastOf(page), c)
  {
    var n := |page.data|;
    assert page.data == list[..n] && forall j :: 0 <= j < n ==> list[j] == page.data[j];
    forall c | c in rows && c !in page.data
      ensures page.next.Some? && Before(sort, LastOf(page), c)
    {
      assert c in list;
      var j :| 0 <= j < |list| && list[j] == c;
    }
  }

  /** One page: sorted, within the rows that remain, and skipping none of them. */
  lemma PageRows(w: World, q: Query, sort: Sort, token: Option<Token>, pageSize: int, page: Page)
    requires Keyed(w.cards) && ListCardsPage(w, q, sort, token, pageSize) == Ok(page)
    ensures Remaining(w, q, sort, token).Ok? && StrictlySorted(sort, page.data)
    ensures page.next.Some? ==> page.data != [] && page.next == Some(CursorAfter(sort, LastOf(page)))
    ensures forall c :: c in page.data ==> c in Remaining(w, q, sort, token).value
    ensures forall c :: c in Remaining(w, q, sort, token).value && c !in page.data
                        ==> page.next.Some? && Before(sort, LastOf(page), c)
  {
    PageShape(w, q, sort, token, pageSize);
    CutRows(sort, Remaining(w, q, sort, token).value, OrderedRemaining(w, q, sort, token), Limit(pageSize), page);
  }

  ghost predicate PastPage(sort: Sort, pages: seq<Page>, i: nat, c: Card)
    requires i <= |pages|
  {
    i > 0 ==> pages[i - 1].data != [] && Before(sort, LastOf(pages[i - 1]), c)
  }

  /** Page `i` of a walk holds exactly a first stretch of the rows of its world that lie past page `i - 1`. */
  lemma PageFacts(worlds: seq<World>, q: Query, sort: Sort, pageSize: int, pages: seq<Page>, i: nat)
    requires IsWalk(worlds, q, sort, pageSize, pages) && i < |pages|
    ensures StrictlySorted(sort, pages[i].data)
    ensures i > 0 ==> pages[i - 1].data != []
    ensures pages[i].next.Some? ==> pages[i].data != []
    ensures forall c :: c in pages[i].data ==> c in Filtered(worlds[i], q) && PastPage(sort, pages, i, c)
    ensures forall c :: c in Filtered(worlds[i], q) && PastPage(sort, pages, i, c) && c !in pages[i].data
                        ==> pages[i].next.Some? && Before(sort, LastOf(pages[i]), c)
  {
    assert PageOk(worlds, q, sort, pageSize, pages, i);
    PageRows(worlds[i], q, sort, TokenFor(pages, i), pageSize, pages[i]);
    if i > 0 {
      assert PageOk(worlds, q, sort, pageSize, pages, i - 1);
      PageRows(worlds[i - 1], q, sort, TokenFor(pages, i - 1), pageSize, pages[i - 1]);
      KeysetContinuesTheOrder(worlds[i], q, sort, LastOf(pages[i - 1]));
    }
  }

  /** Whatever happens to the table, the rows come out in strictly increasing sort order across pages. */
  lemma {:induction false} WalkIsStrictlySorted(
    worlds: seq<World>, q: Query, sort: Sort, pageSize: int, pages: seq<Page>, i: nat, k: nat, a: Card, b: Card)
    requires IsWalk(worlds, q, sort, pageSize, pages) && i < k < |pages|
    requires a in pages[i].data && b in pages[k].data
    ensures Before(sort, a, b)
    decreases k
  {
    PageFacts(worlds, q, sort, pageSize, pages, k);
    var last := LastOf(pages[k - 1]);
    assert PastPage(sort, pages, k, b);
    assert last in pages[k - 1].data;
    if i < k - 1 {
      WalkIsStrictlySorted(worlds, q, sort, pageSize, pages, i, k - 1, a, last);
    } else {
      PageFacts(worlds, q, sort, pageSize, pages, i);
      var j :| 0 <= j < |pages[i].data| && pages[i].data[j] == a;
      assert j < |pages[i].data| - 1 ==> Before(sort, a, last);
    }
  }

  /** A product that comes back a second time was re-priced, and only under a price sort. */
  lemma RepeatMeansPriceMoved(
    worlds: seq<World>, q: Query, sort: Sort, pageSize: int, pages: seq<Page>, i: nat, j: nat, k: nat, l: nat)
    requires IsWalk(worlds, q, sort, pageSize, pages)
    requires i < |pages| && j < |pages[i].data| && k < |pages| && l < |pages[k].data|
    requires i < k || (i == k && j < l)
    requires pages[i].data[j].productId == pages[k].data[l].productId
    ensures i < k
    ensures match sort
            case PriceAsc => pages[i].data[j].price < pages[k].data[l].price
            case PriceDesc => pages[i].data[j].price > pages[k].data[l].price
            case Newest => false
  {
    PageFacts(worlds, q, sort, pageSize, pages, i);
    if i < k {
      WalkIsStrictlySorted(worlds, q, sort, pageSize, pages, i, k, pages[i].data[j], pages[k].data[l]);
    } else {
      assert Before(sort, pages[i].data[j], pages[i].data[l]);
      assert pages[i].data[j] in Filtered(worlds[i], q) && pages[i].data[l] in Filtered(worlds[i], q);
      assert PageOk(worlds, q, sort, pageSize, pages, i);
      FilteredHasOneRowPerProduct(worlds[i], q);
    }
  }

  /** From page `first` on the product's card is there, matches, and (for price sorts) costs the same. */
  ghost predicate StaysPutFrom(worlds: seq<World>, q: Query, sort: Sort, id: ProductId, price: Money, first: nat) {
    forall i {:trigger worlds[i]} :: first <= i < |worlds| ==>
      var key := CardKey(id, q.lang);
      key in worlds[i].cards && Matches(worlds[i], q, worlds[i].cards[key])
      && (PriceSort(sort) ==> worlds[i].cards[key].price == price)
  }

  ghost predicate StaysPut(worlds: seq<World>, q: Query, sort: Sort, id: ProductId, price: Money) {
    StaysPutFrom(worlds, q, sort, id, price, 0)
  }

  ghost predicate ReturnedAt(pages: seq<Page>, id: ProductId, i: int, j: int) {
    0 <= i < |pages| && 0 <= j < |pages[i].data| && pages[i].data[j].productId == id
  }

  ghost predicate StillAhead(sort: Sort, pages: seq<Page>, i: nat, c: Card)
    requires i < |pages|
  {
    pages[i].next.Some? && pages[i].data != [] && Before(sort, LastOf(pages[i]), c)
  }

  lemma OnPageOrStillAhead(
    worlds: seq<World>, q: Query, sort: Sort, pageSize: int, pages: seq<Page>, i: nat, c: Card)
    requires IsWalk(worlds, q, sort, pageSize, pages) && i < |pages|
    requires c in Filtered(worlds[i], q) && PastPage(sort, pages, i, c)
    ensures (exists j :: ReturnedAt(pages, c.productId, i, j)) || StillAhead(sort, pages, i, c)
  {
    PageFacts(worlds, q, sort, pageSize, pages, i);
    if c in pages[i].data {
      var j :| 0 <= j < |pages[i].data| && pages[i].data[j] == c;
      assert ReturnedAt(pages, c.productId, i, j);
    }
  }

  /** A card that stays put and starts out ahead of the cursor is returned, or is still ahead. */
  lemma {:induction false} ReturnedOrStillAhead(
    worlds: seq<World>, q: Query, sort: Sort, pageSize: int, pages: seq<Page>, id: ProductId, price: Money,
    first: nat, i: nat)
    requires IsWalk(worlds, q, sort, pageSize, pages) && StaysPutFrom(worlds, q, sort, id, price, first)
    requires first <= i < |pages| && PastPage(sort, pages, first, worlds[first].cards[CardKey(id, q.lang)])
    ensures (exists k, j :: first <= k <= i && ReturnedAt(pages, id, k, j))
            || StillAhead(sort, pages, i, worlds[i].cards[CardKey(id, q.lang)])
    decreases i
  {
    var c := worlds[i].cards[CardKey(id, q.lang)];
    assert PageOk(worlds, q, sort, pageSize, pages, i);
    assert c in Filtered(worlds[i], q);
    if i > first {
      ReturnedOrStillAhead(worlds, q, sort, pageSize, pages, id, price, first, i - 1);
      assert PageOk(worlds, q, sort, pageSize, pages, i - 1);
      assert worlds[i - 1].cards[CardKey(id, q.lang)].productId == id;
    }
    if PastPage(sort, pages, i, c) {
      OnPageOrStillAhead(worlds, q, sort, pageSize, pages, i, c);
    }
  }

  /** Under any changes to other rows, a card that stays put is returned exactly once by a complete walk. */
  lemma StableCardReturnedExactlyOnce(
    worlds: seq<World>, q: Query, sort: Sort, pageSize: int, pages: seq<Page>, id: ProductId, price: Money)
    requires IsCompleteWalk(worlds, q, sort, pageSize, pages) && StaysPut(worlds, q, sort, id, price)
    ensures exists i, j :: ReturnedAt(pages, id, i, j)
    ensures forall i, j, k, l :: ReturnedAt(pages, id, i, j) && ReturnedAt(pages, id, k, l) ==> i == k && j == l
  {
    ReturnedOrStillAhead(worlds, q, sort, pageSize, pages, id, price, 0, |pages| - 1);
    forall i, j, k, l | ReturnedAt(pages, id, i, j) && ReturnedAt(pages, id, k, l)
      ensures i == k && j == l
    {
      PriceWhereReturned(worlds, q, sort, pageSize, pages, id, price, 0, i, j);
      PriceWhereReturned(worlds, q, sort, pageSize, pages, id, price, 0, k, l);
      if i < k || (i == k && j < l) {
        RepeatMeansPriceMoved(worlds, q, sort, pageSize, pages, i, j, k, l);
      } else if k < i || (i == k && l < j) {
        RepeatMeansPriceMoved(worlds, q, sort, pageSize, pages, k, l, i, j);
      }
    }
  }

  lemma PriceWhereReturned(
    worlds: seq<World>, q: Query, sort: Sort, pageSize: int, pages: seq<Page>, id: ProductId, price: Money,
    first: nat, i: int, j: int)
    requires IsWalk(worlds, q, sort, pageSize, pages) && StaysPutFrom(worlds, q, sort, id, price, first)
    requires first <= i && ReturnedAt(pages, id, i, j)
    ensures PriceSort(sort) ==> pages[i].data[j].price == price
  {
    assert PageOk(worlds, q, sort, pageSize, pages, i);
    PageFacts(worlds, q, sort, pageSize, pages, i);
    assert pages[i].data[j] in Filtered(worlds[i], q);
    FilteredHasOneRowPerProduct(worlds[i], q);
    assert worlds[i].cards[CardKey(id, q.lang)] in Filtered(worlds[i], q);
  }

  /**
   A card re-priced (or inserted) after page `i` and left alone from then on is returned by
   a later page exactly when it now lies past the last row of page `i`.
   */
  lemma ReturnedAfterwardsIff(
    worlds: seq<World>, q: Query, sort: Sort, pageSize: int, pages: seq<Page>, id: ProductId, price: Money, i: nat)
    requires IsCompleteWalk(worlds, q, sort, pageSize, pages) && i + 1 < |pages|
    requires StaysPutFrom(worlds, q, sort, id, price, i + 1)
    ensures pages[i].data != []
    ensures (exists k, l :: k > i && ReturnedAt(pages, id, k, l)) <==>
              Before(sort, LastOf(pages[i]), worlds[i + 1].cards[CardKey(id, q.lang)])
  {
    PageFacts(worlds, q, sort, pageSize, pages, i + 1);
    assert PageOk(worlds, q, sort, pageSize, pages, i + 1);
    var last, now := LastOf(pages[i]), worlds[i + 1].cards[CardKey(id, q.lang)];
    if Before(sort, last, now) {
      ReturnedOrStillAhead(worlds, q, sort, pageSize, pages, id, price, i + 1, |pages| - 1);
    }
    if k, l :| k > i && ReturnedAt(pages, id, k, l) {
      PriceWhereReturned(worlds, q, sort, pageSize, pages, id, price, i + 1, k, l);
      assert last in pages[i].data && pages[k].data[l] in pages[k].data;
      WalkIsStrictlySorted(worlds, q, sort, pageSize, pages, i, k, last, pages[k].data[l]);
    }
  }

  /**
   The exact condition for a repeat: a product that page `i` returned, and no page up to `c`
   since, comes back after its last change if and only if the change put it past page `c`.
   */
  lemma RepeatedIff(
    worlds: seq<World>, q: Query, sort: Sort, pageSize: int, pages: seq<Page>, id: ProductId, price: Money,
    i: nat, j: nat, c: nat)
    requires IsCompleteWalk(worlds, q, sort, pageSize, pages) && i <= c && c + 1 < |pages|
    requires ReturnedAt(pages, id, i, j) && StaysPutFrom(worlds, q, sort, id, price, c + 1)
    requires forall k, l :: i < k <= c ==> !ReturnedAt(pages, id, k, l)
    ensures pages[c].data != []
    ensures (exists k, l :: (k, l) != (i, j) && k >= i && ReturnedAt(pages, id, k, l)) <==>
              sort != Newest && Before(sort, LastOf(pages[c]), worlds[c + 1].cards[CardKey(id, q.lang)])
  {
    ReturnedAfterwardsIff(worlds, q, sort, pageSize, pages, id, price, c);
    OncePerPage(worlds, q, sort, pageSize, pages, id, i, j);
    if k, l :| sort == Newest && k > c && ReturnedAt(pages, id, k, l) {
      NewestNeverRepeats(worlds, q, pageSize, pages, id, i, j, k, l);
    }
  }

  lemma OncePerPage(
    worlds: seq<World>, q: Query, sort: Sort, pageSize: int, pages: seq<Page>, id: ProductId, i: nat, j: nat)
    requires IsWalk(worlds, q, sort, pageSize, pages) && ReturnedAt(pages, id, i, j)
    ensures forall l :: ReturnedAt(pages, id, i, l) ==> l == j
  {
    forall l | ReturnedAt(pages, id, i, l) ensures l == j {
      if j < l {
        RepeatMeansPriceMoved(worlds, q, sort, pageSize, pages, i, j, i, l);
      } else if l < j {
        RepeatMeansPriceMoved(worlds, q, sort, pageSize, pages, i, l, i, j);
      }
    }
  }

  /**
   The exact condition for a miss: not returned so far, and its new price does not put it past the
   page's last row.
   */
  lemma MissedIff(
    worlds: seq<World>, q: Query, sort: Sort, pageSize: int, pages: seq<Page>, id: ProductId, price: Money, i: nat)
    requires IsCompleteWalk(worlds, q, sort, pageSize, pages) && i + 1 < |pages|
    requires StaysPutFrom(worlds, q, sort, id, price, i + 1)
    requires forall k, l :: k <= i ==> !ReturnedAt(pages, id, k, l)
    ensures pages[i].data != []
    ensures (forall k, l :: !ReturnedAt(pages, id, k, l)) <==>
              !Before(sort, LastOf(pages[i]), worlds[i + 1].cards[CardKey(id, q.lang)])
  {
    ReturnedAfterwardsIff(worlds, q, sort, pageSize, pages, id, price, i);
  }

  /** Newest first, no product is ever returned twice, whatever is inserted, deleted or edited meanwhile. */
  lemma NewestNeverRepeats(
    worlds: seq<World>, q: Query, pageSize: int, pages: seq<Page>, id: ProductId, i: int, j: int, k: int, l: int)
    requires IsWalk(worlds, q, Newest, pageSize, pages)
    requires ReturnedAt(pages, id, i, j) && ReturnedAt(pages, id, k, l)
    ensures i == k && j == l
  {
    if i < k || (i == k && j < l) {
      RepeatMeansPriceMoved(worlds, q, Newest, pageSize, pages, i, j, k, l);
    } else if k < i || (i == k && l < j) {
      RepeatMeansPriceMoved(worlds, q, Newest, pageSize, pages, k, l, i, j);
    }
  }

  // ---------------------------------------------------------------- why the price must stay put

  function PlainCard(id: ProductId, price: Money): Card {
    Card(id, Ru, 1, "name", "slug", price, None, None, true, None, None, [1], true, false)
  }

  lemma OrderedIs(sort: Sort, rows: set<Card>, list: seq<Card>)
    requires OneRowPerProduct(rows) && StrictlySorted(sort, list)
    requires forall c :: c in list <==> c in rows
    ensures Ordered(sort, rows) == list
  {
    SortedListUnique(sort, Ordered(sort, rows), list);
  }

  const EVERYTHING := Query(None, Ru, None, None, [], false, false)

  lemma FirstPageOfTwo(w: World, a: Card, b: Card)
    requires a == PlainCard(1, 1000) && b == PlainCard(2, 2000)
    requires w.cards == map[CardKey(1, Ru) := a, CardKey(2, Ru) := b]
    ensures ListCardsPage(w, EVERYTHING, PriceAsc, None, 1) == Ok(Page([a], Some(CursorAfter(PriceAsc, a))))
  {
    assert w.cards[CardKey(1, Ru)] == a && w.cards[CardKey(2, Ru)] == b;
    assert Filtered(w, EVERYTHING) == {a, b};
    PageShape(w, EVERYTHING, PriceAsc, None, 1);
    OrderedIs(PriceAsc, {a, b}, [a, b]);
    assert [a, b][..1] == [a];
  }

  lemma LastPageOfOne(w: World, a: Card, c: Card)
    requires a == PlainCard(1, 1000) && c == PlainCard(1, 3000) && w.cards == map[CardKey(1, Ru) := c]
    ensures ListCardsPage(w, EVERYTHING, PriceAsc, Some(CursorAfter(PriceAsc, a)), 1) == Ok(Page([c], None))
  {
    assert w.cards[CardKey(1, Ru)] == c;
    assert Filtered(w, EVERYTHING) == {c};
    KeysetContinuesTheOrder(w, EVERYTHING, PriceAsc, a);
    assert (set d | d in {c} && Before(PriceAsc, a, d)) == {c};
    PageShape(w, EVERYTHING, PriceAsc, Some(CursorAfter(PriceAsc, a)), 1);
    OrderedIs(PriceAsc, {c}, [c]);
  }

  /** Two one-row pages between which product 1 is re-priced past its own cursor: it comes back. */
  lemma PriceRiseRepeatsAProduct(worlds: seq<World>, pages: seq<Page>)
    requires |worlds| == 2
    requires worlds[0].cards == map[CardKey(1, Ru) := PlainCard(1, 1000), CardKey(2, Ru) := PlainCard(2, 2000)]
    requires worlds[1].cards == map[CardKey(1, Ru) := PlainCard(1, 3000)]
    requires pages == [Page([PlainCard(1, 1000)], Some(CursorAfter(PriceAsc, PlainCard(1, 1000)))),
                       Page([PlainCard(1, 3000)], None)]
    ensures IsCompleteWalk(worlds, EVERYTHING, PriceAsc, 1, pages)
    ensures ReturnedAt(pages, 1, 0, 0) && ReturnedAt(pages, 1, 1, 0)
  {
    FirstPageOfTwo(worlds[0], PlainCard(1, 1000), PlainCard(2, 2000));
    LastPageOfOne(worlds[1], PlainCard(1, 1000), PlainCard(1, 3000));
    assert PageOk(worlds, EVERYTHING, PriceAsc, 1, pages, 0);
    assert PageOk(worlds, EVERYTHING, PriceAsc, 1, pages, 1);
  }

  /** Product 2, still ahead after the first page, is re-priced to before the cursor: no page ever shows it. */
  lemma PriceDropHidesAProduct(worlds: seq<World>, pages: seq<Page>)
    requires |worlds| == 2
    requires worlds[0].cards == map[CardKey(1, Ru) := PlainCard(1, 1000), CardKey(2, Ru) := PlainCard(2, 2000)]
    requires worlds[1].cards == map[CardKey(1, Ru) := PlainCard(1, 1000), CardKey(2, Ru) := PlainCard(2, 500)]
    requires pages == [Page([PlainCard(1, 1000)], Some(CursorAfter(PriceAsc, PlainCard(1, 1000)))), Page([], None)]
    ensures IsCompleteWalk(worlds, EVERYTHING, PriceAsc, 1, pages)
    ensures CardKey(2, Ru) in worlds[0].cards && CardKey(2, Ru) in worlds[1].cards
    ensures forall i, j :: !ReturnedAt(pages, 2, i, j)
  {
    FirstPageOfTwo(worlds[0], PlainCard(1, 1000), PlainCard(2, 2000));
    EmptyLastPage(worlds[1], PlainCard(1, 1000));
    assert PageOk(worlds, EVERYTHING, PriceAsc, 1, pages, 0);
    assert PageOk(worlds, EVERYTHING, PriceAsc, 1, pages, 1);
  }

  lemma EmptyLastPage(w: World, a: Card)
    requires Keyed(w.cards) && forall k :: k in w.cards ==> !Before(PriceAsc, a, w.cards[k])
    ensures ListCardsPage(w, EVERYTHING, PriceAsc, Some(CursorAfter(PriceAsc, a)), 1) == Ok(Page([], None))
  {
    KeysetContinuesTheOrder(w, EVERYTHING, PriceAsc, a);
    PageShape(w, EVERYTHING, PriceAsc, Some(CursorAfter(PriceAsc, a)), 1);
    assert Remaining(w, EVERYTHING, PriceAsc, Some(CursorAfter(PriceAsc, a))).value == {};
  }
}

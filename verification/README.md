# Shop backend: verified model

A Dafny model of the parts of the shop backend where several pieces of code have to agree:
columns that are stored next to what they are derived from, listings that are read in pages
while the table changes, a read model that is rebuilt after every edit, a cart that is
edited concurrently and merged on login, and a handful of small protocols that depend on
locks, clocks or expiry times.

| files | what they model |
|---|---|
| `CategoryTree.dfy`, `CategoryService.dfy`, `CategoryRaces.dfy` | the category table with parent link, stored `path` and `depth`; create, delete, move, update; concurrent moves; breadcrumbs and tree assembly |
| `Cards.dfy`, `Listing.dfy`, `CursorWalks.dfy`, `ListedCards.dfy` | the card table, three sort orders, the keyset cursor, whole walks over fixed and changing tables, and which cards a walk lists |
| `Facets.dfy`, `FacetCounts.dfy`, `Rollups.dfy`, `RelatedRail.dfy` | query shapes that replace a simpler definition: facet filter, facet counts, category counts, related products |
| `Products.dfy`, `ProductOps.dfy`, `ProductRuns.dfy`, `ProductService.dfy` | product, translation, variant and media operations and the cards projected from them |
| `ProductEffects.dfy`, `ProductRefusals.dfy`, `CardViews.dfy`, `CardContents.dfy` | what those operations store and refuse, and what the cards say, in terms of the rows alone |
| `Combos.dfy`, `VariantGeneration.dfy`, `VariantRaces.dfy` | the cartesian product of selector values, the generation of missing variants, and concurrent creations |
| `Carts.dfy`, `CartOps.dfy`, `CartService.dfy`, `CartAnswers.dfy`, `CartLocking.dfy` | cart lines, the cart service, the guest merge, what a rendered cart says, and concurrent requests under the row lock |
| `Stock.dfy`, `StockCards.dfy`, `OrderNumbers.dfy`, `Waybills.dfy`, `RateLimits.dfy`, `RefreshTokens.dfy`, `RefreshRaces.dfy` | conditional stock updates and what they do to the cards, order numbers, carrier waybills, the rate limiter, refresh-token rotation one request at a time and overlapping |
| `Slugs.dfy` | the importer's slugs and the back office's slug grammar |
| `Outcomes.dfy`, `Aggregates.dfy` | result types, row lists, and what SQL aggregates return |

Code that changes tables is modelled by classes whose methods run the same steps on their
fields; each is proved against a function from the tables before to the tables after, and the
properties are lemmas about those functions and about runs of them. A refused operation, and
one that ends in a publication error, leaves every table as it was, because the transaction
is never committed. Database queries are written as set or map expressions; rows that a query
returns without an ORDER BY come in an arbitrary order. Interleavings are state machines with
one step per statement; a schedule is any sequence of such steps.

## Findings

Where a plausible property is false of the code, the model keeps the code and proves when the
property holds.

- A category move rebuilds no card (app/services/admin_catalog_service.py:359-371). Cards that
  were fresh stay fresh if and only if the node keeps its parent or no active product lies in the
  moved subtree (`CardViews.MoveKeepsCardsFreshIff`).
- A stock update rebuilds no card (app/repositories/order_repo.py:193-271). Cards and cached columns
  survive one if and only if it changes no quantity, or the product is inactive, or a simple product
  stays on the same side of "in stock", or the variant is inactive or its product not variable
  (`StockCards.StockKeepsHealthIff`).
- A category move takes no lock (app/services/admin_catalog_service.py:343-371) and writes only columns
  that differ from what it read. Two roots moved under each other at the same time both pass the cycle
  check and close a cycle (`CategoryRaces.OppositeMovesCloseACycle`); a node moved while an ancestor
  moves can keep a wrong depth (`CategoryRaces.AncestorMoveLeavesAWrongDepth`). In any schedule the
  committed tables agree throughout if and only if every commit that changes a parent fits the table
  it is written to (`CategoryRaces.RacesAgreeIff`): the new parent's path is as read, the rows of the
  subtree are still in it with the same tails, none has come in unless the node hangs there already,
  and the depth is as read if the move saw no change of it.
- Creating a variant looks for its value set and stores it in separate statements, with no lock
  (app/services/admin_catalog_service.py:856-896). Two creations can store one set
  (`VariantRaces.OneSetStoredTwice`); in any schedule sets stay distinct if and only if no creation
  looked before, and stored after, another stored the same set (`VariantRaces.DistinctIffNoOverlap`).
- Under the price sorts a product re-priced between two pages can be returned twice or not at all
  (app/services/catalog_service.py:409-415, app/repositories/catalog_repo.py:435-450). It is
  returned after a page if and only if its new price puts it past that page's last row
  (`CursorWalks.ReturnedAfterwardsIff`); hence the exact conditions for a repeat and for a miss
  (`CursorWalks.RepeatedIff`, `CursorWalks.MissedIff`), with a walk of each kind
  (`CursorWalks.PriceRiseRepeatsAProduct`, `CursorWalks.PriceDropHidesAProduct`).
- Not every bad cursor is refused as invalid (app/services/catalog_service.py:119-136,
  app/repositories/catalog_repo.py:435-451). One whose id is an infinite number fails to convert with
  an error that is not caught; one for a price sort without a price reaches an ordering comparison
  with nothing; one whose id or price no column holds reaches the database
  (`Listing.CursorsThatEscapeRefusal`). A cursor is refused as invalid or answered if and only if it
  is none of these (`Listing.RefusedOrAnsweredIff`, `Listing.PageErrors`), and no page hands one out
  (`Listing.IssuedCursorsAreAnswered`).
- The facet query (app/repositories/catalog_repo.py:256-279) agrees with "some selected value for
  every selected attribute" if and only if at least one selected id exists
  (`Facets.DivisionNeedsAnExistingValue`).
- A waybill created by an answer that has no number is stored as "no number"
  (app/services/admin_order_service.py:283-287): the parcel is alive, the row says otherwise, and a
  second one can be created. Row and carrier agree after a creation if and only if the answer names
  the parcel (`Waybills.CreationAgreesIffNamed`, `Waybills.UnnamedCreationsCanDouble`), and over any
  schedule they agree throughout if and only if every accepted creation is named
  (`Waybills.AgreeThroughoutIffNamed`).
- The blacklist is asked after the token is decoded (app/services/auth_service.py:123-142). A revoked
  token that is decoded just before it expires and looked up just after its entry has lapsed is
  accepted (`RefreshTokens.RevokedTokenCanSlipThrough`); `RefreshTokens.SlipsThroughIff` gives the
  exact window in the two requests' own times, and `RefreshRaces.LookUpRefusesIff` for any number of
  overlapping requests: a look-up refuses exactly while the latest entry lasts.
- Looking up and writing the blacklist are two statements (app/services/auth_service.py:135-142), so
  two overlapping refreshes can both exchange one token (`RefreshRaces.OneTokenExchangedTwice`).
  Before the token expires a refresh exchanges it if and only if it looked it up before every write
  for it, so two both do if and only if both look-ups come before every write
  (`RefreshRaces.ClearedIffFirst`, `RefreshRaces.DoubleExchangeIff`).
- The rate limiter (app/api/ratelimit.py:96-113) lets through at most `2 * count - 1` requests in an
  arbitrary stretch of one window, one fewer than twice the count, and that is reached
  (`RateLimits.AnyWindowIsBounded`, `RateLimits.BoundIsReached`).

## Conventions

Prices are whole hundredths. Quantities added, set or returned are positive, as the request
schemas demand (app/schemas/cart.py:25-31, app/schemas/order.py:168); results that need it say so. Within a module all new row ids come from one counter. Languages are `ru`
and `ro`. Base64 and JSON of the cursor and the signature of a token are abstract: a cursor is
either garbled or its three fields, a token is valid when the server signed exactly those claims.

## Model

| member | source | states |
|---|---|---|
| `CategoryTree.LinkedIffAgrees` | app/services/admin_catalog_service.py:132-176 | extending the parent's path row by row is the same as every path being the whole parent chain root..self with `depth = len(path) - 1` |
| `CategoryTree.AgreementMeaning` | app/services/admin_catalog_service.py:132-176 | in an agreeing table a path ends in its own id, has no repeats, lists exactly the ancestors, and no category is its own ancestor |
| `CategoryTree.SubtreeQueryIsDescendants` | app/services/admin_catalog_service.py:351-357 | the rows whose path contains an id are exactly its descendants by parent links |
| `CategoryTree.CreateKeepsAgreement` | app/services/admin_catalog_service.py:149-176 | a created row keeps paths and depths in agreement with the links |
| `CategoryTree.DeleteKeepsAgreement` | app/services/admin_catalog_service.py:228-249 | deleting a childless category keeps agreement |
| `CategoryTree.MoveKeepsAgreement` | app/services/admin_catalog_service.py:343-371 | rewriting prefixes yields again a table whose paths are the parent chains of the re-parented tree |
| `CategoryTree.MoveRewritesExactlyTheSubtree` | app/services/admin_catalog_service.py:351-367 | a move changes descendants only: each keeps its tail below the moved node and gets the depth of its new path, only the node's own parent changes, and no other row is touched |
| `CategoryTree.MoveRefusedIffUnderOwnSubtree` | app/services/admin_catalog_service.py:343-346 | the refusal test on the new parent's path is true exactly when the new parent is the node or one of its descendants |
| `CategoryTree.RefusedMoveHasNoAgreeingTable` | app/services/admin_catalog_service.py:343-346 | a refused move could not have been carried out: no table with those parent links has agreeing paths |
| `CategoryTree.LinksDeterminePaths` | app/services/admin_catalog_service.py:132-147 | parent links determine the stored columns: two agreeing tables with the same links have the same paths |
| `CategoryTree.UpdateIsMoveThenFields` | app/services/admin_catalog_service.py:200-226 | an update that names a parent is a committed move followed by an update of the other fields, each a step of the runs below |
| `CategoryTree.RunKeepsValid` | app/services/admin_catalog_service.py:149-371 | every run of create, update, delete and move keeps agreement and every product's category existing |
| `CategoryTree.EveryHistoryAgrees` | app/services/admin_catalog_service.py:149-371 | from an empty table, after any run, every row's path is its acyclic parent chain and its depth the chain's length less one |
| `CategoryTree.CreatedCategory` | app/services/admin_catalog_service.py:149-176 | a new category has the parent, position and visibility asked for; refused only for a missing parent; no other row changes |
| `CategoryTree.DeletedCategory` | app/services/admin_catalog_service.py:228-267 | refused exactly for a missing category, one with a child, one with a product; otherwise only it goes |
| `CategoryTree.MovedCategory` | app/services/admin_catalog_service.py:320-371 | not found exactly for a missing category or parent, refused exactly for a parent that is the node or below it; positions and visibility stay |
| `CategoryTree.UpdatedCategory` | app/services/admin_catalog_service.py:200-226 | fields given are stored, others keep their values; without a parent in the patch no other row changes |
| `CategoryService.RebaseSubtree` | app/services/admin_catalog_service.py:351-367 | the loop over the selected rows, in whatever order they come, produces the re-parented table |
| `CategoryService.AdminCategories.ResolvePath` | app/services/admin_catalog_service.py:132-147 | the parent's path, none for a root, refusal for a missing parent |
| `CategoryService.AdminCategories.CreateCategory` | app/services/admin_catalog_service.py:149-176 | exactly one create step, or refused with all tables unchanged |
| `CategoryService.AdminCategories.DeleteCategory` | app/services/admin_catalog_service.py:228-267 | exactly one delete step; refused for children or products |
| `CategoryService.AdminCategories.MoveCategory` | app/services/admin_catalog_service.py:320-371 | exactly one move step, the refusals included |
| `CategoryService.AdminCategories.UpdateCategory` | app/services/admin_catalog_service.py:200-226 | the move, if the patch names a parent, and then the other fields; a refused move leaves everything |
| `CategoryService.BuildBreadcrumbs` | app/services/catalog_service.py:234-261 | the loop yields the named entries of the path in order |
| `CategoryService.BreadcrumbsEqualRecursion` | app/services/catalog_service.py:234-261 | breadcrumbs read off `path` equal those collected by recursion over parent links |
| `CategoryService.AssembleTree` | app/services/catalog_service.py:154-184 | the assembly loop puts every listed node under its listed parent, else among the roots, in listing order |
| `CategoryService.EveryNodePlacedOnce` | app/services/catalog_service.py:177-184 | each listed node has exactly one place in the assembled tree |
| `CategoryService.ListingOrderKept` | app/services/catalog_service.py:177-184 | roots, and the children of each node, keep the order of the listing |
| `CategoryRaces.LateMoveAgreesIff` | app/services/admin_catalog_service.py:343-371 | a parent-changing move written on a table that has changed since it was read leaves agreeing columns if and only if it fits: parent path and subtree tails as read, no newcomer unless re-parented already, depth as read when unwritten |
| `CategoryRaces.CurrentReadsMoveSerially` | app/services/admin_catalog_service.py:343-371 | if the new parent and the rows of the subtree still have the paths that were read, the late write is the serial move |
| `CategoryRaces.RacesAgreeIff` | app/services/admin_catalog_service.py:343-371 | for any schedule of reads and commits of any moves, the committed tables agree throughout if and only if every parent-changing commit fits |
| `CategoryRaces.OppositeMovesCloseACycle` | app/services/admin_catalog_service.py:343-371 | two roots moved under each other concurrently end as each other's parents |
| `CategoryRaces.AncestorMoveLeavesAWrongDepth` | app/services/admin_catalog_service.py:360-367 | a node moved while its old parent becomes a root keeps a depth one too small, with path and parent right |
| `Facets.CountingIsDivision` | app/repositories/catalog_repo.py:256-279 | counting distinct hit attributes is relational division once a selected id exists |
| `Facets.DivisionNeedsAnExistingValue` | app/repositories/catalog_repo.py:256-279 | query and intent agree if and only if some selected id exists |
| `Facets.SingleValueFilter` | app/repositories/catalog_repo.py:256-279 | one selected value keeps exactly the products linked to it |
| `Listing.CursorRoundTrip` | app/services/catalog_service.py:86-136 | a cursor decodes to its own position, and is rejected for any other sort |
| `Listing.PageErrors` | app/services/catalog_service.py:119-136 | each of the four ways a page request fails is decided by the token's fields alone |
| `Listing.RefusedOrAnsweredIff` | app/services/catalog_service.py:119-136 | a cursor is refused as invalid or answered if and only if its id converts and, for its own sort, it has what the sort compares and that fits the columns |
| `Listing.CursorsThatEscapeRefusal` | app/services/catalog_service.py:119-136 | an infinite id, a missing price, an id and a price out of range each fail without being refused as invalid |
| `Listing.IssuedCursorsAreAnswered` | app/services/catalog_service.py:409-415 | every cursor a page hands out is answered by the next request, whatever the table is by then |
| `Listing.KeysetContinuesTheOrder` | app/repositories/catalog_repo.py:409-451 | the continuation predicate of each sort selects exactly the rows after the cursor's row in that sort's ORDER BY |
| `Listing.SortedListUnique` | app/repositories/catalog_repo.py:409-417 | each sort is a total order: the same rows have only one sorted list |
| `Listing.PageShape` | app/services/catalog_service.py:389-420 | with one row of look-ahead, a page is the first `limit` remaining rows and carries a cursor exactly when more remain; which rows and how many are said by `ListedCards` |
| `CursorWalks.NextPageStartsWhereThisEnds` | app/services/catalog_service.py:389-420 | on a fixed table the cursor of a page leaves exactly the rows behind it |
| `CursorWalks.FullWalkIsTheListing` | app/services/catalog_service.py:389-420 | for every sort, filter and page size, the pages until the null cursor are the filtered listing in sort order, in max(1, ceil(n/limit)) pages; what is in the listing is `ListedCards.WalkListsExactly` |
| `ListedCards.WalkListsExactly` | app/repositories/catalog_repo.py:218-254 | a walk returns a card if and only if it is in the table, active, in the language, under the category if one is given, within each price bound given, struck if on sale is asked, featured if that is asked, and of a product with a selected value for every selected attribute |
| `ListedCards.PriceBoundsCut` | app/repositories/catalog_repo.py:246-249 | a walk with price bounds is the walk without, less the cards outside them |
| `ListedCards.WalkOrder` | app/repositories/catalog_repo.py:409-417 | in a walk each product comes once; cheapest first, dearest first or newest first, ties by id |
| `ListedCards.PageSizes` | app/services/catalog_service.py:389-420 | every page but the last has exactly the size asked for, at least 1 and at most 100, and a cursor; the last has no cursor |
| `CursorWalks.WalkIsStrictlySorted` | app/services/catalog_service.py:389-420 | even while the table changes between pages, everything returned is strictly increasing in the sort order |
| `CursorWalks.RepeatMeansPriceMoved` | app/services/catalog_service.py:389-420 | a product can be returned twice only under a price sort and only at two different prices |
| `CursorWalks.ReturnedAfterwardsIff` | app/services/catalog_service.py:389-420 | a card left alone after page i is returned by a later page if and only if it then lies past page i's last row |
| `CursorWalks.RepeatedIff` | app/services/catalog_service.py:389-420 | a product returned on one page, and last changed after that or a later page, is returned again if and only if the change put it past the last row before it |
| `CursorWalks.MissedIff` | app/services/catalog_service.py:389-420 | a product not yet returned is never returned if and only if its new price does not put it past the last row of the last page before the change |
| `CursorWalks.StableCardReturnedExactlyOnce` | app/services/catalog_service.py:389-420 | under any inserts, deletes and updates between pages, a card that stays present, matching and at its price is returned exactly once by a finished walk |
| `CursorWalks.NewestNeverRepeats` | app/services/catalog_service.py:389-420 | under `newest` no product id is returned twice, whatever happens to the table |
| `CursorWalks.PriceRiseRepeatsAProduct` | app/repositories/catalog_repo.py:435-442 | a concrete two-page walk in which a price rise makes a product appear twice |
| `CursorWalks.PriceDropHidesAProduct` | app/repositories/catalog_repo.py:435-442 | a concrete complete walk that never shows a product present throughout |
| `Products.RebuildHeals` | app/services/catalog_service.py:782-864 | a successful rebuild leaves the product's cards equal to the derived view, whatever they were |
| `Products.RebuildOtherSlice` | app/services/catalog_service.py:782-864 | a rebuild touches nothing any other product's cards depend on |
| `Products.RebuildTwiceIsOnce` | app/services/catalog_service.py:782-864 | rebuilding twice equals rebuilding once, the written-back price and stock included |
| `CardViews.VariableCardReadsActiveVariants` | app/repositories/catalog_repo.py:655-683 | a variable product's card shows the least active price, the greatest only when it differs, stock and sale of some active variant, and no struck price |
| `CardViews.MainImageIsTheFirst` | app/repositories/catalog_repo.py:871-886 | the card's image is the row with the lowest position, then the lowest id |
| `CardContents.EveryCardSaysWhatIsSold` | app/services/catalog_service.py:782-864 | in every history, every card has the name and slug of its translation; category, path and flags of its product, which is active; the first image; for a simple product its price, struck price, badge, and stock as `qty > 0`; for a variable one the price range, stock and sale of its active variants |
| `CardContents.RebuiltCardSays` | app/services/catalog_service.py:782-864 | the same of every card a rebuild leaves for its product, whatever was there before |
| `CardContents.ActiveProductIsComplete` | app/services/catalog_service.py:751-780 | in every consistent table, and every history keeps it consistent, an active product has both translations and both cards; a variable one an active variant, and its own price and quantity are their least price and summed stock |
| `CardViews.ReorderPicksTheMainImage` | app/services/admin_catalog_service.py:1227-1266 | after a reorder the first id of the new order is the main image |
| `CardViews.MoveKeepsCardsFreshIff` | app/services/admin_catalog_service.py:359-371 | cards stay fresh over a category move if and only if the parent is unchanged or no active product is in the subtree |
| `ProductOps.OutcomeIsStep` | app/services/admin_catalog_service.py:424-523 | what a caller of an operation observes is one step: new tables, or an error and the old tables |
| `ProductRuns.EditFrame` | app/services/admin_catalog_service.py:424-1266 | no operation on one product changes anything another product's cards depend on |
| `ProductRuns.PerformKeepsHealth` | app/services/admin_catalog_service.py:424-1266 | every operation keeps the cards of every product equal to the derived view and active products publishable |
| `ProductRuns.RunKeepsConsistent` | app/services/admin_catalog_service.py:424-1266 | every run keeps cards derived, active products publishable, cached aggregates right, value sets of a product's variants distinct, and non-empty variant codes distinct over all products |
| `ProductRuns.EveryHistoryHasFreshCards` | app/services/catalog_service.py:751-864 | from empty tables, after any run: no card of an inactive product, one per language of an active one, equal to the view of its sources; `CardContents.EveryCardSaysWhatIsSold` says what that view holds |
| `ProductRuns.AddVariantKeepsDistinct` | app/services/admin_catalog_service.py:856-896 | run alone, a created variant's value set differs from all its siblings' |
| `ProductRuns.GenerateKeepsDistinct` | app/services/admin_catalog_service.py:950-1006 | generation never gives two variants of a product the same value set |
| `ProductEffects.CreatedProduct` | app/services/admin_catalog_service.py:424-460 | the new rows are those given, and no other product or translation has changed |
| `ProductEffects.UpdatedProduct` | app/services/admin_catalog_service.py:480-523 | fields given are stored, others keep their values; price and quantity of an active variable product follow its variants; no other product changes |
| `ProductEffects.DeletedProduct` | app/services/admin_catalog_service.py:574-625 | nothing of the product is left in any table and nothing else is gone or changed |
| `ProductEffects.StoredTranslation` | app/services/admin_catalog_service.py:627-669 | the translation in that language, and no other, is the one given |
| `ProductEffects.StoredSelectors` | app/services/admin_catalog_service.py:768-830 | the selectors are the attributes given, each once, in the order given, and the product is variable exactly when there are any |
| `ProductEffects.StoredLinks` | app/services/admin_catalog_service.py:671-712 | the links of the product are exactly the values given; refused exactly for a missing product or value |
| `ProductEffects.CreatedVariant` | app/services/admin_catalog_service.py:881-905 | the one new row has what was asked for and comes after all siblings; the product is variable |
| `ProductEffects.GeneratedVariants` | app/services/admin_catalog_service.py:907-1006 | a generation adds variants of its product only, makes it variable if it adds any, and beyond cached price and quantity changes nothing else |
| `ProductEffects.UpdatedVariant` | app/services/admin_catalog_service.py:1008-1040 | fields given are stored, others keep their values; no other variant changes |
| `ProductEffects.DeletedVariant` | app/services/admin_catalog_service.py:1042-1072 | the variant is gone, its images are unbound, nothing else changes |
| `ProductEffects.StoredMedia` | app/services/admin_catalog_service.py:1074-1266 | binding, appending, deleting and reordering change just the rows named; a new image comes last, a reordered one at its index |
| `ProductRefusals.VariantAcceptedIff` | app/services/admin_catalog_service.py:851-879 | a creation is accepted if and only if the product has selectors, the values are one for each, the code is free and no sibling has exactly these values; a conflict is about the last two only; "not found" exactly for a missing product or value |
| `ProductRefusals.MatchesIff` | app/services/admin_catalog_service.py:869-874 | comparing the sorted attribute ids asks for exactly one value per selector |
| `ProductRefusals.UpdateVariantAcceptedIff` | app/services/admin_catalog_service.py:1008-1040 | a patched code must be free unless it is the one the variant has |
| `ProductRefusals.EditAcceptedIff` | app/services/admin_catalog_service.py:424-1266 | for every other operation, which rows must exist and belong to its product, and what else it demands, exactly |
| `ProductRefusals.KeptIff` | app/services/catalog_service.py:751-780 | an accepted edit is undone exactly when it would leave its product active without both translations or, if variable, without an active variant; deleting and linking are never undone |
| `VariantRaces.ClearedIffFirst` | app/services/admin_catalog_service.py:1125-1131 | a creation's look-up lets it through if and only if nobody had stored the set by then |
| `VariantRaces.DistinctIffNoOverlap` | app/services/admin_catalog_service.py:856-896 | for any schedule of creations, value sets stay distinct if and only if none looked before and stored after another stored the same set |
| `VariantRaces.OneSetStoredTwice` | app/services/admin_catalog_service.py:856-896 | a schedule of two creations that stores one set twice |
| `Combos.CartesianMembers` | app/services/admin_catalog_service.py:950-1006 | the combinations are exactly the picks of one value per list |
| `Combos.CartesianSize` | app/services/admin_catalog_service.py:950-1006 | there are as many combinations as the product of the list sizes |
| `Combos.DistinctPicksAreDistinctSets` | app/services/admin_catalog_service.py:950-1006 | different combinations are different sets, because a value belongs to one attribute |
| `Combos.MissingMembers` | app/services/admin_catalog_service.py:950-1006 | what the loop creates is exactly the sets no variant had, each once |
| `VariantGeneration.GenerateCompletesTheProduct` | app/services/admin_catalog_service.py:950-1006 | afterwards every combination, one value per selector that is linked to the product and of that selector's attribute, is the value set of exactly one variant |
| `VariantGeneration.CreatedPlusSkipped` | app/services/admin_catalog_service.py:950-1006 | created plus skipped is the product, over the selectors, of the numbers of linked values; skipped counts the combinations that existed before |
| `VariantGeneration.OldVariantsUntouched` | app/services/admin_catalog_service.py:950-1006 | existing variants are unchanged |
| `VariantGeneration.CreatedVariants` | app/services/admin_catalog_service.py:950-1006 | each new variant is such a combination, which no sibling had, at the product's price, active, without stock or code, and placed after all siblings |
| `VariantGeneration.GenerateRefusedIff` | app/services/admin_catalog_service.py:930-957 | refused exactly for a missing product, one without selectors, or a selector without a linked value |
| `VariantGeneration.PicksAreCombinations` | app/services/admin_catalog_service.py:936-952 | the picks of the loop are exactly the combinations over the link and value tables |
| `VariantGeneration.SecondRunChangesNothing` | app/services/admin_catalog_service.py:950-1006 | a second run creates nothing, skips everything and changes no table |
| `VariantGeneration.GenerateIsIdempotent` | app/services/admin_catalog_service.py:907-1006 | generating twice equals generating once, publication included |
| `ProductService.FillGaps` | app/services/admin_catalog_service.py:950-1006 | the loop with its growing set of known combinations creates and skips what one pass over the whole product would |
| `ProductService.AssignPositions` | app/services/admin_catalog_service.py:1227-1266 | each listed row ends at its index |
| `ProductService.AdminProducts.AssertPublishable` | app/services/catalog_service.py:751-780 | refuses exactly when a language is missing or a variable product has no active variant |
| `ProductService.AdminProducts.RebuildCard` | app/services/catalog_service.py:782-864 | delete, derive, write back and insert amount to the rebuild function, the result counts the cards, and each of them says what `CardContents` says of the rows |
| `ProductService.AdminProducts.CreateProduct` | app/services/admin_catalog_service.py:424-460 | one step of the tables; an active product is published or nothing is kept |
| `ProductService.AdminProducts.UpdateProduct` | app/services/admin_catalog_service.py:480-523 | one step of the tables, rolled back on a publication error |
| `ProductService.AdminProducts.DeleteProduct` | app/services/admin_catalog_service.py:574-625 | one step: the product and all its rows and cards go, nothing else |
| `ProductService.AdminProducts.SetProductTranslation` | app/services/admin_catalog_service.py:627-669 | one step of the tables, cards rebuilt |
| `ProductService.AdminProducts.SetVariationAttributes` | app/services/admin_catalog_service.py:768-830 | one step: duplicates dropped, selectors replaced, clearing refused while variants exist |
| `ProductService.AdminProducts.CreateVariant` | app/services/admin_catalog_service.py:832-905 | one step, refused for unknown values, two values of an attribute, a taken code or an existing combination |
| `ProductService.AdminProducts.GenerateVariants` | app/services/admin_catalog_service.py:907-1006 | one step; answers the created ids and the number skipped |
| `ProductService.AdminProducts.UpdateVariant` | app/services/admin_catalog_service.py:1008-1040 | one step, refused when the product would stop being publishable |
| `ProductService.AdminProducts.DeleteVariant` | app/services/admin_catalog_service.py:1042-1072 | one step: media unbound, cards rebuilt |
| `ProductService.AdminProducts.BindMediaToVariant` | app/services/admin_catalog_service.py:1074-1106 | one step, refused across products |
| `ProductService.AdminProducts.AddProductMedia` | app/services/admin_catalog_service.py:1133-1194 | one step: refused for a missing product, a file that is not declared an image, is over the size limit or does not decode; otherwise appended behind the last position |
| `ProductService.AdminProducts.DeleteProductMedia` | app/services/admin_catalog_service.py:1196-1225 | one step, refused for another product's media |
| `ProductService.AdminProducts.ReorderProductMedia` | app/services/admin_catalog_service.py:1227-1266 | one step, refused unless the ids are a permutation of the product's media |
| `Carts.AddRaisesOneLine` | app/repositories/cart_repo.py:145-176 | adding raises one quantity of one cart by the amount added, whether a row existed or not, and keeps lines unique |
| `Carts.SetChangesOneLine` | app/repositories/cart_repo.py:178-201 | setting changes one quantity of one cart and no other |
| `Carts.DeleteDropsOneLine` | app/repositories/cart_repo.py:203-222 | deleting drops one line of one cart and no other |
| `Carts.MergeConserves` | app/services/cart_service.py:337-354 | for every product and variant the merged quantity is user plus guest; the guest cart has no line left; rows of other carts are untouched; lines stay unique |
| `Carts.TotalsAdd` | app/services/cart_service.py:147-195 | any per-unit total of two carts put together is the sum of their totals |
| `CartOps.EveryRunKeepsCartsSound` | app/services/cart_service.py:200-357 | over every run: one draft cart per owner, one line per product and variant, no line without its cart, every variant of its line's product |
| `CartOps.BothIndexesHold` | app/models/cart.py:65-80 | sound carts satisfy both partial unique indexes |
| `CartOps.AddItemAdds` | app/services/cart_service.py:200-234 | a purchasable item is added to its owner's cart, opened if need be, raising exactly that line |
| `CartOps.AddItemLeavesOthers` | app/services/cart_service.py:200-234 | adding changes no other cart |
| `CartOps.EditsActOnOwnLines` | app/services/cart_service.py:236-302 | update and remove succeed exactly for a line the owner has, and change exactly that line |
| `CartOps.EditTouchesOneCart` | app/services/cart_service.py:236-302 | update and remove change no other cart |
| `CartOps.MergeGuestConserves` | app/services/cart_service.py:328-357 | after a merge the user has both carts' quantities; the guest has no cart and no line refers to it |
| `CartOps.MergeWithoutGuest` | app/services/cart_service.py:328-335 | without a guest cart of its own the merge changes no line |
| `CartOps.MergeGuestLeavesOthers` | app/services/cart_service.py:328-357 | every other cart is left as it was |
| `CartOps.MergeIsIdempotent` | app/services/cart_service.py:328-335 | repeating the merge changes nothing |
| `CartOps.MergedTotals` | app/services/cart_service.py:164-195 | the merged cart's subtotal and item count are the sums of the two carts' own |
| `CartAnswers.ShownLine` | app/services/cart_service.py:173-193 | a shown line has its stored quantity and, at its total, the live price: the variant's if it has one, else the product's; both are there and active |
| `CartAnswers.ShownIff` | app/services/cart_service.py:164-195 | a stored line is shown if and only if its product, and variant if any, is there and active, and then once; subtotal and item count add up the shown lines |
| `CartAnswers.MergedAnswer` | app/services/cart_service.py:328-357 | the answer after a merge adds up the answers for the two carts, line totals and quantities alike |
| `CartAnswers.AddRefusedIff` | app/services/cart_service.py:362-399 | an addition is refused exactly for a missing or inactive product, a variant that is required and missing, inactive or another product's, or one that is given and forbidden |
| `CartAnswers.AddedIsOnSale` | app/services/cart_service.py:362-399 | what was added is on sale, so that the answer shows it |
| `CartAnswers.FoundCart` | app/services/cart_service.py:65-89 | the cart found is a draft of that user, or of that session if there is no user, and none is found only if there is none |
| `CartAnswers.OpenedCart` | app/services/cart_service.py:91-114 | the cart opened is the one new row, a draft of exactly that owner |
| `CartService.CartDesk.GetCart` | app/services/cart_service.py:65-89 | the owner's draft cart, if any |
| `CartService.CartDesk.GetOrCreateCart` | app/services/cart_service.py:91-114 | the draft cart, or a fresh one with exactly one owner |
| `CartService.CartDesk.AddOrIncrementItem` | app/repositories/cart_repo.py:145-176 | the whole new line table: one row raised or one inserted |
| `CartService.CartDesk.SetItemQty` | app/repositories/cart_repo.py:178-201 | one row set, or not found and nothing changed |
| `CartService.CartDesk.DeleteOneItem` | app/repositories/cart_repo.py:203-222 | the matching row removed, and whether there was one |
| `CartService.CartDesk.ResolvePurchasable` | app/services/cart_service.py:362-399 | accepts exactly active simple products without a variant and active variants of their own active variable product |
| `CartService.CartDesk.Render` | app/services/cart_service.py:147-195 | shows every line that still has a price exactly once, in product order, with live price; subtotal and item count are the sums over the shown lines and the totals over the stored ones |
| `CartService.CartDesk.AddItem` | app/services/cart_service.py:200-234 | one add step and the rendered cart, or refused and unchanged |
| `CartService.CartDesk.UpdateItem` | app/services/cart_service.py:236-269 | one update step and the rendered cart, or not found and unchanged |
| `CartService.CartDesk.RemoveItem` | app/services/cart_service.py:271-302 | one remove step and the rendered cart, or not found and unchanged |
| `CartService.CartDesk.TakeOver` | app/services/cart_service.py:337-353 | the merge loop, with the user's lines read once up front, reaches the merged table for any order of guest lines |
| `CartService.CartDesk.MergeGuestIntoUser` | app/services/cart_service.py:307-357 | exactly one merge step, and the rendered user cart |
| `CartLocking.WriteIsFaithful` | app/repositories/cart_repo.py:145-222 | row values computed from the rows read under the lock do to the carts what the request asks for |
| `CartLocking.EveryScheduleIsSerial` | app/services/cart_service.py:227-357 | any schedule of add, set, remove and merge requests, with rollbacks, ends in the serial run in lock order, one line per product and variant |
| `CartLocking.EveryoneIsServed` | app/services/cart_service.py:328-357 | without rollbacks every request that got past waiting has its place in that order |
| `CartLocking.HolderAdvances` | app/services/cart_service.py:227-357 | the holder of the lock, and whoever asks for a free one, always gets one statement further; only the end frees the lock |
| `CartLocking.RequestDoesItsWork` | app/services/cart_service.py:227-357 | with the lock free, six statements run a request to its end, and it has done exactly what it asks for |
| `CartLocking.NoAdditionIsLost` | app/repositories/cart_repo.py:46-66 | however concurrent additions of one product interleave, the final quantity has them all |
| `CartLocking.WithoutTheLockAnAdditionIsLost` | app/repositories/cart_repo.py:46-66 | the same steps without the lock: a schedule in which one of two additions disappears |
| `Stock.StockTable.DecrementStock` | app/repositories/order_repo.py:193-229 | succeeds exactly when the authoritative row has enough, taking exactly that much; otherwise nothing changes; it is the update the interleaving theorem is about |
| `Stock.StockTable.IncrementStock` | app/repositories/order_repo.py:231-271 | adds to the row if it exists; True exactly for a row at zero, which for a positive quantity is the crossing back into stock |
| `Stock.StockIsConserved` | app/repositories/order_repo.py:193-271 | over any interleaving of callers who roll back on False: no stock is negative, and each is the initial one plus exactly what the committed callers asked for |
| `Stock.NextStep` | app/repositories/order_repo.py:193-271 | what each step of a caller does: wait while another holds the row, take or return exactly the quantity on the newest value, roll back when there is not enough, write on commit |
| `Stock.AloneCommits` | app/repositories/order_repo.py:193-271 | a caller with nobody else about, whose decrements all find enough, commits exactly its calls in order |
| `StockCards.WithStockIsTheUpdate` | app/repositories/order_repo.py:193-271 | on the product and variant tables a call is the update of the stock protocol |
| `StockCards.StockCallChanges` | app/repositories/order_repo.py:193-271 | a call takes from or returns to the variant if one is named, else the product; nothing but that quantity changes, and nothing if there is not enough |
| `StockCards.StockKeepsHealthIff` | app/services/catalog_service.py:819-839 | cards and cached columns survive a stock call if and only if it leaves nothing stale, said of the row, its quantity and the product's flags |
| `OrderNumbers.OrderNumbersAreUnique` | app/repositories/order_repo.py:176-188 | the counter can be read back from an order number, so different draws give different numbers |
| `OrderNumbers.OrderNumberShape` | app/repositories/order_repo.py:176-188 | date, hyphen, digits: six for the first million draws, afterwards as many as it takes and no zero in front |
| `Waybills.WaybillDesk.CreateWaybill` | app/services/admin_order_service.py:242-298 | succeeds exactly for a carrier order without a number and an accepting carrier; errors change nothing |
| `Waybills.WaybillDesk.CancelWaybill` | app/services/admin_order_service.py:340-370 | clears exactly a row with a number when the carrier accepts; errors change nothing |
| `Waybills.CallAgrees` | app/services/admin_order_service.py:261-298 | after a successful call the row about to be written agrees with the carrier if and only if it was a cancellation or the parcel was named |
| `Waybills.AtMostOneLiveParcel` | app/services/admin_order_service.py:261-298 | in every interleaving of creating and cancelling operators whose creations are named: at most one live parcel, and unlocked the number is set exactly when one is alive |
| `Waybills.AgreeThroughoutIffNamed` | app/services/admin_order_service.py:261-298 | over any schedule row and carrier agree throughout if and only if every accepted creation call is answered with a number |
| `Waybills.CreationAgreesIffNamed` | app/services/admin_order_service.py:283-287 | a whole creation keeps row and carrier in agreement if and only if the answer has a number |
| `Waybills.UndisturbedCreation` | app/services/admin_order_service.py:242-298 | it stores what the carrier answered, empty strings as nothing, and one parcel more is alive |
| `Waybills.UndisturbedCancellation` | app/services/admin_order_service.py:340-370 | it clears the row and ends the parcel with the row's id, or with its number when the row has no id; others stay alive |
| `Waybills.RefusedRequest` | app/services/admin_order_service.py:242-370 | a failed check and a refusing carrier end the request and leave row and parcels as they were |
| `Waybills.UnnamedCreationsCanDouble` | app/services/admin_order_service.py:283-287 | two creations answered without a number leave two live parcels |
| `RateLimits.RateLimiter.Admit` | app/api/ratelimit.py:96-113 | increment, expiry on the first hit and the test together are one step of the counter |
| `RateLimits.GenerationAdmitsExactly` | app/api/ratelimit.py:96-113 | a counter's generation lets through exactly its first `count` hits |
| `RateLimits.RejectedIff` | app/api/ratelimit.py:96-113 | a request is turned away if and only if its caller's counter began less than a window ago and has let `count` requests through since |
| `RateLimits.CounterSinceFirstRequest` | app/api/ratelimit.py:101-104 | a caller has a counter exactly from its first request on, and it began at one of its requests |
| `RateLimits.AnyWindowIsBounded` | app/api/ratelimit.py:96-113 | over any trace in time order, any half-open stretch as long as the window lets through at most `2 * count - 1` of a caller's requests |
| `RateLimits.BoundIsReached` | app/api/ratelimit.py:96-113 | for every limit with a window of two units or more some trace reaches that bound |
| `RateLimits.CallersAreIndependent` | app/api/ratelimit.py:101-104 | a request is let through exactly when it would be if its caller were the only one |
| `RefreshTokens.AuthService.DecodeRefresh` | app/core/security.py:128-160 | a token counts exactly when we signed those claims, it is a refresh token and its expiry (RFC 7519 section 4.1.4) lies ahead |
| `RefreshTokens.AuthService.RefreshPair` | app/services/auth_service.py:123-142 | one rotation step: the old `jti` blacklisted and the next token of the same sign-in issued, or refused and unchanged |
| `RefreshTokens.AuthService.LogOut` | app/services/auth_service.py:144-154 | one revocation step, or refused and unchanged |
| `RefreshTokens.EntryOutlivesToken` | app/services/auth_service.py:333-338 | the entry lapses no earlier than the token expires, and when none is written the token has expired already |
| `RefreshTokens.SpentIsRefusedIff` | app/services/auth_service.py:123-142 | a revoked token is accepted exactly when it decodes in time and its entry has lapsed by the time it is looked up |
| `RefreshTokens.SlipsThroughIff` | app/services/auth_service.py:123-154 | the same in the times of the revoking request and of a refresh that looks up later: accepted exactly when decoded before `exp` and looked up at or after the entry's end |
| `RefreshTokens.RevokedTokenCanSlipThrough` | app/services/auth_service.py:123-142 | concrete times at which a logged-out token is exchanged |
| `RefreshTokens.RevocationIsPermanent` | app/services/auth_service.py:123-154 | in serial runs whose lookups precede expiry each token is exchanged at most once, and never after a logout |
| `RefreshTokens.OneUsableTokenPerLogin` | app/services/auth_service.py:123-154 | in such runs every sign-in has at most one refresh token that can still be exchanged |
| `RefreshTokens.LoginIssuesWorkingPair` | app/services/auth_service.py:312-316 | a sign-in gives a new access and a new refresh token that decode as such exactly until they expire; every other token, and the blacklist, is as before |
| `RefreshTokens.RotationIssuesWorkingPair` | app/services/auth_service.py:123-142 | so does an exchange, for the same sign-in; of the blacklist only the exchanged token's entry changes |
| `RefreshTokens.NextRotationSucceeds` | app/services/auth_service.py:123-142 | the refresh token an exchange answers with is accepted next if and only if it is decoded before its own expiry |
| `RefreshTokens.RotationAfterLoginSucceeds` | app/services/auth_service.py:123-142 | the same for the one a sign-in answers with |
| `RefreshTokens.LogoutTouchesOneToken` | app/services/auth_service.py:144-154 | accepted exactly for a refresh token that decodes; of the blacklist only its entry changes, and that outlives it |
| `RefreshTokens.UnusedTokenKeepsWorking` | app/services/auth_service.py:123-154 | after any requests that do not carry it, a token is accepted exactly until it expires |
| `RefreshRaces.RunKeepsAccurate` | app/services/auth_service.py:123-154 | in every interleaving each blacklist entry outlives its token and each finished request has spent the token it carried |
| `RefreshRaces.RevokedIsRefusedInEveryInterleaving` | app/services/auth_service.py:123-154 | whatever else is under way, a refresh that looks a token up after some request revoked it and before the token expires is refused |
| `RefreshRaces.DoubleExchangeMeansOverlap` | app/services/auth_service.py:123-142 | two refreshes of one token both succeed only if each looked it up before the other wrote |
| `RefreshRaces.LookUpRefusesIff` | app/services/auth_service.py:329-338 | in every interleaving, before or after expiry, a look-up refuses exactly while the latest entry written for the token lasts |
| `RefreshRaces.LoneRequestEnds` | app/services/auth_service.py:123-154 | a refresh or logout of a valid, unlisted token with nobody else about ends, has spent it, and a refresh has signed the next pair |
| `RefreshRaces.ClearedIffFirst` | app/services/auth_service.py:135-142 | before the token expires a look-up clears the refresh if and only if no request has written for the token yet |
| `RefreshRaces.DoubleExchangeIff` | app/services/auth_service.py:123-142 | two finished refreshes of one token both exchanged it if and only if both look-ups come before every write for it |
| `RefreshRaces.OneTokenExchangedTwice` | app/services/auth_service.py:123-142 | for any valid token, a schedule of two refreshes that both succeed |
| `FacetCounts.FacetCountIsTheListingSize` | app/repositories/search_repo.py:163-254 | a translated value is counted exactly when filtering by it lists something, with exactly that many cards |
| `FacetCounts.CountedValuesAreNamed` | app/repositories/search_repo.py:194-254 | only existing values with a name, whose attribute has one too, are counted, and never zero |
| `FacetCounts.HealthyCardsAreOfActiveProducts` | app/services/catalog_service.py:799-806 | derived cards belong to active products, which the facet count relies on |
| `Rollups.UnnestCountsCards` | app/repositories/catalog_repo.py:190-213 | with fresh cards, joining cards to their path entries counts each card of a subtree once |
| `Rollups.HealthyCardsAreFresh` | app/services/catalog_service.py:808-810 | derived cards carry their category's current path, so the counts are right after every run of the product operations |
| `Rollups.PathCountsAreRecursive` | app/repositories/catalog_repo.py:190-213 | the counts over paths satisfy the recursive definition: own products plus the counts of the children |
| `Rollups.RecursiveCountIsUnique` | app/repositories/catalog_repo.py:190-213 | the recursive definition has one solution, so any recursive count gives the same numbers |
| `Rollups.CountIsTheWalkLength` | app/repositories/catalog_repo.py:235-241 | a category's number is the number of cards a walk through all its pages returns |
| `RelatedRail.RelatedElastic` | app/services/catalog_service.py:516-551 | both loops with the bounded top-up read give the untruncated rail: buyable candidates in order, then all other siblings newest first, cut at the limit |
| `RelatedRail.TopUpSuffices` | app/services/catalog_service.py:533-541 | reading `limit` plus the number seen is always enough for the top-up |
| `RelatedRail.RailPromises` | app/services/catalog_service.py:516-551 | no duplicates, never the seed, buyable only, length min(limit, buyable candidates and siblings together) |
| `RelatedRail.RailShowsEligible` | app/services/catalog_service.py:516-551 | a product is shown only if its card is in the language, active, in stock, not the seed, and a candidate or of the seed's category; below the limit every such product is shown |
| `RelatedRail.RailOrder` | app/services/catalog_service.py:516-551 | candidates come first in their own order, then the others newest first |
| `Slugs.GrammarIsClean` | app/schemas/admin_catalog.py:28-29 | words joined by single hyphens are exactly the texts with no leading, trailing or double hyphen |
| `Slugs.MadeSlugsAreAccepted` | scripts/import_flystore.py:81-83 | a slug made without falling back is accepted unchanged, and making it again changes nothing |
| `Slugs.AcceptedIffFixed` | app/schemas/admin_catalog.py:31-58 | slug text is accepted unchanged if and only if it has two characters and the importer leaves it alone |
| `Slugs.HyphenatedJoinsTheWords` | scripts/import_flystore.py:81-83 | the slug of any text is its maximal runs of small Latin letters and digits joined by single hyphens |
| `Slugs.FallbackIff` | scripts/import_flystore.py:81-83 | the fallback is used exactly for a text without such words, or with a single one of one character |
| `Slugs.HyphenatedKeepsLetters` | scripts/import_flystore.py:81-83 | no letter or digit is lost, added or moved |

## Left out

- Uniqueness of product codes and slugs, NOT NULL and foreign keys are the database's: a violation refuses the operation and rolls it back, and is not modelled. Variant codes, which the service checks itself, are.
- Descriptions, SEO texts, cover images, weights and category translations: copied, never compared.
- Category reordering and the lists for the admin pages: thin.
- Decoding, conversion and storage of uploaded images: an upload decodes to a stored url or does not.
- Restock and reindex notifications, emails and tasks that follow a commit.
- The first cart of an owner: two concurrent first additions can both insert a cart, because there is no row to lock and no constraint on the owner. `CartLocking` starts from an existing cart.
- Requests on a guest cart while it is merged: that row is not locked. In `CartLocking` guest carts are written by merges only.
- Names and variant labels in a rendered cart.
- Checkout, order states, promo codes and payment: only their use of the stock updates appears, as arbitrary callers.
- The automatic cancellation of a waybill when an order is cancelled (app/services/order_service.py:348-383) reads the carrier row without the lock and is outside `Waybills`, as is a crash between the carrier's answer and the commit.
- `RateLimits.RateLimiter.Admit`: increment and expire are one step, because the two calls follow each other; a crash in between would leave a counter without expiry. Parsing of the setting and resolving the caller's address are not modelled.
- `RefreshTokens.RevocationIsPermanent`: serial runs, where it gives "exchanged at most once"; for overlapping requests see `RefreshRaces`. Passwords and argon2 are not modelled.
- `CategoryRaces.RacesAgreeIff`: the reads of one move are one step, and only moves run; concurrent creates and deletes of categories are not modelled.
- `VariantRaces.DistinctIffNoOverlap`: creations only; a concurrent generation, which looks once for all its sets, is not modelled. Runs of the product operations are serial, and no stock call runs between them; `StockCards` says what one would do.
- Cursor prices that are NaN or have a fraction of a hundredth, and JSON too deep to parse, are not modelled.
- That the candidate ids of the related rail have no repeats is taken from the index, which holds one document per product under the product's id (app/search/es/indexer.py:154-155); `RelatedRail.RailPromises` assumes it.
- `Stock.StockTable.IncrementStock`: the answer is exact for serial calls; the read before the update is a separate statement, so two concurrent returns can both see zero.
- Reviews and their pages: the `highest` and `lowest` sorts continue by id only (app/repositories/review_repo.py:135-143), so no walk claim is made.
- Full-text and search-index ranking, including the merging of ranks in `search_product_ids`: scores are foreign, the merge is a maximum per product.
- `import_categories`: parents before children over files that are trusted to be acyclic.
- Banners, content pages, consent, analytics, dashboards, staff and customer pages: thin.

# Marketplace bookkeeping in Dafny

This project models the shared bookkeeping of the multi-producer /
multi-consumer marketplace simulation: the `Marketplace` object of
`skel/tema/marketplace.py` and the `Cart` record list of
`skel/tema/cart.py`. The model is a sequential state machine. Each public
call is one atomic step: a pure function from the state and the call's
arguments to the successor state and the call's return value.

- `SeqUtil` (`sequtil.dfy`) holds the two Python list primitives the code
  relies on. `IndexOf` is the first-match scan behind `in`. `RemoveFirst`
  is `list.remove`, which deletes the first equal element.
- `Carts` (`cart.dfy`) models a cart as a sequence of
  `Record(product, producerId)` values in insertion order. It also has the
  `add_product`, `remove_product` (with its `-1` sentinel `NotFound`) and
  `get_products` operations.
- `Market` (`marketplace.dfy`) holds the state record
  `Marketplace(queueSize, producers, products, quota, owner, carts, numCarts)`.
  The record matches the constructor's fields: `quota` is
  `producer_num_products` and `owner` is `product_to_producer`. The
  module also has one function per public call, the reachable-state
  invariant `Valid`, and one lemma per call showing that the call
  preserves `Valid`.
- `MarketInvariants` (`invariants.dfy`) covers quota accounting. Suppose
  every product value is published by a single producer. Then each
  producer's count equals the number of inventory units it owns, every
  call preserves this, and so counts are never negative. Without that
  restriction the last-publisher-wins owner map can drive a count
  negative, and a concrete call sequence (`QuotaCanGoNegative`) proves it.
- `MarketScenarios` (`scenarios.dfy`) covers properties that span several
  calls. These are the id counters, conservation of units between the
  inventory and a cart, the reserve/release round trip, checkout, the
  end-to-end "tea" scenario, and the release discrepancy under
  "## Findings".

The product type is a type parameter with equality. A Python dict lookup
that raises (unknown cart id, product never published, missing quota key)
becomes a precondition. `AddDefined` and `RemoveDefined` name the exact
lookups each call performs. `add_to_cart` checks whether the product is in
the inventory before it looks anything up. So when the product is absent,
it returns false even for an unknown cart, and its precondition only
applies when the product is present. `ValidLookups` shows that in every
reachable state, only an unknown cart id or a never-published product can
make a call raise.

Where the source's documentation and its code disagree, the model follows
the code:
- `remove_from_cart` always re-appends the product and credits
  `product_to_producer[product]`. Its docstring
  (`skel/tema/marketplace.py:128`) says only that it removes a product from
  the cart. `remove_product` documents that it returns the id of the
  producer that added the product, or -1 when the cart does not hold it
  (`skel/tema/cart.py:37-40`). The caller discards that result. The
  corrected behaviour is also modelled (see "## Findings"): nothing
  happens when the result is -1, and otherwise the producer the cart
  recorded is credited.
- Unknown carts and never-published products raise. Some expectations in
  `skel/tema/test_marketplace.py` (lines 106, 113, 134) say these calls
  return a false value.
- The constructor documents `queue_size_per_producer` as the maximum size
  of each producer's queue (`skel/tema/marketplace.py:23`), but a count is
  not confined to `0 ..= queue_size`. It can go negative
  through the owner overwrite (`QuotaCanGoNegative`). It can exceed the
  queue size through a release of an absent product
  (`RemoveAbsentExceedsQueueSize`). The corrected release does not
  restore the bound either: a release that follows a reservation and a
  re-publish of the same product raises the count above the queue size
  (`CorrectedReleaseExceedsQueueSize`).

`remove_product` finds the first matching record and then calls
`list.remove(item)`. That call deletes the first record equal to `item`.
An earlier equal record would hold the same product and would have matched
first, so the deleted record is exactly the one found. `RemoveProduct`
therefore deletes by position.

`place_order` returns the cart's products and mutates nothing, so
`PlaceOrder` takes the state as a parameter and returns only the list. That
two calls give the same list follows from the types.

## Model

| member | source | states |
|---|---|---|
| SeqUtil.IndexOf | skel/tema/marketplace.py:109 | the first position holding the value, or the length when the value is absent; every earlier position differs from it |
| SeqUtil.RemoveFirst | skel/tema/marketplace.py:122 | `list.remove` on a list containing the value: one fewer element, the multiset loses exactly one copy, elements before the first match stay, later ones shift down by one |
| Carts.Empty | skel/tema/cart.py:18 | a new cart has no records |
| Carts.AddProduct | skel/tema/cart.py:31-34 | appends `(product, producer_id)` at the end; every earlier record is unchanged |
| Carts.GetProducts | skel/tema/cart.py:62 | the products of the records, same length, same order |
| Carts.RemoveProduct | skel/tema/cart.py:48-53 | with a match: deletes only the lowest-index matching record and returns its producer id; without one: returns -1 and the cart is unchanged |
| Carts.EmptyHoldsNothing | skel/tema/cart.py:18 | a new cart's product list is empty |
| Carts.AddProductProducts | skel/tema/cart.py:31-34 | after `add_product` the product list is the old one plus the product at the end |
| Carts.RemoveProductCounts | skel/tema/cart.py:48-51 | a successful removal drops the record count by one and that product's multiplicity by one; other products keep their multiplicities |
| Carts.AddThenRemove | skel/tema/cart.py:31-51 | on a cart without the product, `add_product(p, id)` then `remove_product(p)` returns `id` and restores the original records |
| Market.Init | skel/tema/marketplace.py:25-34 | the constructor: no producers, empty inventory, empty count map and empty owner map (so every count reads 0 and no product has an owner), no carts, and the state is valid |
| Market.RegisterProducer | skel/tema/marketplace.py:41-48 | 0 first, then the previous id plus one; in a valid state the id is the number of earlier registrations; only the id list changes |
| Market.Publish | skel/tema/marketplace.py:63-77 | refused exactly when the count (absent = 0) is at least the queue size, with no effect; otherwise appends the product, adds one to that producer's count only, makes it the product's owner; a count within the queue size stays within it |
| Market.NewCart | skel/tema/marketplace.py:85-93 | returns `num_carts + 1` bound to an empty cart; in a valid state the id is fresh and existing carts are untouched |
| Market.AddToCart | skel/tema/marketplace.py:107-124 | true exactly when the product is in stock; false changes nothing; true removes the first equal unit, takes one from the owner's count only, appends `(product, owner)` to that cart only, and keeps inventory length plus that cart's records constant |
| Market.RemoveFromCart | skel/tema/marketplace.py:137-143 | the cart loses its first matching record if any; the product is appended to the inventory and its recorded owner's count grows by one, whatever the cart held |
| Market.RemoveFromCartCorrected | skel/tema/marketplace.py:137-143 | the intended release: a no-op when the cart holds no such product, otherwise the unit returns and the producer recorded in the cart gets its count back |
| Market.PlaceOrder | skel/tema/marketplace.py:153-161 | the cart's products in insertion order, one per record |
| Market.RegisterProducerKeepsValid | skel/tema/marketplace.py:41-48 | registration keeps ids equal to their positions and the rest of the invariant |
| Market.PublishKeepsValid | skel/tema/marketplace.py:63-77 | publishing keeps every stocked unit owned and every owner counted |
| Market.NewCartKeepsValid | skel/tema/marketplace.py:85-93 | cart creation keeps the cart ids exactly 1 .. num_carts |
| Market.AddToCartKeepsValid | skel/tema/marketplace.py:107-124 | reserving keeps cart records naming owned products and counted producers |
| Market.RemoveFromCartKeepsValid | skel/tema/marketplace.py:137-143 | the as-written release keeps the invariant |
| Market.RemoveFromCartCorrectedKeepsValid | skel/tema/marketplace.py:137-143 | the corrected release keeps the invariant |
| MarketInvariants.OwnedCountsQuota | skel/tema/marketplace.py:64-69 | with exact counts, every producer's count (absent = 0) equals the units it owns in stock and is never negative |
| MarketInvariants.InitOwnedCounts | skel/tema/marketplace.py:28-30 | the empty marketplace has exact counts |
| MarketInvariants.RegisterProducerOwnedCounts | skel/tema/marketplace.py:41-48 | registration keeps exact counts |
| MarketInvariants.NewCartOwnedCounts | skel/tema/marketplace.py:85-93 | cart creation keeps exact counts |
| MarketInvariants.PublishOwnedCounts | skel/tema/marketplace.py:64-75 | a publish by the product's only publisher keeps exact counts |
| MarketInvariants.AddToCartOwnedCounts | skel/tema/marketplace.py:113-122 | reserving keeps exact counts |
| MarketInvariants.RemoveFromCartOwnedCounts | skel/tema/marketplace.py:140-143 | the as-written release keeps exact counts, since the unit it appends and the count it credits share an owner |
| MarketInvariants.QuotaCanGoNegative | skel/tema/marketplace.py:75 | two producers publish the same value and two reservations both charge the later one, whose count reaches -1 |
| MarketInvariants.ReserveTwice | skel/tema/marketplace.py:113-116 | two reservations of a value owned by producer 1 take producer 1's count from 1 to -1 |
| MarketScenarios.ValidLookups | skel/tema/marketplace.py:113-119 | in a valid state, with a registered cart, every lookup of `add_to_cart` succeeds, and so does every lookup of a release of a published product |
| MarketScenarios.RegisterProducerIds | skel/tema/marketplace.py:46-48 | the first id is 0 and consecutive registrations return consecutive ids |
| MarketScenarios.NewCartIds | skel/tema/marketplace.py:87-93 | the first cart id is 1, consecutive carts get consecutive ids, and a second cart leaves the first registered and empty |
| MarketScenarios.AddToCartConserves | skel/tema/marketplace.py:113-122 | inventory plus the target cart hold the same multiset of units before and after a reservation |
| MarketScenarios.AddThenRemoveFromCart | skel/tema/marketplace.py:113-143 | reserve then release, on a cart without an earlier unit, restores the inventory as a multiset, all counts, all carts and the owner map |
| MarketScenarios.AddThenRemoveFromCartCorrected | skel/tema/marketplace.py:113-143 | the same round trip with the corrected release |
| MarketScenarios.RemoveFromCartCorrectedConserves | skel/tema/marketplace.py:137-143 | the corrected release keeps inventory plus the cart's units constant and touches no other cart |
| MarketScenarios.RemoveAbsentCreatesUnit | skel/tema/marketplace.py:137-143 | the as-written release on a cart without the product leaves the carts unchanged yet adds one unit and one count |
| MarketScenarios.RemoveAbsentExceedsQueueSize | skel/tema/marketplace.py:63-77 | queue size 1, one publish, one release from an empty cart: two units in stock and a count of 2; the corrected release changes nothing |
| MarketScenarios.CorrectedReleaseExceedsQueueSize | skel/tema/marketplace.py:63-143 | queue size 1: publish, reserve, publish again, then the corrected release: two units in stock and a count of 2, above the queue size |
| MarketScenarios.PublishThenAdd | skel/tema/marketplace.py:69-75 | a unit just published can be reserved by the very next call |
| MarketScenarios.PlaceOrderTracksCart | skel/tema/marketplace.py:153-161 | a new cart orders nothing; a successful reservation appends its product to that cart's order only; publishing leaves orders unchanged |
| MarketScenarios.TeaScenario | skel/tema/marketplace.py:63-124 | queue size 2: two publishes accepted, the third refused, two reservations succeed, checkout gives `[tea, tea]`, and publishing is accepted again |
| MarketScenarios.PublishTwice | skel/tema/marketplace.py:63-77 | producer 0 gets id 0 and both of its first two publishes are accepted |
| MarketScenarios.ReserveBoth | skel/tema/marketplace.py:107-124 | both reservations succeed and the order is `[tea, tea]` |

## Left out

- Locks and threading (`skel/tema/marketplace.py:36-39`, `45`, `85`, `107`, `157`): each call is one atomic step. The partial locking and the reads outside the lock at lines 48 and 93 are a concurrency concern.
- The `print` of "bought" lines and the thread name in `place_order`: console output. Only the returned list is modelled.
- `producer.py` and `consumer.py`: threads with sleep-and-retry loops around the modelled calls. A failed publish at `producer.py:43-44` only sleeps and is not retried, so there is no claim that every unit is eventually published.
- `logger.py`: a rotating file logger, pure I/O.
- The product classes: they are an opaque type parameter with equality. The `int(producer_id)` coercion in `publish` is not modelled; ids are integers already.
- Unit-test expectations that unknown carts or never-published products return false: the code raises, so these cases are preconditions.
- AddToCart: the promise that inventory length plus the total number of cart records stays constant is stated as inventory length plus the target cart's records, with every other cart unchanged. The total follows, but no sum over all carts is defined.

## Findings

| source | as written | input that shows it | evidently intended | confidence | as-written member | corrected member |
|---|---|---|---|---|---|---|
| skel/tema/marketplace.py:137-143 | `remove_from_cart` ignores the id `remove_product` returns: it always appends the product to the inventory and credits `product_to_producer[product]` | queue size 1; producer 0 publishes `x`; a consumer opens a cart and calls `remove_from_cart(cart, x)` without reserving `x` first: the inventory holds two `x` and producer 0's count is 2 | no effect when the cart held no such product (the cart's `-1` result); otherwise return the unit and credit the producer the cart recorded | medium; not executed | MarketScenarios.RemoveAbsentCreatesUnit | Market.RemoveFromCartCorrected |

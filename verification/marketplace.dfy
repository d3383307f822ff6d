/** The marketplace bookkeeping (skel/tema/marketplace.py) as a sequential
    state machine: every public call is one atomic step from a state to a
    successor state plus the call's return value. */
module Market {
  import opened SeqUtil
  import opened Carts

  /** The fields `Marketplace.__init__` creates (the locks aside). */
  datatype Marketplace<T(==)> = Marketplace(
    queueSize: int,              // queue_size_per_producer
    producers: seq<int>,         // ids handed out so far, in order
    products: seq<T>,            // the inventory; equal units may repeat
    quota: map<int, int>,        // producer_num_products
    owner: map<T, int>,          // product_to_producer, last publisher wins
    carts: map<int, Cart<T>>,    // cart id -> cart
    numCarts: int)               // num_carts

  /** A call's successor state together with its return value. */
  datatype Step<T(==), R> = Step(next: Marketplace<T>, value: R)

  /** The state every sequence of calls from `Init` keeps: producer ids are
      0, 1, 2, … in order; every unit in the inventory has a recorded owner;
      every owner has a quota entry; every cart record names a product with a
      recorded owner and a producer with a quota entry; and the registered
      carts are exactly 1 .. numCarts. */
  ghost predicate Valid<T>(m: Marketplace<T>)
  {
    && (forall i :: 0 <= i < |m.producers| ==> m.producers[i] == i)
    && (forall i :: 0 <= i < |m.products| ==> m.products[i] in m.owner)
    && m.owner.Values <= m.quota.Keys
    && m.numCarts >= 0
    && (forall id :: id in m.carts <==> 1 <= id <= m.numCarts)
    && (forall id, i :: id in m.carts && 0 <= i < |m.carts[id].records| ==>
          m.carts[id].records[i].producerId in m.quota
          && m.carts[id].records[i].product in m.owner)
  }

  /** `producer_num_products.get(producerId, 0)`. */
  function QuotaOf<T(==)>(m: Marketplace<T>, producerId: int): int
  {
    if producerId in m.quota then m.quota[producerId] else 0
  }

  /** `Marketplace(queue_size_per_producer)`. */
  function Init<T(==)>(queueSize: int): (m: Marketplace<T>)
    ensures Valid(m)
    ensures m.queueSize == queueSize
    ensures |m.producers| == 0 && |m.products| == 0 && m.numCarts == 0
    ensures forall p :: QuotaOf(m, p) == 0
    ensures m.quota == map[] && m.owner == map[]
    ensures forall id :: id !in m.carts
  {
    Marketplace(queueSize, [], [], map[], map[], map[], 0)
  }

  /** `register_producer`: 0 on the first call, one more than the previous
      id afterwards; in a valid state that is the number of earlier
      registrations. Nothing but the id list changes. */
  function RegisterProducer<T(==)>(m: Marketplace<T>): (r: Step<T, int>)
    ensures r.value == if |m.producers| == 0 then 0 else m.producers[|m.producers| - 1] + 1
    ensures r.next == m.(producers := m.producers + [r.value])
    ensures Valid(m) ==> r.value == |m.producers|
  {
    var id := if |m.producers| == 0 then 0 else m.producers[|m.producers| - 1] + 1;
    Step(m.(producers := m.producers + [id]), id)
  }

  /** `publish`: refused, with no effect, while the producer's count
      (0 when it has none yet) has reached the queue size; otherwise the
      unit goes to the end of the inventory, the producer's count grows by
      one and the producer becomes the product's recorded owner. */
  function Publish<T(==)>(m: Marketplace<T>, producerId: int, product: T): (r: Step<T, bool>)
    ensures r.value <==> QuotaOf(m, producerId) < m.queueSize
    ensures !r.value ==> r.next == m
    ensures r.value ==>
      && r.next.products == m.products + [product]
      && QuotaOf(r.next, producerId) == QuotaOf(m, producerId) + 1
      && (forall p :: p != producerId ==> QuotaOf(r.next, p) == QuotaOf(m, p))
      && r.next.quota.Keys == m.quota.Keys + {producerId}
      && product in r.next.owner && r.next.owner[product] == producerId
      && (forall x :: x in m.owner && x != product ==> x in r.next.owner && r.next.owner[x] == m.owner[x])
      && r.next.owner.Keys == m.owner.Keys + {product}
      && r.next.carts == m.carts
    ensures r.next.queueSize == m.queueSize && r.next.producers == m.producers
    ensures r.next.numCarts == m.numCarts
    ensures QuotaOf(m, producerId) <= m.queueSize ==> QuotaOf(r.next, producerId) <= m.queueSize
  {
    var current := QuotaOf(m, producerId);
    if current >= m.queueSize then Step(m, false)
    else
      Step(m.(quota := m.quota[producerId := current + 1],
              products := m.products + [product],
              owner := m.owner[product := producerId]), true)
  }

  /** `new_cart`: the id is one more than the number of carts made so far
      and is bound to an empty cart; in a valid state the id is fresh and
      every existing cart is untouched. */
  function NewCart<T(==)>(m: Marketplace<T>): (r: Step<T, int>)
    ensures r.value == m.numCarts + 1 && r.next.numCarts == r.value
    ensures r.value in r.next.carts && r.next.carts[r.value] == Empty()
    ensures r.next.carts.Keys == m.carts.Keys + {r.value}
    ensures r.next == m.(carts := r.next.carts, numCarts := r.value)
    ensures Valid(m) ==> r.value !in m.carts
    ensures Valid(m) ==> forall id :: id in m.carts ==> r.next.carts[id] == m.carts[id]
  {
    var id := m.numCarts + 1;
    Step(m.(numCarts := id, carts := m.carts[id := Empty()]), id)
  }

  /** The lookups `add_to_cart` performs once it has found the product in
      the inventory; the call raises when one of them fails. */
  predicate AddDefined<T(==)>(m: Marketplace<T>, cartId: int, product: T)
  {
    product in m.products ==>
      cartId in m.carts && product in m.owner && m.owner[product] in m.quota
  }

  /** `add_to_cart`: false, with no effect, when the product is not in the
      inventory; otherwise the first equal unit leaves the inventory, its
      recorded owner's count drops by one and the cart gains the record
      `(product, owner)` at its end. Nothing else changes, so the inventory
      length plus the cart's record count stays the same. */
  function AddToCart<T(==)>(m: Marketplace<T>, cartId: int, product: T): (r: Step<T, bool>)
    requires AddDefined(m, cartId, product)
    ensures r.value <==> product in m.products
    ensures !r.value ==> r.next == m
    ensures r.value ==>
      var o := m.owner[product];
      && multiset(r.next.products) == multiset(m.products) - multiset{product}
      && |r.next.products| == |m.products| - 1
      && (forall i :: 0 <= i < IndexOf(m.products, product) ==> m.products[i] != product)
      && (forall i :: 0 <= i < IndexOf(m.products, product) ==> r.next.products[i] == m.products[i])
      && (forall i :: IndexOf(m.products, product) <= i < |r.next.products| ==>
            r.next.products[i] == m.products[i + 1])
      && QuotaOf(r.next, o) == QuotaOf(m, o) - 1
      && (forall p :: p != o ==> QuotaOf(r.next, p) == QuotaOf(m, p))
      && r.next.quota.Keys == m.quota.Keys
      && r.next.carts.Keys == m.carts.Keys
      && r.next.carts[cartId].records == m.carts[cartId].records + [Record(product, o)]
      && (forall id :: id in m.carts && id != cartId ==> r.next.carts[id] == m.carts[id])
      && |r.next.products| + |r.next.carts[cartId].records| == |m.products| + |m.carts[cartId].records|
    ensures r.next.owner == m.owner && r.next.queueSize == m.queueSize
    ensures r.next.producers == m.producers && r.next.numCarts == m.numCarts
  {
    if product !in m.products then Step(m, false)
    else
      var o := m.owner[product];
      Step(m.(quota := m.quota[o := m.quota[o] - 1],
              carts := m.carts[cartId := AddProduct(m.carts[cartId], product, o)],
              products := RemoveFirst(m.products, product)), true)
  }

  /** The lookups `remove_from_cart` performs: the cart by id, the product's
      recorded owner, and that owner's count; the call raises when one of
      them fails. */
  predicate RemoveDefined<T(==)>(m: Marketplace<T>, cartId: int, product: T)
  {
    cartId in m.carts && product in m.owner && m.owner[product] in m.quota
  }

  /** `remove_from_cart`, as written: the cart loses its first record for
      `product` if it has one, and then, whatever the cart returned, the
      product is appended to the inventory and its recorded owner's count
      grows by one. */
  function RemoveFromCart<T(==)>(m: Marketplace<T>, cartId: int, product: T): (m': Marketplace<T>)
    requires RemoveDefined(m, cartId, product)
    ensures m'.carts.Keys == m.carts.Keys
    ensures m'.carts[cartId] == RemoveProduct(m.carts[cartId], product).cart
    ensures forall id :: id in m.carts && id != cartId ==> m'.carts[id] == m.carts[id]
    ensures m'.products == m.products + [product]
    ensures QuotaOf(m', m.owner[product]) == QuotaOf(m, m.owner[product]) + 1
    ensures forall p :: p != m.owner[product] ==> QuotaOf(m', p) == QuotaOf(m, p)
    ensures m'.quota.Keys == m.quota.Keys
    ensures m'.owner == m.owner && m'.queueSize == m.queueSize
    ensures m'.producers == m.producers && m'.numCarts == m.numCarts
  {
    var o := m.owner[product];
    var removal := RemoveProduct(m.carts[cartId], product);
    m.(carts := m.carts[cartId := removal.cart],
       products := m.products + [product],
       quota := m.quota[o := m.quota[o] + 1])
  }

  /** The lookups the corrected removal performs: the cart by id and, when
      the cart holds the product, the count of the producer its record names. */
  predicate RemoveCorrectedDefined<T(==)>(m: Marketplace<T>, cartId: int, product: T)
  {
    cartId in m.carts
    && (product in GetProducts(m.carts[cartId]) ==>
          RemoveProduct(m.carts[cartId], product).producerId in m.quota)
  }

  /** `remove_from_cart` as its documentation and the cart's `-1` result
      intend: nothing happens when the cart holds no such product; otherwise
      the unit returns to the inventory and the producer recorded in the
      cart, not the product's current owner, gets its count back. */
  function RemoveFromCartCorrected<T(==)>(m: Marketplace<T>, cartId: int, product: T): (m': Marketplace<T>)
    requires RemoveCorrectedDefined(m, cartId, product)
    ensures product !in GetProducts(m.carts[cartId]) ==> m' == m
    ensures product in GetProducts(m.carts[cartId]) ==>
      var removal := RemoveProduct(m.carts[cartId], product);
      && m'.carts == m.carts[cartId := removal.cart]
      && m'.products == m.products + [product]
      && QuotaOf(m', removal.producerId) == QuotaOf(m, removal.producerId) + 1
      && (forall p :: p != removal.producerId ==> QuotaOf(m', p) == QuotaOf(m, p))
      && m'.quota.Keys == m.quota.Keys
    ensures m'.owner == m.owner && m'.queueSize == m.queueSize
    ensures m'.producers == m.producers && m'.numCarts == m.numCarts
  {
    var cart := m.carts[cartId];
    if product !in GetProducts(cart) then m
    else
      var removal := RemoveProduct(cart, product);
      m.(carts := m.carts[cartId := removal.cart],
         products := m.products + [product],
         quota := m.quota[removal.producerId := m.quota[removal.producerId] + 1])
  }

  /** `place_order`, return value only: the cart's products in insertion
      order. The state is a parameter and not a result, so the call
      changes nothing. */
  function PlaceOrder<T(==)>(m: Marketplace<T>, cartId: int): (ps: seq<T>)
    requires cartId in m.carts
    ensures |ps| == |m.carts[cartId].records|
    ensures forall i :: 0 <= i < |ps| ==> ps[i] == m.carts[cartId].records[i].product
  {
    GetProducts(m.carts[cartId])
  }

  /** `register_producer` keeps the reachable-state invariant. */
  lemma RegisterProducerKeepsValid<T>(m: Marketplace<T>)
    requires Valid(m)
    ensures Valid(RegisterProducer(m).next)
  {
  }

  /** `publish` keeps the reachable-state invariant. */
  lemma PublishKeepsValid<T>(m: Marketplace<T>, producerId: int, product: T)
    requires Valid(m)
    ensures Valid(Publish(m, producerId, product).next)
  {
  }

  /** `new_cart` keeps the reachable-state invariant. */
  lemma NewCartKeepsValid<T>(m: Marketplace<T>)
    requires Valid(m)
    ensures Valid(NewCart(m).next)
  {
  }

  /** `add_to_cart` keeps the reachable-state invariant. */
  lemma AddToCartKeepsValid<T>(m: Marketplace<T>, cartId: int, product: T)
    requires Valid(m) && AddDefined(m, cartId, product)
    ensures Valid(AddToCart(m, cartId, product).next)
  {
  }

  /** `remove_from_cart`, as written, keeps the reachable-state invariant. */
  lemma RemoveFromCartKeepsValid<T>(m: Marketplace<T>, cartId: int, product: T)
    requires Valid(m) && RemoveDefined(m, cartId, product)
    ensures Valid(RemoveFromCart(m, cartId, product))
  {
  }

  /** The corrected release keeps the reachable-state invariant. */
  lemma RemoveFromCartCorrectedKeepsValid<T>(m: Marketplace<T>, cartId: int, product: T)
    requires Valid(m) && RemoveCorrectedDefined(m, cartId, product)
    ensures Valid(RemoveFromCartCorrected(m, cartId, product))
  {
  }
}

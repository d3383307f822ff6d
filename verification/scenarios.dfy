/** Properties that relate several marketplace calls: id allocation,
    reservation round trips, conservation of units, checkout, the
    end-to-end scenario, and the phantom unit that
    `remove_from_cart` creates when the cart does not hold the product. */
module MarketScenarios {
  import opened SeqUtil
  import opened Carts
  import opened Market

  /** In a reachable state the only lookups that can fail are the ones on
      an unknown cart id or on a product never published. */
  lemma ValidLookups<T>(m: Marketplace<T>, cartId: int, product: T)
    requires Valid(m) && cartId in m.carts
    ensures AddDefined(m, cartId, product)
    ensures product in m.owner ==> RemoveDefined(m, cartId, product)
    ensures RemoveCorrectedDefined(m, cartId, product)
  {
    if product in GetProducts(m.carts[cartId]) {
      var k := IndexOf(GetProducts(m.carts[cartId]), product);
      assert RemoveProduct(m.carts[cartId], product).producerId == m.carts[cartId].records[k].producerId;
    }
  }

  /** Producer ids: the first registration returns 0 and each later one
      returns the previous id plus one. */
  lemma RegisterProducerIds<T>(m: Marketplace<T>)
    requires Valid(m)
    ensures RegisterProducer(Init<T>(m.queueSize)).value == 0
    ensures var r := RegisterProducer(m);
      RegisterProducer(r.next).value == r.value + 1
  {
  }

  /** Cart ids: consecutive carts get consecutive ids, and the second cart
      leaves the first one empty and registered. */
  lemma NewCartIds<T>(m: Marketplace<T>)
    requires Valid(m)
    ensures NewCart(Init<T>(m.queueSize)).value == 1
    ensures var r := NewCart(m);
      var r' := NewCart(r.next);
      && r'.value == r.value + 1
      && r.value in r'.next.carts && r'.next.carts[r.value] == Empty()
  {
  }

  /** Moving the first unit of `product` from an inventory to the end of a
      cart keeps the units of both together. */
  lemma ReserveConserves<T>(inventory: seq<T>, c: Cart<T>, product: T, producerId: int)
    requires product in inventory
    ensures multiset(RemoveFirst(inventory, product)) + multiset(GetProducts(AddProduct(c, product, producerId)))
         == multiset(inventory) + multiset(GetProducts(c))
  {
    AddProductProducts(c, product, producerId);
  }

  /** A reservation moves one unit: the inventory and the cart together
      hold the same units as before, whether or not the call succeeded. */
  lemma AddToCartConserves<T>(m: Marketplace<T>, cartId: int, product: T)
    requires AddDefined(m, cartId, product) && cartId in m.carts
    ensures var m' := AddToCart(m, cartId, product).next;
      multiset(m'.products) + multiset(GetProducts(m'.carts[cartId]))
        == multiset(m.products) + multiset(GetProducts(m.carts[cartId]))
  {
    if product in m.products {
      var o := m.owner[product];
      var m' := AddToCart(m, cartId, product).next;
      assert m'.products == RemoveFirst(m.products, product);
      assert m'.carts[cartId] == AddProduct(m.carts[cartId], product, o);
      ReserveConserves(m.products, m.carts[cartId], product, o);
    }
  }

  /** Overwriting a key and then writing its old value back restores the map. */
  lemma UpdateRestores<K, V>(mp: map<K, V>, k: K, v: V)
    requires k in mp
    ensures mp[k := v][k := mp[k]] == mp
  {
  }

  /** Round trip, as written: reserving a unit and releasing it again, on a
      cart that held no earlier unit of the product, restores the inventory
      as a multiset, every count, and every cart. */
  lemma AddThenRemoveFromCart<T>(m: Marketplace<T>, cartId: int, product: T)
    requires RemoveDefined(m, cartId, product)
    requires product in m.products
    requires product !in GetProducts(m.carts[cartId])
    ensures var m1 := AddToCart(m, cartId, product).next;
      && RemoveDefined(m1, cartId, product)
      && var m2 := RemoveFromCart(m1, cartId, product);
      && multiset(m2.products) == multiset(m.products)
      && m2.quota == m.quota
      && m2.carts == m.carts
      && m2.owner == m.owner
  {
    var o := m.owner[product];
    var m1 := AddToCart(m, cartId, product).next;
    assert m1.quota == m.quota[o := m.quota[o] - 1];
    assert m1.carts == m.carts[cartId := AddProduct(m.carts[cartId], product, o)];
    AddThenRemove(m.carts[cartId], product, o);
    var m2 := RemoveFromCart(m1, cartId, product);
    assert m2.quota == m1.quota[o := m.quota[o]];
    UpdateRestores(m.quota, o, m.quota[o] - 1);
    assert m2.carts == m1.carts[cartId := m.carts[cartId]];
    UpdateRestores(m.carts, cartId, AddProduct(m.carts[cartId], product, o));
  }

  /** Round trip with the corrected release: the same restoration, with the
      count credited to the producer the cart recorded. */
  lemma AddThenRemoveFromCartCorrected<T>(m: Marketplace<T>, cartId: int, product: T)
    requires RemoveDefined(m, cartId, product)
    requires product in m.products
    requires product !in GetProducts(m.carts[cartId])
    ensures var m1 := AddToCart(m, cartId, product).next;
      && RemoveCorrectedDefined(m1, cartId, product)
      && var m2 := RemoveFromCartCorrected(m1, cartId, product);
      && multiset(m2.products) == multiset(m.products)
      && m2.quota == m.quota
      && m2.carts == m.carts
      && m2.owner == m.owner
  {
    var o := m.owner[product];
    var m1 := AddToCart(m, cartId, product).next;
    assert m1.quota == m.quota[o := m.quota[o] - 1];
    assert m1.carts == m.carts[cartId := AddProduct(m.carts[cartId], product, o)];
    AddThenRemove(m.carts[cartId], product, o);
    AddProductProducts(m.carts[cartId], product, o);
    assert product in GetProducts(m1.carts[cartId]);
    var m2 := RemoveFromCartCorrected(m1, cartId, product);
    assert m2.quota == m1.quota[o := m.quota[o]];
    UpdateRestores(m.quota, o, m.quota[o] - 1);
    assert m2.carts == m1.carts[cartId := m.carts[cartId]];
    UpdateRestores(m.carts, cartId, AddProduct(m.carts[cartId], product, o));
  }

  /** Moving the unit a successful `remove_product` takes out of a cart to
      the end of an inventory keeps the units of both together. */
  lemma MoveBackConserves<T>(inventory: seq<T>, c: Cart<T>, product: T)
    requires product in GetProducts(c)
    ensures multiset(inventory + [product]) + multiset(GetProducts(RemoveProduct(c, product).cart))
         == multiset(inventory) + multiset(GetProducts(c))
  {
    RemoveProductCounts(c, product);
  }

  /** The corrected release conserves units: what leaves the cart is what
      the inventory gains, and a cart without the product changes nothing. */
  lemma RemoveFromCartCorrectedConserves<T>(m: Marketplace<T>, cartId: int, product: T)
    requires RemoveCorrectedDefined(m, cartId, product)
    ensures var m' := RemoveFromCartCorrected(m, cartId, product);
      && m'.carts.Keys == m.carts.Keys
      && (forall id :: id in m.carts && id != cartId ==> m'.carts[id] == m.carts[id])
      && multiset(m'.products) + multiset(GetProducts(m'.carts[cartId]))
           == multiset(m.products) + multiset(GetProducts(m.carts[cartId]))
  {
    var cart := m.carts[cartId];
    if product in GetProducts(cart) {
      var m' := RemoveFromCartCorrected(m, cartId, product);
      assert m'.carts == m.carts[cartId := RemoveProduct(cart, product).cart];
      assert m'.products == m.products + [product];
      MoveBackConserves(m.products, cart, product);
    }
  }

  /** The discrepancy of the as-written release: on a cart that holds no
      unit of the product, the cart is unchanged yet the inventory gains a
      unit and the owner's count grows, so the units in the inventory and
      the cart together increase by one. */
  lemma RemoveAbsentCreatesUnit<T>(m: Marketplace<T>, cartId: int, product: T)
    requires RemoveDefined(m, cartId, product)
    requires product !in GetProducts(m.carts[cartId])
    ensures var m' := RemoveFromCart(m, cartId, product);
      && m'.carts == m.carts
      && multiset(m'.products) + multiset(GetProducts(m'.carts[cartId]))
           == multiset(m.products) + multiset(GetProducts(m.carts[cartId])) + multiset{product}
      && QuotaOf(m', m.owner[product]) == QuotaOf(m, m.owner[product]) + 1
  {
  }

  /** A concrete call sequence that shows the discrepancy: with queue size 1, a producer
      publishes `x` once and a consumer releases `x` from a fresh cart;
      the inventory then holds two units of `x` and the producer's count is
      2, above the queue size. The corrected release leaves that state alone. */
  lemma RemoveAbsentExceedsQueueSize<T>(x: T)
    ensures
      var m0 := Publish(RegisterProducer(Init<T>(1)).next, 0, x).next;
      var c := NewCart(m0);
      var m1 := RemoveFromCart(c.next, c.value, x);
      && m1.products == [x, x] && QuotaOf(m1, 0) == 2 && QuotaOf(m1, 0) > m1.queueSize
      && RemoveFromCartCorrected(c.next, c.value, x) == c.next
  {
    var m0 := Publish(RegisterProducer(Init<T>(1)).next, 0, x).next;
    assert m0.products == [x] && m0.quota == map[0 := 1] && m0.owner == map[x := 0];
    var c := NewCart(m0);
    assert c.next.carts[c.value] == Empty();
    EmptyHoldsNothing<T>();
  }

  /** The corrected release does not keep counts within the queue size
      either: with queue size 1, producer 0 publishes `x`, a consumer
      reserves it (the count drops to 0), the producer publishes `x` again,
      and the consumer releases its unit; the count is then 2. */
  lemma CorrectedReleaseExceedsQueueSize<T>(x: T)
    ensures
      var m0 := Publish(RegisterProducer(Init<T>(1)).next, 0, x).next;
      var c := NewCart(m0);
      var a := AddToCart(c.next, c.value, x);
      var p := Publish(a.next, 0, x);
      var m1 := RemoveFromCartCorrected(p.next, c.value, x);
      && a.value && p.value
      && m1.products == [x, x] && QuotaOf(m1, 0) == 2 && QuotaOf(m1, 0) > m1.queueSize
  {
    var m0 := Publish(RegisterProducer(Init<T>(1)).next, 0, x).next;
    assert m0.products == [x] && m0.quota == map[0 := 1] && m0.owner == map[x := 0];
    var c := NewCart(m0);
    assert c.next.carts[c.value] == Empty();
    assert IndexOf([x], x) == 0 && RemoveFirst([x], x) == [];
    var a := AddToCart(c.next, c.value, x);
    assert a.next.products == [] && a.next.quota == map[0 := 0];
    assert a.next.carts[c.value].records == [Record(x, 0)];
    var p := Publish(a.next, 0, x);
    assert p.next.products == [x] && p.next.quota == map[0 := 1];
    assert GetProducts(p.next.carts[c.value]) == [x];
    assert IndexOf([x], x) == 0;
  }

  /** A unit that a producer has just published can be reserved at once. */
  lemma PublishThenAdd<T>(m: Marketplace<T>, producerId: int, product: T, cartId: int)
    requires Valid(m) && cartId in m.carts
    requires Publish(m, producerId, product).value
    ensures var m' := Publish(m, producerId, product).next;
      AddDefined(m', cartId, product) && AddToCart(m', cartId, product).value
  {
    var m' := Publish(m, producerId, product).next;
    assert m'.products[|m.products|] == product;
  }

  /** Checkout reads the cart: a fresh cart orders nothing, a successful
      reservation appends its product to the order, and calls on other
      carts or publishes leave the order as it was. */
  lemma PlaceOrderTracksCart<T>(m: Marketplace<T>, cartId: int, other: int, product: T, producerId: int)
    requires Valid(m) && cartId in m.carts && other in m.carts && other != cartId
    ensures PlaceOrder(NewCart(m).next, NewCart(m).value) == []
    ensures var r := AddToCart(m, cartId, product);
      && PlaceOrder(r.next, cartId)
           == (if r.value then PlaceOrder(m, cartId) + [product] else PlaceOrder(m, cartId))
      && PlaceOrder(r.next, other) == PlaceOrder(m, other)
    ensures PlaceOrder(Publish(m, producerId, product).next, cartId) == PlaceOrder(m, cartId)
  {
    var r := AddToCart(m, cartId, product);
    if r.value {
      AddProductProducts(m.carts[cartId], product, m.owner[product]);
    }
  }

  /** The end-to-end scenario: queue size 2; producer 0 publishes "tea"
      twice (both accepted) and a third time (refused); a consumer reserves
      both units in cart 1 and checks out ["tea", "tea"]; after that the
      producer may publish again. */
  lemma TeaScenario<T>(tea: T)
    ensures
      var r0 := RegisterProducer(Init<T>(2));
      var p1 := Publish(r0.next, r0.value, tea);
      var p2 := Publish(p1.next, 0, tea);
      var p3 := Publish(p2.next, 0, tea);
      var c := NewCart(p3.next);
      var a1 := AddToCart(c.next, c.value, tea);
      var a2 := AddToCart(a1.next, c.value, tea);
      && r0.value == 0 && p1.value && p2.value && !p3.value
      && c.value == 1 && a1.value && a2.value
      && PlaceOrder(a2.next, c.value) == [tea, tea]
      && Publish(a2.next, 0, tea).value
  {
    PublishTwice(tea);
    var r0 := RegisterProducer(Init<T>(2));
    var p1 := Publish(r0.next, r0.value, tea);
    var p2 := Publish(p1.next, 0, tea);
    var p3 := Publish(p2.next, 0, tea);
    assert !p3.value && p3.next == p2.next;
    var c := NewCart(p3.next);
    assert c.value == 1 && c.next.carts[c.value] == Empty();
    assert c.next.products == [tea, tea] && c.next.quota == map[0 := 2] && c.next.owner == map[tea := 0];
    ReserveBoth(c.next, c.value, tea);
  }

  /** The producer half of `TeaScenario`. */
  lemma PublishTwice<T>(tea: T)
    ensures
      var r0 := RegisterProducer(Init<T>(2));
      var p1 := Publish(r0.next, r0.value, tea);
      var p2 := Publish(p1.next, 0, tea);
      && r0.value == 0 && p1.value && p2.value
      && p2.next.products == [tea, tea] && p2.next.quota == map[0 := 2] && p2.next.owner == map[tea := 0]
      && p2.next.carts == map[] && p2.next.numCarts == 0 && p2.next.queueSize == 2
  {
    var r0 := RegisterProducer(Init<T>(2));
    var p1 := Publish(r0.next, r0.value, tea);
    assert p1.next.products == [tea] && p1.next.quota == map[0 := 1];
  }

  /** The consumer half of `TeaScenario`. */
  lemma ReserveBoth<T>(m: Marketplace<T>, cartId: int, tea: T)
    requires m.products == [tea, tea] && m.quota == map[0 := 2] && m.owner == map[tea := 0]
    requires m.queueSize == 2
    requires cartId in m.carts && m.carts[cartId] == Empty()
    ensures
      var a1 := AddToCart(m, cartId, tea);
      var a2 := AddToCart(a1.next, cartId, tea);
      && a1.value && a2.value
      && PlaceOrder(a2.next, cartId) == [tea, tea]
      && Publish(a2.next, 0, tea).value
  {
    assert IndexOf([tea, tea], tea) == 0 && RemoveFirst([tea, tea], tea) == [tea];
    assert IndexOf([tea], tea) == 0 && RemoveFirst([tea], tea) == [];
    var a1 := AddToCart(m, cartId, tea);
    assert a1.next.products == [tea] && a1.next.quota == map[0 := 1];
    assert a1.next.carts[cartId].records == [Record(tea, 0)];
    var a2 := AddToCart(a1.next, cartId, tea);
    assert a2.next.carts[cartId].records == [Record(tea, 0), Record(tea, 0)];
    assert a2.next.quota == map[0 := 0];
  }
}

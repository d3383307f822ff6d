/** Quota accounting. When every product value is published by a single
    producer, each producer's count equals the number of inventory units it
    owns, and every marketplace call keeps it so. Without that restriction
    the last-publisher-wins owner map lets a count go negative. */
module MarketInvariants {
  import opened SeqUtil
  import opened Carts
  import opened Market

  /** Number of units in `s` whose recorded owner is `producerId`. */
  function CountOwned<T(==)>(s: seq<T>, owner: map<T, int>, producerId: int): (n: nat)
    requires forall i :: 0 <= i < |s| ==> s[i] in owner
    ensures n <= |s|
    ensures n == 0 <== forall i :: 0 <= i < |s| ==> owner[s[i]] != producerId
    ensures n == |s| <== forall i :: 0 <= i < |s| ==> owner[s[i]] == producerId
    decreases |s|
  {
    if |s| == 0 then 0
    else CountOwned(s[..|s| - 1], owner, producerId) + (if owner[s[|s| - 1]] == producerId then 1 else 0)
  }

  /** Counting splits over concatenation. */
  lemma {:induction false} CountOwnedConcat<T>(a: seq<T>, b: seq<T>, owner: map<T, int>, producerId: int)
    requires forall i :: 0 <= i < |a| ==> a[i] in owner
    requires forall i :: 0 <= i < |b| ==> b[i] in owner
    ensures forall i :: 0 <= i < |a + b| ==> (a + b)[i] in owner
    ensures CountOwned(a + b, owner, producerId)
         == CountOwned(a, owner, producerId) + CountOwned(b, owner, producerId)
    decreases |b|
  {
    assert forall i :: 0 <= i < |a + b| ==> (a + b)[i] in owner by {
      forall i | 0 <= i < |a + b|
        ensures (a + b)[i] in owner
      {
        if i < |a| { assert (a + b)[i] == a[i]; } else { assert (a + b)[i] == b[i - |a|]; }
      }
    }
    if |b| == 0 {
      assert a + b == a;
    } else {
      var b' := b[..|b| - 1];
      CountOwnedConcat(a, b', owner, producerId);
      assert (a + b)[..|a + b| - 1] == a + b';
    }
  }

  /** Two owner maps that agree on every unit of `s` give the same count. */
  lemma {:induction false} CountOwnedAgree<T>(s: seq<T>, owner: map<T, int>, owner': map<T, int>, producerId: int)
    requires forall i :: 0 <= i < |s| ==> s[i] in owner && s[i] in owner' && owner[s[i]] == owner'[s[i]]
    ensures CountOwned(s, owner, producerId) == CountOwned(s, owner', producerId)
    decreases |s|
  {
    if |s| > 0 {
      CountOwnedAgree(s[..|s| - 1], owner, owner', producerId);
    }
  }

  /** Deleting one unit lowers its owner's count by one and no other. */
  lemma CountOwnedRemoveAt<T>(s: seq<T>, k: nat, owner: map<T, int>, producerId: int)
    requires k < |s|
    requires forall i :: 0 <= i < |s| ==> s[i] in owner
    ensures forall i :: 0 <= i < |RemoveAt(s, k)| ==> RemoveAt(s, k)[i] in owner
    ensures CountOwned(RemoveAt(s, k), owner, producerId)
         == CountOwned(s, owner, producerId) - (if owner[s[k]] == producerId then 1 else 0)
  {
    var r := RemoveAt(s, k);
    assert forall i :: 0 <= i < |r| ==> r[i] in owner by {
      forall i | 0 <= i < |r|
        ensures r[i] in owner
      {
        if i < k { assert r[i] == s[i]; } else { assert r[i] == s[i + 1]; }
      }
    }
    assert s == s[..k] + ([s[k]] + s[k + 1..]);
    CountOwnedConcat(s[..k], [s[k]] + s[k + 1..], owner, producerId);
    CountOwnedConcat([s[k]], s[k + 1..], owner, producerId);
    assert r == s[..k] + s[k + 1..];
    CountOwnedConcat(s[..k], s[k + 1..], owner, producerId);
  }

  /** Each producer's count is the number of inventory units it owns. */
  ghost predicate OwnedCounts<T>(m: Marketplace<T>)
  {
    && (forall i :: 0 <= i < |m.products| ==> m.products[i] in m.owner)
    && forall p :: p in m.quota ==> m.quota[p] == CountOwned(m.products, m.owner, p)
  }

  /** The restriction under which counts stay exact: `producerId` may
      publish `product` only if no other producer has published it. */
  predicate SingleOwner<T(==)>(m: Marketplace<T>, producerId: int, product: T)
  {
    product !in m.owner || m.owner[product] == producerId
  }

  /** In a valid state with exact counts, every producer's count (absent
      key = 0) is the number of units it owns, hence never negative. */
  lemma OwnedCountsQuota<T>(m: Marketplace<T>, producerId: int)
    requires Valid(m) && OwnedCounts(m)
    ensures QuotaOf(m, producerId) == CountOwned(m.products, m.owner, producerId)
    ensures QuotaOf(m, producerId) >= 0
  {
    if producerId !in m.quota {
      forall i | 0 <= i < |m.products|
        ensures m.owner[m.products[i]] != producerId
      {
        assert m.owner[m.products[i]] in m.owner.Values;
      }
    }
  }

  /** The initial marketplace has exact counts. */
  lemma InitOwnedCounts<T>(queueSize: int)
    ensures OwnedCounts(Init<T>(queueSize))
  {
  }

  /** Registering a producer keeps exact counts. */
  lemma RegisterProducerOwnedCounts<T>(m: Marketplace<T>)
    requires OwnedCounts(m)
    ensures OwnedCounts(RegisterProducer(m).next)
  {
  }

  /** Creating a cart keeps exact counts. */
  lemma NewCartOwnedCounts<T>(m: Marketplace<T>)
    requires OwnedCounts(m)
    ensures OwnedCounts(NewCart(m).next)
  {
  }

  /** A publish that respects single ownership keeps exact counts. */
  lemma PublishOwnedCounts<T>(m: Marketplace<T>, producerId: int, product: T)
    requires Valid(m) && OwnedCounts(m)
    requires SingleOwner(m, producerId, product)
    ensures OwnedCounts(Publish(m, producerId, product).next)
  {
    var r := Publish(m, producerId, product);
    if r.value {
      var m' := r.next;
      forall i | 0 <= i < |m.products|
        ensures m.products[i] in m'.owner && m.owner[m.products[i]] == m'.owner[m.products[i]]
      {
      }
      forall p | p in m'.quota
        ensures m'.quota[p] == CountOwned(m'.products, m'.owner, p)
      {
        CountOwnedAgree(m.products, m.owner, m'.owner, p);
        CountOwnedConcat(m.products, [product], m'.owner, p);
        OwnedCountsQuota(m, p);
      }
    }
  }

  /** Reserving a unit keeps exact counts. */
  lemma AddToCartOwnedCounts<T>(m: Marketplace<T>, cartId: int, product: T)
    requires Valid(m) && OwnedCounts(m)
    requires cartId in m.carts
    ensures OwnedCounts(AddToCart(m, cartId, product).next)
  {
    var r := AddToCart(m, cartId, product);
    if r.value {
      var m' := r.next;
      var k := IndexOf(m.products, product);
      assert m'.products == RemoveAt(m.products, k);
      forall p | p in m'.quota
        ensures m'.quota[p] == CountOwned(m'.products, m'.owner, p)
      {
        CountOwnedRemoveAt(m.products, k, m.owner, p);
      }
    }
  }

  /** Releasing a unit, as written, keeps exact counts: the unit it appends
      and the count it credits belong to the same recorded owner. */
  lemma RemoveFromCartOwnedCounts<T>(m: Marketplace<T>, cartId: int, product: T)
    requires Valid(m) && OwnedCounts(m)
    requires RemoveDefined(m, cartId, product)
    ensures OwnedCounts(RemoveFromCart(m, cartId, product))
  {
    var m' := RemoveFromCart(m, cartId, product);
    forall p | p in m'.quota
      ensures m'.quota[p] == CountOwned(m'.products, m'.owner, p)
    {
      CountOwnedConcat(m.products, [product], m.owner, p);
    }
  }

  /** Without single ownership a count can go negative: producers 0 and 1
      both publish `x`, the owner map then names producer 1, and two
      reservations of `x` both charge producer 1. */
  lemma QuotaCanGoNegative<T>(x: T)
    ensures
      var m0 := RegisterProducer(RegisterProducer(Init<T>(1)).next).next;
      var m1 := Publish(Publish(m0, 0, x).next, 1, x).next;
      var c := NewCart(m1);
      var m2 := AddToCart(AddToCart(c.next, c.value, x).next, c.value, x).next;
      QuotaOf(m2, 1) == -1 && QuotaOf(m2, 0) == 1 && |m2.products| == 0
  {
    var m0 := RegisterProducer(RegisterProducer(Init<T>(1)).next).next;
    assert m0.quota == map[] && m0.owner == map[] && m0.products == [] && m0.carts == map[];
    var p1 := Publish(m0, 0, x).next;
    assert p1.products == [x] && p1.quota == map[0 := 1] && p1.owner == map[x := 0];
    var m1 := Publish(p1, 1, x).next;
    ReserveTwice(m1, x);
  }

  /** The reservation half of `QuotaCanGoNegative`: two units of `x` in
      stock, both attributed to producer 1 by the owner map. */
  lemma ReserveTwice<T>(m1: Marketplace<T>, x: T)
    requires m1.products == [x, x] && m1.owner == map[x := 1]
    requires m1.quota == map[0 := 1, 1 := 1] && m1.carts == map[]
    ensures
      var c := NewCart(m1);
      var m2 := AddToCart(AddToCart(c.next, c.value, x).next, c.value, x).next;
      QuotaOf(m2, 1) == -1 && QuotaOf(m2, 0) == 1 && |m2.products| == 0
  {
    assert IndexOf([x, x], x) == 0 && RemoveFirst([x, x], x) == [x];
    assert IndexOf([x], x) == 0 && RemoveFirst([x], x) == [];
    var c := NewCart(m1);
    assert c.next.products == m1.products && c.next.quota == m1.quota && c.next.owner == m1.owner;
    var a1 := AddToCart(c.next, c.value, x);
    assert a1.next.products == [x] && a1.next.quota == map[0 := 1, 1 := 0];
    var a2 := AddToCart(a1.next, c.value, x);
    assert a2.next.products == [] && a2.next.quota == map[0 := 1, 1 := -1];
  }
}

/** A consumer's shopping cart (skel/tema/cart.py): an ordered list of
    reservation records, each pairing a product with the id of the producer
    whose quota was charged when the unit was reserved. */
module Carts {
  import opened SeqUtil

  /** One reservation record, the `{"product": …, "producer_id": …}` dict. */
  datatype Record<T> = Record(product: T, producerId: int)

  /** The cart's records in insertion order. */
  datatype Cart<T> = Cart(records: seq<Record<T>>)

  /** What `remove_product` returns when no record holds the product. */
  const NotFound: int := -1

  /** The cart a fresh `Cart()` starts as. */
  function Empty<T>(): (c: Cart<T>)
    ensures |c.records| == 0
  {
    Cart([])
  }

  /** `add_product`: appends one record at the end and never fails. */
  function AddProduct<T>(c: Cart<T>, product: T, producerId: int): (c': Cart<T>)
    ensures |c'.records| == |c.records| + 1
    ensures c'.records[..|c.records|] == c.records
    ensures c'.records[|c.records|] == Record(product, producerId)
  {
    Cart(c.records + [Record(product, producerId)])
  }

  /** `get_products`: the products of the records, in insertion order. */
  function GetProducts<T>(c: Cart<T>): (ps: seq<T>)
    ensures |ps| == |c.records|
    ensures forall i :: 0 <= i < |ps| ==> ps[i] == c.records[i].product
    decreases |c.records|
  {
    if |c.records| == 0 then []
    else GetProducts(Cart(c.records[..|c.records| - 1])) + [c.records[|c.records| - 1].product]
  }

  /** The result of `remove_product`: the cart afterwards and the id returned. */
  datatype Removal<T> = Removal(cart: Cart<T>, producerId: int)

  /** `remove_product`: deletes the first record whose product equals
      `product` and returns that record's producer id; when no record
      matches, returns `NotFound` and leaves the cart as it was. */
  function RemoveProduct<T(==)>(c: Cart<T>, product: T): (r: Removal<T>)
    ensures product !in GetProducts(c) ==> r == Removal(c, NotFound)
    ensures product in GetProducts(c) ==>
      exists k :: 0 <= k < |c.records|
        && c.records[k].product == product
        && (forall i :: 0 <= i < k ==> c.records[i].product != product)
        && r.producerId == c.records[k].producerId
        && r.cart.records == c.records[..k] + c.records[k + 1..]
  {
    var k := IndexOf(GetProducts(c), product);
    if k == |c.records| then Removal(c, NotFound)
    else Removal(Cart(RemoveAt(c.records, k)), c.records[k].producerId)
  }

  /** Projection distributes over appending records. */
  lemma {:induction false} GetProductsAppend<T>(a: seq<Record<T>>, b: seq<Record<T>>)
    ensures GetProducts(Cart(a + b)) == GetProducts(Cart(a)) + GetProducts(Cart(b))
  {
    var l, r := GetProducts(Cart(a + b)), GetProducts(Cart(a)) + GetProducts(Cart(b));
    assert |l| == |r|;
    forall i | 0 <= i < |l|
      ensures l[i] == r[i]
    {
      if i < |a| {
        assert (a + b)[i] == a[i];
      } else {
        assert (a + b)[i] == b[i - |a|];
      }
    }
  }

  /** A fresh cart holds no products. */
  lemma EmptyHoldsNothing<T>()
    ensures GetProducts(Empty<T>()) == []
  {
  }

  /** Adding a record extends the product list by exactly that product. */
  lemma AddProductProducts<T>(c: Cart<T>, product: T, producerId: int)
    ensures GetProducts(AddProduct(c, product, producerId)) == GetProducts(c) + [product]
  {
    GetProductsAppend(c.records, [Record(product, producerId)]);
  }

  /** A successful removal drops exactly one record and one unit of
      `product`; the counts of all other products are unchanged. */
  lemma RemoveProductCounts<T>(c: Cart<T>, product: T)
    requires product in GetProducts(c)
    ensures var r := RemoveProduct(c, product);
      && |r.cart.records| == |c.records| - 1
      && multiset(GetProducts(r.cart)) == multiset(GetProducts(c)) - multiset{product}
      && multiset(GetProducts(r.cart))[product] == multiset(GetProducts(c))[product] - 1
      && forall q :: q != product ==> multiset(GetProducts(r.cart))[q] == multiset(GetProducts(c))[q]
  {
    var k := IndexOf(GetProducts(c), product);
    GetProductsRemoveAt(c, k);
  }

  /** Deleting a record deletes the product at the same position. */
  lemma GetProductsRemoveAt<T>(c: Cart<T>, k: nat)
    requires k < |c.records|
    ensures GetProducts(Cart(RemoveAt(c.records, k))) == RemoveAt(GetProducts(c), k)
  {
    var l, r := GetProducts(Cart(RemoveAt(c.records, k))), RemoveAt(GetProducts(c), k);
    assert |l| == |r|;
    forall i | 0 <= i < |l|
      ensures l[i] == r[i]
    {
    }
  }

  /** Round trip: appending `(product, producerId)` to a cart that holds no
      `product` and then removing `product` returns `producerId` and the
      original cart. */
  lemma AddThenRemove<T>(c: Cart<T>, product: T, producerId: int)
    requires product !in GetProducts(c)
    ensures RemoveProduct(AddProduct(c, product, producerId), product) == Removal(c, producerId)
  {
    var c' := AddProduct(c, product, producerId);
    AddProductProducts(c, product, producerId);
    assert GetProducts(c') == GetProducts(c) + [product];
    var k := IndexOf(GetProducts(c'), product);
    assert k == |c.records|;
    assert c'.records[..k] == c.records;
  }
}

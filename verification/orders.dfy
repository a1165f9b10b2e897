/** The order-placement service: customer check, batch product lookup with
    a count comparison, per-item stock check, then an order with price
    snapshots and a stock decrement, all against one store state. */
module Orders {
  import opened Wrappers
  import opened Lookup
  import opened Products
  import opened Stock

  type CustomerId = string

  /** One `{ product_id, price, quantity }` entry of an order. */
  datatype LineItem = LineItem(productId: ProductId, price: int, quantity: int)

  /** A created order. Its identifier is its position in the store's order
      list; timestamps are not modelled. */
  datatype Order = Order(customer: CustomerId, products: seq<LineItem>)

  /** Everything the service reads or writes. */
  datatype Store = Store(products: Catalog, customers: set<CustomerId>, orders: seq<Order>)

  /** The service's input: a customer and the requested `{ id, quantity }`
      entries. */
  datatype Request = Request(customerId: CustomerId, products: seq<Item>)

  /** The three application errors the service raises. */
  datatype Error =
    | /** No customer has the requested id. */
      CustomerNotExist
    | /** The batch lookup found fewer rows than the request has entries. */
      ProductNotExist
    | /** Some entry asks for more than its product's stock: the stock check,
          not a check on the quantity's sign, which the service does not make. */
      InvalidQuantity

  /** The text each error carries. */
  function Message(e: Error): string {
    match e
    case CustomerNotExist => "Customer not exist"
    case ProductNotExist => "Product not exist"
    case InvalidQuantity => "Send a valid quantity"
  }

  /** The stock of `k` as found in the batch lookup, 0 when it is absent. */
  function QuantityInDatabase(found: seq<Product>, k: ProductId): int {
    match Find(found, HasId(k))
    case Some(p) => p.quantity
    case None => 0
  }

  /** The price of `k` as found in the batch lookup, 0 when it is absent. */
  function PriceInDatabase(found: seq<Product>, k: ProductId): int {
    match Find(found, HasId(k))
    case Some(p) => p.price
    case None => 0
  }

  /** No requested quantity exceeds the stock found for its product. */
  predicate QuantitiesAvailable(found: seq<Product>, items: seq<Item>) {
    forall i :: 0 <= i < |items| ==> !(QuantityInDatabase(found, items[i].id) < items[i].quantity)
  }

  /** One line item per request entry, priced from the batch lookup. */
  function BuildLineItems(found: seq<Product>, items: seq<Item>): seq<LineItem> {
    seq(|items|, i requires 0 <= i < |items| =>
      LineItem(items[i].id, PriceInDatabase(found, items[i].id), items[i].quantity))
  }

  /** Places an order: the first failing check decides the error, and only
      a request that passes every check creates an order and changes stock. */
  function Execute(s: Store, req: Request): Result<(Order, Store), Error> {
    if req.customerId !in s.customers then Failure(CustomerNotExist)
    else
      var found := FindAllById(s.products, Ids(req.products));
      if |req.products| != |found| then Failure(ProductNotExist)
      else if !QuantitiesAvailable(found, req.products) then Failure(InvalidQuantity)
      else
        var order := Order(req.customerId, BuildLineItems(found, req.products));
        var products' := UpdateQuantity(s.products, req.products).0;
        Success((order, s.(products := products', orders := s.orders + [order])))
  }

  /** Every requested product has at least the requested stock. */
  ghost predicate EnoughStock(m: Catalog, items: seq<Item>) {
    forall i :: 0 <= i < |items| ==> items[i].id in m && items[i].quantity <= m[items[i].id].quantity
  }

  /** A product the batch lookup found is seen there exactly as stored. */
  lemma FoundAsStored(m: Catalog, items: seq<Item>, k: ProductId)
    requires k in Ids(items) && k in m
    ensures Find(FindAllById(m, Ids(items)), HasId(k)) == Some(m[k])
  {
    var found := FindAllById(m, Ids(items));
    assert m[k] in found;
    var t :| 0 <= t < |found| && found[t] == m[k];
    assert HasId(k)(found[t]);
  }

  /** What the `?.quantity || 0` and `?.price || 0` reads of the batch
      lookup yield: the stored value for a requested, stored product, and 0
      for any other id. */
  lemma InDatabaseAsStored(m: Catalog, items: seq<Item>, k: ProductId)
    ensures var found := FindAllById(m, Ids(items));
      && QuantityInDatabase(found, k) == (if k in Ids(items) && k in m then m[k].quantity else 0)
      && PriceInDatabase(found, k) == (if k in Ids(items) && k in m then m[k].price else 0)
  {
    var found := FindAllById(m, Ids(items));
    if k in Ids(items) && k in m {
      FoundAsStored(m, items, k);
    } else {
      assert forall t :: 0 <= t < |found| ==> !HasId(k)(found[t]);
    }
  }

  /** The count comparison passes exactly when the request names distinct,
      stored products. */
  lemma CountCheckIff(m: Catalog, items: seq<Item>)
    ensures |FindAllById(m, Ids(items))| == |items| <==> DistinctIds(items) && AllExist(m, items)
  {
    FoundCountMatchesIff(m, Ids(items));
    if (forall k :: k in Ids(items) ==> k in m) {
      forall i | 0 <= i < |items| ensures items[i].id in m {
        assert Ids(items)[i] == items[i].id;
      }
    }
    if AllExist(m, items) {
      forall k | k in Ids(items) ensures k in m {
        var t :| 0 <= t < |items| && Ids(items)[t] == k;
      }
    }
  }

  /** Once every product exists, the per-item check passes exactly when
      every request fits the stored stock. */
  lemma StockCheckIff(m: Catalog, items: seq<Item>)
    requires AllExist(m, items)
    ensures QuantitiesAvailable(FindAllById(m, Ids(items)), items) <==> EnoughStock(m, items)
  {
    var found := FindAllById(m, Ids(items));
    forall i | 0 <= i < |items| ensures QuantityInDatabase(found, items[i].id) == m[items[i].id].quantity {
      assert Ids(items)[i] == items[i].id;
      FoundAsStored(m, items, items[i].id);
    }
  }

  /** The checks run in a fixed order and the first failure wins: an
      unknown customer, then a missing or repeated product id, then a
      quantity above stock; a request passing all three succeeds. */
  lemma ExecuteOutcome(s: Store, req: Request)
    ensures Execute(s, req) == Failure(CustomerNotExist) <==> req.customerId !in s.customers
    ensures Execute(s, req) == Failure(ProductNotExist) <==>
      req.customerId in s.customers && !(DistinctIds(req.products) && AllExist(s.products, req.products))
    ensures Execute(s, req) == Failure(InvalidQuantity) <==>
      && req.customerId in s.customers && DistinctIds(req.products) && AllExist(s.products, req.products)
      && !EnoughStock(s.products, req.products)
    ensures Execute(s, req).Success? <==>
      req.customerId in s.customers && DistinctIds(req.products) && EnoughStock(s.products, req.products)
  {
    CountCheckIff(s.products, req.products);
    if AllExist(s.products, req.products) {
      StockCheckIff(s.products, req.products);
    }
  }

  /** A successful request passed every check. */
  lemma SucceededChecks(s: Store, req: Request)
    requires Execute(s, req).Success?
    ensures DistinctIds(req.products) && AllExist(s.products, req.products) && EnoughStock(s.products, req.products)
  {
    ExecuteOutcome(s, req);
  }

  /** What a successful call builds, in terms of the repository calls. */
  lemma SucceededWith(s: Store, req: Request)
    requires Execute(s, req).Success?
    ensures var (order, s') := Execute(s, req).value;
      && order == Order(req.customerId, BuildLineItems(FindAllById(s.products, Ids(req.products)), req.products))
      && s' == s.(products := UpdateQuantity(s.products, req.products).0, orders := s.orders + [order])
  {
  }

  /** A successful order has one line item per request entry, in request
      order, carrying the requested id and quantity and the product's price
      as stored when the order was placed. */
  lemma PlacedOrderLineItems(s: Store, req: Request)
    requires Execute(s, req).Success?
    ensures var order := Execute(s, req).value.0;
      && order.customer == req.customerId
      && |order.products| == |req.products|
      && forall i :: 0 <= i < |req.products| ==>
           && req.products[i].id in s.products
           && order.products[i] == LineItem(req.products[i].id, s.products[req.products[i].id].price, req.products[i].quantity)
  {
    SucceededChecks(s, req);
    SucceededWith(s, req);
    var items := req.products;
    var found := FindAllById(s.products, Ids(items));
    forall i | 0 <= i < |items| ensures PriceInDatabase(found, items[i].id) == s.products[items[i].id].price {
      assert Ids(items)[i] == items[i].id;
      FoundAsStored(s.products, items, items[i].id);
    }
  }

  /** A successful order keeps the customers and the set of product ids,
      and appends itself to the earlier orders. */
  lemma PlacedOrderAppends(s: Store, req: Request)
    requires Execute(s, req).Success?
    ensures var (order, s') := Execute(s, req).value;
      && s'.customers == s.customers
      && s'.orders == s.orders + [order]
      && s'.products.Keys == s.products.Keys
  {
    SucceededWith(s, req);
  }

  /** A successful order lowers each requested product's stock by exactly
      its requested quantity and changes nothing else about it; every other
      product keeps its row. */
  lemma PlacedOrderStock(s: Store, req: Request)
    requires Execute(s, req).Success?
    ensures var m' := Execute(s, req).value.1.products;
      && (forall k :: k in s.products && k !in Ids(req.products) ==> k in m' && m'[k] == s.products[k])
      && forall i :: 0 <= i < |req.products| ==>
           var k := req.products[i].id;
           k in s.products && k in m' && m'[k] == s.products[k].(quantity := s.products[k].quantity - req.products[i].quantity)
  {
    SucceededChecks(s, req);
    SucceededWith(s, req);
    UpdateQuantityKeepsOthers(s.products, req.products);
    UpdateQuantityDistinct(s.products, req.products);
  }

  function LineQuantities(lines: seq<LineItem>): seq<int> {
    seq(|lines|, i requires 0 <= i < |lines| => lines[i].quantity)
  }

  /** The stock a successful order removes in total equals the sum of its
      line-item quantities. */
  lemma PlacedOrderConservesStock(s: Store, req: Request)
    requires Execute(s, req).Success?
    ensures var (order, s') := Execute(s, req).value;
      TotalStock(s.products) - TotalStock(s'.products) == Sum(LineQuantities(order.products))
  {
    var (order, s') := Execute(s, req).value;
    assert DecrementedBy(s.products, s'.products, req.products) by {
      SucceededChecks(s, req);
      PlacedOrderAppends(s, req);
      PlacedOrderStock(s, req);
    }
    TotalStockAfterDecrement(s.products, s'.products, req.products);
    assert LineQuantities(order.products) == Quantities(req.products) by {
      PlacedOrderLineItems(s, req);
    }
  }

  /** A successful order never drives stock below zero. */
  lemma PlacedOrderKeepsStockNonNegative(s: Store, req: Request)
    requires NonNegativeStock(s.products) && Execute(s, req).Success?
    ensures NonNegativeStock(Execute(s, req).value.1.products)
  {
    SucceededChecks(s, req);
    PlacedOrderAppends(s, req);
    PlacedOrderStock(s, req);
    var s' := Execute(s, req).value.1;
    forall k | k in s'.products ensures s'.products[k].quantity >= 0 {
      if k in Ids(req.products) {
        var i :| 0 <= i < |req.products| && Ids(req.products)[i] == k;
        assert req.products[i].quantity <= s.products[k].quantity;
      }
    }
  }

  /** Served one after the other, two orders for the last unit of a
      product cannot both succeed: once the first has taken it, the second
      is rejected for its quantity. */
  lemma LastUnitSoldOnce(s: Store, first: Request, second: Request, k: ProductId)
    requires k in s.products && s.products[k].quantity == 1
    requires first.products == [Item(k, 1)] && second.products == [Item(k, 1)]
    requires Execute(s, first).Success? && second.customerId in s.customers
    ensures Execute(Execute(s, first).value.1, second) == Failure(InvalidQuantity)
  {
    var s' := Execute(s, first).value.1;
    PlacedOrderAppends(s, first);
    PlacedOrderStock(s, first);
    assert s'.products[k].quantity == 0;
    ExecuteOutcome(s', second);
  }

  /** The store after one call: the new state on success, the old one on
      any error. */
  function Next(s: Store, req: Request): Store {
    match Execute(s, req)
    case Success((_, s')) => s'
    case Failure(_) => s
  }

  /** The store after the requests are served one after the other. */
  function Run(s: Store, reqs: seq<Request>): Store
    decreases |reqs|
  {
    if |reqs| == 0 then s else Run(Next(s, reqs[0]), reqs[1..])
  }

  /** Serving requests one at a time keeps every product's stock at or
      above zero. */
  lemma {:induction false} RunKeepsStockNonNegative(s: Store, reqs: seq<Request>)
    requires NonNegativeStock(s.products)
    ensures NonNegativeStock(Run(s, reqs).products)
    decreases |reqs|
  {
    if |reqs| > 0 {
      if Execute(s, reqs[0]).Success? {
        PlacedOrderKeepsStockNonNegative(s, reqs[0]);
      }
      RunKeepsStockNonNegative(Next(s, reqs[0]), reqs[1..]);
    }
  }

  /** Orders already placed are never changed by later calls, so their
      line-item prices stay as they were snapshotted; the customers and the
      set of product ids stay the same too. */
  lemma {:induction false} RunKeepsPlacedOrders(s: Store, reqs: seq<Request>)
    ensures var s' := Run(s, reqs);
      && |s.orders| <= |s'.orders|
      && s'.orders[..|s.orders|] == s.orders
      && s'.customers == s.customers
      && s'.products.Keys == s.products.Keys
    decreases |reqs|
  {
    if |reqs| > 0 {
      var n := Next(s, reqs[0]);
      if Execute(s, reqs[0]).Success? {
        PlacedOrderAppends(s, reqs[0]);
      }
      RunKeepsPlacedOrders(n, reqs[1..]);
      var s' := Run(s, reqs);
      assert s'.orders[..|s.orders|] == s'.orders[..|n.orders|][..|s.orders|];
    }
  }

  /** Requests that are each rejected leave the store exactly as it was. */
  lemma {:induction false} RunOfRejectedRequests(s: Store, reqs: seq<Request>)
    requires forall i :: 0 <= i < |reqs| ==> Execute(s, reqs[i]).Failure?
    ensures Run(s, reqs) == s
    decreases |reqs|
  {
    if |reqs| > 0 {
      assert Next(s, reqs[0]) == s;
      RunOfRejectedRequests(s, reqs[1..]);
    }
  }
}

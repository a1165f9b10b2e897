/** Worked examples of the service on a one-product store. */
module Scenarios {
  import opened Wrappers
  import opened Products
  import opened Orders

  const widget := Product("P1", "Widget", 10, 5)

  /** Customer C1 exists; product P1 costs 10 and has 5 in stock. */
  const start := Store(map["P1" := widget], {"C1"}, [])

  /** Ordering 3 of P1 succeeds with one line item priced 10 and leaves 2. */
  lemma OrderWithinStock()
    ensures var order := Order("C1", [LineItem("P1", 10, 3)]);
      Execute(start, Request("C1", [Item("P1", 3)]))
        == Success((order, Store(map["P1" := widget.(quantity := 2)], {"C1"}, [order])))
  {
    var req := Request("C1", [Item("P1", 3)]);
    assert Execute(start, req).Success? by {
      ExecuteOutcome(start, req);
    }
    PlacedOrderLineItems(start, req);
    PlacedOrderAppends(start, req);
    PlacedOrderStock(start, req);
    var (order, s') := Execute(start, req).value;
    assert order.products == [LineItem("P1", 10, 3)];
    assert s'.products == map["P1" := widget.(quantity := 2)];
    assert order == Order("C1", [LineItem("P1", 10, 3)]);
    assert s' == Store(map["P1" := widget.(quantity := 2)], {"C1"}, [order]);
  }

  /** Ordering 10 of P1 fails on stock and changes nothing. */
  lemma OrderAboveStock()
    ensures Execute(start, Request("C1", [Item("P1", 10)])) == Failure(InvalidQuantity)
    ensures Message(Execute(start, Request("C1", [Item("P1", 10)])).error) == "Send a valid quantity"
  {
    ExecuteOutcome(start, Request("C1", [Item("P1", 10)]));
  }

  /** An unknown product id is reported as a missing product. */
  lemma OrderUnknownProduct()
    ensures Execute(start, Request("C1", [Item("P99", 1)])) == Failure(ProductNotExist)
    ensures Message(Execute(start, Request("C1", [Item("P99", 1)])).error) == "Product not exist"
  {
    ExecuteOutcome(start, Request("C1", [Item("P99", 1)]));
  }

  /** Naming P1 twice is also reported as a missing product, even though
      the two quantities together fit the stock. */
  lemma OrderRepeatedProduct()
    ensures Execute(start, Request("C1", [Item("P1", 1), Item("P1", 1)])) == Failure(ProductNotExist)
    ensures Message(Execute(start, Request("C1", [Item("P1", 1), Item("P1", 1)])).error) == "Product not exist"
  {
    ExecuteOutcome(start, Request("C1", [Item("P1", 1), Item("P1", 1)]));
  }

  /** A negative quantity passes every check and raises the stock. */
  lemma OrderNegativeQuantity()
    ensures Execute(start, Request("C1", [Item("P1", -3)])).Success?
    ensures Next(start, Request("C1", [Item("P1", -3)])).products["P1"].quantity == 8
  {
    var req := Request("C1", [Item("P1", -3)]);
    ExecuteOutcome(start, req);
    PlacedOrderStock(start, req);
  }

  /** An unknown customer is rejected before any product is looked at. */
  lemma OrderUnknownCustomer()
    ensures Execute(start, Request("C2", [Item("P99", 10)])) == Failure(CustomerNotExist)
    ensures Message(Execute(start, Request("C2", [Item("P99", 10)])).error) == "Customer not exist"
  {
    ExecuteOutcome(start, Request("C2", [Item("P99", 10)]));
  }
}

# Order placement, modelled in Dafny

This project models the order-placement workflow of a small orders/products/customers
API. An order request names a customer and a list of `{ id, quantity }` entries. The service
`CreateOrderService.execute` does four things in order, and each step can fail:

1. It checks that the customer exists ("Customer not exist").
2. It looks up all requested products in one batch and compares how many rows came back
   with how many entries were requested ("Product not exist").
3. It checks every entry's quantity against the stock it found ("Send a valid quantity").
4. It creates the order, with one line item per entry and the price copied from the lookup.
   It then calls `ProductsRepository.updateQuantity`, which re-reads the rows, subtracts the
   requested quantities and saves them.

Everything is a pure function over an immutable `Store`:
- `Store.products` is the products table as a `Catalog`, a map keyed by each row's own id.
- `Store.customers` is the set of known customer ids.
- `Store.orders` is the append-only list of created orders.

`Execute` returns `Result<(Order, Store), Error>`. A failure carries no store, so a rejected
request changes nothing (`Next` keeps the old store). The files are:
- `wrappers.dfy`: `Option`, `Result`.
- `lookup.dfy`: `Find`, the model of JavaScript's `Array.prototype.find`, plus `Distinct` and `Sum`.
- `products.dfy`: the products repository.
- `stock.dfy`: total stock and its conservation.
- `orders.dfy`: the service.
- `scenarios.dfy`: worked examples.

Three behaviours of the code are worth knowing:
- A request that names the same product twice is rejected as "Product not exist". The batch
  lookup returns each row once, so the count comparison fails. The quantities are not summed.
  `CountCheckIff` states exactly when the comparison passes.
- A zero or negative quantity passes every check. A negative quantity raises the stock
  (`Scenarios.OrderNegativeQuantity`).
- The decrement does not check stock again, and there is no rollback. Order creation and the
  stock update are two separate writes.

## Model

| member | source | states |
|---|---|---|
| `Lookup.Find` | src/modules/orders/services/CreateOrderService.ts:49-51 | returns the first element meeting the predicate, or nothing exactly when no element meets it |
| `Products.Save` | src/modules/products/infra/typeorm/repositories/ProductsRepository.ts:57 | after a save every saved row's id is stored and no stored id is lost |
| `Products.SaveKeepsUnsaved` | src/modules/products/infra/typeorm/repositories/ProductsRepository.ts:57 | an id that no saved row carries is neither added nor changed |
| `Products.SaveKeepsLast` | src/modules/products/infra/typeorm/repositories/ProductsRepository.ts:57 | of the saved rows that share an id, the last one is what the table holds |
| `Products.FindAllById` | src/modules/products/infra/typeorm/repositories/ProductsRepository.ts:37-41 | returns only stored rows, exactly as stored, whose id was requested; returns every requested stored row; no row appears twice; unknown ids are skipped |
| `Products.FoundCountMatchesIff` | src/modules/orders/services/CreateOrderService.ts:40-46 | the batch lookup returns as many rows as ids requested if and only if the ids are distinct and all stored |
| `Products.UpdateQuantity` | src/modules/products/infra/typeorm/repositories/ProductsRepository.ts:43-60 | the update adds no product and removes none; requested ids with no stored product are ignored |
| `Products.Requested` | src/modules/products/infra/typeorm/repositories/ProductsRepository.ts:54 | no contract of its own: the `find(...)?.quantity || 0` read of the request; `Products.RequestedOfFirst` states what it yields |
| `Products.RequestedOfFirst` | src/modules/products/infra/typeorm/repositories/ProductsRepository.ts:54 | the read yields the quantity of the first entry with the id, and 0 when no entry has it |
| `Products.Decrement` | src/modules/products/infra/typeorm/repositories/ProductsRepository.ts:50-55 | no contract of its own: one mapped row with the requested quantity subtracted; `Products.UpdateQuantitySubtractsFirst` states the resulting row |
| `Products.UpdatedRows` | src/modules/products/infra/typeorm/repositories/ProductsRepository.ts:46-55 | no contract of its own: the re-read rows, each decremented; `Products.UpdatedRowsIds` and `Products.UpdateQuantityReturnsSaved` state what they are |
| `Products.UpdatedRowsIds` | src/modules/products/infra/typeorm/repositories/ProductsRepository.ts:46-55 | the decremented rows carry exactly the lookup's ids; each is stored, was requested and appears once |
| `Products.UpdateQuantityKeepsOthers` | src/modules/products/infra/typeorm/repositories/ProductsRepository.ts:46-57 | products whose ids are not requested keep their rows unchanged |
| `Products.UpdateQuantitySubtractsFirst` | src/modules/products/infra/typeorm/repositories/ProductsRepository.ts:50-55 | a requested stored product keeps its id, name and price, and its quantity drops by the quantity of the first request entry with its id |
| `Products.UpdateQuantityDistinct` | src/modules/products/infra/typeorm/repositories/ProductsRepository.ts:50-57 | when the request names distinct stored products, each one's row becomes its old row with the quantity lowered by exactly the requested amount |
| `Products.UpdateQuantityReturnsSaved` | src/modules/products/infra/typeorm/repositories/ProductsRepository.ts:50-59 | the returned rows follow the lookup order, and each is exactly the row saved under its id |
| `Products.Create` | src/modules/products/infra/typeorm/repositories/ProductsRepository.ts:19-29 | adds exactly one row, under the new id, with the given name, price and quantity; returns that row; other rows are unchanged |
| `Products.FindByName` | src/modules/products/infra/typeorm/repositories/ProductsRepository.ts:31-35 | returns a stored row with that name, or nothing exactly when no row has the name |
| `Stock.TotalStockAfterDecrement` | src/modules/products/infra/typeorm/repositories/ProductsRepository.ts:50-57 | when distinct stored products each lose their requested quantity and nothing else changes, total stock drops by the sum of those quantities |
| `Orders.FoundAsStored` | src/modules/orders/services/CreateOrderService.ts:40-51 | finding a requested, stored id in the batch-lookup result yields the row as stored |
| `Orders.QuantityInDatabase` | src/modules/orders/services/CreateOrderService.ts:49-53 | no contract of its own: the `?.quantity || 0` read of the batch lookup; `Orders.InDatabaseAsStored` states what it yields |
| `Orders.PriceInDatabase` | src/modules/orders/services/CreateOrderService.ts:62 | no contract of its own: the `?.price || 0` read of the batch lookup; `Orders.InDatabaseAsStored` states what it yields |
| `Orders.InDatabaseAsStored` | src/modules/orders/services/CreateOrderService.ts:49-62 | both reads yield the stored quantity or price for a requested, stored product, and 0 for any other id |
| `Orders.QuantitiesAvailable` | src/modules/orders/services/CreateOrderService.ts:48-56 | no contract of its own: the `forEach` stock check; `Orders.StockCheckIff` states when it passes |
| `Orders.BuildLineItems` | src/modules/orders/services/CreateOrderService.ts:60-64 | no contract of its own: the line items of the new order; `Orders.PlacedOrderLineItems` states their contents |
| `Orders.CountCheckIff` | src/modules/orders/services/CreateOrderService.ts:40-46 | the count check passes if and only if no product id is requested twice and every requested id is stored |
| `Orders.StockCheckIff` | src/modules/orders/services/CreateOrderService.ts:48-56 | once all products exist, the per-item check passes if and only if every requested quantity is at most the stored stock |
| `Orders.Execute` | src/modules/orders/services/CreateOrderService.ts:31-70 | no contract of its own: the service call; `Orders.ExecuteOutcome`, `Orders.SucceededChecks` and the `Orders.PlacedOrder*` lemmas state its outcome and its effect on the store |
| `Orders.Message` | src/modules/orders/services/CreateOrderService.ts:37-54 | no contract of its own: the text of each error; the failing scenarios state their errors through it |
| `Orders.ExecuteOutcome` | src/modules/orders/services/CreateOrderService.ts:32-56 | the first failing check decides the result, in the order customer, then product existence and distinctness, then stock; a request passing all three succeeds; each case is an if-and-only-if against the store |
| `Orders.SucceededChecks` | src/modules/orders/services/CreateOrderService.ts:36-56 | a successful request named distinct stored products, each with enough stock |
| `Orders.PlacedOrderLineItems` | src/modules/orders/services/CreateOrderService.ts:58-65 | the order belongs to the requesting customer; it has one line item per request entry, in request order, with that entry's id and quantity and the product's price as stored at lookup |
| `Orders.PlacedOrderAppends` | src/modules/orders/services/CreateOrderService.ts:58-67 | on success the customers and the set of product ids are unchanged, and the new order is appended after the earlier ones |
| `Orders.PlacedOrderStock` | src/modules/orders/services/CreateOrderService.ts:58-67 | on success each requested product loses exactly its requested quantity and nothing else about it changes; every product not requested keeps its row |
| `Orders.PlacedOrderConservesStock` | src/modules/orders/services/CreateOrderService.ts:58-67 | total stock removed by a successful order equals the sum of its line-item quantities |
| `Orders.PlacedOrderKeepsStockNonNegative` | src/modules/orders/services/CreateOrderService.ts:48-67 | a successful order keeps every product's stock at or above zero |
| `Orders.LastUnitSoldOnce` | src/modules/orders/services/CreateOrderService.ts:48-67 | when two one-unit orders for a product with one unit left are served one after the other, the second is rejected with "Send a valid quantity" |
| `Orders.Next` | src/modules/orders/services/CreateOrderService.ts:31-70 | no contract of its own: the store after one call, unchanged when the call throws before its writes; the `Orders.Run*` lemmas state its effect |
| `Orders.Run` | src/modules/orders/services/CreateOrderService.ts:31-70 | no contract of its own: calls served one after the other; `Orders.RunKeepsStockNonNegative`, `Orders.RunKeepsPlacedOrders` and `Orders.RunOfRejectedRequests` state its effect |
| `Orders.RunKeepsStockNonNegative` | src/modules/orders/services/CreateOrderService.ts:48-67 | serving any sequence of requests one at a time keeps all stock at or above zero |
| `Orders.RunKeepsPlacedOrders` | src/modules/orders/services/CreateOrderService.ts:58-67 | later requests never alter earlier orders or their price snapshots; customers and the product id set stay the same |
| `Orders.RunOfRejectedRequests` | src/modules/orders/services/CreateOrderService.ts:32-56 | a sequence of requests that are each rejected leaves the store exactly as it was |
| `Scenarios.OrderWithinStock` | src/modules/orders/services/CreateOrderService.ts:31-70 | ordering 3 of a product priced 10 with 5 in stock gives one line item at price 10 and leaves 2 |
| `Scenarios.OrderAboveStock` | src/modules/orders/services/CreateOrderService.ts:48-56 | ordering more than the stock fails with "Send a valid quantity" |
| `Scenarios.OrderUnknownProduct` | src/modules/orders/services/CreateOrderService.ts:40-46 | an unknown product id fails with "Product not exist" |
| `Scenarios.OrderRepeatedProduct` | src/modules/orders/services/CreateOrderService.ts:40-46 | naming one product twice fails with "Product not exist" even when the summed quantity fits |
| `Scenarios.OrderNegativeQuantity` | src/modules/orders/services/CreateOrderService.ts:48-67 | a negative quantity is accepted and raises the stock |
| `Scenarios.OrderUnknownCustomer` | src/modules/orders/services/CreateOrderService.ts:32-38 | an unknown customer fails with "Customer not exist" before any product is looked up |

## Left out

- TypeORM (`getRepository`, `findByIds`, `findOne`, `save`), decorators, tsyringe injection and `async`/`await` are not modelled. The repositories are pure functions over the store.
- Concurrency: each call is modelled as one step on one store. The source reads the stock, checks it, then writes it back, and that sequence can race. The model claims no atomic conditional decrement and no serializability.
- No rollback or compensation when the stock update fails after the order is written, and no `PartialCommitFailure` or storage-failure outcome: the source does none of this.
- No positive-quantity check, no summing of repeated ids, and no naming of the missing ids in the error: the source does none of this either.
- The product id that the database generates on `create` is a parameter, and `Create` requires it to be unused.
- Orders have no id of their own. An order is identified by its position in `Store.orders`. The orders repository is modelled only as an append, and the customers repository only as a membership test on a set of ids.
- Timestamps (`created_at`, `updated_at`) and the `order_products` relation are left out. `AppError` becomes the three-variant `Error` with its message strings.
- `Products.FindAllById` returns rows in the order in which their ids first appear in the request. The database's row order is unspecified, and the service only ever looks rows up by id.
- `Products.FindByName` may return any row with the name. Which row `findOne` returns when several share a name is up to the database.
- Prices and quantities are unbounded integers. JavaScript numbers are IEEE-754 doubles: they can also be fractional or `NaN`, which the model ignores, and integers above 2^53 in magnitude are not exact, so `product.quantity - (...)` (`ProductsRepository.ts:53-54`) rounds in that range. The exact subtraction in `Products.UpdateQuantitySubtractsFirst`, `Products.UpdateQuantityDistinct` and `Orders.PlacedOrderStock`, and the exact totals in `Stock.TotalStockAfterDecrement` and `Orders.PlacedOrderConservesStock`, hold for the source only while stock and quantities stay below 2^53 in magnitude. For integers, `x || 0` is the same as `x`.
- The customers repository, the orders repository and `AppError` are not part of this model beyond what is described above.

# Order creation with stock checks

A Dafny model of `CreateOrderService.execute`, the order-creation workflow of a
small store back end. A request names a customer and a list of product lines
(product id and quantity). The workflow:

1. rejects the request with *customer not found* when the customer id does not resolve;
2. fetches the stock records of the requested products (`findAllById`);
3. rejects with *product not found* when the number of fetched records differs
   from the number of request lines;
4. scans every fetched record and rejects with *insufficient stock* when some
   matched request line asks for more than the record holds;
5. builds one priced order line per fetched record: price copied from the
   record, quantity copied from the first request line for that product
   (`|| 0` when none matches);
6. sends the new quantities (stock minus requested) to `updateQuantity`;
7. creates the order for the customer with the priced lines and returns it.

Modules, leaf first:

- `Wrappers` (`wrappers.dfy`): `Option` and `Result`.
- `Seqs` (`seqs.dfy`): distinctness, element sets, sums of a measure and their
  permutation and pointwise lemmas.
- `Domain` (`domain.dfy`): request lines, stock records, order lines, quantity
  updates, orders, the three errors, and the repositories' `State`
  (customer set, catalog map `id -> (price, quantity)`, order list).
- `Repositories` (`repositories.dfy`): the collaborators. `findAllById` is
  given by the contract `IsFetchOf` the workflow relies on: one record per
  requested id that exists, no id twice, each record as the catalog holds it,
  nothing unrequested, order left open. `FindAllById` is one lookup proved to
  meet it. `UpdateQuantity` is `updateQuantity`; `NewOrder` is the ledger's
  `create`.
- `StockValidator` (`validator.dfy`): the pure steps 3-6 and their properties.
- `OrderWorkflow` (`workflow.dfy`): `Execute` takes the fetched records as a
  parameter, so every property holds for any lookup meeting `IsFetchOf`. It
  returns the result and the state-changing calls in the order they are issued.
  `Commit` applies those calls. `CreateOrder` runs the workflow with
  `FindAllById` against a `State`.
- `Scenarios` (`scenarios.dfy`): concrete runs on a one-product catalog.

Behaviour of the code worth knowing:

- The count check compares with the number of request LINES, not with the
  number of distinct product ids. A request that names an existing product twice
  is therefore rejected as *product not found* (`CountCheckPassesIff`,
  `Scenarios.RepeatedProduct`). No separate duplicate-product error exists.
- Order lines come in the order `findAllById` returns the records, not in
  request order. Under the contract they are a permutation of the request
  (`SuccessLinesAnswerRequest`).
- Requested quantities are not checked for sign. A negative quantity passes the
  scan and raises the stock (`Scenarios.NegativeQuantityRaisesStock`).
- The stock update and the order creation are two separate calls with no
  transaction. The model issues them in that order and claims no atomicity.

## Model

| member | source | states |
|---|---|---|
| Repositories.FindAllByIdMeetsContract | src/modules/orders/services/CreateOrderService.ts:38-44 | the lookup returns one record per requested id present in the catalog, no id twice, each equal to the catalog's record, and nothing that was not requested |
| Repositories.UpdateQuantity | src/modules/orders/services/CreateOrderService.ts:72-88 | the update keeps the catalog's key set and every price, leaves unlisted products unchanged, and gives each listed product its listed quantity when no product is listed twice |
| Repositories.NewOrder | src/modules/orders/services/CreateOrderService.ts:90-93 | the created order belongs to the given customer, carries exactly the given lines, and, when every earlier order's id is its position, has an id no earlier order has |
| StockValidator.FindRequest | src/modules/orders/services/CreateOrderService.ts:53 | `find` yields the first request line naming the product, or nothing exactly when no line names it |
| StockValidator.OrderedQuantity | src/modules/orders/services/CreateOrderService.ts:62 | the quantity an order line gets is that of the first request line naming the product, or 0 when no line names it |
| StockValidator.Fits | src/modules/orders/services/CreateOrderService.ts:55 | a record raises no availability failure exactly when the first request line naming it, if any, asks for no more than its stock |
| StockValidator.PriceLines | src/modules/orders/services/CreateOrderService.ts:52-64 | one order line per fetched record, in fetch order, with the record's id and price and the quantity ordered for it |
| StockValidator.SuccessLinesInFetchOrder | src/modules/orders/services/CreateOrderService.ts:52-70 | on success the returned lines follow the fetched records one for one: same product, the record's price, the quantity ordered for it |
| StockValidator.UpdateFor | src/modules/orders/services/CreateOrderService.ts:74-86 | the update for one record keeps its id and lowers its stock by the quantity ordered for it, which leaves it unchanged when no request line matches |
| StockValidator.ScanAvailability | src/modules/orders/services/CreateOrderService.ts:50-57 | the availability flag stays true exactly when every fetched record fits its matched request line, so every record is scanned before the flag is tested |
| StockValidator.Validate | src/modules/orders/services/CreateOrderService.ts:46-70 | product-not-found exactly when the counts differ; insufficient-stock exactly when the counts agree and some record does not fit; otherwise the priced lines |
| StockValidator.NewQuantities | src/modules/orders/services/CreateOrderService.ts:72-88 | one update per fetched record, for the same ids in the same order, each equal to the record's stock minus the quantity its order line carries (so unchanged when no request line matches) |
| StockValidator.EveryFetchedRecordIsRequested | src/modules/orders/services/CreateOrderService.ts:74-86 | under the lookup contract every fetched record has a matching request line, so the `|| 0` default and the unchanged-quantity branch are unreachable |
| StockValidator.CountCheckPassesIff | src/modules/orders/services/CreateOrderService.ts:46-48 | the count check passes exactly when every requested product exists and no product is requested twice |
| StockValidator.ValidateSucceedsIff | src/modules/orders/services/CreateOrderService.ts:46-70 | validation succeeds exactly when no product is requested twice and every requested product exists with at least the requested stock |
| StockValidator.OneShortLineRejects | src/modules/orders/services/CreateOrderService.ts:50-70 | when the counts agree, one line asking for more than its stock yields insufficient-stock whatever the other lines contain |
| StockValidator.SuccessLinesAnswerRequest | src/modules/orders/services/CreateOrderService.ts:52-64 | on success the order lines, read as (product, quantity), are a permutation of the request lines, and each line's price is the catalog price at fetch time |
| StockValidator.DecrementEqualsOrderedTotal | src/modules/orders/services/CreateOrderService.ts:52-88 | the total stock decrement over the fetched records equals the total quantity of the order lines |
| StockValidator.DecrementEqualsRequestedTotal | src/modules/orders/services/CreateOrderService.ts:46-88 | on success the total stock decrement equals the total requested quantity |
| StockValidator.NewQuantitiesNonNegative | src/modules/orders/services/CreateOrderService.ts:50-88 | once the availability scan passes, every new quantity is at least zero |
| OrderWorkflow.Execute | src/modules/orders/services/CreateOrderService.ts:31-96 | success exactly when the customer exists and validation passes; an unknown customer gives customer-not-found; validation errors pass through unchanged; a rejection issues no call; success issues the stock update and then the order creation, for the resolved customer and the priced lines |
| OrderWorkflow.CreateOrder | src/modules/orders/services/CreateOrderService.ts:31-96 | success exactly when the customer exists, no product repeats and all are in stock; each rejection names the first failing check and leaves the state unchanged |
| OrderWorkflow.RejectionChangesNothing | src/modules/orders/services/CreateOrderService.ts:32-70 | every rejection leaves customers, catalog and orders as they were |
| OrderWorkflow.UnrequestedUntouched | src/modules/orders/services/CreateOrderService.ts:72-88 | a product the request does not name keeps its catalog record |
| OrderWorkflow.RequestedDecremented | src/modules/orders/services/CreateOrderService.ts:72-88 | after a passed validation each requested product's quantity drops by exactly its requested quantity |
| OrderWorkflow.UpdatedCatalog | src/modules/orders/services/CreateOrderService.ts:72-88 | the stock update changes exactly the requested products, by their requested quantities, and no price |
| OrderWorkflow.SuccessCommit | src/modules/orders/services/CreateOrderService.ts:72-95 | on success the two calls, applied in order, update the catalog and append the returned order, touching nothing else |
| OrderWorkflow.SuccessEffects | src/modules/orders/services/CreateOrderService.ts:31-96 | on success: requested stock drops by the requested quantities, other products and all prices stay, one order is appended for the customer, its lines answer the request at catalog prices |
| OrderWorkflow.UpdateKeepsOneStockNonNegative | src/modules/orders/services/CreateOrderService.ts:55-88 | after a passed validation a product whose stock was non-negative still has non-negative stock |
| OrderWorkflow.UpdateKeepsStockNonNegative | src/modules/orders/services/CreateOrderService.ts:55-88 | after a passed validation no stock quantity goes below zero |
| OrderWorkflow.RunPreservesValid | src/modules/orders/services/CreateOrderService.ts:31-96 | for any lookup meeting the contract, non-negative stock, position-numbered orders and known customers are preserved, and the new order's id is fresh |
| OrderWorkflow.CreateOrderPreservesValid | src/modules/orders/services/CreateOrderService.ts:31-96 | the same invariant and id freshness for the workflow with the catalog's own lookup |
| Scenarios.SellThenOversell | src/modules/orders/services/CreateOrderService.ts:50-95 | 4 of 10 units sell at the catalog price leaving 6; a following request for 7 is rejected for stock and leaves 6 |
| Scenarios.UnknownCustomer | src/modules/orders/services/CreateOrderService.ts:32-36 | an unknown customer is rejected and nothing changes |
| Scenarios.UnknownProduct | src/modules/orders/services/CreateOrderService.ts:42-48 | a request with one unknown product is rejected as product-not-found and no stock changes |
| Scenarios.RepeatedProduct | src/modules/orders/services/CreateOrderService.ts:46-48 | two lines for the same existing product are rejected as product-not-found |
| Scenarios.NegativeQuantityRaisesStock | src/modules/orders/services/CreateOrderService.ts:55-79 | a negative requested quantity is accepted and raises the stock |

## Left out

- Dependency injection and constructor wiring: framework plumbing. The repositories are the `State` value and the `fetched` parameter.
- `async`/`await` and promises: the workflow is sequential and is modelled as straight-line code.
- Error message strings: the three rejections are the constructors of `Error`.
- The repository implementations are not part of this model. `findAllById` is the `IsFetchOf` contract plus one implementation; `updateQuantity` is assumed to set the quantity of each listed existing product and to ignore unknown ids; the ledger's id assignment is modelled as the order's position in the ledger.
- Concurrency, transactions and rollback: the code issues the stock update and the order creation as two independent calls. A failure between them, races between invocations, and a transaction-failed error are not modelled.
- JavaScript number semantics: prices are whole cents and only copied; quantities are mathematical integers, so NaN and fractional quantities are not modelled. For integers, `quantity || 0` equals the quantity, since a quantity of 0 becomes 0 either way.
- Positivity of requested quantities: the code does not check it, so the model does not require it.

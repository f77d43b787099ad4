# Restaurant order service: the order table in Dafny

The service (`Restaurent/apps/app.py`) keeps every order in one module-level
mapping `ORDERS` from integer order id to a record `{"category", "status"}`.
Five HTTP handlers read or change that mapping in place:

- get one order (`GET /order/<id>`): 200 with the stored record, or 404;
- list all orders (`GET /orders`): 200 with the whole mapping;
- create an order (`POST /order`): stores `{"category": c, "status": "Preparing"}`
  under the id `len(ORDERS) + 1` and answers 201, or 500 when the body has no
  `category`;
- update an order (`PUT /order/<id>`): replaces the status of a present order and
  answers 200; 404 for an absent id; 500 for a present id and no `status`;
- delete an order (`DELETE /order/<id>`): removes a present order and answers 200,
  or 404.

The model has three modules.

- `OrderModel` (`order_model.dfy`): the values. `Order` is a record, `Store` is
  `map<int, Order>`, `Json` lists the five response bodies the handlers send
  (`{"category", "status"}`, the id-to-order table, `{"order_id", "status"}`,
  `{"status"}`, `{"error"}`) and `Response` pairs one with a status code. A parsed
  request body is the `Option<string>` of the one field the handler reads, so a
  missing key (or a body that cannot be read) is `None`. One function per
  handler gives the new table and the response. `Apply` routes a `Request` and
  `Run` plays a sequence of requests, each on the table the previous one left.
- `OrderService` (`order_store.dfy`): the class `OrderStore` with the field
  `orders`, the state the handlers share. Each handler is a method; the three
  that change the table have `modifies this` and state the new table and the
  response in terms of `old(orders)` and the `OrderModel` function.
- `OrderProperties` (`order_properties.dfy`): what the handlers promise, alone
  and in sequence, proved as lemmas.

The id rule is modelled as written: a create writes at `|orders| + 1` without
looking whether that key is taken. On a table whose keys are exactly `1..n`
(`Dense`) the key is always fresh and the table grows by one. After an order
other than the highest has been deleted, the next create lands on the highest
live id, overwrites that order and the table does not grow (`CreateCollision`,
`DeleteThenCreateCollides`, `CollisionExample`). Ids are therefore reused and
can even destroy live orders; the model reproduces this rather than correcting it.

`if order:` in `get_single_order` tests truthiness. Every record the service
writes is a non-empty dict, so the model reads it as a membership test; this
assumes the initial contents of `ORDERS` hold no empty record.

## Model

| member | source | states |
|---|---|---|
| `OrderService.OrderStore.constructor` | Restaurent/apps/app.py:4 | the table starts as the given initial mapping, whose contents are not fixed |
| `OrderService.OrderStore.GetSingleOrder` | Restaurent/apps/app.py:30-38 | a present id answers 200 with exactly the stored record, an absent id 404 `{"error": "Order not found"}`; the table is not changed |
| `OrderService.OrderStore.GetAllOrders` | Restaurent/apps/app.py:54-56 | answers 200 with the whole current table; the table is not changed |
| `OrderService.OrderStore.CreateOrder` | Restaurent/apps/app.py:75-84 | the new table and the response are those of `OrderModel.CreateOrder`: with a category, `Order(category, "Preparing")` is written at `|old table| + 1`; without one the table is unchanged and the answer is 500 |
| `OrderService.OrderStore.UpdateOrder` | Restaurent/apps/app.py:103-114 | the new table and the response are those of `OrderModel.UpdateOrder`: a present id with a status gets that status and nothing else changes; otherwise the table is unchanged |
| `OrderService.OrderStore.DeleteOrder` | Restaurent/apps/app.py:130-138 | the new table and the response are those of `OrderModel.DeleteOrder`; the new table is the old one without the id |
| `OrderProperties.GetOrderSpec` | Restaurent/apps/app.py:32-38 | the answer is 200 if and only if the id is present; then it carries exactly the stored record, otherwise it is 404 `{"error": "Order not found"}` |
| `OrderProperties.ListOrdersSpec` | Restaurent/apps/app.py:56 | the listing is 200 and holds exactly the stored ids, each with its stored record |
| `OrderProperties.CreateOrderSpec` | Restaurent/apps/app.py:77-84 | with a category: the keys become the old keys plus `|s| + 1`, that key holds `Order(category, "Preparing")`, every other entry is unchanged and the answer is 201 `{"order_id": |s| + 1, "status": "Order received"}`; without one: 500 `{"error": "Internal Server Error"}` and the table unchanged |
| `OrderProperties.UpdateOrderSpec` | Restaurent/apps/app.py:105-114 | absent id: 404 and table unchanged whatever the body; present id without status: 500 and table unchanged; present id with status: same keys, that order keeps its category and gets the status, all other entries unchanged, answer 200 `{"order_id": id, "status": "Order updated"}` |
| `OrderProperties.DeleteOrderSpec` | Restaurent/apps/app.py:132-138 | present id: that key alone is removed, the table shrinks by one, every remaining entry is unchanged, answer 200 `{"status": "Order deleted"}`; absent id: 404 and table unchanged |
| `OrderProperties.CreateFresh` | Restaurent/apps/app.py:78-79 | when `|s| + 1` is not a key, a create grows the table by exactly one and keeps every existing entry |
| `OrderProperties.CreateCollision` | Restaurent/apps/app.py:78-79 | when `|s| + 1` is already a key, a create overwrites that entry with the new order, keeps the same keys and size and leaves every other entry |
| `OrderProperties.CreateKeepsDense` | Restaurent/apps/app.py:78-79 | on a table whose keys are exactly `1..|s|`, the new id is fresh and the keys afterwards are exactly `1..|s| + 1` |
| `OrderProperties.DeleteTopKeepsDense` | Restaurent/apps/app.py:132-133 | deleting the highest id of such a table keeps its keys exactly `1..n` |
| `OrderProperties.DeleteThenCreateCollides` | Restaurent/apps/app.py:78-79 | after deleting any id but the highest from such a table, the next create's id is the highest live id, so that live order is overwritten and the table does not grow |
| `OrderProperties.CollisionExample` | Restaurent/apps/app.py:78-79 | with orders 1 and 2, deleting 1 and creating answers id 2 and leaves only the new order: order 2 is lost |
| `OrderProperties.StatusCodes` | Restaurent/apps/app.py:30-141 | every handler answers 200, 201, 404 or 500; a 404 or 500 leaves the table unchanged; 201 comes exactly from a create whose body has a category |
| `OrderProperties.ReadsKeepStore` | Restaurent/apps/app.py:30-56 | get and list never change the table |
| `OrderProperties.CreateThenGet` | Restaurent/apps/app.py:77-81 | a get of the id a create returned answers 200 with the submitted category and status "Preparing" |
| `OrderProperties.UpdateThenGet` | Restaurent/apps/app.py:105-106 | after updating a present order, a get shows the new status and the old category |
| `OrderProperties.DeleteThenGet` | Restaurent/apps/app.py:132-133 | after a delete of an id, present or not, a get of it is 404 |
| `OrderProperties.CreatesKeepDense` | Restaurent/apps/app.py:78-79 | a run of creates on a table with keys exactly `1..n` keeps the keys exactly `1..size`, grows it by one per create and keeps every earlier entry |
| `OrderProperties.CreatesOnDense` | Restaurent/apps/app.py:77-81 | in such a run the `i`-th create is answered 201 with id `n + i + 1` and at the end that id holds its own category with status "Preparing" |
| `OrderProperties.CreatesFromEmpty` | Restaurent/apps/app.py:77-81 | from an empty table, N creates and no deletes answer ids 1..N in order, the keys are exactly 1..N and the listing has N entries |
| `OrderProperties.PizzaScenario` | Restaurent/apps/app.py:77-135 | on an empty table: create "Pizza" answers id 1 and get shows it "Preparing"; update to "Ready" answers 200 and get shows "Ready"; delete answers 200, get is 404 and the table is empty |
| `OrderProperties.MissingOnEmpty` | Restaurent/apps/app.py:32-38 | get of id 999 on an empty table is 404 |

## Left out

- Flask routing, JSON parsing and serialisation (`jsonify`) and CORS: a request
  reaches the model already routed, with its body reduced to the one field read.
  JSON object keys of the listing are integers here, not the strings JSON shows,
  and the listing's key order is not modelled (a Dafny map has none).
- Field values are strings; a JSON body whose `category` or `status` is a number,
  `null` or an object is not modelled.
- The `/` route returns a fixed welcome text and never touches the table; it is
  not part of this model.
- Logging (every `log.*` call and `Restaurent/logging/logging_module.py`): a
  diagnostic side channel that does not affect any result.
- The catch-all `except Exception` paths reachable only through library failures
  (serialisation errors and the like). The 500 answers the handlers' own code
  raises, a missing `category` or `status`, are modelled.
- Concurrency: the shared dict has no lock and check-then-act sequences can race
  between requests; every handler is one atomic step here.
- The initial contents of `ORDERS` come from a `constants` module that is not
  part of this model; the constructor takes any initial table, and the sequence
  lemmas start from an empty or a dense table.
- The update writes the new status into the stored dict in place; the model
  replaces the record value. No handler hands out a live reference to a stored
  record, so no caller can observe the difference.

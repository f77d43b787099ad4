/**
 The service's shared order table, updated in place by the request handlers.

 `OrderStore.orders` is the module-level mapping; each handler method changes it
 (or not) exactly as the matching function of `OrderModel` says, and returns the
 response that function gives. Every handler runs as one atomic step.
 */
module OrderService {
  import opened OrderModel

  class OrderStore {
    var orders: Store

    /** The table as loaded at start-up; its contents are not fixed here. */
    constructor (initial: Store)
      ensures orders == initial
    {
      orders := initial;
    }

    /** GET /order/<id>: reads the table, never changes it. */
    method GetSingleOrder(id: nat) returns (r: Response)
      ensures id in orders ==> r == Response(200, OrderObject(orders[id]))
      ensures id !in orders ==> r == NotFound
      ensures r == GetOrder(orders, id)
    {
      if id in orders {
        r := Response(200, OrderObject(orders[id]));
      } else {
        r := NotFound;
      }
    }

    /** GET /orders: answers with the whole table, never changes it. */
    method GetAllOrders() returns (r: Response)
      ensures r.code == 200 && r.body == OrderTable(orders)
      ensures r == ListOrders(orders)
    {
      r := Response(200, OrderTable(orders));
    }

    /** POST /order: writes `Order(category, "Preparing")` at `|orders| + 1`. */
    method CreateOrder(category: Option<string>) returns (r: Response)
      modifies this
      ensures Step(orders, r) == OrderModel.CreateOrder(old(orders), category)
      ensures category.None? ==> orders == old(orders) && r == ServerError
      ensures category.Some? ==>
        orders == old(orders)[|old(orders)| + 1 := Order(category.value, Preparing)]
    {
      var orderId := |orders| + 1;
      match category {
        case None =>
          r := ServerError;
        case Some(c) =>
          orders := orders[orderId := Order(c, Preparing)];
          r := Response(201, OrderAck(orderId, OrderReceived));
      }
    }

    /** PUT /order/<id>: replaces the status of a present order. */
    method UpdateOrder(id: nat, status: Option<string>) returns (r: Response)
      modifies this
      ensures Step(orders, r) == OrderModel.UpdateOrder(old(orders), id, status)
      ensures id in old(orders) && status.Some? ==>
        orders == old(orders)[id := old(orders)[id].(status := status.value)]
      ensures id !in old(orders) || status.None? ==> orders == old(orders)
    {
      if id in orders {
        match status {
          case None =>
            r := ServerError;
          case Some(st) =>
            orders := orders[id := orders[id].(status := st)];
            r := Response(200, OrderAck(id, OrderUpdated));
        }
      } else {
        r := NotFound;
      }
    }

    /** DELETE /order/<id>: removes a present order. */
    method DeleteOrder(id: nat) returns (r: Response)
      modifies this
      ensures Step(orders, r) == OrderModel.DeleteOrder(old(orders), id)
      ensures orders == old(orders) - {id}
    {
      if id in orders {
        orders := orders - {id};
        r := Response(200, StatusOnly(OrderDeleted));
      } else {
        r := NotFound;
      }
    }
  }
}

/**
 The order table of the restaurant order service, as values.

 The service keeps one mapping from integer order id to an order record
 `{"category": ..., "status": ...}`. Each HTTP handler reads or changes that
 mapping and answers with a status code and a JSON body. Here the mapping is a
 `Store`, a parsed JSON body is the `Option` of the one field the handler reads,
 and an answer is a `Response`. One function per handler gives the new store and
 the response; `Apply` and `Run` play requests one after another.
 */
module OrderModel {

  datatype Option<+T> = None | Some(value: T)

  /** One stored record: `{"category": category, "status": status}`. */
  datatype Order = Order(category: string, status: string)

  /** The order table: order id to record. */
  type Store = map<int, Order>

  const Preparing := "Preparing"
  const OrderReceived := "Order received"
  const OrderUpdated := "Order updated"
  const OrderDeleted := "Order deleted"
  const OrderNotFound := "Order not found"
  const InternalServerError := "Internal Server Error"

  /** The JSON bodies the handlers send back. */
  datatype Json =
    | OrderObject(order: Order)               // {"category": c, "status": s}
    | OrderTable(orders: Store)               // {id: {"category": c, "status": s}, ...}
    | OrderAck(orderId: int, status: string)  // {"order_id": n, "status": m}
    | StatusOnly(status: string)              // {"status": m}
    | ErrorObject(error: string)              // {"error": m}

  datatype Response = Response(code: int, body: Json)

  const NotFound := Response(404, ErrorObject(OrderNotFound))
  const ServerError := Response(500, ErrorObject(InternalServerError))

  /** The store after a handler ran, and what the handler answered. */
  datatype Step = Step(store: Store, response: Response)

  /** The id a create assigns: the number of stored orders plus one. */
  function NewId(s: Store): int
  {
    |s| + 1
  }

  /** GET /order/<id>: the stored record, or 404 when the id is absent. */
  function GetOrder(s: Store, id: int): Response
  {
    if id in s then Response(200, OrderObject(s[id])) else NotFound
  }

  /** GET /orders: the whole table, always 200. */
  function ListOrders(s: Store): Response
  {
    Response(200, OrderTable(s))
  }

  /**
   POST /order. The new id is `NewId(s)`, written whether or not that key is
   already present. A body without `category` fails before the write.
   */
  function CreateOrder(s: Store, category: Option<string>): Step
  {
    match category
    case None => Step(s, ServerError)
    case Some(c) =>
      var id := NewId(s);
      Step(s[id := Order(c, Preparing)], Response(201, OrderAck(id, OrderReceived)))
  }

  /**
   PUT /order/<id>. Membership is tested first, so an absent id is 404 whatever
   the body holds; a present id with no `status` in the body is 500.
   */
  function UpdateOrder(s: Store, id: int, status: Option<string>): Step
  {
    if id !in s then Step(s, NotFound)
    else match status
      case None => Step(s, ServerError)
      case Some(st) =>
        Step(s[id := s[id].(status := st)], Response(200, OrderAck(id, OrderUpdated)))
  }

  /** DELETE /order/<id>: removes the id when present, otherwise 404. */
  function DeleteOrder(s: Store, id: int): Step
  {
    if id in s then
      Step(s - {id}, Response(200, StatusOnly(OrderDeleted)))
    else
      Step(s, NotFound)
  }

  /** A request as the handlers see it once routing and body parsing are done. */
  datatype Request =
    | GetOne(id: nat)
    | GetAll
    | Create(category: Option<string>)
    | Update(id: nat, status: Option<string>)
    | Delete(id: nat)

  /** Routes a request to its handler. */
  function Apply(s: Store, req: Request): Step
  {
    match req
    case GetOne(id) => Step(s, GetOrder(s, id))
    case GetAll => Step(s, ListOrders(s))
    case Create(c) => CreateOrder(s, c)
    case Update(id, st) => UpdateOrder(s, id, st)
    case Delete(id) => DeleteOrder(s, id)
  }

  /** The final store and the responses, in order, of a run of requests. */
  datatype Trace = Trace(store: Store, responses: seq<Response>)

  /** Handles the requests one at a time, each on the store the previous one left. */
  function Run(s: Store, reqs: seq<Request>): (t: Trace)
    ensures |t.responses| == |reqs|
    decreases |reqs|
  {
    if reqs == [] then Trace(s, [])
    else
      var step := Apply(s, reqs[0]);
      var rest := Run(step.store, reqs[1..]);
      Trace(rest.store, [step.response] + rest.responses)
  }

  /** One create request per category, in order, each with its category present. */
  function Creates(cs: seq<string>): seq<Request>
  {
    seq(|cs|, i requires 0 <= i < |cs| => Create(Some(cs[i])))
  }
}

/**
 What the handlers of `OrderModel` promise, alone and in sequence.

 The id a create assigns is the table's size plus one. On a table whose keys are
 exactly `1..|s|` (`Dense`) that key is always fresh; after an order other than
 the highest one is deleted it is not, and the create overwrites a live order.
 */
module OrderProperties {
  import opened OrderModel

  /** Every key of the table is one of `1..|s|` and every one of those is a key. */
  ghost predicate Dense(s: Store)
  {
    forall k :: k in s <==> 1 <= k <= |s|
  }

  /** `big` holds every entry of `small` with the same record. */
  ghost predicate Extends(big: Store, small: Store)
  {
    forall k :: k in small ==> k in big && big[k] == small[k]
  }

  /** Holding every entry is transitive. */
  lemma ExtendsTransitive(a: Store, b: Store, c: Store)
    requires Extends(a, b) && Extends(b, c)
    ensures Extends(a, c)
  {
  }

  // ----- each handler on its own -----

  /** A get answers 200 with exactly the stored record iff the id is present, else 404. */
  lemma GetOrderSpec(s: Store, id: int)
    ensures GetOrder(s, id).code == 200 <==> id in s
    ensures id in s ==> GetOrder(s, id) == Response(200, OrderObject(s[id]))
    ensures id !in s ==> GetOrder(s, id) == NotFound
  {
  }

  /** The listing answers 200 with every stored id and its record, and nothing else. */
  lemma ListOrdersSpec(s: Store)
    ensures var r := ListOrders(s);
      && r.code == 200 && r.body.OrderTable?
      && r.body.orders.Keys == s.Keys
      && forall k :: k in s ==> r.body.orders[k] == s[k]
  {
  }

  /**
   A create with a category stores `Order(category, "Preparing")` under
   `NewId(s)`, leaves every other entry alone and answers 201 with that id;
   without a category it answers 500 and changes nothing.
   */
  lemma CreateOrderSpec(s: Store, category: Option<string>)
    ensures var r := CreateOrder(s, category);
      && (category.None? ==> r == Step(s, ServerError))
      && (category.Some? ==>
        && (forall k :: k in r.store <==> k in s || k == NewId(s))
        && r.store[NewId(s)] == Order(category.value, Preparing)
        && (forall k :: k in s && k != NewId(s) ==> r.store[k] == s[k])
        && r.response == Response(201, OrderAck(NewId(s), OrderReceived)))
  {
  }

  /**
   An update of a present id with a status replaces that order's status only,
   keeps its category and every other entry, and answers 200. An absent id is
   404 whatever the body holds; a present id without a status is 500. Neither
   failure changes the table.
   */
  lemma UpdateOrderSpec(s: Store, id: int, status: Option<string>)
    ensures var r := UpdateOrder(s, id, status);
      && (id !in s ==> r == Step(s, NotFound))
      && (id in s && status.None? ==> r == Step(s, ServerError))
      && (id in s && status.Some? ==>
        && r.store.Keys == s.Keys
        && r.store[id] == Order(s[id].category, status.value)
        && (forall k :: k in s && k != id ==> r.store[k] == s[k])
        && r.response == Response(200, OrderAck(id, OrderUpdated)))
  {
  }

  /**
   A delete of a present id removes exactly that key, keeps every other entry,
   shrinks the table by one and answers 200; of an absent id it is 404 and
   changes nothing.
   */
  lemma DeleteOrderSpec(s: Store, id: int)
    ensures var r := DeleteOrder(s, id);
      && (id !in s ==> r == Step(s, NotFound))
      && (id in s ==>
        && r.store.Keys == s.Keys - {id}
        && |r.store| == |s| - 1
        && (forall k :: k in r.store ==> r.store[k] == s[k])
        && r.response == Response(200, StatusOnly(OrderDeleted)))
  {
  }

  // ----- create: the fresh-key case and the collision case -----

  /** When the new id is not a key yet, the table grows by one and keeps every entry. */
  lemma CreateFresh(s: Store, c: string)
    requires NewId(s) !in s
    ensures var t := CreateOrder(s, Some(c)).store;
      && |t| == |s| + 1
      && Extends(t, s)
      && t[NewId(s)] == Order(c, Preparing)
  {
  }

  /**
   When the new id is already a key, that entry is overwritten by the new
   order and the table keeps its size; all other entries stay.
   */
  lemma CreateCollision(s: Store, c: string)
    requires NewId(s) in s
    ensures var t := CreateOrder(s, Some(c)).store;
      && |t| == |s|
      && t.Keys == s.Keys
      && t[NewId(s)] == Order(c, Preparing)
      && (forall k :: k in s && k != NewId(s) ==> t[k] == s[k])
  {
  }

  /** A create on a dense table never collides and leaves the table dense. */
  lemma CreateKeepsDense(s: Store, c: string)
    requires Dense(s)
    ensures NewId(s) !in s
    ensures Dense(CreateOrder(s, Some(c)).store)
  {
  }

  /** Deleting the highest id of a dense table leaves it dense. */
  lemma DeleteTopKeepsDense(s: Store)
    requires Dense(s) && s != map[]
    ensures Dense(DeleteOrder(s, |s|).store)
  {
  }

  /**
   Deleting any id but the highest from a dense table makes the next create
   land on a live order: the highest id, which is then overwritten, and the
   table does not grow.
   */
  lemma DeleteThenCreateCollides(s: Store, id: int, c: string)
    requires Dense(s) && 1 <= id < |s|
    ensures var d := DeleteOrder(s, id).store;
      && NewId(d) == |s|
      && NewId(d) in d
      && d[NewId(d)] == s[|s|]
      && var t := CreateOrder(d, Some(c)).store;
         |t| == |d| == |s| - 1 && t[|s|] == Order(c, Preparing)
  {
  }

  /** Concretely: with orders 1 and 2, delete 1 and create; order 2 is lost. */
  lemma CollisionExample()
    ensures var s := map[1 := Order("Pizza", Preparing), 2 := Order("Burger", Preparing)];
      var d := DeleteOrder(s, 1);
      var t := CreateOrder(d.store, Some("Pasta"));
      && d.response.code == 200
      && t.response == Response(201, OrderAck(2, OrderReceived))
      && t.store == map[2 := Order("Pasta", Preparing)]
  {
  }

  // ----- every handler: status codes and untouched store on failure -----

  /** Handlers answer 200, 201, 404 or 500; a 404 or 500 leaves the table as it was. */
  lemma StatusCodes(s: Store, req: Request)
    ensures Apply(s, req).response.code in {200, 201, 404, 500}
    ensures Apply(s, req).response.code in {404, 500} ==> Apply(s, req).store == s
    ensures Apply(s, req).response.code == 201 <==> req.Create? && req.category.Some?
  {
  }

  /** Reads never change the table. */
  lemma ReadsKeepStore(s: Store, req: Request)
    requires req.GetOne? || req.GetAll?
    ensures Apply(s, req).store == s
  {
  }

  // ----- handlers in sequence -----

  /** The order a create made is what a get of the returned id answers. */
  lemma CreateThenGet(s: Store, c: string)
    ensures var step := CreateOrder(s, Some(c));
      && step.response.body.OrderAck?
      && GetOrder(step.store, step.response.body.orderId)
         == Response(200, OrderObject(Order(c, Preparing)))
  {
  }

  /** After an update of a present order a get shows the new status and the old category. */
  lemma UpdateThenGet(s: Store, id: nat, st: string)
    requires id in s
    ensures GetOrder(UpdateOrder(s, id, Some(st)).store, id)
      == Response(200, OrderObject(Order(s[id].category, st)))
  {
  }

  /** After a delete, present or not, a get of that id is 404. */
  lemma DeleteThenGet(s: Store, id: nat)
    ensures GetOrder(DeleteOrder(s, id).store, id) == NotFound
  {
  }

  /** The requests `Creates(cs)` past the first are `Creates` of the rest. */
  lemma CreatesTail(cs: seq<string>)
    requires cs != []
    ensures Creates(cs)[0] == Create(Some(cs[0]))
    ensures Creates(cs)[1..] == Creates(cs[1..])
  {
  }

  /**
   The `i`-th request of a run was a create answered 201 with `id`, and at the
   end of the run `id` holds `Order(c, "Preparing")`.
   */
  ghost predicate Assigned(t: Trace, i: int, id: int, c: string)
  {
    && 0 <= i < |t.responses|
    && t.responses[i] == Response(201, OrderAck(id, OrderReceived))
    && id in t.store
    && t.store[id] == Order(c, Preparing)
  }

  /** A run that starts with a request continues on the store that request left. */
  lemma RunFirst(s: Store, reqs: seq<Request>)
    requires reqs != []
    ensures var step := Apply(s, reqs[0]);
      && Run(s, reqs).store == Run(step.store, reqs[1..]).store
      && Run(s, reqs).responses == [step.response] + Run(step.store, reqs[1..]).responses
  {
  }

  /** A run of creates is its first create followed by the run of the rest. */
  lemma RunCreates(s: Store, cs: seq<string>)
    requires cs != []
    ensures var step := CreateOrder(s, Some(cs[0]));
      var rest := Run(step.store, Creates(cs[1..]));
      && Run(s, Creates(cs)).store == rest.store
      && Run(s, Creates(cs)).responses == [step.response] + rest.responses
  {
    CreatesTail(cs);
    RunFirst(s, Creates(cs));
  }

  /** Creates on a dense table keep it dense, grow it by one each and keep what it held. */
  lemma {:induction false} CreatesKeepDense(s: Store, cs: seq<string>)
    requires Dense(s)
    ensures var t := Run(s, Creates(cs)).store;
      Dense(t) && |t| == |s| + |cs| && Extends(t, s)
    decreases |cs|
  {
    if cs == [] {
      assert Creates(cs) == [];
    } else {
      RunCreates(s, cs);
      var s1 := CreateOrder(s, Some(cs[0])).store;
      CreateKeepsDense(s, cs[0]);
      CreateFresh(s, cs[0]);
      CreatesKeepDense(s1, cs[1..]);
      ExtendsTransitive(Run(s, Creates(cs)).store, s1, s);
    }
  }

  /** Position `i - 1` of the run after a first request is position `i` of the whole run. */
  lemma AssignedShift(t: Trace, rest: Trace, first: Response, i: int, id: int, c: string)
    requires t.store == rest.store && t.responses == [first] + rest.responses
    requires Assigned(rest, i - 1, id, c)
    ensures Assigned(t, i, id, c)
  {
  }

  /**
   Creates on a dense table: the `i`-th gets id `|s| + i + 1`, is answered 201
   with that id, and its order is stored under it at the end of the run.
   */
  lemma {:induction false} CreatesOnDense(s: Store, cs: seq<string>, i: nat)
    requires Dense(s) && i < |cs|
    ensures Assigned(Run(s, Creates(cs)), i, |s| + i + 1, cs[i])
    decreases i
  {
    RunCreates(s, cs);
    var step := CreateOrder(s, Some(cs[0]));
    var s1 := step.store;
    CreateKeepsDense(s, cs[0]);
    CreateFresh(s, cs[0]);
    var rest := Run(s1, Creates(cs[1..]));
    var t := Run(s, Creates(cs));
    if i == 0 {
      CreatesKeepDense(s1, cs[1..]);
      assert t.responses[0] == step.response;
    } else {
      CreatesOnDense(s1, cs[1..], i - 1);
      var id := |s| + i + 1;
      assert |s1| + (i - 1) + 1 == id;
      assert cs[1..][i - 1] == cs[i];
      AssignedShift(t, rest, step.response, i, id, cs[i]);
    }
  }

  /**
   From an empty table, N creates and no deletes give ids 1..N in order, a
   table of exactly those N keys, and a listing of N entries.
   */
  lemma CreatesFromEmpty(cs: seq<string>)
    ensures var t := Run(map[], Creates(cs));
      && |t.store| == |cs|
      && (forall k :: k in t.store <==> 1 <= k <= |cs|)
      && (forall i :: 0 <= i < |cs| ==>
            t.responses[i] == Response(201, OrderAck(i + 1, OrderReceived)))
      && |ListOrders(t.store).body.orders| == |cs|
  {
    var empty: Store := map[];
    assert |empty| == 0 && Dense(empty);
    CreatesKeepDense(empty, cs);
    var t := Run(empty, Creates(cs));
    forall i | 0 <= i < |cs|
      ensures t.responses[i] == Response(201, OrderAck(i + 1, OrderReceived))
    {
      CreatesOnDense(empty, cs, i);
    }
  }

  /**
   The walk-through of the service on an empty table: create "Pizza" and read
   it, set it "Ready" and read it, delete it and read it.
   */
  lemma PizzaScenario()
    ensures var c := CreateOrder(map[], Some("Pizza"));
      && c.response == Response(201, OrderAck(1, OrderReceived))
      && GetOrder(c.store, 1) == Response(200, OrderObject(Order("Pizza", Preparing)))
      && var u := UpdateOrder(c.store, 1, Some("Ready"));
      && u.response == Response(200, OrderAck(1, OrderUpdated))
      && GetOrder(u.store, 1) == Response(200, OrderObject(Order("Pizza", "Ready")))
      && var d := DeleteOrder(u.store, 1);
      && d.response == Response(200, StatusOnly(OrderDeleted))
      && GetOrder(d.store, 1) == NotFound
      && d.store == map[]
  {
  }

  /** A get of an absent id on an empty table is 404. */
  lemma MissingOnEmpty()
    ensures GetOrder(map[], 999) == NotFound
  {
  }
}

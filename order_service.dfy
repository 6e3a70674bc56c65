/** OrderService: placing an order and reading one back, over the order,
    order-item, product and user repositories. */
module OrderService {
  import opened Results
  import opened Exceptions
  import opened Entities
  import opened OrderDtos
  import opened UserService
  import opened AuthService

  /** The product repository is keyed by id: every product is stored under its own id. */
  predicate ProductsKeyedById(products: map<int, Product>)
  {
    forall k :: k in products ==> products[k].id == k
  }

  /** `items` are the lines made for `order` from `requested`: one line per
      requested line, in order, each pointing at `order` and at the requested
      product, with the requested quantity and the product's catalog price. */
  predicate SnapshotsRequest(order: Order, items: seq<OrderItem>, requested: seq<OrderItemDto>, products: map<int, Product>)
  {
    && |items| == |requested|
    && forall i :: 0 <= i < |items| ==>
         && requested[i].productId in products
         && items[i].order == order
         && items[i].product == products[requested[i].productId]
         && items[i].quantity == requested[i].quantity
         && items[i].price == products[requested[i].productId].price
  }

  /** The item rows that belong to `order`, in the order they were written. */
  function RowsOf(rows: seq<OrderItem>, order: Order): seq<OrderItem>
  {
    if rows == [] then []
    else (if rows[0].order == order then [rows[0]] else []) + RowsOf(rows[1..], order)
  }

  /** A row belongs to RowsOf exactly when it is a row and points at the order. */
  lemma {:induction false} RowsOfExactly(rows: seq<OrderItem>, order: Order, row: OrderItem)
    ensures row in RowsOf(rows, order) <==> row in rows && row.order == order
  {
    if rows != [] {
      RowsOfExactly(rows[1..], order, row);
      assert rows == [rows[0]] + rows[1..];
    }
  }

  /** Writing more rows only adds to the rows of an order. */
  lemma {:induction false} RowsOfAppend(older: seq<OrderItem>, newer: seq<OrderItem>, order: Order)
    ensures RowsOf(older + newer, order) == RowsOf(older, order) + RowsOf(newer, order)
  {
    if older != [] {
      assert (older + newer)[1..] == older[1..] + newer;
      RowsOfAppend(older[1..], newer, order);
    } else {
      assert older + newer == newer;
    }
  }

  /** Rows that all point elsewhere hold no row of the order. */
  lemma {:induction false} RowsOfNone(rows: seq<OrderItem>, order: Order)
    requires forall row :: row in rows ==> row.order != order
    ensures RowsOf(rows, order) == []
  {
    if rows != [] {
      assert rows[0] in rows;
      RowsOfNone(rows[1..], order);
    }
  }

  /** Rows that all point at the order are all its rows. */
  lemma {:induction false} RowsOfAll(rows: seq<OrderItem>, order: Order)
    requires forall row :: row in rows ==> row.order == order
    ensures RowsOf(rows, order) == rows
  {
    if rows != [] {
      assert rows[0] in rows;
      RowsOfAll(rows[1..], order);
      assert rows == [rows[0]] + rows[1..];
    }
  }

  /** Storing under a new key keeps every value already stored. */
  lemma StoringKeepsValues<K, V>(m: map<K, V>, key: K, v: V)
    requires key !in m
    ensures m.Values <= m[key := v].Values
  {
    forall x | x in m.Values ensures x in m[key := v].Values {
      var k :| k in m && m[k] == x;
      assert m[key := v][k] == x;
    }
  }

  /** The repositories the services read and write. */
  class Shop {
    /** UserRepository, by email. */
    var users: map<string, User>
    /** ProductRepository, by id. */
    var products: map<int, Product>
    /** OrderRepository, by id. */
    var orders: map<int, Order>
    /** OrderItemRepository: the rows written, in the order they were written. */
    var orderItems: seq<OrderItem>
    /** The next id the order table's identity column hands out. */
    var nextOrderId: int

    /** What holds between any two writes: users and products are stored under
        their own email and id, every stored order carries its own key, a key
        below the next id, and every item row points at a stored order. */
    ghost predicate Stored()
      reads this, orders.Values
    {
      && 0 < nextOrderId
      && UsersKeyedByEmail(users)
      && ProductsKeyedById(products)
      && (forall k :: k in orders ==> 0 < k < nextOrderId && orders[k].id == Some(k))
      && (forall row :: row in orderItems ==> row.order in orders.Values)
    }

    /** What holds between requests: in addition, the item rows of every
        stored order are exactly that order's items, in order. */
    ghost predicate Valid()
      reads this, orders.Values
    {
      && Stored()
      && forall k :: k in orders ==> RowsOf(orderItems, orders[k]) == orders[k].items
    }

    /** A stored item row is an item of the order it points at, and an item of
        a stored order is a row pointing at that order. */
    lemma RowsAreOrderItems(k: int, row: OrderItem)
      requires Valid()
      requires k in orders
      ensures row in orders[k].items <==> row in orderItems && row.order == orders[k]
    {
      RowsOfExactly(orderItems, orders[k], row);
    }

    constructor (users: map<string, User>, products: map<int, Product>)
      requires UsersKeyedByEmail(users) && ProductsKeyedById(products)
      ensures Valid()
      ensures this.users == users && this.products == products
      ensures orders == map[] && orderItems == [] && nextOrderId == 1
    {
      this.users := users;
      this.products := products;
      orders := map[];
      orderItems := [];
      nextOrderId := 1;
    }

    /** OrderRepository.save of a new order: the order gets the next id and is
        stored under it. Its items are not rows yet. */
    method SaveOrder(order: Order)
      requires Valid()
      requires order.id == None
      modifies this, order`id
      ensures Stored()
      ensures order.id == Some(old(nextOrderId))
      ensures orders == old(orders)[old(nextOrderId) := order] && nextOrderId == old(nextOrderId) + 1
      ensures forall k :: k in old(orders) ==> RowsOf(orderItems, orders[k]) == orders[k].items
      ensures RowsOf(orderItems, order) == []
      ensures users == old(users) && products == old(products) && orderItems == old(orderItems)
    {
      assert forall k :: k in orders ==> orders[k] != order;
      RowsOfNone(orderItems, order);
      StoringKeepsValues(orders, nextOrderId, order);
      order.id := Some(nextOrderId);
      orders := orders[nextOrderId := order];
      nextOrderId := nextOrderId + 1;
    }

    /** OrderItemRepository.saveAll: an item row refers to its order, so every
        item's order must already be stored. */
    method SaveAllItems(items: seq<OrderItem>)
      requires Stored()
      requires forall item :: item in items ==> item.order in orders.Values
      modifies this
      ensures Stored()
      ensures orderItems == old(orderItems) + items
      ensures users == old(users) && products == old(products)
      ensures orders == old(orders) && nextOrderId == old(nextOrderId)
    {
      orderItems := orderItems + items;
    }

    /** OrderService.insert for the caller `auth` at time `now`. The caller is
        resolved first; then every requested line becomes an item priced at the
        product's catalog price, failing on the first unknown product; only then
        are the order and, after it, its items saved. Nothing is saved on failure. */
    method Insert(auth: Authentication, now: Instant, dto: OrderDto) returns (r: Result<OrderDto>)
      requires Valid()
      modifies this
      ensures Valid()
      ensures users == old(users) && products == old(products)
      ensures r.Failure? ==> orders == old(orders) && orderItems == old(orderItems) && nextOrderId == old(nextOrderId)
      ensures Authenticated(users, auth).Failure? ==> r == Failure(Authenticated(users, auth).error)
      ensures Authenticated(users, auth).Success? ==>
                (r.Failure? <==> exists i :: 0 <= i < |dto.items| && dto.items[i].productId !in products)
      ensures Authenticated(users, auth).Success? && r.Failure? ==>
                exists i :: && 0 <= i < |dto.items|
                            && dto.items[i].productId !in products
                            && r.error == EntityNotFound(dto.items[i].productId)
                            && forall j :: 0 <= j < i ==> dto.items[j].productId in products
      ensures r.Success? ==>
                var id := old(nextOrderId);
                && id in orders && orders == old(orders)[id := orders[id]] && nextOrderId == id + 1
                && fresh(orders[id])
                && orders[id].id == Some(id)
                && orders[id].moment == now
                && orders[id].status == WaitngPayment
                && orders[id].client == Authenticated(users, auth).value
                && orders[id].payment == None
                && SnapshotsRequest(orders[id], orders[id].items, dto.items, products)
                && orderItems == old(orderItems) + orders[id].items
                && IsDtoOf(r.value, orders[id])
      ensures r.Success? ==> forall i :: 0 <= i < |dto.items| ==> r.value.items[i].productId == dto.items[i].productId
    {
      var client :- Authenticated(users, auth);
      var order := new Order(now, WaitngPayment, client);
      for i := 0 to |dto.items|
        invariant unchanged(this)
        invariant order.id == None && order.moment == now && order.status == WaitngPayment
        invariant order.client == client && order.payment == None
        invariant SnapshotsRequest(order, order.items, dto.items[..i], products)
        invariant forall j :: 0 <= j < i ==> dto.items[j].productId in products
      {
        var requested := dto.items[i];
        if requested.productId !in products {
          return Failure(EntityNotFound(requested.productId));
        }
        var product := products[requested.productId];
        order.items := order.items + [OrderItem(order, product, requested.quantity, product.price)];
      }
      assert dto.items[..|dto.items|] == dto.items;
      ghost var rowsBefore := orderItems;
      SaveOrder(order);
      SaveAllItems(order.items);
      forall k | k in orders
        ensures RowsOf(orderItems, orders[k]) == orders[k].items
      {
        RowsOfAppend(rowsBefore, order.items, orders[k]);
        if orders[k] == order {
          RowsOfAll(order.items, order);
        } else {
          RowsOfNone(order.items, orders[k]);
        }
      }
      var view := NewOrderDto(order);
      r := Success(view);
    }

    /** OrderService.findById for the caller `auth`: an unknown id is
        ResourceNotFound whoever asks; a known order is shown only if the guard
        lets the caller through for the order's client, and otherwise the
        guard's error is returned. The view shows the order's saved item rows. */
    method FindById(auth: Authentication, id: int) returns (r: Result<OrderDto>)
      requires Valid()
      ensures id !in orders ==> r == Failure(ResourceNotFound(OrderNotFoundMessage))
      ensures id in orders ==>
                var guard := ValidateSelfOrAdmin(users, auth, orders[id].client.id);
                && (guard.Fail? ==> r == Failure(guard.error))
                && (guard.Pass? ==> r.Success? && IsDtoOf(r.value, orders[id]))
      ensures r.Success? ==>
                var rows := RowsOf(orderItems, orders[id]);
                && |r.value.items| == |rows|
                && forall i :: 0 <= i < |rows| ==> r.value.items[i] == OrderItemDtoOf(rows[i])
    {
      if id !in orders {
        return Failure(ResourceNotFound(OrderNotFoundMessage));
      }
      var order := orders[id];
      :- ValidateSelfOrAdmin(users, auth, order.client.id);
      var view := NewOrderDto(order);
      r := Success(view);
    }

    /** The caller who placed an order can read it back, and sees what placing
        it returned; nothing is read when placing failed. */
    method PlaceAndReadBack(auth: Authentication, now: Instant, dto: OrderDto)
      returns (placed: Result<OrderDto>, read: Option<Result<OrderDto>>)
      requires Valid()
      modifies this
      ensures Valid()
      ensures placed.Success? ==> read == Some(placed)
      ensures placed.Failure? ==> read == None
    {
      var id := nextOrderId;
      placed := Insert(auth, now, dto);
      if placed.Failure? {
        return placed, None;
      }
      var again := FindById(auth, id);
      IsDtoOfDeterministic(again.value, placed.value, orders[id]);
      read := Some(again);
    }
  }
}

/** The data-transfer view of an order (OrderDTO and the DTOs it is built from). */
module OrderDtos {
  import opened Results
  import opened Entities

  datatype ClientDto = ClientDto(id: int, name: string)

  datatype PaymentDto = PaymentDto(id: int, moment: Instant)

  /** One order line as shown to the client; on input only productId and quantity are read. */
  datatype OrderItemDto = OrderItemDto(productId: int, name: string, price: Price, quantity: int)

  datatype OrderDto = OrderDto(
    id: Option<int>,
    moment: Instant,
    status: OrderStatus,
    client: ClientDto,
    payment: Option<PaymentDto>,
    items: seq<OrderItemDto>)

  function ClientDtoOf(user: User): ClientDto
  {
    ClientDto(user.id, user.name)
  }

  function PaymentDtoOf(payment: Payment): PaymentDto
  {
    PaymentDto(payment.id, payment.moment)
  }

  /** An item's view shows the price frozen in the item, not the product's current price. */
  function OrderItemDtoOf(item: OrderItem): OrderItemDto
  {
    OrderItemDto(item.product.id, item.product.name, item.price, item.quantity)
  }

  /** `dto` shows exactly `entity`: the same id, moment and status, the entity's
      client, a payment exactly when the entity has one, and one item view per
      entity item, in the same order. */
  predicate IsDtoOf(dto: OrderDto, entity: Order)
    reads entity
  {
    && dto.id == entity.id
    && dto.moment == entity.moment
    && dto.status == entity.status
    && dto.client == ClientDtoOf(entity.client)
    && (dto.payment.None? <==> entity.payment.None?)
    && (entity.payment.Some? ==> dto.payment == Some(PaymentDtoOf(entity.payment.value)))
    && |dto.items| == |entity.items|
    && forall i :: 0 <= i < |dto.items| ==> dto.items[i] == OrderItemDtoOf(entity.items[i])
  }

  /** The OrderDTO(Order) constructor: copy the fields, map a null payment to a
      null payment, and append one item view per entity item. */
  method NewOrderDto(entity: Order) returns (dto: OrderDto)
    ensures IsDtoOf(dto, entity)
  {
    var payment := if entity.payment.None? then None else Some(PaymentDtoOf(entity.payment.value));
    var items: seq<OrderItemDto> := [];
    for i := 0 to |entity.items|
      invariant |items| == i
      invariant forall k :: 0 <= k < i ==> items[k] == OrderItemDtoOf(entity.items[k])
    {
      items := items + [OrderItemDtoOf(entity.items[i])];
    }
    dto := OrderDto(entity.id, entity.moment, entity.status, ClientDtoOf(entity.client), payment, items);
  }

  /** The view of an order is determined by the order: two views of the same
      order are equal. */
  lemma IsDtoOfDeterministic(d1: OrderDto, d2: OrderDto, entity: Order)
    requires IsDtoOf(d1, entity) && IsDtoOf(d2, entity)
    ensures d1 == d2
  {
  }

  /** An order with no items has a view with no items. */
  lemma NoItemsNoItemViews(dto: OrderDto, entity: Order)
    requires IsDtoOf(dto, entity)
    requires entity.items == []
    ensures dto.items == []
  {
  }
}

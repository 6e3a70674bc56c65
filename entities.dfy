/** The persistent entities the services work on. Users, roles, products and
    payments are values here: the services only read them, or build one and hand
    it back. An order is an object: its items point back at it, and saving it
    gives it an id that those items then see. */
module Entities {
  import opened Results

  /** A point in time (java.time.Instant); only ever copied. */
  type Instant = int

  /** A catalog or snapshot price (a Java Double); only ever copied, never computed with. */
  type Price = real

  datatype Role = Role(id: int, authority: string)

  /** A user as the services see it: the source's User entity together with the
      role set that UserService and AuthService rely on. */
  datatype User = User(id: int, name: string, email: string, password: string, roles: set<Role>)

  /** User.hasRole: some role of the user has this authority. */
  predicate HasRole(user: User, authority: string)
  {
    exists role :: role in user.roles && role.authority == authority
  }

  datatype Product = Product(id: int, name: string, price: Price)

  datatype Payment = Payment(id: int, moment: Instant)

  /** The order lifecycle; the first constant keeps the source's spelling WAITNG_PAYMENT. */
  datatype OrderStatus = WaitngPayment | Paid | Shipped | Delivered | Canceled

  class Order {
    /** Generated by the order repository on save; None while the order is new (a null Long). */
    var id: Option<int>
    var moment: Instant
    var status: OrderStatus
    var client: User
    var payment: Option<Payment>
    var items: seq<OrderItem>

    /** A new, unsaved order with no payment and no items. */
    constructor (moment: Instant, status: OrderStatus, client: User)
      ensures this.id == None && this.moment == moment && this.status == status
      ensures this.client == client && this.payment == None && this.items == []
    {
      this.id := None;
      this.moment := moment;
      this.status := status;
      this.client := client;
      this.payment := None;
      this.items := [];
    }
  }

  /** One line of an order: the order it belongs to, the product, the quantity
      and the price of the product when the line was made. */
  datatype OrderItem = OrderItem(order: Order, product: Product, quantity: int, price: Price)
}

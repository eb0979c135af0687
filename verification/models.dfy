/** The record shapes of the Python application (python_app/models.py). */
module Models {
  import opened Wrappers

  /** The clock reading `datetime.now()` taken when a record is built, kept as
      the ISO-8601 text that `isoformat()` produces for it. */
  type Timestamp = string

  /** The JSON-like values a `to_dict` dictionary holds. */
  datatype Value =
    | VInt(i: int)
    | VStr(s: string)
    | VNull
    | VNumber(x: real)
    | VList(elems: seq<Value>)
    | VObject(fields: map<string, Value>)

  /** A user: `User(user_id, name, email)` stores its three arguments as given
      and the construction time. */
  datatype User = User(id: int, name: string, email: Option<string>, createdAt: Timestamp)

  /** An order. `items` are the request's item dictionaries and `total` the
      computed amount, both carried unchanged. */
  datatype Order = Order(orderId: string, userId: int, items: seq<Value>, total: real, status: string, createdAt: Timestamp)

  /** `Order(order_id, user_id, items, total)`: every new order is "pending". */
  function NewOrder(orderId: string, userId: int, items: seq<Value>, total: real, now: Timestamp): (o: Order)
    ensures o.status == "pending"
    ensures o.orderId == orderId && o.userId == userId && o.items == items && o.total == total
    ensures o.createdAt == now
  {
    Order(orderId, userId, items, total, "pending", now)
  }

  /** An optional text as a dictionary value: `None` becomes null. */
  function OptionalText(e: Option<string>): Value
  {
    match e
    case None => VNull
    case Some(s) => VStr(s)
  }

  /** `User.to_dict`: exactly the keys id, name, email and created_at. */
  function UserToDict(u: User): (d: map<string, Value>)
    ensures d.Keys == {"id", "name", "email", "created_at"}
  {
    map["id" := VInt(u.id), "name" := VStr(u.name), "email" := OptionalText(u.email),
        "created_at" := VStr(u.createdAt)]
  }

  /** Reads a user back from a dictionary of the `to_dict` shape. */
  function UserFromDict(d: map<string, Value>): Option<User>
  {
    if "id" in d && "name" in d && "email" in d && "created_at" in d &&
       d["id"].VInt? && d["name"].VStr? && (d["email"].VNull? || d["email"].VStr?) &&
       d["created_at"].VStr?
    then
      var email := if d["email"].VNull? then None else Some(d["email"].s);
      Some(User(d["id"].i, d["name"].s, email, d["created_at"].s))
    else None
  }

  /** `to_dict` loses nothing: the user is recovered from its dictionary, so
      every field is mapped to its own value. */
  lemma UserDictRoundTrip(u: User)
    ensures UserFromDict(UserToDict(u)) == Some(u)
  {
  }

  /** `Order.to_dict`: exactly the keys order_id, user_id, items, total, status and created_at. */
  function OrderToDict(o: Order): (d: map<string, Value>)
    ensures d.Keys == {"order_id", "user_id", "items", "total", "status", "created_at"}
  {
    map["order_id" := VStr(o.orderId), "user_id" := VInt(o.userId), "items" := VList(o.items),
        "total" := VNumber(o.total), "status" := VStr(o.status), "created_at" := VStr(o.createdAt)]
  }

  /** Reads an order back from a dictionary of the `to_dict` shape. */
  function OrderFromDict(d: map<string, Value>): Option<Order>
  {
    if "order_id" in d && "user_id" in d && "items" in d && "total" in d && "status" in d &&
       "created_at" in d &&
       d["order_id"].VStr? && d["user_id"].VInt? && d["items"].VList? && d["total"].VNumber? &&
       d["status"].VStr? && d["created_at"].VStr?
    then
      Some(Order(d["order_id"].s, d["user_id"].i, d["items"].elems, d["total"].x,
                 d["status"].s, d["created_at"].s))
    else None
  }

  /** `Order.to_dict` loses nothing either. */
  lemma OrderDictRoundTrip(o: Order)
    ensures OrderFromDict(OrderToDict(o)) == Some(o)
  {
  }
}

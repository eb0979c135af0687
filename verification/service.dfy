/** The in-memory user directory and the order queries of the Python
    application (python_app/service.py). */
module Service {
  import opened Wrappers
  import opened Text
  import opened Models
  import PyUtils

  const NameRequired := "Name is required and cannot be empty"
  const NameEmpty := "Name cannot be empty"
  const InvalidEmailFormat := "Invalid email format"
  const EmailAlreadyExists := "Email already exists"

  /** What a lookup compares: the id, or the stored email against a text. */
  datatype UserKey = ById(id: int) | ByEmail(email: string)

  predicate Matches(u: User, key: UserKey)
  {
    match key
    case ById(id) => u.id == id
    case ByEmail(e) => u.email == Some(e)
  }

  /** The position of the first record matching `key`, if any. */
  function FindUser(users: seq<User>, key: UserKey): (r: Option<nat>)
    ensures r.Some? ==> r.value < |users| && Matches(users[r.value], key)
    ensures r.Some? ==> forall k :: 0 <= k < r.value ==> !Matches(users[k], key)
    ensures r.None? ==> forall k :: 0 <= k < |users| ==> !Matches(users[k], key)
  {
    if users == [] then None
    else if Matches(users[0], key) then Some(0)
    else
      match FindUser(users[1..], key)
      case None => None
      case Some(i) => Some(i + 1)
  }

  /** The first record matching `key`, if any. */
  function Lookup(users: seq<User>, key: UserKey): Option<User>
  {
    match FindUser(users, key)
    case None => None
    case Some(i) => Some(users[i])
  }

  /** `max([u.id for u in users], default=0)`. */
  function MaxId(users: seq<User>): (m: int)
    ensures users == [] ==> m == 0
    ensures forall k :: 0 <= k < |users| ==> users[k].id <= m
    ensures users != [] ==> exists k :: 0 <= k < |users| && users[k].id == m
  {
    if users == [] then 0
    else if |users| == 1 then users[0].id
    else
      var rest := MaxId(users[1..]);
      if users[0].id >= rest then users[0].id else rest
  }

  /** The id `create_user` hands out: one more than the largest stored id, 1 for an empty list. */
  function NextId(users: seq<User>): int
  {
    MaxId(users) + 1
  }

  /** The new id exceeds every stored id, so no stored record has it. */
  lemma NextIdIsFresh(users: seq<User>)
    ensures forall k :: 0 <= k < |users| ==> users[k].id < NextId(users)
    ensures FindUser(users, ById(NextId(users))).None?
    ensures users == [] ==> NextId(users) == 1
  {
  }

  /** The name passes `if not name or not name.strip()`: it is present and
      holds a non-whitespace character. */
  predicate NamePresent(name: Option<string>)
  {
    name.Some? && Strip(name.value) != ""
  }

  /** Python's `if email:` — present and not the empty string. */
  predicate Truthy(email: Option<string>)
  {
    email.Some? && email.value != ""
  }

  /** Ids are pairwise distinct. */
  ghost predicate IdsDistinct(users: seq<User>)
  {
    forall i, j :: 0 <= i < j < |users| ==> users[i].id != users[j].id
  }

  /** A name as `create_user` and `update_user` store it: not empty, and with
      no whitespace at either end (so stripping it changes nothing). */
  predicate StoredName(name: string)
  {
    name != "" && !IsSpace(name[0]) && !IsSpace(name[|name| - 1])
  }

  /** An email as the service stores it: absent, empty, or accepted by `validate_email`. */
  predicate StoredEmail(email: Option<string>)
  {
    !Truthy(email) || PyUtils.ValidateEmail(email.value)
  }

  /** What every reachable list of users satisfies. */
  ghost predicate WellFormed(users: seq<User>)
  {
    IdsDistinct(users) &&
    forall k :: 0 <= k < |users| ==> StoredName(users[k].name) && StoredEmail(users[k].email)
  }

  /** A stripped non-blank name is stored as is, and stripping it again changes nothing. */
  lemma StrippedNameIsStored(name: string)
    requires Strip(name) != ""
    ensures StoredName(Strip(name))
    ensures Strip(Strip(name)) == Strip(name)
  {
    StripIdempotent(name);
  }

  /** Appending a record with a fresh id and well-formed fields keeps the list well formed. */
  lemma AppendKeepsWellFormed(users: seq<User>, u: User)
    requires WellFormed(users)
    requires forall k :: 0 <= k < |users| ==> users[k].id < u.id
    requires StoredName(u.name) && StoredEmail(u.email)
    ensures WellFormed(users + [u])
  {
  }

  /** Replacing one record by one with the same id keeps the list well formed
      when the new name and email are each either the old one or a checked one. */
  lemma UpdateKeepsWellFormed(users: seq<User>, i: nat, u: User)
    requires i < |users| && u.id == users[i].id
    requires WellFormed(users) ==> StoredName(u.name) || u.name == users[i].name
    requires WellFormed(users) ==> StoredEmail(u.email) || u.email == users[i].email
    ensures WellFormed(users) ==> WellFormed(users[i := u])
  {
  }

  /** Replacing one record by one with the same id and creation time keeps
      every id and creation time in place. */
  lemma ReplaceKeepsIdsAndTimes(users: seq<User>, i: nat, u: User)
    requires i < |users| && u.id == users[i].id && u.createdAt == users[i].createdAt
    ensures |users[i := u]| == |users|
    ensures forall k :: 0 <= k < |users| ==>
      users[i := u][k].id == users[k].id && users[i := u][k].createdAt == users[k].createdAt
  {
  }

  /** Removing one record keeps the list well formed. */
  lemma RemoveKeepsWellFormed(users: seq<User>, i: nat)
    requires WellFormed(users) && i < |users|
    ensures WellFormed(users[..i] + users[i + 1..])
  {
    var rest := users[..i] + users[i + 1..];
    assert forall k :: 0 <= k < |rest| ==> rest[k] == users[if k < i then k else k + 1];
  }

  /** After a successful create, looking up the new id finds the new record. */
  lemma {:induction false} CreatedUserIsFound(users: seq<User>, u: User)
    requires forall k :: 0 <= k < |users| ==> users[k].id < u.id
    ensures FindUser(users + [u], ById(u.id)) == Some(|users|)
    ensures Lookup(users + [u], ById(u.id)) == Some(u)
  {
    if users != [] {
      assert (users + [u])[1..] == users[1..] + [u];
      CreatedUserIsFound(users[1..], u);
    }
  }

  /** With distinct ids, after removing a record its id is not found any more. */
  lemma DeletedIdIsGone(users: seq<User>, i: nat)
    requires IdsDistinct(users) && i < |users|
    ensures FindUser(users[..i] + users[i + 1..], ById(users[i].id)).None?
  {
    var rest := users[..i] + users[i + 1..];
    forall k | 0 <= k < |rest|
      ensures rest[k].id != users[i].id
    {
      if k < i {
        assert rest[k] == users[k];
      } else {
        assert rest[k] == users[k + 1];
      }
    }
  }

  /** A supplied name replaces the stored one, stripped; an absent one leaves it. */
  function WithName(u: User, name: Option<string>): User
  {
    if name.Some? then u.(name := Strip(name.value)) else u
  }

  /** A supplied email (the empty string included) replaces the stored one. */
  function WithEmail(u: User, email: Option<string>): User
  {
    if email.Some? then u.(email := email) else u
  }

  /** Alice's seed address: its first '@' is at 5 and a '.' follows at 13. */
  lemma AliceAddressValid(s: string)
    requires s == "alice@example.com"
    ensures PyUtils.ValidateEmail(s)
  {
    assert PyUtils.DotAfterFirstAt(s, 5, 13);
    PyUtils.ValidateEmailIff(s);
  }

  /** Bob's seed address: its first '@' is at 3 and a '.' follows at 11. */
  lemma BobAddressValid(s: string)
    requires s == "bob@example.com"
    ensures PyUtils.ValidateEmail(s)
  {
    assert PyUtils.DotAfterFirstAt(s, 3, 11);
    PyUtils.ValidateEmailIff(s);
  }

  /** The seed names have no surrounding whitespace. */
  lemma SeedNameStored(name: string)
    requires name == "Alice" || name == "Bob"
    ensures StoredName(name)
  {
    assert name[0] in "AB" && name[|name| - 1] in "eb";
  }

  /** Two records with different ids and well-formed fields form a well-formed list. */
  lemma PairIsWellFormed(a: User, b: User)
    requires a.id != b.id
    requires StoredName(a.name) && StoredEmail(a.email) && StoredName(b.name) && StoredEmail(b.email)
    ensures WellFormed([a, b])
  {
  }

  /** The two users every service starts with, each stamped when it was built. */
  function Seed(aliceCreated: Timestamp, bobCreated: Timestamp): (users: seq<User>)
    ensures WellFormed(users)
  {
    var aliceName, aliceEmail := "Alice", "alice@example.com";
    var bobName, bobEmail := "Bob", "bob@example.com";
    AliceAddressValid(aliceEmail);
    BobAddressValid(bobEmail);
    SeedNameStored(aliceName);
    SeedNameStored(bobName);
    PairIsWellFormed(User(1, aliceName, Some(aliceEmail), aliceCreated), User(2, bobName, Some(bobEmail), bobCreated));
    [User(1, aliceName, Some(aliceEmail), aliceCreated), User(2, bobName, Some(bobEmail), bobCreated)]
  }

  /** `UserService`: the list of users, seeded with Alice and Bob. */
  class UserService {
    var users: seq<User>

    ghost predicate Valid()
      reads this
    {
      WellFormed(users)
    }

    constructor (aliceCreated: Timestamp, bobCreated: Timestamp)
      ensures users == Seed(aliceCreated, bobCreated) && Valid()
    {
      users := Seed(aliceCreated, bobCreated);
    }

    /** `get_all_users`: the list itself, in insertion order. Every listed
        user has its own id and a stored name and email. */
    function GetAllUsers(): (r: seq<User>)
      reads this
      ensures r == users
      ensures Valid() ==> IdsDistinct(r)
      ensures Valid() ==> forall k :: 0 <= k < |r| ==> StoredName(r[k].name) && StoredEmail(r[k].email)
    {
      users
    }

    /** `get_user_by_id`: the first user with that id, else nothing. */
    method GetUserById(userId: int) returns (r: Option<User>)
      ensures r == Lookup(users, ById(userId))
      ensures r.Some? ==> r.value in users && r.value.id == userId
      ensures r.None? <==> forall k :: 0 <= k < |users| ==> users[k].id != userId
    {
      var i := 0;
      while i < |users|
        invariant 0 <= i <= |users|
        invariant forall k :: 0 <= k < i ==> users[k].id != userId
      {
        if users[i].id == userId {
          return Some(users[i]);
        }
        i := i + 1;
      }
      return None;
    }

    /** `get_user_by_email`: the first user whose email equals the text, else nothing. */
    method GetUserByEmail(email: string) returns (r: Option<User>)
      ensures r == Lookup(users, ByEmail(email))
      ensures r.Some? ==> r.value in users && r.value.email == Some(email)
      ensures r.None? <==> forall k :: 0 <= k < |users| ==> users[k].email != Some(email)
    {
      var i := 0;
      while i < |users|
        invariant 0 <= i <= |users|
        invariant forall k :: 0 <= k < i ==> users[k].email != Some(email)
      {
        if users[i].email == Some(email) {
          return Some(users[i]);
        }
        i := i + 1;
      }
      return None;
    }

    /** `create_user`. The checks run in order: missing or blank name, then (for a non-empty
        email) its format, then whether another user already has it. A failed
        check raises and leaves the list alone; otherwise one record is
        appended with the next id, the stripped name and the email as given. */
    method CreateUser(name: Option<string>, email: Option<string>, now: Timestamp) returns (r: Result<User>)
      modifies this
      ensures name.None? || name.value == "" || Strip(name.value) == "" ==> r == Err(NameRequired)
      ensures NamePresent(name) && Truthy(email) && !PyUtils.ValidateEmail(email.value) ==>
        r == Err(InvalidEmailFormat)
      ensures (NamePresent(name) && Truthy(email) && PyUtils.ValidateEmail(email.value) &&
               FindUser(old(users), ByEmail(email.value)).Some?) ==> r == Err(EmailAlreadyExists)
      ensures r.Ok? <==> (NamePresent(name) &&
        (Truthy(email) ==> PyUtils.ValidateEmail(email.value) && FindUser(old(users), ByEmail(email.value)).None?))
      ensures r.Err? ==> users == old(users)
      ensures r.Ok? ==> r.value == User(NextId(old(users)), Strip(name.value), email, now)
      ensures r.Ok? ==> users == old(users) + [r.value]
      ensures old(Valid()) ==> Valid()
    {
      if name.None? || name.value == "" || Strip(name.value) == "" {
        return Err(NameRequired);
      }
      if email.Some? && email.value != "" {
        if !PyUtils.ValidateEmail(email.value) {
          return Err(InvalidEmailFormat);
        }
        var existing := GetUserByEmail(email.value);
        if existing.Some? {
          return Err(EmailAlreadyExists);
        }
      }
      var newUser := User(NextId(users), Strip(name.value), email, now);
      NextIdIsFresh(users);
      StrippedNameIsStored(name.value);
      if Valid() {
        AppendKeepsWellFormed(users, newUser);
      }
      users := users + [newUser];
      r := Ok(newUser);
    }

    /** `update_user`. An unknown id returns nothing and changes nothing. A
        supplied name must not be blank and is stored stripped; a supplied
        non-empty email must pass `validate_email`; a supplied empty email is
        stored as is. The name is written before the email is checked, so an
        invalid email raises after the name has already changed. Other records,
        the id and the creation time never change; email uniqueness is not checked. */
    method UpdateUser(userId: int, name: Option<string>, email: Option<string>) returns (r: Result<Option<User>>)
      modifies this
      ensures FindUser(old(users), ById(userId)).None? ==> r == Ok(None) && users == old(users)
      ensures FindUser(old(users), ById(userId)).Some? ==>
        var i := FindUser(old(users), ById(userId)).value;
        var renamed := WithName(old(users)[i], name);
        if name.Some? && Strip(name.value) == "" then
          r == Err(NameEmpty) && users == old(users)
        else if email.Some? && email.value != "" && !PyUtils.ValidateEmail(email.value) then
          r == Err(InvalidEmailFormat) && users == old(users)[i := renamed]
        else
          r == Ok(Some(WithEmail(renamed, email))) && users == old(users)[i := WithEmail(renamed, email)]
      ensures |users| == |old(users)|
      ensures forall k :: 0 <= k < |users| ==>
        users[k].id == old(users)[k].id && users[k].createdAt == old(users)[k].createdAt
      ensures old(Valid()) ==> Valid()
    {
      var found := GetUserById(userId);
      if found.None? {
        return Ok(None);
      }
      var i := FindUser(users, ById(userId)).value;
      ghost var before := users;
      var user := users[i];
      if name.Some? {
        var stripped := Strip(name.value);
        if stripped == "" {
          return Err(NameEmpty);
        }
        assert StoredName(stripped);
        user := user.(name := stripped);
        users := users[i := user];
      }
      assert user == WithName(before[i], name);
      assert users == before[i := user];
      assert StoredName(user.name) || user.name == before[i].name;
      assert user.email == before[i].email && user.id == before[i].id && user.createdAt == before[i].createdAt;
      if email.Some? {
        if email.value != "" && !PyUtils.ValidateEmail(email.value) {
          UpdateKeepsWellFormed(before, i, user);
          ReplaceKeepsIdsAndTimes(before, i, user);
          return Err(InvalidEmailFormat);
        }
        user := user.(email := email);
        users := users[i := user];
      }
      assert users == before[i := user];
      UpdateKeepsWellFormed(before, i, user);
      ReplaceKeepsIdsAndTimes(before, i, user);
      return Ok(Some(user));
    }

    /** `delete_user`: removes the first user with that id, keeping the others
        in order, and reports whether one was found. */
    method DeleteUser(userId: int) returns (deleted: bool)
      modifies this
      ensures deleted <==> FindUser(old(users), ById(userId)).Some?
      ensures !deleted ==> users == old(users)
      ensures deleted ==>
        var i := FindUser(old(users), ById(userId)).value;
        users == old(users)[..i] + old(users)[i + 1..]
      ensures old(Valid()) ==> Valid() && Lookup(users, ById(userId)).None?
    {
      var i := 0;
      while i < |users|
        invariant 0 <= i <= |users|
        invariant users == old(users)
        invariant forall k :: 0 <= k < i ==> users[k].id != userId
      {
        if users[i].id == userId {
          if Valid() {
            RemoveKeepsWellFormed(users, i);
            DeletedIdIsGone(users, i);
          }
          users := users[..i] + users[i + 1..];
          return true;
        }
        i := i + 1;
      }
      return false;
    }
  }

  /** What the order queries select on. */
  datatype OrderQuery = WithStatus(status: string) | ForUser(userId: int)

  predicate Selects(query: OrderQuery, o: Order)
  {
    match query
    case WithStatus(s) => o.status == s
    case ForUser(id) => o.userId == id
  }

  /** The list comprehension `[o for o in orders if ...]`: the selected orders in their original order. */
  function SelectOrders(orders: seq<Order>, query: OrderQuery): (r: seq<Order>)
    ensures |r| <= |orders|
    ensures forall k :: 0 <= k < |r| ==> Selects(query, r[k])
  {
    if orders == [] then []
    else (if Selects(query, orders[0]) then [orders[0]] else []) + SelectOrders(orders[1..], query)
  }

  /** An order is selected iff it is in the list and the query selects it. */
  lemma {:induction false} SelectOrdersMembers(orders: seq<Order>, query: OrderQuery)
    ensures forall o :: o in SelectOrders(orders, query) <==> o in orders && Selects(query, o)
  {
    if orders != [] {
      SelectOrdersMembers(orders[1..], query);
      assert orders == [orders[0]] + orders[1..];
    }
  }

  /** Selection keeps every selected order exactly as often as it occurs. */
  lemma {:induction false} SelectOrdersCounts(orders: seq<Order>, query: OrderQuery, o: Order)
    ensures multiset(SelectOrders(orders, query))[o] == if Selects(query, o) then multiset(orders)[o] else 0
  {
    if orders != [] {
      var x, rest := orders[0], orders[1..];
      SelectOrdersCounts(rest, query, o);
      assert orders == [x] + rest;
      if Selects(query, x) {
        assert SelectOrders(orders, query) == [x] + SelectOrders(rest, query);
      } else {
        assert SelectOrders(orders, query) == SelectOrders(rest, query);
      }
    }
  }

  /** Selection distributes over concatenation: the orders kept from a front
      part come before those kept from the back, so list order is preserved. */
  lemma {:induction false} SelectOrdersConcat(a: seq<Order>, b: seq<Order>, query: OrderQuery)
    ensures SelectOrders(a + b, query) == SelectOrders(a, query) + SelectOrders(b, query)
  {
    if a == [] {
      assert a + b == b;
    } else {
      var x, rest := a[0], a[1..];
      var head := if Selects(query, x) then [x] else [];
      SelectOrdersConcat(rest, b, query);
      calc {
        SelectOrders(a + b, query);
        { SplitFirst(a, b); SelectOrdersCons(x, rest + b, query); }
        head + SelectOrders(rest + b, query);
        head + (SelectOrders(rest, query) + SelectOrders(b, query));
        { AppendAssoc(head, SelectOrders(rest, query), SelectOrders(b, query)); }
        (head + SelectOrders(rest, query)) + SelectOrders(b, query);
        { SplitFirst(a, []); SelectOrdersCons(x, rest, query); }
        SelectOrders(a, query) + SelectOrders(b, query);
      }
    }
  }

  /** Concatenation is associative. */
  lemma AppendAssoc<T>(a: seq<T>, b: seq<T>, c: seq<T>)
    ensures (a + b) + c == a + (b + c)
  {
  }

  /** A non-empty front part is its first element followed by the rest. */
  lemma SplitFirst<T>(a: seq<T>, b: seq<T>)
    requires a != []
    ensures a + b == [a[0]] + (a[1..] + b)
  {
  }

  /** The first order is kept in front exactly when the query selects it. */
  lemma SelectOrdersCons(x: Order, rest: seq<Order>, query: OrderQuery)
    ensures SelectOrders([x] + rest, query) ==
      (if Selects(query, x) then [x] else []) + SelectOrders(rest, query)
  {
    assert ([x] + rest)[0] == x;
    assert ([x] + rest)[1..] == rest;
  }

  /** The position of the first order with that id, if any. */
  function FindOrder(orders: seq<Order>, orderId: string): (r: Option<nat>)
    ensures r.Some? ==> r.value < |orders| && orders[r.value].orderId == orderId
    ensures r.Some? ==> forall k :: 0 <= k < r.value ==> orders[k].orderId != orderId
    ensures r.None? ==> forall k :: 0 <= k < |orders| ==> orders[k].orderId != orderId
  {
    if orders == [] then None
    else if orders[0].orderId == orderId then Some(0)
    else
      match FindOrder(orders[1..], orderId)
      case None => None
      case Some(i) => Some(i + 1)
  }

  /** `OrderService`: the orders placed so far, beside the user service. */
  class OrderService {
    var userService: UserService
    var orders: seq<Order>

    constructor (userService: UserService)
      ensures this.userService == userService && orders == []
    {
      this.userService := userService;
      orders := [];
    }

    /** `get_all_orders`: the list itself. Every listed order is also listed
        by the status query and by the user query. */
    function GetAllOrders(): (r: seq<Order>)
      reads this
      ensures r == orders
      ensures forall k :: 0 <= k < |r| ==>
        r[k] in GetOrdersByStatus(r[k].status) && r[k] in GetOrdersByUser(r[k].userId)
    {
      orders
    }

    /** `get_orders_by_status`: the orders with that status, in order. */
    function GetOrdersByStatus(status: string): (r: seq<Order>)
      reads this
      ensures r == SelectOrders(orders, WithStatus(status))
      ensures forall o :: o in r <==> o in orders && o.status == status
      ensures forall o :: multiset(r)[o] == if o.status == status then multiset(orders)[o] else 0
    {
      var r := SelectOrders(orders, WithStatus(status));
      SelectOrdersMembers(orders, WithStatus(status));
      forall o
        ensures multiset(r)[o] == if o.status == status then multiset(orders)[o] else 0
      {
        SelectOrdersCounts(orders, WithStatus(status), o);
      }
      r
    }

    /** `get_orders_by_user`: the orders of that user, in order. */
    function GetOrdersByUser(userId: int): (r: seq<Order>)
      reads this
      ensures r == SelectOrders(orders, ForUser(userId))
      ensures forall o :: o in r <==> o in orders && o.userId == userId
      ensures forall o :: multiset(r)[o] == if o.userId == userId then multiset(orders)[o] else 0
    {
      var r := SelectOrders(orders, ForUser(userId));
      SelectOrdersMembers(orders, ForUser(userId));
      forall o
        ensures multiset(r)[o] == if o.userId == userId then multiset(orders)[o] else 0
      {
        SelectOrdersCounts(orders, ForUser(userId), o);
      }
      r
    }

    /** `get_order_by_id`: the first order with that id, else nothing. */
    method GetOrderById(orderId: string) returns (r: Option<Order>)
      ensures r.Some? <==> FindOrder(orders, orderId).Some?
      ensures r.Some? ==> r.value == orders[FindOrder(orders, orderId).value]
    {
      var i := 0;
      while i < |orders|
        invariant 0 <= i <= |orders|
        invariant forall k :: 0 <= k < i ==> orders[k].orderId != orderId
      {
        if orders[i].orderId == orderId {
          return Some(orders[i]);
        }
        i := i + 1;
      }
      return None;
    }
  }
}

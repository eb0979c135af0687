/** The module-level user store of the TypeScript service
    (src/services/userService.ts): an append-only array whose emails stay distinct. */
module UserStore {
  import opened Wrappers

  datatype UserRole = RoleUser | RoleAdmin

  /** `CreateUserInput`: the record the store keeps, exactly as the caller passed it. */
  datatype CreateUserInput = CreateUserInput(name: string, email: string, role: UserRole)

  const EmailAlreadyExists := "Email already exists"

  /** Some stored user has this email (`users.find(u => u.email === email)` finds one). */
  predicate EmailTaken(users: seq<CreateUserInput>, email: string)
  {
    exists k :: 0 <= k < |users| && users[k].email == email
  }

  ghost predicate EmailsDistinct(users: seq<CreateUserInput>)
  {
    forall i, j :: 0 <= i < j < |users| ==> users[i].email != users[j].email
  }

  /** The store after one `createUser` call: unchanged when the email is taken,
      otherwise the input appended at the end. */
  function AfterCreate(users: seq<CreateUserInput>, input: CreateUserInput): seq<CreateUserInput>
  {
    if EmailTaken(users, input.email) then users else users + [input]
  }

  /** The store after calling `createUser` on each input in turn, starting from the empty store. */
  function Replay(inputs: seq<CreateUserInput>): seq<CreateUserInput>
  {
    if inputs == [] then []
    else AfterCreate(Replay(inputs[..|inputs| - 1]), inputs[|inputs| - 1])
  }

  /** One call keeps the emails distinct. */
  lemma AfterCreateKeepsEmailsDistinct(users: seq<CreateUserInput>, input: CreateUserInput)
    requires EmailsDistinct(users)
    ensures EmailsDistinct(AfterCreate(users, input))
  {
  }

  /** Whatever sequence of calls is made, no two stored users share an email. */
  lemma {:induction false} ReplayKeepsEmailsDistinct(inputs: seq<CreateUserInput>)
    ensures EmailsDistinct(Replay(inputs))
  {
    if inputs != [] {
      ReplayKeepsEmailsDistinct(inputs[..|inputs| - 1]);
      AfterCreateKeepsEmailsDistinct(Replay(inputs[..|inputs| - 1]), inputs[|inputs| - 1]);
    }
  }

  /** When the inputs carry distinct emails, every call succeeds and the store
      lists them in the order they were created. */
  lemma {:induction false} ReplayListsInsertionOrder(inputs: seq<CreateUserInput>)
    requires EmailsDistinct(inputs)
    ensures Replay(inputs) == inputs
  {
    if inputs != [] {
      var front, last := inputs[..|inputs| - 1], inputs[|inputs| - 1];
      ReplayListsInsertionOrder(front);
      assert !EmailTaken(front, last.email);
      assert front + [last] == inputs;
    }
  }

  /** The store itself. */
  class Store {
    var users: seq<CreateUserInput>

    ghost predicate Valid()
      reads this
    {
      EmailsDistinct(users)
    }

    constructor ()
      ensures users == [] && Valid()
    {
      users := [];
    }

    /** `createUser`: throws when a stored user has the same email and leaves
        the store alone; otherwise appends the input and returns it. Nothing
        else about the input is checked. */
    method CreateUser(input: CreateUserInput) returns (r: Result<CreateUserInput>)
      modifies this
      ensures EmailTaken(old(users), input.email) ==> r == Err(EmailAlreadyExists) && users == old(users)
      ensures !EmailTaken(old(users), input.email) ==> r == Ok(input) && users == old(users) + [input]
      ensures users == AfterCreate(old(users), input)
      ensures old(Valid()) ==> Valid()
    {
      var i := 0;
      while i < |users|
        invariant 0 <= i <= |users|
        invariant forall k :: 0 <= k < i ==> users[k].email != input.email
      {
        if users[i].email == input.email {
          return Err(EmailAlreadyExists);
        }
        i := i + 1;
      }
      users := users + [input];
      return Ok(input);
    }

    /** `listUsers`: the stored array, in insertion order. */
    function ListUsers(): (r: seq<CreateUserInput>)
      reads this
      ensures |r| == |users| && forall k :: 0 <= k < |r| ==> r[k] == users[k]
      ensures Valid() ==> EmailsDistinct(r)
    {
      users
    }
  }

  /** A fresh store fed the inputs one `createUser` call at a time lists
      exactly what `Replay` describes; with distinct emails, that is the inputs
      themselves in the order they were created. */
  method CreateAllThenList(inputs: seq<CreateUserInput>) returns (listed: seq<CreateUserInput>)
    ensures listed == Replay(inputs)
    ensures EmailsDistinct(listed)
    ensures EmailsDistinct(inputs) ==> listed == inputs
  {
    var store := new Store();
    var i := 0;
    while i < |inputs|
      invariant 0 <= i <= |inputs|
      invariant store.users == Replay(inputs[..i])
    {
      var _ := store.CreateUser(inputs[i]);
      assert inputs[..i + 1][..i] == inputs[..i];
      i := i + 1;
    }
    assert inputs[..i] == inputs;
    listed := store.ListUsers();
    ReplayKeepsEmailsDistinct(inputs);
    if EmailsDistinct(inputs) {
      ReplayListsInsertionOrder(inputs);
    }
  }
}

/** Runs of the Python user service, from a freshly seeded service, that show
    from the method contracts alone how its operations combine. */
module ServiceScenarios {
  import opened Wrappers
  import opened Text
  import opened Models
  import opened Service
  import PyUtils

  /** A name with no whitespace at either end is what stripping returns. */
  lemma StripKeepsStoredName(name: string)
    requires StoredName(name)
    ensures Strip(name) == name
  {
    assert TrimStart(name) == name;
    assert TrimEnd(name) == name;
  }

  /** In the seeded list Bob, with id 2, is the second record. */
  lemma BobIsSecond(users: seq<User>, aliceCreated: Timestamp, bobCreated: Timestamp)
    requires users == Seed(aliceCreated, bobCreated)
    ensures FindUser(users, ById(2)) == Some(1)
    ensures users[1].name == "Bob" && users[0].email == Some("alice@example.com")
  {
  }

  /** "Eve" and "Bobby" have no surrounding whitespace. */
  lemma PlainName(name: string)
    requires name == "Eve" || name == "Bobby"
    ensures StoredName(name) && Strip(name) == name
  {
    assert name[0] in "EB" && name[|name| - 1] in "ey";
    StripKeepsStoredName(name);
  }

  /** "bad" has no '@', so `validate_email` rejects it. */
  lemma BadIsRejected(s: string)
    requires s == "bad"
    ensures !PyUtils.ValidateEmail(s)
  {
    assert s[0] != '@' && s[1] != '@' && s[2] != '@';
  }

  /** A request with no name reaches `create_user(None)`, which raises and
      stores nothing. */
  method MissingNameRejected(aliceCreated: Timestamp, bobCreated: Timestamp, now: Timestamp) returns (r: Result<User>, count: nat)
    ensures r == Err(NameRequired)
    ensures count == 2
  {
    var svc := new UserService(aliceCreated, bobCreated);
    r := svc.CreateUser(None, Some("carol@example.com"), now);
    count := |svc.users|;
  }

  /** Deleting the user with the highest id (Bob, 2) lets the next create hand
      out that id again: ids are not reserved after deletion. */
  method IdReusedAfterDelete(aliceCreated: Timestamp, bobCreated: Timestamp, now: Timestamp) returns (removed: bool, created: Result<User>)
    ensures removed && created.Ok? && created.value.id == 2
  {
    var eve := "Eve";
    PlainName(eve);
    var svc := new UserService(aliceCreated, bobCreated);
    BobIsSecond(svc.users, aliceCreated, bobCreated);
    removed := svc.DeleteUser(2);
    assert svc.users == [User(1, "Alice", Some("alice@example.com"), aliceCreated)];
    created := svc.CreateUser(Some(eve), None, now);
  }

  /** `update_user` does not check uniqueness: Bob can take Alice's address. */
  method UpdateCanDuplicateEmail(aliceCreated: Timestamp, bobCreated: Timestamp) returns (r: Result<Option<User>>, first: Option<string>, second: Option<string>)
    ensures r.Ok? && r.value.Some?
    ensures first == second == Some("alice@example.com")
  {
    var alice := "alice@example.com";
    AliceAddressValid(alice);
    var svc := new UserService(aliceCreated, bobCreated);
    BobIsSecond(svc.users, aliceCreated, bobCreated);
    r := svc.UpdateUser(2, None, Some(alice));
    first, second := svc.users[0].email, svc.users[1].email;
  }

  /** An update with a good name and a bad email raises, yet the new name has
      already been written. */
  method PartialUpdateOnBadEmail(aliceCreated: Timestamp, bobCreated: Timestamp) returns (r: Result<Option<User>>, nameAfter: string)
    ensures r == Err(InvalidEmailFormat)
    ensures nameAfter == "Bobby"
  {
    var bobby, bad := "Bobby", "bad";
    PlainName(bobby);
    BadIsRejected(bad);
    var svc := new UserService(aliceCreated, bobCreated);
    BobIsSecond(svc.users, aliceCreated, bobCreated);
    r := svc.UpdateUser(2, Some(bobby), Some(bad));
    nameAfter := svc.users[1].name;
  }
}

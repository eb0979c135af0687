/** The bearer-token check of src/middleware/auth.ts, as a decision over the
    `Authorization` header and the configured `ADMIN_TOKEN`. */
module Auth {
  import opened Wrappers

  /** The record the middleware stores in `req.user`. */
  datatype AuthUser = AuthUser(id: int, name: string, email: string)

  /** The one identity the middleware ever admits. */
  const AdminUser := AuthUser(1, "Admin", "admin@example.com")

  /** What the middleware does with a request: answer 401, answer 403, or set
      `req.user` and call `next()`. */
  datatype Decision = Unauthorized | Forbidden | Admit(user: AuthUser)
  {
    /** The status code sent when the request is stopped: 401 for a missing
        or malformed header, 403 for a wrong token, none when `next()` runs. */
    function Status(): (code: Option<int>)
      ensures code == Some(401) <==> Unauthorized?
      ensures code == Some(403) <==> Forbidden?
      ensures code.None? <==> Admit?
    {
      match this
      case Unauthorized => Some(401)
      case Forbidden => Some(403)
      case Admit(_) => None
    }

    /** The `error` field of the JSON body sent when the request is stopped. */
    function ErrorMessage(): (msg: Option<string>)
      ensures msg.Some? <==> Status().Some?
      ensures Unauthorized? ==> msg == Some("Unauthorized - Missing or invalid token")
      ensures Forbidden? ==> msg == Some("Forbidden - Invalid token")
    {
      match this
      case Unauthorized => Some("Unauthorized - Missing or invalid token")
      case Forbidden => Some("Forbidden - Invalid token")
      case Admit(_) => None
    }
  }

  const BearerPrefix := "Bearer "

  /** `requireAuth`. A missing (or empty) header, or one not starting with
      "Bearer ", is unauthorized; otherwise the token is what follows the first
      seven characters, and it admits the admin exactly when it equals a
      configured `ADMIN_TOKEN`. */
  function RequireAuth(authorization: Option<string>, adminToken: Option<string>): (d: Decision)
    ensures d.Unauthorized? <==> authorization.None? || !(BearerPrefix <= authorization.value)
    ensures d.Admit? <==>
      authorization.Some? && adminToken.Some? && authorization.value == BearerPrefix + adminToken.value
    ensures d.Admit? ==> d.user == AdminUser
    ensures adminToken.None? ==> !d.Admit?
  {
    match authorization
    case None => Unauthorized
    case Some(header) =>
      if header == "" || !(BearerPrefix <= header) then Unauthorized
      else
        var token := header[7..];
        assert header == BearerPrefix + token;
        if adminToken == Some(token) then Admit(AdminUser) else Forbidden
  }

  /** The only header that admits is "Bearer " followed by the admin token;
      every other well-prefixed header is forbidden. */
  lemma AdmittedHeader(token: string, adminToken: string)
    ensures RequireAuth(Some(BearerPrefix + token), Some(adminToken)) ==
      if token == adminToken then Admit(AdminUser) else Forbidden
  {
  }

  /** The prefix test is case-sensitive and needs the space. */
  lemma PrefixIsExact(token: string)
    ensures RequireAuth(Some("bearer " + token), Some(token)) == Unauthorized
    ensures RequireAuth(Some("Bearer"), Some("")) == Unauthorized
  {
    assert ("bearer " + token)[0] == 'b';
  }

  /** An `ADMIN_TOKEN` set to the empty string admits the bare header "Bearer ". */
  lemma EmptyAdminTokenAdmitsBareBearer()
    ensures RequireAuth(Some("Bearer "), Some("")) == Admit(AdminUser)
  {
    assert "Bearer " == BearerPrefix + "";
  }
}

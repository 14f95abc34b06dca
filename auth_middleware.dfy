/** `authenticate`: the `Authorization: Bearer <token>` check in front of
    the protected routes. `verify` stands for `jwt.verify` with the server's
    secret: `None` when it throws, otherwise the token's `userId` claim,
    itself absent when the payload has none. */
module AuthMiddleware {
  import opened Common
  import opened ErrorHandler
  import opened Store

  const Bearer: string := "Bearer "

  function NoToken(): AppError {
    Raise(401, "UNAUTHORIZED", "Không có token xác thực")
  }

  function InvalidToken(): AppError {
    Raise(401, "INVALID_TOKEN", "Token không hợp lệ hoặc đã hết hạn")
  }

  function UserNotFound(): AppError {
    Raise(401, "USER_NOT_FOUND", "Người dùng không tồn tại")
  }

  /** `authHeader.substring(7)`. */
  function TokenOf(header: string): (token: string)
    requires StartsWith(header, Bearer)
    ensures header == Bearer + token
  {
    header[7..]
  }

  datatype Decision = Pass(user: User) | Fail(err: AppError)

  /** The decision `authenticate` takes. */
  function Decide(header: Option<string>, verify: string -> Option<Option<ObjectId>>, users: seq<User>): (r: Decision)
    ensures header.None? || !StartsWith(header.value, Bearer) ==> r == Fail(NoToken())
    ensures header.Some? && StartsWith(header.value, Bearer) && verify(TokenOf(header.value)).None? ==> r == Fail(InvalidToken())
    ensures (header.Some? && StartsWith(header.value, Bearer) && verify(TokenOf(header.value)).Some?
      && (verify(TokenOf(header.value)).value.None?
          || forall k | 0 <= k < |users| :: users[k].id != verify(TokenOf(header.value)).value.value)) ==> r == Fail(UserNotFound())
    ensures r.Pass? ==> (header.Some? && StartsWith(header.value, Bearer)
      && verify(TokenOf(header.value)) == Some(Some(r.user.id)) && r.user in users)
    // a verified token whose claim names a stored user passes
    ensures (header.Some? && StartsWith(header.value, Bearer) && verify(TokenOf(header.value)).Some?
      && verify(TokenOf(header.value)).value.Some?
      && exists k | 0 <= k < |users| :: users[k].id == verify(TokenOf(header.value)).value.value) ==> r.Pass?
  {
    if header.None? || !StartsWith(header.value, Bearer) then Fail(NoToken())
    else
      var decoded := verify(TokenOf(header.value));
      if decoded.None? then Fail(InvalidToken())
      else if decoded.value.None? then Fail(UserNotFound())
      else match Find(users, (u: User) => u.id == decoded.value.value)
        case None => Fail(UserNotFound())
        case Some(k) => Pass(users[k])
  }

  /** With unique user ids, a well-formed header whose token verifies to
      the id of stored user `k` lets exactly that user through. */
  lemma ValidTokenPasses(token: string, verify: string -> Option<Option<ObjectId>>, users: seq<User>, k: nat)
    requires k < |users| && verify(token) == Some(Some(users[k].id))
    requires forall j | 0 <= j < |users| :: users[j].id == users[k].id ==> j == k
    ensures Decide(Some(Bearer + token), verify, users) == Pass(users[k])
  {
    assert (Bearer + token)[..7] == Bearer;
    assert TokenOf(Bearer + token) == token;
  }

  /** Only what follows `Bearer ` matters. */
  lemma OnlyTokenMatters(token: string, verify: string -> Option<Option<ObjectId>>, users: seq<User>)
    ensures Decide(Some(Bearer + token), verify, users) == Decide(Some(Bearer + token), (t: string) => verify(token), users)
  {
    assert StartsWith(Bearer + token, Bearer) by { assert (Bearer + token)[..7] == Bearer; }
  }

  /** The scheme is case-sensitive and needs its space. */
  lemma SchemeIsExact(token: string, verify: string -> Option<Option<ObjectId>>, users: seq<User>)
    ensures Decide(Some("bearer " + token), verify, users) == Fail(NoToken())
    ensures Decide(Some("Bearer"), verify, users) == Fail(NoToken())
  {
    assert ("bearer " + token)[0] == 'b';
  }

  /** The request as the middleware sees it. */
  class Request {
    var authorization: Option<string>
    var user: Option<User>

    constructor (authorization: Option<string>)
      ensures this.authorization == authorization && user.None?
    {
      this.authorization := authorization;
      user := None;
    }

    /** `authenticate`: `err` is what `next` is called with; `req.user` is
        set exactly when the request passes. */
    method Authenticate(db: Database, verify: string -> Option<Option<ObjectId>>) returns (err: Option<AppError>)
      modifies this
      ensures authorization == old(authorization)
      ensures err.None? <==> Decide(authorization, verify, db.users).Pass?
      ensures err.None? ==> user == Some(Decide(authorization, verify, db.users).user)
      ensures err.Some? ==> err.value == Decide(authorization, verify, db.users).err && user == old(user)
    {
      var header := authorization;
      if header.None? || !StartsWith(header.value, Bearer) {
        return Some(NoToken());
      }
      var token := TokenOf(header.value);
      var decoded := verify(token);
      if decoded.None? {
        return Some(InvalidToken());
      }
      if decoded.value.None? {
        return Some(UserNotFound());
      }
      var found := Find(db.users, (u: User) => u.id == decoded.value.value);
      if found.None? {
        return Some(UserNotFound());
      }
      user := Some(db.users[found.value]);
      err := None;
    }
  }
}

/** Registration, login and the current-user view. Signing a token and
    comparing a password with its stored hash are inputs: `sign` maps a
    user id to the token whose `userId` claim it is, `compare` is the
    user model's `comparePassword`. */
module AuthController {
  import opened Common
  import opened ErrorHandler
  import opened Store

  /** What a reply shows of a user: never the password. */
  datatype UserView = UserView(id: ObjectId, email: string, name: string)

  function ViewOf(u: User): UserView {
    UserView(u.id, u.email, u.name)
  }

  datatype Session = Session(user: UserView, token: string)

  datatype AuthReply = AuthReply(message: string, data: Session)

  function MissingRegisterFields(): AppError {
    Raise(400, "VALIDATION_ERROR", "Email, password và name là bắt buộc")
  }

  function ShortPassword(): AppError {
    Raise(400, "VALIDATION_ERROR", "Mật khẩu phải có ít nhất 6 ký tự")
  }

  function UserExists(): AppError {
    Raise(409, "USER_EXISTS", "Email đã được sử dụng")
  }

  function MissingLoginFields(): AppError {
    Raise(400, "VALIDATION_ERROR", "Email và password là bắt buộc")
  }

  /** One error for an unknown email and for a wrong password. */
  function InvalidCredentials(): AppError {
    Raise(401, "INVALID_CREDENTIALS", "Email hoặc mật khẩu không đúng")
  }

  function WithEmail(email: string): User -> bool {
    (u: User) => u.email == email
  }

  // ---------------------------------------------------------------------
  // register

  /** `register`, as a function of the stored users: the reply and the
      users afterwards. `newId` is the id the new document gets. */
  function RegisterStep(
    users: seq<User>, email: Option<string>, password: Option<string>, name: Option<string>,
    newId: ObjectId, sign: ObjectId -> string): (r: (Reply<AuthReply>, seq<User>))
    ensures !Truthy(email) || !Truthy(password) || !Truthy(name) ==> r == (Next(MissingRegisterFields()), users)
    ensures Truthy(email) && Truthy(password) && Truthy(name) && |password.value| < 6 ==> r == (Next(ShortPassword()), users)
    ensures (Truthy(email) && Truthy(password) && Truthy(name) && |password.value| >= 6
      && exists k | 0 <= k < |users| :: users[k].email == email.value) ==> r == (Next(UserExists()), users)
    ensures r.0.Next? ==> r.1 == users
    ensures r.0.Send? ==> (Truthy(email) && Truthy(password) && Truthy(name)
      && (forall k | 0 <= k < |users| :: users[k].email != email.value)
      && r.1 == users + [User(newId, email.value, password.value, name.value)]
      && r.0 == Send(201, AuthReply("Đăng ký thành công", Session(UserView(newId, email.value, name.value), sign(newId)))))
  {
    if !Truthy(email) || !Truthy(password) || !Truthy(name) then (Next(MissingRegisterFields()), users)
    else if |password.value| < 6 then (Next(ShortPassword()), users)
    else if Find(users, WithEmail(email.value)).Some? then (Next(UserExists()), users)
    else
      var user := User(newId, email.value, password.value, name.value);
      (Send(201, AuthReply("Đăng ký thành công", Session(ViewOf(user), sign(newId)))), users + [user])
  }

  /** Every field present and a password of six or more characters on a
      new email always registers. */
  lemma RegisterAccepts(users: seq<User>, email: string, password: string, name: string, newId: ObjectId, sign: ObjectId -> string)
    requires email != "" && name != "" && |password| >= 6
    requires forall k | 0 <= k < |users| :: users[k].email != email
    ensures RegisterStep(users, Some(email), Some(password), Some(name), newId, sign).0.Send?
  {
  }

  /** The reply to a registration does not depend on the password chosen. */
  lemma RegisterHidesPassword(users: seq<User>, email: Option<string>, p1: string, p2: string, name: Option<string>, newId: ObjectId, sign: ObjectId -> string)
    requires |p1| >= 6 && |p2| >= 6
    ensures RegisterStep(users, email, Some(p1), name, newId, sign).0 == RegisterStep(users, email, Some(p2), name, newId, sign).0
  {
  }

  /** The handler over the database. */
  method Register(
    db: Database, email: Option<string>, password: Option<string>, name: Option<string>,
    newId: ObjectId, sign: ObjectId -> string) returns (reply: Reply<AuthReply>)
    requires db.Valid()
    modifies db
    ensures db.Valid()
    ensures (reply, db.users) == RegisterStep(old(db.users), email, password, name, newId, sign)
    ensures db.books == old(db.books) && db.contributions == old(db.contributions)
  {
    if !Truthy(email) || !Truthy(password) || !Truthy(name) {
      return Next(MissingRegisterFields());
    }
    if |password.value| < 6 {
      return Next(ShortPassword());
    }
    if Find(db.users, WithEmail(email.value)).Some? {
      return Next(UserExists());
    }
    var user := User(newId, email.value, password.value, name.value);
    db.InsertUser(user);
    reply := Send(201, AuthReply("Đăng ký thành công", Session(ViewOf(user), sign(user.id))));
  }

  // ---------------------------------------------------------------------
  // login

  /** `login`: an unknown email and a wrong password give the same 401. */
  function Login(users: seq<User>, email: Option<string>, password: Option<string>,
    compare: (string, string) -> bool, sign: ObjectId -> string): (r: Reply<AuthReply>)
    ensures !Truthy(email) || !Truthy(password) ==> r == Next(MissingLoginFields())
    ensures Truthy(email) && Truthy(password) && (forall k | 0 <= k < |users| :: users[k].email != email.value) ==> r == Next(InvalidCredentials())
    ensures r.Send? ==> (Truthy(email) && Truthy(password) && r.status == 200 && exists k | 0 <= k < |users| ::
      users[k].email == email.value && compare(users[k].password, password.value)
      && r.body == AuthReply("Đăng nhập thành công", Session(ViewOf(users[k]), sign(users[k].id))))
    ensures r.Next? && Truthy(email) && Truthy(password) ==> r == Next(InvalidCredentials())
    // `findOne` picks the first user with that email; when its stored
    // password compares true, that user is logged in
    ensures (Truthy(email) && Truthy(password) && Find(users, WithEmail(email.value)).Some?
      && compare(users[Find(users, WithEmail(email.value)).value].password, password.value)) ==>
      var u := users[Find(users, WithEmail(email.value)).value];
      r == Send(200, AuthReply("Đăng nhập thành công", Session(ViewOf(u), sign(u.id))))
  {
    if !Truthy(email) || !Truthy(password) then Next(MissingLoginFields())
    else match Find(users, WithEmail(email.value))
      case None => Next(InvalidCredentials())
      case Some(k) =>
        if !compare(users[k].password, password.value) then Next(InvalidCredentials())
        else Send(200, AuthReply("Đăng nhập thành công", Session(ViewOf(users[k]), sign(users[k].id))))
  }

  /** With unique emails, the user `k` whose stored password compares true
      with the one given is logged in, and the token is signed for them. */
  lemma LoginSucceeds(users: seq<User>, k: nat, password: string,
    compare: (string, string) -> bool, sign: ObjectId -> string)
    requires k < |users| && users[k].email != "" && password != ""
    requires forall j | 0 <= j < |users| :: users[j].email == users[k].email ==> j == k
    requires compare(users[k].password, password)
    ensures Login(users, Some(users[k].email), Some(password), compare, sign)
      == Send(200, AuthReply("Đăng nhập thành công", Session(ViewOf(users[k]), sign(users[k].id))))
  {
    assert WithEmail(users[k].email)(users[k]);
  }

  /** A caller cannot tell an unregistered email from a registered one with
      a wrong password: both attempts get the identical response. */
  lemma NoEnumeration(users: seq<User>, unknown: string, known: string, p1: string, p2: string,
    compare: (string, string) -> bool, sign: ObjectId -> string)
    requires unknown != "" && known != "" && p1 != "" && p2 != ""
    requires forall k | 0 <= k < |users| :: users[k].email != unknown
    requires forall k | 0 <= k < |users| :: users[k].email == known ==> !compare(users[k].password, p2)
    ensures Login(users, Some(unknown), Some(p1), compare, sign) == Login(users, Some(known), Some(p2), compare, sign)
    ensures Render(Login(users, Some(unknown), Some(p1), compare, sign).err) == ErrorResponse(401, ErrorBody("INVALID_CREDENTIALS", "Email hoặc mật khẩu không đúng", None))
  {
  }

  /** Registering and then logging in with the same credentials yields a
      token for the same subject: the new user's id. */
  lemma TokenSubject(users: seq<User>, email: string, password: string, name: string, newId: ObjectId,
    compare: (string, string) -> bool, sign: ObjectId -> string)
    requires email != "" && name != "" && |password| >= 6
    requires forall k | 0 <= k < |users| :: users[k].email != email
    requires compare(password, password)
    ensures var reg := RegisterStep(users, Some(email), Some(password), Some(name), newId, sign);
      var log := Login(reg.1, Some(email), Some(password), compare, sign);
      reg.0.Send? && log.Send? && reg.0.body.data.token == log.body.data.token == sign(newId)
  {
    var reg := RegisterStep(users, Some(email), Some(password), Some(name), newId, sign);
    var after := reg.1;
    assert after[|users|].email == email;
    var k := Find(after, WithEmail(email)).value;
    assert k == |users|;
  }

  // ---------------------------------------------------------------------
  // getCurrentUser

  datatype CurrentUser = CurrentUser(data: UserView)

  /** `getCurrentUser`: the user the middleware attached, without the
      password. */
  function GetCurrentUser(user: User): (r: Reply<CurrentUser>)
    ensures r.Send? && r.status == 200
    ensures r.body.data.id == user.id && r.body.data.email == user.email && r.body.data.name == user.name
  {
    Send(200, CurrentUser(ViewOf(user)))
  }
}

/**
 * The account routes: registration, login, the current user, and reading
 * or resetting the caller's stream key.
 */
module AuthRoutes {
  import opened Wrappers
  import opened JsString
  import opened Users
  import opened Passport
  import opened Http

  const MissingFields := "모든 필드를 입력해주세요."
  const UsernameInUse := "이미 사용 중인 사용자 이름입니다."
  const EmailInUse := "이미 사용 중인 이메일입니다."
  const LoginFailed := "로그인 중 오류가 발생했습니다."

  /** The fields `/register` reads from the request body; `None` is `undefined`. */
  datatype RegisterBody = RegisterBody(
    username: Option<string>, email: Option<string>, password: Option<string>,
    nickname: Option<string>, role: Option<string>)

  predicate AllFieldsProvided(body: RegisterBody) {
    Truthy(body.username) && Truthy(body.email) && Truthy(body.password) && Truthy(body.nickname)
  }

  /** `role || 'viewer'`. */
  function RequestedRole(body: RegisterBody): string {
    if Truthy(body.role) then body.role.value else "viewer"
  }

  /**
   * `new User({...})`: setters and defaults applied, with a fresh id. `None`
   * when the requested role fails the schema's enum (a validation error at save).
   */
  function NewUser(body: RegisterBody, id: UserId, now: int): (r: Option<User>)
    requires AllFieldsProvided(body)
    ensures r.Some? <==> ParseRole(RequestedRole(body)).Some?
    ensures r.Some? ==> Normalized(r.value) && r.value.id == id
    ensures r.Some? ==> r.value.username == CastUsername(body.username.value) && r.value.password == body.password.value
    ensures r.Some? ==> !Truthy(body.role) ==> r.value.role == Viewer
    ensures r.Some? ==> r.value.streamKey.None? && r.value.lastLogin.None? && r.value.profileImage == DefaultProfileImage
  {
    CastsNormalize(body.username.value);
    CastsNormalize(body.email.value);
    CastsNormalize(body.nickname.value);
    match ParseRole(RequestedRole(body))
    case None => None
    case Some(role) =>
      Some(User(id, CastUsername(body.username.value), CastEmail(body.email.value), body.password.value,
                CastNickname(body.nickname.value), role, None, DefaultProfileImage, now, None))
  }

  predicate UsernameTaken(users: seq<User>, username: string) {
    exists j :: 0 <= j < |users| && users[j].username == CastUsername(username)
  }

  predicate EmailTaken(users: seq<User>, email: string) {
    exists j :: 0 <= j < |users| && users[j].email == CastEmail(email)
  }

  /** The request passes the field check and both duplicate checks. */
  predicate Admitted(users: seq<User>, body: RegisterBody) {
    AllFieldsProvided(body) && !UsernameTaken(users, body.username.value) && !EmailTaken(users, body.email.value)
  }

  /** The record an admitted registration stores, or `None` when validation or a unique index rejects it. */
  function Registered(users: seq<User>, id: UserId, body: RegisterBody, now: int, rt: Runtime): Option<User>
    requires AllFieldsProvided(body)
  {
    var draft := NewUser(body, id, now);
    if draft.Some? then SaveOutcome(users, draft.value, true, true, rt) else None
  }

  /**
   * `POST /register`. `loginFails` stands for `req.login` reporting an error
   * after the user was saved.
   */
  method Register(store: UserStore, body: RegisterBody, rt: Runtime, now: int, loginFails: bool)
    returns (resp: Response)
    requires store.Valid() && rt.Valid()
    modifies store
    ensures store.Valid()
    ensures !AllFieldsProvided(body) ==>
      resp == Response(400, Message(MissingFields)) && unchanged(store)
    ensures AllFieldsProvided(body) && UsernameTaken(old(store.users), body.username.value) ==>
      resp == Response(400, Message(UsernameInUse)) && unchanged(store)
    ensures AllFieldsProvided(body) && !UsernameTaken(old(store.users), body.username.value)
            && EmailTaken(old(store.users), body.email.value) ==>
      resp == Response(400, Message(EmailInUse)) && unchanged(store)
    ensures Admitted(old(store.users), body) ==>
      var saved := Registered(old(store.users), old(store.nextId), body, now, rt);
      && store.nextId == old(store.nextId) + 1
      && (saved.None? ==> resp == Response(500, Message(ServerError)) && store.users == old(store.users))
      && (saved.Some? ==>
            && store.users == old(store.users) + [saved.value]
            && resp == (if loginFails then Response(500, Message(LoginFailed))
                        else Response(201, UserPayload(ToAuthJson(saved.value)))))
  {
    if !AllFieldsProvided(body) {
      return Response(400, Message(MissingFields));
    }
    var byName := FindFirst(store.users, ByUsername(CastUsername(body.username.value)));
    if byName.Some? {
      assert UsernameTaken(store.users, body.username.value) by {
        assert store.users[byName.value].username == CastUsername(body.username.value);
      }
      return Response(400, Message(UsernameInUse));
    }
    var byEmail := FindFirst(store.users, ByEmail(CastEmail(body.email.value)));
    if byEmail.Some? {
      assert EmailTaken(store.users, body.email.value) by {
        assert store.users[byEmail.value].email == CastEmail(body.email.value);
      }
      return Response(400, Message(EmailInUse));
    }
    resp := CreateAccount(store, body, rt, now, loginFails);
  }

  /** The insert and automatic login of an admitted registration. */
  method CreateAccount(store: UserStore, body: RegisterBody, rt: Runtime, now: int, loginFails: bool)
    returns (resp: Response)
    requires store.Valid() && rt.Valid() && AllFieldsProvided(body)
    modifies store
    ensures store.Valid()
    ensures var saved := Registered(old(store.users), old(store.nextId), body, now, rt);
      && store.nextId == old(store.nextId) + 1
      && (saved.None? ==> resp == Response(500, Message(ServerError)) && store.users == old(store.users))
      && (saved.Some? ==>
            && store.users == old(store.users) + [saved.value]
            && resp == (if loginFails then Response(500, Message(LoginFailed))
                        else Response(201, UserPayload(ToAuthJson(saved.value)))))
  {
    ghost var users := store.users;
    var id := store.FreshId();
    assert store.users == users && id == old(store.nextId);
    var draft := NewUser(body, id, now);
    var saved: Option<User> := None;
    if draft.Some? {
      saved := store.Save(draft.value, true, true, rt);
      if saved.Some? {
        SaveNewAppends(users, draft.value, true, rt);
      }
    }
    assert saved == Registered(users, id, body, now, rt);
    if saved.None? {
      resp := Response(500, Message(ServerError));
    } else if loginFails {
      resp := Response(500, Message(LoginFailed));
    } else {
      resp := Response(201, UserPayload(ToAuthJson(saved.value)));
    }
  }

  /**
   * What a successful registration stores: the cast fields, the hashed
   * password, the requested role or `viewer`, a stream key exactly for a
   * streamer, and the schema defaults.
   */
  lemma RegisteredRecord(users: seq<User>, body: RegisterBody, id: UserId, now: int, rt: Runtime)
    requires rt.Valid() && AllFieldsProvided(body)
    requires Registered(users, id, body, now, rt).Some?
    ensures var u := Registered(users, id, body, now, rt).value;
      && u.id == id && u.username == Trim(body.username.value) && u.email == ToLowerCase(Trim(body.email.value))
      && u.nickname == Trim(body.nickname.value) && u.password == rt.bcryptHash(body.password.value)
      && u.role == (if Truthy(body.role) then ParseRole(body.role.value).value else Viewer)
      && (u.streamKey.Some? <==> u.role == Streamer)
      && (u.streamKey.Some? ==> IsHexKey(u.streamKey.value))
      && u.profileImage == DefaultProfileImage && u.createdAt == now && u.lastLogin.None?
  {
    var draft := NewUser(body, id, now).value;
    PreSaveEffect(draft, true, true, rt);
  }

  /**
   * An admitted registration is stored (and answered with 201 unless the
   * login fails) when the role is one of the three, the trimmed username
   * has 3 to 20 characters, the password at least 6, the trimmed nickname
   * and email are non-empty, and a streamer's fresh key is not already taken.
   */
  lemma {:induction false} RegistrationSucceeds(users: seq<User>, nextId: UserId, body: RegisterBody,
                                                now: int, rt: Runtime)
    requires StoreValid(users, nextId) && rt.Valid() && Admitted(users, body)
    requires ParseRole(RequestedRole(body)).Some?
    requires UsernameMinLength <= |CastUsername(body.username.value)| <= UsernameMaxLength
    requires |body.password.value| >= PasswordMinLength
    requires CastNickname(body.nickname.value) != [] && CastEmail(body.email.value) != []
    requires ParseRole(RequestedRole(body)) == Some(Streamer) ==>
      forall j :: 0 <= j < |users| ==> users[j].streamKey != Some(rt.NewStreamKey())
    ensures Registered(users, nextId, body, now, rt).Some?
  {
    var draft := NewUser(body, nextId, now).value;
    var hooked := PreSave(draft, true, true, rt);
    PreSaveEffect(draft, true, true, rt);
    assert Conforms(draft);
    assert IndexOfId(users, draft.id).None? by {
      forall j | 0 <= j < |users| ensures users[j].id != draft.id {
        assert RecordValid(users[j], nextId);
      }
    }
    assert !Clashes(users, hooked);
    SaveSucceeds(users, draft, true, true, rt);
  }

  /** Right after registering, logging in with the same username and password is accepted. */
  lemma {:induction false} RegisterThenAuthenticate(users: seq<User>, nextId: UserId, body: RegisterBody,
                                                    now: int, rt: Runtime)
    requires StoreValid(users, nextId) && rt.Valid() && Admitted(users, body)
    requires NewUser(body, nextId, now).Some?
    requires SaveOutcome(users, NewUser(body, nextId, now).value, true, true, rt).Some?
    ensures var u := SaveOutcome(users, NewUser(body, nextId, now).value, true, true, rt).value;
      Authenticate(users + [u], body.username.value, body.password.value, rt) == Authenticated(u)
  {
    var draft := NewUser(body, nextId, now).value;
    var u := SaveOutcome(users, draft, true, true, rt).value;
    var name := CastUsername(body.username.value);
    SaveOutcomeIsHooked(users, draft, true, true, rt);
    PreSaveEffect(draft, true, true, rt);
    assert u.username == name && u.password == rt.bcryptHash(body.password.value);
    var all := users + [u];
    forall j | 0 <= j < |all| && j != |users|
      ensures !Matches(all[j], ByUsername(name))
    {
      assert all[j] == users[j];
    }
    FindFirstUnique(all, ByUsername(name), |users|);
    assert FindOne(all, ByUsername(name)) == Some(u);
  }

  /** `POST /login`: maps the strategy's outcome to a response. */
  function LoginResponse(outcome: VerifyOutcome, loginFails: bool): (resp: Response)
    ensures resp.status == 200 <==> outcome.Authenticated? && !loginFails
    ensures resp.status == 401 <==> outcome.Rejected?
    ensures resp.status == 500 <==> outcome.StrategyError? || (outcome.Authenticated? && loginFails)
    ensures outcome.Rejected? ==> resp.body == Message(outcome.message)
    ensures resp.status == 200 ==> resp.body == UserPayload(ToAuthJson(outcome.user))
  {
    match outcome
    case StrategyError => Response(500, Message(ServerError))
    case Rejected(message) => Response(401, Message(message))
    case Authenticated(user) =>
      if loginFails then Response(500, Message(LoginFailed)) else Response(200, UserPayload(ToAuthJson(user)))
  }

  /** `GET /me`. */
  function Me(users: seq<User>, session: Option<UserId>): (resp: Response)
    ensures resp.status == 401 <==> CurrentUser(users, session).None?
    ensures resp.status != 401 ==>
      resp == Response(200, UserPayload(ToAuthJson(CurrentUser(users, session).value)))
  {
    var user := CurrentUser(users, session);
    if user.None? then Response(401, Message(LoginRequired)) else Response(200, UserPayload(ToAuthJson(user.value)))
  }

  /** `GET /streamkey`: the caller's key, unchanged, for streamers and admins only. */
  function GetStreamKey(users: seq<User>, session: Option<UserId>): (resp: Response)
    ensures resp.status == 401 <==> CurrentUser(users, session).None?
    ensures resp.status == 403 <==> CurrentUser(users, session).Some? && CurrentUser(users, session).value.role == Viewer
    ensures resp.status == 200 ==> resp.body == StreamKeyPayload(CurrentUser(users, session).value.streamKey)
    ensures resp.status in {200, 401, 403}
  {
    var user := CurrentUser(users, session);
    if user.None? then Response(401, Message(LoginRequired))
    else if !HasStreamerRights(user.value.role) then Response(403, Message(StreamerRequired))
    else Response(200, StreamKeyPayload(user.value.streamKey))
  }

  /**
   * `POST /reset-streamkey`. The fresh key is written to the caller's
   * document and saved; a collision with another user's key fails the save.
   */
  method ResetStreamKey(store: UserStore, session: Option<UserId>, rt: Runtime) returns (resp: Response)
    requires store.Valid() && rt.Valid()
    modifies store`users
    ensures store.Valid()
    ensures var user := CurrentUser(old(store.users), session);
      if user.None? then resp == Response(401, Message(LoginRequired)) && store.users == old(store.users)
      else if !HasStreamerRights(user.value.role) then
        resp == Response(403, Message(StreamerRequired)) && store.users == old(store.users)
      else
        var rekeyed := user.value.(streamKey := Some(rt.NewStreamKey()));
        if Clashes(old(store.users), rekeyed) then
          resp == Response(500, Message(ServerError)) && store.users == old(store.users)
        else
          && resp == Response(200, StreamKeyPayload(Some(rt.NewStreamKey())))
          && store.users == Written(old(store.users), rekeyed)
  {
    var current := CurrentUser(store.users, session);
    if current.None? {
      return Response(401, Message(LoginRequired));
    }
    var user := current.value;
    if !HasStreamerRights(user.role) {
      return Response(403, Message(StreamerRequired));
    }
    ghost var k :| 0 <= k < |store.users| && store.users[k] == user;
    var rekeyed := user.(streamKey := Some(rt.NewStreamKey()));
    assert RecordValid(user, store.nextId);
    FindFirstUnique(store.users, ById(user.id), k);
    PreSaveOfExisting(rekeyed, rt);
    var saved := store.Save(rekeyed, false, false, rt);
    if saved.None? {
      return Response(500, Message(ServerError));
    }
    resp := Response(200, StreamKeyPayload(saved.value.streamKey));
  }

  /** The new key has the shape of `randomBytes(16).toString('hex')`, and a reset changes only the caller's key. */
  lemma ResetTouchesOnlyTheKey(users: seq<User>, k: nat, rt: Runtime)
    requires Unique(users) && k < |users| && rt.Valid()
    ensures var rekeyed := users[k].(streamKey := Some(rt.NewStreamKey()));
      && IsHexKey(rt.NewStreamKey())
      && Written(users, rekeyed) == users[k := rekeyed]
  {
    HexKeyShape(rt.randomBytes);
    WrittenInPlace(users, k, users[k].(streamKey := Some(rt.NewStreamKey())));
  }
}

/**
 * The local login strategy and the session (de)serialisation of users.
 */
module Passport {
  import opened Wrappers
  import opened JsString
  import opened Users

  const UserNotFound := "사용자를 찾을 수 없습니다."
  const PasswordMismatch := "비밀번호가 일치하지 않습니다."

  /** What the strategy hands to `done`: an error, `false` with a message, or the user. */
  datatype VerifyOutcome = StrategyError | Rejected(message: string) | Authenticated(user: User)

  /**
   * The decision chain of the verify callback: look the user up by the
   * (trim-cast) username, then compare the password. The password is only
   * compared once a user has been found.
   */
  function Authenticate(users: seq<User>, username: string, password: string, rt: Runtime): (out: VerifyOutcome)
    ensures !out.StrategyError?
    ensures out == Rejected(UserNotFound) <==> forall j :: 0 <= j < |users| ==> users[j].username != CastUsername(username)
    ensures out == Rejected(PasswordMismatch) ==>
      exists j :: 0 <= j < |users| && users[j].username == CastUsername(username) && !rt.PasswordMatches(password, users[j].password)
    ensures out.Authenticated? ==>
      out.user in users && out.user.username == CastUsername(username) && rt.PasswordMatches(password, out.user.password)
  {
    match FindOne(users, ByUsername(CastUsername(username)))
    case None => Rejected(UserNotFound)
    case Some(u) => if rt.PasswordMatches(password, u.password) then Authenticated(u) else Rejected(PasswordMismatch)
  }

  /**
   * With the unique username index, the chain decides on the one user with
   * that name: a known user with a wrong password gets the mismatch message,
   * and the right password authenticates as that user.
   */
  lemma AuthenticateDecides(users: seq<User>, username: string, password: string, rt: Runtime)
    requires Unique(users)
    ensures Authenticate(users, username, password, rt) == Rejected(PasswordMismatch) <==>
      exists j :: 0 <= j < |users| && users[j].username == CastUsername(username)
                  && !rt.PasswordMatches(password, users[j].password)
    ensures Authenticate(users, username, password, rt).Authenticated? <==>
      exists j :: 0 <= j < |users| && users[j].username == CastUsername(username)
                  && rt.PasswordMatches(password, users[j].password)
    ensures forall j :: 0 <= j < |users| && users[j].username == CastUsername(username)
                        && rt.PasswordMatches(password, users[j].password) ==>
      Authenticate(users, username, password, rt) == Authenticated(users[j])
  {
    var name := CastUsername(username);
    var found := FindFirst(users, ByUsername(name));
    if found.Some? {
      var i := found.value;
      forall j | 0 <= j < |users| && users[j].username == name ensures j == i {
        if j != i {
          assert Clash(users[i], users[j]);
        }
      }
    }
  }

  /** Stamping `lastLogin` on a stored user saves successfully and changes only that field of that document. */
  lemma {:induction false} StampedSaveSucceeds(users: seq<User>, nextId: UserId, k: nat, now: int, rt: Runtime)
    requires StoreValid(users, nextId) && k < |users|
    ensures var stamped := users[k].(lastLogin := Some(now));
      SaveOutcome(users, stamped, false, false, rt) == Some(stamped) && Written(users, stamped) == users[k := stamped]
  {
    var stamped := users[k].(lastLogin := Some(now));
    assert RecordValid(users[k], nextId);
    FindFirstUnique(users, ById(stamped.id), k);
    PreSaveOfExisting(stamped, rt);
    if Clashes(users, stamped) {
      var j :| 0 <= j < |users| && users[j].id != stamped.id && Clash(users[j], stamped);
      assert j != k && Clash(users[j], users[k]);
      assert false;
    }
    WrittenInPlace(users, k, stamped);
  }

  /**
   * The LocalStrategy verify callback. `lookupFails` and `saveFails` stand
   * for the database rejecting `findOne` or `save`; `now` is `Date.now()`.
   */
  method Verify(store: UserStore, username: string, password: string, rt: Runtime, now: int,
                lookupFails: bool, saveFails: bool) returns (out: VerifyOutcome)
    requires store.Valid() && rt.Valid()
    modifies store`users
    ensures store.Valid()
    ensures var decided := Authenticate(old(store.users), username, password, rt);
      if lookupFails || decided.Rejected? || saveFails then
        && out == (if lookupFails || !decided.Rejected? then StrategyError else decided)
        && store.users == old(store.users)
      else
        var stamped := decided.user.(lastLogin := Some(now));
        && out == Authenticated(stamped)
        && store.users == Written(old(store.users), stamped)
  {
    if lookupFails {
      return StrategyError;
    }
    var found := FindFirst(store.users, ByUsername(CastUsername(username)));
    if found.None? {
      return Rejected(UserNotFound);
    }
    var user := store.users[found.value];
    if !rt.PasswordMatches(password, user.password) {
      return Rejected(PasswordMismatch);
    }
    if saveFails {
      return StrategyError;
    }
    var stamped := user.(lastLogin := Some(now));
    StampedSaveSucceeds(store.users, store.nextId, found.value, now, rt);
    assert RecordValid(user, store.nextId);
    var saved := store.Save(stamped, false, false, rt);
    out := Authenticated(saved.value);
  }

  /** `serializeUser`: the session keeps the user's id. */
  function SerializeUser(u: User): UserId {
    u.id
  }

  /** `deserializeUser`: `findById`, `null` when the document is gone. */
  function DeserializeUser(users: seq<User>, id: UserId): (r: Option<User>)
    ensures r.Some? ==> r.value in users && r.value.id == id
    ensures r.None? ==> forall j :: 0 <= j < |users| ==> users[j].id != id
  {
    FindOne(users, ById(id))
  }

  /** A stored user survives the session round trip. */
  lemma {:induction false} SessionRoundTrip(users: seq<User>, k: nat)
    requires Unique(users) && k < |users|
    ensures DeserializeUser(users, SerializeUser(users[k])) == Some(users[k])
  {
    FindFirstUnique(users, ById(users[k].id), k);
  }

  /** `req.user` and `req.isAuthenticated()`: the session's id resolved against the store. */
  function CurrentUser(users: seq<User>, session: Option<UserId>): (r: Option<User>)
    ensures r.Some? ==> session.Some? && r.value in users && r.value.id == session.value
    ensures r.None? <==> session.None? || forall j :: 0 <= j < |users| ==> users[j].id != session.value
  {
    if session.None? then None else DeserializeUser(users, session.value)
  }
}

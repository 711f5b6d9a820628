/**
 * The user model: the schema's fields, validators and setters, the two
 * `pre('save')` hooks, the `toAuthJSON` projection, and the collection of
 * user documents with its unique indexes.
 */
module Users {
  import opened Wrappers
  import opened JsString

  type UserId = nat

  datatype Role = Viewer | Streamer | Admin

  const UsernameMinLength := 3
  const UsernameMaxLength := 20
  const PasswordMinLength := 6
  const BcryptHashLength := 60
  const StreamKeyBytes := 16
  const DefaultProfileImage := "/images/default-profile.png"

  function RoleName(role: Role): string {
    match role
    case Viewer => "viewer"
    case Streamer => "streamer"
    case Admin => "admin"
  }

  /** The schema's `enum` check on the role path: only the three names are accepted. */
  function ParseRole(s: string): (r: Option<Role>)
    ensures r.Some? ==> RoleName(r.value) == s
    ensures r.None? ==> forall role: Role :: RoleName(role) != s
  {
    if s == "viewer" then Some(Viewer)
    else if s == "streamer" then Some(Streamer)
    else if s == "admin" then Some(Admin)
    else None
  }

  /** A stored user document. `streamKey` and `lastLogin` may be absent. */
  datatype User = User(
    id: UserId,
    username: string,
    email: string,
    password: string,
    nickname: string,
    role: Role,
    streamKey: Option<string>,
    profileImage: string,
    createdAt: int,
    lastLogin: Option<int>)

  /** The schema validators: `required`, `minlength`, `maxlength` (the role enum is the type). */
  predicate Conforms(u: User) {
    && UsernameMinLength <= |u.username| <= UsernameMaxLength
    && u.email != []
    && |u.password| >= PasswordMinLength
    && u.nickname != []
  }

  /** The setters Mongoose runs on assignment and on query filters. */
  function CastUsername(s: string): string { Trim(s) }
  function CastEmail(s: string): string { ToLowerCase(Trim(s)) }
  function CastNickname(s: string): string { Trim(s) }

  /** Every string path has been through its setter: trimmed, and the email lower-cased. */
  predicate Normalized(u: User) {
    IsTrimmed(u.username) && IsTrimmed(u.email) && IsLowerCase(u.email) && IsTrimmed(u.nickname)
  }

  /** The setters produce normalized values, and normalized values are fixed points of the setters. */
  lemma CastsNormalize(s: string)
    ensures IsTrimmed(CastUsername(s)) && IsTrimmed(CastNickname(s))
    ensures IsTrimmed(CastEmail(s)) && IsLowerCase(CastEmail(s))
    ensures IsTrimmed(s) ==> CastUsername(s) == s && CastNickname(s) == s
    ensures IsTrimmed(s) && IsLowerCase(s) ==> CastEmail(s) == s
  {
    TrimmedIffFixedPoint(s);
    ToLowerCaseShape(Trim(s));
    ToLowerCaseShape(s);
  }

  /** What `toAuthJSON` returns: no password, stream key or timestamps. */
  datatype AuthJson = AuthJson(
    id: UserId, username: string, email: string, nickname: string, role: Role, profileImage: string)

  function ToAuthJson(u: User): AuthJson {
    AuthJson(u.id, u.username, u.email, u.nickname, u.role, u.profileImage)
  }

  /** The projection does not depend on the secret or bookkeeping fields. */
  lemma AuthJsonOmitsSecrets(u: User, password: string, streamKey: Option<string>, createdAt: int, lastLogin: Option<int>)
    ensures ToAuthJson(u.(password := password, streamKey := streamKey, createdAt := createdAt, lastLogin := lastLogin))
         == ToAuthJson(u)
  {
  }

  /** Two users have the same projection exactly when their six public fields agree. */
  lemma AuthJsonDeterminedByPublicFields(u: User, v: User)
    ensures ToAuthJson(u) == ToAuthJson(v) <==>
      && u.id == v.id && u.username == v.username && u.email == v.email
      && u.nickname == v.nickname && u.role == v.role && u.profileImage == v.profileImage
  {
  }

  /**
   * The environment the hooks draw on: bcrypt (a 60-character hash, the
   * salt left abstract) and the 16 bytes `crypto.randomBytes(16)` returns.
   */
  datatype Runtime = Runtime(bcryptHash: string -> string, randomBytes: seq<Byte>) {
    ghost predicate Valid() {
      |randomBytes| == StreamKeyBytes && forall p :: |bcryptHash(p)| == BcryptHashLength
    }

    function NewStreamKey(): string {
      HexEncode(randomBytes)
    }

    /** `bcrypt.compare(candidate, stored)`. */
    predicate PasswordMatches(candidate: string, stored: string) {
      bcryptHash(candidate) == stored
    }
  }

  /** First hook: hash the password only when it was modified. */
  function HashPasswordStep(u: User, passwordModified: bool, hash: string -> string): User {
    if passwordModified then u.(password := hash(u.password)) else u
  }

  /** `!this.streamKey`: absent or the empty string. */
  predicate LacksStreamKey(u: User) {
    u.streamKey.None? || u.streamKey.value == []
  }

  /** Second hook: a new streamer without a key gets a fresh one. */
  function AssignStreamKeyStep(u: User, isNew: bool, bytes: seq<Byte>): User {
    if isNew && u.role == Streamer && LacksStreamKey(u) then u.(streamKey := Some(HexEncode(bytes))) else u
  }

  /** Both hooks, in the order they are registered. */
  function PreSave(u: User, isNew: bool, passwordModified: bool, rt: Runtime): User {
    AssignStreamKeyStep(HashPasswordStep(u, passwordModified, rt.bcryptHash), isNew, rt.randomBytes)
  }

  /** The hooks touch the password and the stream key and nothing else, each under its own condition. */
  lemma PreSaveEffect(u: User, isNew: bool, passwordModified: bool, rt: Runtime)
    requires rt.Valid()
    ensures var r := PreSave(u, isNew, passwordModified, rt);
      && r == u.(password := r.password, streamKey := r.streamKey)
      && r.password == (if passwordModified then rt.bcryptHash(u.password) else u.password)
      && (r.streamKey != u.streamKey <==> isNew && u.role == Streamer && LacksStreamKey(u))
      && (r.streamKey != u.streamKey ==> IsHexKey(r.streamKey.value))
  {
    HexKeyShape(rt.randomBytes);
  }

  /** Saving an existing document whose password was not touched runs both hooks as no-ops. */
  lemma PreSaveOfExisting(u: User, rt: Runtime)
    ensures PreSave(u, false, false, rt) == u
  {
  }

  /** A Mongoose document in memory, which the save hooks update in place. */
  class UserDocument {
    var record: User
    const isNew: bool
    const passwordModified: bool

    constructor (record: User, isNew: bool, passwordModified: bool)
      ensures this.record == record && this.isNew == isNew && this.passwordModified == passwordModified
    {
      this.record := record;
      this.isNew := isNew;
      this.passwordModified := passwordModified;
    }

    method HashPasswordHook(hash: string -> string)
      modifies this
      ensures record == HashPasswordStep(old(record), passwordModified, hash)
    {
      if passwordModified {
        record := record.(password := hash(record.password));
      }
    }

    method StreamKeyHook(bytes: seq<Byte>)
      modifies this
      ensures record == AssignStreamKeyStep(old(record), isNew, bytes)
    {
      if isNew && record.role == Streamer && LacksStreamKey(record) {
        record := record.(streamKey := Some(HexEncode(bytes)));
      }
    }
  }

  /** The query filters the core issues, as Mongoose has cast them. */
  datatype Filter =
    | ById(id: UserId)
    | ByUsername(username: string)
    | ByEmail(email: string)
    | ByStreamKey(streamKey: string)
    | ByRole(role: Role)
    | ByUsernameAndRole(username: string, role: Role)

  predicate Matches(u: User, f: Filter) {
    match f
    case ById(id) => u.id == id
    case ByUsername(name) => u.username == name
    case ByEmail(email) => u.email == email
    case ByStreamKey(key) => u.streamKey == Some(key)
    case ByRole(role) => u.role == role
    case ByUsernameAndRole(name, role) => u.username == name && u.role == role
  }

  /** The first index from `k` on whose document matches. */
  function FindFrom(users: seq<User>, f: Filter, k: nat): (r: Option<nat>)
    requires k <= |users|
    ensures r.Some? ==> k <= r.value < |users| && Matches(users[r.value], f)
    ensures r.Some? ==> forall j :: k <= j < r.value ==> !Matches(users[j], f)
    ensures r.None? ==> forall j :: k <= j < |users| ==> !Matches(users[j], f)
    decreases |users| - k
  {
    if k == |users| then None
    else if Matches(users[k], f) then Some(k)
    else FindFrom(users, f, k + 1)
  }

  /** `findOne` in natural order: the first index whose document matches. */
  function FindFirst(users: seq<User>, f: Filter): (r: Option<nat>)
    ensures r.Some? ==> r.value < |users| && Matches(users[r.value], f)
    ensures r.Some? ==> forall j :: 0 <= j < r.value ==> !Matches(users[j], f)
    ensures r.None? ==> forall j :: 0 <= j < |users| ==> !Matches(users[j], f)
  {
    FindFrom(users, f, 0)
  }

  function FindOne(users: seq<User>, f: Filter): (r: Option<User>)
    ensures r.Some? ==> r.value in users && Matches(r.value, f)
    ensures r.None? ==> forall j :: 0 <= j < |users| ==> !Matches(users[j], f)
  {
    match FindFirst(users, f)
    case None => None
    case Some(k) => Some(users[k])
  }

  /** When exactly one document matches, `findOne` returns it. */
  lemma FindFirstUnique(users: seq<User>, f: Filter, i: nat)
    requires i < |users| && Matches(users[i], f)
    requires forall j :: 0 <= j < |users| && j != i ==> !Matches(users[j], f)
    ensures FindFirst(users, f) == Some(i)
  {
  }

  function IndexOfId(users: seq<User>, id: UserId): Option<nat> {
    FindFirst(users, ById(id))
  }

  /** Two documents that a unique index (username, email, sparse streamKey) keeps apart. */
  predicate Clash(a: User, b: User) {
    a.username == b.username || a.email == b.email || (a.streamKey.Some? && a.streamKey == b.streamKey)
  }

  /** Writing `u` would violate a unique index against some other document. */
  predicate Clashes(users: seq<User>, u: User) {
    exists j :: 0 <= j < |users| && users[j].id != u.id && Clash(users[j], u)
  }

  /** The unique indexes, including `_id`, hold across the collection. */
  predicate Unique(users: seq<User>) {
    forall i, j :: 0 <= i < |users| && 0 <= j < |users| && i != j ==>
      users[i].id != users[j].id && !Clash(users[i], users[j])
  }

  /** A stored document: its id was drawn before `nextId`, it passes validation and its setters ran. */
  predicate RecordValid(u: User, nextId: UserId) {
    u.id < nextId && Conforms(u) && Normalized(u)
  }

  /** The collection invariant: unique indexes and every document valid. */
  predicate StoreValid(users: seq<User>, nextId: UserId) {
    Unique(users) && forall i :: 0 <= i < |users| ==> RecordValid(users[i], nextId)
  }

  /** Writing a document: replace the one with its id, or append a new one. */
  function Written(users: seq<User>, u: User): seq<User> {
    match IndexOfId(users, u.id)
    case Some(k) => users[k := u]
    case None => users + [u]
  }

  /**
   * `doc.save()`: validation first, then the hooks, then the unique
   * indexes. A new document whose id is taken, or an existing one that is
   * no longer stored, fails as well.
   */
  function SaveOutcome(users: seq<User>, doc: User, isNew: bool, passwordModified: bool, rt: Runtime): Option<User> {
    if !Conforms(doc) then None
    else if isNew == IndexOfId(users, doc.id).Some? then None
    else
      var hooked := PreSave(doc, isNew, passwordModified, rt);
      if Clashes(users, hooked) then None else Some(hooked)
  }

  /** A successful save stores the conforming document with both hooks applied, clashing with nobody. */
  lemma SaveOutcomeIsHooked(users: seq<User>, doc: User, isNew: bool, passwordModified: bool, rt: Runtime)
    requires SaveOutcome(users, doc, isNew, passwordModified, rt).Some?
    ensures var u := SaveOutcome(users, doc, isNew, passwordModified, rt).value;
      && Conforms(doc) && u == PreSave(doc, isNew, passwordModified, rt) && !Clashes(users, u)
      && (isNew <==> IndexOfId(users, doc.id).None?)
  {
  }

  /** Conversely, a conforming document with the right `isNew` whose hooked form clashes with nobody is saved as hooked. */
  lemma SaveSucceeds(users: seq<User>, doc: User, isNew: bool, passwordModified: bool, rt: Runtime)
    requires Conforms(doc) && (isNew <==> IndexOfId(users, doc.id).None?)
    requires !Clashes(users, PreSave(doc, isNew, passwordModified, rt))
    ensures SaveOutcome(users, doc, isNew, passwordModified, rt) == Some(PreSave(doc, isNew, passwordModified, rt))
  {
  }

  /** Saving a new document appends it, under its own id. */
  lemma SaveNewAppends(users: seq<User>, doc: User, passwordModified: bool, rt: Runtime)
    requires SaveOutcome(users, doc, true, passwordModified, rt).Some?
    ensures var u := SaveOutcome(users, doc, true, passwordModified, rt).value;
      u.id == doc.id && Written(users, u) == users + [u]
  {
    SaveOutcomeIsHooked(users, doc, true, passwordModified, rt);
  }

  /** A successful save keeps the collection invariant. */
  lemma {:induction false} SaveKeepsStoreValid(users: seq<User>, nextId: UserId, doc: User, isNew: bool,
                                               passwordModified: bool, rt: Runtime)
    requires StoreValid(users, nextId) && rt.Valid()
    requires Normalized(doc) && doc.id < nextId
    requires SaveOutcome(users, doc, isNew, passwordModified, rt).Some?
    ensures StoreValid(Written(users, SaveOutcome(users, doc, isNew, passwordModified, rt).value), nextId)
  {
    var u := SaveOutcome(users, doc, isNew, passwordModified, rt).value;
    PreSaveEffect(doc, isNew, passwordModified, rt);
    assert RecordValid(u, nextId) && u.id == doc.id;
    var w := Written(users, u);
    match IndexOfId(users, u.id)
    case Some(k) =>
      assert w == users[k := u];
      forall i, j | 0 <= i < |w| && 0 <= j < |w| && i != j
        ensures w[i].id != w[j].id && !Clash(w[i], w[j])
      {
        if i == k {
          assert users[j].id != u.id;
          assert !Clash(users[j], u);
        } else if j == k {
          assert users[i].id != u.id;
          assert !Clash(users[i], u);
        }
      }
    case None =>
      assert w == users + [u];
      forall i, j | 0 <= i < |w| && 0 <= j < |w| && i != j
        ensures w[i].id != w[j].id && !Clash(w[i], w[j])
      {
        if i == |users| {
          assert users[j].id != u.id;
          assert !Clash(users[j], u);
        } else if j == |users| {
          assert users[i].id != u.id;
          assert !Clash(users[i], u);
        }
      }
  }

  /** With unique ids, writing a stored id replaces that one document in place. */
  lemma WrittenInPlace(users: seq<User>, k: nat, u: User)
    requires Unique(users) && k < |users| && users[k].id == u.id
    ensures Written(users, u) == users[k := u]
  {
    FindFirstUnique(users, ById(u.id), k);
  }

  /** The collection of user documents. */
  class UserStore {
    var users: seq<User>
    var nextId: UserId

    ghost predicate Valid()
      reads this
    {
      StoreValid(users, nextId)
    }

    constructor ()
      ensures Valid() && users == [] && nextId == 0
    {
      users := [];
      nextId := 0;
    }

    /** `new User(...)` draws a fresh ObjectId. */
    method FreshId() returns (id: UserId)
      requires Valid()
      modifies this`nextId
      ensures Valid() && id == old(nextId) && nextId == old(nextId) + 1
      ensures IndexOfId(users, id).None?
    {
      id := nextId;
      nextId := nextId + 1;
      forall i | 0 <= i < |users| ensures RecordValid(users[i], nextId) {
        assert RecordValid(users[i], id);
      }
    }

    /** `doc.save()` against the collection; `isNew` and `passwordModified` are the document's flags. */
    method Save(doc: User, isNew: bool, passwordModified: bool, rt: Runtime) returns (saved: Option<User>)
      requires Valid() && rt.Valid()
      requires Normalized(doc) && doc.id < nextId
      modifies this`users
      ensures Valid()
      ensures saved == SaveOutcome(old(users), doc, isNew, passwordModified, rt)
      ensures users == if saved.Some? then Written(old(users), saved.value) else old(users)
    {
      if !Conforms(doc) {
        return None;
      }
      if isNew == IndexOfId(users, doc.id).Some? {
        return None;
      }
      var document := new UserDocument(doc, isNew, passwordModified);
      document.HashPasswordHook(rt.bcryptHash);
      document.StreamKeyHook(rt.randomBytes);
      var hooked := document.record;
      if Clashes(users, hooked) {
        return None;
      }
      SaveKeepsStoreValid(users, nextId, doc, isNew, passwordModified, rt);
      users := Written(users, hooked);
      saved := Some(hooked);
    }
  }
}

/**
 * The stream directory: the live listing joined against the users' stream
 * keys, the streamer list and lookup, and the profile update.
 */
module StreamRoutes {
  import opened Wrappers
  import opened JsString
  import opened Users
  import opened Passport
  import opened Http

  /** One published stream as the ingest server reports it; `viewers` may be missing. */
  datatype IngestStream = IngestStream(key: string, viewers: Option<int>)

  /** One application of the ingest server's `{app -> {key -> info}}` table, keys in iteration order. */
  datatype IngestApp = IngestApp(app: string, streams: seq<IngestStream>)

  /** `viewers || 0`. */
  function ViewersOrZero(viewers: Option<int>): int {
    if viewers.Some? then viewers.value else 0
  }

  function StreamPath(app: string, key: string): string {
    "/" + app + "/" + key
  }

  /** The entry for one active stream: empty when no user owns its key. */
  function EntryFor(app: string, stream: IngestStream, users: seq<User>): (r: seq<LiveEntry>)
    ensures |r| <= 1
    ensures r == [] <==> forall j :: 0 <= j < |users| ==> users[j].streamKey != Some(stream.key)
    ensures r != [] ==> r[0].streamPath == StreamPath(app, stream.key) && r[0].viewers == ViewersOrZero(stream.viewers)
    ensures r != [] ==> exists j :: (0 <= j < |users| && users[j].streamKey == Some(stream.key)
      && r[0].username == users[j].username && r[0].nickname == users[j].nickname
      && r[0].profileImage == users[j].profileImage)
  {
    match FindOne(users, ByStreamKey(stream.key))
    case None => []
    case Some(u) => [LiveEntry(u.username, u.nickname, u.profileImage, StreamPath(app, stream.key), ViewersOrZero(stream.viewers))]
  }

  /** One (application, stream) pair of the ingest table. */
  datatype ActivePair = ActivePair(app: string, stream: IngestStream)

  /** An application's pairs, in key order. */
  function AppPairs(a: IngestApp): (r: seq<ActivePair>)
    ensures |r| == |a.streams|
    ensures forall i :: 0 <= i < |r| ==> r[i] == ActivePair(a.app, a.streams[i])
  {
    seq(|a.streams|, i requires 0 <= i < |a.streams| => ActivePair(a.app, a.streams[i]))
  }

  /** Every active pair, applications first and keys within each. */
  function ActivePairs(active: seq<IngestApp>): seq<ActivePair>
    decreases |active|
  {
    if active == [] then [] else AppPairs(active[0]) + ActivePairs(active[1..])
  }

  /** `flatMap`: the concatenation of `f` over `xs`, in order. */
  function FlatMap<T, U>(xs: seq<T>, f: T -> seq<U>): seq<U>
    decreases |xs|
  {
    if xs == [] then [] else f(xs[0]) + FlatMap(xs[1..], f)
  }

  lemma {:induction false} FlatMapAppend<T, U>(p: seq<T>, q: seq<T>, f: T -> seq<U>)
    ensures FlatMap(p + q, f) == FlatMap(p, f) + FlatMap(q, f)
    decreases |p|
  {
    if p == [] {
      assert p + q == q;
    } else {
      assert (p + q)[1..] == p[1..] + q;
      FlatMapAppend(p[1..], q, f);
    }
  }

  /** An element of a `flatMap` comes from the image of some element, and every such image is included. */
  lemma {:induction false} FlatMapMembers<T, U>(xs: seq<T>, f: T -> seq<U>)
    ensures forall e :: e in FlatMap(xs, f) <==> exists i :: 0 <= i < |xs| && e in f(xs[i])
    decreases |xs|
  {
    if xs != [] {
      FlatMapMembers(xs[1..], f);
      forall e ensures e in FlatMap(xs, f) <==> exists i :: 0 <= i < |xs| && e in f(xs[i]) {
        if e in FlatMap(xs[1..], f) {
          var i :| 0 <= i < |xs[1..]| && e in f(xs[1..][i]);
          assert xs[1..][i] == xs[i + 1];
        }
        if exists i :: 0 <= i < |xs| && e in f(xs[i]) {
          var i :| 0 <= i < |xs| && e in f(xs[i]);
          if i > 0 {
            assert xs[1..][i - 1] == xs[i];
          }
        }
      }
    }
  }

  /** A `flatMap` of images with at most one element each is no longer than its input. */
  lemma {:induction false} FlatMapAtMostOne<T, U>(xs: seq<T>, f: T -> seq<U>)
    requires forall i :: 0 <= i < |xs| ==> |f(xs[i])| <= 1
    ensures |FlatMap(xs, f)| <= |xs|
    decreases |xs|
  {
    if xs != [] {
      assert forall i :: 0 <= i < |xs[1..]| ==> xs[1..][i] == xs[i + 1];
      FlatMapAtMostOne(xs[1..], f);
    }
  }

  /** The entry of one pair, as the function `flatMap` applies. */
  function PairEntry(users: seq<User>): ActivePair -> seq<LiveEntry> {
    (p: ActivePair) => EntryFor(p.app, p.stream, users)
  }

  /** The entries of one application's streams, in key order. */
  function AppEntries(app: string, streams: seq<IngestStream>, users: seq<User>): seq<LiveEntry> {
    FlatMap(AppPairs(IngestApp(app, streams)), PairEntry(users))
  }

  /** The `/live` listing: the entries of every active pair, applications in order and each one's keys in order. */
  function LiveListing(active: seq<IngestApp>, users: seq<User>): seq<LiveEntry> {
    FlatMap(ActivePairs(active), PairEntry(users))
  }

  lemma {:induction false} ActivePairsAppend(active: seq<IngestApp>, a: IngestApp)
    ensures ActivePairs(active + [a]) == ActivePairs(active) + AppPairs(a)
    decreases |active|
  {
    if active == [] {
      assert ActivePairs([a]) == AppPairs(a) + ActivePairs([]);
    } else {
      assert (active + [a])[1..] == active[1..] + [a];
      ActivePairsAppend(active[1..], a);
    }
  }

  /** One more key of an application adds that key's entry at the end. */
  lemma AppEntriesSnoc(app: string, streams: seq<IngestStream>, k: nat, users: seq<User>)
    requires k < |streams|
    ensures AppEntries(app, streams[..k + 1], users) == AppEntries(app, streams[..k], users) + EntryFor(app, streams[k], users)
  {
    var f := PairEntry(users);
    var pair := ActivePair(app, streams[k]);
    assert AppPairs(IngestApp(app, streams[..k + 1])) == AppPairs(IngestApp(app, streams[..k])) + [pair];
    FlatMapAppend(AppPairs(IngestApp(app, streams[..k])), [pair], f);
    assert FlatMap([pair], f) == f(pair) + FlatMap([], f);
  }

  /** One more application adds that application's entries at the end. */
  lemma LiveListingSnoc(active: seq<IngestApp>, a: nat, users: seq<User>)
    requires a < |active|
    ensures LiveListing(active[..a + 1], users) == LiveListing(active[..a], users) + AppEntries(active[a].app, active[a].streams, users)
  {
    assert active[..a + 1] == active[..a] + [active[a]];
    ActivePairsAppend(active[..a], active[a]);
    FlatMapAppend(ActivePairs(active[..a]), AppPairs(active[a]), PairEntry(users));
    assert active[a] == IngestApp(active[a].app, active[a].streams);
  }

  /**
   * An entry is listed exactly when it is the entry of some active pair,
   * and there are never more entries than active pairs.
   */
  lemma LiveListingMembers(active: seq<IngestApp>, users: seq<User>)
    ensures |LiveListing(active, users)| <= |ActivePairs(active)|
    ensures forall e :: e in LiveListing(active, users) <==>
      exists i :: 0 <= i < |ActivePairs(active)| && e in EntryFor(ActivePairs(active)[i].app, ActivePairs(active)[i].stream, users)
  {
    var pairs := ActivePairs(active);
    var f := PairEntry(users);
    assert forall i :: 0 <= i < |pairs| ==> f(pairs[i]) == EntryFor(pairs[i].app, pairs[i].stream, users);
    FlatMapAtMostOne(pairs, f);
    FlatMapMembers(pairs, f);
  }

  /**
   * `GET /live`: the nested `for...in` loops over applications and keys,
   * pushing an entry for each key some user owns.
   */
  method ListLive(store: UserStore, active: seq<IngestApp>) returns (resp: Response)
    ensures resp == Response(200, LivePayload(LiveListing(active, store.users)))
  {
    var users := store.users;
    var streamsInfo: seq<LiveEntry> := [];
    var a := 0;
    while a < |active|
      invariant 0 <= a <= |active|
      invariant streamsInfo == LiveListing(active[..a], users)
    {
      var appName := active[a].app;
      var streams := active[a].streams;
      ghost var done := streamsInfo;
      var k := 0;
      while k < |streams|
        invariant 0 <= k <= |streams|
        invariant streamsInfo == done + AppEntries(appName, streams[..k], users)
      {
        AppEntriesSnoc(appName, streams, k, users);
        var pushed := EntryFor(appName, streams[k], users);
        ghost var kept := AppEntries(appName, streams[..k], users);
        assert (done + kept) + pushed == done + (kept + pushed);
        streamsInfo := streamsInfo + pushed;
        k := k + 1;
      }
      assert streams[..k] == streams;
      LiveListingSnoc(active, a, users);
      a := a + 1;
    }
    assert active[..a] == active;
    resp := Response(200, LivePayload(streamsInfo));
  }

  /** The projection `select('username nickname profileImage')` returns. */
  function Select(u: User): StreamerInfo {
    StreamerInfo(u.id, u.username, u.nickname, u.profileImage)
  }

  /** `find({ role: 'streamer' })` in natural order. */
  function StreamerInfos(users: seq<User>): seq<StreamerInfo>
    decreases |users|
  {
    if users == [] then []
    else (if users[0].role == Streamer then [Select(users[0])] else []) + StreamerInfos(users[1..])
  }

  /** `GET /streamers`. */
  function ListStreamers(users: seq<User>): Response {
    Response(200, StreamersPayload(StreamerInfos(users)))
  }

  /** Listed are exactly the projections of users whose role is `streamer`; admins are not listed. */
  lemma {:induction false} StreamersAreExactlyStreamers(users: seq<User>)
    ensures ListStreamers(users).status == 200
    ensures var listed := ListStreamers(users).body.streamers;
      && |listed| <= |users|
      && forall x :: x in listed <==> exists j :: 0 <= j < |users| && users[j].role == Streamer && x == Select(users[j])
    decreases |users|
  {
    if users != [] {
      StreamersAreExactlyStreamers(users[1..]);
      var listed := StreamerInfos(users);
      forall x ensures x in listed <==> exists j :: 0 <= j < |users| && users[j].role == Streamer && x == Select(users[j])
      {
        if x in StreamerInfos(users[1..]) {
          var j :| 0 <= j < |users[1..]| && users[1..][j].role == Streamer && x == Select(users[1..][j]);
          assert users[1..][j] == users[j + 1];
        }
        if exists j :: 0 <= j < |users| && users[j].role == Streamer && x == Select(users[j]) {
          var j :| 0 <= j < |users| && users[j].role == Streamer && x == Select(users[j]);
          if j > 0 {
            assert users[1..][j - 1] == users[j];
          }
        }
      }
    }
  }

  const StreamerNotFound := "스트리머를 찾을 수 없습니다."

  /** `GET /:username`: only a user with that (trim-cast) username and role `streamer` is found. */
  function StreamerByUsername(users: seq<User>, username: string): (resp: Response)
    ensures resp.status in {200, 404}
    ensures resp.status == 404 <==>
      forall j :: 0 <= j < |users| ==> !(users[j].username == CastUsername(username) && users[j].role == Streamer)
    ensures resp.status == 404 ==> resp.body == Message(StreamerNotFound)
    ensures resp.status == 200 ==> exists j :: (0 <= j < |users|
      && users[j].username == CastUsername(username) && users[j].role == Streamer
      && resp.body == StreamerPayload(Select(users[j])))
  {
    match FindFirst(users, ByUsernameAndRole(CastUsername(username), Streamer))
    case None => Response(404, Message(StreamerNotFound))
    case Some(i) => Response(200, StreamerPayload(Select(users[i])))
  }

  /** The fields `/profile` reads from the request body. */
  datatype ProfileBody = ProfileBody(nickname: Option<string>, email: Option<string>)

  /** The in-memory edit of `req.user`: a provided, non-empty field is assigned (through its setter). */
  function Edited(u: User, body: ProfileBody): (r: User)
    ensures r == u.(nickname := r.nickname, email := r.email)
    ensures !Truthy(body.nickname) ==> r.nickname == u.nickname
    ensures !Truthy(body.email) ==> r.email == u.email
    ensures Truthy(body.nickname) ==> r.nickname == CastNickname(body.nickname.value)
    ensures Truthy(body.email) ==> r.email == CastEmail(body.email.value)
  {
    u.(nickname := if Truthy(body.nickname) then CastNickname(body.nickname.value) else u.nickname,
       email := if Truthy(body.email) then CastEmail(body.email.value) else u.email)
  }

  /** The edit keeps the stored document normalized: assigned values pass through their setters. */
  lemma EditedNormalized(u: User, body: ProfileBody)
    requires Normalized(u)
    ensures Normalized(Edited(u, body))
  {
    if Truthy(body.nickname) {
      CastsNormalize(body.nickname.value);
    }
    if Truthy(body.email) {
      CastsNormalize(body.email.value);
    }
  }

  /**
   * `PUT /profile`. The save re-validates the document (a blank nickname or
   * email after trimming fails) and the unique email index applies.
   */
  method UpdateProfile(store: UserStore, session: Option<UserId>, body: ProfileBody, rt: Runtime)
    returns (resp: Response)
    requires store.Valid() && rt.Valid()
    modifies store`users
    ensures store.Valid()
    ensures var user := CurrentUser(old(store.users), session);
      if user.None? then resp == Response(401, Message(LoginRequired)) && store.users == old(store.users)
      else
        var edited := Edited(user.value, body);
        if !Conforms(edited) || Clashes(old(store.users), edited) then
          resp == Response(500, Message(ServerError)) && store.users == old(store.users)
        else
          && resp == Response(200, UserPayload(ToAuthJson(edited)))
          && store.users == Written(old(store.users), edited)
  {
    var current := CurrentUser(store.users, session);
    var gate := RequireLogin(current);
    if gate.Some? {
      return gate.value;
    }
    var user := current.value;
    ghost var k :| 0 <= k < |store.users| && store.users[k] == user;
    var edited := Edited(user, body);
    assert RecordValid(user, store.nextId);
    EditedNormalized(user, body);
    FindFirstUnique(store.users, ById(user.id), k);
    PreSaveOfExisting(edited, rt);
    var saved := store.Save(edited, false, false, rt);
    if saved.None? {
      return Response(500, Message(ServerError));
    }
    resp := Response(200, UserPayload(ToAuthJson(saved.value)));
  }
}

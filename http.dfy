/**
 * HTTP outcomes of the REST routes (status code and JSON body) and the
 * authentication and role gates the routes share.
 */
module Http {
  import opened Wrappers
  import opened Users

  /** `select('username nickname profileImage')` also keeps `_id`. */
  datatype StreamerInfo = StreamerInfo(id: UserId, username: string, nickname: string, profileImage: string)

  /** One element of the `/live` listing. */
  datatype LiveEntry = LiveEntry(username: string, nickname: string, profileImage: string, streamPath: string, viewers: int)

  datatype Body =
    | Message(message: string)
    | UserPayload(user: AuthJson)
    | StreamKeyPayload(streamKey: Option<string>)
    | StreamersPayload(streamers: seq<StreamerInfo>)
    | StreamerPayload(streamer: StreamerInfo)
    | LivePayload(streams: seq<LiveEntry>)

  datatype Response = Response(status: nat, body: Body)

  const ServerError := "서버 오류가 발생했습니다."
  const LoginRequired := "로그인이 필요합니다."
  const StreamerRequired := "스트리머 권한이 필요합니다."

  /** JavaScript truthiness of an optional request-body string. */
  predicate Truthy(field: Option<string>) {
    field.Some? && field.value != []
  }

  /** The role check both route files use: streamers and admins pass. */
  predicate HasStreamerRights(role: Role) {
    role == Streamer || role == Admin
  }

  /** `isAuthenticated`: `None` lets the request through, otherwise the 401 it answers. */
  function RequireLogin(user: Option<User>): (r: Option<Response>)
    ensures r.None? <==> user.Some?
    ensures r.Some? ==> r.value == Response(401, Message(LoginRequired))
  {
    if user.Some? then None else Some(Response(401, Message(LoginRequired)))
  }

  /** `isStreamer`: `None` lets the request through, otherwise the 403 it answers. */
  function RequireStreamer(user: User): (r: Option<Response>)
    ensures r.None? <==> user.role in {Streamer, Admin}
    ensures r.Some? ==> r.value == Response(403, Message(StreamerRequired)) && user.role == Viewer
  {
    if HasStreamerRights(user.role) then None else Some(Response(403, Message(StreamerRequired)))
  }
}

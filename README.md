# makeliveserver — a verified model of its accounts, stream directory and chat client

makeliveserver is a small live-streaming site. An RTMP ingest server publishes
streams, and an Express/Mongoose REST API manages accounts and stream keys and
lists who is live. A browser client plays the HLS stream and runs a Socket.io
chat. This project models the logic under that glue, in Dafny:

- **User records** (`users.dfy`, module `Users`):
  - the schema constraints and the setters `trim`/`lowercase`;
  - the two `pre('save')` hooks, which hash a modified password and give a new streamer a stream key;
  - the safe projection `toAuthJSON`.
- **The user store** (`users.dfy`, class `Users.UserStore`): the users in natural order.
  - `findOne` returns the first match.
  - A save checks the schema first, then runs the hooks, then checks the unique indexes on `_id`, `username`, `email` and the sparse `streamKey`.
  - Its invariant says every stored record conforms, is normalized and is unique.
- **The login decision** (`passport.dfy`, module `Passport`):
  - the LocalStrategy verify chain: not found, wrong password, or success with the `lastLogin` stamp;
  - session serialization.
- **Account routes** (`auth_routes.dfy`, module `AuthRoutes`): `/register`, `/login`, `/me`, `/streamkey` and `/reset-streamkey`.
- **Stream routes** (`stream_routes.dfy`, module `StreamRoutes`):
  - the `/live` join of the ingest server's `{app -> {key -> info}}` table against the users' stream keys;
  - `/streamers`, `/:username` and `/profile`.
- **Shared HTTP pieces** (`http.dfy`, module `Http`): the response datatype, and the `isAuthenticated` / `isStreamer` middleware of `streams.js`.
  - `/profile` goes through `isAuthenticated`. No route uses `isStreamer`.
  - The routes in `auth.js` repeat both checks inline, and the model follows each route as written. Both files share the role test `HasStreamerRights`.
- **The browser client** (`client.dfy`, module `Client`):
  - `escapeHTML`;
  - the `sendMessage` guard, as class `ChatForm`;
  - stream-key extraction and the HLS URL;
  - the `viewerCount` counter, as class `ViewerCounter`.
- **JavaScript built-ins** (`js_string.dfy`, module `JsString`): `String.prototype.trim`, `toLowerCase`, `split`/join and `Buffer.toString('hex')`.

The parts outside the model's reach become parameters:
- **bcrypt** is a function `bcryptHash` whose results have 60 characters. `compare(c, h)` is `bcryptHash(c) == h`.
- **`crypto.randomBytes(16)`** is 16 given bytes.
- **Clocks** are given integers.
- **Database faults** are boolean parameters, where a property needs them.

The ingest server's publish events and the chat messages are relayed to every socket unconditionally (`app.js:48-69`). The code therefore has no publish authorization, no duplicate-publish check and no per-stream presence or chat room, and the model has none either.

## Model

Definitions that only compute have no row of their own; each is specified by the lemma and method rows that cite the same source lines:
- `Users.ToAuthJson`, by the two `AuthJson` lemmas;
- `Users.PreSave` and its two steps, by `Users.PreSaveEffect`;
- `Users.SaveOutcome`, by `Users.SaveOutcomeIsHooked` and `Users.SaveSucceeds`;
- `Passport.SerializeUser`, by `Passport.SessionRoundTrip`;
- `StreamRoutes.ListStreamers` and `StreamRoutes.StreamerInfos`, by `StreamRoutes.StreamersAreExactlyStreamers`;
- `Client.EscapeHtml`, by the `EscapeHtml` lemmas;
- `Client.StreamKeyOf`, `Client.HlsUrl` and `Client.StreamTitle`, by the stream-key lemmas;
- `Client.NextViewerCount`, by `Client.CountAfterBounds` and the `ViewerCounter` methods.

| member | source | states |
|---|---|---|
| Users.ParseRole | makeliveserver/models/User.js:30-34 | a role string is accepted exactly when it is the name of one of `viewer`, `streamer`, `admin` |
| Users.CastsNormalize | makeliveserver/models/User.js:9-18 | the username/nickname setter yields a trimmed string, the email setter a trimmed lower-case one, and each is the identity on already-normalized input |
| Users.AuthJsonOmitsSecrets | makeliveserver/models/User.js:82-91 | the projection does not change whatever the password, stream key, createdAt or lastLogin are |
| Users.AuthJsonDeterminedByPublicFields | makeliveserver/models/User.js:82-91 | two users project equally exactly when id, username, email, nickname, role and profileImage all agree |
| Users.PreSaveEffect | makeliveserver/models/User.js:54-74 | the hooks change only password and streamKey; the password becomes its hash iff it was modified; the key changes iff the document is new, a `streamer`, and has no (or an empty) key, and then it is 32 hex digits |
| Users.PreSaveOfExisting | makeliveserver/models/User.js:54-74 | saving an existing document with an unmodified password leaves it unchanged |
| Users.UserDocument.HashPasswordHook | makeliveserver/models/User.js:54-65 | the document's new state is the old one with the password hashed iff it was modified |
| Users.UserDocument.StreamKeyHook | makeliveserver/models/User.js:68-74 | the document's new state is the old one with a fresh hex key iff new streamer without a key |
| Users.FindFirst | makeliveserver/routes/auth.js:17 | the result is the index of the first user matching the filter, or none when no user matches |
| Users.FindOne | makeliveserver/config/passport.js:15 | a found user is in the store and matches; none means no user matches |
| Users.FindFirstUnique | makeliveserver/models/User.js:5-38 | when exactly one user matches (as unique indexes guarantee) the lookup finds that one |
| Users.SaveOutcomeIsHooked | makeliveserver/models/User.js:4-74 | a successful save stores the hooked document, which passed validation and clashes with no other record, and it is new exactly when its id is not stored |
| Users.SaveSucceeds | makeliveserver/models/User.js:4-74 | a conforming document whose `isNew` flag matches the store and whose hooked form clashes with no other record is saved, as hooked |
| Users.SaveNewAppends | makeliveserver/models/User.js:54-74 | saving a new document keeps its id and appends the hooked record at the end |
| Users.SaveKeepsStoreValid | makeliveserver/models/User.js:4-51 | a successful save keeps every record conforming, normalized, with distinct ids and no shared username, email or stream key |
| Users.WrittenInPlace | makeliveserver/models/User.js:4-51 | saving an existing document replaces exactly its own slot |
| Users.UserStore.constructor | makeliveserver/models/User.js:93 | the store starts empty and valid |
| Users.UserStore.FreshId | makeliveserver/routes/auth.js:29 | a new document gets an id no stored user has, and the store stays valid |
| Users.UserStore.Save | makeliveserver/models/User.js:4-74 | the result is the validated, hooked, index-checked outcome; the store gets that record written (replaced or appended) on success and is untouched on failure; the invariant is kept |
| Passport.Authenticate | makeliveserver/config/passport.js:15-32 | rejected with the not-found message iff no user has the (trimmed) username; a mismatch names a user whose hash differs; success returns a stored user with that username whose password matches |
| Passport.AuthenticateDecides | makeliveserver/config/passport.js:15-32 | with unique usernames: the mismatch message iff some user has that username and a different password hash, and success iff some user has it and a matching one, in which case that user is the one authenticated |
| Passport.StampedSaveSucceeds | makeliveserver/config/passport.js:29-30 | stamping `lastLogin` on a stored user always saves and changes only that user's slot |
| Passport.Verify | makeliveserver/config/passport.js:12-36 | a lookup or save fault gives an error and never success; a rejection leaves the store unchanged; success returns the user with `lastLogin` set and stores exactly that record |
| Passport.DeserializeUser | makeliveserver/config/passport.js:45-52 | a restored user is stored with that id; none means no user has it |
| Passport.SessionRoundTrip | makeliveserver/config/passport.js:40-52 | deserializing a serialized stored user gives back the same user |
| Passport.CurrentUser | makeliveserver/routes/auth.js:85 | there is a current user iff the session holds an id that a stored user has |
| Http.RequireLogin | makeliveserver/routes/streams.js:6-11 | the request passes iff there is a user; otherwise 401 with the login message |
| Http.RequireStreamer | makeliveserver/routes/streams.js:14-19 | the request passes iff the role is `streamer` or `admin`; otherwise 403 and the role is `viewer` |
| AuthRoutes.NewUser | makeliveserver/routes/auth.js:29-35 | the draft exists iff the requested role (the given one, or `viewer` when it is missing or empty) is a valid role; it is normalized, defaults to `viewer`, has no key, no lastLogin and the default image |
| AuthRoutes.Register | makeliveserver/routes/auth.js:7-50 | 400 for missing fields, then for a taken username, then for a taken email, each with the store unchanged; otherwise exactly the saved user is appended, with 201 and its projection (or 500 when the save or login fails); uniqueness is kept |
| AuthRoutes.CreateAccount | makeliveserver/routes/auth.js:29-50 | with the fields present, exactly the saved record is appended on success (201 and its projection, or 500 when login fails) and the store is untouched with 500 when the save fails |
| AuthRoutes.RegisteredRecord | makeliveserver/routes/auth.js:29-37 | a registered user has the cast fields, the hashed password, the requested role or `viewer`, a 32-hex key exactly when a streamer, the default image and the creation time |
| AuthRoutes.RegistrationSucceeds | makeliveserver/routes/auth.js:28-44 | an admitted request with a valid role, a trimmed username of 3 to 20 characters, a password of at least 6, a non-blank nickname and email, and (for a streamer) an untaken fresh key is stored |
| AuthRoutes.RegisterThenAuthenticate | makeliveserver/routes/auth.js:29-44 | right after registration the same username and password authenticate as the new user |
| AuthRoutes.LoginResponse | makeliveserver/routes/auth.js:53-71 | 200 iff authenticated and login succeeds, 401 with the strategy's message iff rejected, 500 on a strategy error or a failed login |
| AuthRoutes.Me | makeliveserver/routes/auth.js:84-90 | 401 iff no current user; otherwise that user's projection |
| AuthRoutes.GetStreamKey | makeliveserver/routes/auth.js:93-103 | 401 iff no current user, 403 iff the user is a viewer, otherwise the user's stored key unchanged |
| AuthRoutes.ResetStreamKey | makeliveserver/routes/auth.js:106-124 | 401/403 gates with the store unchanged; otherwise the caller's key becomes the fresh key and is returned, or 500 when it collides with another user's key |
| AuthRoutes.ResetTouchesOnlyTheKey | makeliveserver/routes/auth.js:116-117 | the fresh key is 32 hex digits and the write replaces only the caller's record |
| StreamRoutes.EntryFor | makeliveserver/routes/streams.js:46-56 | no entry iff no user owns the key; an entry carries the owner's username, nickname and image, the path `/app/key` and the viewer count or 0 |
| StreamRoutes.ListLive | makeliveserver/routes/streams.js:35-61 | the nested loops produce exactly the flat-map of the entry function over the active (app, key) pairs, apps first and keys within each |
| StreamRoutes.AppEntriesSnoc | makeliveserver/routes/streams.js:44-57 | one more key of an application appends exactly that key's entry to the application's entries |
| StreamRoutes.LiveListingSnoc | makeliveserver/routes/streams.js:43-58 | one more application appends exactly that application's entries to the listing |
| StreamRoutes.LiveListingMembers | makeliveserver/routes/streams.js:41-59 | at most one entry per active (app, key) pair, and an entry is listed iff it is the entry of some active pair |
| StreamRoutes.StreamersAreExactlyStreamers | makeliveserver/routes/streams.js:22-32 | 200 listing exactly the projections of users whose role is `streamer` (admins excluded) |
| StreamRoutes.StreamerByUsername | makeliveserver/routes/streams.js:69-85 | 404 with its message iff no user has that username and role `streamer`; otherwise 200 with such a user's projection |
| StreamRoutes.Edited | makeliveserver/routes/streams.js:93-94 | only nickname and email can change, each only when provided non-empty, and then to the setter-cast value |
| StreamRoutes.EditedNormalized | makeliveserver/routes/streams.js:93-94 | the edit keeps the record normalized |
| StreamRoutes.UpdateProfile | makeliveserver/routes/streams.js:88-103 | 401 without a user; 500 with the store unchanged when the edited record fails validation or takes another user's email; otherwise only the caller's record is replaced by the edit and its projection returned |
| Client.EscapeHtmlIsPerChar | makeliveserver/public/js/main.js:195-202 | the replacement chain equals the per-character entity map |
| Client.EscapeHtmlSafe | makeliveserver/public/js/main.js:195-202 | the output has no `<`, `>`, `"` or `'`, is at least as long as the input, and equals the input iff it has none of `& < > " '` |
| Client.EscapeHtmlIdempotentIff | makeliveserver/public/js/main.js:197 | escaping twice equals escaping once exactly when the text needs no escaping |
| Client.EscapeRoundTrip | makeliveserver/public/js/main.js:160-168 | decoding the five entities gives back exactly the original text |
| Client.OutgoingMessage | makeliveserver/public/js/main.js:143-152 | a message exists iff the content has a non-whitespace character; it carries the trimmed content, the trimmed username or `익명` when that is blank |
| Client.ChatForm.SendMessage | makeliveserver/public/js/main.js:143-157 | emits that message and clears the input only when it exists; otherwise nothing is emitted and the input is kept |
| Client.StreamKeyOfPath | makeliveserver/public/js/main.js:35-37 | for `/app/key` the key is `key`, and the HLS URL is under `live` whatever the app |
| Client.StreamTitleOfPath | makeliveserver/public/js/main.js:88 | for `/app/key` the stream title names `key` |
| Client.StreamKeyOfUnrooted | makeliveserver/public/js/main.js:36-37 | a path without the leading slash yields no key and a URL containing `undefined` |
| Client.ViewerCounter.constructor | makeliveserver/public/js/main.js:17 | the count starts at zero with an empty event history |
| Client.CountAfterBounds | makeliveserver/public/js/main.js:119-128 | the count is never negative, never above the number of connects, and at least connects minus disconnects |
| Client.ViewerCounter.OnConnect | makeliveserver/public/js/main.js:119-120 | the count grows by one and stays the count of the event history |
| Client.ViewerCounter.OnDisconnect | makeliveserver/public/js/main.js:125-126 | the count drops by one with a floor at zero and stays the count of the event history |
| JsString.Trim | makeliveserver/models/User.js:9 | the result is no longer than the input and has no whitespace at either end |
| JsString.ToLowerCase | makeliveserver/models/User.js:18 | the length is kept and each character is replaced by its case-folded form |
| JsString.Split | makeliveserver/public/js/main.js:36 | there is at least one piece and no piece contains the separator |
| JsString.HexEncode | makeliveserver/models/User.js:71 | two characters per byte, each one a lower-case hex digit |
| JsString.TrimmedIffFixedPoint | makeliveserver/models/User.js:9 | trim leaves no whitespace at either end, and it is the identity exactly on strings without such whitespace |
| JsString.TrimIsInfix | makeliveserver/models/User.js:9 | trim removes exactly the leading and trailing whitespace |
| JsString.TrimEmptyIffBlank | makeliveserver/public/js/main.js:144-147 | a trimmed string is empty iff every character was whitespace |
| JsString.TrimIdempotent | makeliveserver/models/User.js:9 | trimming twice is trimming once |
| JsString.ToLowerCaseShape | makeliveserver/models/User.js:18 | the result is lower case, trimmed input stays trimmed, and lower-casing is the identity exactly on lower-case input |
| JsString.TrimLowerCommute | makeliveserver/models/User.js:17-18 | trimming and lower-casing commute |
| JsString.JoinSplit | makeliveserver/public/js/main.js:36 | joining the pieces of a split gives back the string |
| JsString.SplitJoin | makeliveserver/public/js/main.js:36 | splitting a join of separator-free pieces gives back the pieces |
| JsString.HexRoundTrip | makeliveserver/models/User.js:71 | the hex encoding of bytes decodes back to the bytes |
| JsString.HexKeyShape | makeliveserver/models/User.js:71 | 16 random bytes encode to 32 hex digits |

## Left out

- `app.js` (ingest-server configuration, start-up and unconditional Socket.io relays) is not part of this model; it holds no decisions.
- The hls.js player setup, its error recovery, the DOM updates and the `fetch('/streams')` start-up request in `main.js` are browser and library I/O.
- `/logout` and the session and cookie machinery are left out; a session is modelled as an optional user id.
- bcrypt: the salt is not modelled. Hashing is a fixed function and comparison is equality with its result, so two hashes of one password are equal here.
- JsString.ToLowerCase: lower-cases ASCII letters only, because JavaScript's full Unicode case mapping is not modelled.
- String lengths (username 3–20, password ≥ 6) count characters, not UTF-16 code units; they differ only for characters outside the Basic Multilingual Plane.
- Database faults are modelled only in `Passport.Verify`, where the error outcome is a stated property. Elsewhere a `find`/`findOne` never fails. The 500 answers for those faults are the catch blocks the model otherwise represents by failed saves.
- The order of `for...in` over the ingest server's table is taken as given: `StreamRoutes.IngestApp` lists apps and keys in iteration order.
- StreamRoutes.ViewersOrZero: takes the viewer count as an optional integer. `NaN` and other falsy non-numbers, which `|| 0` also maps to 0, are not modelled.
- Request-body fields are optional strings. Non-string JSON values (numbers, arrays) that Mongoose would cast are not modelled.
- `/:username` cannot reach a streamer named `streamers` or `live`, because those routes are registered first. The model takes the route as reached.
- The race between registration's duplicate checks and the insert is modelled as one sequential step. Only the unique indexes, which the save re-checks, guard it in the code.
- Client.EscapeRoundTrip: decodes only the five entities. The HTML parser also turns CR and CRLF into LF and drops U+0000 in text, so relayed text containing those characters does not come back unchanged.
- `addChatMessage` (`main.js:166`) also puts `message.time` into `innerHTML` unescaped. Since chat messages are relayed from any socket, only the username and the content are protected by `escapeHTML`; the model covers those two.
- Passport.Verify: assumes non-empty credentials. The local strategy answers a missing or empty username or password with `Missing credentials` (401 through `AuthRoutes.LoginResponse`) before the verify callback runs; that library check is not modelled.
- `Date.now()` and `toLocaleTimeString()` are parameters.
- Mongoose's `ObjectId` generation is a counter that never repeats an id.

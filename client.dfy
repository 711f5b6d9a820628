/**
 * The browser client's logic: HTML escaping of chat text, the chat-send
 * guard, extracting the stream key from a stream path, and the local
 * viewer counter.
 */
module Client {
  import opened Wrappers
  import opened JsString

  // ---------------------------------------------------------------- escapeHTML

  /** `s.replace(/c/g, rep)` for a one-character pattern. */
  function ReplaceAll(s: string, c: char, rep: string): string
    decreases |s|
  {
    if s == [] then [] else (if s[0] == c then rep else [s[0]]) + ReplaceAll(s[1..], c, rep)
  }

  /** `escapeHTML`: five global replacements, `&` first. */
  function EscapeHtml(s: string): string {
    ReplaceAll(ReplaceAll(ReplaceAll(ReplaceAll(ReplaceAll(s,
      '&', "&amp;"), '<', "&lt;"), '>', "&gt;"), '"', "&quot;"), '\'', "&#039;")
  }

  predicate IsSpecial(c: char) {
    c == '&' || c == '<' || c == '>' || c == '"' || c == '\''
  }

  /** The characters that would open a tag or close an attribute value. */
  predicate IsMarkup(c: char) {
    c == '<' || c == '>' || c == '"' || c == '\''
  }

  /** The reference encoding of one character. */
  function EscapeChar(c: char): string {
    if c == '&' then "&amp;"
    else if c == '<' then "&lt;"
    else if c == '>' then "&gt;"
    else if c == '"' then "&quot;"
    else if c == '\'' then "&#039;"
    else [c]
  }

  /** The reference encoding of a string: each character on its own. */
  function EscapeEach(s: string): string
    decreases |s|
  {
    if s == [] then [] else EscapeChar(s[0]) + EscapeEach(s[1..])
  }

  lemma {:induction false} ReplaceAllAppend(a: string, b: string, c: char, rep: string)
    ensures ReplaceAll(a + b, c, rep) == ReplaceAll(a, c, rep) + ReplaceAll(b, c, rep)
    decreases |a|
  {
    if a == [] {
      assert a + b == b;
    } else {
      assert (a + b)[0] == a[0] && (a + b)[1..] == a[1..] + b;
      ReplaceAllAppend(a[1..], b, c, rep);
    }
  }

  lemma {:induction false} ReplaceAllAbsent(s: string, c: char, rep: string)
    requires c !in s
    ensures ReplaceAll(s, c, rep) == s
    decreases |s|
  {
    if s != [] {
      ReplaceAllAbsent(s[1..], c, rep);
      assert [s[0]] + s[1..] == s;
    }
  }

  lemma EscapeHtmlAppend(a: string, b: string)
    ensures EscapeHtml(a + b) == EscapeHtml(a) + EscapeHtml(b)
  {
    var s1a, s1b := ReplaceAll(a, '&', "&amp;"), ReplaceAll(b, '&', "&amp;");
    ReplaceAllAppend(a, b, '&', "&amp;");
    var s2a, s2b := ReplaceAll(s1a, '<', "&lt;"), ReplaceAll(s1b, '<', "&lt;");
    ReplaceAllAppend(s1a, s1b, '<', "&lt;");
    var s3a, s3b := ReplaceAll(s2a, '>', "&gt;"), ReplaceAll(s2b, '>', "&gt;");
    ReplaceAllAppend(s2a, s2b, '>', "&gt;");
    var s4a, s4b := ReplaceAll(s3a, '"', "&quot;"), ReplaceAll(s3b, '"', "&quot;");
    ReplaceAllAppend(s3a, s3b, '"', "&quot;");
    ReplaceAllAppend(s4a, s4b, '\'', "&#039;");
  }

  /** Applying the chain after the stage that produced `e` leaves `e` alone: an entity holds no later pattern. */
  lemma ChainFixes(e: string, from: nat)
    requires 1 <= from <= 5
    requires from <= 1 ==> '<' !in e
    requires from <= 2 ==> '>' !in e
    requires from <= 3 ==> '"' !in e
    requires from <= 4 ==> '\'' !in e
    ensures from == 1 ==> ReplaceAll(ReplaceAll(ReplaceAll(ReplaceAll(e, '<', "&lt;"), '>', "&gt;"), '"', "&quot;"), '\'', "&#039;") == e
    ensures from == 2 ==> ReplaceAll(ReplaceAll(ReplaceAll(e, '>', "&gt;"), '"', "&quot;"), '\'', "&#039;") == e
    ensures from == 3 ==> ReplaceAll(ReplaceAll(e, '"', "&quot;"), '\'', "&#039;") == e
    ensures from == 4 ==> ReplaceAll(e, '\'', "&#039;") == e
  {
    if from <= 1 { ReplaceAllAbsent(e, '<', "&lt;"); }
    if from <= 2 { ReplaceAllAbsent(e, '>', "&gt;"); }
    if from <= 3 { ReplaceAllAbsent(e, '"', "&quot;"); }
    if from <= 4 { ReplaceAllAbsent(e, '\'', "&#039;"); }
  }

  lemma ReplaceAllSingle(x: char, c: char, rep: string)
    ensures ReplaceAll([x], c, rep) == if x == c then rep else [x]
  {
    assert [x][1..] == [];
  }

  lemma EscapeHtmlChar(x: char)
    ensures EscapeHtml([x]) == EscapeChar(x)
  {
    ReplaceAllSingle(x, '&', "&amp;");
    if x == '&' {
      ChainFixes("&amp;", 1);
    } else {
      ReplaceAllSingle(x, '<', "&lt;");
      if x == '<' {
        ChainFixes("&lt;", 2);
      } else {
        ReplaceAllSingle(x, '>', "&gt;");
        if x == '>' {
          ChainFixes("&gt;", 3);
        } else {
          ReplaceAllSingle(x, '"', "&quot;");
          if x == '"' {
            ChainFixes("&quot;", 4);
          } else {
            ReplaceAllSingle(x, '\'', "&#039;");
          }
        }
      }
    }
  }

  /**
   * Because `&` is replaced first, the chain of replacements is the
   * per-character encoding: every `&` becomes exactly `&amp;` and the
   * entities written for `<>"'` are never escaped again.
   */
  lemma {:induction false} EscapeHtmlIsPerChar(s: string)
    ensures EscapeHtml(s) == EscapeEach(s)
    decreases |s|
  {
    if s == [] {
    } else {
      assert s == [s[0]] + s[1..];
      EscapeHtmlAppend([s[0]], s[1..]);
      EscapeHtmlChar(s[0]);
      EscapeHtmlIsPerChar(s[1..]);
    }
  }

  predicate Plain(s: string) {
    forall i :: 0 <= i < |s| ==> !IsSpecial(s[i])
  }

  /** The reference encoding contains no markup character. */
  lemma {:induction false} EscapeEachNoMarkup(s: string)
    ensures forall i :: 0 <= i < |EscapeEach(s)| ==> !IsMarkup(EscapeEach(s)[i])
    decreases |s|
  {
    if s != [] {
      EscapeEachNoMarkup(s[1..]);
      var head, tail := EscapeChar(s[0]), EscapeEach(s[1..]);
      assert EscapeEach(s) == head + tail;
      forall i | 0 <= i < |head + tail| ensures !IsMarkup((head + tail)[i]) {
        if i >= |head| {
          assert (head + tail)[i] == tail[i - |head|];
        }
      }
    }
  }

  /** The reference encoding never shrinks, and keeps the length exactly on plain text. */
  lemma {:induction false} EscapeEachLength(s: string)
    ensures |EscapeEach(s)| >= |s|
    ensures |EscapeEach(s)| == |s| <==> Plain(s)
    decreases |s|
  {
    if s != [] {
      EscapeEachLength(s[1..]);
      assert Plain(s) <==> !IsSpecial(s[0]) && Plain(s[1..]) by {
        if !IsSpecial(s[0]) && Plain(s[1..]) {
          forall i | 0 <= i < |s| ensures !IsSpecial(s[i]) {
            if i > 0 {
              assert s[i] == s[1..][i - 1];
            }
          }
        }
      }
    }
  }

  /** Plain text is its own encoding. */
  lemma {:induction false} EscapeEachPlain(s: string)
    requires Plain(s)
    ensures EscapeEach(s) == s
    decreases |s|
  {
    if s != [] {
      assert !IsSpecial(s[0]);
      assert Plain(s[1..]) by {
        forall i | 0 <= i < |s[1..]| ensures !IsSpecial(s[1..][i]) {
          assert s[1..][i] == s[i + 1];
        }
      }
      EscapeEachPlain(s[1..]);
      assert s == [s[0]] + s[1..];
    }
  }

  /** `escapeHTML` output holds no `<`, `>`, `"` or `'`, is at least as long, and is the input when nothing needs escaping. */
  lemma EscapeHtmlSafe(s: string)
    ensures forall i :: 0 <= i < |EscapeHtml(s)| ==> !IsMarkup(EscapeHtml(s)[i])
    ensures |EscapeHtml(s)| >= |s|
    ensures Plain(s) <==> EscapeHtml(s) == s
  {
    EscapeHtmlIsPerChar(s);
    EscapeEachNoMarkup(s);
    EscapeEachLength(s);
    if Plain(s) {
      EscapeEachPlain(s);
    }
  }

  /** Any special character leaves an `&` in the reference encoding. */
  lemma {:induction false} EscapeEachAmpersand(s: string, k: nat)
    requires k < |s| && IsSpecial(s[k])
    ensures exists j :: 0 <= j < |EscapeEach(s)| && EscapeEach(s)[j] == '&'
    decreases |s|
  {
    var head, tail := EscapeChar(s[0]), EscapeEach(s[1..]);
    assert EscapeEach(s) == head + tail;
    if k == 0 {
      assert (head + tail)[0] == '&';
    } else {
      EscapeEachAmpersand(s[1..], k - 1);
      var j :| 0 <= j < |tail| && tail[j] == '&';
      assert (head + tail)[|head| + j] == '&';
    }
  }

  /** Escaping is idempotent exactly on text that needs no escaping: an escaped `&` is escaped again. */
  lemma EscapeHtmlIdempotentIff(s: string)
    ensures EscapeHtml(EscapeHtml(s)) == EscapeHtml(s) <==> Plain(s)
  {
    EscapeHtmlSafe(s);
    var e := EscapeHtml(s);
    EscapeHtmlSafe(e);
    if exists k :: 0 <= k < |s| && IsSpecial(s[k]) {
      var k :| 0 <= k < |s| && IsSpecial(s[k]);
      EscapeHtmlIsPerChar(s);
      EscapeEachAmpersand(s, k);
      var j :| 0 <= j < |e| && e[j] == '&';
      assert IsSpecial(e[j]);
    }
  }

  predicate StartsWith(s: string, prefix: string) {
    |prefix| <= |s| && s[..|prefix|] == prefix
  }

  /**
   * Decoding the five entities `escapeHTML` produces, as the HTML parser
   * does for text set through `innerHTML`. The parser's other text rules
   * (line-break normalization, dropping U+0000, other character references)
   * are not part of this decoder.
   */
  function UnescapeHtml(s: string): string
    decreases |s|
  {
    if s == [] then []
    else if s[0] != '&' then [s[0]] + UnescapeHtml(s[1..])
    else if StartsWith(s, "&amp;") then "&" + UnescapeHtml(s[5..])
    else if StartsWith(s, "&lt;") then "<" + UnescapeHtml(s[4..])
    else if StartsWith(s, "&gt;") then ">" + UnescapeHtml(s[4..])
    else if StartsWith(s, "&quot;") then "\"" + UnescapeHtml(s[6..])
    else if StartsWith(s, "&#039;") then "'" + UnescapeHtml(s[6..])
    else [s[0]] + UnescapeHtml(s[1..])
  }

  /** An entity at the front of the text is read back as its character. */
  lemma UnescapeEntity(e: string, c: char, rest: string)
    requires IsSpecial(c) && e == EscapeChar(c)
    ensures UnescapeHtml(e + rest) == [c] + UnescapeHtml(rest)
  {
    var s := e + rest;
    assert s[..|e|] == e && s[|e|..] == rest;
    assert s[0] == '&' && s[1] == e[1];
    if c == '<' {
      OtherEntity(s, "&amp;");
    } else if c == '>' {
      OtherEntity(s, "&amp;");
      OtherEntity(s, "&lt;");
    } else if c == '"' {
      OtherEntity(s, "&amp;");
      OtherEntity(s, "&lt;");
      OtherEntity(s, "&gt;");
    } else if c == '\'' {
      OtherEntity(s, "&amp;");
      OtherEntity(s, "&lt;");
      OtherEntity(s, "&gt;");
      OtherEntity(s, "&quot;");
    }
  }

  /** Entities are told apart by their second character. */
  lemma OtherEntity(s: string, entity: string)
    requires 2 <= |entity| && 2 <= |s| && s[1] != entity[1]
    ensures !StartsWith(s, entity)
  {
  }

  /** Any other character is copied. */
  lemma UnescapePlain(c: char, rest: string)
    requires !IsSpecial(c)
    ensures UnescapeHtml([c] + rest) == [c] + UnescapeHtml(rest)
  {
    var s := [c] + rest;
    assert s[0] == c && s[1..] == rest;
  }

  lemma UnescapeCons(c: char, rest: string)
    ensures UnescapeHtml(EscapeChar(c) + rest) == [c] + UnescapeHtml(rest)
  {
    if IsSpecial(c) {
      UnescapeEntity(EscapeChar(c), c, rest);
    } else {
      UnescapePlain(c, rest);
    }
  }

  /** Decoding the five entities gives back exactly the text that was escaped. */
  lemma {:induction false} EscapeRoundTrip(s: string)
    ensures UnescapeHtml(EscapeHtml(s)) == s
    decreases |s|
  {
    EscapeHtmlIsPerChar(s);
    if s != [] {
      UnescapeCons(s[0], EscapeEach(s[1..]));
      EscapeRoundTrip(s[1..]);
      EscapeHtmlIsPerChar(s[1..]);
      assert [s[0]] + s[1..] == s;
    }
  }

  // ---------------------------------------------------------------- sendMessage

  const AnonymousName := "익명"

  /** The payload of `socket.emit('chatMessage', ...)`; `time` is `toLocaleTimeString()`. */
  datatype ChatMessage = ChatMessage(username: string, content: string, time: string)

  /** The message `sendMessage` would emit from the two input fields, if any. */
  function OutgoingMessage(contentField: string, usernameField: string, time: string): (m: Option<ChatMessage>)
    ensures m.Some? <==> exists i :: 0 <= i < |contentField| && !IsWhitespace(contentField[i])
    ensures m.Some? ==> m.value.content == Trim(contentField) && m.value.content != [] && m.value.time == time
    ensures m.Some? && (forall i :: 0 <= i < |usernameField| ==> IsWhitespace(usernameField[i])) ==>
      m.value.username == AnonymousName
    ensures m.Some? && (exists i :: 0 <= i < |usernameField| && !IsWhitespace(usernameField[i])) ==>
      m.value.username == Trim(usernameField) && m.value.username != []
  {
    TrimEmptyIffBlank(contentField);
    TrimEmptyIffBlank(usernameField);
    var content := Trim(contentField);
    var username := if Trim(usernameField) != [] then Trim(usernameField) else AnonymousName;
    if content != [] then Some(ChatMessage(username, content, time)) else None
  }

  /** The chat form: the two input fields and what has been emitted on the socket. */
  class ChatForm {
    var messageInput: string
    var usernameInput: string
    var emitted: seq<ChatMessage>

    constructor (usernameInput: string)
      ensures this.messageInput == [] && this.usernameInput == usernameInput && emitted == []
    {
      this.messageInput := [];
      this.usernameInput := usernameInput;
      emitted := [];
    }

    /** `sendMessage`: emit only non-blank content, then clear the message field. */
    method SendMessage(time: string)
      modifies this
      ensures usernameInput == old(usernameInput)
      ensures var m := OutgoingMessage(old(messageInput), old(usernameInput), time);
        if m.Some? then emitted == old(emitted) + [m.value] && messageInput == []
        else emitted == old(emitted) && messageInput == old(messageInput)
    {
      var content := Trim(messageInput);
      var username := Trim(usernameInput);
      if username == [] {
        username := AnonymousName;
      }
      if content != [] {
        emitted := emitted + [ChatMessage(username, content, time)];
        messageInput := [];
      }
    }
  }

  // ---------------------------------------------------------------- setupStream / streamStart

  /** `streamPath.split('/')[2]`; `None` is `undefined`. */
  function StreamKeyOf(streamPath: string): Option<string> {
    var parts := Split(streamPath, '/');
    if |parts| > 2 then Some(parts[2]) else None
  }

  /** A template-literal slot: `undefined` prints as the word. */
  function Interpolate(value: Option<string>): string {
    if value.Some? then value.value else "undefined"
  }

  /** The HLS URL `setupStream` loads: always under the `live` application. */
  function HlsUrl(streamPath: string): string {
    "http://localhost:8000/live/" + Interpolate(StreamKeyOf(streamPath)) + "/index.m3u8"
  }

  /** The title the `streamStart` handler shows. */
  function StreamTitle(streamPath: string): string {
    "라이브 방송 (" + Interpolate(StreamKeyOf(streamPath)) + ")"
  }

  /** For `/app/key` the key is the third piece, and the URL uses `live` whatever `app` is. */
  lemma StreamKeyOfPath(app: string, key: string)
    requires '/' !in app && '/' !in key
    ensures StreamKeyOf("/" + app + "/" + key) == Some(key)
    ensures HlsUrl("/" + app + "/" + key) == "http://localhost:8000/live/" + key + "/index.m3u8"
  {
    var parts: seq<string> := ["", app, key];
    assert parts[1..][1..] == [key];
    assert Join(parts[1..], '/') == app + "/" + key;
    assert Join(parts, '/') == "/" + app + "/" + key;
    SplitJoin(parts, '/');
  }

  /** The `streamStart` title names the key of an `/app/key` path. */
  lemma StreamTitleOfPath(app: string, key: string)
    requires '/' !in app && '/' !in key
    ensures StreamTitle("/" + app + "/" + key) == "라이브 방송 (" + key + ")"
  {
    StreamKeyOfPath(app, key);
  }

  /** A path without its leading slash has no third piece, so the URL carries the word `undefined`. */
  lemma StreamKeyOfUnrooted(app: string, key: string)
    requires '/' !in app && '/' !in key
    ensures StreamKeyOf(app + "/" + key) == None
    ensures HlsUrl(app + "/" + key) == "http://localhost:8000/live/undefined/index.m3u8"
  {
    var parts: seq<string> := [app, key];
    assert parts[1..] == [key];
    assert Join(parts, '/') == app + "/" + key;
    SplitJoin(parts, '/');
  }

  // ---------------------------------------------------------------- viewerCount

  datatype SocketEvent = Connect | Disconnect

  /** `viewerCount++` on connect, `Math.max(0, viewerCount - 1)` on disconnect. */
  function NextViewerCount(count: int, e: SocketEvent): int {
    match e
    case Connect => count + 1
    case Disconnect => if count - 1 > 0 then count - 1 else 0
  }

  /** The counter after a sequence of socket events, starting from 0. */
  function CountAfter(events: seq<SocketEvent>): int
    decreases |events|
  {
    if events == [] then 0 else NextViewerCount(CountAfter(events[..|events| - 1]), events[|events| - 1])
  }

  function Occurrences(events: seq<SocketEvent>, e: SocketEvent): nat
    decreases |events|
  {
    if events == [] then 0
    else Occurrences(events[..|events| - 1], e) + (if events[|events| - 1] == e then 1 else 0)
  }

  /** The count is never negative, never exceeds the connects, and is at least connects minus disconnects. */
  lemma {:induction false} CountAfterBounds(events: seq<SocketEvent>)
    ensures 0 <= CountAfter(events) <= Occurrences(events, Connect)
    ensures CountAfter(events) >= Occurrences(events, Connect) - Occurrences(events, Disconnect)
    decreases |events|
  {
    if events != [] {
      CountAfterBounds(events[..|events| - 1]);
    }
  }

  /** The client's `viewerCount`, with the events it has seen. */
  class ViewerCounter {
    var viewerCount: int
    ghost var history: seq<SocketEvent>

    ghost predicate Valid()
      reads this
    {
      viewerCount == CountAfter(history)
    }

    constructor ()
      ensures Valid() && viewerCount == 0 && history == []
    {
      viewerCount := 0;
      history := [];
    }

    method OnConnect()
      requires Valid()
      modifies this
      ensures Valid() && history == old(history) + [Connect]
      ensures viewerCount == old(viewerCount) + 1
    {
      viewerCount := viewerCount + 1;
      history := history + [Connect];
      assert history[..|history| - 1] == old(history);
    }

    method OnDisconnect()
      requires Valid()
      modifies this
      ensures Valid() && history == old(history) + [Disconnect]
      ensures viewerCount >= 0
      ensures old(viewerCount) > 0 ==> viewerCount == old(viewerCount) - 1
      ensures old(viewerCount) <= 0 ==> viewerCount == 0
    {
      viewerCount := if viewerCount - 1 > 0 then viewerCount - 1 else 0;
      history := history + [Disconnect];
      assert history[..|history| - 1] == old(history);
    }
  }
}

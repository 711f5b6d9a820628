/**
 * The JavaScript string built-ins the server and the client rely on:
 * `String.prototype.trim` (also Mongoose's `trim: true` setter),
 * `toLowerCase` (Mongoose's `lowercase: true` setter), `split('/')`
 * and Node's `Buffer.toString('hex')`.
 */
module JsString {

  newtype Byte = x: int | 0 <= x < 256

  /** The code points `trim` removes: ECMAScript WhiteSpace and LineTerminator. */
  predicate IsWhitespace(c: char) {
    || ('\t' <= c <= '\r') || c == ' '
    || c == '\U{00A0}' || c == '\U{1680}' || ('\U{2000}' <= c <= '\U{200A}')
    || c == '\U{2028}' || c == '\U{2029}' || c == '\U{202F}' || c == '\U{205F}'
    || c == '\U{3000}' || c == '\U{FEFF}'
  }

  /** The end of the whitespace run that starts at `k`. */
  function LeadEnd(s: string, k: nat): (r: nat)
    requires k <= |s|
    ensures k <= r <= |s|
    ensures forall i {:trigger IsWhitespace(s[i])} :: k <= i < r ==> IsWhitespace(s[i])
    ensures r == |s| || !IsWhitespace(s[r])
    decreases |s| - k
  {
    if k < |s| && IsWhitespace(s[k]) then LeadEnd(s, k + 1) else k
  }

  /** The start of the whitespace run that ends at `k`, not looking below `lo`. */
  function TrailStart(s: string, lo: nat, k: nat): (r: nat)
    requires lo <= k <= |s|
    ensures lo <= r <= k
    ensures forall i {:trigger IsWhitespace(s[i])} :: r <= i < k ==> IsWhitespace(s[i])
    ensures r == lo || !IsWhitespace(s[r - 1])
    decreases k
  {
    if lo < k && IsWhitespace(s[k - 1]) then TrailStart(s, lo, k - 1) else k
  }

  /** How many whitespace characters `trim` drops at the front. */
  function LeadingWhitespace(s: string): nat {
    LeadEnd(s, 0)
  }

  /** `String.prototype.trim`: the run between the leading and the trailing whitespace. */
  function Trim(s: string): (r: string)
    ensures |r| <= |s|
    ensures r == [] || (!IsWhitespace(r[0]) && !IsWhitespace(r[|r| - 1]))
  {
    var i := LeadEnd(s, 0);
    s[i..TrailStart(s, i, |s|)]
  }

  /** No whitespace at either end: what `trim` leaves behind. */
  predicate IsTrimmed(s: string) {
    s == [] || (!IsWhitespace(s[0]) && !IsWhitespace(s[|s| - 1]))
  }

  /** A trimmed string is a fixed point of `trim`, and every result of `trim` is trimmed. */
  lemma TrimmedIffFixedPoint(s: string)
    ensures IsTrimmed(Trim(s))
    ensures IsTrimmed(s) <==> Trim(s) == s
  {
    if IsTrimmed(s) && s != [] {
      assert LeadEnd(s, 0) == 0;
      assert TrailStart(s, 0, |s|) == |s|;
    }
  }

  /** What `trim` keeps is one contiguous run of `s`, and everything around it is whitespace. */
  lemma TrimIsInfix(s: string)
    ensures LeadingWhitespace(s) + |Trim(s)| <= |s|
    ensures Trim(s) == s[LeadingWhitespace(s)..LeadingWhitespace(s) + |Trim(s)|]
    ensures forall k :: 0 <= k < LeadingWhitespace(s) ==> IsWhitespace(s[k])
    ensures forall k :: LeadingWhitespace(s) + |Trim(s)| <= k < |s| ==> IsWhitespace(s[k])
  {
    var i := LeadEnd(s, 0);
    var j := TrailStart(s, i, |s|);
    assert Trim(s) == s[i..j] && |Trim(s)| == j - i;
  }

  /** `trim` yields the empty string exactly when every character is whitespace. */
  lemma TrimEmptyIffBlank(s: string)
    ensures Trim(s) == [] <==> forall k :: 0 <= k < |s| ==> IsWhitespace(s[k])
  {
    TrimIsInfix(s);
  }

  /** Trimming twice is trimming once. */
  lemma TrimIdempotent(s: string)
    ensures Trim(Trim(s)) == Trim(s)
  {
    TrimmedIffFixedPoint(s);
    TrimmedIffFixedPoint(Trim(s));
  }

  /** ASCII case folding: the part of `toLowerCase` this model covers. */
  function LowerChar(c: char): char {
    if 'A' <= c <= 'Z' then (c as int + 32) as char else c
  }

  /** `String.prototype.toLowerCase`, restricted to ASCII letters. */
  function ToLowerCase(s: string): (r: string)
    ensures |r| == |s|
    ensures forall i :: 0 <= i < |s| ==> r[i] == LowerChar(s[i])
  {
    seq(|s|, i requires 0 <= i < |s| => LowerChar(s[i]))
  }

  /** No ASCII capital letter left for `toLowerCase` to fold. */
  predicate IsLowerCase(s: string) {
    forall i :: 0 <= i < |s| ==> !('A' <= s[i] <= 'Z')
  }

  /** `toLowerCase` yields lower-case text, keeps trimmed text trimmed, and fixes exactly the lower-case strings. */
  lemma ToLowerCaseShape(s: string)
    ensures IsLowerCase(ToLowerCase(s))
    ensures IsTrimmed(s) ==> IsTrimmed(ToLowerCase(s))
    ensures IsLowerCase(s) <==> ToLowerCase(s) == s
  {
    if s != [] {
      LowerCharWhitespace(s[0]);
      LowerCharWhitespace(s[|s| - 1]);
    }
    if ToLowerCase(s) == s {
      forall i | 0 <= i < |s| ensures !('A' <= s[i] <= 'Z') {
        assert ToLowerCase(s)[i] == LowerChar(s[i]);
      }
    }
  }

  /** Lower-casing neither creates nor removes whitespace ... */
  lemma LowerCharWhitespace(c: char)
    ensures IsWhitespace(LowerChar(c)) == IsWhitespace(c)
  {
  }

  /** ... so the whitespace runs `trim` finds are where they were ... */
  lemma {:induction false} LeadEndLower(s: string, k: nat)
    requires k <= |s|
    ensures LeadEnd(ToLowerCase(s), k) == LeadEnd(s, k)
    decreases |s| - k
  {
    if k < |s| {
      LowerCharWhitespace(s[k]);
      if IsWhitespace(s[k]) {
        LeadEndLower(s, k + 1);
      }
    }
  }

  lemma {:induction false} TrailStartLower(s: string, lo: nat, k: nat)
    requires lo <= k <= |s|
    ensures TrailStart(ToLowerCase(s), lo, k) == TrailStart(s, lo, k)
    decreases k
  {
    if lo < k {
      LowerCharWhitespace(s[k - 1]);
      if IsWhitespace(s[k - 1]) {
        TrailStartLower(s, lo, k - 1);
      }
    }
  }

  /** ... and trimming and lower-casing commute. */
  lemma TrimLowerCommute(s: string)
    ensures Trim(ToLowerCase(s)) == ToLowerCase(Trim(s))
  {
    var i := LeadEnd(s, 0);
    LeadEndLower(s, 0);
    TrailStartLower(s, i, |s|);
    var j := TrailStart(s, i, |s|);
    assert Trim(ToLowerCase(s)) == ToLowerCase(s)[i..j];
    ToLowerCaseSlice(s, i, j);
  }

  /** Lower-casing works character by character, so it commutes with slicing. */
  lemma ToLowerCaseSlice(s: string, i: nat, j: nat)
    requires i <= j <= |s|
    ensures ToLowerCase(s)[i..j] == ToLowerCase(s[i..j])
  {
  }

  /** `s.split(sep)` for a one-character separator: `""` splits into `[""]`. */
  function Split(s: string, sep: char): (parts: seq<string>)
    ensures |parts| >= 1
    ensures forall i :: 0 <= i < |parts| ==> sep !in parts[i]
  {
    if s == [] then [[]]
    else
      var rest := Split(s[1..], sep);
      if s[0] == sep then [[]] + rest else [[s[0]] + rest[0]] + rest[1..]
  }

  /** `parts.join(sep)`. */
  function Join(parts: seq<string>, sep: char): string {
    if parts == [] then []
    else if |parts| == 1 then parts[0]
    else parts[0] + [sep] + Join(parts[1..], sep)
  }

  /** Joining the pieces of a split gives the original string back. */
  lemma {:induction false} JoinSplit(s: string, sep: char)
    ensures Join(Split(s, sep), sep) == s
    decreases |s|
  {
    if s != [] {
      var rest := Split(s[1..], sep);
      JoinSplit(s[1..], sep);
      if s[0] == sep {
        assert Split(s, sep)[1..] == rest;
        assert s == [] + [sep] + s[1..];
      } else if |rest| == 1 {
        assert s == [s[0]] + rest[0];
      } else {
        var parts := Split(s, sep);
        assert parts[1..] == rest[1..];
        assert Join(rest, sep) == rest[0] + [sep] + Join(rest[1..], sep);
        assert s == [s[0]] + s[1..];
      }
    }
  }

  /** A piece without the separator, followed by the separator, starts a new piece. */
  lemma {:induction false} SplitPrefix(p: string, sep: char, rest: string)
    requires sep !in p
    ensures Split(p + [sep] + rest, sep) == [p] + Split(rest, sep)
    decreases |p|
  {
    if p == [] {
      assert p + [sep] + rest == [sep] + rest;
      assert ([sep] + rest)[1..] == rest;
    } else {
      var s := p + [sep] + rest;
      assert s[0] == p[0] && s[1..] == p[1..] + [sep] + rest;
      SplitPrefix(p[1..], sep, rest);
      assert [p[0]] + p[1..] == p;
    }
  }

  lemma {:induction false} SplitNoSeparator(p: string, sep: char)
    requires sep !in p
    ensures Split(p, sep) == [p]
    decreases |p|
  {
    if p != [] {
      SplitNoSeparator(p[1..], sep);
      assert [p[0]] + p[1..] == p;
    }
  }

  /** Splitting a join of separator-free pieces gives the pieces back. */
  lemma {:induction false} SplitJoin(parts: seq<string>, sep: char)
    requires |parts| >= 1
    requires forall i :: 0 <= i < |parts| ==> sep !in parts[i]
    ensures Split(Join(parts, sep), sep) == parts
    decreases |parts|
  {
    if |parts| == 1 {
      SplitNoSeparator(parts[0], sep);
    } else {
      SplitJoin(parts[1..], sep);
      SplitPrefix(parts[0], sep, Join(parts[1..], sep));
      assert parts == [parts[0]] + parts[1..];
    }
  }

  /** One lower-case hexadecimal digit, as Node's hex encoding writes it. */
  function HexDigit(n: nat): (c: char)
    requires n < 16
  {
    if n < 10 then ('0' as int + n) as char else ('a' as int + n - 10) as char
  }

  predicate IsHexDigit(c: char) {
    '0' <= c <= '9' || 'a' <= c <= 'f'
  }

  /** `Buffer.toString('hex')`: two digits per byte, high nibble first. */
  function HexEncode(bytes: seq<Byte>): (hex: string)
    ensures |hex| == 2 * |bytes|
    ensures forall i :: 0 <= i < |hex| ==> IsHexDigit(hex[i])
  {
    if bytes == [] then []
    else [HexDigit(bytes[0] as int / 16), HexDigit(bytes[0] as int % 16)] + HexEncode(bytes[1..])
  }

  function HexValue(c: char): nat {
    if '0' <= c <= '9' then c as int - '0' as int
    else if 'a' <= c <= 'f' then c as int - 'a' as int + 10
    else 0
  }

  /** The inverse of `HexEncode`, two digits at a time. */
  function HexDecode(hex: string): seq<Byte>
    decreases |hex|
  {
    if |hex| < 2 then []
    else [((HexValue(hex[0]) % 16) * 16 + HexValue(hex[1]) % 16) as Byte] + HexDecode(hex[2..])
  }

  /** Hex encoding loses nothing: decoding recovers the bytes. */
  lemma {:induction false} HexRoundTrip(bytes: seq<Byte>)
    ensures HexDecode(HexEncode(bytes)) == bytes
    decreases |bytes|
  {
    if bytes != [] {
      var b := bytes[0] as int;
      var hex := HexEncode(bytes);
      assert HexValue(hex[0]) == b / 16;
      assert HexValue(hex[1]) == b % 16;
      assert hex[2..] == HexEncode(bytes[1..]);
      HexRoundTrip(bytes[1..]);
    }
  }

  /** The shape of `randomBytes(16).toString('hex')`. */
  predicate IsHexKey(s: string) {
    |s| == 32 && forall i :: 0 <= i < |s| ==> IsHexDigit(s[i])
  }

  lemma HexKeyShape(bytes: seq<Byte>)
    requires |bytes| == 16
    ensures IsHexKey(HexEncode(bytes))
  {
  }
}

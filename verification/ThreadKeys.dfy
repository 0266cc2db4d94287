/**
 Conversation keys. The pair (user, thread) is written as JSON with every non-ASCII
 character escaped, then digested. A reader for JSON strings (section 7 of RFC 8259)
 recovers the pair, so no two conversations share a key.
 */
module ThreadKeys {
  import opened Prelude
  import opened Records
  import opened Environment

  // ---------------------------------------------------------------- writing

  /** One of 0-9, a-f. */
  function HexDigit(d: nat): char
    requires d < 16
  {
    if d < 10 then ('0' as int + d) as char else ('a' as int + d - 10) as char
  }

  /** `\uXXXX` with four lower-case hex digits. */
  function UnitEscape(n: nat): (r: string)
    requires n < 0x10000
    ensures |r| == 6
  {
    var (a, b, c) := (n / 16, n / 16 / 16, n / 16 / 16 / 16);
    ['\\', 'u', HexDigit(c), HexDigit(b % 16), HexDigit(a % 16), HexDigit(n % 16)]
  }

  function EscapeChar(c: char): string {
    var n := c as int;
    if c == '"' then "\\\""
    else if c == '\\' then "\\\\"
    else if c == '\n' then "\\n"
    else if c == '\r' then "\\r"
    else if c == '\t' then "\\t"
    else if n == 0x0c then "\\f"
    else if n == 0x08 then "\\b"
    else if ' ' <= c <= '~' then [c]
    else if n < 0x10000 then UnitEscape(n)
    else
      var v := n - 0x10000;
      UnitEscape(0xd800 + v / 0x400) + UnitEscape(0xdc00 + v % 0x400)
  }

  function Escape(s: string): string {
    if s == "" then "" else EscapeChar(s[0]) + Escape(s[1..])
  }

  function Quote(s: string): string {
    "\"" + Escape(s) + "\""
  }

  function PairJson(user: UserId, thread: ThreadId): string {
    "[" + Quote(user) + "," + Quote(thread) + "]"
  }

  /** The checkpoint key of a conversation. */
  function Key(env: Env, user: UserId, thread: ThreadId): CheckpointKey {
    "engram:v2:" + env.sha256(PairJson(user, thread))
  }

  // ---------------------------------------------------------------- reading

  function HexValue(c: char): (r: Option<nat>)
    ensures r.Some? ==> r.value < 16
  {
    if '0' <= c <= '9' then Some(c as int - '0' as int)
    else if 'a' <= c <= 'f' then Some(c as int - 'a' as int + 10)
    else if 'A' <= c <= 'F' then Some(c as int - 'A' as int + 10)
    else None
  }

  /** The code unit of a `\uXXXX` escape at the head of s. */
  function ReadUnit(s: string): (r: Option<nat>)
    ensures r.Some? ==> r.value < 0x10000 && |s| >= 6
  {
    if |s| < 6 || s[0] != '\\' || s[1] != 'u' then None
    else
      match (HexValue(s[2]), HexValue(s[3]), HexValue(s[4]), HexValue(s[5]))
      case (Some(a), Some(b), Some(c), Some(d)) => Some(a * 0x1000 + b * 0x100 + c * 16 + d)
      case _ => None
  }

  /** One character of a string body, and how much text it took. */
  function ReadChar(s: string): (r: Option<(char, nat)>)
    ensures r.Some? ==> 0 < r.value.1 <= |s|
  {
    if s == "" || s[0] == '"' || (s[0] as int) < 0x20 then None
    else if s[0] != '\\' then Some((s[0], 1))
    else if |s| < 2 then None
    else
      match s[1]
      case '"' => Some(('"', 2))
      case '\\' => Some(('\\', 2))
      case '/' => Some(('/', 2))
      case 'b' => Some((0x08 as char, 2))
      case 'f' => Some((0x0c as char, 2))
      case 'n' => Some(('\n', 2))
      case 'r' => Some(('\r', 2))
      case 't' => Some(('\t', 2))
      case 'u' => ReadEscape(s)
      case _ => None
  }

  /** A `\u` escape: one unit, or a surrogate pair. A lone surrogate is no character. */
  function ReadEscape(s: string): (r: Option<(char, nat)>)
    ensures r.Some? ==> 0 < r.value.1 <= |s|
  {
    var high := ReadUnit(s);
    if high.None? then None
    else if high.value < 0xd800 || 0xe000 <= high.value then Some((high.value as char, 6))
    else
      var low := ReadUnit(s[6..]);
      if high.value < 0xdc00 && low.Some? && 0xdc00 <= low.value < 0xe000 then
        Some(((0x10000 + (high.value - 0xd800) * 0x400 + (low.value - 0xdc00)) as char, 12))
      else None
  }

  /** A string body up to its closing quote, and what follows the quote. */
  function ReadBody(s: string): Option<(string, string)>
    decreases |s|
  {
    if s == "" then None
    else if s[0] == '"' then Some(("", s[1..]))
    else
      var c := ReadChar(s);
      if c.None? then None
      else
        var rest := ReadBody(s[c.value.1..]);
        if rest.None? then None else Some(([c.value.0] + rest.value.0, rest.value.1))
  }

  function Expect(s: string, token: string): Option<string> {
    if token <= s then Some(s[|token|..]) else None
  }

  function ReadPair(s: string): Option<(string, string)> {
    var open := Expect(s, "[\"");
    if open.None? then None
    else
      var first := ReadBody(open.value);
      if first.None? then None
      else
        var middle := Expect(first.value.1, ",\"");
        if middle.None? then None
        else
          var second := ReadBody(middle.value);
          if second.None? || second.value.1 != "]" then None
          else Some((first.value.0, second.value.0))
  }

  // ---------------------------------------------------------------- round trip

  lemma HexDigitValue(d: nat)
    requires d < 16
    ensures HexValue(HexDigit(d)) == Some(d)
  {
  }

  lemma HexSum(n: nat)
    requires n < 0x10000
    ensures n / 16 / 16 / 16 < 16
    ensures n / 16 / 16 / 16 * 0x1000 + n / 16 / 16 % 16 * 0x100 + n / 16 % 16 * 16 + n % 16 == n
  {
    var a := n / 16;
    var b := a / 16;
    var c := b / 16;
    assert n == 16 * a + n % 16 && a == 16 * b + a % 16 && b == 16 * c + b % 16;
  }

  lemma UnitRoundTrip(n: nat, rest: string)
    requires n < 0x10000
    ensures ReadUnit(UnitEscape(n) + rest) == Some(n)
    ensures (UnitEscape(n) + rest)[6..] == rest
  {
    HexSum(n);
    HexDigitValue(n / 16 / 16 / 16);
    HexDigitValue(n / 16 / 16 % 16);
    HexDigitValue(n / 16 % 16);
    HexDigitValue(n % 16);
    var e := UnitEscape(n);
    var s := e + rest;
    assert s[0] == e[0] && s[1] == e[1] && s[2] == e[2] && s[3] == e[3] && s[4] == e[4] && s[5] == e[5];
  }

  lemma UnitCharRoundTrip(n: nat, rest: string)
    requires n < 0xd800 || 0xe000 <= n < 0x10000
    ensures var s := UnitEscape(n) + rest;
            s[0] == '\\' && ReadChar(s) == Some((n as char, 6)) && s[6..] == rest
  {
    UnitRoundTrip(n, rest);
    var s := UnitEscape(n) + rest;
    assert s[0] == UnitEscape(n)[0] && s[1] == UnitEscape(n)[1];
  }

  lemma PairCharRoundTrip(v: nat, rest: string)
    requires v < 0x100000
    ensures var s := UnitEscape(0xd800 + v / 0x400) + UnitEscape(0xdc00 + v % 0x400) + rest;
            s[0] == '\\' && ReadChar(s) == Some(((0x10000 + v) as char, 12)) && s[12..] == rest
  {
    var high, low := 0xd800 + v / 0x400, 0xdc00 + v % 0x400;
    var tail := UnitEscape(low) + rest;
    var s := UnitEscape(high) + UnitEscape(low) + rest;
    assert s == UnitEscape(high) + tail;
    UnitRoundTrip(high, tail);
    UnitRoundTrip(low, rest);
    assert s[0] == UnitEscape(high)[0] && s[1] == UnitEscape(high)[1];
    assert s[12..] == tail[6..];
  }

  lemma CharRoundTrip(c: char, rest: string)
    ensures var s := EscapeChar(c) + rest;
            && s[0] != '"'
            && ReadChar(s) == Some((c, |EscapeChar(c)|))
            && s[|EscapeChar(c)|..] == rest
  {
    var n := c as int;
    if (' ' <= c <= '~') || c == '\n' || c == '\r' || c == '\t' || n == 0x0c || n == 0x08 {
      ShortCharRoundTrip(c, rest);
    } else if n < 0x10000 {
      assert EscapeChar(c) == UnitEscape(n);
      UnitCharRoundTrip(n, rest);
    } else {
      var v := n - 0x10000;
      assert EscapeChar(c) == UnitEscape(0xd800 + v / 0x400) + UnitEscape(0xdc00 + v % 0x400);
      PairCharRoundTrip(v, rest);
    }
  }

  lemma ShortCharRoundTrip(c: char, rest: string)
    requires (' ' <= c <= '~') || c == '\n' || c == '\r' || c == '\t' || c as int == 0x0c || c as int == 0x08
    ensures var s := EscapeChar(c) + rest;
            && s[0] != '"'
            && ReadChar(s) == Some((c, |EscapeChar(c)|))
            && s[|EscapeChar(c)|..] == rest
  {
    var e := EscapeChar(c);
    var s := e + rest;
    if |e| == 1 {
      assert e == [c] && s[0] == c;
    } else {
      assert s[0] == '\\' && s[1] == e[1];
    }
  }

  lemma ReadBodyStep(text: string, c: char, n: nat, tail: string, s: string, rest: string)
    requires text != "" && text[0] != '"' && ReadChar(text) == Some((c, n))
    requires text[n..] == tail && ReadBody(tail) == Some((s, rest))
    ensures ReadBody(text) == Some(([c] + s, rest))
  {
  }

  lemma {:induction false} BodyRoundTrip(s: string, rest: string)
    ensures ReadBody(Escape(s) + "\"" + rest) == Some((s, rest))
  {
    var text := Escape(s) + "\"" + rest;
    if s == "" {
      assert text == "\"" + rest;
    } else {
      var tail := Escape(s[1..]) + "\"" + rest;
      assert text == EscapeChar(s[0]) + tail;
      CharRoundTrip(s[0], tail);
      BodyRoundTrip(s[1..], rest);
      ReadBodyStep(text, s[0], |EscapeChar(s[0])|, tail, s[1..], rest);
      assert s == [s[0]] + s[1..];
    }
  }

  lemma PairShape(first: string, second: string, after: string, s: string)
    requires after == ",\"" + (second + "\"" + "]")
    requires s == "[" + ("\"" + first + "\"") + "," + ("\"" + second + "\"") + "]"
    ensures "[\"" <= s && s[2..] == first + "\"" + after
    ensures ",\"" <= after && after[2..] == second + "\"" + "]"
  {
    assert s == "[\"" + (first + "\"" + after);
  }

  /** The JSON text of a pair reads back as that pair, for all Unicode strings. */
  lemma PairRoundTrip(user: UserId, thread: ThreadId)
    ensures ReadPair(PairJson(user, thread)) == Some((user, thread))
  {
    var first, second := Escape(user), Escape(thread);
    var after := ",\"" + (second + "\"" + "]");
    BodyRoundTrip(user, after);
    BodyRoundTrip(thread, "]");
    PairShape(first, second, after, PairJson(user, thread));
  }

  /** Printable, and no capital letter: what an escape is made of. */
  predicate IsSmall(c: char) {
    ' ' <= c <= '~' && !('A' <= c <= 'Z')
  }

  ghost predicate AllSmall(s: string) {
    forall i :: 0 <= i < |s| ==> IsSmall(s[i])
  }

  lemma UnitIsSmall(n: nat)
    requires n < 0x10000
    ensures AllSmall(UnitEscape(n))
  {
  }

  lemma TwoAreSmall(a: string, b: string)
    requires AllSmall(a) && AllSmall(b)
    ensures AllSmall(a + b)
  {
  }

  lemma LongEscape(c: char)
    requires !(' ' <= c <= '~') && c != '\n' && c != '\r' && c != '\t' && c as int != 0x0c && c as int != 0x08
    ensures AllSmall(EscapeChar(c)) && |EscapeChar(c)| == if c as int < 0x10000 then 6 else 12
  {
    var n := c as int;
    if n < 0x10000 {
      UnitIsSmall(n);
    } else {
      var v := n - 0x10000;
      var high, low := UnitEscape(0xd800 + v / 0x400), UnitEscape(0xdc00 + v % 0x400);
      UnitIsSmall(0xd800 + v / 0x400);
      UnitIsSmall(0xdc00 + v % 0x400);
      TwoAreSmall(high, low);
      assert EscapeChar(c) == high + low;
    }
  }

  lemma ShortEscape(c: char)
    requires c == '"' || c == '\\' || c == '\n' || c == '\r' || c == '\t' || c as int == 0x0c || c as int == 0x08
    ensures AllSmall(EscapeChar(c)) && |EscapeChar(c)| == 2
  {
  }

  /**
   How long an escape is: a printable ASCII character but for quote and backslash stands for
   itself; those two and five control characters take two, the rest of the first plane six,
   all others twelve. No escape uses a capital letter. With the round trip this leaves no choice.
   */
  lemma EscapeShape(c: char)
    ensures var e, n := EscapeChar(c), c as int;
            if 0x20 <= n < 0x7f && n != 0x22 && n != 0x5c then e == [c]
            else if n == 0x22 || n == 0x5c || 0x08 <= n <= 0x0a || n == 0x0c || n == 0x0d then |e| == 2 && AllSmall(e)
            else |e| == (if n < 0x10000 then 6 else 12) && AllSmall(e)
  {
    var n := c as int;
    if n == 0x22 || n == 0x5c || 0x08 <= n <= 0x0a || n == 0x0c || n == 0x0d {
      ShortEscape(c);
    } else if !(0x20 <= n < 0x7f) {
      LongEscape(c);
    }
  }

  /** A conversation's key is the prefixed digest of a JSON text that reads back as its user and thread. */
  lemma KeyIsDigest(env: Env, user: UserId, thread: ThreadId) returns (text: string)
    ensures Key(env, user, thread) == "engram:v2:" + env.sha256(text) && ReadPair(text) == Some((user, thread))
  {
    text := PairJson(user, thread);
    PairRoundTrip(user, thread);
  }

  /** Distinct conversations have distinct keys. */
  lemma KeysDistinct(env: Env, u1: UserId, t1: ThreadId, u2: UserId, t2: ThreadId)
    requires env.DigestInjective()
    ensures Key(env, u1, t1) == Key(env, u2, t2) <==> u1 == u2 && t1 == t2
  {
    if Key(env, u1, t1) == Key(env, u2, t2) {
      var prefix := "engram:v2:";
      assert Key(env, u1, t1)[|prefix|..] == env.sha256(PairJson(u1, t1));
      assert Key(env, u2, t2)[|prefix|..] == env.sha256(PairJson(u2, t2));
      PairRoundTrip(u1, t1);
      PairRoundTrip(u2, t2);
    }
  }
}

/** The storage encoding of the two list columns: `JSON.stringify` of an array of
    strings on the way in, `JSON.parse` on the way out.  Strings follow section 7
    and arrays section 5 of RFC 8259; the encoder makes the same escaping choices
    as ECMAScript's `JSON.stringify` (short escapes where they exist, lower-case
    `\u00xx` for the other control characters, everything else literal). */
module JsonList {
  import opened Wrappers
  import Text

  datatype JsonError =
    | UnexpectedEnd
    | UnexpectedChar(found: char)
    | ControlInString
    | BadEscape
    | BadHex
    | LoneSurrogate
    | NotAStringArray
    | TrailingText

  // ---------------------------------------------------------------------------
  // Encoder

  function HexDigit(n: int): char
    requires 0 <= n < 16
  {
    if n < 10 then ('0' as int + n) as char else ('a' as int + n - 10) as char
  }

  /** The JSON text of one character inside a string literal. */
  function EscapeChar(c: char): string {
    if c == '"' then "\\\""
    else if c == '\\' then "\\\\"
    else if c == '\U{0008}' then "\\b"
    else if c == '\U{000C}' then "\\f"
    else if c == '\n' then "\\n"
    else if c == '\r' then "\\r"
    else if c == '\t' then "\\t"
    else if c < ' ' then "\\u00" + [HexDigit(c as int / 16), HexDigit(c as int % 16)]
    else [c]
  }

  function EscapeString(s: string): string
    decreases |s|
  {
    if |s| == 0 then "" else EscapeChar(s[0]) + EscapeString(s[1..])
  }

  /** `JSON.stringify(s)` for a string `s`. */
  function Quote(s: string): string {
    "\"" + EscapeString(s) + "\""
  }

  function QuoteAll(xs: seq<string>): seq<string> {
    seq(|xs|, i requires 0 <= i < |xs| => Quote(xs[i]))
  }

  /** `JSON.stringify(xs)` for an array of strings. */
  function Encode(xs: seq<string>): string {
    "[" + Text.Join(QuoteAll(xs), ",") + "]"
  }

  // ---------------------------------------------------------------------------
  // Decoder

  /** The four insignificant whitespace characters of section 2 of RFC 8259. */
  predicate IsJsonSpace(c: char) {
    c == ' ' || c == '\t' || c == '\n' || c == '\r'
  }

  function SkipSpace(s: string): (r: string)
    ensures |r| <= |s|
    ensures |r| > 0 ==> !IsJsonSpace(r[0])
    decreases |s|
  {
    if |s| > 0 && IsJsonSpace(s[0]) then SkipSpace(s[1..]) else s
  }

  function HexValue(c: char): Option<int> {
    if '0' <= c <= '9' then Some(c as int - '0' as int)
    else if 'a' <= c <= 'f' then Some(c as int - 'a' as int + 10)
    else if 'A' <= c <= 'F' then Some(c as int - 'A' as int + 10)
    else None
  }

  /** The code unit written by four hexadecimal digits at the start of `s`. */
  function Hex4(s: string): (r: Option<int>)
    ensures r.Some? ==> 0 <= r.value < 0x1_0000
  {
    if |s| < 4 then None
    else match (HexValue(s[0]), HexValue(s[1]), HexValue(s[2]), HexValue(s[3]))
      case (Some(a), Some(b), Some(c), Some(d)) =>
        if 0 <= a < 16 && 0 <= b < 16 && 0 <= c < 16 && 0 <= d < 16
        then Some(((a * 16 + b) * 16 + c) * 16 + d) else None
      case _ => None
  }

  /** `s` follows a `\u`: one code unit, or a surrogate pair written as two escapes. */
  function ParseUnicode(s: string): (r: Result<(char, string), JsonError>)
    ensures r.Success? ==> |r.value.1| < |s|
  {
    match Hex4(s)
    case None => Failure(BadHex)
    case Some(hi) =>
      if 0xD800 <= hi < 0xDC00 then
        if |s| >= 10 && s[4] == '\\' && s[5] == 'u' then
          match Hex4(s[6..])
          case Some(lo) =>
            if 0xDC00 <= lo < 0xE000
            then Success(((0x1_0000 + (hi - 0xD800) * 0x400 + (lo - 0xDC00)) as char, s[10..]))
            else Failure(LoneSurrogate)
          case None => Failure(BadHex)
        else Failure(LoneSurrogate)
      else if 0xDC00 <= hi < 0xE000 then Failure(LoneSurrogate)
      else Success((hi as char, s[4..]))
  }

  /** `s` follows a backslash inside a string literal. */
  function ParseEscape(s: string): (r: Result<(char, string), JsonError>)
    ensures r.Success? ==> |r.value.1| < |s|
  {
    if |s| == 0 then Failure(UnexpectedEnd)
    else if s[0] == '"' then Success(('"', s[1..]))
    else if s[0] == '\\' then Success(('\\', s[1..]))
    else if s[0] == '/' then Success(('/', s[1..]))
    else if s[0] == 'b' then Success(('\U{0008}', s[1..]))
    else if s[0] == 'f' then Success(('\U{000C}', s[1..]))
    else if s[0] == 'n' then Success(('\n', s[1..]))
    else if s[0] == 'r' then Success(('\r', s[1..]))
    else if s[0] == 't' then Success(('\t', s[1..]))
    else if s[0] == 'u' then ParseUnicode(s[1..])
    else Failure(BadEscape)
  }

  /** The characters of a string literal up to its closing quote, and the text after it. */
  function ParseChars(s: string): (r: Result<(string, string), JsonError>)
    ensures r.Success? ==> |r.value.1| < |s|
    decreases |s|
  {
    if |s| == 0 then Failure(UnexpectedEnd)
    else if s[0] == '"' then Success(("", s[1..]))
    else if s[0] == '\\' then
      var e :- ParseEscape(s[1..]);
      var p :- ParseChars(e.1);
      Success(([e.0] + p.0, p.1))
    else if s[0] < ' ' then Failure(ControlInString)
    else
      var p :- ParseChars(s[1..]);
      Success(([s[0]] + p.0, p.1))
  }

  function ParseString(s: string): (r: Result<(string, string), JsonError>)
    ensures r.Success? ==> |r.value.1| < |s|
  {
    if |s| == 0 then Failure(UnexpectedEnd)
    else if s[0] != '"' then Failure(UnexpectedChar(s[0]))
    else ParseChars(s[1..])
  }

  /** One or more comma-separated string literals and the closing bracket. */
  function ParseItems(s: string): (r: Result<(seq<string>, string), JsonError>)
    ensures r.Success? ==> |r.value.1| < |s|
    decreases |s|
  {
    var p :- ParseString(s);
    var t := SkipSpace(p.1);
    if |t| == 0 then Failure(UnexpectedEnd)
    else if t[0] == ',' then
      var q :- ParseItems(SkipSpace(t[1..]));
      Success(([p.0] + q.0, q.1))
    else if t[0] == ']' then Success(([p.0], t[1..]))
    else Failure(UnexpectedChar(t[0]))
  }

  /** `JSON.parse(s)`, accepted only when the text is an array of strings. */
  function Decode(s: string): Result<seq<string>, JsonError> {
    var t := SkipSpace(s);
    if |t| == 0 then Failure(UnexpectedEnd)
    else if t[0] != '[' then Failure(NotAStringArray)
    else
      var u := SkipSpace(t[1..]);
      var p :- if |u| > 0 && u[0] == ']' then Success(([], u[1..])) else ParseItems(u);
      if |SkipSpace(p.1)| == 0 then Success(p.0) else Failure(TrailingText)
  }

  // ---------------------------------------------------------------------------
  // Round trip

  lemma HexDigitValue(n: int)
    requires 0 <= n < 16
    ensures HexValue(HexDigit(n)) == Some(n)
  {
  }

  /** Decoding the text of one escaped character yields that character. */
  lemma EscapeCharStep(c: char, rest: string)
    requires ParseChars(rest).Success?
    ensures ParseChars(EscapeChar(c) + rest)
         == Success(([c] + ParseChars(rest).value.0, ParseChars(rest).value.1))
  {
    var s := EscapeChar(c) + rest;
    if c == '"' || c == '\\' || c == '\U{0008}' || c == '\U{000C}' || c == '\n' || c == '\r' || c == '\t' {
      assert s[0] == '\\' && s[1..] == [s[1]] + rest;
      assert ParseEscape(s[1..]) == Success((c, rest));
    } else if c < ' ' {
      var n := c as int;
      HexDigitValue(n / 16);
      HexDigitValue(n % 16);
      assert s[1..] == ['u', '0', '0', HexDigit(n / 16), HexDigit(n % 16)] + rest;
      assert s[2..] == ['0', '0', HexDigit(n / 16), HexDigit(n % 16)] + rest;
      assert Hex4(s[2..]) == Some(n);
      assert ParseUnicode(s[2..]) == Success((c, rest));
      assert ParseEscape(s[1..]) == Success((c, rest));
    } else {
      assert s[0] == c && s[1..] == rest;
    }
  }

  /** Decoding an escaped string body followed by the closing quote recovers the string. */
  lemma {:induction false} EscapeRoundTrip(x: string, tail: string)
    ensures ParseChars(EscapeString(x) + "\"" + tail) == Success((x, tail))
    decreases |x|
  {
    if |x| == 0 {
      assert EscapeString(x) + "\"" + tail == "\"" + tail;
    } else {
      EscapeRoundTrip(x[1..], tail);
      EscapeCharStep(x[0], EscapeString(x[1..]) + "\"" + tail);
      assert EscapeString(x) + "\"" + tail == EscapeChar(x[0]) + (EscapeString(x[1..]) + "\"" + tail);
      assert [x[0]] + x[1..] == x;
    }
  }

  lemma QuoteRoundTrip(x: string, tail: string)
    ensures ParseString(Quote(x) + tail) == Success((x, tail))
  {
    var s := Quote(x) + tail;
    assert s[1..] == EscapeString(x) + "\"" + tail;
    EscapeRoundTrip(x, tail);
  }

  lemma SkipSpaceNoop(s: string)
    requires |s| > 0 && !IsJsonSpace(s[0])
    ensures SkipSpace(s) == s
  {
  }

  lemma {:induction false} ItemsRoundTrip(xs: seq<string>, tail: string)
    requires |xs| > 0
    ensures ParseItems(Text.Join(QuoteAll(xs), ",") + "]" + tail) == Success((xs, tail))
    decreases |xs|
  {
    var s := Text.Join(QuoteAll(xs), ",") + "]" + tail;
    if |xs| == 1 {
      assert QuoteAll(xs)[0] == Quote(xs[0]);
      assert s == Quote(xs[0]) + ("]" + tail);
      assert [xs[0]] == xs;
      QuoteRoundTrip(xs[0], "]" + tail);
      SkipSpaceNoop("]" + tail);
      assert ("]" + tail)[1..] == tail;
    } else {
      var rest := Text.Join(QuoteAll(xs[1..]), ",") + "]" + tail;
      assert QuoteAll(xs)[1..] == QuoteAll(xs[1..]);
      assert s == Quote(xs[0]) + ("," + rest);
      QuoteRoundTrip(xs[0], "," + rest);
      SkipSpaceNoop("," + rest);
      assert ("," + rest)[1..] == rest;
      assert QuoteAll(xs[1..])[0] == Quote(xs[1]);
      assert rest[0] == '"';
      SkipSpaceNoop(rest);
      ItemsRoundTrip(xs[1..], tail);
      assert [xs[0]] + xs[1..] == xs;
    }
  }

  /** Reading back a stored list column yields exactly the list written,
      whatever quotes, backslashes or control characters its elements hold. */
  lemma DecodeEncode(xs: seq<string>)
    ensures Decode(Encode(xs)) == Success(xs)
  {
    var s := Encode(xs);
    SkipSpaceNoop(s);
    var inner := s[1..];
    assert inner == Text.Join(QuoteAll(xs), ",") + "]";
    if |xs| == 0 {
      assert inner == "]";
    } else {
      assert QuoteAll(xs)[0] == Quote(xs[0]);
      assert inner[0] == '"';
      SkipSpaceNoop(inner);
      ItemsRoundTrip(xs, "");
      assert inner == Text.Join(QuoteAll(xs), ",") + "]" + "";
    }
  }

  /** The encoding is never empty text, so the empty-string-to-null rule cannot touch it;
      the empty list is written `[]`. */
  lemma EncodeShape(xs: seq<string>)
    ensures |Encode(xs)| >= 2 && Encode(xs)[0] == '[' && Encode(xs)[|Encode(xs)| - 1] == ']'
    ensures Encode([]) == "[]"
  {
  }

  /** Two lists with the same encoding are equal: nothing is lost by the encoding. */
  lemma EncodeInjective(xs: seq<string>, ys: seq<string>)
    requires Encode(xs) == Encode(ys)
    ensures xs == ys
  {
    DecodeEncode(xs);
    DecodeEncode(ys);
  }
}

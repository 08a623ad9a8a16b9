/** `JSON.stringify` of a string value: the string literal of RFC 8259
    section 7 as ECMAScript's QuoteJSONString writes it, and a decoder for
    such literals used to state the round trip. */
module JsonString {
  import opened Wrappers

  /** A lower-case hexadecimal digit. */
  function HexDigit(d: nat): (c: char)
    requires d < 16
  {
    if d < 10 then (d + '0' as int) as char else (d - 10 + 'a' as int) as char
  }

  /** The value of a hexadecimal digit of either case. */
  function HexValue(c: char): (r: Option<nat>)
    ensures r.Some? ==> r.value < 16
  {
    var n := c as int;
    if '0' as int <= n <= '9' as int then Some(n - '0' as int)
    else if 'a' as int <= n <= 'f' as int then Some(n - 'a' as int + 10)
    else if 'A' as int <= n <= 'F' as int then Some(n - 'A' as int + 10)
    else None
  }

  /** The value of four hexadecimal digits. */
  function HexQuad(s: string): (r: Option<nat>)
    requires |s| == 4
    ensures r.Some? ==> r.value < 0x10000
  {
    match (HexValue(s[0]), HexValue(s[1]), HexValue(s[2]), HexValue(s[3]))
    case (Some(a), Some(b), Some(c), Some(d)) => Some(((a * 16 + b) * 16 + c) * 16 + d)
    case _ => None
  }

  /** The escape QuoteJSONString writes for one character: the two-character
      escapes for quote, backslash, backspace, tab, line feed, form feed and
      carriage return, `\u00XX` for the other control characters, and the
      character itself otherwise. */
  function EscapeChar(c: char): (r: string)
    ensures forall k :: 0 <= k < |r| ==> r[k] as int >= 0x20
  {
    var n := c as int;
    if n == 0x22 then ['\\', '"']
    else if n == 0x5C then ['\\', '\\']
    else if n == 0x08 then ['\\', 'b']
    else if n == 0x09 then ['\\', 't']
    else if n == 0x0A then ['\\', 'n']
    else if n == 0x0C then ['\\', 'f']
    else if n == 0x0D then ['\\', 'r']
    else if n < 0x20 then ['\\', 'u', '0', '0', HexDigit(n / 16), HexDigit(n % 16)]
    else [c]
  }

  /** The escaped characters of `s`, without the surrounding quotes. */
  function EscapeBody(s: string): (r: string)
    ensures forall k :: 0 <= k < |r| ==> r[k] as int >= 0x20
    decreases |s|
  {
    if s == [] then [] else EscapeChar(s[0]) + EscapeBody(s[1..])
  }

  /** `JSON.stringify(s)` for a string `s`: a literal delimited by double
      quotes that holds no control character, so in particular no carriage
      return and no line feed. */
  function Quote(s: string): (q: string)
    ensures |q| >= 2 && q[0] == '"' && q[|q| - 1] == '"'
    ensures forall k :: 0 <= k < |q| ==> q[k] as int >= 0x20
  {
    var b := EscapeBody(s);
    var q := "\"" + b + "\"";
    assert forall k :: 0 < k < |q| - 1 ==> q[k] == b[k - 1];
    q
  }

  /** The character a two-character escape `\x` stands for. */
  function SimpleUnescape(x: char): Option<char> {
    if x == '"' then Some('"')
    else if x == '\\' then Some('\\')
    else if x == '/' then Some('/')
    else if x == 'b' then Some(0x08 as char)
    else if x == 'f' then Some(0x0C as char)
    else if x == 'n' then Some('\n')
    else if x == 'r' then Some('\r')
    else if x == 't' then Some('\t')
    else None
  }

  /** Decodes the body of a JSON string literal from the character after the
      opening quote up to the closing quote: the decoded value and what
      follows the closing quote, or `None` when `s` does not start with a
      well-formed body. Escapes standing for a surrogate are refused. */
  function DecodePrefix(s: string): (r: Option<(string, string)>)
    ensures r.Some? ==> |r.value.1| < |s|
    decreases |s|
  {
    if s == [] then None
    else if s[0] == '"' then Some(([], s[1..]))
    else if s[0] == '\\' then
      if |s| < 2 then None
      else if s[1] == 'u' then
        if |s| < 6 then None
        else match HexQuad(s[2..6])
          case None => None
          case Some(n) =>
            if 0xD800 <= n < 0xE000 then None
            else match DecodePrefix(s[6..])
              case None => None
              case Some((v, rest)) => Some(([n as char] + v, rest))
      else match SimpleUnescape(s[1])
        case None => None
        case Some(c) =>
          match DecodePrefix(s[2..])
          case None => None
          case Some((v, rest)) => Some(([c] + v, rest))
    else if (s[0] as int) < 0x20 then None
    else match DecodePrefix(s[1..])
      case None => None
      case Some((v, rest)) => Some(([s[0]] + v, rest))
  }

  /** `JSON.parse` of a string literal. */
  function Unquote(q: string): Option<string> {
    if q != [] && q[0] == '"' then
      match DecodePrefix(q[1..])
      case Some((v, rest)) => if rest == [] then Some(v) else None
      case None => None
    else None
  }

  /** Decoding past one escaped character yields that character. */
  lemma DecodeEscapedChar(c: char, t: string)
    ensures DecodePrefix(EscapeChar(c) + t) ==
      match DecodePrefix(t)
      case None => None
      case Some((v, rest)) => Some(([c] + v, rest))
  {
    var n := c as int;
    var e := EscapeChar(c);
    var s := e + t;
    if n == 0x22 || n == 0x5C || n == 0x08 || n == 0x09 || n == 0x0A || n == 0x0C || n == 0x0D {
      assert s[2..] == t;
      assert SimpleUnescape(s[1]) == Some(c);
    } else if n < 0x20 {
      assert s[2..6] == ['0', '0', HexDigit(n / 16), HexDigit(n % 16)];
      assert HexQuad(s[2..6]) == Some(n);
      assert s[6..] == t;
      assert n as char == c;
    } else {
      assert s[1..] == t;
    }
  }

  /** Decoding an escaped body followed by the closing quote gives back the
      string and the text after the quote. */
  lemma {:induction false} DecodeEscapedBody(s: string, rest: string)
    ensures DecodePrefix(EscapeBody(s) + "\"" + rest) == Some((s, rest))
    decreases |s|
  {
    if s == [] {
      assert EscapeBody(s) + "\"" + rest == "\"" + rest;
      assert ("\"" + rest)[1..] == rest;
    } else {
      var t := EscapeBody(s[1..]) + "\"" + rest;
      assert EscapeBody(s) + "\"" + rest == EscapeChar(s[0]) + t;
      DecodeEscapedChar(s[0], t);
      DecodeEscapedBody(s[1..], rest);
      assert [s[0]] + s[1..] == s;
    }
  }

  /** `JSON.parse(JSON.stringify(s)) == s` for every string `s`. */
  lemma QuoteRoundTrip(s: string)
    ensures Unquote(Quote(s)) == Some(s)
  {
    var q := Quote(s);
    assert q[1..] == EscapeBody(s) + "\"" + "";
    DecodeEscapedBody(s, "");
  }
}

/** Unquoting string tokens, with GoogleSQL escapes. */
module Unescaping {
  import opened Wrappers

  /** Newlines are normalised to a line feed. */
  function NormalizeNewlines(s: string): string {
    if s == [] then []
    else if s[0] == '\r' then
      ['\n'] + NormalizeNewlines(if |s| > 1 && s[1] == '\n' then s[2..] else s[1..])
    else [s[0]] + NormalizeNewlines(s[1..])
  }

  /** The value of a digit in bases up to sixteen. */
  function DigitValue(c: char, base: nat): (v: Option<nat>)
    ensures v.Some? ==> v.value < base
  {
    var v := if '0' <= c <= '9' then c as int - '0' as int
             else if 'a' <= c <= 'f' then c as int - 'a' as int + 10
             else if 'A' <= c <= 'F' then c as int - 'A' as int + 10
             else base;
    if v < base then Some(v) else None
  }

  /** The number spelled by the first `n` characters, continuing from `v`. */
  function DigitsValue(s: string, n: nat, base: nat, v: nat): (r: Option<nat>)
    ensures r.Some? ==> n <= |s|
    decreases n
  {
    if n == 0 then Some(v)
    else if s == [] || DigitValue(s[0], base).None? then None
    else DigitsValue(s[1..], n - 1, base, v * base + DigitValue(s[0], base).value)
  }

  /** Unicode scalar values only. */
  function FromCodePoint(v: nat): Option<char> {
    if v < 0xD800 || 0xE000 <= v < 0x11_0000 then Some(v as char) else None
  }

  function Simple(e: char): Option<char> {
    match e
    case 'a' => Some(7 as char)
    case 'b' => Some(8 as char)
    case 'f' => Some(12 as char)
    case 'n' => Some('\n')
    case 'r' => Some('\r')
    case 't' => Some('\t')
    case 'v' => Some(11 as char)
    case '\\' => Some('\\')
    case '\'' => Some('\'')
    case '"' => Some('"')
    case '`' => Some('`')
    case '?' => Some('?')
    case _ => None
  }

  /** The number of hexadecimal digits an escape letter takes. */
  function HexDigits(e: char): nat {
    if e == 'x' || e == 'X' then 2 else if e == 'u' then 4 else if e == 'U' then 8 else 0
  }

  function Coded(s: string, n: nat, base: nat, v: nat, before: nat): (r: Option<(char, nat)>)
    ensures r.Some? ==> r.value.1 == before + n && n <= |s|
  {
    var code := DigitsValue(s, n, base, v);
    if code.None? || FromCodePoint(code.value).None? then None
    else Some((FromCodePoint(code.value).value, before + n))
  }

  /** The character at the front of the text, escaped or plain, and how much it spans. */
  function UnescapeChar(s: string): (r: Option<(char, nat)>)
    requires s != []
    ensures r.Some? ==> 0 < r.value.1 <= |s|
  {
    if s[0] != '\\' then Some((s[0], 1))
    else if |s| == 1 then None
    else
      var e := s[1];
      if Simple(e).Some? then Some((Simple(e).value, 2))
      else if HexDigits(e) > 0 then Coded(s[2..], HexDigits(e), 16, 0, 2)
      else if '0' <= e <= '3' then Coded(s[2..], 2, 8, e as int - '0' as int, 2)
      else None
  }

  function UnescapeBody(s: string): Option<string>
    decreases |s|
  {
    if s == [] then Some([]) else
      match UnescapeChar(s)
      case None => None
      case Some((c, n)) =>
        Prepend([c], UnescapeBody(s[n..]))
  }

  /** `unescape`: the logical value of a quoted token. A body without a backslash is itself. */
  function Unescape(token: string): Option<string> {
    var value := NormalizeNewlines(token);
    var n := |value|;
    if n < 2 || value[0] != value[n - 1] || (value[0] != '"' && value[0] != '\'') then None
    else UnescapeBody(value[1..n - 1])
  }

  // ----- the loops -----

  method ReadDigits(s: string, n: nat, base: nat, first: nat) returns (v: Option<nat>)
    ensures v == DigitsValue(s, n, base, first)
  {
    var value: nat, i: nat := first, 0;
    while i < n
      invariant i <= n && i <= |s|
      invariant DigitsValue(s[i..], n - i, base, value) == DigitsValue(s, n, base, first)
    {
      if i == |s| {
        return None;
      }
      var digit := DigitValue(s[i], base);
      if digit.None? {
        return None;
      }
      assert s[i..][1..] == s[i + 1..];
      value := value * base + digit.value;
      i := i + 1;
    }
    return Some(value);
  }

  function Prepend(out: string, rest: Option<string>): Option<string> {
    if rest.Some? then Some(out + rest.value) else None
  }

  lemma PrependNothing(rest: Option<string>)
    ensures Prepend([], rest) == rest
  {
    if rest.Some? {
      assert [] + rest.value == rest.value;
    }
  }

  lemma PrependStep(out: string, c: char, rest: Option<string>)
    ensures Prepend(out, Prepend([c], rest)) == Prepend(out + [c], rest)
  {
    if rest.Some? {
      assert out + ([c] + rest.value) == out + [c] + rest.value;
    }
  }

  method UnescapeToken(token: string) returns (r: Option<string>)
    ensures r == Unescape(token)
  {
    var value := NormalizeNewlines(token);
    var n := |value|;
    if n < 2 || value[0] != value[n - 1] || (value[0] != '"' && value[0] != '\'') {
      return None;
    }
    var inner := value[1..n - 1];
    if '\\' !in inner {
      PlainBody(inner);
      return Some(inner);
    }
    var out: string, rest := [], inner;
    PrependNothing(UnescapeBody(inner));
    while rest != []
      invariant UnescapeBody(inner) == Prepend(out, UnescapeBody(rest))
      decreases |rest|
    {
      var next := UnescapeChar(rest);
      if next.None? {
        return None;
      }
      var (c, n) := next.value;
      PrependStep(out, c, UnescapeBody(rest[n..]));
      out, rest := out + [c], rest[n..];
    }
    assert out + [] == out;
    return Some(out);
  }

  /** The shortcut for a body without a backslash changes nothing. */
  lemma {:induction false} PlainBody(s: string)
    requires '\\' !in s
    ensures UnescapeBody(s) == Some(s)
  {
    if s != [] {
      PlainBody(s[1..]);
      assert s == [s[0]] + s[1..];
    }
  }

  // ----- quoting -----

  function QuoteChar(c: char): string {
    if c == '\\' then "\\\\" else if c == '"' then "\\\"" else if c == '\r' then "\\r" else [c]
  }

  function QuoteBody(s: string): string {
    if s == [] then [] else QuoteChar(s[0]) + QuoteBody(s[1..])
  }

  /** A double-quoted spelling of any text. */
  function Quote(s: string): string {
    ['"'] + QuoteBody(s) + ['"']
  }

  lemma {:induction false} NoReturn(s: string)
    requires '\r' !in s
    ensures NormalizeNewlines(s) == s
  {
    if s != [] {
      NoReturn(s[1..]);
      assert s == [s[0]] + s[1..];
    }
  }

  lemma {:induction false} QuotedHasNoReturn(s: string)
    ensures '\r' !in QuoteBody(s)
  {
    if s != [] {
      QuotedHasNoReturn(s[1..]);
    }
  }

  lemma UnescapeQuotedChar(c: char, rest: string)
    ensures UnescapeChar(QuoteChar(c) + rest) == Some((c, |QuoteChar(c)|))
    ensures (QuoteChar(c) + rest)[|QuoteChar(c)|..] == rest
  {}

  lemma {:induction false} UnescapeQuotedBody(s: string)
    ensures UnescapeBody(QuoteBody(s)) == Some(s)
  {
    if s != [] {
      UnescapeQuotedBody(s[1..]);
      UnescapeQuotedChar(s[0], QuoteBody(s[1..]));
      assert s == [s[0]] + s[1..];
    }
  }

  /** Every text has a quoted spelling that unescapes to it. */
  lemma UnescapeOfQuote(s: string)
    ensures Unescape(Quote(s)) == Some(s)
  {
    QuotedHasNoReturn(s);
    NoReturn(Quote(s));
    var value := Quote(s);
    assert value[1..|value| - 1] == QuoteBody(s);
    UnescapeQuotedBody(s);
  }
}

/**
 * Text helpers the engine relies on: the decimal rendering Ruby uses when it
 * interpolates an Integer into a string, and Ruby's `Regexp.escape`, which
 * `Pattern#initialize` applies to literal text.
 */
module RegexText {

  /** The character of a decimal digit. */
  function DigitChar(d: nat): (c: char)
    requires d < 10
    ensures '0' <= c <= '9' && c as int - '0' as int == d
  {
    (d + '0' as int) as char
  }

  /** `"#{n}"` for a non-negative Integer: its decimal digits, most significant first. */
  function NatToString(n: nat): (r: string)
    ensures |r| > 0
    ensures forall i :: 0 <= i < |r| ==> '0' <= r[i] <= '9'
    decreases n
  {
    if n < 10 then [DigitChar(n)] else NatToString(n / 10) + [DigitChar(n % 10)]
  }

  /** Reads a string of decimal digits back as a number (the inverse of NatToString). */
  function ParseDecimal(s: string): int
    decreases |s|
  {
    if |s| == 0 then 0
    else ParseDecimal(s[..|s| - 1]) * 10 + (s[|s| - 1] as int - '0' as int)
  }

  lemma {:induction false} ParseNatToString(n: nat)
    ensures ParseDecimal(NatToString(n)) == n
    decreases n
  {
    if n >= 10 {
      ParseNatToString(n / 10);
      var s := NatToString(n);
      assert s[..|s| - 1] == NatToString(n / 10);
    }
  }

  /** Distinct group numbers give distinct capture keys. */
  lemma NatToStringInjective(a: nat, b: nat)
    requires NatToString(a) == NatToString(b)
    ensures a == b
  {
    ParseNatToString(a);
    ParseNatToString(b);
  }

  /** `prefix` starts `s`, compared one character at a time. */
  predicate HasPrefix(s: string, prefix: string)
    decreases |prefix|
  {
    prefix == [] || (|s| > 0 && s[0] == prefix[0] && HasPrefix(s[1..], prefix[1..]))
  }

  lemma {:induction false} HasPrefixIff(s: string, prefix: string)
    ensures HasPrefix(s, prefix) <==> |prefix| <= |s| && s[..|prefix|] == prefix
    decreases |prefix|
  {
    if prefix != [] && |s| > 0 {
      HasPrefixIff(s[1..], prefix[1..]);
      if |prefix| <= |s| {
        assert s[..|prefix|] == [s[0]] + s[1..][..|prefix| - 1];
        assert prefix == [prefix[0]] + prefix[1..];
      }
    }
  }

  const FormFeed: char := 12 as char
  const VerticalTab: char := 11 as char

  /** The characters `Regexp.escape` prefixes with a backslash and keeps. */
  predicate IsQuotedMeta(c: char) {
    c in "[]{}()|-*.\\?+^$#"
  }

  /** The characters `Regexp.escape` rewrites in any way. */
  predicate IsMetaChar(c: char) {
    IsQuotedMeta(c) || c == ' ' || c == '\t' || c == '\n' || c == '\r' || c == FormFeed || c == VerticalTab
  }

  /** `Regexp.escape` of one character. */
  function EscapeChar(c: char): (r: string)
    ensures IsMetaChar(c) ==> |r| == 2 && r[0] == '\\'
    ensures !IsMetaChar(c) ==> r == [c]
  {
    if c == ' ' then "\\ "
    else if c == '\t' then "\\t"
    else if c == '\n' then "\\n"
    else if c == '\r' then "\\r"
    else if c == FormFeed then "\\f"
    else if c == VerticalTab then "\\v"
    else if IsQuotedMeta(c) then ['\\', c]
    else [c]
  }

  /** `Regexp.escape(s)`: a regex source that matches exactly the text `s`. */
  function Escape(s: string): string
    decreases |s|
  {
    if s == [] then [] else EscapeChar(s[0]) + Escape(s[1..])
  }

  /** The character a backslash escape denotes. */
  function UnescapeChar(c: char): char {
    if c == 't' then '\t'
    else if c == 'n' then '\n'
    else if c == 'r' then '\r'
    else if c == 'f' then FormFeed
    else if c == 'v' then VerticalTab
    else c
  }

  /** Reads escaped regex text back as the literal text it matches. */
  function Unescape(s: string): string
    decreases |s|
  {
    if |s| == 0 then []
    else if s[0] == '\\' && |s| >= 2 then [UnescapeChar(s[1])] + Unescape(s[2..])
    else [s[0]] + Unescape(s[1..])
  }

  /** The escape of a metacharacter reads back as that character. */
  lemma UnescapeEscapedMeta(c: char)
    requires IsMetaChar(c)
    ensures UnescapeChar(EscapeChar(c)[1]) == c
  {
    if c == ' ' || c == '\t' || c == '\n' || c == '\r' || c == FormFeed || c == VerticalTab {
    } else {
      assert IsQuotedMeta(c) && EscapeChar(c) == ['\\', c];
      assert c !in "tnrfv";
    }
  }

  lemma UnescapeEscapeChar(c: char, rest: string)
    ensures Unescape(EscapeChar(c) + rest) == [c] + Unescape(rest)
  {
    var e := EscapeChar(c) + rest;
    if IsMetaChar(c) {
      UnescapeEscapedMeta(c);
      assert e[0] == '\\' && |e| >= 2 && e[1] == EscapeChar(c)[1] && e[2..] == rest;
      assert Unescape(e) == [UnescapeChar(e[1])] + Unescape(e[2..]);
    } else {
      assert e[0] == c && c != '\\' && e[1..] == rest;
      assert Unescape(e) == [e[0]] + Unescape(e[1..]);
    }
  }

  /** Escaping loses nothing: the escaped text reads back as the original. */
  lemma {:induction false} UnescapeEscape(s: string)
    ensures Unescape(Escape(s)) == s
    decreases |s|
  {
    if s != [] {
      UnescapeEscapeChar(s[0], Escape(s[1..]));
      UnescapeEscape(s[1..]);
    }
  }

  /** Text without regex metacharacters is its own escape. */
  lemma {:induction false} EscapePlain(s: string)
    requires forall i :: 0 <= i < |s| ==> !IsMetaChar(s[i])
    ensures Escape(s) == s
    decreases |s|
  {
    if s != [] {
      EscapePlain(s[1..]);
    }
  }
}

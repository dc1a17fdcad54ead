/**
 * Ruby's `URI.escape(str)` with its default set of unsafe characters, as the
 * RFC 2396 parser of Ruby's `uri` library defines it: a character of the
 * unreserved set or of the reserved set is kept, and every other character
 * (the space, `%`, `#`, `"`, control characters, anything outside ASCII, ...)
 * is replaced, one byte of its UTF-8 encoding at a time, by `%` and two
 * upper-case hexadecimal digits.
 */
module UriEscape {

  import opened Bytes
  import Text

  predicate IsAlnum(c: char) {
    'a' <= c <= 'z' || 'A' <= c <= 'Z' || '0' <= c <= '9'
  }

  /** `unreserved` of section 2.3 of RFC 2396: letters, digits and the nine marks. */
  predicate IsUnreserved(c: char) {
    || IsAlnum(c)
    || c == '-' || c == '_' || c == '.' || c == '!' || c == '~'
    || c == '*' || c == '\'' || c == '(' || c == ')'
  }

  /** `reserved` of section 2.2 of RFC 2396, with the `[` and `]` that section 3 of RFC 2732 adds. */
  predicate IsReserved(c: char) {
    || c == ';' || c == '/' || c == '?' || c == ':' || c == '@' || c == '&'
    || c == '=' || c == '+' || c == '$' || c == ',' || c == '[' || c == ']'
  }

  /** The characters `URI.escape` leaves as they are. */
  predicate IsSafe(c: char) {
    IsUnreserved(c) || IsReserved(c)
  }

  /** The delimiters of the parameter line and of array values are reserved, so `URI.escape` keeps them. */
  lemma DelimitersSafe()
    ensures IsSafe('&') && IsSafe('=') && IsSafe(',') && IsSafe('[') && IsSafe(']')
  {
  }

  predicate AllSafe(s: string) {
    forall i :: 0 <= i < |s| ==> IsSafe(s[i])
  }

  /** The UTF-8 encoding of one Unicode scalar value (section 3 of RFC 3629). */
  function Utf8(c: char): (bs: seq<byte>)
    ensures 1 <= |bs| <= 4
    ensures |bs| == 1 <==> c as int < 0x80
    ensures |bs| == 1 ==> bs[0] == c as int
  {
    var n := c as int;
    if n < 0x80 then [n]
    else if n < 0x800 then [0xC0 + n / 0x40, 0x80 + n % 0x40]
    else if n < 0x1_0000 then [0xE0 + n / 0x1000, 0x80 + (n / 0x40) % 0x40, 0x80 + n % 0x40]
    else [0xF0 + n / 0x4_0000, 0x80 + (n / 0x1000) % 0x40, 0x80 + (n / 0x40) % 0x40, 0x80 + n % 0x40]
  }

  /** The bytes of the UTF-8 encoding of a whole string. */
  function Utf8String(s: string): (bs: seq<byte>)
    ensures |bs| >= |s|
  {
    if s == [] then [] else Utf8(s[0]) + Utf8String(s[1..])
  }

  predicate IsHexDigit(c: char) {
    '0' <= c <= '9' || 'A' <= c <= 'F' || 'a' <= c <= 'f'
  }

  function HexValue(c: char): (n: int)
    requires IsHexDigit(c)
    ensures 0 <= n < 16
  {
    if c <= '9' then c as int - '0' as int
    else if c <= 'F' then c as int - 'A' as int + 10
    else c as int - 'a' as int + 10
  }

  /** A hexadecimal digit as `URI.escape` writes it: a decimal digit or a capital `A`-`F`. */
  predicate IsUpperHex(c: char) {
    '0' <= c <= '9' || 'A' <= c <= 'F'
  }

  /** Every `%` in `r` opens a `%HH` triple of two upper-case hexadecimal digits. */
  predicate PercentTriples(r: string) {
    forall i :: 0 <= i < |r| && r[i] == '%' ==> i + 2 < |r| && IsUpperHex(r[i + 1]) && IsUpperHex(r[i + 2])
  }

  lemma TriplesAppend(a: string, b: string)
    requires PercentTriples(a) && PercentTriples(b)
    ensures PercentTriples(a + b)
  {
    forall i | 0 <= i < |a + b| && (a + b)[i] == '%'
      ensures i + 2 < |a + b| && IsUpperHex((a + b)[i + 1]) && IsUpperHex((a + b)[i + 2])
    {
      if i < |a| {
        assert a[i] == '%';
      } else {
        assert b[i - |a|] == '%';
      }
    }
  }

  /** The upper-case hexadecimal digit `sprintf('%02X')` writes for `n`. */
  function HexDigit(n: int): (c: char)
    requires 0 <= n < 16
    ensures IsHexDigit(c) && HexValue(c) == n
    ensures IsUpperHex(c)
    ensures IsAlnum(c) && !('a' <= c <= 'z')
  {
    if n < 10 then ('0' as int + n) as char else ('A' as int + n - 10) as char
  }

  /** `%HH` for every byte, as `URI.escape` writes an unsafe character. */
  function PercentEncode(bs: seq<byte>): (r: string)
    ensures |r| == 3 * |bs|
    ensures forall i :: 0 <= i < |r| ==> IsSafe(r[i]) || r[i] == '%'
    ensures bs != [] ==> r[0] == '%'
    ensures PercentTriples(r)
  {
    if bs == [] then ""
    else
      var head := ['%', HexDigit(bs[0] / 16), HexDigit(bs[0] % 16)];
      var tail := PercentEncode(bs[1..]);
      TriplesAppend(head, tail);
      head + tail
  }

  function EscapeChar(c: char): (r: string)
    ensures PercentTriples(r)
  {
    if IsSafe(c) then [c] else PercentEncode(Utf8(c))
  }

  /**
   * `URI.escape(s)`. A string of safe characters comes back unchanged; any
   * other string grows, and then holds a `%` that the input's safe characters
   * cannot account for. The result holds only safe characters and `%`.
   */
  function Escape(s: string): (r: string)
    ensures |r| >= |s|
    ensures AllSafe(s) <==> r == s
    ensures !AllSafe(s) <==> '%' in r
    ensures !AllSafe(s) ==> |r| > |s|
    ensures forall i :: 0 <= i < |r| ==> IsSafe(r[i]) || r[i] == '%'
    ensures PercentTriples(r)
  {
    if s == [] then ""
    else
      var tail := Escape(s[1..]);
      EscapeCons(s[0], s[1..], tail);
      TriplesAppend(EscapeChar(s[0]), tail);
      assert s == [s[0]] + s[1..];
      EscapeChar(s[0]) + tail
  }

  /** Escaping works character by character, so it distributes over concatenation. */
  lemma {:induction false} EscapeAppend(a: string, b: string)
    ensures Escape(a + b) == Escape(a) + Escape(b)
  {
    if a == [] {
      assert a + b == b;
    } else {
      var ab := a + b;
      assert ab[0] == a[0] && ab[1..] == a[1..] + b;
      EscapeAppend(a[1..], b);
      Text.Regroup(EscapeChar(a[0]), Escape(a[1..]), Escape(b));
    }
  }

  /** The facts `Escape` promises carry over from the rest of the text to the text with one more character in front. */
  lemma EscapeCons(c: char, rest: string, tail: string)
    requires |tail| >= |rest|
    requires AllSafe(rest) <==> tail == rest
    requires !AllSafe(rest) <==> '%' in tail
    requires !AllSafe(rest) ==> |tail| > |rest|
    requires forall i :: 0 <= i < |tail| ==> IsSafe(tail[i]) || tail[i] == '%'
    ensures var s, r := [c] + rest, EscapeChar(c) + tail;
      && |r| >= |s|
      && (AllSafe(s) <==> r == s)
      && (!AllSafe(s) <==> '%' in r)
      && (!AllSafe(s) ==> |r| > |s|)
      && forall i :: 0 <= i < |r| ==> IsSafe(r[i]) || r[i] == '%'
  {
    var s, head := [c] + rest, EscapeChar(c);
    var r := head + tail;
    AllSafeCons(c, rest);
    assert forall i :: |head| <= i < |r| ==> r[i] == tail[i - |head|];
    if IsSafe(c) {
      assert head == [c];
      assert r[0] == c;
      assert r == s <==> tail == rest;
      assert '%' in r <==> '%' in tail;
    } else {
      assert r[0] == '%';
    }
  }

  lemma AllSafeCons(c: char, rest: string)
    ensures AllSafe([c] + rest) <==> IsSafe(c) && AllSafe(rest)
  {
    var s := [c] + rest;
    assert s[0] == c;
    assert forall i :: 0 <= i < |rest| ==> s[i + 1] == rest[i];
  }

  /** A character that is neither safe nor `%`, such as a line feed, never appears in an escaped string. */
  lemma EscapeAvoids(s: string, c: char)
    requires !IsSafe(c) && c != '%'
    ensures c !in Escape(s)
  {
  }

  /**
   * The bytes a percent-encoded string stands for: `%` followed by two
   * hexadecimal digits is one byte, any other character stands for its
   * UTF-8 encoding.
   */
  function Unescape(s: string): seq<byte> {
    if s == [] then []
    else if |s| >= 3 && s[0] == '%' && IsHexDigit(s[1]) && IsHexDigit(s[2]) then
      [HexValue(s[1]) * 16 + HexValue(s[2])] + Unescape(s[3..])
    else
      Utf8(s[0]) + Unescape(s[1..])
  }

  lemma {:induction false} UnescapePercentEncode(bs: seq<byte>, rest: string)
    ensures Unescape(PercentEncode(bs) + rest) == bs + Unescape(rest)
  {
    if bs == [] {
      assert PercentEncode(bs) == [];
      assert [] + rest == rest;
    } else {
      UnescapePercentEncode(bs[1..], rest);
      UnescapePercentCons(bs, rest);
    }
  }

  /** One `%HH` in front adds its byte in front of the decoding. */
  lemma UnescapePercentCons(bs: seq<byte>, rest: string)
    requires bs != []
    requires Unescape(PercentEncode(bs[1..]) + rest) == bs[1..] + Unescape(rest)
    ensures Unescape(PercentEncode(bs) + rest) == bs + Unescape(rest)
  {
    var b0, more, back := bs[0], bs[1..], Unescape(rest);
    var tail := PercentEncode(more) + rest;
    PercentEncodeCons(bs, rest);
    UnescapeByte(b0, tail);
    ConsAppend(b0, more, back, bs);
  }

  lemma PercentEncodeCons(bs: seq<byte>, rest: string)
    requires bs != []
    ensures PercentEncode(bs) + rest == ['%', HexDigit(bs[0] / 16), HexDigit(bs[0] % 16)] + (PercentEncode(bs[1..]) + rest)
  {
  }

  lemma UnescapeByte(b: byte, tail: string)
    ensures Unescape(['%', HexDigit(b / 16), HexDigit(b % 16)] + tail) == [b] + Unescape(tail)
  {
    var h, l := HexDigit(b / 16), HexDigit(b % 16);
    var s := ['%', h, l] + tail;
    assert s[0] == '%' && s[1] == h && s[2] == l && s[3..] == tail;
    UnescapeTriple(s);
  }

  lemma ConsAppend<T>(x: T, a: seq<T>, b: seq<T>, whole: seq<T>)
    requires whole != [] && x == whole[0] && a == whole[1..]
    ensures [x] + (a + b) == whole + b
  {
    assert whole == [x] + a;
  }

  /** `%` and two hexadecimal digits decode to one byte. */
  lemma UnescapeTriple(s: string)
    requires |s| >= 3 && s[0] == '%' && IsHexDigit(s[1]) && IsHexDigit(s[2])
    ensures Unescape(s) == [HexValue(s[1]) * 16 + HexValue(s[2])] + Unescape(s[3..])
  {
  }

  lemma {:induction false} UnescapeEscapeChar(c: char, rest: string)
    ensures Unescape(EscapeChar(c) + rest) == Utf8(c) + Unescape(rest)
  {
    if IsSafe(c) {
      assert ([c] + rest)[1..] == rest;
    } else {
      UnescapePercentEncode(Utf8(c), rest);
    }
  }

  /** Escaped text decodes to its input's bytes whatever text follows it. */
  lemma {:induction false} UnescapeEscapeAppend(s: string, rest: string)
    ensures Unescape(Escape(s) + rest) == Utf8String(s) + Unescape(rest)
  {
    if s == [] {
      assert Escape(s) + rest == rest;
    } else {
      var t := Escape(s[1..]) + rest;
      UnescapeEscapeAppend(s[1..], rest);
      UnescapeEscapeChar(s[0], t);
      Text.Regroup(EscapeChar(s[0]), Escape(s[1..]), rest);
      Text.Regroup(Utf8(s[0]), Utf8String(s[1..]), Unescape(rest));
    }
  }

  /** An ASCII character other than `%` decodes to its own byte. */
  lemma UnescapeAscii(c: char, t: string)
    requires c != '%' && c as int < 0x80
    ensures Unescape([c] + t) == [c as int] + Unescape(t)
  {
    var s := [c] + t;
    assert s[0] == c && s[1..] == t;
  }

  /** Decoding what `Escape` writes gives back the UTF-8 bytes of its input: escaping loses nothing. */
  lemma {:induction false} EscapeRoundTrip(s: string)
    ensures Unescape(Escape(s)) == Utf8String(s)
  {
    if s != [] {
      UnescapeEscapeChar(s[0], Escape(s[1..]));
      EscapeRoundTrip(s[1..]);
    }
  }
}

/**
 * Ruby's `Base64.encode64`, that is `[bin].pack('m')`: the base64 alphabet and
 * `=` padding of section 6.8 of RFC 2045, with a line feed after every 60
 * characters of output (45 bytes of input) and after the last, shorter line.
 * `Decode` is the inverse of the unbroken encoding and serves to state that
 * the encoding loses nothing.
 */
module Base64 {

  import opened Wrappers
  import opened Bytes

  predicate IsBase64Char(c: char) {
    'A' <= c <= 'Z' || 'a' <= c <= 'z' || '0' <= c <= '9' || c == '+' || c == '/'
  }

  function SextetValue(c: char): (n: int)
    requires IsBase64Char(c)
    ensures 0 <= n < 64
  {
    if 'A' <= c <= 'Z' then c as int - 'A' as int
    else if 'a' <= c <= 'z' then c as int - 'a' as int + 26
    else if '0' <= c <= '9' then c as int - '0' as int + 52
    else if c == '+' then 62
    else 63
  }

  /** The character of the base64 alphabet (table 1 of section 6.8 of RFC 2045) for a 6-bit value. */
  function Sextet(n: int): (c: char)
    requires 0 <= n < 64
    ensures IsBase64Char(c) && SextetValue(c) == n
  {
    if n < 26 then ('A' as int + n) as char
    else if n < 52 then ('a' as int + n - 26) as char
    else if n < 62 then ('0' as int + n - 52) as char
    else if n == 62 then '+'
    else '/'
  }

  /** One group of up to three bytes as four characters, padded with `=`. */
  function EncodeUnit(bs: seq<byte>): (r: string)
    requires 1 <= |bs| <= 3
    ensures |r| == 4
    ensures forall i :: 0 <= i < |bs| + 1 ==> IsBase64Char(r[i])
    ensures forall i :: |bs| + 1 <= i < 4 ==> r[i] == '='
  {
    var b0 := bs[0];
    var b1 := if |bs| > 1 then bs[1] else 0;
    var b2 := if |bs| > 2 then bs[2] else 0;
    [ Sextet(b0 / 4),
      Sextet((b0 % 4) * 16 + b1 / 16),
      if |bs| > 1 then Sextet((b1 % 16) * 4 + b2 / 64) else '=',
      if |bs| > 2 then Sextet(b2 % 64) else '=' ]
  }

  /** The number of `=` that end the encoding of `n` bytes. */
  function Padding(n: nat): nat {
    if n % 3 == 0 then 0 else 3 - n % 3
  }

  /** The encoding of `bs` on one line: four characters for every three bytes, the last group padded. */
  function EncodeBlock(bs: seq<byte>): (r: string)
    ensures |r| == 4 * ((|bs| + 2) / 3)
    ensures forall i :: 0 <= i < |r| - Padding(|bs|) ==> IsBase64Char(r[i])
    ensures forall i :: |r| - Padding(|bs|) <= i < |r| ==> r[i] == '='
  {
    if bs == [] then ""
    else if |bs| <= 3 then EncodeUnit(bs)
    else
      var head := EncodeUnit(bs[..3]);
      var tail := EncodeBlock(bs[3..]);
      EncodeBlockStep(|bs|, head, tail);
      head + tail
  }

  lemma EncodeBlockStep(n: nat, head: string, tail: string)
    requires n > 3 && |head| == 4 && forall i :: 0 <= i < 4 ==> IsBase64Char(head[i])
    requires |tail| == 4 * ((n - 3 + 2) / 3)
    requires forall i :: 0 <= i < |tail| - Padding(n - 3) ==> IsBase64Char(tail[i])
    requires forall i :: |tail| - Padding(n - 3) <= i < |tail| ==> tail[i] == '='
    ensures |head + tail| == 4 * ((n + 2) / 3)
    ensures forall i :: 0 <= i < |head + tail| - Padding(n) ==> IsBase64Char((head + tail)[i])
    ensures forall i :: |head + tail| - Padding(n) <= i < |head + tail| ==> (head + tail)[i] == '='
  {
    assert Padding(n) == Padding(n - 3);
    assert (n + 2) / 3 == (n - 3 + 2) / 3 + 1;
    assert forall i :: 4 <= i < |head + tail| ==> (head + tail)[i] == tail[i - 4];
  }

  /** `Base64.encode64(bs)`: lines of at most 60 characters, each ended by a line feed. */
  function Encode64(bs: seq<byte>): (r: string)
    ensures bs == [] <==> r == []
    ensures |bs| <= 45 ==> r == if bs == [] then [] else EncodeBlock(bs) + "\n"
  {
    if bs == [] then ""
    else if |bs| <= 45 then EncodeBlock(bs) + "\n"
    else EncodeBlock(bs[..45]) + "\n" + Encode64(bs[45..])
  }

  /** Four characters back into the one to three bytes they encode; `None` for anything that is not a group. */
  function DecodeUnit(u: string): (r: Option<seq<byte>>)
    requires |u| == 4
    ensures r.Some? ==> 1 <= |r.value| <= 3
  {
    if IsBase64Char(u[0]) && IsBase64Char(u[1]) then
      var v0, v1 := SextetValue(u[0]), SextetValue(u[1]);
      if IsBase64Char(u[2]) && IsBase64Char(u[3]) then
        var v2, v3 := SextetValue(u[2]), SextetValue(u[3]);
        Some([v0 * 4 + v1 / 16, (v1 % 16) * 16 + v2 / 4, (v2 % 4) * 64 + v3])
      else if IsBase64Char(u[2]) && u[3] == '=' then
        var v2 := SextetValue(u[2]);
        Some([v0 * 4 + v1 / 16, (v1 % 16) * 16 + v2 / 4])
      else if u[2] == '=' && u[3] == '=' then
        Some([v0 * 4 + v1 / 16])
      else None
    else None
  }

  /** The bytes a padded, unbroken base64 text encodes; padding is accepted in the last group only. */
  function Decode(s: string): Option<seq<byte>> {
    if s == [] then Some([])
    else if |s| < 4 then None
    else
      match DecodeUnit(s[..4])
      case None => None
      case Some(head) =>
        if |head| < 3 && |s| > 4 then None
        else
          match Decode(s[4..])
          case None => None
          case Some(tail) => Some(head + tail)
  }

  lemma DecodeEncodeUnit(bs: seq<byte>)
    requires 1 <= |bs| <= 3
    ensures DecodeUnit(EncodeUnit(bs)) == Some(bs)
  {
    if |bs| == 1 {
      DecodeEncodeOne(bs);
    } else if |bs| == 2 {
      DecodeEncodeTwo(bs);
    } else {
      DecodeEncodeThree(bs);
    }
  }

  lemma DecodeEncodeOne(bs: seq<byte>)
    requires |bs| == 1
    ensures DecodeUnit(EncodeUnit(bs)) == Some(bs)
  {
    var u := EncodeUnit(bs);
    var b0 := bs[0];
    var v1 := (b0 % 4) * 16;
    assert SextetValue(u[0]) == b0 / 4 && SextetValue(u[1]) == v1;
    assert (b0 / 4) * 4 + v1 / 16 == b0;
    DecodeOneByte(u);
    assert bs == [b0];
  }

  lemma DecodeEncodeTwo(bs: seq<byte>)
    requires |bs| == 2
    ensures DecodeUnit(EncodeUnit(bs)) == Some(bs)
  {
    var u := EncodeUnit(bs);
    var b0, b1 := bs[0], bs[1];
    var v1 := (b0 % 4) * 16 + b1 / 16;
    var v2 := (b1 % 16) * 4;
    assert SextetValue(u[0]) == b0 / 4 && SextetValue(u[1]) == v1 && SextetValue(u[2]) == v2;
    assert (b0 / 4) * 4 + v1 / 16 == b0;
    assert (v1 % 16) * 16 + v2 / 4 == b1;
    DecodeTwoBytes(u);
    assert bs == [b0, b1];
  }

  lemma DecodeEncodeThree(bs: seq<byte>)
    requires |bs| == 3
    ensures DecodeUnit(EncodeUnit(bs)) == Some(bs)
  {
    var u := EncodeUnit(bs);
    var b0, b1, b2 := bs[0], bs[1], bs[2];
    var v1 := (b0 % 4) * 16 + b1 / 16;
    var v2 := (b1 % 16) * 4 + b2 / 64;
    assert SextetValue(u[0]) == b0 / 4 && SextetValue(u[1]) == v1;
    assert SextetValue(u[2]) == v2 && SextetValue(u[3]) == b2 % 64;
    assert (b0 / 4) * 4 + v1 / 16 == b0;
    assert (v1 % 16) * 16 + v2 / 4 == b1;
    assert (v2 % 4) * 64 + b2 % 64 == b2;
    DecodeThreeBytes(u);
    assert bs == [b0, b1, b2];
  }

  lemma DecodeOneByte(u: string)
    requires |u| == 4 && IsBase64Char(u[0]) && IsBase64Char(u[1]) && u[2] == '=' && u[3] == '='
    ensures DecodeUnit(u) == Some([SextetValue(u[0]) * 4 + SextetValue(u[1]) / 16])
  {
  }

  lemma DecodeTwoBytes(u: string)
    requires |u| == 4 && IsBase64Char(u[0]) && IsBase64Char(u[1]) && IsBase64Char(u[2]) && u[3] == '='
    ensures var v0, v1, v2 := SextetValue(u[0]), SextetValue(u[1]), SextetValue(u[2]);
      DecodeUnit(u) == Some([v0 * 4 + v1 / 16, (v1 % 16) * 16 + v2 / 4])
  {
  }

  lemma DecodeThreeBytes(u: string)
    requires |u| == 4 && IsBase64Char(u[0]) && IsBase64Char(u[1]) && IsBase64Char(u[2]) && IsBase64Char(u[3])
    ensures var v0, v1, v2, v3 := SextetValue(u[0]), SextetValue(u[1]), SextetValue(u[2]), SextetValue(u[3]);
      DecodeUnit(u) == Some([v0 * 4 + v1 / 16, (v1 % 16) * 16 + v2 / 4, (v2 % 4) * 64 + v3])
  {
  }

  /** Decoding an unbroken encoding gives back the bytes. */
  lemma {:induction false} DecodeEncodeBlock(bs: seq<byte>)
    ensures Decode(EncodeBlock(bs)) == Some(bs)
  {
    if bs == [] {
    } else if |bs| <= 3 {
      DecodeEncodeUnit(bs);
      DecodeLast(EncodeBlock(bs), bs);
    } else {
      var e := EncodeBlock(bs);
      assert e[..4] == EncodeUnit(bs[..3]);
      assert e[4..] == EncodeBlock(bs[3..]);
      DecodeEncodeUnit(bs[..3]);
      DecodeEncodeBlock(bs[3..]);
      DecodeCons(e, bs[..3], bs[3..]);
      assert bs[..3] + bs[3..] == bs;
    }
  }

  /** A text of one group decodes as that group. */
  lemma DecodeLast(s: string, head: seq<byte>)
    requires |s| == 4 && DecodeUnit(s) == Some(head)
    ensures Decode(s) == Some(head)
  {
    assert s[..4] == s && s[4..] == [];
    assert head + [] == head;
  }

  /** A full group followed by more text decodes to the group's bytes followed by the rest's. */
  lemma DecodeCons(s: string, head: seq<byte>, tail: seq<byte>)
    requires |s| > 4 && DecodeUnit(s[..4]) == Some(head) && |head| == 3
    requires Decode(s[4..]) == Some(tail)
    ensures Decode(s) == Some(head + tail)
  {
  }

  /** The encoding of a 32-byte digest: one line of 43 alphabet characters, one `=`, one line feed. */
  lemma DigestEncoding(d: seq<byte>)
    requires |d| == 32
    ensures |EncodeBlock(d)| == 44 && EncodeBlock(d)[43] == '='
    ensures forall i :: 0 <= i < 43 ==> IsBase64Char(EncodeBlock(d)[i])
    ensures Encode64(d) == EncodeBlock(d) + "\n"
  {
    assert Padding(32) == 1;
  }
}

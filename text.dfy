/**
 * The Ruby String operations that the signing helper applies: `strip`,
 * `upcase`, `downcase`, `chomp(x)`, `include?` and `Array#join`. Case mapping
 * is restricted to ASCII letters; every other character is left as it is.
 */
module Text {

  /**
   * The characters the model strips: NUL, tab, line feed, vertical tab, form
   * feed, carriage return, space. `rstrip` removes a trailing NUL; at the
   * leading end the model removes NUL as well, which some Ruby versions'
   * `lstrip` do not.
   */
  predicate IsSpace(c: char) {
    c == ' ' || '\t' <= c <= '\r' || c == '\0'
  }

  predicate AllSpace(s: string) {
    forall i :: 0 <= i < |s| ==> IsSpace(s[i])
  }

  /** Neither end of `s` is a strippable character. */
  predicate IsStripped(s: string) {
    s == [] || (!IsSpace(s[0]) && !IsSpace(s[|s| - 1]))
  }

  /** `r` is what is left of `s` once the run of spaces before index `i` and the run after `r` are cut off. */
  predicate StrippedAt(s: string, i: nat, r: string) {
    && i + |r| <= |s|
    && r == s[i..i + |r|]
    && AllSpace(s[..i])
    && AllSpace(s[i + |r|..])
    && IsStripped(r)
  }

  /** `lstrip`: drop the leading run of `IsSpace` characters, NUL included. */
  function LStrip(s: string): (r: string)
    ensures |r| <= |s| && r == s[|s| - |r|..]
    ensures AllSpace(s[..|s| - |r|])
    ensures r == [] || !IsSpace(r[0])
  {
    if s != [] && IsSpace(s[0]) then LStrip(s[1..]) else s
  }

  /** Ruby's `rstrip`: drop the trailing run of spaces. */
  function RStrip(s: string): (r: string)
    ensures |r| <= |s| && r == s[..|r|]
    ensures AllSpace(s[|r|..])
    ensures r == [] || !IsSpace(r[|r| - 1])
  {
    if s != [] && IsSpace(s[|s| - 1]) then RStrip(s[..|s| - 1]) else s
  }

  /** Ruby's `strip`: the infix of `s` between its leading and its trailing run of spaces. */
  function Strip(s: string): (r: string)
    ensures StrippedAt(s, |s| - |LStrip(s)|, r)
    ensures IsStripped(s) <==> r == s
  {
    StripShape(s);
    StripKeepsStripped(s);
    RStrip(LStrip(s))
  }

  lemma StripShape(s: string)
    ensures StrippedAt(s, |s| - |LStrip(s)|, RStrip(LStrip(s)))
  {
    var l := LStrip(s);
    StripParts(s, |s| - |l|, l, RStrip(l));
  }

  /** A leading run cut at `i` and a trailing run cut from what is left make a strip. */
  lemma StripParts(s: string, i: nat, l: string, r: string)
    requires i <= |s| && l == s[i..] && AllSpace(s[..i])
    requires |r| <= |l| && r == l[..|r|] && AllSpace(l[|r|..])
    requires l == [] || !IsSpace(l[0])
    requires r == [] || !IsSpace(r[|r| - 1])
    ensures StrippedAt(s, i, r)
  {
    assert r == s[i..i + |r|];
    assert s[i + |r|..] == l[|r|..];
    if r != [] {
      assert r[0] == l[0];
    }
  }

  lemma {:induction false} StripKeepsStripped(s: string)
    ensures IsStripped(s) ==> RStrip(LStrip(s)) == s
  {
    if IsStripped(s) && s != [] {
      var l := LStrip(s);
      assert l == s;
    }
  }

  /** A strippable character after a stripped, non-empty text is all that `strip` removes. */
  lemma {:induction false} StripTrailingSpace(x: string, c: char)
    requires x != [] && IsStripped(x) && IsSpace(c)
    ensures Strip(x + [c]) == x
  {
    var s := x + [c];
    assert LStrip(s) == s;
    assert s[..|s| - 1] == x;
    assert RStrip(s) == RStrip(x) == x;
  }

  predicate IsUpper(c: char) { 'A' <= c <= 'Z' }

  predicate IsLower(c: char) { 'a' <= c <= 'z' }

  predicate HasUpper(s: string) {
    exists i :: 0 <= i < |s| && IsUpper(s[i])
  }

  predicate HasLower(s: string) {
    exists i :: 0 <= i < |s| && IsLower(s[i])
  }

  /** Lower-cases an ASCII capital; every other character is kept. */
  function ToLower(c: char): (d: char)
    ensures !IsUpper(d)
    ensures IsUpper(c) ==> IsLower(d) && d as int == c as int + 32
    ensures !IsUpper(c) ==> d == c
    ensures IsSpace(d) <==> IsSpace(c)
  {
    if IsUpper(c) then (c as int + 32) as char else c
  }

  /** Capitalises an ASCII small letter; every other character is kept. */
  function ToUpper(c: char): (d: char)
    ensures !IsLower(d)
    ensures IsLower(c) ==> IsUpper(d) && d as int == c as int - 32
    ensures !IsLower(c) ==> d == c
    ensures IsSpace(d) <==> IsSpace(c)
  {
    if IsLower(c) then (c as int - 32) as char else c
  }

  /** Ruby's `downcase` on ASCII: `ToLower` applied to every character. The text keeps its length, holds no upper-case letter, and changes exactly when it held one. */
  function Downcase(s: string): (r: string)
    ensures |r| == |s| && !HasUpper(r)
    ensures !HasUpper(s) <==> r == s
    ensures forall i {:trigger ToUpper(r[i])} :: 0 <= i < |s| ==>
      if IsUpper(s[i]) then IsLower(r[i]) && ToUpper(r[i]) == s[i] else r[i] == s[i]
  {
    var r := seq(|s|, i requires 0 <= i < |s| => ToLower(s[i]));
    assert HasUpper(s) ==> r != s by {
      if HasUpper(s) {
        var i :| 0 <= i < |s| && IsUpper(s[i]);
        assert r[i] != s[i];
      }
    }
    r
  }

  /** Ruby's `upcase` on ASCII: `ToUpper` applied to every character. The text keeps its length, holds no lower-case letter, and changes exactly when it held one. */
  function Upcase(s: string): (r: string)
    ensures |r| == |s| && !HasLower(r)
    ensures !HasLower(s) <==> r == s
    ensures IsStripped(s) <==> IsStripped(r)
    ensures forall i {:trigger ToLower(r[i])} :: 0 <= i < |s| ==>
      if IsLower(s[i]) then IsUpper(r[i]) && ToLower(r[i]) == s[i] else r[i] == s[i]
  {
    var r := seq(|s|, i requires 0 <= i < |s| => ToUpper(s[i]));
    assert HasLower(s) ==> r != s by {
      if HasLower(s) {
        var i :| 0 <= i < |s| && IsLower(s[i]);
        assert r[i] != s[i];
      }
    }
    r
  }

  lemma UpcaseSlice(s: string, a: nat, b: nat)
    requires a <= b <= |s|
    ensures Upcase(s)[a..b] == Upcase(s[a..b])
  {
    assert forall k :: 0 <= k < b - a ==> Upcase(s)[a..b][k] == Upcase(s)[a + k];
  }

  lemma UpcaseAllSpace(s: string)
    requires AllSpace(s)
    ensures AllSpace(Upcase(s))
  {
  }

  /** A character that is not a letter occurs in `Downcase(s)` only where it occurs in `s`. */
  lemma DowncaseKeepsNonLetter(s: string, c: char)
    requires !IsUpper(c) && !IsLower(c)
    ensures c in Downcase(s) ==> c in s
  {
    if c in Downcase(s) {
      var k :| 0 <= k < |s| && Downcase(s)[k] == c;
      assert s[k] == c;
    }
  }

  /** A character that is not a letter occurs in `Upcase(s)` only where it occurs in `s`. */
  lemma UpcaseKeepsNonLetter(s: string, c: char)
    requires !IsUpper(c) && !IsLower(c)
    ensures c in Upcase(s) ==> c in s
  {
    if c in Upcase(s) {
      var k :| 0 <= k < |s| && Upcase(s)[k] == c;
      assert s[k] == c;
    }
  }

  /** Upper-casing keeps the shape of a strip: the same spaces are cut at both ends. */
  lemma UpcaseStrippedAt(s: string, i: nat, r: string)
    requires StrippedAt(s, i, r)
    ensures StrippedAt(Upcase(s), i, Upcase(r))
  {
    var j := i + |r|;
    var u := Upcase(s);
    UpcaseSlice(s, i, j);
    UpcaseSlice(s, 0, i);
    UpcaseSlice(s, j, |s|);
    UpcaseAllSpace(s[..i]);
    UpcaseAllSpace(s[j..]);
    UpcaseStrippedParts(s, u, i, j, r, Upcase(r));
  }

  lemma UpcaseStrippedParts(s: string, u: string, i: nat, j: nat, r: string, ur: string)
    requires i <= j <= |s| == |u| && j == i + |r| && |ur| == |r|
    requires StrippedAt(s, i, r) && IsStripped(ur)
    requires ur == u[i..j]
    requires AllSpace(u[0..i]) && AllSpace(u[j..|s|])
    ensures StrippedAt(u, i, ur)
  {
    assert u[0..i] == u[..i] && u[j..|s|] == u[j..];
  }

  /** Ruby's `chomp(c)` for a one-character argument: removes one trailing `c`, if there is one. */
  function ChompChar(s: string, c: char): (r: string)
    ensures |r| <= |s| && r == s[..|r|]
    ensures r == s <==> (s == [] || s[|s| - 1] != c)
    ensures r != s ==> s == r + [c]
  {
    if s != [] && s[|s| - 1] == c then s[..|s| - 1] else s
  }

  /** Concatenation regroups freely; stated once for every element type. */
  lemma Regroup<T>(a: seq<T>, b: seq<T>, c: seq<T>)
    ensures a + (b + c) == a + b + c
  {
  }

  lemma Regroup5<T>(a: seq<T>, b: seq<T>, c: seq<T>, d: seq<T>, e: seq<T>)
    ensures a + b + (c + d + e) == a + b + c + d + e
  {
  }

  predicate StartsWith(s: string, prefix: string) {
    |prefix| <= |s| && s[..|prefix|] == prefix
  }

  /** Ruby's `include?`: `t` occurs in `s` at some position. */
  predicate Contains(s: string, t: string) {
    StartsWith(s, t) || (s != [] && Contains(s[1..], t))
  }

  lemma {:induction false} ContainsAt(s: string, t: string, i: nat)
    requires i + |t| <= |s| && s[i..i + |t|] == t
    ensures Contains(s, t)
  {
    if i > 0 {
      assert s[1..][i - 1..i - 1 + |t|] == s[i..i + |t|];
      ContainsAt(s[1..], t, i - 1);
    }
  }

  lemma {:induction false} ContainsFound(s: string, t: string) returns (i: nat)
    requires Contains(s, t)
    ensures i + |t| <= |s| && s[i..i + |t|] == t
  {
    if StartsWith(s, t) {
      i := 0;
    } else {
      var j := ContainsFound(s[1..], t);
      assert s[1..][j..j + |t|] == s[j + 1..j + 1 + |t|];
      i := j + 1;
    }
  }

  /** Appending one character cannot create an occurrence of `t` unless it ends the text, which the last-but-one characters rule out. */
  lemma SnocKeepsAbsent(s: string, c: char, t: string)
    requires |t| >= 2 && !Contains(s, t)
    requires s != [] && s[|s| - 1] != t[|t| - 2]
    ensures !Contains(s + [c], t)
  {
    if Contains(s + [c], t) {
      var i := ContainsFound(s + [c], t);
      if i + |t| <= |s| {
        assert (s + [c])[i..i + |t|] == s[i..i + |t|];
        ContainsAt(s, t, i);
      }
    }
  }

  /** Ruby's `Array#join(sep)`. */
  function Join(xs: seq<string>, sep: string): (r: string)
    ensures |xs| == 1 ==> r == xs[0]
  {
    if xs == [] then "" else if |xs| == 1 then xs[0] else xs[0] + sep + Join(xs[1..], sep)
  }

  lemma JoinTwo(x: string, y: string, sep: string)
    ensures Join([x, y], sep) == x + sep + y
  {
    assert [x, y][1..] == [y];
  }

  /** Appending one more element to a non-empty list appends the separator and that element to the joined text. */
  lemma {:induction false} JoinSnoc(xs: seq<string>, x: string, sep: string)
    requires xs != []
    ensures Join(xs + [x], sep) == Join(xs, sep) + sep + x
  {
    var ys := xs + [x];
    assert ys[1..] == xs[1..] + [x];
    if |xs| > 1 {
      JoinSnoc(xs[1..], x, sep);
      calc {
        Join(ys, sep);
        xs[0] + sep + Join(xs[1..] + [x], sep);
        xs[0] + sep + (Join(xs[1..], sep) + sep + x);
        { Regroup(xs[0] + sep, Join(xs[1..], sep), sep + x); Regroup(xs[0] + sep + Join(xs[1..], sep), sep, x); }
        Join(xs, sep) + sep + x;
      }
    }
  }

  /** Cuts `s` at every `sep`; the pieces are the text between separators, so there is always one more piece than separators. */
  function SplitOn(s: string, sep: char): (parts: seq<string>)
    ensures |parts| >= 1
  {
    if s == [] then [""]
    else if s[0] == sep then [""] + SplitOn(s[1..], sep)
    else
      var rest := SplitOn(s[1..], sep);
      [[s[0]] + rest[0]] + rest[1..]
  }

  lemma {:induction false} SplitOnNoSep(s: string, sep: char)
    requires sep !in s
    ensures SplitOn(s, sep) == [s]
  {
    if s != [] {
      SplitOnNoSep(s[1..], sep);
      assert [s[0]] + s[1..] == s;
    }
  }

  lemma {:induction false} SplitOnAppend(a: string, sep: char, b: string)
    requires sep !in a
    ensures SplitOn(a + [sep] + b, sep) == [a] + SplitOn(b, sep)
  {
    if a == [] {
      assert a + [sep] + b == [sep] + b;
      assert ([sep] + b)[1..] == b;
    } else {
      var s := a + [sep] + b;
      assert s[1..] == a[1..] + [sep] + b;
      SplitOnAppend(a[1..], sep, b);
      assert [a[0]] + a[1..] == a;
    }
  }

  /** Splitting a join at its one-character separator gives back the joined pieces, when none of them holds the separator. */
  lemma {:induction false} SplitJoin(xs: seq<string>, sep: char)
    requires xs != []
    requires forall i :: 0 <= i < |xs| ==> sep !in xs[i]
    ensures SplitOn(Join(xs, [sep]), sep) == xs
  {
    if |xs| == 1 {
      SplitOnNoSep(xs[0], sep);
    } else {
      SplitJoin(xs[1..], sep);
      SplitOnAppend(xs[0], sep, Join(xs[1..], [sep]));
      assert [xs[0]] + xs[1..] == xs;
    }
  }
}

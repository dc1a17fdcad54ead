/**
 * `HMacHelper` (lib/api/h_mac_helper.rb): builds the canonical string an API
 * request is signed over, and turns the HMAC-SHA256 digest of that string
 * into the signature text.
 *
 * OpenSSL's HMAC-SHA256 is not modelled: it is a parameter of
 * `ComputeHmacSignature`, any function from a key and a message to 32 bytes.
 */
module HMacHelper {

  import opened Wrappers
  import opened Bytes
  import opened Text
  import opened UriEscape
  import Base64
  import opened FlatParams

  type Digest = d: seq<byte> | |d| == 32 witness seq(32, i => 0)

  // ---------------------------------------------------------------------------
  // format_http_verb

  /** `format_http_verb`: the verb without surrounding whitespace, its ASCII letters upper-cased. */
  function FormatHttpVerb(httpVerb: string): (r: string)
    ensures StrippedAt(Upcase(httpVerb), |httpVerb| - |LStrip(httpVerb)|, r)
    ensures !HasLower(r)
    ensures '\n' in r ==> '\n' in httpVerb
  {
    VerbFacts(httpVerb);
    Upcase(Strip(httpVerb))
  }

  lemma VerbFacts(httpVerb: string)
    ensures StrippedAt(Upcase(httpVerb), |httpVerb| - |LStrip(httpVerb)|, Upcase(Strip(httpVerb)))
    ensures !HasLower(Upcase(Strip(httpVerb)))
    ensures '\n' in Upcase(Strip(httpVerb)) ==> '\n' in httpVerb
  {
    VerbShape(httpVerb, Strip(httpVerb), |httpVerb| - |LStrip(httpVerb)|);
  }

  lemma VerbShape(httpVerb: string, stripped: string, i: nat)
    requires StrippedAt(httpVerb, i, stripped)
    ensures StrippedAt(Upcase(httpVerb), i, Upcase(stripped))
    ensures !HasLower(Upcase(stripped))
    ensures '\n' in Upcase(stripped) ==> '\n' in httpVerb
  {
    UpcaseStrippedAt(httpVerb, i, stripped);
    assert '\n' in stripped ==> '\n' in httpVerb by {
      if '\n' in stripped {
        var k :| 0 <= k < |stripped| && stripped[k] == '\n';
        assert httpVerb[i + k] == '\n';
      }
    }
    UpcaseKeepsNonLetter(stripped, '\n');
  }

  /** Formatting a formatted verb changes nothing. */
  lemma FormatHttpVerbIdempotent(httpVerb: string)
    ensures FormatHttpVerb(FormatHttpVerb(httpVerb)) == FormatHttpVerb(httpVerb)
  {
    var r := FormatHttpVerb(httpVerb);
    assert IsStripped(r);
    assert Strip(r) == r;
    assert Upcase(r) == r;
  }

  // ---------------------------------------------------------------------------
  // extract_api_endpoint_from_uri

  /**
   * `gsub(%r{https?://}, '')`: scanning from the left, each `https://` or
   * `http://` met is cut out and the scan resumes after it, without looking
   * again at the text the cut has joined.
   */
  function RemoveSchemes(s: string): (r: string)
    ensures |r| <= |s|
    ensures forall c :: c in r ==> c in s
    ensures r == s <==> !Contains(s, "http://") && !Contains(s, "https://")
    ensures r != s ==> |r| < |s|
  {
    SchemeScanFacts(s);
    SchemeScan(s)
  }

  /** `s` starts with `http://`. */
  predicate HttpAt(s: string) {
    && |s| >= 7 && s[0] == 'h' && s[1] == 't' && s[2] == 't' && s[3] == 'p'
    && s[4] == ':' && s[5] == '/' && s[6] == '/'
  }

  /** `s` starts with `https://`. */
  predicate HttpsAt(s: string) {
    && |s| >= 8 && s[0] == 'h' && s[1] == 't' && s[2] == 't' && s[3] == 'p'
    && s[4] == 's' && s[5] == ':' && s[6] == '/' && s[7] == '/'
  }

  /** The length of the scheme `s` starts with: 8 for `https://`, 7 for `http://`, 0 for none. */
  function SchemeAt(s: string): (n: nat)
    ensures n <= |s|
  {
    if HttpsAt(s) then 8 else if HttpAt(s) then 7 else 0
  }

  lemma SchemeAtStartsWith(s: string)
    ensures HttpsAt(s) <==> StartsWith(s, "https://")
    ensures HttpAt(s) <==> StartsWith(s, "http://")
  {
    if |s| >= 8 && HttpsAt(s) {
      assert s[..8] == "https://";
    }
    if |s| >= 7 && HttpAt(s) {
      assert s[..7] == "http://";
    }
    if StartsWith(s, "https://") {
      assert s[..8][4] == 's';
    }
    if StartsWith(s, "http://") {
      assert s[..7][4] == ':';
    }
  }

  /** The left-to-right scan itself. */
  function SchemeScan(s: string): string {
    if s == [] then []
    else if SchemeAt(s) > 0 then SchemeScan(s[SchemeAt(s)..])
    else [s[0]] + SchemeScan(s[1..])
  }

  lemma {:induction false} SchemeScanFacts(s: string)
    ensures |SchemeScan(s)| <= |s|
    ensures forall c :: c in SchemeScan(s) ==> c in s
    ensures SchemeScan(s) == s <==> !Contains(s, "http://") && !Contains(s, "https://")
    ensures SchemeScan(s) != s ==> |SchemeScan(s)| < |s|
  {
    if s != [] {
      SchemeAtStartsWith(s);
      var n := SchemeAt(s);
      if n > 0 {
        SchemeScanFacts(s[n..]);
        assert forall c :: c in s[n..] ==> c in s;
      } else {
        SchemeScanFacts(s[1..]);
        assert s == [s[0]] + s[1..];
      }
    }
  }

  /**
   * The scan removes every scheme: the text around any occurrence of
   * `http://` or `https://` is cleaned on its own, and the occurrence is gone.
   */
  lemma RemoveSchemesSplit(x: string, sep: string, y: string)
    requires sep == "http://" || sep == "https://"
    ensures RemoveSchemes(x + sep + y) == RemoveSchemes(x) + RemoveSchemes(y)
  {
    var rest := sep + y;
    SchemeAtSep(sep, y);
    ScanBeforeScheme(x, rest);
    ScanScheme(rest);
    assert rest[|sep|..] == y;
    assert x + sep + y == x + rest;
  }

  /** Text in front of a scheme is scanned on its own: no scheme starts in it and runs into the next. */
  lemma {:induction false} ScanBeforeScheme(x: string, rest: string)
    requires SchemeAt(rest) > 0
    ensures SchemeScan(x + rest) == SchemeScan(x) + SchemeScan(rest)
    decreases |x|
  {
    if x == [] {
      assert [] + rest == rest;
    } else {
      var n := if SchemeAt(x) > 0 then SchemeAt(x) else 1;
      ScanBeforeScheme(x[n..], rest);
      if SchemeAt(x) > 0 {
        SplitAfterScheme(x, rest, SchemeScan(rest));
      } else {
        SchemeAtAcross(x, rest);
        SplitAfterChar(x, rest, SchemeScan(rest));
      }
    }
  }

  /** One step of the split where `x` starts with a scheme. */
  lemma SplitAfterScheme(x: string, rest: string, tail: string)
    requires SchemeAt(x) > 0
    requires SchemeScan(x[SchemeAt(x)..] + rest) == SchemeScan(x[SchemeAt(x)..]) + tail
    ensures SchemeScan(x + rest) == SchemeScan(x) + tail
  {
    var n := SchemeAt(x);
    SchemeAtAppend(x, rest);
    assert (x + rest)[n..] == x[n..] + rest;
    ScanScheme(x);
    ScanScheme(x + rest);
  }

  /** One step of the split where `x` starts with an ordinary character. */
  lemma SplitAfterChar(x: string, rest: string, tail: string)
    requires x != [] && SchemeAt(x) == 0 && SchemeAt(x + rest) == 0
    requires SchemeScan(x[1..] + rest) == SchemeScan(x[1..]) + tail
    ensures SchemeScan(x + rest) == SchemeScan(x) + tail
  {
    var w := x + rest;
    assert w[0] == x[0] && w[1..] == x[1..] + rest;
    ScanPlain(x);
    ScanPlain(w);
    Regroup([x[0]], SchemeScan(x[1..]), tail);
  }

  lemma ScanScheme(s: string)
    requires SchemeAt(s) > 0
    ensures SchemeScan(s) == SchemeScan(s[SchemeAt(s)..])
  {
  }

  lemma ScanPlain(s: string)
    requires s != [] && SchemeAt(s) == 0
    ensures SchemeScan(s) == [s[0]] + SchemeScan(s[1..])
  {
  }

  /** A scheme at the start of a text stays there whatever follows. */
  lemma SchemeAtAppend(x: string, rest: string)
    requires SchemeAt(x) > 0
    ensures SchemeAt(x + rest) == SchemeAt(x)
  {
    var w := x + rest;
    assert forall k :: 0 <= k < |x| ==> w[k] == x[k];
  }

  /** Each scheme is found where it stands. */
  lemma SchemeAtSep(sep: string, y: string)
    requires sep == "http://" || sep == "https://"
    ensures SchemeAt(sep + y) == |sep|
  {
    var w := sep + y;
    assert forall k :: 0 <= k < |sep| ==> w[k] == sep[k];
  }

  /** No scheme starts inside a text that does not start with one and runs into a following scheme. */
  lemma SchemeAtAcross(x: string, rest: string)
    requires x != [] && SchemeAt(x) == 0 && SchemeAt(rest) > 0
    ensures SchemeAt(x + rest) == 0
  {
    var w := x + rest;
    assert forall k :: 0 <= k < |x| ==> w[k] == x[k];
    assert w[|x|] == 'h';
  }

  /** The text from the first line feed on; Ruby's `.` does not match a line feed. */
  function RestFromLineEnd(s: string): (r: string)
    ensures |r| <= |s| && r == s[|s| - |r|..]
    ensures '\n' !in s[..|s| - |r|]
    ensures r == [] || r[0] == '\n'
  {
    if s == [] || s[0] == '\n' then s else RestFromLineEnd(s[1..])
  }

  /**
   * `gsub(/\?.*\/, '')`: each `?` is cut out with the rest of its line. Without
   * a line feed, what is left is the text before the first `?`.
   */
  function CutQuery(s: string): (r: string)
    ensures |r| <= |s|
    ensures '?' !in r
    ensures forall c :: c in r ==> c in s
    ensures r == s <==> '?' !in s
    ensures r != s ==> |r| < |s|
    ensures '\n' !in s ==> r == s[..|r|] && (|r| == |s| || s[|r|] == '?')
  {
    if s == [] then []
    else if s[0] == '?' then
      var rest := RestFromLineEnd(s[1..]);
      var r := CutQuery(rest);
      assert forall c :: c in rest ==> c in s;
      assert '\n' !in s ==> rest == [];
      r
    else
      var r := [s[0]] + CutQuery(s[1..]);
      assert s == [s[0]] + s[1..];
      r
  }

  /** A URI that `extract_api_endpoint_from_uri` returns unchanged. */
  predicate IsPlainEndpoint(uri: string) {
    && !HasUpper(uri)
    && IsStripped(uri)
    && (uri == [] || uri[|uri| - 1] != '/')
    && '?' !in uri
    && !Contains(uri, "http://")
    && !Contains(uri, "https://")
  }

  /**
   * `extract_api_endpoint_from_uri`: downcase, strip, chomp one `/`, remove
   * every scheme, cut the query. The endpoint holds no `?` and no upper-case
   * letter, and it equals the URI exactly when the URI is already plain.
   */
  function ExtractApiEndpointFromUri(uri: string): (r: string)
    ensures '?' !in r && !HasUpper(r)
    ensures '\n' in r ==> '\n' in uri
    ensures r == uri <==> IsPlainEndpoint(uri)
  {
    var lower := Downcase(uri);
    var stripped := Strip(lower);
    var chomped := ChompChar(stripped, '/');
    var unschemed := RemoveSchemes(chomped);
    EndpointChars(lower, stripped, chomped, unschemed);
    DowncaseKeepsNonLetter(uri, '\n');
    PlainEndpointFixed(uri, lower, stripped, chomped, unschemed);
    CutQuery(unschemed)
  }

  /** Every step after `downcase` only removes characters, so no upper-case letter comes back. */
  lemma EndpointChars(lower: string, stripped: string, chomped: string, unschemed: string)
    requires !HasUpper(lower)
    requires stripped == Strip(lower) && chomped == ChompChar(stripped, '/') && unschemed == RemoveSchemes(chomped)
    ensures forall c :: c in CutQuery(unschemed) ==> c in lower
    ensures !HasUpper(CutQuery(unschemed))
  {
    var r := CutQuery(unschemed);
    assert forall c :: c in stripped ==> c in lower;
    assert forall c :: c in chomped ==> c in stripped;
    CharsWithin(r, unschemed, chomped);
    CharsWithin(r, chomped, stripped);
    CharsWithin(r, stripped, lower);
    NoUpperWithin(r, lower);
  }

  lemma CharsWithin(a: string, b: string, c: string)
    requires forall x :: x in a ==> x in b
    requires forall x :: x in b ==> x in c
    ensures forall x :: x in a ==> x in c
  {
  }

  /** Characters drawn from a text without capitals include no capital. */
  lemma NoUpperWithin(r: string, s: string)
    requires forall x :: x in r ==> x in s
    requires !HasUpper(s)
    ensures !HasUpper(r)
  {
    forall k | 0 <= k < |r|
      ensures !IsUpper(r[k])
    {
      assert r[k] in s;
    }
  }

  /** Each step keeps or shortens its input, so the result is the URI only when no step changed anything. */
  lemma PlainEndpointFixed(uri: string, lower: string, stripped: string, chomped: string, unschemed: string)
    requires lower == Downcase(uri) && stripped == Strip(lower) && chomped == ChompChar(stripped, '/')
    requires unschemed == RemoveSchemes(chomped)
    ensures CutQuery(unschemed) == uri <==> IsPlainEndpoint(uri)
  {
    if CutQuery(unschemed) == uri {
      PlainEndpointKept(uri, lower, stripped, chomped, unschemed);
    } else {
      PlainEndpointSteps(uri, lower, stripped, chomped, unschemed);
    }
  }

  /** When nothing was cut, every step returned its input, so each step's condition for that holds. */
  lemma PlainEndpointKept(uri: string, lower: string, stripped: string, chomped: string, unschemed: string)
    requires lower == Downcase(uri) && stripped == Strip(lower) && chomped == ChompChar(stripped, '/')
    requires unschemed == RemoveSchemes(chomped)
    requires CutQuery(unschemed) == uri
    ensures IsPlainEndpoint(uri)
  {
    assert |stripped| == |lower| && stripped == lower;
    assert chomped == stripped;
    assert unschemed == chomped;
  }

  /** On a plain endpoint every step returns its input. */
  lemma PlainEndpointSteps(uri: string, lower: string, stripped: string, chomped: string, unschemed: string)
    requires lower == Downcase(uri) && stripped == Strip(lower) && chomped == ChompChar(stripped, '/')
    requires unschemed == RemoveSchemes(chomped)
    ensures IsPlainEndpoint(uri) ==> CutQuery(unschemed) == uri
  {
    if IsPlainEndpoint(uri) {
      assert lower == uri;
      assert stripped == uri;
      assert chomped == uri;
    }
  }

  /**
   * `chomp('/')` takes off one slash only: a plain endpoint followed by one
   * slash comes back as it was, followed by two it keeps one. So a second
   * extraction can change the result of the first.
   */
  lemma EndpointDropsOneSlash(s: string)
    requires IsPlainEndpoint(s) && s != []
    ensures ExtractApiEndpointFromUri(s + "/") == s
    ensures ExtractApiEndpointFromUri(s + "//") == s + "/"
    ensures ExtractApiEndpointFromUri(ExtractApiEndpointFromUri(s + "//")) != ExtractApiEndpointFromUri(s + "//")
  {
    EndpointOneSlash(s);
    EndpointTwoSlashes(s);
    assert s + "/" != s;
  }

  lemma EndpointOneSlash(s: string)
    requires IsPlainEndpoint(s) && s != []
    ensures ExtractApiEndpointFromUri(s + "/") == s
  {
    var one := s + "/";
    SlashedIsLowerAndStripped(s, one);
    assert ChompChar(one, '/') == s;
  }

  lemma EndpointTwoSlashes(s: string)
    requires IsPlainEndpoint(s) && s != []
    ensures ExtractApiEndpointFromUri(s + "//") == s + "/"
  {
    var one, two := s + "/", s + "//";
    SlashedIsLowerAndStripped(s, two);
    assert ChompChar(two, '/') == one;
    SnocKeepsAbsent(s, '/', "http://");
    SnocKeepsAbsent(s, '/', "https://");
    assert '?' !in one;
  }

  /**
   * The query is cut after the trailing slash was chomped, so the slash in
   * front of `?` survives: a plain endpoint followed by `/?` and a query
   * gives the endpoint with its slash.
   */
  lemma EndpointKeepsSlashBeforeQuery(s: string, q: string)
    requires IsPlainEndpoint(s) && s != [] && '\n' !in s
    requires !HasUpper(q) && '\n' !in q && q != [] && !IsSpace(q[|q| - 1]) && q[|q| - 1] != '/'
    requires !Contains(s + "/?" + q, "http://") && !Contains(s + "/?" + q, "https://")
    ensures ExtractApiEndpointFromUri(s + "/?" + q) == s + "/"
  {
    var u := s + "/?" + q;
    SlashQueryShape(s, q, u);
    calc {
      ExtractApiEndpointFromUri(u);
      { EndpointIsQueryCut(u); }
      CutQuery(u);
      { CutQueryFirst(u, |s| + 1); }
      u[..|s| + 1];
    }
  }

  lemma SlashQueryShape(s: string, q: string, u: string)
    requires IsPlainEndpoint(s) && s != [] && '\n' !in s
    requires !HasUpper(q) && '\n' !in q && q != [] && !IsSpace(q[|q| - 1]) && q[|q| - 1] != '/'
    requires u == s + "/?" + q
    ensures !HasUpper(u) && IsStripped(u) && u[|u| - 1] != '/' && '\n' !in u
    ensures u[|s| + 1] == '?' && u[..|s| + 1] == s + "/" && '?' !in u[..|s| + 1]
  {
    forall i | 0 <= i < |u|
      ensures !IsUpper(u[i]) && u[i] != '\n'
    {
      if i < |s| {
        assert u[i] == s[i];
      } else if i >= |s| + 2 {
        assert u[i] == q[i - |s| - 2];
      }
    }
    assert u[0] == s[0] && u[|u| - 1] == q[|q| - 1];
    assert u[..|s| + 1] == s + "/";
  }

  /** A URI that needs no downcasing, stripping, chomping or scheme removal only loses its query. */
  lemma EndpointIsQueryCut(u: string)
    requires !HasUpper(u) && IsStripped(u) && (u == [] || u[|u| - 1] != '/')
    requires !Contains(u, "http://") && !Contains(u, "https://")
    ensures ExtractApiEndpointFromUri(u) == CutQuery(u)
  {
    ExtractSteps(u);
    assert Downcase(u) == u;
    assert Strip(u) == u;
    assert ChompChar(u, '/') == u;
    NoSchemeKept(u);
  }

  /** `extract_api_endpoint_from_uri` as the composition of its five steps. */
  lemma ExtractSteps(uri: string)
    ensures ExtractApiEndpointFromUri(uri) == CutQuery(RemoveSchemes(ChompChar(Strip(Downcase(uri)), '/')))
  {
  }

  lemma NoSchemeKept(s: string)
    requires !Contains(s, "http://") && !Contains(s, "https://")
    ensures RemoveSchemes(s) == s
  {
  }

  /** Without a line feed, the query cut keeps exactly the text before the first `?`. */
  lemma CutQueryFirst(u: string, k: nat)
    requires '\n' !in u && k < |u| && u[k] == '?' && '?' !in u[..k]
    ensures CutQuery(u) == u[..k]
  {
  }

  lemma SlashedIsLowerAndStripped(s: string, u: string)
    requires IsPlainEndpoint(s) && s != []
    requires |u| > |s| && u[..|s|] == s && forall i :: |s| <= i < |u| ==> u[i] == '/'
    ensures Downcase(u) == u && Strip(u) == u
  {
    forall i | 0 <= i < |u|
      ensures !IsUpper(u[i])
    {
      if i < |s| {
        assert u[i] == u[..|s|][i];
      }
    }
    assert u[0] == u[..|s|][0];
  }

  // ---------------------------------------------------------------------------
  // format_api_key and format_timestamp

  /**
   * `format_api_key`: a key that holds the text `%20` is taken as already
   * escaped and passed through; any other key is escaped with `URI.escape`,
   * which loses nothing (its decoding is the key's bytes).
   */
  function FormatApiKey(apiKey: string): (r: string)
    ensures Contains(apiKey, "%20") ==> r == apiKey
    ensures !Contains(apiKey, "%20") ==> r == Escape(apiKey) && Unescape(r) == Utf8String(apiKey)
    ensures '\n' !in r <== '\n' !in apiKey
  {
    EscapeRoundTrip(apiKey);
    EscapeAvoids(apiKey, '\n');
    if Contains(apiKey, "%20") then apiKey else Escape(apiKey)
  }

  /** `format_timestamp`: the same rule as `format_api_key`, for the timestamp. */
  function FormatTimestamp(timestamp: string): (r: string)
    ensures Contains(timestamp, "%20") ==> r == timestamp
    ensures !Contains(timestamp, "%20") ==> r == Escape(timestamp) && Unescape(r) == Utf8String(timestamp)
    ensures '\n' !in r <== '\n' !in timestamp
  {
    EscapeRoundTrip(timestamp);
    EscapeAvoids(timestamp, '\n');
    if Contains(timestamp, "%20") then timestamp else Escape(timestamp)
  }

  /**
   * The `%20` test makes formatting idempotent only where it happens to
   * apply: formatting twice equals formatting once exactly when the value
   * holds `%20`, needs no escaping, or escapes to a text holding `%20`.
   */
  lemma {:induction false} FormatIdentifierIdempotence(s: string)
    ensures FormatApiKey(FormatApiKey(s)) == FormatApiKey(s)
            <==> Contains(s, "%20") || AllSafe(s) || Contains(Escape(s), "%20")
    ensures FormatTimestamp(FormatTimestamp(s)) == FormatTimestamp(s)
            <==> Contains(s, "%20") || AllSafe(s) || Contains(Escape(s), "%20")
  {
    var e := Escape(s);
    if !Contains(s, "%20") && !AllSafe(s) && !Contains(e, "%20") {
      assert '%' in e && !IsSafe('%');
      assert !AllSafe(e);
      assert |Escape(e)| > |e|;
    }
  }

  // ---------------------------------------------------------------------------
  // format_custom_params

  /** `v.to_s` for a string; `"[#{v.join(',')}]"` for an array. */
  function Render(v: ParamValue): (r: string)
    ensures v.Scalar? ==> r == v.text
    ensures v.List? ==> |r| >= 2 && r[0] == '[' && r[|r| - 1] == ']' && r[1..|r| - 1] == Join(v.items, ",")
  {
    match v
    case Scalar(text) => text
    case List(items) =>
      var r := "[" + Join(items, ",") + "]";
      assert r[1..|r| - 1] == Join(items, ",");
      r
  }

  /** The elements of an array value can be read back from its text when none of them holds a comma. */
  lemma RenderListItems(xs: seq<string>)
    requires xs != [] && forall i :: 0 <= i < |xs| ==> ',' !in xs[i]
    ensures var r := Render(List(xs)); SplitOn(r[1..|r| - 1], ',') == xs
  {
    SplitJoin(xs, ',');
  }

  /** `"#{URI.escape(k.to_s)}=#{URI.escape(value)}"` for one pair. */
  function EncodePair(p: Pair): (r: string)
    ensures '\n' !in r
  {
    EscapeAvoids(p.0, '\n');
    EscapeAvoids(Render(p.1), '\n');
    Escape(p.0) + "=" + Escape(Render(p.1))
  }

  /** The text of a pair decodes to the key's bytes, the byte of `=`, and the rendered value's bytes. */
  lemma EncodePairDecodes(p: Pair)
    ensures Unescape(EncodePair(p)) == Utf8String(p.0) + [0x3D] + Utf8String(Render(p.1))
  {
    PairBytes(p.0, Render(p.1));
  }

  lemma PairBytes(key: string, value: string)
    ensures Unescape(Escape(key) + "=" + Escape(value)) == Utf8String(key) + [0x3D] + Utf8String(value)
  {
    var v := Escape(value);
    var tail := ['='] + v;
    Regroup(Escape(key), "=", v);
    UnescapeEscapeAppend(key, tail);
    UnescapeAscii('=', v);
    EscapeRoundTrip(value);
    Regroup(Utf8String(key), [0x3D], Utf8String(value));
  }

  function EncodePairs(ps: seq<Pair>): (r: seq<string>)
    ensures |r| == |ps|
    ensures forall i :: 0 <= i < |ps| ==> r[i] == EncodePair(ps[i])
  {
    seq(|ps|, i requires 0 <= i < |ps| => EncodePair(ps[i]))
  }

  /** Each encoded pair followed by `&`: what the loop of `format_custom_params` has written. */
  function Terminated(xs: seq<string>): string {
    if xs == [] then "" else xs[0] + "&" + Terminated(xs[1..])
  }

  /** The parameter line, line feed included, that `format_custom_params` returns; empty for `nil` or `{}`. */
  function ParamsString(params: Option<FlatHash>): (r: string)
    ensures r == "" <==> params.None? || params.value == []
    ensures r != "" ==> r[|r| - 1] == '\n' && '\n' !in r[..|r| - 1]
  {
    if params.None? || params.value == [] then ""
    else
      var line := Join(EncodePairs(SortByKey(params.value)), "&");
      JoinAvoids(EncodePairs(SortByKey(params.value)), "&", '\n');
      assert (line + "\n")[..|line|] == line;
      line + "\n"
  }

  lemma {:induction false} JoinAvoids(xs: seq<string>, sep: string, c: char)
    requires c !in sep
    requires forall i :: 0 <= i < |xs| ==> c !in xs[i]
    ensures c !in Join(xs, sep)
  {
    if |xs| > 1 {
      JoinAvoids(xs[1..], sep, c);
    }
  }

  lemma {:induction false} TerminatedSnoc(xs: seq<string>, x: string)
    ensures Terminated(xs + [x]) == Terminated(xs) + x + "&"
  {
    if xs == [] {
      assert xs + [x] == [x];
    } else {
      var q := xs + [x];
      assert q[0] == xs[0] && q[1..] == xs[1..] + [x];
      TerminatedSnoc(xs[1..], x);
      var h := xs[0] + "&";
      calc {
        Terminated(q);
        h + Terminated(xs[1..] + [x]);
        h + (Terminated(xs[1..]) + x + "&");
        (h + Terminated(xs[1..])) + x + "&";
      }
    }
  }

  lemma TerminatedStep(xs: seq<string>, i: nat)
    requires i < |xs|
    ensures Terminated(xs[..i + 1]) == Terminated(xs[..i]) + xs[i] + "&"
  {
    var a, b, x := xs[..i], xs[..i + 1], xs[i];
    assert b == a + [x];
    TerminatedSnoc(a, x);
  }

  /** Appending a pair's text piece by piece, as the loop does, is appending `EncodePair`. */
  lemma AppendEncodedPair(s: string, p: Pair)
    ensures s + Escape(p.0) + "=" + Escape(Render(p.1)) + "&" == s + EncodePair(p) + "&"
  {
    var e1, e2 := Escape(p.0), Escape(Render(p.1));
    assert EncodePair(p) == e1 + "=" + e2;
    AppendRegroup(s, e1, e2);
  }

  lemma AppendRegroup(s: string, e1: string, e2: string)
    ensures s + e1 + "=" + e2 + "&" == s + (e1 + "=" + e2) + "&"
  {
  }

  lemma {:induction false} TerminatedJoin(xs: seq<string>)
    requires xs != []
    ensures Terminated(xs) == Join(xs, "&") + "&"
  {
    if |xs| > 1 {
      TerminatedJoin(xs[1..]);
    }
  }

  /** Chomping the last `&` off the terminated texts leaves them joined by `&`. */
  lemma TerminatedChomp(xs: seq<string>)
    requires xs != []
    ensures ChompChar(Terminated(xs), '&') == Join(xs, "&")
  {
    TerminatedJoin(xs);
    var line := Join(xs, "&");
    assert Terminated(xs) == line + ['&'];
  }

  /**
   * `format_custom_params`: the pairs sorted by key, each written escaped as
   * `key=value` and followed by `&`; the last `&` is chomped and a line feed
   * appended. `nil` and `{}` give the empty string.
   */
  method FormatCustomParams(params: Option<FlatHash>) returns (r: string)
    ensures r == ParamsString(params)
  {
    if params.Some? && params.value != [] {
      var sortedParams := "";
      var sortedFlatHash := SortByKey(params.value);
      ghost var encoded := EncodePairs(sortedFlatHash);
      var i := 0;
      while i < |sortedFlatHash|
        invariant 0 <= i <= |sortedFlatHash|
        invariant sortedParams == Terminated(encoded[..i])
      {
        var (k, v) := sortedFlatHash[i];
        var value := Render(v);
        AppendEncodedPair(sortedParams, sortedFlatHash[i]);
        sortedParams := sortedParams + Escape(k) + "=" + Escape(value) + "&";
        TerminatedStep(encoded, i);
        i := i + 1;
      }
      assert encoded[..i] == encoded;
      TerminatedChomp(encoded);
      sortedParams := ChompChar(sortedParams, '&');
      return sortedParams + "\n";
    }
    return "";
  }

  /** The parameter line does not depend on the order the parameters were inserted in. */
  lemma ParamsStringOrderIndependent(a: FlatHash, b: FlatHash)
    requires multiset(a) == multiset(b)
    ensures ParamsString(Some(a)) == ParamsString(Some(b))
  {
    SortByKeyOrderIndependent(a, b);
    assert |a| == |multiset(a)| == |multiset(b)| == |b|;
  }

  /**
   * An array value is written as its elements joined by `,` in brackets;
   * `[`, `,` and `]` are characters `URI.escape` keeps, so for safe keys and
   * elements they reach the canonical string as they are.
   */
  lemma EncodeListPair(k: string, xs: seq<string>)
    requires AllSafe(k)
    requires forall i :: 0 <= i < |xs| ==> AllSafe(xs[i])
    ensures EncodePair((k, List(xs))) == k + "=" + "[" + Join(xs, ",") + "]"
  {
    var j := Join(xs, ",");
    ListBodySafe(xs);
    assert Render(List(xs)) == "[" + j + "]";
    EncodeSafePair(k, List(xs));
    Regroup5(k, "=", "[", j, "]");
  }

  lemma ListBodySafe(xs: seq<string>)
    requires forall i :: 0 <= i < |xs| ==> AllSafe(xs[i])
    ensures AllSafe("[" + Join(xs, ",") + "]")
  {
    var j := Join(xs, ",");
    DelimitersSafe();
    assert AllSafe(",") && AllSafe("[") && AllSafe("]");
    JoinSafe(xs, ",");
    SafeAppend("[", j);
    SafeAppend("[" + j, "]");
  }

  /** A pair whose key and rendered value need no escaping is written as it is. */
  lemma EncodeSafePair(k: string, v: ParamValue)
    requires AllSafe(k) && AllSafe(Render(v))
    ensures EncodePair((k, v)) == k + "=" + Render(v)
  {
  }

  lemma SafeAppend(a: string, b: string)
    requires AllSafe(a) && AllSafe(b)
    ensures AllSafe(a + b)
  {
    assert forall i :: |a| <= i < |a + b| ==> (a + b)[i] == b[i - |a|];
  }

  lemma {:induction false} JoinSafe(xs: seq<string>, sep: string)
    requires AllSafe(sep)
    requires forall i :: 0 <= i < |xs| ==> AllSafe(xs[i])
    ensures AllSafe(Join(xs, sep))
  {
    if |xs| > 1 {
      JoinSafe(xs[1..], sep);
      SafeAppend(xs[0], sep);
      SafeAppend(xs[0] + sep, Join(xs[1..], sep));
    }
  }

  /** Two parameters come out in byte order of their keys, whatever order they were given in. */
  lemma TwoParamsInKeyOrder(a: Pair, b: Pair)
    requires Less(a.0, b.0)
    ensures DistinctKeys([a, b]) && DistinctKeys([b, a])
    ensures ParamsString(Some([a, b])) == EncodePair(a) + "&" + EncodePair(b) + "\n"
    ensures ParamsString(Some([b, a])) == EncodePair(a) + "&" + EncodePair(b) + "\n"
  {
    SortTwo(a, b);
    var line := EncodePair(a) + "&" + EncodePair(b);
    JoinTwoPairs(a, b);
    ParamsStringOfSorted([a, b], line);
    ParamsStringOfSorted([b, a], line);
  }

  lemma JoinTwoPairs(a: Pair, b: Pair)
    ensures Join(EncodePairs([a, b]), "&") == EncodePair(a) + "&" + EncodePair(b)
  {
    var ps := [a, b];
    assert ps[0] == a && ps[1] == b;
    var es := EncodePairs(ps);
    assert es == [EncodePair(a), EncodePair(b)];
    JoinTwo(EncodePair(a), EncodePair(b), "&");
  }

  lemma ParamsStringOfSorted(ps: FlatHash, line: string)
    requires ps != [] && line == Join(EncodePairs(SortByKey(ps)), "&")
    ensures ParamsString(Some(ps)) == line + "\n"
  {
  }

  /** Every key whose first character is an upper-case letter sorts before every key that starts lower-case. */
  lemma UpperKeysFirst(x: string, y: string)
    requires x != [] && y != [] && IsUpper(x[0]) && IsLower(y[0])
    ensures Less(x, y) && !Less(y, x)
  {
    LessAsymmetric(x, y);
  }

  /**
   * `&` and `=` are reserved characters that `URI.escape` keeps, so one
   * parameter whose value holds `&c=d` and two parameters give the same line:
   * the parameter line does not determine the parameters.
   */
  lemma ParamsDelimitersCollide(a: string, b: string, c: string, d: string)
    requires AllSafe(a) && AllSafe(b) && AllSafe(c) && AllSafe(d) && Less(a, c)
    ensures DistinctKeys([(a, Scalar(b)), (c, Scalar(d))])
    ensures ParamsString(Some([(a, Scalar(b + "&" + c + "=" + d))]))
         == ParamsString(Some([(a, Scalar(b)), (c, Scalar(d))]))
  {
    var joined := b + "&" + c + "=" + d;
    var first, second := (a, Scalar(b)), (c, Scalar(d));
    TwoParamsInKeyOrder(first, second);
    var pairA, pairC := EncodePair(first), EncodePair(second);
    assert pairA == a + "=" + b by { SafePairText(a, b); }
    assert pairC == c + "=" + d by { SafePairText(c, d); }
    assert ParamsString(Some([(a, Scalar(joined))])) == a + "=" + joined + "\n" by {
      DelimitedSafe(b, c, d);
      SingleParamLine(a, joined);
    }
    CollideShape(a, b, c, d);
  }

  lemma DelimitedSafe(b: string, c: string, d: string)
    requires AllSafe(b) && AllSafe(c) && AllSafe(d)
    ensures AllSafe(b + "&" + c + "=" + d)
  {
    DelimitersSafe();
    assert AllSafe("&") && AllSafe("=");
    SafeAppend(b, "&");
    SafeAppend(b + "&", c);
    SafeAppend(b + "&" + c, "=");
    SafeAppend(b + "&" + c + "=", d);
  }

  lemma SafePairText(k: string, v: string)
    requires AllSafe(k) && AllSafe(v)
    ensures EncodePair((k, Scalar(v))) == k + "=" + v
  {
  }

  lemma SingleParamLine(k: string, v: string)
    requires AllSafe(k) && AllSafe(v)
    ensures DistinctKeys([(k, Scalar(v))])
    ensures ParamsString(Some([(k, Scalar(v))])) == k + "=" + v + "\n"
  {
    var one: FlatHash := [(k, Scalar(v))];
    assert SortByKey(one) == one;
    assert EncodePairs(one) == [EncodePair(one[0])];
  }

  lemma CollideShape(a: string, b: string, c: string, d: string)
    ensures a + "=" + (b + "&" + c + "=" + d) + "\n" == (a + "=" + b) + "&" + (c + "=" + d) + "\n"
  {
  }

  // ---------------------------------------------------------------------------
  // format_request_string

  /**
   * The layout `format_request_string` writes: verb, endpoint, parameter
   * line (which brings its own line feed), `ApiKey=` and `Timestamp=`
   * lines, each followed by a line feed.
   */
  function Layout(v: string, e: string, p: string, k: string, t: string): string {
    v + "\n" + e + "\n" + p + "\n" + "ApiKey=" + k + "\n" + "Timestamp=" + t + "\n"
  }

  /** The canonical string `format_request_string` returns: the formatted parts in the layout. */
  function CanonicalString(httpVerb: string, uri: string, apiKey: string, timestamp: string, params: Option<FlatHash>): string {
    Layout(FormatHttpVerb(httpVerb), ExtractApiEndpointFromUri(uri), ParamsString(params),
           FormatApiKey(apiKey), FormatTimestamp(timestamp))
  }

  /** `format_request_string`. */
  method FormatRequestString(httpVerb: string, uri: string, apiKey: string, timestamp: string, params: Option<FlatHash>)
    returns (formattedQuery: string)
    ensures formattedQuery == CanonicalString(httpVerb, uri, apiKey, timestamp, params)
  {
    var cleanHttpVerb := FormatHttpVerb(httpVerb);
    var cleanUri := ExtractApiEndpointFromUri(uri);
    var cleanApiKey := FormatApiKey(apiKey);
    var cleanTimestamp := FormatTimestamp(timestamp);
    var cleanParams := FormatCustomParams(params);
    formattedQuery := cleanHttpVerb + "\n" + cleanUri + "\n" + cleanParams
      + "\n" + "ApiKey=" + cleanApiKey + "\n" + "Timestamp=" + cleanTimestamp + "\n";
  }

  /**
   * The lines of the canonical string, for inputs without a line feed: verb,
   * endpoint, then one empty line when there are no parameters, or the
   * parameter line and a blank line when there are, then `ApiKey=`,
   * `Timestamp=`, and nothing after the final line feed.
   */
  lemma CanonicalLines(httpVerb: string, uri: string, apiKey: string, timestamp: string, params: Option<FlatHash>)
    requires '\n' !in httpVerb && '\n' !in uri && '\n' !in apiKey && '\n' !in timestamp
    ensures var p := ParamsString(params);
            SplitOn(CanonicalString(httpVerb, uri, apiKey, timestamp, params), '\n')
            == [FormatHttpVerb(httpVerb), ExtractApiEndpointFromUri(uri)]
               + (if p == "" then [""] else [p[..|p| - 1], ""])
               + ["ApiKey=" + FormatApiKey(apiKey), "Timestamp=" + FormatTimestamp(timestamp), ""]
  {
    FormattedPartsFit(httpVerb, uri, apiKey, timestamp, params);
    LayoutLines(FormatHttpVerb(httpVerb), ExtractApiEndpointFromUri(uri), ParamsString(params),
                FormatApiKey(apiKey), FormatTimestamp(timestamp));
  }

  /** The line structure of the layout, for any parts without stray line feeds. */
  lemma LayoutLines(v: string, e: string, p: string, k: string, t: string)
    requires PartsFit(v, e, p, k, t)
    ensures SplitOn(Layout(v, e, p, k, t), '\n')
            == [v, e] + (if p == "" then [""] else [p[..|p| - 1], ""]) + ["ApiKey=" + k, "Timestamp=" + t, ""]
  {
    var lk, lt := "ApiKey=" + k, "Timestamp=" + t;
    var b := lk + "\n" + (lt + "\n" + "");
    var c := "" + "\n" + b;
    var tail := [lk, lt, ""];
    LayoutShape(v, e, p, k, t);
    TrailerLines(k, t, b);
    assert SplitOn(c, '\n') == [""] + tail by {
      SplitOnAppend("", '\n', b);
    }
    var middle := if p == "" then [""] else [p[..|p| - 1], ""];
    assert SplitOn(p + c, '\n') == middle + tail by {
      ParamLines(p, c, tail);
    }
    SplitOnAppend(e, '\n', p + c);
    SplitOnAppend(v, '\n', e + "\n" + (p + c));
    assert [v] + ([e] + (middle + tail)) == [v, e] + middle + tail;
  }

  /** The `ApiKey=` and `Timestamp=` lines and the empty text after the last line feed. */
  lemma TrailerLines(k: string, t: string, b: string)
    requires '\n' !in k && '\n' !in t
    requires b == ("ApiKey=" + k) + "\n" + (("Timestamp=" + t) + "\n" + "")
    ensures SplitOn(b, '\n') == ["ApiKey=" + k, "Timestamp=" + t, ""]
  {
    var lk, lt := "ApiKey=" + k, "Timestamp=" + t;
    assert '\n' !in lk by {
      assert forall i :: 7 <= i < |lk| ==> lk[i] == k[i - 7];
    }
    assert '\n' !in lt by {
      assert forall i :: 10 <= i < |lt| ==> lt[i] == t[i - 10];
    }
    SplitOnAppend(lt, '\n', "");
    SplitOnAppend(lk, '\n', lt + "\n" + "");
  }

  /** The parameter line, when there is one, adds its own line before the blank one. */
  lemma ParamLines(p: string, c: string, tail: seq<string>)
    requires p == "" || (p[|p| - 1] == '\n' && '\n' !in p[..|p| - 1])
    requires SplitOn(c, '\n') == [""] + tail
    ensures SplitOn(p + c, '\n') == (if p == "" then [""] else [p[..|p| - 1], ""]) + tail
  {
    if p == "" {
      assert p + c == c;
    } else {
      var pl := p[..|p| - 1];
      assert p + c == pl + "\n" + c;
      SplitOnAppend(pl, '\n', c);
    }
  }

  lemma LayoutShape(v: string, e: string, p: string, k: string, t: string)
    ensures Layout(v, e, p, k, t)
            == v + "\n" + (e + "\n" + (p + ("" + "\n" + (("ApiKey=" + k) + "\n" + (("Timestamp=" + t) + "\n" + "")))))
  {
  }

  /**
   * For inputs without a line feed, equal canonical strings come from equal
   * formatted verbs, endpoints, parameter lines, keys and timestamps.
   */
  lemma CanonicalStringInjective(
    v1: string, u1: string, k1: string, t1: string, p1: Option<FlatHash>,
    v2: string, u2: string, k2: string, t2: string, p2: Option<FlatHash>)
    requires '\n' !in v1 && '\n' !in u1 && '\n' !in k1 && '\n' !in t1
    requires '\n' !in v2 && '\n' !in u2 && '\n' !in k2 && '\n' !in t2
    requires CanonicalString(v1, u1, k1, t1, p1) == CanonicalString(v2, u2, k2, t2, p2)
    ensures FormatHttpVerb(v1) == FormatHttpVerb(v2)
    ensures ExtractApiEndpointFromUri(u1) == ExtractApiEndpointFromUri(u2)
    ensures ParamsString(p1) == ParamsString(p2)
    ensures FormatApiKey(k1) == FormatApiKey(k2) && FormatTimestamp(t1) == FormatTimestamp(t2)
  {
    var f1, e1, l1, a1, s1 := FormatHttpVerb(v1), ExtractApiEndpointFromUri(u1), ParamsString(p1), FormatApiKey(k1), FormatTimestamp(t1);
    var f2, e2, l2, a2, s2 := FormatHttpVerb(v2), ExtractApiEndpointFromUri(u2), ParamsString(p2), FormatApiKey(k2), FormatTimestamp(t2);
    FormattedPartsFit(v1, u1, k1, t1, p1);
    FormattedPartsFit(v2, u2, k2, t2, p2);
    LayoutInjective(f1, e1, l1, a1, s1, f2, e2, l2, a2, s2);
  }

  /** Parts the layout can hold without a stray line feed: single-line texts and a parameter line that ends the line itself. */
  predicate PartsFit(v: string, e: string, p: string, k: string, t: string) {
    && '\n' !in v && '\n' !in e && '\n' !in k && '\n' !in t
    && (p == "" || (p[|p| - 1] == '\n' && '\n' !in p[..|p| - 1]))
  }

  lemma FormattedPartsFit(httpVerb: string, uri: string, apiKey: string, timestamp: string, params: Option<FlatHash>)
    requires '\n' !in httpVerb && '\n' !in uri && '\n' !in apiKey && '\n' !in timestamp
    ensures PartsFit(FormatHttpVerb(httpVerb), ExtractApiEndpointFromUri(uri), ParamsString(params),
                     FormatApiKey(apiKey), FormatTimestamp(timestamp))
  {
  }

  lemma LayoutInjective(
    v1: string, e1: string, p1: string, k1: string, t1: string,
    v2: string, e2: string, p2: string, k2: string, t2: string)
    requires PartsFit(v1, e1, p1, k1, t1) && PartsFit(v2, e2, p2, k2, t2)
    requires Layout(v1, e1, p1, k1, t1) == Layout(v2, e2, p2, k2, t2)
    ensures v1 == v2 && e1 == e2 && p1 == p2 && k1 == k2 && t1 == t2
  {
    LayoutLines(v1, e1, p1, k1, t1);
    LayoutLines(v2, e2, p2, k2, t2);
    var m1 := if p1 == "" then [""] else [p1[..|p1| - 1], ""];
    var m2 := if p2 == "" then [""] else [p2[..|p2| - 1], ""];
    var l1 := [v1, e1] + m1 + ["ApiKey=" + k1, "Timestamp=" + t1, ""];
    var l2 := [v2, e2] + m2 + ["ApiKey=" + k2, "Timestamp=" + t2, ""];
    assert l1 == l2;
    assert |m1| == |m2|;
    assert (p1 == "") == (p2 == "");
    assert l1[0] == v1 && l1[1] == e1 && l2[0] == v2 && l2[1] == e2;
    var n := 2 + |m1|;
    assert l1[n] == "ApiKey=" + k1 && l2[n] == "ApiKey=" + k2;
    assert l1[n + 1] == "Timestamp=" + t1 && l2[n + 1] == "Timestamp=" + t2;
    assert ("ApiKey=" + k1)[7..] == k1 && ("ApiKey=" + k2)[7..] == k2;
    assert ("Timestamp=" + t1)[10..] == t1 && ("Timestamp=" + t2)[10..] == t2;
    if p1 != "" {
      assert l1[2] == p1[..|p1| - 1] && l2[2] == p2[..|p2| - 1];
      assert p1 == p1[..|p1| - 1] + "\n" && p2 == p2[..|p2| - 1] + "\n";
    }
  }

  // ---------------------------------------------------------------------------
  // compute_hmac_signature

  /**
   * `compute_hmac_signature`: the base64 text of the HMAC-SHA256 digest of
   * the request string, keyed with the API secret, with the surrounding
   * whitespace stripped and one `=` chomped. A 32-byte digest gives 43
   * alphabet characters, no `=` and no line feed: exactly the digest's
   * encoding without its final `=` and line feed, which decodes back to the
   * digest once the `=` is put back.
   */
  function ComputeHmacSignature(hmacSha256: (string, string) -> Digest, requestString: string, apiSecret: string)
    : (signature: string)
    ensures |signature| == 43
    ensures forall i :: 0 <= i < |signature| ==> Base64.IsBase64Char(signature[i])
    ensures signature + "=" == Base64.EncodeBlock(hmacSha256(apiSecret, requestString))
    ensures Base64.Encode64(hmacSha256(apiSecret, requestString)) == signature + "=\n"
    ensures Base64.Decode(signature + "=") == Some(hmacSha256(apiSecret, requestString))
  {
    var hmac := hmacSha256(apiSecret, requestString);
    var base64Signature := Base64.Encode64(hmac);
    SignatureText(hmac, base64Signature);
    ChompChar(Strip(base64Signature), '=')
  }

  /** The text of a digest's encoding once `strip` and `chomp('=')` have run: 43 alphabet characters that decode back with their `=`. */
  lemma SignatureText(hmac: Digest, base64Signature: string)
    requires base64Signature == Base64.Encode64(hmac)
    ensures |ChompChar(Strip(base64Signature), '=')| == 43
    ensures forall i :: 0 <= i < 43 ==> Base64.IsBase64Char(ChompChar(Strip(base64Signature), '=')[i])
    ensures ChompChar(Strip(base64Signature), '=') + "=" == Base64.EncodeBlock(hmac)
    ensures base64Signature == ChompChar(Strip(base64Signature), '=') + "=\n"
    ensures Base64.Decode(ChompChar(Strip(base64Signature), '=') + "=") == Some(hmac)
  {
    var e := Base64.EncodeBlock(hmac);
    Base64.DigestEncoding(hmac);
    Base64.DecodeEncodeBlock(hmac);
    PaddedLine(e, base64Signature);
  }

  /** One line of 43 characters and a `=`: `strip` takes off the line feed and `chomp('=')` the `=`. */
  lemma PaddedLine(e: string, line: string)
    requires |e| == 44 && e[43] == '=' && !IsSpace(e[0]) && line == e + "\n"
    ensures ChompChar(Strip(line), '=') == e[..43]
    ensures e[..43] + "=" == e && line == e[..43] + "=\n"
  {
    StripTrailingSpace(e, '\n');
    assert e == e[..43] + "=";
  }
}

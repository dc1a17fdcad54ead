# HMacHelper request signing, modelled in Dafny

`HMacHelper` (lib/api/h_mac_helper.rb) signs API requests. It turns a request
into a canonical string of five lines:
- the HTTP verb;
- the endpoint taken from the URI;
- the sorted and percent-encoded custom parameters;
- `ApiKey=` and the escaped key;
- `Timestamp=` and the escaped timestamp.

The signature is the HMAC-SHA256 digest of that string, keyed with the API
secret, written in base64 without its line feed and its trailing `=`.

The model is organised by module:

- `HMacHelper` (h_mac_helper.dfy) has one member for each method of the Ruby
  class. `format_custom_params` appends to a string in a loop, so it is the
  method `FormatCustomParams`, proved against the function `ParamsString`.
  `format_request_string` calls it, so it is a method too, proved against
  `CanonicalString`. The other operations build values by chaining calls,
  so they are functions.
- `Text` (text.dfy) holds the Ruby `String` and `Array` operations the class
  calls: `strip`, `upcase`, `downcase`, `chomp`, `include?` and `join`. It also has
  `SplitOn`, a line splitter used to state the layout of the canonical string.
- `UriEscape` (uri_escape.dfy) models `URI.escape` with its default unsafe
  set, per sections 2.2 and 2.3 of RFC 2396, plus `[` and `]` from RFC 2732.
  `Unescape` is its partner, a percent-decoder.
- `Base64` (base64.dfy) models `Base64.encode64`, per section 6.8 of RFC 2045,
  with 60-character lines. `Decode` is its partner.
- `FlatParams` (flat_params.dfy) models the flattened parameter hash: a
  sequence of key/value pairs with distinct keys, kept in insertion order
  like a Ruby Hash. It also models the byte-order `sort` applied to it.
- `Wrappers` and `Bytes` (common.dfy) hold `Option` and `byte`.

The model follows the code in four places where a reader might expect
something else:
- Endpoint extraction is not idempotent. `chomp('/')` removes only one
  slash, and `EndpointDropsOneSlash` exhibits a URI whose endpoint changes
  on a second pass.
- `URI.escape` keeps `:`, so a timestamp such as `2024-01-01T00:00:00Z` is
  written as it is, without `%3A`.
- `URI.escape` also keeps `[`, `,` and `]`, so an array value reaches the
  canonical string as `[a,b]` (see `EncodeListPair`).
- `gsub(%r{https?://}, '')` removes every `http://` and `https://` in the
  URI, wherever it stands, in one left-to-right pass (see
  `RemoveSchemesSplit`).

## Model

| member | source | states |
|---|---|---|
| HMacHelper.FormatHttpVerb | lib/api/h_mac_helper.rb:20-22 | The result is the upper-cased verb with its leading and trailing whitespace removed (it sits at the position `lstrip` leaves in the upper-cased input, with only spaces around it). It holds no lower-case letter, and holds a line feed only if the verb does. |
| HMacHelper.FormatHttpVerbIdempotent | lib/api/h_mac_helper.rb:20-22 | Formatting an already formatted verb changes nothing. |
| HMacHelper.RemoveSchemes | lib/api/h_mac_helper.rb:25 | The scheme removal never lengthens the text and adds no character. It leaves the text unchanged exactly when the text contains neither `http://` nor `https://`, and otherwise shortens it. |
| HMacHelper.RemoveSchemesSplit | lib/api/h_mac_helper.rb:25 | Every occurrence of `http://` or `https://` is removed. The text before it and the text after it are cleaned separately, as if the occurrence were not there. |
| HMacHelper.CutQuery | lib/api/h_mac_helper.rb:26 | The result holds no `?` and only characters of the input, and equals the input exactly when the input has no `?`. On a single line, it is the prefix before the first `?`. |
| HMacHelper.ExtractApiEndpointFromUri | lib/api/h_mac_helper.rb:24-27 | The endpoint has no `?` and no upper-case letter. It equals the URI exactly when the URI is already plain: lower-case, stripped, no trailing `/`, no `?`, no scheme. |
| HMacHelper.EndpointDropsOneSlash | lib/api/h_mac_helper.rb:25 | A plain endpoint followed by `/` comes back bare. Followed by `//`, it keeps one slash, so a second extraction changes the first one's result. |
| HMacHelper.EndpointKeepsSlashBeforeQuery | lib/api/h_mac_helper.rb:25-26 | The query is cut after `chomp('/')` runs, so in `s/?q` the slash before the query survives: the endpoint is `s/`. |
| HMacHelper.FormatApiKey | lib/api/h_mac_helper.rb:29-35 | A key containing `%20` is returned unchanged. Any other key is `URI.escape`d, and percent-decoding the result gives back the key's UTF-8 bytes. A key without a line feed gives a result without one. |
| HMacHelper.FormatTimestamp | lib/api/h_mac_helper.rb:37-43 | The same rule as for the key, applied to the timestamp. |
| HMacHelper.FormatIdentifierIdempotence | lib/api/h_mac_helper.rb:29-43 | Formatting a key or timestamp twice gives the same result as once exactly when the value contains `%20`, needs no escaping, or escapes to a text that contains `%20`. |
| HMacHelper.Render | lib/api/h_mac_helper.rb:61-62 | A string value is written as it is. An array value is written as its elements joined by `,` between `[` and `]`. |
| HMacHelper.RenderListItems | lib/api/h_mac_helper.rb:61-62 | When no element of a non-empty array holds a comma, splitting the text between the brackets at `,` gives back the elements. |
| HMacHelper.EncodePair | lib/api/h_mac_helper.rb:63 | The text of one pair never holds a line feed. |
| HMacHelper.EncodePairDecodes | lib/api/h_mac_helper.rb:63 | The text of one pair decodes to the key's UTF-8 bytes, the byte of `=`, and the rendered value's UTF-8 bytes. |
| HMacHelper.ParamsString | lib/api/h_mac_helper.rb:45-70 | The parameter text is empty exactly for `nil` or an empty hash. Otherwise it ends with its only line feed. |
| HMacHelper.FormatCustomParams | lib/api/h_mac_helper.rb:45-70 | The loop writes the sorted, escaped `key=value` pairs, each followed by `&`. Then the last `&` is chomped and a line feed appended. The result is the pairs joined by `&`, plus the line feed, or `""` for `nil` or an empty hash. |
| HMacHelper.TerminatedChomp | lib/api/h_mac_helper.rb:63-66 | Chomping the final `&` from the pairs, each followed by `&`, leaves the pairs joined by `&`. |
| HMacHelper.ParamsStringOrderIndependent | lib/api/h_mac_helper.rb:59 | Two hashes with the same pairs, inserted in any order, give the same parameter line. |
| HMacHelper.TwoParamsInKeyOrder | lib/api/h_mac_helper.rb:59-67 | Two parameters come out in byte order of their keys, whichever order they were inserted in. |
| HMacHelper.UpperKeysFirst | lib/api/h_mac_helper.rb:59 | Byte order sorts every key that starts with an upper-case letter before every key that starts with a lower-case one. |
| HMacHelper.EncodeListPair | lib/api/h_mac_helper.rb:61-63 | An array value is written as `[a,b,...]`. For safe keys and elements the pair is exactly `k=[a,b,...]`, because `URI.escape` keeps `[`, `,` and `]`. |
| HMacHelper.ParamsDelimitersCollide | lib/api/h_mac_helper.rb:61-67 | `URI.escape` keeps `&` and `=`. So one parameter whose value contains `&c=d` gives the same parameter line as two parameters. |
| HMacHelper.FormatRequestString | lib/api/h_mac_helper.rb:9-18 | The method returns the canonical string: the formatted verb, endpoint, parameter text, `ApiKey=` line and `Timestamp=` line, each followed by a line feed. |
| HMacHelper.CanonicalLines | lib/api/h_mac_helper.rb:17 | For inputs without line feeds, the canonical string splits into these lines: verb, endpoint, one empty line (no parameters) or the parameter line and a blank line, then `ApiKey=`, `Timestamp=`, and nothing after the last line feed. |
| HMacHelper.CanonicalStringInjective | lib/api/h_mac_helper.rb:9-18 | For inputs without line feeds, equal canonical strings have equal formatted verbs, endpoints, parameter lines, keys and timestamps. |
| HMacHelper.ComputeHmacSignature | lib/api/h_mac_helper.rb:72-80 | The signature is exactly the base64 encoding of the HMAC digest of the request string, without its final `=`: `encode64` of the digest is the signature followed by `=` and a line feed. It is 43 base64 characters, so it holds no `=` and no whitespace, and with the `=` put back it decodes to the digest. |
| Text.Strip | lib/api/h_mac_helper.rb:21 | `strip` leaves the infix between the leading and the trailing run of whitespace. It changes the text exactly when the text begins or ends with whitespace. |
| Text.Upcase | lib/api/h_mac_helper.rb:21 | `upcase` keeps the length and leaves no lower-case letter. Each lower-case letter becomes the capital that `ToLower` maps back to it, and every other character stays as it is. The text changes exactly when it holds a lower-case letter, and stays stripped exactly when it was. |
| Text.Downcase | lib/api/h_mac_helper.rb:25 | `downcase` keeps the length and leaves no upper-case letter. Each capital becomes the small letter that `ToUpper` maps back to it, and every other character stays as it is. The text changes exactly when it holds an upper-case letter. |
| Text.ChompChar | lib/api/h_mac_helper.rb:25 | `chomp(c)` removes one trailing `c` if there is one, and otherwise leaves the text unchanged. |
| Text.ContainsAt | lib/api/h_mac_helper.rb:32 | `include?` holds when the text occurs at some index. Used for the `%20` test. |
| Text.ContainsFound | lib/api/h_mac_helper.rb:32 | When `include?` holds, there is an index where the text occurs. With `ContainsAt`, this makes `Contains` exactly "occurs somewhere". |
| Text.JoinSnoc | lib/api/h_mac_helper.rb:62 | `join` of a non-empty list with one more element is the join of the list, then the separator, then that element. |
| Text.SplitJoin | lib/api/h_mac_helper.rb:62 | Splitting a `join` at its one-character separator gives back the elements, when none of them holds the separator. |
| UriEscape.Escape | lib/api/h_mac_helper.rb:32 | `URI.escape` leaves a text of safe characters unchanged. Otherwise it lengthens the text and introduces a `%`. The result holds only safe characters and `%`, and every `%` opens a triple of two upper-case hexadecimal digits. |
| UriEscape.EscapeAppend | lib/api/h_mac_helper.rb:32 | `URI.escape` works character by character: escaping a concatenation is the concatenation of the escaped parts. |
| UriEscape.EscapeRoundTrip | lib/api/h_mac_helper.rb:32 | Percent-decoding an escaped text gives the UTF-8 bytes of the original. |
| UriEscape.EscapeAvoids | lib/api/h_mac_helper.rb:32 | A character that is neither safe nor `%`, such as a line feed, never appears in escaped text. |
| FlatParams.LessIrreflexive | lib/api/h_mac_helper.rb:59 | The byte order of `String#<=>` that `sort` uses never puts a key before itself. |
| FlatParams.LessAsymmetric | lib/api/h_mac_helper.rb:59 | The byte order never puts two keys each before the other. |
| FlatParams.LessTransitive | lib/api/h_mac_helper.rb:59 | The byte order is transitive. |
| FlatParams.LessTotal | lib/api/h_mac_helper.rb:59 | Of two different keys, one comes before the other, so the order is a strict total order. |
| FlatParams.SortByKey | lib/api/h_mac_helper.rb:59 | `sort` returns a permutation of the pairs, and for distinct keys it is in ascending byte order of the keys. |
| FlatParams.SortedUnique | lib/api/h_mac_helper.rb:59 | Two key-sorted sequences of the same pairs are equal. |
| FlatParams.SortByKeyOrderIndependent | lib/api/h_mac_helper.rb:59 | Sorting forgets the insertion order. |
| Base64.Encode64 | lib/api/h_mac_helper.rb:76 | `encode64` is empty exactly for no bytes. Up to 45 bytes, it is the unbroken encoding followed by one line feed. |
| Base64.DecodeEncodeBlock | lib/api/h_mac_helper.rb:76 | Decoding the unbroken encoding gives back the bytes. |
| Base64.DigestEncoding | lib/api/h_mac_helper.rb:76-79 | A 32-byte digest encodes as one line: 43 alphabet characters, one `=` and a line feed. |

## Left out

- `HashHelper.flatten_hash` (lib/api/hash_helper.rb) is not part of this model. The model takes the hash it returns: a flat, insertion-ordered hash whose values are strings or arrays of strings.
- HMacHelper.FormatCustomParams: tests for emptiness on the flattened hash, where Ruby tests the raw parameter tree (lines 46 and 58). A non-empty tree that flattens to no pairs, such as `{user: {}}`, gives `"\n"` in Ruby and `""` here. The same holds for `ParamsString`, because `flatten_hash` is not part of this model.
- Keys are strings. A key that `flatten_hash` returns as a symbol is not modelled, so `k.to_s` is the identity, and so is `v.to_s` for a string value.
- `p params` on line 57 prints to standard output. That is I/O, so it is left out.
- `OpenSSL::HMAC.digest` is a parameter of `ComputeHmacSignature`: any function from secret and message to 32 bytes. SHA-256 itself is not modelled.
- Text.Strip: removes a leading NUL as well as a trailing one. The `lstrip` of some Ruby versions, including versions that still define `URI.escape`, keeps a leading NUL. So for a verb or URI that starts with NUL after its leading spaces, such as `" \0get "`, the model gives `GET` where such a Ruby gives `\0GET`. `FormatHttpVerb` and `ExtractApiEndpointFromUri` inherit this.
- `upcase`, `downcase` and `strip` are modelled on ASCII: letters `A`-`Z` and `a`-`z`, and whitespace being space, `\t`-`\r` and NUL. Ruby's Unicode case mapping is not modelled.
- Strings are sequences of Unicode scalar values. Byte strings that are not valid UTF-8, and Ruby's other string encodings, are not modelled.
- FlatParams.SortByKey: for a hash, whose keys are always distinct, the order is exactly Ruby's `sort`. The model does not state how `sort` breaks ties between equal keys, because such pairs cannot occur.
- Base64.Encode64: beyond 45 bytes, only the line-breaking shape is modelled. No lemma is stated for multi-line output, because the digest is 32 bytes and always fits on one line.
- UriEscape.Escape: follows the RFC 2396 parser's default unsafe set, as `URI.escape` uses it. `URI.escape`'s optional second argument is never passed here and is not modelled.

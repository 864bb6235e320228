# WWW-Authenticate header, modelled in Dafny

This project models the `WwwAuthenticate` typed header of the Rust `headers`
crate fork (`src/common/www_authenticate.rs`). The header keeps two
`HeaderValue`s: the authentication scheme and a comma-separated parameter list.

- `decode` takes the first raw value only. It splits that value at its first
  ASCII space into scheme and parameter list. A value with no space is all
  scheme, with an empty parameter list. Decoding fails only when there is no
  value at all.
- `encode` hands back the scheme and the parameter list as two raw values.
- `iter` reads the parameter list as comma-separated tokens. Each token is
  split once at its first `=`, and both sides are trimmed. A token without `=`
  yields nothing. A value that starts with `"` loses its first and last
  characters, and a value that is a lone `"` makes the slice panic.
- `get` is a first-match lookup over `iter`; `len` counts what `iter` yields.

The code is pure, so the model is datatypes, functions and lemmas:

- `wrappers.dfy`: `Option` and `Result`.
- `text.dfy`: `position`, `split`, element-wise `map` and Unicode `trim`, with their characterisations. The header's `splitn(2, '=')` is a cut at the first `=` that `position` finds, made inside `ParseItem`.
- `header_value.dfy`: header-value bytes, `from_bytes` validity and `to_str`.
- `flat_csv.dfy`: the comma-token view of the parameter list.
- `www_authenticate.dfy`: the header itself.
- `examples.dfy`: the header's own test scenarios.

Two facts about the code shape the model:

- `encode` always emits exactly two values. The second is empty when there are
  no parameters.
- The invalid-bytes branch of `decode` can never be taken. Every slice of a
  valid header value is itself valid, and `Decode`'s contract proves this.

The panic of the quote strip is modelled as a value, `QuotePanic` for one
token and `Err(SliceIndexOrder)` for `Iter`, `Len` and `Get`. `Get` stops at
the first matching pair, as `find` does. So it panics only when the bad token
comes before the match.

## Model

| member | source | states |
|---|---|---|
| `WwwAuthenticateHeader.Decode` | src/common/www_authenticate.rs:13-29 | decoding fails exactly when there is no raw value; any first value decodes |
| `WwwAuthenticateHeader.Encode` | src/common/www_authenticate.rs:31-33 | two values, the scheme then the parameter list; `EncodeAfterDecode` relates them to the decoded input |
| `WwwAuthenticateHeader.DecodeReadsFirstValueOnly` | src/common/www_authenticate.rs:17-19 | values after the first never change the result |
| `WwwAuthenticateHeader.DecodeSplitsAtFirstSpace` | src/common/www_authenticate.rs:20-23 | with a space present: the scheme has no space, and scheme ++ SP ++ params is the original value, so the split is at the first space |
| `WwwAuthenticateHeader.DecodeWithoutSpace` | src/common/www_authenticate.rs:24-25 | with no space: the scheme is the whole value, the parameter list is empty and `len()` is 0 |
| `WwwAuthenticateHeader.DecodedSchemeHasNoSpace` | src/common/www_authenticate.rs:20-25 | every decoded scheme is free of spaces |
| `WwwAuthenticateHeader.EncodeAfterDecode` | src/common/www_authenticate.rs:31-33 | encode emits two values, and after decode they are the two halves of the input around its first space (or the input and an empty value) |
| `WwwAuthenticateHeader.DecodeAfterEncodeDropsParams` | src/common/www_authenticate.rs:31-33 | as written, decoding the encoded values keeps the scheme but drops a non-empty parameter list |
| `WwwAuthenticateHeader.EncodeJoined` | src/common/www_authenticate.rs:31-33 | the corrected encoding emits a single value |
| `WwwAuthenticateHeader.DecodeEncodeJoined` | src/common/www_authenticate.rs:31-33 | the corrected encoding decodes back to the same header |
| `WwwAuthenticateHeader.Scheme` | src/common/www_authenticate.rs:38-40 | the scheme text is present exactly when every byte is visible ASCII, and then it is those bytes as characters |
| `WwwAuthenticateHeader.ParseItem` | src/common/www_authenticate.rs:56-66 | a token yields nothing exactly when it has no `=` |
| `WwwAuthenticateHeader.ParseItemSplitsOnce` | src/common/www_authenticate.rs:57-59 | the key and value come from the trimmed text on either side of the first `=` |
| `WwwAuthenticateHeader.TrimmedPair` | src/common/www_authenticate.rs:60-64 | the key is kept, and the result panics exactly when the trimmed value is a lone `"` |
| `WwwAuthenticateHeader.TrimmedPairStripsQuote` | src/common/www_authenticate.rs:60-64 | a lone `"` panics; a value starting with `"` loses exactly its first and last characters, whatever the last one is; any other value is kept whole |
| `WwwAuthenticateHeader.ParseItemAtFirstEquals` | src/common/www_authenticate.rs:57-64 | for `pre=post` with no `=` in pre: the key is trim(pre) and holds no `=`; later `=` stay in the value; quote strip and panic as above |
| `WwwAuthenticateHeader.ParseQuotedPair` | src/common/www_authenticate.rs:57-64 | the token `key="value"` with a trimmed key gives back exactly key and value |
| `WwwAuthenticateHeader.ParseAll` | src/common/www_authenticate.rs:56 | one item per token, in token order, each the parse of its token |
| `WwwAuthenticateHeader.Collect` | src/common/www_authenticate.rs:55-67 | iterating to the end fails exactly when some token panics; otherwise it yields at most one pair per token, each a parsed pair. `CollectOne` and `CollectAppend` fix which pairs come out and in what order |
| `WwwAuthenticateHeader.CollectOne` | src/common/www_authenticate.rs:56-66 | a pair yields itself, a token without `=` yields nothing, a lone quote panics |
| `WwwAuthenticateHeader.CollectAppend` | src/common/www_authenticate.rs:55-67 | iterating a concatenation gives the first panic in order, or else the pairs of the first part followed by the pairs of the second; with `CollectOne` this fixes every pair's presence and order |
| `WwwAuthenticateHeader.ParseAllAppend` | src/common/www_authenticate.rs:56 | parsing a concatenation of token lists is the concatenation of the parses |
| `WwwAuthenticateHeader.IterSkipsTokenWithoutEquals` | src/common/www_authenticate.rs:58-59 | a token without `=` anywhere in the list adds nothing to `iter()` |
| `WwwAuthenticateHeader.Iter` | src/common/www_authenticate.rs:55-67 | `iter()` run to its end panics exactly when some item is a panic, and yields at most one pair per token |
| `WwwAuthenticateHeader.Len` | src/common/www_authenticate.rs:50-52 | `len()` panics exactly when `iter()` does, and is at most the number of tokens |
| `WwwAuthenticateHeader.LenCountsTokensWithEquals` | src/common/www_authenticate.rs:50-52 | `len()` is the number of tokens that hold an `=`, at most the number of tokens; it panics exactly when a token's value is a lone quote |
| `WwwAuthenticateHeader.Find` | src/common/www_authenticate.rs:44-46 | a found value belongs to a pair with that key in the items, and a panic comes from a panicking item |
| `WwwAuthenticateHeader.Get` | src/common/www_authenticate.rs:43-47 | a found value belongs to a pair with that key among the header's items, and a panic comes from a panicking token |
| `WwwAuthenticateHeader.GetFirstMatch` | src/common/www_authenticate.rs:43-47 | `get` returns the value of the first pair whose key equals the name exactly, when no panic comes before it |
| `WwwAuthenticateHeader.GetFoundIsFirstMatch` | src/common/www_authenticate.rs:43-47 | whatever `get` returns is the value of the first pair with that key |
| `WwwAuthenticateHeader.GetAbsent` | src/common/www_authenticate.rs:43-47 | `get` returns absence exactly when no token is a pair with that key or a panic |
| `WwwAuthenticateHeader.IterOfQuotedList` | src/common/www_authenticate.rs:55-67 | a list `k1="v1",k2="v2",...` of plain pairs iterates back to exactly those pairs, in order |
| `WwwAuthenticateHeader.GetFromQuotedList` | src/common/www_authenticate.rs:43-47 | in such a list `get` finds the value of the first pair with the key |
| `WwwAuthenticateHeader.GetMissingFromQuotedList` | src/common/www_authenticate.rs:43-47 | in such a list `get` reports absence for a key that no pair has |
| `WwwAuthenticateHeader.DecodeQuotedChallenge` | src/common/www_authenticate.rs:17-23 | `scheme k1="v1",...` decodes to that scheme and iterates to exactly those pairs |
| `WwwAuthenticateHeader.QuotedListIsVisible` | src/common/www_authenticate.rs:55-67 | a list built from visible text is visible text, so `to_str` accepts it |
| `Text.Position` | src/common/www_authenticate.rs:20 | `position` finds the first occurrence and returns none only when there is no occurrence |
| `Text.PositionAfterPrefix` | src/common/www_authenticate.rs:20 | the first occurrence in `pre ++ [x] ++ post` is right after `pre` when `pre` has no `x` |
| `Text.Split` | src/common/www_authenticate.rs:56 | comma splitting gives at least one part, no part holds a comma, and joining the parts gives the input back |
| `Text.SplitJoin` | src/common/www_authenticate.rs:56 | splitting undoes joining when no part holds the separator |
| `Text.Trim` | src/common/www_authenticate.rs:58-59 | `trim` leaves no whitespace at either end |
| `Text.TrimRemovesOnlyEdgeWhitespace` | src/common/www_authenticate.rs:58-59 | what `trim` removes is a whitespace prefix and a whitespace suffix, nothing else |
| `Text.TrimUnique` | src/common/www_authenticate.rs:58-59 | `trim` returns exactly the part between a whitespace prefix and suffix that has no whitespace at its ends |
| `Text.TrimOfTrimmed` | src/common/www_authenticate.rs:58-59 | `trim` leaves text without edge whitespace unchanged |
| `Text.TrimIdempotent` | src/common/www_authenticate.rs:58-59 | trimming twice is trimming once |
| `FlatCsv.Tokens` | src/common/www_authenticate.rs:56 | token i is the trimmed i-th comma-separated piece of the text, so no token holds a comma or edge whitespace; no tokens when the list is not text |
| `HeaderValues.FromBytes` | src/common/www_authenticate.rs:21-22 | `from_bytes` succeeds exactly on valid header bytes and keeps them unchanged |
| `HeaderValues.ToStr` | src/common/www_authenticate.rs:39 | `to_str` succeeds exactly on visible ASCII and keeps every byte |
| `WwwAuthenticateExamples.DecodeNothingFails` | src/common/www_authenticate.rs:17-28 | decoding no values fails |
| `WwwAuthenticateExamples.DecodeBasic` | src/common/www_authenticate.rs:84-87 | `Basic` decodes to scheme `Basic` with no parameters |
| `WwwAuthenticateExamples.ChallengeIsQuotedList` | src/common/www_authenticate.rs:77 | the test's challenge text is the scheme `Bearer`, a space and the quoted list of its three pairs |
| `WwwAuthenticateExamples.DecodeChallenge` | src/common/www_authenticate.rs:77 | the registry challenge decodes to scheme `Bearer`, and `iter()` yields its three pairs in order |
| `WwwAuthenticateExamples.LookupsInChallenge` | src/common/www_authenticate.rs:79-80 | in the registry challenge `get("realm")` is the unquoted URL, `get("bar")` is absent and `len()` is 3 |
| `WwwAuthenticateExamples.RealmLookup` | src/common/www_authenticate.rs:79 | in the registry challenge `get("realm")` is the URL without its quotes |
| `WwwAuthenticateExamples.BarLookup` | src/common/www_authenticate.rs:80 | in the registry challenge `get("bar")` is absent |

## Findings

| source | as written | input that shows it | evidently intended | confidence | as-written member | corrected member |
|---|---|---|---|---|---|---|
| src/common/www_authenticate.rs:31-33 | `encode` emits the scheme and the parameter list as two separate values, and `decode` reads only the first value, so encoding and decoding again loses every parameter | the header decoded from `Bearer realm="x"` encodes to `Bearer` and `realm="x"`, which decode to scheme `Bearer` with no parameters | one value, the scheme and the parameter list joined by a space, which decodes back to the same header | medium; not executed | `WwwAuthenticateHeader.DecodeAfterEncodeDropsParams` | `WwwAuthenticateHeader.DecodeEncodeJoined` |

## Left out

- `Header::name()` is a constant from the `http` crate with nothing to prove.
- `util::FlatCsv` is not part of this model. Its tokens are modelled as: read the list with `to_str` (a list that is not visible ASCII yields no tokens), split it at every comma, and trim each piece. If the crate's splitter skips commas inside quoted strings, the model differs on such values. The model reads `realm="a,b"` as the tokens `realm="a` and `b"`, so `get("realm")` is the empty string and `b"` is dropped. A quote-aware splitter gives `a,b`.
- The internals of `HeaderValue` are not modelled. Validity is "no byte 0x00-0x08, 0x0A-0x1F or 0x7F", `to_str` accepts visible ASCII and tab, and the sensitive flag is not modelled.
- `WwwAuthenticateHeader.Encode` models the caller's sink as the returned two-element sequence. The `extend` call itself is not modelled.
- `WwwAuthenticateHeader.Iter` and `WwwAuthenticateHeader.Len` model the lazy iterator run to its end. `Get` models `find`, which stops at the first match.
- Slicing at byte offsets is modelled as slicing at character offsets. The text is ASCII whenever it reaches `iter`, so the two agree and no char-boundary panic can occur.
- `WwwAuthenticateHeader.DecodeReadsFirstValueOnly` does not model that the caller's iterator is advanced by one value.
- The derived `Clone`, `Debug`, `PartialEq`, `Eq` and `Hash` impls and the `test_decode` harness are not modelled.
- RFC 7235 features the header does not implement are not modelled: several challenges in one value, token68, and backslash escapes inside quoted strings.

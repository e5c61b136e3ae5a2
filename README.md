# gNMI path conversion in pygnmi, modelled in Dafny

pygnmi converts between the XPath-like text form of a gNMI path and the
structured form the gNMI protocol carries: an origin plus an ordered list of
elements, each a name with a map of `[key=value]` selectors.

This project models the two functions of `pygnmi/path_generator.py`:

- `gnmi_path_generator`, the parser. It is a left-to-right tokenizer. It
  splits at the first '/' or '[', turns each non-empty piece into an element,
  and reads each `[key=value]` selector, unquoted or quoted with `'` or `"`,
  into the last element's key map. It then takes the origin from a
  `module:` prefix on the first element's name.
- `gnmi_path_degenerator`, the serializer. It writes each element's name
  followed by its selectors in ascending key order, and joins the elements
  with '/'. It returns nothing for an absent or empty path.

Both functions are imperative loops in the source. They are modelled as
methods with loops (`PathGenerator.GnmiPathGenerator`,
`PathDegenerator.GnmiPathDegenerator`), each proved equal to a recursive
specification function (`PathGenerator.Parse`, `PathDegenerator.Serialize`).
The properties are lemmas about those functions.

Files:

- `path_types.dfy`: elements, paths, parse errors, and the string helpers
  (first index of a character, Python's `split` and `'/'.join`).
- `path_generator.dfy`: the parser's specification and the parser loop.
- `parser_properties.dfy`: what each token does, the failure cases, the
  empty paths, and the origin.
- `string_order.dfy`: Python's `str` ordering, and `sorted` on a key set.
- `path_degenerator.dfy`: the serializer's specification and loop.
- `round_trip.dfy`: serializing then parsing gives the path back.
- `test_paths.dfy`: a whole path of the shape in the repository's tests.

Parse failures are a `Result` with one error per `RuntimeError` the source
raises:

- `MissingEquals`: no '=' after '['.
- `UnterminatedQuoted`: no matching quote followed by ']'.
- `UnterminatedUnquoted`: no ']' after an unquoted value.
- `LeadingSelector`: a selector before any element.
- `MissingValue`: nothing at all after the '='. The source fails here with an
  `IndexError` on `rest[0]`, not a `RuntimeError`.

A failure carries no partial path.

## Model

| member | source | states |
|---|---|---|
| PathGenerator.GnmiPathGenerator | pygnmi/path_generator.py:8-107 | the tokenizer loop over the shrinking remainder, followed by the origin step, returns exactly `Parse` of its input, errors included |
| PathGenerator.ReadSelector | pygnmi/path_generator.py:56-87 | the selector reader (key up to the first '=', then a quoted value up to the matching quote and ']', or an unquoted value up to the first ']') returns exactly `ParseSelector` of the clause |
| PathGenerator.Parse | pygnmi/path_generator.py:35-107 | a successful parse has no element with an empty name and an origin without ':' |
| PathGenerator.Scan | pygnmi/path_generator.py:35-96 | the tokenizer loop from a state to its end; a successful run keeps at least the elements it started with (what it does to them is `ScanKeepsBuiltElements`) |
| PathGenerator.ParseSelector | pygnmi/path_generator.py:56-87 | the key and the rest of a parsed selector are both shorter than the clause, so the loop's remainder shrinks |
| PathGenerator.MatchQuoted | pygnmi/path_generator.py:71 | a match's value and rest together are at least three characters shorter than the text: the two quotes and the ']' |
| PathGenerator.LineTail | pygnmi/path_generator.py:71 | a tail accepted by `(.*)$` is no longer than the text it was taken from |
| PathGenerator.ResolveOrigin | pygnmi/path_generator.py:98-105 | with no ':' in the first name, the origin is empty and the elements are unchanged; otherwise the first name is `origin + ":" + rest`, the element keeps its keys under the name `rest` or is dropped when `rest` is empty, later elements are untouched, and the origin has no ':' |
| PathGenerator.ParseSelectorSpec | pygnmi/path_generator.py:56-62 | a selector fails for a missing '=' exactly when the clause has no '='; a parsed key is the text before the first '=' |
| PathGenerator.MatchQuotedSpec | pygnmi/path_generator.py:71-79 | a quoted match is the quote, a value free of that quote, the same quote, ']', then a tail accepted by `(.*)$` |
| PathGenerator.LineTailSpec | pygnmi/path_generator.py:71 | `(.*)$` rejects a tail exactly when a line break comes before its last character; an accepted tail has no line break and loses at most one final line break |
| PathGenerator.GrowsByStep | pygnmi/path_generator.py:38-39 | appending a named element, or setting a key on the last element, keeps every name, every earlier element and non-empty names |
| PathGenerator.ScanKeepsBuiltElements | pygnmi/path_generator.py:35-96 | the tokenizer only appends elements with non-empty names and only sets keys on the element that is last when the selector is read |
| PathTypes.IndexOfSpec | pygnmi/path_generator.py:57 | the index found by a one-split is the first occurrence, and it is the end exactly when the character is absent |
| PathTypes.FirstActiveSpec | pygnmi/path_generator.py:32-36 | the tokenizer splits at the first '/' or '[' |
| PathTypes.JoinSplitSlash | pygnmi/path_generator.py:127 | joining the '/'-pieces of a string gives the string back |
| PathTypes.SplitJoinSlash | pygnmi/path_generator.py:127 | splitting a '/'-join of slash-free pieces gives the pieces back |
| ParserProperties.EmptyPaths | pygnmi/path_generator.py:13 | "" and "/" both parse to the empty path with no origin |
| ParserProperties.LeadingSlashIgnored | pygnmi/path_generator.py:20-21 | a leading '/' does not change the parse |
| ParserProperties.ScanName | pygnmi/path_generator.py:36-39 | a non-empty piece ending at '/', '[' or the end adds exactly one element with that name and no keys |
| ParserProperties.ScanSlash | pygnmi/path_generator.py:47-49 | a '/' with nothing before it adds no element |
| ParserProperties.ScanBracket | pygnmi/path_generator.py:51-96 | a '[' gives the selector's error, `LeadingSelector` when there is no element yet, or sets the key on the last element |
| ParserProperties.ScanPieceSlash | pygnmi/path_generator.py:36-49 | a piece followed by '/' adds one element, or none when the piece is empty |
| ParserProperties.ScanLastPiece | pygnmi/path_generator.py:36-43 | a last piece adds one element, or none when it is empty, and the scan ends |
| ParserProperties.SegmentsBecomeElements | pygnmi/path_generator.py:35-49 | without selectors, the elements are exactly the non-empty '/'-pieces of the input, in order |
| ParserProperties.KeyThen | pygnmi/path_generator.py:57 | after `k=`, the key is `k` and the selector reader looks at exactly the text that follows |
| ParserProperties.ParsePlainSelector | pygnmi/path_generator.py:80-87 | `k=v]tail` reads back key `k`, unquoted value `v` (which may hold ':' and '/') and rest `tail` |
| ParserProperties.LineTailPlain | pygnmi/path_generator.py:71 | a tail without line breaks is kept, and a single final line break is dropped |
| ParserProperties.MatchesQuoted | pygnmi/path_generator.py:71-79 | on `q v q ] t`, the quoted match takes `v` as the value and the accepted form of `t` as the rest |
| ParserProperties.ParseQuotedSelector | pygnmi/path_generator.py:25-28 | a quoted value is taken verbatim without its quotes (it may hold '/', '[', ']', ':' and the other quote); the parse fails when a line break comes before the last character of the tail |
| ParserProperties.ParseQuotedSelectorFinalLineBreak | pygnmi/path_generator.py:71 | a single line break at the very end, after a quoted selector, is dropped |
| ParserProperties.MissingEqualsFails | pygnmi/path_generator.py:56-62 | a clause without '=' fails with `MissingEquals` |
| ParserProperties.MissingValueFails | pygnmi/path_generator.py:66 | nothing after the '=' fails with `MissingValue` |
| ParserProperties.UnterminatedUnquotedFails | pygnmi/path_generator.py:81-87 | an unquoted value with no ']' after it fails |
| ParserProperties.UnclosedQuoteFails | pygnmi/path_generator.py:71-76 | a quote that never closes fails |
| ParserProperties.QuoteWithoutBracketFails | pygnmi/path_generator.py:71-76 | a closing quote not followed by ']' fails, even if a ']' comes later |
| ParserProperties.SelectorSetsLastKey | pygnmi/path_generator.py:89-96 | an unquoted selector sets `key := value` on the last element only, and scanning continues after the ']' |
| ParserProperties.QuotedSelectorSetsLastKey | pygnmi/path_generator.py:89-96 | the same for a quoted selector, with the value verbatim |
| ParserProperties.SelectorsAccumulate | tests/test_xpath.py:66 | consecutive selectors accumulate on the same element |
| ParserProperties.RepeatedKeyOverwrites | pygnmi/path_generator.py:93 | a repeated key keeps the later value |
| ParserProperties.SelectorFirstFails | pygnmi/path_generator.py:90-91 | a path that starts with '[' always fails, and fails with `LeadingSelector` when the selector itself is well formed |
| ParserProperties.BadSelectorFails | pygnmi/path_generator.py:56-87 | a malformed selector after a name makes the whole parse fail with that selector's error |
| ParserProperties.ColonOnly | pygnmi/path_generator.py:100 | `o:` splits at its ':' into `o` and nothing |
| ParserProperties.ColonSplit | pygnmi/path_generator.py:100 | `o:n` splits at its first ':' into `o` and `n` |
| ParserProperties.OriginOnly | pygnmi/path_generator.py:15 | `origin://` is the empty path with that origin |
| ParserProperties.RootedOriginOnly | pygnmi/path_generator.py:15 | `/origin://` is the empty path with that origin |
| ParserProperties.ModulePrefixBecomesOrigin | pygnmi/path_generator.py:98-105 | a `module:` prefix on the first element becomes the origin and is taken off that name; everything else the tokenizer built is kept, including colons in later names |
| TestPaths.ModulePathWithKey | tests/test_xpath.py:41-46 | `o:n/m[k=v]` parses to origin `o`, element `n`, then element `m` with key map `{k: v}` |
| StringOrder.StrLtIrreflexive | pygnmi/path_generator.py:122 | no string sorts before itself |
| StringOrder.StrLtTransitive | pygnmi/path_generator.py:122 | the string order is transitive |
| StringOrder.StrLtTotal | pygnmi/path_generator.py:122 | of two different strings, one sorts before the other |
| StringOrder.StrLtAsymmetric | pygnmi/path_generator.py:122 | two strings never sort before each other |
| StringOrder.Least | pygnmi/path_generator.py:122 | the chosen key is the smallest member of the set |
| StringOrder.SortedKeysSpec | pygnmi/path_generator.py:122 | the sorted listing is strictly ascending and holds each key of the set exactly once |
| StringOrder.SortedKeysUnique | pygnmi/path_generator.py:122 | a strictly ascending listing of a key set is the sorted one, so it does not depend on how the set was built |
| PathDegenerator.SortedItemsListMap | pygnmi/path_generator.py:121-123 | the sorted items list the map exactly: one pair per key, with that key's value, in strictly ascending key order |
| PathDegenerator.SortedItemsCanonical | pygnmi/path_generator.py:122 | any strictly ascending listing of a map's pairs is the sorted one |
| PathDegenerator.ElemTextCanonical | pygnmi/path_generator.py:116-125 | an element's text is its name followed by the clauses of the ascending listing of its keys, whatever order the keys were set in |
| PathDegenerator.SortedSelectorsExample | pygnmi/path_generator.py:121-123 | keys set as `z` then `a` are written `a[a=2][z=1]` |
| PathDegenerator.Serialize | pygnmi/path_generator.py:113-114 | the result is `None` exactly when the path is absent or has no elements; such a path gives `None`, not `""` (a path whose only element has an empty name and no keys does give `""`) |
| PathDegenerator.SerializeIgnoresOrigin | pygnmi/path_generator.py:110-129 | the origin is never written |
| PathDegenerator.GnmiPathDegenerator | pygnmi/path_generator.py:110-129 | the loop over elements and sorted items returns exactly `Serialize` of its input |
| RoundTrip.SelectorsStartWithBracket | pygnmi/path_generator.py:123 | written selectors begin with '[' |
| RoundTrip.ScanSelectors | pygnmi/path_generator.py:89-96 | reading written selectors sets their pairs, in order, on the last element |
| RoundTrip.AssignListed | pygnmi/path_generator.py:122-123 | setting the pairs of a listing drawn from a map gives the part of the map the listing covers |
| RoundTrip.AssignSortedItems | pygnmi/path_generator.py:122-123 | setting the sorted pairs of a map on an empty map rebuilds the map |
| RoundTrip.ScanElemText | pygnmi/path_generator.py:116-125 | the text of a safe element reads back as that element |
| RoundTrip.ScanElemTexts | pygnmi/path_generator.py:127 | the '/'-joined texts of safe elements read back as those elements, in order |
| RoundTrip.JoinSlashPrefix | pygnmi/path_generator.py:127 | a prefix on the first piece is a prefix of the joined text |
| RoundTrip.RoundTripWithoutOrigin | pygnmi/path_generator.py:110-129 | a path with no origin, safe elements and no ':' in its first name parses back from its serialization |
| RoundTrip.RoundTripWithOrigin | pygnmi/path_generator.py:98-129 | a path with safe elements and a non-empty origin without ':', '/' or '[' parses back from `origin:` followed by its serialization |

"Safe" means that names are non-empty and hold no '/' or '['. It also means
that keys hold no '=', and that values hold no ']' and do not start with a
quote. With an origin, the round trip also needs the origin to be
non-empty and free of ':', '/' and '['.

## Left out

- The second "origin" argument of the parser, which the tests pass
  (tests/test_xpath.py:127). The function in `pygnmi/path_generator.py:8`
  takes one parameter, and the model follows that function.
- The protobuf `Path` and `PathElem` classes (`pygnmi.spec.gnmi_pb2` is not
  part of this model). They are plain datatypes with exactly the fields the
  two functions use. Wire encoding is not modelled.
- Exception classes and messages. Each failure is an error value that
  carries the key and the unread text, not the whole input expression.
- In-place updates. `last_elem.key[key] = value`, the rename of `elem[0]` and
  `elem.pop(0)` become reassignments of a sequence of element values.
  Aliasing between `last_elem` and the list is therefore not modelled. The
  effect on the list is the same.
- Regular-expression matching in general. The pattern at line 71 is written
  out by hand, including how `(.*)$` treats line breaks. The pattern at
  line 32 is modelled as a scan for the first '/' or '['.
- The always-true `assert token == "["` (lines 52-55). It is a Dafny
  assertion in the parser loop, and it is proved.
- The rest of pygnmi (the gRPC client, TLS, threading) and setup.py, which
  is packaging only.
- Parse: the model is faithful to the source's quirks but does not call
  them errors:
  - A first element that is only an origin prefix is dropped together with
    any keys given to it (`o:[k=v]`).
  - A single line break at the very end is dropped after a quoted selector.
- RoundTrip.RoundTripWithoutOrigin and RoundTrip.RoundTripWithOrigin are
  stated only for safe paths, and the second only for an origin without
  ':', '/' or '['. The serializer never quotes values, so a
  value that holds ']' or starts with a quote does not read back. A name
  that holds '/' or '[' does not read back either.

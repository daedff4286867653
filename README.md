# Bloomberg mail reader: payload decoding and article extraction in Dafny

This project models the two string-processing cores of a small web app that lists unread Bloomberg
newsletters from Gmail and shows their text, and proves properties of the model.

**Email side (`src/main.js`)**
- `decodeUrlSafeBase64` maps the base64url alphabet (RFC 4648 section 5) back to the standard one and
  decodes it with `atob`. `atob` runs the forgiving-base64 decode of the WHATWG Infra Standard.
- The decoded bytes are then read as UTF-8 (RFC 3629 section 4) through
  `decodeURIComponent(escape(...))`. Bytes that are not UTF-8 fall back to one character per byte.
- `extractBodyData` walks the Gmail part tree. Its inner `traverse` appends decoded `text/plain` and
  `text/html` leaves to two buffers, modelled as the fields of a class.
- `getHeader` looks up a header value by name.
- The selection step of `loadEmails` keeps the present, `UNREAD` message details and sorts them in place
  by `internalDate`, modelled as an insertion sort on an array.

**Page side (`src/gas-proxy.js`, `extractBloombergContent`)**
- The title comes from the first `<h1…>` element.
- The body is taken from four container patterns tried in order, with a 500-character gate and a red
  "extraction failed" placeholder.
- A seven-step clean-up chain follows.
- Each regular expression is one fixed pattern. It is modelled by a hand-written scanner that follows
  JavaScript's backtracking order: leftmost start, longest first `[^>]*`, first quote, first `>`,
  nearest closing tag.
- The quirks of the patterns are kept:
  - `<div[^>]*` accepts `<divider`;
  - `class="` is found inside `data-class="`;
  - `src="` is found inside `data-src="`;
  - `src="//host"` is rewritten;
  - nested `</div>` is not balanced.

Modules:
- `Wrappers`: `Option`, `Result`.
- `Text`: literal search, exact and ASCII case-insensitive, and JavaScript `trim`.
- `Base64`: forgiving decode and encoder.
- `Utf8`.
- `PayloadDecoder`.
- `MimeBody`.
- `Headers`.
- `MessageSelection`.
- `TagPattern`: the scanner.
- `Sanitizer`: the clean-up passes.
- `ArticleExtractor`.

Modelling choices:
- Exceptions are `Failure` results, or `false` from the traversal methods. A malformed base64 string
  throws twice in the code: once in the `try`, and again in the `catch` fallback, which calls `atob`
  again. So it is a `Failure`.
- A part's `parts` is the datatype `Parts = Absent | Present(list)`. This keeps an absent array distinct
  from an empty one, which is truthy in JavaScript.
- A missing `body` and a missing `body.data` are one case: `data == None`.
- `snippet` is read from the payload, as the code reads it.

When no capture passes the gate, the body is the capture of the last pattern that matched; there is
no truncation step.

## Model

| member | source | states |
|---|---|---|
| PayloadDecoder.UrlSafeToStandard | src/main.js:66 | length is kept; every `-` becomes `+`, every `_` becomes `/`, every other character is unchanged |
| PayloadDecoder.DecodeUrlSafeBase64 | src/main.js:56-67 | absent or empty data decodes to `''` |
| PayloadDecoder.BinaryString | src/main.js:63 | the fallback string has one character per byte, with the byte's value |
| PayloadDecoder.UrlSafeEncodingMapsToStandard | src/main.js:66 | mapping a base64url encoding back to the standard alphabet gives the standard encoding of the same bytes |
| PayloadDecoder.UnpaddedAlphabets | src/main.js:66 | each character of the unpadded base64url encoding maps to the character of the standard encoding at the same position |
| PayloadDecoder.RoundTrip | src/main.js:56-67 | base64url-encoding the UTF-8 bytes of any string and decoding the result gives the string back |
| PayloadDecoder.UnpaddedRoundTrip | src/main.js:56-67 | the same round trip for the base64url encoding without `=` padding |
| PayloadDecoder.InvalidUtf8FallsBack | src/main.js:59-64 | when the bytes are not UTF-8, the result has one character per decoded byte, each below 256 |
| PayloadDecoder.FailsExactlyWhenAtobFails | src/main.js:59-64 | non-empty data fails to decode exactly when `atob` rejects it; bytes that are not UTF-8 never cause a failure |
| PayloadDecoder.MalformedLengthFails | src/main.js:59-64 | base64 whose non-space length is 1 modulo 4 makes the decode fail, not degrade |
| PayloadDecoder.MappingKeepsWhitespace | src/main.js:66 | the alphabet mapping keeps the number of non-whitespace characters |
| Base64.ForgivingDecode | src/main.js:60 | `atob` rejects input whose length without ASCII white space is 1 modulo 4 |
| Base64.DecodeEncode | src/main.js:60 | `atob` inverts standard padded base64 encoding of any byte sequence |
| Base64.DecodeEncodeUnpadded | src/main.js:60 | `atob` also inverts the encoding with its `=` padding left off |
| Base64.StdValue | src/main.js:60 | each alphabet character decodes to the sextet that encodes to it |
| Base64.RemoveWhitespace | src/main.js:60 | the stripped text holds no ASCII white space, and text without any is unchanged |
| Base64.RemoveWhitespaceAppend | src/main.js:60 | stripping white space distributes over concatenation |
| Base64.RemoveWhitespaceChar | src/main.js:60 | a single character is dropped exactly when it is ASCII white space |
| Utf8.Decode | src/main.js:60 | decoded text has at most one character per byte and at least one per four bytes |
| Utf8.DecodeEncode | src/main.js:60 | strict UTF-8 decoding inverts encoding for every string of scalar values |
| Utf8.EncodeCharDecodes | src/main.js:60 | the decoder reads an encoded character back, with the number of bytes it takes, whatever follows it |
| Utf8.EncodeOfDecodedFirst | src/main.js:60 | the first decoded character re-encodes to exactly the bytes it was read from |
| Utf8.EncodeDecode | src/main.js:60 | whatever decodes is exactly the encoding of its decoded text (no overlong or surrogate forms are accepted) |
| MimeBody.BodyBuffers.constructor | src/main.js:70-71 | both buffers start empty |
| MimeBody.BodyBuffers.Traverse | src/main.js:73-83 | succeeds exactly when every leaf of the forest decodes; then each buffer grows by the decoded text (resp. HTML) leaves in depth-first child order |
| MimeBody.BodyBuffers.Visit | src/main.js:75-81 | a text or HTML part with data is a leaf and is not descended into; another part with `parts` is traversed; anything else adds nothing |
| MimeBody.LeavesAppend | src/main.js:74 | the leaves of consecutive siblings are the concatenation of their leaves (child order) |
| MimeBody.TextAppend | src/main.js:76-78 | the buffer contents of consecutive leaves concatenate |
| MimeBody.Leaves | src/main.js:73-83 | every leaf `traverse` collects from a forest has non-empty data and carries what `decodeUrlSafeBase64` gives for that data |
| MimeBody.PartLeaves | src/main.js:75-81 | the same for the leaves under one part |
| MimeBody.RootLeaves | src/main.js:85-93 | the same for the payload; without `parts` there is one leaf exactly when the root has data, and it is HTML exactly when the type is `text/html` |
| MimeBody.BodyHtml | src/main.js:69-101 | `extractBodyData` throws exactly when the data of some collected leaf does not decode |
| MimeBody.RootDataIgnoredWithParts | src/main.js:85-87 | when the payload has `parts`, its own body data does not affect the result |
| MimeBody.EmptyPartsGiveSnippet | src/main.js:85-100 | an empty `parts` array yields the snippet, or `''` without one |
| MimeBody.NoPartsNoDataGiveSnippet | src/main.js:85-100 | a payload with neither `parts` nor body data yields the snippet, or `''` without one |
| MimeBody.SinglePartRouting | src/main.js:88-93 | without `parts`, the root data is HTML exactly when the type is `text/html`, and text for every other type |
| MimeBody.PlainOnlyIsPre | src/main.js:95-98 | a message with only non-empty plain text becomes `<pre>` + text + `</pre>` |
| MimeBody.ComposeHtml | src/main.js:95-100 | HTML wins if non-empty, else the `<pre>`-wrapped text, else the snippet, else `''`; the result is empty exactly when HTML, text and snippet are all empty |
| MimeBody.ExtractBodyData | src/main.js:69-101 | the method's result is `BodyHtml(payload)`: the composed HTML of the decoded leaves, or the decode error |
| Headers.FirstNamed | src/main.js:105 | `find` gives the first index whose name is exactly the query, and None only when there is none |
| Headers.GetHeader | src/main.js:103-107 | `''` when headers are absent or no name matches; otherwise the value of the first exact (case-sensitive) match |
| Headers.GetHeaderFirstWins | src/main.js:105-106 | headers before the first match and all after it do not affect the result |
| Headers.CaseSensitive | src/main.js:105 | a header named in another case is not found: `subject` does not answer a lookup of `Subject` (the general rule is `GetHeader`'s contract that a list with no exact match gives `''`) |
| MessageSelection.FilterUnread | src/main.js:185 | the kept details are exactly the present details whose labels include `UNREAD` |
| MessageSelection.FilterUnreadCounts | src/main.js:185 | each unread detail is kept as many times as it occurs, every other one zero times |
| MessageSelection.SortByInternalDate | src/main.js:188-190 | after sorting in place, the array is ascending by `internalDate` and a permutation of the original |
| MessageSelection.InsertNext | src/main.js:188-190 | one insertion step extends the sorted prefix by one, keeps the multiset and leaves the elements after the step's position in place |
| MessageSelection.Swap | src/main.js:188-190 | exchanging two elements changes only those two positions and keeps the multiset |
| MessageSelection.SelectUnread | src/main.js:185-190 | the selection is sorted ascending, is a permutation of the filtered details, and holds exactly the present unread details |
| Text.Trim | src/gas-proxy.js:88 | `trim` removes the leading and trailing JavaScript white space and nothing else, leaving no space at either end |
| Text.FindCIFirst | src/gas-proxy.js:87 | the case-insensitive search returns the first occurrence, and None only when there is none |
| Text.FindCharFirst | src/gas-proxy.js:94 | the character search returns the first occurrence, and None only when there is none |
| TagPattern.Hi | src/gas-proxy.js:87 | `[^>]*` runs at most to the first `>` |
| TagPattern.HiFirst | src/gas-proxy.js:87 | no `>` lies before that bound |
| TagPattern.AttrEndMeaning | src/gas-proxy.js:94-96 | a literal attribute passes exactly where it occurs; `class="…WORD…"` passes exactly when the word lies before the first quote after `class="`, and ends after that quote |
| TagPattern.AttrEnd | src/gas-proxy.js:94-96 | where a passing attribute test leaves off lies between its start and the end of the text |
| TagPattern.TryAt | src/gas-proxy.js:94-97 | with the first `[^>]*` ending at a split, an outcome keeps the start and the split, and its capture lies after the split and before the closing tag's end |
| TagPattern.SplitDown | src/gas-proxy.js:94 | the backtracking over the first `[^>]*` returns a split within its range that works |
| TagPattern.SplitDownGreatest | src/gas-proxy.js:94 | the returned split is the longest that works, and there is none when it returns none |
| TagPattern.MatchAt | src/gas-proxy.js:94-97 | a match at a position opens with `<TAG` there and uses the longest working split |
| TagPattern.FirstAtLeast | src/gas-proxy.js:87 | the scan for a start returns the first position that works, and none only when no position does |
| TagPattern.FirstAtIs | src/gas-proxy.js:87 | the scan for a start returns the first position that works |
| TagPattern.MatchFromIs | src/gas-proxy.js:87 | the reported match is the one at the first position where the pattern matches |
| TagPattern.MatchFrom | src/gas-proxy.js:87 | the reported match starts at or after the scan's start and is the match at that position |
| TagPattern.MatchFromLeftmost | src/gas-proxy.js:87 | no position before the reported start has a match, and no position has one when nothing is reported |
| TagPattern.MatchAtShape | src/gas-proxy.js:94-97 | a match at a position opens with `<TAG` there, its attribute test passes at the split, its capture starts after the first `>` following the test and ends at the nearest closing tag, which the capture does not hold |
| TagPattern.TryAtNoAttr | src/gas-proxy.js:114-117 | without an attribute test, a split at a `>` gives the match whose capture runs to the first closing tag after it |
| TagPattern.MatchAtNoAttr | src/gas-proxy.js:114-117 | without an attribute test, the match at a `<TAG` ends its opening tag at the first `>` and its capture at the first closing tag after that |
| TagPattern.MatchShape | src/gas-proxy.js:94-97 | the reported match has that shape, so its capture holds no closing tag of the same name |
| TagPattern.LongerTagNameOpens | src/gas-proxy.js:94 | `<divider` passes the opening test of `<div` |
| TagPattern.ClassInsideDataClass | src/gas-proxy.js:94 | `data-class="` passes the `class="` test |
| Sanitizer.RemoveAll | src/gas-proxy.js:114-117 | a removal pass never lengthens the text, and shortens it exactly when the pattern matches |
| Sanitizer.RemoveAllStep | src/gas-proxy.js:114-117 | the leftmost match is deleted, the text before it is kept, and the pass goes on after the match |
| Sanitizer.RemoveElement | src/gas-proxy.js:114-117 | the first `<script` (resp. `<style`, `<iframe`, `<button`) element, from its tag to the first closing tag after its first `>`, is deleted and the text before it is kept |
| Sanitizer.RemoveAllWithoutOpenTag | src/gas-proxy.js:114-117 | text without `<script` (resp. `<style`, `<iframe`, `<button`), in any case, is unchanged |
| Sanitizer.RemoveAllChanges | src/gas-proxy.js:114-117 | a removal pass changes its input exactly when the pattern matches somewhere |
| Sanitizer.SrcAt | src/gas-proxy.js:120 | a source match needs case-sensitive `src="/` and a closing quote at least one character further |
| Sanitizer.SrcAtMeaning | src/gas-proxy.js:120 | the matched path is non-empty and free of quotes |
| Sanitizer.SrcAtIs | src/gas-proxy.js:120 | `src="/` followed by a non-empty quote-free value and a quote is matched, up to that quote |
| Sanitizer.EmptySrcNotMatched | src/gas-proxy.js:120 | `src="/"` is not rewritten |
| Sanitizer.SrcFrom | src/gas-proxy.js:120 | the rewrite finds the leftmost source match |
| Sanitizer.SrcFromIs | src/gas-proxy.js:120 | the rewrite's search settles on the first source match |
| Sanitizer.RewriteSrc | src/gas-proxy.js:120 | text with no match is unchanged, and any rewrite lengthens it |
| Sanitizer.RewriteSrcStep | src/gas-proxy.js:120 | the first `src="/X"` becomes `src="https://www.bloomberg.com/X"`, the text before it is kept, and the pass goes on after its quote |
| Sanitizer.DataSrcMatches | src/gas-proxy.js:120 | a `data-src="/` holds an occurrence of `src="/` five characters in |
| Sanitizer.ProtocolRelativeMatches | src/gas-proxy.js:120 | the first source `src="//host/x"` is matched and becomes `src="https://www.bloomberg.com//host/x"` |
| Sanitizer.ReplaceAllCI | src/gas-proxy.js:122-123 | text without the literal is unchanged |
| Sanitizer.ReplaceAllCIStep | src/gas-proxy.js:122-123 | the first occurrence of the literal, in any case, becomes the replacement, the text before it is kept, and the pass goes on after it |
| Sanitizer.ReplaceAllCIKeeps | src/gas-proxy.js:122-123 | text with no occurrence of the literal, in any case, is kept as it is |
| Sanitizer.NoAnchorOpenWithoutSpace | src/gas-proxy.js:122 | where no `<a` is followed by a space (a trailing `<a` allowed), `<a ` occurs nowhere, in any case |
| Sanitizer.AnchorWithoutSpaceKept | src/gas-proxy.js:122 | text in which every `<a` or `<A` is followed by something other than a space, or ends the text, passes the first anchor pass unchanged |
| Sanitizer.NoAnchorCloseWithoutGt | src/gas-proxy.js:123 | where no `</a` is followed by `>` (a trailing `</a` allowed), `</a>` occurs nowhere, in any case |
| Sanitizer.AnchorCloseWithoutGtKept | src/gas-proxy.js:123 | text in which every `</a` or `</A` is followed by something other than `>`, or ends the text, passes the second anchor pass unchanged |
| Sanitizer.ReplaceAllLeavesNone | src/gas-proxy.js:122-123 | after a literal replace, neither the literal nor any absent `<`-led text is present, given replacements of this shape |
| Sanitizer.NoAnchorOpenLeft | src/gas-proxy.js:122 | no `<a ` in any case remains after the first anchor pass |
| Sanitizer.AnchorCloseKeepsNoOpen | src/gas-proxy.js:122-123 | the second anchor pass removes every `</a>` and brings back no `<a ` |
| ArticleExtractor.StripTags | src/gas-proxy.js:88 | stripping tags never lengthens the text |
| ArticleExtractor.StripTagsKeepsPlain | src/gas-proxy.js:88 | text without a `<…>` span is kept as it is |
| ArticleExtractor.StripTagsSpan | src/gas-proxy.js:88 | the first `<` up to the first `>` after it is deleted, the text before it is kept, and stripping goes on after the `>` |
| ArticleExtractor.StripTagsConcat | src/gas-proxy.js:88 | stripping `a<t>b`, with no `<` in `a` and no `>` in `t`, gives `a` followed by the stripped `b` |
| ArticleExtractor.StripTagsLeavesNoSpan | src/gas-proxy.js:88 | after stripping, no `<` is followed anywhere by a `>` |
| ArticleExtractor.FirstCapture | src/gas-proxy.js:87 | there is a capture exactly when the pattern matches |
| ArticleExtractor.TitleText | src/gas-proxy.js:88 | a heading's text is its content stripped of `<…>` spans and then trimmed; it holds no `<…>` span and no white space at either end |
| ArticleExtractor.Title | src/gas-proxy.js:86-88 | `''` without an `<h1` match; otherwise the first heading's capture stripped and trimmed, with no `<…>` span and no white space at either end |
| ArticleExtractor.Captures | src/gas-proxy.js:93-103 | one capture per body pattern, in the listed order |
| ArticleExtractor.ChooseBody | src/gas-proxy.js:100-107 | the chosen body is the initial body or one of the captures |
| ArticleExtractor.ChooseStep | src/gas-proxy.js:100-106 | one round of the loop: no match keeps the body, a match over 500 characters ends the loop with it, a shorter one replaces the body and the loop goes on |
| ArticleExtractor.ChooseFirstLong | src/gas-proxy.js:100-106 | the first capture longer than 500 characters becomes the body, and no later pattern matters |
| ArticleExtractor.ChooseLastMatch | src/gas-proxy.js:100-107 | with no capture over 500, the capture of the last matching pattern is the body, even if shorter or empty |
| ArticleExtractor.ChooseNoMatch | src/gas-proxy.js:91-107 | with no match at all, the body stays `''` |
| ArticleExtractor.SelectBody | src/gas-proxy.js:91-107 | the loop with its `break` computes the chosen body |
| ArticleExtractor.WithPlaceholder | src/gas-proxy.js:109-111 | the placeholder is used exactly when the selected body is `''` |
| ArticleExtractor.ExtractBloombergContent | src/gas-proxy.js:85-126 | returns the title and the cleaned, possibly placeholder, body |
| ArticleExtractor.Clean | src/gas-proxy.js:114-123 | the cleaned body holds neither `<a ` nor `</a>`, in any case |
| ArticleExtractor.PlaceholderShape | src/gas-proxy.js:110 | each `<` of the placeholder starts `<p` or `</p` |
| ArticleExtractor.PlaceholderLacks | src/gas-proxy.js:110 | the placeholder holds no text that starts with `<` followed by neither `p` nor `/p`, in any case |
| ArticleExtractor.PlaceholderSurvivesClean | src/gas-proxy.js:109-123 | the placeholder passes through the whole clean-up unchanged |

## Left out

- I/O and the rest of the app are not part of this model:
  - `console.warn` (src/main.js:62);
  - the Gmail API, OAuth and storage (src/gmail.js), translation (src/translate.js), the cookie bridge;
  - the request plumbing of the proxy;
  - the DOM rendering and the async orchestration of `loadEmails`.
- ArticleExtractor.ChooseFirstLong: the 500-character gate counts Unicode scalar values. JavaScript
  counts UTF-16 code units, so a capture with characters outside the Basic Multilingual Plane is
  shorter here than in the browser.
- MessageSelection.SortByInternalDate: `internalDate` is an already-parsed integer. The `parseInt` of a
  non-numeric string and the resulting NaN comparisons are not modelled.
- MessageSelection.SortByInternalDate: the order among equal dates is not stated. The engine's
  `Array.prototype.sort` is stable, and the insertion sort is too, but no contract says so.
- MimeBody.BodyBuffers.Traverse: on failure the contract says nothing about the buffers. The exception
  discards them in the code.
- Headers.GetHeader: a header entry without a string `value` is not modelled.
- Parts, data and MIME types are assumed to be strings or arrays as Gmail sends them. Other JavaScript
  values and their truthiness are not modelled.
- The `escape` + `decodeURIComponent` pair is modelled by what it computes on a byte string: strict
  UTF-8 decoding. The two functions are not modelled one by one.
- Only the fixed patterns of the code are modelled, by a scanner each. There is no general regular
  expression engine.

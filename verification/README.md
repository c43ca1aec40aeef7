# A verified model of a small TLS HTTP server's request pipeline

The server accepts a TLS connection, reads one HTTP request from it, parses
the request into a field map, routes it, and writes back one response with
`Connection: close`. This project models that pipeline in Dafny, one module
per stage:

- `Text`: the `std::string` and `std::istringstream` operations the code
  relies on. These are `find`, `getline`, `>>`, and trimming with
  `find_first_not_of` / `find_last_not_of`.
- `Numbers`: `std::to_string`, `std::stoul` and `std::stoi` in base 10,
  including the exceptions they throw.
- `Mime`: both copies of `get_mime_type` (utils.cpp over its own
  `ends_with`, server.cpp over `std::string::ends_with`) and the extension
  table they share.
- `Framing`: `ssl_read_request`. The peer is a sequence of TLS records.
  This part covers the header loop, the `Content-Length` scan and the body
  loop, as written and as intended (see Findings).
- `RequestParser`: server.cpp `parse_request`, the parser the server runs.
- `VariantParser`: utils.cpp `parse_request`, the second parser of the
  repository. Its header termination, value trimming and body handling
  differ from the server's parser.
- `Responses`: the five-line response head and body. It includes an
  independent reader of that layout, used to state what the bytes on the
  wire mean.
- `Router`: the route table, `handle_root`, `handle_about`, `handle_post`
  and `generate_response`. The file system is a map from paths to entries.
- `Connection`: `handle_client`, from handshake result to reply or crash,
  as written and, for comparison, with the corrected body loop.
- `RequestExamples`, `ServerExamples`: the cases of the repository's test
  suite, and an end-to-end exchange.

Behaviours of the code worth noting, all modelled as written:

- A peer that closes before sending the header terminator still has its
  bytes parsed and answered. The request only counts as empty when nothing
  at all arrived (`Framing.NoTerminatorReadsAll`,
  `Connection.EmptyStreamReadsNothing`).
- Exceptions are not contained per connection. A `std::stoul` failure on
  the declared length escapes `handle_client`; the model shows this as the
  outcome `Crashed` (`ServerExamples.BadLengthCrashes`). An `at` on a
  missing field would escape the same way, but it cannot happen in the
  server: `parse_request` always stores method, path and body for a
  non-empty request (`Connection.HandleClientReplies`).
- The file name handed to the operating system ends at the first NUL, while
  the content type is taken from the whole path (`Router.OsPath`,
  `Router.NulSplitsNameAndType`).
- utils.cpp's `stream.read` on a stream that has failed reads nothing, so
  the padded body of the variant parser is then all spaces
  (`VariantParser.Pad`).
- `std::stoul` and `std::stoi` read base 10, so `strtoul`'s `0x` prefix does
  not arise; signs and leading whitespace are modelled.
- The body stored by the parser stops at the first NUL character, because
  it is read with `getline(…, '\0')`.
- The running body count starts at zero after the header loop. Body bytes
  that arrived with the headers are therefore not counted; see Findings.

## Model

| member | source | states |
|---|---|---|
| Text.Find | server.cpp:129-131 | `find` gives the first index at or after the start where the pattern occurs, and none when it occurs nowhere after it |
| Text.SplitAt | server.cpp:182 | `getline` with a delimiter yields the text before the first delimiter and consumes the delimiter; with no delimiter it yields the whole text and leaves nothing |
| Text.GetLine | server.cpp:157 | `getline` fails only on an exhausted stream; otherwise the line holds no newline and the line, newline and rest make up the input |
| Text.TrimLeft | server.cpp:174 | erasing up to `find_first_not_of` removes exactly the maximal leading run of the given characters |
| Text.TrimRight | server.cpp:175 | erasing after `find_last_not_of` removes exactly the maximal trailing run, including the all-blank case where `npos + 1` wraps to 0 |
| Text.ReadWord | server.cpp:159-161 | `>>` skips whitespace and takes a maximal non-whitespace run; the word is empty only when nothing but whitespace was left |
| Text.ReadWordOf | server.cpp:159-161 | `>>` on whitespace, a word and a whitespace-led rest yields exactly that word and that rest |
| Numbers.ToDecimal | server.cpp:213 | `to_string` yields a non-empty digit string that denotes the number, with no leading zero |
| Numbers.Stoul | server.cpp:133 | `stoul` fails with invalid_argument when there are no digits, stays within 64 bits, and reads a plain digit string as its value |
| Numbers.Stoi | utils.cpp:58 | `stoi` fails with invalid_argument when there are no digits, stays within `int`, and reads a plain digit string as its value |
| Numbers.StoulReadsDigits | server.cpp:133 | leading whitespace, digits, then a non-digit: `stoul` returns the number the digits denote |
| Numbers.StoulReadsDecimal | server.cpp:133 | `stoul` reads back what `to_string` wrote |
| Numbers.StoiReadsDecimal | utils.cpp:58 | `stoi` reads back what `to_string` wrote, e.g. with a trailing `'\r'` |
| Mime.EndsWithIffConcat | utils.cpp:7-13 | `ends_with(s, x)` holds iff `s` is some text followed by `x`, and fails when `x` is longer than `s` |
| Mime.EndsWithEdgeCases | utils.cpp:7-13 | every string ends with itself and with the empty string |
| Mime.EndsWithAgree | utils.cpp:7-13 | the hand-written `ends_with` and `std::string::ends_with` agree on all inputs |
| Mime.EndsWithLast | utils.cpp:9 | a string ending with a non-empty suffix has that suffix's last character last |
| Mime.EndsWithExamples | tests/test_ends_with.cpp:7-16 | the eight suffix checks of the test suite, positive and negative |
| Mime.GetMimeType | utils.cpp:15-32 | the lookup always yields one of the eight known content types |
| Mime.MimeCopiesAgree | server.cpp:189-206 | the server.cpp copy of `get_mime_type` returns the same type as the utils.cpp copy for every path |
| Mime.ExtensionsExclusive | utils.cpp:15-32 | no path ends with two different listed extensions, so the order of the tests cannot matter |
| Mime.MimeOfExtension | utils.cpp:15-32 | a path ending with a listed extension gets that extension's type from the table |
| Mime.MimeOfName | utils.cpp:15-32 | any stem followed by a listed extension gets that extension's type |
| Mime.ListedTypesNotDefault | utils.cpp:16-29 | no listed extension maps to `application/octet-stream` |
| Mime.UnlistedIsDefault | utils.cpp:30-31 | a path ending with no listed extension gets `application/octet-stream` |
| Mime.OctetStreamIffUnlisted | utils.cpp:15-32 | the default type is returned exactly when no listed extension matches |
| Mime.EndsWithTail | utils.cpp:7-13 | whether a text ends with a suffix depends only on its last characters |
| Mime.MimeDependsOnTail | utils.cpp:15-32 | the type depends only on the last five characters of the path |
| Mime.UnlistedByLastChar | utils.cpp:15-32 | a path whose last character ends no extension gets the default type, case-sensitively |
| Mime.MimeIndexHtml | tests/test_get_mime_type.cpp:7 | `index.html` is `text/html` |
| Mime.MimeStyleCss | tests/test_get_mime_type.cpp:8 | `style.css` is `text/css` |
| Mime.MimeScriptJs | tests/test_get_mime_type.cpp:9 | `script.js` is `application/javascript` |
| Mime.MimeDataJson | tests/test_get_mime_type.cpp:10 | `data.json` is `application/json` and not caught by the `.js` test |
| Mime.MimeImagePng | tests/test_get_mime_type.cpp:11 | `image.png` is `image/png` |
| Mime.MimePhotoJpg | tests/test_get_mime_type.cpp:12 | `photo.jpg` is `image/jpeg` |
| Mime.MimeGraphicGif | tests/test_get_mime_type.cpp:13 | `graphic.gif` is `image/gif` |
| Mime.MimeTwoDotsHtml | utils.cpp:16 | `a.b.html` is `text/html`: only the final suffix counts |
| Mime.MimeTextExamples | tests/test_get_mime_type.cpp:6-10 | the text and script mappings of the known-extension test |
| Mime.MimeImageExamples | tests/test_get_mime_type.cpp:11-13 | the image mappings of the known-extension test |
| Mime.MimeUnknownExamples | tests/test_get_mime_type.cpp:16-21 | the unknown-extension cases of the test suite, plus upper-case `INDEX.HTML`, all get the default |
| Framing.SslRead | server.cpp:120 | one `SSL_read` returns at most the requested count, loses and reorders nothing, and returns nothing only when the peer has nothing left |
| Framing.ReadHeaders | server.cpp:119-125 | the header loop keeps every byte read in order and stops only once the text holds CRLFCRLF or the peer has nothing left |
| Framing.FirstTerminatorInLastChunk | server.cpp:122 | when a read completes the terminator, its first occurrence ends inside that read |
| Framing.HeadersStopAtTerminator | server.cpp:119-125 | less than one buffer (2048 bytes) is read past the end of the header section |
| Framing.NoTerminatorReadsAll | server.cpp:119-125 | with no terminator anywhere, the loop reads everything the peer sends and keeps it |
| Framing.SplitTerminatorFound | server.cpp:121-122 | a terminator split across two reads is still found, because the whole accumulated text is searched |
| Framing.OneRecordHeaders | server.cpp:120-124 | a header section arriving in one read ends the loop after that read |
| Framing.ReadBody | server.cpp:138-144 | the body loop appends exactly the next `min(missing, available)` bytes of the stream, never more than requested |
| Framing.BodyFromOneRecord | server.cpp:139-144 | with enough bytes waiting, the body loop takes exactly the declared number |
| Framing.LabelBeforeLineEnd | server.cpp:131-132 | the CRLF found after the label cannot start inside the label, so the length `end_of_line - pos - 15` does not underflow |
| Framing.LengthText | server.cpp:128-132 | there is a length text iff the received text contains `Content-Length:`; with no CRLF after the first label it is all the rest of the text, as `substr` with a wrapped count gives |
| Framing.DeclaredLength | server.cpp:127-134 | the declared length is 0 without the label, is what `stoul` makes of the length text when the label is present, always fits in 64 bits, and is an error exactly when that conversion throws |
| Framing.EmptyLengthInvalid | server.cpp:129-133 | a first `Content-Length:` label directly followed by CRLF makes `stoul` throw invalid_argument |
| Framing.DeclaredLengthAt | server.cpp:131-132 | the converted text is what lies between the first label and the next CRLF |
| Framing.LengthTextAtLine | server.cpp:129-132 | on a first `Content-Length: <digits>` line, the converted text is the space and the digits |
| Framing.DeclaredLengthAtLine | server.cpp:127-134 | a first `Content-Length: <digits>` line declares the number the digits denote |
| Framing.DeclaredLengthOf | server.cpp:127-134 | a rendered `Content-Length: n` line after label-free text declares `n` |
| Framing.BodyStart | server.cpp:122 | the body begins right after the first terminator, or at the end of the text when there is none |
| Framing.BodyLoop | server.cpp:136-145 | the body phase extends the header text by a prefix of the remaining stream, as long as what is still missing allows |
| Framing.WrittenBody | server.cpp:136-145 | as written, the loop asks for all `n` declared bytes again, so it overshoots the body end when body bytes came with the headers |
| Framing.ReadRequest | server.cpp:114-148 | the request read is a prefix of the stream and fails iff the length conversion fails; it runs past the declared body when body bytes came with the headers and more follow |
| Framing.BodyBytesNotDeducted | server.cpp:136-145 | a request arriving whole in one record is extended by as many bytes of the next record as its body has |
| Framing.IntendedBody | server.cpp:136-145 | when the body bytes already received are counted, the read stops exactly at the declared body end |
| Framing.ReadRequestIntended | server.cpp:114-148 | corrected reader: a prefix of the stream, fails iff the conversion fails, and is exactly header section plus declared body when the peer sends that much |
| Framing.ReadersAgreeWithoutBody | server.cpp:127-145 | with no declared body, both readers return exactly the header loop's bytes |
| Framing.IntendedStopsAtBody | server.cpp:136-145 | with the correction, a request arriving whole in one record is returned as is |
| RequestParser.ReadWordTakesFirstWord | server.cpp:159-161 | one `>>` extraction consumes exactly the first whitespace-separated word |
| RequestParser.RequestLineWords | server.cpp:157-162 | method, path and version are the first three words of the request line, each empty when missing |
| RequestParser.RequestLineOf | server.cpp:158-161 | a line of three space-separated words with a trailing `'\r'` yields those words, the `'\r'` dropped |
| RequestParser.StripWitness | server.cpp:174-175 | trimming both ends leaves a value with only blanks before it and only blanks or line ends after it |
| RequestParser.ParseField | server.cpp:169-176 | a line is a field iff it contains `':'`; its name is the exact text before the first `':'` |
| RequestParser.ParseFieldMeaning | server.cpp:169-176 | the value is the text after the first `':'` with leading spaces and tabs and trailing blanks and line ends removed |
| RequestParser.FieldOf | server.cpp:169-176 | a `name:` line with blank-padded value yields that name and the unpadded value |
| RequestParser.Headers | server.cpp:164-178 | the header loop only adds or overwrites entries and never removes a field |
| RequestParser.Section | server.cpp:165-168 | the header section is the lines up to the first `"\r"` or empty line, none of them a terminator |
| RequestParser.HeadersStoreLastValue | server.cpp:164-178 | for every name, the stored value is that of the last field line of that name in the section, and untouched names keep the request-line value |
| RequestParser.WithBody | server.cpp:180-183 | the body entry is the unread text up to the first NUL, and every other entry is kept |
| RequestParser.ParseRequest | server.cpp:150-186 | there is always a `body` entry; a non-empty request also has `method`, `path` and `version` |
| RequestParser.ParseRequestFields | server.cpp:150-186 | every field of a parsed request: the body after the header section, and any other name holding its last header value, else its request-line value |
| RequestParser.ParseRequestOf | server.cpp:157 | the first `getline` splits the request at its first newline |
| RequestParser.HeaderStep | server.cpp:169-176 | a field line stores its field and the loop goes on |
| RequestParser.HeaderEnd | server.cpp:165 | the line `"\r"` ends the header loop, leaving the text after it unread |
| RequestParser.OneWordRequest | server.cpp:157-162 | a request of one word has that word as method and empty path, version and body |
| RequestParser.OneWordLine | server.cpp:157-161 | a one-word request is a single line whose request line is that word and two empty words |
| RequestParser.HeadersOfNothing | server.cpp:165 | the header loop on an exhausted stream stores nothing and leaves nothing |
| RequestParser.OnlyRequestLine | server.cpp:157-183 | a request line with nothing after it parses to its three words and an empty body |
| RequestParser.StoreHoldsLast | server.cpp:176 | a field not overwritten later keeps its value in the map |
| RequestParser.StoreKeeps | server.cpp:176 | names no field line mentions keep their earlier entry |
| RequestParser.HeaderLineStep | server.cpp:165-177 | a CRLF-ended `name: value` line stores `value` under `name` |
| RequestParser.HeadersOfFieldLines | server.cpp:164-178 | the header loop over client-written field lines stores the fields in order |
| RequestParser.RequestTextShape | server.cpp:157 | a client-written request's first line holds no newline |
| RequestParser.ParseRequestText | server.cpp:150-186 | parsing a client-written request recovers its body and, under every other name, what the request line and then the fields leave there |
| VariantParser.VariantField | utils.cpp:47-53 | a line is a field iff it contains `':'`; the value loses leading spaces and line ends only and keeps trailing ones |
| VariantParser.VariantHeaders | utils.cpp:45-54 | the variant's header loop only adds or overwrites entries and consumes text |
| VariantParser.VariantSection | utils.cpp:46 | the variant's header section is the lines before the first `"\r"` line, none of them that line; empty lines belong to it |
| VariantParser.VariantHeadersStoreLastValue | utils.cpp:45-54 | for every name, the variant stores the value of the last field line of that name in its section, leaves other names as they were, and stops reading after the `"\r"` line |
| VariantParser.Pad | utils.cpp:59-60 | the body has exactly the declared length, with unread positions left as spaces |
| VariantParser.VariantBody | utils.cpp:56-62 | no `Content-Length` entry means no body entry; otherwise the `stoi` failure, a negative length, or the padded body |
| VariantParser.ParseRequestVariant | utils.cpp:34-65 | an empty request yields an empty map; a successful non-empty one has method, path and version |
| VariantParser.WithCr | utils.cpp:51 | the variant keeps each field's trailing `'\r'` in the value |
| VariantParser.VariantFieldOfLine | utils.cpp:47-53 | a `name: value` line ending in `'\r'` is read as that name with value plus `'\r'` |
| VariantParser.FieldLineNoNewline | utils.cpp:46 | a client-written field line holds no newline |
| VariantParser.VariantLineStep | utils.cpp:46-53 | one field line stores its field with the `'\r'` kept |
| VariantParser.VariantHeadersOfFieldLines | utils.cpp:45-54 | the variant's loop over client-written field lines stores them in order, each value keeping `'\r'` |
| VariantParser.VariantHeaderEnd | utils.cpp:46 | the line `"\r"` ends the variant's header loop |
| VariantParser.EmptyLineEndsOnlyServerHeaders | utils.cpp:46 | an empty line ends the server's header loop but is skipped by the variant's |
| VariantParser.ParseVariantText | utils.cpp:34-65 | on a client-written request, the variant stores the fields with `'\r'` and runs the body step on the text after the blank line |
| RequestExamples.GetRequestExample | tests/test_parse_request.cpp:6-21 | the GET case: method, path, version, two headers, empty body |
| RequestExamples.PostRequestExample | tests/test_parse_request.cpp:23-43 | the POST case: all fields, and the 12-byte body kept although 13 are declared |
| RequestExamples.BadRequestExample | tests/test_parse_request.cpp:45-54 | the malformed case: method `BADREQUEST`, everything else empty |
| RequestExamples.GetStore | tests/test_parse_request.cpp:15-19 | the GET case's fields stored in order give the expected entries |
| RequestExamples.GetParsed | tests/test_parse_request.cpp:13 | the GET case parses to the stored fields under every name but `body` |
| RequestExamples.GetBody | tests/test_parse_request.cpp:20 | the GET case has an empty body |
| RequestExamples.PostStore | tests/test_parse_request.cpp:35-41 | the POST case's fields stored in order give the expected entries |
| RequestExamples.PostParsed | tests/test_parse_request.cpp:33 | the POST case parses to the stored fields under every name but `body` |
| RequestExamples.PostBody | tests/test_parse_request.cpp:42 | the POST case's body is `name=JohnDoe` |
| RequestExamples.HeaderOverridesMethod | server.cpp:159-176 | a header named `method` overwrites the request-line method, since both share one map |
| RequestExamples.VariantPostExample | utils.cpp:46-62 | the POST case through the variant: `Host` keeps `'\r'` and the body is padded to 13 bytes |
| RequestExamples.VariantPostStore | utils.cpp:51-52 | the variant stores `Host` and `Content-Length` of the POST case with `'\r'` |
| RequestExamples.DeclaredThirteen | utils.cpp:58 | `stoi` reads `13` despite the trailing `'\r'` |
| RequestExamples.PadExample | utils.cpp:59-60 | padding the 12 received bytes to 13 adds one space |
| RequestExamples.VariantGetExample | utils.cpp:56-62 | the GET case through the variant has no body entry at all |
| RequestExamples.VariantGetStore | utils.cpp:51-52 | the variant's GET map has no `Content-Length` or `body`, and `Connection` keeps `'\r'` |
| Responses.NextLine | server.cpp:236-240 | reading a CRLF-ended line from the response gives a line without `'\r'` and the rest |
| Responses.NextLinesOf | server.cpp:236-240 | the reader recovers the head lines the handlers write |
| Responses.After | server.cpp:237-238 | a header value is what follows its label, when the label is there |
| Responses.StatusOf | server.cpp:236 | only the two status lines the server writes are recognised |
| Responses.ParseSerialize | server.cpp:236-241 | the bytes of every response whose content type has no `'\r'` read back as that response |
| Responses.SerializeParse | server.cpp:236-241 | whatever the reader accepts is exactly the bytes of the response it returns |
| Responses.ReadHeadOf | server.cpp:236-240 | the reader accepts the five head lines the handlers write |
| Responses.ReadHeadHead | server.cpp:236-240 | head lines the reader accepts are the head of the response it returns |
| Responses.HeadNoCr | server.cpp:236-240 | no head line holds a stray `'\r'` when the content type has none |
| Responses.StatusLineNoLabel | server.cpp:236 | the status line holds no `Content-Length:` |
| Responses.SerializeLayout | server.cpp:236-241 | the response is the status line, then the `Content-Length` line, then the rest |
| Responses.ResponseDeclaresBodyLength | server.cpp:237 | the `Content-Length` the server writes is the exact body size, as its own length scan would read it |
| Responses.FixedPageLengths | server.cpp:210-213 | the 404 page declares 48 bytes and the about page 73 |
| Responses.EchoedData | server.cpp:268 | the echoed data is what lies between the fixed opening and closing of the POST page |
| Responses.PostResponse | server.cpp:265-276 | the POST page is a 200 HTML page carrying the data verbatim, 64 bytes longer than the data |
| Router.At | server.cpp:293-294 | `at` returns the entry when present and fails with out_of_range otherwise; the model records which key was missing |
| Router.OsPath | server.cpp:311-313 | the name the operating system sees is the path up to its first NUL, the whole path when it has none |
| Router.ServeFile | server.cpp:311-330 | 200 iff the name the operating system sees is an existing, non-directory, readable file; then the body is that file's bytes and the type is `get_mime_type` of the whole path; otherwise exactly the fixed 404 page |
| Router.HandleRoot | server.cpp:222-250 | `/` is served iff `index.html` under the web root is a readable file |
| Router.HandlePost | server.cpp:265-276 | the POST handler succeeds iff there is a `body` entry and echoes it |
| Router.GenerateResponse | server.cpp:292-334 | succeeds iff `method` and `path` are present and a POST has a body, with a known content type |
| Router.GenerateAnswers | server.cpp:292-334 | the response follows the routing rules: POST echo, then `/about`, then target file or 404 |
| Router.PostIgnoresPath | server.cpp:296-299 | a POST gets the same response whatever its path and whatever the file system holds |
| Router.RootIsIndex | server.cpp:285-287 | requesting `/` and `/index.html` give the same response |
| Router.NulSplitsNameAndType | server.cpp:306-317 | a non-POST path `name` NUL `tail` serves the readable file `name` under the web root, typed by `get_mime_type` of the whole path |
| Router.NulPngExample | server.cpp:311-317 | `/index.html` NUL `.png` names `index.html` for the operating system and is typed `image/png`, so the page goes out as an image |
| Router.OsPathAt | server.cpp:311-313 | a NUL-free name followed by NUL is seen by the operating system as that name |
| Router.DotDotServed | server.cpp:306-311 | a path starting `/..` is served from above the web root when the file is readable |
| Router.ContentTypesNoCr | server.cpp:238 | no content type the server sends can break its header line |
| Router.GeneratedReadsBack | server.cpp:292-334 | every generated response reads back from its bytes |
| Connection.Respond | server.cpp:347-361 | closed iff the read request is empty, crashed iff the length conversion failed (with that error), and any reply is a well-formed response |
| Connection.HandleClient | server.cpp:337-374 | with `ssl_read_request` as written: closed without reply iff the handshake failed or nothing arrived; a crash comes from a bad declared length; a reply is a well-formed response |
| Connection.HandleClientIntended | server.cpp:337-374 | the same promises for the handler reading with the corrected body loop |
| Connection.HeadersNonEmpty | server.cpp:119-125 | the header loop reads something iff the peer sent something, and finds no declared length in nothing |
| Connection.EmptyStreamReadsNothing | server.cpp:345-352 | the request `ssl_read_request` returns is empty exactly when the peer sent nothing |
| Connection.IntendedEmptyStreamReadsNothing | server.cpp:345-352 | the same for the corrected reader |
| Connection.RepliesWithAnswer | server.cpp:354-361 | a reply is the serialized answer, under the routing rules, to the request `ssl_read_request` returned |
| Connection.HandleClientReplies | server.cpp:345-361 | a non-empty request that `ssl_read_request` returned is always answered, never crashed on `at` |
| Connection.PipelinesAgreeWithoutBody | server.cpp:337-374 | without a declared body, the server as written and the corrected one give the same outcome |
| ServerExamples.NoLabelWithoutC | server.cpp:129 | text without a `C` holds no `Content-Length:` |
| ServerExamples.AboutRequestShape | server.cpp:119-125 | the sample request fits in one buffer and holds the terminator |
| ServerExamples.AboutRequestNoC | server.cpp:129 | the sample request contains no `C` |
| ServerExamples.AboutRequestRead | server.cpp:114-148 | a `GET /about` arriving in one record is read exactly by `ssl_read_request` as written, declares no body, and is read alike by the corrected reader |
| ServerExamples.AboutPartsPlain | server.cpp:157-176 | the sample request's parts are plain words and fields |
| ServerExamples.AboutStore | server.cpp:159-160 | the sample's request line stores `GET` and `/about` |
| ServerExamples.AboutParsed | server.cpp:150-186 | the sample parses to its stored fields under every name but `body` |
| ServerExamples.AboutRequestParsed | server.cpp:150-186 | the sample parses to method `GET` and path `/about` |
| ServerExamples.BadLengthShape | server.cpp:119-125 | the sample request with an empty `Content-Length:` fits one buffer and holds the terminator |
| ServerExamples.BadLengthDeclared | server.cpp:127-134 | its declared length is the invalid_argument error |
| ServerExamples.BadLengthCrashes | server.cpp:337-345 | the server as written gets no reply out for it: the `stoul` exception escapes `handle_client` |
| ServerExamples.AboutExchange | server.cpp:337-374 | end to end, the server as written answers `GET /about` with the fixed about page whatever the file system holds, and so does the corrected one |

## Findings

| source | as written | input that shows it | evidently intended | confidence | as-written member | corrected member |
|---|---|---|---|---|---|---|
| server.cpp:136-145 | the body loop starts `total_bytes_read` at 0. Body bytes that arrived in the same reads as the headers are ignored, so it asks for the full `Content-Length` again | a POST whose headers and 12-byte body arrive in one TLS record with `Content-Length: 12`: the server waits for 12 more bytes. It appends them if the client sends more; otherwise it blocks until the client closes | stop once the bytes after CRLFCRLF reach the declared length | high; not executed | Framing.BodyBytesNotDeducted | Framing.ReadRequestIntended |

`Framing.ReadRequest` keeps the loop as written. Its last postcondition
states the overshoot for every input where body bytes came with the headers
and the peer sends more. `Framing.ReadRequestIntended` counts the bytes
after the terminator (`Framing.BodyStart`), reads only the missing ones, and
proves that the request is exactly the header section plus the declared
body. `Framing.IntendedStopsAtBody` is the one-record case.
`Connection.HandleClient` is the server as written and reads with
`Framing.ReadRequest`. `Connection.HandleClientIntended` is the same
connection handler reading with the corrected reader. Without a declared
body, both readers return the same bytes (`Framing.ReadersAgreeWithoutBody`),
and so both handlers give the same outcome
(`Connection.PipelinesAgreeWithoutBody`).

## Left out

- The worker pool, the listener loop, `main`, configuration loading, and the
  log file with its mutex: concurrency and process set-up, outside the
  request pipeline.
- The TLS handshake and OpenSSL objects. `SSL_accept`'s outcome is the
  `accepted` parameter of `Connection.HandleClient`, and the peer's
  application data is a sequence of records. Record sizes, renegotiation
  and TLS error codes are not modelled; every read result `<= 0` is "no
  data".
- `SSL_write` and its failure, `SSL_shutdown`, `SSL_free` and `close`. A
  failed write is only logged and does not change what the server sent,
  so `Replied` carries the bytes the server writes.
- The access-log line written after the reply. Its `operator[]` can add
  `method`/`path` entries, but only after the response is built.
- The file system is a map from the names the operating system sees to
  entries. Symbolic links,
  permissions changing between `exists` and `open`, read errors part-way
  through, and `filesystem_error` exceptions are not modelled.
- Characters are Dafny `char`s standing for C++ `char`s (bytes). There is
  no signedness, no locale, and no encoding.
- Memory limits: the accumulated request and the padded variant body can
  be as large as the declared length, and allocation failure is not
  modelled.
- What an uncaught exception does to the process (`std::terminate` from a
  worker thread) is left out. The model stops at the `Crashed` outcome of
  the one connection.
- A peer that goes silent without closing. The records are a finite
  sequence that always ends with a close, whereas `SSL_read` has no timeout
  and would block forever; the Findings row's "blocks until the client
  closes" relies on this.
- Locale-specific digits in `std::stoul`/`std::stoi`: only the "C" locale
  is modelled.

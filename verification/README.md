# TTAC server: a model in Dafny

The server is a small C program: a thread per connection reads one HTTP request
through a refilling buffer (`stream.c`), splits it into request line, header,
body and form parameters (`http.c`, `string_util.c`), keeps key/value pairs in
a linked list (`list.c`) and answers from a MySQL database or from a location
list in memory (`ttac.c`). This project models those parts in Dafny, in the
form in which they are written (buffers as arrays, structs as classes, loops
as loops), and proves what they promise. It also covers the routines with
bodies in the bundled MySQL headers.

## Reading guide

- A `char` is one byte. `CString` is the text before a terminator; pointer
  arithmetic becomes slicing, so Dafny's bounds checks say that no read passes
  the terminator.
- `Fault`, `Underrun` and `ok == false` stand for every way in which the code
  leaves its defined behaviour on some input: a copy of negative length, a read
  outside a buffer, a NULL dereference, a loop that never moves. Methods that
  can get there say exactly when.
- `read()` is a list of non-empty chunks, followed by 0 for ever. Each parsing
  method is proved equal to a function of the bytes still to come
  (`LineOf`, `FormEntries`, `FormData`, `RequestOf`); round trips and exact
  conditions are lemmas about those functions. That the result is a function of
  the bytes is itself the independence from how `read()` cuts them.
- What the functions that methods are proved equal to mean is said apart from their
  bodies: in letters, digits and byte numbers (`LowerIs`, `ToHexIs`, `DecIs`,
  `LowByteFirst`), in the protocol's own words (`RequestCases`), segment by
  segment (`FormEntriesIs`), and as names and values (`EntriesRoundTrip`).
- Handlers of `ttac.c` that share tables are step machines, one step per SQL
  statement, with any number of requests in any interleaving.

| file | what it models |
|---|---|
| `CStrings.dfy` | strings and the helpers of string_util.c |
| `DictionaryLists.dfy` | the heap list of list.c |
| `ReadStreams.dfy`, `WriteStreams.dfy` | the two halves of stream.c, and the JSON lists |
| `UrlForms.dfy`, `Multipart.dfy`, `MultipartRoundTrip.dfy`, `FormDataFields.dfy`, `BodyDecomposition.dfy` | the form parsers of http.c |
| `Requests.dfy`, `RequestRoundTrip.dfy`, `RequestCases.dfy` | parse_request and response |
| `Locations.dfy`, `ChatSync.dfy`, `Groups.dfy`, `Progress.dfy` | shared state of ttac.c |
| `TrailingSpace.dfy`, `ByteOrder.dfy`, `Timespecs.dfy` | the MySQL headers |

## What holds only under a condition

The code is modelled as it is. Where a natural promise is false of it, the
exact condition is proved:

- `parse_parameter` comes through exactly when the last `&` of its input comes
  before the last `=` (or there is no `&`): the "not found" test at http.c:43
  works only when `idx` is 0. Every form that an encoder produces meets this.
- `parse_formdata` writes every file value one byte past its buffer: http.c:118
  asks for exactly the characters that http.c:119 prints, without the terminator
  (`FileOverflow`; `FileFaults` is one body). So as coded a body of parts comes
  through if and only if, for each part, the content is not empty and holds no
  NUL, every `name` or `filename` segment is long enough, some segment starts
  with `name`, and none sets a file name (`PartFieldIff`, `FormDataIff`). A body
  of unknown origin comes through if and only if it is empty, or starts with two
  dashes and has no delimiter, or can be taken apart into such parts; the two
  characters behind a delimiter and the two in front of one are never read, so
  they need not be line ends (`FormDataAcceptsIff`). The number added at http.c:118 is a parameter, `spare`, which is `SPARE`, 2, in
  the code. What is said of file values is a correction: it needs 3 or more.
- The value kept for a part is cut from all octets of its content but the last.
  It is the value of the whole content if and only if it is text that a decoded
  NUL has ended before that octet; a file value never is (`LostOctetIff`,
  `KeptValueIff`; `TextLosesOctet` is one body).
- A multipart request needs luck: the boundary buffer built at http.c:203-206
  is filled but for its last byte, so its terminator is whatever malloc left
  there. That byte is a parameter, `fill`. With a NUL there the parts come back
  (`PostPartsRoundTrip`); with any other byte, measuring the boundary reads past
  its buffer and every such request faults (`PostPartsUnterminated`). Were the
  read survived, a delimiter with stray bytes behind it would make a body that
  starts with two dashes give no parameter at all (`AbsentDelimiter`).
- A disposition line says what it means if and only if neither text holds a `;`,
  quoted or not, and the name does not start with `filename`, or is longer than
  that word and has a file name behind it (`DispositionIff`). A text with a `;`
  is cut there (`DispositionFields`; `SemicolonCuts` is one line).
- `get_line` reads before its buffer exactly when end of input, or a byte 0xFF
  that it takes for it, comes within the first two bytes (`UnderrunIff`). A line
  comes back if and only if it holds no CRLF, NUL or 0xFF (`LineRoundTripIff`).
- A request that is sent comes through if and only if its query, its content
  type and its body are accepted (`ComesThroughIff`): a GET needs no query or
  one that is safe in the sense above; a POST needs a content type, and then a
  safe form or a multipart body as above. `UnsafeQueryFaults`,
  `UntypedPostFaults` and `EmptyInputFaults` are inputs that fault.
- A response is read back whole if and only if the first content-length among
  the entries given, if there is one, tells the length of the body
  (`ResponseRoundTripIff`).
- A user gets two progress rows exactly when some post that saw no row is
  overtaken by another write for the same user (`OneRowIff`). The answer is the
  number of the user's last write if and only if that write was not overtaken
  so, or posted the number that was the answer already (`AnswerIff`); so it is
  whenever the posts of that user do not overlap (`AnswerWithoutOverlap`).
  `OverlapLosesUpdate` is a run with two rows and a stale answer.
- A chat client that polls from the largest id it holds misses nothing. From any
  other cursor it is left complete if and only if it held exactly the messages
  up to that cursor when the poll selected (`CursorServesIff`); from the `latest`
  answered to a send, if and only if it held exactly what the group had at that
  send's MAX read (`AdoptedLatestIff`). `AdoptingLatestSkips` is a run that
  skips a message, and a skipped message never comes (`SkippedForEver`).
- A location comes back intact exactly when its latitude has no `|`
  (`SplitRoundTripIff`; `BarMoves` is one that does not).
- Stores and loads of 3, 5 and 6 bytes keep a value exactly when it fits; a
  deadline is exact exactly when the sum fits.

The growth bound proved for the output stream is sharper than a multiple of
the final capacity: `2 * copied <= 5 * (capacity - 10)`.

## Model

| member | source | states |
|---|---|---|
| `CStrings.FindIdx` | string_util.c:10-15 | the first position of the character in the text, or -1 |
| `CStrings.FindStr` | string_util.c:16-25 | the position of the last character of the first match, or -1; an empty pattern gives 0 on a text and -1 on none |
| `CStrings.IndexFromFirst` | string_util.c:10-15 | nothing before the position found, or in the whole text if none is, is the character sought |
| `CStrings.FindFromFirst` | string_util.c:16-25 | nothing before the match found, or anywhere if none is, is a match |
| `CStrings.PrefixCmpZero` | string_util.c:27-34 | prefixcmp is 0 exactly when one text is a prefix of the other |
| `CStrings.ToHex` | string_util.c:37-52 | a value below 16 exactly for the characters isHex accepts, else -1 |
| `CStrings.ToHexIs` | string_util.c:37-52 | a character is a hexadecimal digit of a value exactly as the digits are listed, in either case |
| `CStrings.ToLower` | string_util.c:54-58 | lowers A to Z in place up to the terminator and changes nothing behind it |
| `CStrings.LowerIs` | string_util.c:54-58 | the codes 65 to 90 move up by 32, and every other byte stays |
| `CStrings.LowerOfSpelling` | string_util.c:54-58 | every spelling of a lower-case word is lowered to that word |
| `CStrings.AtoiOfDec` | http.c:184-184 | atoi undoes the decimal form of a length, whatever non-digit text follows |
| `CStrings.AtoiIs` | http.c:184-184 | a number is read behind blanks and a sign; without digits it is 0 |
| `CStrings.DecIs` | http.c:116-116 | a number is printed digit by digit, without leading zeros |
| `DictionaryLists.DicList.constructor` | http.c:157-160 | an empty list |
| `DictionaryLists.DicList.AddData` | list.c:8-18 | appends one pair; the chain stays acyclic, from head to tail, with NULL behind tail |
| `DictionaryLists.DicList.FindValue` | list.c:30-35 | the value of the first pair with the key, or NULL |
| `DictionaryLists.Lookup` | list.c:30-35 | NULL exactly when no pair has the key, else the value of the first one that has |
| `DictionaryLists.DicList.ClearList` | list.c:20-28 | ends, and frees every node of the chain exactly once, reading none after its free |
| `DictionaryLists.ReachableIsChain` | list.c:8-35 | the nodes reachable from head are the chain: every long enough walk stops with them in order |
| `ReadStreams.ReadStream.ReadFds` | stream.c:7-12 | refills the empty buffer without losing or reordering bytes; fails exactly at end of input |
| `ReadStreams.ReadStream.GetChar` | stream.c:14-21 | the next byte of the input, or the sentinel when there is none |
| `ReadStreams.ReadStream.constructor` | stream.c:25-31 | a reader of the bytes of the chunks, in order |
| `ReadStreams.FlattenIs` | stream.c:7-12 | the bytes of the chunks follow each other in order |
| `ReadStreams.ReadStream.ReadInto` | stream.c:51-55 | one turn: keeps room for the terminator through growth and stores the next byte |
| `ReadStreams.ReadStream.FillLine` | stream.c:45-57 | stops at the first delimiter or at end of input, with room for the terminator, having stored just the bytes read |
| `ReadStreams.FinishLine` | stream.c:58-64 | cuts the delimiter off; NULL for an empty line; reads before the buffer when fewer than two bytes came |
| `ReadStreams.ReadStream.GetLine` | stream.c:45-65 | the text before the first delimiter, consuming exactly through it, or everything to end of input |
| `ReadStreams.LineRoundTrip` | stream.c:45-65 | a line sent with CRLF comes back and the stream stops right behind it |
| `ReadStreams.LineRoundTripIff` | stream.c:45-65 | a line comes back if and only if it holds no CRLF, NUL or sentinel |
| `ReadStreams.LineAtEnd` | stream.c:56-64 | a line that end of input, or a byte 255, cuts off comes back whole, if it has two bytes |
| `ReadStreams.LineWithNul` | stream.c:58-64 | a NUL hides the rest of its line |
| `ReadStreams.UnderrunIff` | stream.c:58-58 | the read before the buffer happens exactly when end of input is seen within two bytes; so on an empty input |
| `ReadStreams.ReadStream.ReadSz` | stream.c:68-75 | the next bytes and a terminator, with sentinels where input has run out |
| `ReadStreams.Run` | stream.c:14-75 | any run of get_char, get_line and read_sz answers as the function of the bytes says |
| `ReadStreams.SameForEveryCut` | stream.c:7-75 | two cuts of the same bytes into chunks give the same answers to every run of calls |
| `WriteStreams.WriteStream.constructor` | stream.c:33-38 | an empty stream of capacity 10 |
| `WriteStreams.WriteStream.Reserve` | stream.c:80-83 | growth ends at the first size that is enough, growing by half each time; it keeps what is written, and the capacity and copying bounds |
| `WriteStreams.WriteStream.Write` | stream.c:78-87 | appends the text, followed by a terminator |
| `WriteStreams.GrowthKeepsBounds` | stream.c:81-81 | one growth is strict, leaves at most 3/2 of what is needed, and pays for its copying |
| `WriteStreams.CopyingIsLinear` | stream.c:78-87 | all copying is at most 15/4 of the bytes written |
| `WriteStreams.WriteRows` | ttac.c:316-332 | the flag loop produces `[`, the row objects joined by single commas, `]`, as the C string of the buffer |
| `WriteStreams.WriteRow` | ttac.c:322-329 | a comma before every row but the first |
| `WriteStreams.JoinedAppend` | ttac.c:698-711 | joining one row more adds a comma exactly when there was one before |
| `UrlForms.UrlDecode` | http.c:16-31 | the recursive decoding, cut at a decoded NUL, without a read behind the terminator |
| `UrlForms.DecodeLength` | http.c:16-31 | output length is input length minus two per escape consumed |
| `UrlForms.DecodeUnchangedIff` | http.c:21-27 | a text is unchanged exactly when it holds no complete escape |
| `UrlForms.DecodeConcatIff` | http.c:20-29 | decoding distributes over a cut exactly when the cut is not inside an escape |
| `UrlForms.EscapeDecodes` | http.c:21-23 | the two digits of any byte, behind a percent sign, are decoded to it, whatever follows |
| `UrlForms.DecodeOfEncoding` | http.c:16-31 | every encoder that escapes at least `%`, `&` and `=` is undone |
| `UrlForms.ParseParameter` | http.c:33-66 | appends the decoded pairs of the form in order, and comes through exactly on safe inputs |
| `UrlForms.ParseSegment` | http.c:40-64 | one segment: moves behind the next `&`, adds its pair if it has a `=`, faults exactly on a missing `=` past the start |
| `UrlForms.FormEntriesIs` | http.c:39-65 | a segment without `=` gives nothing, one with a `=` the decoded texts around the first, and the rest of the form what it gives on its own |
| `UrlForms.FormSafeIs` | http.c:41-48 | a form is safe when it has one segment only, or a `=` in the last one |
| `UrlForms.FormRoundTrip` | http.c:33-66 | every list of pairs, joined in any such encoding, is a safe input and comes back as that list |
| `Multipart.ScanSegment` | http.c:92-103 | what one `;`-segment sets, with the text behind `name=` looked at again for `filename` |
| `Multipart.ScanLine` | http.c:89-105 | what a header line sets, segment by segment |
| `Multipart.ScanHeaders` | http.c:83-108 | the fields of all header lines and the start of the content; faults where the loop would not move |
| `Multipart.FileOverflow` | http.c:118-119 | the value of every file is written one byte past the buffer asked for; with 3 for 2 it would fit |
| `Multipart.FormValue` | http.c:113-127 | decimal length, name and content with bars between them for a file, unless that overruns its buffer; the decoded content otherwise |
| `Multipart.CutPart` | http.c:80-130 | one part: fields, value slice and the position of the delimiter behind it; a fault on a negative length, a missing name or an overrun buffer |
| `Multipart.SkipDelimiter` | http.c:75-78 | whether the next delimiter closes the body, and where the part behind it starts |
| `Multipart.AddPart` | http.c:80-130 | one turn adds the entry of one part, or faults where the whole body does |
| `Multipart.ParseFormdata` | http.c:67-132 | appends one entry per part in order up to the closing delimiter; faults exactly where the specification does |
| `MultipartRoundTrip.FieldsInLine` | http.c:89-105 | a header line sets the same fields inside a body as on its own |
| `MultipartRoundTrip.PartHeadersRoundTrip` | http.c:83-108 | the header loop stops right behind the blank line, with the fields that the lines set |
| `MultipartRoundTrip.PartRoundTrip` | http.c:80-130 | a part between delimiters is found as its fields say, file values faulting when they overrun, and the delimiter behind it is reached |
| `MultipartRoundTrip.SentIsFramed` | http.c:109-109 | behind a content without the delimiter, the first delimiter is the one that was sent there |
| `MultipartRoundTrip.CutPartFaults` | http.c:84-110 | a NUL in a content ends the body that the parser sees, and the part faults |
| `MultipartRoundTrip.FormDataRoundTrip` | http.c:67-132 | a body of any parts, binary ones included, with preamble and epilogue, is parsed to exactly the fields of the parts, in order |
| `MultipartRoundTrip.AbsentDelimiter` | http.c:75-79 | what comes of a delimiter that the body does not hold |
| `FormDataFields.DispositionFields` | http.c:89-105 | a disposition line sets what its name sets, and then its file name, either cut at its first semicolon |
| `FormDataFields.DispositionIff` | http.c:90-105 | it sets just that name and file name if and only if neither holds a semicolon and the name does not start with `filename`, or is longer and a file name follows |
| `FormDataFields.SemicolonCuts` | http.c:90-97 | the line `k; name=a;b` sets the name `a` |
| `FormDataFields.NamedPart` | http.c:80-130 | a named part among lines about other things gives its name, file name and all octets but the last; it faults exactly without content, with a NUL in it, or for a file as coded |
| `FormDataFields.FieldsRoundTrip` | http.c:67-132 | a form of named fields sent as parts comes through exactly when each field does, and then field i is kept in place i, but for its last octet |
| `FormDataFields.EntriesRoundTrip` | http.c:67-132 | the list gets the names and values of a form: of a text what its content but the last octet encodes, or that itself without an escape in it; of a file its length, name and content |
| `FormDataFields.LineFieldsIff` | http.c:89-105 | a header line is scanned without a negative copy exactly when its segments have room, and sets key and file name exactly when a segment names them |
| `FormDataFields.PartFieldIff` | http.c:80-130 | a part comes through exactly under a condition on its text |
| `FormDataFields.FormDataIff` | http.c:67-132 | a body of parts comes through exactly when the text of each part meets that condition |
| `FormDataFields.TextLosesOctet` | http.c:109-112 | one concrete body with a text of two octets, of which one is kept |
| `FormDataFields.FileFaults` | http.c:114-119 | one concrete body with a file: a fault as coded, its field with 3 for 2 |
| `BodyDecomposition.PartsDecompose` | http.c:73-131 | behind a delimiter, whatever text the parser comes through is a sequence of parts and an epilogue |
| `BodyDecomposition.FormDataAcceptsIff` | http.c:67-132 | the parser comes through a body exactly when it is empty, or starts with two dashes and has no delimiter, or can be taken apart into parts that are kept |
| `BodyDecomposition.AnyWayTheSame` | http.c:67-132 | however it is taken apart, what is kept are the fields of the parts |
| `MultipartRoundTrip.PartFieldsEach` | http.c:67-132 | the parts are kept one by one: part i gives field i |
| `FormDataFields.LostOctetIff` | http.c:109-126 | decoding without the last octet gives the same value exactly when a decoded NUL ended it before |
| `FormDataFields.KeptValueIff` | http.c:109-127 | the kept value is that of the whole content exactly for such text; a file value, where its buffer holds it, has the name and all octets but the last |
| `FormDataFields.FileValueRoundTrip` | http.c:113-121 | reading the decimal length and then that many characters recovers file name and content, whatever bars they hold |
| `FormDataFields.FileValueInjective` | http.c:113-121 | two file values are equal only for equal names and contents |
| `Requests.SplitRequestLine` | http.c:141-155 | method, path and version around the first two blanks; a fault without them |
| `RequestCases.RequestLineIff` | http.c:141-155 | a line is a request line exactly when it has two blanks; method and path are the texts around the first two |
| `RequestCases.FirstLine` | http.c:140-142 | a blank first line faults |
| `Requests.ReadHead` | http.c:140-155 | the request line, read from the stream |
| `Requests.SplitHeaderLine` | http.c:166-178 | lowered key and the text two characters behind it; nothing without a `:` |
| `RequestCases.HeaderEntryIs` | http.c:166-178 | lowered key, any one character skipped, then the value; nothing without a `:` |
| `RequestCases.AnyContentLength` | http.c:173-182 | however content-length is spelled, its entry has the lower-case key |
| `Requests.ReadHeaders` | http.c:164-181 | all header entries in order up to the blank line |
| `RequestCases.HeaderLineByLine` | http.c:164-181 | every line is read on its own, with or without a `:`, up to a blank one |
| `RequestCases.TruncatedHeaderFaults` | http.c:164-181 | a header without a blank line behind it faults |
| `Requests.ReadBody` | http.c:182-186 | as many bytes as the first content-length says; NULL without one; a fault if negative |
| `RequestCases.BodyIs` | http.c:182-186 | NULL without a length, a fault for a negative one, else that many bytes, filled up with 255 |
| `RequestCases.AnyLengthHeader` | http.c:182-186 | with a length in any spelling the whole body comes back |
| `Requests.ReadParameters` | http.c:189-209 | query, url-encoded or multipart parameters, as method and content type say |
| `RequestCases.GetParameters` | http.c:189-194 | get or GET: nothing without a `?`, else the form behind the first |
| `RequestCases.PostParametersIs` | http.c:195-209 | post or POST: by type, form, parts or nothing; a prefix of a type counts as that type |
| `RequestCases.OtherParameters` | http.c:189-209 | other methods have no parameters |
| `Requests.ReadBoundary` | http.c:201-206 | two dashes and what follows the first `=` of the content type, in a buffer whose last byte is what malloc left there |
| `Requests.ParseMultipart` | http.c:67-72 | an empty body needs no boundary; for any other an unterminated boundary is a fault |
| `Requests.ParseRequest` | http.c:133-211 | request and stream position behind it are the function of the bytes, the byte behind the boundary and the size of file buffers; lists are valid |
| `RequestRoundTrip.HeadRoundTrip` | http.c:140-155 | a printed request line is split into its three parts |
| `RequestRoundTrip.HeadersRoundTrip` | http.c:164-181 | printed `key: value` lines come back in order with lowered keys |
| `RequestRoundTrip.RequestRoundTrip` | http.c:133-211 | a printed request comes back whole, with its announced body, and the stream stops right behind it |
| `RequestRoundTrip.ComesThroughIff` | http.c:133-211 | a printed request, with any body, comes through if and only if its query, content type and body are accepted |
| `RequestRoundTrip.UnsafeQueryFaults` | http.c:189-194 | a GET with the query `a&b` faults |
| `RequestRoundTrip.UntypedPostFaults` | http.c:195-197 | a POST without a content type faults |
| `RequestRoundTrip.EmptyInputFaults` | http.c:140-141 | an empty input faults, in the line reader |
| `RequestRoundTrip.GetRoundTrip` | http.c:189-194 | the query of a GET comes back as its pairs, however encoded |
| `RequestRoundTrip.PostFormRoundTrip` | http.c:195-199 | an url-encoded POST body comes back as its pairs |
| `RequestRoundTrip.PostPartsRoundTrip` | http.c:195-208 | with a NUL behind the boundary, a multipart POST body comes back as the fields of its parts, or faults exactly if one of them does |
| `RequestCases.PostFieldsRoundTrip` | http.c:195-208 | a form sent as parts in a POST comes back as its names and values |
| `RequestRoundTrip.PostPartsUnterminated` | http.c:203-207 | with any other byte there, every multipart POST of parts faults |
| `RequestRoundTrip.PrintHeader` | http.c:235-239 | every header entry goes out, in list order |
| `RequestRoundTrip.Response` | http.c:233-246 | status line, header, length, blank line and body |
| `RequestCases.ResponseExample` | http.c:233-246 | one response, byte by byte |
| `RequestRoundTrip.ResponseRoundTripIff` | http.c:233-246 | a printed response is read back by the server's own reader, with entries and whole body, exactly when a content-length among the entries tells the length |
| `Locations.PushLocation` | ttac.c:723-743 | replaces the user's value in place, or appends one |
| `Locations.PopLocation` | ttac.c:745-755 | the user's value, or NULL |
| `Locations.PushedKeys` | ttac.c:723-743 | keys stay unique and in the order of their first push |
| `Locations.PushedLookup` | ttac.c:723-755 | a push changes its own user's value and no other |
| `Locations.StoreRefinesMap` | ttac.c:720-755 | after any history: each user once, in first-push order, with the newest value |
| `Locations.SplitRoundTripIff` | ttac.c:798-808 | the split gives back latitude and longitude exactly when the latitude has no bar |
| `Locations.BarMoves` | ttac.c:798-808 | the latitude `1` bar `2` is split at its own bar |
| `Locations.GetLocation` | ttac.c:789-815 | zeros without a value, else the texts around its first bar |
| `Locations.AnswerAfter` | ttac.c:720-815 | after any history the answer is the newest pair, intact exactly when its latitude has no bar, or zeros; never a fault |
| `ChatSync.StepKeepsInv` | ttac.c:622-687 | every statement of every request keeps the invariant of table, senders and clients |
| `ChatSync.RunKeepsInv` | ttac.c:622-687 | so it holds in every state of every interleaving |
| `ChatSync.InsertsItsMessage` | ttac.c:638-641 | the table changes only by inserts, each of the very message that its request was begun with |
| `ChatSync.CanGoOn` | ttac.c:622-712 | no request waits for another |
| `ChatSync.AboveIsNew` | ttac.c:685-687 | the rows above the largest id held are exactly the ones that the client has not got |
| `ChatSync.AnsweredSender` | ttac.c:622-654 | `latest` is the largest id of the group at the read, or -1, below the sender's own id, and all messages up to it existed then |
| `ChatSync.SyncedClient` | ttac.c:685-712 | a client polling from the largest id it holds has each message of its group exactly once after each answer |
| `ChatSync.CursorServesIff` | ttac.c:685-712 | over every run, whatever the cursor, an answer leaves the client complete exactly when it held just the messages up to the cursor |
| `ChatSync.AdoptedLatestIff` | ttac.c:622-712 | with the `latest` of a send as cursor, exactly when it held just what the group had at that MAX read |
| `ChatSync.SkippedForEver` | ttac.c:685-687 | a message below an id that the client holds is never fetched by polling from the largest id |
| `ChatSync.AdoptingLatestSkips` | ttac.c:622-712 | a run in which a client adopts the `latest` of its own send and skips a message |
| `Groups.StepKeepsInv` | ttac.c:242-390 | every statement of every create_group and join_group keeps the invariant |
| `Groups.RunKeepsInv` | ttac.c:242-390 | so it holds in every state of every interleaving |
| `Groups.JoinsOwnGroup` | ttac.c:248-270 | create_group joins the user it was begun for to the very group that this request inserted for that user |
| `Groups.SelectAllowsIff` | ttac.c:363-382 | a join is allowed exactly when the user exists and the requester owns the group |
| `Groups.JoinInserts` | ttac.c:382-389 | an allowed join inserts just the row it was begun for, and the row stays |
| `Groups.AddedHasRow` | ttac.c:382-395 | a join that was answered OK has its row from then on |
| `Groups.CanGoOn` | ttac.c:242-390 | no request waits for another |
| `Groups.OwnerAddsUser` | ttac.c:242-390 | a whole run with two rows |
| `Groups.OwnerIsMember` | ttac.c:242-276 | an owner is a member unless the creating request is between its two inserts or stopped there |
| `Groups.MembersComeFromOwner` | ttac.c:355-390 | every membership row was inserted for its owner by the creating request, or for that user and that group by a join request of the owner |
| `Groups.SharedConnectionMixesUp` | connection_queue.c:80-90 | with a shared connection another insert would hand over the wrong group |
| `Progress.OneRowIff` | ttac.c:563-586 | each user has at most one row exactly when no post that saw no row is overtaken |
| `Progress.WriteIs` | ttac.c:574-582 | a post that found a row sets all rows of its user, one that found none adds a row, and nothing else touches the table |
| `Progress.BegunAt` | ttac.c:541-558 | a post writes for the user and with the number it was begun with |
| `Progress.OvertakenDoubles` | ttac.c:570-582 | an overtaken post leaves a second row |
| `Progress.NoOverlapIsEnough` | ttac.c:563-586 | posts of one user that do not overlap leave at most one row |
| `Progress.AnswerIff` | ttac.c:512-586 | in every run, get_progress answers the number of the user's last write exactly when that write was not overtaken or changed nothing; 0 before the first |
| `Progress.AnswerAfterWrite` | ttac.c:563-586 | a write shows in the answer, unless it is overtaken and the answer stays |
| `Progress.AnswerWithoutOverlap` | ttac.c:512-586 | if the posts of a user do not overlap, the answer is the user's last number, or 0 |
| `Progress.AnswerIsLastWritten` | ttac.c:512-532 | while no user has two rows, the answer is the user's last number, or 0 |
| `Progress.OverlapLosesUpdate` | ttac.c:563-586 | a run of two overlapping posts with two rows and a stale answer |
| `TrailingSpace.TrimmedLengthIs` | mysql/include/m_string.h:326-328 | the byte-by-byte length is the only one with just spaces behind it and none before it |
| `TrailingSpace.SkipBy8` | mysql/include/m_string.h:317-329 | eight bytes at a time: the byte-by-byte length, with no read before the text |
| `TrailingSpace.SkipWords` | mysql/include/m_string.h:303-305 | aligned words at a time, only spaces are skipped, down to the bottom or the first word that is not all spaces; no word lies outside the text |
| `TrailingSpace.SkipAligned` | mysql/include/m_string.h:280-310 | the same length for every address, length and word size |
| `TrailingSpace.BothVersions` | mysql/include/m_string.h:280-329 | both versions return the same end |
| `ByteOrder.Int3store` | mysql/include/my_byteorder.h:77-82 | writes the three low bytes and nothing else |
| `ByteOrder.Int2store` | mysql/include/byte_order_generic.h:76-81 | writes the two bytes and nothing else |
| `ByteOrder.Int5store` | mysql/include/my_byteorder.h:84-91 | writes the five low bytes and nothing else |
| `ByteOrder.Int6store` | mysql/include/my_byteorder.h:93-101 | writes the six low bytes and nothing else |
| `ByteOrder.Int4store` | mysql/include/byte_order_generic.h:83-89 | writes the four bytes and nothing else |
| `ByteOrder.Int8store` | mysql/include/byte_order_generic.h:91-97 | two 4-byte stores write the eight bytes and nothing else |
| `ByteOrder.LowByteFirst` | mysql/include/byte_order_generic.h:76-97 | the low byte comes first, at every width |
| `ByteOrder.LoadStore4` | mysql/include/byte_order_generic.h:46-54 | a 4-byte load after a store is the identity |
| `ByteOrder.StoreLoad4` | mysql/include/byte_order_generic.h:83-89 | a 4-byte store after a load restores the bytes |
| `ByteOrder.RoundTrip8` | mysql/include/byte_order_generic.h:56-97 | both directions for eight bytes |
| `ByteOrder.RoundTrip3Iff` | mysql/include/my_byteorder.h:31-43 | a signed load after a 24-bit store gives the value back exactly when it fits in 24 bits |
| `ByteOrder.RoundTripU3Iff` | mysql/include/my_byteorder.h:45-52 | the same for the load without sign |
| `ByteOrder.StoreLoadU3` | mysql/include/my_byteorder.h:45-82 | a 24-bit store after a load without sign restores the bytes |
| `ByteOrder.StoreLoadS3` | mysql/include/my_byteorder.h:31-82 | a 24-bit store after a signed load restores the bytes |
| `ByteOrder.RoundTrip2` | mysql/include/byte_order_generic.h:38-81 | both directions for two bytes |
| `ByteOrder.RoundTrip5Iff` | mysql/include/my_byteorder.h:54-91 | five bytes keep a value exactly when it fits; a store after a load restores them |
| `ByteOrder.RoundTrip6Iff` | mysql/include/my_byteorder.h:65-101 | six bytes keep a value exactly when it fits; a store after a load restores them |
| `Timespecs.Timespec.SetNsec` | mysql/include/my_global.h:688-698 | sets both fields to the deadline |
| `Timespecs.Timespec.SetSec` | mysql/include/my_global.h:712-715 | the same for seconds, with their 64-bit product |
| `Timespecs.AfterIs` | mysql/include/my_global.h:688-698 | nanoseconds below 10^9; never after the true deadline, and equal exactly when nothing overflows |
| `Timespecs.AfterOverflow` | mysql/include/my_global.h:691-698 | otherwise the sum goes round at 64 bits, and the seconds of a narrow time_t stop at their largest value |
| `Timespecs.AfterSecondsIff` | mysql/include/my_global.h:712-715 | exact exactly when the product does not overflow either |
| `Timespecs.OrderOfTotals` | mysql/include/my_global.h:724-750 | on well-formed values the comparison is the order of the totals; the difference is theirs exactly when it is not negative and fits |
| `Timespecs.DiffWraps` | mysql/include/my_global.h:742-750 | a negative difference goes round at 64 bits |
| `Timespecs.DeadlinesKeepDelays` | mysql/include/my_global.h:688-750 | two exact deadlines set at one time compare like their delays and differ by as much |

## Left out

- Sockets, thread creation, routing by regular expression, logging, and `read()` itself, which is a list of chunks.
- `ReadStreams.ReadStream.ReadFds`: an error result of `read()` is not modelled; it leaves `len` at -1, after which stream.c:15 never refills.
- `ReadStreams.ReadStream.GetChar`: so neither are the stale bytes handed out after such an error.
- `DictionaryLists.DicList.ClearList`: the texts of a node are values, so freeing them at list.c:24-25 is not modelled.
- `ReadStreams.ReadStream.FillLine`: only for delimiters of two characters, as for GetLine.
- `ReadStreams.FinishLine`: only for delimiters of two characters, as for GetLine.
- `int` lengths and indices are unbounded, and allocation does not fail. `atoi` of a number that does not fit is undefined in C and not treated apart.
- Escaping, quoting and the fixed buffers `query`, `tmp` and `body` of `ttac.c`; numbers sent by clients are integers.
- Tokens, login, signup, `getNow`, the attendance insert and the to-do handlers: a single statement each.
- `ReadStreams.ReadStream.GetLine`: only for delimiters of two characters; stream.c:50 and stream.c:58 look two bytes back whatever the delimiter, and every caller passes CRLF.
- `Requests.ParseRequest`: leaves out freeing (http.c:56-61, http.c:213-220) and that printf of a NULL key may be survived; a part without a name is a fault.
- `RequestRoundTrip.Response`: a NULL body is not modelled, since http.c:240 dereferences it before the test; status codes are not negative.
- `Locations.PopLocation`: returns the value read under the lock; the pointer that the code returns may be freed by a later push.
- `Groups.StepKeepsInv`: foreign keys and deletions are not modelled; no handler deletes a row.
- `ChatSync.SyncedClient`: rests on auto-increment ids becoming visible in the order in which they grow, one insert after the other; with inserts committed out of order a poll could skip one. get_chatlist without `latest` is the poll with cursor -1, as ids are positive; the join with `user` drops no row while users are not deleted.
- `Progress.AnswerIsLastWritten`: rows are taken in the order of their primary key, which the query does not ask for; it matters only when a user has several.
- The step machines work on values, not on objects: their state is the database, and requests interleave between statements.
- The ring buffer of `connection_queue.c`, whose body is commented out; only the fresh connection per request is used.
- The signed loads of 2, 4 and 8 bytes: the same bits as the loads without sign.
- The Windows branches of `my_global.h`, and all other MySQL headers: declarations and wrappers.

/** parse_request and response of http.c. */
module Requests {
  import opened CStrings
  import opened DictionaryLists
  import opened Multipart
  import opened ReadStreams
  import opened UrlForms
  import opened Wrappers

  // ----- a request as a function of the bytes on the socket -----

  datatype Head = Head(verb: string, path: string, version: string)

  /** The request line: the text before the first blank, up to the second, and the rest. */
  function RequestLine(line: string): Outcome<Head> {
    var first := IndexOf(line, ' ');
    if first == -1 then Fault
    else
      var second := IndexFrom(line, ' ', first + 1);
      if second == -1 then Fault
      else Ok(Head(line[..first], line[first + 1..second], line[second + 1..]))
  }

  function HeadOf(r: string): Outcome<(Head, string)> {
    match LineOf(r, CRLF).0
    case Underrun => Fault
    case Blank => Fault
    case Text(line) =>
      match RequestLine(line) case Fault => Fault case Ok(head) => Ok((head, LineOf(r, CRLF).1))
  }

  /** The entry of a header line: nothing without a ':', behind which one character is
      skipped unread. */
  function HeaderEntry(line: string): seq<Entry> {
    var colon := IndexOf(line, ':');
    if colon == -1 then []
    else [Entry(Lower(line[..colon]), if colon + 2 <= |line| then line[colon + 2..] else "")]
  }

  function PrependEntries(done: seq<Entry>, r: Outcome<(seq<Entry>, string)>): Outcome<(seq<Entry>, string)> {
    match r case Fault => Fault case Ok((more, rest)) => Ok((done + more, rest))
  }

  /** The header entries from `line` on, up to a blank line, with `rest` still to read. */
  function HeadersFrom(line: Line, rest: string): Outcome<(seq<Entry>, string)>
    decreases |rest| + if line.Text? then 1 else 0
  {
    match line
    case Underrun => Fault
    case Blank => Ok(([], rest))
    case Text(t) => PrependEntries(HeaderEntry(t), HeadersFrom(LineOf(rest, CRLF).0, LineOf(rest, CRLF).1))
  }

  function Headers(r: string): Outcome<(seq<Entry>, string)> {
    HeadersFrom(LineOf(r, CRLF).0, LineOf(r, CRLF).1)
  }

  const CONTENT_LENGTH := "content-length"
  const CONTENT_TYPE := "content-type"
  const URLENCODED := "application/x-www-form-urlencoded"
  const FORM_DATA := "multipart/form-data"

  /** The body: as many bytes as the first content-length says, or NULL without one. */
  function BodyOf(header: seq<Entry>, r: string): Outcome<(Option<string>, string)> {
    match Lookup(header, CONTENT_LENGTH)
    case None => Ok((None, r))
    case Some(v) =>
      var n := Atoi(CStr(v));
      if n < 0 then Fault else Ok((Some(Block(r, n)), Drop(r, n)))
  }

  function FormOf(params: string): Outcome<seq<Entry>> {
    if FormSafe(params) then Ok(FormEntries(params)) else Fault
  }

  /** What the buffers of the multipart parser depend on: the byte that malloc left at the
      end of the one for the boundary, which is never written, and what http.c:118 adds for
      a file value, which is SPARE. */
  datatype Buffers = Buffers(fill: char, spare: nat)

  /** The entries of a body, given the buffer of the delimiter. Measuring a delimiter without
      a terminator reads past its buffer. */
  function FormDataOf(body: string, buffer: string, spare: nat): Outcome<seq<Entry>> {
    if body == "" then Ok([])
    else if NUL !in buffer then Fault
    else match FormData(body, CStr(buffer), spare) case Fault => Fault case Ok(fields) => Ok(Map(FieldEntry, fields))
  }

  predicate IsGet(verb: string) { verb == "get" || verb == "GET" }
  predicate IsPost(verb: string) { verb == "post" || verb == "POST" }

  /** "--" and what follows the '=' of a content type; all of it if there is none. */
  function BoundaryOf(contentType: string): string {
    "--" + contentType[IndexOf(contentType, '=') + 1..]
  }

  /** The buffer has room for a terminator and is filled but for that. */
  function BoundaryBuffer(contentType: string, fill: char): string {
    BoundaryOf(contentType) + [fill]
  }

  function QueryParameters(path: string): Outcome<seq<Entry>> {
    var q := IndexOf(path, '?');
    if q == -1 then Ok([]) else FormOf(path[q + 1..])
  }

  function BodyParameters(contentType: string, body: Option<string>, m: Buffers): Outcome<seq<Entry>> {
    if PrefixCmp(contentType, URLENCODED) == 0 then
      match body case None => Ok([]) case Some(b) => FormOf(CStr(b))
    else if PrefixCmp(contentType, FORM_DATA) == 0 then
      match body case None => Ok([]) case Some(b) => FormDataOf(CStr(b), BoundaryBuffer(contentType, m.fill), m.spare)
    else Ok([])
  }

  function ParametersOf(head: Head, header: seq<Entry>, body: Option<string>, m: Buffers): Outcome<seq<Entry>> {
    if IsGet(head.verb) then QueryParameters(head.path)
    else if IsPost(head.verb) then
      match Lookup(header, CONTENT_TYPE)
      case None => Fault
      case Some(v) => BodyParameters(CStr(v), body, m)
    else Ok([])
  }

  datatype RequestView =
    RequestView(head: Head, header: seq<Entry>, body: Option<string>, parameter: seq<Entry>)

  function HeaderAndBody(r: string): Outcome<(seq<Entry>, Option<string>, string)> {
    match Headers(r)
    case Fault => Fault
    case Ok((header, r1)) =>
      match BodyOf(header, r1) case Fault => Fault case Ok((body, r2)) => Ok((header, body, r2))
  }

  /** The request at the start of `r`, and the bytes that are left after it. */
  function RequestOf(r: string, m: Buffers): Outcome<(RequestView, string)> {
    match HeadOf(r)
    case Fault => Fault
    case Ok((head, r1)) =>
      match HeaderAndBody(r1)
      case Fault => Fault
      case Ok((header, body, r2)) =>
        match ParametersOf(head, header, body, m)
        case Fault => Fault
        case Ok(parameter) => Ok((RequestView(head, header, body, parameter), r2))
  }

  // ----- parse_request -----

  datatype Request = Request(head: Head, header: DicList, body: Option<string>, parameter: DicList)

  method ReadHead(s: ReadStream) returns (r: Outcome<Head>)
    requires s.Valid()
    modifies s`fds, s`cnt, s`len, s.buf
    ensures s.Valid()
    ensures r.Fault? <==> HeadOf(old(s.Remaining())) == Fault
    ensures r.Ok? ==> HeadOf(old(s.Remaining())) == Ok((r.value, s.Remaining()))
    ensures r.Ok? ==> NUL !in r.value.path
  {
    var got := s.GetLine(CRLF);
    if !got.Text? { return Fault; }
    r := SplitRequestLine(got.text);
  }

  method SplitRequestLine(line: CString) returns (r: Outcome<Head>)
    ensures r == RequestLine(line)
    ensures r.Ok? ==> NUL !in r.value.path
  {
    var first := FindIdx(line, ' ');
    if first < 0 { return Fault; }
    var second := FindIdxAt(line, first + 1, ' ');
    var pathLen := second - first - 1;
    if pathLen < 0 { return Fault; }
    assert line[0..first] == line[..first] && line[second + 1..|line|] == line[second + 1..];
    return Ok(Head(Copy(line, 0, first), Copy(line, first + 1, second), Copy(line, second + 1, |line|)));
  }

  /** A copy of the text before the ':', lowered in its own buffer. */
  method LoweredKey(line: CString, colon: nat) returns (key: string)
    requires colon <= |line|
    ensures key == Lower(line[..colon])
  {
    var buf := new char[colon + 1];
    forall i | 0 <= i < colon { buf[i] := line[i]; }
    buf[colon] := NUL;
    ghost var text := line[..colon];
    assert buf[..] == text + [NUL] + [];
    CStrTerminated(text, []);
    assert CStr(buf[..]) == text;
    ToLower(buf);
    key := CStr(buf[..]);
  }

  method SplitHeaderLine(line: CString) returns (entry: seq<Entry>)
    ensures entry == HeaderEntry(line)
  {
    var idx := FindIdx(line, ':');
    if idx == -1 { return []; }
    var key := LoweredKey(line, idx);
    var value := if idx + 2 <= |line| then Tail(line, idx + 2) else "";
    return [Entry(key, value)];
  }

  ghost predicate Apart(s: ReadStream, list: DicList)
    reads s, list
  {
    s !in list.Repr && s.buf !in list.Repr
  }

  lemma PrependEntriesMore(done: seq<Entry>, e: seq<Entry>, r: Outcome<(seq<Entry>, string)>)
    ensures PrependEntries(done, PrependEntries(e, r)) == PrependEntries(done + e, r)
  {
    if r.Ok? { Regroup(done, e, r.value.0); }
  }

  lemma PrependNoEntries(r: Outcome<(seq<Entry>, string)>)
    ensures PrependEntries([], r) == r
  {
    if r.Ok? { assert [] + r.value.0 == r.value.0; }
  }

  /** What the whole header is, given the entries so far and the line just read. */
  ghost predicate HeaderLoop(all: Outcome<(seq<Entry>, string)>, done: seq<Entry>, line: Line, rest: string) {
    all == PrependEntries(done, HeadersFrom(line, rest))
  }

  lemma HeaderLoopStarts(r: string)
    ensures HeaderLoop(Headers(r), [], LineOf(r, CRLF).0, LineOf(r, CRLF).1)
  {
    PrependNoEntries(Headers(r));
  }

  lemma HeaderLoopSteps(all: Outcome<(seq<Entry>, string)>, done: seq<Entry>, text: string, rest: string)
    requires HeaderLoop(all, done, Text(text), rest)
    ensures HeaderLoop(all, done + HeaderEntry(text), LineOf(rest, CRLF).0, LineOf(rest, CRLF).1)
  {
    PrependEntriesMore(done, HeaderEntry(text), HeadersFrom(LineOf(rest, CRLF).0, LineOf(rest, CRLF).1));
  }

  lemma HeaderLoopStops(all: Outcome<(seq<Entry>, string)>, done: seq<Entry>, line: Line, rest: string)
    requires HeaderLoop(all, done, line, rest) && !line.Text?
    ensures all == if line.Blank? then Ok((done, rest)) else Fault
  {
    assert done + [] == done;
  }

  /** The header loop, over lines until one is NULL. */
  method ReadHeaders(s: ReadStream, list: DicList) returns (ok: bool)
    requires s.Valid() && list.Valid() && list.Contents == [] && Apart(s, list)
    modifies s`fds, s`cnt, s`len, s.buf, list.Repr
    ensures s.Valid() && list.Valid() && fresh(list.Repr - old(list.Repr))
    ensures !ok ==> Headers(old(s.Remaining())) == Fault
    ensures ok ==> Headers(old(s.Remaining())) == Ok((list.Contents, s.Remaining()))
  {
    ghost var all := Headers(s.Remaining());
    HeaderLoopStarts(s.Remaining());
    var line := s.GetLine(CRLF);
    while line.Text?
      invariant s.Valid() && list.Valid() && fresh(list.Repr - old(list.Repr)) && Apart(s, list)
      invariant line.Text? ==> NUL !in line.text
      invariant HeaderLoop(all, list.Contents, line, s.Remaining())
      decreases if line.Text? then |s.Remaining()| + 1 else 0
    {
      line := ReadHeaderLine(s, list, line.text, all);
    }
    HeaderLoopStops(all, list.Contents, line, s.Remaining());
    return line.Blank?;
  }

  /** One turn of the header loop: the entry of this line, then the next line. */
  method ReadHeaderLine(s: ReadStream, list: DicList, text: CString, ghost all: Outcome<(seq<Entry>, string)>)
    returns (line: Line)
    requires s.Valid() && list.Valid() && Apart(s, list)
    requires HeaderLoop(all, list.Contents, Text(text), s.Remaining())
    modifies s`fds, s`cnt, s`len, s.buf, list.Repr
    ensures s.Valid() && list.Valid() && fresh(list.Repr - old(list.Repr)) && Apart(s, list)
    ensures line.Text? ==> NUL !in line.text && |s.Remaining()| < |old(s.Remaining())|
    ensures HeaderLoop(all, list.Contents, line, s.Remaining())
  {
    AddHeader(s, list, text);
    HeaderLoopSteps(all, old(list.Contents), text, s.Remaining());
    line := NextLine(s, list);
  }

  method AddHeader(s: ReadStream, list: DicList, text: CString)
    requires s.Valid() && list.Valid() && Apart(s, list)
    modifies list.Repr
    ensures s.Valid() && list.Valid() && fresh(list.Repr - old(list.Repr)) && Apart(s, list)
    ensures list.Contents == old(list.Contents) + HeaderEntry(text) && s.Remaining() == old(s.Remaining())
  {
    var entry := SplitHeaderLine(text);
    AddEntry(list, entry);
  }

  method NextLine(s: ReadStream, ghost list: DicList) returns (line: Line)
    requires s.Valid() && list.Valid() && Apart(s, list)
    modifies s`fds, s`cnt, s`len, s.buf
    ensures s.Valid() && list.Valid() && Apart(s, list)
    ensures list.Contents == old(list.Contents) && list.Repr == old(list.Repr)
    ensures line == LineOf(old(s.Remaining()), CRLF).0 && s.Remaining() == LineOf(old(s.Remaining()), CRLF).1
  {
    line := s.GetLine(CRLF);
  }

  method AddEntry(list: DicList, entry: seq<Entry>)
    requires list.Valid() && |entry| <= 1
    modifies list.Repr
    ensures list.Valid() && fresh(list.Repr - old(list.Repr))
    ensures list.Contents == old(list.Contents) + entry
  {
    if entry != [] {
      assert entry == [Entry(entry[0].key, entry[0].value)];
      list.AddData(entry[0].key, entry[0].value);
    }
  }

  method ReadBody(s: ReadStream, header: DicList) returns (r: Outcome<Option<string>>)
    requires s.Valid() && header.Valid() && Apart(s, header)
    modifies s`fds, s`cnt, s`len, s.buf
    ensures s.Valid()
    ensures r.Fault? ==> BodyOf(header.Contents, old(s.Remaining())) == Fault
    ensures r.Ok? ==> BodyOf(header.Contents, old(s.Remaining())) == Ok((r.value, s.Remaining()))
  {
    var contentLength := header.FindValue(CONTENT_LENGTH);
    if contentLength.None? { return Ok(None); }
    var len := Atoi(CStr(contentLength.value));
    if len < 0 { return Fault; }
    ghost var bytes := s.Remaining();
    var block := s.ReadSz(len);
    assert block[..len] == block[..][..len] == Block(bytes, len);
    return Ok(Some(block[..len]));
  }

  method ReadParameters(head: Head, header: DicList, body: Option<string>, list: DicList, m: Buffers)
    returns (ok: bool)
    requires header.Valid() && list.Valid() && list.Contents == [] && NUL !in head.path
    modifies list.Repr
    ensures list.Valid() && fresh(list.Repr - old(list.Repr))
    ensures ParametersOf(head, old(header.Contents), body, m) == if ok then Ok(list.Contents) else Fault
  {
    var contentType := header.FindValue(CONTENT_TYPE);
    if IsGet(head.verb) {
      ok := ReadQuery(head.path, list);
    } else if IsPost(head.verb) {
      if contentType.None? { return false; }
      ok := ReadBodyParameters(CStr(contentType.value), body, list, m);
    } else {
      ok := true;
    }
  }

  /** parse_parameter on a list that is still empty. */
  method ParseForm(list: DicList, params: CString) returns (ok: bool)
    requires list.Valid() && list.Contents == []
    modifies list.Repr
    ensures list.Valid() && fresh(list.Repr - old(list.Repr))
    ensures FormOf(params) == if ok then Ok(list.Contents) else Fault
  {
    ok := ParseParameter(list, params);
    assert [] + FormEntries(params) == FormEntries(params);
  }

  /** parse_formdata on a list that is still empty; it measures the body before the delimiter. */
  method ParseMultipart(list: DicList, body: CString, boundary: array<char>, spare: nat) returns (ok: bool)
    requires list.Valid() && list.Contents == [] && CStr(boundary[..]) != ""
    modifies list.Repr
    ensures list.Valid() && fresh(list.Repr - old(list.Repr))
    ensures FormDataOf(body, old(boundary[..]), spare) == if ok then Ok(list.Contents) else Fault
  {
    if body == "" { return true; }
    if NUL !in boundary[..] { return false; }
    var b := CStr(boundary[..]);
    ok := ParseFormdata(list, body, b, spare);
    if ok {
      ghost var entries := Map(FieldEntry, FormData(body, b, spare).value);
      assert [] + entries == entries;
    }
  }

  method ReadQuery(path: CString, list: DicList) returns (ok: bool)
    requires list.Valid() && list.Contents == []
    modifies list.Repr
    ensures list.Valid() && fresh(list.Repr - old(list.Repr))
    ensures QueryParameters(path) == if ok then Ok(list.Contents) else Fault
  {
    var idx := FindIdx(path, '?');
    ok := true;
    if idx >= 0 {
      var query := Tail(path, idx + 1);
      assert query == path[IndexOf(path, '?') + 1..];
      ok := ParseForm(list, query);
    }
  }

  /** Two dashes, then the text behind the '=', in a buffer with one byte to spare. */
  method ReadBoundary(contentType: CString, fill: char) returns (boundary: array<char>)
    ensures fresh(boundary) && boundary[..] == BoundaryBuffer(contentType, fill)
  {
    var equal := FindIdx(contentType, '=');
    var n := |contentType| - (equal + 1);
    boundary := new char[n + 3](_ => fill);
    boundary[0], boundary[1] := '-', '-';
    forall i | 0 <= i < n { boundary[i + 2] := contentType[equal + 1 + i]; }
  }

  method ReadBodyParameters(contentType: CString, body: Option<string>, list: DicList, m: Buffers)
    returns (ok: bool)
    requires list.Valid() && list.Contents == []
    modifies list.Repr
    ensures list.Valid() && fresh(list.Repr - old(list.Repr))
    ensures BodyParameters(contentType, body, m) == if ok then Ok(list.Contents) else Fault
  {
    ok := true;
    if PrefixCmp(contentType, URLENCODED) == 0 {
      if body.Some? { ok := ParseForm(list, CStr(body.value)); }
    } else if PrefixCmp(contentType, FORM_DATA) == 0 {
      var boundary := ReadBoundary(contentType, m.fill);
      if body.Some? {
        ok := ReadParts(CStr(body.value), boundary, contentType, list, m);
      }
    }
  }

  method ReadParts(body: CString, boundary: array<char>, ghost contentType: CString, list: DicList, m: Buffers)
    returns (ok: bool)
    requires list.Valid() && list.Contents == [] && boundary[..] == BoundaryBuffer(contentType, m.fill)
    modifies list.Repr
    ensures list.Valid() && fresh(list.Repr - old(list.Repr))
    ensures FormDataOf(body, BoundaryBuffer(contentType, m.fill), m.spare) == if ok then Ok(list.Contents) else Fault
  {
    BufferNotEmpty(contentType, m.fill);
    ok := ParseMultipart(list, body, boundary, m.spare);
  }

  lemma BufferNotEmpty(contentType: CString, fill: char)
    ensures BoundaryBuffer(contentType, fill) != "" && CStr(BoundaryBuffer(contentType, fill)) != ""
    ensures fill == NUL ==> CStr(BoundaryBuffer(contentType, fill)) == BoundaryOf(contentType)
    ensures NUL in BoundaryBuffer(contentType, fill) <==> fill == NUL
  {
    var b := BoundaryOf(contentType);
    assert NUL !in b;
    if fill == NUL {
      assert b + [NUL] + "" == b + [fill];
      CStrTerminated(b, "");
      assert (b + [fill])[|b|] == NUL;
    } else {
      assert NUL !in b + [fill];
    }
  }

  method ReadHeaderAndBody(s: ReadStream, header: DicList) returns (r: Outcome<Option<string>>)
    requires s.Valid() && header.Valid() && header.Contents == [] && Apart(s, header)
    modifies s`fds, s`cnt, s`len, s.buf, header.Repr
    ensures s.Valid() && header.Valid() && fresh(header.Repr - old(header.Repr))
    ensures HeaderAndBody(old(s.Remaining())) ==
              if r.Ok? then Ok((header.Contents, r.value, s.Remaining())) else Fault
  {
    var ok := ReadHeaders(s, header);
    if !ok { return Fault; }
    r := ReadBody(s, header);
  }

  lemma Stages(r0: string, head: Head, r1: string, header: seq<Entry>, body: Option<string>,
               r2: string, m: Buffers)
    requires HeadOf(r0) == Ok((head, r1)) && HeaderAndBody(r1) == Ok((header, body, r2))
    ensures RequestOf(r0, m) ==
              match ParametersOf(head, header, body, m)
              case Fault => Fault
              case Ok(parameter) => Ok((RequestView(head, header, body, parameter), r2))
  {
  }

  ghost function ViewOf(r: Request): RequestView
    reads r.header, r.parameter
  {
    RequestView(r.head, r.header.Contents, r.body, r.parameter.Contents)
  }

  /** The result and the position of the stream after it depend on the bytes alone. */
  method ParseRequest(s: ReadStream, m: Buffers) returns (r: Outcome<Request>)
    requires s.Valid()
    modifies s`fds, s`cnt, s`len, s.buf
    ensures s.Valid()
    ensures r.Fault? ==> RequestOf(old(s.Remaining()), m).Fault?
    ensures r.Ok? ==>
              && r.value.header.Valid() && r.value.parameter.Valid()
              && RequestOf(old(s.Remaining()), m) == Ok((ViewOf(r.value), s.Remaining()))
  {
    ghost var r0 := s.Remaining();
    var head := ReadHead(s);
    if head.Fault? { return Fault; }
    r := ParseRest(s, head.value, r0, m);
  }

  /** What follows the request line. */
  method ParseRest(s: ReadStream, head: Head, ghost r0: string, m: Buffers) returns (r: Outcome<Request>)
    requires s.Valid() && HeadOf(r0) == Ok((head, s.Remaining())) && NUL !in head.path
    modifies s`fds, s`cnt, s`len, s.buf
    ensures s.Valid()
    ensures r.Fault? ==> RequestOf(r0, m).Fault?
    ensures r.Ok? ==>
              && r.value.header.Valid() && r.value.parameter.Valid()
              && RequestOf(r0, m) == Ok((ViewOf(r.value), s.Remaining()))
  {
    ghost var r1 := s.Remaining();
    var header := new DicList();
    var parameter := new DicList();
    assert s.Remaining() == r1;
    var body := ReadHeaderAndBody(s, header);
    if body.Fault? { return Fault; }
    Stages(r0, head, r1, header.Contents, body.value, s.Remaining(), m);
    ghost var view;
    r, view := Complete(head, header, body.value, parameter, m);
  }

  /** The end of parse_request: the parameters. */
  method Complete(head: Head, header: DicList, body: Option<string>, parameter: DicList, m: Buffers)
    returns (r: Outcome<Request>, ghost view: RequestView)
    requires header.Valid() && parameter.Valid() && parameter.Contents == [] && NUL !in head.path
    requires header.Repr !! parameter.Repr
    modifies parameter.Repr
    ensures r.Fault? ==> ParametersOf(head, header.Contents, body, m) == Fault
    ensures r.Ok? ==>
              && r.value.header.Valid() && r.value.parameter.Valid() && ViewOf(r.value) == view
              && view == RequestView(head, header.Contents, body, view.parameter)
              && ParametersOf(head, header.Contents, body, m) == Ok(view.parameter)
  {
    var ok := ReadParameters(head, header, body, parameter, m);
    view := RequestView(head, header.Contents, body, parameter.Contents);
    if !ok { return Fault, view; }
    return Ok(Request(head, header, body, parameter)), view;
  }
}

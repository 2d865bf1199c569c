/** What parse_request gets out of a request that a client put together, and what the
    same reader gets out of the head that `response` prints. */
module RequestRoundTrip {
  import opened BodyDecomposition
  import opened CStrings
  import opened DictionaryLists
  import opened Multipart
  import opened MultipartRoundTrip
  import opened ReadStreams
  import opened Requests
  import opened UrlForms
  import opened Wrappers

  // ----- the printed form (section 3 of RFC 7230) -----

  function HeaderLine(e: Entry): string {
    e.key + (": " + e.value)
  }

  /** `key: value` lines and a blank line, then `tail`. */
  function HeaderText(header: seq<Entry>, tail: string): string {
    if header == [] then CRLF + tail
    else HeaderLine(header[0]) + (CRLF + HeaderText(header[1..], tail))
  }

  function HeadLine(head: Head): string {
    head.verb + (" " + (head.path + (" " + head.version)))
  }

  function RequestText(head: Head, header: seq<Entry>, tail: string): string {
    HeadLine(head) + (CRLF + HeaderText(header, tail))
  }

  ghost predicate SendableHead(head: Head) {
    ' ' !in head.verb && ' ' !in head.path && Sendable(HeadLine(head))
  }

  ghost predicate SendableEntry(e: Entry) {
    ':' !in e.key && Sendable(HeaderLine(e))
  }

  ghost predicate SendableHeader(header: seq<Entry>) {
    forall i :: 0 <= i < |header| ==> SendableEntry(header[i])
  }

  function LowerKey(e: Entry): Entry {
    Entry(Lower(e.key), e.value)
  }

  // ----- reading it back -----

  lemma HeadLineParses(head: Head)
    requires SendableHead(head)
    ensures RequestLine(HeadLine(head)) == Ok(head)
  {
    var line, first := HeadLine(head), |head.verb|;
    HeadLineBlanks(head);
    HeadLineSlices(head);
    IndexFromIs(line, ' ', 0, first);
    IndexFromIs(line, ' ', IndexOf(line, ' ') + 1, first + 1 + |head.path|);
  }

  lemma HeadLineBlanks(head: Head)
    requires SendableHead(head)
    ensures var line, first, second := HeadLine(head), |head.verb|, |head.verb| + 1 + |head.path|;
            && (forall i :: 0 <= i < second && i != first ==> line[i] != ' ')
            && line[first] == ' ' && line[second] == ' '
  {
    var line, first := HeadLine(head), |head.verb|;
    assert forall i :: 0 <= i < first ==> line[i] == head.verb[i];
    assert forall i :: first < i < first + 1 + |head.path| ==> line[i] == head.path[i - first - 1];
  }

  lemma HeadLineSlices(head: Head)
    ensures var line, first, second := HeadLine(head), |head.verb|, |head.verb| + 1 + |head.path|;
            line[..first] == head.verb && line[first + 1..second] == head.path && line[second + 1..] == head.version
  {
  }

  lemma HeaderLineParses(e: Entry)
    requires SendableEntry(e)
    ensures HeaderEntry(HeaderLine(e)) == [LowerKey(e)]
  {
    var line, colon := HeaderLine(e), |e.key|;
    assert forall i :: 0 <= i < colon ==> line[i] == e.key[i];
    assert line[colon] == ':';
    IndexFromIs(line, ':', 0, colon);
    assert line[..colon] == e.key && line[colon + 2..] == e.value;
  }

  lemma {:induction false} HeadersRoundTrip(header: seq<Entry>, tail: string)
    requires SendableHeader(header)
    ensures Headers(HeaderText(header, tail)) == Ok((Map(LowerKey, header), tail))
    decreases |header|
  {
    if header == [] {
      assert "" + (CRLF + tail) == CRLF + tail;
      LineRoundTrip("", tail);
    } else {
      HeadersRoundTrip(header[1..], tail);
      OneHeaderLine(header[0], HeaderText(header[1..], tail));
      LowerFirst(header);
    }
  }

  lemma LowerFirst(header: seq<Entry>)
    requires header != []
    ensures Map(LowerKey, header) == [LowerKey(header[0])] + Map(LowerKey, header[1..])
  {
    MapConcat(LowerKey, [header[0]], header[1..]);
    MapOne(LowerKey, header[0]);
    assert header == [header[0]] + header[1..];
  }

  lemma OneHeaderLine(e: Entry, rest: string)
    requires SendableEntry(e)
    ensures Headers(HeaderLine(e) + (CRLF + rest)) == PrependEntries([LowerKey(e)], Headers(rest))
  {
    LineRoundTrip(HeaderLine(e), rest);
    HeaderLineParses(e);
  }

  lemma HeadRoundTrip(head: Head, rest: string)
    requires SendableHead(head)
    ensures HeadOf(HeadLine(head) + (CRLF + rest)) == Ok((head, rest))
  {
    LineRoundTrip(HeadLine(head), rest);
    HeadLineParses(head);
  }

  /** What the first content-length, in whatever case it was sent, says about the body. */
  ghost predicate Announces(header: seq<Entry>, body: Option<string>) {
    match Lookup(Map(LowerKey, header), CONTENT_LENGTH)
    case None => body.None?
    case Some(v) => body.Some? && Atoi(CStr(v)) == |body.value|
  }

  function BytesOf(body: Option<string>): string {
    match body case None => "" case Some(b) => b
  }

  lemma BodyRoundTrip(header: seq<Entry>, body: Option<string>, rest: string)
    requires Announces(header, body)
    ensures BodyOf(Map(LowerKey, header), BytesOf(body) + rest) == Ok((body, rest))
  {
    if body.Some? {
      var n := |body.value|;
      assert (body.value + rest)[..n] == body.value && (body.value + rest)[n..] == rest;
    } else {
      assert "" + rest == rest;
    }
  }

  /** A length printed in decimal is read back, by way of the C string functions too. */
  lemma DecimalLength(n: nat)
    ensures Atoi(CStr(Dec(n))) == n
  {
    assert Dec(n) + "" == Dec(n);
    AtoiOfDec(n, "");
    assert NUL !in Dec(n);
  }

  /** Every request that is sent comes back: verb, path, version, the header entries in
      order with lowered keys, and the announced body, after which the stream stops. When
      its parameters can be read is said by ComesThroughIff. */
  lemma RequestRoundTrip(head: Head, header: seq<Entry>, body: Option<string>,
                         rest: string, m: Buffers)
    requires SendableHead(head) && SendableHeader(header) && Announces(header, body)
    ensures var text := RequestText(head, header, BytesOf(body) + rest);
            RequestOf(text, m) ==
              match ParametersOf(head, Map(LowerKey, header), body, m)
              case Fault => Fault
              case Ok(parameter) => Ok((RequestView(head, Map(LowerKey, header), body, parameter), rest))
  {
    var tail := BytesOf(body) + rest;
    HeadRoundTrip(head, HeaderText(header, tail));
    HeadersRoundTrip(header, tail);
    BodyRoundTrip(header, body, rest);
    Stages(RequestText(head, header, tail), head, HeaderText(header, tail), Map(LowerKey, header), body, rest, m);
  }

  // ----- parameters, end to end -----

  /** A GET request with pairs in its query, however the client encodes them. */
  lemma GetRoundTrip(head: Head, header: seq<Entry>, body: Option<string>, rest: string,
                     base: string, pairs: seq<Entry>, sent: seq<Entry>, m: Buffers)
    requires SendableHead(head) && SendableHeader(header) && Announces(header, body)
    requires IsGet(head.verb) && '?' !in base && head.path == base + ("?" + JoinForm(sent))
    requires Encoded(pairs, sent)
    ensures RequestOf(RequestText(head, header, BytesOf(body) + rest), m) ==
              Ok((RequestView(head, Map(LowerKey, header), body, pairs), rest))
  {
    RequestRoundTrip(head, header, body, rest, m);
    FormRoundTrip(pairs, sent);
    QueryIn(base, JoinForm(sent));
  }

  lemma QueryIn(base: string, query: string)
    requires '?' !in base
    ensures QueryParameters(base + ("?" + query)) == FormOf(query)
  {
    var path := base + ("?" + query);
    assert forall i :: 0 <= i < |base| ==> path[i] == base[i];
    assert path[|base|] == '?';
    IndexFromIs(path, '?', 0, |base|);
    assert path[|base| + 1..] == query;
  }

  ghost predicate HasContentType(header: seq<Entry>, contentType: string) {
    Lookup(Map(LowerKey, header), CONTENT_TYPE) == Some(contentType) && NUL !in contentType
  }

  /** A POST request with url-encoded pairs as its body; a charset may follow the type. */
  lemma PostFormRoundTrip(head: Head, header: seq<Entry>, rest: string, more: string,
                          pairs: seq<Entry>, sent: seq<Entry>, m: Buffers)
    requires SendableHead(head) && SendableHeader(header) && Announces(header, Some(JoinForm(sent)))
    requires IsPost(head.verb) && HasContentType(header, URLENCODED + more)
    requires Encoded(pairs, sent) && NUL !in JoinForm(sent)
    ensures RequestOf(RequestText(head, header, JoinForm(sent) + rest), m) ==
              Ok((RequestView(head, Map(LowerKey, header), Some(JoinForm(sent)), pairs), rest))
  {
    RequestRoundTrip(head, header, Some(JoinForm(sent)), rest, m);
    FormRoundTrip(pairs, sent);
    PrefixCmpZero(URLENCODED + more, URLENCODED);
    assert URLENCODED <= URLENCODED + more;
  }

  /** A POST request with parts between delimiters as its body, binary contents included.
      The byte behind the boundary has to be a terminator by chance; what the parser keeps
      is what PartFields says. */
  lemma PostPartsRoundTrip(head: Head, header: seq<Entry>, rest: string, boundary: string, form: Form, m: Buffers)
    requires SendableHead(head) && SendableHeader(header) && m.fill == NUL
    requires IsPost(head.verb) && HasContentType(header, PartsType(boundary))
    requires FormFramed(form, "--" + boundary) && Announces(header, Some(FormBody(form, "--" + boundary)))
    ensures var body := FormBody(form, "--" + boundary);
            RequestOf(RequestText(head, header, body + rest), m) ==
              match PartFields(form.parts, m.spare)
              case Fault => Fault
              case Ok(fields) =>
                Ok((RequestView(head, Map(LowerKey, header), Some(body), Map(FieldEntry, fields)), rest))
  {
    var body := FormBody(form, "--" + boundary);
    RequestRoundTrip(head, header, Some(body), rest, m);
    ContentTypeWithBoundary(boundary);
    PartsParameters(PartsType(boundary), form, m);
    PostParameters(head, header, PartsType(boundary), Some(body), m);
  }

  /** With any other byte there, every such request faults. */
  lemma PostPartsUnterminated(head: Head, header: seq<Entry>, rest: string, boundary: string, form: Form, m: Buffers)
    requires SendableHead(head) && SendableHeader(header) && m.fill != NUL
    requires IsPost(head.verb) && HasContentType(header, PartsType(boundary))
    requires FormFramed(form, "--" + boundary) && Announces(header, Some(FormBody(form, "--" + boundary)))
    ensures RequestOf(RequestText(head, header, FormBody(form, "--" + boundary) + rest), m) == Fault
  {
    var body := FormBody(form, "--" + boundary);
    RequestRoundTrip(head, header, Some(body), rest, m);
    ContentTypeWithBoundary(boundary);
    PartsParameters(PartsType(boundary), form, m);
    PostParameters(head, header, PartsType(boundary), Some(body), m);
  }

  function PartsType(boundary: string): string {
    FORM_DATA + "; boundary=" + boundary
  }

  lemma PostParameters(head: Head, header: seq<Entry>, contentType: string, body: Option<string>, m: Buffers)
    requires IsPost(head.verb) && HasContentType(header, contentType)
    ensures ParametersOf(head, Map(LowerKey, header), body, m) == BodyParameters(contentType, body, m)
  {
  }

  lemma PartsParameters(contentType: CString, form: Form, m: Buffers)
    requires PrefixCmp(contentType, URLENCODED) != 0 && PrefixCmp(contentType, FORM_DATA) == 0
    requires FormFramed(form, BoundaryOf(contentType))
    ensures BodyParameters(contentType, Some(FormBody(form, BoundaryOf(contentType))), m) ==
              if m.fill != NUL then Fault
              else
                match PartFields(form.parts, m.spare)
                case Fault => Fault
                case Ok(fields) => Ok(Map(FieldEntry, fields))
  {
    FormEntriesOf(form, BoundaryOf(contentType), BoundaryBuffer(contentType, m.fill), m) by {
      BufferNotEmpty(contentType, m.fill);
    }
  }

  lemma FormEntriesOf(form: Form, b: CString, buffer: string, m: Buffers)
    requires b != "" && FormFramed(form, b)
    requires if m.fill == NUL then NUL in buffer && CStr(buffer) == b else NUL !in buffer
    ensures FormDataOf(CStr(FormBody(form, b)), buffer, m.spare) ==
              if m.fill != NUL then Fault
              else
                match PartFields(form.parts, m.spare)
                case Fault => Fault
                case Ok(fields) => Ok(Map(FieldEntry, fields))
  {
    FormDataRoundTrip(form.preamble, form.parts, b, form.epilogue, m.spare);
  }

  lemma ContentTypeWithBoundary(boundary: string)
    ensures var t := PartsType(boundary);
            PrefixCmp(t, URLENCODED) != 0 && PrefixCmp(t, FORM_DATA) == 0 && BoundaryOf(t) == "--" + boundary
  {
    var t, p := PartsType(boundary), FORM_DATA + "; boundary";
    PrefixCmpZero(t, URLENCODED);
    PrefixCmpZero(t, FORM_DATA);
    assert t[0] == 'm' && URLENCODED[0] == 'a';
    assert FORM_DATA <= t;
    assert t == p + ['='] + boundary;
    IndexOfAfterText(p, '=', boundary);
    assert t[|p| + 1..] == boundary;
  }

  // ----- which requests come through -----

  /** One text is a prefix of the other. */
  predicate OfType(contentType: string, kind: string) {
    contentType <= kind || kind <= contentType
  }

  /** What has to be so of a query. */
  predicate QueryAccepted(path: string) {
    '?' in path ==> FormSafe(path[IndexOf(path, '?') + 1..])
  }

  /** What has to be so of a multipart body with delimiter `b`. */
  ghost predicate PartsAccepted(body: string, b: string, m: Buffers) {
    body == "" ||
    (m.fill == NUL && ((Find(body, b) == -1 && "--" <= body) || exists form :: TakesApart(form, body, b, m.spare)))
  }

  /** What has to be so of a body. */
  ghost predicate BodyAccepted(contentType: string, body: string, m: Buffers) {
    if OfType(contentType, URLENCODED) then FormSafe(CStr(body))
    else OfType(contentType, FORM_DATA) ==> PartsAccepted(CStr(body), BoundaryOf(contentType), m)
  }

  ghost predicate Accepted(head: Head, header: seq<Entry>, body: Option<string>, m: Buffers) {
    if IsGet(head.verb) then QueryAccepted(head.path)
    else IsPost(head.verb) ==>
           var t := Lookup(header, CONTENT_TYPE);
           t.Some? && (body.Some? ==> BodyAccepted(CStr(t.value), body.value, m))
  }

  /** A request that is sent comes through exactly when its query, its content type and its
      body are so, whatever bytes the body holds. */
  lemma ComesThroughIff(head: Head, header: seq<Entry>, body: Option<string>, rest: string, m: Buffers)
    requires SendableHead(head) && SendableHeader(header) && Announces(header, body)
    ensures RequestOf(RequestText(head, header, BytesOf(body) + rest), m).Ok?
       <==> Accepted(head, Map(LowerKey, header), body, m)
  {
    RequestRoundTrip(head, header, body, rest, m);
    var t := Lookup(Map(LowerKey, header), CONTENT_TYPE);
    if IsGet(head.verb) {
      IndexOfNone(head.path, '?');
    } else if IsPost(head.verb) && t.Some? && body.Some? {
      BodyAcceptedIff(CStr(t.value), body.value, m);
    }
  }

  lemma BodyAcceptedIff(contentType: CString, body: string, m: Buffers)
    ensures BodyParameters(contentType, Some(body), m).Ok? <==> BodyAccepted(contentType, body, m)
  {
    PrefixCmpZero(contentType, URLENCODED);
    PrefixCmpZero(contentType, FORM_DATA);
    if !OfType(contentType, URLENCODED) && OfType(contentType, FORM_DATA) {
      BufferNotEmpty(contentType, m.fill);
      FormDataAcceptsIff(CStr(body), BoundaryOf(contentType), m.spare);
    }
  }

  const UNSAFE_GET := Head("GET", "/?a&b", "HTTP/1.1")
  const UNTYPED_POST := Head("POST", "/", "HTTP/1.1")

  /** A request line with a blank line behind it. */
  lemma BareRequest(head: Head, m: Buffers)
    requires SendableHead(head)
    ensures RequestOf(HeadLine(head) + (CRLF + CRLF), m).Ok? <==> Accepted(head, [], None, m)
  {
    assert Map(LowerKey, []) == [];
    assert HeaderText([], "" + "") == CRLF;
    ComesThroughIff(head, [], None, "", m);
  }

  /** "GET /?a&b HTTP/1.1": the last segment of the query has no '='. */
  lemma UnsafeQueryFaults(m: Buffers)
    ensures RequestOf(HeadLine(UNSAFE_GET) + (CRLF + CRLF), m) == Fault
  {
    PrintableHead(UNSAFE_GET);
    UnsafeQuery(UNSAFE_GET.path);
    BareRequest(UNSAFE_GET, m);
  }

  predicate Printable(s: string) {
    forall i :: 0 <= i < |s| ==> ' ' <= s[i] <= '~'
  }

  lemma PrintableIsSendable(line: string)
    requires Printable(line)
    ensures Sendable(line)
  {
    assert CRLF[0] == '\r' && SENTINEL > '~';
  }

  lemma PrintableHead(head: Head)
    requires ' ' !in head.verb && ' ' !in head.path
    requires Printable(head.verb) && Printable(head.path) && Printable(head.version)
    ensures SendableHead(head)
  {
    PrintableIsSendable(HeadLine(head));
  }

  lemma UnsafeQuery(path: string)
    requires path == "/?a&b"
    ensures !QueryAccepted(path)
  {
    assert path[1] == '?';
    IndexFromIs(path, '?', 0, 1);
    assert path[2..] == "a&b" && "a&b"[1] == '&';
    LastIndexIsLast("a&b", '&');
  }

  /** "POST / HTTP/1.1": a POST without a content type. */
  lemma UntypedPostFaults(m: Buffers)
    ensures RequestOf(HeadLine(UNTYPED_POST) + (CRLF + CRLF), m) == Fault
  {
    PrintableHead(UNTYPED_POST);
    BareRequest(UNTYPED_POST, m);
  }

  /** A connection that is closed before a byte is sent. */
  lemma EmptyInputFaults(m: Buffers)
    ensures LineOf("", CRLF).0 == Underrun && RequestOf("", m) == Fault
  {
    UnderrunIff("", CRLF);
  }

  // ----- response -----

  /** What `response` prints. */
  function ResponseText(statusLine: string, header: seq<Entry>, body: string): string {
    statusLine + (CRLF + HeaderText(header + [Entry(CONTENT_LENGTH, Dec(|body|))], body))
  }

  /** One `%s: %s` line more. */
  lemma PrintLine(out: string, e: Entry, more: string)
    ensures out + (HeaderLine(e) + (CRLF + more)) == out + e.key + ": " + e.value + CRLF + more
  {
    Regroup(out, HeaderLine(e), CRLF + more);
    Regroup(out + HeaderLine(e), CRLF, more);
    Regroup(out, e.key, ": " + e.value);
    Regroup(out + e.key, ": ", e.value);
  }

  lemma HeaderTextFrom(entries: seq<Entry>, i: nat, last: Entry, body: string)
    requires i < |entries|
    ensures HeaderText(entries[i..] + [last], body)
         == HeaderLine(entries[i]) + (CRLF + HeaderText(entries[i + 1..] + [last], body))
  {
    assert (entries[i..] + [last])[1..] == entries[i + 1..] + [last];
  }

  /** The header loop: every entry goes out, in list order. */
  method PrintHeader(header: DicList, before: string, ghost last: Entry, ghost body: string) returns (out: string)
    requires header.Valid()
    ensures before + HeaderText(header.Contents + [last], body) == out + HeaderText([last], body)
  {
    ghost var entries := header.Contents;
    ghost var all := before + HeaderText(entries + [last], body);
    assert entries[0..] == entries;
    out := before;
    ghost var i := 0;
    var it := header.head;
    while it != null
      invariant 0 <= i <= |header.nodes| && it == At(header.nodes, i)
      invariant all == out + HeaderText(entries[i..] + [last], body)
      decreases |header.nodes| - i
    {
      HeaderTextFrom(entries, i, last, body);
      PrintLine(out, Entry(it.key, it.value), HeaderText(entries[i + 1..] + [last], body));
      out := out + it.key + ": " + it.value + CRLF;
      it := it.next;
      i := i + 1;
    }
    assert entries[i..] + [last] == [last];
  }

  /** What goes to the socket; `header` may be NULL. */
  method Response(status: nat, reason: string, version: string, header: DicList?, body: CString) returns (out: string)
    requires header != null ==> header.Valid()
    ensures out == ResponseText(version + " " + Dec(status) + " " + reason,
                                if header == null then [] else header.Contents, body)
  {
    var statusLine := version + " " + Dec(status) + " " + reason;
    ghost var last := Entry(CONTENT_LENGTH, Dec(|body|));
    ghost var entries := if header == null then [] else header.Contents;
    ghost var all := statusLine + (CRLF + HeaderText(entries + [last], body));
    Regroup(statusLine, CRLF, HeaderText(entries + [last], body));
    out := statusLine + CRLF;
    if header != null {
      out := PrintHeader(header, out, last, body);
    } else {
      assert [] + [last] == [last];
    }
    assert all == out + HeaderText([last], body);
    assert HeaderText([last], body) == HeaderLine(last) + (CRLF + (CRLF + body));
    PrintLine(out, last, CRLF + body);
    out := out + CONTENT_LENGTH + ": " + Dec(|body|) + CRLF;
    Regroup(out, CRLF, body);
    out := out + CRLF;
    out := out + body;
  }

  /** The header and body that a response carries are read back by the header reader of
      this very server, all entries, the added length last, and the whole body, exactly
      when the first content-length among the entries given, if any, tells the length. */
  lemma ResponseRoundTripIff(statusLine: string, header: seq<Entry>, body: string, rest: string)
    requires Sendable(statusLine) && SendableHeader(header)
    ensures var sent := header + [Entry(CONTENT_LENGTH, Dec(|body|))];
            var text := ResponseText(statusLine, header, body) + rest;
            var own := Lookup(Map(LowerKey, header), CONTENT_LENGTH);
            && LineOf(text, CRLF)
                 == (if statusLine == "" then Blank else Text(statusLine), HeaderText(sent, body + rest))
            && ((HeaderAndBody(HeaderText(sent, body + rest)) == Ok((Map(LowerKey, sent), Some(body), rest)))
                <==> (own.None? || Atoi(CStr(own.value)) == |body|))
  {
    var sent := header + [Entry(CONTENT_LENGTH, Dec(|body|))];
    TailLast(sent, body, rest);
    Regroup(statusLine, CRLF + HeaderText(sent, body), rest);
    Regroup(CRLF, HeaderText(sent, body), rest);
    LineRoundTrip(statusLine, HeaderText(sent, body + rest));
    LengthIsSendable(|body|);
    HeadersRoundTrip(sent, body + rest);
    FirstLength(header, |body|);
    BodyIff(sent, body, rest);
  }

  lemma FirstLength(header: seq<Entry>, n: nat)
    ensures var own := Lookup(Map(LowerKey, header), CONTENT_LENGTH);
            Lookup(Map(LowerKey, header + [Entry(CONTENT_LENGTH, Dec(n))]), CONTENT_LENGTH)
              == if own.Some? then own else Some(Dec(n))
  {
    var last := Entry(CONTENT_LENGTH, Dec(n));
    MapConcat(LowerKey, header, [last]);
    MapOne(LowerKey, last);
    LookupAppend(Map(LowerKey, header), [LowerKey(last)], CONTENT_LENGTH);
    LowerLength();
  }

  lemma BodyIff(sent: seq<Entry>, body: string, rest: string)
    requires Lookup(Map(LowerKey, sent), CONTENT_LENGTH).Some?
    ensures var v := Lookup(Map(LowerKey, sent), CONTENT_LENGTH).value;
            (BodyOf(Map(LowerKey, sent), body + rest) == Ok((Some(body), rest)))
              <==> (Atoi(CStr(v)) == |body|)
    ensures Atoi(CStr(Dec(|body|))) == |body|
  {
    DecimalLength(|body|);
    if Announces(sent, Some(body)) { BodyRoundTrip(sent, Some(body), rest); }
  }

  lemma LowerLength()
    ensures Lower(CONTENT_LENGTH) == CONTENT_LENGTH
  {
    assert forall i :: 0 <= i < |CONTENT_LENGTH| ==> !('A' <= CONTENT_LENGTH[i] <= 'Z');
  }

  lemma LengthIsSendable(n: nat)
    ensures SendableEntry(Entry(CONTENT_LENGTH, Dec(n)))
  {
    var line := HeaderLine(Entry(CONTENT_LENGTH, Dec(n)));
    forall i | 0 <= i < |line| ensures line[i] != '\r' && line[i] != NUL && line[i] != SENTINEL {
      if i >= |CONTENT_LENGTH| + 2 {
        assert line[i] == Dec(n)[i - |CONTENT_LENGTH| - 2];
        assert line[i] in Dec(n);
      }
    }
  }

  /** What follows the text of a header follows its tail. */
  lemma {:induction false} TailLast(header: seq<Entry>, tail: string, rest: string)
    ensures HeaderText(header, tail) + rest == HeaderText(header, tail + rest)
    decreases |header|
  {
    if header == [] {
      Regroup(CRLF, tail, rest);
    } else {
      TailLast(header[1..], tail, rest);
      Regroup(HeaderLine(header[0]), CRLF + HeaderText(header[1..], tail), rest);
      Regroup(CRLF, HeaderText(header[1..], tail), rest);
    }
  }
}

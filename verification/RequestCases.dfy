/** What parse_request does with every kind of line, body and type, in the words and numbers
    of the protocol (section 3 of RFC 7230). */
module RequestCases {
  import opened BodyDecomposition
  import opened CStrings
  import opened DictionaryLists
  import opened FormDataFields
  import opened Multipart
  import opened MultipartRoundTrip
  import opened ReadStreams
  import opened RequestRoundTrip
  import opened Requests
  import opened UrlForms
  import opened Wrappers

  // ----- the request line -----

  /** A line is a request line exactly when it has two blanks; its parts are the texts
      around the first two. */
  lemma RequestLineIff(line: string, head: Head)
    ensures (RequestLine(line) == Ok(head)) <==>
              (line == head.verb + " " + head.path + " " + head.version
               && ' ' !in head.verb && ' ' !in head.path)
    ensures RequestLine(line).Ok? <==> TwoBlanks(line)
  {
    RequestLineParts(line);
    RequestLineBlanks(line);
    if line == head.verb + " " + head.path + " " + head.version && ' ' !in head.verb && ' ' !in head.path {
      BlanksParse(line, head);
    }
  }

  ghost predicate TwoBlanks(line: string) {
    exists i, j :: 0 <= i < j < |line| && line[i] == ' ' && line[j] == ' '
  }

  lemma RequestLineParts(line: string)
    ensures RequestLine(line).Ok? ==>
              var head := RequestLine(line).value;
              && line == head.verb + " " + head.path + " " + head.version
              && ' ' !in head.verb && ' ' !in head.path
  {
    var first := IndexOf(line, ' ');
    if first != -1 && IndexFrom(line, ' ', first + 1) != -1 {
      var second := IndexFrom(line, ' ', first + 1);
      IndexFromFirst(line, ' ', 0);
      IndexFromFirst(line, ' ', first + 1);
      assert line == line[..first] + " " + line[first + 1..second] + " " + line[second + 1..];
    }
  }

  lemma RequestLineBlanks(line: string)
    ensures RequestLine(line).Ok? <==> TwoBlanks(line)
  {
    var first := IndexOf(line, ' ');
    IndexFromFirst(line, ' ', 0);
    if first != -1 {
      IndexFromFirst(line, ' ', first + 1);
      var second := IndexFrom(line, ' ', first + 1);
      if second != -1 { assert line[first] == ' ' && line[second] == ' '; }
    }
  }

  lemma BlanksParse(line: string, head: Head)
    requires line == head.verb + " " + head.path + " " + head.version
    requires ' ' !in head.verb && ' ' !in head.path
    ensures RequestLine(line) == Ok(head)
  {
    var first, second := |head.verb|, |head.verb| + 1 + |head.path|;
    BlanksAt(line, head);
    IndexFromIs(line, ' ', 0, first);
    IndexFromIs(line, ' ', first + 1, second);
  }

  lemma BlanksAt(line: string, head: Head)
    requires line == head.verb + " " + head.path + " " + head.version
    requires ' ' !in head.verb && ' ' !in head.path
    ensures var first, second := |head.verb|, |head.verb| + 1 + |head.path|;
            && line[..first] == head.verb && line[first + 1..second] == head.path && line[second + 1..] == head.version
            && line[first] == ' ' && line[second] == ' '
            && (forall i :: 0 <= i < second && i != first ==> line[i] != ' ')
  {
    var first, second := |head.verb|, |head.verb| + 1 + |head.path|;
    assert forall i :: 0 <= i < first ==> line[i] == head.verb[i];
    assert forall i :: first < i < second ==> line[i] == head.path[i - first - 1];
  }

  /** The first line is the request line; a blank one is a NULL that is dereferenced. */
  lemma FirstLine(line: string, rest: string)
    requires Sendable(line)
    ensures HeadOf(line + (CRLF + rest)) ==
              if line == "" then Fault
              else match RequestLine(line) case Fault => Fault case Ok(head) => Ok((head, rest))
  {
    LineRoundTrip(line, rest);
  }

  // ----- header lines -----

  /** The key is lowered, one character behind the ':' is skipped whatever it is, and a line
      without ':' gives nothing. */
  lemma HeaderEntryIs(key: string, skipped: char, value: string)
    requires ':' !in key
    ensures HeaderEntry(key + ":" + [skipped] + value) == [Entry(Lower(key), value)]
    ensures HeaderEntry(key + ":") == [Entry(Lower(key), "")]
    ensures HeaderEntry(key) == []
  {
    ColonAt(key, [skipped] + value);
    ColonAt(key, "");
    assert key + ":" + [skipped] + value == key + ":" + ([skipped] + value);
    assert key + ":" == key + ":" + "";
    var line := key + ":" + ([skipped] + value);
    assert line[..|key|] == key && line[|key| + 2..] == value;
    assert (key + ":")[..|key|] == key;
    IndexOfNone(key, ':');
  }

  lemma ColonAt(key: string, more: string)
    requires ':' !in key
    ensures IndexOf(key + ":" + more, ':') == |key|
  {
    IndexOfAfterText(key, ':', more);
  }

  /** However a key is spelled, its entry has the lower-case word. */
  lemma AnySpelling(k: string, word: string, v: string)
    requires Spells(k, word) && LowerCase(word) && ':' !in word
    ensures HeaderEntry(k + ": " + v) == [Entry(word, v)]
  {
    LowerOfSpelling(k, word);
    forall i | 0 <= i < |k| ensures k[i] != ':' { assert word[i] in word; }
    HeaderEntryIs(k, ' ', v);
    assert k + ": " + v == k + ":" + [' '] + v;
  }

  lemma AnyContentLength(k: string, v: string)
    requires Spells(k, "content-length")
    ensures HeaderEntry(k + ": " + v) == [Entry("content-length", v)]
  {
    AnySpelling(k, "content-length", v);
  }

  /** Any line is read on its own, and a blank one ends the header. */
  lemma HeaderLineByLine(line: string, rest: string)
    requires Sendable(line)
    ensures Headers(line + (CRLF + rest)) ==
              if line == "" then Ok(([], rest)) else PrependEntries(HeaderEntry(line), Headers(rest))
  {
    LineRoundTrip(line, rest);
  }

  /** A header without a blank line is never taken for one, wherever the input ends. */
  lemma {:induction false} TruncatedHeaderFaults(lines: seq<string>, last: string)
    requires forall i :: 0 <= i < |lines| ==> lines[i] != "" && Sendable(lines[i])
    requires Sendable(last)
    ensures Headers(Lines(lines, last)) == Fault
    decreases |lines|
  {
    if lines == [] {
      LineAtEnd(last, "");
      assert last + "" == last;
      UnderrunIff("", CRLF);
      assert HeadersFrom(Underrun, "") == Fault;
      assert |last| >= 2 ==> Headers(last) == PrependEntries(HeaderEntry(last), HeadersFrom(Underrun, ""));
    } else {
      TruncatedHeaderFaults(lines[1..], last);
      HeaderLineByLine(lines[0], Lines(lines[1..], last));
    }
  }

  // ----- the body -----

  /** No length, no body; a negative one is a fault; otherwise that many bytes, filled up with
      the byte 255 where the input is too short. */
  lemma BodyIs(header: seq<Entry>, r: string, n: int)
    requires Lookup(header, "content-length").Some? ==> n == Atoi(CStr(Lookup(header, "content-length").value))
    ensures Lookup(header, "content-length").None? ==> BodyOf(header, r) == Ok((None, r))
    ensures Lookup(header, "content-length").Some? && n < 0 ==> BodyOf(header, r) == Fault
    ensures Lookup(header, "content-length").Some? && n >= 0 ==>
              && BodyOf(header, r).Ok? && BodyOf(header, r).value.0.Some?
              && var body, left := BodyOf(header, r).value.0.value, BodyOf(header, r).value.1;
                 if n <= |r| then body == r[..n] && left == r[n..] else body == r + Filler(n - |r|) && left == ""
  {
    if n >= 0 { TakenIs(r, n); }
  }

  function Filler(n: nat): (s: string)
    ensures |s| == n && forall i :: 0 <= i < n ==> s[i] as int == 255
  {
    seq(n, _ => 255 as char)
  }

  lemma TakenIs(r: string, n: nat)
    ensures n <= |r| ==> Block(r, n) == r[..n] && Drop(r, n) == r[n..]
    ensures n > |r| ==> Block(r, n) == r + Filler(n - |r|) && Drop(r, n) == ""
  {
    if n > |r| {
      forall i | |r| <= i < n ensures Block(r, n)[i] == (r + Filler(n - |r|))[i] {
        assert Filler(n - |r|)[i - |r|] as int == 255;
      }
    }
  }

  /** The length may be spelled in any case, and be any text that atoi takes for it. */
  lemma AnyLengthHeader(head: Head, k: string, v: string, body: string, rest: string, m: Buffers)
    requires SendableHead(head) && IsOther(head.verb) && Atoi(CStr(v)) == |body|
    requires Spells(k, "content-length") && SendableEntry(Entry(k, v))
    ensures RequestOf(RequestText(head, [Entry(k, v)], body + rest), m)
         == Ok((RequestView(head, [Entry("content-length", v)], Some(body), []), rest))
  {
    var header := [Entry(k, v)];
    SpelledLength(k, v);
    assert Announces(header, Some(body));
    OtherRequest(head, header, body, rest, m);
  }

  lemma OtherRequest(head: Head, header: seq<Entry>, body: string, rest: string, m: Buffers)
    requires SendableHead(head) && SendableHeader(header) && Announces(header, Some(body)) && IsOther(head.verb)
    ensures RequestOf(RequestText(head, header, body + rest), m)
         == Ok((RequestView(head, Map(LowerKey, header), Some(body), []), rest))
  {
    RequestRoundTrip.RequestRoundTrip(head, header, Some(body), rest, m);
    OtherParameters(head, Map(LowerKey, header), Some(body), m);
  }

  lemma SpelledLength(k: string, v: string)
    requires Spells(k, "content-length")
    ensures Map(LowerKey, [Entry(k, v)]) == [Entry("content-length", v)]
    ensures Lookup(Map(LowerKey, [Entry(k, v)]), "content-length") == Some(v)
  {
    LowerOfSpelling(k, "content-length");
    MapOne(LowerKey, Entry(k, v));
    assert [Entry("content-length", v)][0].key == "content-length";
  }

  // ----- the parameters -----

  /** A GET, in either spelling: nothing without a '?', else the form behind the first. */
  lemma GetParameters(head: Head, header: seq<Entry>, body: Option<string>, m: Buffers, base: string, query: string)
    requires head.verb == "get" || head.verb == "GET"
    ensures '?' !in head.path ==> ParametersOf(head, header, body, m) == Ok([])
    ensures '?' !in base && head.path == base + ("?" + query) ==>
              ParametersOf(head, header, body, m) == if FormSafe(query) then Ok(FormEntries(query)) else Fault
  {
    IndexOfNone(head.path, '?');
    if '?' !in base { QueryIn(base, query); }
  }

  predicate IsOther(verb: string) {
    verb != "get" && verb != "GET" && verb != "post" && verb != "POST"
  }

  /** Other methods than these two have no parameters. */
  lemma OtherParameters(head: Head, header: seq<Entry>, body: Option<string>, m: Buffers)
    requires IsOther(head.verb)
    ensures ParametersOf(head, header, body, m) == Ok([])
  {
  }

  /** A POST, in either spelling: the type has to be given, and only two are looked into. A
      type that is a prefix of one of these, such as the empty one, is taken for it. */
  lemma PostParametersIs(head: Head, header: seq<Entry>, body: Option<string>, m: Buffers)
    requires head.verb == "post" || head.verb == "POST"
    ensures ParametersOf(head, header, body, m) ==
              match Lookup(header, "content-type")
              case None => Fault
              case Some(v) =>
                if body.None? then Ok([])
                else if OfType(CStr(v), "application/x-www-form-urlencoded") then
                  if FormSafe(CStr(body.value)) then Ok(FormEntries(CStr(body.value))) else Fault
                else if OfType(CStr(v), "multipart/form-data") then MultipartParameters(CStr(v), CStr(body.value), m)
                else Ok([])
  {
    var t := Lookup(header, CONTENT_TYPE);
    if t.Some? {
      PrefixCmpZero(CStr(t.value), URLENCODED);
      PrefixCmpZero(CStr(t.value), FORM_DATA);
      if body.Some? { DelimiterIs(CStr(t.value), m); }
    }
  }

  /** With a terminator behind the delimiter, its parts; without one, nothing but a fault. */
  function MultipartParameters(contentType: string, body: string, m: Buffers): Outcome<seq<Entry>> {
    if body == "" then Ok([])
    else if m.fill != '\0' then Fault
    else
      match FormData(body, "--" + BehindEqual(contentType), m.spare)
      case Fault => Fault
      case Ok(fields) => Ok(Map(FieldEntry, fields))
  }

  /** The text behind the first '=', or all of it. */
  function BehindEqual(contentType: string): string {
    if '=' in contentType then contentType[|BeforeEqual(contentType)| + 1..] else contentType
  }

  lemma DelimiterIs(contentType: CString, m: Buffers)
    ensures NUL in BoundaryBuffer(contentType, m.fill) <==> m.fill == '\0'
    ensures m.fill == '\0' ==> CStr(BoundaryBuffer(contentType, m.fill)) == "--" + BehindEqual(contentType)
  {
    BufferNotEmpty(contentType, m.fill);
    var k := BeforeEqual(contentType);
    if '=' in contentType {
      IndexFromIs(contentType, '=', 0, |k|);
    } else {
      IndexOfNone(contentType, '=');
    }
  }

  /** A form sent as parts in a POST, with a terminator behind the boundary: the names and
      values of its fields are the parameters. */
  lemma PostFieldsRoundTrip(head: Head, header: seq<Entry>, rest: string, boundary: string, kind: string,
                            xs: seq<SentField>, values: seq<string>, preamble: string, epilogue: string, m: Buffers)
    requires SendableHead(head) && SendableHeader(header) && m.fill == '\0'
    requires head.verb == "post" || head.verb == "POST"
    requires HasContentType(header, "multipart/form-data" + "; boundary=" + boundary) && '\r' !in boundary
    requires NUL !in preamble && var b := "--" + boundary;
             && Find(preamble + Body(AsParts(kind, xs), b, epilogue), b) == |preamble|
             && Announces(header, Some(preamble + Body(AsParts(kind, xs), b, epilogue)))
             && forall i :: 0 <= i < |xs| ==> FieldSendable(kind, xs[i], b) && FieldKept(xs[i], m.spare)
    requires |values| == |xs| && forall i :: 0 <= i < |xs| ==> ValueOf(xs[i], values[i])
    ensures var body := preamble + Body(AsParts(kind, xs), "--" + boundary, epilogue);
            RequestOf(RequestText(head, header, body + rest), m)
              == Ok((RequestView(head, Map(LowerKey, header), Some(body), NamesAndValues(xs, values)), rest))
  {
    var form, b := Form(preamble, AsParts(kind, xs), epilogue), "--" + boundary;
    FieldsAreFramed(kind, xs, b);
    assert FormBody(form, b) == preamble + Body(AsParts(kind, xs), b, epilogue);
    PostPartsRoundTrip(head, header, rest, boundary, form, m);
    FormDataRoundTrip(preamble, AsParts(kind, xs), b, epilogue, m.spare);
    EntriesRoundTrip(kind, preamble, xs, values, b, epilogue, m.spare);
  }

  lemma FieldsAreFramed(kind: string, xs: seq<SentField>, b: string)
    requires Delimiter(b) && forall i :: 0 <= i < |xs| ==> FieldSendable(kind, xs[i], b)
    ensures forall i :: 0 <= i < |xs| ==> Framed(AsParts(kind, xs)[i], b)
  {
    forall i | 0 <= i < |xs| ensures Framed(AsParts(kind, xs)[i], b) {
      SentIsFramed(PartHeaders(kind, xs[i]), xs[i].content, b);
    }
  }

  // ----- what goes over the wire -----

  /** One response, byte by byte. */
  lemma ResponseExample()
    ensures ResponseText("HTTP/1.1 200 OK", [Entry("a", "b")], "hi")
         == "HTTP/1.1 200 OK\r\n" + "a: b\r\n" + "content-length: 2\r\n" + "\r\nhi"
  {
    var last := Entry(CONTENT_LENGTH, Dec(2));
    DecIs(2);
    assert [Entry("a", "b")] + [last] == [Entry("a", "b"), last];
    assert [Entry("a", "b"), last][1..] == [last] && [last][1..] == [];
    assert HeaderText([], "hi") == "\r\nhi";
    assert HeaderLine(last) == "content-length: 2" && HeaderLine(Entry("a", "b")) == "a: b";
    assert HeaderText([last], "hi") == "content-length: 2" + ("\r\n" + "\r\nhi");
    assert HeaderText([Entry("a", "b"), last], "hi") == "a: b" + ("\r\n" + HeaderText([last], "hi"));
  }

  /** A status is printed without leading zeros. */
  lemma StatusExample()
    ensures Dec(200) == "200" && Dec(404) == "404" && Dec(0) == "0"
  {
    DecIs(200); DecIs(20); DecIs(2);
    DecIs(404); DecIs(40); DecIs(4);
    DecIs(0);
  }
}

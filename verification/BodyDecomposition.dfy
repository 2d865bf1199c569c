/** Which bodies parse_formdata comes through, whoever put them together: the ones that can
    be taken apart into parts that it keeps. */
module BodyDecomposition {
  import opened CStrings
  import opened FormDataFields
  import opened Multipart
  import opened MultipartRoundTrip
  import opened ReadStreams

  datatype Form = Form(preamble: string, parts: seq<Part>, epilogue: string)

  function FormBody(form: Form, b: string): string {
    form.preamble + Body(form.parts, b, form.epilogue)
  }

  /** The delimiters that the form puts into a body are the ones that are found in it. */
  ghost predicate FormFramed(form: Form, b: string) {
    && NUL !in form.preamble && Find(FormBody(form, b), b) == |form.preamble|
    && forall i :: 0 <= i < |form.parts| ==> Framed(form.parts[i], b)
  }

  ghost predicate FormKept(form: Form, spare: nat) {
    forall i :: 0 <= i < |form.parts| ==> PartKept(form.parts[i], spare)
  }

  /** The form is a way to take `s` apart, into parts that are kept. */
  ghost predicate TakesApart(form: Form, s: string, b: string, spare: nat) {
    FormBody(form, b) == s && FormFramed(form, b) && FormKept(form, spare)
  }

  // ----- from the parser's success back to the text -----

  /** Where header lines were scanned there are lines, a blank one, and more text. */
  lemma {:induction false} HeadersDecompose(s: CString, k: nat, f: Fields) returns (lines: seq<string>, start: nat)
    requires k <= |s| && HeaderFields(s, k, f).Ok? && HeaderFields(s, k, f).value.1 < |s|
    ensures start == HeaderFields(s, k, f).value.1
    ensures HeaderLines(lines) && s[k..] == Lines(lines, CRLF + s[start..])
    decreases |s| - k
  {
    var cr := FindFrom(s, CRLF, k);
    assert s[cr..cr + 2] == CRLF;
    if cr == k {
      lines, start := [], AfterLine(s, k);
      assert s[k..] == s[k..k + 2] + s[k + 2..];
    } else {
      var g, next := LineFields(s, k, cr, f), AfterLine(s, k);
      HeaderFieldsStep(s, k, f);
      var more;
      more, start := HeadersDecompose(s, next, g.value);
      lines := LineDecompose(s, k, more, CRLF + s[start..]);
    }
  }

  lemma LineDecompose(s: CString, k: nat, more: seq<string>, tail: string) returns (lines: seq<string>)
    requires FindFrom(s, CRLF, k) > k
    requires HeaderLines(more) && s[AfterLine(s, k)..] == Lines(more, tail)
    ensures HeaderLines(lines) && s[k..] == Lines(lines, tail)
  {
    var cr := FindFrom(s, CRLF, k);
    var line := s[k..cr];
    lines := [line] + more;
    FindFromFirst(s, CRLF, k);
    forall j | 0 <= j < |line| - 1 && line[j] == '\r' ensures line[j + 1] != '\n' {
      MatchAtTwo(s, CRLF, k + j);
    }
    assert lines[1..] == more;
    assert s[cr..cr + 2] == CRLF;
    assert s[k..] == line + (s[cr..cr + 2] + s[cr + 2..]);
  }

  lemma SplitAfter(s: string, k: nat, w: string)
    requires MatchAt(s, w, k)
    ensures s[k..] == w + s[k + |w|..]
  {
    assert s[k..] == s[k..k + |w|] + s[k + |w|..];
  }

  lemma SplitContent(s: string, start: nat, e: nat, b: string)
    requires start <= e - 2 && MatchAt(s, b, e)
    ensures s[start..] == s[start..e - 2] + (s[e - 2..e] + (b + s[e + |b|..]))
  {
    SplitAfter(s, e, b);
    assert s[e - 2..] == s[e - 2..e] + s[e..];
    assert s[start..] == s[start..e - 2] + s[e - 2..];
  }

  lemma PartAtOk(s: string, k: nat, b: string, spare: nat) returns (start: nat, e: nat)
    requires k <= |s| && PartAt(s, b, k, spare).Ok?
    ensures HeaderFields(s, k, NO_FIELDS).Ok? && start == HeaderFields(s, k, NO_FIELDS).value.1
    ensures e == PartAt(s, b, k, spare).value.1 == FindFrom(s, b, start) && k <= start <= e - 3
  {
    start, e := HeaderFields(s, k, NO_FIELDS).value.1, PartAt(s, b, k, spare).value.1;
  }

  /** Where a part was cut out, and a delimiter found behind it, there is a part. */
  lemma PartDecompose(s: CString, k: nat, skipped: string, b: string, spare: nat) returns (p: Part, e: nat)
    requires k <= |s| && b != "" && PartAt(s, b, k, spare).Ok?
    requires |skipped| == 2 && skipped != "--" && NUL !in skipped
    ensures e == PartAt(s, b, k, spare).value.1 && MatchAt(s, b, e) && k < e
    ensures p.skipped == skipped && Framed(p, b) && s[k..] == Following(p, b, s[e + |b|..])
  {
    var from, stop := PartAtOk(s, k, b, spare);
    e := stop;
    var lines, start := HeadersDecompose(s, k, NO_FIELDS);
    p := Part(skipped, lines, s[start..e - 2], s[e - 2..e]);
    SplitContent(s, start, e, b);
    FirstBehind(s, start, e, b);
  }

  lemma FirstBehind(s: string, start: nat, e: nat, b: string)
    requires start <= e - 2 && FindFrom(s, b, start) == e
    ensures Find(s[start..e - 2] + (s[e - 2..e] + b), b) == e - start
  {
    var t, r := s[start..e - 2] + (s[e - 2..e] + b), e - start;
    SplitContent(s, start, e, b);
    assert forall x :: 0 <= x < |t| ==> t[x] == s[x + start];
    FindFromFirst(s, b, start);
    forall j | 0 <= j < r ensures !MatchAt(t, b, j) {
      SameSlice(t, j, s, j + start, |b|);
      assert !MatchAt(s, b, j + start);
    }
    SameSlice(t, r, s, r + start, |b|);
    FindFromIs(t, b, 0, r);
  }

  /** Behind a delimiter, a text that is parsed is a sequence of parts and an epilogue. */
  lemma {:induction false} PartsDecompose(s: CString, k: nat, after: nat, b: string, spare: nat)
    returns (parts: seq<Part>, epilogue: string)
    requires b != "" && MatchAt(s, b, k) && after == k + |b| && Parts(s, b, k, spare).Ok?
    ensures s[after..] == Behind(parts, b, epilogue)
    ensures forall i :: 0 <= i < |parts| ==> Framed(parts[i], b)
    decreases |s| - k
  {
    FindFromIs(s, b, k, k);
    if MatchAt(s, "--", after) {
      parts, epilogue := [], s[after + 2..];
      SplitAfter(s, after, "--");
    } else {
      var p, e, next := FirstPart(s, k, after, b, spare);
      var more;
      more, epilogue := PartsDecompose(s, e, next, b, spare);
      parts := PartBefore(p, more, b, s[after..], epilogue);
    }
  }

  lemma PartBefore(p: Part, more: seq<Part>, b: string, text: string, epilogue: string) returns (parts: seq<Part>)
    requires text == p.skipped + Following(p, b, Behind(more, b, epilogue))
    requires Framed(p, b) && forall i :: 0 <= i < |more| ==> Framed(more[i], b)
    ensures Behind(parts, b, epilogue) == text
    ensures forall i :: 0 <= i < |parts| ==> Framed(parts[i], b)
  {
    parts := [p] + more;
    assert parts[1..] == more;
  }

  lemma FirstPart(s: CString, k: nat, after: nat, b: string, spare: nat) returns (p: Part, e: nat, next: nat)
    requires b != "" && k <= |s| && after == AfterDelimiter(s, b, k) && !MatchAt(s, "--", after)
    requires Parts(s, b, k, spare).Ok?
    ensures k < e && MatchAt(s, b, e) && Parts(s, b, e, spare).Ok? && Framed(p, b)
    ensures next == e + |b| && s[after..] == p.skipped + Following(p, b, s[next..])
  {
    var start := PartStart(s, b, k);
    PartsStep(s, b, k, spare);
    var skipped := SplitSkipped(s, after, start);
    p, e := PartDecompose(s, start, skipped, b, spare);
    next := e + |b|;
  }

  lemma SplitSkipped(s: CString, after: nat, start: nat) returns (skipped: string)
    requires start == after + 2 <= |s| && !MatchAt(s, "--", after)
    ensures |skipped| == 2 && skipped != "--" && NUL !in skipped && s[after..] == skipped + s[start..]
  {
    skipped := s[after..start];
  }

  // ----- the bodies that are parsed -----

  /** A body comes through exactly when it is empty, or has no delimiter but two dashes at
      its start, or can be taken apart into parts that are kept. */
  lemma FormDataAcceptsIff(s: CString, b: CString, spare: nat)
    requires b != ""
    ensures FormData(s, b, spare).Ok?
       <==> s == "" || (Find(s, b) == -1 && "--" <= s) || exists form :: TakesApart(form, s, b, spare)
  {
    if FormData(s, b, spare).Ok? && s != "" && Find(s, b) != -1 {
      var form := FormDecompose(s, b, spare);
      FormKeptIff(form, b, spare);
      assert TakesApart(form, s, b, spare);
    }
    if Find(s, b) == -1 { AbsentDelimiter(s, b, spare); }
    if exists form :: TakesApart(form, s, b, spare) {
      var form :| TakesApart(form, s, b, spare);
      FormKeptIff(form, b, spare);
    }
  }

  lemma FormKeptIff(form: Form, b: CString, spare: nat)
    requires b != "" && FormFramed(form, b)
    ensures FormData(CStr(FormBody(form, b)), b, spare).Ok? <==> FormKept(form, spare)
  {
    FormDataIff(form.preamble, form.parts, b, form.epilogue, spare);
  }

  lemma FormDecompose(s: CString, b: CString, spare: nat) returns (form: Form)
    requires b != "" && s != "" && Find(s, b) != -1 && FormData(s, b, spare).Ok?
    ensures FormBody(form, b) == s && FormFramed(form, b)
  {
    var k := Find(s, b);
    FindFromFirst(s, b, 0);
    FindFromIs(s, b, k, k);
    SameParts(s, b, 0, k, spare);
    var parts, epilogue := PartsDecompose(s, k, k + |b|, b, spare);
    SplitAfter(s, k, b);
    form := Form(s[..k], parts, epilogue);
    assert s == s[..k] + s[k..];
  }

  /** However it is taken apart, what is kept are the fields of the parts. */
  lemma AnyWayTheSame(form: Form, s: CString, b: CString, spare: nat)
    requires b != ""
    ensures TakesApart(form, s, b, spare) ==> FormData(s, b, spare) == PartFields(form.parts, spare)
  {
    if TakesApart(form, s, b, spare) {
      FormDataRoundTrip(form.preamble, form.parts, b, form.epilogue, spare);
    }
  }
}

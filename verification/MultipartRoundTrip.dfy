/** What parse_formdata gets out of a body of parts. */
module MultipartRoundTrip {
  import opened CStrings
  import opened Multipart
  import opened ReadStreams
  import opened Wrappers

  // ----- a body as the parser takes it apart -----

  /** What lies between two delimiters: two characters that are skipped unread, header lines
      with a blank one behind them, a content, and two more characters. */
  datatype Part = Part(skipped: string, headers: seq<string>, content: string, gap: string)

  /** Each line with its CRLF, then `tail`. */
  function Lines(lines: seq<string>, tail: string): string {
    if lines == [] then tail else lines[0] + (CRLF + Lines(lines[1..], tail))
  }

  /** What follows a delimiter: the two dashes that close the body, or a part. */
  function Behind(parts: seq<Part>, b: string, epilogue: string): string {
    if parts == [] then "--" + epilogue
    else
      var p := parts[0];
      p.skipped + Lines(p.headers, CRLF + (p.content + (p.gap + (b + Behind(parts[1..], b, epilogue)))))
  }

  function Body(parts: seq<Part>, b: string, epilogue: string): string {
    b + Behind(parts, b, epilogue)
  }

  ghost predicate Absent(s: string, b: string) {
    forall j :: 0 <= j <= |s| - |b| ==> !MatchAt(s, b, j)
  }

  /** The delimiter behind the part is the first one from the start of its content on. */
  ghost predicate Framed(p: Part, b: string) {
    && |p.skipped| == 2 && p.skipped != "--" && NUL !in p.skipped && HeaderLines(p.headers)
    && |p.gap| == 2 && NUL !in p.gap && Find(p.content + (p.gap + b), b) == |p.content| + 2
  }

  ghost predicate HeaderLines(lines: seq<string>) {
    forall i :: 0 <= i < |lines| ==> lines[i] != "" && NoCRLF(lines[i]) && NUL !in lines[i]
  }

  // ----- a part as a client sends it (section 5.1.1 of RFC 2046) -----

  /** Both gaps are line ends. */
  function SentPart(headers: seq<string>, content: string): Part {
    Part(CRLF, headers, content, CRLF)
  }

  /** Header lines are text; the content may be anything without the delimiter. */
  ghost predicate SendablePart(headers: seq<string>, content: string, b: string) {
    HeaderLines(headers) && Absent(content, b)
  }

  /** "--" and the boundary parameter, which has no CR in it. */
  ghost predicate Delimiter(b: string) {
    |b| >= 2 && b[0] == '-' && b[1] == '-' && '\r' !in b && NUL !in b
  }

  // ----- what the parser is meant to find -----

  /** The fields that a list of header lines sets, each line read on its own. */
  function LinesFields(lines: seq<string>, f: Fields): Outcome<Fields> {
    if lines == [] then Ok(f)
    else
      match LineFields(lines[0], 0, |lines[0]|, f)
      case Fault => Fault
      case Ok(g) => LinesFields(lines[1..], g)
  }

  /** The field of one part: its content without the last octet, if there is one. A NUL in
      the content hides the delimiter behind it; a file value has to fit its buffer. */
  function PartField(p: Part, spare: nat): Outcome<Field> {
    match LinesFields(p.headers, NO_FIELDS)
    case Fault => Fault
    case Ok(f) =>
      if p.content == "" || NUL in p.content then Fault
      else
        var kept := p.content[..|p.content| - 1];
        if !ValueFits(f.filename, kept, spare) || f.key.None? then Fault else Ok(Field(f.key.value, f.filename, kept))
  }

  function PartFields(parts: seq<Part>, spare: nat): Outcome<seq<Field>> {
    if parts == [] then Ok([])
    else
      match PartField(parts[0], spare)
      case Fault => Fault
      case Ok(field) => Prepend([field], PartFields(parts[1..], spare))
  }

  // ----- one line at a time -----

  /** `a` comes first in the rest of `s`. */
  lemma Chop(s: string, k: nat, a: string, rest: string)
    requires k <= |s| && s[k..] == a + rest
    ensures k + |a| <= |s| && s[k..k + |a|] == a && s[k + |a|..] == rest
  {
    assert s[k..k + |a|] == s[k..][..|a|];
    assert s[k + |a|..] == s[k..][|a|..];
  }

  /** The line `line` lies in `s` at `k` and a CR follows it. */
  ghost predicate LineAt(s: string, k: nat, line: string) {
    k + |line| < |s| && s[k + |line|] == '\r' && s[k..k + |line|] == line
  }

  lemma SliceInLine(s: string, k: nat, line: string, from: nat, to: nat)
    requires LineAt(s, k, line) && from <= to <= |line|
    ensures s[k + from..k + to] == line[from..to]
  {
    forall j | from <= j < to ensures s[k + j] == line[j] { assert s[k..k + |line|][j] == s[k + j]; }
  }

  lemma MatchInLine(s: string, k: nat, line: string, w: string, i: nat)
    requires LineAt(s, k, line) && i <= |line| && '\r' !in w && w != ""
    ensures MatchAt(s, w, k + i) <==> MatchAt(line, w, i)
  {
    if i + |w| <= |line| {
      SliceInLine(s, k, line, i, i + |w|);
      assert k + (i + |w|) == k + i + |w|;
    } else {
      assert w[|line| - i] != '\r';
    }
  }

  lemma StopInLine(s: string, k: nat, line: string, i: nat)
    requires LineAt(s, k, line) && i <= |line|
    ensures SegmentStop(s, k + i, k + |line|) == k + SegmentStop(line, i, |line|)
  {
    var p := SegmentStop(line, i, |line|);
    IndexFromFirst(line, ';', i);
    forall j | k + i <= j < k + p ensures s[j] != ';' {
      assert s[j] == s[k..k + |line|][j - k];
    }
    if p < |line| { assert s[k + p] == s[k..k + |line|][p]; }
    if p < |line| {
      IndexFromIs(s, ';', k + i, k + p);
    } else {
      IndexFromFirst(s, ';', k + i);
    }
  }

  lemma TextInLine(s: string, k: nat, line: string, from: nat, p: nat)
    requires LineAt(s, k, line) && p <= |line|
    ensures TextUpTo(s, k + from, k + p) == TextUpTo(line, from, p)
  {
    if from <= p { SliceInLine(s, k, line, from, p); }
  }

  lemma KeyInLine(s: string, k: nat, line: string, i: nat, p: nat, f: Fields)
    requires LineAt(s, k, line) && i <= p <= |line|
    ensures KeyIn(s, k + i, k + p, f) == KeyIn(line, i, p, f)
    ensures MatchAt(s, "name", k + i) <==> MatchAt(line, "name", i)
  {
    MatchInLine(s, k, line, "name", i);
    TextInLine(s, k, line, i + 5, p);
    assert k + i + 5 == k + (i + 5);
  }

  lemma FilenameInLine(s: string, k: nat, line: string, i: nat, p: nat, f: Fields)
    requires LineAt(s, k, line) && i <= p <= |line|
    ensures FilenameIn(s, k + i, k + p, f) == FilenameIn(line, i, p, f)
  {
    MatchInLine(s, k, line, "filename", i);
    TextInLine(s, k, line, i + 9, p);
    assert k + i + 9 == k + (i + 9);
  }

  lemma SegmentInLine(s: string, k: nat, line: string, i: nat, p: nat, f: Fields)
    requires LineAt(s, k, line) && i <= p <= |line|
    ensures SegmentFields(s, k + i, k + p, f) == SegmentFields(line, i, p, f)
  {
    KeyInLine(s, k, line, i, p, f);
    var g := KeyIn(line, i, p, f);
    if g.Ok? {
      if MatchAt(line, "name", i) {
        FilenameInLine(s, k, line, i + 5, p, g.value);
        assert k + i + 5 == k + (i + 5);
      } else {
        FilenameInLine(s, k, line, i, p, g.value);
      }
    }
  }

  lemma LineFieldsStep(s: string, i: nat, next: nat, p: nat, after: nat, f: Fields)
    requires i < next <= |s| && p == SegmentStop(s, i, next) && after == p + 2
    ensures LineFields(s, i, next, f) ==
              match SegmentFields(s, i, p, f) case Fault => Fault case Ok(g) => LineFields(s, after, next, g)
  {
  }

  lemma FieldsStep(s: string, k: nat, line: string, i: nat, from: nat, to: nat, f: Fields)
    returns (g: Outcome<Fields>, next: nat, after: nat)
    requires LineAt(s, k, line) && i < |line| && from == k + i && to == k + |line|
    ensures i < next && after == k + next
    ensures LineFields(line, i, |line|, f) == if g.Fault? then Fault else LineFields(line, next, |line|, g.value)
    ensures LineFields(s, from, to, f) == if g.Fault? then Fault else LineFields(s, after, to, g.value)
  {
    var p := SegmentStop(line, i, |line|);
    g, next, after := SegmentFields(line, i, p, f), p + 2, k + (p + 2);
    StopInLine(s, k, line, i);
    SegmentInLine(s, k, line, i, p, f);
    LineFieldsStep(line, i, |line|, p, next, f);
    LineFieldsStep(s, from, to, k + p, after, f);
  }

  lemma FieldsDone(s: string, from: nat, to: nat, f: Fields)
    requires to <= |s| && from >= to
    ensures LineFields(s, from, to, f) == Ok(f)
  {
  }

  /** A header line means the same in the body as it does on its own. */
  lemma {:induction false} FieldsInLine(s: string, k: nat, line: string, i: nat, from: nat, to: nat, f: Fields)
    requires LineAt(s, k, line) && from == k + i && to == k + |line|
    ensures LineFields(s, from, to, f) == LineFields(line, i, |line|, f)
    decreases |line| - i
  {
    if i < |line| {
      var g, next, after := FieldsStep(s, k, line, i, from, to, f);
      if g.Ok? { FieldsInLine(s, k, line, next, after, to, g.value); }
    } else {
      FieldsDone(s, from, to, f);
      FieldsDone(line, i, |line|, f);
    }
  }

  // ----- the header lines of a part -----

  /** The CRLF behind a line is the first one from the line's start on. */
  lemma LineEndsAt(s: string, k: nat, line: string, rest: string)
    requires k <= |s| && s[k..] == line + (CRLF + rest) && NoCRLF(line)
    ensures FindFrom(s, CRLF, k) == k + |line|
    ensures LineAt(s, k, line)
    ensures s[AfterLine(s, k)..] == rest
  {
    Chop(s, k, line, CRLF + rest);
    Chop(s, k + |line|, CRLF, rest);
    var t := k + |line|;
    assert s[t] == s[t..t + 2][0] && s[t + 1] == s[t..t + 2][1];
    forall i | 0 <= i < |line| ensures s[k + i] == line[i] { assert s[k..t][i] == line[i]; }
    forall j | k <= j < t ensures !MatchAt(s, CRLF, j) {
      MatchAtTwo(s, CRLF, j);
      assert s[j] == line[j - k];
      if j + 1 < t { assert s[j + 1] == line[j + 1 - k]; }
    }
    FindFromIs(s, CRLF, k, t);
  }

  /** The header loop sets the fields that the lines set, and the content starts right
      behind the blank line. */
  lemma {:induction false} PartHeadersRoundTrip(s: string, k: nat, lines: seq<string>, tail: string, f: Fields)
    returns (start: nat)
    requires k <= |s| && s[k..] == Lines(lines, CRLF + tail) && HeaderLines(lines)
    ensures LinesFields(lines, f).Fault? ==> HeaderFields(s, k, f) == Fault
    ensures LinesFields(lines, f).Ok? ==>
              start <= |s| && s[start..] == tail && HeaderFields(s, k, f) == Ok((LinesFields(lines, f).value, start))
    decreases |lines|
  {
    if lines == [] {
      start := BlankLine(s, k, tail, f);
    } else {
      LinesNotEmpty(lines[1..], tail);
      start := OneHeader(s, k, lines[0], Lines(lines[1..], CRLF + tail), f);
      var g := LineFields(lines[0], 0, |lines[0]|, f);
      if g.Ok? { start := PartHeadersRoundTrip(s, start, lines[1..], tail, g.value); }
    }
  }

  lemma OneHeader(s: string, k: nat, line: string, rest: string, f: Fields) returns (next: nat)
    requires k <= |s| && s[k..] == line + (CRLF + rest) && rest != ""
    requires line != "" && NoCRLF(line)
    ensures next <= |s| && s[next..] == rest
    ensures LineFields(line, 0, |line|, f).Fault? ==> HeaderFields(s, k, f) == Fault
    ensures LineFields(line, 0, |line|, f).Ok? ==>
              HeaderFields(s, k, f) == HeaderFields(s, next, LineFields(line, 0, |line|, f).value)
  {
    LineEndsAt(s, k, line, rest);
    next := AfterLine(s, k);
    FieldsOfLine(s, k, line, FindFrom(s, CRLF, k), f);
    HeaderFieldsStep(s, k, f);
  }

  lemma FieldsOfLine(s: string, k: nat, line: string, next: nat, f: Fields)
    requires LineAt(s, k, line) && next == k + |line|
    ensures LineFields(s, k, next, f) == LineFields(line, 0, |line|, f)
  {
    FieldsInLine(s, k, line, 0, k, next, f);
  }

  lemma BlankLine(s: string, k: nat, tail: string, f: Fields) returns (start: nat)
    requires k <= |s| && s[k..] == CRLF + tail
    ensures start <= |s| && s[start..] == tail && HeaderFields(s, k, f) == Ok((f, start))
  {
    assert s[k..] == "" + (CRLF + tail);
    LineEndsAt(s, k, "", tail);
    start := AfterLine(s, k);
  }

  lemma LinesNotEmpty(lines: seq<string>, tail: string)
    ensures Lines(lines, CRLF + tail) != ""
  {
  }

  // ----- parts -----

  /** What a client sends is framed so: the delimiter cannot begin in the content, where it
      does not occur and cannot go past the CR, nor on the CRLF. */
  lemma SentIsFramed(headers: seq<string>, content: string, b: string)
    requires Delimiter(b) && SendablePart(headers, content, b)
    ensures Framed(SentPart(headers, content), b)
  {
    var s, t := content + (CRLF + b), |content|;
    assert s[t] == '\r' && s[t + 1] == '\n' && s[t + 2..t + 2 + |b|] == b;
    forall j | 0 <= j < t + 2 ensures !MatchAt(s, b, j) {
      if j + |b| <= t {
        assert s[j..j + |b|] == content[j..j + |b|];
        assert !MatchAt(content, b, j);
      } else if j <= t {
        assert b[t - j] in b;
        NoMatch(s, b, j, t - j);
      } else {
        NoMatch(s, b, j, 0);
      }
    }
    FindFromIs(s, b, 0, t + 2);
  }

  lemma FramedIsAbsent(p: Part, b: string)
    requires Framed(p, b)
    ensures Absent(p.content, b)
  {
    var s := p.content + (p.gap + b);
    FindFromFirst(s, b, 0);
    forall j | 0 <= j <= |p.content| - |b| ensures !MatchAt(p.content, b, j) {
      assert s[j..j + |b|] == p.content[j..j + |b|];
      assert !MatchAt(s, b, j);
    }
  }

  /** A first match at the end of a prefix is the first match of the whole. */
  lemma FirstInWhole(prefix: string, s: string, b: string)
    requires |b| <= |prefix| && prefix <= s && Find(prefix, b) == |prefix| - |b|
    ensures Find(s, b) == |prefix| - |b|
  {
    var r := |prefix| - |b|;
    FindFromFirst(prefix, b, 0);
    forall j | 0 <= j < r ensures !MatchAt(s, b, j) {
      assert s[j..j + |b|] == prefix[j..j + |b|];
      assert !MatchAt(prefix, b, j);
    }
    assert s[r..r + |b|] == prefix[r..r + |b|];
    FindFromIs(s, b, 0, r);
  }

  lemma NoMatch(s: string, w: string, j: nat, i: nat)
    requires i < |w| && j + i < |s| && s[j + i] != w[i]
    ensures !MatchAt(s, w, j)
  {
    if j + |w| <= |s| { assert s[j..j + |w|][i] == s[j + i]; }
  }

  /** The part whose header lines start at `k`, in a body that goes on with a delimiter. */
  lemma PartRoundTrip(s: string, k: nat, p: Part, b: string, more: string, spare: nat) returns (e: nat)
    requires k <= |s| && s[k..] == Following(p, b, more)
    requires Framed(p, b) && NUL !in p.content
    ensures PartField(p, spare).Fault? ==> PartAt(s, b, k, spare) == Fault
    ensures PartField(p, spare).Ok? ==>
              k < e <= |s| && s[e..] == b + more && PartAt(s, b, k, spare) == Ok((PartField(p, spare).value, e))
  {
    var start := PartHeadersRoundTrip(s, k, p.headers, p.content + (p.gap + (b + more)), NO_FIELDS);
    e := 0;
    if LinesFields(p.headers, NO_FIELDS).Ok? {
      e := ContentRoundTrip(s, start, p, b, more);
    }
  }

  /** The text behind the skipped characters of a part. */
  function Following(p: Part, b: string, more: string): string {
    Lines(p.headers, CRLF + (p.content + (p.gap + (b + more))))
  }

  /** The same in a body that ends within the content. */
  lemma CutPartFaults(s: string, k: nat, p: Part, b: string, spare: nat)
    requires k <= |s| && s[k..] == Lines(p.headers, CRLF + CStr(p.content)) && Framed(p, b)
    ensures PartAt(s, b, k, spare) == Fault
  {
    var start := PartHeadersRoundTrip(s, k, p.headers, CStr(p.content), NO_FIELDS);
    if LinesFields(p.headers, NO_FIELDS).Ok? {
      FramedIsAbsent(p, b);
      NoneInCut(s, start, p.content, b);
    }
  }

  lemma SameSlice(a: string, i: nat, b: string, j: nat, n: nat)
    requires i + n <= |a| && j + n <= |b| && forall x :: i <= x < i + n ==> a[x] == b[x - i + j]
    ensures a[i..i + n] == b[j..j + n]
  {
  }

  lemma NoneInCut(s: string, start: nat, content: string, b: string)
    requires start <= |s| && s[start..] == CStr(content) && Absent(content, b)
    ensures FindFrom(s, b, start) == -1
  {
    forall x | start <= x < |s| ensures s[x] == content[x - start] { assert s[start..][x - start] == s[x]; }
    forall j | start <= j <= |s| - |b| ensures !MatchAt(s, b, j) {
      SameSlice(s, j, content, j - start, |b|);
      assert !MatchAt(content, b, j - start);
    }
    FindFromNone(s, b, start);
  }

  lemma ContentRoundTrip(s: string, start: nat, p: Part, b: string, more: string) returns (e: nat)
    requires start <= |s| && s[start..] == p.content + (p.gap + (b + more)) && Framed(p, b)
    ensures FindFrom(s, b, start) == e && e <= |s| && s[e..] == b + more
    ensures e - start < 3 <==> p.content == ""
    ensures p.content != "" ==> ValueSlice(s, start, e) == p.content[..|p.content| - 1]
  {
    e := start + |p.content| + 2;
    DelimiterBehind(s, start, p, b, more, e);
    Chop(s, start, p.content, p.gap + (b + more));
    Chop(s, start + |p.content|, p.gap, b + more);
    if p.content != "" { Shorter(s, start, start + |p.content|, e, p.content); }
  }

  lemma Shorter(s: string, start: nat, stop: nat, e: nat, content: string)
    requires start < stop && e == stop + 2 <= |s| && s[start..stop] == content
    ensures ValueSlice(s, start, e) == content[..|content| - 1]
  {
    assert s[start..e - 3] == s[start..stop][..|content| - 1];
  }

  lemma DelimiterBehind(s: string, start: nat, p: Part, b: string, more: string, e: nat)
    requires start <= |s| && s[start..] == p.content + (p.gap + (b + more)) && Framed(p, b)
    requires e == start + |p.content| + 2
    ensures FindFrom(s, b, start) == e
  {
    var prefix := p.content + (p.gap + b);
    Regroup(p.content, p.gap + b, more);
    Regroup(p.gap, b, more);
    assert s[start..] == prefix + more;
    FirstInWhole(prefix, s[start..], b);
    FindInTail(s, b, start);
  }

  /** Whatever lies between delimiters, before any epilogue, the parser gets exactly the
      fields of the parts, in order. */
  lemma {:induction false} PartsRoundTrip(s: string, k: nat, parts: seq<Part>, b: string, epilogue: string, spare: nat)
    requires k <= |s| && s[k..] == CStr(b + Behind(parts, b, epilogue)) && NUL !in b
    requires forall i :: 0 <= i < |parts| ==> Framed(parts[i], b)
    ensures Parts(s, b, k, spare) == PartFields(parts, spare)
    decreases |parts|
  {
    if parts == [] {
      CStrBehind(b, "--" + epilogue);
      CStrBehind("--", epilogue);
      LastDelimiter(s, k, b, CStr(epilogue), spare);
    } else if NUL in parts[0].content {
      SeenCut(parts[0], b, Behind(parts[1..], b, epilogue));
      OneCutPart(s, k, parts[0], b, spare);
    } else {
      var more := Behind(parts[1..], b, epilogue);
      SeenPart(parts[0], b, more);
      var e := OnePart(s, k, parts[0], b, CStr(more), spare);
      if PartField(parts[0], spare).Ok? {
        CStrBehind(b, more);
        PartsRoundTrip(s, e, parts[1..], b, epilogue, spare);
      }
    }
  }

  // ----- what a C string shows of a body -----

  lemma CStrBehind(a: string, rest: string)
    requires NUL !in a
    ensures CStr(a + rest) == a + CStr(rest)
  {
    IndexFromFirst(rest, NUL, 0);
    var k := IndexOf(rest, NUL);
    if k != -1 {
      assert NUL !in a + rest[..k];
      IndexOfAfterText(a + rest[..k], NUL, rest[k + 1..]);
      assert a + rest == a + rest[..k] + [NUL] + rest[k + 1..];
    }
  }

  lemma {:induction false} CStrLines(lines: seq<string>, tail: string)
    requires forall i :: 0 <= i < |lines| ==> NUL !in lines[i]
    ensures CStr(Lines(lines, tail)) == Lines(lines, CStr(tail))
    decreases |lines|
  {
    if lines != [] {
      CStrLines(lines[1..], tail);
      CStrBehind(lines[0], CRLF + Lines(lines[1..], tail));
      CStrBehind(CRLF, Lines(lines[1..], tail));
    }
  }

  lemma SeenPart(p: Part, b: string, more: string)
    requires NUL !in b && Framed(p, b) && NUL !in p.content
    ensures CStr(b + (p.skipped + Following(p, b, more))) == b + (p.skipped + Following(p, b, CStr(more)))
  {
    var content := p.content + (p.gap + (b + more));
    CStrBehind(b, p.skipped + Following(p, b, more));
    CStrBehind(p.skipped, Following(p, b, more));
    CStrLines(p.headers, CRLF + content);
    CStrBehind(CRLF, content);
    CStrBehind(p.content, p.gap + (b + more));
    CStrBehind(p.gap, b + more);
    CStrBehind(b, more);
  }

  lemma SeenCut(p: Part, b: string, more: string)
    requires NUL !in b && Framed(p, b) && NUL in p.content
    ensures CStr(b + (p.skipped + Following(p, b, more)))
         == b + (p.skipped + Lines(p.headers, CRLF + CStr(p.content)))
  {
    var content := p.content + (p.gap + (b + more));
    CStrBehind(b, p.skipped + Following(p, b, more));
    CStrBehind(p.skipped, Following(p, b, more));
    CStrLines(p.headers, CRLF + content);
    CStrBehind(CRLF, content);
    CStrCut(p.content, p.gap + (b + more));
  }

  lemma CStrCut(a: string, rest: string)
    requires NUL in a
    ensures CStr(a + rest) == CStr(a)
  {
    IndexFromFirst(a, NUL, 0);
    var k := IndexOf(a, NUL);
    assert NUL !in a[..k];
    IndexOfAfterText(a[..k], NUL, a[k + 1..] + rest);
    assert a + rest == a[..k] + [NUL] + (a[k + 1..] + rest);
  }

  lemma OnePart(s: string, k: nat, p: Part, b: string, more: string, spare: nat) returns (e: nat)
    requires k <= |s| && s[k..] == b + (p.skipped + Following(p, b, more))
    requires Framed(p, b) && NUL !in p.content
    ensures PartField(p, spare).Fault? ==> Parts(s, b, k, spare) == Fault
    ensures PartField(p, spare).Ok? ==>
              && k < e <= |s| && s[e..] == b + more
              && Parts(s, b, k, spare) == Prepend([PartField(p, spare).value], Parts(s, b, e, spare))
  {
    PartStartsAt(s, k, b, p.skipped, Following(p, b, more));
    e := PartRoundTrip(s, PartStart(s, b, k), p, b, more, spare);
    PartsStep(s, b, k, spare);
  }

  lemma OneCutPart(s: string, k: nat, p: Part, b: string, spare: nat)
    requires k <= |s| && s[k..] == b + (p.skipped + Lines(p.headers, CRLF + CStr(p.content))) && Framed(p, b)
    ensures Parts(s, b, k, spare) == Fault
  {
    PartStartsAt(s, k, b, p.skipped, Lines(p.headers, CRLF + CStr(p.content)));
    CutPartFaults(s, PartStart(s, b, k), p, b, spare);
    PartsStep(s, b, k, spare);
  }

  lemma PartStartsAt(s: string, k: nat, b: string, skipped: string, rest: string)
    requires k <= |s| && s[k..] == b + (skipped + rest) && |skipped| == 2 && skipped != "--"
    ensures !MatchAt(s, "--", AfterDelimiter(s, b, k))
    ensures PartStart(s, b, k) <= |s| && s[PartStart(s, b, k)..] == rest
  {
    DelimiterAt(s, k, b, skipped + rest);
    Chop(s, k + |b|, skipped, rest);
  }

  lemma PartsStep(s: string, b: string, k: nat, spare: nat)
    requires k <= |s| && !MatchAt(s, "--", AfterDelimiter(s, b, k)) && PartStart(s, b, k) <= |s|
    ensures var r := PartAt(s, b, PartStart(s, b, k), spare);
            && (r.Fault? ==> Parts(s, b, k, spare) == Fault)
            && (r.Ok? ==> Parts(s, b, k, spare) == Prepend([r.value.0], Parts(s, b, r.value.1, spare)))
  {
  }

  lemma DelimiterAt(s: string, k: nat, b: string, rest: string)
    requires k <= |s| && s[k..] == b + rest
    ensures AfterDelimiter(s, b, k) == k + |b| && s[k + |b|..] == rest
  {
    Chop(s, k, b, rest);
    FindFromIs(s, b, k, k);
  }

  lemma LastDelimiter(s: string, k: nat, b: string, epilogue: string, spare: nat)
    requires k <= |s| && s[k..] == b + ("--" + epilogue)
    ensures Parts(s, b, k, spare) == Ok([])
  {
    DelimiterAt(s, k, b, "--" + epilogue);
    Chop(s, k + |b|, "--", epilogue);
  }

  /** A preamble in front of the first delimiter is skipped. The parser sees the body as a C
      string; contents and epilogue may hold any bytes. */
  lemma FormDataRoundTrip(preamble: string, parts: seq<Part>, b: string, epilogue: string, spare: nat)
    requires b != "" && NUL !in b && NUL !in preamble
    requires Find(preamble + Body(parts, b, epilogue), b) == |preamble|
    requires forall i :: 0 <= i < |parts| ==> Framed(parts[i], b)
    ensures CStr(preamble + Body(parts, b, epilogue)) != ""
    ensures FormData(CStr(preamble + Body(parts, b, epilogue)), b, spare) == PartFields(parts, spare)
  {
    var body, k := preamble + Body(parts, b, epilogue), |preamble|;
    var s := CStr(body);
    CStrBehind(preamble, Body(parts, b, epilogue));
    CStrBehind(b, Behind(parts, b, epilogue));
    assert s[k..] == CStr(Body(parts, b, epilogue));
    PartsRoundTrip(s, k, parts, b, epilogue, spare);
    Chop(s, k, b, CStr(Behind(parts, b, epilogue)));
    FindFromIs(s, b, k, k);
    FirstInPrefix(s, body, b, k);
    SameParts(s, b, 0, k, spare);
  }

  lemma FirstInPrefix(s: string, body: string, b: string, k: nat)
    requires s <= body && Find(body, b) == k && MatchAt(s, b, k)
    ensures Find(s, b) == k
  {
    FindFromFirst(body, b, 0);
    forall j | 0 <= j < k ensures !MatchAt(s, b, j) {
      if j + |b| <= |s| { assert s[j..j + |b|] == body[j..j + |b|]; }
      assert !MatchAt(body, b, j);
    }
    FindFromIs(s, b, 0, k);
  }

  lemma SameParts(s: string, b: string, i: nat, j: nat, spare: nat)
    requires i <= |s| && j <= |s| && AfterDelimiter(s, b, i) == AfterDelimiter(s, b, j)
    ensures Parts(s, b, i, spare) == Parts(s, b, j, spare)
  {
    assert PartStart(s, b, i) == PartStart(s, b, j);
  }

  /** What comes of a delimiter that the body does not hold, such as one with stray bytes
      behind it: a body that starts with two dashes gives no parameter at all, and any
      other that is not empty a fault. */
  lemma AbsentDelimiter(s: string, b: string, spare: nat)
    requires Find(s, b) == -1
    ensures FormData(s, b, spare) == if s == "" || "--" <= s then Ok([]) else Fault
  {
    FindFromFirst(s, b, 0);
    assert "--" <= s <==> MatchAt(s, "--", 0);
    if s != "" && !MatchAt(s, "--", 0) && 2 <= |s| {
      var r := HeaderFields(s, 2, NO_FIELDS);
      if r.Ok? { FindFromNone(s, b, r.value.1); }
      PartsStep(s, b, 0, spare);
    }
  }

  /** The parser adds one field per part, in order, when it comes through all of them. */
  lemma {:induction false} PartFieldsEach(parts: seq<Part>, spare: nat)
    ensures PartFields(parts, spare).Ok? <==> forall i :: 0 <= i < |parts| ==> PartField(parts[i], spare).Ok?
    ensures PartFields(parts, spare).Ok? ==>
              && |PartFields(parts, spare).value| == |parts|
              && forall i :: 0 <= i < |parts| ==> PartFields(parts, spare).value[i] == PartField(parts[i], spare).value
    decreases |parts|
  {
    if parts != [] {
      PartFieldsEach(parts[1..], spare);
      assert forall i :: 0 < i < |parts| ==> parts[i] == parts[1..][i - 1];
      if PartField(parts[0], spare).Fault? { assert PartFields(parts, spare) == Fault; }
    }
  }
}

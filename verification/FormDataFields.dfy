/** Form fields in the parts of a multipart body, as section 4 of RFC 7578 writes them, and
    the exact conditions under which parse_formdata comes through a body. */
module FormDataFields {
  import opened CStrings
  import opened DictionaryLists
  import opened Multipart
  import opened MultipartRoundTrip
  import opened ReadStreams
  import opened UrlForms
  import opened Wrappers

  // ----- disposition lines -----

  /** `kind; name=...; filename=...`; the kind is "Content-Disposition: form-data". */
  function Disposition(kind: string, name: string, filename: Option<string>): string {
    kind + ("; " + ("name=" + name + match filename case None => "" case Some(fn) => "; " + ("filename=" + fn)))
  }

  ghost predicate KindOk(kind: string) {
    kind != "" && ';' !in kind && !MatchAt(kind, "name", 0) && !MatchAt(kind, "filename", 0)
  }

  /** A ';' ends a text, quoted or not. */
  predicate Unbroken(name: string, filename: Option<string>) {
    ';' !in name && (filename.Some? ==> ';' !in filename.value)
  }

  /** A text up to its first ';'. */
  function Cut(s: string): (r: string)
    ensures r <= s && ';' !in r
    ensures if ';' in s then |r| < |s| && s[|r|] == ';' else r == s
  {
    IndexFromFirst(s, ';', 0);
    if IndexOf(s, ';') == -1 then s else s[..IndexOf(s, ';')]
  }

  /** What a name sets: the key, and a file name too when it starts with that word. */
  function NameFields(name: string, f: Fields): Outcome<Fields> {
    if !MatchAt(name, "filename", 0) then Ok(f.(key := Some(name)))
    else if |name| < 9 then Fault
    else Ok(Fields(Some(name), Some(name[9..])))
  }

  /** A name that starts with the word `filename` does no harm only if it is longer than
      the word and a file name follows it. */
  predicate NameOk(name: string, filename: Option<string>) {
    MatchAt(name, "filename", 0) ==> |name| >= 9 && filename.Some?
  }

  /** A segment lies at `i`: up to a ';' or the end of the line. */
  ghost predicate SegmentAt(line: string, i: nat, segment: string) {
    && i + |segment| <= |line| && line[i..i + |segment|] == segment && ';' !in segment
    && (i + |segment| < |line| ==> line[i + |segment|] == ';')
  }

  lemma StopOf(line: string, i: nat, segment: string)
    requires SegmentAt(line, i, segment)
    ensures SegmentStop(line, i, |line|) == i + |segment|
  {
    assert forall j :: i <= j < i + |segment| ==> line[j] == segment[j - i];
    IndexFromIs(line, ';', i, i + |segment|);
  }

  /** A word without ';' is at `i` in the line just when the segment starts with it. */
  lemma WordAt(line: string, i: nat, segment: string, k: nat, w: string)
    requires SegmentAt(line, i, segment) && k <= |segment| && ';' !in w && w != ""
    ensures MatchAt(line, w, i + k) <==> MatchAt(segment, w, k)
  {
    if k + |w| <= |segment| {
      forall j | 0 <= j < |segment| ensures line[i + j] == segment[j] {
        assert line[i..i + |segment|][j] == segment[j];
      }
      assert line[i + k..i + k + |w|] == segment[k..k + |w|];
    } else if i + |segment| < |line| {
      assert w[|segment| - k] in w;
      NoMatch(line, w, i + k, |segment| - k);
    }
  }

  lemma KindSegment(line: string, kind: string, f: Fields)
    requires SegmentAt(line, 0, kind) && kind != ""
    requires !MatchAt(kind, "name", 0) && !MatchAt(kind, "filename", 0)
    ensures SegmentFields(line, 0, |kind|, f) == Ok(f)
  {
    WordAt(line, 0, kind, 0, "name");
    WordAt(line, 0, kind, 0, "filename");
  }

  lemma NameSegment(line: string, i: nat, name: string, f: Fields)
    requires SegmentAt(line, i, "name=" + name)
    ensures SegmentFields(line, i, i + 5 + |name|, f) == NameFields(name, f)
  {
    var segment, p := "name=" + name, i + 5 + |name|;
    WordAt(line, i, segment, 0, "name");
    assert segment[0..4] == "name";
    assert i + 0 == i;
    assert line[i + 5..p] == line[i..i + |segment|][5..] == name;
    assert KeyIn(line, i, p, f) == Ok(f.(key := Some(name)));
    FilenameInName(line, i, name, p, f.(key := Some(name)));
  }

  lemma FilenameInName(line: string, i: nat, name: string, p: nat, f: Fields)
    requires SegmentAt(line, i, "name=" + name) && p == i + 5 + |name| && line[i + 5..p] == name
    ensures FilenameIn(line, i + 5, p, f) ==
              if !MatchAt(name, "filename", 0) then Ok(f)
              else if |name| < 9 then Fault
              else Ok(f.(filename := Some(name[9..])))
  {
    var segment := "name=" + name;
    WordAt(line, i, segment, 5, "filename");
    if 8 <= |name| { assert segment[5..13] == name[0..8]; }
    if 9 <= |name| { assert line[i + 14..p] == line[i + 5..p][9..]; }
    assert i + 5 + 9 == i + 14;
  }

  lemma FilenameSegment(line: string, i: nat, filename: string, f: Fields)
    requires SegmentAt(line, i, "filename=" + filename)
    ensures SegmentFields(line, i, i + 9 + |filename|, f) == Ok(f.(filename := Some(filename)))
  {
    var segment := "filename=" + filename;
    assert segment[0] == 'f' && segment[0..8] == "filename";
    NoMatch(segment, "name", 0, 0);
    WordAt(line, i, segment, 0, "name");
    WordAt(line, i, segment, 0, "filename");
    assert line[i + 9..i + 9 + |filename|] == line[i..i + |segment|][9..] == filename;
    assert i + 0 == i;
  }

  /** What is set by a line with a name, and a file name behind it if there is one: whatever
      the name does, and then the file name. Either is cut at its first ';', and the scan
      goes on two characters behind that; behind the name, at `next`. */
  function NamesSet(line: string, next: nat, name: string, filename: Option<string>, f: Fields): Outcome<Fields> {
    match NameFields(Cut(name), f) case Fault => Fault case Ok(g) => BehindNameSets(line, next, name, filename, g)
  }

  function BehindNameSets(line: string, i: nat, name: string, filename: Option<string>, f: Fields): Outcome<Fields> {
    if ';' in name then LineFields(line, i, |line|, f)
    else match filename case None => Ok(f) case Some(fn) => FilenameSets(line, i, fn, f)
  }

  function FilenameSets(line: string, i: nat, filename: string, f: Fields): Outcome<Fields> {
    var g := f.(filename := Some(Cut(filename)));
    if ';' in filename then LineFields(line, i + 11 + |Cut(filename)|, |line|, g) else Ok(g)
  }

  lemma DispositionFields(line: string, kind: string, next: nat, name: string, filename: Option<string>, f: Fields)
    requires KindOk(kind) && line == Disposition(kind, name, filename) && next == |kind| + 9 + |Cut(name)|
    ensures LineFields(line, 0, |line|, f) == NamesSet(line, next, name, filename, f)
  {
    DispositionKind(kind, name, filename);
    DispositionIsLaid(kind, name, filename);
    KindAndNames(line, kind, |kind| + 2, next, name, filename, f);
  }

  lemma KindAndNames(line: string, kind: string, i: nat, next: nat, name: string, filename: Option<string>, f: Fields)
    requires KindOk(kind) && SegmentAt(line, 0, kind) && i == |kind| + 2
    requires Laid(line, i, name, filename) && next == i + 7 + |Cut(name)|
    ensures LineFields(line, 0, |line|, f) == NamesSet(line, next, name, filename, f)
  {
    KindStep(line, kind, i, f);
    NamesAt(line, i, next, name, filename, f);
  }

  lemma DispositionKind(kind: string, name: string, filename: Option<string>)
    requires KindOk(kind)
    ensures SegmentAt(Disposition(kind, name, filename), 0, kind)
  {
    var line := Disposition(kind, name, filename);
    assert line[..|kind|] == kind && line[|kind|] == ';';
  }

  /** The name lies at `i`, the file name behind it, and nothing behind that. */
  ghost predicate Laid(line: string, i: nat, name: string, filename: Option<string>) {
    && SegmentAt(line, i, "name=" + Cut(name))
    && match filename
       case None => |line| == i + 5 + |name|
       case Some(fn) =>
         |line| == i + 16 + |name| + |fn|
         && (';' !in name ==> SegmentAt(line, i + 7 + |name|, "filename=" + Cut(fn)))
  }

  lemma NamesAt(line: string, i: nat, next: nat, name: string, filename: Option<string>, f: Fields)
    requires Laid(line, i, name, filename) && next == i + 7 + |Cut(name)|
    ensures LineFields(line, i, |line|, f) == NamesSet(line, next, name, filename, f)
  {
    var g := NameTurn(line, i, next, Cut(name), f);
    if g.Ok? { BehindName(line, i, next, name, filename, g.value); }
  }

  lemma NameTurn(line: string, i: nat, next: nat, name: string, f: Fields) returns (g: Outcome<Fields>)
    requires SegmentAt(line, i, "name=" + name) && next == i + 7 + |name|
    ensures g == NameFields(name, f)
    ensures LineFields(line, i, |line|, f) == if g.Fault? then Fault else LineFields(line, next, |line|, g.value)
  {
    g := NameFields(name, f);
    NameStep(line, i, name, next, f);
  }

  lemma BehindName(line: string, i: nat, next: nat, name: string, filename: Option<string>, f: Fields)
    requires Laid(line, i, name, filename) && next == i + 7 + |Cut(name)|
    ensures LineFields(line, next, |line|, f) == BehindNameSets(line, next, name, filename, f)
  {
    if ';' !in name {
      match filename
      case None => LineDone(line, next, f);
      case Some(fn) => FilenameBehind(line, next, fn, f);
    }
  }

  lemma FilenameBehind(line: string, i: nat, filename: string, f: Fields)
    requires SegmentAt(line, i, "filename=" + Cut(filename)) && |line| == i + 9 + |filename|
    ensures LineFields(line, i, |line|, f) == FilenameSets(line, i, filename, f)
  {
    var g, next := f.(filename := Some(Cut(filename))), i + 11 + |Cut(filename)|;
    FilenameStep(line, i, Cut(filename), next, f);
    if ';' !in filename { LineDone(line, next, g); }
  }

  lemma DispositionIsLaid(kind: string, name: string, filename: Option<string>)
    ensures Laid(Disposition(kind, name, filename), |kind| + 2, name, filename)
  {
    NameIsLaid(kind, name, filename);
    if filename.Some? { FilenameIsLaid(kind, name, filename.value); }
  }

  lemma NameIsLaid(kind: string, name: string, filename: Option<string>)
    ensures SegmentAt(Disposition(kind, name, filename), |kind| + 2, "name=" + Cut(name))
  {
    NameAt(kind, name, filename);
    CutSegment(Disposition(kind, name, filename), |kind| + 2, "name=", name);
  }

  lemma FilenameIsLaid(kind: string, name: string, filename: string)
    ensures SegmentAt(Disposition(kind, name, Some(filename)), |kind| + 9 + |name|, "filename=" + Cut(filename))
  {
    FilenameAt(kind, name, filename);
    CutSegment(Disposition(kind, name, Some(filename)), |kind| + 9 + |name|, "filename=", filename);
  }

  lemma NameAt(kind: string, name: string, filename: Option<string>)
    ensures var line, i, j := Disposition(kind, name, filename), |kind| + 2, |kind| + 7 + |name|;
            && j <= |line| && line[i..j] == "name=" + name
            && (if filename.Some? then j < |line| && line[j] == ';' else j == |line|)
  {
    var line, i := Disposition(kind, name, filename), |kind| + 2;
    var more := match filename case None => "" case Some(fn) => "; " + ("filename=" + fn);
    assert line[i..] == "name=" + name + more;
    assert line[i..i + |"name=" + name|] == line[i..][..|"name=" + name|];
    if filename.Some? { assert line[i..][5 + |name|] == ';'; }
  }

  lemma FilenameAt(kind: string, name: string, filename: string)
    ensures var line, j := Disposition(kind, name, Some(filename)), |kind| + 9 + |name|;
            j + 9 + |filename| == |line| && line[j..j + 9 + |filename|] == "filename=" + filename
  {
    var line, j := Disposition(kind, name, Some(filename)), |kind| + 9 + |name|;
    assert line[j..] == "filename=" + filename;
    assert line[j..j + 9 + |filename|] == line[j..];
  }

  lemma CutSegment(line: string, i: nat, word: string, text: string)
    requires i + |word| + |text| <= |line| && line[i..i + |word| + |text|] == word + text && ';' !in word
    requires i + |word| + |text| < |line| ==> line[i + |word| + |text|] == ';'
    ensures SegmentAt(line, i, word + Cut(text))
  {
    var segment, whole := word + Cut(text), line[i..i + |word| + |text|];
    assert whole[..|segment|] == segment;
    assert line[i..i + |segment|] == whole[..|segment|];
    if ';' in text { assert whole[|segment|] == ';'; }
  }

  lemma UnbrokenFields(line: string, kind: string, name: string, filename: Option<string>, f: Fields)
    requires KindOk(kind) && Unbroken(name, filename) && line == Disposition(kind, name, filename)
    ensures LineFields(line, 0, |line|, f) ==
              match NameFields(name, f)
              case Fault => Fault
              case Ok(g) => Ok(if filename.Some? then g.(filename := filename) else g)
  {
    DispositionFields(line, kind, |kind| + 9 + |Cut(name)|, name, filename, f);
  }

  /** A disposition line says what it is meant to say exactly for unbroken texts and these
      names. */
  lemma DispositionIff(kind: string, name: string, filename: Option<string>)
    requires KindOk(kind)
    ensures var line := Disposition(kind, name, filename);
            (LineFields(line, 0, |line|, NO_FIELDS) == Ok(Fields(Some(name), filename)))
              <==> (NameOk(name, filename) && Unbroken(name, filename))
  {
    var line := Disposition(kind, name, filename);
    if Unbroken(name, filename) {
      UnbrokenFields(line, kind, name, filename, NO_FIELDS);
    } else {
      LineFieldsUnbroken(line, 0, NO_FIELDS);
    }
  }

  /** The text between two ';' holds none. */
  ghost predicate FieldsUnbroken(f: Fields) {
    (f.key.Some? ==> ';' !in f.key.value) && (f.filename.Some? ==> ';' !in f.filename.value)
  }

  lemma {:induction false} LineFieldsUnbroken(line: string, i: nat, f: Fields)
    requires FieldsUnbroken(f)
    ensures LineFields(line, i, |line|, f).Ok? ==> FieldsUnbroken(LineFields(line, i, |line|, f).value)
    decreases |line| - i
  {
    if i < |line| {
      var p := SegmentStop(line, i, |line|);
      SegmentUnbroken(line, i, p, f);
      var g := SegmentFields(line, i, p, f);
      if g.Ok? { LineFieldsUnbroken(line, p + 2, g.value); }
    }
  }

  lemma SegmentUnbroken(line: string, i: nat, p: nat, f: Fields)
    requires i < |line| && p == SegmentStop(line, i, |line|) && FieldsUnbroken(f)
    ensures SegmentFields(line, i, p, f).Ok? ==> FieldsUnbroken(SegmentFields(line, i, p, f).value)
  {
    IndexFromFirst(line, ';', i);
    assert forall j :: i <= j < p ==> line[j] != ';';
  }

  /** `k; name=a;b`: the name is cut at its ';'. */
  lemma SemicolonCuts()
    ensures Disposition("k", "a;b", None) == "k; name=a;b"
    ensures LineFields("k; name=a;b", 0, 11, NO_FIELDS) == Ok(Fields(Some("a"), None))
  {
    var line := Disposition("k", "a;b", None);
    assert line == "k; name=a;b" && |line| == 11;
    NoMatch("k", "name", 0, 0);
    NoMatch("k", "filename", 0, 0);
    assert "a;b"[1] == ';';
    IndexFromIs("a;b", ';', 0, 1);
    assert Cut("a;b") == "a;b"[..1] == "a";
    NoMatch("a", "filename", 0, 0);
    DispositionFields(line, "k", 11, "a;b", None, NO_FIELDS);
    LineDone(line, 11, Fields(Some("a"), None));
  }

  lemma LineStep(line: string, i: nat, segment: string, p: nat, next: nat, f: Fields)
    requires SegmentAt(line, i, segment) && i < |line| && p == i + |segment| && next == p + 2
    ensures LineFields(line, i, |line|, f) ==
              match SegmentFields(line, i, p, f) case Fault => Fault case Ok(g) => LineFields(line, next, |line|, g)
  {
    StopOf(line, i, segment);
    assert SegmentStop(line, i, |line|) == p && SegmentStop(line, i, |line|) + 2 == next;
  }

  lemma LineDone(line: string, i: nat, f: Fields)
    requires i >= |line|
    ensures LineFields(line, i, |line|, f) == Ok(f)
  {
  }

  lemma KindStep(line: string, kind: string, next: nat, f: Fields)
    requires SegmentAt(line, 0, kind) && kind != "" && next == |kind| + 2
    requires !MatchAt(kind, "name", 0) && !MatchAt(kind, "filename", 0)
    ensures LineFields(line, 0, |line|, f) == LineFields(line, next, |line|, f)
  {
    KindSegment(line, kind, f);
    LineStep(line, 0, kind, |kind|, next, f);
  }

  lemma NameStep(line: string, i: nat, name: string, next: nat, f: Fields)
    requires SegmentAt(line, i, "name=" + name) && next == i + 7 + |name|
    ensures LineFields(line, i, |line|, f) ==
              match NameFields(name, f) case Fault => Fault case Ok(g) => LineFields(line, next, |line|, g)
  {
    NameSegment(line, i, name, f);
    LineStep(line, i, "name=" + name, i + 5 + |name|, next, f);
  }

  lemma FilenameStep(line: string, i: nat, filename: string, next: nat, f: Fields)
    requires SegmentAt(line, i, "filename=" + filename) && next == i + 11 + |filename|
    ensures LineFields(line, i, |line|, f) == LineFields(line, next, |line|, f.(filename := Some(filename)))
  {
    FilenameSegment(line, i, filename, f);
    LineStep(line, i, "filename=" + filename, i + 9 + |filename|, next, f);
  }

  // ----- lines about other things -----

  /** No segment from `i` on starts with `name` or `filename`. */
  predicate Quiet(line: string, i: nat)
    decreases |line| - i
  {
    i >= |line| ||
    (!MatchAt(line, "name", i) && !MatchAt(line, "filename", i) && Quiet(line, SegmentStop(line, i, |line|) + 2))
  }

  lemma {:induction false} QuietLine(line: string, i: nat, f: Fields)
    requires Quiet(line, i)
    ensures LineFields(line, i, |line|, f) == Ok(f)
    decreases |line| - i
  {
    if i < |line| { QuietLine(line, SegmentStop(line, i, |line|) + 2, f); }
  }

  lemma {:induction false} QuietLines(lines: seq<string>, more: seq<string>, f: Fields)
    requires forall i :: 0 <= i < |lines| ==> Quiet(lines[i], 0)
    ensures LinesFields(lines + more, f) == LinesFields(more, f)
    decreases |lines|
  {
    if lines == [] {
      assert lines + more == more;
    } else {
      QuietLine(lines[0], 0, f);
      assert (lines + more)[1..] == lines[1..] + more;
      QuietLines(lines[1..], more, f);
    }
  }

  /** A part with a disposition line anywhere among lines about other things has that name
      and that file name, and keeps all octets of the content but the last. */
  lemma NamedPart(before: seq<string>, after: seq<string>, kind: string, name: string,
                  filename: Option<string>, content: string, spare: nat)
    requires KindOk(kind) && Unbroken(name, filename) && NameOk(name, filename)
    requires forall i :: 0 <= i < |before| ==> Quiet(before[i], 0)
    requires forall i :: 0 <= i < |after| ==> Quiet(after[i], 0)
    ensures PartField(SentPart(before + [Disposition(kind, name, filename)] + after, content), spare) ==
              if content == "" || NUL in content || (filename.Some? && spare < 3) then Fault
              else Ok(Field(name, filename, content[..|content| - 1]))
  {
    var line := Disposition(kind, name, filename);
    assert before + [line] + after == before + ([line] + after);
    QuietLines(before, [line] + after, NO_FIELDS);
    UnbrokenFields(line, kind, name, filename, NO_FIELDS);
    assert ([line] + after)[1..] == after;
    QuietLines(after, [], Fields(Some(name), filename));
    assert after + [] == after;
  }

  // ----- a form from end to end -----

  /** A form field as a client has it, with the other header lines of its part. */
  datatype SentField =
    SentField(before: seq<string>, after: seq<string>, name: string, filename: Option<string>, content: string)

  function PartHeaders(kind: string, x: SentField): seq<string> {
    x.before + [Disposition(kind, x.name, x.filename)] + x.after
  }

  function AsPart(kind: string, x: SentField): Part {
    SentPart(PartHeaders(kind, x), x.content)
  }

  function AsParts(kind: string, xs: seq<SentField>): (parts: seq<Part>)
    ensures |parts| == |xs| && forall i :: 0 <= i < |xs| ==> parts[i] == AsPart(kind, xs[i])
  {
    seq(|xs|, i requires 0 <= i < |xs| => AsPart(kind, xs[i]))
  }

  ghost predicate FieldSendable(kind: string, x: SentField, b: string) {
    && KindOk(kind) && Unbroken(x.name, x.filename) && NameOk(x.name, x.filename)
    && (forall i :: 0 <= i < |x.before| ==> Quiet(x.before[i], 0))
    && (forall i :: 0 <= i < |x.after| ==> Quiet(x.after[i], 0))
    && SendablePart(PartHeaders(kind, x), x.content, b)
  }

  /** A content of at least one byte, without NUL, and no file unless its value fits. */
  predicate FieldKept(x: SentField, spare: nat) {
    x.content != "" && NUL !in x.content && (x.filename.Some? ==> spare >= 3)
  }

  /** What is kept: the last octet of the content is lost. */
  function KeptField(x: SentField): Field
    requires x.content != ""
  {
    Field(x.name, x.filename, x.content[..|x.content| - 1])
  }

  /** A form sent as parts comes through exactly when each of its fields does, and then
      field i is kept in place i. */
  lemma FieldsRoundTrip(kind: string, preamble: string, xs: seq<SentField>, b: string,
                        epilogue: string, spare: nat)
    requires Delimiter(b) && NUL !in preamble
    requires Find(preamble + Body(AsParts(kind, xs), b, epilogue), b) == |preamble|
    requires forall i :: 0 <= i < |xs| ==> FieldSendable(kind, xs[i], b)
    ensures var r := FormData(CStr(preamble + Body(AsParts(kind, xs), b, epilogue)), b, spare);
            && (r.Ok? <==> forall i :: 0 <= i < |xs| ==> FieldKept(xs[i], spare))
            && (r.Ok? ==>
                  |r.value| == |xs|
                  && forall i :: 0 <= i < |xs| ==> xs[i].content != "" && r.value[i] == KeptField(xs[i]))
  {
    var parts := AsParts(kind, xs);
    forall i | 0 <= i < |xs| ensures Framed(parts[i], b) { SentIsFramed(PartHeaders(kind, xs[i]), xs[i].content, b); }
    FormDataRoundTrip(preamble, parts, b, epilogue, spare);
    PartFieldsEach(parts, spare);
    forall i | 0 <= i < |xs|
      ensures PartField(parts[i], spare) == if FieldKept(xs[i], spare) then Ok(KeptField(xs[i])) else Fault
    {
      var x := xs[i];
      NamedPart(x.before, x.after, kind, x.name, x.filename, x.content, spare);
    }
  }

  // ----- the entries that the list gets -----

  /** '%' and two hexadecimal digits, in any case. */
  predicate HoldsEscape(s: string) {
    exists i :: 0 <= i < |s| - 2 && s[i] == '%'
                && s[i + 1] in "0123456789abcdefABCDEF" && s[i + 2] in "0123456789abcdefABCDEF"
  }

  /** `value` is what the list gets for a field: of a text, what its content but the last octet
      encodes, or that itself if there is no escape in it; of a file, its name and content
      behind the decimal length of the name, with bars between. */
  ghost predicate ValueOf(x: SentField, value: string) {
    x.content != "" &&
    var kept := x.content[..|x.content| - 1];
    match x.filename
    case None => NUL !in value && (IsEncoding(kept, value) || (!HoldsEscape(kept) && value == kept))
    case Some(fn) => value == Dec(|fn|) + "|" + fn + "|" + kept
  }

  lemma EntryOf(x: SentField, value: string)
    requires ValueOf(x, value)
    ensures FieldEntry(KeptField(x)) == Entry(x.name, value)
  {
    var kept := x.content[..|x.content| - 1];
    if x.filename.None? {
      if IsEncoding(kept, value) { DecodeOfEncoding(kept, value); } else { WithoutEscape(kept); }
    }
  }

  lemma WithoutEscape(s: string)
    requires !HoldsEscape(s)
    ensures Decode(s) == s
  {
    forall k | 0 <= k < |s| ensures !StartsEscape(s[k..]) {
      if |s| - k >= 3 {
        ToHexIs(s[k + 1], 0);
        ToHexIs(s[k + 2], 0);
        assert s[k..][0] == s[k] && s[k..][1] == s[k + 1] && s[k..][2] == s[k + 2];
      }
    }
    DecodeUnchangedIff(s);
  }

  function NamesAndValues(xs: seq<SentField>, values: seq<string>): (es: seq<Entry>)
    requires |xs| == |values|
    ensures |es| == |xs| && forall i :: 0 <= i < |xs| ==> es[i] == Entry(xs[i].name, values[i])
  {
    seq(|xs|, i requires 0 <= i < |xs| => Entry(xs[i].name, values[i]))
  }

  /** The list gets the names and values of the form, in order. */
  lemma EntriesRoundTrip(kind: string, preamble: string, xs: seq<SentField>, values: seq<string>, b: string,
                         epilogue: string, spare: nat)
    requires Delimiter(b) && NUL !in preamble
    requires Find(preamble + Body(AsParts(kind, xs), b, epilogue), b) == |preamble|
    requires forall i :: 0 <= i < |xs| ==> FieldSendable(kind, xs[i], b) && FieldKept(xs[i], spare)
    requires |values| == |xs| && forall i :: 0 <= i < |xs| ==> ValueOf(xs[i], values[i])
    ensures var r := FormData(CStr(preamble + Body(AsParts(kind, xs), b, epilogue)), b, spare);
            r.Ok? && Map(FieldEntry, r.value) == NamesAndValues(xs, values)
  {
    FieldsRoundTrip(kind, preamble, xs, b, epilogue, spare);
    var fields := FormData(CStr(preamble + Body(AsParts(kind, xs), b, epilogue)), b, spare).value;
    EntriesOf(xs, values, fields);
  }

  lemma EntriesOf(xs: seq<SentField>, values: seq<string>, fields: seq<Field>)
    requires |values| == |xs| == |fields|
    requires forall i :: 0 <= i < |xs| ==> ValueOf(xs[i], values[i]) && fields[i] == KeptField(xs[i])
    ensures Map(FieldEntry, fields) == NamesAndValues(xs, values)
  {
    forall i | 0 <= i < |xs| ensures Map(FieldEntry, fields)[i] == NamesAndValues(xs, values)[i] {
      EntryOf(xs[i], values[i]);
      MapAt(FieldEntry, fields, i);
    }
  }

  /** Lines and names as browsers send them. */
  lemma BrowserLines()
    ensures KindOk("Content-Disposition: form-data")
    ensures Quiet("Content-Type: text/plain", 0)
  {
    StartsOtherwise("Content-Disposition: form-data");
    var line := "Content-Type: text/plain";
    StartsOtherwise(line);
    assert forall i :: 0 <= i < |line| ==> line[i] != ';';
    IndexFromIs(line, ';', 0, |line|);
  }

  lemma StartsOtherwise(line: string)
    requires line != "" && line[0] == 'C'
    ensures !MatchAt(line, "name", 0) && !MatchAt(line, "filename", 0)
  {
    NoMatch(line, "name", 0, 0);
    NoMatch(line, "filename", 0, 0);
  }

  // ----- when a part comes through, on its text -----

  predicate SegmentNames(line: string, i: nat) {
    MatchAt(line, "name", i)
  }

  predicate SegmentNamesFile(line: string, i: nat) {
    MatchAt(line, "filename", if SegmentNames(line, i) then i + 5 else i)
  }

  /** The segment from `i` to `p` is long enough for the keywords it starts with, each with
      one character behind it. */
  predicate SegmentRoomy(line: string, i: nat, p: nat) {
    if SegmentNames(line, i) then i + 5 <= p && (SegmentNamesFile(line, i) ==> i + 14 <= p)
    else SegmentNamesFile(line, i) ==> i + 9 <= p
  }

  /** All segments from `i` on have that room. */
  predicate Roomy(line: string, i: nat)
    decreases |line| - i
  {
    i >= |line| ||
    var p := SegmentStop(line, i, |line|);
    SegmentRoomy(line, i, p) && Roomy(line, p + 2)
  }

  /** Some segment from `i` on starts with `name`. */
  predicate Names(line: string, i: nat)
    decreases |line| - i
  {
    i < |line| && (SegmentNames(line, i) || Names(line, SegmentStop(line, i, |line|) + 2))
  }

  /** Some segment from `i` on starts with `filename`, or has it behind `name=`. */
  predicate NamesFile(line: string, i: nat)
    decreases |line| - i
  {
    i < |line| && (SegmentNamesFile(line, i) || NamesFile(line, SegmentStop(line, i, |line|) + 2))
  }

  lemma {:induction false} LineFieldsIff(line: string, i: nat, f: Fields)
    ensures LineFields(line, i, |line|, f).Ok? <==> Roomy(line, i)
    ensures LineFields(line, i, |line|, f).Ok? ==>
              var g := LineFields(line, i, |line|, f).value;
              && (g.key.Some? <==> f.key.Some? || Names(line, i))
              && (g.filename.Some? <==> f.filename.Some? || NamesFile(line, i))
    decreases |line| - i
  {
    if i < |line| {
      var p := SegmentStop(line, i, |line|);
      SegmentFieldsIff(line, i, p, f);
      var g := SegmentFields(line, i, p, f);
      if g.Ok? { LineFieldsIff(line, p + 2, g.value); }
    }
  }

  lemma SegmentFieldsIff(line: string, i: nat, p: nat, f: Fields)
    requires p <= |line|
    ensures SegmentFields(line, i, p, f).Ok? <==> SegmentRoomy(line, i, p)
    ensures SegmentFields(line, i, p, f).Ok? ==>
              var g := SegmentFields(line, i, p, f).value;
              && (g.key.Some? <==> f.key.Some? || SegmentNames(line, i))
              && (g.filename.Some? <==> f.filename.Some? || SegmentNamesFile(line, i))
  {
    if SegmentNames(line, i) { assert i + 5 + 9 == i + 14; }
  }

  lemma {:induction false} LinesFieldsIff(lines: seq<string>, f: Fields)
    ensures LinesFields(lines, f).Ok? <==> forall i :: 0 <= i < |lines| ==> Roomy(lines[i], 0)
    ensures LinesFields(lines, f).Ok? ==>
              var g := LinesFields(lines, f).value;
              && (g.key.Some? <==> f.key.Some? || exists i :: 0 <= i < |lines| && Names(lines[i], 0))
              && (g.filename.Some? <==> f.filename.Some? || exists i :: 0 <= i < |lines| && NamesFile(lines[i], 0))
    decreases |lines|
  {
    if lines != [] {
      LineFieldsIff(lines[0], 0, f);
      assert forall i :: 0 < i < |lines| ==> lines[i] == lines[1..][i - 1];
      assert forall i :: 0 <= i < |lines| - 1 ==> lines[1..][i] == lines[i + 1];
      var g := LineFields(lines[0], 0, |lines[0]|, f);
      if g.Ok? { LinesFieldsIff(lines[1..], g.value); }
    }
  }

  /** What has to be so of the text of a part for the parser to come through it. */
  predicate PartKept(p: Part, spare: nat) {
    && p.content != "" && NUL !in p.content
    && (forall i :: 0 <= i < |p.headers| ==> Roomy(p.headers[i], 0))
    && (exists i :: 0 <= i < |p.headers| && Names(p.headers[i], 0))
    && (spare >= 3 || forall i :: 0 <= i < |p.headers| ==> !NamesFile(p.headers[i], 0))
  }

  lemma PartFieldIff(p: Part, spare: nat)
    ensures PartField(p, spare).Ok? <==> PartKept(p, spare)
  {
    LinesFieldsIff(p.headers, NO_FIELDS);
  }

  /** A body of parts stays inside its buffers exactly when the text of each part is so; as
      coded, that takes parts without file names. */
  lemma FormDataIff(preamble: string, parts: seq<Part>, b: string, epilogue: string, spare: nat)
    requires b != "" && NUL !in b && NUL !in preamble
    requires Find(preamble + Body(parts, b, epilogue), b) == |preamble|
    requires forall i :: 0 <= i < |parts| ==> Framed(parts[i], b)
    ensures FormData(CStr(preamble + Body(parts, b, epilogue)), b, spare).Ok?
       <==> forall i :: 0 <= i < |parts| ==> PartKept(parts[i], spare)
  {
    FormDataRoundTrip(preamble, parts, b, epilogue, spare);
    PartFieldsEach(parts, spare);
    forall i | 0 <= i < |parts| ensures PartField(parts[i], spare).Ok? <==> PartKept(parts[i], spare) {
      PartFieldIff(parts[i], spare);
    }
  }

  // ----- two bodies as coded -----

  const TEXT_LINE := "X; name=a"
  const FILE_LINE := "X; name=a; filename=f"

  function BodyOfLine(line: string): string {
    "--b\r\n" + line + "\r\n\r\ncc\r\n--b--"
  }

  lemma BodyOfLineIs(line: string)
    ensures BodyOfLine(line) == "" + Body([SentPart([line], "cc")], "--b", "")
  {
    var p := SentPart([line], "cc");
    var tail := CRLF + ("cc" + (CRLF + ("--b" + Behind([], "--b", ""))));
    assert Behind([], "--b", "") == "--";
    assert tail == "\r\ncc\r\n--b--";
    LinesOfOne(line, tail);
    assert [p][1..] == [];
    assert Behind([p], "--b", "") == CRLF + (line + (CRLF + tail));
  }

  lemma BodyOfLineText(line: string)
    requires NUL !in line
    ensures Find(BodyOfLine(line), "--b") == 0 && CStr(BodyOfLine(line)) == BodyOfLine(line)
  {
    assert BodyOfLine(line)[0..3] == "--b";
  }

  lemma LinesOfOne(line: string, tail: string)
    ensures Lines([line], tail) == line + (CRLF + tail)
  {
    assert [line][1..] == [];
    assert Lines([], tail) == tail;
  }

  lemma LinesAreLines()
    ensures TEXT_LINE == Disposition("X", "a", None) && FILE_LINE == Disposition("X", "a", Some("f"))
    ensures KindOk("X") && NameOk("a", None) && NameOk("a", Some("f"))
  {
    NoMatch("X", "name", 0, 0);
    NoMatch("X", "filename", 0, 0);
    NoMatch("a", "filename", 0, 0);
  }

  lemma LinesAreText()
    ensures HeaderLines([TEXT_LINE]) && HeaderLines([FILE_LINE])
  {
  }

  /** A text of two octets is kept as one, whose value is shorter too. */
  lemma TextLosesOctet()
    ensures FormData(BodyOfLine(TEXT_LINE), "--b", SPARE) == Ok([Field("a", None, "c")])
    ensures CStr(Decode("c")) != CStr(Decode("cc"))
  {
    LineField(None, SPARE);
    LostOctetIff("cc");
    assert "cc"[..1] == "c";
    DecodeShort("c");
  }

  /** One file is enough: this body faults as coded, and would not with 3 for 2. */
  lemma FileFaults(spare: nat)
    ensures FormData(BodyOfLine(FILE_LINE), "--b", spare) ==
              if spare >= 3 then Ok([Field("a", Some("f"), "c")]) else Fault
    ensures FormData(BodyOfLine(FILE_LINE), "--b", SPARE) == Fault
  {
    LineField(Some("f"), spare);
    LineField(Some("f"), SPARE);
  }

  lemma LineField(filename: Option<string>, spare: nat)
    requires filename == None || filename == Some("f")
    ensures FormData(BodyOfLine(if filename.Some? then FILE_LINE else TEXT_LINE), "--b", spare) ==
              if filename.Some? && spare < 3 then Fault else Ok([Field("a", filename, "c")])
  {
    var line := if filename.Some? then FILE_LINE else TEXT_LINE;
    var p := SentPart([line], "cc");
    LinesAreLines();
    LinesAreText();
    assert HeaderLines([line]) && [line][0] == line;
    BodyOfLineIs(line);
    BodyOfLineText(line);
    OneField(line, filename, spare);
    SentIsFramed([line], "cc", "--b");
    FormDataRoundTrip("", [p], "--b", "", spare);
  }

  lemma OneField(line: string, filename: Option<string>, spare: nat)
    requires filename == None || filename == Some("f")
    requires line == Disposition("X", "a", filename) && KindOk("X") && NameOk("a", filename)
    ensures PartFields([SentPart([line], "cc")], spare) ==
              if filename.Some? && spare < 3 then Fault else Ok([Field("a", filename, "c")])
  {
    var p := SentPart([line], "cc");
    assert [] + [line] + [] == [line];
    NamedPart([], [], "X", "a", filename, "cc", spare);
    assert "cc"[..1] == "c" && NUL !in "cc";
    PartFieldsEach([p], spare);
    if filename.None? || spare >= 3 { assert PartFields([p], spare).value == [PartField(p, spare).value]; }
  }

  // ----- what the lost octet does -----

  /** Decoding without the last octet gives the same value exactly when a decoded NUL has
      ended the value before that. */
  lemma LostOctetIff(c: string)
    requires c != "" && NUL !in c
    ensures CStr(Decode(c[..|c| - 1])) == CStr(Decode(c)) <==> NUL in Decode(c[..|c| - 1])
  {
    var d, x := c[..|c| - 1], c[|c| - 1..];
    assert c == d + x;
    if !CutsEscape(d, x) {
      DecodeConcat(d, x);
      DecodeShort(x);
      OneMore(Decode(d), x);
    } else {
      // the cut is inside the last escape: `%` and one digit stand in front of it
      var e, half := c[..|c| - 3], c[|c| - 3..|c| - 1];
      assert d == e + half && c == e + (half + x);
      assert half[0] == '%' && half[1] == c[|c| - 2] && half == ['%', half[1]];
      DecodeShort(half);
      EscapeWhole(half, x);
      DecodeConcat(e, half);
      DecodeConcat(e, half + x);
      LastEscape(Decode(e), half, Decode(half + x));
    }
  }

  lemma {:induction false} DecodeShort(s: string)
    requires |s| <= 2
    ensures Decode(s) == s
  {
    if s != "" { DecodeShort(s[1..]); }
  }

  lemma EscapeWhole(half: string, x: string)
    requires |half| == 2 && |x| == 1 && StartsEscape(half + x)
    ensures |Decode(half + x)| == 1
  {
    assert (half + x)[3..] == "";
  }

  lemma OneMore(a: string, x: string)
    requires |x| == 1 && x[0] != NUL
    ensures CStr(a) == CStr(a + x) <==> NUL in a
  {
    if NUL in a { CStrCut(a, x); } else { CStrBehind(a, x); }
  }

  lemma LastEscape(a: string, half: string, whole: string)
    requires |half| == 2 && NUL !in half && |whole| == 1
    ensures CStr(a + half) == CStr(a + whole) <==> NUL in a + half
  {
    if NUL in a {
      CStrCut(a, half);
      CStrCut(a, whole);
    } else {
      CStrBehind(a, half);
      CStrBehind(a, whole);
    }
  }

  /** The value kept for a part is the one its whole content would give exactly when it is
      text that a decoded NUL has ended before the last octet; a file value never is, but
      holds the file name and all octets but the last. */
  lemma KeptValueIff(p: Part, spare: nat)
    requires PartField(p, spare).Ok?
    ensures var field := PartField(p, spare).value;
            && ((FieldEntry(field) == FieldEntry(field.(content := p.content)))
                 <==> (field.filename.None? && NUL in Decode(p.content[..|p.content| - 1])))
            && (field.filename.None? ==> |FieldEntry(field).value| < |p.content|)
            && (field.filename.Some? ==>
                  ReadFileValue(FieldEntry(field).value) == Some((field.filename.value, p.content[..|p.content| - 1])))
  {
    var field := PartField(p, spare).value;
    match field.filename
    case Some(name) => KeptFile(name, p.content);
    case None => KeptText(p.content);
  }

  lemma KeptText(c: string)
    requires c != "" && NUL !in c
    ensures (CStr(Decode(c[..|c| - 1])) == CStr(Decode(c))) <==> NUL in Decode(c[..|c| - 1])
    ensures |CStr(Decode(c[..|c| - 1]))| < |c|
  {
    LostOctetIff(c);
    DecodeLength(c[..|c| - 1]);
  }

  lemma KeptFile(name: string, c: string)
    requires c != ""
    ensures FileValue(name, c[..|c| - 1]) != FileValue(name, c)
    ensures ReadFileValue(FileValue(name, c[..|c| - 1])) == Some((name, c[..|c| - 1]))
  {
    FileValueRoundTrip(name, c[..|c| - 1]);
    FileValueRoundTrip(name, c);
  }

  /** Reads `length|filename|content` back. */
  function ReadFileValue(v: string): Option<(string, string)> {
    var bar, n := IndexOf(v, '|'), LeadingDigits(v, 0);
    if bar == -1 || bar + n + 1 >= |v| || v[bar + n + 1] != '|' then None
    else Some((v[bar + 1..bar + n + 1], v[bar + n + 2..]))
  }

  /** A file value can be read in one way only, whatever '|' the name or content holds. */
  lemma FileValueRoundTrip(filename: string, content: string)
    ensures ReadFileValue(FileValue(filename, content)) == Some((filename, content))
  {
    var v, digits, n := FileValue(filename, content), Dec(|filename|), |filename|;
    var rest := "|" + filename + "|" + content;
    assert v == digits + rest;
    LeadingDigitsOfDec(n, rest);
    assert '|' !in digits;
    IndexOfAfterText(digits, '|', filename + "|" + content);
    assert v == digits + ['|'] + (filename + "|" + content);
    assert v[|digits| + n + 1] == '|';
    assert v[|digits| + 1..|digits| + n + 1] == filename;
    assert v[|digits| + n + 2..] == content;
  }

  lemma FileValueInjective(filename1: string, content1: string, filename2: string, content2: string)
    requires FileValue(filename1, content1) == FileValue(filename2, content2)
    ensures filename1 == filename2 && content1 == content2
  {
    FileValueRoundTrip(filename1, content1);
    FileValueRoundTrip(filename2, content2);
  }
}

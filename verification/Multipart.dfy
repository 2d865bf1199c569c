/** parse_formdata of http.c. */
module Multipart {
  import opened CStrings
  import opened DictionaryLists
  import opened ReadStreams
  import opened UrlForms
  import opened Wrappers

  // ----- what the header lines of a part say -----

  datatype Fields = Fields(key: Option<string>, filename: Option<string>)

  const NO_FIELDS := Fields(None, None)

  ghost predicate Terminated(f: Fields) {
    (f.key.Some? ==> NUL !in f.key.value) && (f.filename.Some? ==> NUL !in f.filename.value)
  }

  /** Where the `;`-segment at `idx` of the line that ends at `next` stops. */
  function SegmentStop(s: string, idx: nat, next: nat): (p: nat)
    requires idx <= next <= |s|
    ensures idx <= p <= next
  {
    var semi := IndexFrom(s, ';', idx);
    if semi == -1 || semi > next then next else semi
  }

  /** The text from `from` up to `p`, unless that length is negative. */
  function TextUpTo(s: string, from: nat, p: nat): Outcome<string>
    requires p <= |s|
  {
    if from > p then Fault else Ok(s[from..p])
  }

  function KeyIn(s: string, idx: nat, p: nat, f: Fields): Outcome<Fields>
    requires p <= |s|
  {
    if !MatchAt(s, "name", idx) then Ok(f)
    else match TextUpTo(s, idx + 5, p) case Fault => Fault case Ok(t) => Ok(f.(key := Some(t)))
  }

  function FilenameIn(s: string, idx: nat, p: nat, f: Fields): Outcome<Fields>
    requires p <= |s|
  {
    if !MatchAt(s, "filename", idx) then Ok(f)
    else match TextUpTo(s, idx + 9, p) case Fault => Fault case Ok(t) => Ok(f.(filename := Some(t)))
  }

  /** One segment. The text after `name=` is itself looked at for `filename`. */
  function SegmentFields(s: string, idx: nat, p: nat, f: Fields): Outcome<Fields>
    requires p <= |s|
  {
    match KeyIn(s, idx, p, f)
    case Fault => Fault
    case Ok(g) => FilenameIn(s, if MatchAt(s, "name", idx) then idx + 5 else idx, p, g)
  }

  /** The rest of a line, segment by segment; the character behind a ';' is skipped. */
  function LineFields(s: string, idx: nat, next: nat, f: Fields): Outcome<Fields>
    requires next <= |s|
    decreases next - idx
  {
    if idx >= next then Ok(f)
    else
      match SegmentFields(s, idx, SegmentStop(s, idx, next), f)
      case Fault => Fault
      case Ok(g) => LineFields(s, SegmentStop(s, idx, next) + 2, next, g)
  }

  /** Behind the CRLF at or after `idx`. */
  function AfterLine(s: string, idx: nat): (after: nat)
    requires FindFrom(s, CRLF, idx) != -1
    ensures idx + 2 <= after <= |s|
  {
    FindFrom(s, CRLF, idx) + 2
  }

  /** The header lines from `idx` on, and where the content starts. Without a CRLF
      ahead the loop does not move, so it ends only at the end of the text. */
  function HeaderFields(s: string, idx: nat, f: Fields): (r: Outcome<(Fields, nat)>)
    requires idx <= |s|
    ensures r.Ok? ==> idx <= r.value.1 <= |s|
    decreases |s| - idx
  {
    var cr := FindFrom(s, CRLF, idx);
    if cr == -1 then (if idx == |s| then Ok((f, idx)) else Fault)
    else if cr == idx then Ok((f, AfterLine(s, idx)))
    else
      match LineFields(s, idx, cr, f)
      case Fault => Fault
      case Ok(g) =>
        if AfterLine(s, idx) < |s| then HeaderFields(s, AfterLine(s, idx), g) else Ok((g, AfterLine(s, idx)))
  }

  // ----- parts -----

  /** A part as it is found, before its value is formed. */
  datatype Field = Field(key: string, filename: Option<string>, content: string)

  /** `length|filename|content` */
  function FileValue(filename: string, content: string): string {
    Dec(|filename|) + "|" + filename + "|" + content
  }

  /** What http.c:118 adds to the lengths of the digits, the file name and the content. */
  const SPARE := 2

  /** The size that the buffer of a file value is given, when `spare` is added. */
  function FileRoom(filename: string, content: string, spare: nat): nat {
    |filename| + |Dec(|filename|)| + spare + |content|
  }

  /** Whether a value, with its terminator, stays inside its buffer. */
  predicate ValueFits(filename: Option<string>, content: string, spare: nat) {
    match filename
    case None => true
    case Some(name) => |FileValue(name, content)| + 1 <= FileRoom(name, content, spare)
  }

  /** As coded, every file value is written one byte past its buffer, whatever the file
      name and the content; with 3 for 2 every one would fit. */
  lemma FileOverflow(filename: string, content: string, spare: nat)
    ensures |FileValue(filename, content)| + 1 == FileRoom(filename, content, SPARE) + 1
    ensures ValueFits(Some(filename), content, spare) <==> spare >= 3
  {
  }

  function FieldEntry(f: Field): Entry {
    Entry(f.key, match f.filename case Some(name) => FileValue(name, f.content) case None => CStr(Decode(f.content)))
  }

  /** Behind the next delimiter at or after `idx`; `idx` itself if there is none. */
  function AfterDelimiter(s: string, b: string, idx: nat): (after: nat)
    requires idx <= |s|
    ensures idx <= after <= |s|
  {
    var m := FindFrom(s, b, idx);
    if m == -1 then idx else m + |b|
  }

  /** The two characters behind a delimiter are skipped unread. */
  function PartStart(s: string, b: string, idx: nat): (start: nat)
    requires idx <= |s|
    ensures start > idx
  {
    AfterDelimiter(s, b, idx) + 2
  }

  /** The value that is cut out of the content between `start` and a delimiter at `e`. */
  function ValueSlice(s: string, start: nat, e: nat): string
    requires start + 3 <= e <= |s|
  {
    s[start..e - 3]
  }

  /** The part whose header lines start at `idx`, and where the delimiter behind it is.
      The slice is one octet short of the content; an empty content makes its length
      negative; a file value has to fit its buffer; a key that stays NULL is dereferenced
      by every later lookup. */
  function PartAt(s: string, b: string, idx: nat, spare: nat): (r: Outcome<(Field, nat)>)
    requires idx <= |s|
    ensures r.Ok? ==> idx < r.value.1 <= |s|
  {
    match HeaderFields(s, idx, NO_FIELDS)
    case Fault => Fault
    case Ok((f, start)) =>
      var e := FindFrom(s, b, start);
      if e == -1 || e - start < 3 then Fault
      else if !ValueFits(f.filename, ValueSlice(s, start, e), spare) || f.key.None? then Fault
      else Ok((Field(f.key.value, f.filename, ValueSlice(s, start, e)), e))
  }

  function Prepend<T>(done: seq<T>, r: Outcome<seq<T>>): Outcome<seq<T>> {
    match r case Fault => Fault case Ok(more) => Ok(done + more)
  }

  function Parts(s: string, b: string, idx: nat, spare: nat): Outcome<seq<Field>>
    requires idx <= |s|
    decreases |s| - idx
  {
    var after := AfterDelimiter(s, b, idx);
    if MatchAt(s, "--", after) then Ok([])
    else if PartStart(s, b, idx) > |s| then Fault
    else
      match PartAt(s, b, PartStart(s, b, idx), spare)
      case Fault => Fault
      case Ok((field, e)) => Prepend([field], Parts(s, b, e, spare))
  }

  /** What parse_formdata makes of a body. */
  function FormData(body: string, b: string, spare: nat): Outcome<seq<Field>> {
    if body == "" then Ok([]) else Parts(body, b, 0, spare)
  }

  // ----- parse_formdata -----

  method ScanSegment(body: CString, idx: nat, p: nat, f: Fields) returns (r: Outcome<Fields>)
    requires idx <= p <= |body|
    requires Terminated(f)
    ensures r == SegmentFields(body, idx, p, f)
    ensures r.Ok? ==> Terminated(r.value)
  {
    var i, g := idx, f;
    if MatchAt(body, "name", i) {
      i := i + 5;
      if p - i < 0 { return Fault; }
      g := g.(key := Some(Copy(body, i, p)));
    }
    if MatchAt(body, "filename", i) {
      i := i + 9;
      if p - i < 0 { return Fault; }
      g := g.(filename := Some(Copy(body, i, p)));
    }
    return Ok(g);
  }

  method ScanLine(body: CString, start: nat, next: nat, f: Fields) returns (r: Outcome<Fields>)
    requires start <= next <= |body|
    requires Terminated(f)
    ensures r == LineFields(body, start, next, f)
    ensures r.Ok? ==> Terminated(r.value)
  {
    var idx, g := start, f;
    while idx < next
      invariant Terminated(g) && LineFields(body, start, next, f) == LineFields(body, idx, next, g)
      decreases next - idx
    {
      var p := FindIdxAt(body, idx, ';');
      if p - idx == -1 || p > next { p := next; }
      var r1 := ScanSegment(body, idx, p, g);
      if r1.Fault? { return Fault; }
      g := r1.value;
      idx := p + 2;
    }
    return Ok(g);
  }

  /** find_str(s+idx, p)+idx */
  method FindStrAt(s: CString, idx: nat, p: CString) returns (r: int)
    requires idx <= |s| && p != ""
    ensures r == if FindFrom(s, p, idx) == -1 then idx - 1 else FindFrom(s, p, idx) + |p| - 1
  {
    r := FindStr(Tail(s, idx), p);
    FindInTail(s, p, idx);
    r := r + idx;
  }

  lemma FindInTail(s: string, p: string, idx: nat)
    requires idx <= |s|
    ensures FindFrom(s, p, idx) == if Find(s[idx..], p) == -1 then -1 else idx + Find(s[idx..], p)
  {
    var t := s[idx..];
    FindFromFirst(t, p, 0);
    forall j | idx <= j <= |s| - |p| ensures MatchAt(s, p, j) <==> MatchAt(t, p, j - idx) {
      assert s[j..j + |p|] == t[j - idx..j - idx + |p|];
    }
    if Find(t, p) == -1 { FindFromNone(s, p, idx); } else { FindFromIs(s, p, idx, idx + Find(t, p)); }
  }

  lemma HeaderFieldsStep(s: string, idx: nat, f: Fields)
    requires FindFrom(s, CRLF, idx) > idx
    ensures var line := LineFields(s, idx, FindFrom(s, CRLF, idx), f);
            && (line.Fault? ==> HeaderFields(s, idx, f) == Fault)
            && (line.Ok? && AfterLine(s, idx) < |s| ==>
                  HeaderFields(s, idx, f) == HeaderFields(s, AfterLine(s, idx), line.value))
            && (line.Ok? && AfterLine(s, idx) == |s| ==> HeaderFields(s, idx, f) == Ok((line.value, |s|)))
  {
  }

  /** The header loop; a fault also stands for the loop that stays where it is. */
  method ScanHeaders(body: CString, start: nat) returns (r: Outcome<(Fields, nat)>)
    requires start <= |body|
    ensures r == HeaderFields(body, start, NO_FIELDS)
    ensures r.Ok? ==> Terminated(r.value.0)
  {
    var len := |body|;
    var idx, f := start, NO_FIELDS;
    while true
      invariant idx <= len && Terminated(f)
      invariant HeaderFields(body, start, NO_FIELDS) == HeaderFields(body, idx, f)
      decreases len - idx
    {
      ghost var cr := FindFrom(body, CRLF, idx);
      var next := FindStrAt(body, idx, CRLF);
      next := next - 1;
      if next < idx {
        // no CRLF ahead: no segment is scanned and idx comes out as it went in
        if idx < len { return Fault; }
        return Ok((f, idx));
      }
      ghost var after := AfterLine(body, idx);
      assert next == cr && next + 2 == after;
      if next == idx {
        return Ok((f, next + 2));
      }
      HeaderFieldsStep(body, idx, f);
      var r1 := ScanLine(body, idx, next, f);
      if r1.Fault? { return Fault; }
      f := r1.value;
      idx := next + 2;
      assert idx == after;
      if idx >= len { return Ok((f, idx)); }
    }
  }

  /** The value of a part: kept with its length and name for a file, else decoded. The
      buffer for a file grows from its digits to the size asked for. */
  method FormValue(f: Fields, value: CString, spare: nat) returns (r: Outcome<CString>)
    requires Terminated(f)
    ensures r.Ok? <==> ValueFits(f.filename, value, spare)
    ensures r.Ok? ==> forall key :: FieldEntry(Field(key, f.filename, value)) == Entry(key, r.value)
  {
    match f.filename
    case Some(name) =>
      var digits := Dec(|name|);
      var tmp := new char[|name| + |digits| + spare + |value|];
      var text := digits + "|" + name + "|" + value;
      if |text| + 1 > tmp.Length { return Fault; }
      forall i | 0 <= i < |text| { tmp[i] := text[i]; }
      tmp[|text|] := NUL;
      assert tmp[..|text|] == text;
      return Ok(TextOf(tmp, |text|));
    case None =>
      var text := UrlDecode(value);
      return Ok(text);
  }

  /** The part of the loop body that cuts a part out: header lines, the content up to
      the next delimiter, and its value. */
  method CutPart(body: CString, boundary: CString, start: nat, spare: nat)
    returns (ok: bool, next: nat, key: string, value: string, ghost field: Field)
    requires start <= |body| && boundary != ""
    ensures !ok ==> PartAt(body, boundary, start, spare) == Fault
    ensures ok ==> PartAt(body, boundary, start, spare) == Ok((field, next))
    ensures ok ==> FieldEntry(field) == Entry(key, value)
  {
    ok, next, key, value, field := false, start, "", "", Field("", None, "");
    var headers := ScanHeaders(body, start);
    if headers.Fault? { return; }
    var f, idx := headers.value.0, headers.value.1;
    var stop := FindStrAt(body, idx, boundary);
    stop := stop - |boundary|;
    var n := stop - idx - 2;
    if n < 0 { return; }
    next := stop + 1;
    assert next == FindFrom(body, boundary, idx);
    var content := Copy(body, idx, idx + n);
    assert content == ValueSlice(body, idx, next);
    var formed := FormValue(f, content, spare);
    if formed.Fault? || f.key.None? { return; }
    field := Field(f.key.value, f.filename, content);
    key, value := f.key.value, formed.value;
    ok := true;
  }

  /** The start of the loop body: is the next delimiter the closing one, and where does
      the part behind it start? */
  method SkipDelimiter(body: CString, boundary: CString, idx: nat) returns (closing: bool, start: nat)
    requires idx <= |body| && boundary != ""
    ensures closing <==> MatchAt(body, "--", AfterDelimiter(body, boundary, idx))
    ensures start == PartStart(body, boundary, idx)
  {
    var next := FindStrAt(body, idx, boundary);
    assert next + 1 == AfterDelimiter(body, boundary, idx);
    closing := MatchAt(body, "--", next + 1);
    next := next + 2;
    start := next + 1;
  }

  lemma PrependNone<T>(r: Outcome<seq<T>>)
    ensures Prepend([], r) == r
  {
    if r.Ok? { assert [] + r.value == r.value; }
  }

  lemma PrependMore<T>(done: seq<T>, x: T, r: Outcome<seq<T>>)
    ensures Prepend(done, Prepend([x], r)) == Prepend(done + [x], r)
  {
    if r.Ok? { Regroup(done, [x], r.value); }
  }

  /** `ok` is false when the code leaves its defined behaviour or stops moving. */
  method ParseFormdata(list: DicList, body: CString, boundary: CString, spare: nat) returns (ok: bool)
    requires list.Valid() && boundary != ""
    modifies list.Repr
    ensures list.Valid() && fresh(list.Repr - old(list.Repr))
    ensures ok <==> FormData(body, boundary, spare).Ok?
    ensures ok ==> list.Contents == old(list.Contents) + Map(FieldEntry, FormData(body, boundary, spare).value)
  {
    var idx, len := 0, |body|;
    if len == 0 { return true; }
    ghost var before, done, all := list.Contents, [], Parts(body, boundary, 0, spare);
    PrependNone(all);
    while true
      invariant idx <= len && list.Valid() && fresh(list.Repr - old(list.Repr))
      invariant list.Contents == before + Map(FieldEntry, done)
      invariant all == Prepend(done, Parts(body, boundary, idx, spare))
      decreases len - idx
    {
      var closing, start := SkipDelimiter(body, boundary, idx);
      PartsStops(body, boundary, idx, spare, done);
      if closing { return true; }
      if start > len { return false; }
      var next;
      ghost var field;
      ok, next, field := AddPart(list, body, boundary, idx, start, spare, before, done);
      if !ok { return; }
      done := done + [field];
      idx := next;
    }
  }

  /** One turn of the loop behind a delimiter that does not close the body, and what it keeps. */
  method AddPart(list: DicList, body: CString, boundary: CString, idx: nat, start: nat, spare: nat,
                 ghost before: seq<Entry>, ghost done: seq<Field>)
    returns (ok: bool, next: nat, ghost field: Field)
    requires list.Valid() && list.Contents == before + Map(FieldEntry, done)
    requires boundary != "" && idx <= |body| && !MatchAt(body, "--", AfterDelimiter(body, boundary, idx))
    requires start == PartStart(body, boundary, idx) <= |body|
    modifies list.Repr
    ensures list.Valid() && fresh(list.Repr - old(list.Repr))
    ensures !ok ==> Prepend(done, Parts(body, boundary, idx, spare)) == Fault
    ensures ok ==> idx < next <= |body| && list.Contents == before + Map(FieldEntry, done + [field])
    ensures ok ==> (Prepend(done, Parts(body, boundary, idx, spare))
                    == Prepend(done + [field], Parts(body, boundary, next, spare)))
  {
    var key, value;
    ok, next, key, value, field := CutPart(body, boundary, start, spare);
    if !ok { return; }
    PrependMore(done, field, Parts(body, boundary, next, spare));
    Accumulate(before, done, field);
    list.AddData(key, value);
  }

  /** Where the loop ends without another part. */
  lemma PartsStops(s: string, b: string, idx: nat, spare: nat, done: seq<Field>)
    requires idx <= |s|
    ensures var closing := MatchAt(s, "--", AfterDelimiter(s, b, idx));
            && (closing ==> Prepend(done, Parts(s, b, idx, spare)) == Ok(done))
            && (!closing && PartStart(s, b, idx) > |s| ==> Prepend(done, Parts(s, b, idx, spare)) == Fault)
  {
    assert done + [] == done;
  }

  lemma Accumulate(before: seq<Entry>, done: seq<Field>, field: Field)
    ensures before + Map(FieldEntry, done) + [FieldEntry(field)] == before + Map(FieldEntry, done + [field])
  {
    MapConcat(FieldEntry, done, [field]);
    MapOne(FieldEntry, field);
    Regroup(before, Map(FieldEntry, done), [FieldEntry(field)]);
  }
}

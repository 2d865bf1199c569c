/** url_decode and parse_parameter of http.c. */
module UrlForms {
  import opened CStrings
  import opened DictionaryLists

  // ----- percent decoding -----

  predicate StartsEscape(s: string) {
    |s| >= 3 && s[0] == '%' && IsHex(s[1]) && IsHex(s[2])
  }

  function HexByte(hi: char, lo: char): char
    requires IsHex(hi) && IsHex(lo)
  {
    (ToHex(hi) * 16 + ToHex(lo)) as char
  }

  function Decode(s: string): string {
    if s == "" then ""
    else if StartsEscape(s) then [HexByte(s[1], s[2])] + Decode(s[3..])
    else [s[0]] + Decode(s[1..])
  }

  /** The number of escapes that decoding consumes. */
  function Escapes(s: string): nat {
    if s == "" then 0
    else if StartsEscape(s) then 1 + Escapes(s[3..])
    else Escapes(s[1..])
  }

  lemma {:induction false} DecodeLength(s: string)
    ensures |Decode(s)| + 2 * Escapes(s) == |s|
  {
    if s != "" {
      if StartsEscape(s) { DecodeLength(s[3..]); } else { DecodeLength(s[1..]); }
    }
  }

  /** Decoding leaves a text alone exactly when it holds no complete escape. */
  lemma {:induction false} DecodeUnchangedIff(s: string)
    ensures Decode(s) == s <==> forall k :: 0 <= k < |s| ==> !StartsEscape(s[k..])
  {
    DecodeLength(s);
    if forall k :: 0 <= k < |s| ==> !StartsEscape(s[k..]) {
      NoEscapes(s);
    } else {
      var k :| 0 <= k < |s| && StartsEscape(s[k..]);
      SomeEscape(s, k);
    }
  }

  lemma {:induction false} NoEscapes(s: string)
    requires forall k :: 0 <= k < |s| ==> !StartsEscape(s[k..])
    ensures Decode(s) == s
  {
    if s != "" {
      assert s[0..] == s;
      forall k | 0 <= k < |s[1..]| ensures !StartsEscape(s[1..][k..]) {
        assert s[1..][k..] == s[k + 1..];
      }
      NoEscapes(s[1..]);
    }
  }

  lemma {:induction false} SomeEscape(s: string, k: nat)
    requires k < |s| && StartsEscape(s[k..])
    ensures Escapes(s) > 0
  {
    if k > 0 && !StartsEscape(s) {
      assert s[1..][k - 1..] == s[k..];
      SomeEscape(s[1..], k - 1);
    }
  }

  /** The cut between `a` and `b` falls inside an escape. */
  predicate CutsEscape(a: string, b: string) {
    || (|a| >= 1 && |b| >= 2 && a[|a| - 1] == '%' && IsHex(b[0]) && IsHex(b[1]))
    || (|a| >= 2 && |b| >= 1 && a[|a| - 2] == '%' && IsHex(a[|a| - 1]) && IsHex(b[0]))
  }

  /** Decoding distributes over a cut exactly when the cut is not inside an escape. */
  lemma DecodeConcatIff(a: string, b: string)
    ensures Decode(a + b) == Decode(a) + Decode(b) <==> !CutsEscape(a, b)
  {
    if CutsEscape(a, b) {
      EscapesAtCut(a, b);
      DecodeLength(a); DecodeLength(b); DecodeLength(a + b);
    } else {
      DecodeConcat(a, b);
    }
  }

  lemma {:induction false} DecodeConcat(a: string, b: string)
    requires !CutsEscape(a, b)
    ensures Decode(a + b) == Decode(a) + Decode(b)
    decreases |a|
  {
    if a == "" {
      assert a + b == b;
    } else if StartsEscape(a) {
      assert (a + b)[3..] == a[3..] + b;
      DecodeConcat(a[3..], b);
    } else {
      assert !StartsEscape(a + b);
      assert (a + b)[1..] == a[1..] + b;
      DecodeConcat(a[1..], b);
    }
  }

  lemma {:induction false} EscapesAtCut(a: string, b: string)
    requires CutsEscape(a, b)
    ensures Escapes(a + b) == Escapes(a) + Escapes(b) + 1
    decreases |a|
  {
    if StartsEscape(a) {
      assert (a + b)[3..] == a[3..] + b;
      EscapesAtCut(a[3..], b);
    } else if StartsEscape(a + b) {
      if |a| == 1 {
        assert (a + b)[3..] == b[2..];
        assert b[1..][1..] == b[2..];
      } else {
        assert |a| == 2;
        assert (a + b)[3..] == b[1..];
        assert a[1..][1..] == "" && Escapes(a[1..]) == Escapes(a[1..][1..]);
      }
    } else {
      assert (a + b)[1..] == a[1..] + b;
      EscapesAtCut(a[1..], b);
    }
  }

  predicate EscapeAt(s: string, i: nat) {
    i + 2 < |s| && s[i] == '%' && IsHex(s[i + 1]) && IsHex(s[i + 2])
  }

  lemma DecodeAt(s: string, i: nat)
    requires i < |s|
    ensures EscapeAt(s, i) ==> Decode(s[i..]) == [HexByte(s[i + 1], s[i + 2])] + Decode(s[i + 3..])
    ensures !EscapeAt(s, i) ==> Decode(s[i..]) == [s[i]] + Decode(s[i + 1..])
  {
    assert EscapeAt(s, i) <==> StartsEscape(s[i..]);
    if EscapeAt(s, i) { assert s[i..][3..] == s[i + 3..]; } else { assert s[i..][1..] == s[i + 1..]; }
  }

  /** The buffer has room for the undecoded text; a decoded %00 ends the result. */
  method UrlDecode(text: CString) returns (decoded: CString)
    ensures decoded == CStr(Decode(text))
  {
    var len := |text|;
    var buf := new char[len + 1];
    buf[0] := NUL;
    ghost var all := Decode(text);
    assert text[0..] == text;
    var i, j := 0, 0;
    while i < len
      invariant 0 <= j <= i <= len
      invariant all == buf[..j] + Decode(text[i..])
      invariant buf[j] == NUL
    {
      DecodeAt(text, i);
      ghost var done := buf[..j];
      // the terminator is not a hex digit, so nothing behind it is read
      if text[i] == '%' && i + 1 < len && IsHex(text[i + 1]) && i + 2 < len && IsHex(text[i + 2]) {
        buf[j] := (ToHex(text[i + 1]) * 16 + ToHex(text[i + 2])) as char;
        i := i + 2;
      } else {
        buf[j] := text[i];
      }
      ghost var c := buf[j];
      buf[j + 1] := NUL;
      i, j := i + 1, j + 1;
      assert buf[..j] == done + [c];
      Regroup(done, [c], Decode(text[i..]));
    }
    assert buf[..j] == all;
    return TextOf(buf, j);
  }

  /** The C string in a terminated buffer. */
  function TextOf(buf: array<char>, n: nat): (text: string)
    requires n < buf.Length && buf[n] == NUL
    reads buf
    ensures text == CStr(buf[..n]) == CStr(buf[..])
  {
    assert buf[..] == buf[..n] + [NUL] + buf[n + 1..];
    CStrTerminated(buf[..n], buf[n + 1..]);
    CStr(buf[..])
  }

  // ----- percent encoding: what any encoder may send -----

  /** `e` encodes `s` byte by byte, each byte sent as itself or as an escape with hex
      digits of either case; at least '%', '&' and '=' are escaped. */
  predicate IsEncoding(e: string, s: string) {
    if s == "" then e == ""
    else
      || (e != "" && e[0] == s[0] && s[0] !in "%&=" && IsEncoding(e[1..], s[1..]))
      || (|e| >= 3 && Escaped(e[0], e[1], e[2], s[0]) && IsEncoding(e[3..], s[1..]))
  }

  /** '%' and the two digits of the byte's number. */
  predicate Escaped(percent: char, hi: char, lo: char, c: char) {
    percent == '%' && IsDigitOf(hi, c as int / 16) && IsDigitOf(lo, c as int % 16)
  }

  /** Every byte is decoded from its two digits, whatever follows. */
  lemma EscapeDecodes(hi: char, lo: char, c: char, rest: string)
    requires Escaped('%', hi, lo, c)
    ensures Decode(['%', hi, lo] + rest) == [c] + Decode(rest)
  {
    ToHexIs(hi, c as int / 16);
    ToHexIs(lo, c as int % 16);
    assert (['%', hi, lo] + rest)[3..] == rest;
  }

  lemma {:induction false} DecodeOfEncoding(e: string, s: string)
    requires IsEncoding(e, s)
    ensures Decode(e) == s
    ensures '&' !in e && '=' !in e
    decreases |s|
  {
    if s == "" {
    } else if e != "" && e[0] == s[0] && s[0] !in "%&=" && IsEncoding(e[1..], s[1..]) {
      DecodeOfEncoding(e[1..], s[1..]);
      ByteDecodes(e, s);
    } else {
      DecodeOfEncoding(e[3..], s[1..]);
      EscapeOfByteDecodes(e, s);
    }
  }

  lemma ByteDecodes(e: string, s: string)
    requires e != "" && s != "" && e[0] == s[0] && s[0] !in "%&="
    requires Decode(e[1..]) == s[1..] && '&' !in e[1..] && '=' !in e[1..]
    ensures Decode(e) == s && '&' !in e && '=' !in e
  {
    assert "%&="[0] == '%' && "%&="[1] == '&' && "%&="[2] == '=';
    assert e == [e[0]] + e[1..] && s == [s[0]] + s[1..];
  }

  lemma EscapeOfByteDecodes(e: string, s: string)
    requires |e| >= 3 && s != "" && Escaped(e[0], e[1], e[2], s[0])
    requires Decode(e[3..]) == s[1..] && '&' !in e[3..] && '=' !in e[3..]
    ensures Decode(e) == s && '&' !in e && '=' !in e
  {
    assert e == ['%', e[1], e[2]] + e[3..] && s == [s[0]] + s[1..];
    EscapeDecodes(e[1], e[2], s[0], e[3..]);
    ToHexIs(e[1], s[0] as int / 16);
    ToHexIs(e[2], s[0] as int % 16);
  }

  // ----- form parameters -----

  /** Where the segment behind the one at `idx` starts; `|s| + 1` if there is none. */
  function NextStart(s: string, idx: nat): (next: nat)
    requires idx <= |s|
    ensures idx < next <= |s| + 1
  {
    var amp := IndexFrom(s, '&', idx);
    if amp == -1 then |s| + 1 else amp + 1
  }

  /** The undecoded pair in the `&`-segment at `idx`: nothing unless it holds a '='. */
  function SegmentPair(s: string, idx: nat): seq<Entry>
    requires idx <= |s|
  {
    var end, equal := NextStart(s, idx) - 1, IndexFrom(s, '=', idx);
    if equal == -1 || equal >= end then [] else [Entry(s[idx..equal], s[equal + 1..end])]
  }

  /** The undecoded pairs of the segments from `idx` on. */
  function FormPairs(s: string, idx: nat): seq<Entry>
    requires idx <= |s| + 1
    decreases |s| + 1 - idx
  {
    if idx > |s| then [] else SegmentPair(s, idx) + FormPairs(s, NextStart(s, idx))
  }

  function DecodePair(pair: Entry): Entry {
    Entry(CStr(Decode(pair.key)), CStr(Decode(pair.value)))
  }

  /** The parameters that a form text stands for. */
  function FormEntries(s: string): seq<Entry> {
    Map(DecodePair, FormPairs(s, 0))
  }

  /** What a caller has to check before handing `s` to parse_parameter: that the last
      '&', if any, comes before the last '='. */
  predicate FormSafe(s: string) {
    LastIndexOf(s, '&') <= LastIndexOf(s, '=')
  }

  // ----- parse_parameter -----

  /** `done` are the pairs before `idx`, where a segment starts. */
  ghost predicate FormLoop(done: seq<Entry>, s: string, idx: nat) {
    && idx <= |s| + 1
    && FormPairs(s, 0) == done + FormPairs(s, idx)
    && (0 < idx <= |s| ==> s[idx - 1] == '&')
    && (idx > |s| ==> FormSafe(s))
  }

  lemma FormLoopStarts(s: string, before: seq<Entry>)
    requires s != ""
    ensures FormLoop([], s, 0) && before + Map(DecodePair, []) == before
  {
    assert [] + FormPairs(s, 0) == FormPairs(s, 0);
  }

  lemma FormLoopEnds(done: seq<Entry>, s: string, idx: nat)
    requires FormLoop(done, s, idx) && idx > |s|
    ensures FormSafe(s) && FormEntries(s) == Map(DecodePair, done)
  {
    assert done + [] == done;
  }

  lemma FormLoopSteps(done: seq<Entry>, s: string, idx: nat)
    requires idx <= |s| && FormLoop(done, s, idx)
    requires idx == 0 || IndexFrom(s, '=', idx) != -1
    ensures FormLoop(done + SegmentPair(s, idx), s, NextStart(s, idx))
  {
    Regroup(done, SegmentPair(s, idx), FormPairs(s, NextStart(s, idx)));
    if NextStart(s, idx) > |s| { SafeAtEnd(s, idx); }
  }

  lemma SafeAtEnd(s: string, idx: nat)
    requires idx <= |s| && IndexFrom(s, '&', idx) == -1
    requires idx == 0 || IndexFrom(s, '=', idx) != -1
    ensures FormSafe(s)
  {
    IndexFromFirst(s, '&', idx);
    LastIndexIsLast(s, '=');
  }

  lemma UnsafeAt(s: string, idx: nat)
    requires 0 < idx <= |s| && s[idx - 1] == '&' && IndexFrom(s, '=', idx) == -1
    ensures !FormSafe(s)
  {
    IndexFromFirst(s, '=', idx);
    LastIndexIsLast(s, '&');
  }

  lemma NothingIn(s: string)
    requires s == ""
    ensures FormSafe(s) && FormEntries(s) == []
  {
    NoSegment(s);
  }

  lemma Accumulates(before: seq<Entry>, done: seq<Entry>, pair: seq<Entry>, contents: seq<Entry>)
    requires contents == before + Map(DecodePair, done)
    ensures contents + Map(DecodePair, pair) == before + Map(DecodePair, done + pair)
  {
    MapConcat(DecodePair, done, pair);
    Regroup(before, Map(DecodePair, done), Map(DecodePair, pair));
  }

  /** `idx - 1` stands for a '=' that is not there: the "not found" test at http.c:43
      only works when `idx` is 0, and past that a copy of length -1 follows. That makes
      `ok` false, exactly on the inputs that are not FormSafe. */
  method ParseParameter(list: DicList, params: CString) returns (ok: bool)
    requires list.Valid()
    modifies list.Repr
    ensures list.Valid() && fresh(list.Repr - old(list.Repr))
    ensures ok <==> FormSafe(params)
    ensures ok ==> list.Contents == old(list.Contents) + FormEntries(params)
  {
    var idx := 0;
    var len := |params|;
    if len == 0 {
      NothingIn(params);
      return true;
    }
    ghost var done := [];
    ghost var before := list.Contents;
    FormLoopStarts(params, before);
    while idx <= len
      invariant list.Valid() && fresh(list.Repr - old(list.Repr))
      invariant list.Contents == before + Map(DecodePair, done)
      invariant FormLoop(done, params, idx)
    {
      var next;
      ok, next := ParseStep(list, params, idx, before, done);
      if !ok { return; }
      done := done + SegmentPair(params, idx);
      idx := next;
    }
    FormLoopEnds(done, params, idx);
    return true;
  }

  /** One turn of the loop, and what it keeps. */
  method ParseStep(list: DicList, params: CString, idx: nat, ghost before: seq<Entry>, ghost done: seq<Entry>)
    returns (ok: bool, start: nat)
    requires list.Valid() && list.Contents == before + Map(DecodePair, done)
    requires idx <= |params| && FormLoop(done, params, idx)
    modifies list.Repr
    ensures list.Valid() && fresh(list.Repr - old(list.Repr))
    ensures start == NextStart(params, idx)
    ensures !ok ==> !FormSafe(params)
    ensures ok ==> list.Contents == before + Map(DecodePair, done + SegmentPair(params, idx))
    ensures ok ==> FormLoop(done + SegmentPair(params, idx), params, start)
  {
    Accumulates(before, done, SegmentPair(params, idx), list.Contents);
    ok, start := ParseSegment(list, params, idx);
    if ok { FormLoopSteps(done, params, idx); } else { UnsafeAt(params, idx); }
  }

  /** The body of the loop: finds, copies, decodes and adds one `key=value`. */
  method ParseSegment(list: DicList, params: CString, idx: nat) returns (ok: bool, start: nat)
    requires list.Valid() && idx <= |params|
    modifies list.Repr
    ensures list.Valid() && fresh(list.Repr - old(list.Repr))
    ensures start == NextStart(params, idx)
    ensures ok <==> idx == 0 || IndexFrom(params, '=', idx) != -1
    ensures ok ==> list.Contents == old(list.Contents) + Map(DecodePair, SegmentPair(params, idx))
  {
    var next := FindIdxAt(params, idx, '&');
    if next - idx == -1 { next := |params|; }
    start := next + 1;
    var equal := FindIdxAt(params, idx, '=');
    if equal < next && equal != -1 {
      var keyLen := equal - idx;
      if keyLen < 0 { return false, start; }
      var key, value := DecodedPair(params, idx, equal, next);
      list.AddData(key, value);
    }
    return true, start;
  }

  method DecodedPair(params: CString, idx: nat, equal: nat, next: nat) returns (key: CString, value: CString)
    requires idx <= equal < next <= |params| && equal == IndexFrom(params, '=', idx)
    requires next == NextStart(params, idx) - 1
    ensures Map(DecodePair, SegmentPair(params, idx)) == [Entry(key, value)]
  {
    key := UrlDecode(Copy(params, idx, equal));
    value := UrlDecode(Copy(params, equal + 1, next));
    DecodedPairIs(params, idx, equal, next);
  }

  lemma DecodedPairIs(s: string, idx: nat, equal: nat, next: nat)
    requires idx <= equal < next <= |s| && equal == IndexFrom(s, '=', idx) && next == NextStart(s, idx) - 1
    ensures Map(DecodePair, SegmentPair(s, idx))
         == [Entry(CStr(Decode(s[idx..equal])), CStr(Decode(s[equal + 1..next])))]
  {
    var pair := Entry(s[idx..equal], s[equal + 1..next]);
    PairBetween(s, idx, equal, equal + 1, next);
    MapOne(DecodePair, pair);
  }

  // ----- what the parameters are, segment by segment -----

  /** A segment without '=' gives nothing; one with a '=' gives the texts around the first,
      decoded up to a NUL; and the rest of the form gives what it gives on its own. */
  lemma FormEntriesIs(segment: string, rest: string)
    requires '&' !in segment
    ensures FormEntries(segment + "&" + rest) == SegmentEntries(segment) + FormEntries(rest)
    ensures FormEntries(segment) == SegmentEntries(segment)
  {
    OneSegment(segment);
    var s, next := segment + "&" + rest, |segment| + 1;
    SegmentEnds(s, segment, rest);
    FirstSegment(s, segment);
    PairsFrom(s, next, SegmentPair(s, 0), rest);
  }

  lemma OneSegment(segment: string)
    requires '&' !in segment
    ensures FormEntries(segment) == SegmentEntries(segment)
  {
    IndexFromFirst(segment, '&', 0);
    FirstSegment(segment, segment);
    assert FormPairs(segment, 0) == SegmentPair(segment, 0) + FormPairs(segment, |segment| + 1);
    assert FormPairs(segment, |segment| + 1) == [];
    assert SegmentPair(segment, 0) + [] == SegmentPair(segment, 0);
  }

  lemma SegmentEnds(s: string, segment: string, rest: string)
    requires '&' !in segment && s == segment + "&" + rest
    ensures NextStart(s, 0) == |segment| + 1 && segment <= s && s[|segment| + 1..] == rest
  {
    assert s[|segment|] == '&';
    assert forall i :: 0 <= i < |segment| ==> s[i] == segment[i];
    IndexFromIs(s, '&', 0, |segment|);
  }

  lemma PairsFrom(s: string, next: nat, first: seq<Entry>, rest: string)
    requires next == NextStart(s, 0) <= |s| && first == SegmentPair(s, 0) && s[next..] == rest
    ensures FormEntries(s) == Map(DecodePair, first) + FormEntries(rest)
  {
    PairsBehind(s, next, rest, 0);
    assert FormPairs(s, 0) == first + FormPairs(s, next);
    MapConcat(DecodePair, first, FormPairs(rest, 0));
  }

  function SegmentEntries(segment: string): seq<Entry> {
    if '=' !in segment then []
    else [Entry(CStr(Decode(BeforeEqual(segment))), CStr(Decode(segment[|BeforeEqual(segment)| + 1..])))]
  }

  function BeforeEqual(segment: string): (k: string)
    ensures '=' !in k && k <= segment
    ensures '=' in segment ==> |k| < |segment| && segment[|k|] == '='
  {
    if segment == "" || segment[0] == '=' then "" else [segment[0]] + BeforeEqual(segment[1..])
  }

  lemma FirstSegment(s: string, segment: string)
    requires segment <= s && '&' !in segment && NextStart(s, 0) == |segment| + 1
    ensures Map(DecodePair, SegmentPair(s, 0)) == SegmentEntries(segment)
  {
    var k := BeforeEqual(segment);
    assert forall i :: 0 <= i < |segment| ==> s[i] == segment[i];
    IndexFromFirst(s, '=', 0);
    if '=' in segment {
      IndexFromIs(s, '=', 0, |k|);
      assert s[0..|k|] == k && s[|k| + 1..|segment|] == segment[|k| + 1..];
      MapOne(DecodePair, Entry(k, segment[|k| + 1..]));
    }
  }

  /** Behind a '&' the pairs are the ones of the text there. */
  lemma {:induction false} PairsBehind(s: string, k: nat, rest: string, i: nat)
    requires k + |rest| == |s| && s[k..] == rest && i <= |rest| + 1
    ensures FormPairs(s, k + i) == FormPairs(rest, i)
    decreases |rest| + 1 - i
  {
    if i <= |rest| {
      PairBehind(s, k, rest, i);
      PairsBehind(s, k, rest, NextStart(rest, i));
    }
  }

  lemma PairBehind(s: string, k: nat, rest: string, i: nat)
    requires k + |rest| == |s| && s[k..] == rest && i <= |rest|
    ensures NextStart(s, k + i) == k + NextStart(rest, i) && SegmentPair(s, k + i) == SegmentPair(rest, i)
  {
    IndexBehind(s, k, rest, '&', i);
    IndexBehind(s, k, rest, '=', i);
    var end, equal := NextStart(rest, i) - 1, IndexFrom(rest, '=', i);
    if equal != -1 && equal < end {
      PairMoves(s, k, rest, i, equal, end);
    } else {
      NoPair(s, k + i);
      NoPair(rest, i);
    }
  }

  lemma NoPair(s: string, idx: nat)
    requires idx <= |s| && (IndexFrom(s, '=', idx) == -1 || IndexFrom(s, '=', idx) >= NextStart(s, idx) - 1)
    ensures SegmentPair(s, idx) == []
  {
  }

  lemma PairMoves(s: string, k: nat, rest: string, i: nat, equal: nat, end: nat)
    requires k + |rest| == |s| && s[k..] == rest && i <= equal < end <= |rest|
    requires equal == IndexFrom(rest, '=', i) && end == NextStart(rest, i) - 1
    requires k + equal == IndexFrom(s, '=', k + i) && k + end == NextStart(s, k + i) - 1
    ensures SegmentPair(s, k + i) == SegmentPair(rest, i)
  {
    SliceBehind(s, k, rest, i, equal);
    SliceBehind(s, k, rest, equal + 1, end);
    PairBetween(s, k + i, k + equal, k + (equal + 1), k + end);
    PairBetween(rest, i, equal, equal + 1, end);
  }

  lemma PairBetween(s: string, idx: nat, equal: nat, value: nat, end: nat)
    requires idx <= equal < end <= |s| && equal == IndexFrom(s, '=', idx)
    requires end == NextStart(s, idx) - 1 && value == equal + 1
    ensures SegmentPair(s, idx) == [Entry(s[idx..equal], s[value..end])]
  {
  }

  lemma SliceBehind(s: string, k: nat, rest: string, from: nat, to: nat)
    requires k + |rest| == |s| && s[k..] == rest && from <= to <= |rest|
    ensures s[k + from..k + to] == rest[from..to]
  {
    assert forall j :: k <= j < |s| ==> s[j] == rest[j - k];
  }

  lemma IndexBehind(s: string, k: nat, rest: string, c: char, i: nat)
    requires k + |rest| == |s| && s[k..] == rest && i <= |rest|
    ensures IndexFrom(s, c, k + i) == if IndexFrom(rest, c, i) == -1 then -1 else k + IndexFrom(rest, c, i)
  {
    var r := if IndexFrom(rest, c, i) == -1 then |rest| else IndexFrom(rest, c, i);
    IndexFromFirst(rest, c, i);
    assert forall j :: k <= j < |s| ==> s[j] == rest[j - k];
    IndexFromIs(s, c, k + i, k + r);
  }

  /** A form is safe when it has one segment only, or a '=' in the last one. */
  lemma FormSafeIs(before: string, segment: string)
    requires '&' !in segment
    ensures FormSafe(segment)
    ensures FormSafe(before + "&" + segment) <==> '=' in segment
  {
    LastIndexIsLast(segment, '&');
    LastIndexIsLast(segment, '=');
    LastIndexBehind(before + "&", segment, '=');
    LastIndexBehind(before + "&", segment, '&');
    LastIndexIsLast(before + "&" + segment, '&');
    assert (before + "&" + segment)[|before|] == '&';
  }

  // ----- round trip -----

  /** `k1=v1&k2=v2&...` */
  function JoinForm(pairs: seq<Entry>): string {
    if pairs == [] then ""
    else
      var segment := pairs[0].key + "=" + pairs[0].value;
      if |pairs| == 1 then segment else segment + "&" + JoinForm(pairs[1..])
  }

  ghost predicate Encoded(pairs: seq<Entry>, sent: seq<Entry>) {
    && |sent| == |pairs|
    && forall i :: 0 <= i < |pairs| ==>
         && NUL !in pairs[i].key && NUL !in pairs[i].value
         && IsEncoding(sent[i].key, pairs[i].key) && IsEncoding(sent[i].value, pairs[i].value)
  }

  /** Whatever the encoder, the parser is safe on its output and gets the pairs back,
      in order, empty keys and values and repeated keys included. */
  lemma FormRoundTrip(pairs: seq<Entry>, sent: seq<Entry>)
    requires Encoded(pairs, sent)
    ensures FormSafe(JoinForm(sent))
    ensures FormEntries(JoinForm(sent)) == pairs
  {
    forall i | 0 <= i < |pairs|
      ensures DecodePair(sent[i]) == pairs[i] && Unambiguous(sent[i])
    {
      DecodeOfEncoding(sent[i].key, pairs[i].key);
      DecodeOfEncoding(sent[i].value, pairs[i].value);
    }
    JoinIsSent(JoinForm(sent), 0, sent);
    SentParses(JoinForm(sent), 0, sent);
    JoinIsSafe(sent);
  }

  predicate Unambiguous(sent: Entry) {
    '&' !in sent.key && '=' !in sent.key && '&' !in sent.value
  }

  /** The pairs in `sent` follow each other in `s` from `idx` on. */
  ghost predicate SentFrom(s: string, idx: nat, sent: seq<Entry>)
    decreases |sent|
  {
    if sent == [] then idx == |s|
    else
      var end := idx + |sent[0].key| + 1 + |sent[0].value|;
      SentAt(s, idx, sent[0], end) && if |sent| == 1 then end == |s| else SentFrom(s, end + 1, sent[1..])
  }

  lemma {:induction false} JoinIsSent(s: string, idx: nat, sent: seq<Entry>)
    requires idx <= |s| && s[idx..] == JoinForm(sent)
    requires forall i :: 0 <= i < |sent| ==> Unambiguous(sent[i])
    ensures SentFrom(s, idx, sent)
    decreases |sent|
  {
    if sent == [] {
      assert |s[idx..]| == 0;
    } else {
      var end := idx + |sent[0].key| + 1 + |sent[0].value|;
      JoinStarts(s, idx, sent, end);
      if |sent| > 1 { JoinIsSent(s, end + 1, sent[1..]); }
    }
  }

  /** Such a text is split again: no '&' and no early '=' misleads the parser. */
  lemma {:induction false} SentParses(s: string, idx: nat, sent: seq<Entry>)
    requires SentFrom(s, idx, sent)
    ensures idx <= |s| && FormPairs(s, idx) == sent
    decreases |sent|
  {
    if sent == [] {
      NoSegment(s);
    } else {
      var end := idx + |sent[0].key| + 1 + |sent[0].value|;
      if |sent| > 1 { SentParses(s, end + 1, sent[1..]); }
      SentContinues(s, idx, sent, end);
    }
  }

  lemma SentContinues(s: string, idx: nat, sent: seq<Entry>, end: nat)
    requires sent != [] && SentAt(s, idx, sent[0], end)
    requires if |sent| == 1 then end == |s| else end < |s| && FormPairs(s, end + 1) == sent[1..]
    ensures FormPairs(s, idx) == sent
  {
    SegmentParses(s, idx, sent[0], end);
    assert sent == [sent[0]] + sent[1..];
  }

  lemma NoSegment(s: string)
    ensures FormPairs(s, |s|) == []
  {
  }

  lemma JoinStarts(s: string, idx: nat, sent: seq<Entry>, end: nat)
    requires idx <= |s| && s[idx..] == JoinForm(sent) && sent != [] && Unambiguous(sent[0])
    requires end == idx + |sent[0].key| + 1 + |sent[0].value|
    ensures SentAt(s, idx, sent[0], end)
    ensures if |sent| == 1 then end == |s| else end < |s| && s[end + 1..] == JoinForm(sent[1..])
  {
    var segment := sent[0].key + "=" + sent[0].value;
    if |sent| == 1 {
      assert s[idx..end] == s[idx..];
    } else {
      SplitAfter(s, idx, segment, JoinForm(sent[1..]));
      assert end == idx + |segment|;
    }
  }

  lemma SplitAfter(s: string, idx: nat, segment: string, more: string)
    requires idx <= |s| && s[idx..] == segment + "&" + more
    ensures var end := idx + |segment|; end < |s| && s[idx..end] == segment && s[end] == '&' && s[end + 1..] == more
  {
    var end := idx + |segment|;
    assert s[end] == s[idx..][|segment|];
    assert s[idx..end] == s[idx..][..|segment|];
    assert s[end + 1..] == s[idx..][|segment| + 1..];
  }

  lemma SegmentParses(s: string, idx: nat, sent: Entry, end: nat)
    requires SentAt(s, idx, sent, end)
    ensures NextStart(s, idx) == end + 1 && SegmentPair(s, idx) == [sent]
  {
    SentChars(s, idx, sent, end);
    SentSlices(s, idx, sent, end);
    IndexFromIs(s, '=', idx, idx + |sent.key|);
    IndexFromIs(s, '&', idx, end);
  }

  ghost predicate SentAt(s: string, idx: nat, sent: Entry, end: nat) {
    && Unambiguous(sent)
    && end == idx + |sent.key| + 1 + |sent.value| <= |s|
    && s[idx..end] == sent.key + "=" + sent.value
    && (end < |s| ==> s[end] == '&')
  }

  lemma SentChars(s: string, idx: nat, sent: Entry, end: nat)
    requires SentAt(s, idx, sent, end)
    ensures forall i :: idx <= i < end ==> s[i] != '&'
    ensures forall i :: idx <= i < idx + |sent.key| ==> s[i] != '='
    ensures s[idx + |sent.key|] == '='
  {
    var segment := sent.key + "=" + sent.value;
    assert forall i :: idx <= i < end ==> s[i] == segment[i - idx];
    SegmentChars(segment, sent);
  }

  lemma SentSlices(s: string, idx: nat, sent: Entry, end: nat)
    requires SentAt(s, idx, sent, end)
    ensures s[idx..idx + |sent.key|] == sent.key
    ensures s[idx + |sent.key| + 1..end] == sent.value
  {
    var segment := s[idx..end];
    assert s[idx..idx + |sent.key|] == segment[..|sent.key|];
    assert s[idx + |sent.key| + 1..end] == segment[|sent.key| + 1..];
  }

  lemma SegmentChars(segment: string, sent: Entry)
    requires Unambiguous(sent) && segment == sent.key + "=" + sent.value
    ensures forall i :: 0 <= i < |segment| ==> segment[i] != '&'
    ensures forall i :: 0 <= i < |sent.key| ==> segment[i] != '='
    ensures segment[|sent.key|] == '='
  {
  }

  /** The last pair sent holds the last '=', and no '&' follows that. */
  lemma {:induction false} JoinIsSafe(sent: seq<Entry>)
    requires forall i :: 0 <= i < |sent| ==> Unambiguous(sent[i])
    ensures FormSafe(JoinForm(sent))
    ensures sent != [] ==> '=' in JoinForm(sent)
    decreases |sent|
  {
    if sent != [] {
      var segment := sent[0].key + "=" + sent[0].value;
      SegmentChars(segment, sent[0]);
      if |sent| == 1 {
        LastIndexIsLast(segment, '=');
      } else {
        JoinIsSafe(sent[1..]);
        SafeBehind(segment + "&", JoinForm(sent[1..]));
      }
    }
  }

  lemma SafeBehind(a: string, more: string)
    requires FormSafe(more) && '=' in more
    ensures FormSafe(a + more) && '=' in a + more
  {
    LastIndexBehind(a, more, '=');
    LastIndexBehind(a, more, '&');
    LastIndexIsLast(more, '=');
    assert (a + more)[|a| + LastIndexOf(more, '=')] == '=';
  }

  lemma LastIndexBehind(a: string, more: string, c: char)
    ensures LastIndexOf(more, c) != -1 ==> LastIndexOf(a + more, c) == |a| + LastIndexOf(more, c)
    ensures LastIndexOf(more, c) == -1 ==> LastIndexOf(a + more, c) < |a|
  {
    LastIndexIsLast(more, c);
    LastIndexIsLast(a + more, c);
    assert forall i :: 0 <= i < |more| ==> (a + more)[|a| + i] == more[i];
    if LastIndexOf(more, c) != -1 { assert (a + more)[|a| + LastIndexOf(more, c)] == c; }
  }
}

/** The buffered reader of stream.c. */
module ReadStreams {
  import opened CStrings

  const BUF_SIZE: nat := 1024

  /** The byte that get_char returns at end of input, and that get_line takes for it. */
  const SENTINEL: char := 0xFF as char

  const CRLF := "\r\n"

  // ----- the reader as a function of the bytes still to come -----

  function Flatten(chunks: seq<string>): string {
    if chunks == [] then "" else chunks[0] + Flatten(chunks[1..])
  }

  /** The chunks in order, without anything between them. */
  lemma {:induction false} FlattenIs(a: seq<string>, b: seq<string>, chunk: string)
    ensures Flatten(a + b) == Flatten(a) + Flatten(b) && Flatten([chunk]) == chunk
    decreases |a|
  {
    assert [chunk][1..] == [] && chunk + "" == chunk;
    if a == [] {
      assert a + b == b;
    } else {
      FlattenIs(a[1..], b, chunk);
      assert (a + b)[1..] == a[1..] + b;
      Regroup(a[0], Flatten(a[1..]), Flatten(b));
    }
  }

  datatype Line =
    | Underrun            // the buffer is read before its start
    | Blank               // NULL
    | Text(text: string)

  /** Where end of input is seen: at the first sentinel byte, or after all bytes. */
  function InputEnd(r: string): (q: nat)
    ensures q <= |r| && forall i :: 0 <= i < q ==> r[i] != SENTINEL
    ensures q < |r| ==> r[q] == SENTINEL
  {
    IndexFromFirst(r, SENTINEL, 0);
    var k := IndexOf(r, SENTINEL);
    if k == -1 then |r| else k
  }

  /** The first line of `r` and what is left after it. A line ends at the first
      delimiter; failing that it is everything up to end of input, whose byte is
      consumed when it is a real one. */
  function LineOf(r: string, delimiter: string): (res: (Line, string))
    requires |delimiter| == 2
    ensures |res.1| <= |r|
    ensures res.0.Text? ==> |res.1| < |r| && NUL !in res.0.text
  {
    var q := InputEnd(r);
    var e := Find(r, delimiter);
    if e != -1 && e + 2 <= q then (if e == 0 then Blank else Text(CStr(r[..e])), r[e + 2..])
    else (if q < 2 then Underrun else Text(CStr(r[..q])), if q < |r| then r[q + 1..] else "")
  }

  /** The next `n` bytes, with sentinels where the input has run out. */
  function Block(r: string, n: nat): (b: string)
    ensures |b| == n
  {
    if n <= |r| then r[..n] else r + seq(n - |r|, _ => SENTINEL)
  }

  function Drop(r: string, n: nat): string {
    if n <= |r| then r[n..] else ""
  }

  // ----- properties of lines -----

  /** A line that can be sent: neither delimiter nor end of input occurs in it. */
  ghost predicate Sendable(line: string) {
    NoCRLF(line) && SENTINEL !in line && NUL !in line
  }

  ghost predicate NoCRLF(line: string) {
    forall j :: 0 <= j < |line| - 1 && line[j] == '\r' ==> line[j + 1] != '\n'
  }

  /** The CRLF behind a line is the first one, even if the line ends in a bare CR. */
  lemma CrlfBehind(line: string, rest: string)
    requires NoCRLF(line)
    ensures Find(line + (CRLF + rest), CRLF) == |line|
  {
    var s := line + (CRLF + rest);
    assert forall i :: 0 <= i < |line| ==> s[i] == line[i];
    assert s[|line|] == '\r' && s[|line| + 1] == '\n';
    forall j | 0 <= j <= |line| ensures MatchAt(s, CRLF, j) <==> j == |line| {
      MatchAtTwo(s, CRLF, j);
    }
    FindFromIs(s, CRLF, 0, |line|);
  }

  lemma InputEndBehind(line: string, rest: string)
    requires SENTINEL !in line
    ensures InputEnd(line + (CRLF + rest)) >= |line| + 2
  {
    var s := line + (CRLF + rest);
    assert forall i :: 0 <= i < |line| ==> s[i] == line[i];
    assert s[|line|] == '\r' && s[|line| + 1] == '\n';
  }

  /** A line read back is the line sent, and the stream stops right after its CRLF. */
  lemma LineRoundTrip(line: string, rest: string)
    requires Sendable(line)
    ensures LineOf(line + (CRLF + rest), CRLF) == (if line == "" then Blank else Text(line), rest)
  {
    CrlfBehind(line, rest);
    InputEndBehind(line, rest);
    var r := line + (CRLF + rest);
    assert r[..|line|] == line && r[|line| + 2..] == rest;
  }

  /** No other line comes back so. */
  lemma LineRoundTripIff(line: string, rest: string)
    ensures LineOf(line + (CRLF + rest), CRLF) == (if line == "" then Blank else Text(line), rest) <==> Sendable(line)
  {
    var r := line + (CRLF + rest);
    if Sendable(line) {
      LineRoundTrip(line, rest);
    } else if SENTINEL in line {
      var i :| 0 <= i < |line| && line[i] == SENTINEL;
      assert r[i] == SENTINEL;
    } else if !NoCRLF(line) {
      var i :| 0 <= i < |line| - 1 && line[i] == '\r' && line[i + 1] == '\n';
      assert r[i] == '\r' && r[i + 1] == '\n';
      MatchAtTwo(r, CRLF, i);
      FindFromFirst(r, CRLF, 0);
    }
  }

  /** A line that end of input cuts off: all of it, if it has two bytes at least. A byte 255
      counts as the end and is consumed. */
  lemma LineAtEnd(line: string, rest: string)
    requires Sendable(line) && (rest == "" || rest[0] as int == 255)
    ensures LineOf(line + rest, CRLF)
         == (if |line| < 2 then Underrun else Text(line), if rest == "" then "" else rest[1..])
  {
    var r := line + rest;
    assert forall i :: 0 <= i < |line| ==> r[i] == line[i];
    assert rest != "" ==> r[|line|] == SENTINEL;
    assert InputEnd(r) == |line|;
    FindFromFirst(r, CRLF, 0);
    forall j | 0 <= j < |line| - 1 ensures !MatchAt(r, CRLF, j) { MatchAtTwo(r, CRLF, j); }
    assert r[..|line|] == line;
    if rest != "" { assert r[|line| + 1..] == rest[1..]; }
  }

  /** A NUL hides the rest of its line, and the line is not NULL even if nothing is left. */
  lemma LineWithNul(line: string, text: string, hidden: string, rest: string)
    requires line == text + [NUL] + hidden && NUL !in text && NoCRLF(line) && SENTINEL !in line
    ensures LineOf(line + (CRLF + rest), CRLF) == (Text(text), rest)
  {
    CStrTerminated(text, hidden);
    AnyLine(line, rest);
  }

  lemma AnyLine(line: string, rest: string)
    requires line != "" && NoCRLF(line) && SENTINEL !in line
    ensures LineOf(line + (CRLF + rest), CRLF) == (Text(CStr(line)), rest)
  {
    CrlfBehind(line, rest);
    InputEndBehind(line, rest);
    var r := line + (CRLF + rest);
    assert r[..|line|] == line && r[|line| + 2..] == rest;
  }

  /** The read before the buffer happens exactly when end of input is seen
      within the first two bytes; so on an empty input. */
  lemma UnderrunIff(r: string, delimiter: string)
    requires |delimiter| == 2
    ensures LineOf(r, delimiter).0.Underrun? <==> |r| < 2 || r[0] == SENTINEL || r[1] == SENTINEL
    ensures LineOf("", delimiter) == (Underrun, "")
  {
    var q := InputEnd(r);
    assert q < 2 <==> |r| < 2 || r[0] == SENTINEL || r[1] == SENTINEL;
  }

  // ----- what get_line's loop keeps, and what it has established when it stops -----

  /** The loop goes on for `n` bytes: no end of input, and no delimiter but at the end. */
  ghost predicate Reading(r: string, delimiter: string, n: nat)
    requires n <= |r|
  {
    && (forall i :: 0 <= i < n ==> r[i] != SENTINEL)
    && (forall k :: 0 <= k < n - 2 ==> !MatchAt(r, delimiter, k))
  }

  /** Looking back in the buffer is looking back in the input. */
  lemma LastTwo(line: array<char>, n: nat, r: string, delimiter: string)
    requires n <= line.Length && n <= |r| && line[..n] == r[..n] && |delimiter| == 2
    ensures MatchAt(r, delimiter, n - 2) <==> n >= 2 && line[n - 2..n] == delimiter
  {
    if n >= 2 { assert line[n - 2..n] == line[..n][n - 2..] == r[..n][n - 2..] == r[n - 2..n]; }
  }

  lemma EndsHere(r: string, delimiter: string, n: nat)
    requires |delimiter| == 2 && n <= |r| && Reading(r, delimiter, n) && !MatchAt(r, delimiter, n - 2)
    requires n < |r| ==> r[n] == SENTINEL
    ensures Stopped(r, delimiter, n, Drop(r, n + 1))
  {
  }

  lemma ReadingSteps(r: string, delimiter: string, n: nat)
    requires n < |r| && Reading(r, delimiter, n) && r[n] != SENTINEL && !MatchAt(r, delimiter, n - 2)
    ensures Reading(r, delimiter, n + 1)
  {
  }

  /** The loop stops after `n` bytes of `r`: on the first delimiter, or on end of input
      with no delimiter before it. */
  ghost predicate Stopped(r: string, delimiter: string, n: nat, rest: string)
    requires |delimiter| == 2 && n <= |r|
  {
    && Reading(r, delimiter, n)
    && if MatchAt(r, delimiter, n - 2) then rest == r[n..]
       else (n < |r| ==> r[n] == SENTINEL) && rest == Drop(r, n + 1)
  }

  lemma LineWhenStopped(r: string, delimiter: string, n: nat, rest: string)
    requires |delimiter| == 2 && n <= |r| && Stopped(r, delimiter, n, rest)
    ensures MatchAt(r, delimiter, n - 2) ==>
              LineOf(r, delimiter) == (if n == 2 then Blank else Text(CStr(r[..n - 2])), rest)
    ensures !MatchAt(r, delimiter, n - 2) ==>
              LineOf(r, delimiter) == (if n < 2 then Underrun else Text(CStr(r[..n])), rest)
  {
    assert InputEnd(r) >= n;
    if MatchAt(r, delimiter, n - 2) {
      FindFromIs(r, delimiter, 0, n - 2);
    } else {
      FindFromFirst(r, delimiter, 0);
      assert InputEnd(r) == n;
      assert forall k :: 0 <= k <= n - 2 ==> !MatchAt(r, delimiter, k);
    }
  }

  // ----- the stream struct -----

  class ReadStream {
    /** What successive read() calls will deliver; once used up they return 0 for ever. */
    var fds: seq<string>
    var buf: array<char>
    var cnt: nat
    var len: nat

    ghost predicate Valid()
      reads this
    {
      && buf.Length == BUF_SIZE
      && cnt <= len <= BUF_SIZE
      && forall i :: 0 <= i < |fds| ==> 0 < |fds[i]| <= BUF_SIZE
    }

    /** The bytes not yet handed out, however they are cut. */
    ghost function Remaining(): string
      requires Valid()
      reads this, buf
    {
      buf[cnt..len] + Flatten(fds)
    }

    constructor (chunks: seq<string>)
      requires forall i :: 0 <= i < |chunks| ==> 0 < |chunks[i]| <= BUF_SIZE
      ensures Valid() && fresh(buf)
      ensures Remaining() == Flatten(chunks)
    {
      fds := chunks;
      cnt, len := 0, 0;
      buf := new char[BUF_SIZE];
    }

    /** read(): the next chunk, copied to the start of the buffer, or 0. */
    method Read() returns (n: nat)
      requires Valid()
      modifies this`fds, buf
      ensures buf.Length == BUF_SIZE && n <= BUF_SIZE
      ensures n == 0 <==> old(fds) == []
      ensures n == 0 ==> fds == old(fds)
      ensures n > 0 ==> fds == old(fds)[1..] && buf[..n] == old(fds)[0]
    {
      if fds == [] { return 0; }
      var chunk := fds[0];
      n := |chunk|;
      forall i | 0 <= i < n { buf[i] := chunk[i]; }
      fds := fds[1..];
    }

    method ReadFds() returns (failed: bool)
      requires Valid() && cnt == len
      modifies this`fds, this`cnt, this`len, buf
      ensures Valid()
      ensures Remaining() == old(Remaining())
      ensures failed <==> Remaining() == ""
      ensures !failed ==> cnt < len
    {
      len := Read();
      cnt := 0;
      if len == 0 { return true; }
      return false;
    }

    method GetChar() returns (c: char)
      requires Valid()
      modifies this`fds, this`cnt, this`len, buf
      ensures Valid()
      ensures old(Remaining()) == "" ==> c == SENTINEL && Remaining() == ""
      ensures old(Remaining()) != "" ==> c == old(Remaining())[0] && Remaining() == old(Remaining())[1..]
    {
      if cnt == len {
        var failed := ReadFds();
        if failed { return SENTINEL; }
      }
      c := buf[cnt];
      assert buf[cnt..len] == [c] + buf[cnt + 1..len];
      assert Remaining() == [c] + (buf[cnt + 1..len] + Flatten(fds));
      cnt := cnt + 1;
    }

    /** One turn of get_line's loop: makes room for the terminator, then stores a byte. */
    method ReadInto(line: array<char>, n: nat, ghost r: string) returns (grown: array<char>, c: char)
      requires Valid() && line != buf
      requires n + 1 <= line.Length && 10 <= line.Length
      requires n <= |r| && line[..n] == r[..n] && Remaining() == r[n..]
      modifies this`fds, this`cnt, this`len, buf, line
      ensures Valid() && grown != buf && (grown == line || fresh(grown))
      ensures n + 1 < grown.Length && 10 <= grown.Length
      ensures c == if n < |r| then r[n] else SENTINEL
      ensures Remaining() == Drop(r, n + 1)
      ensures if n < |r| then grown[..n + 1] == r[..n + 1] else grown[..n] == r[..n]
    {
      grown := line;
      if n + 1 == grown.Length {
        grown := Realloc(grown, n, grown.Length * 3 / 2);
      }
      c := GetChar();
      grown[n] := c;
      assert grown[..n + 1] == grown[..n] + [c];
    }

    /** A turn, and what it keeps or where it stops. */
    method ReadOne(line: array<char>, n: nat, ghost r: string, ghost delimiter: string)
      returns (grown: array<char>, ended: bool)
      requires Valid() && line != buf
      requires n + 1 <= line.Length && 10 <= line.Length
      requires n <= |r| && line[..n] == r[..n] && Remaining() == r[n..]
      requires |delimiter| == 2 && Reading(r, delimiter, n) && !MatchAt(r, delimiter, n - 2)
      modifies this`fds, this`cnt, this`len, buf, line
      ensures Valid() && grown != buf && (grown == line || fresh(grown))
      ensures n + 1 < grown.Length && 10 <= grown.Length
      ensures ended ==> grown[..n] == r[..n] && Stopped(r, delimiter, n, Remaining())
      ensures !ended ==>
                && n < |r| && grown[..n + 1] == r[..n + 1]
                && Remaining() == r[n + 1..] && Reading(r, delimiter, n + 1)
    {
      var c;
      grown, c := ReadInto(line, n, r);
      ended := c == SENTINEL;
      if ended {
        EndsHere(r, delimiter, n);
        assert grown[..n] == r[..n] by {
          if n < |r| { assert grown[..n] == grown[..n + 1][..n] == r[..n + 1][..n]; }
        }
      } else {
        ReadingSteps(r, delimiter, n);
      }
    }

    /** The reading loop of get_line. */
    method FillLine(delimiter: CString) returns (line: array<char>, n: nat)
      requires Valid() && |delimiter| == 2
      modifies this`fds, this`cnt, this`len, buf
      ensures Valid() && fresh(line)
      ensures n + 1 <= line.Length && n <= |old(Remaining())| && line[..n] == old(Remaining())[..n]
      ensures Stopped(old(Remaining()), delimiter, n, Remaining())
    {
      ghost var r := Remaining();
      line := new char[10];
      n := 0;
      while n < 2 || line[n - 2..n] != delimiter
        invariant Valid() && fresh(line) && line != buf
        invariant n + 1 <= line.Length && 10 <= line.Length
        invariant n <= |r| && line[..n] == r[..n] && Remaining() == r[n..]
        invariant Reading(r, delimiter, n)
        decreases |r| - n
      {
        LastTwo(line, n, r, delimiter);
        var ended;
        line, ended := ReadOne(line, n, r, delimiter);
        if ended { break; }
        n := n + 1;
      }
      LastTwo(line, n, r, delimiter);
    }

    method GetLine(delimiter: CString) returns (res: Line)
      requires Valid() && |delimiter| == 2
      modifies this`fds, this`cnt, this`len, buf
      ensures Valid()
      ensures (res, Remaining()) == LineOf(old(Remaining()), delimiter)
    {
      ghost var r := Remaining();
      var line, n := FillLine(delimiter);
      res := FinishLine(line, n, delimiter, r, Remaining());
    }

    method ReadSz(sz: nat) returns (block: array<char>)
      requires Valid()
      modifies this`fds, this`cnt, this`len, buf
      ensures Valid() && fresh(block) && block.Length == sz + 1
      ensures block[..] == Block(old(Remaining()), sz) + [NUL]
      ensures Remaining() == Drop(old(Remaining()), sz)
    {
      ghost var r := Remaining();
      block := new char[sz + 1];
      var i := 0;
      while i < sz
        invariant 0 <= i <= sz && Valid() && block != buf
        invariant block[..i] == Block(r, i)
        invariant Remaining() == Drop(r, i)
      {
        block[i] := GetChar();
        i := i + 1;
      }
      block[sz] := NUL;
    }
  }

  method Terminate(line: array<char>, n: nat, ghost text: string)
    requires n < line.Length && line[..n] == text
    modifies line
    ensures CStr(line[..]) == CStr(text)
  {
    line[n] := NUL;
    assert line[..] == text + [NUL] + line[n + 1..];
    CStrTerminated(text, line[n + 1..]);
  }

  /** strcmp(line, delimiter) never succeeds on a line with text in it. */
  lemma LineIsNotDelimiter(r: string, delimiter: string, len: nat, rest: string, n: nat)
    requires |delimiter| == 2 && 2 <= len <= |r| && Stopped(r, delimiter, len, rest)
    requires n == if MatchAt(r, delimiter, len - 2) then len - 2 else len
    requires n > 0
    ensures CStr(r[..n]) != delimiter
  {
    assert !MatchAt(r, delimiter, 0);
    assert CStr(r[..n]) <= r[..n];
  }

  /** The end of get_line: cuts the delimiter off, terminates the line, and frees it
      when nothing is left. Looking for the delimiter reads two bytes back. */
  method FinishLine(line: array<char>, len: nat, delimiter: CString, ghost r: string, ghost rest: string)
    returns (res: Line)
    requires |delimiter| == 2 && len < line.Length && len <= |r| && line[..len] == r[..len]
    requires Stopped(r, delimiter, len, rest)
    modifies line
    ensures (res, rest) == LineOf(r, delimiter)
  {
    LineWhenStopped(r, delimiter, len, rest);
    if len < 2 {
      return Underrun;
    }
    assert line[len - 2..len] == r[len - 2..len] by {
      assert line[len - 2..len] == line[..len][len - 2..] == r[..len][len - 2..];
    }
    var n := if line[len - 2..len] == delimiter then len - 2 else len;
    assert line[..n] == line[..len][..n] == r[..n];
    Terminate(line, n, r[..n]);
    if n > 0 { LineIsNotDelimiter(r, delimiter, len, rest, n); }
    if n == 0 || CStr(line[..]) == delimiter {
      return Blank;
    }
    return Text(CStr(line[..]));
  }

  method Realloc(a: array<char>, n: nat, sz: nat) returns (b: array<char>)
    requires n <= a.Length && n <= sz
    ensures fresh(b) && b.Length == sz
    ensures forall i :: 0 <= i < n ==> b[i] == a[i]
  {
    b := new char[sz];
    forall i | 0 <= i < n { b[i] := a[i]; }
  }

  // ----- any run of the reader -----

  datatype Call = Char | LineCall(delimiter: string) | Sz(n: nat)

  datatype Answer = CharIs(c: char) | LineIs(line: Line) | BlockIs(text: string)

  ghost predicate CallsOk(calls: seq<Call>) {
    forall i :: 0 <= i < |calls| && calls[i].LineCall? ==> |calls[i].delimiter| == 2 && NUL !in calls[i].delimiter
  }

  function Serve1(r: string, call: Call): (Answer, string)
    requires call.LineCall? ==> |call.delimiter| == 2
  {
    match call
    case Char => (CharIs(if r == "" then SENTINEL else r[0]), Drop(r, 1))
    case LineCall(d) => (LineIs(LineOf(r, d).0), LineOf(r, d).1)
    case Sz(n) => (BlockIs(Block(r, n)), Drop(r, n))
  }

  /** The answers to a run of calls; a run ends where the code leaves its buffer. */
  function Serve(r: string, calls: seq<Call>): (seq<Answer>, string)
    requires forall i :: 0 <= i < |calls| && calls[i].LineCall? ==> |calls[i].delimiter| == 2
    decreases |calls|
  {
    if calls == [] then ([], r)
    else
      var (answer, rest) := Serve1(r, calls[0]);
      if answer == LineIs(Underrun) then ([answer], rest)
      else
        var (more, last) := Serve(rest, calls[1..]);
        ([answer] + more, last)
  }

  method Run(s: ReadStream, calls: seq<Call>) returns (answers: seq<Answer>)
    requires s.Valid() && CallsOk(calls)
    modifies s`fds, s`cnt, s`len, s.buf
    ensures s.Valid()
    ensures (answers, s.Remaining()) == Serve(old(s.Remaining()), calls)
    decreases |calls|
  {
    if calls == [] { return []; }
    var answer := Run1(s, calls[0]);
    if answer == LineIs(Underrun) { return [answer]; }
    var more := Run(s, calls[1..]);
    return [answer] + more;
  }

  method Run1(s: ReadStream, call: Call) returns (answer: Answer)
    requires s.Valid()
    requires call.LineCall? ==> |call.delimiter| == 2 && NUL !in call.delimiter
    modifies s`fds, s`cnt, s`len, s.buf
    ensures s.Valid()
    ensures (answer, s.Remaining()) == Serve1(old(s.Remaining()), call)
  {
    match call
    case Char =>
      var c := s.GetChar();
      answer := CharIs(c);
    case LineCall(d) =>
      var line := s.GetLine(d);
      answer := LineIs(line);
    case Sz(n) =>
      var block := s.ReadSz(n);
      assert block[..n] == block[..][..n];
      answer := BlockIs(block[..n]);
  }

  /** However read() cuts the same bytes into chunks, every run of calls gets the
      same answers. */
  method SameForEveryCut(cut1: seq<string>, cut2: seq<string>, calls: seq<Call>)
    returns (answers1: seq<Answer>, answers2: seq<Answer>)
    requires forall i :: 0 <= i < |cut1| ==> 0 < |cut1[i]| <= BUF_SIZE
    requires forall i :: 0 <= i < |cut2| ==> 0 < |cut2[i]| <= BUF_SIZE
    requires Flatten(cut1) == Flatten(cut2)
    requires CallsOk(calls)
    ensures answers1 == answers2 == Serve(Flatten(cut1), calls).0
  {
    var s1 := new ReadStream(cut1);
    var s2 := new ReadStream(cut2);
    answers1 := Run(s1, calls);
    answers2 := Run(s2, calls);
  }
}

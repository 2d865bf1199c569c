/** The growing output stream of stream.c, and the JSON lists that ttac.c writes to it. */
module WriteStreams {
  import opened CStrings

  class WriteStream {
    var buf: array<char>
    var cnt: nat
    var len: nat
    /** Everything written so far. */
    ghost var Written: string
    /** The sizes of all buffers that growth has copied, added up. */
    ghost var Copied: nat

    ghost predicate Valid()
      reads this, buf
    {
      && buf.Length == len && cnt < len
      && cnt == |Written| && buf[..cnt] == Written
      && (Written != "" ==> buf[cnt] == NUL)
      && CapacityBound(len, cnt)
      && CopyBound(Copied, len)
    }

    constructor ()
      ensures Valid() && fresh(buf) && Written == "" && Copied == 0 && len == 10
    {
      cnt, len := 0, 10;
      buf := new char[10];
      Written, Copied := "", 0;
    }

    /** Grows by half until the text and its terminator fit. */
    method Reserve(n: nat)
      requires Valid()
      modifies this`buf, this`len, this`Copied
      ensures buf.Length == len && cnt + n < len && old(len) <= len
      ensures len == Grown(old(len), cnt + n + 1)
      ensures buf == old(buf) || fresh(buf)
      ensures buf[..cnt] == old(buf[..cnt])
      ensures CapacityBound(len, cnt + n) && CopyBound(Copied, len)
    {
      while cnt + n + 1 > len
        invariant buf.Length == len && cnt < len && 10 <= old(len) <= len
        invariant Grown(len, cnt + n + 1) == Grown(old(len), cnt + n + 1)
        invariant buf == old(buf) || fresh(buf)
        invariant buf[..cnt] == old(buf[..cnt])
        invariant CapacityBound(len, cnt + n) && CopyBound(Copied, len)
        decreases cnt + n + 1 - len
      {
        GrowthKeepsBounds(Copied, len, cnt + n);
        Copied := Copied + len;
        len := len * 3 / 2;
        var smaller := buf;
        buf := new char[len];
        forall i | 0 <= i < smaller.Length { buf[i] := smaller[i]; }
        assert buf[..cnt] == smaller[..cnt];
      }
    }

    method Write(str: CString)
      requires Valid()
      modifies this, buf
      ensures Valid() && (buf == old(buf) || fresh(buf))
      ensures Written == old(Written) + str
      ensures buf[..cnt + 1] == Written + [NUL]
    {
      var n := |str|;
      Reserve(n);
      CopyInto(buf, cnt, str);
      cnt := cnt + n;
      Written := Written + str;
      buf[cnt] := NUL;
      assert buf[..cnt + 1] == buf[..cnt] + [NUL];
    }
  }

  /** The first size that is enough, growing by half each time. */
  function Grown(len: nat, needed: nat): nat
    decreases needed - len
  {
    if needed <= len || len < 2 then len else Grown(len + len / 2, needed)
  }

  /** From ten, step by step. */
  lemma GrownExample()
    ensures Grown(10, 10) == 10 && Grown(10, 11) == 15 && Grown(10, 16) == 22 && Grown(10, 23) == 33
  {
    assert Grown(22, 23) == 33 && Grown(15, 23) == Grown(22, 23);
  }

  /** strncpy(buf+at, str, strlen(str)) */
  method CopyInto(buf: array<char>, at: nat, str: CString)
    requires at + |str| <= buf.Length
    modifies buf
    ensures buf[..at + |str|] == old(buf[..at]) + str
  {
    forall i | 0 <= i < |str| { buf[at + i] := str[i]; }
  }

  /** The capacity is the initial one, or at most half as much again as what is written. */
  predicate CapacityBound(len: nat, written: nat) {
    10 <= len && (len == 10 || 2 * len <= 3 * written)
  }

  /** All copying together is at most two and a half times what has been gained. */
  predicate CopyBound(copied: nat, len: nat) {
    2 * copied <= 5 * (len - 10)
  }

  lemma GrowthKeepsBounds(copied: nat, len: nat, needed: nat)
    requires 10 <= len <= needed && CopyBound(copied, len)
    ensures len < len * 3 / 2
    ensures CapacityBound(len * 3 / 2, needed) && CopyBound(copied + len, len * 3 / 2)
  {
  }

  /** So the cost of growth is linear in what has been written. */
  lemma CopyingIsLinear(copied: nat, len: nat, written: nat)
    requires CapacityBound(len, written) && CopyBound(copied, len)
    ensures 4 * copied <= 15 * written
  {
  }

  // ----- JSON lists -----

  /** The rows with single commas between them. */
  function Joined(rows: seq<string>): string {
    if rows == [] then ""
    else if |rows| == 1 then rows[0]
    else rows[0] + "," + Joined(rows[1..])
  }

  lemma {:induction false} JoinedAppend(rows: seq<string>, row: string)
    ensures Joined(rows + [row]) == if rows == [] then row else Joined(rows) + "," + row
    decreases |rows|
  {
    if rows == [] {
      assert rows + [row] == [row];
    } else {
      JoinedAppend(rows[1..], row);
      assert (rows + [row])[1..] == rows[1..] + [row];
    }
  }

  /** The loop that the list handlers share; `rows` are the row objects fetched. */
  method WriteRows(rows: seq<CString>) returns (s: WriteStream)
    ensures fresh(s) && fresh(s.buf) && s.Valid()
    ensures s.Written == "[" + Joined(rows) + "]"
    ensures CStr(s.buf[..]) == CStr("[" + Joined(rows) + "]")
  {
    s := new WriteStream();
    s.Write("[");
    var flag := 0;
    var i := 0;
    assert rows[..0] == [];
    while i < |rows|
      invariant 0 <= i <= |rows| && s.Valid() && fresh(s) && fresh(s.buf)
      invariant flag == 0 <==> i == 0
      invariant s.Written == "[" + Joined(rows[..i])
    {
      RowsSoFar(rows, i);
      WriteRow(s, rows[i], flag);
      flag := 1;
      i := i + 1;
    }
    assert rows[..i] == rows;
    s.Write("]");
    BufferText(s);
  }

  lemma RowsSoFar(rows: seq<string>, i: nat)
    requires i < |rows|
    ensures "[" + Joined(rows[..i + 1])
         == if i == 0 then "[" + Joined(rows[..i]) + rows[i] else "[" + Joined(rows[..i]) + "," + rows[i]
  {
    assert rows[..i + 1] == rows[..i] + [rows[i]];
    JoinedAppend(rows[..i], rows[i]);
    if i == 0 {
      assert rows[..i] == [];
    } else {
      Regroup("[", Joined(rows[..i]) + ",", rows[i]);
      Regroup("[", Joined(rows[..i]), ",");
    }
  }

  method WriteRow(s: WriteStream, row: CString, flag: int)
    requires s.Valid()
    modifies s, s.buf
    ensures s.Valid() && (s.buf == old(s.buf) || fresh(s.buf))
    ensures s.Written == if flag != 0 then old(s.Written) + "," + row else old(s.Written) + row
  {
    if flag != 0 { s.Write(","); }
    s.Write(row);
  }

  /** The handlers pass `s.buf` on as a C string. */
  lemma BufferText(s: WriteStream)
    requires s.Valid() && s.Written != ""
    ensures CStr(s.buf[..]) == CStr(s.Written)
  {
    assert s.buf[..] == s.Written + [NUL] + s.buf[s.cnt + 1..];
    CStrTerminated(s.Written, s.buf[s.cnt + 1..]);
  }
}

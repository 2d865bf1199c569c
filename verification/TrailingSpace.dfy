/** The two versions of skip_trailing_space in m_string.h. */
module TrailingSpace {
  import opened ByteOrder

  const SPACE: Byte := 0x20

  /** The length without trailing spaces, byte by byte. */
  function TrimmedLength(s: seq<Byte>): (n: nat)
    ensures n <= |s|
    decreases |s|
  {
    if s == [] || s[|s| - 1] != SPACE then |s| else TrimmedLength(s[..|s| - 1])
  }

  /** It is the only length with nothing but spaces behind it and none just before it. */
  lemma {:induction false} TrimmedLengthIs(s: seq<Byte>, n: nat)
    requires n <= |s|
    ensures n == TrimmedLength(s) <==>
              (forall i :: n <= i < |s| ==> s[i] == SPACE) && (n > 0 ==> s[n - 1] != SPACE)
    decreases |s|
  {
    if s != [] && s[|s| - 1] == SPACE {
      var t := s[..|s| - 1];
      if n < |s| {
        TrimmedLengthIs(t, n);
        assert forall i :: n <= i < |t| ==> t[i] == s[i];
      } else {
        assert TrimmedLength(s) == TrimmedLength(t) < |s|;
      }
    } else if s != [] && n < |s| {
      assert s[|s| - 1] != SPACE;
    }
  }

  lemma SpacesInWord4(a: seq<Byte>)
    requires |a| == 4 && Uint4korr(a) == 0x2020_2020
    ensures forall i :: 0 <= i < 4 ==> a[i] == SPACE
  {
    StoreLoad4(a);
  }

  lemma SpacesInWord8(a: seq<Byte>)
    requires |a| == 8 && Uint8korr(a) == 0x2020_2020_2020_2020
    ensures forall i :: 0 <= i < 8 ==> a[i] == SPACE
  {
    var x, y := Uint4korr(a[..4]), Uint4korr(a[4..]);
    assert x == 0x2020_2020 && y == 0x2020_2020;
    SpacesInWord4(a[..4]);
    SpacesInWord4(a[4..]);
    assert forall i :: 4 <= i < 8 ==> a[i] == a[4..][i - 4];
  }

  /** Eight bytes at a time, whatever the alignment. */
  method SkipBy8(s: seq<Byte>) returns (end: nat)
    ensures end == TrimmedLength(s)
  {
    end := |s|;
    while end >= 8
      invariant end <= |s| && forall i :: end <= i < |s| ==> s[i] == SPACE
    {
      if Uint8korr(s[end - 8..end]) != 0x2020_2020_2020_2020 { break; }
      SpacesInWord8(s[end - 8..end]);
      assert forall i :: end - 8 <= i < end ==> s[i] == s[end - 8..end][i - (end - 8)];
      end := end - 8;
    }
    end := SkipBytes(s, end, 0);
    TrimmedLengthIs(s, end);
  }

  /** One byte at a time, down to `stop`. */
  method SkipBytes(s: seq<Byte>, start: nat, stop: nat) returns (end: nat)
    requires stop <= start <= |s| && forall i :: start <= i < |s| ==> s[i] == SPACE
    ensures stop <= end <= start && forall i :: end <= i < |s| ==> s[i] == SPACE
    ensures end > stop ==> s[end - 1] != SPACE
  {
    end := start;
    while end > stop && s[end - 1] == SPACE
      invariant stop <= end <= start && forall i :: end <= i < |s| ==> s[i] == SPACE
    {
      end := end - 1;
    }
  }

  // SIZEOF_INT is 4 or 8.

  predicate Aligned(a: nat, word: nat) {
    if word == 4 then a % 4 == 0 else a % 8 == 0
  }

  /** a / SIZEOF_INT * SIZEOF_INT */
  function RoundDown(a: nat, word: nat): (r: nat)
    requires word == 4 || word == 8
  {
    if word == 4 then a / 4 * 4 else a / 8 * 8
  }

  lemma RoundDownIs(a: nat, word: nat)
    requires word == 4 || word == 8
    ensures RoundDown(a, word) <= a < RoundDown(a, word) + word
    ensures Aligned(RoundDown(a, word), word)
  {
  }

  /** Between two different multiples there is room for a word. */
  lemma WordFits(low: nat, high: nat, word: nat)
    requires (word == 4 || word == 8) && Aligned(low, word) && Aligned(high, word) && low < high
    ensures low + word <= high && Aligned(high - word, word)
  {
    if word == 4 { assert high - low >= 4; } else { assert high - low >= 8; }
  }

  /** The int of `word` bytes at the address `a` of a text that starts at `ptr`. The
      address has to be aligned, and the bytes inside the text. */
  predicate WordOfSpaces(s: seq<Byte>, ptr: nat, a: nat, word: nat)
    requires (word == 4 || word == 8) && Aligned(a, word) && ptr <= a && a + word <= ptr + |s|
  {
    var bytes := s[a - ptr..a - ptr + word];
    if word == 4 then Uint4korr(Reversed(bytes)) == 0x2020_2020
    else Uint8korr(Reversed(bytes)) == 0x2020_2020_2020_2020
  }

  /** This version is for processors that put the high byte first. */
  function Reversed(a: seq<Byte>): (r: seq<Byte>)
    ensures |r| == |a| && forall i :: 0 <= i < |a| ==> r[i] == a[|a| - 1 - i]
  {
    seq(|a|, i requires 0 <= i < |a| => a[|a| - 1 - i])
  }

  lemma SpacesAt(s: seq<Byte>, ptr: nat, a: nat, word: nat)
    requires (word == 4 || word == 8) && Aligned(a, word) && ptr <= a && a + word <= ptr + |s|
    requires WordOfSpaces(s, ptr, a, word)
    ensures forall i :: a - ptr <= i < a - ptr + word ==> s[i] == SPACE
  {
    var k := a - ptr;
    var bytes := s[k..k + word];
    if word == 4 { SpacesInWord4(Reversed(bytes)); } else { SpacesInWord8(Reversed(bytes)); }
    forall i | k <= i < k + word ensures s[i] == SPACE {
      assert s[i] == bytes[i - k] == Reversed(bytes)[word - 1 - (i - k)];
    }
  }

  /** Aligned ints at a time in the middle of a long text; `ptr` is its address. */
  method SkipAligned(s: seq<Byte>, ptr: nat, word: nat) returns (end: nat)
    requires word == 4 || word == 8
    ensures end == ptr + TrimmedLength(s)
  {
    end := ptr + |s|;
    if |s| > 20 {
      var endWords := RoundDown(end, word);
      var startWords := RoundDown(ptr + word - 1, word);
      RoundDownIs(end, word);
      RoundDownIs(ptr + word - 1, word);
      var n := SkipBytes(s, end - ptr, endWords - ptr);
      end := ptr + n;
      if s[end - 1 - ptr] == SPACE && startWords < endWords {
        end := SkipWords(s, ptr, end, startWords, word);
      }
    }
    var n := SkipBytes(s, end - ptr, 0);
    end := ptr + n;
    TrimmedLengthIs(s, n);
  }

  /** One int at a time, from an aligned address down to another one inside the text, or to
      the first int that is not all spaces. */
  method SkipWords(s: seq<Byte>, ptr: nat, top: nat, bottom: nat, word: nat) returns (end: nat)
    requires (word == 4 || word == 8) && Aligned(top, word) && Aligned(bottom, word)
    requires ptr <= bottom <= top <= ptr + |s| && forall i :: top - ptr <= i < |s| ==> s[i] == SPACE
    ensures bottom <= end <= top && Aligned(end, word) && forall i :: end - ptr <= i < |s| ==> s[i] == SPACE
    ensures end > bottom ==>
              end - word >= bottom && Aligned(end - word, word) && !WordOfSpaces(s, ptr, end - word, word)
  {
    end := top;
    while end > bottom
      invariant bottom <= end <= top && Aligned(end, word)
      invariant forall i :: end - ptr <= i < |s| ==> s[i] == SPACE
    {
      WordFits(bottom, end, word);
      if !WordOfSpaces(s, ptr, end - word, word) { break; }
      SpacesAt(s, ptr, end - word, word);
      end := end - word;
    }
  }

  /** Both versions give the same end for every text, at every address. */
  method BothVersions(s: seq<Byte>, ptr: nat, word: nat) returns (by8: nat, aligned: nat)
    requires word == 4 || word == 8
    ensures aligned == ptr + by8
  {
    by8 := SkipBy8(s);
    aligned := SkipAligned(s, ptr, word);
  }
}

/** Bytes, C strings and the scanning helpers of string_util.c.

    A `char` stands for one byte. A `string` handed to a method as `CString` is
    the text before the terminator; pointer arithmetic `s + k` is the slice
    `s[k..]`, so Dafny's bounds checks say that no read passes the terminator. */
module CStrings {

  const NUL: char := '\0'

  type CString = s: string | NUL !in s

  /** The pointer `s + k`. */
  function Tail(s: CString, k: nat): (r: CString)
    requires k <= |s|
    ensures r == s[k..]
  {
    s[k..]
  }

  /** malloc, strncpy and terminator: a copy of the text from `from` up to `to`. */
  function Copy(s: CString, from: nat, to: nat): (r: CString)
    requires from <= to <= |s|
    ensures r == s[from..to]
  {
    s[from..to]
  }

  function Map<A, B>(f: A -> B, s: seq<A>): (r: seq<B>)
    ensures |r| == |s|
  {
    seq(|s|, i requires 0 <= i < |s| => f(s[i]))
  }

  lemma MapConcat<A, B>(f: A -> B, a: seq<A>, b: seq<A>)
    ensures Map(f, a + b) == Map(f, a) + Map(f, b)
  {
  }

  lemma MapAt<A, B>(f: A -> B, s: seq<A>, i: nat)
    requires i < |s|
    ensures Map(f, s)[i] == f(s[i])
  {
  }

  lemma MapOne<A, B>(f: A -> B, a: A)
    ensures Map(f, [a]) == [f(a)]
  {
  }

  lemma Regroup<T>(a: seq<T>, b: seq<T>, c: seq<T>)
    ensures a + (b + c) == a + b + c
  {
  }

  // ----- specification vocabulary -----

  /** The first position of `c` at or after `k`, or -1. */
  function IndexFrom(s: string, c: char, k: nat): (r: int)
    ensures r == -1 || (k <= r < |s| && s[r] == c)
    decreases |s| - k
  {
    if k >= |s| then -1 else if s[k] == c then k else IndexFrom(s, c, k + 1)
  }

  /** The first position of `c`, or -1. */
  function IndexOf(s: string, c: char): (r: int)
    ensures r == -1 || (0 <= r < |s| && s[r] == c)
  {
    IndexFrom(s, c, 0)
  }

  lemma {:induction false} IndexFromFirst(s: string, c: char, k: nat)
    ensures forall i :: k <= i < (if IndexFrom(s, c, k) == -1 then |s| else IndexFrom(s, c, k)) ==> s[i] != c
    decreases |s| - k
  {
    if k < |s| && s[k] != c { IndexFromFirst(s, c, k + 1); }
  }

  lemma {:induction false} IndexFromIs(s: string, c: char, k: nat, r: nat)
    requires k <= r <= |s| && (r < |s| ==> s[r] == c)
    requires forall i :: k <= i < r ==> s[i] != c
    ensures IndexFrom(s, c, k) == if r == |s| then -1 else r
    decreases |s| - k
  {
    if k < r { IndexFromIs(s, c, k + 1, r); }
  }

  /** The last position of `c`, or -1 (strrchr). */
  function LastIndexOf(s: string, c: char): (r: int)
    ensures r == -1 || (0 <= r < |s| && s[r] == c)
    decreases |s|
  {
    if s == "" then -1
    else if s[|s| - 1] == c then |s| - 1
    else LastIndexOf(s[..|s| - 1], c)
  }

  lemma {:induction false} LastIndexIsLast(s: string, c: char)
    ensures forall i :: LastIndexOf(s, c) < i < |s| ==> s[i] != c
    decreases |s|
  {
    if s != "" && s[|s| - 1] != c {
      LastIndexIsLast(s[..|s| - 1], c);
      assert forall i :: 0 <= i < |s| - 1 ==> s[i] == s[..|s| - 1][i];
    }
  }

  lemma IndexOfNone(s: string, c: char)
    ensures IndexOf(s, c) == -1 <==> c !in s
  {
    IndexFromFirst(s, c, 0);
  }

  lemma IndexOfAfterText(a: string, c: char, rest: string)
    requires c !in a
    ensures IndexOf(a + [c] + rest, c) == |a|
  {
    var s := a + [c] + rest;
    assert forall i :: 0 <= i < |a| ==> s[i] == a[i];
    IndexFromIs(s, c, 0, |a|);
  }

  /** What the string functions of C see of a block of bytes. */
  function CStr(s: string): (r: string)
    ensures NUL !in r && r <= s
    ensures NUL !in s ==> r == s
  {
    IndexFromFirst(s, NUL, 0);
    var k := IndexOf(s, NUL);
    if k == -1 then s else s[..k]
  }

  predicate MatchAt(s: string, p: string, k: int) {
    0 <= k <= |s| - |p| && s[k..k + |p|] == p
  }

  /** The first position at or after `k` where `p` occurs in `s`, or -1. */
  function FindFrom(s: string, p: string, k: nat): (r: int)
    ensures r == -1 || (k <= r && MatchAt(s, p, r))
    decreases |s| - k
  {
    if k + |p| > |s| then -1
    else if MatchAt(s, p, k) then k
    else FindFrom(s, p, k + 1)
  }

  function Find(s: string, p: string): (r: int)
    ensures r == -1 || MatchAt(s, p, r)
  {
    FindFrom(s, p, 0)
  }

  lemma {:induction false} FindFromFirst(s: string, p: string, k: nat)
    ensures forall j :: k <= j && (FindFrom(s, p, k) == -1 || j < FindFrom(s, p, k)) ==> !MatchAt(s, p, j)
    decreases |s| - k
  {
    if k + |p| <= |s| && !MatchAt(s, p, k) { FindFromFirst(s, p, k + 1); }
  }

  /** A first match is where `FindFrom` points. */
  lemma {:induction false} FindFromIs(s: string, p: string, k: nat, r: nat)
    requires k <= r && MatchAt(s, p, r)
    requires forall j :: k <= j < r ==> !MatchAt(s, p, j)
    ensures FindFrom(s, p, k) == r
    decreases r - k
  {
    if k < r { FindFromIs(s, p, k + 1, r); }
  }

  lemma {:induction false} FindFromNone(s: string, p: string, k: nat)
    requires forall j :: k <= j <= |s| - |p| ==> !MatchAt(s, p, j)
    ensures FindFrom(s, p, k) == -1
    decreases |s| - k
  {
    if k + |p| <= |s| { FindFromNone(s, p, k + 1); }
  }

  lemma MatchAtTwo(s: string, p: string, k: int)
    requires |p| == 2
    ensures MatchAt(s, p, k) <==> 0 <= k <= |s| - 2 && s[k] == p[0] && s[k + 1] == p[1]
  {
    if 0 <= k <= |s| - 2 {
      assert s[k..k + 2] == [s[k], s[k + 1]];
      assert p == [p[0], p[1]];
    }
  }

  lemma CStrTerminated(a: string, rest: string)
    ensures CStr(a + [NUL] + rest) == CStr(a)
  {
    var s := a + [NUL] + rest;
    if NUL !in a {
      IndexOfAfterText(a, NUL, rest);
    } else {
      IndexFromFirst(a, NUL, 0);
      var k := IndexOf(a, NUL);
      IndexOfAfterText(a[..k], NUL, a[k + 1..] + [NUL] + rest);
      assert s == a[..k] + [NUL] + (a[k + 1..] + [NUL] + rest);
    }
  }

  // ----- string_util.c -----

  method FindIdx(s: CString, ch: char) returns (r: int)
    ensures r == IndexOf(s, ch)
  {
    var i := 0;
    while i < |s|
      invariant 0 <= i <= |s|
      invariant forall k :: 0 <= k < i ==> s[k] != ch
    {
      if s[i] == ch {
        IndexFromIs(s, ch, 0, i);
        return i;
      }
      i := i + 1;
    }
    IndexFromIs(s, ch, 0, i);
    return -1;
  }

  /** find_idx(s+k, ch)+k: a missing character gives k - 1. */
  method FindIdxAt(s: CString, k: nat, ch: char) returns (r: int)
    requires k <= |s|
    ensures r == if IndexFrom(s, ch, k) == -1 then k - 1 else IndexFrom(s, ch, k)
  {
    r := FindIdx(Tail(s, k), ch);
    IndexFromFirst(s[k..], ch, 0);
    assert forall i :: k <= i < |s| ==> s[i] == s[k..][i - k];
    IndexFromIs(s, ch, k, if r == -1 then |s| else r + k);
    r := r + k;
  }

  /** The position of the last character of the first match, or -1. */
  method FindStr(s: CString, p: CString) returns (r: int)
    ensures p != "" ==> r == if Find(s, p) == -1 then -1 else Find(s, p) + |p| - 1
    ensures p == "" ==> r == if s == "" then -1 else 0
  {
    var len := |p|;
    var i := 0;
    while i < |s|
      invariant 0 <= i <= |s|
      invariant p == "" ==> i == 0
      invariant forall j :: 0 <= j <= i - len ==> !MatchAt(s, p, j) || p == ""
    {
      if i >= len - 1 && s[i - len + 1..i + 1] == p {
        if len > 0 { FindFromIs(s, p, 0, i - len + 1); }
        return i;
      }
      i := i + 1;
    }
    if len > 0 { FindFromNone(s, p, 0); }
    return -1;
  }

  function Min(a: int, b: int): int {
    if a < b then a else b
  }

  /** strncmp: the sign of the first difference within `n` characters. */
  function Strncmp(a: string, b: string, n: nat): int
    decreases n
  {
    if n == 0 || (a == "" && b == "") then 0
    else if a == "" then -1
    else if b == "" then 1
    else if a[0] < b[0] then -1
    else if a[0] > b[0] then 1
    else Strncmp(a[1..], b[1..], n - 1)
  }

  function PrefixCmp(a: string, b: string): int {
    Strncmp(a, b, Min(|a|, |b|))
  }

  lemma {:induction false} StrncmpZero(a: string, b: string, n: nat)
    requires n <= |a| && n <= |b|
    ensures Strncmp(a, b, n) == 0 <==> a[..n] == b[..n]
    decreases n
  {
    if n > 0 && a[0] == b[0] {
      StrncmpZero(a[1..], b[1..], n - 1);
      assert a[..n] == [a[0]] + a[1..][..n - 1];
      assert b[..n] == [b[0]] + b[1..][..n - 1];
    } else if n > 0 {
      assert a[..n][0] == a[0] && b[..n][0] == b[0];
    }
  }

  /** prefixcmp finds no difference exactly when one text is a prefix of the other. */
  lemma PrefixCmpZero(a: string, b: string)
    ensures PrefixCmp(a, b) == 0 <==> a <= b || b <= a
  {
    var n := Min(|a|, |b|);
    StrncmpZero(a, b, n);
    assert n == |a| ==> a[..n] == a;
    assert n == |b| ==> b[..n] == b;
    assert a <= b ==> a == b[..|a|];
    assert b <= a ==> b == a[..|b|];
  }

  predicate IsHex(c: char) {
    '0' <= c <= '9' || 'a' <= c <= 'f' || 'A' <= c <= 'F'
  }

  function ToHex(c: char): (r: int)
    ensures IsHex(c) <==> r != -1
    ensures -1 <= r < 16
  {
    if '0' <= c <= '9' then c as int - '0' as int
    else if 'a' <= c <= 'f' then c as int - 'a' as int + 10
    else if 'A' <= c <= 'F' then c as int - 'A' as int + 10
    else -1
  }

  /** `c` is the hexadecimal digit of value `n`, in either case. */
  predicate IsDigitOf(c: char, n: int) {
    0 <= n < 16 && (c == "0123456789abcdef"[n] || c == "0123456789ABCDEF"[n])
  }

  lemma ToHexIs(c: char, n: int)
    ensures IsDigitOf(c, n) <==> n != -1 && ToHex(c) == n
    ensures IsHex(c) <==> c in "0123456789abcdefABCDEF"
  {
    assert n == 0 || n == 1 || n == 2 || n == 3 || n == 4 || n == 5 || n == 6 || n == 7
        || n == 8 || n == 9 || n == 10 || n == 11 || n == 12 || n == 13 || n == 14 || n == 15 || !(0 <= n < 16);
  }

  function LowerChar(c: char): char {
    if 'A' <= c <= 'Z' then (c as int + 'a' as int - 'A' as int) as char else c
  }

  function Lower(s: string): (r: string)
    ensures |r| == |s|
    ensures forall i :: 0 <= i < |s| ==> r[i] == LowerChar(s[i])
  {
    seq(|s|, i requires 0 <= i < |s| => LowerChar(s[i]))
  }

  /** Letters by their codes: 65 to 90 move up by 32, and every other byte stays. */
  lemma LowerIs(s: string)
    ensures |Lower(s)| == |s|
    ensures forall i :: 0 <= i < |s| ==> Lower(s)[i] as int == s[i] as int + if 65 <= s[i] as int <= 90 then 32 else 0
  {
  }

  lemma LowerAlphabet()
    ensures Lower("ABCDEFGHIJKLMNOPQRSTUVWXYZ") == "abcdefghijklmnopqrstuvwxyz"
  {
  }

  /** The spellings of a lower-case word. */
  predicate Spells(k: string, word: string) {
    && |k| == |word|
    && forall i :: 0 <= i < |k| ==>
         k[i] == word[i] || (97 <= word[i] as int <= 122 && k[i] as int + 32 == word[i] as int)
  }

  predicate LowerCase(word: string) {
    forall i :: 0 <= i < |word| ==> !(65 <= word[i] as int <= 90)
  }

  lemma LowerOfSpelling(k: string, word: string)
    requires Spells(k, word) && LowerCase(word)
    ensures Lower(k) == word
  {
    LowerIs(k);
    forall i | 0 <= i < |k| ensures Lower(k)[i] == word[i] {
      assert Lower(k)[i] as int == word[i] as int;
    }
  }

  /** Rewrites the text before the terminator and nothing after it. */
  method ToLower(str: array<char>)
    requires NUL in str[..]
    modifies str
    ensures CStr(str[..]) == Lower(old(CStr(str[..])))
    ensures str[|old(CStr(str[..]))|..] == old(str[|CStr(str[..])|..])
  {
    ghost var was := str[..];
    ghost var n := IndexOf(was, NUL);
    IndexFromFirst(was, NUL, 0);
    var i := 0;
    while str[i] != NUL
      invariant 0 <= i <= n
      invariant forall k :: 0 <= k < i ==> str[k] == LowerChar(was[k])
      invariant forall k :: i <= k < str.Length ==> str[k] == was[k]
      decreases n - i
    {
      if 'A' <= str[i] <= 'Z' {
        str[i] := (str[i] as int + 'a' as int - 'A' as int) as char;
      }
      i := i + 1;
    }
    assert str[..] == Lower(was[..n]) + [NUL] + was[n + 1..];
    forall k | 0 <= k < n ensures Lower(was[..n])[k] != NUL { assert was[..n][k] != NUL; }
    IndexOfAfterText(Lower(was[..n]), NUL, was[n + 1..]);
  }

  // ----- decimal numbers, as sprintf prints and atoi reads them -----

  predicate IsDigit(c: char) { '0' <= c <= '9' }

  function Digit(n: nat): (c: char)
    requires n < 10
    ensures IsDigit(c)
  {
    ('0' as int + n) as char
  }

  function Dec(n: nat): (r: string)
    ensures r != ""
    ensures forall c :: c in r ==> IsDigit(c)
  {
    if n < 10 then [Digit(n)] else Dec(n / 10) + [Digit(n % 10)]
  }

  /** Printed numbers, digit by digit: the last one is the remainder by ten, and only zero
      starts with a zero. */
  lemma {:induction false} DecIs(n: nat)
    ensures if n < 10 then Dec(n) == ["0123456789"[n]] else Dec(n) == Dec(n / 10) + ["0123456789"[n % 10]]
    ensures n > 0 ==> Dec(n)[0] != '0'
  {
    DigitIs(n % 10);
    if n >= 10 { DecIs(n / 10); }
  }

  lemma DigitIs(n: nat)
    requires n < 10
    ensures Digit(n) == "0123456789"[n]
  {
    assert n == 0 || n == 1 || n == 2 || n == 3 || n == 4 || n == 5 || n == 6 || n == 7 || n == 8 || n == 9;
  }

  /** The value of the leading digits of `s`, continuing from `acc`. */
  function LeadingDigits(s: string, acc: nat): nat
    decreases |s|
  {
    if s == "" || !IsDigit(s[0]) then acc
    else LeadingDigits(s[1..], acc * 10 + (s[0] as int - '0' as int))
  }

  predicate IsSpace(c: char) {
    c == ' ' || '\t' <= c <= '\r'
  }

  function Atoi(s: string): int
    decreases |s|
  {
    if s == "" then 0
    else if IsSpace(s[0]) then Atoi(s[1..])
    else if s[0] == '-' then 0 - LeadingDigits(s[1..], 0)
    else if s[0] == '+' then LeadingDigits(s[1..], 0)
    else LeadingDigits(s, 0)
  }

  lemma {:induction false} LeadingDigitsOfDec(n: nat, rest: string)
    requires rest == "" || !IsDigit(rest[0])
    ensures LeadingDigits(Dec(n) + rest, 0) == n
    decreases n
  {
    if n < 10 {
      assert (Dec(n) + rest)[1..] == rest;
    } else {
      LeadingDigitsAppend(Dec(n / 10), Digit(n % 10), rest, 0);
      LeadingDigitsOfDec(n / 10, "");
      assert Dec(n / 10) + "" == Dec(n / 10);
      assert Dec(n) + rest == Dec(n / 10) + [Digit(n % 10)] + rest;
    }
  }

  lemma {:induction false} LeadingDigitsAppend(ds: string, d: char, rest: string, acc: nat)
    requires forall c :: c in ds ==> IsDigit(c)
    requires IsDigit(d) && (rest == "" || !IsDigit(rest[0]))
    ensures LeadingDigits(ds + [d] + rest, acc) == LeadingDigits(ds, acc) * 10 + (d as int - '0' as int)
    decreases |ds|
  {
    var s := ds + [d] + rest;
    if ds == "" {
      assert s[0] == d && s[1..] == rest;
    } else {
      assert s[1..] == ds[1..] + [d] + rest;
      assert ds[0] in ds;
      LeadingDigitsAppend(ds[1..], d, rest, acc * 10 + (ds[0] as int - '0' as int));
    }
  }

  /** atoi undoes the decimal form, whatever non-digit text follows it. */
  lemma AtoiOfDec(n: nat, rest: string)
    requires rest == "" || !IsDigit(rest[0])
    ensures Atoi(Dec(n) + rest) == n
  {
    LeadingDigitsOfDec(n, rest);
    var s := Dec(n) + rest;
    assert s[0] == Dec(n)[0] && IsDigit(s[0]);
  }

  /** A number is read behind blanks and a sign; without digits it is 0. */
  lemma {:induction false} AtoiIs(blanks: string, sign: string, n: nat, rest: string)
    requires forall i :: 0 <= i < |blanks| ==> blanks[i] as int == 32 || 9 <= blanks[i] as int <= 13
    requires sign == "" || sign == "+" || sign == "-"
    requires rest == "" || !('0' <= rest[0] <= '9')
    ensures Atoi(blanks + (sign + (Dec(n) + rest))) == if sign == "-" then 0 - n else n
    ensures sign != "" ==> Atoi(blanks + (sign + rest)) == 0
    decreases |blanks|
  {
    var s, none := blanks + (sign + (Dec(n) + rest)), blanks + (sign + rest);
    if blanks != "" {
      assert s[1..] == blanks[1..] + (sign + (Dec(n) + rest)) && none[1..] == blanks[1..] + (sign + rest);
      AtoiIs(blanks[1..], sign, n, rest);
    } else if sign == "" {
      assert s == Dec(n) + rest;
      AtoiOfDec(n, rest);
    } else {
      assert s[1..] == Dec(n) + rest && none[1..] == rest;
      LeadingDigitsOfDec(n, rest);
    }
  }
}

/** The deadlines of my_global.h where struct timespec is the system's own. */
module Timespecs {

  const WIDTH: int := 0x1_0000_0000_0000_0000
  const INT_MAX32: nat := 0x7FFF_FFFF

  datatype Moment = Moment(sec: int, nsec: int)

  /** In nanoseconds. */
  function Total(m: Moment): int {
    m.sec * 1_000_000_000 + m.nsec
  }

  class Timespec {
    var sec: int
    var nsec: int

    function Value(): Moment
      reads this
    {
      Moment(sec, nsec)
    }

    /** `time` is the system's time, in units of 100 nanoseconds; `narrow` says that time_t
        is narrower than 64 bits. */
    method SetNsec(time: nat, delay: nat, narrow: bool)
      requires time < WIDTH && delay < WIDTH
      modifies this
      ensures Value() == After(time, delay, narrow)
    {
      var now := (time + delay / 100) % WIDTH;
      var seconds := now / 10_000_000;
      if narrow && seconds > INT_MAX32 { seconds := INT_MAX32; }
      sec := seconds;
      nsec := now % 10_000_000 * 100 + delay % 100;
    }

    method SetSec(time: nat, seconds: nat, narrow: bool)
      requires time < WIDTH && seconds < WIDTH
      modifies this
      ensures Value() == After(time, seconds * 1_000_000_000 % WIDTH, narrow)
    {
      SetNsec(time, seconds * 1_000_000_000 % WIDTH, narrow);
    }
  }

  /** The moment with the given delay after the system's time, cut to the width of time_t. */
  function After(time: nat, delay: nat, narrow: bool): Moment {
    var now := (time + delay / 100) % WIDTH;
    var seconds := now / 10_000_000;
    Moment(if narrow && seconds > INT_MAX32 then INT_MAX32 else seconds, now % 10_000_000 * 100 + delay % 100)
  }

  predicate Normal(m: Moment) {
    0 <= m.nsec < 1_000_000_000
  }

  /** Whether the sum of time and delay fits in 64 bits, and its seconds in time_t. */
  predicate Fits(time: nat, delay: nat, narrow: bool) {
    time + delay / 100 < WIDTH && (narrow ==> (time + delay / 100) / 10_000_000 <= INT_MAX32)
  }

  /** A deadline is always well formed, never late, and exact just when everything fits. */
  lemma AfterIs(time: nat, delay: nat, narrow: bool)
    ensures var m := After(time, delay, narrow);
            Normal(m) && Total(m) <= 100 * time + delay
            && (Total(m) == 100 * time + delay <==> Fits(time, delay, narrow))
  {
    var sum := time + delay / 100;
    var now := sum % WIDTH;
    assert now <= sum && (now == sum <==> sum < WIDTH);
    assert now == now / 10_000_000 * 10_000_000 + now % 10_000_000;
    assert delay == delay / 100 * 100 + delay % 100;
  }

  /** What a deadline is when not everything fits: the sum goes round at 64 bits, and the
      seconds of a narrow time_t stop at their largest value. */
  lemma AfterOverflow(time: nat, delay: nat, narrow: bool)
    ensures var m, now := After(time, delay, narrow), (time + delay / 100) % 0x1_0000_0000_0000_0000;
            && (narrow && now / 10_000_000 > 0x7FFF_FFFF ==> m.sec == 0x7FFF_FFFF)
            && (!(narrow && now / 10_000_000 > 0x7FFF_FFFF) ==> Total(m) == 100 * now + delay % 100)
            && m.nsec == now % 10_000_000 * 100 + delay % 100
  {
  }

  /** In seconds: exact just when the product fits as well. */
  lemma AfterSecondsIff(time: nat, seconds: nat, narrow: bool)
    ensures Total(After(time, seconds * 1_000_000_000 % WIDTH, narrow)) == 100 * time + seconds * 1_000_000_000
       <==> seconds * 1_000_000_000 < WIDTH && Fits(time, seconds * 1_000_000_000, narrow)
  {
    var delay := seconds * 1_000_000_000;
    assert delay % WIDTH <= delay && (delay % WIDTH == delay <==> delay < WIDTH);
    AfterIs(time, delay % WIDTH, narrow);
  }

  function Cmp(a: Moment, b: Moment): int {
    if a.sec > b.sec || (a.sec == b.sec && a.nsec > b.nsec) then 1
    else if a.sec < b.sec || (a.sec == b.sec && a.nsec < b.nsec) then -1
    else 0
  }

  /** In 64 bits without sign. */
  function Diff(a: Moment, b: Moment): int {
    ((a.sec - b.sec) * 1_000_000_000 + a.nsec - b.nsec) % WIDTH
  }

  function Sign(d: int): int {
    if d > 0 then 1 else if d < 0 then -1 else 0
  }

  lemma Wraps(d: int)
    ensures d % WIDTH == d <==> 0 <= d < WIDTH
  {
  }

  /** On well-formed values the comparison is the order of the totals, and the difference is
      theirs exactly when it is not negative and fits in 64 bits. */
  lemma OrderOfTotals(a: Moment, b: Moment)
    requires Normal(a) && Normal(b)
    ensures Cmp(a, b) == Sign(Total(a) - Total(b))
    ensures Diff(a, b) == Total(a) - Total(b) <==> 0 <= Total(a) - Total(b) < WIDTH
  {
    var d := Total(a) - Total(b);
    assert d == (a.sec - b.sec) * 1_000_000_000 + a.nsec - b.nsec;
    Wraps(d);
  }

  /** Otherwise the difference goes round at 64 bits. */
  lemma DiffWraps(a: Moment, b: Moment)
    ensures 0 <= Diff(a, b) < 0x1_0000_0000_0000_0000
    ensures -0x1_0000_0000_0000_0000 <= Total(a) - Total(b) < 0 ==>
              Diff(a, b) == Total(a) - Total(b) + 0x1_0000_0000_0000_0000
  {
    var d := Total(a) - Total(b);
    assert d == (a.sec - b.sec) * 1_000_000_000 + a.nsec - b.nsec;
    if -WIDTH <= d < 0 { assert d % WIDTH == d + WIDTH; }
  }

  /** Two deadlines set at one time and exact compare like their delays, and differ by as much. */
  lemma DeadlinesKeepDelays(time: nat, long: nat, short: nat, narrow: bool)
    requires short <= long < WIDTH && Fits(time, long, narrow)
    ensures Cmp(After(time, long, narrow), After(time, short, narrow)) == if short < long then 1 else 0
    ensures Diff(After(time, long, narrow), After(time, short, narrow)) == long - short
  {
    assert short / 100 <= long / 100;
    AfterIs(time, long, narrow);
    AfterIs(time, short, narrow);
    OrderOfTotals(After(time, long, narrow), After(time, short, narrow));
  }
}

/** The clock of interval mode: `long` arithmetic with two's-complement wrap-around, and the
    policy that collapses long idle gaps between events before sleeping. */
module ReplayClock {
  import opened JavaString

  /** Gaps longer than this are collapsed before sleeping. */
  const SkipThreshold: int := 3000
  /** Each collapsing step moves the reference clock forward by this much. */
  const SkipStep: int := 2000

  /** The `long` that a Java computation with exact result `x` produces. */
  function Wrap(x: int): (r: int)
    ensures IsLong(r)
  {
    (x + 0x8000_0000_0000_0000) % 0x1_0000_0000_0000_0000 - 0x8000_0000_0000_0000
  }

  /** Wrapping is determined by the residue modulo 2^64: any long congruent to `x` is `Wrap(x)`. */
  lemma WrapUnique(x: int, r: int, q: int)
    requires IsLong(r) && x == r + q * 0x1_0000_0000_0000_0000
    ensures Wrap(x) == r
  {
    var a := x + 0x8000_0000_0000_0000;
    var b := r + 0x8000_0000_0000_0000;
    assert a == q * 0x1_0000_0000_0000_0000 + b && 0 <= b < 0x1_0000_0000_0000_0000;
    ModUnique(a, q, b);
  }

  lemma ModUnique(a: int, q: int, b: int)
    requires a == q * 0x1_0000_0000_0000_0000 + b && 0 <= b < 0x1_0000_0000_0000_0000
    ensures a % 0x1_0000_0000_0000_0000 == b
  {
    var q' := a / 0x1_0000_0000_0000_0000;
    var b' := a % 0x1_0000_0000_0000_0000;
    assert a == q' * 0x1_0000_0000_0000_0000 + b';
    assert (q - q') * 0x1_0000_0000_0000_0000 == b' - b;
  }

  /** `x` differs from its wrapped value by a whole number of 2^64. */
  lemma WrapResidue(x: int) returns (q: int)
    ensures x == Wrap(x) + q * 0x1_0000_0000_0000_0000
  {
    q := (x + 0x8000_0000_0000_0000) / 0x1_0000_0000_0000_0000;
  }

  /** `a - b` on two longs: the exact difference whenever that fits in a long. */
  function Sub64(a: int, b: int): (r: int)
    ensures IsLong(r)
    ensures IsLong(a - b) ==> r == a - b
  {
    Wrap(a - b)
  }

  /** Number of collapsing steps for a gap `d`: the least count that brings it to at most
      `SkipThreshold`, that is ceil((d - 3000) / 2000) for d above the threshold. */
  function SkipCount(d: int): (n: nat)
    ensures d > SkipThreshold ==> d - SkipStep * n <= SkipThreshold < d - SkipStep * (n - 1)
  {
    if d <= SkipThreshold then 0 else (d - SkipThreshold + SkipStep - 1) / SkipStep
  }

  /** The reference clock after the skip loop has run for an event at `time` when the previous
      reference was `last`. */
  function SkippedClock(time: int, last: int): int
  {
    Wrap(last + SkipStep * SkipCount(Sub64(time, last)))
  }

  /** What is left to sleep after collapsing, which is also the new gap to `time`. */
  function Pause(time: int, last: int): int
  {
    Sub64(time, SkippedClock(time, last))
  }

  /** Adding `c` to a long and wrapping moves the wrapped difference to `time` down by `c`,
      as long as that difference stays in range. */
  lemma SubAfterAdvance(time: int, last: int, c: int)
    requires IsLong(Sub64(time, last) - c)
    ensures Sub64(time, Wrap(last + c)) == Sub64(time, last) - c
  {
    var q1 := WrapResidue(last + c);
    var q2 := WrapResidue(time - last);
    WrapUnique(time - Wrap(last + c), Sub64(time, last) - c, q1 + q2);
  }

  lemma AdvanceTwice(last: int, c: int, e: int)
    ensures Wrap(Wrap(last + c) + e) == Wrap(last + c + e)
  {
    var q1 := WrapResidue(last + c);
    var q2 := WrapResidue(Wrap(last + c) + e);
    WrapUnique(last + c + e, Wrap(Wrap(last + c) + e), q1 + q2);
  }

  /** The clock-skip policy for a non-first event: a gap of at most 3000 is slept in full and
      leaves the clock alone; a longer gap is cut, in whole steps of 2000, to a sleep in
      (1000, 3000] that is strictly shorter than the gap. */
  lemma PauseBounds(time: int, last: int)
    requires IsLong(time) && IsLong(last)
    ensures var d := Sub64(time, last);
      && (d <= SkipThreshold ==> SkippedClock(time, last) == last && Pause(time, last) == d)
      && (d > SkipThreshold ==>
            && SkipThreshold - SkipStep < Pause(time, last) <= SkipThreshold
            && Pause(time, last) < d
            && Pause(time, last) == d - SkipStep * SkipCount(d))
  {
    var d := Sub64(time, last);
    var n := SkipCount(d);
    if d <= SkipThreshold {
      assert last + SkipStep * n == last;
      WrapUnique(last, last, 0);
    } else {
      SubAfterAdvance(time, last, SkipStep * n);
    }
  }

  /** When the event is not behind a positive clock, the skip never moves the clock past the
      event: the new clock lies between 0 and `time`, and the pause is what separates them. */
  lemma ForwardSkip(time: int, last: int)
    requires IsLong(time) && 0 < last <= time
    ensures 0 <= SkippedClock(time, last) <= time
    ensures Pause(time, last) == time - SkippedClock(time, last)
  {
    WrapUnique(time - last, time - last, 0);
    PauseBounds(time, last);
    if time - last > SkipThreshold {
      WrapUnique(last + SkipStep * SkipCount(time - last), time - Pause(time, last), 0);
    }
  }

  /** The skip loop of interval mode: while the event lies more than 3000 ahead of the
      reference clock, advance the clock (a `long`) by 2000. */
  method SkipIdleTime(time: int, last: int) returns (clock: int)
    requires IsLong(time) && IsLong(last)
    ensures clock == SkippedClock(time, last)
    ensures IsLong(clock) && Sub64(time, clock) <= SkipThreshold
    ensures Sub64(time, last) <= SkipThreshold ==> clock == last
    ensures Sub64(time, last) > SkipThreshold ==> SkipThreshold - SkipStep < Sub64(time, clock)
  {
    clock := last;
    ghost var d := Sub64(time, last);
    ghost var n: nat := 0;
    WrapUnique(last, last, 0);
    while Sub64(time, clock) > SkipThreshold
      invariant n <= SkipCount(d)
      invariant clock == Wrap(last + SkipStep * n)
      invariant Sub64(time, clock) == d - SkipStep * n
      invariant n > 0 ==> Sub64(time, clock) > SkipThreshold - SkipStep
      decreases Sub64(time, clock)
    {
      SubAfterAdvance(time, clock, SkipStep);
      AdvanceTwice(last, SkipStep * n, SkipStep);
      clock := Wrap(clock + SkipStep);
      n := n + 1;
    }
  }
}

/** Rate bounds: what it means for recorded start times that consecutive ones lie a fixed time apart. */
module Throttle {
  import opened Arithmetic

  /** Consecutive times are at least `gap` apart. */
  ghost predicate Spaced(times: seq<nat>, gap: nat) {
    forall i :: 0 <= i < |times| - 1 ==> times[i] + gap <= times[i + 1]
  }

  lemma SpacedAppend(times: seq<nat>, gap: nat, time: nat)
    requires Spaced(times, gap) && (times != [] ==> times[|times| - 1] + gap <= time)
    ensures Spaced(times + [time], gap)
  {
  }

  /** How many of the times lie in the window from `start` to `start + width`. */
  function CountIn(times: seq<nat>, start: nat, width: nat): nat {
    if times == [] then 0
    else
      var last := times[|times| - 1];
      CountIn(times[..|times| - 1], start, width) + if start <= last <= start + width then 1 else 0
  }

  lemma {:induction false} LastIsLatest(times: seq<nat>, gap: nat, i: nat)
    requires Spaced(times, gap) && i < |times|
    ensures times[i] <= times[|times| - 1]
    decreases |times|
  {
    if i < |times| - 1 {
      LastIsLatest(times[..|times| - 1], gap, i);
    }
  }

  lemma {:induction false} NoneInWindow(times: seq<nat>, start: nat, width: nat)
    requires forall i :: 0 <= i < |times| ==> times[i] < start
    ensures CountIn(times, start, width) == 0
  {
    if times != [] {
      NoneInWindow(times[..|times| - 1], start, width);
    }
  }

  lemma {:induction false} ShrinkWindow(times: seq<nat>, start: nat, width: nat, narrower: nat)
    requires narrower <= width && forall i :: 0 <= i < |times| ==> times[i] <= start + narrower
    ensures CountIn(times, start, width) == CountIn(times, start, narrower)
  {
    if times != [] {
      ShrinkWindow(times[..|times| - 1], start, width, narrower);
    }
  }

  /** The most times that fit: one, and one more for every gap. */
  function Quota(width: nat, gap: nat): (q: nat)
    requires gap > 0
    ensures q >= 1
  {
    if width < gap then 1 else 1 + Quota(width - gap, gap)
  }

  lemma {:induction false} QuotaMonotone(narrower: nat, width: nat, gap: nat)
    requires gap > 0 && narrower <= width
    ensures Quota(narrower, gap) <= Quota(width, gap)
    decreases width
  {
    if gap <= narrower {
      QuotaMonotone(narrower - gap, width - gap, gap);
    }
  }

  lemma {:induction false} QuotaIsQuotient(width: nat, gap: nat)
    requires gap > 0
    ensures Quota(width, gap) == width / gap + 1
  {
    if gap <= width {
      QuotaIsQuotient(width - gap, gap);
      OneGapMore(width, gap);
    } else {
      assert width / gap == 0;
    }
  }

  lemma OneGapMore(width: nat, gap: nat)
    requires 0 < gap <= width
    ensures width / gap == (width - gap) / gap + 1
  {
    var less := width - gap;
    var q, r := less / gap, less % gap;
    assert less == gap * q + r;
    DivideExactly(width, gap, q + 1, r);
  }

  lemma {:induction false} CountWithinQuota(times: seq<nat>, gap: nat, start: nat, width: nat)
    requires gap > 0 && Spaced(times, gap)
    ensures CountIn(times, start, width) <= Quota(width, gap)
    decreases |times|
  {
    if times != [] {
      var before, last := times[..|times| - 1], times[|times| - 1];
      if last < start || last > start + width {
        CountWithinQuota(before, gap, start, width);
      } else if last < start + gap {
        forall i | 0 <= i < |before| ensures before[i] < start {
          LastIsLatest(before, gap, i);
        }
        NoneInWindow(before, start, width);
      } else {
        var narrower := last - gap - start;
        forall i | 0 <= i < |before| ensures before[i] <= start + narrower {
          LastIsLatest(before, gap, i);
        }
        ShrinkWindow(before, start, width, narrower);
        CountWithinQuota(before, gap, start, narrower);
        QuotaMonotone(narrower, width - gap, gap);
      }
    }
  }

  /** A window of `width` holds at most `width / gap + 1` spaced times. */
  lemma WindowBound(times: seq<nat>, gap: nat, start: nat, width: nat)
    requires gap > 0 && Spaced(times, gap)
    ensures CountIn(times, start, width) <= width / gap + 1
  {
    CountWithinQuota(times, gap, start, width);
    QuotaIsQuotient(width, gap);
  }
}

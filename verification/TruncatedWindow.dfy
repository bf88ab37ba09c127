/** The sliding average of src/heartbeat-file.c, whose accumulator is an integer:
    every steady beat truncates twice. */
module TruncatedWindow {
  import opened Arithmetic
  import HB = Heartbeat

  /** One steady update of the integer accumulator: drop the oldest interval,
      truncate, add the newest, truncate. */
  function SteadyStep(average: int, oldest: int, newest: int, window: nat): int
    requires window > 0
  {
    Truncate(Truncate(average as real - HB.Ratio(oldest as real, window)) as real + HB.Ratio(newest as real, window))
  }

  function Abs(x: real): real {
    if x < 0.0 then -x else x
  }

  /** How many of `n` intervals came after the warm-up. */
  function SteadyBeats(n: nat, window: nat): nat {
    if n < window then 0 else n - window
  }

  function DriftBound(m: nat, window: nat): nat {
    m + HB.Min(m + 1, window)
  }

  class Window {
    const windowSize: nat
    const window: array<int>
    var currentIndex: nat
    var steadyState: bool
    var lastAverageTime: real

    /** The window holds the last intervals, and the average is a whole number less
        than m + min(m + 1, window) away from their true mean after m steady beats. */
    ghost predicate Holds(intervals: seq<int>)
      reads this, window
    {
      var n := |intervals|;
      && windowSize > 0 && window.Length == windowSize
      && (n < windowSize ==> !steadyState && currentIndex == n && window[..n] == intervals)
      && (n >= windowSize ==> steadyState && currentIndex == Slot(n, windowSize))
      && (n >= windowSize ==> forall j: nat :: j < n <= j + windowSize ==> window[Slot(j, windowSize)] == intervals[j])
      && (n > 0 ==> Drift(lastAverageTime, intervals, windowSize) < DriftBound(SteadyBeats(n, windowSize), windowSize) as real)
      && (n > 0 ==> lastAverageTime == Truncate(lastAverageTime) as real)
      && (n >= windowSize ==> Shared(Truncate(lastAverageTime), intervals[n - windowSize..], windowSize, n - windowSize))
    }

    constructor (windowSize: nat)
      requires windowSize > 0
      ensures Holds([]) && fresh(window) && this.windowSize == windowSize
    {
      this.windowSize := windowSize;
      window := new int[windowSize];
      currentIndex, steadyState, lastAverageTime := 0, false, 0.0;
      new;
      assert window[..0] == [];
    }

    /** `hb_window_average`, up to the average it computes. */
    method WindowAverage(time: int, ghost intervals: seq<int>) returns (averageTime: int)
      requires Holds(intervals)
      modifies window, `currentIndex, `steadyState, `lastAverageTime
      ensures Holds(intervals + [time]) && lastAverageTime == averageTime as real
      ensures |intervals| < windowSize ==>
        averageTime == Truncate(HB.Mean(intervals + [time], windowSize))
      ensures |intervals| >= windowSize ==>
        averageTime == SteadyStep(Truncate(old(lastAverageTime)), intervals[|intervals| - windowSize], time, windowSize)
    {
      if !steadyState {
        averageTime := WarmUp(time, intervals);
      } else {
        averageTime := Slide(time, intervals);
      }
    }

    method WarmUp(time: int, ghost intervals: seq<int>) returns (averageTime: int)
      requires Holds(intervals) && !steadyState
      modifies window, `currentIndex, `steadyState, `lastAverageTime
      ensures Holds(intervals + [time]) && lastAverageTime == averageTime as real
      ensures averageTime == Truncate(HB.Mean(intervals + [time], windowSize))
    {
      hide HB.Ratio;
      hide Slot;
      hide Sum;
      hide Truncate;
      hide Drift;
      hide HB.Mean;
      hide Shared;
      hide DriftBound;
      hide SteadyBeats;
      ghost var next := intervals + [time];
      HB.WarmMean(next, windowSize);
      window[currentIndex] := time;
      assert window[..currentIndex + 1] == next;
      averageTime := SumWindow(currentIndex + 1);
      averageTime := Truncate(HB.Ratio(averageTime as real, currentIndex + 1));
      WarmDrift(next, windowSize);
      lastAverageTime := averageTime as real;
      currentIndex := currentIndex + 1;
      if currentIndex == windowSize {
        currentIndex := 0;
        steadyState := true;
        HB.FirstRound(window[..windowSize]);
      }
    }

    method SumWindow(count: nat) returns (total: int)
      requires count <= window.Length
      ensures total == Sum(window[..count])
    {
      total := 0;
      for i := 0 to count
        invariant total == Sum(window[..i])
      {
        assert window[..i + 1][..i] == window[..i];
        TruncateWhole(total + window[i]);
        total := Truncate(total as real + window[i] as real);
      }
    }

    method Slide(time: int, ghost intervals: seq<int>) returns (averageTime: int)
      requires Holds(intervals) && steadyState
      modifies window, `currentIndex, `lastAverageTime
      ensures Holds(intervals + [time]) && lastAverageTime == averageTime as real
      ensures averageTime ==
        SteadyStep(Truncate(old(lastAverageTime)), intervals[|intervals| - windowSize], time, windowSize)
    {
      hide HB.Mean;
      hide HB.Ratio;
      hide Slot;
      hide Truncate;
      hide Drift;
      hide Shared;
      ghost var n, next := |intervals|, intervals + [time];
      SlotRepeats(n - windowSize, windowSize);
      SteadyDrift(lastAverageTime, intervals, windowSize, time);
      averageTime := Truncate(lastAverageTime - HB.Ratio(window[currentIndex] as real, windowSize));
      averageTime := Truncate(averageTime as real + HB.Ratio(time as real, windowSize));
      TruncateWhole(averageTime);
      lastAverageTime := averageTime as real;
      window[currentIndex] := time;
      SlotNext(n, windowSize);
      currentIndex := currentIndex + 1;
      if currentIndex == windowSize {
        currentIndex := 0;
      }
      forall j: nat | j < n && n + 1 <= j + windowSize ensures Slot(j, windowSize) != Slot(n, windowSize) {
        SlotsApart(j, n, windowSize);
      }
    }
  }

  /** The distance of an average from the true mean of the window. */
  ghost function Drift(average: real, intervals: seq<int>, window: nat): real
    requires intervals != [] && window > 0
  {
    Abs(average - HB.Mean(intervals, window))
  }

  /** A warm-up average is the true mean, truncated once. */
  lemma FirstDrift(intervals: seq<int>, window: nat)
    requires intervals != [] && window > 0
    ensures Drift(Truncate(HB.Mean(intervals, window)) as real, intervals, window) < 1.0
  {
    hide HB.Mean;
    TruncateClose(HB.Mean(intervals, window));
  }

  /** A steady update adds less than 2 to the drift. */
  lemma DriftGrows(average: real, intervals: seq<int>, window: nat, time: int)
    requires window > 0 && |intervals| >= window && average == Truncate(average) as real
    ensures var oldest := intervals[|intervals| - window];
      var next := SteadyStep(Truncate(average), oldest, time, window);
      Drift(next as real, intervals + [time], window) < Drift(average, intervals, window) + 2.0
  {
    hide HB.Mean;
    HB.MeanSlides(intervals, window, time);
    var oldest := intervals[|intervals| - window];
    var out, entering := HB.Ratio(oldest as real, window), HB.Ratio(time as real, window);
    var mid := Truncate(average - out);
    TruncateClose(average - out);
    TruncateClose(mid as real + entering);
  }

  // ---------------------------------------------------------------- amortised drift

  /** A whole number that an interval divided by the window rounds to, up or down. */
  ghost predicate Near(share: int, interval: int, window: nat)
    requires window > 0
  {
    -1.0 < share as real - HB.Ratio(interval as real, window) < 1.0
  }

  ghost predicate AllNear(shares: seq<int>, last: seq<int>, window: nat)
    requires window > 0
  {
    |shares| == |last| && forall k :: 0 <= k < |last| ==> Near(shares[k], last[k], window)
  }

  /** The average is within `m` of a sum of whole shares of the intervals in the
      window. An interval is rounded once entering and once leaving, and the two
      roundings differ by at most 1. */
  ghost predicate Shared(average: int, last: seq<int>, window: nat, m: nat)
    requires window > 0
  {
    exists shares :: AllNear(shares, last, window) && Sum(shares) - m <= average <= Sum(shares) + m
  }

  lemma RatioAdd(x: int, y: int, window: nat)
    requires window > 0
    ensures HB.Ratio((x + y) as real, window) == HB.Ratio(x as real, window) + HB.Ratio(y as real, window)
  {
  }

  lemma RatioZero(window: nat)
    requires window > 0
    ensures HB.Ratio(0 as real, window) == 0.0
  {
  }

  ghost predicate Rounds(r: int, x: real, up: bool) {
    if up then 0.0 <= r as real - x < 1.0 else -1.0 < r as real - x <= 0.0
  }

  /** The share of one more interval, between two roundings of the mean. */
  lemma NextShare(sum: int, interval: int, window: nat, r: int, up: bool) returns (before: int)
    requires window > 0 && Rounds(r, HB.Ratio((sum + interval) as real, window), up)
    ensures Rounds(before, HB.Ratio(sum as real, window), up) && Near(r - before, interval, window)
  {
    hide HB.Ratio;
    RatioAdd(sum, interval, window);
    var mean := HB.Ratio(sum as real, window);
    before := if up then -(-mean).Floor else mean.Floor;
  }

  /** A rounding of the mean, down or up, is a sum of shares. */
  lemma {:induction false} RoundedShares(last: seq<int>, window: nat, r: int, up: bool) returns (shares: seq<int>)
    requires window > 0 && Rounds(r, HB.Ratio(Sum(last) as real, window), up)
    ensures AllNear(shares, last, window) && Sum(shares) == r
  {
    hide HB.Ratio;
    hide Near;
    if last == [] {
      RatioZero(window);
      shares := [];
    } else {
      var n := |last| - 1;
      var before := NextShare(Sum(last[..n]), last[n], window, r, up);
      var rest := RoundedShares(last[..n], window, before, up);
      shares := rest + [r - before];
      HB.SumAppend(rest, r - before);
    }
  }

  /** The first truncated mean of a full window. */
  lemma FirstShares(intervals: seq<int>)
    requires intervals != []
    ensures Shared(Truncate(HB.Mean(intervals, |intervals|)), intervals, |intervals|, 0)
  {
    hide HB.Mean;
    hide HB.Ratio;
    hide Sum;
    HB.WarmMean(intervals, |intervals|);
    var mean := HB.Mean(intervals, |intervals|);
    var shares := RoundedShares(intervals, |intervals|, Truncate(mean), mean < 0.0);
  }

  /** Up to a full window the average is the true mean, truncated once. */
  lemma WarmDrift(intervals: seq<int>, window: nat)
    requires 0 < |intervals| <= window
    ensures var n, average := |intervals|, Truncate(HB.Mean(intervals, window));
      && Drift(average as real, intervals, window) < DriftBound(SteadyBeats(n, window), window) as real
      && Truncate(average as real) == average
      && (n >= window ==> Shared(average, intervals[n - window..], window, n - window))
  {
    hide HB.Mean;
    hide Drift;
    hide Shared;
    hide Truncate;
    FirstDrift(intervals, window);
    TruncateWhole(Truncate(HB.Mean(intervals, window)));
    if |intervals| == window {
      assert intervals[0..] == intervals;
      FirstShares(intervals);
    }
  }

  lemma TruncatedShares(average: int, interval: int, window: nat)
    requires window > 0
    ensures Near(average - Truncate(average as real - HB.Ratio(interval as real, window)), interval, window)
    ensures Near(Truncate(average as real + HB.Ratio(interval as real, window)) - average, interval, window)
  {
    hide Truncate;
    TruncateClose(average as real - HB.Ratio(interval as real, window));
    TruncateClose(average as real + HB.Ratio(interval as real, window));
  }

  /** A steady update moves the average at most one further from its shares. */
  lemma SharesSlide(average: int, last: seq<int>, window: nat, m: nat, time: int)
    requires window > 0 && last != [] && Shared(average, last, window, m)
    ensures Shared(SteadyStep(average, last[0], time, window), last[1..] + [time], window, m + 1)
  {
    hide Truncate;
    hide HB.Ratio;
    hide Sum;
    var shares :| AllNear(shares, last, window) && Sum(shares) - m <= average <= Sum(shares) + m;
    var mid := Truncate(average as real - HB.Ratio(last[0] as real, window));
    var next := Truncate(mid as real + HB.Ratio(time as real, window));
    TruncatedShares(average, last[0], window);
    TruncatedShares(mid, time, window);
    assert Near(shares[0], last[0], window);
    HB.SumHead(shares);
    HB.SumAppend(shares[1..], next - mid);
    assert AllNear(shares[1..] + [next - mid], last[1..] + [time], window);
  }

  /** Shares add up to within the window's size of the true mean. */
  lemma {:induction false} SharesClose(shares: seq<int>, last: seq<int>, window: nat)
    requires window > 0 && AllNear(shares, last, window)
    ensures var e := Sum(shares) as real - HB.Ratio(Sum(last) as real, window);
      if last == [] then e == 0.0 else -(|last| as real) < e < |last| as real
  {
    hide HB.Ratio;
    if last == [] {
      RatioZero(window);
    } else {
      var n := |last| - 1;
      assert Near(shares[n], last[n], window);
      SharesClose(shares[..n], last[..n], window);
      RatioAdd(Sum(last[..n]), last[n], window);
    }
  }

  /** So after `m` steady beats the drift is less than m and the window's size. */
  lemma SharedDrift(average: int, intervals: seq<int>, window: nat, m: nat)
    requires 0 < window <= |intervals| && Shared(average, intervals[|intervals| - window..], window, m)
    ensures Drift(average as real, intervals, window) < (m + window) as real
  {
    hide HB.Mean;
    hide HB.Ratio;
    hide Sum;
    hide AllNear;
    var last := intervals[|intervals| - window..];
    HB.FullMean(intervals, window);
    var shares :| AllNear(shares, last, window) && Sum(shares) - m <= average <= Sum(shares) + m;
    SharesClose(shares, last, window);
  }

  lemma SteadyDrift(average: real, intervals: seq<int>, window: nat, time: int)
    requires window > 0 && |intervals| >= window && average == Truncate(average) as real
    requires var m := |intervals| - window;
      && Drift(average, intervals, window) < DriftBound(m, window) as real
      && Shared(Truncate(average), intervals[m..], window, m)
    ensures var m, next := |intervals| - window, intervals + [time];
      var average' := SteadyStep(Truncate(average), intervals[m], time, window);
      && Drift(average' as real, next, window) < DriftBound(m + 1, window) as real
      && Shared(average', next[m + 1..], window, m + 1)
  {
    hide Drift;
    hide Shared;
    hide SteadyStep;
    var m, next := |intervals| - window, intervals + [time];
    DriftGrows(average, intervals, window, time);
    SharesSlide(Truncate(average), intervals[m..], window, m, time);
    assert next[m + 1..] == intervals[m..][1..] + [time];
    SharedDrift(SteadyStep(Truncate(average), intervals[m], time, window), next, window, m + 1);
  }

  // ---------------------------------------------------------------- the bound is nearly met

  /** The average after `m` steady beats on `intervals`. */
  ghost function RunAverage(intervals: seq<int>, window: nat, m: nat): int
    requires 0 < window && window + m <= |intervals|
  {
    if m == 0 then Truncate(HB.Mean(intervals[..window], window))
    else SteadyStep(RunAverage(intervals, window, m - 1), intervals[m - 1], intervals[window + m - 1], window)
  }

  /** A window of intervals that lose almost all when leaving, then intervals that
      lose almost all when entering. */
  ghost function LossyRun(q: nat, window: nat, m: nat): seq<int> {
    seq(window + m, i => if i < window then q * window + 1 else q * window + window - 1)
  }

  lemma LossyRatios(q: nat, window: nat)
    requires window >= 2
    ensures HB.Ratio((q * window + 1) as real, window) == q as real + 1.0 / window as real
    ensures HB.Ratio((q * window + window - 1) as real, window) == q as real + 1.0 - 1.0 / window as real
    ensures 0.0 < 1.0 / window as real <= 0.5
  {
    var x, y := q as real, window as real;
    assert (x * y + 1.0) / y == x + 1.0 / y;
    assert (x * y + y - 1.0) / y == x + 1.0 - 1.0 / y;
  }

  /** Each such beat takes 1 off the average. */
  lemma LossyStep(average: int, q: nat, window: nat, oldest: int)
    requires window >= 2 && average >= q + 1
    requires oldest == q * window + 1 || oldest == q * window + window - 1
    ensures SteadyStep(average, oldest, q * window + window - 1, window) == average - 1
  {
    hide HB.Ratio;
    LossyRatios(q, window);
    var small := 1.0 / window as real;
    var mid := average as real - HB.Ratio(oldest as real, window);
    assert (average - q - 1) as real <= mid < (average - q) as real;
    assert mid.Floor == average - q - 1;
    var end := (average - q - 1) as real + HB.Ratio((q * window + window - 1) as real, window);
    assert end.Floor == average - 1;
  }

  lemma {:induction false} ConstantSum(d: int, n: nat)
    ensures Sum(seq(n, _ => d)) == n * d
  {
    if n == 0 {
      assert seq(n, _ => d) == [];
    } else {
      ConstantSum(d, n - 1);
      assert seq(n, _ => d) == seq(n - 1, _ => d) + [d];
      HB.SumAppend(seq(n - 1, _ => d), d);
      NextMultiple(n - 1, d);
    }
  }

  lemma ConstantMean(intervals: seq<int>, d: int, window: nat)
    requires 0 < window <= |intervals| && forall i :: |intervals| - window <= i < |intervals| ==> intervals[i] == d
    ensures HB.Mean(intervals, window) == d as real
  {
    hide HB.Mean;
    hide Sum;
    HB.FullMean(intervals, window);
    assert intervals[|intervals| - window..] == seq(window, _ => d);
    ConstantSum(d, window);
    WholeRatio(window, d);
  }

  lemma WholeRatio(window: nat, d: int)
    requires window > 0
    ensures HB.Ratio((window * d) as real, window) == d as real
  {
    var x, y := d as real, window as real;
    assert (y * x) / y == x;
  }

  lemma Product(q: nat, window: nat, m: nat)
    requires window >= 2 && q >= m
    ensures q * window + 1 - m >= q + 1
  {
    MulGap(1, window, q);
    assert q * window >= 2 * q;
  }

  lemma {:induction false} LossyAverage(q: nat, window: nat, m: nat, k: nat)
    requires window >= 2 && q >= m >= k
    ensures RunAverage(LossyRun(q, window, m), window, k) == q * window + 1 - k
  {
    hide SteadyStep;
    var run := LossyRun(q, window, m);
    if k == 0 {
      ConstantMean(run[..window], q * window + 1, window);
      TruncateWhole(q * window + 1);
    } else {
      LossyAverage(q, window, m, k - 1);
      Product(q, window, k - 1);
      LossyStep(q * window + 1 - (k - 1), q, window, run[k - 1]);
    }
  }

  /** For every window of two or more and every m from its size on there is a run whose
      average is m + window - 2 away from the true mean after m steady beats: 2 short
      of the bound. */
  lemma DriftReached(q: nat, window: nat, m: nat)
    requires window >= 2 && q >= m >= window
    ensures Drift(RunAverage(LossyRun(q, window, m), window, m) as real, LossyRun(q, window, m), window)
         == (m + window - 2) as real
    ensures m + window == DriftBound(m, window)
  {
    hide HB.Mean;
    var run := LossyRun(q, window, m);
    LossyAverage(q, window, m, m);
    ConstantMean(run, q * window + window - 1, window);
  }
}

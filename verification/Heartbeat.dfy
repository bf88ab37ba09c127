/** The heartbeat producer (src/heartbeat-shared.c): the incremental window mean,
    the ring of records, the text log and the published index, each tied to the
    whole history of beats. */
module Heartbeat {
  import opened Arithmetic

  const NANO: real := 1000000000.0

  datatype Record = Record(beat: int, tag: int, timestamp: int,
                           globalRate: real, windowRate: real, instantRate: real)

  /** What one call of `heartbeat` is given: the tag, and the clock reading. */
  datatype Beat = Beat(tag: int, time: int)

  // ---------------------------------------------------------------- meaning of a history

  ghost predicate Ticking(h: seq<Beat>) {
    && (forall i, j :: 0 <= i < j < |h| ==> h[i].time < h[j].time)
    && (forall i :: 0 <= i < |h| ==> h[i].time >= 0)
  }

  function Min(x: nat, y: nat): nat {
    if x < y then x else y
  }

  /** The record beat `b` must leave: rates from the clock readings alone. The
      window rate is that of the last min(b, window) intervals. */
  ghost function RecordOf(h: seq<Beat>, b: nat, window: nat): Record
    requires b < |h| && Ticking(h) && window > 0
  {
    if b == 0 then Record(0, h[0].tag, h[0].time, 0.0, 0.0, 0.0)
    else Record(b, h[b].tag, h[b].time,
                GlobalRate(h, b), WindowRate(h, b, window), InstantRate(h, b))
  }

  /** A record that the producer with history `h` leaves. */
  ghost predicate RecordFrom(h: seq<Beat>, window: nat, record: Record)
    requires Ticking(h)
  {
    window > 0 && 0 <= record.beat < |h| && record == RecordOf(h, record.beat, window)
  }

  ghost function GlobalRate(h: seq<Beat>, b: nat): real
    requires 0 < b < |h| && Ticking(h)
  {
    (b + 1) as real * NANO / (h[b].time - h[0].time) as real
  }

  ghost function InstantRate(h: seq<Beat>, b: nat): real
    requires 0 < b < |h| && Ticking(h)
  {
    NANO / (h[b].time - h[b - 1].time) as real
  }

  ghost function WindowRate(h: seq<Beat>, b: nat, window: nat): real
    requires 0 < b < |h| && Ticking(h) && window > 0
  {
    var k := Min(b, window);
    k as real * NANO / (h[b].time - h[b - k].time) as real
  }

  ghost function Records(h: seq<Beat>, n: nat, window: nat): seq<Record>
    requires n <= |h| && Ticking(h) && window > 0
  {
    seq(n, b requires 0 <= b < n => RecordOf(h, b, window))
  }

  ghost function Intervals(h: seq<Beat>): seq<int> {
    seq(if h == [] then 0 else |h| - 1, j requires 0 <= j < |h| - 1 => h[j + 1].time - h[j].time)
  }

  function Ratio(total: real, count: nat): real
    requires count > 0
  {
    total / count as real
  }

  /** The naive mean over the last min(n, window) intervals. */
  ghost function Mean(intervals: seq<int>, window: nat): real
    requires intervals != [] && window > 0
  {
    var k := Min(|intervals|, window);
    Ratio(Sum(intervals[|intervals| - k..]) as real, k)
  }

  /** While warming up the window holds every interval. */
  lemma WarmMean(intervals: seq<int>, window: nat)
    requires 0 < |intervals| <= window
    ensures Mean(intervals, window) == Ratio(Sum(intervals) as real, |intervals|)
  {
    hide Ratio;
    hide Sum;
    assert intervals[0..] == intervals;
  }

  lemma {:induction false} SumHead(s: seq<int>)
    requires s != []
    ensures Sum(s) == s[0] + Sum(s[1..])
  {
    if |s| > 1 {
      SumHead(s[..|s| - 1]);
      assert s[..|s| - 1][1..] == s[1..][..|s| - 2];
    }
  }

  lemma SumEmpty()
    ensures Sum([]) == 0
  {
  }

  lemma SumAppend(s: seq<int>, x: int)
    ensures Sum(s + [x]) == Sum(s) + x
  {
    assert (s + [x])[..|s|] == s;
  }

  /** The sum of consecutive intervals is the time between their ends. */
  lemma {:induction false} Telescope(h: seq<Beat>, lo: nat, hi: nat)
    requires lo <= hi < |h|
    ensures Sum(Intervals(h)[lo..hi]) == h[hi].time - h[lo].time
  {
    hide Sum;
    if lo == hi {
      SumEmpty();
      assert Intervals(h)[lo..hi] == [];
    } else {
      Telescope(h, lo, hi - 1);
      assert Intervals(h)[lo..hi] == Intervals(h)[lo..hi - 1] + [h[hi].time - h[hi - 1].time];
      SumAppend(Intervals(h)[lo..hi - 1], h[hi].time - h[hi - 1].time);
    }
  }

  /** A count of events over a time in nanoseconds, as the code computes rates. */
  function PerSecond(count: real, time: real): real
    requires time > 0.0
  {
    count / time * NANO
  }

  /** The time the last min(n, window) intervals took, over their number. */
  ghost function SpanMean(h: seq<Beat>, window: nat): real
    requires |h| >= 2 && window > 0
  {
    var n := |h| - 1;
    var k := Min(n, window);
    Ratio((h[n].time - h[n - k].time) as real, k)
  }

  lemma MeanValue(h: seq<Beat>, window: nat)
    requires |h| >= 2 && Ticking(h) && window > 0
    ensures Mean(Intervals(h), window) == SpanMean(h, window)
  {
    hide Mean;
    hide Ticking;
    hide Ratio;
    hide Sum;
    hide Intervals;
    var n := |h| - 1;
    var k := Min(n, window);
    IntervalCount(h);
    MeanOfTail(Intervals(h), window);
    Telescope(h, n - k, n);
  }

  lemma IntervalCount(h: seq<Beat>)
    requires h != []
    ensures |Intervals(h)| == |h| - 1
  {
  }

  lemma MeanOfTail(intervals: seq<int>, window: nat)
    requires intervals != [] && window > 0
    ensures var n, k := |intervals|, Min(|intervals|, window);
      Mean(intervals, window) == Ratio(Sum(intervals[n - k..n]) as real, k)
  {
    hide Ratio;
    hide Sum;
    var n := |intervals|;
    assert intervals[n - Min(n, window)..] == intervals[n - Min(n, window)..n];
  }

  /** The naive mean is the reciprocal of the window rate. */
  lemma MeanIsWindowRate(h: seq<Beat>, window: nat)
    requires |h| >= 2 && Ticking(h) && window > 0
    ensures Mean(Intervals(h), window) > 0.0
    ensures PerSecond(1.0, Mean(Intervals(h), window)) == WindowRate(h, |h| - 1, window)
  {
    hide Mean;
    hide PerSecond;
    hide Ratio;
    hide Intervals;
    MeanValue(h, window);
    var n := |h| - 1;
    var k := Min(n, window);
    Reciprocal(h[n].time - h[n - k].time, k);
  }

  lemma Reciprocal(t: int, k: nat)
    requires t > 0 && k > 0
    ensures Ratio(t as real, k) > 0.0
    ensures PerSecond(1.0, Ratio(t as real, k)) == k as real * NANO / t as real
  {
    var x, y := t as real, k as real;
    Inverse(x, y);
    assert 1.0 / (x / y) * NANO == y / x * NANO;
  }

  lemma Inverse(x: real, y: real)
    requires x > 0.0 && y > 0.0
    ensures x / y > 0.0 && 1.0 / (x / y) == y / x
  {
    assert (x / y) * (y / x) == 1.0;
  }

  /** After the first round of the window item `j` is in slot `j`. */
  lemma FirstRound(items: seq<int>)
    requires items != []
    ensures Slot(|items|, |items|) == 0
    ensures forall j: nat :: j < |items| ==> items[Slot(j, |items|)] == items[j]
  {
    hide Slot;
    SlotRepeats(0, |items|);
    SlotSmall(0, |items|);
    forall j: nat | j < |items| ensures Slot(j, |items|) == j {
      SlotSmall(j, |items|);
    }
  }

  /** One steady update: drop the oldest interval, add the newest. */
  lemma MeanSlides(intervals: seq<int>, window: nat, time: int)
    requires window > 0 && |intervals| >= window
    ensures Mean(intervals + [time], window)
         == Mean(intervals, window) - intervals[|intervals| - window] as real / window as real
            + time as real / window as real
  {
    hide Sum;
    hide Mean;
    hide Ratio;
    FullMean(intervals, window);
    FullMean(intervals + [time], window);
    SumSlides(intervals, window, time);
    DistributeRatio(Sum(intervals[|intervals| - window..]), intervals[|intervals| - window], time, window);
  }

  lemma FullMean(intervals: seq<int>, window: nat)
    requires 0 < window <= |intervals|
    ensures Mean(intervals, window) == Ratio(Sum(intervals[|intervals| - window..]) as real, window)
  {
    hide Ratio;
    hide Sum;
  }

  /** The sum over the last `window` intervals, one interval later. */
  lemma SumSlides(intervals: seq<int>, window: nat, time: int)
    requires 0 < window <= |intervals|
    ensures var n, next := |intervals|, intervals + [time];
      Sum(next[|next| - window..]) == Sum(intervals[n - window..]) - intervals[n - window] + time
  {
    hide Sum;
    var next, last := intervals + [time], intervals[|intervals| - window..];
    assert next[|next| - window..] == last[1..] + [time];
    SumHead(last);
    SumAppend(last[1..], time);
  }

  lemma DistributeRatio(s: int, x: int, y: int, window: nat)
    requires window > 0
    ensures Ratio((s - x + y) as real, window)
         == Ratio(s as real, window) - x as real / window as real + y as real / window as real
  {
    Distribute(s, x, y, window);
  }

  lemma Distribute(s: int, x: int, y: int, window: nat)
    requires window > 0
    ensures (s - x + y) as real / window as real
         == s as real / window as real - x as real / window as real + y as real / window as real
  {
  }

  // ---------------------------------------------------------------- what a rate is worth

  lemma Quotient(x: real, y: real)
    requires y > 0.0
    ensures x / y * y == x
  {
  }

  /** What a record says of beat `b`: its number, tag and reading, and rates in beats per
      second of clock readings in nanoseconds. The window rate times the span of the last
      min(b, window) intervals is their number, the instant rate times the last interval
      is 1, and the global rate times all the time since the first beat is b + 1. */
  ghost predicate Reports(r: Record, h: seq<Beat>, b: nat, window: nat)
    requires 0 < b < |h|
  {
    var k := if b < window then b else window;
    && r.beat == b && r.tag == h[b].tag && r.timestamp == h[b].time
    && r.windowRate * (h[b].time - h[b - k].time) as real == k as real * 1000000000.0
    && r.instantRate * (h[b].time - h[b - 1].time) as real == 1000000000.0
    && r.globalRate * (h[b].time - h[0].time) as real == (b + 1) as real * 1000000000.0
  }

  lemma RecordMeans(h: seq<Beat>, b: nat, window: nat)
    requires 0 < b < |h| && Ticking(h) && window > 0
    ensures Reports(RecordOf(h, b, window), h, b, window)
  {
    var k := Min(b, window);
    Quotient(k as real * NANO, (h[b].time - h[b - k].time) as real);
    Quotient(NANO, (h[b].time - h[b - 1].time) as real);
    Quotient((b + 1) as real * NANO, (h[b].time - h[0].time) as real);
  }

  lemma {:induction false} SteadySpan(h: seq<Beat>, lo: nat, hi: nat, period: nat)
    requires lo <= hi < |h| && forall i :: 0 < i < |h| ==> h[i].time - h[i - 1].time == period
    ensures h[hi].time - h[lo].time == (hi - lo) * period
  {
    if lo < hi {
      SteadySpan(h, lo, hi - 1, period);
      NextMultiple(hi - 1 - lo, period);
    }
  }

  lemma SteadyRate(n: real, k: nat, period: nat)
    requires k > 0 && period > 0
    ensures (k * period) as real > 0.0
    ensures n * NANO / (k * period) as real == n / k as real * (1000000000.0 / period as real)
  {
    var x, y := k as real, period as real;
    assert (k * period) as real == x * y;
    Fractions(n, NANO, x, y);
  }

  lemma Fractions(n: real, c: real, x: real, y: real)
    requires x > 0.0 && y > 0.0
    ensures x * y > 0.0 && n * c / (x * y) == n / x * (c / y)
  {
    assert (n / x * (c / y)) * (x * y) == (n / x * x) * (c / y * y);
    Quotient(n, x);
    Quotient(c, y);
  }

  /** Beats a steady `period` nanoseconds apart: both local rates are 1000000000 / period,
      and the global rate is (b + 1) / b times that. */
  lemma SteadyRates(h: seq<Beat>, b: nat, window: nat, period: nat)
    requires 0 < b < |h| && Ticking(h) && window > 0 && period > 0
    requires forall i :: 0 < i < |h| ==> h[i].time - h[i - 1].time == period
    ensures var r := RecordOf(h, b, window);
      && r.windowRate == r.instantRate == 1000000000.0 / period as real
      && r.globalRate == (b + 1) as real / b as real * (1000000000.0 / period as real)
  {
    hide Ticking;
    hide GlobalRate;
    hide WindowRate;
    hide InstantRate;
    SteadyWindow(h, b, window, period);
    SteadyGlobal(h, b, period);
  }

  lemma SteadyWindow(h: seq<Beat>, b: nat, window: nat, period: nat)
    requires 0 < b < |h| && Ticking(h) && window > 0 && period > 0
    requires forall i :: 0 < i < |h| ==> h[i].time - h[i - 1].time == period
    ensures WindowRate(h, b, window) == InstantRate(h, b) == 1000000000.0 / period as real
  {
    hide Ticking;
    var k := Min(b, window);
    SteadySpan(h, b - k, b, period);
    SteadyRate(k as real, k, period);
    One(k);
  }

  lemma One(k: nat)
    requires k > 0
    ensures k as real / k as real == 1.0
  {
  }

  lemma SteadyGlobal(h: seq<Beat>, b: nat, period: nat)
    requires 0 < b < |h| && Ticking(h) && period > 0
    requires forall i :: 0 < i < |h| ==> h[i].time - h[i - 1].time == period
    ensures GlobalRate(h, b) == (b + 1) as real / b as real * (1000000000.0 / period as real)
  {
    hide Ticking;
    SteadySpan(h, 0, b, period);
    SteadyRate((b + 1) as real, b, period);
  }

  lemma RecordPrefix(h: seq<Beat>, x: Beat, b: nat, window: nat)
    requires b < |h| && window > 0 && Ticking(h) && Ticking(h + [x])
    ensures RecordOf(h + [x], b, window) == RecordOf(h, b, window)
  {
  }

  /** The factored rates the code computes are those of the record. */
  lemma FactoredRates(h: seq<Beat>, b: nat)
    requires 0 < b < |h| && Ticking(h)
    ensures PerSecond((b + 1) as real, (h[b].time - h[0].time) as real) == GlobalRate(h, b)
    ensures PerSecond(1.0, (h[b].time - h[b - 1].time) as real) == InstantRate(h, b)
  {
    Factored(b + 1, h[b].time - h[0].time);
    Factored(1, h[b].time - h[b - 1].time);
  }

  lemma Factored(n: nat, total: int)
    requires total > 0
    ensures PerSecond(n as real, total as real) == n as real * NANO / total as real
  {
  }

  lemma TickAppend(h: seq<Beat>, x: Beat)
    requires h != [] && Ticking(h) && x.time > h[|h| - 1].time
    ensures Ticking(h + [x]) && x.time > h[0].time
  {
    var last := h[|h| - 1].time;
    assert forall i :: 0 <= i < |h| ==> h[i].time <= last;
    assert forall i :: 0 <= i < |h| ==> (h + [x])[i] == h[i];
  }

  lemma IntervalsAppend(h: seq<Beat>, x: Beat)
    requires h != []
    ensures Intervals(h + [x]) == Intervals(h) + [x.time - h[|h| - 1].time]
  {
  }

  lemma FirstRecord(x: Beat, window: nat)
    requires window > 0 && x.time >= 0
    ensures [] + [x] == [x] && Ticking([x]) && Intervals([x]) == []
    ensures RecordOf([x], 0, window) == Record(0, x.tag, x.time, 0.0, 0.0, 0.0)
  {
  }

  /** What a beat after the first must compute, from the incremental mean. */
  lemma LaterRecord(h: seq<Beat>, b: nat, window: nat)
    requires window > 0 && Ticking(h) && |h| >= 2 && b == |h| - 1
    requires Mean(Intervals(h), window) > 0.0
    ensures RecordOf(h, b, window) ==
      Record(b, h[b].tag, h[b].time,
             PerSecond((b + 1) as real, (h[b].time - h[0].time) as real),
             PerSecond(1.0, Mean(Intervals(h), window)),
             PerSecond(1.0, (h[b].time - h[b - 1].time) as real))
  {
    hide Mean;
    hide WindowRate;
    hide GlobalRate;
    hide InstantRate;
    hide PerSecond;
    MeanIsWindowRate(h, window);
    FactoredRates(h, b);
  }

  /** `ring` holds the records of the beats before `n` that it has room for. */
  ghost predicate RingOf(ring: seq<Record>, h: seq<Beat>, n: nat, window: nat)
    requires n <= |h| && Ticking(h) && window > 0
  {
    |ring| > 0 && forall b: nat :: b < n <= b + |ring| ==> ring[Slot(b, |ring|)] == RecordOf(h, b, window)
  }

  lemma RingAppend(ring: seq<Record>, h: seq<Beat>, x: Beat, window: nat, record: Record)
    requires window > 0 && Ticking(h) && Ticking(h + [x]) && RingOf(ring, h, |h|, window)
    requires record == RecordOf(h + [x], |h|, window)
    ensures RingOf(ring[Slot(|h|, |ring|) := record], h + [x], |h| + 1, window)
  {
    forall b: nat | b < |h| && |h| + 1 <= b + |ring|
      ensures Slot(b, |ring|) != Slot(|h|, |ring|) && RecordOf(h + [x], b, window) == RecordOf(h, b, window)
    {
      SlotsApart(b, |h|, |ring|);
      RecordPrefix(h, x, b, window);
    }
  }

  /** The slots below the write index continue the flushed rounds without a gap. */
  lemma RoundFollows(ring: seq<Record>, h: seq<Beat>, n: nat, window: nat)
    requires window > 0 && Ticking(h) && n <= |h| && RingOf(ring, h, n, window)
    ensures n - Slot(n, |ring|) >= 0
    ensures Records(h, n - Slot(n, |ring|), window) + ring[..Slot(n, |ring|)] == Records(h, n, window)
  {
    hide RecordOf;
    SlotInRound(n, 0, |ring|);
    var k := Slot(n, |ring|);
    forall i: nat | i < k ensures ring[i] == RecordOf(h, n - k + i, window) {
      SlotInRound(n, i, |ring|);
    }
  }

  /** Slot `i` of a ring about to be flushed holds the i-th beat of the last round. */
  lemma FullSlot(ring: seq<Record>, h: seq<Beat>, n: nat, window: nat, i: nat)
    requires window > 0 && Ticking(h) && n < |h| && i < |ring|
    requires Slot(n, |ring|) + 1 == |ring| && RingOf(ring, h, n + 1, window)
    ensures n + 1 >= |ring| && ring[i] == RecordOf(h, n + 1 - |ring| + i, window)
  {
    hide RecordOf;
    hide Slot;
    hide Ticking;
    SlotInRound(n, i, |ring|);
  }

  /** A ring about to be flushed is the last round. */
  lemma FullRing(ring: seq<Record>, h: seq<Beat>, n: nat, window: nat)
    requires window > 0 && Ticking(h) && n < |h|
    requires |ring| > 0 && Slot(n, |ring|) + 1 == |ring| && RingOf(ring, h, n + 1, window)
    ensures n + 1 >= |ring| && Records(h, n + 1 - |ring|, window) + ring == Records(h, n + 1, window)
  {
    hide RecordOf;
    hide RingOf;
    hide Slot;
    hide Ticking;
    FullSlot(ring, h, n, window, 0);
    forall i: nat | i < |ring| ensures ring[i] == RecordOf(h, n + 1 - |ring| + i, window) {
      FullSlot(ring, h, n, window, i);
    }
  }

  lemma PreviousSlot(ring: seq<Record>, h: seq<Beat>, n: nat, window: nat, i: nat)
    requires window > 0 && Ticking(h) && n <= |h| && 0 < |ring| <= n && RingOf(ring, h, n, window)
    requires Slot(n, |ring|) <= i < |ring|
    ensures n - |ring| - Slot(n, |ring|) >= 0
    ensures ring[i] == RecordOf(h, n - |ring| - Slot(n, |ring|) + i, window)
  {
    hide RecordOf;
    hide Slot;
    hide Ticking;
    SlotRepeats(n - |ring|, |ring|);
    SlotInRound(n - |ring|, i, |ring|);
  }

  /** The slots from the write index on still hold the previous round. */
  lemma PreviousRound(ring: seq<Record>, h: seq<Beat>, n: nat, window: nat)
    requires window > 0 && Ticking(h) && n <= |h| && 0 < |ring| <= n && RingOf(ring, h, n, window)
    ensures ring[Slot(n, |ring|)..] == Records(h, n, window)[n - |ring|..n - Slot(n, |ring|)]
  {
    hide RecordOf;
    hide Slot;
    hide Ticking;
    hide RingOf;
    var k := Slot(n, |ring|);
    forall i: nat | k <= i < |ring| ensures ring[i] == Records(h, n, window)[n - |ring| - k + i] {
      PreviousSlot(ring, h, n, window, i);
    }
  }

  /** The slots rotated at the write index are the last beats, oldest first. */
  lemma RingRotates(ring: seq<Record>, h: seq<Beat>, n: nat, window: nat)
    requires window > 0 && Ticking(h) && n <= |h| && 0 < |ring| <= n && RingOf(ring, h, n, window)
    ensures ring[Slot(n, |ring|)..] + ring[..Slot(n, |ring|)] == Records(h, n, window)[n - |ring|..]
  {
    hide RingOf;
    hide Slot;
    hide RecordOf;
    PreviousRound(ring, h, n, window);
    RoundFollows(ring, h, n, window);
    var k := Slot(n, |ring|);
    assert ring[..k] == Records(h, n, window)[n - k..];
  }

  lemma RecordsPrefix(h: seq<Beat>, x: Beat, n: nat, window: nat)
    requires n <= |h| && window > 0 && Ticking(h) && Ticking(h + [x])
    ensures Records(h + [x], n, window) == Records(h, n, window)
  {
    forall b: nat | b < n ensures RecordOf(h + [x], b, window) == RecordOf(h, b, window) {
      RecordPrefix(h, x, b, window);
    }
  }

  // ---------------------------------------------------------------- the producer

  class Producer {
    // heartbeat_t
    var firstTimestamp: int
    var lastTimestamp: int
    const window: array<int>
    var currentIndex: nat
    var steadyState: bool
    var lastAverageTime: real
    const log: array<Record>
    const logging: bool
    var text: seq<Record>
    // HB_global_state_t
    const windowSize: nat
    const bufferDepth: nat
    var counter: nat
    var bufferIndex: nat
    var readIndex: nat
    var valid: bool

    ghost var history: seq<Beat>

    ghost predicate WindowHolds(intervals: seq<int>)
      reads this, window
    {
      var n := |intervals|;
      && windowSize > 0 && window.Length == windowSize
      && (n < windowSize ==> !steadyState && currentIndex == n && window[..n] == intervals)
      && (n >= windowSize ==> steadyState && currentIndex == Slot(n, windowSize))
      && (n >= windowSize ==> forall j: nat :: j < n <= j + windowSize ==> window[Slot(j, windowSize)] == intervals[j])
      && (n > 0 ==> lastAverageTime == Mean(intervals, windowSize))
    }

    ghost predicate RingHolds()
      reads this, log
      requires Ticking(history) && windowSize > 0
    {
      var n := |history|;
      && bufferDepth >= 2 && log.Length == bufferDepth
      && counter == n && valid == (n > 0)
      && bufferIndex == Slot(n, bufferDepth)
      && readIndex == (if n == 0 then 0 else Slot(n - 1, bufferDepth))
      && RingOf(log[..], history, n, windowSize)
      && bufferIndex <= n
      && text == if logging then Records(history, n - bufferIndex, windowSize) else []
    }

    ghost predicate Valid()
      reads this, window, log
    {
      && Ticking(history)
      && firstTimestamp == (if history == [] then -1 else history[0].time)
      && lastTimestamp == (if history == [] then -1 else history[|history| - 1].time)
      && WindowHolds(Intervals(history))
      && RingHolds()
    }

    constructor Init(windowSize: nat, bufferDepth: nat, logging: bool)
      requires windowSize >= 1 && bufferDepth >= 2
      ensures Valid() && fresh(window) && fresh(log) && history == []
      ensures this.windowSize == windowSize && this.bufferDepth == bufferDepth && this.logging == logging
    {
      this.logging := logging;
      this.text := [];
      log := new Record[bufferDepth](_ => Record(0, 0, 0, 0.0, 0.0, 0.0));
      firstTimestamp, lastTimestamp := -1, -1;
      this.windowSize := windowSize;
      window := new int[windowSize](_ => 0);
      currentIndex := 0;
      lastAverageTime := 0.0;
      counter, bufferIndex, readIndex := 0, 0, 0;
      this.bufferDepth := bufferDepth;
      steadyState := false;
      valid := false;
      history := [];
    }

    /** `hb_window_average`: recompute while warming up, then slide. */
    method WindowAverage(time: int, ghost intervals: seq<int>) returns (fps: real)
      requires WindowHolds(intervals)
      requires Mean(intervals + [time], windowSize) > 0.0
      modifies window, `currentIndex, `steadyState, `lastAverageTime
      ensures WindowHolds(intervals + [time])
      ensures fps == PerSecond(1.0, Mean(intervals + [time], windowSize))
    {
      var averageTime: real;
      if !steadyState {
        averageTime := WarmUp(time, intervals);
      } else {
        averageTime := Slide(time, intervals);
      }
      fps := PerSecond(1.0, averageTime);
    }

    method WarmUp(time: int, ghost intervals: seq<int>) returns (averageTime: real)
      requires WindowHolds(intervals) && !steadyState
      modifies window, `currentIndex, `steadyState, `lastAverageTime
      ensures WindowHolds(intervals + [time])
      ensures averageTime == Mean(intervals + [time], windowSize)
    {
      hide Ratio;
      hide Slot;
      hide Sum;
      hide Mean;
      ghost var next := intervals + [time];
      WarmMean(next, windowSize);
      window[currentIndex] := time;
      assert window[..currentIndex + 1] == next;
      averageTime := SumWindow(currentIndex + 1);
      averageTime := Ratio(averageTime, currentIndex + 1);
      lastAverageTime := averageTime;
      currentIndex := currentIndex + 1;
      if currentIndex == windowSize {
        currentIndex := 0;
        steadyState := true;
        FirstRound(window[..windowSize]);
      }
    }

    /** The accumulation loop of the warm-up branch. */
    method SumWindow(count: nat) returns (total: real)
      requires count <= window.Length
      ensures total == Sum(window[..count]) as real
    {
      total := 0.0;
      for i := 0 to count
        invariant total == Sum(window[..i]) as real
      {
        assert window[..i + 1][..i] == window[..i];
        total := total + window[i] as real;
      }
    }

    method Slide(time: int, ghost intervals: seq<int>) returns (averageTime: real)
      requires WindowHolds(intervals) && steadyState
      modifies window, `currentIndex, `lastAverageTime
      ensures WindowHolds(intervals + [time])
      ensures averageTime == Mean(intervals + [time], windowSize)
    {
      hide Mean;
      hide Slot;
      ghost var n, next := |intervals|, intervals + [time];
      MeanSlides(intervals, windowSize, time);
      SlotRepeats(n - windowSize, windowSize);
      averageTime := lastAverageTime - window[currentIndex] as real / windowSize as real;
      averageTime := averageTime + time as real / windowSize as real;
      lastAverageTime := averageTime;
      window[currentIndex] := time;
      SlotNext(n, windowSize);
      currentIndex := currentIndex + 1;
      if currentIndex == windowSize {
        currentIndex := 0;
      }
      forall j: nat | j < n && n + 1 <= j + windowSize ensures Slot(j, windowSize) != Slot(n, windowSize) {
        SlotsApart(j, n, windowSize);
      }
    }

    /** `hb_flush_buffer`: append the whole ring to the text log. */
    method FlushBuffer()
      requires log.Length == bufferDepth && logging
      modifies `text
      ensures text == old(text) + log[..]
    {
      for i := 0 to bufferDepth
        invariant text == old(text) + log[..i]
      {
        text := text + [log[i]];
        assert log[..i + 1] == log[..i] + [log[i]];
      }
      assert log[..bufferDepth] == log[..];
    }

    /** `heartbeat`, with the clock reading as a parameter. */
    method Heartbeat(tag: int, time: int)
      requires Valid() && time > lastTimestamp
      modifies this, window, log
      ensures Valid()
      ensures history == old(history) + [Beat(tag, time)]
    {
      hide RecordOf;
      hide Mean;
      hide Slot;
      hide RingOf;
      hide Records;
      var oldLastTime := lastTimestamp;
      lastTimestamp := time;
      if firstTimestamp == -1 {
        FirstBeat(tag, time);
      } else {
        LaterBeat(tag, time, oldLastTime);
      }
    }

    method FirstBeat(tag: int, time: int)
      requires history == [] && WindowHolds([]) && RingHolds() && time >= 0
      modifies this, window, log
      ensures Valid() && history == [Beat(tag, time)]
    {
      hide RecordOf;
      hide Mean;
      hide Slot;
      hide Ticking;
      hide Intervals;
      hide RingOf;
      ghost var x, ring := Beat(tag, time), log[..];
      history := [x];
      firstTimestamp := time;
      lastTimestamp := time;
      window[0] := 0;
      log[0] := Record(counter, tag, time, 0.0, 0.0, 0.0);
      counter := counter + 1;
      bufferIndex := bufferIndex + 1;
      valid := true;
      FirstRecord(x, windowSize);
      assert window[..0] == [];
      RingAppend(ring, [], x, windowSize, log[0]);
      SlotSmall(0, bufferDepth);
      SlotSmall(1, bufferDepth);
      assert log[..] == ring[0 := log[0]];
    }

    method LaterBeat(tag: int, time: int, oldLastTime: int)
      requires history != [] && Ticking(history) && WindowHolds(Intervals(history)) && RingHolds()
      requires firstTimestamp == history[0].time && oldLastTime == history[|history| - 1].time
      requires time > oldLastTime && lastTimestamp == time
      modifies this, window, log
      ensures Valid() && history == old(history) + [Beat(tag, time)]
    {
      hide RecordOf;
      hide Mean;
      hide Slot;
      hide RingOf;
      hide PerSecond;
      hide Records;
      hide Ticking;
      hide Intervals;
      ghost var was, n, x, ring := history, |history|, Beat(tag, time), log[..];
      history := was + [x];
      TickAppend(was, x);
      IntervalsAppend(was, x);
      MeanIsWindowRate(history, windowSize);
      LaterRecord(history, n, windowSize);
      RecordsPrefix(was, x, n - bufferIndex, windowSize);
      var index := bufferIndex;
      var windowHeartrate := WindowAverage(time - oldLastTime, Intervals(was));
      var globalHeartrate := PerSecond((counter + 1) as real, (time - firstTimestamp) as real);
      var instantHeartrate := PerSecond(1.0, (time - oldLastTime) as real);
      log[index] := Record(counter, tag, time, globalHeartrate, windowHeartrate, instantHeartrate);
      RingAppend(ring, was, x, windowSize, log[index]);
      assert log[..] == ring[index := log[index]];
      Advance();
    }

    /** The end of `heartbeat`: step both indices, flush a full ring, wrap. */
    method Advance()
      requires windowSize > 0 && bufferDepth >= 2 && log.Length == bufferDepth && Ticking(history)
      requires |history| >= 2 && counter == |history| - 1 && valid
      requires bufferIndex == Slot(counter, bufferDepth) && readIndex == Slot(counter - 1, bufferDepth)
      requires RingOf(log[..], history, |history|, windowSize) && bufferIndex <= counter
      requires text == if logging then Records(history, counter - bufferIndex, windowSize) else []
      modifies `counter, `bufferIndex, `readIndex, `text
      ensures RingHolds()
    {
      hide RecordOf;
      hide Records;
      hide Slot;
      hide RingOf;
      ghost var n := counter;
      SlotNext(n, bufferDepth);
      SlotNext(n - 1, bufferDepth);
      bufferIndex := bufferIndex + 1;
      counter := counter + 1;
      readIndex := readIndex + 1;
      WrapTest(bufferIndex, bufferDepth);
      WrapTest(readIndex, bufferDepth);
      if bufferIndex % bufferDepth == 0 {
        if logging {
          FullRing(log[..], history, n, windowSize);
          FlushBuffer();
        }
        bufferIndex := 0;
      }
      if readIndex % bufferDepth == 0 {
        readIndex := 0;
      }
    }

    /** After any run of two or more beats the incremental average is the naive mean
        of the last min(n - 1, window) intervals, which is the time they took over
        their number. */
    lemma AverageAgrees()
      requires Valid() && |history| >= 2
      ensures lastAverageTime == Mean(Intervals(history), windowSize) == SpanMean(history, windowSize)
    {
      hide Mean;
      hide SpanMean;
      hide RingHolds;
      hide Ticking;
      MeanValue(history, windowSize);
    }

    /** The published record is the one of the last beat. */
    lemma PublishedRecord()
      requires Valid() && history != []
      ensures readIndex < log.Length
      ensures log[readIndex] == RecordOf(history, |history| - 1, windowSize)
    {
      hide RecordOf;
      hide Records;
      assert log[..][readIndex] == RecordOf(history, |history| - 1, windowSize);
    }

    lemma Sized()
      requires Valid()
      ensures windowSize > 0 && Ticking(history)
    {
    }

    /** The published record, read as rates per second. */
    lemma PublishedRates()
      requires Valid() && |history| >= 2
      ensures readIndex < log.Length && Reports(log[readIndex], history, |history| - 1, windowSize)
    {
      hide Reports;
      hide RecordOf;
      hide Valid;
      Sized();
      PublishedRecord();
      RecordMeans(history, |history| - 1, windowSize);
    }

    /** The log and the unflushed slots are the whole history, each beat once. */
    lemma Conservation()
      requires Valid() && logging
      ensures bufferIndex <= log.Length
      ensures text + log[..bufferIndex] == Records(history, |history|, windowSize)
    {
      hide RecordOf;
      hide Records;
      hide Slot;
      hide RingOf;
      RoundFollows(log[..], history, |history|, windowSize);
      assert log[..][..bufferIndex] == log[..bufferIndex];
    }

    /** Rotated at the write index, the ring is the last min(n, depth) beats,
        oldest first. */
    lemma Rotation()
      requires Valid()
      ensures bufferIndex <= log.Length
      ensures |history| >= bufferDepth ==>
        log[bufferIndex..] + log[..bufferIndex]
          == Records(history, |history|, windowSize)[|history| - bufferDepth..]
      ensures |history| < bufferDepth ==> log[..bufferIndex] == Records(history, |history|, windowSize)
    {
      var n := |history|;
      if n >= bufferDepth {
        RingRotates(log[..], history, n, windowSize);
        assert log[..][bufferIndex..] == log[bufferIndex..];
      } else {
        SlotSmall(n, bufferDepth);
        RoundFollows(log[..], history, n, windowSize);
      }
      assert log[..][..bufferIndex] == log[..bufferIndex];
    }

    /** `hb_get_current`: the record at the published index, field by field. */
    method GetCurrent() returns (record: Record)
      requires Valid() && history != []
      ensures record == RecordOf(history, |history| - 1, windowSize)
    {
      PublishedRecord();
      record := Record(log[readIndex].beat, log[readIndex].tag, log[readIndex].timestamp,
                       log[readIndex].globalRate, log[readIndex].windowRate, log[readIndex].instantRate);
    }
  }
}

/** What `step_heuristics` (src/combined.c) does to the core count and the
    frequency index of each core: a saturating counter in disguise. */
module StepDial {
  import opened Arithmetic
  import opened MachineStates
  import opened StateTable

  datatype Report = TooLow | TooHigh | InBand

  /** The active cores, and for every core its index into the frequency list
      (0 is the highest frequency). */
  datatype Dial = Dial(cores: int, indices: seq<int>)

  ghost predicate InRange(d: Dial, coreCount: nat, freqCount: nat) {
    && 1 <= d.cores <= coreCount == |d.indices|
    && forall c :: 0 <= c < coreCount ==> 0 <= d.indices[c] < freqCount
  }

  /** Every core below the last one is at the top frequency. */
  ghost predicate LowerAtTop(d: Dial) {
    forall c :: 0 <= c < d.cores - 1 && c < |d.indices| ==> d.indices[c] == 0
  }

  /** One call: step the last core's frequency, or add or remove a core at the end
      of its range. */
  function Turn(d: Dial, report: Report, coreCount: nat, freqCount: nat): (next: Dial)
    requires 1 <= d.cores <= coreCount == |d.indices|
    ensures 1 <= next.cores <= coreCount == |next.indices|
  {
    var last := d.cores - 1;
    match report
    case TooLow =>
      if d.indices[last] > 0 then d.(indices := d.indices[last := d.indices[last] - 1])
      else if last < coreCount - 1 then Dial(d.cores + 1, d.indices[last + 1 := freqCount - 1])
      else d
    case TooHigh =>
      if d.indices[last] < freqCount - 1 then d.(indices := d.indices[last := d.indices[last] + 1])
      else if last > 0 then d.(cores := d.cores - 1)
      else d
    case InBand => d
  }

  /** last_core * F + (F - 1 - cur_index[last_core]) */
  function Position(d: Dial, freqCount: nat): int
    requires 1 <= d.cores <= |d.indices|
  {
    (d.cores - 1) * freqCount + (freqCount - 1 - d.indices[d.cores - 1])
  }

  function Count(position: int, report: Report, top: int): int {
    match report
    case TooLow => if position < top then position + 1 else position
    case TooHigh => if position > 0 then position - 1 else position
    case InBand => position
  }

  lemma PositionInRange(d: Dial, coreCount: nat, freqCount: nat)
    requires InRange(d, coreCount, freqCount)
    ensures 0 <= Position(d, freqCount) <= coreCount * freqCount - 1
    ensures Position(d, freqCount) == 0 <==> d.cores == 1 && d.indices[0] == freqCount - 1
    ensures Position(d, freqCount) == coreCount * freqCount - 1 <==>
      d.cores == coreCount && d.indices[coreCount - 1] == 0
  {
    MulGap(d.cores - 1, coreCount - 1, freqCount);
    MulGap(0, d.cores - 1, freqCount);
    NextMultiple(coreCount - 1, freqCount);
  }

  /** A core is removed and the one before it is below the top frequency. */
  predicate DropsToLowered(d: Dial, report: Report, freqCount: nat)
    requires 1 <= d.cores <= |d.indices|
  {
    report == TooHigh && d.cores > 1 && d.indices[d.cores - 1] == freqCount - 1 && d.indices[d.cores - 2] != 0
  }

  /** From any dial whatever, one call moves the position like a counter clipped to
      0 .. C*F-1, except exactly when it drops back to a core that was left below
      the top frequency. */
  lemma TurnCountsIff(d: Dial, report: Report, coreCount: nat, freqCount: nat)
    requires InRange(d, coreCount, freqCount)
    ensures InRange(Turn(d, report, coreCount, freqCount), coreCount, freqCount)
    ensures !DropsToLowered(d, report, freqCount) <==>
      Position(Turn(d, report, coreCount, freqCount), freqCount)
        == Count(Position(d, freqCount), report, coreCount * freqCount - 1)
  {
    PositionInRange(d, coreCount, freqCount);
    NextMultiple(d.cores - 1, freqCount);
    NextMultiple(d.cores - 2, freqCount);
  }

  /** With the lower cores at the top, as from any point where one core was active,
      the counter law holds and keeps holding. */
  lemma TurnCounts(d: Dial, report: Report, coreCount: nat, freqCount: nat)
    requires InRange(d, coreCount, freqCount)
    ensures d.cores == 1 ==> LowerAtTop(d)
    ensures LowerAtTop(d) ==>
      && LowerAtTop(Turn(d, report, coreCount, freqCount))
      && Position(Turn(d, report, coreCount, freqCount), freqCount)
           == Count(Position(d, freqCount), report, coreCount * freqCount - 1)
  {
    TurnCountsIff(d, report, coreCount, freqCount);
  }

  function Turns(d: Dial, reports: seq<Report>, coreCount: nat, freqCount: nat): (last: Dial)
    requires 1 <= d.cores <= coreCount == |d.indices|
    ensures 1 <= last.cores <= coreCount == |last.indices|
    decreases |reports|
  {
    if reports == [] then d
    else Turns(Turn(d, reports[0], coreCount, freqCount), reports[1..], coreCount, freqCount)
  }

  function Counts(position: int, reports: seq<Report>, top: int): int
    decreases |reports|
  {
    if reports == [] then position else Counts(Count(position, reports[0], top), reports[1..], top)
  }

  lemma {:induction false} TurnsAppend(d: Dial, reports: seq<Report>, report: Report, coreCount: nat, freqCount: nat)
    requires 1 <= d.cores <= coreCount == |d.indices|
    ensures Turns(d, reports + [report], coreCount, freqCount)
         == Turn(Turns(d, reports, coreCount, freqCount), report, coreCount, freqCount)
    decreases |reports|
  {
    if reports == [] {
      assert [report][1..] == [] && [] + [report] == [report];
    } else {
      TurnsAppend(Turn(d, reports[0], coreCount, freqCount), reports[1..], report, coreCount, freqCount);
      assert (reports + [report])[1..] == reports[1..] + [report];
    }
  }

  /** Over any run of reports the heuristic is the saturating counter. */
  lemma {:induction false} TurnsCount(d: Dial, reports: seq<Report>, coreCount: nat, freqCount: nat)
    requires InRange(d, coreCount, freqCount) && LowerAtTop(d)
    ensures var last := Turns(d, reports, coreCount, freqCount);
      && InRange(last, coreCount, freqCount) && LowerAtTop(last)
      && Position(last, freqCount) == Counts(Position(d, freqCount), reports, coreCount * freqCount - 1)
    decreases |reports|
  {
    if reports != [] {
      TurnCountsIff(d, reports[0], coreCount, freqCount);
      TurnCounts(d, reports[0], coreCount, freqCount);
      TurnsCount(Turn(d, reports[0], coreCount, freqCount), reports[1..], coreCount, freqCount);
    }
  }

  // ---------------------------------------------------------------- what the position is worth

  /** The frequencies the cores run at. */
  function Frequencies(d: Dial, freqs: seq<nat>, coreCount: nat): seq<nat>
    requires |d.indices| == coreCount && forall c :: 0 <= c < coreCount ==> 0 <= d.indices[c] < |freqs|
  {
    seq(coreCount, c requires 0 <= c < coreCount => if c < d.cores then freqs[d.indices[c]] else 0)
  }

  lemma FrequencySum(d: Dial, freqs: seq<nat>, coreCount: nat)
    requires InRange(d, coreCount, |freqs|) && LowerAtTop(d)
    ensures Sum(Frequencies(d, freqs, coreCount)) == (d.cores - 1) * freqs[0] + freqs[d.indices[d.cores - 1]]
  {
    assert d.indices[0] < |freqs|;
    var top := freqs[0];
    var full, last, off := seq(d.cores - 1, _ => top), [freqs[d.indices[d.cores - 1]]], Off(coreCount - d.cores);
    assert Frequencies(d, freqs, coreCount) == (full + last) + off;
    SumActiveConcat(full + last, off);
    SumActiveConcat(full, last);
    RepeatedSum(top, d.cores - 1);
    SumOne(last[0]);
    OffIsZero(coreCount - d.cores);
  }

  /** The total frequency is strictly increasing in the position, so the counter
      really is a speed dial. */
  lemma PositionIsSpeed(a: Dial, b: Dial, freqs: seq<nat>, coreCount: nat)
    requires ValidFreqs(freqs)
    requires InRange(a, coreCount, |freqs|) && LowerAtTop(a) && InRange(b, coreCount, |freqs|) && LowerAtTop(b)
    requires Position(a, |freqs|) < Position(b, |freqs|)
    ensures Sum(Frequencies(a, freqs, coreCount)) < Sum(Frequencies(b, freqs, coreCount))
  {
    FrequencySum(a, freqs, coreCount);
    FrequencySum(b, freqs, coreCount);
    MulGap(b.cores - 1, a.cores - 1, |freqs|);
    MulGap(a.cores - 1, b.cores - 1, freqs[0]);
    assert a.cores <= b.cores;
    assert freqs[a.indices[a.cores - 1]] <= freqs[0] && freqs[b.indices[b.cores - 1]] >= UNIT;
  }

  /** One call moves the summed frequency the way the report asks, from any dial,
      except at the end of the range. */
  lemma TurnMoves(d: Dial, report: Report, freqs: seq<nat>, coreCount: nat)
    requires ValidFreqs(freqs) && InRange(d, coreCount, |freqs|)
    ensures var next := Turn(d, report, coreCount, |freqs|);
      && InRange(next, coreCount, |freqs|)
      && (report == TooLow ==>
            if d.cores == coreCount && d.indices[coreCount - 1] == 0 then next == d
            else Sum(Frequencies(next, freqs, coreCount)) > Sum(Frequencies(d, freqs, coreCount)))
      && (report == TooHigh ==>
            if d.cores == 1 && d.indices[0] == |freqs| - 1 then next == d
            else Sum(Frequencies(next, freqs, coreCount)) < Sum(Frequencies(d, freqs, coreCount)))
      && (report == InBand ==> next == d)
  {
    hide Sum;
    var next, all := Turn(d, report, coreCount, |freqs|), Frequencies(d, freqs, coreCount);
    var last := d.cores - 1;
    if next != d {
      var c := if next.cores > d.cores then last + 1 else last;
      var x := if next.cores < d.cores then 0 else freqs[next.indices[c]];
      assert Frequencies(next, freqs, coreCount) == all[c := x];
      SumUpdate(all, c, x);
    }
  }
}

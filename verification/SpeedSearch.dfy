/** The search of `machine_speed_act` (src/combined.c): which table state it picks
    for a requested speed. */
module SpeedSearch {
  import opened Arithmetic
  import opened MachineStates
  import opened StateTable

  ghost predicate Increasing(states: seq<State>) {
    forall a, b :: 0 <= a < b < |states| ==> states[a].speed < states[b].speed
  }

  function Distance(x: int, y: int): nat {
    if x < y then y - x else x - y
  }

  /** No state of the table is closer to `target` than state `r`. */
  ghost predicate Nearest(states: seq<State>, target: int, r: nat)
    requires r < |states|
  {
    forall a :: 0 <= a < |states| ==> Distance(states[r].speed, target) <= Distance(states[a].speed, target)
  }

  /** No table speed lies strictly between state `r` and `target`. */
  ghost predicate Adjacent(states: seq<State>, target: int, r: nat)
    requires r < |states|
  {
    forall a :: 0 <= a < |states| ==>
      !(states[r].speed < states[a].speed < target) && !(target < states[a].speed < states[r].speed)
  }

  /** How many states are slower than `target`: the gap a missing target falls in. */
  ghost function Below(states: seq<State>, target: int): nat {
    if states == [] then 0
    else Below(states[..|states| - 1], target) + if states[|states| - 1].speed < target then 1 else 0
  }

  lemma {:induction false} BelowSplits(states: seq<State>, target: int)
    requires Increasing(states)
    ensures Below(states, target) <= |states|
    ensures forall a :: 0 <= a < Below(states, target) ==> states[a].speed < target
    ensures forall a :: Below(states, target) <= a < |states| ==> states[a].speed >= target
  {
    if states != [] {
      var init := states[..|states| - 1];
      BelowSplits(init, target);
      assert forall a :: 0 <= a < |init| ==> states[a] == init[a];
      if states[|states| - 1].speed < target {
        assert forall a :: 0 <= a < |init| ==> init[a].speed < target;
      }
    }
  }

  ghost predicate Missing(states: seq<State>, target: int) {
    forall a :: 0 <= a < |states| ==> states[a].speed != target
  }

  /** The last index the loop probes for a target in the gap below `gap`. It
      depends on the bounds and the gap alone, not on any speed. */
  function LastProbe(f: nat, t: nat, gap: nat): nat
    requires f <= t
    decreases t - f
  {
    var i := (t + f) / 2;
    if i < gap then
      if i + 1 < t then LastProbe(i + 1, t, gap) else i
    else
      if f < i - 1 then LastProbe(f, i - 1, gap) else i
  }

  /** One round of the loop, on the middle state, rounded down. */
  lemma LastProbeStep(f: nat, t: nat, gap: nat, i: nat)
    requires f <= t && 2 * i <= f + t <= 2 * i + 1
    ensures i < gap ==> LastProbe(f, t, gap) == if i + 1 < t then LastProbe(i + 1, t, gap) else i
    ensures i >= gap ==> LastProbe(f, t, gap) == if f < i - 1 then LastProbe(f, i - 1, gap) else i
  {
  }

  /** The loop compares both neighbours of the gap: the bounds crossed. */
  predicate SeesBoth(count: nat, gap: nat)
    requires count > 0
  {
    var p := LastProbe(0, count - 1, gap);
    p == gap || p + 1 == gap
  }

  /** When the bounds meet on an unprobed state instead, the probe is one further
      out, and only the neighbour of the gap on its own side is compared. */
  lemma {:induction false} LastProbeNear(f: nat, t: nat, gap: nat)
    requires f <= t && f <= gap <= t + 1
    ensures gap - 2 <= LastProbe(f, t, gap) <= gap + 1
    ensures f <= LastProbe(f, t, gap) <= t
    decreases t - f
  {
    var i := (t + f) / 2;
    if i < gap && i + 1 < t {
      LastProbeNear(i + 1, t, gap);
    } else if i >= gap && f < i - 1 {
      LastProbeNear(f, i - 1, gap);
    }
  }

  /** The index chosen for a target in the gap below `gap`. */
  function Chosen(states: seq<State>, target: int, gap: nat): nat
    requires |states| > 0
  {
    var p := LastProbe(0, |states| - 1, gap);
    var here := Distance(Speed(states, p), target);
    if p < gap && p + 1 < |states| && Distance(Speed(states, p + 1), target) < here then p + 1
    else if p >= gap && p > 0 && Distance(Speed(states, p - 1), target) < here then p - 1
    else p
  }

  function Speed(states: seq<State>, a: int): int {
    if 0 <= a < |states| then states[a].speed else 0
  }

  /** The do-while loop: the index it stops on. */
  method Probe(states: seq<State>, target: int) returns (i: nat)
    requires |states| > 0 && Increasing(states)
    ensures i < |states|
    ensures states[i].speed == target || i == LastProbe(0, |states| - 1, Below(states, target))
    ensures forall a :: 0 <= a < |states| && states[a].speed == target ==> i - 1 <= a <= i + 1
  {
    hide LastProbe;
    hide Below;
    ghost var gap := Below(states, target);
    BelowSplits(states, target);
    var f: int, t: int := 0, |states| - 1;
    i := (t + f) / 2;
    while true  // the first round always runs
      invariant 0 <= f <= t < |states| && i == (t + f) / 2
      invariant f <= gap <= t + 1
      invariant forall a :: 0 <= a < |states| && states[a].speed == target ==> f <= a <= t
      invariant LastProbe(0, |states| - 1, gap) == LastProbe(f, t, gap)
      decreases t - f
    {
      LastProbeStep(f, t, gap, i);
      if states[i].speed == target {
        return;
      } else if states[i].speed < target {
        f := i + 1;
      } else {
        t := i - 1;
      }
      if f >= t {
        return;
      }
      i := (t + f) / 2;
    }
  }

  /** The search: the probed state, or its neighbour towards the target if closer. */
  method FindState(states: seq<State>, target: int) returns (r: nat)
    requires |states| > 0 && Increasing(states)
    ensures r < |states| && Adjacent(states, target, r)
    ensures forall a :: 0 <= a < |states| && states[a].speed == target ==> r == a
    ensures Missing(states, target) ==>
      && Below(states, target) <= |states| && r == Chosen(states, target, Below(states, target))
      && Settles(states, target, Below(states, target), LastProbe(0, |states| - 1, Below(states, target)), r)
  {
    hide LastProbe;
    hide Below;
    hide Settles;
    var i := Probe(states, target);
    BelowSplits(states, target);
    LastProbeNear(0, |states| - 1, Below(states, target));
    var d := states[i].speed - target;
    r := i;
    if d > 0 {
      if i > 0 && Distance(states[i - 1].speed, target) < Distance(d, 0) {
        r := i - 1;
      }
    } else if d < 0 {
      if i < |states| - 1 && Distance(states[i + 1].speed, target) < Distance(d, 0) {
        r := i + 1;
      }
    }
    if Missing(states, target) {
      ChosenSettles(states, target, Below(states, target));
    }
  }

  /** A state beside the gap is nearest when it beats the one across the gap. */
  lemma NearestBeside(states: seq<State>, target: int, r: nat)
    requires Increasing(states) && Missing(states, target) && r < |states|
    requires Below(states, target) - 1 <= r <= Below(states, target)
    ensures Nearest(states, target, r) <==>
      var other := if r < Below(states, target) then r + 1 else r - 1;
      0 <= other < |states| ==> Distance(states[r].speed, target) <= Distance(states[other].speed, target)
  {
    var gap := Below(states, target);
    BelowSplits(states, target);
    assert gap > 0 ==> forall a :: 0 <= a < gap ==> states[a].speed <= states[gap - 1].speed;
    assert gap < |states| ==> forall a :: gap <= a < |states| ==> states[gap].speed <= states[a].speed;
  }

  /** Which side of the gap is chosen, by how far out the last probe was. */
  lemma ChosenSide(states: seq<State>, target: int, gap: nat)
    requires |states| > 0 && Increasing(states)
    requires Missing(states, target) && gap == Below(states, target)
    ensures gap <= |states|
    ensures var p, r := LastProbe(0, |states| - 1, gap), Chosen(states, target, gap);
      && gap - 1 <= r <= gap && r < |states|
      && (p < gap - 1 && gap < |states| ==> r == gap - 1)
      && (p > gap && gap > 0 ==> r == gap)
      && (gap - 1 <= p <= gap && 0 < gap < |states| ==>
            Distance(states[r].speed, target) <= Distance(states[gap].speed, target)
            && Distance(states[r].speed, target) <= Distance(states[gap - 1].speed, target))
  {
    BelowSplits(states, target);
    LastProbeNear(0, |states| - 1, gap);
    var p := LastProbe(0, |states| - 1, gap);
    assert p + 1 < gap ==> states[p].speed < states[p + 1].speed < target;
    assert p > gap ==> states[p].speed > states[p - 1].speed > target;
  }

  /** Which neighbour of the gap a missing speed gets: that on the side of the state the
      loop stopped on, unless it stopped beside the gap and the state across the gap is
      strictly nearer. So of two equally near ones the loop's own side is kept. */
  ghost predicate Settles(states: seq<State>, target: int, gap: nat, last: nat, r: nat)
    requires gap <= |states|
  {
    if gap == 0 then r == 0
    else if gap == |states| then r == gap - 1
    else
      var lower, upper := target - states[gap - 1].speed, states[gap].speed - target;
      && (r == gap - 1 || r == gap)
      && (r == gap - 1 <==>
            last < gap - 1 || (last == gap - 1 && lower <= upper) || (last == gap && lower < upper))
  }

  lemma ChosenSettles(states: seq<State>, target: int, gap: nat)
    requires |states| > 0 && Increasing(states)
    requires Missing(states, target) && gap == Below(states, target)
    ensures gap <= |states|
    ensures Settles(states, target, gap, LastProbe(0, |states| - 1, gap), Chosen(states, target, gap))
  {
    hide LastProbe;
    hide Below;
    BelowSplits(states, target);
    LastProbeNear(0, |states| - 1, gap);
    ChosenSide(states, target, gap);
  }

  /** A tie, in particular, goes to the side on which the loop stopped. */
  lemma TieStays(states: seq<State>, target: int, gap: nat, r: nat)
    requires 0 < gap < |states| && target - states[gap - 1].speed == states[gap].speed - target
    requires Settles(states, target, gap, LastProbe(0, |states| - 1, gap), r)
    ensures r == if LastProbe(0, |states| - 1, gap) < gap then gap - 1 else gap
  {
  }

  /** Exactly when the search finds the nearest state for a speed the table lacks:
      the loop saw both neighbours of the gap, or the only one it saw is the nearer
      (or the gap is open on the other side). */
  lemma NearestIff(states: seq<State>, target: int, gap: nat)
    requires |states| > 0 && Increasing(states)
    requires Missing(states, target) && gap == Below(states, target)
    ensures gap <= |states| && Chosen(states, target, gap) < |states|
    ensures Nearest(states, target, Chosen(states, target, gap)) <==>
      || SeesBoth(|states|, gap)
      || gap == 0 || gap == |states|
      || (LastProbe(0, |states| - 1, gap) < gap && target - states[gap - 1].speed <= states[gap].speed - target)
      || (LastProbe(0, |states| - 1, gap) > gap && states[gap].speed - target <= target - states[gap - 1].speed)
  {
    hide Chosen;
    hide LastProbe;
    hide Nearest;
    BelowSplits(states, target);
    ChosenSide(states, target, gap);
    NearestBeside(states, target, Chosen(states, target, gap));
  }

  // ---------------------------------------------------------------- a table it misses on

  /** 700000, 600000, ..., 100000 kHz. */
  const SEVEN_FREQS: seq<nat> := seq(7, d requires 0 <= d < 7 => 100000 * (7 - d))

  ghost predicate HasSpeed(states: seq<State>, v: int) {
    exists a :: 0 <= a < |states| && states[a].speed == v
  }

  /** Increasing speeds that are the first `n` multiples of 10. */
  lemma {:induction false} TenSteps(states: seq<State>, n: nat)
    requires Increasing(states)
    requires forall a :: 0 <= a < |states| ==> states[a].speed % 10 == 0 && 10 <= states[a].speed <= 10 * n
    requires forall m :: 1 <= m <= n ==> HasSpeed(states, 10 * m)
    ensures |states| == n && forall a :: 0 <= a < n ==> states[a].speed == 10 * (a + 1)
  {
    var top := if states == [] then 0 else states[|states| - 1].speed;
    assert states == [] || 10 <= top <= 10 * n;
    if n > 0 {
      assert HasSpeed(states, 10 * n);
      var init := states[..|states| - 1];
      assert top == 10 * n;
      forall m | 1 <= m <= n - 1 ensures HasSpeed(init, 10 * m) {
        assert HasSpeed(states, 10 * m);
        var a :| 0 <= a < |states| && states[a].speed == 10 * m;
        assert init[a].speed == 10 * m;
      }
      TenSteps(init, n - 1);
      assert forall a :: 0 <= a < n - 1 ==> states[a] == init[a];
    }
  }

  /** What one core can run. */
  lemma OneCoreState(list: seq<State>, s: State)
    requires SortedStates(SEVEN_FREQS, 1, list) && s in list
    ensures s.speed % 10 == 0 && s.speed <= 70 && (s.speed > 0 ==> s.power == s.speed + 100)
  {
    InList(SEVEN_FREQS, 1, list, s);
    var x := s.cores[0];
    assert s.cores == [x];
    SumOne(x);
    PowerIsSpeedPlusCores([x]);
    if x != 0 {
      var d :| 0 <= d < 7 && SEVEN_FREQS[d] == x;
      TenPerStep(7 - d);
    }
  }

  lemma TenPerStep(m: nat)
    ensures 100000 * m / UNIT == 10 * m
  {
  }

  lemma OneCoreKept(list: seq<State>, m: nat)
    requires StableStates(SEVEN_FREQS, 1, list) && 1 <= m <= 7
    ensures HasSpeed(Kept(list, TABLE_FILTER), 10 * m)
  {
    hide StableStates;
    hide SortedStates;
    hide KeptPrefix;
    StableIsSorted(SEVEN_FREQS, 1, list);
    var x := SEVEN_FREQS[7 - m];
    var s := Rated([x]);
    SumOne(x);
    TenPerStep(m);
    InList(SEVEN_FREQS, 1, list, s);
    forall t | t in list ensures t.speed >= s.speed ==> t.power >= s.power {
      OneCoreState(list, t);
      OneCoreState(list, s);
    }
    var t := StableTableExact(SEVEN_FREQS, 1, list, s);
    var a :| 0 <= a < |Kept(list, TABLE_FILTER)| && Kept(list, TABLE_FILTER)[a] == t;
  }

  lemma OneCoreTable(list: seq<State>)
    requires StableStates(SEVEN_FREQS, 1, list)
    ensures var states := Kept(list, TABLE_FILTER);
      Increasing(states) && |states| == 7 && forall a :: 0 <= a < 7 ==> states[a].speed == 10 * (a + 1)
  {
    hide StableStates;
    hide SortedStates;
    hide KeptPrefix;
    StableIsSorted(SEVEN_FREQS, 1, list);
    var states := Kept(list, TABLE_FILTER);
    forall a: nat, b: nat | a < b < |states| ensures states[a].speed < states[b].speed {
      TableIncreases(SEVEN_FREQS, 1, list, a, b);
    }
    forall a: nat | a < |states| ensures states[a].speed % 10 == 0 && 10 <= states[a].speed <= 70 {
      TableMember(SEVEN_FREQS, 1, list, a);
      OneCoreState(list, states[a]);
    }
    forall m | 1 <= m <= 7 ensures HasSpeed(states, 10 * m) {
      OneCoreKept(list, m);
    }
    TenSteps(states, 7);
  }

  /** The bounds can meet on an unprobed state of a table that the filter builds: one
      core with the seven frequencies above gives speeds 10, 20, ..., 70, and a
      target of 39 is given 30 although 40 is nearer. (Halfway at 25 it stays on 20.) */
  lemma NotAlwaysNearest() returns (list: seq<State>)
    ensures StableStates(SEVEN_FREQS, 1, list)
    ensures var states := Kept(list, TABLE_FILTER);
      && |states| == 7 && (forall a :: 0 <= a < 7 ==> states[a].speed == 10 * (a + 1))
      && Missing(states, 39) && Below(states, 39) == 3 && !SeesBoth(7, 3)
      && Chosen(states, 39, 3) == 2 && !Nearest(states, 39, 2)
      && Missing(states, 25) && Below(states, 25) == 2 && Chosen(states, 25, 2) == 1
  {
    list := StableSortExists(Enumeration(SEVEN_FREQS, 1));
    OneCoreTable(list);
    MissesForty(Kept(list, TABLE_FILTER));
    KeepsTwenty(Kept(list, TABLE_FILTER));
  }

  lemma MissesForty(states: seq<State>)
    requires Increasing(states) && |states| == 7 && forall a :: 0 <= a < 7 ==> states[a].speed == 10 * (a + 1)
    ensures Missing(states, 39) && Below(states, 39) == 3 && !SeesBoth(7, 3)
    ensures Chosen(states, 39, 3) == 2 && !Nearest(states, 39, 2)
  {
    BelowSplits(states, 39);
    assert states[3].speed == 40 && states[2].speed == 30;
    assert LastProbe(2, 2, 3) == 2;
    assert LastProbe(0, 2, 3) == 1;
    assert LastProbe(0, 6, 3) == 1;
    assert Distance(states[3].speed, 39) == 1;
  }

  lemma KeepsTwenty(states: seq<State>)
    requires Increasing(states) && |states| == 7 && forall a :: 0 <= a < 7 ==> states[a].speed == 10 * (a + 1)
    ensures Missing(states, 25) && Below(states, 25) == 2 && Chosen(states, 25, 2) == 1
  {
    BelowSplits(states, 25);
    assert states[1].speed == 20 && states[2].speed == 30;
    assert LastProbe(0, 2, 2) == 1;
    assert LastProbe(0, 6, 2) == 1;
  }
}

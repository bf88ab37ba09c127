/** The actuators and decision functions of src/combined.c, with ideal hardware:
    an action makes `value` equal to `setValue`. */
module Machine {
  import opened Arithmetic
  import opened MachineStates
  import opened StateTable
  import opened SpeedSearch
  import opened StepDial
  import HB = Heartbeat

  /** `actuator_t`, with the `cur_index` of a frequency actuator's data. */
  class Actuator {
    var value: int
    var setValue: int
    var min: int
    var max: int
    var curIndex: int

    constructor (value: int, min: int, max: int, curIndex: int)
      ensures this.value == this.setValue == value && this.min == min && this.max == max
      ensures this.curIndex == curIndex
    {
      this.value, this.setValue, this.min, this.max, this.curIndex := value, value, min, max, curIndex;
    }
  }

  /** A state of the kept table, as the speed actuator needs it. */
  ghost predicate TableRow(freqs: seq<nat>, coreCount: nat, s: State) {
    && |s.cores| == coreCount && Descending(s.cores) && IsAssignment(freqs, s.cores)
    && s == Rated(s.cores) && s.speed > 0
  }

  ghost predicate GoodTable(freqs: seq<nat>, coreCount: nat, states: seq<State>) {
    && |states| > 0 && Increasing(states)
    && forall a :: 0 <= a < |states| ==> TableRow(freqs, coreCount, states[a])
  }

  /** In a descending assignment the running cores come first. */
  lemma {:induction false} ActivePrefix(cores: seq<nat>)
    requires Descending(cores)
    ensures Active(cores) <= |cores|
    ensures forall c :: 0 <= c < |cores| ==> (cores[c] > 0 <==> c < Active(cores))
  {
    if cores != [] {
      var n := |cores| - 1;
      ActivePrefix(cores[..n]);
      assert forall c :: 0 <= c < n ==> cores[..n][c] == cores[c] && cores[c] >= cores[n];
      assert cores[n] > 0 ==> forall c :: 0 <= c < n ==> cores[..n][c] > 0;
    }
  }

  lemma {:induction false} OffSum(cores: seq<nat>)
    requires Active(cores) == 0
    ensures Sum(cores) == 0
  {
    if cores != [] {
      OffSum(cores[..|cores| - 1]);
    }
  }

  /** A running state keeps at least one core on. */
  lemma RowRuns(freqs: seq<nat>, coreCount: nat, s: State)
    requires TableRow(freqs, coreCount, s)
    ensures 1 <= Active(s.cores) <= coreCount == |s.cores|
    ensures forall c :: 0 <= c < coreCount ==> (s.cores[c] > 0 <==> c < Active(s.cores))
  {
    ActivePrefix(s.cores);
    if Active(s.cores) == 0 {
      OffSum(s.cores);
    }
  }

  class Machine {
    const coreCount: nat
    const freqs: seq<nat>
    const states: seq<State>
    /** In action order: machine speed, one frequency per core, global frequency,
        core count. */
    const controls: seq<Actuator>
    const scratchState: array<nat>
    const windowSize: nat

    // the statics and locals that live across rounds of `main`
    var oldError: real
    var lastBeat: int
    var skipUntilBeat: int

    /** The decisions taken so far, oldest first. */
    ghost var decisions: seq<Decision>

    /** The actuators, as the frame of what changes them. */
    ghost const Repr: set<Actuator>

    ghost predicate Linked() {
      forall i :: 0 <= i < |controls| ==> controls[i] in Repr
    }

    ghost predicate Wired() {
      && Linked()
      && coreCount > 0 && ValidFreqs(freqs) && GoodTable(freqs, coreCount, states)
      && |controls| == coreCount + 3
      && (forall i, j :: 0 <= i < j < |controls| ==> controls[i] != controls[j])
      && scratchState.Length == FIRST_CORE + coreCount
    }

    function SpeedAct(): Actuator
      requires |controls| == coreCount + 3
    {
      controls[0]
    }

    function FreqAct(c: nat): Actuator
      requires |controls| == coreCount + 3 && c < coreCount
    {
      controls[1 + c]
    }

    function CoreAct(): Actuator
      requires |controls| == coreCount + 3
    {
      controls[coreCount + 2]
    }

    ghost function Values(): seq<int>
      requires Linked()
      reads Repr
    {
      seq(|controls|, i requires 0 <= i < |controls| && controls[i] in Repr reads Repr => controls[i].value)
    }

    ghost function SetValues(): seq<int>
      requires Linked()
      reads Repr
    {
      seq(|controls|, i requires 0 <= i < |controls| && controls[i] in Repr reads Repr => controls[i].setValue)
    }

    ghost function Indices(): seq<int>
      requires Linked()
      reads Repr
    {
      seq(|controls|, i requires 0 <= i < |controls| && controls[i] in Repr reads Repr => controls[i].curIndex)
    }

    ghost function Limits(): seq<(int, int)>
      requires Linked()
      reads Repr
    {
      seq(|controls|, i requires 0 <= i < |controls| reads Repr => (controls[i].min, controls[i].max))
    }

    /** `get_current_speed` */
    method GetCurrentSpeed() returns (speed: nat)
      requires Wired() && NonNegative(Values(), coreCount)
      modifies scratchState
      ensures speed == Rated(Running(Values(), coreCount)).speed
    {
      ghost var running := Running(Values(), coreCount);
      for i := 0 to coreCount
        invariant forall c :: 0 <= c < i ==> scratchState[FIRST_CORE + c] == running[c]
      {
        assert Values()[1 + i] >= 0;
        scratchState[FIRST_CORE + i] := if i < CoreAct().value then FreqAct(i).value else 0;
      }
      assert scratchState[FIRST_CORE..] == running;
      CalculateStateProperties(scratchState, coreCount);
      assert RowOf(scratchState[..]).speed == scratchState[SPEED_IDX];
      speed := scratchState[SPEED_IDX];
    }

    /** `controls[j].set_value = target` */
    method Aim(j: nat, target: int)
      requires Wired() && j < |controls|
      modifies Repr
      ensures SetValues() == old(SetValues())[j := target]
      ensures Values() == old(Values()) && Indices() == old(Indices()) && Limits() == old(Limits())
    {
      controls[j].setValue := target;
    }

    /** An ideal action: `controls[j].value` becomes `controls[j].set_value`. */
    method Reach(j: nat)
      requires Wired() && j < |controls|
      modifies Repr
      ensures Values() == old(Values())[j := SetValues()[j]]
      ensures SetValues() == old(SetValues()) && Indices() == old(Indices()) && Limits() == old(Limits())
    {
      controls[j].value := controls[j].setValue;
    }

    /** `machine_speed_act`: hand the chosen state to the other actuators. */
    method MachineSpeedAct() returns (r: nat)
      requires Wired() && CoreAct().max == coreCount
      modifies Repr
      ensures r < |states| && Answers(states, old(SpeedAct().setValue), r)
      ensures SetValues() == Handed(old(SetValues()), states[r], coreCount)
      ensures Values() == old(Values()) && Indices() == old(Indices()) && Limits() == old(Limits())
    {
      r := FindState(states, SpeedAct().setValue);
      HandOver(states[r]);
    }

    method HandOver(state: State)
      requires Wired() && CoreAct().max == coreCount && TableRow(freqs, coreCount, state)
      modifies Repr
      ensures SetValues() == Handed(old(SetValues()), state, coreCount)
      ensures Values() == old(Values()) && Indices() == old(Indices()) && Limits() == old(Limits())
    {
      hide TableRow;
      hide GoodTable;
      RowRuns(freqs, coreCount, state);
      ghost var before := SetValues();
      assert Limits()[coreCount + 2].1 == coreCount;
      var i := 0;
      while i < CoreAct().max && state.cores[i] > 0
        invariant 0 <= i <= Active(state.cores)
        invariant |SetValues()| == |before| && forall j :: 0 <= j < |before| ==>
          SetValues()[j] == if 1 <= j <= i then state.cores[j - 1] else before[j]
        invariant Values() == old(Values()) && Indices() == old(Indices()) && Limits() == old(Limits())
      {
        assert Limits()[coreCount + 2].1 == coreCount;
        Aim(1 + i, state.cores[i]);
        i := i + 1;
      }
      assert Limits()[coreCount + 2].1 == coreCount;
      Aim(coreCount + 2, i);
    }

    // -------------------------------------------------------------- the actuator pass

    ghost predicate Settled()
      reads Repr
      requires Wired()
    {
      forall i :: 1 <= i < |controls| ==> Values()[i] == SetValues()[i]
    }

    /** The loop of `main` over `controls`, and the speed update after it. `acted`
        tells whether any action ran; `r` is the state chosen if the speed actuator
        was among them. */
    method ActuatorPass() returns (acted: bool, ghost r: nat)
      requires Wired() && CoreAct().max == coreCount
      requires NonNegative(SetValues(), coreCount) && NonNegative(Values(), coreCount)
      modifies Repr, scratchState
      ensures acted <==> old(Values()) != old(SetValues())
      ensures Indices() == old(Indices()) && Limits() == old(Limits()) && Settled()
      ensures old(Values()[0] == SetValues()[0]) ==>
        SetValues() == old(SetValues()) && Values() == old(SetValues())
      ensures old(Values()[0] != SetValues()[0]) ==>
        && r < |states| && Answers(states, old(SetValues()[0]), r)
        && SetValues() == Handed(old(SetValues()), states[r], coreCount)
        && Values() == SetValues()[0 := states[r].speed]
        && NonNegative(Values(), coreCount) && Running(Values(), coreCount) == states[r].cores
    {
      hide Answers;
      hide Handed;
      hide Running;
      hide NonNegative;
      hide TableRow;
      acted := false;
      r := 0;
      ghost var start, sets := Values(), SetValues();
      if SpeedAct().setValue != SpeedAct().value {
        r := MachineSpeedAct();
        acted := true;
      }
      var rest := OtherActions();
      acted := acted || rest;
      if start[0] != sets[0] {
        HandedRuns(sets, states[r], freqs, coreCount, start[0]);
        HandedRuns(sets, states[r], freqs, coreCount, states[r].speed);
      }
      assert Values()[0] == SpeedAct().value && SetValues()[0] == SpeedAct().setValue;
      if SpeedAct().value != SpeedAct().setValue {
        UpdateSpeed(states[r]);
      }
    }

    /** The rounds of the loop after the speed actuator's. */
    method OtherActions() returns (acted: bool)
      requires Wired()
      modifies Repr
      ensures acted <==> old(Values())[1..] != old(SetValues())[1..]
      ensures Values() == old(SetValues())[0 := old(Values())[0]] && SetValues() == old(SetValues())
      ensures Indices() == old(Indices()) && Limits() == old(Limits())
    {
      hide GoodTable;
      acted := false;
      ghost var values, goal := Values(), SetValues();
      for i := 1 to |controls|
        invariant SetValues() == goal && Indices() == old(Indices()) && Limits() == old(Limits())
        invariant |Values()| == |values| && forall j :: 0 <= j < |values| ==>
          Values()[j] == if 1 <= j < i then goal[j] else values[j]
        invariant acted <==> exists j :: 1 <= j < i && goal[j] != values[j]
      {
        assert Values()[i] == controls[i].value && SetValues()[i] == controls[i].setValue;
        if controls[i].setValue != controls[i].value {
          Reach(i);
          acted := true;
        }
      }
      assert (exists j :: 1 <= j < |values| && goal[j] != values[j]) <==> goal[1..] != values[1..];
    }

    /** `controls[0].value = get_current_speed(...)` once a table state runs. */
    method UpdateSpeed(ghost state: State)
      requires Wired() && TableRow(freqs, coreCount, state)
      requires NonNegative(Values(), coreCount) && Running(Values(), coreCount) == state.cores
      modifies Repr, scratchState
      ensures Values() == old(Values())[0 := state.speed]
      ensures SetValues() == old(SetValues()) && Indices() == old(Indices()) && Limits() == old(Limits())
    {
      hide GoodTable;
      var speed := GetCurrentSpeed();
      controls[0].value := speed;
    }

    // -------------------------------------------------------------- every reachable state

    /** The limits of the speed and core actuators: the table's ends, and 1 to C. */
    ghost predicate Limited()
      reads Repr
      requires Wired()
    {
      && Limits()[0] == (states[0].speed as int, states[|states| - 1].speed as int)
      && Limits()[coreCount + 2] == (1, coreCount as int)
    }

    /** Speed within the table, core count within the machine, listed frequencies. */
    ghost predicate InBounds(values: seq<int>)
      requires Wired() && |values| == coreCount + 3
    {
      && states[0].speed <= values[0] <= states[|states| - 1].speed
      && 1 <= values[coreCount + 2] <= coreCount
      && (forall i :: 1 <= i <= coreCount ==> values[i] in freqs)
      && NonNegative(values, coreCount)
    }

    /** A table state runs, and its speed is the speed actuator's value. */
    ghost predicate RunsTable(values: seq<int>) {
      NonNegative(values, coreCount) && exists r :: 0 <= r < |states| && RunsState(values, r)
    }

    ghost predicate RunsState(values: seq<int>, r: nat)
      requires r < |states| && NonNegative(values, coreCount)
    {
      values[0] == states[r].speed && Running(values, coreCount) == states[r].cores
    }

    /** The actuators between two rounds. */
    ghost predicate Steady()
      reads Repr
    {
      Wired() && Limited() && InBounds(Values()) && Settled()
    }

    /** The beats and decisions between two rounds. */
    ghost predicate Paced()
      reads `lastBeat, `skipUntilBeat, `decisions
    {
      && windowSize > 0 && lastBeat >= 0
      && skipUntilBeat == SkipAfter(decisions, windowSize)
      && Waits(decisions, windowSize, skipUntilBeat, lastBeat)
    }

    ghost predicate Valid()
      reads this, Repr
    {
      Steady() && Paced()
    }

    /** The initial speed is read back from what already runs. */
    method InitialSpeed(ghost list: seq<State>)
      requires Wired() && EndsKept(freqs, coreCount, list) && states == Kept(list, TABLE_FILTER)
      requires 1 <= Values()[coreCount + 2] <= coreCount
      requires forall i :: 1 <= i <= coreCount ==> Values()[i] in freqs
      modifies Repr, scratchState
      ensures states[0].speed <= Values()[0] <= states[|states| - 1].speed
      ensures Values()[1..] == old(Values())[1..] && SetValues() == old(SetValues())[0 := Values()[0]]
      ensures Indices() == old(Indices()) && Limits() == old(Limits())
    {
      hide LowestSpeed;
      hide HighestSpeed;
      hide GoodTable;
      ghost var running := Running(Values(), coreCount);
      forall c | 0 <= c < coreCount ensures running[c] == 0 || running[c] in freqs {
        assert Values()[1 + c] in freqs;
      }
      FirstOn(running);
      RunningSpeed(freqs, coreCount, list, running);
      var speed := GetCurrentSpeed();
      controls[0].value := speed;
      controls[0].setValue := speed;
    }

    constructor (coreCount: nat, freqs: seq<nat>, states: seq<State>, controls: seq<Actuator>, windowSize: nat)
      ensures this.coreCount == coreCount && this.freqs == freqs && this.states == states
      ensures this.controls == controls && this.windowSize == windowSize
      ensures Linked() && Repr == set i | 0 <= i < |controls| :: controls[i]
      ensures fresh(scratchState) && scratchState.Length == FIRST_CORE + coreCount
      ensures oldError == 0.0 && lastBeat == 0 && skipUntilBeat == windowSize && decisions == []
    {
      this.coreCount, this.freqs, this.states := coreCount, freqs, states;
      this.controls, this.windowSize := controls, windowSize;
      Repr := set i | 0 <= i < |controls| :: controls[i];
      scratchState := new nat[FIRST_CORE + coreCount];
      oldError, lastBeat, skipUntilBeat := 0.0, 0, windowSize;
      decisions := [];
    }

    /** A machine that is wired up and settled starts in bounds. */
    method Start(ghost list: seq<State>)
      requires Wired() && EndsKept(freqs, coreCount, list) && states == Kept(list, TABLE_FILTER)
      requires 1 <= Values()[coreCount + 2] <= coreCount
      requires forall i :: 1 <= i <= coreCount ==> Values()[i] in freqs
      requires Limited() && Settled() && windowSize > 0 && lastBeat == 0 && skipUntilBeat == windowSize
      requires decisions == []
      modifies Repr, scratchState
      ensures Valid() && SetValues() == Values() && Values()[1..] == old(Values())[1..]
      ensures Indices() == old(Indices()) && Limits() == old(Limits())
    {
      hide GoodTable;
      hide EndsKept;
      InitialSpeed(list);
      assert forall i :: 1 <= i < |controls| ==> Values()[i] == Values()[1..][i - 1];
      assert forall i :: 1 <= i < |controls| ==> old(Values())[i] == old(Values())[1..][i - 1];
    }

    // -------------------------------------------------------------- speed controllers

    /** `set_value = command`, truncated to an integer and clipped to the limits. */
    method CommandSpeed(command: real)
      requires Wired() && Limited()
      modifies Repr
      ensures SetValues() == old(SetValues())[0 := Clip(Truncate(command), states[0].speed, states[|states| - 1].speed)]
      ensures Values() == old(Values()) && Indices() == old(Indices()) && Limits() == old(Limits())
    {
      Aim(0, Truncate(command));
      assert Limits()[0] == (SpeedAct().min, SpeedAct().max) && SetValues()[0] == SpeedAct().setValue;
      if SpeedAct().setValue < SpeedAct().min {
        Aim(0, SpeedAct().min);
      } else if SpeedAct().setValue > SpeedAct().max {
        Aim(0, SpeedAct().max);
      }
      assert Limits()[0] == (SpeedAct().min, SpeedAct().max);
    }

    /** The decision functions that steer machine speed, and the one that does nothing. */
    method Decide(decision: DecisionFunction, rate: real, band: Band, p: real, q: real)
      requires Wired() && Limited()
      modifies Repr, `oldError
      ensures Values() == old(Values()) && Indices() == old(Indices()) && Limits() == old(Limits())
      ensures decision == DummyControl ==> SetValues() == old(SetValues()) && oldError == old(oldError)
      ensures decision != DummyControl ==>
        SetValues() == old(SetValues())[0 := Target(decision, old(Values()[0]), rate, band, p, q, old(oldError))]
      ensures oldError == if Remembers(decision) then Error(decision, rate, band) else old(oldError)
    {
      hide GoodTable;
      hide Weighted;
      var error, memory := 0.0, 0.0;
      assert Limits()[0] == (SpeedAct().min, SpeedAct().max) && Values()[0] == SpeedAct().value;
      match decision {
        case DummyControl =>
          return;
        case MachineStateP =>
          var targetRate := (band.max + band.min) / 2.0;
          error := targetRate - rate;
        case MachineStatePseudoPI =>
          var targetRate := (band.max + band.min) / 2.0;
          error := targetRate - rate;
          memory := Weighted(q, oldError);
        case HisteresisP =>
          error := OutsideBand(rate, band);
        case HisteresisPseudoPI =>
          error := OutsideBand(rate, band);
          memory := Weighted(q, oldError);
      }
      assert error == Error(decision, rate, band);
      var command := SpeedAct().value as real + Weighted(p, error) + memory;
      assert command == Command(decision, Values()[0], rate, band, p, q, oldError);
      CommandSpeed(command);
      ghost var goal := SetValues();
      if Remembers(decision) {
        oldError := error;
      }
      assert SetValues() == goal;
    }

    /** The speed a decision asks for, truncated and clipped to the table. */
    ghost function Target(decision: DecisionFunction, value: int, rate: real, band: Band,
                          p: real, q: real, oldError: real): int
      requires |states| > 0
    {
      Clip(Truncate(Command(decision, value, rate, band, p, q, oldError)), states[0].speed, states[|states| - 1].speed)
    }

    /** What the next decision can depend on. */
    ghost function Recall(): Memory
      requires Linked() && |controls| > 0
      reads Repr, `oldError
    {
      Memory(Values(), SetValues()[0], oldError)
    }

    /** The speed setting a decision leaves: `dummy_control` leaves the one it finds. */
    ghost function RequestOf(decision: DecisionFunction, m: Memory, rate: real, band: Band, p: real, q: real): int
      requires |states| > 0 && |m.values| > 0
    {
      if decision == DummyControl then m.request
      else Target(decision, m.values[0], rate, band, p, q, m.error)
    }

    /** The actuator pass ran an action exactly if the speed asked for is not the one
        there is. If it did, the table state the search picks was handed over and
        reached, and the speed read back is its speed; if not, nothing changed. */
    ghost predicate Outcome(d: Decision) {
      && |d.before| == |d.after| == coreCount + 3
      && (d.acted <==> d.request != d.before[0])
      && (!d.acted ==> d.after == d.before)
      && (d.acted ==> exists r :: 0 <= r < |states| && Answers(states, d.request, r) && RunsHanded(d.before, d.after, r))
    }

    /** State `r` was handed to actuators with values `before`, and reached. */
    ghost predicate RunsHanded(before: seq<int>, after: seq<int>, r: nat)
      requires r < |states| && |before| == |after| == coreCount + 3
    {
      && |states[r].cores| == coreCount
      && after == Handed(before, states[r], coreCount)[0 := states[r].speed]
      && NonNegative(after, coreCount) && RunsState(after, r)
    }

    /** A decision and the actuator pass after it, from and to a reachable state. */
    method DecideAndAct(decision: DecisionFunction, rate: real, band: Band, p: real, q: real,
                        ghost beat: int) returns (acted: bool)
      requires Steady()
      modifies Repr, scratchState, `oldError
      ensures Steady() && Limits() == old(Limits())
      ensures Recall() == Memory(Values(), old(RequestOf(decision, Recall(), rate, band, p, q)),
                                 if Remembers(decision) then Error(decision, rate, band) else old(oldError))
      ensures Outcome(Decision(beat, rate, old(Values()), Recall().request, Values(), acted))
    {
      hide GoodTable;
      hide InBounds;
      hide Answers;
      hide Command;
      hide Outcome;
      ghost var start := Values();
      BoundsNonNegative(start);
      Decide(decision, rate, band, p, q);
      ghost var goal := SetValues();
      SettledNonNegative(start, goal);
      assert Limits()[coreCount + 2].1 == CoreAct().max;
      ghost var r: nat;
      acted, r := ActuatorPass();
      PassOutcome(Decision(beat, rate, start, goal[0], Values(), acted), goal, r);
    }

    /** One accepted record: wait, or decide and act, and say how long to wait next. */
    method Round(decision: DecisionFunction, current: HB.Record, band: Band, p: real, q: real)
      requires Valid() && current.beat > lastBeat
      modifies this, Repr, scratchState
      ensures Valid() && Limits() == old(Limits()) && lastBeat == current.beat
      ensures current.beat < old(skipUntilBeat) ==> Recall() == old(Recall()) && decisions == old(decisions)
      ensures current.beat >= old(skipUntilBeat) ==>
        var request := old(RequestOf(decision, Recall(), current.windowRate, band, p, q));
        var d := Decision(current.beat, current.windowRate, old(Values()), request, Values(), request != old(Values()[0]));
        && decisions == old(decisions) + [d] && Outcome(d)
        && skipUntilBeat == current.beat + (if d.acted then windowSize else 1)
        && Recall() == Memory(Values(), request,
             if Remembers(decision) then Error(decision, current.windowRate, band) else old(oldError))
      ensures DecidesOrPasses(old(decisions), current, decisions, windowSize)
    {
      hide Steady;
      hide Wired;
      hide Paced;
      hide RequestOf;
      hide Error;
      SteadyLinked();
      ghost var before := Values();
      if current.beat < skipUntilBeat {
        WaitOn(current);
      } else {
        var acted := DecideAndAct(decision, current.windowRate, band, p, q, current.beat);
        SteadyLinked();
        WaitAfter(current, acted,
                  Decision(current.beat, current.windowRate, before, Recall().request, Values(), acted));
      }
    }

    /** The record comes too early. */
    method WaitOn(current: HB.Record)
      requires Paced() && current.beat > lastBeat && current.beat < skipUntilBeat
      modifies `lastBeat
      ensures Paced() && lastBeat == current.beat
      ensures DecidesOrPasses(decisions, current, decisions, windowSize)
    {
      SkipsExactly(decisions, windowSize, lastBeat, current.beat);
      LaterBeatWaits(decisions, windowSize, skipUntilBeat, lastBeat, current.beat);
      lastBeat := current.beat;
    }

    /** A decision was taken: wait for a whole window if it acted, else for a beat. */
    method WaitAfter(current: HB.Record, acted: bool, ghost d: Decision)
      requires Paced() && current.beat > lastBeat && current.beat >= skipUntilBeat
      requires d.beat == current.beat && d.windowRate == current.windowRate && d.acted == acted
      modifies `lastBeat, `skipUntilBeat, `decisions
      ensures Paced() && lastBeat == current.beat && decisions == old(decisions) + [d]
      ensures skipUntilBeat == current.beat + (if acted then windowSize else 1)
      ensures DecidesOrPasses(old(decisions), current, decisions, windowSize)
    {
      hide Waits;
      hide LastAction;
      hide SkipAfter;
      SkipsExactly(decisions, windowSize, lastBeat, current.beat);
      WaitsNext(decisions, windowSize, skipUntilBeat, lastBeat, d);
      lastBeat := current.beat;
      skipUntilBeat := current.beat + if acted then windowSize else 1;
      decisions := decisions + [d];
    }

    // -------------------------------------------------------------- whole runs

    /** Decision `i` of a run from `start`: it found what the one before it left, asked
        for the speed its function computes from that, and had that outcome. */
    ghost predicate PassAt(decision: DecisionFunction, decisions: seq<Decision>, i: nat, start: Memory,
                           band: Band, p: real, q: real)
      requires |states| > 0 && i < |decisions|
    {
      var d, m := decisions[i], MemoryBefore(decision, decisions, i, start, band);
      && d.before == m.values && |m.values| > 0
      && d.request == RequestOf(decision, m, d.windowRate, band, p, q)
      && Outcome(d)
    }

    ghost predicate Passes(decision: DecisionFunction, decisions: seq<Decision>, start: Memory,
                           band: Band, p: real, q: real)
      requires |states| > 0
    {
      forall i :: 0 <= i < |decisions| ==> PassAt(decision, decisions, i, start, band, p, q)
    }

    lemma PassesNext(decision: DecisionFunction, before: seq<Decision>, d: Decision, start: Memory,
                     band: Band, p: real, q: real)
      requires |states| > 0 && Passes(decision, before, start, band, p, q) && Outcome(d)
      requires var m := MemoryBefore(decision, before, |before|, start, band);
        d.before == m.values && |m.values| > 0 && d.request == RequestOf(decision, m, d.windowRate, band, p, q)
      ensures Passes(decision, before + [d], start, band, p, q)
    {
      hide RequestOf;
      hide Outcome;
      var after := before + [d];
      forall i | 0 <= i < |after| ensures PassAt(decision, after, i, start, band, p, q) {
        assert MemoryBefore(decision, after, i, start, band) == MemoryBefore(decision, before, i, start, band);
        assert i < |before| ==> PassAt(decision, before, i, start, band, p, q);
      }
    }

    /** From the first action on a table state runs, whose speed the speed actuator
        shows. */
    lemma {:induction false} TableRunsSince(decision: DecisionFunction, decisions: seq<Decision>, start: Memory,
                                            band: Band, p: real, q: real, i: nat, j: nat)
      requires |states| > 0 && Passes(decision, decisions, start, band, p, q)
      requires i <= j < |decisions| && decisions[i].acted
      ensures RunsTable(decisions[j].after)
    {
      hide RequestOf;
      hide Answers;
      hide RunsState;
      hide Handed;
      assert PassAt(decision, decisions, j, start, band, p, q);
      if !decisions[j].acted {
        TableRunsSince(decision, decisions, start, band, p, q, i, j - 1);
      }
    }

    /** In a run every value the speed actuator takes is within the table. */
    lemma {:induction false} SpeedsWithin(decision: DecisionFunction, decisions: seq<Decision>, start: Memory,
                                          band: Band, p: real, q: real, i: nat)
      requires GoodTable(freqs, coreCount, states) && Passes(decision, decisions, start, band, p, q) && i < |decisions|
      requires start.values != [] && states[0].speed <= start.values[0] <= states[|states| - 1].speed
      ensures decisions[i].before != []
      ensures states[0].speed <= decisions[i].before[0] <= states[|states| - 1].speed
    {
      hide RequestOf;
      hide Answers;
      hide Handed;
      hide TableRow;
      assert PassAt(decision, decisions, i, start, band, p, q);
      if i > 0 {
        SpeedsWithin(decision, decisions, start, band, p, q, i - 1);
        assert PassAt(decision, decisions, i - 1, start, band, p, q);
      }
    }

    /** What decision `i` of a run asks for, from the rates of decisions `i` and `i - 1`
        alone. */
    lemma RunRequests(decision: DecisionFunction, decisions: seq<Decision>, start: Memory, band: Band, p: real, q: real,
                      i: nat, distance: real, earlier: real)
      requires GoodTable(freqs, coreCount, states) && Passes(decision, decisions, start, band, p, q) && i < |decisions|
      requires Short(decision, decisions[i].windowRate, band, distance)
      requires if i == 0 then earlier == start.error else Short(decision, decisions[i - 1].windowRate, band, earlier)
      ensures decisions[i].before != []
      ensures var d, lo, hi := decisions[i], states[0].speed, states[|states| - 1].speed;
        && (decision == MachineStateP || decision == HisteresisP ==>
              Asks(d.request, d.before[0] as real + p * distance, lo, hi))
        && (decision == MachineStatePseudoPI || decision == HisteresisPseudoPI ==>
              Asks(d.request, d.before[0] as real + p * distance + q * earlier, lo, hi))
    {
      hide Asks;
      hide Outcome;
      hide TableRow;
      hide Command;
      assert PassAt(decision, decisions, i, start, band, p, q);
      var m := MemoryBefore(decision, decisions, i, start, band);
      assert i > 0 ==> Error(decision, decisions[i - 1].windowRate, band) == earlier;
      var lo, hi := states[0].speed, states[|states| - 1].speed;
      assert lo <= hi;
      if Remembers(decision) {
        assert m.error == earlier;
        RequestSize(decision, m.values[0], decisions[i].windowRate, band, p, q, earlier, lo, hi, distance);
      } else {
        RequestSize(decision, m.values[0], decisions[i].windowRate, band, p, q, m.error, lo, hi, distance);
      }
    }

    /** `dummy_control` never asks for anything new; so if nothing was pending nothing
        ever changes. */
    lemma {:induction false} DummyKeeps(decisions: seq<Decision>, start: Memory, band: Band, p: real, q: real, i: nat)
      requires |states| > 0 && Passes(DummyControl, decisions, start, band, p, q) && i < |decisions|
      ensures start.values != [] && decisions[i].request == start.request
      ensures start.request == start.values[0] ==> !decisions[i].acted && decisions[i].after == start.values
    {
      hide Answers;
      hide Handed;
      assert PassAt(DummyControl, decisions, i, start, band, p, q);
      if i > 0 {
        DummyKeeps(decisions, start, band, p, q, i - 1);
      }
    }

    /** And which way it goes. */
    lemma RunDirection(decision: DecisionFunction, decisions: seq<Decision>, start: Memory, band: Band,
                       p: real, q: real, i: nat)
      requires GoodTable(freqs, coreCount, states) && Passes(decision, decisions, start, band, p, q) && i < |decisions|
      requires start.values != [] && states[0].speed <= start.values[0] <= states[|states| - 1].speed
      requires (decision == MachineStateP || decision == HisteresisP) && p >= 0.0
      ensures decisions[i].before != []
      ensures var d, rate := decisions[i], decisions[i].windowRate;
        && (decision == MachineStateP ==>
              && (2.0 * rate <= band.min + band.max ==> d.request >= d.before[0])
              && (2.0 * rate >= band.min + band.max ==> d.request <= d.before[0]))
        && (decision == HisteresisP && band.min <= band.max ==>
              && (rate <= band.min ==> d.request >= d.before[0])
              && (rate >= band.max ==> d.request <= d.before[0])
              && (band.min <= rate <= band.max ==> d.request == d.before[0]))
    {
      hide Outcome;
      hide TableRow;
      hide Weighted;
      hide Truncate;
      SpeedsWithin(decision, decisions, start, band, p, q, i);
      assert PassAt(decision, decisions, i, start, band, p, q);
      var m := MemoryBefore(decision, decisions, i, start, band);
      ProportionalDirection(decision, m.values[0], decisions[i].windowRate, band, p,
                            states[0].speed, states[|states| - 1].speed);
    }

    lemma PassesChain(decision: DecisionFunction, decisions: seq<Decision>, start: Memory,
                      band: Band, p: real, q: real)
      requires |states| > 0 && Passes(decision, decisions, start, band, p, q)
      ensures Chained(decisions)
    {
      hide RequestOf;
      forall i | 0 <= i < |decisions|
        ensures !decisions[i].acted ==> decisions[i].after == decisions[i].before
        ensures i > 0 ==> decisions[i].before == decisions[i - 1].after
      {
        assert PassAt(decision, decisions, i, start, band, p, q);
      }
    }

    // -------------------------------------------------------------- the main loop

    /** Between two rounds under this controller. */
    ghost predicate Ready(controller: Controller)
      reads this, Repr
    {
      Paced() && if controller.Step? then Stepped() else Steady()
    }

    /** The decisions account for the run from `start` and `dial` to here. */
    ghost predicate Logged(controller: Controller, start: Memory, dial: Dial, band: Band, p: real, q: real)
      requires Wired()
      reads this, Repr
    {
      match controller
      case Speed(decision) =>
        && Passes(decision, decisions, start, band, p, q)
        && Recall() == MemoryBefore(decision, decisions, |decisions|, start, band)
      case Step =>
        && 1 <= dial.cores <= coreCount == |dial.indices|
        && Steps(decisions, start.values, dial, band)
        && Values() == ValuesBefore(decisions, |decisions|, start.values)
        && CurrentDial() == DialAfter(dial, decisions, band)
    }

    /** The loop of `main`: poll until a record is news, then do a round on it, until
        a beat reaches `maxBeats`. The records read are those of the producer whose
        history is `h`. */
    method MonitorLoop(controller: Controller, polls: seq<Poll>, maxBeats: int, band: Band, p: real, q: real,
                       ghost h: seq<HB.Beat>)
      requires Ready(controller) && decisions == [] && lastBeat == 0 && HB.Ticking(h)
      requires forall i :: 0 <= i < |polls| && polls[i].Got? ==> HB.RecordFrom(h, windowSize, polls[i].record)
      modifies this, Repr, scratchState
      ensures Ready(controller) && Limits() == old(Limits())
      ensures Scheduled(News(polls, |polls|, maxBeats), decisions, windowSize)
      ensures Logged(controller, old(Recall()), old(CurrentDial()), band, p, q)
      ensures controller.Speed? ==>
        forall i, j :: 0 <= i <= j < |decisions| && decisions[i].acted ==> RunsTable(decisions[j].after)
      ensures controller.Step? && LowerAtTop(old(CurrentDial())) ==>
        Position(CurrentDial(), |freqs|)
          == Counts(old(Position(CurrentDial(), |freqs|)), Reports(decisions, band), coreCount * |freqs| - 1)
      ensures forall i :: 0 <= i < |decisions| ==> MeasuredSince(h, windowSize, decisions, i)
    {
      hide Scheduled;
      hide DecidesOrPasses;
      hide DecidedOn;
      hide MeasuredSince;
      hide RunsTable;
      hide Ready;
      hide Logged;
      hide Recall;
      hide CurrentDial;
      hide Wired;
      hide LowerAtTop;
      hide Position;
      hide Counts;
      hide News;
      hide LatestBeat;
      ReadyWired(controller);
      NothingScheduled(windowSize);
      NoNews(polls, maxBeats);
      ghost var start, dial := Recall(), CurrentDial();
      NothingLogged(controller, band, p, q);
      for n := 0 to |polls|
        invariant Ready(controller) && Limits() == old(Limits())
        invariant forall i :: 0 <= i < |decisions| ==> DecidedOn(h, windowSize, decisions[i])
        invariant Logged(controller, start, dial, band, p, q)
        invariant lastBeat == LatestBeat(News(polls, n, maxBeats))
        invariant News(polls, n, maxBeats) != [] ==> lastBeat < maxBeats
        invariant Scheduled(News(polls, n, maxBeats), decisions, windowSize)
      {
        NewsNext(polls, n, maxBeats);
        if polls[n].Failed? || polls[n].record.beat <= lastBeat || polls[n].record.windowRate == 0.0 {
          continue;
        }
        var current := polls[n].record;
        ghost var before, news := decisions, News(polls, n, maxBeats);
        DecidedEarlier(controller);
        OneRound(controller, current, band, p, q, start, dial);
        ScheduleNext(news, before, current, decisions, windowSize);
        DecidedNext(h, before, current, decisions, windowSize);
        if current.beat >= maxBeats {
          NewsStops(polls, n + 1, |polls|, maxBeats);
          break;
        }
      }
      RunMeasured(h, controller, start, dial, band, p, q);
      RunCounts(controller, start, dial, band, p, q);
    }

    /** A round of whichever controller runs. */
    method OneRound(controller: Controller, current: HB.Record, band: Band, p: real, q: real,
                    ghost start: Memory, ghost dial: Dial)
      requires Ready(controller) && current.beat > lastBeat && Logged(controller, start, dial, band, p, q)
      modifies this, Repr, scratchState
      ensures Ready(controller) && Limits() == old(Limits()) && lastBeat == current.beat
      ensures Logged(controller, start, dial, band, p, q)
      ensures DecidesOrPasses(old(decisions), current, decisions, windowSize)
    {
      hide DecidesOrPasses;
      hide Passes;
      hide Steps;
      hide Paced;
      hide Steady;
      hide Stepped;
      hide Wired;
      ReadyWired(controller);
      match controller {
        case Speed(decision) =>
          RoundLogged(decision, current, band, p, q, start);
        case Step =>
          StepLogged(current, band, start.values, dial);
      }
      ReadyWired(controller);
    }

    lemma ReadyWired(controller: Controller)
      requires Ready(controller)
      ensures Wired() && Linked() && |controls| == coreCount + 3 && |states| > 0 && coreCount > 0 && |freqs| > 0
      ensures windowSize > 0
      ensures controller.Step? ==> InRange(CurrentDial(), coreCount, |freqs|)
    {
    }

    lemma NothingLogged(controller: Controller, band: Band, p: real, q: real)
      requires Ready(controller) && decisions == []
      ensures Wired() && Logged(controller, Recall(), CurrentDial(), band, p, q)
    {
    }

    /** A round, on the log of the run. */
    method RoundLogged(decision: DecisionFunction, current: HB.Record, band: Band, p: real, q: real,
                       ghost start: Memory)
      requires Valid() && current.beat > lastBeat
      requires Passes(decision, decisions, start, band, p, q)
      requires Recall() == MemoryBefore(decision, decisions, |decisions|, start, band)
      modifies this, Repr, scratchState
      ensures Valid() && Limits() == old(Limits()) && lastBeat == current.beat
      ensures Passes(decision, decisions, start, band, p, q)
      ensures Recall() == MemoryBefore(decision, decisions, |decisions|, start, band)
      ensures DecidesOrPasses(old(decisions), current, decisions, windowSize)
    {
      hide DecidesOrPasses;
      hide Outcome;
      hide Passes;
      hide RequestOf;
      hide Valid;
      ValidLinked();
      ghost var before, skip := decisions, skipUntilBeat;
      Round(decision, current, band, p, q);
      if current.beat >= skip {
        PassesNext(decision, before, decisions[|before|], start, band, p, q);
      }
    }

    lemma SpeedInTable()
      requires Valid()
      ensures Linked() && |controls| > 0 && |states| > 0
      ensures states[0].speed <= Values()[0] <= states[|states| - 1].speed
    {
    }

    lemma SteadyLinked()
      requires Steady()
      ensures Linked() && |controls| == coreCount + 3 && |states| > 0
    {
    }

    lemma ValidLinked()
      requires Valid()
      ensures Linked() && |controls| == coreCount + 3 && |states| > 0
    {
    }

    lemma DecidedEarlier(controller: Controller)
      requires Ready(controller)
      ensures forall i :: 0 <= i < |decisions| ==> decisions[i].beat <= lastBeat
    {
    }

    lemma LoggedChain(controller: Controller, start: Memory, dial: Dial, band: Band, p: real, q: real)
      requires Wired() && Logged(controller, start, dial, band, p, q)
      ensures Chained(decisions)
      ensures controller.Speed? ==> Passes(controller.decision, decisions, start, band, p, q)
    {
      hide Passes;
      hide Steps;
      hide Chained;
      match controller {
        case Speed(decision) =>
          PassesChain(decision, decisions, start, band, p, q);
        case Step =>
          StepsChain(decisions, start.values, dial, band);
      }
    }

    lemma RunMeasured(h: seq<HB.Beat>, controller: Controller, start: Memory, dial: Dial, band: Band, p: real, q: real)
      requires Ready(controller) && HB.Ticking(h)
      requires forall i :: 0 <= i < |decisions| ==> DecidedOn(h, windowSize, decisions[i])
      requires Wired() && Logged(controller, start, dial, band, p, q)
      ensures forall i :: 0 <= i < |decisions| ==> MeasuredSince(h, windowSize, decisions, i)
      ensures controller.Speed? ==>
        forall i, j :: 0 <= i <= j < |decisions| && decisions[i].acted ==> RunsTable(decisions[j].after)
    {
      hide DecidedOn;
      hide MeasuredSince;
      hide RunsTable;
      hide Passes;
      hide Chained;
      hide Logged;
      hide Waits;
      hide Steady;
      hide Stepped;
      hide Wired;
      ReadyWired(controller);
      LoggedChain(controller, start, dial, band, p, q);
      forall i | 0 <= i < |decisions| ensures MeasuredSince(h, windowSize, decisions, i) {
        FullWindow(h, windowSize, decisions, i, skipUntilBeat, lastBeat);
      }
      if controller.Speed? {
        forall i, j | 0 <= i <= j < |decisions| && decisions[i].acted ensures RunsTable(decisions[j].after) {
          TableRunsSince(controller.decision, decisions, start, band, p, q, i, j);
        }
      }
    }

    // -------------------------------------------------------------- step_heuristics

    ghost function CurrentDial(): Dial
      reads Repr
      requires Wired()
    {
      DialOf(Values(), Indices(), coreCount)
    }

    /** Every core is set to the frequency its index names, and nothing is pending. */
    ghost predicate Stepped()
      reads Repr
    {
      && Wired() && Limited() && NonNegative(Values(), coreCount)
      && Values() == SetValues()
      && InRange(CurrentDial(), coreCount, |freqs|)
      && Follows(Values(), CurrentDial(), freqs)
    }

    /** `controls[j]` is to run at entry `index` of its frequency list. */
    method AimIndex(j: nat, index: nat)
      requires Wired() && j < |controls| && index < |freqs|
      modifies Repr
      ensures SetValues() == old(SetValues())[j := freqs[index]] && Indices() == old(Indices())[j := index]
      ensures Values() == old(Values()) && Limits() == old(Limits())
    {
      controls[j].curIndex := index;
      controls[j].setValue := freqs[index];
    }

    /** What `step_heuristics` leaves alone: the values, the limits, and the settings and
        indices of the speed and global frequency actuators. */
    ghost function Untouched(): (seq<int>, seq<(int, int)>, seq<int>)
      reads Repr
      requires Wired()
    {
      (Values(), Limits(),
       [SetValues()[0], SetValues()[coreCount + 1], Indices()[0], Indices()[coreCount + 1], Indices()[coreCount + 2]])
    }

    /** The settings and indices are those of dial `d`. */
    ghost predicate Aimed(d: Dial)
      reads Repr
      requires Wired()
    {
      && DialOf(SetValues(), Indices(), coreCount) == d && InRange(d, coreCount, |freqs|)
      && Follows(SetValues(), d, freqs) && NonNegative(SetValues(), coreCount)
    }

    /** What a stepped machine's dial reads, and where it is read from. */
    lemma ReadDial()
      requires Stepped()
      ensures Wired() && |controls| == coreCount + 3 && Aimed(CurrentDial())
      ensures 1 <= CurrentDial().cores == CoreAct().value <= coreCount == |CurrentDial().indices|
      ensures CoreAct().min == 1 && CoreAct().max == coreCount
      ensures 0 <= FreqAct(CoreAct().value - 1).curIndex == CurrentDial().indices[CoreAct().value - 1] < |freqs|
    {
      assert Limits()[coreCount + 2] == (CoreAct().min, CoreAct().max);
      assert CurrentDial().indices[CoreAct().value - 1] == Indices()[CoreAct().value];
    }

    /** A machine just initialised can be driven by `step_heuristics` too. */
    lemma StartsStepped(coreValue: int, freqIndices: seq<nat>)
      requires Valid() && SetValues() == Values() && 1 <= coreValue <= coreCount && |freqIndices| == coreCount
      requires ReadBack(Values(), Indices(), coreCount, freqs, coreValue, freqIndices)
      ensures Stepped()
    {
      assert forall c :: 0 <= c < coreCount ==> CurrentDial().indices[c] == Indices()[1 + c] == freqIndices[c];
    }

    lemma SteppedDial()
      requires Stepped()
      ensures Wired() && |controls| == coreCount + 3 && SetValues() == Values()
      ensures CurrentDial() == DialOf(Values(), Indices(), coreCount)
      ensures InRange(CurrentDial(), coreCount, |freqs|) && Follows(Values(), CurrentDial(), freqs)
      ensures NonNegative(Values(), coreCount)
      ensures 1 <= CurrentDial().cores == CoreAct().value == Values()[coreCount + 2] <= coreCount
      ensures coreCount == |CurrentDial().indices|
    {
    }

    /** Move the last core to entry `index` of its frequency list. */
    method TurnLast(index: nat)
      requires Stepped() && index < |freqs|
      modifies Repr
      ensures Untouched() == old(Untouched())
      ensures Aimed(old(Dial(CurrentDial().cores, CurrentDial().indices[CurrentDial().cores - 1 := index])))
    {
      hide Stepped;
      hide Wired;
      hide InRange;
      hide Follows;
      hide NonNegative;
      hide DialOf;
      SteppedDial();
      ghost var values, indices, cores := Values(), Indices(), CurrentDial().cores;
      DialTurned(values, indices, cores, cores - 1, index, freqs, coreCount);
      assert values == values[coreCount + 2 := cores];
      AimIndex(CoreAct().value, index);
    }

    /** One more core, at entry `index` of its frequency list. */
    method AddCore(index: nat)
      requires Stepped() && index < |freqs| && CurrentDial().cores < coreCount
      modifies Repr
      ensures Untouched() == old(Untouched())
      ensures Aimed(old(Dial(CurrentDial().cores + 1, CurrentDial().indices[CurrentDial().cores := index])))
    {
      hide Stepped;
      hide Wired;
      hide InRange;
      hide Follows;
      hide NonNegative;
      hide DialOf;
      SteppedDial();
      ghost var values, indices, cores := Values(), Indices(), CurrentDial().cores;
      DialTurned(values, indices, cores + 1, cores, index, freqs, coreCount);
      Aim(coreCount + 2, CoreAct().value + 1);
      assert Values()[coreCount + 2] == CoreAct().value;
      AimIndex(CoreAct().value + 1, index);
    }

    /** Drop the last core; the one before it keeps its frequency. */
    method DropLast()
      requires Stepped() && CurrentDial().cores > 1
      modifies Repr
      ensures Untouched() == old(Untouched())
      ensures Aimed(old(Dial(CurrentDial().cores - 1, CurrentDial().indices)))
    {
      hide GoodTable;
      ghost var values := Values();
      assert values[coreCount + 2] == CoreAct().value;
      Aim(coreCount + 2, CoreAct().value - 1);
    }

    /** The rate is too low: raise the last core's frequency, or add a core. */
    method StepUp()
      requires Stepped()
      modifies Repr
      ensures Untouched() == old(Untouched())
      ensures Aimed(Turn(old(CurrentDial()), TooLow, coreCount, |freqs|))
    {
      hide Wired;
      hide Untouched;
      hide Stepped;
      hide Aimed;
      hide CurrentDial;
      ReadDial();
      var lastCore := CoreAct().value - 1;
      if FreqAct(lastCore).curIndex > 0 {
        TurnLast(FreqAct(lastCore).curIndex - 1);
      } else if lastCore < CoreAct().max - 1 {
        AddCore(|freqs| - 1);
      }
    }

    /** The rate is too high: lower the last core's frequency, or drop it. */
    method StepDown()
      requires Stepped()
      modifies Repr
      ensures Untouched() == old(Untouched())
      ensures Aimed(Turn(old(CurrentDial()), TooHigh, coreCount, |freqs|))
    {
      hide Wired;
      hide Untouched;
      hide Stepped;
      hide Aimed;
      hide CurrentDial;
      ReadDial();
      var lastCore := CoreAct().value - 1;
      if FreqAct(lastCore).curIndex < |freqs| - 1 {
        TurnLast(FreqAct(lastCore).curIndex + 1);
      } else if lastCore > CoreAct().min - 1 {
        DropLast();
      }
    }

    method StepHeuristics(rate: real, band: Band)
      requires Stepped()
      modifies Repr
      ensures Untouched() == old(Untouched())
      ensures Aimed(Turn(old(CurrentDial()), ReportOf(rate, band), coreCount, |freqs|))
    {
      hide Wired;
      hide Untouched;
      hide Stepped;
      hide Aimed;
      hide CurrentDial;
      ReadDial();
      if rate < band.min {
        StepUp();
      } else if rate > band.max {
        StepDown();
      }
    }

    /** A decision of `step_heuristics` and the actuator pass after it: the dial
        turns by the report, and what runs is what the dial says. */
    method StepRound(rate: real, band: Band) returns (acted: bool)
      requires Stepped()
      modifies Repr, scratchState
      ensures Stepped() && Limits() == old(Limits())
      ensures CurrentDial() == Turn(old(CurrentDial()), ReportOf(rate, band), coreCount, |freqs|)
      ensures Running(Values(), coreCount) == Frequencies(CurrentDial(), freqs, coreCount)
      ensures acted <==> Values() != old(Values())
      ensures Moves(old(Values()), Values(), rate, band)
    {
      hide GoodTable;
      hide Turn;
      hide Moves;
      hide ReportOf;
      ghost var before, dial := Values(), CurrentDial();
      StepHeuristics(rate, band);
      assert Untouched() == old(Untouched());
      assert Limits()[coreCount + 2].1 == CoreAct().max;
      ghost var goal, indices := SetValues(), Indices();
      ghost var r: nat;
      acted, r := ActuatorPass();
      assert Values() == goal && SetValues() == goal && Indices() == indices;
      StepMoves(before, goal, dial, CurrentDial(), rate, band);
    }

    /** How a decision of `step_heuristics` moves the total frequency of what runs: up
        when the rate is below the band, unless every core runs at the highest; down
        when it is above, unless one core runs at the lowest; and not at all inside. */
    ghost predicate Moves(before: seq<int>, after: seq<int>, rate: real, band: Band)
      requires coreCount > 0 && |freqs| > 0 && NonNegative(before, coreCount) && NonNegative(after, coreCount)
    {
      && (rate < band.min ==>
            if before[coreCount + 2] == coreCount && before[coreCount] == freqs[0] then after == before
            else Sum(Running(after, coreCount)) > Sum(Running(before, coreCount)))
      && (band.min <= rate && band.max < rate ==>
            if before[coreCount + 2] == 1 && before[1] == freqs[|freqs| - 1] then after == before
            else Sum(Running(after, coreCount)) < Sum(Running(before, coreCount)))
      && (band.min <= rate <= band.max ==> after == before)
    }

    lemma StepMoves(before: seq<int>, after: seq<int>, d: Dial, next: Dial, rate: real, band: Band)
      requires ValidFreqs(freqs) && NonNegative(before, coreCount) && NonNegative(after, coreCount)
      requires InRange(d, coreCount, |freqs|) && next == Turn(d, ReportOf(rate, band), coreCount, |freqs|)
      requires InRange(next, coreCount, |freqs|) && Follows(before, d, freqs) && Follows(after, next, freqs)
      requires before[coreCount + 2] == d.cores && after[coreCount + 2] == next.cores
      requires after[0] == before[0] && after[coreCount + 1] == before[coreCount + 1]
      ensures Moves(before, after, rate, band)
    {
      hide Turn;
      hide Sum;
      TurnMoves(d, ReportOf(rate, band), freqs, coreCount);
      assert Running(before, coreCount) == Frequencies(d, freqs, coreCount);
      assert Running(after, coreCount) == Frequencies(next, freqs, coreCount);
      assert before[1 + (coreCount - 1)] == freqs[d.indices[coreCount - 1]];
      assert before[1 + 0] == freqs[d.indices[0]];
      if next == d {
        forall i | 0 <= i < |after| ensures after[i] == before[i] {
          if 1 <= i <= coreCount {
            assert after[1 + (i - 1)] == freqs[d.indices[i - 1]] == before[1 + (i - 1)];
          }
        }
      }
    }

    /** A round of `step_heuristics`: wait, or turn the dial and act. */
    method StepDecide(current: HB.Record, band: Band)
      requires Stepped() && Paced() && current.beat > lastBeat
      modifies this, Repr, scratchState
      ensures Stepped() && Paced() && Limits() == old(Limits()) && lastBeat == current.beat
      ensures current.beat < old(skipUntilBeat) ==>
        CurrentDial() == old(CurrentDial()) && Values() == old(Values()) && decisions == old(decisions)
      ensures current.beat >= old(skipUntilBeat) ==>
        var d := Decision(current.beat, current.windowRate, old(Values()), SetValues()[0], Values(),
                          Values() != old(Values()));
        && decisions == old(decisions) + [d]
        && skipUntilBeat == current.beat + (if d.acted then windowSize else 1)
        && CurrentDial() == Turn(old(CurrentDial()), ReportOf(current.windowRate, band), coreCount, |freqs|)
        && Running(Values(), coreCount) == Frequencies(CurrentDial(), freqs, coreCount)
        && Moves(old(Values()), Values(), current.windowRate, band)
      ensures DecidesOrPasses(old(decisions), current, decisions, windowSize)
    {
      hide Moves;
      hide Stepped;
      hide Wired;
      hide Paced;
      hide Turn;
      hide CurrentDial;
      hide Running;
      hide Frequencies;
      SteppedDial();
      ghost var before := Values();
      if current.beat < skipUntilBeat {
        WaitOn(current);
      } else {
        var acted := StepRound(current.windowRate, band);
        SteppedDial();
        WaitAfter(current, acted,
                  Decision(current.beat, current.windowRate, before, SetValues()[0], Values(), acted));
      }
    }

    /** The dial after the decisions, from `dial`. */
    ghost function DialAfter(dial: Dial, decisions: seq<Decision>, band: Band): (last: Dial)
      requires 1 <= dial.cores <= coreCount == |dial.indices|
      ensures 1 <= last.cores <= coreCount == |last.indices|
    {
      Turns(dial, Reports(decisions, band), coreCount, |freqs|)
    }

    /** Decision `i` of a run of `step_heuristics`: it found the values the one before
        left, acted if it changed them, and left running what the dial then says. */
    ghost predicate StepAt(decisions: seq<Decision>, i: nat, values: seq<int>, dial: Dial, band: Band)
      requires |freqs| > 0 && i < |decisions| && 1 <= dial.cores <= coreCount == |dial.indices|
    {
      var d, next := decisions[i], DialAfter(dial, decisions[..i + 1], band);
      && d.before == ValuesBefore(decisions, i, values)
      && (d.acted <==> d.after != d.before)
      && InRange(next, coreCount, |freqs|) && NonNegative(d.before, coreCount) && NonNegative(d.after, coreCount)
      && Running(d.after, coreCount) == Frequencies(next, freqs, coreCount)
      && Moves(d.before, d.after, d.windowRate, band)
    }

    ghost predicate Steps(decisions: seq<Decision>, values: seq<int>, dial: Dial, band: Band)
      requires |freqs| > 0 && 1 <= dial.cores <= coreCount == |dial.indices|
    {
      forall i :: 0 <= i < |decisions| ==> StepAt(decisions, i, values, dial, band)
    }

    lemma StepsNext(before: seq<Decision>, d: Decision, values: seq<int>, dial: Dial, band: Band)
      requires |freqs| > 0 && 1 <= dial.cores <= coreCount == |dial.indices| && Steps(before, values, dial, band)
      requires NonNegative(d.before, coreCount) && NonNegative(d.after, coreCount)
      requires Moves(d.before, d.after, d.windowRate, band)
      requires d.before == ValuesBefore(before, |before|, values) && (d.acted <==> d.after != d.before)
      requires var next := Turn(DialAfter(dial, before, band), ReportOf(d.windowRate, band), coreCount, |freqs|);
        InRange(next, coreCount, |freqs|) && Running(d.after, coreCount) == Frequencies(next, freqs, coreCount)
      ensures Steps(before + [d], values, dial, band)
      ensures DialAfter(dial, before + [d], band)
           == Turn(DialAfter(dial, before, band), ReportOf(d.windowRate, band), coreCount, |freqs|)
    {
      hide InRange;
      hide NonNegative;
      hide Moves;
      hide Running;
      hide Frequencies;
      hide Turn;
      hide Turns;
      hide ReportOf;
      var after := before + [d];
      TurnsAppend(dial, Reports(before, band), ReportOf(d.windowRate, band), coreCount, |freqs|);
      assert Reports(after, band) == Reports(before, band) + [ReportOf(d.windowRate, band)];
      assert after[..|before| + 1] == after;
      forall i | 0 <= i < |after| ensures StepAt(after, i, values, dial, band) {
        if i < |before| {
          assert StepAt(before, i, values, dial, band);
          assert after[..i + 1] == before[..i + 1];
        }
      }
    }

    lemma StepsChain(decisions: seq<Decision>, values: seq<int>, dial: Dial, band: Band)
      requires |freqs| > 0 && 1 <= dial.cores <= coreCount == |dial.indices| && Steps(decisions, values, dial, band)
      ensures Chained(decisions)
    {
      hide Moves;
      hide DialAfter;
      hide InRange;
      hide Running;
      hide Frequencies;
      forall i | 0 <= i < |decisions|
        ensures !decisions[i].acted ==> decisions[i].after == decisions[i].before
        ensures i > 0 ==> decisions[i].before == decisions[i - 1].after
      {
        assert StepAt(decisions, i, values, dial, band);
      }
    }

    /** A round of `step_heuristics`, on the log of the run. */
    method StepLogged(current: HB.Record, band: Band, ghost values: seq<int>, ghost dial: Dial)
      requires Stepped() && Paced() && current.beat > lastBeat
      requires |freqs| > 0 && 1 <= dial.cores <= coreCount == |dial.indices| && Steps(decisions, values, dial, band)
      requires Values() == ValuesBefore(decisions, |decisions|, values)
      requires CurrentDial() == DialAfter(dial, decisions, band)
      modifies this, Repr, scratchState
      ensures Stepped() && Paced() && Limits() == old(Limits()) && lastBeat == current.beat
      ensures Steps(decisions, values, dial, band)
      ensures Values() == ValuesBefore(decisions, |decisions|, values)
      ensures CurrentDial() == DialAfter(dial, decisions, band)
      ensures DecidesOrPasses(old(decisions), current, decisions, windowSize)
    {
      hide DecidesOrPasses;
      hide Stepped;
      hide Moves;
      hide Wired;
      hide Paced;
      hide Steps;
      hide DialAfter;
      hide CurrentDial;
      hide Turn;
      hide Running;
      hide Frequencies;
      SteppedReads();
      ghost var before, skip := decisions, skipUntilBeat;
      StepDecide(current, band);
      SteppedReads();
      if current.beat >= skip {
        StepsNext(before, decisions[|before|], values, dial, band);
      }
    }

    lemma SteppedReads()
      requires Stepped()
      ensures Wired() && |controls| == coreCount + 3
      ensures InRange(CurrentDial(), coreCount, |freqs|) && NonNegative(Values(), coreCount)
    {
    }

    /** With the lower cores at the top, a run of `step_heuristics` is the saturating
        counter of the reports it decided on. */
    lemma RunCounts(controller: Controller, start: Memory, dial: Dial, band: Band, p: real, q: real)
      requires Ready(controller) && Wired() && Logged(controller, start, dial, band, p, q)
      requires controller.Step? ==> InRange(dial, coreCount, |freqs|)
      ensures controller.Step? && LowerAtTop(dial) ==>
        Position(CurrentDial(), |freqs|)
          == Counts(Position(dial, |freqs|), Reports(decisions, band), coreCount * |freqs| - 1)
    {
      hide Ready;
      hide Steps;
      hide Passes;
      hide CurrentDial;
      hide LowerAtTop;
      if controller.Step? && LowerAtTop(dial) {
        TurnsCount(dial, Reports(decisions, band), coreCount, |freqs|);
      }
    }

    lemma BoundsNonNegative(values: seq<int>)
      requires Wired() && |values| == coreCount + 3 && InBounds(values)
      ensures NonNegative(values, coreCount)
    {
    }

    /** An actuator pass over settings that differ from the values in the speed alone. */
    lemma PassOutcome(d: Decision, goal: seq<int>, r: nat)
      requires Wired() && |d.before| == |d.after| == |goal| == coreCount + 3 && InBounds(d.before)
      requires d.request == goal[0] && forall i :: 1 <= i < |goal| ==> d.before[i] == goal[i]
      requires d.acted <==> d.before != goal
      requires d.before[0] == goal[0] ==> d.after == goal
      requires d.before[0] != goal[0] ==>
        && r < |states| && Answers(states, goal[0], r)
        && d.after == Handed(goal, states[r], coreCount)[0 := states[r].speed]
      ensures Outcome(d) && InBounds(d.after)
    {
      hide Answers;
      hide InBounds;
      if d.before[0] == goal[0] {
        assert d.before == goal;
      } else {
        HandedInBounds(d.before, goal, r);
        BoundsNonNegative(d.before);
        HandedReached(d.before, goal, r);
      }
    }

    lemma SettledNonNegative(values: seq<int>, setValues: seq<int>)
      requires NonNegative(values, coreCount) && |setValues| == |values|
      requires forall i :: 1 <= i < |values| ==> values[i] == setValues[i]
      ensures NonNegative(setValues, coreCount)
    {
    }

    /** Handing over a table state brings the values within bounds, whatever ran. */
    lemma HandedInBounds(start: seq<int>, goal: seq<int>, r: nat)
      requires Wired() && |start| == |goal| == coreCount + 3 && r < |states|
      requires forall i :: 1 <= i < |goal| ==> goal[i] == start[i]
      requires InBounds(start)
      ensures InBounds(Handed(goal, states[r], coreCount)[0 := states[r].speed])
    {
      var s := states[r];
      var values := Handed(goal, s, coreCount)[0 := s.speed];
      assert TableRow(freqs, coreCount, s);
      RowRuns(freqs, coreCount, s);
      HandedRuns(goal, s, freqs, coreCount, s.speed);
      assert states[0].speed <= s.speed <= states[|states| - 1].speed;
      forall i | 1 <= i <= coreCount ensures values[i] in freqs {
        assert i <= Active(s.cores) ==> s.cores[i - 1] in freqs;
      }
    }

    lemma HandedReached(start: seq<int>, goal: seq<int>, r: nat)
      requires Wired() && |start| == |goal| == coreCount + 3 && r < |states|
      requires forall i :: 1 <= i < |goal| ==> goal[i] == start[i]
      requires NonNegative(start, coreCount)
      ensures RunsHanded(start, Handed(goal, states[r], coreCount)[0 := states[r].speed], r)
    {
      var s := states[r];
      assert TableRow(freqs, coreCount, s);
      HandedRuns(start, s, freqs, coreCount, s.speed);
      assert Handed(goal, s, coreCount)[0 := s.speed] == Handed(start, s, coreCount)[0 := s.speed];
    }
  }

  /** The skip point tells exactly which news is a window after the last action. */
  lemma SkipsExactly(decisions: seq<Decision>, windowSize: nat, lastBeat: int, beat: int)
    requires Waits(decisions, windowSize, SkipAfter(decisions, windowSize), lastBeat) && beat > lastBeat
    ensures beat >= SkipAfter(decisions, windowSize) <==> beat >= LastAction(decisions) + windowSize
  {
  }

  lemma LaterBeatWaits(decisions: seq<Decision>, windowSize: nat, skipUntilBeat: int, before: int, after: int)
    requires Waits(decisions, windowSize, skipUntilBeat, before) && before <= after
    ensures Waits(decisions, windowSize, skipUntilBeat, after)
  {
  }

  /** A decision after the wait keeps the waiting rule, whether or not it acts. */
  lemma WaitsNext(decisions: seq<Decision>, windowSize: nat, skipUntilBeat: int, lastBeat: int, d: Decision)
    requires Waits(decisions, windowSize, skipUntilBeat, lastBeat) && d.beat > lastBeat && d.beat >= skipUntilBeat
    requires windowSize > 0
    ensures SkipAfter(decisions + [d], windowSize) == d.beat + (if d.acted then windowSize else 1)
    ensures Waits(decisions + [d], windowSize, d.beat + (if d.acted then windowSize else 1), d.beat)
  {
    var next := decisions + [d];
    assert next[..|decisions|] == decisions;
    forall i | 0 <= i < |next| ensures next[i].beat >= LastAction(next[..i]) + windowSize {
      if i < |decisions| {
        assert next[..i] == decisions[..i];
      }
    }
  }

  /** `request` is a command truncated to a whole number and clipped to `lo`..`hi`. */
  ghost predicate Asks(request: int, command: real, lo: int, hi: int) {
    && (command <= lo as real ==> request == lo)
    && (command >= hi as real ==> request == hi)
    && (lo as real <= command <= hi as real ==> request as real <= command < (request + 1) as real)
  }

  /** How far below its goal a rate is: the middle of the band for the functions without
      hysteresis, the nearest point of the band for those with it. */
  ghost predicate Short(decision: DecisionFunction, rate: real, band: Band, distance: real) {
    match decision
    case DummyControl => false
    case MachineStateP => rate + distance == (band.min + band.max) / 2.0
    case MachineStatePseudoPI => rate + distance == (band.min + band.max) / 2.0
    case _ =>
      && (rate < band.min ==> rate + distance == band.min)
      && (band.min <= rate && band.max < rate ==> rate + distance == band.max)
      && (band.min <= rate <= band.max ==> distance == 0.0)
  }

  /** The command: `p` per unit of rate short of the goal, and for the two functions that
      remember, `q` per unit the decision before was short. */
  lemma RequestSize(decision: DecisionFunction, value: int, rate: real, band: Band, p: real, q: real, oldError: real,
                    lo: int, hi: int, distance: real)
    requires 0 <= lo <= hi && Short(decision, rate, band, distance)
    ensures var request := Clip(Truncate(Command(decision, value, rate, band, p, q, oldError)), lo, hi);
      && (decision == MachineStateP || decision == HisteresisP ==>
            Asks(request, value as real + p * distance, lo, hi))
      && (decision == MachineStatePseudoPI || decision == HisteresisPseudoPI ==>
            Asks(request, value as real + p * distance + q * oldError, lo, hi))
  {
    assert Error(decision, rate, band) == distance;
    ClippedAsks(Command(decision, value, rate, band, p, q, oldError), lo, hi);
  }

  lemma ClippedAsks(command: real, lo: int, hi: int)
    requires 0 <= lo <= hi
    ensures Asks(Clip(Truncate(command), lo, hi), command, lo, hi)
  {
  }

  /** A proportional controller with a non-negative gain never moves the speed request
      down while the rate is below its goal, nor up while it is above; and inside the
      band the one with hysteresis asks for what it has. */
  lemma ProportionalDirection(decision: DecisionFunction, value: int, rate: real, band: Band, p: real, lo: int, hi: int)
    requires decision == MachineStateP || decision == HisteresisP
    requires 0 <= lo <= value <= hi && p >= 0.0
    ensures var target := Clip(Truncate(Command(decision, value, rate, band, p, 0.0, 0.0)), lo, hi);
      && (decision == MachineStateP ==>
            && (2.0 * rate <= band.min + band.max ==> target >= value)
            && (2.0 * rate >= band.min + band.max ==> target <= value))
      && (decision == HisteresisP ==>
            && (rate <= band.min ==> band.min <= band.max ==> target >= value)
            && (rate >= band.max ==> band.min <= band.max ==> target <= value)
            && (band.min <= rate <= band.max ==> target == value))
  {
    hide Weighted;
    WeightedSign(p, Error(decision, rate, band));
  }

  lemma WeightedSign(gain: real, error: real)
    requires gain >= 0.0
    ensures error >= 0.0 ==> Weighted(gain, error) >= 0.0
    ensures error <= 0.0 ==> Weighted(gain, error) <= 0.0
  {
  }

  /** A poll of the monitor: not yet valid, or a record. */
  datatype Poll = Failed | Got(record: HB.Record)

  /** The records among the first `n` polls that are news: each later than the one
      before, with a rate, up to the first that reaches `maxBeats`. */
  ghost function News(polls: seq<Poll>, n: nat, maxBeats: int): seq<HB.Record>
    requires n <= |polls|
  {
    if n == 0 then [] else
      var news := News(polls, n - 1, maxBeats);
      if news != [] && LatestBeat(news) >= maxBeats then news
      else if polls[n - 1].Failed? || polls[n - 1].record.beat <= LatestBeat(news)
        || polls[n - 1].record.windowRate == 0.0 then news
      else news + [polls[n - 1].record]
  }

  ghost function LatestBeat(news: seq<HB.Record>): int {
    if news == [] then 0 else news[|news| - 1].beat
  }

  ghost predicate HasRate(poll: Poll) {
    poll.Got? && poll.record.windowRate != 0.0
  }

  /** An earlier poll ended the loop. */
  ghost predicate Stopped(polls: seq<Poll>, n: nat, maxBeats: int)
    requires n <= |polls|
  {
    exists m :: 0 <= m < n && HasRate(polls[m]) && polls[m].record.beat > 0 && polls[m].record.beat >= maxBeats
  }

  /** Poll `n` is news: it has a rate and a beat later than every earlier poll with a
      rate, none of which ended the loop. */
  ghost predicate IsNews(polls: seq<Poll>, n: nat, maxBeats: int)
    requires n < |polls|
  {
    && HasRate(polls[n]) && polls[n].record.beat > 0 && !Stopped(polls, n, maxBeats)
    && forall m :: 0 <= m < n && HasRate(polls[m]) ==> polls[m].record.beat < polls[n].record.beat
  }

  /** Until the loop ends the latest beat is the greatest one polled with a rate. */
  lemma {:induction false} LatestIsGreatest(polls: seq<Poll>, n: nat, maxBeats: int)
    requires n <= |polls|
    ensures var news := News(polls, n, maxBeats);
      && LatestBeat(news) >= 0 && (news != [] ==> LatestBeat(news) > 0)
      && (Stopped(polls, n, maxBeats) <==> news != [] && LatestBeat(news) >= maxBeats)
      && (!Stopped(polls, n, maxBeats) ==>
            && (forall m :: 0 <= m < n && HasRate(polls[m]) ==> polls[m].record.beat <= LatestBeat(news))
            && (news != [] ==>
                  exists m :: 0 <= m < n && HasRate(polls[m]) && polls[m].record.beat == LatestBeat(news)))
  {
    if n > 0 {
      LatestIsGreatest(polls, n - 1, maxBeats);
      var before, news := News(polls, n - 1, maxBeats), News(polls, n, maxBeats);
      if Stopped(polls, n - 1, maxBeats) {
        assert news == before;
        assert Stopped(polls, n, maxBeats);
      } else {
        assert Stopped(polls, n, maxBeats) <==>
          HasRate(polls[n - 1]) && polls[n - 1].record.beat > 0 && polls[n - 1].record.beat >= maxBeats;
        assert HasRate(polls[n - 1]) && polls[n - 1].record.beat > LatestBeat(before) ==>
          LatestBeat(news) == polls[n - 1].record.beat;
      }
    }
  }

  /** The loop takes exactly the polls that are news. */
  lemma NewsExact(polls: seq<Poll>, n: nat, maxBeats: int)
    requires n < |polls|
    ensures News(polls, n + 1, maxBeats)
         == News(polls, n, maxBeats) + if IsNews(polls, n, maxBeats) then [polls[n].record] else []
  {
    hide Stopped;
    LatestIsGreatest(polls, n, maxBeats);
    var news := News(polls, n, maxBeats);
    assert news + [] == news;
    if HasRate(polls[n]) && !Stopped(polls, n, maxBeats) && polls[n].record.beat > LatestBeat(news) {
      assert IsNews(polls, n, maxBeats);
    }
  }

  lemma NoNews(polls: seq<Poll>, maxBeats: int)
    ensures News(polls, 0, maxBeats) == [] && LatestBeat([]) == 0
  {
  }

  lemma NewsNext(polls: seq<Poll>, n: nat, maxBeats: int)
    requires n < |polls|
    requires var news := News(polls, n, maxBeats); news != [] ==> LatestBeat(news) < maxBeats
    ensures var news, poll := News(polls, n, maxBeats), polls[n];
      if poll.Failed? || poll.record.beat <= LatestBeat(news) || poll.record.windowRate == 0.0
      then News(polls, n + 1, maxBeats) == news
      else
        && News(polls, n + 1, maxBeats) == news + [poll.record]
        && LatestBeat(News(polls, n + 1, maxBeats)) == poll.record.beat
  {
  }

  lemma {:induction false} NewsStops(polls: seq<Poll>, n: nat, m: nat, maxBeats: int)
    requires n <= m <= |polls|
    requires News(polls, n, maxBeats) != [] && LatestBeat(News(polls, n, maxBeats)) >= maxBeats
    ensures News(polls, m, maxBeats) == News(polls, n, maxBeats)
  {
    if n < m {
      NewsStops(polls, n, m - 1, maxBeats);
    }
  }

  /** Each piece of news was decided on at once if it came a window or more after the
      last action (or the start), and otherwise passed over. */
  ghost predicate Scheduled(news: seq<HB.Record>, decisions: seq<Decision>, windowSize: nat) {
    if news == [] then decisions == [] else
      var init, r := news[..|news| - 1], news[|news| - 1];
      if decisions != [] && decisions[|decisions| - 1].beat == r.beat then
        var earlier, d := decisions[..|decisions| - 1], decisions[|decisions| - 1];
        && Scheduled(init, earlier, windowSize)
        && r.beat >= LastAction(earlier) + windowSize && d.windowRate == r.windowRate
      else
        Scheduled(init, decisions, windowSize) && r.beat < LastAction(decisions) + windowSize
  }

  lemma NothingScheduled(windowSize: nat)
    ensures Scheduled([], [], windowSize)
  {
  }

  /** What a round makes of one piece of news. */
  ghost predicate DecidesOrPasses(before: seq<Decision>, r: HB.Record, after: seq<Decision>, windowSize: nat) {
    if r.beat < LastAction(before) + windowSize then after == before
    else
      && |after| == |before| + 1 && after[..|before|] == before
      && after[|before|].beat == r.beat && after[|before|].windowRate == r.windowRate
  }

  lemma ScheduleNext(news: seq<HB.Record>, before: seq<Decision>, r: HB.Record, after: seq<Decision>, windowSize: nat)
    requires Scheduled(news, before, windowSize) && DecidesOrPasses(before, r, after, windowSize)
    requires forall i :: 0 <= i < |before| ==> before[i].beat < r.beat
    ensures Scheduled(news + [r], after, windowSize)
  {
    assert (news + [r])[..|news|] == news;
  }

  lemma DecidedNext(h: seq<HB.Beat>, before: seq<Decision>, r: HB.Record, after: seq<Decision>, windowSize: nat)
    requires HB.Ticking(h) && HB.RecordFrom(h, windowSize, r) && r.beat > 0
    requires DecidesOrPasses(before, r, after, windowSize)
    requires forall i :: 0 <= i < |before| ==> DecidedOn(h, windowSize, before[i])
    ensures forall i :: 0 <= i < |after| ==> DecidedOn(h, windowSize, after[i])
  {
  }

  ghost predicate DecidedOn(h: seq<HB.Beat>, window: nat, d: Decision)
    requires HB.Ticking(h)
  {
    && window > 0 && 0 < d.beat < |h| && d.windowRate == HB.WindowRate(h, d.beat, window)
  }

  /** The rate decision `i` used is that of a full window of intervals, all of which
      began at or after the beat of the last action before it, and the actuators have
      kept since then the values it found. */
  ghost predicate MeasuredSince(h: seq<HB.Beat>, window: nat, decisions: seq<Decision>, i: nat)
    requires HB.Ticking(h) && i < |decisions|
  {
    var d := decisions[i];
    && window > 0 && LastAction(decisions[..i]) + window <= d.beat < |h| && window <= d.beat
    && d.windowRate == window as real * HB.NANO / (h[d.beat].time - h[d.beat - window].time) as real
    && forall k :: 0 <= k < i && decisions[k].beat >= LastAction(decisions[..i]) ==> decisions[k].after == d.before
  }

  lemma FullWindow(h: seq<HB.Beat>, window: nat, decisions: seq<Decision>, i: nat, skipUntilBeat: int, lastBeat: int)
    requires HB.Ticking(h) && i < |decisions| && DecidedOn(h, window, decisions[i])
    requires Waits(decisions, window, skipUntilBeat, lastBeat) && Chained(decisions)
    ensures MeasuredSince(h, window, decisions, i)
  {
    hide Chained;
    ActionsNonNegative(decisions, i, window);
    forall k | 0 <= k < i && decisions[k].beat >= LastAction(decisions[..i])
      ensures decisions[k].after == decisions[i].before
    {
      KeptSinceAction(decisions, k, i);
    }
  }

  lemma {:induction false} KeptSinceAction(decisions: seq<Decision>, k: nat, i: nat)
    requires Chained(decisions) && k < i < |decisions| && decisions[k].beat >= LastAction(decisions[..i])
    requires forall a, b :: 0 <= a < b < |decisions| ==> decisions[a].beat < decisions[b].beat
    ensures decisions[k].after == decisions[i].before
  {
    if k < i - 1 {
      assert decisions[..i][..i - 1] == decisions[..i - 1];
      KeptSinceAction(decisions, k, i - 1);
    }
  }

  lemma {:induction false} ActionsNonNegative(decisions: seq<Decision>, i: nat, window: nat)
    requires i <= |decisions|
    requires forall j :: 0 <= j < |decisions| ==> decisions[j].beat >= LastAction(decisions[..j]) + window
    ensures LastAction(decisions[..i]) >= 0
  {
    if i > 0 {
      ActionsNonNegative(decisions, i - 1, window);
      assert decisions[..i][..i - 1] == decisions[..i - 1];
    }
  }

  function ReportOf(rate: real, band: Band): Report {
    if rate < band.min then TooLow else if rate > band.max then TooHigh else InBand
  }

  ghost function DialOf(values: seq<int>, indices: seq<int>, coreCount: nat): Dial
    requires |values| == |indices| == coreCount + 3
  {
    Dial(values[coreCount + 2], indices[1..coreCount + 1])
  }

  /** The cores' values are the frequencies the indices name. */
  ghost predicate Follows(values: seq<int>, d: Dial, freqs: seq<nat>)
    requires |values| == |d.indices| + 3 && InRange(d, |d.indices|, |freqs|)
  {
    forall c :: 0 <= c < |d.indices| ==> values[1 + c] == freqs[d.indices[c]]
  }

  /** Setting the core count and one core's index and frequency, on the dial. */
  lemma DialTurned(values: seq<int>, indices: seq<int>, cores: int, c: nat, index: nat, freqs: seq<nat>, coreCount: nat)
    requires |values| == |indices| == coreCount + 3 && 1 <= cores <= coreCount && c == cores - 1 && index < |freqs|
    requires InRange(DialOf(values, indices, coreCount), coreCount, |freqs|)
    requires Follows(values, DialOf(values, indices, coreCount), freqs)
    requires NonNegative(values, coreCount)
    ensures var values', indices' := values[coreCount + 2 := cores][1 + c := freqs[index]], indices[1 + c := index];
      && DialOf(values', indices', coreCount)
           == Dial(cores, DialOf(values, indices, coreCount).indices[c := index])
      && InRange(DialOf(values', indices', coreCount), coreCount, |freqs|)
      && Follows(values', DialOf(values', indices', coreCount), freqs)
      && NonNegative(values', coreCount)
  {
    var d := DialOf(values, indices, coreCount);
    assert indices[1 + c := index][1..coreCount + 1] == d.indices[c := index];
  }

  datatype DecisionFunction = DummyControl | MachineStateP | MachineStatePseudoPI | HisteresisP | HisteresisPseudoPI

  /** What `main` runs: a decision function on the speed actuator, or
      `step_heuristics`. */
  datatype Controller = Speed(decision: DecisionFunction) | Step

  /** The monitored application's target: its minimum and maximum rate. */
  datatype Band = Band(min: real, max: real)

  function Clip(x: int, min: int, max: int): int {
    if x < min then min else if x > max then max else x
  }

  predicate Remembers(decision: DecisionFunction) {
    decision == MachineStatePseudoPI || decision == HisteresisPseudoPI
  }

  /** How far the rate is from the middle of the band, or outside the band. */
  function Error(decision: DecisionFunction, rate: real, band: Band): real {
    if decision == MachineStateP || decision == MachineStatePseudoPI then (band.max + band.min) / 2.0 - rate
    else OutsideBand(rate, band)
  }

  function OutsideBand(rate: real, band: Band): real {
    if rate < band.min then band.min - rate else if rate > band.max then band.max - rate else 0.0
  }

  function Weighted(gain: real, error: real): real {
    gain * error
  }

  function Command(decision: DecisionFunction, value: int, rate: real, band: Band,
                   p: real, q: real, oldError: real): real {
    value as real + Weighted(p, Error(decision, rate, band))
    + if Remembers(decision) then Weighted(q, oldError) else 0.0
  }

  /** The initialisation of `main`: the core and frequency actuators from what the
      hardware runs, then `machine_speed_init`. `qsort` is the sort of the library:
      any sorted permutation whose filtered table keeps the ends of the speed range,
      as every stable sort's does. */
  method InitMachine(coreCount: nat, freqs: seq<nat>, qsort: seq<State> -> seq<State>,
                     coreValue: int, freqIndices: seq<nat>, windowSize: nat)
    returns (m: Machine)
    requires EndsKept(freqs, coreCount, qsort(Enumeration(freqs, coreCount)))
    requires forall d :: 0 <= d < |freqs| ==> freqs[d] <= ULONG_MAX
    requires 1 <= coreValue <= coreCount && windowSize > 0
    requires |freqIndices| == coreCount && forall c :: 0 <= c < coreCount ==> freqIndices[c] < |freqs|
    ensures m.Valid() && m.decisions == [] && m.lastBeat == 0 && m.SetValues() == m.Values()
    ensures m.coreCount == coreCount && m.freqs == freqs && m.windowSize == windowSize
    ensures m.states == Kept(qsort(Enumeration(freqs, coreCount)), TABLE_FILTER)
    ensures m.Limits() == Ranges(freqs, coreCount)
    ensures forall i :: 0 <= i < coreCount + 3 ==> m.Limits()[i].0 <= m.Values()[i] <= m.Limits()[i].1
    ensures ReadBack(m.Values(), m.Indices(), coreCount, freqs, coreValue, freqIndices) && m.Stepped()
    ensures m.Values()[coreCount + 1] == freqs[freqIndices[0]] && m.oldError == 0.0
    ensures fresh(m) && fresh(m.scratchState) && fresh(m.Repr)
  {
    hide LowestSpeed;
    hide HighestSpeed;
    hide EndsKept;
    hide Machine.Valid;
    hide Machine.Stepped;
    hide ReadBack;
    hide Enumeration;
    ghost var list := qsort(Enumeration(freqs, coreCount));
    EndsSorted(freqs, coreCount, list);
    var allStates, stateCount := CreateMachineStates(coreCount, freqs);
    QSort(allStates, qsort);
    m := WireMachine(coreCount, freqs, allStates, coreValue, freqIndices, windowSize);
    ghost var values := m.Values();
    ReadBackInRange(values, m.Indices(), coreCount, freqs, coreValue, freqIndices);
    m.Start(list);
    StillReadBack(values, m.Values(), m.Indices(), coreCount, freqs, coreValue, freqIndices);
    m.StartsStepped(coreValue, freqIndices);
    m.SpeedInTable();
    StartWithin(m.Values(), m.Indices(), coreCount, freqs, coreValue, freqIndices);
  }

  /** Every actuator starts within its limits. */
  lemma StartWithin(values: seq<int>, indices: seq<int>, coreCount: nat, freqs: seq<nat>,
                    coreValue: int, freqIndices: seq<nat>)
    requires ValidFreqs(freqs) && |values| == |indices| == coreCount + 3 && |freqIndices| == coreCount
    requires ReadBack(values, indices, coreCount, freqs, coreValue, freqIndices) && 1 <= coreValue <= coreCount
    requires LowestSpeed(freqs) <= values[0] <= HighestSpeed(freqs, coreCount)
    requires values[coreCount + 1] in freqs
    ensures forall i :: 0 <= i < coreCount + 3 ==>
      Ranges(freqs, coreCount)[i].0 <= values[i] <= Ranges(freqs, coreCount)[i].1
  {
    hide LowestSpeed;
    hide HighestSpeed;
    forall i | 1 <= i <= coreCount + 1 ensures freqs[|freqs| - 1] <= values[i] <= freqs[0] {
      if i <= coreCount {
        assert values[1 + (i - 1)] == freqs[freqIndices[i - 1]];
      }
    }
  }

  lemma EndsSorted(freqs: seq<nat>, coreCount: nat, list: seq<State>)
    requires EndsKept(freqs, coreCount, list)
    ensures coreCount > 0 && |freqs| > 0 && |list| == |Enumeration(freqs, coreCount)|
  {
    SameLength(Enumeration(freqs, coreCount), list);
  }

  method QSort(states: array<State>, qsort: seq<State> -> seq<State>)
    requires |qsort(states[..])| == states.Length
    modifies states
    ensures states[..] == qsort(old(states[..]))
  {
    var sorted := qsort(states[..]);
    for i := 0 to states.Length
      invariant states[..i] == sorted[..i]
    {
      states[i] := sorted[i];
    }
    assert states[..] == states[..states.Length];
  }

  /** What each actuator may be set to: the ends of the table, of the frequency list for
      each core and for all, and of the core count. */
  ghost function Ranges(freqs: seq<nat>, coreCount: nat): seq<(int, int)>
    requires |freqs| > 0
  {
    seq(coreCount + 3, i =>
      if i == 0 then (LowestSpeed(freqs) as int, HighestSpeed(freqs, coreCount) as int)
      else if i == coreCount + 2 then (1, coreCount as int)
      else (freqs[|freqs| - 1] as int, freqs[0] as int))
  }

  /** The values and indices the core and frequency actuators start from. */
  ghost predicate ReadBack(values: seq<int>, indices: seq<int>, coreCount: nat, freqs: seq<nat>,
                           coreValue: int, freqIndices: seq<nat>)
    requires |values| == |indices| == coreCount + 3 && |freqIndices| == coreCount
  {
    && values[coreCount + 2] == coreValue
    && forall c :: 0 <= c < coreCount ==>
         freqIndices[c] < |freqs| && values[1 + c] == freqs[freqIndices[c]] && indices[1 + c] == freqIndices[c]
  }

  lemma ReadBackInRange(values: seq<int>, indices: seq<int>, coreCount: nat, freqs: seq<nat>,
                        coreValue: int, freqIndices: seq<nat>)
    requires |values| == |indices| == coreCount + 3 && |freqIndices| == coreCount
    requires ReadBack(values, indices, coreCount, freqs, coreValue, freqIndices)
    ensures values[coreCount + 2] == coreValue
    ensures forall i :: 1 <= i <= coreCount ==> values[i] in freqs
  {
    forall i | 1 <= i <= coreCount ensures values[i] in freqs {
      assert values[1 + (i - 1)] == freqs[freqIndices[i - 1]];
    }
  }

  lemma StillReadBack(before: seq<int>, after: seq<int>, indices: seq<int>, coreCount: nat, freqs: seq<nat>,
                      coreValue: int, freqIndices: seq<nat>)
    requires |before| == |after| == |indices| == coreCount + 3 && |freqIndices| == coreCount
    requires before[1..] == after[1..] && ReadBack(before, indices, coreCount, freqs, coreValue, freqIndices)
    ensures ReadBack(after, indices, coreCount, freqs, coreValue, freqIndices)
  {
    assert forall c :: 0 <= c < |before[1..]| ==> before[1 + c] == before[1..][c] && after[1 + c] == after[1..][c];
    assert after[coreCount + 2] == after[1..][coreCount + 1];
  }

  method WireMachine(coreCount: nat, freqs: seq<nat>, allStates: array<State>,
                     coreValue: int, freqIndices: seq<nat>, windowSize: nat)
    returns (m: Machine)
    requires EndsKept(freqs, coreCount, allStates[..])
    requires forall d :: 0 <= d < |freqs| ==> freqs[d] <= ULONG_MAX
    requires 1 <= coreValue <= coreCount && windowSize > 0
    requires |freqIndices| == coreCount && forall c :: 0 <= c < coreCount ==> freqIndices[c] < |freqs|
    ensures fresh(m) && fresh(m.scratchState) && fresh(m.Repr)
    ensures m.Wired() && m.Limited() && m.Settled()
    ensures m.coreCount == coreCount && m.freqs == freqs && m.windowSize == windowSize
    ensures m.states == Kept(allStates[..], TABLE_FILTER)
    ensures m.Limits() == Ranges(freqs, coreCount)
    ensures ReadBack(m.Values(), m.Indices(), coreCount, freqs, coreValue, freqIndices)
    ensures m.Values()[coreCount + 1] == freqs[freqIndices[0]] && m.oldError == 0.0
    ensures m.decisions == [] && m.lastBeat == 0 && m.skipUntilBeat == windowSize
  {
    hide Kept;
    hide GoodTable;
    hide LowestSpeed;
    hide HighestSpeed;
    hide Sorted;
    hide ReadBack;
    hide Machine.Limited;
    hide Machine.Settled;
    hide Ranges;
    ghost var list := allStates[..];
    StatesFit(freqs, coreCount, list);
    var table, stateCount := FilterStates(allStates);
    TableGood(freqs, coreCount, list);
    m := Assemble(coreCount, freqs, table[..], coreValue, freqIndices, windowSize);
  }

  /** The actuators, linked to a machine with this table. */
  method Assemble(coreCount: nat, freqs: seq<nat>, states: seq<State>,
                  coreValue: int, freqIndices: seq<nat>, windowSize: nat)
    returns (m: Machine)
    requires coreCount > 0 && ValidFreqs(freqs) && GoodTable(freqs, coreCount, states)
    requires states[0].speed == LowestSpeed(freqs) && states[|states| - 1].speed == HighestSpeed(freqs, coreCount)
    requires 1 <= coreValue <= coreCount && windowSize > 0
    requires |freqIndices| == coreCount && forall c :: 0 <= c < coreCount ==> freqIndices[c] < |freqs|
    ensures fresh(m) && fresh(m.scratchState) && fresh(m.Repr)
    ensures m.Wired() && m.Limited() && m.Settled()
    ensures m.coreCount == coreCount && m.freqs == freqs && m.windowSize == windowSize && m.states == states
    ensures m.Limits() == Ranges(freqs, coreCount)
    ensures ReadBack(m.Values(), m.Indices(), coreCount, freqs, coreValue, freqIndices)
    ensures m.Values()[coreCount + 1] == freqs[freqIndices[0]] && m.oldError == 0.0
    ensures m.decisions == [] && m.lastBeat == 0 && m.skipUntilBeat == windowSize
  {
    hide LowestSpeed;
    hide HighestSpeed;
    hide TableRow;
    hide Increasing;
    var acts := InitActuators(coreCount, freqs, coreValue, freqIndices, states[0].speed, states[|states| - 1].speed);
    m := new Machine(coreCount, freqs, states, acts, windowSize);
  }

  /** The actuators in action order, each at the value read from the hardware. */
  method InitActuators(coreCount: nat, freqs: seq<nat>, coreValue: int, freqIndices: seq<nat>, min: int, max: int)
    returns (acts: seq<Actuator>)
    requires |freqs| > 0 && coreCount > 0
    requires |freqIndices| == coreCount && forall c :: 0 <= c < coreCount ==> freqIndices[c] < |freqs|
    ensures |acts| == coreCount + 3
    ensures forall i, j :: 0 <= i < j < |acts| ==> acts[i] != acts[j]
    ensures forall i :: 0 <= i < |acts| ==> fresh(acts[i]) && acts[i].value == acts[i].setValue
    ensures acts[0].min == min && acts[0].max == max
    ensures acts[coreCount + 2].value == coreValue
    ensures acts[coreCount + 2].min == 1 && acts[coreCount + 2].max == coreCount
    ensures acts[coreCount + 1].value == freqs[freqIndices[0]]
    ensures forall i :: 1 <= i <= coreCount + 1 ==> acts[i].min == freqs[|freqs| - 1] && acts[i].max == freqs[0]
    ensures forall i :: 1 <= i <= coreCount ==>
      acts[i].value == freqs[freqIndices[i - 1]] && acts[i].curIndex == freqIndices[i - 1]
  {
    var speedAct := new Actuator(0, min, max, 0);
    acts := [speedAct];
    for c := 0 to coreCount
      invariant |acts| == 1 + c && acts[0].min == min && acts[0].max == max
      invariant forall i :: 1 <= i <= c ==> acts[i].min == freqs[|freqs| - 1] && acts[i].max == freqs[0]
      invariant forall i, j :: 0 <= i < j < |acts| ==> acts[i] != acts[j]
      invariant forall i :: 0 <= i < |acts| ==> fresh(acts[i]) && acts[i].value == acts[i].setValue
      invariant forall i :: 1 <= i <= c ==>
        acts[i].value == freqs[freqIndices[i - 1]] && acts[i].curIndex == freqIndices[i - 1]
    {
      var act := new Actuator(freqs[freqIndices[c]], freqs[|freqs| - 1], freqs[0], freqIndices[c]);
      acts := acts + [act];
    }
    var globalAct := new Actuator(freqs[freqIndices[0]], freqs[|freqs| - 1], freqs[0], freqIndices[0]);
    var coreAct := new Actuator(coreValue, 1, coreCount, 0);
    acts := acts + [globalAct, coreAct];
  }

  ghost predicate NonNegative(values: seq<int>, coreCount: nat) {
    |values| == coreCount + 3 && forall i :: 1 <= i <= coreCount ==> values[i] >= 0
  }

  /** What the machine runs, read off the actuator values. */
  ghost function Running(values: seq<int>, coreCount: nat): seq<nat>
    requires NonNegative(values, coreCount)
  {
    seq(coreCount, c requires 0 <= c < coreCount => if c < values[coreCount + 2] then values[1 + c] else 0)
  }

  /** The settings once a table state has been handed to the actuators. */
  ghost function Handed(setValues: seq<int>, s: State, coreCount: nat): seq<int>
    requires |setValues| == coreCount + 3 && |s.cores| == coreCount
  {
    seq(coreCount + 3, i requires 0 <= i < coreCount + 3 =>
      if i == coreCount + 2 then Active(s.cores)
      else if 1 <= i <= Active(s.cores) && i <= coreCount then s.cores[i - 1]
      else setValues[i])
  }

  /** Settings handed over and reached run exactly the chosen state: its running
      cores come first, so the core count masks the rest. */
  lemma HandedRuns(setValues: seq<int>, s: State, freqs: seq<nat>, coreCount: nat, value: int)
    requires TableRow(freqs, coreCount, s) && NonNegative(setValues, coreCount)
    ensures var values := Handed(setValues, s, coreCount)[0 := value];
      && NonNegative(values, coreCount) && Running(values, coreCount) == s.cores
      && Handed(setValues, s, coreCount)[0] == setValues[0]
    ensures setValues[1..] == Handed(setValues, s, coreCount)[1..] ==> Handed(setValues, s, coreCount) == setValues
  {
    RowRuns(freqs, coreCount, s);
  }

  /** What the search promises of the state it picks for `target`. */
  ghost predicate Answers(states: seq<State>, target: int, r: nat)
    requires r < |states|
  {
    && Adjacent(states, target, r)
    && (forall a :: 0 <= a < |states| && states[a].speed == target ==> r == a)
    && (Missing(states, target) ==> r == Chosen(states, target, Below(states, target)))
  }

  // ---------------------------------------------------------------- the table as initialised

  lemma StatesFit(freqs: seq<nat>, coreCount: nat, list: seq<State>)
    requires SortedStates(freqs, coreCount, list)
    requires forall d :: 0 <= d < |freqs| ==> freqs[d] <= ULONG_MAX
    ensures forall i :: 0 <= i < |list| ==> FitsUnsignedLong(list[i])
  {
    forall i | 0 <= i < |list| ensures FitsUnsignedLong(list[i]) {
      InList(freqs, coreCount, list, list[i]);
    }
  }

  lemma TableGood(freqs: seq<nat>, coreCount: nat, list: seq<State>)
    requires EndsKept(freqs, coreCount, list)
    ensures GoodTable(freqs, coreCount, Kept(list, TABLE_FILTER))
  {
    var table := Kept(list, TABLE_FILTER);
    forall a: nat, b: nat | a < b < |table| ensures table[a].speed < table[b].speed {
      TableIncreases(freqs, coreCount, list, a, b);
    }
    forall a: nat | a < |table| ensures TableRow(freqs, coreCount, table[a]) {
      TableMember(freqs, coreCount, list, a);
    }
  }

  /** Any assignment with a core on has a speed between the table's ends. */
  lemma RunningSpeed(freqs: seq<nat>, coreCount: nat, list: seq<State>, cores: seq<nat>)
    requires SortedStates(freqs, coreCount, list)
    requires |cores| == coreCount && IsAssignment(freqs, cores) && Active(cores) > 0
    ensures LowestSpeed(freqs) <= Rated(cores).speed <= HighestSpeed(freqs, coreCount)
  {
    InList(freqs, coreCount, list, Rated(cores));
    SumBounds(freqs, cores);
    MulGap(0, Active(cores), freqs[|freqs| - 1]);
    DivMonotone(UNIT, Sum(cores));
    SpeedBounds(freqs, coreCount, list, Rated(cores));
  }

  lemma FirstOn(cores: seq<nat>)
    requires cores != [] && cores[0] > 0
    ensures Active(cores) > 0
  {
    assert cores == [cores[0]] + cores[1..];
    SumActiveConcat([cores[0]], cores[1..]);
    SumOne(cores[0]);
  }

  // ---------------------------------------------------------------- decisions and waiting

  /** One call of the decision function and the actuator pass after it: the beat and
      window rate it was given, the values it found, the speed setting it left, the
      values the pass left, and whether the pass ran an action. */
  datatype Decision = Decision(beat: int, windowRate: real, before: seq<int>, request: int, after: seq<int>, acted: bool)

  /** What is left for the next decision: the values, the speed setting and the error
      the integrating controllers remember. */
  datatype Memory = Memory(values: seq<int>, request: int, error: real)

  /** What decision `i` of a run from `start` finds. */
  ghost function MemoryBefore(decision: DecisionFunction, decisions: seq<Decision>, i: nat, start: Memory,
                              band: Band): Memory
    requires i <= |decisions|
  {
    if i == 0 then start else
      var d := decisions[i - 1];
      Memory(d.after, d.request, if Remembers(decision) then Error(decision, d.windowRate, band) else start.error)
  }

  ghost function ValuesBefore(decisions: seq<Decision>, i: nat, start: seq<int>): seq<int>
    requires i <= |decisions|
  {
    if i == 0 then start else decisions[i - 1].after
  }

  /** What the rates decided on say. */
  ghost function Reports(decisions: seq<Decision>, band: Band): seq<Report> {
    seq(|decisions|, i requires 0 <= i < |decisions| => ReportOf(decisions[i].windowRate, band))
  }

  /** Each decision finds the values the one before it left, and one that did not act
      leaves those it found. */
  ghost predicate Chained(decisions: seq<Decision>) {
    forall i :: 0 <= i < |decisions| ==>
      && (!decisions[i].acted ==> decisions[i].after == decisions[i].before)
      && (i > 0 ==> decisions[i].before == decisions[i - 1].after)
  }

  /** The beat of the last decision that acted; 0 before any. */
  ghost function LastAction(decisions: seq<Decision>): int {
    if decisions == [] then 0
    else if decisions[|decisions| - 1].acted then decisions[|decisions| - 1].beat
    else LastAction(decisions[..|decisions| - 1])
  }

  /** The first beat not to wait for after these decisions. */
  ghost function SkipAfter(decisions: seq<Decision>, windowSize: nat): int {
    if decisions == [] then windowSize else
      var last := decisions[|decisions| - 1];
      last.beat + if last.acted then windowSize else 1
  }

  /** Decisions come one beat after another, each at least a window after the action
      before it, and so will the next. */
  ghost predicate Waits(decisions: seq<Decision>, windowSize: nat, skipUntilBeat: int, lastBeat: int) {
    && (forall i :: 0 <= i < |decisions| ==>
          decisions[i].beat >= LastAction(decisions[..i]) + windowSize)
    && skipUntilBeat >= LastAction(decisions) + windowSize
    && 0 <= LastAction(decisions) <= lastBeat
    && (forall i :: 0 <= i < |decisions| ==> decisions[i].beat <= lastBeat)
    && forall i, j :: 0 <= i < j < |decisions| ==> decisions[i].beat < decisions[j].beat
  }
}

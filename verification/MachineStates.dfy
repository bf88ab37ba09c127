/** src/machine_states.c: the machine states, their enumeration and the three
    tests the filters are made of. */
module MachineStates {
  import opened Arithmetic

  const SPEED_IDX := 0
  const POWER_IDX := 1
  const FIRST_CORE := 2
  const UNIT: nat := 10000
  const CORE_COST: nat := 1000000
  const ULONG_MAX: nat := 0xFFFF_FFFF_FFFF_FFFF

  /** One row of the state list: derived speed and power, and a frequency per
      core (0 for a core that is off). */
  datatype State = State(speed: nat, power: nat, cores: seq<nat>)

  function Active(cores: seq<nat>): nat {
    if cores == [] then 0
    else Active(cores[..|cores| - 1]) + if cores[|cores| - 1] > 0 then 1 else 0
  }

  /** The row whose speed and power are those of its cores. */
  function Rated(cores: seq<nat>): State {
    State(Sum(cores) / UNIT, (CORE_COST * Active(cores) + Sum(cores)) / UNIT, cores)
  }

  /** The scratch row, laid out as in the source: speed, power, cores. */
  function RowOf(row: seq<nat>): State
    requires |row| >= FIRST_CORE
  {
    State(row[SPEED_IDX], row[POWER_IDX], row[FIRST_CORE..])
  }

  method CalculateStateProperties(state: array<nat>, coreCount: nat)
    requires state.Length == FIRST_CORE + coreCount
    modifies state
    ensures RowOf(state[..]) == Rated(old(state[FIRST_CORE..]))
  {
    var speed, power := 0, 0;
    ghost var cores := state[FIRST_CORE..];
    for i := 0 to coreCount
      invariant speed == Sum(cores[..i])
      invariant power == CORE_COST * Active(cores[..i]) + Sum(cores[..i])
      invariant state[FIRST_CORE..] == cores
    {
      assert cores[..i + 1][..i] == cores[..i];
      assert state[FIRST_CORE + i] == cores[i];
      speed := speed + state[FIRST_CORE + i];
      power := power + (if state[FIRST_CORE + i] > 0 then CORE_COST else 0) + state[FIRST_CORE + i];
    }
    assert cores[..coreCount] == cores;
    state[SPEED_IDX] := speed / UNIT;
    state[POWER_IDX] := power / UNIT;
    assert state[..][FIRST_CORE..] == cores;
  }

  lemma SumOne(x: nat)
    ensures Sum([x]) == x && Active([x]) == if x > 0 then 1 else 0
  {
    assert [x][..0] == [];
    assert Sum([]) == 0 && Active([]) == 0;
  }

  lemma {:induction false} SumActiveConcat(a: seq<nat>, b: seq<nat>)
    ensures Sum(a + b) == Sum(a) + Sum(b)
    ensures Active(a + b) == Active(a) + Active(b)
  {
    if b == [] {
      assert a + b == a;
    } else {
      SumActiveConcat(a, b[..|b| - 1]);
      assert (a + b)[..|a + b| - 1] == a + b[..|b| - 1];
    }
  }

  lemma SumUpdate(c: seq<nat>, i: nat, x: nat)
    requires i < |c|
    ensures Sum(c[i := x]) == Sum(c) - c[i] + x
  {
    var pre, post := c[..i], c[i + 1..];
    assert c == (pre + [c[i]]) + post && c[i := x] == (pre + [x]) + post;
    SumActiveConcat(pre + [c[i]], post);
    SumActiveConcat(pre, [c[i]]);
    SumActiveConcat(pre + [x], post);
    SumActiveConcat(pre, [x]);
    SumOne(c[i]);
    SumOne(x);
  }

  /** Despite two separate integer divisions, power is speed plus 100 a core. */
  lemma PowerIsSpeedPlusCores(cores: seq<nat>)
    ensures Rated(cores).power == Rated(cores).speed + 100 * Active(cores)
  {
    var s, a := Sum(cores), Active(cores);
    DivModUnique(CORE_COST * a + s, UNIT, s / UNIT + 100 * a, s % UNIT);
  }

  // ---------------------------------------------------------------- enumeration

  /** Digit `d` of an assignment: entry `d` of the frequency list, or off. */
  function Level(freqs: seq<nat>, d: nat): nat
    requires d <= |freqs|
  {
    if d == |freqs| then 0 else freqs[d]
  }

  lemma DigitInRange(b: nat, k: nat, m: nat)
    requires b > 0 && m > 0 && k < Pow(b, m)
    ensures Pow(b, m - 1) > 0
    ensures 0 <= k / Pow(b, m - 1) < b && 0 <= k % Pow(b, m - 1) < Pow(b, m - 1)
  {
    PowPositive(b, m - 1);
    var p := Pow(b, m - 1);
    DivModParts(k, p);
    MulGap(k / p, b, p);
  }

  /** The `m` digits of `k` in base |freqs| + 1, most significant first. */
  function Assignment(freqs: seq<nat>, k: nat, m: nat): (cores: seq<nat>)
    requires k < Pow(|freqs| + 1, m)
    ensures |cores| == m
    decreases m
  {
    if m == 0 then [] else
      DigitInRange(|freqs| + 1, k, m);
      var p := Pow(|freqs| + 1, m - 1);
      [Level(freqs, k / p)] + Assignment(freqs, k % p, m - 1)
  }

  /** The rows that complete `prefix` with every assignment of `m` more cores. */
  function Block(prefix: seq<nat>, freqs: seq<nat>, m: nat): (states: seq<State>)
    ensures |states| == Pow(|freqs| + 1, m)
  {
    seq(Pow(|freqs| + 1, m), k requires 0 <= k < Pow(|freqs| + 1, m) => Rated(prefix + Assignment(freqs, k, m)))
  }

  function Enumeration(freqs: seq<nat>, coreCount: nat): (states: seq<State>) {
    Block([], freqs, coreCount)
  }

  /** Appending a most significant digit `d` to the assignment `k`. */
  lemma AssignmentLead(freqs: seq<nat>, d: nat, k: nat, m: nat)
    requires m > 0 && d <= |freqs| && k < Pow(|freqs| + 1, m - 1)
    ensures d * Pow(|freqs| + 1, m - 1) + k < Pow(|freqs| + 1, m)
    ensures Assignment(freqs, d * Pow(|freqs| + 1, m - 1) + k, m) == [Level(freqs, d)] + Assignment(freqs, k, m - 1)
  {
    var p := Pow(|freqs| + 1, m - 1);
    MulLess(d, |freqs| + 1, p);
    DivModUnique(d * p + k, p, d, k);
  }

  /** Fixing one more core picks out one contiguous part of a block. */
  lemma BlockPart(prefix: seq<nat>, freqs: seq<nat>, m: nat, d: nat)
    requires m > 0 && d <= |freqs|
    ensures d * Pow(|freqs| + 1, m - 1) + Pow(|freqs| + 1, m - 1) <= Pow(|freqs| + 1, m)
    ensures var p := Pow(|freqs| + 1, m - 1);
      Block(prefix, freqs, m)[d * p..d * p + p] == Block(prefix + [Level(freqs, d)], freqs, m - 1)
  {
    hide Rated;
    hide Level;
    hide Assignment;
    var p := Pow(|freqs| + 1, m - 1);
    MulLess(d, |freqs| + 1, p);
    var part := Block(prefix, freqs, m)[d * p..d * p + p];
    forall k: nat | k < p
      ensures part[k] == Rated(prefix + [Level(freqs, d)] + Assignment(freqs, k, m - 1))
    {
      AssignmentLead(freqs, d, k, m);
      assert prefix + ([Level(freqs, d)] + Assignment(freqs, k, m - 1))
          == prefix + [Level(freqs, d)] + Assignment(freqs, k, m - 1);
    }
  }

  lemma BlockOfOne(prefix: seq<nat>, freqs: seq<nat>)
    ensures Block(prefix, freqs, 0) == [Rated(prefix)]
  {
    assert prefix + Assignment(freqs, 0, 0) == prefix;
  }

  method GenerateMachineStatesInternal(states: array<State>, cursor: nat, state: array<nat>,
                                       coreCount: nat, freqs: seq<nat>, core: nat)
    returns (next: nat)
    requires core < coreCount && state.Length == FIRST_CORE + coreCount
    requires cursor + Pow(|freqs| + 1, coreCount - core) <= states.Length
    modifies states, state
    ensures next == cursor + Pow(|freqs| + 1, coreCount - core)
    ensures states[cursor..next] == Block(old(state[FIRST_CORE..FIRST_CORE + core]), freqs, coreCount - core)
    ensures states[..cursor] == old(states[..cursor])
    ensures state[FIRST_CORE..FIRST_CORE + core] == old(state[FIRST_CORE..FIRST_CORE + core])
    decreases coreCount - core, 1
  {
    hide Block;
    hide Pow;
    hide Level;
    hide Times;
    ghost var prefix := state[FIRST_CORE..FIRST_CORE + core];
    ghost var m := coreCount - core;
    ghost var p, block := Pow(|freqs| + 1, m - 1), Block(prefix, freqs, m);
    next := cursor;
    PowTimes(|freqs| + 1, m);
    for i := 0 to |freqs| + 1
      invariant next == cursor + Times(i, p) && Times(i, p) <= Pow(|freqs| + 1, m)
      invariant state[FIRST_CORE..FIRST_CORE + core] == prefix
      invariant states[..cursor] == old(states[..cursor])
      invariant states[cursor..next] == block[..Times(i, p)]
    {
      BlockRoom(freqs, m, i);
      ghost var before, kept := next, states[..next];
      next := FillCore(states, next, state, coreCount, freqs, core, i);
      PartJoins(states[..], kept, cursor, before, next, old(states[..]), prefix, freqs, m, i);
    }
  }

  lemma BlockRoom(freqs: seq<nat>, m: nat, i: nat)
    requires m > 0 && i <= |freqs|
    ensures var p := Pow(|freqs| + 1, m - 1);
      Times(i + 1, p) == Times(i, p) + p <= Pow(|freqs| + 1, m)
  {
    hide Pow;
    PowTimes(|freqs| + 1, m);
    var p := Pow(|freqs| + 1, m - 1);
    NextMultiple(i, p);
    MulLess(i, |freqs| + 1, p);
  }

  /** The part just finished joins the block. */
  lemma PartJoins(now: seq<State>, kept: seq<State>, cursor: nat, before: nat, next: nat, was: seq<State>,
                  prefix: seq<nat>, freqs: seq<nat>, m: nat, i: nat)
    requires m > 0 && i <= |freqs|
    requires var p := Pow(|freqs| + 1, m - 1);
      && before == cursor + Times(i, p) && next == before + p <= |now| == |was|
      && Times(i, p) <= Pow(|freqs| + 1, m)
      && kept == now[..before] && kept[..cursor] == was[..cursor]
      && kept[cursor..] == Block(prefix, freqs, m)[..Times(i, p)]
      && now[before..next] == Block(prefix + [Level(freqs, i)], freqs, m - 1)
    ensures Times(i + 1, Pow(|freqs| + 1, m - 1)) <= Pow(|freqs| + 1, m)
    ensures now[..cursor] == was[..cursor]
    ensures now[cursor..next] == Block(prefix, freqs, m)[..Times(i + 1, Pow(|freqs| + 1, m - 1))]
  {
    hide Block;
    hide Pow;
    hide Level;
    BlockRoom(freqs, m, i);
    BlockPart(prefix, freqs, m, i);
    Extend(now, kept, cursor, before, next, was, Block(prefix, freqs, m), before - cursor);
  }

  /** One round of the loop: fix `core` at level `i` and complete the rest. */
  method FillCore(states: array<State>, cursor: nat, state: array<nat>,
                  coreCount: nat, freqs: seq<nat>, core: nat, i: nat)
    returns (next: nat)
    requires core < coreCount && state.Length == FIRST_CORE + coreCount && i <= |freqs|
    requires cursor + Pow(|freqs| + 1, coreCount - core - 1) <= states.Length
    modifies states, state
    ensures next == cursor + Pow(|freqs| + 1, coreCount - core - 1)
    ensures states[cursor..next]
         == Block(old(state[FIRST_CORE..FIRST_CORE + core]) + [Level(freqs, i)], freqs, coreCount - core - 1)
    ensures states[..cursor] == old(states[..cursor])
    ensures state[FIRST_CORE..FIRST_CORE + core] == old(state[FIRST_CORE..FIRST_CORE + core])
    decreases coreCount - core, 0
  {
    hide Block;
    hide Rated;
    ghost var prefix := state[FIRST_CORE..FIRST_CORE + core] + [Level(freqs, i)];
    state[FIRST_CORE + core] := if i == |freqs| then 0 else freqs[i];
    assert state[FIRST_CORE..FIRST_CORE + core + 1] == prefix;
    if core == coreCount - 1 {
      assert state[FIRST_CORE..] == prefix;
      next := EmitState(states, cursor, state, coreCount);
      BlockOfOne(prefix, freqs);
      assert states[cursor..next] == [Rated(prefix)];
      assert state[FIRST_CORE..FIRST_CORE + core] == state[FIRST_CORE..][..core] == prefix[..core];
    } else {
      next := GenerateMachineStatesInternal(states, cursor, state, coreCount, freqs, core + 1);
      assert state[FIRST_CORE..FIRST_CORE + core] == state[FIRST_CORE..FIRST_CORE + core + 1][..core] == prefix[..core];
    }
  }

  /** A complete assignment: derive its properties and copy it out. */
  method EmitState(states: array<State>, cursor: nat, state: array<nat>, coreCount: nat) returns (next: nat)
    requires cursor < states.Length && state.Length == FIRST_CORE + coreCount
    modifies states, state
    ensures next == cursor + 1 && state[FIRST_CORE..] == old(state[FIRST_CORE..])
    ensures states[..] == old(states[..])[cursor := Rated(old(state[FIRST_CORE..]))]
  {
    CalculateStateProperties(state, coreCount);
    states[cursor] := RowOf(state[..]);
    assert state[FIRST_CORE..] == state[..][FIRST_CORE..];
    next := cursor + 1;
  }

  /** Sequence bookkeeping of one loop round: a finished part joins the block. */
  lemma Extend(now: seq<State>, kept: seq<State>, cursor: nat, before: nat, next: nat,
               was: seq<State>, block: seq<State>, done: nat)
    requires cursor <= before <= next <= |now| == |was|
    requires before == cursor + done && next - cursor <= |block| && kept == now[..before]
    requires kept[..cursor] == was[..cursor]
    requires kept[cursor..] == block[..done] && now[before..next] == block[done..next - cursor]
    ensures now[..cursor] == was[..cursor] && now[cursor..next] == block[..next - cursor]
  {
    assert now[cursor..next] == kept[cursor..] + now[before..next];
    assert now[..cursor] == kept[..cursor];
  }

  method CreateMachineStates(coreCount: nat, freqs: seq<nat>)
    returns (states: array<State>, stateCount: nat)
    requires coreCount > 0
    ensures fresh(states) && stateCount == states.Length == Pow(|freqs| + 1, coreCount)
    ensures states[..] == Enumeration(freqs, coreCount)
  {
    stateCount := Ipow(|freqs| + 1, coreCount);
    var state := new nat[FIRST_CORE + coreCount];
    states := new State[stateCount](_ => State(0, 0, []));
    var end := GenerateMachineStatesInternal(states, 0, state, coreCount, freqs, 0);
    assert states[..] == states[0..end];
  }

  /** State `k` gives core `c` the base-(F+1) digit of `k` at place C-1-c. */
  lemma {:induction false} AssignmentDigit(freqs: seq<nat>, k: nat, m: nat, c: nat)
    requires c < m && k < Pow(|freqs| + 1, m)
    ensures Pow(|freqs| + 1, m - 1 - c) > 0
    ensures k / Pow(|freqs| + 1, m - 1 - c) % (|freqs| + 1) <= |freqs|
    ensures Assignment(freqs, k, m)[c] == Level(freqs, k / Pow(|freqs| + 1, m - 1 - c) % (|freqs| + 1))
    decreases m
  {
    var b := |freqs| + 1;
    DigitInRange(b, k, m);
    PowPositive(b, m - 1 - c);
    if c == 0 {
      assert (k / Pow(b, m - 1)) % b == k / Pow(b, m - 1) by {
        DivModUnique(k / Pow(b, m - 1), b, 0, k / Pow(b, m - 1));
      }
    } else {
      var p, q, r := Pow(b, m - 1), Pow(b, m - 1 - c), Pow(b, c - 1);
      AssignmentDigit(freqs, k % p, m - 1, c - 1);
      assert p == (b * r) * q by { PowAdd(b, c, m - 1 - c); }
      LowDigit(k, b, r, q, p);
    }
  }

  /** Dropping the digits above place `q` leaves the digit at place `q`. */
  lemma LowDigit(k: nat, b: nat, r: nat, q: nat, p: nat)
    requires b > 0 && q > 0 && p > 0 && p == (b * r) * q
    ensures (k % p) / q % b == k / q % b
  {
    var hi, lo := k / p, k % p;
    var d, e := lo / q, lo % q;
    DivModParts(k, p);
    DivModParts(lo, q);
    Regroup(hi, b, r, q, d);
    DivModUnique(k, q, (hi * r) * b + d, e);
    DivModParts(d, b);
    ModShift(hi * r, b, d);
  }

  lemma Regroup(hi: nat, b: nat, r: nat, q: nat, d: nat)
    ensures hi * ((b * r) * q) + d * q == ((hi * r) * b + d) * q
  {
    assert hi * ((b * r) * q) == (hi * (b * r)) * q;
    assert hi * (b * r) == (hi * r) * b;
  }

  lemma ModShift(x: nat, b: nat, d: nat)
    requires b > 0
    ensures (x * b + d) % b == d % b
  {
    DivModParts(d, b);
    assert x * b + (d / b) * b == (x + d / b) * b;
    DivModUnique(x * b + d, b, x + d / b, d % b);
  }

  /** What the frequency list of the hardware must look like: at least one entry,
      strictly descending, and no entry so small that its speed is 0. */
  ghost predicate ValidFreqs(freqs: seq<nat>) {
    && |freqs| > 0
    && (forall i, j :: 0 <= i < j < |freqs| ==> freqs[i] > freqs[j])
    && (forall i :: 0 <= i < |freqs| ==> freqs[i] >= UNIT)
  }

  ghost predicate IsAssignment(freqs: seq<nat>, cores: seq<nat>) {
    forall c :: 0 <= c < |cores| ==> cores[c] == 0 || cores[c] in freqs
  }

  lemma {:induction false} AssignmentsAssign(freqs: seq<nat>, k: nat, m: nat)
    requires k < Pow(|freqs| + 1, m)
    ensures IsAssignment(freqs, Assignment(freqs, k, m))
    decreases m
  {
    if m > 0 {
      DigitInRange(|freqs| + 1, k, m);
      AssignmentsAssign(freqs, k % Pow(|freqs| + 1, m - 1), m - 1);
    }
  }

  lemma {:induction false} FindAssignment(freqs: seq<nat>, cores: seq<nat>) returns (k: nat)
    requires IsAssignment(freqs, cores)
    ensures k < Pow(|freqs| + 1, |cores|) && Assignment(freqs, k, |cores|) == cores
  {
    if cores == [] {
      k := 0;
    } else {
      var d: nat;
      if cores[0] == 0 {
        d := |freqs|;
      } else {
        d :| d < |freqs| && freqs[d] == cores[0];
      }
      var low := FindAssignment(freqs, cores[1..]);
      AssignmentLead(freqs, d, low, |cores|);
      k := d * Pow(|freqs| + 1, |cores| - 1) + low;
    }
  }

  /** The enumeration holds exactly the rated assignments. */
  lemma EnumerationExact(freqs: seq<nat>, coreCount: nat, s: State)
    ensures s in Enumeration(freqs, coreCount) <==>
      |s.cores| == coreCount && IsAssignment(freqs, s.cores) && s == Rated(s.cores)
  {
    var all := Enumeration(freqs, coreCount);
    if s in all {
      var k: nat :| k < |all| && all[k] == s;
      assert [] + Assignment(freqs, k, coreCount) == Assignment(freqs, k, coreCount);
      AssignmentsAssign(freqs, k, coreCount);
    }
    if |s.cores| == coreCount && IsAssignment(freqs, s.cores) && s == Rated(s.cores) {
      var k := FindAssignment(freqs, s.cores);
      assert [] + Assignment(freqs, k, coreCount) == Assignment(freqs, k, coreCount);
      assert all[k] == s;
    }
  }

  ghost predicate LexGreater(a: seq<nat>, b: seq<nat>) {
    exists j :: 0 <= j < |a| && j < |b| && a[..j] == b[..j] && a[j] > b[j]
  }

  lemma LexAsymmetric(a: seq<nat>, b: seq<nat>)
    requires LexGreater(a, b)
    ensures !LexGreater(b, a)
  {
    var j :| 0 <= j < |a| && j < |b| && a[..j] == b[..j] && a[j] > b[j];
    assert forall i :: 0 <= i < j ==> a[..j][i] == a[i] && b[..j][i] == b[i];
    forall i | 0 <= i < |b| && i < |a| && b[i] > a[i]
      ensures b[..i] != a[..i]
    {
      assert j < i;
      assert a[..i][j] == a[j] && b[..i][j] == b[j];
    }
  }

  /** States are generated in strictly descending lexicographic order: the order
      of the "most unbalanced" states that the tie-break relies on. */
  lemma {:induction false} EnumerationDescends(freqs: seq<nat>, i: nat, j: nat, m: nat)
    requires ValidFreqs(freqs)
    requires i < j < Pow(|freqs| + 1, m)
    ensures LexGreater(Assignment(freqs, i, m), Assignment(freqs, j, m))
    decreases m
  {
    var b := |freqs| + 1;
    DigitInRange(b, i, m);
    DigitInRange(b, j, m);
    var p := Pow(b, m - 1);
    var x, y := Assignment(freqs, i, m), Assignment(freqs, j, m);
    DivModParts(i, p);
    DivModParts(j, p);
    if i / p == j / p {
      var x', y' := Assignment(freqs, i % p, m - 1), Assignment(freqs, j % p, m - 1);
      EnumerationDescends(freqs, i % p, j % p, m - 1);
      var h :| 0 <= h < |x'| && h < |y'| && x'[..h] == y'[..h] && x'[h] > y'[h];
      assert x[..h + 1] == [x[0]] + x'[..h] && y[..h + 1] == [y[0]] + y'[..h];
      assert x[h + 1] > y[h + 1];
    } else {
      MulGap(i / p, j / p, p);
      assert i / p < j / p;
      assert x[..0] == y[..0] && x[0] > y[0];
    }
  }

  // ---------------------------------------------------------------- the three tests

  /** `compare_states_on_speed`: ascending speed, then descending power. */
  function CompareStatesOnSpeed(a: State, b: State): int {
    if a.speed < b.speed then -1
    else if a.speed > b.speed then 1
    else if a.power > b.power then -1
    else if a.power < b.power then 1
    else 0
  }

  ghost predicate Descending(cores: seq<nat>) {
    forall j, k :: 0 <= j < k < |cores| ==> cores[j] >= cores[k]
  }

  ghost predicate FitsUnsignedLong(state: State) {
    forall j :: 0 <= j < |state.cores| ==> state.cores[j] <= ULONG_MAX
  }

  method RedundantState(state: State) returns (redundant: bool)
    requires FitsUnsignedLong(state)
    ensures redundant <==> !Descending(state.cores)
  {
    var last := ULONG_MAX;
    for j := 0 to |state.cores|
      invariant Descending(state.cores[..j])
      invariant if j == 0 then last == ULONG_MAX else last == state.cores[j - 1]
    {
      if state.cores[j] > last {
        return true;
      }
      last := state.cores[j];
    }
    assert state.cores[..|state.cores|] == state.cores;
    return false;
  }

  /** Index `j` is reached by the backward scans from `i`: they stop at the first
      slower state, and never look at index 0. */
  ghost predicate ScannedBack(list: seq<State>, i: nat, j: int)
    requires i < |list|
  {
    0 < j < i && forall k :: j <= k < i ==> list[k].speed >= list[i].speed
  }

  ghost predicate ParetoScan(list: seq<State>, i: nat)
    requires i < |list|
  {
    && (forall j :: ScannedBack(list, i, j) ==> list[j].power >= list[i].power)
    && (forall j :: i < j < |list| ==> list[j].power >= list[i].power)
  }

  ghost predicate EquivalentScan(list: seq<State>, i: nat)
    requires i < |list|
  {
    exists j :: ScannedBack(list, i, j) && list[j].power == list[i].power
  }

  method ParetoOptimal(states: array<State>, index: nat) returns (optimal: bool)
    requires index < states.Length
    ensures optimal <==> ParetoScan(states[..], index)
  {
    ghost var list := states[..];
    var i: int := index - 1;
    while i > 0 && states[i].speed >= states[index].speed
      invariant -1 <= i < index
      invariant forall k :: i < k < index && 0 <= k ==> list[k].speed >= list[index].speed
      invariant forall k :: i < k < index && 0 < k ==> list[k].power >= list[index].power
    {
      if states[i].power < states[index].power {
        assert ScannedBack(list, index, i);
        return false;
      }
      i := i - 1;
    }
    ghost var stop := i;
    assert forall j :: ScannedBack(list, index, j) ==> j > stop by {
      assert stop > 0 ==> list[stop].speed < list[index].speed;
    }
    i := index + 1;
    while i < states.Length
      invariant index < i <= states.Length
      invariant forall k :: index < k < i ==> list[k].power >= list[index].power
    {
      if states[i].power < states[index].power {
        return false;
      }
      i := i + 1;
    }
    return true;
  }

  method DropEquivalent(states: array<State>, index: nat) returns (drop: bool)
    requires index < states.Length
    ensures drop <==> EquivalentScan(states[..], index)
    ensures drop <==> exists j :: ScannedBack(states[..], index, j) && states[j].power == states[index].power
  {
    ghost var list := states[..];
    var i: int := index - 1;
    while i > 0 && states[i].speed >= states[index].speed
      invariant -1 <= i < index
      invariant forall k :: i < k < index && 0 <= k ==> list[k].speed >= list[index].speed
      invariant forall k :: i < k < index && 0 < k ==> list[k].power != list[index].power
    {
      if states[i].power == states[index].power {
        assert ScannedBack(list, index, i);
        return true;
      }
      i := i - 1;
    }
    ghost var stop := i;
    assert forall j :: ScannedBack(list, index, j) ==> j > stop by {
      assert stop > 0 ==> list[stop].speed < list[index].speed;
    }
    return false;
  }
}

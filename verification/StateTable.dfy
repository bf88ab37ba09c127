/** The sort-and-filter of `machine_speed_init` (src/combined.c): what the kept
    table is, whatever order the sort gives to equal states, and what a stable
    sort adds. */
module StateTable {
  import opened Arithmetic
  import opened MachineStates

  // ---------------------------------------------------------------- sorting

  ghost predicate Sorted(list: seq<State>) {
    forall i, j :: 0 <= i < j < |list| ==> CompareStatesOnSpeed(list[i], list[j]) <= 0
  }

  /** All that `qsort` promises: the order of equal states is unspecified. */
  ghost predicate SortedPermutation(original: seq<State>, list: seq<State>) {
    multiset(original) == multiset(list) && Sorted(list)
  }

  /** The entries of `list` that compare equal to `s`, in order. */
  ghost function Ties(list: seq<State>, s: State): seq<State> {
    if list == [] then [] else
      var n := |list| - 1;
      Ties(list[..n], s) + if CompareStatesOnSpeed(list[n], s) == 0 then [list[n]] else []
  }

  /** A stable sort: states that compare equal keep their order. */
  ghost predicate StableSorted(original: seq<State>, list: seq<State>) {
    SortedPermutation(original, list) && forall s :: Ties(list, s) == Ties(original, s)
  }

  lemma SameMembers(original: seq<State>, list: seq<State>, s: State)
    requires multiset(original) == multiset(list)
    ensures s in original <==> s in list
  {
    assert s in original <==> s in multiset(original);
    assert s in list <==> s in multiset(list);
  }

  lemma {:induction false} TiesConcat(a: seq<State>, b: seq<State>, s: State)
    ensures Ties(a + b, s) == Ties(a, s) + Ties(b, s)
  {
    if b == [] {
      assert a + b == a;
    } else {
      TiesConcat(a, b[..|b| - 1], s);
      assert (a + b)[..|a + b| - 1] == a + b[..|b| - 1];
    }
  }

  lemma {:induction false} NoTies(list: seq<State>, s: State)
    requires forall k :: 0 <= k < |list| ==> CompareStatesOnSpeed(list[k], s) != 0
    ensures Ties(list, s) == []
  {
    if list != [] {
      NoTies(list[..|list| - 1], s);
    }
  }

  /** Inserting the head before the states that are not less keeps all ties in order. */
  lemma InsertTies(original: seq<State>, tail: seq<State>, n: nat, s: State)
    requires original != [] && n <= |tail| && Ties(tail, s) == Ties(original[1..], s)
    requires forall k :: 0 <= k < n ==> CompareStatesOnSpeed(tail[k], original[0]) < 0
    ensures Ties(tail[..n] + [original[0]] + tail[n..], s) == Ties(original, s)
  {
    hide Ties;
    var x := original[0];
    assert original == [x] + original[1..] && tail == tail[..n] + tail[n..];
    TiesConcat([x], original[1..], s);
    TiesConcat(tail[..n], tail[n..], s);
    TiesConcat(tail[..n], [x], s);
    TiesConcat(tail[..n] + [x], tail[n..], s);
    if CompareStatesOnSpeed(x, s) == 0 {
      NoTies(tail[..n], s);
    } else {
      NoTies([x], s);
    }
  }

  lemma InsertSorted(tail: seq<State>, x: State, n: nat)
    requires Sorted(tail) && n <= |tail|
    requires forall k :: 0 <= k < n ==> CompareStatesOnSpeed(tail[k], x) < 0
    requires n < |tail| ==> CompareStatesOnSpeed(tail[n], x) >= 0
    ensures Sorted(tail[..n] + [x] + tail[n..])
  {
    var list := tail[..n] + [x] + tail[n..];
    assert forall i :: 0 <= i < |list| ==>
      list[i] == if i < n then tail[i] else if i == n then x else tail[i - 1];
    forall k | n <= k < |tail| ensures CompareStatesOnSpeed(x, tail[k]) <= 0 {
      assert n < k ==> CompareStatesOnSpeed(tail[n], tail[k]) <= 0;
    }
  }

  lemma InsertMultiset(original: seq<State>, tail: seq<State>, n: nat)
    requires original != [] && n <= |tail| && multiset(original[1..]) == multiset(tail)
    ensures multiset(original) == multiset(tail[..n] + [original[0]] + tail[n..])
  {
    assert original == [original[0]] + original[1..] && tail == tail[..n] + tail[n..];
  }

  /** Stable sorts exist, so what is proved of them is not vacuous. */
  lemma {:induction false} StableSortExists(original: seq<State>) returns (list: seq<State>)
    ensures StableSorted(original, list)
  {
    if original == [] {
      list := [];
    } else {
      var x := original[0];
      var tail := StableSortExists(original[1..]);
      var n := 0;
      while n < |tail| && CompareStatesOnSpeed(tail[n], x) < 0
        invariant 0 <= n <= |tail|
        invariant forall k :: 0 <= k < n ==> CompareStatesOnSpeed(tail[k], x) < 0
      {
        n := n + 1;
      }
      list := tail[..n] + [x] + tail[n..];
      InsertMultiset(original, tail, n);
      InsertSorted(tail, x, n);
      forall s ensures Ties(list, s) == Ties(original, s) {
        InsertTies(original, tail, n, s);
      }
    }
  }

  /** The last entries of two sorted permutations compare equal. */
  lemma LastTies(a: seq<State>, b: seq<State>)
    requires Sorted(a) && Sorted(b) && multiset(a) == multiset(b) && a != []
    ensures |a| == |b| && CompareStatesOnSpeed(b[|b| - 1], a[|a| - 1]) == 0 && b[|b| - 1] in a
  {
    assert |a| == |multiset(a)| == |multiset(b)| == |b|;
    SameMembers(a, b, a[|a| - 1]);
    SameMembers(a, b, b[|b| - 1]);
  }

  lemma DropLast<T>(a: seq<T>, b: seq<T>)
    requires a != [] && b != [] && multiset(a) == multiset(b) && a[|a| - 1] == b[|b| - 1]
    ensures multiset(a[..|a| - 1]) == multiset(b[..|b| - 1])
  {
    assert a == a[..|a| - 1] + [a[|a| - 1]] && b == b[..|b| - 1] + [b[|b| - 1]];
    assert multiset(a[..|a| - 1]) == multiset(a) - multiset{a[|a| - 1]};
  }

  /** The last entry shows as the last of its own ties. */
  lemma LastTie(a: seq<State>, b: seq<State>)
    requires a != [] && b != [] && CompareStatesOnSpeed(b[|b| - 1], a[|a| - 1]) == 0
    requires Ties(b, a[|a| - 1]) == Ties(a, a[|a| - 1])
    ensures b[|b| - 1] == a[|a| - 1]
  {
    var s := a[|a| - 1];
    assert Ties(a, s)[|Ties(a, s)| - 1] == s;
    assert Ties(b, s)[|Ties(b, s)| - 1] == b[|b| - 1];
  }

  lemma InitTies(a: seq<State>, b: seq<State>, s: State)
    requires a != [] && b != [] && b[|b| - 1] == a[|a| - 1] && Ties(b, s) == Ties(a, s)
    ensures Ties(b[..|b| - 1], s) == Ties(a[..|a| - 1], s)
  {
    hide Ties;
    var x, y, last := Ties(a[..|a| - 1], s), Ties(b[..|b| - 1], s), [a[|a| - 1]];
    assert a == a[..|a| - 1] + last && b == b[..|b| - 1] + last;
    TiesConcat(a[..|a| - 1], last, s);
    TiesConcat(b[..|b| - 1], last, s);
    assert x == (x + Ties(last, s))[..|x|] && y == (y + Ties(last, s))[..|y|];
  }

  /** There is one stable sort of a list; so a stable sort of a sorted list is the
      list itself. */
  lemma StableSortUnique(original: seq<State>, a: seq<State>, b: seq<State>)
    requires StableSorted(original, a) && StableSorted(original, b)
    ensures b == a
    ensures Sorted(original) ==> a == original
  {
    forall s ensures Ties(b, s) == Ties(a, s) {
      assert Ties(a, s) == Ties(original, s) == Ties(b, s);
    }
    TiesDetermine(a, b);
    if Sorted(original) {
      TiesDetermine(original, a);
    }
  }

  /** Two lists with the same ties end alike, and so do the lists before. */
  lemma StableEnds(a: seq<State>, b: seq<State>)
    requires Sorted(a) && StableSorted(a, b) && a != []
    ensures |b| == |a| && b[|b| - 1] == a[|a| - 1]
    ensures Sorted(a[..|a| - 1]) && StableSorted(a[..|a| - 1], b[..|b| - 1])
  {
    hide Ties;
    hide Sorted;
    var n := |a| - 1;
    LastTies(a, b);
    assert Ties(b, a[n]) == Ties(a, a[n]);
    LastTie(a, b);
    DropLast(a, b);
    PrefixSorted(a, n);
    PrefixSorted(b, n);
    forall s ensures Ties(b[..n], s) == Ties(a[..n], s) {
      assert Ties(b, s) == Ties(a, s);
      InitTies(a, b, s);
    }
  }

  lemma SameLength(a: seq<State>, b: seq<State>)
    requires SortedPermutation(a, b)
    ensures |a| == |b|
  {
    assert |b| == |multiset(b)| == |multiset(a)|;
  }

  lemma {:induction false} TiesDetermine(a: seq<State>, b: seq<State>)
    requires Sorted(a) && StableSorted(a, b)
    ensures b == a
  {
    hide Ties;
    hide Sorted;
    hide SortedPermutation;
    SameLength(a, b);
    if a != [] {
      var n := |a| - 1;
      StableEnds(a, b);
      TiesDetermine(a[..n], b[..n]);
      assert a == a[..n] + [a[n]] && b == b[..n] + [b[n]];
    }
  }

  lemma PrefixSorted(list: seq<State>, n: nat)
    requires n <= |list| && Sorted(list)
    ensures Sorted(list[..n])
    ensures TiesAreEqual(list) ==> TiesAreEqual(list[..n])
  {
  }

  /** States that compare equal are the same state. */
  ghost predicate TiesAreEqual(list: seq<State>) {
    forall i, j :: 0 <= i < j < |list| && CompareStatesOnSpeed(list[i], list[j]) == 0 ==> list[i] == list[j]
  }

  lemma {:induction false} OneSort(a: seq<State>, b: seq<State>)
    requires Sorted(a) && TiesAreEqual(a) && SortedPermutation(a, b)
    ensures b == a
  {
    hide Sorted;
    hide TiesAreEqual;
    SameLength(a, b);
    if a != [] {
      var n := |a| - 1;
      LastEqual(a, b);
      DropLast(a, b);
      PrefixSorted(a, n);
      PrefixSorted(b, n);
      OneSort(a[..n], b[..n]);
      assert a == a[..n] + [a[n]] && b == b[..n] + [b[n]];
    }
  }

  lemma LastEqual(a: seq<State>, b: seq<State>)
    requires Sorted(a) && TiesAreEqual(a) && SortedPermutation(a, b) && a != []
    ensures |b| == |a| && b[|b| - 1] == a[|a| - 1]
  {
    LastTies(a, b);
    var k :| 0 <= k < |a| && a[k] == b[|b| - 1];
  }

  lemma SameOrder(a: seq<State>, b: seq<State>)
    requires Sorted(a) && |a| == |b|
    requires forall k :: 0 <= k < |a| ==> CompareStatesOnSpeed(b[k], a[k]) == 0
    ensures Sorted(b)
  {
    forall i, j | 0 <= i < j < |b| ensures CompareStatesOnSpeed(b[i], b[j]) <= 0 {
      assert CompareStatesOnSpeed(a[i], a[j]) <= 0;
    }
  }

  lemma SwapTies(a: seq<State>, i: nat, j: nat) returns (b: seq<State>)
    requires Sorted(a) && i < j < |a| && CompareStatesOnSpeed(a[i], a[j]) == 0 && a[i] != a[j]
    ensures SortedPermutation(a, b) && b != a
  {
    hide Sorted;
    b := a[i := a[j]][j := a[i]];
    assert b[i] != a[i];
    assert multiset(b) == multiset(a);
    SameOrder(a, b);
  }

  /** A sorted list is the only sort of itself exactly when its ties are equal. */
  lemma OneSortIff(list: seq<State>)
    requires Sorted(list)
    ensures (forall other :: SortedPermutation(list, other) ==> other == list) <==> TiesAreEqual(list)
  {
    hide Sorted;
    if TiesAreEqual(list) {
      forall other | SortedPermutation(list, other) ensures other == list {
        OneSort(list, other);
      }
    } else {
      var i, j :| 0 <= i < j < |list| && CompareStatesOnSpeed(list[i], list[j]) == 0 && list[i] != list[j];
      var other := SwapTies(list, i, j);
    }
  }

  // ---------------------------------------------------------------- the filter

  /** Which tests a filter applies; `powerstates` takes the first three from its
      options, the speed actuator applies all four. */
  datatype Filter = Filter(skipRedundant: bool, skipEquivalent: bool, skipUnoptimal: bool, skipStopped: bool)

  const TABLE_FILTER := Filter(true, true, true, true)

  ghost predicate Keeps(list: seq<State>, i: nat, filter: Filter)
    requires i < |list|
  {
    && (filter.skipRedundant ==> Descending(list[i].cores))
    && (filter.skipEquivalent ==> !EquivalentScan(list, i))
    && (filter.skipUnoptimal ==> ParetoScan(list, i))
    && (filter.skipStopped ==> list[i].speed > 0)
  }

  /** The states among the first `n` that pass `filter`, in order. */
  ghost function KeptPrefix(list: seq<State>, n: nat, filter: Filter): seq<State>
    requires n <= |list|
  {
    if n == 0 then [] else
      KeptPrefix(list, n - 1, filter) + if Keeps(list, n - 1, filter) then [list[n - 1]] else []
  }

  ghost function Kept(list: seq<State>, filter: Filter): seq<State> {
    KeptPrefix(list, |list|, filter)
  }

  /** `at` is where in `list` the entries of `kept` come from. */
  ghost predicate PickedAt(list: seq<State>, n: nat, filter: Filter, kept: seq<State>, at: seq<nat>)
    requires n <= |list|
  {
    && |at| == |kept|
    && (forall a :: 0 <= a < |at| ==> at[a] < n && kept[a] == list[at[a]] && Keeps(list, at[a], filter))
    && (forall a, b :: 0 <= a < b < |at| ==> at[a] < at[b])
    && (forall i :: 0 <= i < n && Keeps(list, i, filter) ==> i in at)
  }

  lemma {:induction false} KeptPicks(list: seq<State>, n: nat, filter: Filter) returns (at: seq<nat>)
    requires n <= |list|
    ensures PickedAt(list, n, filter, KeptPrefix(list, n, filter), at)
  {
    hide Keeps;
    if n == 0 {
      at := [];
    } else {
      var init := KeptPicks(list, n - 1, filter);
      at := init + if Keeps(list, n - 1, filter) then [n - 1] else [];
      forall i | 0 <= i < n && Keeps(list, i, filter) ensures i in at {
        assert i < n - 1 ==> i in init;
      }
    }
  }

  lemma {:induction false} KeptFits(list: seq<State>, n: nat, filter: Filter)
    requires n <= |list|
    ensures |KeptPrefix(list, n, filter)| <= n
  {
    if n > 0 {
      KeptFits(list, n - 1, filter);
    }
  }

  /** The condition of the filter loops: the requested tests, in the source's order. */
  method PassesFilter(states: array<State>, i: nat, filter: Filter) returns (passes: bool)
    requires i < states.Length && FitsUnsignedLong(states[i])
    ensures passes <==> Keeps(states[..], i, filter)
  {
    if filter.skipRedundant {
      var redundant := RedundantState(states[i]);
      if redundant {
        return false;
      }
    }
    if filter.skipEquivalent {
      var drop := DropEquivalent(states, i);
      if drop {
        return false;
      }
    }
    if filter.skipUnoptimal {
      var optimal := ParetoOptimal(states, i);
      if !optimal {
        return false;
      }
    }
    return filter.skipStopped ==> states[i].speed > 0;
  }

  /** The loop of `machine_speed_init` over the sorted states. */
  method FilterStates(allStates: array<State>) returns (states: array<State>, stateCount: nat)
    requires forall i :: 0 <= i < allStates.Length ==> FitsUnsignedLong(allStates[i])
    ensures fresh(states) && stateCount == states.Length
    ensures states[..] == Kept(allStates[..], TABLE_FILTER)
  {
    hide Keeps;
    ghost var list := allStates[..];
    var out := new State[allStates.Length](_ => State(0, 0, []));
    stateCount := 0;
    for i := 0 to allStates.Length
      invariant allStates[..] == list
      invariant stateCount <= i && out[..stateCount] == KeptPrefix(list, i, TABLE_FILTER)
    {
      KeptFits(list, i, TABLE_FILTER);
      var passes := PassesFilter(allStates, i, TABLE_FILTER);
      if passes {
        out[stateCount] := allStates[i];
        stateCount := stateCount + 1;
      }
    }
    states := Shrink(out, stateCount);
  }

  /** The final `realloc` to the size used. */
  method Shrink(out: array<State>, count: nat) returns (states: array<State>)
    requires count <= out.Length
    ensures fresh(states) && states[..] == out[..count]
  {
    states := new State[count](_ => State(0, 0, []));
    for i := 0 to count
      invariant states[..i] == out[..i]
    {
      states[i] := out[i];
    }
  }

  // ---------------------------------------------------------------- partial scans decide global facts

  /** No state anywhere is at least as fast with strictly less power. */
  ghost predicate Frontier(list: seq<State>, s: State) {
    forall t :: t in list ==> !(t.speed >= s.speed && t.power < s.power)
  }

  ghost predicate SameClass(s: State, t: State) {
    s.speed == t.speed && s.power == t.power
  }

  ghost predicate FirstOfClass(list: seq<State>, i: nat)
    requires i < |list|
  {
    forall j :: 0 <= j < i ==> !SameClass(list[j], list[i])
  }

  /** The backward half of `pareto_optimal` never rejects, so neither its early
      stop nor its `i > 0` bound loses anything, and the forward half decides. */
  lemma ParetoScanIsGlobal(list: seq<State>, i: nat)
    requires Sorted(list) && i < |list|
    ensures forall j :: ScannedBack(list, i, j) ==> list[j].power >= list[i].power
    ensures ParetoScan(list, i) <==> Frontier(list, list[i])
  {
    var s := list[i];
    if ParetoScan(list, i) {
      forall t | t in list ensures !(t.speed >= s.speed && t.power < s.power) {
        var j :| 0 <= j < |list| && list[j] == t;
        if j < i {
          assert CompareStatesOnSpeed(list[j], list[i]) <= 0;
        }
      }
    }
    if Frontier(list, s) {
      forall j | i < j < |list| ensures list[j].power >= s.power {
        assert CompareStatesOnSpeed(list[i], list[j]) <= 0;
        assert list[j] in list;
      }
    }
  }

  /** Which earlier equivalents the backward scan of `drop_equivalent` misses, on any
      sorted list: that of index 1 at index 0, and no other. */
  lemma EquivalentScanExact(list: seq<State>, i: nat)
    requires Sorted(list) && i < |list|
    ensures (EquivalentScan(list, i) <==> !FirstOfClass(list, i)) <==> !(i == 1 && SameClass(list[0], list[1]))
  {
    if j :| 0 <= j < i && SameClass(list[j], list[i]) {
      var from := if j == 0 then 1 else j;
      forall k | j < k < i ensures SameClass(list[k], list[i]) {
        assert CompareStatesOnSpeed(list[j], list[k]) <= 0 && CompareStatesOnSpeed(list[k], list[i]) <= 0;
      }
      assert from < i ==> ScannedBack(list, i, from);
    }
  }

  /** With a stopped state at index 0 it misses none of a running state. */
  lemma EquivalentScanIsGlobal(list: seq<State>, i: nat)
    requires Sorted(list) && i < |list|
    requires list[0].speed == 0 && list[i].speed > 0
    ensures EquivalentScan(list, i) <==> !FirstOfClass(list, i)
  {
    EquivalentScanExact(list, i);
  }

  // ---------------------------------------------------------------- any sort of the enumeration

  /** `list` is what `qsort` may leave of the generated states. */
  ghost predicate SortedStates(freqs: seq<nat>, coreCount: nat, list: seq<State>) {
    ValidFreqs(freqs) && coreCount > 0 && SortedPermutation(Enumeration(freqs, coreCount), list)
  }

  lemma InList(freqs: seq<nat>, coreCount: nat, list: seq<State>, s: State)
    requires SortedStates(freqs, coreCount, list)
    ensures s in list <==> |s.cores| == coreCount && IsAssignment(freqs, s.cores) && s == Rated(s.cores)
  {
    EnumerationExact(freqs, coreCount, s);
    SameMembers(Enumeration(freqs, coreCount), list, s);
  }

  lemma {:induction false} SumBounds(freqs: seq<nat>, cores: seq<nat>)
    requires ValidFreqs(freqs) && IsAssignment(freqs, cores)
    ensures Active(cores) * freqs[|freqs| - 1] <= Sum(cores) <= Active(cores) * freqs[0]
    ensures Active(cores) <= |cores|
  {
    if cores != [] {
      var init, last := cores[..|cores| - 1], cores[|cores| - 1];
      SumBounds(freqs, init);
      var a, lo, hi := Active(init), freqs[|freqs| - 1], freqs[0];
      if last > 0 {
        var d :| 0 <= d < |freqs| && freqs[d] == last;
        assert lo <= last <= hi;
        NextMultiple(a, lo);
        NextMultiple(a, hi);
      }
    }
  }

  function Off(coreCount: nat): seq<nat> {
    seq(coreCount, _ => 0)
  }

  lemma {:induction false} OffIsZero(n: nat)
    ensures Sum(Off(n)) == 0 && Active(Off(n)) == 0
  {
    if n > 0 {
      OffIsZero(n - 1);
      assert Off(n)[..n - 1] == Off(n - 1);
    }
  }

  /** The all-off state, and only a state of speed 0, sorts to index 0. */
  lemma StoppedStateFirst(freqs: seq<nat>, coreCount: nat, list: seq<State>)
    requires SortedStates(freqs, coreCount, list)
    ensures |list| > 0 && list[0].speed == 0
  {
    OffIsZero(coreCount);
    InList(freqs, coreCount, list, Rated(Off(coreCount)));
    var i :| 0 <= i < |list| && list[i] == Rated(Off(coreCount));
    assert i > 0 ==> CompareStatesOnSpeed(list[0], list[i]) <= 0;
  }

  /** The whole filter, stated globally and without any order of scanning. */
  lemma KeepsExactly(freqs: seq<nat>, coreCount: nat, list: seq<State>, i: nat)
    requires SortedStates(freqs, coreCount, list) && i < |list|
    ensures Keeps(list, i, TABLE_FILTER) <==>
      && list[i].speed > 0
      && Frontier(list, list[i])
      && FirstOfClass(list, i)
      && Descending(list[i].cores)
  {
    StoppedStateFirst(freqs, coreCount, list);
    ParetoScanIsGlobal(list, i);
    if list[i].speed > 0 {
      EquivalentScanIsGlobal(list, i);
    }
  }

  lemma KeptHas(list: seq<State>, i: nat, filter: Filter)
    requires i < |list| && Keeps(list, i, filter)
    ensures list[i] in Kept(list, filter)
  {
    var at := KeptPicks(list, |list|, filter);
    var a :| 0 <= a < |at| && at[a] == i;
    assert Kept(list, filter)[a] == list[i];
  }

  /** Whatever the order of equal states, the kept table is strictly increasing in
      speed and non-decreasing in power. */
  lemma TableIncreases(freqs: seq<nat>, coreCount: nat, list: seq<State>, a: nat, b: nat)
    requires SortedStates(freqs, coreCount, list)
    requires a < b < |Kept(list, TABLE_FILTER)|
    ensures Kept(list, TABLE_FILTER)[a].speed < Kept(list, TABLE_FILTER)[b].speed
    ensures Kept(list, TABLE_FILTER)[a].power <= Kept(list, TABLE_FILTER)[b].power
  {
    var at := KeptPicks(list, |list|, TABLE_FILTER);
    var i, j := at[a], at[b];
    KeepsExactly(freqs, coreCount, list, i);
    KeepsExactly(freqs, coreCount, list, j);
    assert CompareStatesOnSpeed(list[i], list[j]) <= 0;
    assert list[j] in list && !SameClass(list[i], list[j]);
  }

  /** Every kept state is a running, descending, rated assignment on the frontier. */
  lemma TableMember(freqs: seq<nat>, coreCount: nat, list: seq<State>, a: nat)
    requires SortedStates(freqs, coreCount, list) && a < |Kept(list, TABLE_FILTER)|
    ensures var t := Kept(list, TABLE_FILTER)[a];
      && t in list && t.speed > 0 && Descending(t.cores) && Frontier(list, t)
      && |t.cores| == coreCount && IsAssignment(freqs, t.cores) && t == Rated(t.cores)
  {
    var at := KeptPicks(list, |list|, TABLE_FILTER);
    var i := at[a];
    KeepsExactly(freqs, coreCount, list, i);
    InList(freqs, coreCount, list, list[i]);
  }

  lemma FindFirst(list: seq<State>, s: State) returns (i: nat)
    requires s in list
    ensures i < |list| && SameClass(list[i], s) && FirstOfClass(list, i)
  {
    i := 0;
    while !SameClass(list[i], s)
      invariant i < |list|
      invariant forall j :: 0 <= j < i ==> !SameClass(list[j], s)
      invariant exists j :: i <= j < |list| && list[j] == s
      decreases |list| - i
    {
      i := i + 1;
    }
  }

  /** For any sort, a running frontier class has a state in the table exactly when
      the state of the class that sorted first is not redundant. */
  lemma ClassSurvivesIff(freqs: seq<nat>, coreCount: nat, list: seq<State>, i: nat)
    requires SortedStates(freqs, coreCount, list)
    requires i < |list| && FirstOfClass(list, i) && list[i].speed > 0 && Frontier(list, list[i])
    ensures Descending(list[i].cores) <==> exists t :: t in Kept(list, TABLE_FILTER) && SameClass(t, list[i])
  {
    KeepsExactly(freqs, coreCount, list, i);
    if Descending(list[i].cores) {
      KeptHas(list, i, TABLE_FILTER);
    }
    if t :| t in Kept(list, TABLE_FILTER) && SameClass(t, list[i]) {
      var a :| 0 <= a < |Kept(list, TABLE_FILTER)| && Kept(list, TABLE_FILTER)[a] == t;
      var at := KeptPicks(list, |list|, TABLE_FILTER);
      var j := at[a];
      KeepsExactly(freqs, coreCount, list, j);
      assert j == i;
    }
  }

  // ---------------------------------------------------------------- each option alone

  const ONLY_REDUNDANT := Filter(true, false, false, false)
  const ONLY_EQUIVALENT := Filter(false, true, false, false)
  const ONLY_UNOPTIMAL := Filter(false, false, true, false)

  lemma KeptMember(list: seq<State>, filter: Filter, s: State) returns (i: nat)
    requires s in Kept(list, filter)
    ensures i < |list| && list[i] == s && Keeps(list, i, filter)
  {
    hide Keeps;
    hide KeptPrefix;
    var a :| 0 <= a < |Kept(list, filter)| && Kept(list, filter)[a] == s;
    var at := KeptPicks(list, |list|, filter);
    i := at[a];
  }

  /** `-r` alone, on any list, keeps the states whose frequencies never rise. */
  lemma RedundantOption(list: seq<State>, s: State)
    ensures s in Kept(list, ONLY_REDUNDANT) <==>
      s in list && forall j, k :: 0 <= j < k < |s.cores| ==> s.cores[j] >= s.cores[k]
  {
    hide KeptPrefix;
    if s in Kept(list, ONLY_REDUNDANT) {
      var i := KeptMember(list, ONLY_REDUNDANT, s);
    }
    if s in list && Descending(s.cores) {
      var i: nat :| i < |list| && list[i] == s;
      KeptHas(list, i, ONLY_REDUNDANT);
    }
  }

  lemma {:induction false} DescendingForm(cores: seq<nat>) returns (d: seq<nat>)
    ensures Descending(d) && multiset(d) == multiset(cores) && |d| == |cores|
    ensures Sum(d) == Sum(cores) && Active(d) == Active(cores)
  {
    if cores == [] {
      d := [];
    } else {
      var x, init := cores[|cores| - 1], cores[..|cores| - 1];
      var rest := DescendingForm(init);
      var n := 0;
      while n < |rest| && rest[n] >= x
        invariant 0 <= n <= |rest|
        invariant forall k :: 0 <= k < n ==> rest[k] >= x
      {
        n := n + 1;
      }
      d := InsertDescending(rest, x, n);
      assert cores == init + [x];
      SumActiveConcat(init, [x]);
    }
  }

  lemma InsertDescending(rest: seq<nat>, x: nat, n: nat) returns (d: seq<nat>)
    requires Descending(rest) && n <= |rest| && (forall k :: 0 <= k < n ==> rest[k] >= x)
    requires n < |rest| ==> rest[n] < x
    ensures Descending(d) && multiset(d) == multiset(rest) + multiset{x} && |d| == |rest| + 1
    ensures Sum(d) == Sum(rest) + Sum([x]) && Active(d) == Active(rest) + Active([x])
  {
    hide Descending;
    hide Sum;
    hide Active;
    d := rest[..n] + [x] + rest[n..];
    InsertOrdered(rest, x, n);
    assert rest == rest[..n] + rest[n..];
    SumActiveConcat(rest[..n], rest[n..]);
    SumActiveConcat(rest[..n] + [x], rest[n..]);
    SumActiveConcat(rest[..n], [x]);
  }

  lemma InsertOrdered(rest: seq<nat>, x: nat, n: nat)
    requires Descending(rest) && n <= |rest| && (forall k :: 0 <= k < n ==> rest[k] >= x)
    requires n < |rest| ==> rest[n] < x
    ensures Descending(rest[..n] + [x] + rest[n..])
  {
    var d := rest[..n] + [x] + rest[n..];
    assert forall i :: 0 <= i < |d| ==> d[i] == if i < n then rest[i] else if i == n then x else rest[i - 1];
    assert forall k :: n <= k < |rest| ==> rest[k] <= rest[n];
  }

  /** The last of a descending list is its least. */
  lemma LastIsLeast(a: seq<nat>, x: nat)
    requires Descending(a) && x in multiset(a)
    ensures a != [] && x >= a[|a| - 1] && Descending(a[..|a| - 1])
  {
    var k :| 0 <= k < |a| && a[k] == x;
  }

  lemma SameLeast(a: seq<nat>, b: seq<nat>)
    requires Descending(a) && Descending(b) && multiset(a) == multiset(b) && a != []
    ensures |a| == |b| && a[|a| - 1] == b[|b| - 1]
    ensures Descending(a[..|a| - 1]) && Descending(b[..|b| - 1])
  {
    hide Descending;
    assert |a| == |multiset(a)| == |multiset(b)| == |b|;
    var n := |a| - 1;
    assert a[n] in multiset(a) && b[n] in multiset(b);
    LastIsLeast(a, a[n]);
    LastIsLeast(b, b[n]);
    LastIsLeast(a, b[n]);
    LastIsLeast(b, a[n]);
  }

  lemma {:induction false} DescendingUnique(a: seq<nat>, b: seq<nat>)
    requires Descending(a) && Descending(b) && multiset(a) == multiset(b)
    ensures a == b
  {
    hide Descending;
    if a == [] {
      assert |b| == |multiset(b)| == |multiset(a)| == 0;
    } else {
      var n := |a| - 1;
      SameLeast(a, b);
      DropLast(a, b);
      DescendingUnique(a[..n], b[..n]);
      assert a == a[..n] + [a[n]] && b == b[..n] + [b[n]];
    }
  }

  /** On the generated states `-r` alone keeps one of the states that permute the same
      frequencies over the cores: the one in which they never rise. */
  lemma OnePerPermutation(freqs: seq<nat>, coreCount: nat, list: seq<State>, s: State) returns (t: State)
    requires SortedStates(freqs, coreCount, list) && s in list
    ensures t in Kept(list, ONLY_REDUNDANT) && multiset(t.cores) == multiset(s.cores)
    ensures forall j, k :: 0 <= j < k < |t.cores| ==> t.cores[j] >= t.cores[k]
    ensures forall u :: u in Kept(list, ONLY_REDUNDANT) && multiset(u.cores) == multiset(s.cores) ==> u == t
  {
    hide KeptPrefix;
    hide SortedStates;
    InList(freqs, coreCount, list, s);
    var d := DescendingForm(s.cores);
    t := Rated(d);
    forall c | 0 <= c < |d| ensures d[c] == 0 || d[c] in freqs {
      assert d[c] in multiset(s.cores);
    }
    InList(freqs, coreCount, list, t);
    RedundantOption(list, t);
    forall u | u in Kept(list, ONLY_REDUNDANT) && multiset(u.cores) == multiset(s.cores) ensures u == t {
      RedundantOption(list, u);
      InList(freqs, coreCount, list, u);
      DescendingUnique(u.cores, d);
    }
  }

  /** `-p` alone, on any sorted list, keeps the states for which no state anywhere is at
      least as fast with less power. */
  lemma UnoptimalOption(list: seq<State>, s: State)
    requires Sorted(list)
    ensures s in Kept(list, ONLY_UNOPTIMAL) <==>
      s in list && forall t :: t in list && t.speed >= s.speed ==> t.power >= s.power
  {
    hide KeptPrefix;
    hide ParetoScan;
    hide Sorted;
    if s in Kept(list, ONLY_UNOPTIMAL) {
      var i := KeptMember(list, ONLY_UNOPTIMAL, s);
      ParetoScanIsGlobal(list, i);
    }
    if s in list && Frontier(list, s) {
      var i: nat :| i < |list| && list[i] == s;
      ParetoScanIsGlobal(list, i);
      KeptHas(list, i, ONLY_UNOPTIMAL);
    }
  }

  ghost predicate ComesFirst(list: seq<State>, i: nat)
    requires i < |list|
  {
    forall j :: 0 <= j < i ==> list[j].speed != list[i].speed || list[j].power != list[i].power
  }

  /** `-u` alone keeps one of the generated states of the same speed and power: the one
      that sorted first. */
  lemma EquivalentOption(freqs: seq<nat>, coreCount: nat, list: seq<State>, s: State) returns (t: State)
    requires SortedStates(freqs, coreCount, list) && s in list
    ensures t in Kept(list, ONLY_EQUIVALENT) && t.speed == s.speed && t.power == s.power
    ensures forall u :: u in Kept(list, ONLY_EQUIVALENT) && u.speed == s.speed && u.power == s.power ==> u == t
    ensures exists i :: 0 <= i < |list| && list[i] == t && ComesFirst(list, i)
  {
    hide KeptPrefix;
    hide SortedStates;
    hide EquivalentScan;
    var i := FindFirst(list, s);
    t := list[i];
    assert ComesFirst(list, i);
    FirstKept(freqs, coreCount, list, i);
    KeptHas(list, i, ONLY_EQUIVALENT);
    forall u | u in Kept(list, ONLY_EQUIVALENT) && u.speed == s.speed && u.power == s.power ensures u == t {
      var k := KeptMember(list, ONLY_EQUIVALENT, u);
      KeptIsFirst(freqs, coreCount, list, i, k);
    }
  }

  lemma FirstKept(freqs: seq<nat>, coreCount: nat, list: seq<State>, i: nat)
    requires SortedStates(freqs, coreCount, list) && i < |list| && FirstOfClass(list, i)
    ensures !EquivalentScan(list, i)
  {
    forall j | ScannedBack(list, i, j) ensures list[j].power != list[i].power {
      assert CompareStatesOnSpeed(list[j], list[i]) <= 0 && !SameClass(list[j], list[i]);
    }
  }

  lemma KeptIsFirst(freqs: seq<nat>, coreCount: nat, list: seq<State>, i: nat, k: nat)
    requires SortedStates(freqs, coreCount, list) && i < |list| && k < |list|
    requires FirstOfClass(list, i) && SameClass(list[i], list[k]) && !EquivalentScan(list, k)
    ensures list[k] == list[i]
  {
    if list[k].speed > 0 {
      StoppedStateFirst(freqs, coreCount, list);
      EquivalentScanIsGlobal(list, k);
    } else {
      StoppedIsOff(freqs, coreCount, list, list[i]);
      StoppedIsOff(freqs, coreCount, list, list[k]);
    }
  }

  /** Only the all-off state has speed 0. */
  lemma StoppedIsOff(freqs: seq<nat>, coreCount: nat, list: seq<State>, s: State)
    requires SortedStates(freqs, coreCount, list) && s in list && s.speed == 0
    ensures s == Rated(Off(coreCount))
  {
    InList(freqs, coreCount, list, s);
    forall c | 0 <= c < coreCount ensures s.cores[c] == 0 {
      SumAtLeast(s.cores, c);
    }
    assert s.cores == Off(coreCount);
  }

  lemma {:induction false} SumAtLeast(cores: seq<nat>, c: nat)
    requires c < |cores|
    ensures cores[c] <= Sum(cores)
  {
    var init := cores[..|cores| - 1];
    if c < |init| {
      SumAtLeast(init, c);
    }
  }

  /** Several options keep what each of them keeps. */
  lemma OptionsCompose(list: seq<State>, i: nat, filter: Filter)
    requires i < |list|
    ensures Keeps(list, i, filter) <==>
      && (filter.skipRedundant ==> Keeps(list, i, ONLY_REDUNDANT))
      && (filter.skipEquivalent ==> Keeps(list, i, ONLY_EQUIVALENT))
      && (filter.skipUnoptimal ==> Keeps(list, i, ONLY_UNOPTIMAL))
      && (filter.skipStopped ==> list[i].speed > 0)
  {
  }

  // ---------------------------------------------------------------- a stable sort

  /** Swapping an out-of-order pair of cores gives another generated state of the
      same speed and power that is lexicographically greater. */
  lemma SwapCores(freqs: seq<nat>, coreCount: nat, list: seq<State>, s: State) returns (t: State)
    requires SortedStates(freqs, coreCount, list)
    requires s in list && !Descending(s.cores)
    ensures t in list && SameClass(s, t) && LexGreater(t.cores, s.cores)
  {
    var c := s.cores;
    InList(freqs, coreCount, list, s);
    var j := AscendingPair(c);
    var d := c[j := c[j + 1]][j + 1 := c[j]];
    SwapKeepsSum(c, j);
    t := Rated(d);
    assert IsAssignment(freqs, d);
    InList(freqs, coreCount, list, t);
    assert d[..j] == c[..j] && d[j] > c[j];
  }

  lemma SwapKeepsSum(c: seq<nat>, j: nat)
    requires j + 1 < |c|
    ensures var d := c[j := c[j + 1]][j + 1 := c[j]];
      Sum(d) == Sum(c) && Active(d) == Active(c)
  {
    var d := c[j := c[j + 1]][j + 1 := c[j]];
    SumSplit(c, j);
    SumSplit(d, j);
    assert d[..j] == c[..j] && d[j + 2..] == c[j + 2..];
  }

  lemma SumSplit(c: seq<nat>, j: nat)
    requires j + 1 < |c|
    ensures Sum(c) == Sum(c[..j]) + c[j] + c[j + 1] + Sum(c[j + 2..])
    ensures Active(c) == Active(c[..j]) + Active([c[j]]) + Active([c[j + 1]]) + Active(c[j + 2..])
  {
    var x, y, pre, post := [c[j]], [c[j + 1]], c[..j], c[j + 2..];
    assert c == ((pre + x) + y) + post;
    SumActiveConcat((pre + x) + y, post);
    SumActiveConcat(pre + x, y);
    SumActiveConcat(pre, x);
    SumOne(c[j]);
    SumOne(c[j + 1]);
  }

  lemma {:induction false} AscendingPair(c: seq<nat>) returns (j: nat)
    requires !Descending(c)
    ensures j + 1 < |c| && c[j] < c[j + 1]
  {
    if Descending(c[..|c| - 1]) {
      j := |c| - 2;
      var x, y :| 0 <= x < y < |c| && c[x] < c[y];
      assert y == |c| - 1;
      assert x < j ==> c[..|c| - 1][x] >= c[..|c| - 1][j];
    } else {
      j := AscendingPair(c[..|c| - 1]);
    }
  }

  ghost predicate StableStates(freqs: seq<nat>, coreCount: nat, list: seq<State>) {
    ValidFreqs(freqs) && coreCount > 0 && StableSorted(Enumeration(freqs, coreCount), list)
  }

  /** `at` is where the ties of `s` come from. */
  lemma {:induction false} TiesAt(list: seq<State>, s: State) returns (at: seq<nat>)
    ensures |at| == |Ties(list, s)|
    ensures forall p :: 0 <= p < |at| ==> at[p] < |list| && list[at[p]] == Ties(list, s)[p]
    ensures forall p, q :: 0 <= p < q < |at| ==> at[p] < at[q]
    ensures forall i :: 0 <= i < |list| && CompareStatesOnSpeed(list[i], s) == 0 ==> i in at
  {
    if list == [] {
      at := [];
    } else {
      var n := |list| - 1;
      var init := TiesAt(list[..n], s);
      at := init + if CompareStatesOnSpeed(list[n], s) == 0 then [n] else [];
      forall i | 0 <= i < |list| && CompareStatesOnSpeed(list[i], s) == 0 ensures i in at {
        assert i < n ==> list[..n][i] == list[i] && i in init;
      }
    }
  }

  /** A stable sort found tied states in the order it leaves them in. */
  lemma StableOrder(original: seq<State>, list: seq<State>, i: nat, j: nat) returns (a: nat, b: nat)
    requires StableSorted(original, list)
    requires i < j < |list| && CompareStatesOnSpeed(list[i], list[j]) == 0
    ensures a < b < |original| && original[a] == list[i] && original[b] == list[j]
  {
    hide Ties;
    var s := list[j];
    assert Ties(list, s) == Ties(original, s);
    var at := TiesAt(list, s);
    var from := TiesAt(original, s);
    var p :| 0 <= p < |at| && at[p] == i;
    var q :| 0 <= q < |at| && at[q] == j;
    a, b := from[p], from[q];
  }

  /** With a stable sort an earlier equivalent state is lexicographically greater. */
  lemma EarlierIsGreater(freqs: seq<nat>, coreCount: nat, list: seq<State>, i: nat, j: nat)
    requires StableStates(freqs, coreCount, list)
    requires i < j < |list| && SameClass(list[i], list[j])
    ensures LexGreater(list[i].cores, list[j].cores)
  {
    var all := Enumeration(freqs, coreCount);
    var a, b := StableOrder(all, list, i, j);
    assert [] + Assignment(freqs, a, coreCount) == Assignment(freqs, a, coreCount);
    assert [] + Assignment(freqs, b, coreCount) == Assignment(freqs, b, coreCount);
    EnumerationDescends(freqs, a, b, coreCount);
  }

  /** The survivor of a class is the one no core swap can improve: so testing
      for equivalents among redundant states never loses the whole class. */
  lemma FirstIsDescending(freqs: seq<nat>, coreCount: nat, list: seq<State>, i: nat)
    requires StableStates(freqs, coreCount, list)
    requires i < |list| && FirstOfClass(list, i)
    ensures Descending(list[i].cores)
  {
    if !Descending(list[i].cores) {
      var t := SwapCores(freqs, coreCount, list, list[i]);
      var j: nat :| j < |list| && list[j] == t;
      SwapSortsEarlier(freqs, coreCount, list, i, j);
    }
  }

  lemma SwapSortsEarlier(freqs: seq<nat>, coreCount: nat, list: seq<State>, i: nat, j: nat)
    requires StableStates(freqs, coreCount, list) && i < |list| && j < |list|
    requires SameClass(list[i], list[j]) && LexGreater(list[j].cores, list[i].cores)
    ensures j < i
  {
    LexAsymmetric(list[j].cores, list[i].cores);
    if i < j {
      EarlierIsGreater(freqs, coreCount, list, i, j);
    }
  }

  lemma CheapestAtLeast(list: seq<State>, s: State) returns (y: State)
    requires s in list
    ensures y in list && y.speed >= s.speed && y.power <= s.power
    ensures forall t :: t in list && t.speed >= s.speed ==> t.power >= y.power
  {
    y := s;
    while exists t :: t in list && t.speed >= s.speed && t.power < y.power
      invariant y in list && y.speed >= s.speed && y.power <= s.power
      decreases y.power
    {
      var t :| t in list && t.speed >= s.speed && t.power < y.power;
      y := t;
    }
  }

  /** A table holds at most one state of a class. */
  lemma TableUnique(freqs: seq<nat>, coreCount: nat, list: seq<State>, t: State, u: State)
    requires SortedStates(freqs, coreCount, list)
    requires t in Kept(list, TABLE_FILTER) && u in Kept(list, TABLE_FILTER) && SameClass(t, u)
    ensures t == u
  {
    var table := Kept(list, TABLE_FILTER);
    var a: nat, b: nat :| a < |table| && b < |table| && table[a] == t && table[b] == u;
    if a < b {
      TableIncreases(freqs, coreCount, list, a, b);
    } else if b < a {
      TableIncreases(freqs, coreCount, list, b, a);
    }
  }

  /** Exactly one state of every running frontier class is kept, and it is the
      lexicographically greatest of its class. */
  lemma StableTableExact(freqs: seq<nat>, coreCount: nat, list: seq<State>, s: State) returns (t: State)
    requires StableStates(freqs, coreCount, list)
    requires s in list && s.speed > 0 && Frontier(list, s)
    ensures t in Kept(list, TABLE_FILTER) && SameClass(t, s)
    ensures forall u :: u in Kept(list, TABLE_FILTER) && SameClass(u, s) ==> u == t
    ensures forall u :: u in list && SameClass(u, s) && u != t ==> LexGreater(t.cores, u.cores)
  {
    var i := FindFirst(list, s);
    t := list[i];
    FirstIsDescending(freqs, coreCount, list, i);
    KeepsExactly(freqs, coreCount, list, i);
    KeptHas(list, i, TABLE_FILTER);
    forall u | u in Kept(list, TABLE_FILTER) && SameClass(u, s) ensures u == t {
      TableUnique(freqs, coreCount, list, t, u);
    }
    forall u | u in list && SameClass(u, s) && u != t ensures LexGreater(t.cores, u.cores) {
      FirstIsGreatest(freqs, coreCount, list, i, u);
    }
  }

  lemma FirstIsGreatest(freqs: seq<nat>, coreCount: nat, list: seq<State>, i: nat, u: State)
    requires StableStates(freqs, coreCount, list)
    requires i < |list| && FirstOfClass(list, i) && u in list && SameClass(list[i], u) && u != list[i]
    ensures LexGreater(list[i].cores, u.cores)
  {
    var j: nat :| j < |list| && list[j] == u;
    EarlierIsGreater(freqs, coreCount, list, i, j);
  }

  /** The table dominates the enumeration: for every running state it holds one at
      least as fast with no more power. */
  lemma TableCovers(freqs: seq<nat>, coreCount: nat, list: seq<State>, s: State) returns (t: State)
    requires StableStates(freqs, coreCount, list)
    requires s in list && s.speed > 0
    ensures t in Kept(list, TABLE_FILTER) && t.speed >= s.speed && t.power <= s.power
  {
    var y := CheapestAtLeast(list, s);
    t := StableTableExact(freqs, coreCount, list, y);
  }

  // ---------------------------------------------------------------- Pareto optimality proper

  /** At least as good in speed and in power, and better in one. */
  ghost predicate Beats(t: State, s: State) {
    t.speed >= s.speed && t.power <= s.power && (t.speed > s.speed || t.power < s.power)
  }

  ghost predicate Beaten(list: seq<State>, s: State) {
    exists t :: t in list && Beats(t, s)
  }

  /** `pareto_optimal` rejects only for less power, so a kept state can be beaten:
      exactly when the next one in the table has the same power. */
  lemma BeatenIff(freqs: seq<nat>, coreCount: nat, list: seq<State>, a: nat)
    requires StableStates(freqs, coreCount, list) && a < |Kept(list, TABLE_FILTER)|
    ensures var table := Kept(list, TABLE_FILTER);
      Beaten(list, table[a]) <==> a + 1 < |table| && table[a + 1].power == table[a].power
  {
    hide KeptPrefix;
    var table := Kept(list, TABLE_FILTER);
    TableMember(freqs, coreCount, list, a);
    if t :| t in list && Beats(t, table[a]) {
      var u := TableCovers(freqs, coreCount, list, t);
      var b: nat :| b < |table| && table[b] == u;
      if b < a {
        TableIncreases(freqs, coreCount, list, b, a);
      }
      if a + 1 < b {
        TableIncreases(freqs, coreCount, list, a + 1, b);
      }
      TableIncreases(freqs, coreCount, list, a, a + 1);
    }
    if a + 1 < |table| && table[a + 1].power == table[a].power {
      TableIncreases(freqs, coreCount, list, a, a + 1);
      TableMember(freqs, coreCount, list, a + 1);
    }
  }

  /** So the table is Pareto-optimal exactly when its powers strictly increase too. */
  lemma TableParetoIff(freqs: seq<nat>, coreCount: nat, list: seq<State>)
    requires StableStates(freqs, coreCount, list)
    ensures var table := Kept(list, TABLE_FILTER);
      (forall a :: 0 <= a < |table| ==> !Beaten(list, table[a]))
      <==> forall a, b :: 0 <= a < b < |table| ==> table[a].power < table[b].power
  {
    hide KeptPrefix;
    hide Beaten;
    hide StableStates;
    var table := Kept(list, TABLE_FILTER);
    if forall a :: 0 <= a < |table| ==> !Beaten(list, table[a]) {
      forall a: nat, b: nat | a < b < |table| ensures table[a].power < table[b].power {
        StablePowers(freqs, coreCount, list, a, b);
        BeatenIff(freqs, coreCount, list, a);
      }
    } else {
      var a: nat :| a < |table| && Beaten(list, table[a]);
      BeatenIff(freqs, coreCount, list, a);
    }
  }

  lemma StablePowers(freqs: seq<nat>, coreCount: nat, list: seq<State>, a: nat, b: nat)
    requires StableStates(freqs, coreCount, list) && a < b < |Kept(list, TABLE_FILTER)|
    ensures var table := Kept(list, TABLE_FILTER);
      table[a].power <= table[a + 1].power <= table[b].power
  {
    hide KeptPrefix;
    TableIncreases(freqs, coreCount, list, a, a + 1);
    if a + 1 < b {
      TableIncreases(freqs, coreCount, list, a + 1, b);
    }
  }

  const TWO_FREQS: seq<nat> := [2000000, 500000]

  /** What two cores with these frequencies can run: 100 is reached only by two slow
      cores, and nothing as fast needs less than their power. */
  lemma TwoCoreState(list: seq<State>, u: State)
    requires SortedStates(TWO_FREQS, 2, list) && u in list
    ensures u.speed == 100 ==> u.cores == [500000, 500000] && u == Rated(u.cores)
    ensures u.speed >= 100 ==> u.power >= 300
  {
    InList(TWO_FREQS, 2, list, u);
    var x, y := u.cores[0], u.cores[1];
    assert u.cores == [x] + [y];
    SumOne(x);
    SumOne(y);
    SumActiveConcat([x], [y]);
  }

  /** It does happen: with two cores of 2000000 or 500000 kHz, two slow cores are
      kept, although one fast core is faster with the same power. */
  lemma NotAlwaysPareto(list: seq<State>)
    requires StableStates(TWO_FREQS, 2, list)
    ensures State(100, 300, [500000, 500000]) in Kept(list, TABLE_FILTER)
    ensures State(200, 300, [2000000, 0]) in list
    ensures Beaten(list, State(100, 300, [500000, 500000]))
  {
    hide KeptPrefix;
    hide StableStates;
    StableIsSorted(TWO_FREQS, 2, list);
    var slow, fast := State(100, 300, [500000, 500000]), State(200, 300, [2000000, 0]);
    RatedPairs();
    InList(TWO_FREQS, 2, list, slow);
    InList(TWO_FREQS, 2, list, fast);
    forall u | u in list ensures !(u.speed >= slow.speed && u.power < slow.power) {
      TwoCoreState(list, u);
    }
    var t := StableTableExact(TWO_FREQS, 2, list, slow);
    TableHolds(TWO_FREQS, 2, list, t);
    TwoCoreState(list, t);
  }

  lemma RatedPairs()
    ensures Rated([500000, 500000]) == State(100, 300, [500000, 500000])
    ensures Rated([2000000, 0]) == State(200, 300, [2000000, 0])
  {
    assert [500000, 500000] == [500000] + [500000] && [2000000, 0] == [2000000] + [0];
    SumOne(500000);
    SumOne(2000000);
    SumOne(0);
    SumActiveConcat([500000], [500000]);
    SumActiveConcat([2000000], [0]);
  }

  lemma TableHolds(freqs: seq<nat>, coreCount: nat, list: seq<State>, t: State)
    requires SortedStates(freqs, coreCount, list) && t in Kept(list, TABLE_FILTER)
    ensures t in list
  {
    hide KeptPrefix;
    var a: nat :| a < |Kept(list, TABLE_FILTER)| && Kept(list, TABLE_FILTER)[a] == t;
    TableMember(freqs, coreCount, list, a);
  }

  lemma StableIsSorted(freqs: seq<nat>, coreCount: nat, list: seq<State>)
    requires StableStates(freqs, coreCount, list)
    ensures SortedStates(freqs, coreCount, list)
  {
  }

  // ---------------------------------------------------------------- the ends of the table

  /** The speed of one core at the lowest frequency. */
  function LowestSpeed(freqs: seq<nat>): nat
    requires |freqs| > 0
  {
    freqs[|freqs| - 1] / UNIT
  }

  /** The speed of every core at the highest frequency. */
  function HighestSpeed(freqs: seq<nat>, coreCount: nat): nat
    requires |freqs| > 0
  {
    coreCount * freqs[0] / UNIT
  }

  lemma SpeedBounds(freqs: seq<nat>, coreCount: nat, list: seq<State>, s: State)
    requires SortedStates(freqs, coreCount, list) && s in list
    ensures s.speed <= HighestSpeed(freqs, coreCount)
    ensures s.speed > 0 ==> s.speed >= LowestSpeed(freqs) && s.power >= s.speed + 100
  {
    InList(freqs, coreCount, list, s);
    SumBounds(freqs, s.cores);
    PowerIsSpeedPlusCores(s.cores);
    var a, lo, hi := Active(s.cores), freqs[|freqs| - 1], freqs[0];
    MulGap(a, coreCount, hi);
    MulGap(0, a, lo);
    DivMonotone(Sum(s.cores), coreCount * hi);
    DivMonotone(lo, Sum(s.cores));
  }

  lemma DivMonotone(x: nat, y: nat)
    ensures x <= y ==> x / UNIT <= y / UNIT
  {
  }

  lemma {:induction false} RepeatedSum(f: nat, n: nat)
    ensures Sum(seq(n, _ => f)) == n * f
  {
    if n > 0 {
      var s := seq(n, _ => f);
      RepeatedSum(f, n - 1);
      assert s[..n - 1] == seq(n - 1, _ => f);
      NextMultiple(n - 1, f);
    }
  }

  /** One core at the lowest frequency, and every core at the highest. */
  lemma EndStates(freqs: seq<nat>, coreCount: nat, list: seq<State>) returns (low: State, full: State)
    requires SortedStates(freqs, coreCount, list)
    ensures low in list && low.speed == LowestSpeed(freqs) > 0 && low.power == low.speed + 100
    ensures full in list && full.speed == HighestSpeed(freqs, coreCount) > 0
  {
    var lo, hi := freqs[|freqs| - 1], freqs[0];
    var all, one := seq(coreCount, _ => hi), [lo] + Off(coreCount - 1);
    low, full := Rated(one), Rated(all);
    RepeatedSum(hi, coreCount);
    MulGap(0, coreCount, hi);
    DivMonotone(UNIT, coreCount * hi);
    OffIsZero(coreCount - 1);
    SumActiveConcat([lo], Off(coreCount - 1));
    SumOne(lo);
    PowerIsSpeedPlusCores(one);
    DivMonotone(UNIT, lo);
    InList(freqs, coreCount, list, full);
    InList(freqs, coreCount, list, low);
  }

  /** The table is not empty, and its ends, which become the limits of the speed
      actuator, are one core at the lowest frequency and every core at the highest. */
  ghost predicate EndsKept(freqs: seq<nat>, coreCount: nat, list: seq<State>) {
    SortedStates(freqs, coreCount, list) &&
    var table := Kept(list, TABLE_FILTER);
    && |table| > 0
    && table[0].speed == LowestSpeed(freqs)
    && table[|table| - 1].speed == HighestSpeed(freqs, coreCount)
  }

  /** A stable sort keeps the ends. */
  lemma TableEnds(freqs: seq<nat>, coreCount: nat, list: seq<State>)
    requires StableStates(freqs, coreCount, list)
    ensures EndsKept(freqs, coreCount, list)
  {
    var table := Kept(list, TABLE_FILTER);
    var low, full := EndStates(freqs, coreCount, list);
    var top := TableCovers(freqs, coreCount, list, full);
    var bottom := TableCovers(freqs, coreCount, list, low);
    forall a: nat | a < |table|
      ensures low.speed <= table[a].speed <= full.speed && table[a].power >= table[a].speed + 100
      ensures table[0].speed <= table[a].speed <= table[|table| - 1].speed
    {
      TableMemberBounds(freqs, coreCount, list, a);
      TableWithin(freqs, coreCount, list, a);
    }
    EndsFrom(table, low, full, top, bottom);
  }

  lemma EndsFrom(table: seq<State>, low: State, full: State, top: State, bottom: State)
    requires top in table && top.speed >= full.speed
    requires bottom in table && bottom.power <= low.power == low.speed + 100
    requires forall a :: 0 <= a < |table| ==>
      low.speed <= table[a].speed <= full.speed && table[a].power >= table[a].speed + 100
    requires forall a :: 0 <= a < |table| ==> table[0].speed <= table[a].speed <= table[|table| - 1].speed
    ensures |table| > 0 && table[0].speed == low.speed && table[|table| - 1].speed == full.speed
  {
  }

  lemma TableMemberBounds(freqs: seq<nat>, coreCount: nat, list: seq<State>, a: nat)
    requires SortedStates(freqs, coreCount, list) && a < |Kept(list, TABLE_FILTER)|
    ensures LowestSpeed(freqs) <= Kept(list, TABLE_FILTER)[a].speed <= HighestSpeed(freqs, coreCount)
    ensures Kept(list, TABLE_FILTER)[a].power >= Kept(list, TABLE_FILTER)[a].speed + 100
  {
    TableMember(freqs, coreCount, list, a);
    SpeedBounds(freqs, coreCount, list, Kept(list, TABLE_FILTER)[a]);
  }

  lemma TableWithin(freqs: seq<nat>, coreCount: nat, list: seq<State>, a: nat)
    requires SortedStates(freqs, coreCount, list) && a < |Kept(list, TABLE_FILTER)|
    ensures Kept(list, TABLE_FILTER)[0].speed <= Kept(list, TABLE_FILTER)[a].speed
    ensures Kept(list, TABLE_FILTER)[a].speed <= Kept(list, TABLE_FILTER)[|Kept(list, TABLE_FILTER)| - 1].speed
  {
    if a > 0 {
      TableIncreases(freqs, coreCount, list, 0, a);
    }
    if a < |Kept(list, TABLE_FILTER)| - 1 {
      TableIncreases(freqs, coreCount, list, a, |Kept(list, TABLE_FILTER)| - 1);
    }
  }

  /** Speeds at an end of the range. */
  predicate EndSpeed(freqs: seq<nat>, coreCount: nat, speed: nat)
    requires |freqs| > 0
  {
    speed == LowestSpeed(freqs) || speed == HighestSpeed(freqs, coreCount)
  }

  /** How many cores run at either end of the speed range: one, and all. */
  lemma EndCores(freqs: seq<nat>, coreCount: nat, list: seq<State>, s: State)
    requires SortedStates(freqs, coreCount, list) && s in list
    ensures |s.cores| == coreCount && s == Rated(s.cores)
    ensures s.speed == LowestSpeed(freqs) ==> Active(s.cores) == 1
    ensures s.speed == HighestSpeed(freqs, coreCount) ==> Active(s.cores) == coreCount
  {
    InList(freqs, coreCount, list, s);
    SumBounds(freqs, s.cores);
    var a, lo, hi := Active(s.cores), freqs[|freqs| - 1], freqs[0];
    MulGap(1, a, lo);
    MulGap(a, coreCount, hi);
    DivMonotone(UNIT, lo);
    DivMonotone(lo + UNIT, Sum(s.cores));
    DivMonotone(Sum(s.cores) + UNIT, coreCount * hi);
  }

  /** Each end of the range is one class, and it is on the frontier. */
  lemma EndClass(freqs: seq<nat>, coreCount: nat, list: seq<State>, s: State)
    requires SortedStates(freqs, coreCount, list) && s in list && EndSpeed(freqs, coreCount, s.speed)
    ensures s.speed > 0 && Frontier(list, s)
    ensures forall t :: t in list && t.speed == s.speed ==> SameClass(s, t)
  {
    hide LowestSpeed;
    hide HighestSpeed;
    var low, full := EndStates(freqs, coreCount, list);
    forall t | t in list
      ensures t.speed == s.speed ==> SameClass(s, t)
      ensures !(t.speed >= s.speed && t.power < s.power)
    {
      EndCores(freqs, coreCount, list, s);
      EndCores(freqs, coreCount, list, t);
      PowerIsSpeedPlusCores(s.cores);
      PowerIsSpeedPlusCores(t.cores);
      SpeedBounds(freqs, coreCount, list, t);
    }
  }

  /** An end is in the table exactly when the state of it that sorted first is not
      redundant. */
  lemma EndSurvivesIff(freqs: seq<nat>, coreCount: nat, list: seq<State>, i: nat)
    requires SortedStates(freqs, coreCount, list) && i < |list| && FirstOfClass(list, i)
    requires EndSpeed(freqs, coreCount, list[i].speed)
    ensures Descending(list[i].cores) <==>
      exists a :: 0 <= a < |Kept(list, TABLE_FILTER)| && Kept(list, TABLE_FILTER)[a].speed == list[i].speed
  {
    hide KeptPrefix;
    hide LowestSpeed;
    hide HighestSpeed;
    var table := Kept(list, TABLE_FILTER);
    EndClass(freqs, coreCount, list, list[i]);
    ClassSurvivesIff(freqs, coreCount, list, i);
    if t :| t in table && SameClass(t, list[i]) {
      var a :| 0 <= a < |table| && table[a] == t;
    }
    if a: nat :| a < |table| && table[a].speed == list[i].speed {
      TableMember(freqs, coreCount, list, a);
      assert table[a] in table && SameClass(table[a], list[i]);
    }
  }

  /** Exactly which sorts keep the ends of the table. */
  lemma EndsKeptIff(freqs: seq<nat>, coreCount: nat, list: seq<State>)
    requires SortedStates(freqs, coreCount, list)
    ensures EndsKept(freqs, coreCount, list) <==>
      forall i :: 0 <= i < |list| && FirstOfClass(list, i) && EndSpeed(freqs, coreCount, list[i].speed) ==>
        Descending(list[i].cores)
  {
    hide KeptPrefix;
    hide LowestSpeed;
    hide HighestSpeed;
    hide SortedStates;
    hide Descending;
    hide FirstOfClass;
    var table := Kept(list, TABLE_FILTER);
    SortedFreqs(freqs, coreCount, list);
    var low, full := EndStates(freqs, coreCount, list);
    var l := FindFirst(list, low);
    var f := FindFirst(list, full);
    forall i: nat | i < |list| && FirstOfClass(list, i) && EndSpeed(freqs, coreCount, list[i].speed)
      ensures Descending(list[i].cores) <==> exists a :: 0 <= a < |table| && table[a].speed == list[i].speed
    {
      EndSurvivesIff(freqs, coreCount, list, i);
    }
    forall a: nat | a < |table|
      ensures LowestSpeed(freqs) <= table[a].speed <= HighestSpeed(freqs, coreCount)
      ensures table[0].speed <= table[a].speed <= table[|table| - 1].speed
    {
      TableMemberBounds(freqs, coreCount, list, a);
      TableWithin(freqs, coreCount, list, a);
    }
    EndsPresent(freqs, coreCount, list, table);
  }

  lemma SortedFreqs(freqs: seq<nat>, coreCount: nat, list: seq<State>)
    requires SortedStates(freqs, coreCount, list)
    ensures |freqs| > 0
  {
  }

  /** A table within the range has both its ends exactly if it holds both speeds. */
  lemma EndsPresent(freqs: seq<nat>, coreCount: nat, list: seq<State>, table: seq<State>)
    requires SortedStates(freqs, coreCount, list) && table == Kept(list, TABLE_FILTER) && |freqs| > 0
    requires forall a :: 0 <= a < |table| ==>
      && LowestSpeed(freqs) <= table[a].speed <= HighestSpeed(freqs, coreCount)
      && table[0].speed <= table[a].speed <= table[|table| - 1].speed
    ensures EndsKept(freqs, coreCount, list) <==>
      && (exists a :: 0 <= a < |table| && table[a].speed == LowestSpeed(freqs))
      && (exists a :: 0 <= a < |table| && table[a].speed == HighestSpeed(freqs, coreCount))
  {
    hide KeptPrefix;
    hide LowestSpeed;
    hide HighestSpeed;
    hide SortedStates;
  }

  /** An order `qsort` may leave for two cores and one frequency: of the two
      one-core states, the redundant one comes first. */
  const LOSSY_ORDER: seq<State> :=
    [State(0, 0, [0, 0]), State(1, 101, [0, 10000]), State(1, 101, [10000, 0]), State(2, 202, [10000, 10000])]

  /** The stable-sort assumption matters: this order loses the one-core class. */
  lemma UnstableSortLosesClass(freqs: seq<nat>, list: seq<State>)
    requires freqs == [10000] && list == LOSSY_ORDER
    ensures SortedStates(freqs, 2, list)
    ensures list[2].speed == 1 && Frontier(list, list[2])
    ensures forall t :: t in Kept(list, TABLE_FILTER) ==> t.power > list[2].power
  {
    LossyOrderSorted(list);
    TwoCoreEnumeration(freqs);
    ReverseFour(list[3], list[2], list[1], list[0]);
    LossyClass(freqs, list);
  }

  lemma LossyOrderSorted(list: seq<State>)
    requires list == LOSSY_ORDER
    ensures Sorted(list) && |list| == 4 && list == [list[0], list[1], list[2], list[3]]
    ensures Frontier(list, list[1]) && Frontier(list, list[2]) && !Descending(list[1].cores)
  {
    assert list[1].cores[0] < list[1].cores[1];
  }

  lemma ReverseFour(a: State, b: State, c: State, d: State)
    ensures multiset([a, b, c, d]) == multiset([d, c, b, a])
  {
    assert [a, b, c, d] == [a, b] + [c, d] && [d, c, b, a] == [d, c] + [b, a];
    ReverseTwo(a, b);
    ReverseTwo(c, d);
  }

  lemma ReverseTwo(a: State, b: State)
    ensures multiset([a, b]) == multiset([b, a])
  {
    assert [a, b] == [a] + [b] && [b, a] == [b] + [a];
  }

  lemma LossyClass(freqs: seq<nat>, list: seq<State>)
    requires SortedStates(freqs, 2, list) && |list| == 4
    requires list[0].speed == 0 && SameClass(list[1], list[2]) && list[1].speed > 0
    requires Frontier(list, list[1]) && !Descending(list[1].cores)
    requires list[3].power > list[2].power
    ensures forall t :: t in Kept(list, TABLE_FILTER) ==> t.power > list[2].power
  {
    var table := Kept(list, TABLE_FILTER);
    ClassSurvivesIff(freqs, 2, list, 1);
    forall t | t in table ensures t.power > list[2].power {
      var a: nat :| a < |table| && table[a] == t;
      TableMember(freqs, 2, list, a);
      var i :| 0 <= i < 4 && list[i] == t;
    }
  }

  lemma TwoDigits(freqs: seq<nat>, d: nat, e: nat)
    requires |freqs| == 1 && d <= 1 && e <= 1
    ensures 2 * d + e < Pow(2, 2) == 4
    ensures Assignment(freqs, 2 * d + e, 2) == [Level(freqs, d), Level(freqs, e)]
  {
    hide Pow;
    hide Level;
    hide Assignment;
    PowersOfTwo();
    AssignmentLead(freqs, d, e, 2);
    AssignmentLead(freqs, e, 0, 1);
    NoDigits(freqs);
  }

  lemma PowersOfTwo()
    ensures Pow(2, 0) == 1 && Pow(2, 1) == 2 && Pow(2, 2) == 4
  {
    assert Pow(2, 1) == 2 * Pow(2, 0) && Pow(2, 2) == 2 * Pow(2, 1);
  }

  lemma NoDigits(freqs: seq<nat>)
    ensures Pow(|freqs| + 1, 0) == 1 && Assignment(freqs, 0, 0) == []
  {
  }

  lemma PairRated(freqs: seq<nat>, d: nat, e: nat, x: nat, y: nat)
    requires |freqs| == 1 && d <= 1 && e <= 1 && x == Level(freqs, d) && y == Level(freqs, e)
    ensures 2 * d + e < |Enumeration(freqs, 2)| == 4
    ensures Enumeration(freqs, 2)[2 * d + e]
         == State((x + y) / UNIT,
                  (CORE_COST * ((if x > 0 then 1 else 0) + if y > 0 then 1 else 0) + x + y) / UNIT, [x, y])
  {
    hide Pow;
    hide Level;
    hide Assignment;
    TwoDigits(freqs, d, e);
    assert [] + [x, y] == [x, y] == [x] + [y];
    SumOne(x);
    SumOne(y);
    SumActiveConcat([x], [y]);
  }

  lemma TwoCoreEnumeration(freqs: seq<nat>)
    requires freqs == [10000]
    ensures Enumeration(freqs, 2) == [LOSSY_ORDER[3], LOSSY_ORDER[2], LOSSY_ORDER[1], LOSSY_ORDER[0]]
  {
    PairRated(freqs, 0, 0, 10000, 10000);
    PairRated(freqs, 0, 1, 10000, 0);
    PairRated(freqs, 1, 0, 0, 10000);
    PairRated(freqs, 1, 1, 0, 0);
  }
}

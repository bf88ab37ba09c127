/** One producer and one monitor over the shared ring, as interleaved steps:
    the writer of src/heartbeat-shared.c against the copy that `hrm_get_current`
    makes in src/heart_rate_monitor-shared.c. Every cell of the ring holds the
    number of the beat whose record was last written there (or NONE). */
module RingReader {
  import opened Arithmetic
  import HB = Heartbeat

  const FIELDS: nat := 6
  const NONE: int := -1

  /** Where the writer stands in `heartbeat`. The first beat skips the read index
      and ends by setting `valid`; later beats run through both wraps. */
  datatype Writer =
    | Idle
    | Filling(field: nat)
    | BumpBuffer
    | BumpCounter
    | BumpRead
    | WrapBuffer
    | WrapRead
    | SetValid

  /** Where the reader stands: it tests `valid`, takes the read index once, and
      then copies the fields in any order. `base` is the beat published when the
      index was taken, `begunThen` how many beats had begun. */
  datatype Reader =
    | Polling
    | Checked
    | Copying(r: nat, base: int, begunThen: nat, copy: map<nat, int>)

  datatype Shared = Shared(
    depth: nat,
    log: seq<seq<int>>,
    bufferIndex: nat,
    readIndex: nat,
    counter: nat,
    valid: bool,
    writer: Writer,
    begun: nat,        // beats begun so far
    published: int,    // the beat last published, NONE before the first
    reader: Reader)

  ghost predicate Init(s: Shared) {
    && s.depth >= 2
    && |s.log| == s.depth
    && (forall i :: 0 <= i < s.depth ==> |s.log[i]| == FIELDS && forall f :: 0 <= f < FIELDS ==> s.log[i][f] == NONE)
    && s.bufferIndex == s.readIndex == s.counter == s.begun == 0
    && !s.valid && s.writer == Idle && s.published == NONE && s.reader == Polling
  }

  // ---------------------------------------------------------------- steps

  ghost predicate WriterStep(s: Shared, s': Shared) {
    match s.writer
    case Idle =>
      s' == s.(writer := Filling(0), begun := s.begun + 1)
    case Filling(f) =>
      && f < FIELDS && s.bufferIndex < |s.log| && f < |s.log[s.bufferIndex]|
      && s' == s.(log := s.log[s.bufferIndex := s.log[s.bufferIndex][f := s.begun - 1]],
                  writer := if f + 1 < FIELDS then Filling(f + 1)
                            else if s.begun == 1 then BumpCounter else BumpBuffer)
    case BumpBuffer =>  // the first beat steps the counter first, later beats the index first
      s' == s.(bufferIndex := s.bufferIndex + 1, writer := if s.begun == 1 then SetValid else BumpCounter)
    case BumpCounter =>
      s' == s.(counter := s.counter + 1, writer := if s.begun == 1 then BumpBuffer else BumpRead)
    case SetValid =>
      s' == s.(valid := true, writer := Idle, published := s.begun - 1)
    case BumpRead =>
      s' == s.(readIndex := s.readIndex + 1, writer := WrapBuffer, published := s.begun - 1)
    case WrapBuffer =>
      && s.depth > 0
      && s' == s.(bufferIndex := if s.bufferIndex % s.depth == 0 then 0 else s.bufferIndex, writer := WrapRead)
    case WrapRead =>
      && s.depth > 0
      && s' == s.(readIndex := if s.readIndex % s.depth == 0 then 0 else s.readIndex, writer := Idle)
  }

  ghost predicate ReaderStep(s: Shared, s': Shared) {
    match s.reader
    case Polling =>
      s' == s.(reader := if s.valid then Checked else Polling)
    case Checked =>
      s' == s.(reader := Copying(s.readIndex, s.published, s.begun, map[]))
    case Copying(r, base, begunThen, copy) =>
      || s' == s.(reader := Polling)
      || exists f :: CopyField(s, s', f)
  }

  /** Copy one field from the slot taken. An index equal to the depth names no
      slot: no step copies from it. */
  ghost predicate CopyField(s: Shared, s': Shared, f: nat) {
    && s.reader.Copying? && f < FIELDS && f !in s.reader.copy
    && s.reader.r < |s.log| && f < |s.log[s.reader.r]|
    && s' == s.(reader := s.reader.(copy := s.reader.copy[f := s.log[s.reader.r][f]]))
  }

  ghost predicate Step(s: Shared, s': Shared) {
    WriterStep(s, s') || ReaderStep(s, s')
  }

  ghost predicate Run(run: seq<Shared>) {
    && |run| > 0 && Init(run[0])
    && forall i :: 0 <= i < |run| - 1 ==> Step(run[i], run[i + 1])
  }

  // ---------------------------------------------------------------- invariant

  /** Field `f` of beat `b` has been stored. */
  ghost predicate Written(s: Shared, b: int, f: nat) {
    0 <= b && (b < s.begun - 1 || (b == s.begun - 1 && f < Filled(s)))
  }

  /** How many fields of the latest beat have been stored. */
  function Filled(s: Shared): nat {
    if s.writer.Filling? then s.writer.field else FIELDS
  }

  /** A cell holds the latest beat of its slot that has been stored there. */
  ghost predicate CellHolds(s: Shared, i: nat, f: nat)
    requires s.depth > 0 && i < |s.log| && f < |s.log[i]|
  {
    var v := s.log[i][f];
    if v == NONE then !Written(s, i, f)
    else v >= 0 && Slot(v, s.depth) == i && Written(s, v, f) && !Written(s, v + s.depth, f)
  }

  ghost predicate CellsHold(s: Shared)
    requires s.depth > 0
  {
    && |s.log| == s.depth
    && (forall i :: 0 <= i < s.depth ==> |s.log[i]| == FIELDS)
    && (forall i: nat, f: nat :: i < s.depth && f < FIELDS ==> CellHolds(s, i, f))
  }

  /** The indices at every point of `heartbeat`, for `b` beats begun. */
  ghost predicate IndicesHold(s: Shared)
    requires s.depth > 0
  {
    var b := s.begun;
    && (s.writer != Idle ==> b > 0)
    && (s.writer.Filling? ==> s.writer.field < FIELDS)
    && (s.writer in {BumpRead, WrapBuffer, WrapRead} ==> b > 1)
    && (s.writer == SetValid ==> b == 1)
    && s.bufferIndex == BufferIndexAt(s)
    && s.counter == (if b == 0 then 0 else if CounterBumped(s) then b else b - 1)
    && s.published == (if b == 0 then NONE else if Finishing(s) then b - 1 else b - 2)
    && s.valid == (s.published >= 0)
    && s.readIndex == (if s.writer == WrapBuffer || s.writer == WrapRead then Slot(b - 2, s.depth) + 1
                       else if s.published < 0 then 0 else Slot(s.published, s.depth))
  }

  /** The latest beat has been published. */
  predicate Finishing(s: Shared) {
    s.writer in {Idle, WrapBuffer, WrapRead}
  }

  predicate CounterBumped(s: Shared) {
    Finishing(s) || s.writer in {BumpRead, SetValid} || (s.writer == BumpBuffer && s.begun == 1)
  }

  function BufferIndexAt(s: Shared): nat
    requires s.depth > 0 && (s.writer != Idle ==> s.begun > 0)
  {
    if s.writer in {Idle, WrapRead} then Slot(s.begun, s.depth)
    else if s.writer in {BumpRead, WrapBuffer, SetValid} || (s.writer == BumpCounter && s.begun > 1)
      then Slot(s.begun - 1, s.depth) + 1
    else Slot(s.begun - 1, s.depth)
  }

  /** A field copied is the beat that was published when the index was taken,
      unless the beat that reuses the slot has already been stored over it. */
  ghost predicate CopyHolds(s: Shared)
    requires s.depth > 0
  {
    match s.reader
    case Polling => true
    case Checked => s.valid
    case Copying(r, base, begunThen, copy) =>
      && 0 <= base <= s.published && base + 1 <= begunThen <= base + 2 && begunThen <= s.begun
      && (r < s.depth ==> r == Slot(base, s.depth))
      && (r < s.depth || (r == s.depth && Slot(base, s.depth) == 0))
      && forall f :: f in copy ==> f < FIELDS && r < s.depth && (s.begun <= base + s.depth ==> copy[f] == base)
  }

  ghost predicate Inv(s: Shared) {
    s.depth >= 2 && CellsHold(s) && IndicesHold(s) && CopyHolds(s)
  }

  lemma InitInv(s: Shared)
    requires Init(s)
    ensures Inv(s)
  {
    SlotSmall(0, s.depth);
  }

  lemma FillKeepsCells(s: Shared, s': Shared)
    requires Inv(s) && WriterStep(s, s') && s.writer.Filling?
    ensures CellsHold(s')
  {
    hide Slot;
    var b, f, at := s.begun - 1, s.writer.field, s.bufferIndex;
    assert at == Slot(b, s.depth);
    assert forall v: int, g: nat ::
      Written(s', v, g) <==> Written(s, v, g) || (v == b && g == f);
    forall i: nat, g: nat | i < s.depth && g < FIELDS ensures CellHolds(s', i, g) {
      assert CellHolds(s, i, g);
      if g == f && i != at {
        OtherSlot(s, b, i, g);
      }
    }
  }

  /** Storing beat `b` says nothing about a cell of another slot. */
  lemma OtherSlot(s: Shared, b: nat, i: nat, g: nat)
    requires s.depth > 0 && i < |s.log| && g < |s.log[i]| && CellHolds(s, i, g)
    requires i < s.depth && i != Slot(b, s.depth)
    ensures i != b && s.log[i][g] != b
    ensures s.log[i][g] != NONE ==> s.log[i][g] + s.depth != b
  {
    SlotSmall(i, s.depth);
    if s.log[i][g] != NONE {
      SlotRepeats(s.log[i][g], s.depth);
    }
  }

  lemma OtherStepKeepsCells(s: Shared, s': Shared)
    requires Inv(s) && Step(s, s') && s.log == s'.log
    requires s.writer.Filling? ==> s'.writer == s.writer
    ensures CellsHold(s')
  {
    hide Slot;
    assert forall v: int, g: nat :: g < FIELDS ==> (Written(s', v, g) <==> Written(s, v, g));
    forall i: nat, g: nat | i < s.depth && g < FIELDS ensures CellHolds(s', i, g) {
      assert CellHolds(s, i, g);
    }
  }

  lemma WriterKeepsIndices(s: Shared, s': Shared)
    requires Inv(s) && WriterStep(s, s')
    ensures IndicesHold(s')
  {
    hide Slot;
    hide CellsHold;
    hide CopyHolds;
    var b, d := s.begun, s.depth;
    if b > 0 {
      SlotNext(b - 1, d);
    }
    if b > 1 {
      SlotNext(b - 2, d);
    }
    if s.writer == WrapBuffer {
      WrapTest(s.bufferIndex, d);
    }
    if s.writer == WrapRead {
      WrapTest(s.readIndex, d);
    }
    if b == 1 {
      SlotSmall(0, d);
      SlotSmall(1, d);
    }
  }

  lemma TakingIndex(s: Shared)
    requires Inv(s) && s.reader == Checked
    ensures s.published >= 0 && s.published + 1 <= s.begun <= s.published + 2
    ensures s.readIndex <= s.depth
    ensures s.readIndex < s.depth ==> s.readIndex == Slot(s.published, s.depth)
    ensures s.readIndex == s.depth ==> Slot(s.published, s.depth) == 0 && s.writer in {WrapBuffer, WrapRead}
  {
    hide Slot;
    hide CellsHold;
    if s.begun > 1 {
      SlotNext(s.begun - 2, s.depth);
    }
  }

  /** Two numbers in the same slot, one of which is the latest stored there. */
  lemma SameSlotFar(x: nat, y: nat, d: nat)
    requires d > 0 && Slot(x, d) == Slot(y, d)
    ensures x == y || x >= y + d || y >= x + d
  {
    if 0 < x - y < d {
      SlotsApart(y, x, d);
    } else if 0 < y - x < d {
      SlotsApart(x, y, d);
    }
  }

  /** What a copy of one field gets: the beat the index stood for, exactly unless
      the beat that reuses the slot has already been stored over that field. */
  lemma CopyExact(s: Shared, s': Shared, f: nat)
    requires Inv(s) && CopyField(s, s', f)
    ensures s'.reader.copy[f] == s.reader.base <==> !Written(s, s.reader.base + s.depth, f)
  {
    hide Slot;
    var r, base, d := s.reader.r, s.reader.base, s.depth;
    assert CellHolds(s, r, f);
    var v := s.log[r][f];
    assert Written(s, base, f);
    if v == NONE {
      StoredMeansNotNone(s, r, f, base);
    } else {
      SameSlotFar(v, base, d);
    }
  }

  /** A slot one of whose beats has been stored is not empty. */
  lemma StoredMeansNotNone(s: Shared, i: nat, f: nat, b: nat)
    requires s.depth > 0 && i < |s.log| && f < |s.log[i]| && i == Slot(b, s.depth) && Written(s, b, f)
    requires CellHolds(s, i, f)
    ensures s.log[i][f] != NONE
  {
    assert i <= b;
  }

  lemma StepKeepsCopy(s: Shared, s': Shared)
    requires Inv(s) && Step(s, s')
    ensures CopyHolds(s')
  {
    hide Slot;
    if WriterStep(s, s') {
      WriterKeepsIndices(s, s');
    } else if s.reader == Checked {
      TakingIndex(s);
    } else if s.reader.Copying? && s'.reader.Copying? {
      var f :| CopyField(s, s', f);
      CopyExact(s, s', f);
      assert s.begun <= s.reader.base + s.depth ==> !Written(s, s.reader.base + s.depth, f);
    }
  }

  lemma StepInv(s: Shared, s': Shared)
    requires Inv(s) && Step(s, s')
    ensures Inv(s')
  {
    StepKeepsCopy(s, s');
    if WriterStep(s, s') {
      WriterKeepsIndices(s, s');
      if s.writer.Filling? {
        FillKeepsCells(s, s');
      } else {
        OtherStepKeepsCells(s, s');
      }
    } else {
      OtherStepKeepsCells(s, s');
    }
  }

  lemma {:induction false} RunInv(run: seq<Shared>, i: nat)
    requires Run(run) && i < |run|
    ensures Inv(run[i]) && run[i].depth == run[0].depth
  {
    hide Inv;
    if i == 0 {
      InitInv(run[0]);
    } else {
      RunInv(run, i - 1);
      StepInv(run[i - 1], run[i]);
    }
  }

  // ---------------------------------------------------------------- guarantees over every run

  /** The published slot is never the slot being filled, and the read index is out of
      the ring exactly between its increment and its wrap, for a beat that is a
      multiple of the depth. */
  lemma PublishedSlotSafe(run: seq<Shared>, i: nat)
    requires Run(run) && i < |run|
    ensures run[i].depth > 0
    ensures var s := run[i];
      && (s.writer.Filling? && s.valid ==>
            s.bufferIndex < s.depth && s.readIndex < s.depth && s.bufferIndex != s.readIndex)
      && s.readIndex <= s.depth
      && (s.readIndex == s.depth <==>
            s.writer in {WrapBuffer, WrapRead} && s.published >= 0 && Slot(s.published, s.depth) == 0)
  {
    hide Slot;
    hide Run;
    RunInv(run, i);
    var s := run[i];
    if s.begun > 1 {
      SlotNext(s.begun - 2, s.depth);
      SlotsApart(s.begun - 2, s.begun - 1, s.depth);
    }
  }

  /** A reader that took an index inside the ring has an untorn copy as long as the
      writer has not begun the beat that reuses the slot: every field copied is
      that of the beat published when the index was taken. */
  lemma Untorn(run: seq<Shared>, i: nat)
    requires Run(run) && i < |run| && run[i].reader.Copying? && run[i].reader.r < run[i].depth
    requires run[i].begun <= run[i].reader.base + run[i].depth
    ensures UntornCopy(run[i]) && 0 <= run[i].reader.base <= run[i].published
  {
    RunInv(run, i);
  }

  /** An index inside the ring was taken, with or without a beat in progress. */
  ghost predicate IndexTaken(s: Shared, during: bool) {
    && s.reader.Copying? && s.reader.r < s.depth
    && s.reader.begunThen == s.reader.base + if during then 2 else 1
  }

  /** Every field copied so far is that of the beat the index stood for. */
  ghost predicate UntornCopy(s: Shared)
    requires s.reader.Copying?
  {
    forall f :: f in s.reader.copy ==> s.reader.copy[f] == s.reader.base
  }

  /** In terms of beats begun since the index was taken: depth - 2 more are always
      harmless, and depth - 1 when no beat was in progress at that point. */
  lemma UntornByCount(run: seq<Shared>, i: nat)
    requires Run(run) && i < |run| && run[i].reader.Copying? && run[i].reader.r < run[i].depth
    requires run[i].begun - run[i].reader.begunThen <= run[i].depth - if IndexTaken(run[i], false) then 1 else 2
    ensures IndexTaken(run[i], false) || IndexTaken(run[i], true)
    ensures UntornCopy(run[i])
  {
    RunInv(run, i);
  }

  // ---------------------------------------------------------------- what a copy is worth

  /** A copy of every field, each from a beat of history `h`. */
  ghost predicate Complete(copy: map<nat, int>, h: seq<HB.Beat>) {
    forall f: nat :: f < FIELDS ==> f in copy && 0 <= copy[f] < |h|
  }

  /** The record a complete copy amounts to. Fields are numbered in the order in
      which `heartbeat` stores them. */
  ghost function Assembled(copy: map<nat, int>, h: seq<HB.Beat>, window: nat): HB.Record
    requires HB.Ticking(h) && window > 0 && Complete(copy, h)
  {
    HB.Record(HB.RecordOf(h, copy[0], window).beat,
              HB.RecordOf(h, copy[1], window).tag,
              HB.RecordOf(h, copy[2], window).timestamp,
              HB.RecordOf(h, copy[5], window).globalRate,
              HB.RecordOf(h, copy[3], window).windowRate,
              HB.RecordOf(h, copy[4], window).instantRate)
  }

  /** The copy is whole, and it is the record of beat `b`, as the monitor's loop
      takes its polls to be. */
  ghost predicate CopiesRecord(copy: map<nat, int>, h: seq<HB.Beat>, b: int, window: nat)
    requires HB.Ticking(h) && window > 0
  {
    && 0 <= b < |h| && Complete(copy, h)
    && Assembled(copy, h, window) == HB.RecordOf(h, b, window)
    && HB.RecordFrom(h, window, Assembled(copy, h, window))
  }

  /** A complete copy from inside the ring, before the beat that reuses the slot
      begins, is the record of the beat published when the index was taken. */
  lemma CopyIsRecord(run: seq<Shared>, i: nat, h: seq<HB.Beat>, window: nat)
    requires Run(run) && i < |run| && run[i].reader.Copying? && run[i].reader.r < run[i].depth
    requires run[i].begun <= run[i].reader.base + run[i].depth
    requires HB.Ticking(h) && window > 0 && run[i].begun <= |h|
    requires forall f: nat :: f < FIELDS ==> f in run[i].reader.copy
    ensures CopiesRecord(run[i].reader.copy, h, run[i].reader.base, window)
  {
    hide Run;
    hide HB.Ticking;
    hide HB.RecordOf;
    hide CopiesRecord;
    Untorn(run, i);
    PublishedBegun(run, i);
    SameBeat(run[i].reader.copy, h, run[i].reader.base, window);
  }

  lemma SameBeat(copy: map<nat, int>, h: seq<HB.Beat>, b: int, window: nat)
    requires HB.Ticking(h) && window > 0 && 0 <= b < |h|
    requires forall f: nat :: f < FIELDS ==> f in copy
    requires forall f :: f in copy ==> copy[f] == b
    ensures CopiesRecord(copy, h, b, window)
  {
    hide HB.Ticking;
    hide HB.GlobalRate;
    hide HB.WindowRate;
    hide HB.InstantRate;
  }

  lemma PublishedBegun(run: seq<Shared>, i: nat)
    requires Run(run) && i < |run|
    ensures run[i].published < run[i].begun
  {
    RunInv(run, i);
  }

  // ---------------------------------------------------------------- the bound is tight

  /** How far the writer has come. */
  function Progress(s: Shared): nat {
    16 * s.begun + match s.writer
      case Filling(f) => f
      case BumpBuffer => if s.begun == 1 then FIELDS + 1 else FIELDS
      case BumpCounter => if s.begun == 1 then FIELDS else FIELDS + 1
      case BumpRead => FIELDS + 2
      case SetValid => FIELDS + 2
      case WrapBuffer => FIELDS + 3
      case WrapRead => FIELDS + 4
      case Idle => 15
  }

  lemma WriterMoves(s: Shared) returns (s': Shared)
    requires Inv(s)
    ensures WriterStep(s, s') && s'.reader == s.reader && s'.depth == s.depth
    ensures s'.writer == Idle || s.writer == Idle || Progress(s') == Progress(s) + 1
    ensures s.writer == Idle ==> Progress(s') == Progress(s) + 1
    ensures s'.writer == Idle ==> Progress(s') > Progress(s) && s'.begun == s.begun
  {
    match s.writer
    case Idle => s' := s.(writer := Filling(0), begun := s.begun + 1);
    case Filling(f) =>
      s' := s.(log := s.log[s.bufferIndex := s.log[s.bufferIndex][f := s.begun - 1]],
               writer := if f + 1 < FIELDS then Filling(f + 1) else if s.begun == 1 then BumpCounter else BumpBuffer);
    case BumpBuffer =>
      s' := s.(bufferIndex := s.bufferIndex + 1, writer := if s.begun == 1 then SetValid else BumpCounter);
    case BumpCounter => s' := s.(counter := s.counter + 1, writer := if s.begun == 1 then BumpBuffer else BumpRead);
    case SetValid => s' := s.(valid := true, writer := Idle, published := s.begun - 1);
    case BumpRead => s' := s.(readIndex := s.readIndex + 1, writer := WrapBuffer, published := s.begun - 1);
    case WrapBuffer =>
      s' := s.(bufferIndex := if s.bufferIndex % s.depth == 0 then 0 else s.bufferIndex, writer := WrapRead);
    case WrapRead =>
      s' := s.(readIndex := if s.readIndex % s.depth == 0 then 0 else s.readIndex, writer := Idle);
  }

  ghost function Last(run: seq<Shared>): Shared
    requires |run| > 0
  {
    run[|run| - 1]
  }

  lemma Extend(run: seq<Shared>, s': Shared) returns (longer: seq<Shared>)
    requires Run(run) && Step(Last(run), s')
    ensures Run(longer) && Last(longer) == s' && Inv(s')
    ensures longer[0] == run[0]
  {
    longer := run + [s'];
    RunInv(longer, |run|);
  }

  /** Let only the writer move until it is about to store field `f` of beat `b - 1`. */
  lemma DriveWriter(run: seq<Shared>, b: nat, f: nat) returns (longer: seq<Shared>)
    requires Run(run) && b >= 1 && f < FIELDS && Progress(Last(run)) <= 16 * b + f
    ensures Run(longer) && Inv(Last(longer)) && longer[0] == run[0]
    ensures Last(longer).writer == Filling(f) && Last(longer).begun == b
    ensures Last(longer).reader == Last(run).reader && Last(longer).depth == Last(run).depth
  {
    hide Inv;
    hide WriterStep;
    hide ReaderStep;
    longer := run;
    RunInv(longer, |longer| - 1);
    while Progress(Last(longer)) < 16 * b + f
      invariant Run(longer) && Inv(Last(longer)) && longer[0] == run[0]
      invariant Last(longer).reader == Last(run).reader && Last(longer).depth == Last(run).depth
      invariant Progress(Last(longer)) <= 16 * b + f
      decreases 16 * b + f - Progress(Last(longer))
    {
      var s' := WriterMoves(Last(longer));
      longer := Extend(longer, s');
    }
    ProgressIsPlace(Last(longer), b, f);
  }

  lemma ProgressIsPlace(s: Shared, b: nat, f: nat)
    requires Inv(s) && f < FIELDS && Progress(s) == 16 * b + f
    ensures s.writer == Filling(f) && s.begun == b
  {
    hide CellsHold;
    hide CopyHolds;
  }

  /** The first beat has been published, and the second is or is not in progress. */
  lemma FirstPublished(s0: Shared, during: bool) returns (run: seq<Shared>)
    requires Init(s0)
    ensures Run(run) && run[0] == s0 && Inv(Last(run)) && Last(run).depth == s0.depth
    ensures Last(run).reader == Polling && Last(run).valid && Last(run).published == 0
    ensures Last(run).begun == if during then 2 else 1
    ensures Progress(Last(run)) <= 16 * s0.depth + 18
  {
    hide CellsHold;
    if during {
      run := DriveWriter([s0], 2, 0);
    } else {
      run := DriveWriter([s0], 1, 5);
      run := MoveWriter(run);
      assert Last(run).writer == BumpCounter;
      run := MoveWriter(run);
      assert Last(run).writer == BumpBuffer;
      run := MoveWriter(run);
      assert Last(run).writer == SetValid;
      run := MoveWriter(run);
    }
  }

  /** Take the index of the first beat. */
  lemma TakeFirst(before: seq<Shared>) returns (run: seq<Shared>)
    requires Run(before) && Inv(Last(before))
    requires Last(before).reader == Polling && Last(before).valid && Last(before).published == 0
    ensures Run(run) && run[0] == before[0] && Last(run).depth == Last(before).depth
    ensures Last(run).reader == Copying(0, 0, Last(before).begun, map[])
    ensures Last(run).begun == Last(before).begun && Progress(Last(run)) == Progress(Last(before))
  {
    hide CellsHold;
    var s := Last(before);
    run := Extend(before, s.(reader := Checked));
    s := Last(run);
    TakingIndex(s);
    SlotSmall(0, s.depth);
    assert s.readIndex == 0;
    run := Extend(run, s.(reader := Copying(s.readIndex, s.published, s.begun, map[])));
  }

  /** One beat more than is harmless does tear a copy: for every depth there is such
      a run, with depth - 1 further beats if the index was taken with a beat in
      progress, and with depth further beats if not. */
  lemma TornRun(s0: Shared, during: bool) returns (run: seq<Shared>)
    requires Init(s0)
    ensures Run(run) && run[0] == s0 && Last(run).depth == s0.depth
    ensures IndexTaken(Last(run), during) && !UntornCopy(Last(run))
    ensures Last(run).begun - Last(run).reader.begunThen == s0.depth - if during then 1 else 0
  {
    run := FirstPublished(s0, during);
    run := TakeFirst(run);
    run := CopyOne(run, 0);
    run := DriveWriter(run, s0.depth + 1, 2);
    run := CopyOne(run, 1);
  }

  /** A copy on a ring of `depth` slots, at most `n` beats after its index was taken. */
  ghost predicate EndsWithin(s: Shared, depth: nat, n: int, during: bool) {
    s.depth == depth && IndexTaken(s, during) && s.begun - s.reader.begunThen <= n
  }

  ghost predicate UntornWithin(depth: nat, n: int, during: bool) {
    forall run :: Run(run) && EndsWithin(Last(run), depth, n, during) ==> UntornCopy(Last(run))
  }

  /** The harmless counts exactly: a copy is safe in every run for `n` further beats
      if and only if `n` is at most depth - 2 with a beat in progress when the index
      was taken, and at most depth - 1 without. */
  lemma UntornWithinIff(depth: nat, n: int, during: bool)
    requires depth >= 2
    ensures UntornWithin(depth, n, during) <==> n <= depth - if during then 2 else 1
  {
    if n <= depth - if during then 2 else 1 {
      forall run | Run(run) && EndsWithin(Last(run), depth, n, during) ensures UntornCopy(Last(run)) {
        UntornByCount(run, |run| - 1);
      }
    } else {
      var s0 := Shared(depth, seq(depth, _ => seq(FIELDS, _ => NONE)), 0, 0, 0, false, Idle, 0, NONE, Polling);
      var run := TornRun(s0, during);
      assert EndsWithin(Last(run), depth, n, during);
    }
  }

  lemma CopyOne(run: seq<Shared>, f: nat) returns (longer: seq<Shared>)
    requires Run(run) && Last(run).reader.Copying? && Last(run).reader.r < Last(run).depth
    requires f < FIELDS && f !in Last(run).reader.copy
    ensures Run(longer) && longer[0] == run[0] && CopyField(Last(run), Last(longer), f)
    ensures var base := Last(run).reader.base;
      Last(longer).reader.copy[f] == base <==> !Written(Last(run), base + Last(run).depth, f)
  {
    var s := Last(run);
    RunInv(run, |run| - 1);
    var s' := s.(reader := s.reader.(copy := s.reader.copy[f := s.log[s.reader.r][f]]));
    assert CopyField(s, s', f);
    CopyExact(s, s', f);
    longer := Extend(run, s');
  }

  /** The window between increment and wrap is real: for every depth there is a run
      in which the reader takes the index one past the ring. */
  lemma IndexPastRing(s0: Shared) returns (run: seq<Shared>)
    requires Init(s0)
    ensures Run(run) && run[0] == s0
    ensures Last(run).reader.Copying? && Last(run).reader.r == Last(run).depth
  {
    hide CellsHold;
    hide CopyHolds;
    run := DriveWriter([s0], s0.depth + 1, 5);
    run := Extend(run, Last(run).(reader := Checked));
    run := MoveWriter(run);
    assert Last(run).writer == BumpBuffer;
    run := MoveWriter(run);
    assert Last(run).writer == BumpCounter;
    run := MoveWriter(run);
    assert Last(run).writer == BumpRead;
    run := MoveWriter(run);
    var s := Last(run);
    assert s.writer == WrapBuffer && s.begun == s.depth + 1;
    SlotSmall(s.depth - 1, s.depth);
    run := Extend(run, s.(reader := Copying(s.readIndex, s.published, s.begun, map[])));
  }

  lemma MoveWriter(run: seq<Shared>) returns (longer: seq<Shared>)
    requires Run(run)
    ensures Run(longer) && longer[0] == run[0] && Inv(Last(longer))
    ensures WriterStep(Last(run), Last(longer)) && Last(longer).reader == Last(run).reader
    ensures Last(longer).depth == Last(run).depth
  {
    RunInv(run, |run| - 1);
    var s' := WriterMoves(Last(run));
    longer := Extend(run, s');
  }
}

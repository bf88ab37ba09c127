/** The state table as text (src/powerstates.c): the filter-and-print loop of
    `main`, `read_states_file`, and the two composed. The libc scanners are modelled
    on the characters they consume. */
module StatesFile {
  import opened Arithmetic
  import opened MachineStates
  import opened Options
  import opened StateTable

  // ---------------------------------------------------------------- printing

  function Digit(d: nat): char
    requires d < 10
  {
    '0' + d as char
  }

  /** `%lu` and `%d` of a non-negative number. */
  function Decimal(n: nat): (s: string)
    ensures |s| > 0
    ensures forall i :: 0 <= i < |s| ==> IsDigit(s[i])
  {
    if n < 10 then [Digit(n)] else Decimal(n / 10) + [Digit(n % 10)]
  }

  function CoreFields(cores: seq<nat>): string {
    if cores == [] then "\n" else "\t" + Decimal(cores[0]) + CoreFields(cores[1..])
  }

  function Row(s: State): string {
    Decimal(s.speed) + "\t" + Decimal(s.power) + CoreFields(s.cores)
  }

  function Rows(states: seq<State>): string {
    if states == [] then "" else Row(states[0]) + Rows(states[1..])
  }

  function CoreNames(j: nat, coreCount: nat): string
    requires j <= coreCount
    decreases coreCount - j
  {
    if j == coreCount then "" else "\t" + CoreName(j) + CoreNames(j + 1, coreCount)
  }

  function CoreName(j: nat): string {
    "core" + Decimal(j)
  }

  function Columns(coreCount: nat): string {
    "speed\tpower" + CoreNames(0, coreCount)
  }

  function Header(coreCount: nat): string {
    Columns(coreCount) + "\n"
  }

  lemma {:induction false} RowsAppend(states: seq<State>, s: State)
    ensures Rows(states + [s]) == Rows(states) + Row(s)
  {
    if states == [] {
      assert Rows([s][1..]) == "";
    } else {
      RowsAppend(states[1..], s);
      assert (states + [s])[1..] == states[1..] + [s];
    }
  }

  /** The output of `main` on its sorted states, for the options given. */
  method PrintStates(states: array<State>, filter: Filter, coreCount: nat) returns (out: string)
    requires forall i :: 0 <= i < states.Length ==> FitsUnsignedLong(states[i]) && |states[i].cores| == coreCount
    ensures out == Header(coreCount) + Rows(Kept(states[..], filter))
  {
    hide Keeps;
    hide KeptPrefix;
    hide Rows;
    hide Row;
    hide Header;
    ghost var list := states[..];
    NoRows(list, filter);
    out := PrintHeader(coreCount);
    assert out + "" == out;
    for i := 0 to states.Length
      invariant out == Header(coreCount) + Rows(KeptPrefix(list, i, filter))
    {
      PrintedNext(list, i, filter);
      var passes := PassesFilter(states, i, filter);
      if passes {
        var row := PrintRow(states[i]);
        out := out + row;
      }
    }
  }

  lemma NoRows(list: seq<State>, filter: Filter)
    ensures Rows(KeptPrefix(list, 0, filter)) == ""
  {
  }

  lemma PrintedNext(list: seq<State>, i: nat, filter: Filter)
    requires i < |list|
    ensures Rows(KeptPrefix(list, i + 1, filter))
         == if Keeps(list, i, filter) then Rows(KeptPrefix(list, i, filter)) + Row(list[i])
            else Rows(KeptPrefix(list, i, filter))
  {
    hide Keeps;
    var before := KeptPrefix(list, i, filter);
    RowsAppend(before, list[i]);
    assert before + [] == before;
  }

  method PrintHeader(coreCount: nat) returns (out: string)
    ensures out == Header(coreCount)
  {
    out := "speed\tpower";
    for j := 0 to coreCount
      invariant out + CoreNames(j, coreCount) == Columns(coreCount)
    {
      out := out + "\tcore" + Decimal(j);
    }
    assert out + "" == out;
    out := out + "\n";
  }

  method PrintRow(s: State) returns (out: string)
    ensures out == Row(s)
  {
    out := Decimal(s.speed) + "\t" + Decimal(s.power);
    for j := 0 to |s.cores|
      invariant out + CoreFields(s.cores[j..]) == Row(s)
    {
      out := out + "\t" + Decimal(s.cores[j]);
      assert s.cores[j..][1..] == s.cores[j + 1..];
    }
    out := out + "\n";
  }

  // ---------------------------------------------------------------- scanning

  predicate IsDigit(c: char) {
    '0' <= c <= '9'
  }

  predicate IsSpace(c: char) {
    c == ' ' || '\t' <= c <= '\r'
  }

  function SkipSpace(s: string): (rest: string)
    ensures |rest| <= |s|
  {
    if s != "" && IsSpace(s[0]) then SkipSpace(s[1..]) else s
  }

  /** The digits at the front of `s`, continuing a number read so far. */
  function ScanDigits(s: string, n: nat): (r: (nat, string))
    ensures |r.1| <= |s|
    ensures s != "" && IsDigit(s[0]) ==> |r.1| < |s|
  {
    if s != "" && IsDigit(s[0]) then ScanDigits(s[1..], 10 * n + (s[0] - '0') as nat) else (n, s)
  }

  /** An optionally signed decimal after white space: its sign, its magnitude and
      what follows. */
  function ScanNumber(s: string): (r: Option<(bool, nat, string)>)
    ensures r.Some? ==> |r.value.2| < |s|
  {
    var t := SkipSpace(s);
    var negative := t != "" && t[0] == '-';
    var u := if t != "" && (t[0] == '-' || t[0] == '+') then t[1..] else t;
    if u != "" && IsDigit(u[0]) then
      var (n, rest) := ScanDigits(u, 0);
      Some((negative, n, rest))
    else None
  }

  /** `%lu`: out of range is ULONG_MAX, and a minus sign wraps. */
  function ScanUnsigned(s: string): (r: Option<(nat, string)>)
    ensures r.Some? ==> |r.value.1| < |s|
  {
    match ScanNumber(s)
    case None => None
    case Some((negative, n, rest)) =>
      var v := if n > ULONG_MAX then ULONG_MAX else if negative && n > 0 then ULONG_MAX + 1 - n else n;
      Some((v, rest))
  }

  /** `sscanf(token, "core%d", &n)` */
  function ScanCore(token: string): Option<int> {
    if |token| >= 4 && token[..4] == "core" then
      match ScanNumber(token[4..])
      case None => None
      case Some((negative, n, rest)) => Some(if negative then 0 - n as int else n as int)
    else None
  }

  /** `fgets(buf, size, fp)`: up to the first newline, or size - 1 characters. */
  function GetLine(text: string, size: nat): (line: string)
    requires size > 0
    ensures |line| <= |text| && line == text[..|line|]
  {
    if text == "" || size == 1 then ""
    else if text[0] == '\n' then [text[0]]
    else [text[0]] + GetLine(text[1..], size - 1)
  }

  /** Where `strsep(&line, " \t")` cuts. */
  function TokenEnd(line: string): (k: nat)
    ensures k <= |line|
  {
    if line == "" || line[0] == ' ' || line[0] == '\t' then 0 else 1 + TokenEnd(line[1..])
  }

  function CoreCountFrom(token: string, coreCount: int): int {
    match ScanCore(token)
    case None => coreCount
    case Some(n) => n + 1
  }

  /** The core count a header line leaves: one more than its last "core" number. */
  function HeaderCores(line: string, coreCount: int): int
    decreases |line|
  {
    var k := TokenEnd(line);
    if k == |line| then CoreCountFrom(line, coreCount)
    else HeaderCores(line[k + 1..], CoreCountFrom(line[..k], coreCount))
  }

  function ScanCores(s: string, n: nat): (r: Option<(seq<nat>, string)>)
    ensures r.Some? ==> |r.value.1| <= |s| && |r.value.0| == n
    decreases n
  {
    if n == 0 then Some(([], s)) else
      match ScanUnsigned(SkipSpace(s))
      case None => None
      case Some((v, rest)) =>
        match ScanCores(rest, n - 1)
        case None => None
        case Some((vs, end)) => Some(([v] + vs, end))
  }

  /** One round of the reading loop: a full row and its newline, or the end. */
  function ScanRow(s: string, coreCount: nat): (r: Option<(State, string)>)
    ensures r.Some? ==> |r.value.1| < |s|
  {
    match ScanUnsigned(s)
    case None => None
    case Some((speed, s1)) =>
      match ScanUnsigned(SkipSpace(s1))
      case None => None
      case Some((power, s2)) =>
        match ScanCores(s2, coreCount)
        case None => None
        case Some((cores, s3)) =>
          if s3 != "" && s3[0] == '\n' then Some((State(speed, power, cores), s3[1..])) else None
  }

  function ScanRows(s: string, coreCount: nat): seq<State>
    decreases |s|
  {
    match ScanRow(s, coreCount)
    case None => []
    case Some((state, rest)) => [state] + ScanRows(rest, coreCount)
  }

  const LINE_SIZE: nat := 512

  /** `read_states_file` on the text of the file: the states and the core count, or
      nothing for a wrong format. */
  function Parsed(text: string, coreCount: int): Option<(seq<State>, int)> {
    var line := GetLine(text, LINE_SIZE);
    var cores := HeaderCores(line, coreCount);
    if line == "" || cores < 1 then None else Some((ScanRows(text[|line|..], cores), cores))
  }

  /** Reads the rows into a buffer that doubles when full. `file` is the text of the
      file if it opens, `initial` what the caller's core count variable held. */
  method ReadStatesFile(file: Option<string>, initial: int)
    returns (states: Option<array<State>>, stateCount: nat, coreCount: int)
    ensures states.None? <==> file.None? || Parsed(file.value, initial).None?
    ensures states.Some? ==>
      && stateCount <= states.value.Length
      && Parsed(file.value, initial) == Some((states.value[..stateCount], coreCount))
  {
    stateCount, coreCount := 0, initial;
    if file.None? {
      return None, 0, coreCount;
    }
    var text := file.value;
    var line := GetLine(text, LINE_SIZE);
    if line == "" {
      return None, 0, coreCount;
    }
    coreCount := ReadHeader(line, initial);
    if coreCount < 1 {
      return None, 0, coreCount;
    }
    var buffer;
    buffer, stateCount := ReadRows(text[|line|..], coreCount);
    states := Some(buffer);
  }

  method ReadRows(s: string, coreCount: nat) returns (buffer: array<State>, stateCount: nat)
    ensures fresh(buffer) && stateCount <= buffer.Length && buffer[..stateCount] == ScanRows(s, coreCount)
  {
    hide ScanRow;
    var n := 1000;
    buffer := new State[n](_ => State(0, 0, []));
    stateCount := 0;
    var rest := s;
    ghost var done: seq<State> := [];
    assert done + ScanRows(rest, coreCount) == ScanRows(s, coreCount);
    while true
      invariant 0 < n == buffer.Length && stateCount <= n && fresh(buffer)
      invariant buffer[..stateCount] == done && done + ScanRows(rest, coreCount) == ScanRows(s, coreCount)
      decreases |rest|
    {
      var row := ReadRow(rest, coreCount);
      if row.None? {
        assert done + [] == done;
        break;
      }
      var (state, after) := row.value;
      if stateCount >= n {
        buffer := Grow(buffer, 2 * n);
        n := 2 * n;
      }
      buffer[stateCount] := state;
      stateCount := stateCount + 1;
      assert done + ([state] + ScanRows(after, coreCount)) == done + [state] + ScanRows(after, coreCount);
      done := done + [state];
      rest := after;
    }
  }

  method ReadHeader(line: string, initial: int) returns (coreCount: int)
    ensures coreCount == HeaderCores(line, initial)
  {
    coreCount := initial;
    var rest := line;
    while true
      invariant HeaderCores(rest, coreCount) == HeaderCores(line, initial)
      decreases |rest|
    {
      var k := TokenEnd(rest);
      var n := ScanCore(rest[..k]);
      assert k == |rest| ==> rest[..k] == rest;
      if n.Some? {
        coreCount := n.value + 1;
      }
      if k == |rest| {
        break;
      }
      rest := rest[k + 1..];
    }
  }

  method ReadRow(s: string, coreCount: nat) returns (row: Option<(State, string)>)
    ensures row == ScanRow(s, coreCount)
  {
    var speed := ScanUnsigned(s);
    if speed.None? {
      return None;
    }
    var power := ScanUnsigned(SkipSpace(speed.value.1));
    if power.None? {
      return None;
    }
    var cores := ReadCores(power.value.1, coreCount);
    if cores.None? {
      return None;
    }
    var (vs, rest) := cores.value;
    if rest != "" && rest[0] == '\n' {
      row := Some((State(speed.value.0, power.value.0, vs), rest[1..]));
    } else {
      row := None;
    }
  }

  /** Cores read before the rest of a scan. */
  ghost function Prepend(cores: seq<nat>, r: Option<(seq<nat>, string)>): Option<(seq<nat>, string)> {
    match r
    case None => None
    case Some((vs, end)) => Some((cores + vs, end))
  }

  lemma PrependOne(cores: seq<nat>, v: nat, r: Option<(seq<nat>, string)>)
    ensures Prepend(cores, Prepend([v], r)) == Prepend(cores + [v], r)
    ensures Prepend([], r) == r
  {
    if r.Some? {
      assert cores + ([v] + r.value.0) == cores + [v] + r.value.0;
      assert [] + r.value.0 == r.value.0;
    }
  }

  method ReadCores(s: string, n: nat) returns (r: Option<(seq<nat>, string)>)
    ensures r == ScanCores(s, n)
  {
    var cores: seq<nat> := [];
    var rest := s;
    PrependOne([], 0, ScanCores(s, n));
    for j := 0 to n
      invariant |cores| == j && ScanCores(s, n) == Prepend(cores, ScanCores(rest, n - j))
    {
      var v := ScanUnsigned(SkipSpace(rest));
      if v.None? {
        return None;
      }
      PrependOne(cores, v.value.0, ScanCores(v.value.1, n - j - 1));
      cores := cores + [v.value.0];
      rest := v.value.1;
    }
    assert cores + [] == cores;
    r := Some((cores, rest));
  }

  /** `realloc` to a larger size. */
  method Grow(buffer: array<State>, n: nat) returns (larger: array<State>)
    requires n >= buffer.Length
    ensures fresh(larger) && larger.Length == n && larger[..buffer.Length] == buffer[..]
  {
    larger := new State[n](_ => State(0, 0, []));
    for i := 0 to buffer.Length
      invariant larger[..i] == buffer[..i]
    {
      larger[i] := buffer[i];
    }
    assert buffer[..buffer.Length] == buffer[..];
  }

  // ---------------------------------------------------------------- reading back what was printed

  lemma {:induction false} DecimalScans(n: nat, rest: string)
    ensures ScanDigits(Decimal(n) + rest, 0) == ScanDigits(rest, n)
  {
    if n < 10 {
      assert (Decimal(n) + rest)[1..] == rest;
    } else {
      var last := [Digit(n % 10)];
      DecimalScans(n / 10, last + rest);
      assert Decimal(n) + rest == Decimal(n / 10) + (last + rest);
      assert (last + rest)[1..] == rest;
    }
  }

  /** Text that ends a number: no digit follows. */
  predicate Stops(rest: string) {
    rest == "" || !IsDigit(rest[0])
  }

  lemma NumberScans(n: nat, rest: string)
    requires Stops(rest)
    ensures ScanNumber(Decimal(n) + rest) == Some((false, n, rest))
  {
    var s := Decimal(n) + rest;
    assert s[0] == Decimal(n)[0] && IsDigit(s[0]) && SkipSpace(s) == s;
    DecimalScans(n, rest);
  }

  lemma UnsignedScans(n: nat, rest: string)
    requires Stops(rest) && n <= ULONG_MAX
    ensures ScanUnsigned(Decimal(n) + rest) == Some((n, rest))
    ensures ScanUnsigned(SkipSpace("\t" + Decimal(n) + rest)) == Some((n, rest))
  {
    NumberScans(n, rest);
    var s := "\t" + Decimal(n) + rest;
    assert s[1..] == Decimal(n) + rest;
    assert SkipSpace(s) == SkipSpace(s[1..]);
    assert s[1..][0] == Decimal(n)[0];
  }

  /** The core fields without the newline that ends them. */
  function BareFields(cores: seq<nat>): string {
    if cores == [] then "" else "\t" + Decimal(cores[0]) + BareFields(cores[1..])
  }

  lemma {:induction false} FieldsEnd(cores: seq<nat>)
    ensures CoreFields(cores) == BareFields(cores) + "\n"
  {
    if cores != [] {
      FieldsEnd(cores[1..]);
    }
  }

  lemma ScanCoresStep(s: string, n: nat, v: nat, tail: string, vs: seq<nat>, rest: string)
    requires ScanUnsigned(SkipSpace(s)) == Some((v, tail)) && ScanCores(tail, n) == Some((vs, rest))
    ensures ScanCores(s, n + 1) == Some(([v] + vs, rest))
  {
    hide ScanUnsigned;
    hide SkipSpace;
  }

  lemma NoCores(rest: string)
    ensures ScanCores(rest, 0) == Some(([], rest)) && BareFields([]) + rest == rest
  {
  }

  lemma BareHead(cores: seq<nat>, rest: string)
    requires cores != []
    ensures BareFields(cores) + rest == "\t" + Decimal(cores[0]) + (BareFields(cores[1..]) + rest)
  {
    hide Decimal;
  }

  lemma {:induction false} BareScan(cores: seq<nat>, rest: string)
    requires forall c :: 0 <= c < |cores| ==> cores[c] <= ULONG_MAX
    requires Stops(rest)
    ensures ScanCores(BareFields(cores) + rest, |cores|) == Some((cores, rest))
    ensures Stops(BareFields(cores) + rest)
  {
    hide ScanUnsigned;
    hide SkipSpace;
    hide Decimal;
    hide ScanCores;
    hide BareFields;
    if cores == [] {
      NoCores(rest);
    } else {
      var tail := BareFields(cores[1..]) + rest;
      BareScan(cores[1..], rest);
      UnsignedScans(cores[0], tail);
      BareHead(cores, rest);
      ScanCoresStep(BareFields(cores) + rest, |cores| - 1, cores[0], tail, cores[1..], rest);
      assert [cores[0]] + cores[1..] == cores;
    }
  }

  lemma CoresScan(cores: seq<nat>, rest: string)
    requires forall c :: 0 <= c < |cores| ==> cores[c] <= ULONG_MAX
    ensures ScanCores(CoreFields(cores) + rest, |cores|) == Some((cores, "\n" + rest))
    ensures Stops(CoreFields(cores) + rest)
  {
    hide ScanUnsigned;
    hide SkipSpace;
    hide ScanCores;
    hide Decimal;
    hide CoreFields;
    hide BareFields;
    FieldsEnd(cores);
    BareScan(cores, "\n" + rest);
    assert CoreFields(cores) + rest == BareFields(cores) + ("\n" + rest);
  }

  /** White space before a number is skipped. */
  lemma BlankSkipped(c: char, s: string)
    requires c == ' ' || 9 <= c as int <= 13
    ensures ScanUnsigned([c] + s) == ScanUnsigned(s)
  {
    assert ([c] + s)[1..] == s;
    assert SkipSpace([c] + s) == SkipSpace(s);
  }

  /** `%lu` reads back any magnitude: as it is up to 2^64 - 1, saturated above, and
      modulo 2^64 behind a minus sign. */
  lemma UnsignedReads(n: nat, rest: string)
    requires Stops(rest)
    ensures ScanUnsigned(Decimal(n) + rest) == ScanUnsigned("+" + Decimal(n) + rest)
         == Some((if n < 18446744073709551616 then n else 18446744073709551615, rest))
    ensures ScanUnsigned("-" + Decimal(n) + rest)
         == Some((if n == 0 then 0 else if n < 18446744073709551616 then 18446744073709551616 - n
                  else 18446744073709551615, rest))
  {
    hide ScanNumber;
    hide Decimal;
    NumberScans(n, rest);
    NegativeScans(n, rest);
  }

  lemma NegativeScans(n: nat, rest: string)
    requires Stops(rest)
    ensures ScanNumber("-" + Decimal(n) + rest) == Some((true, n, rest))
    ensures ScanNumber("+" + Decimal(n) + rest) == Some((false, n, rest))
  {
    hide Decimal;
    SignScans("-", n, rest);
    SignScans("+", n, rest);
  }

  lemma SignScans(sign: string, n: nat, rest: string)
    requires Stops(rest) && (sign == "-" || sign == "+")
    ensures ScanNumber(sign + Decimal(n) + rest) == Some((sign == "-", n, rest))
  {
    var s := sign + Decimal(n) + rest;
    assert s[1..] == Decimal(n) + rest && s[1..][0] == Decimal(n)[0];
    assert SkipSpace(s) == s;
    DecimalScans(n, rest);
  }

  /** A header word "core-n" counts too. */
  lemma NegativeCore(n: nat, coreCount: int)
    ensures CoreCountFrom("core-" + Decimal(n), coreCount) == 1 - n
  {
    var token := "core-" + Decimal(n);
    assert token[..4] == "core" && token[4..] == "-" + Decimal(n) + "";
    NegativeScans(n, "");
  }

  ghost predicate Printable(s: State, coreCount: nat) {
    |s.cores| == coreCount && FitsUnsignedLong(s) && s.speed <= ULONG_MAX && s.power <= ULONG_MAX
  }

  lemma RowScans(s: State, coreCount: nat, rest: string)
    requires Printable(s, coreCount)
    ensures ScanRow(Row(s) + rest, coreCount) == Some((s, rest))
  {
    var fields := CoreFields(s.cores) + rest;
    var afterSpeed := "\t" + Decimal(s.power) + fields;
    assert Row(s) + rest == Decimal(s.speed) + afterSpeed;
    CoresScan(s.cores, rest);
    UnsignedScans(s.speed, afterSpeed);
    UnsignedScans(s.power, fields);
    assert ("\n" + rest)[1..] == rest;
  }

  /** A row that its newline does not end is not read. */
  lemma UnterminatedRow(s: State, coreCount: nat, rest: string)
    requires Printable(s, coreCount) && Stops(rest) && (rest == "" || rest[0] != '\n')
    ensures ScanRow(Row(s)[..|Row(s)| - 1] + rest, coreCount).None?
  {
    hide ScanUnsigned;
    hide SkipSpace;
    hide ScanCores;
    hide Decimal;
    hide CoreFields;
    hide BareFields;
    var fields := BareFields(s.cores) + rest;
    var afterSpeed := "\t" + Decimal(s.power) + fields;
    FieldsEnd(s.cores);
    assert Row(s) == Decimal(s.speed) + "\t" + Decimal(s.power) + BareFields(s.cores) + "\n";
    assert Row(s)[..|Row(s)| - 1] + rest == Decimal(s.speed) + afterSpeed;
    BareScan(s.cores, rest);
    UnsignedScans(s.speed, afterSpeed);
    UnsignedScans(s.power, fields);
  }

  lemma {:induction false} RowsScanThen(states: seq<State>, coreCount: nat, rest: string)
    requires forall i :: 0 <= i < |states| ==> Printable(states[i], coreCount)
    ensures ScanRows(Rows(states) + rest, coreCount) == states + ScanRows(rest, coreCount)
  {
    hide ScanRow;
    hide Row;
    hide Printable;
    if states == [] {
      assert Rows(states) + rest == rest;
    } else {
      var tail := Rows(states[1..]) + rest;
      RowScans(states[0], coreCount, tail);
      RowsScanThen(states[1..], coreCount, rest);
      assert Rows(states) + rest == Row(states[0]) + tail;
      assert states == [states[0]] + states[1..];
    }
  }

  lemma RowsScan(states: seq<State>, coreCount: nat)
    requires forall i :: 0 <= i < |states| ==> Printable(states[i], coreCount)
    ensures ScanRows(Rows(states), coreCount) == states
  {
    hide Rows;
    hide Printable;
    RowsScanThen(states, coreCount, "");
    assert Rows(states) + "" == Rows(states);
    assert states + [] == states;
  }

  /** Reading ends at a row without its newline: the rows before it are kept. */
  lemma ReadingEnds(states: seq<State>, s: State, coreCount: nat)
    requires Printable(s, coreCount) && forall i :: 0 <= i < |states| ==> Printable(states[i], coreCount)
    ensures ScanRows(Rows(states) + Row(s)[..|Row(s)| - 1], coreCount) == states
  {
    hide Rows;
    hide Printable;
    hide ScanRow;
    var last := Row(s)[..|Row(s)| - 1];
    assert last + "" == last;
    UnterminatedRow(s, coreCount, "");
    RowsScanThen(states, coreCount, last);
    assert states + [] == states;
  }

  // ---------------------------------------------------------------- the header line

  /** No separator of `strsep`, and no newline. */
  predicate Word(w: string) {
    forall i :: 0 <= i < |w| ==> w[i] != ' ' && w[i] != '\t' && w[i] != '\n'
  }

  lemma {:induction false} WordEnds(w: string, rest: string)
    requires forall i :: 0 <= i < |w| ==> w[i] != ' ' && w[i] != '\t'
    requires rest == "" || rest[0] == '\t' || rest[0] == ' '
    ensures TokenEnd(w + rest) == |w|
  {
    if w == "" {
      assert w + rest == rest;
    } else {
      WordEnds(w[1..], rest);
      assert (w + rest)[1..] == w[1..] + rest;
    }
  }

  lemma CoreNameCounts(j: nat, end: string, coreCount: int)
    requires end == "" || end == "\n"
    ensures Word(CoreName(j)) && CoreCountFrom(CoreName(j) + end, coreCount) == j + 1
  {
    var token := CoreName(j) + end;
    assert token[..4] == "core" && token[4..] == Decimal(j) + end;
    NumberScans(j, end);
  }

  /** `strsep` takes a word off the front of a line. */
  lemma NextToken(w: string, rest: string, before: int)
    requires Word(w)
    ensures HeaderCores(w + ("\t" + rest), before) == HeaderCores(rest, CoreCountFrom(w, before))
  {
    hide CoreCountFrom;
    var line := w + ("\t" + rest);
    WordEnds(w, "\t" + rest);
    assert line[..|w|] == w && line[|w| + 1..] == rest;
  }

  /** Words that do not start with "core" do not count. */
  lemma OtherWords(w: string, coreCount: int)
    requires |w| < 4 || w[..4] != "core"
    ensures CoreCountFrom(w, coreCount) == coreCount
  {
  }

  /** A space separates the words of a header as a tab does. */
  lemma SpaceSeparates(w: string, rest: string, before: int)
    requires Word(w)
    ensures HeaderCores(w + (" " + rest), before) == HeaderCores(w + ("\t" + rest), before)
  {
    hide CoreCountFrom;
    NextToken(w, rest, before);
    var line := w + (" " + rest);
    WordEnds(w, " " + rest);
    assert line[..|w|] == w && line[|w| + 1..] == rest;
  }

  lemma LastToken(w: string, end: string, before: int)
    requires Word(w) && (end == "" || end == "\n")
    ensures HeaderCores(w + end, before) == CoreCountFrom(w + end, before)
  {
    hide CoreCountFrom;
    assert w + end == w + end + "";
    WordEnds(w + end, "");
  }

  /** The core count read off the words of a full header line. */
  lemma {:induction false} NamesCount(w: string, j: nat, coreCount: nat, end: string, before: int)
    requires Word(w) && j <= coreCount && (end == "" || end == "\n")
    ensures HeaderCores(w + CoreNames(j, coreCount) + end, before)
         == if j == coreCount then CoreCountFrom(w + end, before) else coreCount
    decreases coreCount - j
  {
    hide CoreCountFrom;
    hide CoreName;
    hide HeaderCores;
    hide Word;
    if j == coreCount {
      assert w + CoreNames(j, coreCount) + end == w + end;
      LastToken(w, end, before);
    } else {
      var tail := CoreName(j) + CoreNames(j + 1, coreCount) + end;
      assert w + CoreNames(j, coreCount) + end == w + ("\t" + tail);
      NextToken(w, tail, before);
      CoreNameCounts(j, end, CoreCountFrom(w, before));
      NamesCount(CoreName(j), j + 1, coreCount, end, CoreCountFrom(w, before));
    }
  }

  lemma ColumnsCount(coreCount: nat, end: string, initial: int)
    requires coreCount > 0 && (end == "" || end == "\n")
    ensures HeaderCores(Columns(coreCount) + end, initial) == coreCount
  {
    hide HeaderCores;
    hide CoreCountFrom;
    hide CoreNames;
    var tail := "power" + CoreNames(0, coreCount) + end;
    assert Columns(coreCount) + end == "speed" + ("\t" + tail);
    NextToken("speed", tail, initial);
    NamesCount("power", 0, coreCount, end, CoreCountFrom("speed", initial));
  }

  lemma {:induction false} NamesHaveNoNewline(j: nat, coreCount: nat)
    requires j <= coreCount
    ensures forall i :: 0 <= i < |CoreNames(j, coreCount)| ==> CoreNames(j, coreCount)[i] != '\n'
    decreases coreCount - j
  {
    if j < coreCount {
      NamesHaveNoNewline(j + 1, coreCount);
    }
  }

  /** `fgets` takes the whole of a line that fits, and a full buffer of one that
      does not. */
  lemma {:induction false} LineTaken(body: string, rest: string, size: nat)
    requires size > 0 && forall i :: 0 <= i < |body| ==> body[i] != '\n'
    ensures |body| + 1 < size ==> GetLine(body + "\n" + rest, size) == body + "\n"
    ensures |body| + 1 >= size ==> GetLine(body + "\n" + rest, size) == body[..size - 1]
    decreases size
  {
    var text := body + "\n" + rest;
    if body == "" {
      assert text == "\n" + rest;
    } else if size > 1 {
      LineTaken(body[1..], rest, size - 1);
      assert text[1..] == body[1..] + "\n" + rest;
    }
  }

  /** `fgets` on the 512-character buffer takes 511 characters of a longer line. */
  lemma {:induction false} LongLine(text: string, size: nat)
    requires 0 < size <= |text| + 1 && forall i :: 0 <= i < size - 1 ==> text[i] != '\n'
    ensures GetLine(text, size) == text[..size - 1]
    ensures size == 512 ==> GetLine(text, LINE_SIZE) == text[..511]
    decreases size
  {
    if size > 1 {
      LongLine(text[1..], size - 1);
    }
  }

  // ---------------------------------------------------------------- a header cut short

  /** A prefix of a decimal is a decimal, at least ten times smaller if proper. */
  lemma {:induction false} DecimalPrefix(n: nat, m: nat) returns (v: nat)
    requires 0 < m <= |Decimal(n)|
    ensures Decimal(n)[..m] == Decimal(v) && v <= n
    ensures m < |Decimal(n)| ==> v <= n / 10
  {
    if m == |Decimal(n)| {
      v := n;
    } else {
      v := DecimalPrefix(n / 10, m);
      assert Decimal(n)[..m] == Decimal(n / 10)[..m];
    }
  }

  lemma CutName(j: nat, k: nat, before: int, coreCount: nat)
    requires j < coreCount && coreCount >= 2 && before < coreCount
    requires k <= |CoreName(j)| && (k < |CoreName(j)| || j + 1 < coreCount)
    ensures CoreCountFrom(CoreName(j)[..k], before) < coreCount
  {
    var token := CoreName(j)[..k];
    if k > 4 {
      var v := DecimalPrefix(j, k - 4);
      assert token == CoreName(v) + "";
      CoreNameCounts(v, "", before);
    } else if k == 4 {
      assert token[4..] == "";
    }
  }

  /** Cut anywhere short of its end, the list of core names leaves a smaller count. */
  lemma {:induction false} NamesCut(w: string, j: nat, coreCount: nat, length: nat, before: int)
    requires Word(w) && j <= coreCount && coreCount >= 2
    requires length < |w + CoreNames(j, coreCount)|
    requires CoreCountFrom(if length < |w| then w[..length] else w, before) < coreCount
    ensures HeaderCores((w + CoreNames(j, coreCount))[..length], before) < coreCount
    decreases coreCount - j
  {
    hide CoreCountFrom;
    hide CoreName;
    hide HeaderCores;
    var line := (w + CoreNames(j, coreCount))[..length];
    if length <= |w| {
      assert line == w[..length] == w[..length] + "";
      assert length == |w| ==> w[..length] == w;
      LastToken(w[..length], "", before);
    } else {
      var tail := CoreName(j) + CoreNames(j + 1, coreCount);
      var rest := length - |w| - 1;
      assert w + CoreNames(j, coreCount) == w + ("\t" + tail);
      assert line == w + ("\t" + tail[..rest]);
      NextToken(w, tail[..rest], before);
      var next := CoreCountFrom(w, before);
      CoreNameCounts(j, "", next);
      CutName(j, if rest < |CoreName(j)| then rest else |CoreName(j)|, next, coreCount);
      assert CoreName(j)[..|CoreName(j)|] == CoreName(j);
      NamesCut(CoreName(j), j + 1, coreCount, rest, next);
    }
  }

  // ---------------------------------------------------------------- round trips

  ghost predicate PrintableTable(states: seq<State>, coreCount: nat) {
    forall i :: 0 <= i < |states| ==> Printable(states[i], coreCount)
  }

  /** A leftover newline before the rows is white space. */
  lemma LeadingNewline(s: string, coreCount: nat)
    ensures ScanRows("\n" + s, coreCount) == ScanRows(s, coreCount)
  {
    assert ("\n" + s)[1..] == s;
    assert SkipSpace("\n" + s) == SkipSpace(s);
    assert ScanNumber("\n" + s) == ScanNumber(s);
    assert ScanRow("\n" + s, coreCount) == ScanRow(s, coreCount);
  }

  lemma ColumnsLine(coreCount: nat, rest: string)
    ensures |Columns(coreCount)| + 1 < LINE_SIZE ==>
      GetLine(Header(coreCount) + rest, LINE_SIZE) == Header(coreCount)
    ensures |Columns(coreCount)| + 1 >= LINE_SIZE ==>
      GetLine(Header(coreCount) + rest, LINE_SIZE) == Columns(coreCount)[..LINE_SIZE - 1]
  {
    NamesHaveNoNewline(0, coreCount);
    LineTaken(Columns(coreCount), rest, LINE_SIZE);
  }

  /** A header that fits the line buffer, up to its newline: the table comes back. */
  lemma FittingHeader(states: seq<State>, coreCount: nat, initial: int)
    requires coreCount > 0 && PrintableTable(states, coreCount) && |Header(coreCount)| <= LINE_SIZE
    ensures Parsed(Header(coreCount) + Rows(states), initial) == Some((states, coreCount))
  {
    hide Rows;
    hide ScanRows;
    hide HeaderCores;
    hide GetLine;
    hide Columns;
    hide Printable;
    var text, body := Header(coreCount) + Rows(states), Columns(coreCount);
    ColumnsLine(coreCount, Rows(states));
    RowsScan(states, coreCount);
    if |body| + 1 < LINE_SIZE {
      ColumnsCount(coreCount, "\n", initial);
      assert text[|Header(coreCount)|..] == Rows(states);
    } else {
      assert body[..LINE_SIZE - 1] == body == body + "";
      ColumnsCount(coreCount, "", initial);
      assert text[|body|..] == "\n" + Rows(states);
      LeadingNewline(Rows(states), coreCount);
    }
  }

  /** A longer one loses cores, whatever the table. */
  lemma LongHeader(states: seq<State>, coreCount: nat, initial: int)
    requires |Header(coreCount)| > LINE_SIZE
    ensures Parsed(Header(coreCount) + Rows(states), initial) != Some((states, coreCount))
  {
    hide Rows;
    hide ScanRows;
    ColumnsLine(coreCount, Rows(states));
    LongColumnsCount(coreCount, initial);
  }

  lemma LongColumnsCount(coreCount: nat, initial: int)
    requires |Columns(coreCount)| >= LINE_SIZE
    ensures HeaderCores(Columns(coreCount)[..LINE_SIZE - 1], initial) < coreCount
  {
    hide HeaderCores;
    hide CoreCountFrom;
    LongHasTwo(coreCount);
    var names := CoreName(0) + CoreNames(1, coreCount);
    var length := LINE_SIZE - 1;
    var cut := names[..length - 12];
    assert Columns(coreCount)[..length] == "speed" + ("\t" + ("power" + ("\t" + cut)));
    NextToken("speed", "power" + ("\t" + cut), initial);
    var next := CoreCountFrom("speed", initial);
    NextToken("power", cut, next);
    next := CoreCountFrom("power", next);
    CoreNameCounts(0, "", next);
    assert CoreName(0) + "" == CoreName(0);
    NamesCut(CoreName(0), 1, coreCount, length - 12, next);
  }

  lemma LongHasTwo(coreCount: nat)
    requires |Columns(coreCount)| >= LINE_SIZE
    ensures coreCount >= 2 && |CoreName(0)| == 5
  {
    assert CoreNames(coreCount, coreCount) == "";
    assert Decimal(0) == "0";
  }

  /** Printing a table and reading it back gives the same states and core count
      exactly when the header fits the 512-character line buffer, newline included. */
  lemma RoundTripIff(states: seq<State>, coreCount: nat, initial: int)
    requires coreCount > 0 && PrintableTable(states, coreCount)
    ensures Parsed(Header(coreCount) + Rows(states), initial) == Some((states, coreCount))
      <==> |Header(coreCount)| <= LINE_SIZE
  {
    if |Header(coreCount)| <= LINE_SIZE {
      FittingHeader(states, coreCount, initial);
    } else {
      LongHeader(states, coreCount, initial);
    }
  }

  /** How long the list of core names is, up to three-digit numbers. */
  lemma {:induction false} NamesLength(j: nat, coreCount: nat)
    requires j <= coreCount <= 100
    ensures |CoreNames(j, coreCount)| ==
      if coreCount <= 10 then 6 * (coreCount - j)
      else if j <= 10 then 6 * (10 - j) + 7 * (coreCount - 10) else 7 * (coreCount - j)
    decreases coreCount - j
  {
    hide CoreName;
    if j < coreCount {
      NameLength(j);
      NamesLength(j + 1, coreCount);
    }
  }

  lemma NameLength(j: nat)
    requires j < 100
    ensures |CoreName(j)| == if j < 10 then 5 else 6
  {
    assert j >= 10 ==> |Decimal(j / 10)| == 1;
  }

  lemma {:induction false} NamesGrow(j: nat, fewer: nat, coreCount: nat)
    requires j <= fewer <= coreCount
    ensures |CoreNames(j, fewer)| <= |CoreNames(j, coreCount)|
    decreases fewer - j
  {
    if j < fewer {
      NamesGrow(j + 1, fewer, coreCount);
    }
  }

  lemma FitsIff(coreCount: nat)
    ensures |Header(coreCount)| <= LINE_SIZE <==> coreCount <= 72
  {
    hide CoreNames;
    NamesLength(0, 72);
    NamesLength(0, 73);
    if coreCount <= 72 {
      NamesGrow(0, coreCount, 72);
    } else {
      NamesGrow(0, 73, coreCount);
    }
  }

  /** In numbers: it does for up to 72 cores. */
  lemma RoundTripCores(states: seq<State>, coreCount: nat, initial: int)
    requires coreCount > 0 && PrintableTable(states, coreCount)
    ensures Parsed(Header(coreCount) + Rows(states), initial) == Some((states, coreCount)) <==> coreCount <= 72
  {
    hide Parsed;
    hide Header;
    hide Rows;
    hide PrintableTable;
    FitsIff(coreCount);
    RoundTripIff(states, coreCount, initial);
  }

  // ---------------------------------------------------------------- columns

  /** The text before the next tab or newline. */
  function FieldEnd(s: string): (k: nat)
    ensures k <= |s|
  {
    if s == "" || s[0] == '\t' || s[0] == '\n' then 0 else 1 + FieldEnd(s[1..])
  }

  /** Column `k` of a tab-separated line. */
  function Field(line: string, k: nat): string
    decreases k
  {
    var end := FieldEnd(line);
    if k == 0 then line[..end]
    else if end == |line| || line[end] == '\n' then ""
    else Field(line[end + 1..], k - 1)
  }

  lemma {:induction false} FieldFirst(w: string, rest: string)
    requires forall i :: 0 <= i < |w| ==> w[i] != '\t' && w[i] != '\n'
    requires rest != "" && (rest[0] == '\t' || rest[0] == '\n')
    ensures FieldEnd(w + rest) == |w| && (w + rest)[..|w|] == w
  {
    if w == "" {
      assert w + rest == rest;
    } else {
      FieldFirst(w[1..], rest);
      assert (w + rest)[1..] == w[1..] + rest;
    }
  }

  lemma FieldNext(w: string, rest: string, k: nat)
    requires forall i :: 0 <= i < |w| ==> w[i] != '\t' && w[i] != '\n'
    ensures Field(w + ("\t" + rest), 0) == w
    ensures Field(w + ("\t" + rest), k + 1) == Field(rest, k)
  {
    var line := w + ("\t" + rest);
    FieldFirst(w, "\t" + rest);
    assert line[|w| + 1..] == rest;
  }

  lemma FieldLast(w: string)
    requires forall i :: 0 <= i < |w| ==> w[i] != '\t' && w[i] != '\n'
    ensures Field(w + "\n", 0) == w
  {
    FieldFirst(w, "\n");
  }

  lemma {:induction false} NameField(w: string, j: nat, coreCount: nat, c: nat)
    requires Word(w) && j <= c < coreCount
    ensures Field(w + CoreNames(j, coreCount) + "\n", c - j + 1) == "core" + Decimal(c)
    decreases coreCount - j
  {
    hide Field;
    hide CoreName;
    hide Word;
    var tail := CoreName(j) + CoreNames(j + 1, coreCount) + "\n";
    assert w + CoreNames(j, coreCount) + "\n" == w + ("\t" + tail);
    WordFields(w);
    FieldNext(w, tail, c - j);
    NameWord(j);
    if j < c {
      NameField(CoreName(j), j + 1, coreCount, c);
    } else {
      NameFirst(j, coreCount);
    }
  }

  lemma WordFields(w: string)
    requires Word(w)
    ensures forall i :: 0 <= i < |w| ==> w[i] != '\t' && w[i] != '\n'
  {
  }

  lemma NameFirst(j: nat, coreCount: nat)
    requires j < coreCount
    ensures Field(CoreName(j) + CoreNames(j + 1, coreCount) + "\n", 0) == "core" + Decimal(j)
  {
    hide Field;
    hide Word;
    NameWord(j);
    if j + 1 == coreCount {
      assert CoreName(j) + CoreNames(j + 1, coreCount) + "\n" == CoreName(j) + "\n";
      FieldLast(CoreName(j));
    } else {
      var tail := CoreName(j + 1) + CoreNames(j + 2, coreCount) + "\n";
      assert CoreName(j) + CoreNames(j + 1, coreCount) + "\n" == CoreName(j) + ("\t" + tail);
      FieldNext(CoreName(j), tail, 0);
    }
  }

  lemma NameWord(j: nat)
    ensures Word(CoreName(j))
    ensures forall i :: 0 <= i < |CoreName(j)| ==> CoreName(j)[i] != '\t' && CoreName(j)[i] != '\n'
  {
    CoreNameCounts(j, "", 0);
  }

  lemma {:induction false} CoreField(w: string, cores: seq<nat>, c: nat)
    requires c < |cores| && forall i :: 0 <= i < |w| ==> IsDigit(w[i])
    ensures Field(w + CoreFields(cores), 0) == w
    ensures Field(w + CoreFields(cores), c + 1) == Decimal(cores[c])
    decreases |cores|
  {
    hide Field;
    hide Decimal;
    var tail := Decimal(cores[0]) + CoreFields(cores[1..]);
    assert w + CoreFields(cores) == w + ("\t" + tail);
    FieldNext(w, tail, c);
    if c > 0 {
      CoreField(Decimal(cores[0]), cores[1..], c - 1);
    } else if |cores| == 1 {
      FieldLast(Decimal(cores[0]));
    } else {
      CoreField(Decimal(cores[0]), cores[1..], 0);
    }
  }

  /** The header names the fields of a row: speed, power, and each core's frequency. */
  lemma ColumnsName(s: State, c: nat)
    requires c < |s.cores|
    ensures Field(Header(|s.cores|), 0) == "speed" && Field(Row(s), 0) == Decimal(s.speed)
    ensures Field(Header(|s.cores|), 1) == "power" && Field(Row(s), 1) == Decimal(s.power)
    ensures Field(Header(|s.cores|), 2 + c) == "core" + Decimal(c) && Field(Row(s), 2 + c) == Decimal(s.cores[c])
  {
    hide Field;
    hide Decimal;
    hide CoreNames;
    hide CoreFields;
    var n := |s.cores|;
    var names := "power" + CoreNames(0, n) + "\n";
    assert Header(n) == "speed" + ("\t" + names);
    FieldNext("speed", names, 0);
    FieldNext("speed", names, 1 + c);
    NameField("power", 0, n, c);
    PowerFirst(n);
    var fields := Decimal(s.power) + CoreFields(s.cores);
    assert Row(s) == Decimal(s.speed) + ("\t" + fields);
    FieldNext(Decimal(s.speed), fields, 0);
    FieldNext(Decimal(s.speed), fields, 1 + c);
    CoreField(Decimal(s.power), s.cores, c);
  }

  lemma PowerFirst(coreCount: nat)
    requires coreCount > 0
    ensures Field("power" + CoreNames(0, coreCount) + "\n", 0) == "power"
  {
    hide Field;
    var tail := CoreName(0) + CoreNames(1, coreCount) + "\n";
    assert "power" + CoreNames(0, coreCount) + "\n" == "power" + ("\t" + tail);
    FieldNext("power", tail, 0);
  }

  // ---------------------------------------------------------------- filtering twice

  /** A test passed in the whole list is passed among the states kept. */
  lemma KeptPassesAgain(list: seq<State>, filter: Filter, at: seq<nat>, a: nat)
    requires Sorted(list) && PickedAt(list, |list|, filter, Kept(list, filter), at) && a < |at|
    ensures Keeps(Kept(list, filter), a, filter)
  {
    hide KeptPrefix;
    var kept := Kept(list, filter);
    forall b | ScannedBack(kept, a, b) ensures ScannedBack(list, at[a], at[b]) {
      IndexGrows(at, b);
      forall k | at[b] <= k < at[a] ensures list[k].speed >= list[at[a]].speed {
        assert kept[b].speed >= kept[a].speed;
        assert at[b] < k ==> CompareStatesOnSpeed(list[at[b]], list[k]) <= 0;
      }
    }
  }

  lemma {:induction false} IndexGrows(at: seq<nat>, b: nat)
    requires b < |at| && forall x, y :: 0 <= x < y < |at| ==> at[x] < at[y]
    ensures at[b] >= b
  {
    if b > 0 {
      IndexGrows(at, b - 1);
    }
  }

  lemma {:induction false} AllKept(list: seq<State>, n: nat, filter: Filter)
    requires n <= |list| && forall i: nat :: i < |list| ==> Keeps(list, i, filter)
    ensures KeptPrefix(list, n, filter) == list[..n]
  {
    hide Keeps;
    if n > 0 {
      AllKept(list, n - 1, filter);
    }
  }

  /** On a sorted list, any choice of the filters run on its own output changes
      nothing. */
  lemma FilterIdempotent(list: seq<State>, filter: Filter)
    requires Sorted(list)
    ensures Kept(Kept(list, filter), filter) == Kept(list, filter)
  {
    hide Keeps;
    hide KeptPrefix;
    var kept := Kept(list, filter);
    var at := KeptPicks(list, |list|, filter);
    forall a: nat | a < |kept| ensures Keeps(kept, a, filter) {
      KeptPassesAgain(list, filter, at, a);
    }
    AllKept(kept, |kept|, filter);
    assert kept[..|kept|] == kept;
  }

  // ---------------------------------------------------------------- print, read, sort, print

  /** The output of `main` once its states are sorted. */
  ghost function Printed(sorted: seq<State>, filter: Filter, coreCount: nat): string {
    Header(coreCount) + Rows(Kept(sorted, filter))
  }

  lemma {:induction false} AllKeptInOrder(list: seq<State>, n: nat, filter: Filter)
    requires n <= |list| && |KeptPrefix(list, n, filter)| == n
    ensures KeptPrefix(list, n, filter) == list[..n]
  {
    hide Keeps;
    KeptFits(list, n, filter);
    if n > 0 {
      KeptFits(list, n - 1, filter);
      AllKeptInOrder(list, n - 1, filter);
    }
  }

  lemma KeptPrintable(list: seq<State>, filter: Filter, coreCount: nat)
    requires PrintableTable(list, coreCount)
    ensures PrintableTable(Kept(list, filter), coreCount)
  {
    hide Keeps;
    hide KeptPrefix;
    var at := KeptPicks(list, |list|, filter);
  }

  lemma SortPrintable(list: seq<State>, other: seq<State>, coreCount: nat)
    requires PrintableTable(list, coreCount) && SortedPermutation(list, other)
    ensures PrintableTable(other, coreCount)
  {
    hide Sorted;
    hide Printable;
    forall i | 0 <= i < |other| ensures Printable(other[i], coreCount) {
      SameMembers(list, other, other[i]);
    }
  }

  /** Another sort of an already filtered table prints as the table does only if it
      is that table. */
  lemma SamePrint(table: seq<State>, other: seq<State>, filter: Filter, coreCount: nat)
    requires Sorted(table) && SortedPermutation(table, other) && PrintableTable(table, coreCount)
    requires Kept(table, filter) == table
    ensures Printed(other, filter, coreCount) == Header(coreCount) + Rows(table) <==> other == table
  {
    hide Keeps;
    hide KeptPrefix;
    hide Rows;
    hide Sorted;
    if Printed(other, filter, coreCount) == Header(coreCount) + Rows(table) {
      SameTail(Header(coreCount), Rows(Kept(other, filter)), Rows(table));
      SortPrintable(table, other, coreCount);
      KeptPrintable(other, filter, coreCount);
      RowsScan(Kept(other, filter), coreCount);
      RowsScan(table, coreCount);
      assert |other| == |multiset(other)| == |multiset(table)| == |table|;
      AllKeptInOrder(other, |other|, filter);
      assert other[..|other|] == other;
    }
  }

  lemma SameTail(head: string, a: string, b: string)
    requires head + a == head + b
    ensures a == b
  {
    assert a == (head + a)[|head|..] && b == (head + b)[|head|..];
  }

  /** Print a table, read the file back, sort what was read and print it again with
      the same options: whatever order `qsort` gives to equal states, the file comes
      out the same if and only if states printed that compare equal are the same. */
  lemma PrintReadPrintIff(list: seq<State>, filter: Filter, coreCount: nat, initial: int)
    requires Sorted(list) && coreCount > 0 && |Header(coreCount)| <= LINE_SIZE
    requires PrintableTable(list, coreCount)
    ensures var text := Printed(list, filter, coreCount);
      && Parsed(text, initial).Some?
      && ((forall other :: SortedPermutation(Parsed(text, initial).value.0, other) ==>
             Printed(other, filter, Parsed(text, initial).value.1) == text)
          <==> TiesAreEqual(Kept(list, filter)))
  {
    hide Keeps;
    hide KeptPrefix;
    hide Rows;
    hide Header;
    hide Parsed;
    hide Sorted;
    hide TiesAreEqual;
    hide PrintableTable;
    var table := Kept(list, filter);
    KeptSorted(list, filter);
    KeptPrintable(list, filter, coreCount);
    FittingHeader(table, coreCount, initial);
    FilterIdempotent(list, filter);
    OneSortIff(table);
    forall other | SortedPermutation(table, other)
      ensures Printed(other, filter, coreCount) == Printed(list, filter, coreCount) <==> other == table
    {
      SamePrint(table, other, filter, coreCount);
    }
  }

  /** It can come out different: with no options the two one-core states of two cores
      and one frequency are both printed, and a sort may swap them. */
  lemma ReprintDiffers(freqs: seq<nat>, list: seq<State>, initial: int) returns (other: seq<State>)
    requires freqs == [10000] && list == LOSSY_ORDER
    ensures SortedStates(freqs, 2, list)
    ensures var text := Printed(list, NO_FILTER, 2);
      && Parsed(text, initial) == Some((list, 2))
      && SortedPermutation(list, other) && Printed(other, NO_FILTER, 2) != text
  {
    hide Rows;
    hide Header;
    hide Parsed;
    hide Keeps;
    hide KeptPrefix;
    hide Sorted;
    hide PrintableTable;
    hide SortedStates;
    hide Frontier;
    UnstableSortLosesClass(freqs, list);
    LossySorted(freqs, list);
    LossyPlain(list);
    other := SwapTies(list, 1, 2);
    ShortHeader();
    FittingHeader(list, 2, initial);
    SamePrint(list, other, NO_FILTER, 2);
  }

  lemma LossySorted(freqs: seq<nat>, list: seq<State>)
    requires SortedStates(freqs, 2, list)
    ensures Sorted(list)
  {
  }

  lemma LossyPlain(list: seq<State>)
    requires list == LOSSY_ORDER
    ensures |list| == 4 && CompareStatesOnSpeed(list[1], list[2]) == 0 && list[1] != list[2]
    ensures Kept(list, NO_FILTER) == list && PrintableTable(list, 2)
  {
    assert list[1].cores[0] != list[2].cores[0];
    AllKept(list, |list|, NO_FILTER);
    assert list[..|list|] == list;
  }

  const NO_FILTER := Filter(false, false, false, false)

  lemma ShortHeader()
    ensures |Header(2)| <= LINE_SIZE
  {
    assert CoreNames(2, 2) == "";
    assert CoreNames(1, 2) == "\t" + CoreName(1) + CoreNames(2, 2);
    assert Decimal(0) == "0" && Decimal(1) == "1";
  }

  lemma KeptSorted(list: seq<State>, filter: Filter)
    requires Sorted(list)
    ensures Sorted(Kept(list, filter))
  {
    hide Keeps;
    hide KeptPrefix;
    var at := KeptPicks(list, |list|, filter);
  }

  /** With a stable sort the file always comes out the same. */
  lemma StableReprint(list: seq<State>, filter: Filter, coreCount: nat, initial: int, other: seq<State>)
    requires Sorted(list) && coreCount > 0 && |Header(coreCount)| <= LINE_SIZE
    requires PrintableTable(list, coreCount) && StableSorted(Kept(list, filter), other)
    ensures Parsed(Printed(list, filter, coreCount), initial) == Some((Kept(list, filter), coreCount))
    ensures Printed(other, filter, coreCount) == Printed(list, filter, coreCount)
  {
    hide Keeps;
    hide KeptPrefix;
    hide Rows;
    hide Header;
    hide Parsed;
    hide Sorted;
    hide PrintableTable;
    hide StableSorted;
    var table := Kept(list, filter);
    KeptSorted(list, filter);
    KeptPrintable(list, filter, coreCount);
    FittingHeader(table, coreCount, initial);
    FilterIdempotent(list, filter);
    StableSortUnique(table, other, other);
  }

  /** Of the generated states, those left by the equivalence test are told apart by
      speed and power. */
  lemma GeneratedTies(freqs: seq<nat>, coreCount: nat, list: seq<State>, filter: Filter)
    requires SortedStates(freqs, coreCount, list) && filter.skipEquivalent
    ensures TiesAreEqual(Kept(list, filter))
  {
    hide KeptPrefix;
    hide Sorted;
    var table := Kept(list, filter);
    var at := KeptPicks(list, |list|, filter);
    forall a, b | 0 <= a < b < |table| && CompareStatesOnSpeed(table[a], table[b]) == 0
      ensures table[a] == table[b]
    {
      var i, j := at[a], at[b];
      if list[j].speed > 0 {
        assert SameClass(list[i], list[j]);
        StoppedStateFirst(freqs, coreCount, list);
        EquivalentScanIsGlobal(list, j);
      } else {
        StoppedIsOff(freqs, coreCount, list, list[i]);
        StoppedIsOff(freqs, coreCount, list, list[j]);
      }
    }
  }

  /** So `powerstates -u` on the generated states prints a file that it prints again
      from itself, for any two sorts. */
  lemma GeneratedReprint(freqs: seq<nat>, coreCount: nat, list: seq<State>, filter: Filter, initial: int,
                         other: seq<State>)
    requires SortedStates(freqs, coreCount, list) && filter.skipEquivalent
    requires |Header(coreCount)| <= LINE_SIZE && PrintableTable(list, coreCount)
    requires SortedPermutation(Kept(list, filter), other)
    ensures Parsed(Printed(list, filter, coreCount), initial) == Some((Kept(list, filter), coreCount))
    ensures Printed(other, filter, coreCount) == Printed(list, filter, coreCount)
  {
    hide Keeps;
    hide KeptPrefix;
    hide Rows;
    hide Header;
    hide Parsed;
    hide Sorted;
    hide TiesAreEqual;
    hide PrintableTable;
    var table := Kept(list, filter);
    GeneratedTies(freqs, coreCount, list, filter);
    KeptSorted(list, filter);
    KeptPrintable(list, filter, coreCount);
    FittingHeader(table, coreCount, initial);
    FilterIdempotent(list, filter);
    OneSort(table, other);
  }
}

/** The latency test (src/lat.c): two processes that answer each other's heartbeat
    tags, as interleaved steps. A spin that reads a tag it is not waiting for
    leaves everything unchanged. */
module PingPong {
  import opened Options

  /** Where `app` stands; `i` is its loop variable, counting down. */
  datatype App = AppSyncSend | AppSyncWait | AppSend(i: int) | AppWait(i: int) | AppDone

  /** Where `sys` stands; `i` is its loop variable, counting up. */
  datatype Sys = SysSyncWait | SysSyncSend | SysWait(i: int) | SysSend(i: int) | SysDone

  datatype Pair = Pair(
    iters: int,
    app: App,
    sys: Sys,
    appTag: Option<int>,  // the tag of each side's latest beat, None before the first
    sysTag: Option<int>,
    appSent: nat,         // beats issued by each side
    sysSent: nat,
    appSeen: nat,         // beats of the other side each has waited out
    sysSeen: nat)

  predicate Init(s: Pair) {
    s == Pair(s.iters, AppSyncSend, SysSyncWait, None, None, 0, 0, 0, 0)
  }

  // ---------------------------------------------------------------- steps

  /** `for (i = iters; i > 0; i--)`: the head of the loop of `app`. */
  function AppLoop(i: int): App {
    if i > 0 then AppSend(i) else AppDone
  }

  /** `for (i = 0; i < iters; i++)`: the head of the loop of `sys`. */
  function SysLoop(i: int, iters: int): Sys {
    if i < iters then SysWait(i) else SysDone
  }

  predicate AppBlocked(s: Pair) {
    match s.app
    case AppSyncWait => s.sysTag != Some(-1)
    case AppWait(i) => s.sysTag != Some(s.iters - i)
    case AppDone => true
    case _ => false
  }

  predicate SysBlocked(s: Pair) {
    match s.sys
    case SysSyncWait => s.appTag != Some(-2)
    case SysWait(i) => s.appTag != Some(s.iters - i)
    case SysDone => true
    case _ => false
  }

  function AppMove(s: Pair): Pair {
    if AppBlocked(s) then s else
      match s.app
      case AppSyncSend => s.(app := AppSyncWait, appTag := Some(-2), appSent := s.appSent + 1)
      case AppSyncWait => s.(app := AppLoop(s.iters), appSeen := s.appSeen + 1)
      case AppSend(i) => s.(app := AppWait(i), appTag := Some(i), appSent := s.appSent + 1)
      case AppWait(i) => s.(app := AppLoop(i - 1), appSeen := s.appSeen + 1)
      case AppDone => s
  }

  function SysMove(s: Pair): Pair {
    if SysBlocked(s) then s else
      match s.sys
      case SysSyncWait => s.(sys := SysSyncSend, sysSeen := s.sysSeen + 1)
      case SysSyncSend => s.(sys := SysLoop(0, s.iters), sysTag := Some(-1), sysSent := s.sysSent + 1)
      case SysWait(i) => s.(sys := SysSend(i), sysSeen := s.sysSeen + 1)
      case SysSend(i) => s.(sys := SysLoop(i + 1, s.iters), sysTag := Some(i), sysSent := s.sysSent + 1)
      case SysDone => s
  }

  predicate Step(s: Pair, s': Pair) {
    s' == AppMove(s) || s' == SysMove(s)
  }

  ghost predicate Run(run: seq<Pair>) {
    && |run| > 0 && Init(run[0])
    && forall j :: 0 <= j < |run| - 1 ==> Step(run[j], run[j + 1])
  }

  // ---------------------------------------------------------------- invariant

  function Rounds(s: Pair): nat {
    if s.iters > 0 then s.iters else 0
  }

  /** The tag of the n-th beat of each side. */
  function AppTagOf(s: Pair, n: nat): Option<int> {
    if n == 0 then None else if n == 1 then Some(-2) else Some(s.iters - (n - 2))
  }

  function SysTagOf(n: nat): Option<int> {
    if n == 0 then None else Some(n - 2)
  }

  ghost predicate AppHolds(s: Pair) {
    match s.app
    case AppSyncSend => s.appSent == 0 && s.appSeen == 0
    case AppSyncWait => s.appSent == 1 && s.appSeen == 0
    case AppSend(i) => 0 < i <= s.iters && s.appSent == s.appSeen == s.iters - i + 1
    case AppWait(i) => 0 < i <= s.iters && s.appSent == s.iters - i + 2 && s.appSeen == s.iters - i + 1
    case AppDone => s.appSent == s.appSeen == Rounds(s) + 1
  }

  ghost predicate SysHolds(s: Pair) {
    match s.sys
    case SysSyncWait => s.sysSent == 0 && s.sysSeen == 0
    case SysSyncSend => s.sysSent == 0 && s.sysSeen == 1
    case SysWait(i) => 0 <= i < s.iters && s.sysSent == s.sysSeen == i + 1
    case SysSend(i) => 0 <= i < s.iters && s.sysSent == i + 1 && s.sysSeen == i + 2
    case SysDone => s.sysSent == s.sysSeen == Rounds(s) + 1
  }

  ghost predicate Inv(s: Pair) {
    && AppHolds(s) && SysHolds(s)
    && s.appTag == AppTagOf(s, s.appSent) && s.sysTag == SysTagOf(s.sysSent)
    && s.appSeen <= s.sysSent <= s.sysSeen <= s.appSent <= s.appSeen + 1
  }

  lemma InitInv(s: Pair)
    requires Init(s)
    ensures Inv(s)
  {
  }

  lemma AppMoveInv(s: Pair)
    requires Inv(s)
    ensures AppHolds(AppMove(s)) && Inv(AppMove(s))
  {
    hide SysMove;
    var s' := AppMove(s);
    assert SysHolds(s') by {
      assert s'.sys == s.sys && s'.sysSent == s.sysSent && s'.sysSeen == s.sysSeen;
    }
  }

  lemma SysMoveInv(s: Pair)
    requires Inv(s)
    ensures Inv(SysMove(s))
  {
    hide AppMove;
    var s' := SysMove(s);
    assert AppHolds(s') by {
      assert s'.app == s.app && s'.appSent == s.appSent && s'.appSeen == s.appSeen;
    }
  }

  lemma {:induction false} RunInv(run: seq<Pair>, j: nat)
    requires Run(run) && j < |run|
    ensures Inv(run[j]) && run[j].iters == run[0].iters
  {
    hide Inv;
    if j == 0 {
      InitInv(run[0]);
    } else {
      RunInv(run, j - 1);
      AppMoveInv(run[j - 1]);
      SysMoveInv(run[j - 1]);
    }
  }

  // ---------------------------------------------------------------- safety

  /** In every interleaving: a side is about to issue a beat only when the other has
      waited out its previous one, so no tag is overwritten unread; and neither side
      is ever more than one beat ahead of what the other has seen. */
  lemma NoTagLost(run: seq<Pair>, j: nat)
    requires Run(run) && j < |run|
    ensures var s := run[j];
      && ((s.app.AppSyncSend? || s.app.AppSend?) ==> s.sysSeen == s.appSent)
      && ((s.sys.SysSyncSend? || s.sys.SysSend?) ==> s.appSeen == s.sysSent)
      && s.sysSeen <= s.appSent <= s.sysSeen + 1
      && s.appSeen <= s.sysSent <= s.appSeen + 1
      && s.sysSent <= s.appSent <= s.sysSent + 1
  {
    RunInv(run, j);
  }

  /** The tags in order: `app` sends -2 and then counts down from `iters` to 1, `sys`
      sends -1 and then counts up from 0; what each waits for is what comes next. */
  lemma TagsExact(run: seq<Pair>, j: nat)
    requires Run(run) && j < |run|
    ensures var s := run[j];
      && s.appTag == (if s.appSent == 0 then None
                      else if s.appSent == 1 then Some(-2) else Some(s.iters + 2 - s.appSent))
      && s.sysTag == (if s.sysSent == 0 then None else Some(s.sysSent - 2))
      && (s.app.AppSend? ==> 1 <= s.app.i == s.iters + 1 - s.appSent)
      && (s.sys.SysSend? ==> s.sys.i == s.sysSent - 1 < s.iters)
  {
    RunInv(run, j);
  }

  /** A stale tag never matches: a waiting side goes on exactly when the other has
      issued one beat more than it has seen. */
  lemma StaleNeverMatches(run: seq<Pair>, j: nat)
    requires Run(run) && j < |run|
    ensures var s := run[j];
      && ((s.app.AppSyncWait? || s.app.AppWait?) ==> (!AppBlocked(s) <==> s.sysSent == s.appSeen + 1))
      && ((s.sys.SysSyncWait? || s.sys.SysWait?) ==> (!SysBlocked(s) <==> s.appSent == s.sysSeen + 1))
  {
    RunInv(run, j);
  }

  // ---------------------------------------------------------------- liveness

  predicate Finished(s: Pair) {
    s.app == AppDone && s.sys == SysDone
  }

  /** Until both are done exactly one side can move: the exchange cannot jam, and
      the order of its beats does not depend on the scheduler. */
  lemma ExactlyOneMoves(run: seq<Pair>, j: nat)
    requires Run(run) && j < |run|
    ensures !Finished(run[j]) ==> (AppBlocked(run[j]) <==> !SysBlocked(run[j]))
    ensures Finished(run[j]) ==> AppBlocked(run[j]) && SysBlocked(run[j])
  {
    RunInv(run, j);
  }

  /** The moves left: one send and one completed wait per beat and side. */
  function Remaining(s: Pair): int {
    4 * (Rounds(s) + 1) - s.appSent - s.appSeen - s.sysSent - s.sysSeen
  }

  /** Every move of a side that is not spinning uses up one of finitely many, and
      none are left exactly when both are done. */
  lemma MovesRunOut(run: seq<Pair>, j: nat)
    requires Run(run) && j < |run|
    ensures Remaining(run[j]) >= 0
    ensures Remaining(run[j]) == 0 <==> Finished(run[j])
    ensures Finished(run[j]) ==> run[j].appSent == run[j].sysSent == Rounds(run[j]) + 1
    ensures !AppBlocked(run[j]) ==> Remaining(AppMove(run[j])) == Remaining(run[j]) - 1
    ensures !SysBlocked(run[j]) ==> Remaining(SysMove(run[j])) == Remaining(run[j]) - 1
    ensures AppBlocked(run[j]) ==> AppMove(run[j]) == run[j]
    ensures SysBlocked(run[j]) ==> SysMove(run[j]) == run[j]
  {
    RunInv(run, j);
  }

  /** How many steps of a run were not spins. */
  ghost function Moves(run: seq<Pair>): nat {
    if |run| <= 1 then 0
    else Moves(run[..|run| - 1]) + if run[|run| - 1] != run[|run| - 2] then 1 else 0
  }

  lemma NoneSeenYet(s: Pair)
    requires Init(s)
    ensures Remaining(s) == 4 * (Rounds(s) + 1)
  {
  }

  /** Any run, under any scheduler, is finished exactly when it has made all of its
      4(iters + 1) moves; and then each side has issued iters + 1 beats. */
  lemma {:induction false} FinishedByMoves(run: seq<Pair>)
    requires Run(run)
    ensures Moves(run) + Remaining(run[|run| - 1]) == 4 * (Rounds(run[0]) + 1)
    ensures Finished(run[|run| - 1]) <==> Moves(run) == 4 * (Rounds(run[0]) + 1)
    ensures Finished(run[|run| - 1]) ==>
      run[|run| - 1].appSent == run[|run| - 1].sysSent == Rounds(run[0]) + 1
  {
    hide Inv;
    hide AppMove;
    hide SysMove;
    hide Remaining;
    hide Finished;
    var n := |run| - 1;
    RunInv(run, n);
    MovesRunOut(run, n);
    if n == 0 {
      NoneSeenYet(run[0]);
    } else {
      var init := run[..n];
      FinishedByMoves(init);
      RunInv(init, n - 1);
      MovesRunOut(init, n - 1);
      assert Step(init[n - 1], run[n]);
    }
  }

  /** Moves are never given back, and a stretch that uses none up changes nothing. */
  lemma {:induction false} MovesOnlyShrink(run: seq<Pair>, a: nat, b: nat)
    requires Run(run) && a <= b < |run|
    ensures Remaining(run[b]) <= Remaining(run[a])
    ensures Remaining(run[b]) == Remaining(run[a]) ==> run[b] == run[a]
  {
    hide Remaining;
    hide AppMove;
    hide SysMove;
    if a < b {
      MovesOnlyShrink(run, a, b - 1);
      MovesRunOut(run, b - 1);
      assert Step(run[b - 1], run[b - 1 + 1]);
    }
  }

  predicate AppTurn(run: seq<Pair>, i: nat) {
    i + 1 < |run| && run[i + 1] == AppMove(run[i])
  }

  predicate SysTurn(run: seq<Pair>, i: nat) {
    i + 1 < |run| && run[i + 1] == SysMove(run[i])
  }

  /** Each side gets a turn, moving or spinning, between points `a` and `b`. */
  ghost predicate BothTurn(run: seq<Pair>, a: nat, b: nat)
    requires b < |run|
  {
    && (exists i :: a <= i < b && AppTurn(run, i))
    && (exists i :: a <= i < b && SysTurn(run, i))
  }

  lemma NothingMoved(run: seq<Pair>, a: nat, i: nat, b: nat)
    requires Run(run) && a <= i < b < |run| && Remaining(run[b]) >= Remaining(run[a])
    ensures run[i] == run[a] && run[i + 1] == run[a]
  {
    hide Remaining;
    hide Run;
    MovesOnlyShrink(run, a, i);
    MovesOnlyShrink(run, i, i + 1);
    MovesOnlyShrink(run, i + 1, b);
  }

  lemma TurnsProgress(run: seq<Pair>, a: nat, b: nat)
    requires Run(run) && a <= b < |run| && BothTurn(run, a, b)
    ensures Finished(run[a]) || Remaining(run[b]) < Remaining(run[a])
  {
    hide Remaining;
    hide Run;
    hide Finished;
    hide AppMove;
    hide SysMove;
    hide AppBlocked;
    hide SysBlocked;
    if !Finished(run[a]) && Remaining(run[b]) >= Remaining(run[a]) {
      ExactlyOneMoves(run, a);
      MovesRunOut(run, a);
      if AppBlocked(run[a]) {
        var i :| a <= i < b && SysTurn(run, i);
        NothingMoved(run, a, i, b);
      } else {
        var i :| a <= i < b && AppTurn(run, i);
        NothingMoved(run, a, i, b);
      }
    }
  }

  /** A fair scheduler finishes: a run cut at points between which each side gets a
      turn has a move fewer left at every cut, so after 4(iters + 1) of them both
      sides are done. */
  lemma {:induction false} FairRunFinishes(run: seq<Pair>, cuts: seq<nat>, k: nat)
    requires Run(run) && k < |cuts|
    requires forall j :: 0 <= j < |cuts| ==> cuts[j] < |run|
    requires forall j :: 0 < j < |cuts| ==> cuts[j - 1] <= cuts[j] && BothTurn(run, cuts[j - 1], cuts[j])
    ensures Finished(run[cuts[k]]) || Remaining(run[cuts[k]]) <= 4 * (Rounds(run[0]) + 1) - k
    ensures k >= 4 * (Rounds(run[0]) + 1) ==> forall i :: cuts[k] <= i < |run| ==> Finished(run[i])
  {
    hide Remaining;
    hide Finished;
    hide BothTurn;
    NoneSeenYet(run[0]);
    MovesRunOut(run, cuts[k]);
    if k == 0 {
      MovesOnlyShrink(run, 0, cuts[0]);
    } else {
      FairRunFinishes(run, cuts, k - 1);
      TurnsProgress(run, cuts[k - 1], cuts[k]);
      MovesRunOut(run, cuts[k - 1]);
      MovesOnlyShrink(run, cuts[k - 1], cuts[k]);
    }
    forall i | cuts[k] <= i < |run| && Remaining(run[cuts[k]]) <= 0 ensures Finished(run[i]) {
      MovesOnlyShrink(run, cuts[k], i);
      MovesRunOut(run, i);
    }
  }
}

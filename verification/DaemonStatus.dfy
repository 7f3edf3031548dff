/** The maintenance daemon's status mirror, kept up to date round by round, and the discovering run loop that
    feeds it.  The mirror must agree with the report of the run when the daemon stops. */
module DaemonStatus {
  import opened Wrappers
  import opened Text
  import TenantIds
  import opened TenantRuntime

  datatype DaemonState = Disabled | Configured | Running | Stopped | Failed

  datatype RoundStatus = RoundOk | RoundDegraded | RoundLost

  datatype FailureCode = FailureCode(code: string)

  datatype Status = Status(
    enabled: bool,
    state: DaemonState,
    successfulRounds: nat,
    failedRounds: nat,
    failedTenantTicks: nat,
    daemonFailures: nat,
    lastRoundStatus: Option<RoundStatus>,
    lastRoundTenantCount: nat,
    lastRoundFailedTenantCount: nat,
    lastFailureCode: Option<FailureCode>,
    lastDaemonFailureCode: Option<FailureCode>)

  // ---------------------------------------------------------------- what a registry report says

  predicate LastTickFailed<T>(tenant: TenantState<T>) {
    tenant.lastTick.Some? && tenant.lastTick.value.TickFailed?
  }

  function FailedTicks<T>(tenants: seq<TenantState<T>>): nat {
    if tenants == [] then 0 else tenants[0].failedTicks + FailedTicks(tenants[1..])
  }

  function LastFailedCount<T>(tenants: seq<TenantState<T>>): (n: nat)
    ensures n <= |tenants|
    ensures n == 0 <==> forall i :: 0 <= i < |tenants| ==> !LastTickFailed(tenants[i])
  {
    if tenants == [] then 0
    else
      assert forall i :: 1 <= i < |tenants| ==> tenants[i] == tenants[1..][i - 1];
      (if LastTickFailed(tenants[0]) then 1 else 0) + LastFailedCount(tenants[1..])
  }

  /** The tenants whose last tick failed. */
  function FailedIndexes<T>(tenants: seq<TenantState<T>>): set<nat> {
    set i: nat | i < |tenants| && tenants[i].lastTick.Some? && tenants[i].lastTick.value.TickFailed?
  }

  lemma {:induction false} LastFailedAppended<T>(tenants: seq<TenantState<T>>, t: TenantState<T>)
    ensures LastFailedCount(tenants + [t]) == LastFailedCount(tenants) + if LastTickFailed(t) then 1 else 0
  {
    if tenants == [] {
      assert (tenants + [t])[1..] == [];
    } else {
      assert (tenants + [t])[1..] == tenants[1..] + [t];
      LastFailedAppended(tenants[1..], t);
    }
  }

  /** The count is the number of such tenants. */
  lemma {:induction false} FailedCountExactly<T>(tenants: seq<TenantState<T>>)
    ensures LastFailedCount(tenants) == |FailedIndexes(tenants)|
  {
    if tenants != [] {
      var front, last := tenants[..|tenants| - 1], tenants[|tenants| - 1];
      FailedCountExactly(front);
      LastFailedAppended(front, last);
      assert tenants == front + [last];
      assert FailedIndexes(tenants)
          == FailedIndexes(front) + if LastTickFailed(last) then {|front|} else {};
    }
  }

  /** Tenant `i` is the first whose last tick failed. */
  ghost predicate FirstFailure<T>(tenants: seq<TenantState<T>>, i: nat) {
    i < |tenants| && LastTickFailed(tenants[i]) && forall j :: 0 <= j < i ==> !LastTickFailed(tenants[j])
  }

  function FirstFailureCode<T>(tenants: seq<TenantState<T>>, classify: string -> FailureCode): (r: Option<FailureCode>)
    ensures r.None? <==> LastFailedCount(tenants) == 0
  {
    if tenants == [] then None
    else if LastTickFailed(tenants[0]) then Some(classify(tenants[0].lastTick.value.safeError))
    else FirstFailureCode(tenants[1..], classify)
  }

  lemma {:induction false} FirstFailureCodeIsTheFirst<T>(
    tenants: seq<TenantState<T>>, classify: string -> FailureCode, i: nat)
    requires FirstFailure(tenants, i)
    ensures FirstFailureCode(tenants, classify) == Some(classify(tenants[i].lastTick.value.safeError))
  {
    if i > 0 {
      assert FirstFailure(tenants[1..], i - 1);
      FirstFailureCodeIsTheFirst(tenants[1..], classify, i - 1);
    }
  }

  /** A tenant whose failed ticks are one if its last tick failed and none otherwise. */
  predicate OneTickCounted<T>(tenant: TenantState<T>) {
    tenant.failedTicks == if LastTickFailed(tenant) then 1 else 0
  }

  /** In a round the runtime produced every tenant ticked once, so failed ticks and tenants whose last tick failed
      are the same count. */
  lemma {:induction false} FailedTicksAreFailedTenants<T>(tenants: seq<TenantState<T>>)
    requires forall j :: 0 <= j < |tenants| ==> OneTickCounted(tenants[j])
    ensures FailedTicks(tenants) == LastFailedCount(tenants)
  {
    if tenants != [] {
      assert OneTickCounted(tenants[0]);
      FailedTicksAreFailedTenants(tenants[1..]);
    }
  }

  // ---------------------------------------------------------------- the status as a value

  function Fresh(enabled: bool): Status {
    Status(enabled, if enabled then Configured else Disabled, 0, 0, 0, 0, None, 0, 0, None, None)
  }

  function MarkedRunning(s: Status): Status {
    s.(state := Running, lastFailureCode := None, lastDaemonFailureCode := None)
  }

  function WithLastRound<T>(s: Status, round: RoundReport<T>, classify: string -> FailureCode): Status {
    match round
    case RoundSucceeded(report) =>
      var failed := LastFailedCount(report.tenantReports);
      s.(lastRoundTenantCount := |report.tenantReports|,
         lastRoundFailedTenantCount := failed,
         lastRoundStatus := Some(if failed == 0 then RoundOk else RoundDegraded),
         lastFailureCode := if failed == 0 then None else FirstFailureCode(report.tenantReports, classify))
    case RoundFailed(safeError) =>
      s.(lastRoundTenantCount := 0,
         lastRoundFailedTenantCount := 0,
         lastRoundStatus := Some(RoundLost),
         lastFailureCode := Some(classify(safeError)))
  }

  function Recorded<T>(s: Status, round: RoundReport<T>, classify: string -> FailureCode): Status {
    var counted := match round
      case RoundSucceeded(report) =>
        s.(successfulRounds := s.successfulRounds + 1,
           failedTenantTicks := s.failedTenantTicks + FailedTicks(report.tenantReports))
      case RoundFailed(_) => s.(failedRounds := s.failedRounds + 1);
    WithLastRound(counted.(state := Running), round, classify)
  }

  function MarkedStopped<T>(s: Status, report: RunReport<T>, classify: string -> FailureCode): Status {
    var counted := s.(state := Stopped,
                      successfulRounds := report.successfulRounds, failedRounds := report.failedRounds);
    if report.lastRound.Some? then WithLastRound(counted, report.lastRound.value, classify) else counted
  }

  function RecordedAll<T>(s: Status, rounds: seq<RoundReport<T>>, classify: string -> FailureCode): Status {
    if rounds == [] then s
    else Recorded(RecordedAll(s, rounds[..|rounds| - 1], classify), rounds[|rounds| - 1], classify)
  }

  // ---------------------------------------------------------------- the report of a run

  function Successes<T>(rounds: seq<RoundReport<T>>): (n: nat)
    ensures n <= |rounds|
  {
    if rounds == [] then 0
    else Successes(rounds[..|rounds| - 1]) + if rounds[|rounds| - 1].RoundSucceeded? then 1 else 0
  }

  function ReportOf<T>(rounds: seq<RoundReport<T>>): RunReport<T> {
    RunReport(Successes(rounds), |rounds| - Successes(rounds),
              if rounds == [] then None else Some(rounds[|rounds| - 1]), true)
  }

  lemma RoundAppended<T>(s: Status, rounds: seq<RoundReport<T>>, round: RoundReport<T>, classify: string -> FailureCode)
    ensures RecordedAll(s, rounds + [round], classify) == Recorded(RecordedAll(s, rounds, classify), round, classify)
  {
    assert (rounds + [round])[..|rounds|] == rounds;
  }

  lemma ReportAppended<T>(rounds: seq<RoundReport<T>>, round: RoundReport<T>)
    ensures ReportOf(rounds + [round])
         == RunReport(ReportOf(rounds).successfulRounds + (if round.RoundSucceeded? then 1 else 0),
                      ReportOf(rounds).failedRounds + (if round.RoundSucceeded? then 0 else 1), Some(round), true)
  {
    assert (rounds + [round])[..|rounds|] == rounds;
  }

  /** Round `k` is what the runtime makes of `worlds(k)`. */
  ghost predicate RoundsFollow<T>(worlds: nat -> RoundWorld<T>, rounds: seq<RoundReport<T>>) {
    forall k :: 0 <= k < |rounds| ==> RoundFollows(worlds(k), rounds[k])
  }

  lemma RoundsFollowAppended<T>(worlds: nat -> RoundWorld<T>, rounds: seq<RoundReport<T>>, round: RoundReport<T>)
    requires RoundsFollow(worlds, rounds) && RoundFollows(worlds(|rounds|), round)
    ensures RoundsFollow(worlds, rounds + [round])
  {
    var all := rounds + [round];
    forall k | 0 <= k < |all| ensures RoundFollows(worlds(k), all[k]) {
      assert all[k] == if k < |rounds| then rounds[k] else round;
    }
  }

  /** Tenants whose last tick failed, added up over the successful rounds. */
  function FailedTenants<T>(rounds: seq<RoundReport<T>>): nat {
    if rounds == [] then 0
    else
      var last := rounds[|rounds| - 1];
      FailedTenants(rounds[..|rounds| - 1])
      + if last.RoundSucceeded? then LastFailedCount(last.report.tenantReports) else 0
  }

  // ---------------------------------------------------------------- the mirror agrees with the run

  lemma {:induction false} CountersAdvance<T>(s: Status, rounds: seq<RoundReport<T>>, classify: string -> FailureCode)
    ensures var t := RecordedAll(s, rounds, classify);
            && t.successfulRounds == s.successfulRounds + Successes(rounds)
            && t.failedRounds == s.failedRounds + (|rounds| - Successes(rounds))
            && t.daemonFailures == s.daemonFailures && t.enabled == s.enabled
            && t.lastDaemonFailureCode == s.lastDaemonFailureCode
            && (rounds != [] ==> t.state == Running)
  {
    if rounds != [] {
      CountersAdvance(s, rounds[..|rounds| - 1], classify);
    }
  }

  /** Stopping with the report of the recorded run changes only the state exactly when the mirror started the run
      with both round counters at zero. */
  lemma {:induction false} StoppingChangesOnlyTheState<T>(
    s: Status, rounds: seq<RoundReport<T>>, classify: string -> FailureCode)
    ensures var t := RecordedAll(s, rounds, classify);
            MarkedStopped(t, ReportOf(rounds), classify) == t.(state := Stopped)
            <==> s.successfulRounds == 0 && s.failedRounds == 0
  {
    CountersAdvance(s, rounds, classify);
  }

  /** The rounds' failed tenants are what the failed-tick counter grew by. */
  lemma {:induction false} FailedTicksFollowTheRun<T>(
    s: Status, worlds: nat -> RoundWorld<T>, rounds: seq<RoundReport<T>>, classify: string -> FailureCode)
    requires RoundsFollow(worlds, rounds)
    ensures RecordedAll(s, rounds, classify).failedTenantTicks == s.failedTenantTicks + FailedTenants(rounds)
  {
    if rounds != [] {
      var n := |rounds| - 1;
      FailedTicksFollowTheRun(s, worlds, rounds[..n], classify);
      if rounds[n].RoundSucceeded? {
        SucceededRoundCountsAgree(worlds(n), rounds[n]);
      }
    }
  }

  lemma RoundTickedEach<T>(world: RoundWorld<T>, round: RoundReport<T>)
    requires RoundFollows(world, round) && round.RoundSucceeded?
    ensures world.discovered.Ok?
    ensures OneTickEach(round.report, TrimAll(world.discovered.value), world.outcomes)
  {
    var ids := TenantIds.ValidatedAllowEmpty(world.discovered.value);
    assert ids.Ok? && Built(world, |ids.value|);
  }

  lemma OneTickEachCountsAgree<T>(
    report: RegistryReport<T>, ids: seq<string>, outcomes: (nat, nat) -> Result<T, string>)
    requires OneTickEach(report, ids, outcomes)
    ensures FailedTicks(report.tenantReports) == LastFailedCount(report.tenantReports)
  {
    forall j | 0 <= j < |ids| ensures OneTickCounted(report.tenantReports[j]) {
      assert report.tenantReports[j] == AfterTick(TenantState(ids[j], 0, 0, None), outcomes(0, j));
    }
    FailedTicksAreFailedTenants(report.tenantReports);
  }

  lemma SucceededRoundCountsAgree<T>(world: RoundWorld<T>, round: RoundReport<T>)
    requires RoundFollows(world, round) && round.RoundSucceeded?
    ensures FailedTicks(round.report.tenantReports) == LastFailedCount(round.report.tenantReports)
  {
    RoundTickedEach(world, round);
    OneTickEachCountsAgree(round.report, TrimAll(world.discovered.value), world.outcomes);
  }

  /** Whatever came before, the last recorded round alone explains the last-round fields: lost with its code, or the
      tenants of the report, with the code of the first tenant whose last tick failed. */
  lemma LastRoundIsExplained<T>(s: Status, rounds: seq<RoundReport<T>>, classify: string -> FailureCode)
    requires rounds != []
    ensures var t := RecordedAll(s, rounds, classify);
            var last := rounds[|rounds| - 1];
            && (t.lastRoundStatus == Some(RoundLost) <==> last.RoundFailed?)
            && (t.lastRoundStatus == Some(RoundOk) <==> last.RoundSucceeded? && t.lastFailureCode == None)
            && (t.lastRoundStatus == Some(RoundDegraded) <==> 0 < t.lastRoundFailedTenantCount)
            && t.lastRoundFailedTenantCount <= t.lastRoundTenantCount
            && (last.RoundFailed? ==>
                  && t.lastRoundTenantCount == 0 && t.lastRoundFailedTenantCount == 0
                  && t.lastFailureCode == Some(classify(last.safeError)))
            && (last.RoundSucceeded? ==>
                  && t.lastRoundTenantCount == |last.report.tenantReports|
                  && t.lastRoundFailedTenantCount == |FailedIndexes(last.report.tenantReports)|
                  && forall i: nat :: FirstFailure(last.report.tenantReports, i) ==>
                       t.lastFailureCode == Some(classify(last.report.tenantReports[i].lastTick.value.safeError)))
  {
    var last := rounds[|rounds| - 1];
    if last.RoundSucceeded? {
      FailedCountExactly(last.report.tenantReports);
      forall i: nat | FirstFailure(last.report.tenantReports, i)
        ensures FirstFailureCode(last.report.tenantReports, classify)
                == Some(classify(last.report.tenantReports[i].lastTick.value.safeError))
      {
        FirstFailureCodeIsTheFirst(last.report.tenantReports, classify, i);
      }
    }
  }

  // ---------------------------------------------------------------- any sequence of status calls

  datatype StatusCall<T> =
    | CallRunning
    | CallRecord(round: RoundReport<T>)
    | CallStopped(report: RunReport<T>)
    | CallFailed(code: FailureCode)

  function MarkedFailed(s: Status, code: FailureCode): Status {
    s.(state := Failed, daemonFailures := s.daemonFailures + 1, lastDaemonFailureCode := Some(code))
  }

  function AppliedCall<T>(s: Status, call: StatusCall<T>, classify: string -> FailureCode): Status {
    match call
    case CallRunning => MarkedRunning(s)
    case CallRecord(round) => Recorded(s, round, classify)
    case CallStopped(report) => MarkedStopped(s, report, classify)
    case CallFailed(code) => MarkedFailed(s, code)
  }

  /** The status `calls` make of a fresh one. */
  function History<T>(enabled: bool, calls: seq<StatusCall<T>>, classify: string -> FailureCode): Status {
    if calls == [] then Fresh(enabled)
    else AppliedCall(History(enabled, calls[..|calls| - 1], classify), calls[|calls| - 1], classify)
  }

  function FailureCount<T>(calls: seq<StatusCall<T>>): nat {
    if calls == [] then 0
    else FailureCount(calls[..|calls| - 1]) + if calls[|calls| - 1].CallFailed? then 1 else 0
  }

  /** Call `i` is the last daemon failure, and the daemon has not been marked running since. */
  ghost predicate StandingFailure<T>(calls: seq<StatusCall<T>>, i: nat) {
    && i < |calls| && calls[i].CallFailed?
    && forall j :: i < j < |calls| ==> !calls[j].CallFailed? && !calls[j].CallRunning?
  }

  lemma StandingAppended<T>(calls: seq<StatusCall<T>>, i: nat)
    requires calls != [] && i < |calls| - 1
    ensures StandingFailure(calls, i)
       <==> StandingFailure(calls[..|calls| - 1], i)
            && !calls[|calls| - 1].CallFailed? && !calls[|calls| - 1].CallRunning?
  {
    var before := calls[..|calls| - 1];
    assert forall j :: 0 <= j < |before| ==> before[j] == calls[j];
  }

  /** Over any sequence of calls: every daemon failure is counted, and the code shown is that of the last failure
      since the daemon was last marked running, if there is one. */
  lemma {:induction false} FailuresAreRemembered<T>(
    enabled: bool, calls: seq<StatusCall<T>>, classify: string -> FailureCode)
    ensures var t := History(enabled, calls, classify);
            && t.enabled == enabled && t.daemonFailures == FailureCount(calls)
            && (forall i: nat :: StandingFailure(calls, i) ==> t.lastDaemonFailureCode == Some(calls[i].code))
            && (t.lastDaemonFailureCode.Some? ==> exists i: nat :: StandingFailure(calls, i))
            && t.state == (if calls == [] then (if enabled then Configured else Disabled)
                           else match calls[|calls| - 1]
                                case CallRunning => Running
                                case CallRecord(_) => Running
                                case CallStopped(_) => Stopped
                                case CallFailed(_) => Failed)
  {
    if calls != [] {
      var before, last := calls[..|calls| - 1], calls[|calls| - 1];
      FailuresAreRemembered(enabled, before, classify);
      var t := History(enabled, calls, classify);
      forall i: nat | StandingFailure(calls, i) ensures t.lastDaemonFailureCode == Some(calls[i].code) {
        if i < |before| {
          StandingAppended(calls, i);
        }
      }
      if last.CallFailed? {
        assert StandingFailure(calls, |before|);
      } else if t.lastDaemonFailureCode.Some? {
        var i: nat :| StandingFailure(before, i);
        StandingAppended(calls, i);
      }
    }
  }

  predicate Describes<T>(call: StatusCall<T>) {
    call.CallRecord? || (call.CallStopped? && call.report.lastRound.Some?)
  }

  /** The daemon was marked running after the last round that was described. */
  predicate RestartedSince<T>(calls: seq<StatusCall<T>>) {
    calls != [] && !Describes(calls[|calls| - 1])
    && (calls[|calls| - 1].CallRunning? || RestartedSince(calls[..|calls| - 1]))
  }

  /** Over any sequence of calls a lost or degraded last round is shown without a failure code exactly when the daemon
      was marked running since: `mark_running` clears the code and keeps the round. */
  lemma {:induction false} RestartForgetsTheCode<T>(
    enabled: bool, calls: seq<StatusCall<T>>, classify: string -> FailureCode)
    ensures var t := History(enabled, calls, classify);
            && (t.lastRoundStatus in {Some(RoundDegraded), Some(RoundLost)} ==>
                  (t.lastFailureCode == None <==> RestartedSince(calls)))
            && (t.lastRoundStatus in {None, Some(RoundOk)} ==> t.lastFailureCode == None)
  {
    if calls != [] {
      RestartForgetsTheCode(enabled, calls[..|calls| - 1], classify);
    }
  }

  // ---------------------------------------------------------------- the status object

  class StatusInner {
    var enabled: bool
    var state: DaemonState
    var successfulRounds: nat
    var failedRounds: nat
    var failedTenantTicks: nat
    var daemonFailures: nat
    var lastRoundStatus: Option<RoundStatus>
    var lastRoundTenantCount: nat
    var lastRoundFailedTenantCount: nat
    var lastFailureCode: Option<FailureCode>
    var lastDaemonFailureCode: Option<FailureCode>
    const classify: string -> FailureCode

    function Snapshot(): Status
      reads this
    {
      Status(enabled, state, successfulRounds, failedRounds, failedTenantTicks, daemonFailures, lastRoundStatus,
             lastRoundTenantCount, lastRoundFailedTenantCount, lastFailureCode, lastDaemonFailureCode)
    }

    constructor (enabled: bool, classify: string -> FailureCode)
      ensures Snapshot() == Fresh(enabled) && this.classify == classify
    {
      this.enabled := enabled;
      state := if enabled then Configured else Disabled;
      successfulRounds, failedRounds, failedTenantTicks, daemonFailures := 0, 0, 0, 0;
      lastRoundStatus, lastRoundTenantCount, lastRoundFailedTenantCount := None, 0, 0;
      lastFailureCode, lastDaemonFailureCode := None, None;
      this.classify := classify;
    }

    method MarkRunning()
      modifies this
      ensures Snapshot() == MarkedRunning(old(Snapshot()))
    {
      state := Running;
      lastFailureCode := None;
      lastDaemonFailureCode := None;
    }

    method SetLastRound<T>(round: RoundReport<T>)
      modifies this
      ensures Snapshot() == WithLastRound(old(Snapshot()), round, classify)
    {
      match round {
        case RoundSucceeded(report) =>
          var failed := LastFailedCount(report.tenantReports);
          lastRoundTenantCount := |report.tenantReports|;
          lastRoundFailedTenantCount := failed;
          if failed == 0 {
            lastRoundStatus := Some(RoundOk);
            lastFailureCode := None;
          } else {
            lastRoundStatus := Some(RoundDegraded);
            lastFailureCode := FirstFailureCode(report.tenantReports, classify);
          }
        case RoundFailed(safeError) =>
          lastRoundTenantCount := 0;
          lastRoundFailedTenantCount := 0;
          lastRoundStatus := Some(RoundLost);
          lastFailureCode := Some(classify(safeError));
      }
    }

    method RecordRound<T>(round: RoundReport<T>)
      modifies this
      ensures Snapshot() == Recorded(old(Snapshot()), round, classify)
    {
      state := Running;
      match round {
        case RoundSucceeded(report) =>
          successfulRounds := successfulRounds + 1;
          failedTenantTicks := failedTenantTicks + FailedTicks(report.tenantReports);
        case RoundFailed(_) =>
          failedRounds := failedRounds + 1;
      }
      SetLastRound(round);
    }

    method MarkStopped<T>(report: RunReport<T>)
      modifies this
      ensures Snapshot() == MarkedStopped(old(Snapshot()), report, classify)
    {
      state := Stopped;
      successfulRounds := report.successfulRounds;
      failedRounds := report.failedRounds;
      if report.lastRound.Some? {
        SetLastRound(report.lastRound.value);
      }
    }

    method MarkDaemonFailed(code: FailureCode)
      modifies this
      ensures Snapshot() == MarkedFailed(old(Snapshot()), code)
    {
      state := Failed;
      daemonFailures := daemonFailures + 1;
      lastDaemonFailureCode := Some(code);
    }
  }

  // ---------------------------------------------------------------- the run loop and the daemon

  /** How many rounds fit before cancellation: two polls each, and one more round if cancellation comes between the
      two and the tick wins. */
  function RoundsBefore(pollsLeft: nat, tickWins: nat -> bool): nat {
    pollsLeft / 2 + if pollsLeft % 2 == 1 && tickWins(pollsLeft / 2) then 1 else 0
  }

  /** Round `k`, shown to the status. */
  method ObserveRound<T>(
    runtime: DiscoveringRuntime<T>, worlds: nat -> RoundWorld<T>, k: nat, status: StatusInner,
    ghost rounds: seq<RoundReport<T>>, ghost start: Status)
    returns (round: RoundReport<T>)
    requires k == |rounds| && RoundsFollow(worlds, rounds)
    requires status.Snapshot() == RecordedAll(start, rounds, status.classify)
    modifies status
    ensures RoundsFollow(worlds, rounds + [round])
    ensures status.Snapshot() == RecordedAll(start, rounds + [round], status.classify)
  {
    round := runtime.RunOnceRound(worlds(k));
    RoundsFollowAppended(worlds, rounds, round);
    RoundAppended(start, rounds, round, status.classify);
    status.RecordRound(round);
  }

  /** The counters of the loop after one more round. */
  method CountRound<T>(before: RunReport<T>, round: RoundReport<T>, ghost rounds: seq<RoundReport<T>>)
    returns (report: RunReport<T>)
    requires before == ReportOf(rounds)
    ensures report == ReportOf(rounds + [round])
  {
    ReportAppended(rounds, round);
    match round {
      case RoundSucceeded(_) => report := before.(successfulRounds := before.successfulRounds + 1);
      case RoundFailed(_) => report := before.(failedRounds := before.failedRounds + 1);
    }
    report := report.(lastRound := Some(round));
  }

  /** When the loop stops, `rounds` fills the polls that were left, the odd one by the choice of the tick. */
  lemma RoundsBeforeIs(pollsLeft: nat, rounds: nat, tickWins: nat -> bool)
    requires 2 * rounds <= pollsLeft + 1
    requires 2 * rounds == pollsLeft + 1 ==> tickWins(rounds - 1)
    requires 2 * rounds < pollsLeft ==> 2 * rounds + 1 == pollsLeft && !tickWins(rounds)
    ensures rounds == RoundsBefore(pollsLeft, tickWins)
  {
  }

  /** Rounds until cancelled, each shown to the status before it is counted.  `worlds(k)` is what the k-th round
      meets; `tickWins(k)` resolves the k-th `select!` when both branches are ready. */
  method RunUntilCancelledWithObserver<T>(
    runtime: DiscoveringRuntime<T>, token: CancellationToken, worlds: nat -> RoundWorld<T>, tickWins: nat -> bool,
    status: StatusInner)
    returns (report: RunReport<T>, ghost rounds: seq<RoundReport<T>>)
    modifies token, status
    ensures report == ReportOf(rounds)
    ensures RoundsFollow(worlds, rounds)
    ensures status.Snapshot() == RecordedAll(old(status.Snapshot()), rounds, status.classify)
    ensures token.polls > token.cancelAt
    ensures |rounds| == RoundsBefore(old(token.PollsLeft()), tickWins)
  {
    report := RunReport(0, 0, None, true);
    rounds := [];
    ghost var start := status.Snapshot();
    while true
      invariant report == ReportOf(rounds)
      invariant RoundsFollow(worlds, rounds)
      invariant status.Snapshot() == RecordedAll(start, rounds, status.classify)
      invariant token.polls == old(token.polls) + 2 * |rounds|
      invariant 2 * |rounds| <= old(token.PollsLeft()) + 1
      invariant 2 * |rounds| == old(token.PollsLeft()) + 1 ==> tickWins(|rounds| - 1)
      decreases if token.cancelAt > token.polls then token.cancelAt - token.polls else 0
    {
      var k := report.successfulRounds + report.failedRounds;
      var ticked := AwaitTick(token, tickWins(k));
      if !ticked {
        break;
      }
      var round := ObserveRound(runtime, worlds, k, status, rounds, start);
      report := CountRound(report, round, rounds);
      rounds := rounds + [round];
    }
    RoundsBeforeIs(old(token.PollsLeft()), |rounds|, tickWins);
  }

  /** The spawned task.  From a status whose round counters are zero, the stopped mirror is the recorded one with
      only the state changed: it counts every round of the run and every failed tenant of its successful rounds. */
  method RunDaemon<T>(
    runtime: DiscoveringRuntime<T>, token: CancellationToken, worlds: nat -> RoundWorld<T>, tickWins: nat -> bool,
    status: StatusInner)
    returns (report: RunReport<T>, ghost rounds: seq<RoundReport<T>>)
    modifies token, status
    ensures RoundsFollow(worlds, rounds)
    ensures report == ReportOf(rounds) && status.state == Stopped
    ensures status.successfulRounds == report.successfulRounds && status.failedRounds == report.failedRounds
    ensures status.successfulRounds + status.failedRounds == |rounds| == RoundsBefore(old(token.PollsLeft()), tickWins)
    ensures status.failedTenantTicks == old(status.failedTenantTicks) + FailedTenants(rounds)
    ensures old(status.successfulRounds) == 0 && old(status.failedRounds) == 0 ==>
              status.Snapshot()
              == RecordedAll(MarkedRunning(old(status.Snapshot())), rounds, status.classify).(state := Stopped)
  {
    status.MarkRunning();
    ghost var s := status.Snapshot();
    report, rounds := RunUntilCancelledWithObserver(runtime, token, worlds, tickWins, status);
    FailedTicksFollowTheRun(s, worlds, rounds, status.classify);
    StoppingChangesOnlyTheState(s, rounds, status.classify);
    status.MarkStopped(report);
  }
}

/** The tenant maintenance runtime: the registry's round loop under cancellation, and the discovering loop around
    it.  Ticks, discovery and the tick factory are arbitrary; cancellation may come at any poll and then stays. */
module TenantRuntime {
  import opened Wrappers
  import opened Text
  import opened TenantIds

  datatype TickReport<T> = TickSucceeded(report: T) | TickFailed(safeError: string)

  datatype TenantState<T> = TenantState(
    tenantId: string, successfulTicks: nat, failedTicks: nat, lastTick: Option<TickReport<T>>)

  datatype RegistryReport<T> = RegistryReport(
    tenantReports: seq<TenantState<T>>, completedRounds: nat, cancelled: bool)

  datatype RegistryError =
    | ZeroTickInterval
    | InvalidTenants(error: TenantIdError)

  /** Each poll takes the next number; from `cancelAt` on the answer is yes. */
  class CancellationToken {
    const cancelAt: nat
    var polls: nat

    constructor (cancelAt: nat)
      ensures this.cancelAt == cancelAt && polls == 0
    {
      this.cancelAt := cancelAt;
      polls := 0;
    }

    /** How many more polls answer no. */
    function PollsLeft(): nat
      reads this
    {
      if cancelAt > polls then cancelAt - polls else 0
    }

    method IsCancelled() returns (yes: bool)
      modifies this
      ensures polls == old(polls) + 1 && (yes <==> old(polls) >= cancelAt)
    {
      yes := polls >= cancelAt;
      polls := polls + 1;
    }
  }

  /** The head of both run loops: the cancellation check, then the `select!` between cancellation and the next tick.
      `tickWins` resolves the `select!` when both are ready. */
  method AwaitTick(token: CancellationToken, tickWins: bool) returns (ticked: bool)
    modifies token
    ensures ticked <==> old(token.PollsLeft()) >= 2 || (old(token.PollsLeft()) == 1 && tickWins)
    ensures ticked ==> token.polls == old(token.polls) + 2
    ensures !ticked ==> token.polls > token.cancelAt
  {
    var cancelled := token.IsCancelled();
    if cancelled {
      return false;
    }
    var cancelledNow := token.IsCancelled();
    ticked := !cancelledNow || tickWins;
  }

  // ---------------------------------------------------------------- one tenant's ticks

  function NewTenant<T>(tenantId: string): TenantState<T> {
    TenantState(Canonical(tenantId), 0, 0, None)
  }

  function AfterTick<T>(t: TenantState<T>, outcome: Result<T, string>): TenantState<T> {
    match outcome
    case Ok(report) => t.(successfulTicks := t.successfulTicks + 1, lastTick := Some(TickSucceeded(report)))
    case Err(safeError) => t.(failedTicks := t.failedTicks + 1, lastTick := Some(TickFailed(safeError)))
  }

  /** Tenant number `j` after its first `n` ticks; `outcomes(round, j)` is what its tick answers in a round. */
  function AfterTicks<T>(t: TenantState<T>, outcomes: (nat, nat) -> Result<T, string>, j: nat, n: nat): TenantState<T> {
    if n == 0 then t else AfterTick(AfterTicks(t, outcomes, j, n - 1), outcomes(n - 1, j))
  }

  function CountOk<T>(outcomes: (nat, nat) -> Result<T, string>, j: nat, n: nat): nat {
    if n == 0 then 0 else CountOk(outcomes, j, n - 1) + if outcomes(n - 1, j).Ok? then 1 else 0
  }

  /** `n` ticks are counted exactly once each, as what they answered, and the last answer is kept. */
  lemma {:induction false} TicksAreCounted<T>(
    t: TenantState<T>, outcomes: (nat, nat) -> Result<T, string>, j: nat, n: nat)
    ensures var u := AfterTicks(t, outcomes, j, n);
            && u.tenantId == t.tenantId
            && u.successfulTicks == t.successfulTicks + CountOk(outcomes, j, n)
            && u.successfulTicks + u.failedTicks == t.successfulTicks + t.failedTicks + n
            && (n > 0 ==> u.lastTick == Some(match outcomes(n - 1, j)
                                            case Ok(report) => TickSucceeded(report)
                                            case Err(safeError) => TickFailed(safeError)))
  {
    if n > 0 {
      TicksAreCounted(t, outcomes, j, n - 1);
    }
  }

  /** The first `extra` tenants have had `n + 1` ticks since `start`, the others `n`. */
  ghost predicate Ticked<T>(
    start: seq<TenantState<T>>, now: seq<TenantState<T>>, outcomes: (nat, nat) -> Result<T, string>, n: nat, extra: nat)
  {
    && |now| == |start|
    && forall j :: 0 <= j < |now| ==> now[j] == AfterTicks(start[j], outcomes, j, n + if j < extra then 1 else 0)
  }

  lemma TickedIsCounted<T>(
    start: seq<TenantState<T>>, now: seq<TenantState<T>>, outcomes: (nat, nat) -> Result<T, string>, n: nat, extra: nat)
    requires Ticked(start, now, outcomes, n, extra)
    ensures forall j :: 0 <= j < |now| ==>
              && now[j].tenantId == start[j].tenantId
              && now[j].successfulTicks + now[j].failedTicks
                 == start[j].successfulTicks + start[j].failedTicks + n + if j < extra then 1 else 0
  {
    forall j | 0 <= j < |now|
      ensures now[j].tenantId == start[j].tenantId
      ensures now[j].successfulTicks + now[j].failedTicks
              == start[j].successfulTicks + start[j].failedTicks + n + if j < extra then 1 else 0
    {
      TicksAreCounted(start[j], outcomes, j, n + if j < extra then 1 else 0);
    }
  }

  lemma RoundAdvances<T>(
    start: seq<TenantState<T>>, before: seq<TenantState<T>>, now: seq<TenantState<T>>,
    outcomes: (nat, nat) -> Result<T, string>, n: nat, extra: nat)
    requires Ticked(start, before, outcomes, n, 0) && |now| == |before|
    requires forall j :: 0 <= j < |now| ==>
               now[j] == if j < extra then AfterTick(before[j], outcomes(n, j)) else before[j]
    ensures Ticked(start, now, outcomes, n, extra)
  {
    forall j | 0 <= j < |now|
      ensures now[j] == AfterTicks(start[j], outcomes, j, n + if j < extra then 1 else 0)
    {
      assert before[j] == AfterTicks(start[j], outcomes, j, n);
    }
  }

  lemma WholeRound<T>(
    start: seq<TenantState<T>>, now: seq<TenantState<T>>, outcomes: (nat, nat) -> Result<T, string>, n: nat)
    requires Ticked(start, now, outcomes, n, |now|)
    ensures Ticked(start, now, outcomes, n + 1, 0)
  {
    forall j | 0 <= j < |now| ensures now[j] == AfterTicks(start[j], outcomes, j, n + 1) {
      assert now[j] == AfterTicks(start[j], outcomes, j, n + if j < |now| then 1 else 0);
    }
  }

  function Min(a: nat, b: nat): nat {
    if a < b then a else b
  }

  /** A round of `tenants` tenants polls twice before its ticks and once before each of them. */
  function RoundsWithin(pollsLeft: nat, tenants: nat): nat {
    pollsLeft / (tenants + 2)
  }

  /** The ticks of the round that cancellation cut short. */
  function TicksWithin(pollsLeft: nat, tenants: nat): nat {
    var rest := pollsLeft % (tenants + 2);
    if rest >= 2 then rest - 2 else 0
  }

  /** The polls of `rounds` whole rounds. */
  function PollsOf(rounds: nat, per: nat): nat {
    if rounds == 0 then 0 else PollsOf(rounds - 1, per) + per
  }

  lemma {:induction false} PollsOfIs(rounds: nat, per: nat)
    ensures PollsOf(rounds, per) == rounds * per
  {
    if rounds > 0 {
      PollsOfIs(rounds - 1, per);
    }
  }

  lemma TimesMonotone(a: nat, b: nat, per: nat)
    ensures a <= b ==> a * per <= b * per
  {
  }

  lemma QuotientIs(left: nat, per: nat, rounds: nat, rest: nat)
    requires rest < per && left == PollsOf(rounds, per) + rest
    ensures left / per == rounds && left % per == rest
  {
    PollsOfIs(rounds, per);
    var q := left / per;
    assert q * per + left % per == left;
    TimesMonotone(q + 1, rounds, per);
    TimesMonotone(rounds + 1, q, per);
  }

  // ---------------------------------------------------------------- the registry

  class Registry<T> {
    var tenants: seq<TenantState<T>>

    constructor (tenantIds: seq<string>)
      ensures |tenants| == |tenantIds|
      ensures forall j :: 0 <= j < |tenants| ==> tenants[j] == NewTenant(tenantIds[j])
    {
      tenants := seq(|tenantIds|, j requires 0 <= j < |tenantIds| => NewTenant(tenantIds[j]));
    }

    /** One tick per tenant in registry order; with a token, it is polled before each tick and a yes ends the round.
        `ticked` tenants had their tick, the others are untouched. */
    method RunRound(token: CancellationToken?, round: nat, outcomes: (nat, nat) -> Result<T, string>)
      returns (completed: bool, ghost ticked: nat)
      modifies this, token
      ensures |tenants| == |old(tenants)| && ticked <= |tenants|
      ensures completed <==> ticked == |tenants|
      ensures token == null ==> completed
      ensures token != null ==> token.polls == old(token.polls) + ticked + (if completed then 0 else 1)
      ensures token != null ==> ticked == Min(|tenants|, old(token.PollsLeft()))
      ensures !completed ==> token != null && token.polls > token.cancelAt
      ensures forall j :: 0 <= j < |tenants| ==>
                tenants[j] == if j < ticked then AfterTick(old(tenants)[j], outcomes(round, j)) else old(tenants)[j]
    {
      ticked := 0;
      var i := 0;
      while i < |tenants|
        invariant 0 <= i <= |tenants| == |old(tenants)| && ticked == i
        invariant token != null ==> token.polls == old(token.polls) + i && i <= old(token.PollsLeft())
        invariant forall j :: 0 <= j < |tenants| ==>
                    tenants[j] == if j < i then AfterTick(old(tenants)[j], outcomes(round, j)) else old(tenants)[j]
      {
        if token != null {
          var cancelled := token.IsCancelled();
          if cancelled {
            return false, ticked;
          }
        }
        match outcomes(round, i) {
          case Ok(report) =>
            tenants := tenants[i := tenants[i].(successfulTicks := tenants[i].successfulTicks + 1,
                                                lastTick := Some(TickSucceeded(report)))];
          case Err(safeError) =>
            tenants := tenants[i := tenants[i].(failedTicks := tenants[i].failedTicks + 1,
                                                lastTick := Some(TickFailed(safeError)))];
        }
        i := i + 1;
        ticked := i;
      }
      completed := true;
    }

    function Snapshot(completedRounds: nat, cancelled: bool): RegistryReport<T>
      reads this
    {
      RegistryReport(tenants, completedRounds, cancelled)
    }

    method RunOnceRound(outcomes: (nat, nat) -> Result<T, string>) returns (report: RegistryReport<T>)
      modifies this
      ensures report == RegistryReport(tenants, 1, false) && |tenants| == |old(tenants)|
      ensures forall j :: 0 <= j < |tenants| ==> tenants[j] == AfterTick(old(tenants)[j], outcomes(0, j))
    {
      var _, _ := RunRound(null, 0, outcomes);
      report := Snapshot(1, false);
    }

    /** Rounds until cancelled.  `tickWins(n)` resolves the n-th `select!` when both branches are ready.  When it
        returns, with `n` completed rounds, the first `extra` tenants have ticked n+1 times and all others n times,
        and `extra` never reaches the last tenant. */
    method RunUntilCancelled(token: CancellationToken, outcomes: (nat, nat) -> Result<T, string>, tickWins: nat -> bool)
      returns (report: RegistryReport<T>, ghost extra: nat)
      requires tenants != []
      modifies this, token
      ensures report.cancelled && report.tenantReports == tenants && |tenants| == |old(tenants)|
      ensures extra < |tenants|
      ensures report.completedRounds == RoundsWithin(old(token.PollsLeft()), |tenants|)
      ensures extra == TicksWithin(old(token.PollsLeft()), |tenants|)
      ensures Ticked(old(tenants), tenants, outcomes, report.completedRounds, extra)
      ensures forall j :: 0 <= j < |tenants| ==>
                && tenants[j].tenantId == old(tenants)[j].tenantId
                && tenants[j].successfulTicks + tenants[j].failedTicks
                   == old(tenants)[j].successfulTicks + old(tenants)[j].failedTicks
                      + report.completedRounds + if j < extra then 1 else 0
      ensures token.polls > token.cancelAt
    {
      var completedRounds := 0;
      extra := 0;
      ghost var left, per, rest := token.PollsLeft(), |tenants| + 2, 0;
      while true
        invariant extra == 0 && |tenants| == |old(tenants)|
        invariant Ticked(old(tenants), tenants, outcomes, completedRounds, 0)
        invariant token.PollsLeft() + PollsOf(completedRounds, per) == left
        decreases if token.cancelAt > token.polls then token.cancelAt - token.polls else 0
      {
        rest := token.PollsLeft();
        var ticked := AwaitTick(token, tickWins(completedRounds));
        if !ticked {
          break;
        }
        ghost var before := tenants;
        var completed;
        completed, extra := RunRound(token, completedRounds, outcomes);
        RoundAdvances(old(tenants), before, tenants, outcomes, completedRounds, extra);
        if completed {
          WholeRound(old(tenants), tenants, outcomes, completedRounds);
          completedRounds := completedRounds + 1;
          extra := 0;
        } else {
          break;
        }
      }
      QuotientIs(left, per, completedRounds, rest);
      TickedIsCounted(old(tenants), tenants, outcomes, completedRounds, extra);
      report := Snapshot(completedRounds, true);
    }
  }

  /** `try_new`: the interval, then the ids. */
  method TryNewRegistry<T>(intervalMs: nat, tenantIds: seq<string>) returns (r: Result<Registry<T>, RegistryError>)
    ensures r.Ok? <==> intervalMs > 0 && Validated(tenantIds).Ok?
    ensures intervalMs == 0 ==> r == Err(ZeroTickInterval)
    ensures intervalMs > 0 && Validated(tenantIds).Err? ==> r == Err(InvalidTenants(Validated(tenantIds).error))
    ensures r.Ok? ==> fresh(r.value) && |r.value.tenants| == |tenantIds|
                      && forall j :: 0 <= j < |tenantIds| ==> r.value.tenants[j] == NewTenant(tenantIds[j])
  {
    if intervalMs == 0 {
      return Err(ZeroTickInterval);
    }
    var valid := ValidateTenantIds(tenantIds);
    if valid.Err? {
      return Err(InvalidTenants(valid.error));
    }
    var registry := new Registry<T>(tenantIds);
    r := Ok(registry);
  }

  // ---------------------------------------------------------------- the discovering runtime

  datatype RoundReport<T> = RoundSucceeded(report: RegistryReport<T>) | RoundFailed(safeError: string)

  datatype RunReport<T> = RunReport(
    successfulRounds: nat, failedRounds: nat, lastRound: Option<RoundReport<T>>, cancelled: bool)

  /** What discovery, the factory and the ticks answer in one round. */
  datatype RoundWorld<!T> = RoundWorld(
    discovered: Result<seq<string>, string>,
    build: nat -> Result<(), string>,
    outcomes: (nat, nat) -> Result<T, string>)

  function SafeError(e: TenantIdError): string {
    match e
    case EmptyRegistry => "tenant_maintenance_discovery_invalid: empty_registry"
    case EmptyTenantId => "tenant_maintenance_discovery_invalid: empty_tenant_id"
    case DuplicateTenantId(_) => "tenant_maintenance_discovery_invalid: duplicate_tenant_id"
  }

  function RegistrySafeError(e: RegistryError): string {
    match e
    case ZeroTickInterval => "tenant_maintenance_runtime_config_invalid: zero_tick_interval"
    case InvalidTenants(EmptyRegistry) => "tenant_maintenance_registry_invalid: empty_registry"
    case InvalidTenants(EmptyTenantId) => "tenant_maintenance_registry_invalid: empty_tenant_id"
    case InvalidTenants(DuplicateTenantId(_)) => "tenant_maintenance_registry_invalid: duplicate_tenant_id"
  }

  /** The factory answered without error for the first `n` tenants. */
  ghost predicate Built<T>(world: RoundWorld<T>, n: nat) {
    forall i: nat :: i < n ==> world.build(i).Ok?
  }

  /** The factory's error for the first of `n` tenants it refuses. */
  ghost predicate FirstRefusal<T>(world: RoundWorld<T>, n: nat, error: string) {
    exists i: nat :: i < n && Built(world, i) && world.build(i) == Err(error)
  }

  /** A report in which every tenant of `ids`, in order, has had exactly the tick of this round. */
  ghost predicate OneTickEach<T>(
    report: RegistryReport<T>, ids: seq<string>, outcomes: (nat, nat) -> Result<T, string>)
  {
    && report.completedRounds == 1 && !report.cancelled
    && |report.tenantReports| == |ids|
    && forall j :: 0 <= j < |ids| ==>
         report.tenantReports[j] == AfterTick(TenantState(ids[j], 0, 0, None), outcomes(0, j))
  }

  /** What a round's answer must be: the discovery error, the validation error, the first factory error, or a report
      with one tick for each canonical id in discovery order. */
  ghost predicate RoundFollows<T>(world: RoundWorld<T>, round: RoundReport<T>) {
    && (world.discovered.Err? ==> round == RoundFailed(world.discovered.error))
    && (world.discovered.Ok? ==>
          var ids := ValidatedAllowEmpty(world.discovered.value);
          && (ids.Err? ==>
                round == RoundFailed(SafeError(ids.error)))
          && (ids.Ok? && Built(world, |ids.value|) ==>
                round.RoundSucceeded? && OneTickEach(round.report, TrimAll(world.discovered.value), world.outcomes))
          && (ids.Ok? && !Built(world, |ids.value|) ==>
                round.RoundFailed? && FirstRefusal(world, |ids.value|, round.safeError)))
  }

  /** What a round says when discovery returned ids that do not validate: never the id itself. */
  lemma InvalidDiscoveryIsNamed<T>(world: RoundWorld<T>, round: RoundReport<T>, e: TenantIdError)
    requires RoundFollows(world, round) && world.discovered.Ok?
    requires ValidatedAllowEmpty(world.discovered.value) == Err(e)
    ensures e.EmptyTenantId? ==> round == RoundFailed("tenant_maintenance_discovery_invalid: empty_tenant_id")
    ensures e.DuplicateTenantId? ==> round == RoundFailed("tenant_maintenance_discovery_invalid: duplicate_tenant_id")
  {
    assert round == RoundFailed(SafeError(e));
  }

  type TickInterval = ms: nat | ms > 0 witness 1

  method TryNewDiscoveringRuntime<T>(intervalMs: nat) returns (r: Result<DiscoveringRuntime<T>, RegistryError>)
    ensures r.Ok? <==> intervalMs > 0
    ensures r.Ok? ==> fresh(r.value) && r.value.intervalMs == intervalMs
    ensures r.Err? ==> r.error == ZeroTickInterval
  {
    if intervalMs == 0 {
      return Err(ZeroTickInterval);
    }
    var runtime := new DiscoveringRuntime<T>(intervalMs);
    r := Ok(runtime);
  }

  class DiscoveringRuntime<T> {
    const intervalMs: TickInterval

    constructor (intervalMs: TickInterval)
      ensures this.intervalMs == intervalMs
    {
      this.intervalMs := intervalMs;
    }

    /** One tick from the factory per id, until the factory refuses one. */
    method BuildTicks(world: RoundWorld<T>, tenantIds: seq<string>) returns (r: Result<seq<string>, string>)
      ensures r.Ok? <==> Built(world, |tenantIds|)
      ensures r.Ok? ==> r.value == tenantIds
      ensures r.Err? ==> FirstRefusal(world, |tenantIds|, r.error)
    {
      var ticks: seq<string> := [];
      for i := 0 to |tenantIds|
        invariant ticks == tenantIds[..i] && Built(world, i)
      {
        var built := world.build(i);
        if built.Err? {
          return Err(built.error);
        }
        ticks := ticks + [tenantIds[i]];
      }
      r := Ok(ticks);
    }

    /** A fresh registry over the built ticks runs one round; ids that pass validation unchanged cannot fail here. */
    method RunBuiltTicks(world: RoundWorld<T>, ticks: seq<string>) returns (round: RoundReport<T>)
      ensures ticks != [] && Validated(ticks).Err? ==>
                round == RoundFailed(RegistrySafeError(InvalidTenants(Validated(ticks).error)))
      ensures ticks == [] || Validated(ticks).Ok? ==>
                round.RoundSucceeded? && OneTickEach(round.report, TrimAll(ticks), world.outcomes)
    {
      if ticks == [] {
        return RoundSucceeded(RegistryReport([], 1, false));
      }
      var registry := TryNewRegistry<T>(intervalMs, ticks);
      if registry.Err? {
        return RoundFailed(RegistrySafeError(registry.error));
      }
      var report := registry.value.RunOnceRound(world.outcomes);
      round := RoundSucceeded(report);
    }

    /** One round.  Once discovery, validation and the factory succeed nothing later can fail: registry construction
        re-validates the canonical ids and always accepts them. */
    method RunOnceRound(world: RoundWorld<T>) returns (round: RoundReport<T>)
      ensures RoundFollows(world, round)
    {
      if world.discovered.Err? {
        return RoundFailed(world.discovered.error);
      }
      var valid := ValidateTenantIdsAllowEmpty(world.discovered.value);
      if valid.Err? {
        return RoundFailed(SafeError(valid.error));
      }
      AllowEmptyIsStable(world.discovered.value);
      var ticks := BuildTicks(world, valid.value);
      if ticks.Err? {
        return RoundFailed(ticks.error);
      }
      round := RunBuiltTicks(world, ticks.value);
    }
  }
}

/** What the execution protocol promises over whole runs: at most one execution, the trace language, and when the
    ledger and the audit trace tell the same story. */
module ExecutionTheorems {
  import opened Wrappers
  import opened OperationLedgers
  import opened AuditLog
  import opened ExecutionProtocol

  // ---------------------------------------------------------------- unconditional results

  /** Over every run, the adapter executes at most one action per trace id. */
  lemma AtMostOncePerTrace(moves: seq<Move>, t: string)
    ensures ExecutedIn(Exec(INITIAL, moves).executed, t) <= 1
  {
    ReachableInv(moves);
    assert ExecutedOk(Exec(INITIAL, moves), t);
  }

  /** At every point of every run, a trace is numbered 1..k and spells a prefix of
      Confirmed-DryRun-Succeeded, a prefix of Confirmed-DryRun-Failed, or exactly Denied. */
  lemma TraceLanguage(moves: seq<Move>, t: string)
    ensures var es := EventsOf(Exec(INITIAL, moves).audit, t);
            Numbered(es, t) && Language(Types(es)) && SortedBySequence(es)
  {
    ReachableInv(moves);
    assert TraceOk(Exec(INITIAL, moves).audit, t);
  }

  /** The audit log only grows, and a refused append adds nothing. */
  lemma StepGrows(s: System, m: Move)
    ensures s.audit <= Step(s, m).audit && s.executed <= Step(s, m).executed
  {
  }

  /** A call that reports its own execution executed exactly once, and its report is the whole stored trace. */
  lemma ReportIsTheTrace(moves: seq<Move>, id: nat)
    requires id in Exec(INITIAL, moves).calls && ReportsExecution(Exec(INITIAL, moves).calls[id].phase)
    ensures var s := Exec(INITIAL, moves);
            var t := TraceId(s.calls[id].action);
            && s.calls[id].phase.result.value.events == EventsOf(s.audit, t)
            && |EventsOf(s.audit, t)| == 3
            && ExecutedIn(s.executed, t) == 1
  {
    ReachableInv(moves);
    assert CallOk(Exec(INITIAL, moves), Exec(INITIAL, moves).calls[id]);
  }

  // ---------------------------------------------------------------- runs over a set of actions

  ghost predicate MovesOver(actions: set<ConfirmedAction>, moves: seq<Move>) {
    forall i :: 0 <= i < |moves| ==> moves[i].Advance? || moves[i].action in actions
  }

  ghost predicate DrawnFrom(actions: set<ConfirmedAction>, s: System) {
    && (forall id :: id in s.calls ==> s.calls[id].action in actions)
    && (forall i :: 0 <= i < |s.executed| ==> s.executed[i] in actions && s.executed[i].status == Confirmed)
  }

  lemma ExecutesConfirmed(s: System, id: nat)
    requires Inv(s) && id in s.calls && s.calls[id].phase.CallExecute?
    ensures s.calls[id].action.status == Confirmed
  {
    assert CallOk(s, s.calls[id]);
  }

  lemma StepDrawnFrom(actions: set<ConfirmedAction>, s: System, m: Move)
    requires DrawnFrom(actions, s) && (m.Advance? || m.action in actions)
    requires m.id in s.calls && s.calls[m.id].phase.CallExecute? ==> s.calls[m.id].action.status == Confirmed
    ensures DrawnFrom(actions, Step(s, m))
  {
  }

  lemma {:induction false} RunDrawnFrom(actions: set<ConfirmedAction>, moves: seq<Move>)
    requires MovesOver(actions, moves)
    ensures DrawnFrom(actions, Exec(INITIAL, moves))
  {
    if moves != [] {
      var before := moves[..|moves| - 1];
      RunDrawnFrom(actions, before);
      ReachableInv(before);
      var s, m := Exec(INITIAL, before), moves[|moves| - 1];
      if m.id in s.calls && s.calls[m.id].phase.CallExecute? {
        ExecutesConfirmed(s, m.id);
      }
      StepDrawnFrom(actions, s, m);
    }
  }

  /** How often the adapter was asked to execute an action with this idempotency key. */
  function ExecutedForKey(calls: seq<ConfirmedAction>, key: string): nat {
    if calls == [] then 0
    else ExecutedForKey(calls[..|calls| - 1], key) + if calls[|calls| - 1].idempotencyKey == key then 1 else 0
  }

  /** Among the confirmed actions, equal keys mean equal tenants. */
  ghost predicate KeyDeterminesTenant(actions: set<ConfirmedAction>) {
    forall a, b :: a in actions && b in actions && a.status == Confirmed && b.status == Confirmed
                   && a.idempotencyKey == b.idempotencyKey
                   ==> a.tenantId == b.tenantId
  }

  lemma {:induction false} KeyCountWithinTrace(calls: seq<ConfirmedAction>, key: string, t: string)
    requires forall i :: 0 <= i < |calls| && calls[i].idempotencyKey == key ==> TraceId(calls[i]) == t
    ensures ExecutedForKey(calls, key) <= ExecutedIn(calls, t)
  {
    if calls != [] {
      KeyCountWithinTrace(calls[..|calls| - 1], key, t);
    }
  }

  lemma {:induction false} KeyCountPositive(calls: seq<ConfirmedAction>, key: string)
    requires ExecutedForKey(calls, key) > 0
    ensures exists i :: 0 <= i < |calls| && calls[i].idempotencyKey == key
  {
    var last := calls[|calls| - 1];
    if last.idempotencyKey != key {
      KeyCountPositive(calls[..|calls| - 1], key);
      var i :| 0 <= i < |calls| - 1 && calls[..|calls| - 1][i].idempotencyKey == key;
      assert calls[i].idempotencyKey == key;
    }
  }

  lemma AtMostOncePerKey(actions: set<ConfirmedAction>, moves: seq<Move>, key: string)
    requires MovesOver(actions, moves) && KeyDeterminesTenant(actions)
    ensures ExecutedForKey(Exec(INITIAL, moves).executed, key) <= 1
  {
    var executed := Exec(INITIAL, moves).executed;
    RunDrawnFrom(actions, moves);
    if ExecutedForKey(executed, key) > 0 {
      KeyCountPositive(executed, key);
      var i :| 0 <= i < |executed| && executed[i].idempotencyKey == key;
      var t := TraceId(executed[i]);
      KeyCountWithinTrace(executed, key, t);
      AtMostOncePerTrace(moves, t);
    }
  }

  // ---------------------------------------------------------------- building runs

  /** Some call id is always free. */
  lemma {:induction false} UnusedId(ids: set<nat>) returns (id: nat)
    ensures forall i :: i in ids ==> i < id
    decreases |ids|
  {
    if ids == {} {
      id := 0;
    } else {
      var i: nat :| i in ids;
      var above := UnusedId(ids - {i});
      id := if above > i then above else i + 1;
      assert forall x :: x in ids ==> x == i || x in ids - {i};
    }
  }

  /** The adapter answers without error. */
  const ANSWERS_OK :=
    World(0, Ok(AdapterDryRun(None, None)), Ok(AdapterExecution("", None, None)))

  function At(moves: seq<Move>): System {
    Exec(INITIAL, moves)
  }

  function Next(moves: seq<Move>, id: nat): seq<Move> {
    moves + [Advance(id, ANSWERS_OK)]
  }

  /** `n` differs from `s` only in what call `id` did for `a`: its own call, trace and record. */
  ghost predicate OnlyActed(s: System, n: System, id: nat, a: ConfirmedAction) {
    && n.calls.Keys == s.calls.Keys + {id} && n.calls[id].action == a
    && (forall i :: i in s.calls && i != id ==> n.calls[i] == s.calls[i])
    && (forall t :: t != TraceId(a) ==> EventsOf(n.audit, t) == EventsOf(s.audit, t))
    && (forall key :: key != a.idempotencyKey ==> (key in n.ledger.records <==> key in s.ledger.records))
  }

  lemma OnlyActedTransitive(s: System, m: System, n: System, id: nat, a: ConfirmedAction)
    requires OnlyActed(s, m, id, a) && OnlyActed(m, n, id, a)
    ensures OnlyActed(s, n, id, a)
  {
  }

  predicate HasStatus(l: Ledger, key: string, status: ActionStatus) {
    key in l.records && l.records[key].status == status
  }

  lemma BeginCall(moves: seq<Move>, id: nat, a: ConfirmedAction) returns (next: seq<Move>)
    requires id !in At(moves).calls && a.status == Confirmed
    requires a.idempotencyKey in At(moves).ledger.records ==> HasStatus(At(moves).ledger, a.idempotencyKey, Confirmed)
    ensures next == Next(moves + [Begin(id, a)], id)
    ensures OnlyActed(At(moves), At(next), id, a)
    ensures At(next).executed == At(moves).executed && At(next).audit == At(moves).audit
    ensures At(next).calls[id].phase == RecordConfirmed && HasStatus(At(next).ledger, a.idempotencyKey, Confirmed)
  {
    ExecSnoc(INITIAL, moves, Begin(id, a));
    ExecSnoc(INITIAL, moves + [Begin(id, a)], Advance(id, ANSWERS_OK));
    next := Next(moves + [Begin(id, a)], id);
  }

  /** A `record_*` step on a trace that is still short enough stores its event. */
  lemma RecordStep(moves: seq<Move>, id: nat) returns (next: seq<Move>)
    requires id in At(moves).calls
    requires var c := At(moves).calls[id];
             || (c.phase.RecordConfirmed? && EventsOf(At(moves).audit, TraceId(c.action)) == [])
             || c.phase.RecordDryRun? || c.phase.RecordSucceeded?
    ensures next == Next(moves, id) && OnlyActed(At(moves), At(next), id, At(moves).calls[id].action)
    ensures At(next).executed == At(moves).executed && At(next).ledger == At(moves).ledger
    ensures match At(moves).calls[id].phase
            case RecordConfirmed => At(next).calls[id].phase == CallDryRun
            case RecordDryRun(_) => At(next).calls[id].phase == MarkExecuting
            case _ => At(next).calls[id].phase.Finished?
                      && Types(EventsOf(At(next).audit, TraceId(At(next).calls[id].action)))
                         == [ConfirmedActionRecorded, DryRunExecuted, ExecutionSucceeded]
  {
    var s := At(moves);
    var c := s.calls[id];
    var t := TraceId(c.action);
    next := Next(moves, id);
    ExecSnoc(INITIAL, moves, Advance(id, ANSWERS_OK));
    var n := At(next);
    ReachableInv(moves);
    assert CallOk(s, c);
    assert |Types(EventsOf(s.audit, t))| == |EventsOf(s.audit, t)|;
    TakenExactly(s.audit, t, c.nextSequence);
    var e := n.audit[|s.audit|];
    forall u ensures EventsOf(n.audit, u) == if u == t then EventsOf(s.audit, t) + [e] else EventsOf(s.audit, u) {
      EventsOfAppend(s.audit, e, u);
    }
    assert Types(EventsOf(n.audit, t)) == Types(EventsOf(s.audit, t)) + [e.eventType];
  }

  /** The steps that do not append: dry run, ledger marks and the adapter call. */
  lemma OtherStep(moves: seq<Move>, id: nat) returns (next: seq<Move>)
    requires id in At(moves).calls
    requires var c := At(moves).calls[id];
             var l, key := At(moves).ledger, c.action.idempotencyKey;
             || c.phase.CallDryRun? || c.phase.CallExecute?
             || (c.phase.MarkExecuting? && (HasStatus(l, key, Confirmed) || HasStatus(l, key, Executing)))
             || (c.phase.MarkSucceeded? && HasStatus(l, key, Executing))
    ensures next == Next(moves, id) && OnlyActed(At(moves), At(next), id, At(moves).calls[id].action)
    ensures At(next).audit == At(moves).audit
    ensures var c := At(moves).calls[id];
            var s, n, key := At(moves), At(next), c.action.idempotencyKey;
            match c.phase
            case CallDryRun => n.calls[id].phase.RecordDryRun? && n.ledger == s.ledger && n.executed == s.executed
            case MarkExecuting =>
              n.calls[id].phase.CallExecute? && HasStatus(n.ledger, key, Executing) && n.executed == s.executed
            case CallExecute =>
              n.calls[id].phase.MarkSucceeded? && n.ledger == s.ledger && n.executed == s.executed + [c.action]
            case _ =>
              n.calls[id].phase.RecordSucceeded? && HasStatus(n.ledger, key, Succeeded) && n.executed == s.executed
  {
    next := Next(moves, id);
    ExecSnoc(INITIAL, moves, Advance(id, ANSWERS_OK));
  }

  /** A call with a free trace and a fresh or Confirmed record wins event 1. */
  lemma ReachDryRun(moves: seq<Move>, id: nat, a: ConfirmedAction) returns (next: seq<Move>)
    requires id !in At(moves).calls && a.status == Confirmed && EventsOf(At(moves).audit, TraceId(a)) == []
    requires a.idempotencyKey in At(moves).ledger.records ==> HasStatus(At(moves).ledger, a.idempotencyKey, Confirmed)
    ensures next == Next(Next(moves + [Begin(id, a)], id), id)
    ensures OnlyActed(At(moves), At(next), id, a) && At(next).executed == At(moves).executed
    ensures At(next).calls[id].phase == CallDryRun && HasStatus(At(next).ledger, a.idempotencyKey, Confirmed)
  {
    var m1 := BeginCall(moves, id, a);
    next := RecordStep(m1, id);
    OnlyActedTransitive(At(moves), At(m1), At(next), id, a);
  }

  /** Two more steps take it to `mark_executing`. */
  lemma DryRunTwoSteps(moves: seq<Move>, id: nat, a: ConfirmedAction) returns (next: seq<Move>)
    requires id in At(moves).calls && At(moves).calls[id].action == a && At(moves).calls[id].phase == CallDryRun
    requires HasStatus(At(moves).ledger, a.idempotencyKey, Confirmed)
    ensures next == Next(Next(moves, id), id)
    ensures OnlyActed(At(moves), At(next), id, a) && At(next).executed == At(moves).executed
    ensures At(next).calls[id].phase == MarkExecuting && HasStatus(At(next).ledger, a.idempotencyKey, Confirmed)
  {
    var m1 := OtherStep(moves, id);
    next := RecordStep(m1, id);
    OnlyActedTransitive(At(moves), At(m1), At(next), id, a);
  }

  lemma ReachMarkExecuting(actions: set<ConfirmedAction>, moves: seq<Move>, id: nat, a: ConfirmedAction)
    returns (next: seq<Move>)
    requires MovesOver(actions, moves) && a in actions
    requires id !in At(moves).calls && a.status == Confirmed && EventsOf(At(moves).audit, TraceId(a)) == []
    requires a.idempotencyKey in At(moves).ledger.records ==> HasStatus(At(moves).ledger, a.idempotencyKey, Confirmed)
    ensures MovesOver(actions, next) && moves <= next
    ensures OnlyActed(At(moves), At(next), id, a) && At(next).executed == At(moves).executed
    ensures At(next).calls[id].phase == MarkExecuting && HasStatus(At(next).ledger, a.idempotencyKey, Confirmed)
  {
    var m2 := ReachDryRun(moves, id, a);
    next := DryRunTwoSteps(m2, id, a);
    OnlyActedTransitive(At(moves), At(m2), At(next), id, a);
  }

  /** From there two more steps mark the record Executing (again, if it already is) and call the adapter. */
  lemma ReachExecuted(actions: set<ConfirmedAction>, moves: seq<Move>, id: nat) returns (next: seq<Move>)
    requires MovesOver(actions, moves) && id in At(moves).calls && At(moves).calls[id].phase == MarkExecuting
    requires var key := At(moves).calls[id].action.idempotencyKey;
             HasStatus(At(moves).ledger, key, Confirmed) || HasStatus(At(moves).ledger, key, Executing)
    ensures MovesOver(actions, next) && moves <= next
    ensures OnlyActed(At(moves), At(next), id, At(moves).calls[id].action)
    ensures At(next).executed == At(moves).executed + [At(moves).calls[id].action]
    ensures At(next).calls[id].phase.MarkSucceeded?
    ensures HasStatus(At(next).ledger, At(moves).calls[id].action.idempotencyKey, Executing)
  {
    var m1 := OtherStep(moves, id);
    next := OtherStep(m1, id);
    OnlyActedTransitive(At(moves), At(m1), At(next), id, At(moves).calls[id].action);
  }

  /** Two tenants that share one key: both calls pass the ledger, and the adapter executes twice. */
  lemma SharedKeyExecutesTwice(a: ConfirmedAction, b: ConfirmedAction) returns (moves: seq<Move>)
    requires a.status == Confirmed && b.status == Confirmed
    requires a.idempotencyKey == b.idempotencyKey && a.tenantId != b.tenantId
    ensures MovesOver({a, b}, moves)
    ensures ExecutedForKey(Exec(INITIAL, moves).executed, a.idempotencyKey) == 2
  {
    SharedKeyDifferentTrace(a, b);
    var m1 := ReachMarkExecuting({a, b}, [], 0, a);
    assert EventsOf(At([]).audit, TraceId(b)) == [];
    var m2 := ReachMarkExecuting({a, b}, m1, 1, b);
    var m3 := ReachExecuted({a, b}, m2, 0);
    moves := ReachExecuted({a, b}, m3, 1);
    TwoCalls(a, b);
  }

  lemma TwoCalls(a: ConfirmedAction, b: ConfirmedAction)
    requires a.idempotencyKey == b.idempotencyKey
    ensures ExecutedForKey([] + [a] + [b], a.idempotencyKey) == 2
  {
    var none: seq<ConfirmedAction> := [];
    assert (none + [a] + [b])[..1] == none + [a] && (none + [a])[..0] == none;
    assert ExecutedForKey(none + [a], a.idempotencyKey) == 1;
  }

  lemma SharedKeyDifferentTrace(a: ConfirmedAction, b: ConfirmedAction)
    requires a.idempotencyKey == b.idempotencyKey
    ensures TraceId(a) == TraceId(b) <==> a.tenantId == b.tenantId
  {
    var tail := "-" + a.idempotencyKey;
    assert TraceId(a) == "trace-" + (a.tenantId + tail) && TraceId(b) == "trace-" + (b.tenantId + tail);
    if TraceId(a) == TraceId(b) {
      assert TraceId(a)[6..] == a.tenantId + tail && TraceId(b)[6..] == b.tenantId + tail;
      assert (a.tenantId + tail)[..|a.tenantId|] == a.tenantId;
    }
  }

  /** Exactly when is every key executed at most once, whatever the interleaving?  When, among the confirmed
      actions submitted, a key determines its tenant. */
  lemma AtMostOncePerKeyExactly(actions: set<ConfirmedAction>)
    ensures (forall moves, key :: MovesOver(actions, moves) ==> ExecutedForKey(Exec(INITIAL, moves).executed, key) <= 1)
       <==> KeyDeterminesTenant(actions)
  {
    if KeyDeterminesTenant(actions) {
      forall moves, key | MovesOver(actions, moves) ensures ExecutedForKey(Exec(INITIAL, moves).executed, key) <= 1 {
        AtMostOncePerKey(actions, moves, key);
      }
    } else {
      var a, b :| a in actions && b in actions && a.status == Confirmed && b.status == Confirmed
                  && a.idempotencyKey == b.idempotencyKey && a.tenantId != b.tenantId;
      var moves := SharedKeyExecutesTwice(a, b);
      assert MovesOver(actions, moves);
    }
  }
}

/** Any number of executor calls sharing one ledger and one audit repository.  Every repository or adapter call is
    one atomic step; the order of steps, the adapter's answers, the clocks and the policy verdicts are arbitrary. */
module ExecutionProtocol {
  import opened Wrappers
  import opened OperationLedgers
  import opened AuditLog

  datatype AdapterError = AdapterError(code: string, safeMessage: string)
  datatype AdapterDryRun = AdapterDryRun(before: Option<StateSummary>, after: Option<StateSummary>)
  datatype AdapterExecution = AdapterExecution(
    adapterOperationId: string, before: Option<StateSummary>, after: Option<StateSummary>)

  datatype ExecutionReport = ExecutionReport(operation: OperationRecord, events: seq<AuditEvent>, duplicate: bool)

  datatype ExecutionError =
    | LedgerFailed(ledgerError: LedgerError)
    | AdapterFailed(adapterError: AdapterError)
    | AuditFailed(auditError: AppendError)
    | PolicyDenied(denial: string, events: seq<AuditEvent>)

  /** Where a call stands: the repository or adapter call it makes next. */
  datatype Phase =
    | RecordDenial(denial: string)
    | SubmitAction
    | RecordConfirmed
    | CallDryRun
    | RecordDryRun(dryRun: AdapterDryRun)
    | MarkExecuting
    | CallExecute
    | MarkSucceeded(execution: AdapterExecution)
    | MarkFailed(error: AdapterError)
    | RecordSucceeded(execution: AdapterExecution, operation: OperationRecord)
    | RecordFailed(error: AdapterError, operation: OperationRecord)
    | Finished(result: Result<ExecutionReport, ExecutionError>)

  datatype Call = Call(action: ConfirmedAction, phase: Phase, nextSequence: nat, events: seq<AuditEvent>)

  datatype System = System(
    ledger: Ledger,
    audit: seq<AuditEvent>,
    calls: map<nat, Call>,
    executed: seq<ConfirmedAction>)

  const INITIAL := System(EMPTY_LEDGER, [], map[], [])

  /** What the outside world answers during one step. */
  datatype World = World(
    clock: nat,
    dryRun: Result<AdapterDryRun, AdapterError>,
    execute: Result<AdapterExecution, AdapterError>)

  datatype Move =
    | Begin(id: nat, action: ConfirmedAction)
    | BeginDenied(id: nat, action: ConfirmedAction, denial: string)
    | Advance(id: nat, world: World)

  // ---------------------------------------------------------------- what the steps do

  function TraceId(a: ConfirmedAction): string {
    "trace-" + a.tenantId + "-" + a.idempotencyKey
  }

  function Subject(a: ConfirmedAction): AuditSubject {
    AuditSubject(a.actorUserId, a.tenantId, a.actionId)
  }

  function ConfirmedBody(a: ConfirmedAction): EventBody {
    EventBody(ConfirmedActionRecorded, None,
              Some(StateSummary("confirmed action " + a.actionId, [a.idempotencyKey], None)), None)
  }

  function DryRunBody(d: AdapterDryRun): EventBody {
    EventBody(DryRunExecuted, d.before, d.after, Some(ExecutionResult(None, None, None)))
  }

  function SucceededBody(x: AdapterExecution): EventBody {
    EventBody(ExecutionSucceeded, x.before, x.after, Some(ExecutionResult(Some(x.adapterOperationId), None, None)))
  }

  function FailedBody(e: AdapterError): EventBody {
    EventBody(ExecutionFailed, None, None, Some(ExecutionResult(None, Some(e.code), Some(e.safeMessage))))
  }

  function DeniedBody(denial: string): EventBody {
    EventBody(ExecutionDenied, None, None, Some(ExecutionResult(None, Some("policy_denied"), Some(denial))))
  }

  function NextEvent(c: Call, clock: nat, body: EventBody): AuditEvent {
    MakeEvent(TraceId(c.action), Subject(c.action), c.nextSequence, clock, body)
  }

  predicate IsTerminal(status: ActionStatus) {
    status in {Succeeded, Failed, Cancelled}
  }

  function NewCall(a: ConfirmedAction, phase: Phase): Call {
    Call(a, phase, 1, [])
  }

  /** The call's next position after `submit_confirmed_action` answered. */
  function AfterSubmit(r: Result<SubmitResult, LedgerError>): Phase {
    match r
    case Err(e) => Finished(Err(LedgerFailed(e)))
    case Ok(Created(record)) => FromSubmitted(record)
    case Ok(Existing(record)) =>
      if IsTerminal(record.status) || record.status == Executing
      then Finished(Ok(ExecutionReport(record, [], true)))
      else FromSubmitted(record)
  }

  function FromSubmitted(record: OperationRecord): Phase {
    if record.status == Confirmed then RecordConfirmed else CallExecute
  }

  function Put(s: System, id: nat, c: Call): System {
    s.(calls := s.calls[id := c])
  }

  /** One `append`: on a duplicate id the call ends in an error, otherwise the event is stored. */
  function Append(s: System, id: nat, c: Call, e: AuditEvent, next: Phase): System {
    if HasEventId(s.audit, e.eventId) then
      Put(s, id, c.(phase := Finished(Err(AuditFailed(DuplicateEventId(e.eventId)))),
                    nextSequence := c.nextSequence + 1))
    else
      Put(s, id, c.(phase := next, nextSequence := c.nextSequence + 1, events := c.events + [e]))
      .(audit := s.audit + [e])
  }

  function AdvanceCall(s: System, id: nat, w: World): System
    requires id in s.calls
  {
    var c := s.calls[id];
    match c.phase
    case RecordDenial(denial) =>
      var e := NextEvent(c, w.clock, DeniedBody(denial));
      Append(s, id, c, e, Finished(Err(PolicyDenied(denial, [e]))))
    case SubmitAction =>
      var (ledger, r) := Submit(s.ledger, c.action);
      Put(s, id, c.(phase := AfterSubmit(r))).(ledger := ledger)
    case RecordConfirmed =>
      Append(s, id, c, NextEvent(c, w.clock, ConfirmedBody(c.action)), CallDryRun)
    case CallDryRun =>
      Put(s, id, c.(phase := match w.dryRun
                             case Ok(d) => RecordDryRun(d)
                             case Err(e) => Finished(Err(AdapterFailed(e)))))
    case RecordDryRun(d) =>
      Append(s, id, c, NextEvent(c, w.clock, DryRunBody(d)), MarkExecuting)
    case MarkExecuting =>
      var (ledger, r) := Transition(s.ledger, c.action.idempotencyKey, Executing);
      Put(s, id, c.(phase := if r.Ok? then CallExecute else Finished(Err(LedgerFailed(r.error)))))
      .(ledger := ledger)
    case CallExecute =>
      Put(s, id, c.(phase := match w.execute
                             case Ok(x) => MarkSucceeded(x)
                             case Err(e) => MarkFailed(e)))
      .(executed := s.executed + [c.action])
    case MarkSucceeded(x) =>
      var (ledger, r) := Transition(s.ledger, c.action.idempotencyKey, Succeeded);
      Put(s, id, c.(phase := if r.Ok? then RecordSucceeded(x, r.value) else Finished(Err(LedgerFailed(r.error)))))
      .(ledger := ledger)
    case MarkFailed(e) =>
      var (ledger, r) := FailWith(s.ledger, c.action.idempotencyKey, e.safeMessage);
      Put(s, id, c.(phase := if r.Ok? then RecordFailed(e, r.value) else Finished(Err(LedgerFailed(r.error)))))
      .(ledger := ledger)
    case RecordSucceeded(x, operation) =>
      var e := NextEvent(c, w.clock, SucceededBody(x));
      Append(s, id, c, e, Finished(Ok(ExecutionReport(operation, c.events + [e], false))))
    case RecordFailed(error, operation) =>
      var e := NextEvent(c, w.clock, FailedBody(error));
      Append(s, id, c, e, Finished(Ok(ExecutionReport(operation, c.events + [e], false))))
    case Finished(_) => s
  }

  /** A move that names a call in use, or no call at all, does nothing. */
  function Step(s: System, m: Move): System {
    match m
    case Begin(id, a) => if id in s.calls then s else Put(s, id, NewCall(a, SubmitAction))
    case BeginDenied(id, a, denial) => if id in s.calls then s else Put(s, id, NewCall(a, RecordDenial(denial)))
    case Advance(id, w) => if id in s.calls then AdvanceCall(s, id, w) else s
  }

  function Exec(s: System, moves: seq<Move>): System {
    if moves == [] then s else Step(Exec(s, moves[..|moves| - 1]), moves[|moves| - 1])
  }

  lemma ExecSnoc(s: System, moves: seq<Move>, m: Move)
    ensures Exec(s, moves + [m]) == Step(Exec(s, moves), m)
  {
    assert (moves + [m])[..|moves|] == moves;
  }

  // ---------------------------------------------------------------- the invariant

  /** The call won event 1 of its trace and may still execute or record. */
  predicate Holds(p: Phase) {
    !(p.RecordDenial? || p.SubmitAction? || p.RecordConfirmed? || p.Finished?)
  }

  predicate BeforeExecute(p: Phase) {
    p.CallDryRun? || p.RecordDryRun? || p.MarkExecuting? || p.CallExecute?
  }

  /** The event types stored for a holder's trace. */
  function Stored(p: Phase): seq<AuditEventType>
    requires Holds(p)
  {
    if p.CallDryRun? || p.RecordDryRun? then [ConfirmedActionRecorded]
    else [ConfirmedActionRecorded, DryRunExecuted]
  }

  function Types(es: seq<AuditEvent>): seq<AuditEventType> {
    seq(|es|, i requires 0 <= i < |es| => es[i].eventType)
  }

  /** The words a trace may spell. */
  predicate Language(types: seq<AuditEventType>) {
    || types <= [ConfirmedActionRecorded, DryRunExecuted, ExecutionSucceeded]
    || types <= [ConfirmedActionRecorded, DryRunExecuted, ExecutionFailed]
    || types == [ExecutionDenied]
  }

  predicate Numbered(es: seq<AuditEvent>, t: string) {
    forall i :: 0 <= i < |es| ==> es[i].traceId == t && es[i].sequence == i + 1 && es[i].eventId == EventId(t, i + 1)
  }

  predicate TraceOk(log: seq<AuditEvent>, t: string) {
    Numbered(EventsOf(log, t), t) && Language(Types(EventsOf(log, t)))
  }

  /** How often the adapter was asked to execute an action of this trace. */
  function ExecutedIn(calls: seq<ConfirmedAction>, t: string): nat {
    if calls == [] then 0
    else ExecutedIn(calls[..|calls| - 1], t) + if TraceId(calls[|calls| - 1]) == t then 1 else 0
  }

  predicate ExecutedOk(s: System, t: string) {
    && ExecutedIn(s.executed, t) <= 1
    && (|EventsOf(s.audit, t)| < 2 ==> ExecutedIn(s.executed, t) == 0)
  }

  /** The call returned a report of its own execution, not of an earlier one. */
  predicate ReportsExecution(p: Phase) {
    p.Finished? && p.result.Ok? && !p.result.value.duplicate
  }

  predicate CallOk(s: System, c: Call) {
    && (c.phase.RecordDenial? || c.phase.SubmitAction? || c.phase.RecordConfirmed? ==>
          c.nextSequence == 1 && c.events == [])
    && (c.phase.RecordConfirmed? || Holds(c.phase) ==>
          c.action.status == Confirmed && c.action.idempotencyKey in s.ledger.records)
    && (Holds(c.phase) ==>
          && Types(EventsOf(s.audit, TraceId(c.action))) == Stored(c.phase)
          && c.nextSequence == |Stored(c.phase)| + 1
          && c.events == EventsOf(s.audit, TraceId(c.action))
          && ExecutedIn(s.executed, TraceId(c.action)) == if BeforeExecute(c.phase) then 0 else 1)
    && (ReportsExecution(c.phase) ==>
          && c.phase.result.value.events == EventsOf(s.audit, TraceId(c.action))
          && |EventsOf(s.audit, TraceId(c.action))| == 3
          && ExecutedIn(s.executed, TraceId(c.action)) == 1)
  }

  ghost predicate Inv(s: System) {
    && (forall key :: key in s.ledger.records ==> RecordOk(key, s.ledger.records[key]))
    && (forall t :: TraceOk(s.audit, t))
    && (forall t :: ExecutedOk(s, t))
    && (forall id :: id in s.calls ==> CallOk(s, s.calls[id]))
    && (forall i, j :: i in s.calls && j in s.calls && i != j && Holds(s.calls[i].phase) && Holds(s.calls[j].phase)
                       ==> TraceId(s.calls[i].action) != TraceId(s.calls[j].action))
  }

  // ---------------------------------------------------------------- the invariant is kept

  /** The append of event n succeeds exactly when the trace has fewer than n events: event 1 is a lock. */
  lemma TakenExactly(log: seq<AuditEvent>, t: string, n: nat)
    requires forall u :: TraceOk(log, u)
    requires n >= 1
    ensures HasEventId(log, EventId(t, n)) <==> n <= |EventsOf(log, t)|
  {
    var es := EventsOf(log, t);
    assert TraceOk(log, t);
    if n <= |es| {
      assert es[n - 1] in es;
      EventsOfMember(log, es[n - 1]);
      var i :| 0 <= i < |log| && log[i] == es[n - 1];
      assert log[i].eventId == EventId(t, n);
    }
    if HasEventId(log, EventId(t, n)) {
      var i :| 0 <= i < |log| && log[i].eventId == EventId(t, n);
      var e := log[i];
      EventsOfMember(log, e);
      assert TraceOk(log, e.traceId);
      var j :| 0 <= j < |EventsOf(log, e.traceId)| && EventsOf(log, e.traceId)[j] == e;
      EventIdInjective(t, n, e.traceId, j + 1);
    }
  }

  /** Moving one call to a position it may occupy keeps the invariant. */
  lemma PutKeepsInv(s: System, id: nat, c: Call, ledger: Ledger)
    requires Inv(s)
    requires forall key :: key in s.ledger.records ==> key in ledger.records
    requires forall key :: key in ledger.records ==> RecordOk(key, ledger.records[key])
    requires CallOk(s.(ledger := ledger), c)
    requires Holds(c.phase) ==> id in s.calls && Holds(s.calls[id].phase) && s.calls[id].action == c.action
    ensures Inv(Put(s, id, c).(ledger := ledger))
  {
    var n := Put(s, id, c).(ledger := ledger);
    forall t ensures ExecutedOk(n, t) {
      assert ExecutedOk(s, t);
    }
    forall i | i in n.calls ensures CallOk(n, n.calls[i]) {
      if i != id {
        assert CallOk(s, s.calls[i]);
      }
    }
  }

  /** What a call must show before it appends `e` and moves to `next`. */
  predicate MayAppend(s: System, c: Call, e: AuditEvent, next: Phase) {
    && e.traceId == TraceId(c.action) && e.sequence == c.nextSequence
    && e.eventId == EventId(e.traceId, c.nextSequence)
    && c.nextSequence == |EventsOf(s.audit, e.traceId)| + 1
    && c.events == EventsOf(s.audit, e.traceId)
    && Language(Types(EventsOf(s.audit, e.traceId)) + [e.eventType])
    && (Holds(next) ==>
          && Stored(next) == Types(EventsOf(s.audit, e.traceId)) + [e.eventType]
          && c.action.status == Confirmed && c.action.idempotencyKey in s.ledger.records
          && ExecutedIn(s.executed, e.traceId) == if BeforeExecute(next) then 0 else 1)
    && (Holds(next) || next.Finished?)
    && (ReportsExecution(next) ==>
          && next.result.value.events == c.events + [e] && |c.events| == 2
          && ExecutedIn(s.executed, e.traceId) == 1)
  }

  lemma WriterOk(s: System, c: Call, e: AuditEvent, next: Phase)
    requires MayAppend(s, c, e, next)
    ensures CallOk(s.(audit := s.audit + [e]),
                   c.(phase := next, nextSequence := c.nextSequence + 1, events := c.events + [e]))
  {
    EventsOfAppend(s.audit, e, e.traceId);
    assert Types(EventsOf(s.audit + [e], e.traceId)) == Types(EventsOf(s.audit, e.traceId)) + [e.eventType];
  }

  /** An append by the only call that may write to the trace keeps the invariant. */
  lemma AppendKeepsInv(s: System, id: nat, c: Call, e: AuditEvent, next: Phase)
    requires Inv(s) && id in s.calls && s.calls[id] == c && MayAppend(s, c, e, next)
    requires forall i :: i in s.calls && i != id && Holds(s.calls[i].phase) ==> TraceId(s.calls[i].action) != e.traceId
    ensures Inv(Append(s, id, c, e, next))
  {
    var n := Append(s, id, c, e, next);
    TakenExactly(s.audit, e.traceId, c.nextSequence);
    var written := c.(phase := next, nextSequence := c.nextSequence + 1, events := c.events + [e]);
    assert n == Put(s, id, written).(audit := s.audit + [e]);
    forall t ensures TraceOk(n.audit, t) && ExecutedOk(n, t) {
      assert TraceOk(s.audit, t);
      AppendKeepsTrace(s.audit, e, t);
      assert ExecutedOk(s, t);
    }
    WriterOk(s, c, e, next);
    forall i | i in n.calls ensures CallOk(n, n.calls[i]) {
      if i != id {
        BystanderOk(s, e, s.calls[i]);
      }
    }
  }

  /** An append does not disturb a call that cannot write to the same trace. */
  lemma BystanderOk(s: System, e: AuditEvent, c: Call)
    requires CallOk(s, c)
    requires Holds(c.phase) ==> TraceId(c.action) != e.traceId
    requires Language(Types(EventsOf(s.audit, e.traceId)) + [e.eventType])
    ensures CallOk(s.(audit := s.audit + [e]), c)
  {
    EventsOfAppend(s.audit, e, TraceId(c.action));
    assert |Types(EventsOf(s.audit, e.traceId)) + [e.eventType]| == |EventsOf(s.audit, e.traceId)| + 1;
  }

  lemma TypesAppend(es: seq<AuditEvent>, e: AuditEvent)
    ensures Types(es + [e]) == Types(es) + [e.eventType]
  {
  }

  lemma AppendKeepsTrace(log: seq<AuditEvent>, e: AuditEvent, t: string)
    requires TraceOk(log, t)
    requires e.traceId == t ==> Language(Types(EventsOf(log, t)) + [e.eventType])
    requires e.traceId == t ==> e.sequence == |EventsOf(log, t)| + 1 && e.eventId == EventId(t, e.sequence)
    ensures TraceOk(log + [e], t) && |EventsOf(log + [e], t)| >= |EventsOf(log, t)|
  {
    EventsOfAppend(log, e, t);
    if e.traceId == t {
      TypesAppend(EventsOf(log, t), e);
    }
  }

  /** A refused append ends the call and changes nothing else. */
  lemma RefusedAppendKeepsInv(s: System, id: nat, c: Call, e: AuditEvent, next: Phase)
    requires Inv(s) && HasEventId(s.audit, e.eventId)
    ensures Inv(Append(s, id, c, e, next))
  {
    var ended := c.(phase := Finished(Err(AuditFailed(DuplicateEventId(e.eventId)))),
                    nextSequence := c.nextSequence + 1);
    PutKeepsInv(s, id, ended, s.ledger);
    assert Append(s, id, c, e, next) == Put(s, id, ended).(ledger := s.ledger);
  }

  /** The first event of a trace: whoever finds the trace empty writes it. */
  lemma FirstAppendKeepsInv(s: System, id: nat, c: Call, e: AuditEvent, next: Phase)
    requires Inv(s) && id in s.calls && s.calls[id] == c && c.nextSequence == 1
    requires e.traceId == TraceId(c.action) && e.sequence == 1 && e.eventId == EventId(e.traceId, 1)
    requires c.events == []
    requires (next.Finished? && next.result.Err? && e.eventType == ExecutionDenied)
          || (next == CallDryRun && e.eventType == ConfirmedActionRecorded
              && c.action.status == Confirmed && c.action.idempotencyKey in s.ledger.records)
    ensures Inv(Append(s, id, c, e, next))
  {
    TakenExactly(s.audit, e.traceId, 1);
    if HasEventId(s.audit, e.eventId) {
      RefusedAppendKeepsInv(s, id, c, e, next);
    } else {
      assert Types(EventsOf(s.audit, e.traceId)) + [e.eventType] == [e.eventType];
      assert ExecutedOk(s, e.traceId);
      forall i | i in s.calls && i != id && Holds(s.calls[i].phase) ensures TraceId(s.calls[i].action) != e.traceId {
        assert CallOk(s, s.calls[i]);
        assert |Types(EventsOf(s.audit, TraceId(s.calls[i].action)))| >= 1;
      }
      AppendKeepsInv(s, id, c, e, next);
    }
  }

  lemma SubmitKeepsInv(s: System, id: nat)
    requires Inv(s) && id in s.calls && s.calls[id].phase.SubmitAction?
    ensures forall w :: Inv(AdvanceCall(s, id, w))
  {
    var c := s.calls[id];
    assert CallOk(s, c);
    var (ledger, r) := Submit(s.ledger, c.action);
    PutKeepsInv(s, id, c.(phase := AfterSubmit(r)), ledger);
  }

  lemma LedgerMoveKeepsInv(s: System, id: nat, next: Phase, ledger: Ledger)
    requires Inv(s) && id in s.calls && Holds(s.calls[id].phase)
    requires next.Finished? || (Holds(next) && Stored(next) == Stored(s.calls[id].phase)
                                && (BeforeExecute(next) <==> BeforeExecute(s.calls[id].phase)))
    requires !ReportsExecution(next)
    requires ledger.records.Keys == s.ledger.records.Keys
    requires forall key :: key in ledger.records ==> RecordOk(key, ledger.records[key])
    ensures Inv(Put(s, id, s.calls[id].(phase := next)).(ledger := ledger))
  {
    assert CallOk(s, s.calls[id]);
    PutKeepsInv(s, id, s.calls[id].(phase := next), ledger);
  }

  /** The adapter call: the only step that adds to `executed`. */
  lemma ExecuteKeepsInv(s: System, id: nat, next: Phase)
    requires Inv(s) && id in s.calls && s.calls[id].phase.CallExecute?
    requires next.MarkSucceeded? || next.MarkFailed?
    ensures Inv(Put(s, id, s.calls[id].(phase := next)).(executed := s.executed + [s.calls[id].action]))
  {
    var c := s.calls[id];
    var n := Put(s, id, c.(phase := next)).(executed := s.executed + [c.action]);
    assert n.executed[..|s.executed|] == s.executed;
    assert CallOk(s, c);
    assert |Types(EventsOf(s.audit, TraceId(c.action)))| == 2;
    forall t ensures ExecutedOk(n, t) {
      assert ExecutedOk(s, t);
    }
    forall i | i in n.calls ensures CallOk(n, n.calls[i]) {
      if i != id {
        assert CallOk(s, s.calls[i]);
        assert BeforeExecute(s.calls[i].phase) ==> Holds(s.calls[i].phase);
      }
    }
  }

  lemma HolderAppendKeepsInv(s: System, id: nat, e: AuditEvent, next: Phase)
    requires Inv(s) && id in s.calls && Holds(s.calls[id].phase)
    requires e.traceId == TraceId(s.calls[id].action) && e.sequence == s.calls[id].nextSequence
    requires e.eventId == EventId(e.traceId, e.sequence)
    requires Language(Stored(s.calls[id].phase) + [e.eventType])
    requires next.Finished? || (Holds(next) && Stored(next) == Stored(s.calls[id].phase) + [e.eventType]
                                && BeforeExecute(next) && BeforeExecute(s.calls[id].phase))
    requires ReportsExecution(next) ==> next.result.value.events == s.calls[id].events + [e]
                                        && Stored(s.calls[id].phase) == [ConfirmedActionRecorded, DryRunExecuted]
                                        && !BeforeExecute(s.calls[id].phase)
    ensures Inv(Append(s, id, s.calls[id], e, next))
    ensures !HasEventId(s.audit, e.eventId)
  {
    var c := s.calls[id];
    assert CallOk(s, c);
    assert |Types(EventsOf(s.audit, e.traceId))| == |EventsOf(s.audit, e.traceId)|;
    TakenExactly(s.audit, e.traceId, e.sequence);
    AppendKeepsInv(s, id, c, e, next);
  }

  lemma RecordKeepsInv(s: System, id: nat, w: World)
    requires Inv(s) && id in s.calls
    requires var p := s.calls[id].phase;
             p.RecordDenial? || p.RecordConfirmed? || p.RecordDryRun? || p.RecordSucceeded? || p.RecordFailed?
    ensures Inv(AdvanceCall(s, id, w))
  {
    var c := s.calls[id];
    assert CallOk(s, c);
    match c.phase
    case RecordDenial(denial) =>
      var e := NextEvent(c, w.clock, DeniedBody(denial));
      FirstAppendKeepsInv(s, id, c, e, Finished(Err(PolicyDenied(denial, [e]))));
    case RecordConfirmed => FirstAppendKeepsInv(s, id, c, NextEvent(c, w.clock, ConfirmedBody(c.action)), CallDryRun);
    case RecordDryRun(d) => HolderAppendKeepsInv(s, id, NextEvent(c, w.clock, DryRunBody(d)), MarkExecuting);
    case RecordSucceeded(x, operation) =>
      var e := NextEvent(c, w.clock, SucceededBody(x));
      HolderAppendKeepsInv(s, id, e, Finished(Ok(ExecutionReport(operation, c.events + [e], false))));
    case RecordFailed(error, operation) =>
      var e := NextEvent(c, w.clock, FailedBody(error));
      HolderAppendKeepsInv(s, id, e, Finished(Ok(ExecutionReport(operation, c.events + [e], false))));
  }

  lemma MarkKeepsInv(s: System, id: nat, w: World)
    requires Inv(s) && id in s.calls
    requires var p := s.calls[id].phase; p.CallDryRun? || p.MarkExecuting? || p.MarkSucceeded? || p.MarkFailed?
    ensures Inv(AdvanceCall(s, id, w))
  {
    var c := s.calls[id];
    var key := c.action.idempotencyKey;
    var next := AdvanceCall(s, id, w).calls[id].phase;
    match c.phase
    case CallDryRun => LedgerMoveKeepsInv(s, id, next, s.ledger);
    case MarkExecuting => LedgerMoveKeepsInv(s, id, next, Transition(s.ledger, key, Executing).0);
    case MarkSucceeded(x) => LedgerMoveKeepsInv(s, id, next, Transition(s.ledger, key, Succeeded).0);
    case MarkFailed(e) => LedgerMoveKeepsInv(s, id, next, FailWith(s.ledger, key, e.safeMessage).0);
  }

  lemma AdvanceKeepsInv(s: System, id: nat, w: World)
    requires Inv(s) && id in s.calls
    ensures Inv(AdvanceCall(s, id, w))
  {
    match s.calls[id].phase
    case SubmitAction => SubmitKeepsInv(s, id);
    case CallExecute => ExecuteKeepsInv(s, id, AdvanceCall(s, id, w).calls[id].phase);
    case RecordDenial(_) => RecordKeepsInv(s, id, w);
    case RecordConfirmed => RecordKeepsInv(s, id, w);
    case RecordDryRun(_) => RecordKeepsInv(s, id, w);
    case RecordSucceeded(_, _) => RecordKeepsInv(s, id, w);
    case RecordFailed(_, _) => RecordKeepsInv(s, id, w);
    case CallDryRun => MarkKeepsInv(s, id, w);
    case MarkExecuting => MarkKeepsInv(s, id, w);
    case MarkSucceeded(_) => MarkKeepsInv(s, id, w);
    case MarkFailed(_) => MarkKeepsInv(s, id, w);
    case Finished(_) =>
  }

  /** Every move of every call keeps the invariant. */
  lemma StepKeepsInv(s: System, m: Move)
    requires Inv(s)
    ensures Inv(Step(s, m))
  {
    match m
    case Begin(id, a) => if id !in s.calls { PutKeepsInv(s, id, NewCall(a, SubmitAction), s.ledger); }
    case BeginDenied(id, a, denial) =>
      if id !in s.calls { PutKeepsInv(s, id, NewCall(a, RecordDenial(denial)), s.ledger); }
    case Advance(id, w) => if id in s.calls { AdvanceKeepsInv(s, id, w); }
  }

  lemma InitialInv()
    ensures Inv(INITIAL)
  {
    forall t ensures TraceOk(INITIAL.audit, t) && ExecutedOk(INITIAL, t) {
      assert EventsOf([], t) == [] && Types([]) == [];
    }
  }

  lemma {:induction false} ReachableInv(moves: seq<Move>)
    ensures Inv(Exec(INITIAL, moves))
  {
    if moves == [] {
      InitialInv();
    } else {
      ReachableInv(moves[..|moves| - 1]);
      StepKeepsInv(Exec(INITIAL, moves[..|moves| - 1]), moves[|moves| - 1]);
    }
  }
}

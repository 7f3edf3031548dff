/** What one whole call answers and leaves behind, written out in terms of its inputs and the adapter's answers. */
module CallOutcomes {
  import opened Wrappers
  import opened Text
  import opened OperationLedgers
  import opened AuditLog
  import opened ExecutionProtocol
  import opened LoneCalls

  // ---------------------------------------------------------------- the events of a call

  ghost predicate Taken(audit: seq<AuditEvent>, id: string) {
    exists i :: 0 <= i < |audit| && audit[i].eventId == id
  }

  /** The id of event `n` of the action's trace. */
  function EventName(a: ConfirmedAction, n: nat): string {
    "trace-" + a.tenantId + "-" + a.idempotencyKey + "-evt-" + Decimal(n)
  }

  function EventFor(a: ConfirmedAction, n: nat, at: nat, eventType: AuditEventType, before: Option<StateSummary>,
                    after: Option<StateSummary>, execution: Option<ExecutionResult>): AuditEvent
  {
    AuditEvent(EventName(a, n), "trace-" + a.tenantId + "-" + a.idempotencyKey, n, at, eventType,
               AuditSubject(a.actorUserId, a.tenantId, a.actionId), before, after, execution)
  }

  function ConfirmedEvent(a: ConfirmedAction, answers: Answers): AuditEvent {
    EventFor(a, 1, answers.clock(1), ConfirmedActionRecorded, None,
             Some(StateSummary("confirmed action " + a.actionId, [a.idempotencyKey], None)), None)
  }

  function DryRunEvent(a: ConfirmedAction, answers: Answers): AuditEvent
    requires answers.dryRun.Ok?
  {
    EventFor(a, 2, answers.clock(2), DryRunExecuted, answers.dryRun.value.before, answers.dryRun.value.after,
             Some(ExecutionResult(None, None, None)))
  }

  function LastEvent(a: ConfirmedAction, answers: Answers): AuditEvent {
    match answers.execute
    case Ok(x) =>
      EventFor(a, 3, answers.clock(3), ExecutionSucceeded, x.before, x.after,
               Some(ExecutionResult(Some(x.adapterOperationId), None, None)))
    case Err(e) =>
      EventFor(a, 3, answers.clock(3), ExecutionFailed, None, None,
               Some(ExecutionResult(None, Some(e.code), Some(e.safeMessage))))
  }

  function DeniedEvent(a: ConfirmedAction, denial: string, answers: Answers): AuditEvent {
    EventFor(a, 1, answers.clock(1), ExecutionDenied, None, None,
             Some(ExecutionResult(None, Some("policy_denied"), Some(denial))))
  }

  // ---------------------------------------------------------------- the outcome table

  /** The record a call works on: the one there is, or a new one. */
  function Base(ledger: Ledger, a: ConfirmedAction): OperationRecord {
    if a.idempotencyKey in ledger.records then ledger.records[a.idempotencyKey]
    else OperationRecord(
      "op-" + Decimal(ledger.sequence + 1), a.tenantId, a.actionId, a.idempotencyKey, Confirmed, None)
  }

  /** The record once the adapter has answered. */
  function AfterAnswer(base: OperationRecord, answers: Answers): OperationRecord {
    match answers.execute
    case Ok(_) => base.(status := Succeeded, lastError := None)
    case Err(e) => base.(status := Failed, lastError := Some(e.safeMessage))
  }

  /** The ledger holds `record` under the action's key, and every other key is as it was. */
  ghost predicate Holding(before: Ledger, after: Ledger, a: ConfirmedAction, record: OperationRecord) {
    after.records == before.records[a.idempotencyKey := record]
  }

  datatype Books = Books(ledger: Ledger, audit: seq<AuditEvent>, executed: seq<ConfirmedAction>)

  /** Nothing stands in the way of the call: the action is confirmed and its record is new or still Confirmed. */
  predicate Startable(b: Books, a: ConfirmedAction) {
    a.status == Confirmed && Base(b.ledger, a).status == Confirmed
  }

  /** The whole table: which answer, which record, which events, and whether the adapter was asked to execute. */
  ghost predicate Outcome(b: Books, a: ConfirmedAction, answers: Answers, r: Result<ExecutionReport, ExecutionError>,
                          n: Books)
  {
    && (a.status != Confirmed ==> n == b && r == Err(LedgerFailed(ActionNotConfirmed(a.status))))
    && (a.status == Confirmed && Base(b.ledger, a).status in {Executing, Succeeded, Failed} ==>
          n == b && r == Ok(ExecutionReport(b.ledger.records[a.idempotencyKey], [], true)))
    && (Startable(b, a) && Taken(b.audit, EventName(a, 1)) ==>
          && r == Err(AuditFailed(DuplicateEventId(EventName(a, 1))))
          && n.audit == b.audit && n.executed == b.executed && Holding(b.ledger, n.ledger, a, Base(b.ledger, a)))
    && (Startable(b, a) && !Taken(b.audit, EventName(a, 1)) && answers.dryRun.Err? ==>
          && r == Err(AdapterFailed(answers.dryRun.error))
          && n.audit == b.audit + [ConfirmedEvent(a, answers)] && n.executed == b.executed
          && Holding(b.ledger, n.ledger, a, Base(b.ledger, a)))
    && (Startable(b, a) && !Taken(b.audit, EventName(a, 1)) && answers.dryRun.Ok? && Taken(b.audit, EventName(a, 2)) ==>
          && r == Err(AuditFailed(DuplicateEventId(EventName(a, 2))))
          && n.audit == b.audit + [ConfirmedEvent(a, answers)] && n.executed == b.executed
          && Holding(b.ledger, n.ledger, a, Base(b.ledger, a)))
    && (Startable(b, a) && !Taken(b.audit, EventName(a, 1)) && answers.dryRun.Ok?
        && !Taken(b.audit, EventName(a, 2)) ==>
          var told := [ConfirmedEvent(a, answers), DryRunEvent(a, answers)];
          && n.executed == b.executed + [a] && Holding(b.ledger, n.ledger, a, AfterAnswer(Base(b.ledger, a), answers))
          && (Taken(b.audit, EventName(a, 3)) ==>
                r == Err(AuditFailed(DuplicateEventId(EventName(a, 3)))) && n.audit == b.audit + told)
          && (!Taken(b.audit, EventName(a, 3)) ==>
                && n.audit == b.audit + (told + [LastEvent(a, answers)])
                && r == Ok(ExecutionReport(AfterAnswer(Base(b.ledger, a), answers),
                                           told + [LastEvent(a, answers)], false))))
  }

  // ---------------------------------------------------------------- one step at a time

  function BooksOf(s: System): Books {
    Books(s.ledger, s.audit, s.executed)
  }

  function At(b: Books, c: Call): System {
    Alone(b.ledger, b.audit, b.executed, c)
  }

  /** Where the lone call ends up. */
  function Ending(b: Books, c: Call, answers: Answers): System {
    RunAlone(At(b, c), 0, answers)
  }

  lemma NameIsId(a: ConfirmedAction, n: nat)
    ensures EventName(a, n) == EventId(TraceId(a), n)
  {
  }

  lemma NamesDiffer(a: ConfirmedAction, m: nat, n: nat)
    requires m != n
    ensures EventName(a, m) != EventName(a, n)
  {
    NameIsId(a, m);
    NameIsId(a, n);
    if EventName(a, m) == EventName(a, n) {
      EventIdInjective(TraceId(a), m, TraceId(a), n);
    }
  }

  lemma TakenAppended(audit: seq<AuditEvent>, e: AuditEvent, id: string)
    requires e.eventId != id
    ensures Taken(audit + [e], id) <==> Taken(audit, id)
  {
    var all := audit + [e];
    if Taken(audit, id) {
      var i :| 0 <= i < |audit| && audit[i].eventId == id;
      assert all[i].eventId == id;
    }
    if Taken(all, id) {
      var i :| 0 <= i < |all| && all[i].eventId == id;
      assert i < |audit| && audit[i].eventId == id;
    }
  }

  lemma AppendStep(b: Books, c: Call, e: AuditEvent, next: Phase, answers: Answers)
    requires !c.phase.Finished?
    requires AdvanceCall(At(b, c), 0, WorldOf(answers, c.nextSequence)) == Append(At(b, c), 0, c, e, next)
    ensures !Taken(b.audit, e.eventId) ==>
              Ending(b, c, answers)
              == Ending(b.(audit := b.audit + [e]),
                        Call(c.action, next, c.nextSequence + 1, c.events + [e]), answers)
    ensures Taken(b.audit, e.eventId) ==>
              Ending(b, c, answers)
              == At(b, c.(phase := Finished(Err(AuditFailed(DuplicateEventId(e.eventId)))),
                          nextSequence := c.nextSequence + 1))
  {
    OneStep(At(b, c), 0, answers);
    var n := Append(At(b, c), 0, c, e, next);
    assert n.calls == map[0 := n.calls[0]];
    assert HasEventId(b.audit, e.eventId) <==> Taken(b.audit, e.eventId);
  }

  lemma FinishedStays(b: Books, c: Call, answers: Answers)
    requires c.phase.Finished?
    ensures Ending(b, c, answers) == At(b, c)
  {
  }

  lemma SubmitStarts(b: Books, a: ConfirmedAction, answers: Answers) returns (l: Ledger)
    requires Startable(b, a)
    ensures Holding(b.ledger, l, a, Base(b.ledger, a))
    ensures Ending(b, NewCall(a, SubmitAction), answers)
         == Ending(b.(ledger := l), NewCall(a, RecordConfirmed), answers)
  {
    var s := At(b, NewCall(a, SubmitAction));
    OneStep(s, 0, answers);
    l := Submit(b.ledger, a).0;
    var n := AdvanceCall(s, 0, WorldOf(answers, 1));
    if a.idempotencyKey in b.ledger.records {
      assert b.ledger.records[a.idempotencyKey := b.ledger.records[a.idempotencyKey]] == b.ledger.records;
    }
    assert n.calls == map[0 := n.calls[0]];
    assert n == At(b.(ledger := l), NewCall(a, RecordConfirmed));
  }

  lemma SubmitEnds(b: Books, a: ConfirmedAction, answers: Answers)
    requires a.status != Confirmed || Base(b.ledger, a).status in {Executing, Succeeded, Failed}
    ensures var n := Ending(b, NewCall(a, SubmitAction), answers);
            && BooksOf(n) == b && n.calls[0].phase.Finished?
            && n.calls[0].phase.result
               == if a.status != Confirmed then Err(LedgerFailed(ActionNotConfirmed(a.status)))
                  else Ok(ExecutionReport(b.ledger.records[a.idempotencyKey], [], true))
  {
    var s := At(b, NewCall(a, SubmitAction));
    OneStep(s, 0, answers);
    var n := AdvanceCall(s, 0, WorldOf(answers, 1));
    assert n.calls[0].phase.Finished?;
  }

  lemma ConfirmedStep(b: Books, a: ConfirmedAction, answers: Answers)
    ensures var e := ConfirmedEvent(a, answers);
            && (Taken(b.audit, EventName(a, 1)) ==>
                  Ending(b, NewCall(a, RecordConfirmed), answers)
                  == At(b, Call(a, Finished(Err(AuditFailed(DuplicateEventId(EventName(a, 1))))), 2, [])))
            && (!Taken(b.audit, EventName(a, 1)) ==>
                  Ending(b, NewCall(a, RecordConfirmed), answers)
                  == Ending(b.(audit := b.audit + [e]), Call(a, CallDryRun, 2, [e]), answers))
  {
    var e := ConfirmedEvent(a, answers);
    NameIsId(a, 1);
    assert NextEvent(NewCall(a, RecordConfirmed), answers.clock(1), ConfirmedBody(a)) == e;
    AppendStep(b, NewCall(a, RecordConfirmed), e, CallDryRun, answers);
    assert [] + [e] == [e];
  }

  lemma DryRunSteps(b: Books, a: ConfirmedAction, events: seq<AuditEvent>, answers: Answers)
    ensures answers.dryRun.Err? ==>
              Ending(b, Call(a, CallDryRun, 2, events), answers)
              == At(b, Call(a, Finished(Err(AdapterFailed(answers.dryRun.error))), 2, events))
    ensures answers.dryRun.Ok? && Taken(b.audit, EventName(a, 2)) ==>
              Ending(b, Call(a, CallDryRun, 2, events), answers)
              == At(b, Call(a, Finished(Err(AuditFailed(DuplicateEventId(EventName(a, 2))))), 3, events))
    ensures answers.dryRun.Ok? && !Taken(b.audit, EventName(a, 2)) ==>
              var e := DryRunEvent(a, answers);
              Ending(b, Call(a, CallDryRun, 2, events), answers)
              == Ending(b.(audit := b.audit + [e]), Call(a, MarkExecuting, 3, events + [e]), answers)
  {
    DryRunStep(b.ledger, b.audit, b.executed, Call(a, CallDryRun, 2, events), answers);
    var c := Call(a, AfterDryRun(answers), 2, events);
    if answers.dryRun.Ok? {
      var e := DryRunEvent(a, answers);
      NameIsId(a, 2);
      assert NextEvent(c, answers.clock(2), DryRunBody(answers.dryRun.value)) == e;
      AppendStep(b, c, e, MarkExecuting, answers);
    } else {
      FinishedStays(b, c, answers);
    }
  }

  function Marking(answers: Answers): Phase {
    match answers.execute
    case Ok(x) => MarkSucceeded(x)
    case Err(e) => MarkFailed(e)
  }

  function Recording(answers: Answers, operation: OperationRecord): Phase {
    match answers.execute
    case Ok(x) => RecordSucceeded(x, operation)
    case Err(e) => RecordFailed(e, operation)
  }

  lemma MarkExecutingStep(b: Books, a: ConfirmedAction, base: OperationRecord, events: seq<AuditEvent>,
                          answers: Answers)
    returns (l: Ledger)
    requires a.idempotencyKey in b.ledger.records && b.ledger.records[a.idempotencyKey] == base
    requires base.status == Confirmed
    ensures l.records == b.ledger.records[a.idempotencyKey := base.(status := Executing, lastError := None)]
    ensures Ending(b, Call(a, MarkExecuting, 3, events), answers)
         == Ending(b.(ledger := l), Call(a, CallExecute, 3, events), answers)
  {
    MarkStep(b.ledger, b.audit, b.executed, Call(a, MarkExecuting, 3, events), answers);
    l := Transition(b.ledger, a.idempotencyKey, Executing).0;
  }

  lemma MarkAnswerStep(b: Books, a: ConfirmedAction, base: OperationRecord, events: seq<AuditEvent>, answers: Answers)
    returns (l: Ledger)
    requires a.idempotencyKey in b.ledger.records && b.ledger.records[a.idempotencyKey] == base
    requires base.status == Executing
    ensures l.records == b.ledger.records[a.idempotencyKey := AfterAnswer(base, answers)]
    ensures Ending(b, Call(a, Marking(answers), 3, events), answers)
         == Ending(b.(ledger := l), Call(a, Recording(answers, AfterAnswer(base, answers)), 3, events), answers)
  {
    var c := Call(a, Marking(answers), 3, events);
    MarkStep(b.ledger, b.audit, b.executed, c, answers);
    l := Marked(b.ledger, c).0;
  }

  lemma ExecuteSteps(b: Books, a: ConfirmedAction, base: OperationRecord, events: seq<AuditEvent>, answers: Answers)
    returns (l: Ledger)
    requires a.idempotencyKey in b.ledger.records && b.ledger.records[a.idempotencyKey] == base
    requires base.status == Confirmed
    ensures l.records == b.ledger.records[a.idempotencyKey := AfterAnswer(base, answers)]
    ensures Ending(b, Call(a, MarkExecuting, 3, events), answers)
         == Ending(Books(l, b.audit, b.executed + [a]),
                   Call(a, Recording(answers, AfterAnswer(base, answers)), 3, events), answers)
  {
    var executing := MarkExecutingStep(b, a, base, events, answers);
    var b1 := b.(ledger := executing);
    AdapterStep(b1, a, events, answers);
    var b2 := b1.(executed := b1.executed + [a]);
    l := MarkAnswerStep(b2, a, base.(status := Executing, lastError := None), events, answers);
    assert l.records == b.ledger.records[a.idempotencyKey := AfterAnswer(base, answers)];
  }

  lemma AdapterStep(b: Books, a: ConfirmedAction, events: seq<AuditEvent>, answers: Answers)
    ensures Ending(b, Call(a, CallExecute, 3, events), answers)
         == Ending(b.(executed := b.executed + [a]), Call(a, Marking(answers), 3, events), answers)
  {
    var s := At(b, Call(a, CallExecute, 3, events));
    OneStep(s, 0, answers);
    var n := AdvanceCall(s, 0, WorldOf(answers, 3));
    assert n.calls == map[0 := n.calls[0]];
  }

  lemma LastStep(b: Books, a: ConfirmedAction, settled: OperationRecord, events: seq<AuditEvent>, answers: Answers)
    ensures var e := LastEvent(a, answers);
            var n := Ending(b, Call(a, Recording(answers, settled), 3, events), answers);
            && n.calls[0].phase.Finished?
            && (Taken(b.audit, EventName(a, 3)) ==>
                  BooksOf(n) == b
                  && n.calls[0].phase.result == Err(AuditFailed(DuplicateEventId(EventName(a, 3)))))
            && (!Taken(b.audit, EventName(a, 3)) ==>
                  BooksOf(n) == b.(audit := b.audit + [e])
                  && n.calls[0].phase.result == Ok(ExecutionReport(settled, events + [e], false)))
  {
    var c := Call(a, Recording(answers, settled), 3, events);
    var body := match answers.execute case Ok(x) => SucceededBody(x) case Err(e) => FailedBody(e);
    var e := LastEvent(a, answers);
    NameIsId(a, 3);
    assert NextEvent(c, answers.clock(3), body) == e;
    var next := Finished(Ok(ExecutionReport(settled, events + [e], false)));
    AppendStep(b, c, e, next, answers);
    if !Taken(b.audit, e.eventId) {
      FinishedStays(b.(audit := b.audit + [e]), Call(a, next, 4, events + [e]), answers);
    }
  }

  // ---------------------------------------------------------------- the table holds

  /** From the dry run on. */
  lemma DryRunOutcome(b: Books, a: ConfirmedAction, base: OperationRecord, answers: Answers)
    requires a.idempotencyKey in b.ledger.records && b.ledger.records[a.idempotencyKey] == base
    requires base.status == Confirmed
    ensures var e1 := ConfirmedEvent(a, answers);
            var s := Ending(b, Call(a, CallDryRun, 2, [e1]), answers);
            var n := BooksOf(s);
            && s.calls[0].phase.Finished?
            && (answers.dryRun.Err? ==>
                  n == b && s.calls[0].phase.result == Err(AdapterFailed(answers.dryRun.error)))
            && (answers.dryRun.Ok? && Taken(b.audit, EventName(a, 2)) ==>
                  n == b && s.calls[0].phase.result == Err(AuditFailed(DuplicateEventId(EventName(a, 2)))))
            && (answers.dryRun.Ok? && !Taken(b.audit, EventName(a, 2)) ==>
                  var e2, e3 := DryRunEvent(a, answers), LastEvent(a, answers);
                  && n.executed == b.executed + [a]
                  && n.ledger.records == b.ledger.records[a.idempotencyKey := AfterAnswer(base, answers)]
                  && (Taken(b.audit, EventName(a, 3)) ==>
                        && n.audit == b.audit + [e2]
                        && s.calls[0].phase.result == Err(AuditFailed(DuplicateEventId(EventName(a, 3)))))
                  && (!Taken(b.audit, EventName(a, 3)) ==>
                        && n.audit == b.audit + [e2, e3]
                        && s.calls[0].phase.result
                           == Ok(ExecutionReport(AfterAnswer(base, answers), [e1, e2, e3], false))))
  {
    var e1 := ConfirmedEvent(a, answers);
    DryRunSteps(b, a, [e1], answers);
    if answers.dryRun.Ok? && !Taken(b.audit, EventName(a, 2)) {
      var e2, e3 := DryRunEvent(a, answers), LastEvent(a, answers);
      var b2 := b.(audit := b.audit + [e2]);
      assert [e1] + [e2] == [e1, e2];
      var l := ExecuteSteps(b2, a, base, [e1, e2], answers);
      NamesDiffer(a, 2, 3);
      TakenAppended(b.audit, e2, EventName(a, 3));
      LastStep(Books(l, b2.audit, b.executed + [a]), a, AfterAnswer(base, answers), [e1, e2], answers);
      assert [e1, e2] + [e3] == [e1, e2, e3];
      assert b.audit + [e2] + [e3] == b.audit + [e2, e3];
    }
  }

  lemma StartedOutcome(b: Books, a: ConfirmedAction, answers: Answers)
    requires Startable(b, a)
    ensures var s := Ending(b, NewCall(a, SubmitAction), answers);
            s.calls[0].phase.Finished? && Outcome(b, a, answers, s.calls[0].phase.result, BooksOf(s))
  {
    var base := Base(b.ledger, a);
    var l := SubmitStarts(b, a, answers);
    var b1 := b.(ledger := l);
    ConfirmedStep(b1, a, answers);
    if !Taken(b.audit, EventName(a, 1)) {
      var e1 := ConfirmedEvent(a, answers);
      var b2 := b1.(audit := b.audit + [e1]);
      DryRunOutcome(b2, a, base, answers);
      NamesDiffer(a, 1, 2);
      NamesDiffer(a, 1, 3);
      TakenAppended(b.audit, e1, EventName(a, 2));
      TakenAppended(b.audit, e1, EventName(a, 3));
      EventsJoin(b.audit, a, answers);
      assert b2.ledger.records[a.idempotencyKey := AfterAnswer(base, answers)]
          == b.ledger.records[a.idempotencyKey := AfterAnswer(base, answers)];
    }
  }

  lemma EventsJoin(audit: seq<AuditEvent>, a: ConfirmedAction, answers: Answers)
    ensures answers.dryRun.Ok? ==>
              var e1, e2, e3 := ConfirmedEvent(a, answers), DryRunEvent(a, answers), LastEvent(a, answers);
              && audit + [e1] + [e2] == audit + [e1, e2]
              && audit + [e1] + [e2, e3] == audit + ([e1, e2] + [e3])
              && [e1, e2] + [e3] == [e1, e2, e3]
  {
  }

  /** Over every ledger a run can leave, every log and every answer of the adapter: the call ends as the table says. */
  lemma CallOutcome(b: Books, a: ConfirmedAction, answers: Answers)
    requires LedgerOk(b.ledger)
    ensures var s := Ending(b, NewCall(a, SubmitAction), answers);
            s.calls[0].phase.Finished? && Outcome(b, a, answers, s.calls[0].phase.result, BooksOf(s))
  {
    if Startable(b, a) {
      StartedOutcome(b, a, answers);
    } else {
      SubmitEnds(b, a, answers);
    }
  }

  /** A denied call: one Denied event, or the duplicate; nothing else moves. */
  lemma DeniedOutcome(b: Books, a: ConfirmedAction, denial: string, answers: Answers)
    ensures var s := Ending(b, NewCall(a, RecordDenial(denial)), answers);
            && s.calls[0].phase.Finished?
            && Denied(b, a, denial, answers, s.calls[0].phase.result, BooksOf(s))
  {
    var e := DeniedEvent(a, denial, answers);
    var c := NewCall(a, RecordDenial(denial));
    NameIsId(a, 1);
    assert NextEvent(c, answers.clock(1), DeniedBody(denial)) == e;
    var next := Finished(Err(PolicyDenied(denial, [e])));
    AppendStep(b, c, e, next, answers);
    if !Taken(b.audit, e.eventId) {
      FinishedStays(b.(audit := b.audit + [e]), Call(a, next, 2, [] + [e]), answers);
    }
  }

  ghost predicate Denied(b: Books, a: ConfirmedAction, denial: string, answers: Answers,
                         r: Result<ExecutionReport, ExecutionError>, n: Books)
  {
    var e := DeniedEvent(a, denial, answers);
    && n.ledger == b.ledger && n.executed == b.executed
    && (Taken(b.audit, EventName(a, 1)) ==>
          n.audit == b.audit && r == Err(AuditFailed(DuplicateEventId(EventName(a, 1)))))
    && (!Taken(b.audit, EventName(a, 1)) ==> n.audit == b.audit + [e] && r == Err(PolicyDenied(denial, [e])))
  }
}

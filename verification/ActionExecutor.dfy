/** The executor as written: one `&mut self` call from start to end, shown to be the protocol's steps run in a row. */
module ActionExecutors {
  import opened Wrappers
  import opened OperationLedgers
  import opened AuditLog
  import opened ExecutionProtocol
  import opened LoneCalls
  import opened CallOutcomes

  class ActionExecutor {
    const ledger: OperationLedger
    const audit: AuditEventRepository
    /** Every request handed to the adapter's `execute`. */
    var executed: seq<ConfirmedAction>

    constructor (ledger: OperationLedger, audit: AuditEventRepository)
      requires ledger.Valid()
      ensures this.ledger == ledger && this.audit == audit && executed == []
      ensures ledger.View() == EMPTY_LEDGER && audit.events == [] ==> Accounted()
    {
      this.ledger := ledger;
      this.audit := audit;
      executed := [];
      new;
      assert Exec(INITIAL, []) == INITIAL;
      assert ledger.View() == EMPTY_LEDGER && audit.events == [] ==> Leaves([], ledger.View(), audit.events, executed);
    }

    /** Some run of the protocol from nothing accounts for the ledger, the log and this executor's executions. */
    ghost predicate Accounted()
      reads this, ledger, audit
      requires ledger.Valid()
    {
      InARun(ledger.View(), audit.events, executed)
    }

    /** The ledger, the log and this executor's executions. */
    ghost function Books(): Books
      reads this, ledger, audit
      requires ledger.Valid()
    {
      CallOutcomes.Books(ledger.View(), audit.events, executed)
    }

    /** The protocol state with this executor's one call in it. */
    ghost function State(c: Call): System
      reads this, ledger, audit
      requires ledger.Valid()
    {
      Alone(ledger.View(), audit.events, executed, c)
    }

    method ExecuteConfirmedRequest(action: ConfirmedAction, answers: Answers)
      returns (r: Result<ExecutionReport, ExecutionError>)
      requires ledger.Valid()
      modifies this, ledger, audit
      ensures ledger.Valid()
      ensures var n := RunAlone(old(State(NewCall(action, SubmitAction))), 0, answers);
              n.calls[0].phase == Finished(r) && n == State(n.calls[0])
      ensures Outcome(old(Books()), action, answers, r, Books())
      ensures r.Ok? && !r.value.duplicate ==>
                && (answers.execute.Ok? <==> r.value.operation.status == Succeeded)
                && (answers.execute.Err? <==>
                      && r.value.operation.status == Failed
                      && r.value.operation.lastError == Some(answers.execute.error.safeMessage))
      ensures old(Accounted()) ==> Accounted() && forall t :: ExecutedIn(executed, t) <= 1
    {
      ghost var books := Books();
      ghost var ledger0, audit0, executed0 := ledger.View(), audit.events, executed;
      r := Execute(action, answers);
      CallOutcome(books, action, answers);
      WholeCallAccounted(ledger0, audit0, executed0, NewCall(action, SubmitAction), answers);
    }

    /** The body of `execute_confirmed_request`. */
    method Execute(action: ConfirmedAction, answers: Answers) returns (r: Result<ExecutionReport, ExecutionError>)
      requires ledger.Valid()
      modifies this, ledger, audit
      ensures ledger.Valid()
      ensures var n := RunAlone(old(State(NewCall(action, SubmitAction))), 0, answers);
              n.calls[0].phase == Finished(r) && n == State(n.calls[0])
    {
      ghost var s := State(NewCall(action, SubmitAction));
      var submitted := ledger.SubmitConfirmedAction(action);
      ghost var next := NewCall(action, AfterSubmit(submitted));
      assert AdvanceCall(s, 0, WorldOf(answers, 1)) == State(next);
      if submitted.Err? {
        return Err(LedgerFailed(submitted.error));
      }
      var record := submitted.value.record;
      if submitted.value.Existing? && (IsTerminal(record.status) || record.status == Executing) {
        return Ok(ExecutionReport(record, [], true));
      }
      r := RunFromSubmitted(action, record, answers);
    }

    /** `verdict` is the policy's answer: `Some` is a denial. */
    method ExecuteConfirmedRequestWithPolicy(action: ConfirmedAction, verdict: Option<string>, answers: Answers)
      returns (r: Result<ExecutionReport, ExecutionError>)
      requires ledger.Valid()
      modifies this, ledger, audit
      ensures ledger.Valid()
      ensures var start := if verdict.Some? then RecordDenial(verdict.value) else SubmitAction;
              var n := RunAlone(old(State(NewCall(action, start))), 0, answers);
              n.calls[0].phase == Finished(r) && n == State(n.calls[0])
      ensures verdict.None? ==> Outcome(old(Books()), action, answers, r, Books())
      ensures verdict.Some? ==> Denied(old(Books()), action, verdict.value, answers, r, Books())
      ensures old(Accounted()) ==> Accounted() && forall t :: ExecutedIn(executed, t) <= 1
    {
      ghost var books := Books();
      ghost var ledger0, audit0, executed0 := ledger.View(), audit.events, executed;
      r := ExecuteUnderPolicy(action, verdict, answers);
      CallOutcome(books, action, answers);
      if verdict.Some? {
        DeniedOutcome(books, action, verdict.value, answers);
      }
      ghost var start := if verdict.Some? then RecordDenial(verdict.value) else SubmitAction;
      WholeCallAccounted(ledger0, audit0, executed0, NewCall(action, start), answers);
    }

    /** The body of `execute_confirmed_request_with_policy`. */
    method ExecuteUnderPolicy(action: ConfirmedAction, verdict: Option<string>, answers: Answers)
      returns (r: Result<ExecutionReport, ExecutionError>)
      requires ledger.Valid()
      modifies this, ledger, audit
      ensures ledger.Valid()
      ensures var start := if verdict.Some? then RecordDenial(verdict.value) else SubmitAction;
              var n := RunAlone(old(State(NewCall(action, start))), 0, answers);
              n.calls[0].phase == Finished(r) && n == State(n.calls[0])
    {
      if verdict.Some? {
        ghost var s := State(NewCall(action, RecordDenial(verdict.value)));
        var trace := new AuditTrace(TraceId(action), Subject(action));
        var event := trace.Record(answers.clock(1), DeniedBody(verdict.value));
        var appended := audit.Append(event);
        r := Err(if appended.Err? then AuditFailed(appended.error) else PolicyDenied(verdict.value, [event]));
        ghost var n := AdvanceCall(s, 0, WorldOf(answers, 1));
        assert n == State(n.calls[0]);
      } else {
        r := ExecuteConfirmedRequest(action, answers);
      }
    }

    /** The report says what the adapter answered: the record's status and the last event. */
    predicate Reports(report: ExecutionReport, answers: Answers) {
      && !report.duplicate && report.events != []
      && var last := report.events[|report.events| - 1];
         match answers.execute
         case Ok(x) =>
           && report.operation.status == Succeeded && last.eventType == ExecutionSucceeded
           && last.before == x.before && last.after == x.after
           && last.execution == Some(ExecutionResult(Some(x.adapterOperationId), None, None))
         case Err(e) =>
           && report.operation.status == Failed && last.eventType == ExecutionFailed
           && last.before == None && last.after == None
           && last.execution == Some(ExecutionResult(None, Some(e.code), Some(e.safeMessage)))
    }

    method RunFromSubmitted(action: ConfirmedAction, submitted: OperationRecord, answers: Answers)
      returns (r: Result<ExecutionReport, ExecutionError>)
      requires ledger.Valid()
      modifies this, ledger, audit
      ensures ledger.Valid()
      ensures var n := RunAlone(old(State(NewCall(action, FromSubmitted(submitted)))), 0, answers);
              n.calls[0].phase == Finished(r) && n == State(n.calls[0])
      ensures r.Ok? ==> Reports(r.value, answers) && executed == old(executed) + [action]
    {
      var trace := new AuditTrace(TraceId(action), Subject(action));
      var events := [];
      if submitted.status == Confirmed {
        var prepared := Prepare(action, trace, answers);
        if prepared.Err? {
          return Err(prepared.error);
        }
        events := prepared.value;
      }
      r := ExecuteAndRecord(action, trace, events, answers);
    }

    /** Event 1, the dry run, event 2 and `mark_executing`; stops at the first refusal. */
    method Prepare(action: ConfirmedAction, trace: AuditTrace, answers: Answers)
      returns (r: Result<seq<AuditEvent>, ExecutionError>)
      requires ledger.Valid() && trace.nextSequence == 1
      requires trace.traceId == TraceId(action) && trace.subject == Subject(action)
      modifies ledger, audit, trace
      ensures ledger.Valid()
      ensures var n := RunAlone(old(State(NewCall(action, RecordConfirmed))), 0, answers);
              if r.Err? then n.calls[0].phase == Finished(Err(r.error)) && n == State(n.calls[0])
              else n == RunAlone(State(Call(action, CallExecute, trace.nextSequence, r.value)), 0, answers)
    {
      r := RecordConfirmedEvent(action, trace, answers);
      if r.Err? {
        return;
      }
      r := RecordDryRunEvent(action, trace, r.value, answers);
      if r.Err? {
        return;
      }
      var failure := MarkExecutingFor(action, trace.nextSequence, r.value, answers);
      if failure.Some? {
        r := Err(failure.value);
      }
    }

    method MarkExecutingFor(action: ConfirmedAction, ghost sequence: nat, ghost events: seq<AuditEvent>,
                            ghost answers: Answers)
      returns (failure: Option<ExecutionError>)
      requires ledger.Valid()
      modifies ledger
      ensures ledger.Valid()
      ensures var n := RunAlone(old(State(Call(action, MarkExecuting, sequence, events))), 0, answers);
              if failure.Some? then n.calls[0].phase == Finished(Err(failure.value)) && n == State(n.calls[0])
              else n == RunAlone(State(Call(action, CallExecute, sequence, events)), 0, answers)
    {
      MarkStep(ledger.View(), audit.events, executed, Call(action, MarkExecuting, sequence, events), answers);
      var marked := ledger.MarkExecuting(action.idempotencyKey);
      failure := if marked.Err? then Some(LedgerFailed(marked.error)) else None;
    }

    /** One `record_event`: append, and keep the event for the report. */
    method RecordEvent(trace: AuditTrace, events: seq<AuditEvent>, at: nat, body: EventBody)
      returns (r: Result<seq<AuditEvent>, ExecutionError>)
      modifies audit, trace
      ensures trace.nextSequence == old(trace.nextSequence) + 1
      ensures var e := MakeEvent(trace.traceId, trace.subject, old(trace.nextSequence), at, body);
              if HasEventId(old(audit.events), e.eventId)
              then audit.events == old(audit.events) && r == Err(AuditFailed(DuplicateEventId(e.eventId)))
              else audit.events == old(audit.events) + [e] && r == Ok(events + [e])
    {
      var event := trace.Record(at, body);
      var appended := audit.Append(event);
      r := if appended.Err? then Err(AuditFailed(appended.error)) else Ok(events + [event]);
    }

    method RecordConfirmedEvent(action: ConfirmedAction, trace: AuditTrace, answers: Answers)
      returns (r: Result<seq<AuditEvent>, ExecutionError>)
      requires ledger.Valid() && trace.nextSequence == 1
      requires trace.traceId == TraceId(action) && trace.subject == Subject(action)
      modifies audit, trace
      ensures ledger.Valid()
      ensures var n := RunAlone(old(State(NewCall(action, RecordConfirmed))), 0, answers);
              if r.Err? then n.calls[0].phase == Finished(Err(r.error)) && n == State(n.calls[0])
              else n == RunAlone(State(Call(action, CallDryRun, trace.nextSequence, r.value)), 0, answers)
    {
      ghost var s := State(NewCall(action, RecordConfirmed));
      r := RecordEvent(trace, [], answers.clock(1), ConfirmedBody(action));
      ghost var n := AdvanceCall(s, 0, WorldOf(answers, 1));
      assert n == State(n.calls[0]);
    }

    method RecordDryRunEvent(action: ConfirmedAction, trace: AuditTrace, events: seq<AuditEvent>, answers: Answers)
      returns (r: Result<seq<AuditEvent>, ExecutionError>)
      requires ledger.Valid()
      requires trace.traceId == TraceId(action) && trace.subject == Subject(action)
      modifies audit, trace
      ensures ledger.Valid()
      ensures var n := RunAlone(old(State(Call(action, CallDryRun, trace.nextSequence, events))), 0, answers);
              if r.Err? then n.calls[0].phase == Finished(Err(r.error)) && n == State(n.calls[0])
              else n == RunAlone(State(Call(action, MarkExecuting, trace.nextSequence, r.value)), 0, answers)
    {
      DryRunStep(ledger.View(), audit.events, executed, Call(action, CallDryRun, trace.nextSequence, events), answers);
      if answers.dryRun.Err? {
        return Err(AdapterFailed(answers.dryRun.error));
      }
      r := StoreDryRun(action, trace, events, answers.dryRun.value, answers);
    }

    method StoreDryRun(action: ConfirmedAction, trace: AuditTrace, events: seq<AuditEvent>, dryRun: AdapterDryRun,
                       answers: Answers)
      returns (r: Result<seq<AuditEvent>, ExecutionError>)
      requires ledger.Valid()
      requires trace.traceId == TraceId(action) && trace.subject == Subject(action)
      modifies audit, trace
      ensures ledger.Valid()
      ensures var n := RunAlone(old(State(Call(action, RecordDryRun(dryRun), trace.nextSequence, events))), 0, answers);
              if r.Err? then n.calls[0].phase == Finished(Err(r.error)) && n == State(n.calls[0])
              else n == RunAlone(State(Call(action, MarkExecuting, trace.nextSequence, r.value)), 0, answers)
    {
      DryRunRecordStep(ledger.View(), audit.events, executed,
                       Call(action, RecordDryRun(dryRun), trace.nextSequence, events), answers);
      r := RecordEvent(trace, events, answers.clock(trace.nextSequence), DryRunBody(dryRun));
    }

    /** The adapter call and the ledger mark that follows its answer, then the last event. */
    method ExecuteAndRecord(action: ConfirmedAction, trace: AuditTrace, events: seq<AuditEvent>, answers: Answers)
      returns (r: Result<ExecutionReport, ExecutionError>)
      requires ledger.Valid()
      requires trace.traceId == TraceId(action) && trace.subject == Subject(action)
      modifies this, ledger, audit, trace
      ensures ledger.Valid()
      ensures var n := RunAlone(old(State(Call(action, CallExecute, trace.nextSequence, events))), 0, answers);
              n.calls[0].phase == Finished(r) && n == State(n.calls[0])
      ensures executed == old(executed) + [action]
      ensures r.Ok? ==> Reports(r.value, answers)
    {
      ghost var s := State(Call(action, CallExecute, trace.nextSequence, events));
      TwoSteps(s, 0, answers);
      ghost var asked := AdvanceCall(s, 0, WorldOf(answers, trace.nextSequence));
      executed := executed + [action];
      assert asked == State(asked.calls[0]);
      if answers.execute.Ok? {
        var marked := MarkOutcome(action, trace.nextSequence, events, answers);
        if marked.Err? {
          return Err(marked.error);
        }
        r := FinishRecording(action, trace, events, RecordSucceeded(answers.execute.value, marked.value), marked.value,
                             SucceededBody(answers.execute.value), answers);
      } else {
        var marked := MarkOutcome(action, trace.nextSequence, events, answers);
        if marked.Err? {
          return Err(marked.error);
        }
        r := FinishRecording(action, trace, events, RecordFailed(answers.execute.error, marked.value), marked.value,
                             FailedBody(answers.execute.error), answers);
      }
    }

    /** `mark_succeeded` or `mark_failed`, as the adapter answered. */
    method MarkOutcome(action: ConfirmedAction, ghost sequence: nat, ghost events: seq<AuditEvent>, answers: Answers)
      returns (r: Result<OperationRecord, ExecutionError>)
      requires ledger.Valid()
      modifies ledger
      ensures ledger.Valid()
      ensures var marking := match answers.execute case Ok(x) => MarkSucceeded(x) case Err(e) => MarkFailed(e);
              var n := RunAlone(old(State(Call(action, marking, sequence, events))), 0, answers);
              match r
              case Err(error) => n.calls[0].phase == Finished(Err(error)) && n == State(n.calls[0])
              case Ok(record) =>
                var recording := match answers.execute
                                 case Ok(x) => RecordSucceeded(x, record)
                                 case Err(e) => RecordFailed(e, record);
                n == RunAlone(State(Call(action, recording, sequence, events)), 0, answers)
      ensures r.Ok? ==> r.value.status == if answers.execute.Ok? then Succeeded else Failed
    {
      ghost var marking := match answers.execute case Ok(x) => MarkSucceeded(x) case Err(e) => MarkFailed(e);
      MarkStep(ledger.View(), audit.events, executed, Call(action, marking, sequence, events), answers);
      var marked;
      if answers.execute.Ok? {
        marked := ledger.MarkSucceeded(action.idempotencyKey);
      } else {
        marked := ledger.MarkFailed(action.idempotencyKey, answers.execute.error.safeMessage);
      }
      r := if marked.Err? then Err(LedgerFailed(marked.error)) else Ok(marked.value);
    }

    method FinishRecording(action: ConfirmedAction, trace: AuditTrace, events: seq<AuditEvent>, ghost phase: Phase,
                           operation: OperationRecord, body: EventBody, answers: Answers)
      returns (r: Result<ExecutionReport, ExecutionError>)
      requires ledger.Valid()
      requires trace.traceId == TraceId(action) && trace.subject == Subject(action)
      requires || (phase.RecordSucceeded? && phase.operation == operation && body == SucceededBody(phase.execution))
               || (phase.RecordFailed? && phase.operation == operation && body == FailedBody(phase.error))
      modifies audit, trace
      ensures ledger.Valid()
      ensures var n := RunAlone(old(State(Call(action, phase, trace.nextSequence, events))), 0, answers);
              n.calls[0].phase == Finished(r) && n == State(n.calls[0])
      ensures r.Ok? ==>
                && !r.value.duplicate && r.value.operation == operation && r.value.events != []
                && var e := r.value.events[|r.value.events| - 1];
                   e.eventType == body.eventType && e.before == body.before && e.after == body.after
                   && e.execution == body.execution
    {
      LastRecordStep(ledger.View(), audit.events, executed, Call(action, phase, trace.nextSequence, events), body,
                     answers);
      var recorded := RecordEvent(trace, events, answers.clock(trace.nextSequence), body);
      r := if recorded.Err? then Err(recorded.error) else Ok(ExecutionReport(operation, recorded.value, false));
    }
  }
}

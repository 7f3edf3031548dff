/** One call of the executor run with no other call stepping in between: a stretch of the protocol, and what it leaves
    to the next call. */
module LoneCalls {
  import opened Wrappers
  import opened OperationLedgers
  import opened AuditLog
  import opened ExecutionProtocol
  import opened ExecutionTheorems

  /** The world's answers to one whole call: a clock reading per event and the adapter's two answers. */
  datatype Answers = Answers(
    clock: nat -> nat,
    dryRun: Result<AdapterDryRun, AdapterError>,
    execute: Result<AdapterExecution, AdapterError>)

  function WorldOf(answers: Answers, sequence: nat): World {
    World(answers.clock(sequence), answers.dryRun, answers.execute)
  }

  /** An upper bound on the steps a call still has to take. */
  function StepsLeft(p: Phase): nat {
    match p
    case Finished(_) => 0
    case RecordDenial(_) => 1
    case RecordSucceeded(_, _) => 1
    case RecordFailed(_, _) => 1
    case MarkSucceeded(_) => 2
    case MarkFailed(_) => 2
    case CallExecute => 3
    case MarkExecuting => 4
    case RecordDryRun(_) => 5
    case CallDryRun => 6
    case RecordConfirmed => 7
    case SubmitAction => 8
  }

  /** Runs one call to its end with no other call stepping in between. */
  function RunAlone(s: System, id: nat, answers: Answers): (n: System)
    requires id in s.calls
    ensures n.calls.Keys == s.calls.Keys && n.calls[id].phase.Finished?
    decreases StepsLeft(s.calls[id].phase)
  {
    if s.calls[id].phase.Finished? then s
    else RunAlone(AdvanceCall(s, id, WorldOf(answers, s.calls[id].nextSequence)), id, answers)
  }

  lemma TwoSteps(s: System, id: nat, answers: Answers)
    requires id in s.calls && !s.calls[id].phase.Finished?
    ensures var n := AdvanceCall(s, id, WorldOf(answers, s.calls[id].nextSequence));
            && RunAlone(s, id, answers) == RunAlone(n, id, answers)
            && (!n.calls[id].phase.Finished? ==>
                  RunAlone(s, id, answers)
                  == RunAlone(AdvanceCall(n, id, WorldOf(answers, n.calls[id].nextSequence)), id, answers))
            && (n.calls[id].phase.Finished? ==> RunAlone(s, id, answers) == n)
  {
  }

  /** Running a call alone is one of the interleavings the protocol theorems speak about. */
  lemma {:induction false} RunAloneIsARun(s: System, id: nat, answers: Answers) returns (moves: seq<Move>)
    requires id in s.calls
    ensures Exec(s, moves) == RunAlone(s, id, answers)
    ensures forall i :: 0 <= i < |moves| ==> moves[i].Advance? && moves[i].id == id
    decreases StepsLeft(s.calls[id].phase)
  {
    if s.calls[id].phase.Finished? {
      moves := [];
    } else {
      var m := Advance(id, WorldOf(answers, s.calls[id].nextSequence));
      var rest := RunAloneIsARun(Step(s, m), id, answers);
      moves := [m] + rest;
      ExecCons(s, m, rest);
    }
  }

  lemma {:induction false} ExecCons(s: System, m: Move, rest: seq<Move>)
    ensures Exec(s, [m] + rest) == Exec(Step(s, m), rest)
    decreases |rest|
  {
    if rest == [] {
      assert [m] + rest == [m] && [m][..0] == [];
      assert Exec(s, [m]) == Step(Exec(s, []), m);
    } else {
      assert ([m] + rest)[..|rest|] == [m] + rest[..|rest| - 1];
      ExecCons(s, m, rest[..|rest| - 1]);
    }
  }

  // ---------------------------------------------------------------- one call after another

  lemma {:induction false} ExecConcat(s: System, first: seq<Move>, more: seq<Move>)
    ensures Exec(s, first + more) == Exec(Exec(s, first), more)
    decreases |more|
  {
    if more == [] {
      assert first + more == first;
    } else {
      assert (first + more)[..|first + more| - 1] == first + more[..|more| - 1];
      ExecConcat(s, first, more[..|more| - 1]);
    }
  }

  /** Two systems that look the same to one call each. */
  predicate SameFor(s: System, i: nat, t: System, j: nat)
    requires i in s.calls && j in t.calls
  {
    s.ledger == t.ledger && s.audit == t.audit && s.executed == t.executed && s.calls[i] == t.calls[j]
  }

  lemma SameAppend(s: System, i: nat, t: System, j: nat, e: AuditEvent, next: Phase)
    requires i in s.calls && j in t.calls && SameFor(s, i, t, j)
    ensures SameFor(Append(s, i, s.calls[i], e, next), i, Append(t, j, t.calls[j], e, next), j)
  {
  }

  predicate Appends(p: Phase) {
    p.RecordDenial? || p.RecordConfirmed? || p.RecordDryRun? || p.RecordSucceeded? || p.RecordFailed?
  }

  lemma SameRecord(s: System, i: nat, t: System, j: nat, w: World)
    requires i in s.calls && j in t.calls && SameFor(s, i, t, j) && Appends(s.calls[i].phase)
    ensures SameFor(AdvanceCall(s, i, w), i, AdvanceCall(t, j, w), j)
  {
    var c := s.calls[i];
    match c.phase
    case RecordDenial(denial) =>
      var e := NextEvent(c, w.clock, DeniedBody(denial));
      SameAppend(s, i, t, j, e, Finished(Err(PolicyDenied(denial, [e]))));
    case RecordConfirmed => SameAppend(s, i, t, j, NextEvent(c, w.clock, ConfirmedBody(c.action)), CallDryRun);
    case RecordDryRun(d) => SameAppend(s, i, t, j, NextEvent(c, w.clock, DryRunBody(d)), MarkExecuting);
    case RecordSucceeded(x, operation) =>
      var e := NextEvent(c, w.clock, SucceededBody(x));
      SameAppend(s, i, t, j, e, Finished(Ok(ExecutionReport(operation, c.events + [e], false))));
    case RecordFailed(error, operation) =>
      var e := NextEvent(c, w.clock, FailedBody(error));
      SameAppend(s, i, t, j, e, Finished(Ok(ExecutionReport(operation, c.events + [e], false))));
  }

  lemma SameOther(s: System, i: nat, t: System, j: nat, w: World)
    requires i in s.calls && j in t.calls && SameFor(s, i, t, j) && !Appends(s.calls[i].phase)
    ensures SameFor(AdvanceCall(s, i, w), i, AdvanceCall(t, j, w), j)
  {
  }

  lemma SameStep(s: System, i: nat, t: System, j: nat, w: World)
    requires i in s.calls && j in t.calls && SameFor(s, i, t, j)
    ensures i in AdvanceCall(s, i, w).calls && j in AdvanceCall(t, j, w).calls
    ensures SameFor(AdvanceCall(s, i, w), i, AdvanceCall(t, j, w), j)
  {
    if Appends(s.calls[i].phase) {
      SameRecord(s, i, t, j, w);
    } else {
      SameOther(s, i, t, j, w);
    }
  }

  lemma StepShortens(s: System, id: nat, w: World)
    requires id in s.calls && !s.calls[id].phase.Finished?
    ensures id in AdvanceCall(s, id, w).calls
    ensures StepsLeft(AdvanceCall(s, id, w).calls[id].phase) < StepsLeft(s.calls[id].phase)
  {
  }

  /** A call run alone sees nothing but the ledger, the log and itself. */
  lemma {:induction false} SameRun(s: System, i: nat, t: System, j: nat, answers: Answers)
    requires i in s.calls && j in t.calls && SameFor(s, i, t, j)
    ensures SameFor(RunAlone(s, i, answers), i, RunAlone(t, j, answers), j)
    decreases StepsLeft(s.calls[i].phase)
  {
    if !s.calls[i].phase.Finished? {
      var w := WorldOf(answers, s.calls[i].nextSequence);
      SameStep(s, i, t, j, w);
      OneStep(s, i, answers);
      OneStep(t, j, answers);
      StepShortens(s, i, w);
      SameRun(AdvanceCall(s, i, w), i, AdvanceCall(t, j, w), j, answers);
    }
  }

  /** Some run of the protocol, from nothing, leaves this ledger, this log and these executions. */
  ghost predicate InARun(ledger: Ledger, audit: seq<AuditEvent>, executed: seq<ConfirmedAction>) {
    exists moves: seq<Move> :: Leaves(moves, ledger, audit, executed)
  }

  predicate Leaves(moves: seq<Move>, ledger: Ledger, audit: seq<AuditEvent>, executed: seq<ConfirmedAction>) {
    var s := Exec(INITIAL, moves);
    s.ledger == ledger && s.audit == audit && s.executed == executed
  }

  /** One more whole call, plain or denied, is one more stretch of the same run. */
  lemma OneMoreCall(ledger: Ledger, audit: seq<AuditEvent>, executed: seq<ConfirmedAction>, c: Call, answers: Answers)
    requires InARun(ledger, audit, executed)
    requires c == NewCall(c.action, c.phase) && (c.phase.SubmitAction? || c.phase.RecordDenial?)
    ensures var n := RunAlone(Alone(ledger, audit, executed, c), 0, answers);
            InARun(n.ledger, n.audit, n.executed)
  {
    var moves: seq<Move> :| Leaves(moves, ledger, audit, executed);
    var s := Exec(INITIAL, moves);
    var id := UnusedId(s.calls.Keys);
    var begin := if c.phase.SubmitAction? then Begin(id, c.action) else BeginDenied(id, c.action, c.phase.denial);
    ExecSnoc(INITIAL, moves, begin);
    var begun := Exec(INITIAL, moves + [begin]);
    assert begun == Put(s, id, c);
    var more := RunAloneIsARun(begun, id, answers);
    ExecConcat(INITIAL, moves + [begin], more);
    SameRun(begun, id, Alone(ledger, audit, executed, c), 0, answers);
    var n := RunAlone(Alone(ledger, audit, executed, c), 0, answers);
    assert Leaves(moves + [begin] + more, n.ledger, n.audit, n.executed);
  }

  /** What the protocol promises in every run it promises here. */
  lemma InARunExecutesOnce(ledger: Ledger, audit: seq<AuditEvent>, executed: seq<ConfirmedAction>, t: string)
    requires InARun(ledger, audit, executed)
    ensures ExecutedIn(executed, t) <= 1
  {
    var moves: seq<Move> :| Leaves(moves, ledger, audit, executed);
    AtMostOncePerTrace(moves, t);
  }

  function Alone(ledger: Ledger, audit: seq<AuditEvent>, executed: seq<ConfirmedAction>, c: Call): System {
    System(ledger, audit, map[0 := c], executed)
  }

  lemma WholeCallAccounted(ledger: Ledger, audit: seq<AuditEvent>, executed: seq<ConfirmedAction>, c: Call,
                           answers: Answers)
    requires c == NewCall(c.action, c.phase) && (c.phase.SubmitAction? || c.phase.RecordDenial?)
    ensures var n := RunAlone(Alone(ledger, audit, executed, c), 0, answers);
            InARun(ledger, audit, executed) ==>
              InARun(n.ledger, n.audit, n.executed) && forall t :: ExecutedIn(n.executed, t) <= 1
  {
    if InARun(ledger, audit, executed) {
      OneMoreCall(ledger, audit, executed, c, answers);
      var n := RunAlone(Alone(ledger, audit, executed, c), 0, answers);
      forall t ensures ExecutedIn(n.executed, t) <= 1 {
        InARunExecutesOnce(n.ledger, n.audit, n.executed, t);
      }
    }
  }

  /** A finished or nearly finished call reports the record the ledger holds under its key. */
  predicate ReportsLedger(s: System, id: nat)
    requires id in s.calls
  {
    var c := s.calls[id];
    var key := c.action.idempotencyKey;
    && (c.phase.RecordSucceeded? || c.phase.RecordFailed? ==>
          && key in s.ledger.records && s.ledger.records[key] == c.phase.operation
          && IsTerminal(c.phase.operation.status))
    && (c.phase.Finished? && c.phase.result.Ok? ==>
          && key in s.ledger.records && s.ledger.records[key] == c.phase.result.value.operation
          && (IsTerminal(c.phase.result.value.operation.status) || c.phase.result.value.operation.status == Executing))
  }

  lemma AppendReportsLedger(s: System, id: nat, e: AuditEvent, next: Phase)
    requires id in s.calls && ReportsLedger(s, id)
    requires next.Finished? && next.result.Ok? ==>
               && (s.calls[id].phase.RecordSucceeded? || s.calls[id].phase.RecordFailed?)
               && next.result.value.operation == s.calls[id].phase.operation
    requires !next.RecordSucceeded? && !next.RecordFailed?
    ensures ReportsLedger(Append(s, id, s.calls[id], e, next), id)
    ensures Append(s, id, s.calls[id], e, next).calls[id].action == s.calls[id].action
  {
  }

  lemma RecordReportsLedger(s: System, id: nat, w: World)
    requires id in s.calls && ReportsLedger(s, id) && Appends(s.calls[id].phase)
    ensures ReportsLedger(AdvanceCall(s, id, w), id)
    ensures AdvanceCall(s, id, w).calls[id].action == s.calls[id].action
  {
    var c := s.calls[id];
    match c.phase
    case RecordDenial(denial) =>
      var e := NextEvent(c, w.clock, DeniedBody(denial));
      AppendReportsLedger(s, id, e, Finished(Err(PolicyDenied(denial, [e]))));
    case RecordConfirmed => AppendReportsLedger(s, id, NextEvent(c, w.clock, ConfirmedBody(c.action)), CallDryRun);
    case RecordDryRun(d) => AppendReportsLedger(s, id, NextEvent(c, w.clock, DryRunBody(d)), MarkExecuting);
    case RecordSucceeded(x, operation) =>
      var e := NextEvent(c, w.clock, SucceededBody(x));
      AppendReportsLedger(s, id, e, Finished(Ok(ExecutionReport(operation, c.events + [e], false))));
    case RecordFailed(error, operation) =>
      var e := NextEvent(c, w.clock, FailedBody(error));
      AppendReportsLedger(s, id, e, Finished(Ok(ExecutionReport(operation, c.events + [e], false))));
  }

  lemma OtherReportsLedger(s: System, id: nat, w: World)
    requires id in s.calls && ReportsLedger(s, id) && !Appends(s.calls[id].phase)
    ensures ReportsLedger(AdvanceCall(s, id, w), id)
    ensures AdvanceCall(s, id, w).calls[id].action == s.calls[id].action
  {
  }

  lemma StepReportsLedger(s: System, id: nat, w: World)
    requires id in s.calls && ReportsLedger(s, id)
    ensures id in AdvanceCall(s, id, w).calls && ReportsLedger(AdvanceCall(s, id, w), id)
    ensures AdvanceCall(s, id, w).calls[id].action == s.calls[id].action
  {
    if Appends(s.calls[id].phase) {
      RecordReportsLedger(s, id, w);
    } else {
      OtherReportsLedger(s, id, w);
    }
  }

  lemma {:induction false} RunReportsLedger(s: System, id: nat, answers: Answers)
    requires id in s.calls && ReportsLedger(s, id)
    ensures ReportsLedger(RunAlone(s, id, answers), id)
    ensures RunAlone(s, id, answers).calls[id].action == s.calls[id].action
    decreases StepsLeft(s.calls[id].phase)
  {
    if !s.calls[id].phase.Finished? {
      var w := WorldOf(answers, s.calls[id].nextSequence);
      OneStep(s, id, answers);
      StepReportsLedger(s, id, w);
      StepShortens(s, id, w);
      RunReportsLedger(AdvanceCall(s, id, w), id, answers);
    }
  }

  lemma SubmitAnswersDuplicate(s: System, id: nat, answers: Answers)
    requires id in s.calls && s.calls[id] == NewCall(s.calls[id].action, SubmitAction)
    requires s.calls[id].action.status == Confirmed && s.calls[id].action.idempotencyKey in s.ledger.records
    requires var status := s.ledger.records[s.calls[id].action.idempotencyKey].status;
             IsTerminal(status) || status == Executing
    ensures var n := RunAlone(s, id, answers);
            && n.ledger == s.ledger && n.audit == s.audit && n.executed == s.executed
            && n.calls[id].phase
               == Finished(Ok(ExecutionReport(s.ledger.records[s.calls[id].action.idempotencyKey], [], true)))
  {
    OneStep(s, id, answers);
    var n := AdvanceCall(s, id, WorldOf(answers, 1));
    assert n.calls[id].phase.Finished?;
  }

  /** Once a request was answered with a report, every later confirmed request with its key is answered with the same
      operation as a duplicate, and changes nothing: no event, no ledger move, no execution. */
  lemma RepeatIsDuplicate(ledger: Ledger, audit: seq<AuditEvent>, executed: seq<ConfirmedAction>, a: ConfirmedAction,
                          b: ConfirmedAction, answers: Answers, later: Answers)
    requires RunAlone(Alone(ledger, audit, executed, NewCall(a, SubmitAction)), 0, answers).calls[0].phase.result.Ok?
    requires b.status == Confirmed && b.idempotencyKey == a.idempotencyKey
    ensures var n := RunAlone(Alone(ledger, audit, executed, NewCall(a, SubmitAction)), 0, answers);
            var m := RunAlone(Alone(n.ledger, n.audit, n.executed, NewCall(b, SubmitAction)), 0, later);
            && m.ledger == n.ledger && m.audit == n.audit && m.executed == n.executed
            && m.calls[0].phase
               == Finished(Ok(ExecutionReport(n.calls[0].phase.result.value.operation, [], true)))
  {
    var s := Alone(ledger, audit, executed, NewCall(a, SubmitAction));
    RunReportsLedger(s, 0, answers);
    var n := RunAlone(s, 0, answers);
    SubmitAnswersDuplicate(Alone(n.ledger, n.audit, n.executed, NewCall(b, SubmitAction)), 0, later);
  }

  lemma OneStep(s: System, id: nat, answers: Answers)
    requires id in s.calls && !s.calls[id].phase.Finished?
    ensures RunAlone(s, id, answers)
         == RunAlone(AdvanceCall(s, id, WorldOf(answers, s.calls[id].nextSequence)), id, answers)
  {
  }

  function Marked(ledger: Ledger, c: Call): (Ledger, Result<OperationRecord, LedgerError>)
    requires c.phase.MarkExecuting? || c.phase.MarkSucceeded? || c.phase.MarkFailed?
  {
    match c.phase
    case MarkExecuting => Transition(ledger, c.action.idempotencyKey, Executing)
    case MarkSucceeded(_) => Transition(ledger, c.action.idempotencyKey, Succeeded)
    case MarkFailed(e) => FailWith(ledger, c.action.idempotencyKey, e.safeMessage)
  }

  function AfterMark(p: Phase, r: Result<OperationRecord, LedgerError>): Phase
    requires p.MarkExecuting? || p.MarkSucceeded? || p.MarkFailed?
  {
    if r.Err? then Finished(Err(LedgerFailed(r.error)))
    else match p
         case MarkExecuting => CallExecute
         case MarkSucceeded(x) => RecordSucceeded(x, r.value)
         case MarkFailed(e) => RecordFailed(e, r.value)
  }

  /** A ledger mark is one step, and it ends the call when refused. */
  lemma MarkStep(ledger: Ledger, audit: seq<AuditEvent>, executed: seq<ConfirmedAction>, c: Call, answers: Answers)
    requires c.phase.MarkExecuting? || c.phase.MarkSucceeded? || c.phase.MarkFailed?
    ensures var (after, r) := Marked(ledger, c);
            RunAlone(Alone(ledger, audit, executed, c), 0, answers)
            == RunAlone(Alone(after, audit, executed, c.(phase := AfterMark(c.phase, r))), 0, answers)
  {
    OneStep(Alone(ledger, audit, executed, c), 0, answers);
    MarkAdvances(ledger, audit, executed, c, WorldOf(answers, c.nextSequence));
  }

  lemma MarkAdvances(ledger: Ledger, audit: seq<AuditEvent>, executed: seq<ConfirmedAction>, c: Call, w: World)
    requires c.phase.MarkExecuting? || c.phase.MarkSucceeded? || c.phase.MarkFailed?
    ensures var (after, r) := Marked(ledger, c);
            AdvanceCall(Alone(ledger, audit, executed, c), 0, w)
            == Alone(after, audit, executed, c.(phase := AfterMark(c.phase, r)))
  {
    var n := AdvanceCall(Alone(ledger, audit, executed, c), 0, w);
    assert n.calls == map[0 := n.calls[0]];
  }

  /** Asking the adapter for a dry run is one step, and an error ends the call. */
  lemma DryRunStep(ledger: Ledger, audit: seq<AuditEvent>, executed: seq<ConfirmedAction>, c: Call, answers: Answers)
    requires c.phase.CallDryRun?
    ensures RunAlone(Alone(ledger, audit, executed, c), 0, answers)
         == RunAlone(Alone(ledger, audit, executed, c.(phase := AfterDryRun(answers))), 0, answers)
  {
    var s := Alone(ledger, audit, executed, c);
    OneStep(s, 0, answers);
    var n := AdvanceCall(s, 0, WorldOf(answers, c.nextSequence));
    assert n.calls == map[0 := n.calls[0]];
  }

  function AfterDryRun(answers: Answers): Phase {
    match answers.dryRun
    case Ok(d) => RecordDryRun(d)
    case Err(e) => Finished(Err(AdapterFailed(e)))
  }

  /** One `append` as a step: on a taken id the call ends, otherwise it goes on with the event stored. */
  function Appended(ledger: Ledger, audit: seq<AuditEvent>, executed: seq<ConfirmedAction>, c: Call, e: AuditEvent,
                    next: Phase): System
  {
    if HasEventId(audit, e.eventId) then
      Alone(ledger, audit, executed,
            c.(phase := Finished(Err(AuditFailed(DuplicateEventId(e.eventId)))), nextSequence := c.nextSequence + 1))
    else
      Alone(ledger, audit + [e], executed,
            c.(phase := next, nextSequence := c.nextSequence + 1, events := c.events + [e]))
  }

  lemma AppendIsAppended(ledger: Ledger, audit: seq<AuditEvent>, executed: seq<ConfirmedAction>, c: Call, e: AuditEvent,
                         next: Phase)
    ensures Append(Alone(ledger, audit, executed, c), 0, c, e, next) == Appended(ledger, audit, executed, c, e, next)
  {
    var n := Append(Alone(ledger, audit, executed, c), 0, c, e, next);
    assert n.calls == map[0 := n.calls[0]];
  }

  lemma DryRunRecordStep(ledger: Ledger, audit: seq<AuditEvent>, executed: seq<ConfirmedAction>, c: Call,
                         answers: Answers)
    requires c.phase.RecordDryRun?
    ensures var e := NextEvent(c, answers.clock(c.nextSequence), DryRunBody(c.phase.dryRun));
            RunAlone(Alone(ledger, audit, executed, c), 0, answers)
            == RunAlone(Appended(ledger, audit, executed, c, e, MarkExecuting), 0, answers)
  {
    OneStep(Alone(ledger, audit, executed, c), 0, answers);
    AppendIsAppended(ledger, audit, executed, c,
                     NextEvent(c, answers.clock(c.nextSequence), DryRunBody(c.phase.dryRun)), MarkExecuting);
  }

  lemma LastRecordStep(ledger: Ledger, audit: seq<AuditEvent>, executed: seq<ConfirmedAction>, c: Call, body: EventBody,
                       answers: Answers)
    requires || (c.phase.RecordSucceeded? && body == SucceededBody(c.phase.execution))
             || (c.phase.RecordFailed? && body == FailedBody(c.phase.error))
    ensures var e := NextEvent(c, answers.clock(c.nextSequence), body);
            RunAlone(Alone(ledger, audit, executed, c), 0, answers)
            == Appended(ledger, audit, executed, c, e,
                        Finished(Ok(ExecutionReport(c.phase.operation, c.events + [e], false))))
  {
    var e := NextEvent(c, answers.clock(c.nextSequence), body);
    OneStep(Alone(ledger, audit, executed, c), 0, answers);
    AppendIsAppended(ledger, audit, executed, c, e,
                     Finished(Ok(ExecutionReport(c.phase.operation, c.events + [e], false))));
  }
}

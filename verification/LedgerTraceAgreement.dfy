/** When the ledger and the audit trace tell the same story about every finished action. */
module LedgerTraceAgreement {
  import opened Wrappers
  import opened OperationLedgers
  import opened AuditLog
  import opened ExecutionProtocol
  import opened ExecutionTheorems

  const SUCCESS_STORY := [ConfirmedActionRecorded, DryRunExecuted, ExecutionSucceeded]
  const FAILURE_STORY := [ConfirmedActionRecorded, DryRunExecuted, ExecutionFailed]

  predicate Quiescent(s: System) {
    forall id :: id in s.calls ==> s.calls[id].phase.Finished?
  }

  /** The ledger says Succeeded (Failed) exactly when the trace ends in Succeeded (Failed), and nothing is
      left half-way in `Executing`. */
  predicate Settled(s: System, a: ConfirmedAction) {
    var story := Types(EventsOf(s.audit, TraceId(a)));
    && (HasStatus(s.ledger, a.idempotencyKey, Succeeded) <==> story == SUCCESS_STORY)
    && (HasStatus(s.ledger, a.idempotencyKey, Failed) <==> story == FAILURE_STORY)
    && !HasStatus(s.ledger, a.idempotencyKey, Executing)
  }

  /** Among the confirmed actions, two share a key exactly when they share a trace id. */
  ghost predicate KeysNameTraces(actions: set<ConfirmedAction>) {
    forall a, b :: a in actions && b in actions && a.status == Confirmed && b.status == Confirmed ==>
                     (a.idempotencyKey == b.idempotencyKey <==> TraceId(a) == TraceId(b))
  }

  /** The ledger status that goes with a holder's position. */
  function LedgerStatus(p: Phase): ActionStatus
    requires Holds(p)
  {
    match p
    case CallExecute => Executing
    case MarkSucceeded(_) => Executing
    case MarkFailed(_) => Executing
    case RecordSucceeded(_, _) => Succeeded
    case RecordFailed(_, _) => Failed
    case _ => Confirmed
  }

  predicate Holding(s: System, id: nat, t: string) {
    id in s.calls && Holds(s.calls[id].phase) && TraceId(s.calls[id].action) == t
  }

  /** While a call holds the trace the ledger follows it; once no call does, the action is settled. */
  ghost predicate AgreesOn(s: System, a: ConfirmedAction) {
    && (forall id :: Holding(s, id, TraceId(a)) ==>
                       HasStatus(s.ledger, a.idempotencyKey, LedgerStatus(s.calls[id].phase)))
    && ((forall id :: !Holding(s, id, TraceId(a))) ==> Settled(s, a))
  }

  ghost predicate Agrees(actions: set<ConfirmedAction>, s: System) {
    forall a :: a in actions && a.status == Confirmed ==> AgreesOn(s, a)
  }

  /** The record of `key` is untouched, or newly created as Confirmed. */
  ghost predicate KeepsStatus(l: Ledger, m: Ledger, key: string) {
    if key in l.records then key in m.records && m.records[key] == l.records[key]
    else HasStatus(m, key, Confirmed) || key !in m.records
  }

  ghost predicate OnlyCall(s: System, n: System, id: nat) {
    && (forall i :: i in n.calls && i != id ==> i in s.calls && n.calls[i] == s.calls[i])
    && (forall i :: i in s.calls && i != id ==> i in n.calls)
  }

  lemma AdvanceMovesOneCall(s: System, id: nat, w: World)
    requires id in s.calls
    ensures OnlyCall(s, AdvanceCall(s, id, w), id)
  {
  }

  /** A step leaves the story of `a` alone when it touches neither its record nor its trace. */
  lemma Untouched(s: System, n: System, id: nat, a: ConfirmedAction)
    requires AgreesOn(s, a)
    requires OnlyCall(s, n, id)
    requires !Holding(s, id, TraceId(a)) && !Holding(n, id, TraceId(a))
    requires KeepsStatus(s.ledger, n.ledger, a.idempotencyKey)
    requires var before, after := Types(EventsOf(s.audit, TraceId(a))), Types(EventsOf(n.audit, TraceId(a)));
             after == before || (before == [] && after == [ExecutionDenied])
    ensures AgreesOn(n, a)
  {
    forall i | Holding(n, i, TraceId(a))
      ensures HasStatus(n.ledger, a.idempotencyKey, LedgerStatus(n.calls[i].phase))
    {
      assert Holding(s, i, TraceId(a));
    }
    if (forall i :: !Holding(n, i, TraceId(a))) {
      forall i ensures !Holding(s, i, TraceId(a)) {
        assert !Holding(n, i, TraceId(a));
      }
    }
  }

  ghost predicate OneHolder(s: System, t: string) {
    forall i, j :: Holding(s, i, t) && Holding(s, j, t) ==> i == j
  }

  /** Some run leads here. */
  ghost predicate Reachable(s: System) {
    exists moves :: s == Exec(INITIAL, moves)
  }

  lemma ReachableStep(s: System, m: Move)
    requires Reachable(s)
    ensures Reachable(Step(s, m))
  {
    var moves :| s == Exec(INITIAL, moves);
    ExecSnoc(INITIAL, moves, m);
  }

  lemma ReachableFacts(s: System)
    requires Reachable(s)
    ensures Inv(s)
  {
    var moves :| s == Exec(INITIAL, moves);
    ReachableInv(moves);
  }

  lemma AtMostOneHolder(s: System, t: string)
    requires Reachable(s)
    ensures OneHolder(s, t)
  {
    ReachableFacts(s);
  }

  lemma CallIsOk(s: System, id: nat)
    requires Reachable(s) && id in s.calls
    ensures CallOk(s, s.calls[id])
  {
    ReachableFacts(s);
  }

  /** When a call's next append succeeds. */
  lemma AppendSucceeds(s: System, id: nat)
    requires Reachable(s) && id in s.calls
    ensures var c := s.calls[id];
            var stored := |EventsOf(s.audit, TraceId(c.action))|;
            && (c.nextSequence == 1 ==> (HasEventId(s.audit, EventId(TraceId(c.action), 1)) <==> stored > 0))
            && (Holds(c.phase) ==> !HasEventId(s.audit, EventId(TraceId(c.action), c.nextSequence)))
  {
    ReachableFacts(s);
    var c := s.calls[id];
    assert CallOk(s, c);
    assert |Types(EventsOf(s.audit, TraceId(c.action)))| == |EventsOf(s.audit, TraceId(c.action))|;
    TakenExactly(s.audit, TraceId(c.action), 1);
    if Holds(c.phase) {
      TakenExactly(s.audit, TraceId(c.action), c.nextSequence);
    }
  }

  /** While a call holds a trace, a step of that call that ends it or keeps it holding keeps the agreement. */
  lemma HolderAgrees(n: System, id: nat, a: ConfirmedAction)
    requires OneHolder(n, TraceId(a)) && Holding(n, id, TraceId(a))
    requires HasStatus(n.ledger, a.idempotencyKey, LedgerStatus(n.calls[id].phase))
    ensures AgreesOn(n, a)
  {
    assert Holding(n, id, TraceId(a));
  }

  lemma FinisherAgrees(s: System, n: System, id: nat, a: ConfirmedAction)
    requires OneHolder(s, TraceId(a)) && Holding(s, id, TraceId(a))
    requires n.calls.Keys == s.calls.Keys && n.calls[id].phase.Finished?
    requires forall i :: i in s.calls && i != id ==> n.calls[i] == s.calls[i]
    requires Settled(n, a)
    ensures AgreesOn(n, a)
  {
    assert forall i :: i != id && Holding(n, i, TraceId(a)) ==> Holding(s, i, TraceId(a));
  }

  /** A holder's append always succeeds. */
  lemma HolderStores(s: System, id: nat, w: World)
    requires Reachable(s) && id in s.calls
    requires var p := s.calls[id].phase; p.RecordDryRun? || p.RecordSucceeded? || p.RecordFailed?
    ensures var n, p := AdvanceCall(s, id, w), s.calls[id].phase;
            && n.ledger == s.ledger && n.calls.Keys == s.calls.Keys
            && |n.audit| == |s.audit| + 1 && n.audit == s.audit + [n.audit[|s.audit|]]
            && n.audit[|s.audit|].traceId == TraceId(s.calls[id].action)
            && (p.RecordDryRun? ==> n.calls[id].phase == MarkExecuting)
            && (!p.RecordDryRun? ==> n.calls[id].phase.Finished?)
            && (p.RecordSucceeded? ==> n.audit[|s.audit|].eventType == ExecutionSucceeded)
            && (p.RecordFailed? ==> n.audit[|s.audit|].eventType == ExecutionFailed)
  {
    AppendSucceeds(s, id);
  }

  lemma HolderAppends(s: System, id: nat, w: World)
    requires Reachable(s) && id in s.calls
    requires var p := s.calls[id].phase; p.RecordDryRun? || p.RecordSucceeded? || p.RecordFailed?
    ensures var n, t := AdvanceCall(s, id, w), TraceId(s.calls[id].action);
            && n.ledger == s.ledger
            && n.calls.Keys == s.calls.Keys
            && (s.calls[id].phase.RecordDryRun? ==> n.calls[id].phase == MarkExecuting)
            && (!s.calls[id].phase.RecordDryRun? ==> n.calls[id].phase.Finished?)
            && (s.calls[id].phase.RecordSucceeded? ==> Types(EventsOf(n.audit, t)) == SUCCESS_STORY)
            && (s.calls[id].phase.RecordFailed? ==> Types(EventsOf(n.audit, t)) == FAILURE_STORY)
  {
    var c := s.calls[id];
    var t := TraceId(c.action);
    CallIsOk(s, id);
    HolderStores(s, id, w);
    var e := AdvanceCall(s, id, w).audit[|s.audit|];
    EventsOfAppend(s.audit, e, t);
    TypesAppend(EventsOf(s.audit, t), e);
  }

  /** The call that holds the trace of `a` records an event. */
  lemma HolderRecordAgrees(s: System, id: nat, w: World, a: ConfirmedAction)
    requires Reachable(s) && Holding(s, id, TraceId(a)) && AgreesOn(s, a)
    requires var p := s.calls[id].phase; p.RecordDryRun? || p.RecordSucceeded? || p.RecordFailed?
    ensures AgreesOn(AdvanceCall(s, id, w), a)
  {
    var n := AdvanceCall(s, id, w);
    assert HasStatus(s.ledger, a.idempotencyKey, LedgerStatus(s.calls[id].phase));
    ReachableStep(s, Advance(id, w));
    AtMostOneHolder(s, TraceId(a));
    AtMostOneHolder(n, TraceId(a));
    HolderAppends(s, id, w);
    if s.calls[id].phase.RecordDryRun? {
      HolderAgrees(n, id, a);
    } else {
      FinisherAgrees(s, n, id, a);
    }
  }

  /** The call that holds the trace of `a` asks the adapter or marks the ledger: marks never fail. */
  lemma HolderMarkAgrees(s: System, id: nat, w: World, a: ConfirmedAction)
    requires Holding(s, id, TraceId(a)) && AgreesOn(s, a) && CallOk(s, s.calls[id])
    requires OneHolder(s, TraceId(a)) && OneHolder(AdvanceCall(s, id, w), TraceId(a))
    requires s.calls[id].action.idempotencyKey == a.idempotencyKey
    requires var p := s.calls[id].phase; !(p.RecordDryRun? || p.RecordSucceeded? || p.RecordFailed?)
    ensures AgreesOn(AdvanceCall(s, id, w), a)
  {
    var c, n := s.calls[id], AdvanceCall(s, id, w);
    assert HasStatus(s.ledger, a.idempotencyKey, LedgerStatus(c.phase));
    if c.phase.CallDryRun? && w.dryRun.Err? {
      assert |SUCCESS_STORY| == |FAILURE_STORY| == 3 && |Stored(c.phase)| == 1;
      FinisherAgrees(s, n, id, a);
    } else {
      HolderAgrees(n, id, a);
    }
  }

  /** A call finds the trace of `a` empty and takes it. */
  lemma TakerAgrees(s: System, id: nat, w: World, a: ConfirmedAction)
    requires Reachable(s) && id in s.calls && AgreesOn(s, a) && Holding(AdvanceCall(s, id, w), id, TraceId(a))
    requires s.calls[id].phase.RecordConfirmed? && EventsOf(s.audit, TraceId(a)) == []
    requires a.idempotencyKey in s.ledger.records
    ensures AgreesOn(AdvanceCall(s, id, w), a)
  {
    assert Types(EventsOf(s.audit, TraceId(a))) == [];
    forall i ensures !Holding(s, i, TraceId(a)) {
      if i in s.calls {
        CallIsOk(s, i);
      }
    }
    assert RecordOk(a.idempotencyKey, s.ledger.records[a.idempotencyKey]) by { ReachableFacts(s); }
    ReachableStep(s, Advance(id, w));
    AtMostOneHolder(AdvanceCall(s, id, w), TraceId(a));
    HolderAgrees(AdvanceCall(s, id, w), id, a);
  }

  /** A call that does not hold the trace of `a`, and does not take it, records an event or is refused. */
  lemma OutsiderRecordAgrees(s: System, id: nat, w: World, a: ConfirmedAction)
    requires Reachable(s) && id in s.calls && AgreesOn(s, a)
    requires !Holding(s, id, TraceId(a)) && !Holding(AdvanceCall(s, id, w), id, TraceId(a))
    requires var p := s.calls[id].phase;
             p.RecordDenial? || p.RecordConfirmed? || p.RecordDryRun? || p.RecordSucceeded? || p.RecordFailed?
    ensures AgreesOn(AdvanceCall(s, id, w), a)
  {
    CallIsOk(s, id);
    AppendSucceeds(s, id);
    AdvanceMovesOneCall(s, id, w);
    OutsiderTrace(s, id, w, a);
    Untouched(s, AdvanceCall(s, id, w), id, a);
  }

  lemma OutsiderTrace(s: System, id: nat, w: World, a: ConfirmedAction)
    requires id in s.calls && CallOk(s, s.calls[id])
    requires !Holding(s, id, TraceId(a)) && !Holding(AdvanceCall(s, id, w), id, TraceId(a))
    requires var p := s.calls[id].phase;
             p.RecordDenial? || p.RecordConfirmed? || p.RecordDryRun? || p.RecordSucceeded? || p.RecordFailed?
    requires var t := TraceId(s.calls[id].action);
             HasEventId(s.audit, EventId(t, 1)) || EventsOf(s.audit, t) == [] || Holds(s.calls[id].phase)
    ensures var before := Types(EventsOf(s.audit, TraceId(a)));
            var after := Types(EventsOf(AdvanceCall(s, id, w).audit, TraceId(a)));
            after == before || (before == [] && after == [ExecutionDenied])
    ensures AdvanceCall(s, id, w).ledger == s.ledger
  {
    var n := AdvanceCall(s, id, w);
    if n.audit != s.audit {
      var e := n.audit[|s.audit|];
      assert n.audit == s.audit + [e];
      EventsOfAppend(s.audit, e, TraceId(a));
    }
  }

  /** A call that does not hold the trace of `a` marks the ledger for another key, or nothing. */
  lemma OutsiderMarkAgrees(s: System, id: nat, w: World, a: ConfirmedAction)
    requires id in s.calls && AgreesOn(s, a) && CallOk(s, s.calls[id])
    requires !Holding(s, id, TraceId(a)) && !Holding(AdvanceCall(s, id, w), id, TraceId(a))
    requires Holds(s.calls[id].phase) ==> s.calls[id].action.idempotencyKey != a.idempotencyKey
    requires var p := s.calls[id].phase;
             !(p.RecordDenial? || p.RecordConfirmed? || p.RecordDryRun? || p.RecordSucceeded? || p.RecordFailed?)
    ensures AgreesOn(AdvanceCall(s, id, w), a)
  {
    AdvanceMovesOneCall(s, id, w);
    OutsiderLedger(s, id, w, a);
    Untouched(s, AdvanceCall(s, id, w), id, a);
  }

  lemma OutsiderLedger(s: System, id: nat, w: World, a: ConfirmedAction)
    requires id in s.calls
    requires Holds(s.calls[id].phase) ==> s.calls[id].action.idempotencyKey != a.idempotencyKey
    requires var p := s.calls[id].phase;
             !(p.RecordDenial? || p.RecordConfirmed? || p.RecordDryRun? || p.RecordSucceeded? || p.RecordFailed?)
    ensures KeepsStatus(s.ledger, AdvanceCall(s, id, w).ledger, a.idempotencyKey)
    ensures AdvanceCall(s, id, w).audit == s.audit
  {
  }

  /** A call that does not hold the trace of `a` takes a step. */
  lemma OutsiderAgrees(s: System, id: nat, w: World, a: ConfirmedAction)
    requires Reachable(s) && id in s.calls && AgreesOn(s, a) && !Holding(s, id, TraceId(a))
    requires s.calls[id].action.status == Confirmed ==>
               (s.calls[id].action.idempotencyKey == a.idempotencyKey <==> TraceId(s.calls[id].action) == TraceId(a))
    ensures AgreesOn(AdvanceCall(s, id, w), a)
  {
    var p := s.calls[id].phase;
    CallIsOk(s, id);
    if Holding(AdvanceCall(s, id, w), id, TraceId(a)) {
      if p.SubmitAction? {
        SubmitNeverSkipsTheLock(s, id);
      }
      AppendSucceeds(s, id);
      TakerAgrees(s, id, w, a);
    } else if p.RecordDenial? || p.RecordConfirmed? || p.RecordDryRun? || p.RecordSucceeded? || p.RecordFailed? {
      OutsiderRecordAgrees(s, id, w, a);
    } else {
      OutsiderMarkAgrees(s, id, w, a);
    }
  }

  /** Submitting never leads straight to the adapter: the ledger holds no `Proposed` record. */
  lemma SubmitNeverSkipsTheLock(s: System, id: nat)
    requires Reachable(s) && id in s.calls && s.calls[id].phase.SubmitAction?
    ensures !Holds(AfterSubmit(Submit(s.ledger, s.calls[id].action).1))
  {
    var key := s.calls[id].action.idempotencyKey;
    if key in s.ledger.records {
      assert RecordOk(key, s.ledger.records[key]) by { ReachableFacts(s); }
    }
  }

  lemma AdvanceAgrees(s: System, id: nat, w: World, a: ConfirmedAction)
    requires Reachable(s) && id in s.calls && AgreesOn(s, a)
    requires s.calls[id].action.status == Confirmed ==>
               (s.calls[id].action.idempotencyKey == a.idempotencyKey <==> TraceId(s.calls[id].action) == TraceId(a))
    ensures AgreesOn(AdvanceCall(s, id, w), a)
  {
    var p := s.calls[id].phase;
    CallIsOk(s, id);
    if !Holding(s, id, TraceId(a)) {
      OutsiderAgrees(s, id, w, a);
    } else if p.RecordDryRun? || p.RecordSucceeded? || p.RecordFailed? {
      HolderRecordAgrees(s, id, w, a);
    } else {
      ReachableStep(s, Advance(id, w));
      AtMostOneHolder(s, TraceId(a));
      AtMostOneHolder(AdvanceCall(s, id, w), TraceId(a));
      HolderMarkAgrees(s, id, w, a);
    }
  }

  lemma StepAgrees(actions: set<ConfirmedAction>, s: System, m: Move)
    requires Reachable(s) && DrawnFrom(actions, s) && KeysNameTraces(actions) && Agrees(actions, s)
    ensures Agrees(actions, Step(s, m))
  {
    forall a | a in actions && a.status == Confirmed ensures AgreesOn(Step(s, m), a) {
      assert AgreesOn(s, a);
      if m.Advance? && m.id in s.calls {
        AdvanceAgrees(s, m.id, m.world, a);
      } else if Step(s, m) != s {
        Untouched(s, Step(s, m), m.id, a);
      }
    }
  }

  lemma {:induction false} RunAgrees(actions: set<ConfirmedAction>, moves: seq<Move>)
    requires MovesOver(actions, moves) && KeysNameTraces(actions)
    ensures Agrees(actions, Exec(INITIAL, moves))
  {
    if moves == [] {
      assert forall a :: AgreesOn(INITIAL, a) by {
        assert forall t :: Types(EventsOf([], t)) == [];
      }
    } else {
      var before := moves[..|moves| - 1];
      RunAgrees(actions, before);
      RunDrawnFrom(actions, before);
      StepAgrees(actions, Exec(INITIAL, before), moves[|moves| - 1]);
    }
  }

  /** A single action run to its end without adapter errors. */
  lemma RunOneAction(actions: set<ConfirmedAction>, a: ConfirmedAction) returns (moves: seq<Move>)
    requires a in actions && a.status == Confirmed
    ensures MovesOver(actions, moves) && Quiescent(At(moves)) && OnlyActed(INITIAL, At(moves), 0, a)
    ensures HasStatus(At(moves).ledger, a.idempotencyKey, Succeeded)
    ensures Types(EventsOf(At(moves).audit, TraceId(a))) == SUCCESS_STORY
  {
    var m1 := ReachMarkExecuting(actions, [], 0, a);
    var m2 := ReachExecuted(actions, m1, 0);
    OnlyActedTransitive(INITIAL, At(m1), At(m2), 0, a);
    moves := FinishRun(m2, 0);
    OnlyActedTransitive(INITIAL, At(m2), At(moves), 0, a);
  }

  lemma FinishRun(moves: seq<Move>, id: nat) returns (next: seq<Move>)
    requires id in At(moves).calls && At(moves).calls[id].phase.MarkSucceeded?
    requires HasStatus(At(moves).ledger, At(moves).calls[id].action.idempotencyKey, Executing)
    ensures next == Next(Next(moves, id), id)
    ensures var a := At(moves).calls[id].action;
            && OnlyActed(At(moves), At(next), id, a) && At(next).calls[id].phase.Finished?
            && HasStatus(At(next).ledger, a.idempotencyKey, Succeeded)
            && Types(EventsOf(At(next).audit, TraceId(a))) == SUCCESS_STORY
  {
    var m1 := OtherStep(moves, id);
    next := RecordStep(m1, id);
    OnlyActedTransitive(At(moves), At(m1), At(next), id, At(moves).calls[id].action);
  }

  /** Two confirmed actions with one key and two traces, or two keys and one trace, can break the agreement:
      running the first alone leaves the second with a ledger and a trace that disagree. */
  lemma MismatchBreaksAgreement(actions: set<ConfirmedAction>, a: ConfirmedAction, b: ConfirmedAction)
    returns (moves: seq<Move>)
    requires a in actions && b in actions && a.status == Confirmed && b.status == Confirmed
    requires (a.idempotencyKey == b.idempotencyKey) != (TraceId(a) == TraceId(b))
    ensures MovesOver(actions, moves) && Quiescent(At(moves)) && !Settled(At(moves), b)
  {
    moves := RunOneAction(actions, a);
    if TraceId(a) != TraceId(b) {
      assert EventsOf(At(moves).audit, TraceId(b)) == EventsOf(INITIAL.audit, TraceId(b)) == [];
      assert |Types(EventsOf(At(moves).audit, TraceId(b)))| == 0 && |SUCCESS_STORY| == 3;
    }
  }

  ghost predicate AlwaysSettles(actions: set<ConfirmedAction>) {
    forall moves, a :: MovesOver(actions, moves) && Quiescent(At(moves)) && a in actions && a.status == Confirmed
                       ==> Settled(At(moves), a)
  }

  /** Exactly when do the ledger and the trace agree whenever no call is in progress?  When, among the confirmed
      actions submitted, keys and trace ids name each other.  A key that determines its tenant is not enough:
      the trace id `trace-T-K` can be the same for two different pairs of tenant and key. */
  lemma AgreementExactly(actions: set<ConfirmedAction>)
    ensures AlwaysSettles(actions) <==> KeysNameTraces(actions)
  {
    if KeysNameTraces(actions) {
      forall moves, a | MovesOver(actions, moves) && Quiescent(At(moves)) && a in actions && a.status == Confirmed
        ensures Settled(At(moves), a)
      {
        RunAgrees(actions, moves);
        assert AgreesOn(At(moves), a);
      }
    } else {
      var a, b :| a in actions && b in actions && a.status == Confirmed && b.status == Confirmed
                  && (a.idempotencyKey == b.idempotencyKey) != (TraceId(a) == TraceId(b));
      var moves := MismatchBreaksAgreement(actions, a, b);
    }
  }

  /** A trace that has started and that no call holds any more, whether it ended, was denied or lost its call to
      a failed dry run, is closed for good: no later run records or executes anything for it. */
  lemma {:induction false} ClosedTraceStaysClosed(moves: seq<Move>, more: seq<Move>, t: string)
    requires EventsOf(At(moves).audit, t) != [] && forall id :: !Holding(At(moves), id, t)
    ensures EventsOf(At(moves + more).audit, t) == EventsOf(At(moves).audit, t)
    ensures ExecutedIn(At(moves + more).executed, t) == ExecutedIn(At(moves).executed, t)
    ensures forall id :: !Holding(At(moves + more), id, t)
    decreases |more|
  {
    var n := |more|;
    if n == 0 {
      assert moves + more == moves;
    } else {
      var before := moves + more[..n - 1];
      ClosedTraceStaysClosed(moves, more[..n - 1], t);
      assert moves + more == before + [more[n - 1]];
      ExecSnoc(INITIAL, before, more[n - 1]);
      ClosedStep(At(before), more[n - 1], t);
    }
  }

  lemma ClosedStep(s: System, m: Move, t: string)
    requires Reachable(s) && EventsOf(s.audit, t) != [] && forall id :: !Holding(s, id, t)
    ensures EventsOf(Step(s, m).audit, t) == EventsOf(s.audit, t)
    ensures ExecutedIn(Step(s, m).executed, t) == ExecutedIn(s.executed, t)
    ensures forall id :: !Holding(Step(s, m), id, t)
  {
    var n := Step(s, m);
    if m.Advance? && m.id in s.calls {
      assert !Holding(s, m.id, t);
      ClosedAdvance(s, m.id, m.world, t);
      AdvanceMovesOneCall(s, m.id, m.world);
    }
    forall id ensures !Holding(n, id, t) {
      assert !Holding(s, id, t);
    }
  }

  /** A call that does not hold a started trace cannot take it, write to it or execute for it. */
  lemma ClosedAdvance(s: System, id: nat, w: World, t: string)
    requires Reachable(s) && id in s.calls && EventsOf(s.audit, t) != [] && !Holding(s, id, t)
    ensures EventsOf(AdvanceCall(s, id, w).audit, t) == EventsOf(s.audit, t)
    ensures ExecutedIn(AdvanceCall(s, id, w).executed, t) == ExecutedIn(s.executed, t)
    ensures !Holding(AdvanceCall(s, id, w), id, t)
  {
    var n := AdvanceCall(s, id, w);
    CallIsOk(s, id);
    AppendSucceeds(s, id);
    if s.calls[id].phase.SubmitAction? {
      SubmitNeverSkipsTheLock(s, id);
    }
    if n.audit != s.audit {
      assert n.audit == s.audit + [n.audit[|s.audit|]];
      EventsOfAppend(s.audit, n.audit[|s.audit|], t);
    }
    if n.executed != s.executed {
      assert n.executed[..|s.executed|] == s.executed;
    }
  }

  // ---------------------------------------------------------------- which actions can still be executed

  /** Between the two states the adapter was asked to execute `a`. */
  predicate ExecutesIn(before: System, after: System, a: ConfirmedAction) {
    exists i :: |before.executed| <= i < |after.executed| && after.executed[i] == a
  }

  /** No call under this key is past its submission, and the ledger's record of it has left Confirmed. */
  ghost predicate KeySpent(s: System, key: string) {
    && key in s.ledger.records && s.ledger.records[key].status in {Executing, Succeeded, Failed}
    && forall id :: id in s.calls && s.calls[id].action.idempotencyKey == key ==> !Works(s.calls[id].phase)
  }

  predicate Works(p: Phase) {
    Holds(p) || p.RecordConfirmed?
  }

  lemma SpentAdvance(s: System, id: nat, w: World, key: string)
    requires id in s.calls && KeySpent(s, key)
    ensures key in AdvanceCall(s, id, w).ledger.records
    ensures AdvanceCall(s, id, w).ledger.records[key].status in {Executing, Succeeded, Failed}
    ensures s.calls[id].action.idempotencyKey == key ==>
              !Works(AdvanceCall(s, id, w).calls[id].phase) && AdvanceCall(s, id, w).executed == s.executed
  {
  }

  lemma SpentStep(s: System, m: Move, key: string)
    requires KeySpent(s, key)
    ensures KeySpent(Step(s, m), key)
    ensures forall a: ConfirmedAction :: a.idempotencyKey == key ==> !ExecutesIn(s, Step(s, m), a)
  {
    if m.Advance? && m.id in s.calls {
      SpentAdvance(s, m.id, m.world, key);
      AdvanceMovesOneCall(s, m.id, m.world);
    }
  }

  /** Once no call is at work under a spent key, no later call executes under it. */
  lemma {:induction false} SpentKeyNeverExecutes(moves: seq<Move>, more: seq<Move>, a: ConfirmedAction)
    requires KeySpent(At(moves), a.idempotencyKey)
    ensures KeySpent(At(moves + more), a.idempotencyKey) && !ExecutesIn(At(moves), At(moves + more), a)
    decreases |more|
  {
    var n := |more|;
    if n == 0 {
      assert moves + more == moves;
    } else {
      var before := moves + more[..n - 1];
      SpentKeyNeverExecutes(moves, more[..n - 1], a);
      assert moves + more == before + [more[n - 1]];
      ExecSnoc(INITIAL, before, more[n - 1]);
      SpentStep(At(before), more[n - 1], a.idempotencyKey);
      StepGrows(At(before), more[n - 1]);
    }
  }

  lemma {:induction false} ExecutedInPrefix(xs: seq<ConfirmedAction>, n: nat, i: nat, t: string)
    requires n <= i < |xs| && TraceId(xs[i]) == t
    ensures ExecutedIn(xs, t) > ExecutedIn(xs[..n], t)
    decreases |xs|
  {
    var front := xs[..|xs| - 1];
    assert front[..n] == xs[..n];
    if i < |front| {
      ExecutedInPrefix(front, n, i, t);
    } else {
      ExecutedInGrows(front, n, t);
    }
  }

  lemma {:induction false} ExecutedInGrows(xs: seq<ConfirmedAction>, n: nat, t: string)
    requires n <= |xs|
    ensures ExecutedIn(xs[..n], t) <= ExecutedIn(xs, t)
    decreases |xs|
  {
    if n < |xs| {
      var front := xs[..|xs| - 1];
      assert front[..n] == xs[..n];
      ExecutedInGrows(front, n, t);
    } else {
      assert xs[..n] == xs;
    }
  }

  lemma {:induction false} RunGrows(moves: seq<Move>, more: seq<Move>)
    ensures At(moves).executed <= At(moves + more).executed
    decreases |more|
  {
    var n := |more|;
    if n == 0 {
      assert moves + more == moves;
    } else {
      RunGrows(moves, more[..n - 1]);
      assert moves + more == moves + more[..n - 1] + [more[n - 1]];
      ExecSnoc(INITIAL, moves + more[..n - 1], more[n - 1]);
      StepGrows(At(moves + more[..n - 1]), more[n - 1]);
    }
  }

  /** A trace that has started and has no call left closes its action for good. */
  lemma StartedTraceNeverExecutes(moves: seq<Move>, more: seq<Move>, a: ConfirmedAction)
    requires Quiescent(At(moves)) && EventsOf(At(moves).audit, TraceId(a)) != []
    ensures !ExecutesIn(At(moves), At(moves + more), a)
  {
    var t := TraceId(a);
    var s, n := At(moves), At(moves + more);
    assert forall id :: !Holding(s, id, t);
    ClosedTraceStaysClosed(moves, more, t);
    RunGrows(moves, more);
    assert n.executed[..|s.executed|] == s.executed;
    if ExecutesIn(s, n, a) {
      var i :| |s.executed| <= i < |n.executed| && n.executed[i] == a;
      ExecutedInPrefix(n.executed, |s.executed|, i, t);
    }
  }

  /** The trace is empty, and the ledger has no record of the key or a Confirmed one. */
  predicate StillOpen(s: System, a: ConfirmedAction) {
    && EventsOf(s.audit, TraceId(a)) == []
    && (a.idempotencyKey in s.ledger.records ==> HasStatus(s.ledger, a.idempotencyKey, Confirmed))
  }

  lemma OpenCanExecute(moves: seq<Move>, a: ConfirmedAction) returns (more: seq<Move>)
    requires a.status == Confirmed && StillOpen(At(moves), a)
    ensures ExecutesIn(At(moves), At(moves + more), a)
  {
    var all := set i | 0 <= i < |moves| && !moves[i].Advance? :: moves[i].action;
    var id := UnusedId(At(moves).calls.Keys);
    var m1 := ReachMarkExecuting(all + {a}, moves, id, a);
    var m2 := ReachExecuted(all + {a}, m1, id);
    more := m2[|moves|..];
    assert moves + more == m2;
    assert At(m2).executed[|At(moves).executed|] == a;
  }

  lemma ClosedCannotExecute(moves: seq<Move>, more: seq<Move>, a: ConfirmedAction)
    requires Quiescent(At(moves)) && !StillOpen(At(moves), a)
    ensures !ExecutesIn(At(moves), At(moves + more), a)
  {
    if EventsOf(At(moves).audit, TraceId(a)) != [] {
      StartedTraceNeverExecutes(moves, more, a);
    } else {
      QuietKeyIsSpent(moves, a.idempotencyKey);
      SpentKeyNeverExecutes(moves, more, a);
    }
  }

  lemma QuietKeyIsSpent(moves: seq<Move>, key: string)
    requires Quiescent(At(moves)) && key in At(moves).ledger.records && !HasStatus(At(moves).ledger, key, Confirmed)
    ensures KeySpent(At(moves), key)
  {
    ReachableInv(moves);
    assert RecordOk(key, At(moves).ledger.records[key]);
  }

  /** Exactly which confirmed actions can a run that has come to rest still execute?  Those whose trace is empty and
      whose key is unknown to the ledger or Confirmed there.  A recorded denial, a failed dry run, an event lost to
      another tenant's trace, or a record that moved on closes an action for good. */
  lemma CanStillExecuteExactly(moves: seq<Move>, a: ConfirmedAction)
    requires a.status == Confirmed && Quiescent(At(moves))
    ensures (exists more :: ExecutesIn(At(moves), At(moves + more), a)) <==> StillOpen(At(moves), a)
  {
    if StillOpen(At(moves), a) {
      var more := OpenCanExecute(moves, a);
    } else {
      forall more ensures !ExecutesIn(At(moves), At(moves + more), a) {
        ClosedCannotExecute(moves, more, a);
      }
    }
  }

  /** Two tenants, two keys, one trace id. */
  lemma TraceIdsCollide()
    ensures var a := ConfirmedAction("x", "a-b", "u", "c", Confirmed, None);
            var b := ConfirmedAction("y", "a", "u", "b-c", Confirmed, None);
            KeyDeterminesTenant({a, b}) && TraceId(a) == TraceId(b) && !AlwaysSettles({a, b})
  {
    var a := ConfirmedAction("x", "a-b", "u", "c", Confirmed, None);
    var b := ConfirmedAction("y", "a", "u", "b-c", Confirmed, None);
    assert a.idempotencyKey[0] != b.idempotencyKey[0];
    assert TraceId(a) == "trace-a-b-c" == TraceId(b);
    AgreementExactly({a, b});
  }
}

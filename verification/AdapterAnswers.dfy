/** Over every run: the audit trace and the ledger say what the adapter answered, not merely the same thing. */
module AdapterAnswers {
  import opened Wrappers
  import opened OperationLedgers
  import opened AuditLog
  import opened ExecutionProtocol
  import opened ExecutionTheorems
  import opened LedgerTraceAgreement

  datatype Reply = Reply(action: ConfirmedAction, answer: Result<AdapterExecution, AdapterError>)

  /** Every request handed to the adapter's `execute` in a run, with its answer. */
  function Replies(moves: seq<Move>): seq<Reply> {
    if moves == [] then []
    else
      var before := moves[..|moves| - 1];
      Replies(before) + NewReplies(Exec(INITIAL, before), moves[|moves| - 1])
  }

  function NewReplies(s: System, m: Move): seq<Reply> {
    if m.Advance? && m.id in s.calls && s.calls[m.id].phase.CallExecute?
    then [Reply(s.calls[m.id].action, m.world.execute)] else []
  }

  lemma NewRepliesAreNewExecutions(s: System, m: Move)
    ensures Step(s, m).executed == s.executed + seq(|NewReplies(s, m)|, i requires 0 <= i < |NewReplies(s, m)| =>
                                                     NewReplies(s, m)[i].action)
  {
  }

  /** The replies are those to the executed requests, one each, in order. */
  lemma {:induction false} RepliesMatchExecutions(moves: seq<Move>)
    ensures |Replies(moves)| == |Exec(INITIAL, moves).executed|
    ensures forall i :: 0 <= i < |Replies(moves)| ==> Replies(moves)[i].action == Exec(INITIAL, moves).executed[i]
  {
    if moves != [] {
      var before := moves[..|moves| - 1];
      RepliesMatchExecutions(before);
      NewRepliesAreNewExecutions(Exec(INITIAL, before), moves[|moves| - 1]);
    }
  }

  // ---------------------------------------------------------------- what it means to tell an answer

  /** The event carries the answer. */
  predicate Tells(e: AuditEvent, answer: Result<AdapterExecution, AdapterError>) {
    match answer
    case Ok(x) =>
      && e.eventType == ExecutionSucceeded && e.before == x.before && e.after == x.after
      && e.execution == Some(ExecutionResult(Some(x.adapterOperationId), None, None))
    case Err(error) =>
      && e.eventType == ExecutionFailed && e.before == None && e.after == None
      && e.execution == Some(ExecutionResult(None, Some(error.code), Some(error.safeMessage)))
  }

  /** The third event of the trace carries the answer to a request of that trace. */
  ghost predicate TraceTells(audit: seq<AuditEvent>, replies: seq<Reply>, t: string) {
    |EventsOf(audit, t)| == 3 ==>
      exists i :: 0 <= i < |replies| && TraceId(replies[i].action) == t
                  && Tells(EventsOf(audit, t)[2], replies[i].answer)
  }

  /** A record ends in Succeeded only after an Ok under its key, and in Failed only after an Err, whose message it
      keeps. */
  ghost predicate RecordTells(r: OperationRecord, replies: seq<Reply>) {
    && (r.status == Succeeded ==>
          exists i :: 0 <= i < |replies| && replies[i].action.idempotencyKey == r.idempotencyKey
                      && replies[i].answer.Ok?)
    && (r.status == Failed ==>
          exists i :: 0 <= i < |replies| && replies[i].action.idempotencyKey == r.idempotencyKey
                      && replies[i].answer.Err? && r.lastError == Some(replies[i].answer.error.safeMessage))
  }

  ghost predicate CallTells(c: Call, replies: seq<Reply>) {
    && (c.phase.MarkSucceeded? || c.phase.RecordSucceeded? ==> Reply(c.action, Ok(c.phase.execution)) in replies)
    && (c.phase.MarkFailed? || c.phase.RecordFailed? ==> Reply(c.action, Err(c.phase.error)) in replies)
  }

  ghost predicate AllTell(s: System, replies: seq<Reply>) {
    && (forall id :: id in s.calls ==> CallTells(s.calls[id], replies))
    && (forall t :: TraceTells(s.audit, replies, t))
    && (forall key :: key in s.ledger.records ==> RecordTells(s.ledger.records[key], replies))
  }

  // ---------------------------------------------------------------- every step keeps it

  lemma RecordTellsLater(r: OperationRecord, replies: seq<Reply>, more: seq<Reply>)
    requires RecordTells(r, replies)
    ensures RecordTells(r, replies + more)
  {
    var all := replies + more;
    assert forall i :: 0 <= i < |replies| ==> all[i] == replies[i];
  }

  lemma TraceTellsLater(audit: seq<AuditEvent>, replies: seq<Reply>, more: seq<Reply>, t: string)
    requires TraceTells(audit, replies, t)
    ensures TraceTells(audit, replies + more, t)
  {
    var all := replies + more;
    assert forall i :: 0 <= i < |replies| ==> all[i] == replies[i];
  }

  lemma ActingCallTells(s: System, id: nat, w: World, replies: seq<Reply>)
    requires id in s.calls && CallTells(s.calls[id], replies)
    ensures CallTells(AdvanceCall(s, id, w).calls[id], replies + NewReplies(s, Advance(id, w)))
  {
    var all := replies + NewReplies(s, Advance(id, w));
    if s.calls[id].phase.CallExecute? {
      assert all[|replies|] == Reply(s.calls[id].action, w.execute);
    }
  }

  lemma ActingRecordTells(s: System, id: nat, w: World, replies: seq<Reply>, key: string)
    requires id in s.calls && CallTells(s.calls[id], replies)
    requires key in s.ledger.records ==>
               RecordOk(key, s.ledger.records[key]) && RecordTells(s.ledger.records[key], replies)
    requires key in AdvanceCall(s, id, w).ledger.records
    ensures RecordTells(AdvanceCall(s, id, w).ledger.records[key], replies)
  {
    var c := s.calls[id];
    var r := AdvanceCall(s, id, w).ledger.records[key];
    if key !in s.ledger.records || r != s.ledger.records[key] {
      if c.phase.MarkSucceeded? {
        var i :| 0 <= i < |replies| && replies[i] == Reply(c.action, Ok(c.phase.execution));
        assert replies[i].answer.Ok? && replies[i].action.idempotencyKey == key;
      } else if c.phase.MarkFailed? {
        var i :| 0 <= i < |replies| && replies[i] == Reply(c.action, Err(c.phase.error));
        assert replies[i].answer.Err? && replies[i].action.idempotencyKey == key;
      }
    }
  }

  /** What an append adds to a trace, and how long that makes it. */
  lemma AppendedLength(s: System, id: nat, w: World)
    requires Reachable(s) && id in s.calls && AdvanceCall(s, id, w).audit != s.audit
    ensures var c := s.calls[id];
            var t, n := TraceId(c.action), AdvanceCall(s, id, w);
            && |n.audit| == |s.audit| + 1 && n.audit == s.audit + [n.audit[|s.audit|]]
            && n.audit[|s.audit|].traceId == t
            && (|EventsOf(s.audit, t)| == 2 ==> c.phase.RecordSucceeded? || c.phase.RecordFailed?)
  {
    CallIsOk(s, id);
    AppendSucceeds(s, id);
    var t := TraceId(s.calls[id].action);
    assert |Types(EventsOf(s.audit, t))| == |EventsOf(s.audit, t)|;
  }

  lemma ThirdEventTells(s: System, id: nat, w: World, replies: seq<Reply>)
    requires id in s.calls && CallTells(s.calls[id], replies)
    requires s.calls[id].phase.RecordSucceeded? || s.calls[id].phase.RecordFailed?
    requires AdvanceCall(s, id, w).audit != s.audit
    ensures var n := AdvanceCall(s, id, w);
            && |n.audit| == |s.audit| + 1
            && exists i :: 0 <= i < |replies| && replies[i].action == s.calls[id].action
                           && Tells(n.audit[|s.audit|], replies[i].answer)
  {
    var c := s.calls[id];
    var answer := if c.phase.RecordSucceeded? then Ok(c.phase.execution) else Err(c.phase.error);
    var i :| 0 <= i < |replies| && replies[i] == Reply(c.action, answer);
    assert Tells(AdvanceCall(s, id, w).audit[|s.audit|], replies[i].answer);
  }

  lemma ActingTraceTells(s: System, id: nat, w: World, replies: seq<Reply>, t: string)
    requires Reachable(s) && id in s.calls && CallTells(s.calls[id], replies) && TraceTells(s.audit, replies, t)
    ensures TraceTells(AdvanceCall(s, id, w).audit, replies, t)
  {
    var n := AdvanceCall(s, id, w);
    if n.audit != s.audit {
      AppendedLength(s, id, w);
      var e := n.audit[|s.audit|];
      EventsOfAppend(s.audit, e, t);
      if e.traceId == t && |EventsOf(n.audit, t)| == 3 {
        ThirdEventTells(s, id, w, replies);
        var i :| 0 <= i < |replies| && replies[i].action == s.calls[id].action && Tells(e, replies[i].answer);
        assert EventsOf(n.audit, t)[2] == e;
      }
    }
  }

  lemma StepTells(s: System, m: Move, replies: seq<Reply>)
    requires Reachable(s) && AllTell(s, replies)
    ensures AllTell(Step(s, m), replies + NewReplies(s, m))
  {
    var n, more := Step(s, m), NewReplies(s, m);
    var all := replies + more;
    if m.Advance? && m.id in s.calls {
      AdvanceMovesOneCall(s, m.id, m.world);
      ActingCallTells(s, m.id, m.world, replies);
      forall t ensures TraceTells(n.audit, all, t) {
        ActingTraceTells(s, m.id, m.world, replies, t);
        TraceTellsLater(n.audit, replies, more, t);
      }
      RecordsTell(s, m.id, m.world, replies, more);
    } else {
      assert all == replies;
    }
  }

  lemma RecordsTell(s: System, id: nat, w: World, replies: seq<Reply>, more: seq<Reply>)
    requires Reachable(s) && id in s.calls && CallTells(s.calls[id], replies)
    requires forall key :: key in s.ledger.records ==> RecordTells(s.ledger.records[key], replies)
    ensures var n := AdvanceCall(s, id, w);
            forall key :: key in n.ledger.records ==> RecordTells(n.ledger.records[key], replies + more)
  {
    var n := AdvanceCall(s, id, w);
    forall key | key in n.ledger.records ensures RecordTells(n.ledger.records[key], replies + more) {
      if key in s.ledger.records {
        RecordIsOk(s, key);
      }
      ActingRecordTells(s, id, w, replies, key);
      RecordTellsLater(n.ledger.records[key], replies, more);
    }
  }

  lemma RecordIsOk(s: System, key: string)
    requires Reachable(s) && key in s.ledger.records
    ensures RecordOk(key, s.ledger.records[key])
  {
    ReachableFacts(s);
  }

  lemma {:induction false} RunTells(moves: seq<Move>)
    ensures AllTell(Exec(INITIAL, moves), Replies(moves))
  {
    if moves == [] {
      forall t ensures TraceTells(INITIAL.audit, [], t) {
        assert EventsOf([], t) == [];
      }
    } else {
      var before := moves[..|moves| - 1];
      RunTells(before);
      assert Reachable(Exec(INITIAL, before));
      StepTells(Exec(INITIAL, before), moves[|moves| - 1], Replies(before));
    }
  }

  // ---------------------------------------------------------------- the results

  /** At every point of every run: a complete trace belongs to the one request of the trace that was executed, and its
      last event is the adapter's answer to it, with its operation id and states, or its error code and message. */
  lemma TraceTellsTheAnswer(moves: seq<Move>, t: string)
    requires |EventsOf(Exec(INITIAL, moves).audit, t)| == 3
    ensures var last := EventsOf(Exec(INITIAL, moves).audit, t)[2];
            && (exists i :: 0 <= i < |Replies(moves)| && TraceId(Replies(moves)[i].action) == t)
            && (forall i :: 0 <= i < |Replies(moves)| && TraceId(Replies(moves)[i].action) == t ==>
                  && Tells(last, Replies(moves)[i].answer)
                  && (last.eventType == ExecutionSucceeded <==> Replies(moves)[i].answer.Ok?)
                  && (last.eventType == ExecutionFailed <==> Replies(moves)[i].answer.Err?))
  {
    RunTells(moves);
    var s := Exec(INITIAL, moves);
    var replies := Replies(moves);
    assert TraceTells(s.audit, replies, t);
    var k :| 0 <= k < |replies| && TraceId(replies[k].action) == t && Tells(EventsOf(s.audit, t)[2], replies[k].answer);
    forall i | 0 <= i < |replies| && TraceId(replies[i].action) == t ensures i == k {
      RepliesMatchExecutions(moves);
      AtMostOncePerTrace(moves, t);
      OneExecution(s.executed, i, k, t);
    }
  }

  /** Two executions of one trace would be counted twice. */
  lemma {:induction false} OneExecution(xs: seq<ConfirmedAction>, i: nat, j: nat, t: string)
    requires i < |xs| && j < |xs| && TraceId(xs[i]) == t && TraceId(xs[j]) == t && ExecutedIn(xs, t) <= 1
    ensures i == j
  {
    var lo, hi := if i < j then i else j, if i < j then j else i;
    if lo < hi {
      assert xs[..hi][lo] == xs[lo];
      ExecutedInPrefix(xs, hi, hi, t);
      ExecutedInPrefix(xs[..hi], lo, lo, t);
    }
  }

  /** At every point of every run: a record is Succeeded only if some request under its key was answered Ok, and Failed
      only if one was answered with an error, whose message is the record's. */
  lemma LedgerTellsTheAnswer(moves: seq<Move>, key: string)
    requires key in Exec(INITIAL, moves).ledger.records
    ensures RecordTells(Exec(INITIAL, moves).ledger.records[key], Replies(moves))
  {
    RunTells(moves);
  }
}

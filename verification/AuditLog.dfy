/** Audit events, the per-action event numbering, and the append-only repository. */
module AuditLog {
  import opened Wrappers
  import opened Text

  datatype AuditEventType =
    | ConfirmedActionRecorded
    | DryRunExecuted
    | ExecutionDenied
    | ExecutionSucceeded
    | ExecutionFailed

  datatype AuditSubject = AuditSubject(actorId: string, tenantId: string, resourceId: string)

  datatype StateSummary = StateSummary(summary: string, referenceIds: seq<string>, contentHash: Option<string>)

  datatype ExecutionResult = ExecutionResult(
    adapterOperationId: Option<string>,
    errorCode: Option<string>,
    message: Option<string>)

  datatype AuditEvent = AuditEvent(
    eventId: string,
    traceId: string,
    sequence: nat,
    occurredAtMs: nat,
    eventType: AuditEventType,
    subject: AuditSubject,
    before: Option<StateSummary>,
    after: Option<StateSummary>,
    execution: Option<ExecutionResult>)

  /** What one event says, apart from the identity and number its trace gives it. */
  datatype EventBody = EventBody(
    eventType: AuditEventType,
    before: Option<StateSummary>,
    after: Option<StateSummary>,
    execution: Option<ExecutionResult>)

  function EventId(traceId: string, sequence: nat): string {
    traceId + "-evt-" + Decimal(sequence)
  }

  function MakeEvent(traceId: string, subject: AuditSubject, sequence: nat, at: nat, body: EventBody): AuditEvent {
    AuditEvent(EventId(traceId, sequence), traceId, sequence, at, body.eventType, subject,
               body.before, body.after, body.execution)
  }

  /** An event id names one trace and one number: whatever the trace id contains, ids never collide. */
  lemma EventIdInjective(t1: string, m: nat, t2: string, n: nat)
    requires EventId(t1, m) == EventId(t2, n)
    ensures t1 == t2 && m == n
  {
    assert EventId(t1, m) == (t1 + "-evt") + ['-'] + Decimal(m);
    assert EventId(t2, n) == (t2 + "-evt") + ['-'] + Decimal(n);
    DigitSuffixUnique(t1 + "-evt", '-', Decimal(m), t2 + "-evt", '-', Decimal(n));
    assert t1 == (t1 + "-evt")[..|t1|] && t2 == (t2 + "-evt")[..|t2|];
    DecimalInjective(m, n);
  }

  // ---------------------------------------------------------------- the log

  /** The events of one trace, in the order they were appended. */
  function EventsOf(log: seq<AuditEvent>, traceId: string): (es: seq<AuditEvent>)
  {
    if log == [] then []
    else
      var rest := EventsOf(log[..|log| - 1], traceId);
      if log[|log| - 1].traceId == traceId then rest + [log[|log| - 1]] else rest
  }

  predicate HasEventId(log: seq<AuditEvent>, id: string) {
    exists i :: 0 <= i < |log| && log[i].eventId == id
  }

  lemma EventsOfAppend(log: seq<AuditEvent>, e: AuditEvent, traceId: string)
    ensures EventsOf(log + [e], traceId)
         == if e.traceId == traceId then EventsOf(log, traceId) + [e] else EventsOf(log, traceId)
  {
    assert (log + [e])[..|log|] == log;
  }

  /** An event is in its trace's list exactly when it is in the log. */
  lemma {:induction false} EventsOfMember(log: seq<AuditEvent>, e: AuditEvent)
    ensures e in log <==> e in EventsOf(log, e.traceId)
  {
    if log != [] {
      var rest := log[..|log| - 1];
      EventsOfMember(rest, e);
      assert log == rest + [log[|log| - 1]];
      assert e in log <==> e in rest || e == log[|log| - 1];
    }
  }

  // ---------------------------------------------------------------- sorting by sequence

  predicate SortedBySequence(es: seq<AuditEvent>) {
    forall i, j :: 0 <= i < j < |es| ==> es[i].sequence <= es[j].sequence
  }

  /** Stable: a new element goes after every element with the same number. */
  function InsertBySequence(es: seq<AuditEvent>, e: AuditEvent): (r: seq<AuditEvent>)
    ensures multiset(r) == multiset(es) + multiset{e}
  {
    if es == [] || es[|es| - 1].sequence <= e.sequence then es + [e]
    else
      assert es == es[..|es| - 1] + [es[|es| - 1]];
      InsertBySequence(es[..|es| - 1], e) + [es[|es| - 1]]
  }

  function SortBySequence(es: seq<AuditEvent>): (r: seq<AuditEvent>)
    ensures multiset(r) == multiset(es)
  {
    if es == [] then []
    else
      assert es == es[..|es| - 1] + [es[|es| - 1]];
      InsertBySequence(SortBySequence(es[..|es| - 1]), es[|es| - 1])
  }

  lemma {:induction false} InsertKeepsSorted(es: seq<AuditEvent>, e: AuditEvent)
    requires SortedBySequence(es)
    ensures SortedBySequence(InsertBySequence(es, e))
  {
    if es != [] && es[|es| - 1].sequence > e.sequence {
      var front := es[..|es| - 1];
      InsertKeepsSorted(front, e);
      var r := InsertBySequence(front, e);
      forall i | 0 <= i < |r| ensures r[i].sequence <= es[|es| - 1].sequence {
        assert r[i] in multiset(r);
        assert r[i] in front || r[i] == e;
      }
    }
  }

  lemma {:induction false} SortSorts(es: seq<AuditEvent>)
    ensures SortedBySequence(SortBySequence(es))
  {
    if es != [] {
      SortSorts(es[..|es| - 1]);
      InsertKeepsSorted(SortBySequence(es[..|es| - 1]), es[|es| - 1]);
    }
  }

  lemma {:induction false} SortOfSorted(es: seq<AuditEvent>)
    requires SortedBySequence(es)
    ensures SortBySequence(es) == es
  {
    if es != [] {
      SortOfSorted(es[..|es| - 1]);
      assert es == es[..|es| - 1] + [es[|es| - 1]];
    }
  }

  /** The events with one sequence number, in order. */
  function WithSequence(es: seq<AuditEvent>, n: nat): seq<AuditEvent> {
    if es == [] then []
    else
      var rest := WithSequence(es[..|es| - 1], n);
      if es[|es| - 1].sequence == n then rest + [es[|es| - 1]] else rest
  }

  lemma WithSequenceAppend(es: seq<AuditEvent>, e: AuditEvent, n: nat)
    ensures WithSequence(es + [e], n) == if e.sequence == n then WithSequence(es, n) + [e] else WithSequence(es, n)
  {
    assert (es + [e])[..|es|] == es;
  }

  lemma {:induction false} InsertIsStable(es: seq<AuditEvent>, e: AuditEvent, n: nat)
    ensures WithSequence(InsertBySequence(es, e), n)
         == if e.sequence == n then WithSequence(es, n) + [e] else WithSequence(es, n)
  {
    if es == [] || es[|es| - 1].sequence <= e.sequence {
      WithSequenceAppend(es, e, n);
    } else {
      var front, last := es[..|es| - 1], es[|es| - 1];
      InsertIsStable(front, e, n);
      WithSequenceAppend(InsertBySequence(front, e), last, n);
    }
  }

  /** Events with the same number keep their order. */
  lemma {:induction false} SortIsStable(es: seq<AuditEvent>, n: nat)
    ensures WithSequence(SortBySequence(es), n) == WithSequence(es, n)
  {
    if es != [] {
      SortIsStable(es[..|es| - 1], n);
      InsertIsStable(SortBySequence(es[..|es| - 1]), es[|es| - 1], n);
    }
  }

  // ---------------------------------------------------------------- the mutable objects

  datatype AppendError = DuplicateEventId(eventId: string)

  class AuditTrace {
    const traceId: string
    const subject: AuditSubject
    var nextSequence: nat

    constructor (traceId: string, subject: AuditSubject)
      ensures this.traceId == traceId && this.subject == subject && nextSequence == 1
    {
      this.traceId := traceId;
      this.subject := subject;
      nextSequence := 1;
    }

    /** Numbers the next event of this trace. */
    method Record(at: nat, body: EventBody) returns (e: AuditEvent)
      modifies this
      ensures nextSequence == old(nextSequence) + 1
      ensures e == MakeEvent(traceId, subject, old(nextSequence), at, body)
    {
      var sequence := AllocateSequence();
      e := MakeEvent(traceId, subject, sequence, at, body);
    }

    method AllocateSequence() returns (sequence: nat)
      modifies this
      ensures sequence == old(nextSequence) && nextSequence == old(nextSequence) + 1
    {
      sequence := nextSequence;
      nextSequence := nextSequence + 1;
    }
  }

  class AuditEventRepository {
    var events: seq<AuditEvent>

    constructor ()
      ensures events == []
    {
      events := [];
    }

    /** Appends unless the id is taken; a refused append changes nothing. */
    method Append(event: AuditEvent) returns (r: Result<(), AppendError>)
      modifies this
      ensures r.Err? <==> HasEventId(old(events), event.eventId)
      ensures r.Err? ==> events == old(events) && r.error == DuplicateEventId(event.eventId)
      ensures r.Ok? ==> events == old(events) + [event]
    {
      var i := 0;
      while i < |events|
        invariant 0 <= i <= |events|
        invariant forall j :: 0 <= j < i ==> events[j].eventId != event.eventId
      {
        if events[i].eventId == event.eventId {
          return Err(DuplicateEventId(event.eventId));
        }
        i := i + 1;
      }
      events := events + [event];
      return Ok(());
    }

    method FindByTraceId(traceId: string) returns (matching: seq<AuditEvent>)
      ensures SortedBySequence(matching)
      ensures multiset(matching) == multiset(EventsOf(events, traceId))
      ensures forall n :: WithSequence(matching, n) == WithSequence(EventsOf(events, traceId), n)
      ensures SortedBySequence(EventsOf(events, traceId)) ==> matching == EventsOf(events, traceId)
    {
      matching := [];
      var i := 0;
      while i < |events|
        invariant 0 <= i <= |events|
        invariant matching == EventsOf(events[..i], traceId)
      {
        assert events[..i + 1] == events[..i] + [events[i]];
        EventsOfAppend(events[..i], events[i], traceId);
        if events[i].traceId == traceId {
          matching := matching + [events[i]];
        }
        i := i + 1;
      }
      assert events[..i] == events;
      SortSorts(matching);
      if SortedBySequence(matching) {
        SortOfSorted(matching);
      }
      forall n ensures WithSequence(SortBySequence(matching), n) == WithSequence(matching, n) {
        SortIsStable(matching, n);
      }
      matching := SortBySequence(matching);
    }
  }
}

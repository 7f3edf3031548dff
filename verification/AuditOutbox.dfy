/** The audit outbox: what each SQL statement does to a row, and the claim, lease and mark protocol over any number
    of workers with their own clocks, crashes and operator requeues. */
module AuditOutbox {
  import opened Wrappers

  // ---------------------------------------------------------------- rows and statements

  datatype Status = Pending | Sent | Failed

  datatype Row = Row(
    tenantId: string,
    stream: string,
    status: Status,
    attemptCount: nat,
    nextAttemptAt: Option<int>,
    createdAt: int,
    sentAt: Option<int>)

  const RECOVERY_STREAM := "audit-events"

  datatype Statement =
    | ClaimDue(tenantId: string, stream: string, now: int, leaseUntil: int)
    | SentForAttempt(tenantId: string, attempt: nat, leaseUntil: int, at: int)
    | RetryableForAttempt(tenantId: string, attempt: nat, leaseUntil: int, next: int)
    | FailedForAttempt(tenantId: string, attempt: nat, leaseUntil: int)
    | MarkSent(tenantId: string, at: int)
    | MarkRetryable(tenantId: string, next: int)
    | MarkFailed(tenantId: string)
    | RequeueFailed(tenantId: string, attempt: nat, next: int)

  predicate Fenced(r: Row, tenantId: string, attempt: nat, leaseUntil: int) {
    && r.tenantId == tenantId
    && r.attemptCount == attempt
    && r.nextAttemptAt == Some(leaseUntil)
    && r.status == Pending
  }

  /** The statement's WHERE clause, apart from the row's id. */
  predicate Matches(r: Row, st: Statement) {
    match st
    case ClaimDue(tenantId, stream, now, _) =>
      && r.tenantId == tenantId && r.stream == stream && r.status == Pending
      && (r.nextAttemptAt.None? || r.nextAttemptAt.value <= now)
    case SentForAttempt(tenantId, attempt, leaseUntil, _) => Fenced(r, tenantId, attempt, leaseUntil)
    case RetryableForAttempt(tenantId, attempt, leaseUntil, _) => Fenced(r, tenantId, attempt, leaseUntil)
    case FailedForAttempt(tenantId, attempt, leaseUntil) => Fenced(r, tenantId, attempt, leaseUntil)
    case MarkSent(tenantId, _) => r.tenantId == tenantId && r.status in {Pending, Sent}
    case MarkRetryable(tenantId, _) => r.tenantId == tenantId && r.status == Pending
    case MarkFailed(tenantId) => r.tenantId == tenantId && r.status in {Pending, Failed}
    case RequeueFailed(tenantId, attempt, _) =>
      && r.tenantId == tenantId && r.attemptCount == attempt && r.stream == RECOVERY_STREAM
      && r.status == Failed && r.sentAt.None?
  }

  function Coalesce(a: Option<int>, b: int): Option<int> {
    if a.Some? then a else Some(b)
  }

  /** The statement's SET clause. */
  function Updated(r: Row, st: Statement): Row {
    match st
    case ClaimDue(_, _, _, leaseUntil) => r.(attemptCount := r.attemptCount + 1, nextAttemptAt := Some(leaseUntil))
    case SentForAttempt(_, _, _, at) => r.(status := Sent, sentAt := Coalesce(r.sentAt, at))
    case RetryableForAttempt(_, _, _, next) => r.(status := Pending, nextAttemptAt := Some(next))
    case FailedForAttempt(_, _, _) => r.(status := Failed, nextAttemptAt := None)
    case MarkSent(_, at) => r.(status := Sent, sentAt := Coalesce(r.sentAt, at))
    case MarkRetryable(_, next) => r.(status := Pending, nextAttemptAt := Some(next))
    case MarkFailed(_) => r.(status := Failed, nextAttemptAt := None)
    case RequeueFailed(_, _, next) => r.(status := Pending, nextAttemptAt := Some(next), sentAt := None)
  }

  /** One statement against one row; the row is returned unchanged when the WHERE clause misses it. */
  function Execute(r: Row, st: Statement): Row {
    if Matches(r, st) then Updated(r, st) else r
  }

  function ExecuteAll(r: Row, sts: seq<Statement>): Row {
    if sts == [] then r else Execute(ExecuteAll(r, sts[..|sts| - 1]), sts[|sts| - 1])
  }

  function NewRow(tenantId: string, stream: string, nextAttemptAt: int, createdAt: int): Row {
    Row(tenantId, stream, Pending, 0, Some(nextAttemptAt), createdAt, None)
  }

  /** Under every statement, fenced or not, in any order: `sent_at` is set exactly on sent rows, and a sent row
      never changes again in any column. */
  lemma {:induction false} SentIsFinal(r: Row, sts: seq<Statement>)
    requires r.sentAt.Some? <==> r.status == Sent
    ensures ExecuteAll(r, sts).sentAt.Some? <==> ExecuteAll(r, sts).status == Sent
    ensures r.status == Sent ==> ExecuteAll(r, sts) == r
    ensures ExecuteAll(r, sts).attemptCount >= r.attemptCount
  {
    if sts != [] {
      SentIsFinal(r, sts[..|sts| - 1]);
    }
  }

  /** When the next claim takes a row, by what happened to it last: a new row from its first time on, a claimed one
      from the end of the lease, a retried or requeued one from the time it was given, a sent or failed one never. */
  lemma NextClaimExactly(r: Row, st: Statement, now: int, leaseUntil: int)
    requires Matches(r, st)
    ensures var next := ClaimDue(r.tenantId, r.stream, now, leaseUntil);
            && (st.ClaimDue? ==> (Matches(Execute(r, st), next) <==> now >= st.leaseUntil))
            && (st.RetryableForAttempt? || st.MarkRetryable? || st.RequeueFailed? ==>
                  (Matches(Execute(r, st), next) <==> now >= st.next))
            && (st.SentForAttempt? || st.MarkSent? || st.FailedForAttempt? || st.MarkFailed? ==>
                  !Matches(Execute(r, st), next))
  {
  }

  lemma FirstClaimExactly(tenantId: string, stream: string, from: int, createdAt: int, claim: Statement)
    requires claim.ClaimDue?
    ensures var r := NewRow(tenantId, stream, from, createdAt);
            && (Matches(r, claim) <==> claim.tenantId == tenantId && claim.stream == stream && claim.now >= from)
            && (Matches(r, claim) ==> Execute(r, claim).attemptCount == 1)
  {
  }

  /** Which rows the marks land on: the fenced ones on the pending row of exactly this attempt and lease, the unfenced
      ones also on rows already there, a requeue on an unsent failed row of the audit stream at this attempt. */
  lemma MarksLandExactly(r: Row, tenantId: string, attempt: nat, leaseUntil: int, at: int)
    ensures var fenced := r.tenantId == tenantId && r.status == Pending && r.attemptCount == attempt
                          && r.nextAttemptAt == Some(leaseUntil);
            && (Matches(r, SentForAttempt(tenantId, attempt, leaseUntil, at)) <==> fenced)
            && (Matches(r, RetryableForAttempt(tenantId, attempt, leaseUntil, at)) <==> fenced)
            && (Matches(r, FailedForAttempt(tenantId, attempt, leaseUntil)) <==> fenced)
    ensures Matches(r, MarkSent(tenantId, at)) <==> r.tenantId == tenantId && r.status != Failed
    ensures Matches(r, MarkRetryable(tenantId, at)) <==> r.tenantId == tenantId && r.status == Pending
    ensures Matches(r, MarkFailed(tenantId)) <==> r.tenantId == tenantId && r.status != Sent
    ensures Matches(r, RequeueFailed(tenantId, attempt, at))
       <==> r.tenantId == tenantId && r.stream == "audit-events" && r.status == Failed && r.sentAt == None
            && r.attemptCount == attempt
    ensures forall st :: Matches(r, st) && (st == SentForAttempt(tenantId, attempt, leaseUntil, at)
                                            || st == MarkSent(tenantId, at)) ==>
              Execute(r, st) == r.(status := Sent, sentAt := if r.sentAt == None then Some(at) else r.sentAt)
  {
  }

  // ---------------------------------------------------------------- one message and its history

  datatype Delivery = DeliveredSent | DeliveredRetryable | DeliveredFailed

  /** What became of a claim: nothing yet (perhaps for ever), a mark that missed its row, or a mark that landed. */
  datatype Outcome = Unresolved | Stale(answer: Delivery) | Landed(mark: Delivery, answer: Delivery)

  /** A claim made by one `drain_once` call; the n-th claim of a message is its attempt n. */
  datatype Claim = Claim(drain: nat, claimedAt: int, leaseUntil: int, outcome: Outcome)

  /** A row with the record of what happened to it; no statement reads the record. */
  datatype Message = Message(row: Row, claims: seq<Claim>, requeues: nat)

  /** A retryable delivery on the last allowed attempt counts as failed. */
  predicate Exhausted(answer: Delivery, attempt: nat, maxAttempts: nat) {
    answer == DeliveredRetryable && attempt >= maxAttempts
  }

  function Effective(answer: Delivery, attempt: nat, maxAttempts: nat): Delivery {
    if Exhausted(answer, attempt, maxAttempts) then DeliveredFailed else answer
  }

  /** The fenced statement a worker issues for a delivery; `at` is the sent time or the next attempt time. */
  function MarkStatement(tenantId: string, d: Delivery, attempt: nat, leaseUntil: int, at: int): Statement {
    match d
    case DeliveredSent => SentForAttempt(tenantId, attempt, leaseUntil, at)
    case DeliveredRetryable => RetryableForAttempt(tenantId, attempt, leaseUntil, at)
    case DeliveredFailed => FailedForAttempt(tenantId, attempt, leaseUntil)
  }

  function ClaimMessage(m: Message, drain: nat, st: Statement): Message
    requires st.ClaimDue?
  {
    if Matches(m.row, st)
    then m.(row := Updated(m.row, st), claims := m.claims + [Claim(drain, st.now, st.leaseUntil, Unresolved)])
    else m
  }

  predicate MayMark(m: Message, drain: nat, attempt: nat) {
    && 1 <= attempt <= |m.claims|
    && m.claims[attempt - 1].drain == drain
    && m.claims[attempt - 1].outcome == Unresolved
  }

  /** The claimer of `attempt` issues its one mark. */
  function MarkMessage(m: Message, attempt: nat, answer: Delivery, maxAttempts: nat, at: int): Message
    requires 1 <= attempt <= |m.claims|
  {
    var claim := m.claims[attempt - 1];
    var d := Effective(answer, attempt, maxAttempts);
    var st := MarkStatement(m.row.tenantId, d, attempt, claim.leaseUntil, at);
    var outcome := if Matches(m.row, st) then Landed(d, answer) else Stale(answer);
    m.(row := Execute(m.row, st), claims := m.claims[attempt - 1 := claim.(outcome := outcome)])
  }

  function RequeueMessage(m: Message, st: Statement): Message
    requires st.RequeueFailed?
  {
    if Matches(m.row, st) then m.(row := Updated(m.row, st), requeues := m.requeues + 1) else m
  }

  // ---------------------------------------------------------------- the protocol

  type Outbox = map<int, Message>

  datatype Step =
    | Enqueue(id: int, tenantId: string, stream: string, nextAttemptAt: int, createdAt: int)
    | ClaimBatch(drain: nat, ids: set<int>, due: Statement)
    | Mark(drain: nat, id: int, attempt: nat, answer: Delivery, maxAttempts: nat, at: int)
    | Requeue(id: int, statement: Statement)

  /** A step that is not enabled does nothing.  A claim takes any subset of the due rows: LIMIT, the order and
      SKIP LOCKED only choose which.  A crashed worker is one whose marks never come. */
  function Advance(o: Outbox, s: Step): Outbox {
    match s
    case Enqueue(id, tenantId, stream, next, created) =>
      if id in o then o else o[id := Message(NewRow(tenantId, stream, next, created), [], 0)]
    case ClaimBatch(drain, ids, due) =>
      if !due.ClaimDue? then o
      else map id | id in o :: if id in ids then ClaimMessage(o[id], drain, due) else o[id]
    case Mark(drain, id, attempt, answer, maxAttempts, at) =>
      if id in o && MayMark(o[id], drain, attempt)
      then o[id := MarkMessage(o[id], attempt, answer, maxAttempts, at)] else o
    case Requeue(id, st) =>
      if id in o && st.RequeueFailed? then o[id := RequeueMessage(o[id], st)] else o
  }

  function Run(o: Outbox, steps: seq<Step>): Outbox {
    if steps == [] then o else Advance(Run(o, steps[..|steps| - 1]), steps[|steps| - 1])
  }

  lemma {:induction false} RunConcat(o: Outbox, s1: seq<Step>, s2: seq<Step>)
    ensures Run(o, s1 + s2) == Run(Run(o, s1), s2)
    decreases |s2|
  {
    if s2 == [] {
      assert s1 + s2 == s1;
    } else {
      assert (s1 + s2)[..|s1 + s2| - 1] == s1 + s2[..|s2| - 1];
      RunConcat(o, s1, s2[..|s2| - 1]);
    }
  }

  /** How many claims ended in a landed mark of this kind. */
  function LandedCount(claims: seq<Claim>, d: Delivery): nat {
    if claims == [] then 0
    else LandedCount(claims[..|claims| - 1], d)
         + if claims[|claims| - 1].outcome.Landed? && claims[|claims| - 1].outcome.mark == d then 1 else 0
  }

  /** Claims with no landed mark: still being delivered, crashed, or beaten to it. */
  function UnlandedCount(claims: seq<Claim>): nat {
    if claims == [] then 0
    else UnlandedCount(claims[..|claims| - 1]) + if claims[|claims| - 1].outcome.Landed? then 0 else 1
  }

  predicate ClaimOk(m: Message, i: nat)
    requires i < |m.claims|
  {
    var c := m.claims[i];
    && (c.outcome.Landed? && c.outcome.mark == DeliveredSent ==>
          c.outcome.answer == DeliveredSent && i + 1 == |m.claims| && m.row.status == Sent)
    && (i + 1 < |m.claims| && !c.outcome.Landed? ==> m.claims[i + 1].claimedAt >= c.leaseUntil)
  }

  predicate MessageOk(m: Message) {
    && m.row.attemptCount == |m.claims|
    && (m.row.sentAt.Some? <==> m.row.status == Sent)
    && (forall i :: 0 <= i < |m.claims| ==> ClaimOk(m, i))
    && (m.row.status == Sent ==>
          m.claims != [] && m.claims[|m.claims| - 1].outcome == Landed(DeliveredSent, DeliveredSent))
    && (m.row.status == Failed ==>
          m.claims != [] && m.claims[|m.claims| - 1].outcome.Landed?
          && m.claims[|m.claims| - 1].outcome.mark == DeliveredFailed)
    && (m.claims != [] && !m.claims[|m.claims| - 1].outcome.Landed? ==>
          m.row.status == Pending && m.row.nextAttemptAt == Some(m.claims[|m.claims| - 1].leaseUntil))
    && LandedCount(m.claims, DeliveredFailed) == m.requeues + if m.row.status == Failed then 1 else 0
  }

  lemma {:induction false} CountAfterUpdate(claims: seq<Claim>, i: nat, c: Claim, d: Delivery)
    requires i < |claims| && !claims[i].outcome.Landed?
    ensures LandedCount(claims[i := c], d)
         == LandedCount(claims, d) + if c.outcome.Landed? && c.outcome.mark == d then 1 else 0
    decreases |claims|
  {
    var n := |claims| - 1;
    if i < n {
      assert claims[i := c][..n] == claims[..n][i := c];
      CountAfterUpdate(claims[..n], i, c, d);
    } else {
      assert claims[i := c][..n] == claims[..n];
    }
  }

  lemma ClaimKeepsOk(m: Message, drain: nat, st: Statement)
    requires MessageOk(m) && st.ClaimDue?
    ensures MessageOk(ClaimMessage(m, drain, st))
  {
    var n := ClaimMessage(m, drain, st);
    if Matches(m.row, st) {
      assert n.claims[..|m.claims|] == m.claims;
      forall i | 0 <= i < |n.claims| ensures ClaimOk(n, i) {
        if i < |m.claims| {
          assert ClaimOk(m, i);
        }
      }
    }
  }

  /** A mark lands only on the newest claim, and while its lease is still the row's fence. */
  lemma LandsOnlyOnNewest(m: Message, attempt: nat, answer: Delivery, maxAttempts: nat, at: int)
    requires MessageOk(m) && 1 <= attempt <= |m.claims| && m.claims[attempt - 1].outcome == Unresolved
    ensures MarkMessage(m, attempt, answer, maxAttempts, at).claims[attempt - 1].outcome.Landed?
       <==> attempt == |m.claims|
  {
  }

  lemma MarkKeepsOk(m: Message, attempt: nat, answer: Delivery, maxAttempts: nat, at: int)
    requires MessageOk(m) && 1 <= attempt <= |m.claims| && m.claims[attempt - 1].outcome == Unresolved
    ensures MessageOk(MarkMessage(m, attempt, answer, maxAttempts, at))
  {
    var n := MarkMessage(m, attempt, answer, maxAttempts, at);
    LandsOnlyOnNewest(m, attempt, answer, maxAttempts, at);
    CountAfterUpdate(m.claims, attempt - 1, n.claims[attempt - 1], DeliveredFailed);
    forall i | 0 <= i < |n.claims| ensures ClaimOk(n, i) {
      assert ClaimOk(m, i);
    }
  }

  lemma RequeueKeepsOk(m: Message, st: Statement)
    requires MessageOk(m) && st.RequeueFailed?
    ensures MessageOk(RequeueMessage(m, st))
  {
    var n := RequeueMessage(m, st);
    forall i | 0 <= i < |n.claims| ensures ClaimOk(n, i) {
      assert ClaimOk(m, i);
    }
  }

  ghost predicate OutboxOk(o: Outbox) {
    forall id :: id in o ==> MessageOk(o[id])
  }

  lemma AdvanceKeepsOk(o: Outbox, s: Step)
    requires OutboxOk(o)
    ensures OutboxOk(Advance(o, s))
  {
    forall id | id in Advance(o, s) ensures MessageOk(Advance(o, s)[id]) {
      match s
      case Enqueue(_, _, _, _, _) =>
      case ClaimBatch(drain, ids, due) => if due.ClaimDue? { ClaimKeepsOk(o[id], drain, due); }
      case Mark(drain, i, attempt, answer, maxAttempts, at) =>
        if i == id && MayMark(o[i], drain, attempt) { MarkKeepsOk(o[i], attempt, answer, maxAttempts, at); }
      case Requeue(i, st) => if i == id && st.RequeueFailed? { RequeueKeepsOk(o[i], st); }
    }
  }

  lemma {:induction false} RunKeepsOk(o: Outbox, steps: seq<Step>)
    requires OutboxOk(o)
    ensures OutboxOk(Run(o, steps))
  {
    if steps != [] {
      RunKeepsOk(o, steps[..|steps| - 1]);
      AdvanceKeepsOk(Run(o, steps[..|steps| - 1]), steps[|steps| - 1]);
    }
  }

  // ---------------------------------------------------------------- what whole runs promise

  /** `later` continues `earlier`: claims are never removed, renumbered or re-leased, and a resolved claim keeps
      its outcome. */
  predicate Continues(earlier: Message, later: Message) {
    && |earlier.claims| <= |later.claims|
    && (forall i :: 0 <= i < |earlier.claims| ==>
                      && later.claims[i] == earlier.claims[i].(outcome := later.claims[i].outcome)
                      && (earlier.claims[i].outcome != Unresolved ==> later.claims[i] == earlier.claims[i]))
  }

  lemma AdvanceContinues(o: Outbox, s: Step, id: int)
    requires id in o
    ensures id in Advance(o, s) && Continues(o[id], Advance(o, s)[id])
  {
  }

  /** Each attempt belongs to one claim for ever, and at most one mark is recorded for it. */
  lemma {:induction false} ClaimsArePermanent(o: Outbox, steps: seq<Step>, id: int)
    requires id in o
    ensures id in Run(o, steps) && Continues(o[id], Run(o, steps)[id])
  {
    if steps != [] {
      ClaimsArePermanent(o, steps[..|steps| - 1], id);
      AdvanceContinues(Run(o, steps[..|steps| - 1]), steps[|steps| - 1], id);
    }
  }

  /** Fencing, at every point of every run from an empty outbox: the stored attempt number is the number of claims;
      a claim with no landed mark is followed by a later claim only at a claimer time at or after its lease end;
      and a mark still outstanding for any claim but the newest can no longer land. */
  lemma Fencing(steps: seq<Step>, id: int)
    requires id in Run(map[], steps)
    ensures var m := Run(map[], steps)[id];
            && m.row.attemptCount == |m.claims|
            && (forall i :: 0 <= i < |m.claims| - 1 && !m.claims[i].outcome.Landed? ==>
                              m.claims[i + 1].claimedAt >= m.claims[i].leaseUntil)
            && (forall attempt, answer, maxAttempts, at ::
                  1 <= attempt < |m.claims| && m.claims[attempt - 1].outcome == Unresolved ==>
                    var n := MarkMessage(m, attempt, answer, maxAttempts, at);
                    n.row == m.row && n.claims[attempt - 1].outcome == Stale(answer))
  {
    RunKeepsOk(map[], steps);
    var m := Run(map[], steps)[id];
    forall i | 0 <= i < |m.claims| - 1 && !m.claims[i].outcome.Landed?
      ensures m.claims[i + 1].claimedAt >= m.claims[i].leaseUntil
    {
      assert ClaimOk(m, i);
    }
  }

  lemma {:induction false} CountsPartition(claims: seq<Claim>)
    ensures |claims| == LandedCount(claims, DeliveredSent) + LandedCount(claims, DeliveredRetryable)
                      + LandedCount(claims, DeliveredFailed) + UnlandedCount(claims)
  {
    if claims != [] {
      CountsPartition(claims[..|claims| - 1]);
    }
  }

  lemma {:induction false} AtMostOneSent(m: Message, n: nat)
    requires MessageOk(m) && n <= |m.claims|
    ensures LandedCount(m.claims[..n], DeliveredSent) == if n == |m.claims| && m.row.status == Sent then 1 else 0
    decreases n
  {
    if n > 0 {
      assert m.claims[..n][..n - 1] == m.claims[..n - 1];
      AtMostOneSent(m, n - 1);
      assert ClaimOk(m, n - 1);
    }
  }

  /** Attempts are conserved: every attempt is a landed retryable, failed or sent mark, or a claim without one;
      and failures are requeues plus the present one. */
  lemma AttemptConservation(steps: seq<Step>, id: int)
    requires id in Run(map[], steps)
    ensures var m := Run(map[], steps)[id];
            && m.row.attemptCount == LandedCount(m.claims, DeliveredSent) + LandedCount(m.claims, DeliveredRetryable)
                                     + LandedCount(m.claims, DeliveredFailed) + UnlandedCount(m.claims)
            && LandedCount(m.claims, DeliveredFailed) == m.requeues + (if m.row.status == Failed then 1 else 0)
            && LandedCount(m.claims, DeliveredSent) == if m.row.status == Sent then 1 else 0
  {
    RunKeepsOk(map[], steps);
    var m := Run(map[], steps)[id];
    CountsPartition(m.claims);
    AtMostOneSent(m, |m.claims|);
    assert m.claims[..|m.claims|] == m.claims;
  }

  /** A sent row was answered Sent on exactly the attempt it stores. */
  lemma {:induction false} SentIsEarned(steps: seq<Step>, id: int)
    requires id in Run(map[], steps) && Run(map[], steps)[id].row.status == Sent
    ensures var m := Run(map[], steps)[id];
            && 1 <= m.row.attemptCount <= |m.claims|
            && m.claims[m.row.attemptCount - 1].outcome == Landed(DeliveredSent, DeliveredSent)
  {
    RunKeepsOk(map[], steps);
  }

  // ---------------------------------------------------------------- the bound on attempts

  /** Every worker's `max_attempts` is at most `limit`. */
  ghost predicate LimitedTo(limit: nat, steps: seq<Step>) {
    forall i :: 0 <= i < |steps| && steps[i].Mark? ==> steps[i].maxAttempts <= limit
  }

  predicate RetriesBelow(m: Message, limit: nat) {
    forall i :: 0 <= i < |m.claims| && m.claims[i].outcome.Landed? && m.claims[i].outcome.mark == DeliveredRetryable
                ==> i + 1 < limit
  }

  lemma {:induction false} RunRetriesBelow(steps: seq<Step>, id: int, limit: nat)
    requires LimitedTo(limit, steps) && id in Run(map[], steps)
    ensures RetriesBelow(Run(map[], steps)[id], limit)
  {
    if steps != [] {
      var before := steps[..|steps| - 1];
      if id in Run(map[], before) {
        RunRetriesBelow(before, id, limit);
      }
    }
  }

  lemma {:induction false} RetryCountBound(claims: seq<Claim>, limit: nat)
    requires forall i :: 0 <= i < |claims| && claims[i].outcome.Landed? && claims[i].outcome.mark == DeliveredRetryable
                         ==> i + 1 < limit
    ensures LandedCount(claims, DeliveredRetryable) <= |claims|
    ensures LandedCount(claims, DeliveredRetryable) <= if limit == 0 then 0 else limit - 1
  {
    if claims != [] {
      RetryCountBound(claims[..|claims| - 1], limit);
    }
  }

  /** A message is attempted at most `max(1, max_attempts)` times, plus once per requeue and once per claim whose
      mark never landed. */
  lemma AttemptBound(steps: seq<Step>, id: int, limit: nat)
    requires LimitedTo(limit, steps) && id in Run(map[], steps)
    ensures var m := Run(map[], steps)[id];
            m.row.attemptCount <= (if limit == 0 then 1 else limit) + m.requeues + UnlandedCount(m.claims)
  {
    AttemptConservation(steps, id);
    RunRetriesBelow(steps, id, limit);
    RetryCountBound(Run(map[], steps)[id].claims, limit);
  }
}

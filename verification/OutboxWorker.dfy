/** The outbox table as an object, and the worker's drain loop against it, with other workers stepping in between. */
module OutboxWorker {
  import opened Wrappers
  import opened AuditOutbox

  const U64_MAX: nat := 0xFFFF_FFFF_FFFF_FFFF

  function SaturatingAdd(a: nat, b: nat): nat {
    if a + b > U64_MAX then U64_MAX else a + b
  }

  datatype DbError = NegativeLimit | Unavailable

  datatype OutboxMessage = OutboxMessage(id: int, tenantId: string, attemptCount: nat)

  function Returned(id: int, row: Row): OutboxMessage {
    OutboxMessage(id, row.tenantId, row.attemptCount)
  }

  function IdsOf(ms: seq<OutboxMessage>): set<int> {
    set i | 0 <= i < |ms| :: ms[i].id
  }

  // ---------------------------------------------------------------- the claim order

  /** `ORDER BY next_attempt_at NULLS FIRST, created_at, id`. */
  predicate Earlier(a: Row, i: int, b: Row, j: int) {
    if a.nextAttemptAt != b.nextAttemptAt then
      a.nextAttemptAt.None? || (b.nextAttemptAt.Some? && a.nextAttemptAt.value < b.nextAttemptAt.value)
    else if a.createdAt != b.createdAt then a.createdAt < b.createdAt
    else i < j
  }

  /** `ORDER BY next_attempt_at NULLS FIRST, created_at, id`, case by case. */
  lemma ClaimOrder(a: Row, i: int, b: Row, j: int)
    ensures a.nextAttemptAt == None && b.nextAttemptAt != None ==> Earlier(a, i, b, j) && !Earlier(b, j, a, i)
    ensures a.nextAttemptAt.Some? && b.nextAttemptAt.Some? && a.nextAttemptAt.value < b.nextAttemptAt.value ==>
              Earlier(a, i, b, j) && !Earlier(b, j, a, i)
    ensures a.nextAttemptAt == b.nextAttemptAt && a.createdAt < b.createdAt ==>
              Earlier(a, i, b, j) && !Earlier(b, j, a, i)
    ensures a.nextAttemptAt == b.nextAttemptAt && a.createdAt == b.createdAt ==> (Earlier(a, i, b, j) <==> i < j)
  {
  }

  lemma EarlierIsAnOrder(a: Row, i: int, b: Row, j: int, c: Row, k: int)
    ensures Earlier(a, i, b, j) && Earlier(b, j, c, k) ==> Earlier(a, i, c, k)
    ensures i != j ==> (Earlier(a, i, b, j) <==> !Earlier(b, j, a, i))
  {
  }

  predicate Ascending(ids: seq<int>) {
    forall i, j :: 0 <= i < j < |ids| ==> ids[i] < ids[j]
  }

  method AnyOf(ids: set<int>) returns (id: int)
    requires ids != {}
    ensures id in ids
  {
    assert exists x :: x in ids by {
      if forall x :: x !in ids {
        assert false;
      }
    }
    id :| id in ids;
  }

  /** The ids of a set in ascending order. */
  method SortIds(ids: set<int>) returns (r: seq<int>)
    ensures Ascending(r) && |r| == |ids|
    ensures forall id :: id in r <==> id in ids
  {
    r := [];
    var rest := ids;
    while rest != {}
      invariant rest <= ids && |r| + |rest| == |ids|
      invariant forall id :: id in r <==> id in ids && id !in rest
      invariant Ascending(r)
      invariant forall i, id :: 0 <= i < |r| && id in rest ==> r[i] < id
      decreases |rest|
    {
      var least := AnyOf(rest);
      var left := rest - {least};
      while left != {}
        invariant left <= rest && least in rest && least !in left
        invariant forall id :: id in rest && id !in left ==> least <= id
        decreases |left|
      {
        var x := AnyOf(left);
        left := left - {x};
        if x < least {
          least := x;
        }
      }
      r := r + [least];
      rest := rest - {least};
    }
  }

  /** A row the claim statement would take now; `locked` rows are held by other transactions (SKIP LOCKED). */
  predicate Available(o: Outbox, id: int, due: Statement, locked: set<int>) {
    id in o && id !in locked && Matches(o[id].row, due)
  }

  /** `taken` are the first `limit` available rows in claim order, or all of them when there are fewer. */
  ghost predicate FirstDue(o: Outbox, due: Statement, limit: nat, locked: set<int>, taken: set<int>) {
    && |taken| <= limit
    && (forall id :: id in taken ==> Available(o, id, due, locked))
    && (forall id :: Available(o, id, due, locked) && id !in taken ==>
          |taken| == limit && forall c :: c in taken ==> c in o && Earlier(o[c].row, c, o[id].row, id))
  }

  class OutboxTable {
    var messages: Outbox

    constructor ()
      ensures messages == map[]
    {
      messages := map[];
    }

    /** What other workers and operators do to the table between two of our calls. */
    method Interleave(steps: seq<Step>)
      modifies this
      ensures messages == Run(old(messages), steps)
    {
      messages := Run(messages, steps);
    }

    method EarliestOf(ids: set<int>) returns (first: int)
      requires ids != {} && forall id :: id in ids ==> id in messages
      ensures first in ids
      ensures forall id :: id in ids && id != first ==> Earlier(messages[first].row, first, messages[id].row, id)
    {
      first := AnyOf(ids);
      var left := ids - {first};
      while left != {}
        invariant left <= ids && first in ids && first !in left
        invariant forall id :: id in ids && id !in left && id != first ==>
                                 Earlier(messages[first].row, first, messages[id].row, id)
        decreases |left|
      {
        var x := AnyOf(left);
        left := left - {x};
        if Earlier(messages[x].row, x, messages[first].row, first) {
          forall id | id in ids && id !in left && id != x
            ensures Earlier(messages[x].row, x, messages[id].row, id)
          {
            EarlierIsAnOrder(messages[x].row, x, messages[first].row, first, messages[id].row, id);
          }
          first := x;
        } else {
          EarlierIsAnOrder(messages[x].row, x, messages[first].row, first, messages[x].row, x);
        }
      }
    }

    /** The rows a claim takes. */
    method SelectDue(due: Statement, limit: nat, locked: set<int>) returns (taken: set<int>)
      ensures FirstDue(messages, due, limit, locked, taken)
    {
      var rest := set id | id in messages && id !in locked && Matches(messages[id].row, due);
      taken := {};
      while |taken| < limit && rest != {}
        invariant |taken| <= limit && taken !! rest
        invariant forall id :: id in taken + rest <==> Available(messages, id, due, locked)
        invariant forall c, id :: c in taken && id in rest ==>
                    c in messages && id in messages && Earlier(messages[c].row, c, messages[id].row, id)
        decreases |rest|
      {
        assert forall id :: id in rest ==> Available(messages, id, due, locked);
        var first := EarliestOf(rest);
        taken := taken + {first};
        rest := rest - {first};
      }
    }

    /** CLAIM_AUDIT_OUTBOX: claims the selected rows and returns them by ascending id, as they now stand. */
    method ClaimOutbox(drain: nat, due: Statement, limit: int, locked: set<int>)
      returns (r: Result<seq<OutboxMessage>, DbError>, ghost taken: set<int>)
      requires due.ClaimDue?
      modifies this
      ensures limit < 0 <==> r.Err?
      ensures r.Err? ==> messages == old(messages)
      ensures r.Ok? ==> FirstDue(old(messages), due, limit, locked, taken)
      ensures r.Ok? ==> messages == Advance(old(messages), ClaimBatch(drain, taken, due))
      ensures r.Ok? ==> |r.value| == |taken| && forall k :: 0 <= k < |r.value| ==>
                && r.value[k].id in taken && r.value[k].id in messages
                && r.value[k] == Returned(r.value[k].id, messages[r.value[k].id].row)
                && (forall j :: 0 <= j < k ==> r.value[j].id < r.value[k].id)
      ensures r.Ok? ==> IdsOf(r.value) == taken
    {
      taken := {};
      if limit < 0 {
        return Err(NegativeLimit), taken;
      }
      var selected := SelectDue(due, limit, locked);
      taken := selected;
      var ids := SortIds(selected);
      assert forall id :: id in ids ==> Available(messages, id, due, locked);
      messages := Advance(messages, ClaimBatch(drain, selected, due));
      var now := messages;
      var rows := [];
      for k := 0 to |ids|
        invariant |rows| == k
        invariant forall j :: 0 <= j < k ==> ids[j] in now && rows[j] == Returned(ids[j], now[ids[j]].row)
      {
        assert ids[k] in ids;
        rows := rows + [Returned(ids[k], now[ids[k]].row)];
      }
      forall id | id in taken ensures id in IdsOf(rows) {
        var k :| 0 <= k < |ids| && ids[k] == id;
        assert rows[k].id == id;
      }
      r := Ok(rows);
    }

    /** One of the three fenced marks; true when it returned a row. */
    method MarkForAttempt(drain: nat, id: int, attempt: nat, st: Statement, answer: Delivery, maxAttempts: nat, at: int)
      returns (landed: bool)
      requires id in messages && MayMark(messages[id], drain, attempt)
      requires var claim := messages[id].claims[attempt - 1];
               var d := Effective(answer, attempt, maxAttempts);
               st == MarkStatement(messages[id].row.tenantId, d, attempt, claim.leaseUntil, at)
      modifies this
      ensures messages == Advance(old(messages), Mark(drain, id, attempt, answer, maxAttempts, at))
      ensures landed <==> messages[id].claims[attempt - 1].outcome.Landed?
      ensures landed <==> Matches(old(messages)[id].row, st)
      ensures messages[id].row == Execute(old(messages)[id].row, st)
    {
      var m := messages[id];
      landed := Matches(m.row, st);
      var outcome := if landed then Landed(Effective(answer, attempt, maxAttempts), answer) else Stale(answer);
      var claims := m.claims[attempt - 1 := m.claims[attempt - 1].(outcome := outcome)];
      messages := messages[id := Message(Execute(m.row, st), claims, m.requeues)];
    }
  }

  // ---------------------------------------------------------------- the drain loop

  datatype DrainConfig = DrainConfig(
    tenantId: string, stream: string, batchLimit: int, leaseMs: nat, retryDelayMs: nat, maxAttempts: nat)

  datatype DrainReport = DrainReport(
    claimed: nat, sent: nat, retryable: nat, failed: nat, exhausted: nat, stale: nat)

  /** A database call can fail before or after it took effect. */
  datatype Fault = NoFault | LostBefore | LostAfter

  /** The n-th clock reading, the dispatcher's answer to the n-th message, the fate of the n-th database call, and
      what everyone else does just before it. */
  datatype DrainWorld = DrainWorld(
    clock: nat -> nat,
    deliver: nat -> Result<Delivery, string>,
    fault: nat -> Fault,
    others: nat -> seq<Step>)

  /** A dispatcher error counts as retryable. */
  function Answer(r: Result<Delivery, string>): Delivery {
    if r.Ok? then r.value else DeliveredRetryable
  }

  predicate NotBy(drain: nat, s: Step) {
    s.ClaimBatch? || s.Mark? ==> s.drain != drain
  }

  ghost predicate OthersOnly(drain: nat, world: DrainWorld) {
    forall k, i :: 0 <= i < |world.others(k)| ==> NotBy(drain, world.others(k)[i])
  }

  /** The claim and the first `n` marks reach the database and answer. */
  ghost predicate NoFaults(world: DrainWorld, n: nat) {
    forall k :: 0 <= k <= n ==> world.fault(k) == NoFault
  }

  /** What the table says became of a claimed message's attempt. */
  function OutcomeOf(o: Outbox, m: OutboxMessage): Outcome {
    if m.id in o && 1 <= m.attemptCount <= |o[m.id].claims| then o[m.id].claims[m.attemptCount - 1].outcome
    else Unresolved
  }

  function Outcomes(o: Outbox, ms: seq<OutboxMessage>): (xs: seq<Outcome>)
    ensures |xs| == |ms|
  {
    seq(|ms|, i requires 0 <= i < |ms| => OutcomeOf(o, ms[i]))
  }

  /** The message's attempt is a claim of this drain. */
  predicate OwnClaim(o: Outbox, m: OutboxMessage, drain: nat, leaseUntil: int) {
    && m.id in o && 1 <= m.attemptCount <= |o[m.id].claims|
    && o[m.id].row.tenantId == m.tenantId
    && o[m.id].claims[m.attemptCount - 1].drain == drain
    && o[m.id].claims[m.attemptCount - 1].leaseUntil == leaseUntil
  }

  lemma {:induction false} OthersKeepOwnClaim(o: Outbox, steps: seq<Step>, m: OutboxMessage, drain: nat, lease: int)
    requires OwnClaim(o, m, drain, lease)
    requires forall i :: 0 <= i < |steps| ==> NotBy(drain, steps[i])
    ensures OwnClaim(Run(o, steps), m, drain, lease) && OutcomeOf(Run(o, steps), m) == OutcomeOf(o, m)
  {
    if steps != [] {
      OthersKeepOwnClaim(o, steps[..|steps| - 1], m, drain, lease);
      assert NotBy(drain, steps[|steps| - 1]);
    }
  }

  /** The message list has this attempt of this message. */
  predicate Listed(ms: seq<OutboxMessage>, id: int, attempt: nat) {
    exists i :: 0 <= i < |ms| && ms[i].id == id && ms[i].attemptCount == attempt
  }

  /** Every claim the drain ever made is on the list. */
  ghost predicate ClaimsListed(o: Outbox, ms: seq<OutboxMessage>, drain: nat) {
    forall id, k :: id in o && 0 <= k < |o[id].claims| && o[id].claims[k].drain == drain ==> Listed(ms, id, k + 1)
  }

  lemma StepKeepsListed(o: Outbox, s: Step, ms: seq<OutboxMessage>, drain: nat)
    requires ClaimsListed(o, ms, drain) && (NotBy(drain, s) || s.Mark?)
    ensures ClaimsListed(Advance(o, s), ms, drain)
  {
  }

  /** Only a claim of its own adds to a drain's claims. */
  lemma {:induction false} RunKeepsListed(o: Outbox, steps: seq<Step>, ms: seq<OutboxMessage>, drain: nat)
    requires ClaimsListed(o, ms, drain)
    requires forall k :: 0 <= k < |steps| ==> NotBy(drain, steps[k]) || steps[k].Mark?
    ensures ClaimsListed(Run(o, steps), ms, drain)
  {
    if steps != [] {
      RunKeepsListed(o, steps[..|steps| - 1], ms, drain);
      StepKeepsListed(Run(o, steps[..|steps| - 1]), steps[|steps| - 1], ms, drain);
    }
  }

  /** After the first claim of a drain the returned rows are its claims. */
  lemma ClaimListsItself(o: Outbox, drain: nat, taken: set<int>, due: Statement, ms: seq<OutboxMessage>)
    requires OutboxOk(o) && ClaimsListed(o, [], drain) && due.ClaimDue? && IdsOf(ms) == taken
    requires var n := Advance(o, ClaimBatch(drain, taken, due));
             forall i :: 0 <= i < |ms| ==> ms[i].id in n && ms[i] == Returned(ms[i].id, n[ms[i].id].row)
    ensures ClaimsListed(Advance(o, ClaimBatch(drain, taken, due)), ms, drain)
  {
    var n := Advance(o, ClaimBatch(drain, taken, due));
    AdvanceKeepsOk(o, ClaimBatch(drain, taken, due));
    forall id, k | id in n && 0 <= k < |n[id].claims| && n[id].claims[k].drain == drain ensures Listed(ms, id, k + 1) {
      assert !Listed([], id, k + 1);
      assert id in IdsOf(ms);
      var i :| 0 <= i < |ms| && ms[i].id == id;
      assert MessageOk(n[id]);
    }
  }

  lemma RunSnoc(o: Outbox, steps: seq<Step>, s: Step)
    ensures Run(o, steps + [s]) == Advance(Run(o, steps), s)
  {
    assert (steps + [s])[..|steps|] == steps;
  }

  predicate DistinctIds(ms: seq<OutboxMessage>) {
    forall i, j :: 0 <= i < j < |ms| ==> ms[i].id != ms[j].id
  }

  predicate MarksOnly(s: Step, m: OutboxMessage) {
    s.Mark? && s.id == m.id
  }

  /** Marking one message leaves the drain's other claims alone. */
  lemma {:induction false} OwnStepsKeepOtherClaims(o: Outbox, steps: seq<Step>, marked: OutboxMessage,
                                                   m: OutboxMessage, drain: nat, lease: int)
    requires OwnClaim(o, m, drain, lease) && marked.id != m.id
    requires forall k :: 0 <= k < |steps| ==> NotBy(drain, steps[k]) || MarksOnly(steps[k], marked)
    ensures OwnClaim(Run(o, steps), m, drain, lease) && OutcomeOf(Run(o, steps), m) == OutcomeOf(o, m)
  {
    if steps != [] {
      OwnStepsKeepOtherClaims(o, steps[..|steps| - 1], marked, m, drain, lease);
      assert NotBy(drain, steps[|steps| - 1]) || MarksOnly(steps[|steps| - 1], marked);
    }
  }

  predicate LandedAs(x: Outcome, d: Delivery) {
    x.Landed? && x.mark == d
  }

  function CountLanded(xs: seq<Outcome>, d: Delivery): nat {
    if xs == [] then 0 else CountLanded(xs[..|xs| - 1], d) + if LandedAs(xs[|xs| - 1], d) then 1 else 0
  }

  function CountStale(xs: seq<Outcome>): nat {
    if xs == [] then 0 else CountStale(xs[..|xs| - 1]) + if xs[|xs| - 1].Stale? then 1 else 0
  }

  /** Retryable answers that landed as failures. */
  function CountExhausted(xs: seq<Outcome>): nat {
    if xs == [] then 0
    else CountExhausted(xs[..|xs| - 1])
         + if xs[|xs| - 1] == Landed(DeliveredFailed, DeliveredRetryable) then 1 else 0
  }

  /** The report counts exactly these outcomes. */
  predicate ReportOf(r: DrainReport, xs: seq<Outcome>) {
    && r.sent == CountLanded(xs, DeliveredSent)
    && r.retryable == CountLanded(xs, DeliveredRetryable)
    && r.failed == CountLanded(xs, DeliveredFailed)
    && r.exhausted == CountExhausted(xs)
    && r.stale == CountStale(xs)
  }

  lemma CountSnoc(xs: seq<Outcome>, x: Outcome)
    ensures forall d :: CountLanded(xs + [x], d) == CountLanded(xs, d) + if LandedAs(x, d) then 1 else 0
    ensures CountStale(xs + [x]) == CountStale(xs) + if x.Stale? then 1 else 0
    ensures CountExhausted(xs + [x])
         == CountExhausted(xs) + if x == Landed(DeliveredFailed, DeliveredRetryable) then 1 else 0
  {
    assert (xs + [x])[..|xs|] == xs;
  }

  /** When every claimed message is resolved, the counters add up to the claims, and exhausted ones are failures. */
  lemma {:induction false} ResolvedCountsAddUp(xs: seq<Outcome>)
    requires forall i :: 0 <= i < |xs| ==> xs[i] != Unresolved
    ensures |xs| == CountLanded(xs, DeliveredSent) + CountLanded(xs, DeliveredRetryable)
                  + CountLanded(xs, DeliveredFailed) + CountStale(xs)
    ensures CountExhausted(xs) <= CountLanded(xs, DeliveredFailed)
  {
    if xs != [] {
      ResolvedCountsAddUp(xs[..|xs| - 1]);
    }
  }

  class Worker {
    const table: OutboxTable
    const config: DrainConfig

    constructor (table: OutboxTable, config: DrainConfig)
      ensures this.table == table && this.config == config
    {
      this.table := table;
      this.config := config;
    }

    /** `drain` names this call, so no claim carries it yet.  Whatever happens, the table moves only by protocol
        steps, and a report comes back exactly when no database call fails.  Then `claimed` are the first due rows of
        the table the claim met, they are all the claims this drain has made, each is resolved as the dispatcher
        answered, and the counters are the outcomes the table records for them. */
    method DrainOnce(drain: nat, world: DrainWorld, locked: set<int>)
      returns (r: Result<DrainReport, DbError>, ghost claimed: seq<OutboxMessage>, ghost steps: seq<Step>)
      requires OutboxOk(table.messages) && OthersOnly(drain, world) && ClaimsListed(table.messages, [], drain)
      modifies table
      ensures OutboxOk(table.messages) && table.messages == Run(old(table.messages), steps)
      ensures r.Ok? <==> config.batchLimit >= 0 && NoFaults(world, |claimed|)
      ensures r.Ok? ==>
                && DistinctIds(claimed)
                && FirstDue(Run(old(table.messages), world.others(0)), Due(world), config.batchLimit, locked,
                            IdsOf(claimed))
                && ClaimsListed(table.messages, claimed, drain)
                && forall i :: 0 <= i < |claimed| ==> Handled(table.messages, claimed[i], i, drain, world)
      ensures forall k :: 0 <= k < |steps| && steps[k].Mark? && steps[k].drain == drain ==>
                exists i :: 0 <= i < |claimed| && IsMark(steps[k], drain, claimed[i], i, world)
      ensures r.Ok? ==>
                var report := r.value;
                && report.claimed == |claimed| && ReportOf(report, Outcomes(table.messages, claimed))
                && report.claimed == report.sent + report.retryable + report.failed + report.stale
                && report.exhausted <= report.failed
    {
      var batch;
      batch, steps := Claim(drain, world, locked);
      claimed := [];
      if batch.Err? {
        return Err(batch.error), claimed, steps;
      }
      claimed := batch.value;
      var report, failed;
      ghost var done;
      report, failed, done := HandleAll(drain, world, batch.value);
      RunConcat(old(table.messages), steps, done);
      steps := steps + done;
      r := if failed then Err(Unavailable) else Ok(report);
    }

    /** The loop over the claimed messages. */
    method HandleAll(drain: nat, world: DrainWorld, messages: seq<OutboxMessage>)
      returns (report: DrainReport, failed: bool, ghost done: seq<Step>)
      requires OutboxOk(table.messages) && OthersOnly(drain, world) && world.fault(0) == NoFault
      requires DistinctIds(messages) && ClaimsListed(table.messages, messages, drain)
      requires Progress(table.messages, messages, [], drain, world)
      modifies table
      ensures OutboxOk(table.messages) && table.messages == Run(old(table.messages), done)
      ensures !failed <==> NoFaults(world, |messages|)
      ensures OwnSteps(done, drain, messages, world)
      ensures !failed ==>
                && ClaimsListed(table.messages, messages, drain)
                && (forall i :: 0 <= i < |messages| ==> Handled(table.messages, messages[i], i, drain, world))
                && report.claimed == |messages| && ReportOf(report, Outcomes(table.messages, messages))
                && report.claimed == report.sent + report.retryable + report.failed + report.stale
                && report.exhausted <= report.failed
    {
      report := DrainReport(|messages|, 0, 0, 0, 0, 0);
      done := [];
      ghost var xs: seq<Outcome> := [];
      for i := 0 to |messages|
        invariant |xs| == i && OutboxOk(table.messages) && table.messages == Run(old(table.messages), done)
        invariant report.claimed == |messages| && ReportOf(report, xs) && NoFaults(world, i)
        invariant ClaimsListed(table.messages, messages, drain)
        invariant Progress(table.messages, messages, xs, drain, world)
        invariant OwnSteps(done, drain, messages, world)
      {
        ghost var more;
        report, failed, xs, more := HandleMessage(drain, world, i, messages, report, xs);
        RunConcat(old(table.messages), done, more);
        done := done + more;
        if failed {
          return;
        }
      }
      failed := false;
      assert xs == Outcomes(table.messages, messages);
      ResolvedCountsAddUp(xs);
    }

    /** The loop body: message `i` is delivered, marked and counted. */
    method HandleMessage(drain: nat, world: DrainWorld, i: nat, messages: seq<OutboxMessage>, before: DrainReport,
                         ghost xs: seq<Outcome>)
      returns (report: DrainReport, failed: bool, ghost ys: seq<Outcome>, ghost done: seq<Step>)
      requires OutboxOk(table.messages) && OthersOnly(drain, world)
      requires |xs| == i < |messages| && ReportOf(before, xs)
      requires DistinctIds(messages) && ClaimsListed(table.messages, messages, drain)
      requires Progress(table.messages, messages, xs, drain, world)
      modifies table
      ensures OutboxOk(table.messages) && table.messages == Run(old(table.messages), done)
      ensures failed <==> world.fault(i + 1) != NoFault
      ensures forall k :: 0 <= k < |done| ==> NotBy(drain, done[k]) || IsMark(done[k], drain, messages[i], i, world)
      ensures !failed ==>
                && |ys| == i + 1 && report.claimed == before.claimed && ReportOf(report, ys)
                && ClaimsListed(table.messages, messages, drain)
                && Progress(table.messages, messages, ys, drain, world)
    {
      ghost var o := table.messages;
      report, ys := before, xs;
      var exhausted, delivery, landed;
      exhausted, delivery, landed, failed, done := DeliverAndMark(drain, world, i, messages[i]);
      if failed {
        return;
      }
      ghost var x := OutcomeOf(table.messages, messages[i]);
      ProgressOne(o, table.messages, messages, xs, drain, world, done);
      RunKeepsListed(o, done, messages, drain);
      report := Tally(before, delivery, exhausted, landed, xs, x);
      ys := xs + [x];
    }

    /** The steps of this drain among `steps` are marks of its messages, each the mark the code issues. */
    ghost predicate OwnSteps(steps: seq<Step>, drain: nat, ms: seq<OutboxMessage>, world: DrainWorld) {
      forall k :: 0 <= k < |steps| ==>
        NotBy(drain, steps[k]) || exists i :: 0 <= i < |ms| && IsMark(steps[k], drain, ms[i], i, world)
    }

    /** Counts one marked message. */
    method Tally(before: DrainReport, delivery: Delivery, exhausted: bool, landed: bool,
                 ghost xs: seq<Outcome>, ghost x: Outcome)
      returns (report: DrainReport)
      requires ReportOf(before, xs)
      requires if landed then x.Landed? && x.mark == delivery else x.Stale?
      requires exhausted <==> delivery == DeliveredFailed && x != Unresolved && x.answer == DeliveredRetryable
      ensures report.claimed == before.claimed && ReportOf(report, xs + [x])
    {
      CountSnoc(xs, x);
      report := before;
      if !landed {
        report := report.(stale := report.stale + 1);
        return;
      }
      match delivery {
        case DeliveredSent => report := report.(sent := report.sent + 1);
        case DeliveredRetryable => report := report.(retryable := report.retryable + 1);
        case DeliveredFailed =>
          report := report.(failed := report.failed + 1);
          if exhausted {
            report := report.(exhausted := report.exhausted + 1);
          }
      }
    }

    /** The first messages are handled with these outcomes; the rest are claimed and still unresolved. */
    ghost predicate Progress(o: Outbox, ms: seq<OutboxMessage>, xs: seq<Outcome>, drain: nat, world: DrainWorld) {
      && |xs| <= |ms|
      && (forall j :: 0 <= j < |ms| ==> OwnClaim(o, ms[j], drain, Lease(world)))
      && (forall j :: 0 <= j < |xs| ==> Handled(o, ms[j], j, drain, world) && xs[j] == OutcomeOf(o, ms[j]))
      && (forall j :: |xs| <= j < |ms| ==> OutcomeOf(o, ms[j]) == Unresolved)
    }

    lemma ProgressOne(o: Outbox, n: Outbox, ms: seq<OutboxMessage>, xs: seq<Outcome>, drain: nat, world: DrainWorld,
                      steps: seq<Step>)
      requires DistinctIds(ms) && Progress(o, ms, xs, drain, world) && |xs| < |ms|
      requires n == Run(o, steps) && Handled(n, ms[|xs|], |xs|, drain, world)
      requires forall k :: 0 <= k < |steps| ==> NotBy(drain, steps[k]) || MarksOnly(steps[k], ms[|xs|])
      ensures Progress(n, ms, xs + [OutcomeOf(n, ms[|xs|])], drain, world)
    {
      forall j | 0 <= j < |ms| && j != |xs|
        ensures OwnClaim(n, ms[j], drain, Lease(world)) && OutcomeOf(n, ms[j]) == OutcomeOf(o, ms[j])
      {
        OwnStepsKeepOtherClaims(o, steps, ms[|xs|], ms[j], drain, Lease(world));
      }
    }

    /** The claim: the lease is set from this worker's own clock. */
    method Claim(drain: nat, world: DrainWorld, locked: set<int>)
      returns (r: Result<seq<OutboxMessage>, DbError>, ghost steps: seq<Step>)
      requires OutboxOk(table.messages) && OthersOnly(drain, world) && ClaimsListed(table.messages, [], drain)
      modifies table
      ensures OutboxOk(table.messages) && table.messages == Run(old(table.messages), steps)
      ensures r.Ok? <==> config.batchLimit >= 0 && world.fault(0) == NoFault
      ensures r.Ok? ==> ClaimsListed(table.messages, r.value, drain)
      ensures r.Ok? ==> FirstDue(Run(old(table.messages), world.others(0)), Due(world), config.batchLimit, locked,
                                 IdsOf(r.value))
      ensures r.Ok? ==> DistinctIds(r.value) && forall j :: 0 <= j < |r.value| ==>
                && OwnClaim(table.messages, r.value[j], drain, Lease(world))
                && OutcomeOf(table.messages, r.value[j]) == Unresolved
                && ClaimedNow(table.messages, r.value[j], world)
      ensures forall k :: 0 <= k < |steps| ==> !(steps[k].Mark? && steps[k].drain == drain)
    {
      table.Interleave(world.others(0));
      steps := world.others(0);
      RunKeepsOk(old(table.messages), steps);
      RunKeepsListed(old(table.messages), steps, [], drain);
      if world.fault(0) == LostBefore {
        return Err(Unavailable), steps;
      }
      var due := Due(world);
      ghost var before, taken := table.messages, {};
      r, taken := table.ClaimOutbox(drain, due, config.batchLimit, locked);
      if r.Err? {
        return;
      }
      RunSnoc(old(table.messages), steps, ClaimBatch(drain, taken, due));
      ClaimListsItself(before, drain, taken, due, r.value);
      forall j | 0 <= j < |r.value|
        ensures OwnClaim(table.messages, r.value[j], drain, Lease(world))
        ensures OutcomeOf(table.messages, r.value[j]) == Unresolved && ClaimedNow(table.messages, r.value[j], world)
      {
        ClaimedRow(before, drain, taken, r.value[j], world);
      }
      steps := steps + [ClaimBatch(drain, taken, due)];
      RunKeepsOk(old(table.messages), steps);
      if world.fault(0) == LostAfter {
        return Err(Unavailable), steps;
      }
    }

    /** The row and the claim as the code leaves them: this tenant and stream, claimed at the worker's clock, not due
        again before clock plus lease. */
    predicate ClaimedNow(o: Outbox, m: OutboxMessage, world: DrainWorld) {
      && m.id in o && 1 <= m.attemptCount == |o[m.id].claims| == o[m.id].row.attemptCount
      && var row, claim := o[m.id].row, o[m.id].claims[m.attemptCount - 1];
         && m.tenantId == row.tenantId == config.tenantId && row.stream == config.stream && row.status == Pending
         && claim.claimedAt == world.clock(0)
         && row.nextAttemptAt == Some(claim.leaseUntil)
         && claim.leaseUntil
            == if world.clock(0) + config.leaseMs > 0xFFFF_FFFF_FFFF_FFFF then 0xFFFF_FFFF_FFFF_FFFF
               else world.clock(0) + config.leaseMs
    }

    lemma ClaimedRow(o: Outbox, drain: nat, taken: set<int>, m: OutboxMessage, world: DrainWorld)
      requires OutboxOk(o) && m.id in o && m.id in taken && Matches(o[m.id].row, Due(world))
      requires var n := Advance(o, ClaimBatch(drain, taken, Due(world))); m == Returned(m.id, n[m.id].row)
      ensures var n := Advance(o, ClaimBatch(drain, taken, Due(world)));
              OwnClaim(n, m, drain, Lease(world)) && OutcomeOf(n, m) == Unresolved && ClaimedNow(n, m, world)
    {
      assert MessageOk(o[m.id]);
    }

    /** What the dispatcher's answer counts as, and the time its mark writes. */
    method Decide(drain: nat, world: DrainWorld, i: nat, m: OutboxMessage)
      returns (answer: Delivery, exhausted: bool, delivery: Delivery, at: nat)
      ensures answer == Answer(world.deliver(i))
      ensures exhausted == Exhausted(answer, m.attemptCount, config.maxAttempts)
      ensures delivery == Effective(answer, m.attemptCount, config.maxAttempts)
      ensures IsMark(Mark(drain, m.id, m.attemptCount, answer, config.maxAttempts, at), drain, m, i, world)
    {
      answer := Answer(world.deliver(i));
      exhausted := answer == DeliveredRetryable && m.attemptCount >= config.maxAttempts;
      delivery := if exhausted then DeliveredFailed else answer;
      at := match delivery
            case DeliveredSent => world.clock(i + 1)
            case DeliveredRetryable => SaturatingAdd(world.clock(i + 1), config.retryDelayMs)
            case DeliveredFailed => 0;
    }

    lemma MarkedRow(o: Outbox, m: OutboxMessage, i: nat, drain: nat, world: DrainWorld, delivery: Delivery, at: nat)
      requires OutboxOk(o) && m.id in o
      requires delivery == Effective(Answer(world.deliver(i)), m.attemptCount, config.maxAttempts)
      requires IsMark(Mark(drain, m.id, m.attemptCount, Answer(world.deliver(i)), config.maxAttempts, at),
                      drain, m, i, world)
      ensures var st := MarkStatement(m.tenantId, delivery, m.attemptCount, Lease(world), at);
              Matches(o[m.id].row, st) ==> IsMarkedRow(Execute(o[m.id].row, st), m, i, world)
    {
      assert MessageOk(o[m.id]);
    }

    /** One message: deliver it, decide what the answer counts as, and mark it behind the fence. */
    method DeliverAndMark(drain: nat, world: DrainWorld, i: nat, m: OutboxMessage)
      returns (exhausted: bool, delivery: Delivery, landed: bool, failed: bool, ghost steps: seq<Step>)
      requires OutboxOk(table.messages) && OthersOnly(drain, world)
      requires OwnClaim(table.messages, m, drain, Lease(world)) && OutcomeOf(table.messages, m) == Unresolved
      modifies table
      ensures OutboxOk(table.messages) && table.messages == Run(old(table.messages), steps)
      ensures forall k :: 0 <= k < |steps| ==>
                NotBy(drain, steps[k]) || (MarksOnly(steps[k], m) && IsMark(steps[k], drain, m, i, world))
      ensures failed <==> world.fault(i + 1) != NoFault
      ensures !failed && landed ==> m.id in table.messages && IsMarkedRow(table.messages[m.id].row, m, i, world)
      ensures !failed ==>
                && Handled(table.messages, m, i, drain, world)
                && exhausted == Exhausted(Answer(world.deliver(i)), m.attemptCount, config.maxAttempts)
                && (exhausted <==> delivery == DeliveredFailed && Answer(world.deliver(i)) == DeliveredRetryable)
                && (landed ==> OutcomeOf(table.messages, m) == Landed(delivery, Answer(world.deliver(i))))
                && (!landed ==> OutcomeOf(table.messages, m) == Stale(Answer(world.deliver(i))))
    {
      landed, failed := false, false;
      var answer, at;
      answer, exhausted, delivery, at := Decide(drain, world, i, m);
      steps := world.others(i + 1);
      OthersKeepOwnClaim(table.messages, steps, m, drain, Lease(world));
      RunKeepsOk(table.messages, steps);
      table.Interleave(world.others(i + 1));
      if world.fault(i + 1) == LostBefore {
        failed := true;
        return;
      }
      var st := MarkStatement(m.tenantId, delivery, m.attemptCount, Lease(world), at);
      ghost var before := table.messages;
      MarkedRow(before, m, i, drain, world, delivery, at);
      landed := table.MarkForAttempt(drain, m.id, m.attemptCount, st, answer, config.maxAttempts, at);
      ghost var mark := Mark(drain, m.id, m.attemptCount, answer, config.maxAttempts, at);
      RunSnoc(old(table.messages), steps, mark);
      AdvanceKeepsOk(before, mark);
      steps := steps + [mark];
      failed := world.fault(i + 1) == LostAfter;
    }

    /** The claim's clock reading plus the lease, at most the largest 64-bit number. */
    function Lease(world: DrainWorld): (lease: nat)
      ensures world.clock(0) + config.leaseMs <= 0xFFFF_FFFF_FFFF_FFFF ==> lease == world.clock(0) + config.leaseMs
      ensures world.clock(0) + config.leaseMs > 0xFFFF_FFFF_FFFF_FFFF ==> lease == 0xFFFF_FFFF_FFFF_FFFF
    {
      SaturatingAdd(world.clock(0), config.leaseMs)
    }

    /** The mark the code issues for message `i` of the batch: once, with the dispatcher's answer or Retryable for its
        error, at the time read after the delivery, plus the retry delay when the message is to be tried again. */
    predicate IsMark(s: Step, drain: nat, m: OutboxMessage, i: nat, world: DrainWorld) {
      && s.Mark? && s.drain == drain
      && s.id == m.id && s.attempt == m.attemptCount && s.maxAttempts == config.maxAttempts
      && s.answer == (if world.deliver(i).Ok? then world.deliver(i).value else DeliveredRetryable)
      && (s.answer == DeliveredSent ==> s.at == world.clock(i + 1))
      && (s.answer == DeliveredRetryable && m.attemptCount < config.maxAttempts ==>
            s.at == if world.clock(i + 1) + config.retryDelayMs > 0xFFFF_FFFF_FFFF_FFFF then 0xFFFF_FFFF_FFFF_FFFF
                    else world.clock(i + 1) + config.retryDelayMs)
    }

    /** What a landed mark leaves in the row. */
    predicate IsMarkedRow(r: Row, m: OutboxMessage, i: nat, world: DrainWorld) {
      var answer := if world.deliver(i).Ok? then world.deliver(i).value else DeliveredRetryable;
      && (answer == DeliveredSent ==> r.status == Sent && r.sentAt == Some(world.clock(i + 1)))
      && (answer == DeliveredRetryable && m.attemptCount < config.maxAttempts ==>
            && r.status == Pending
            && r.nextAttemptAt
               == Some(if world.clock(i + 1) + config.retryDelayMs > 0xFFFF_FFFF_FFFF_FFFF then 0xFFFF_FFFF_FFFF_FFFF
                       else world.clock(i + 1) + config.retryDelayMs))
      && (answer == DeliveredFailed || (answer == DeliveredRetryable && m.attemptCount >= config.maxAttempts) ==>
            r.status == Failed && r.nextAttemptAt == None)
    }

    /** The claim statement: one clock reading gives both the due time and the lease. */
    function Due(world: DrainWorld): (st: Statement)
      ensures st.ClaimDue? && st.tenantId == config.tenantId && st.stream == config.stream
      ensures st.now == world.clock(0) && st.leaseUntil == Lease(world)
    {
      ClaimDue(config.tenantId, config.stream, world.clock(0), Lease(world))
    }

    /** The message's claim is ours, resolved with the dispatcher's answer, and marked by the exhaustion rule. */
    predicate Handled(o: Outbox, m: OutboxMessage, i: nat, drain: nat, world: DrainWorld) {
      && OwnClaim(o, m, drain, Lease(world))
      && var x := OutcomeOf(o, m);
         && x != Unresolved
         && x.answer == Answer(world.deliver(i))
         && (x.Landed? ==> x.mark == Effective(x.answer, m.attemptCount, config.maxAttempts))
    }
  }
}

# OAR action execution, verified

A Dafny model of the parts of OAR where correctness is hard: a human-confirmed OKR action is executed at most once,
its audit trace tells the same story as the operation ledger, the audit outbox is drained by any number of workers, and
the printers, parsers, calendar, maintenance runtime and status mirrors around them agree with each other.

`dafny verify dfyconfig.toml` checks the whole project.

## What is modelled

- **Execution** (`OperationLedger.dfy`, `AuditLog.dfy`, `ExecutionProtocol.dfy`, `ExecutionTheorems.dfy`,
  `LedgerTraceAgreement.dfy`, `AdapterAnswers.dfy`, `LoneCall.dfy`, `CallOutcome.dfy`,
  `ActionExecutor.dfy`). The ledger is a class over two maps proved against one map from idempotency key to record. The
  executor is a transition system in which every repository or adapter call is one
  atomic step, any number of calls interleave, and the adapter, the clocks and the policy verdicts are arbitrary. The
  executor as written, a class that makes these calls in a row, is proved to be a run of that system, call after call.
- **Proposed actions and their keys** (`ProposedAction.dfy`, `BuiltActions.dfy`): drafting, deciding, the idempotency
  key a decision builds, and exactly which sets of tenants keep the execution promises with such keys.
- **Audit outbox** (`AuditOutbox.dfy`, `OutboxWorker.dfy`): the SQL statements as row transitions, the claim, lease and
  mark protocol over workers with unrelated clocks, crashes and operator requeues, and the drain loop as a class whose
  every database call may fail before or after it took effect. Each `drain_once` call has a number of its own; it
  appears only in the record of who claimed what, which no statement reads.
- **Calendar and time** (`Calendar.dfy`, `Iso8601.dfy`): the closed-form conversion against a calendar that only knows
  the next day, and the printed form against section 5.6 of RFC 3339.
- **Printers and parsers** (`Utf8.dfy`, `UrlEncoding.dfy`, `SourceRefs.dfy`, `QueryString.dfy`, `GrantBlob.dfy`).
- **Maintenance runtime and mirrors** (`TenantIds.dfy`, `TenantRuntime.dfy`, `DaemonStatus.dfy`, `ReviewInbox.dfy`).

## What the proofs found

- The ledger alone excludes nobody: `mark_executing` is idempotent. Winning audit event 1 of the trace is the lock, and
  at most one execution per *trace id* holds unconditionally. Per *idempotency key* it holds if and only if a key
  determines its tenant (`ExecutionTheorems.AtMostOncePerKeyExactly`).
- A key that determines its tenant is not enough for the ledger and the trace to agree, because `trace-T-K` can be the
  same string for two pairs of tenant and key (`LedgerTraceAgreement.TraceIdsCollide`). They agree in every quiet state
  if and only if keys and trace ids name each other (`LedgerTraceAgreement.AgreementExactly`).
- For keys built by decisions, both promises hold for a set of tenants if and only if no tenant's key prefix (and, for
  agreement, trace prefix) extends another's (`BuiltActions.AtMostOnceForTenantsExactly`,
  `BuiltActions.AgreementForTenantsExactly`). Tenant ids without colons always qualify.
- `mark_stopped` with the report of the recorded run changes only the state if and only if the mirror entered the run
  with both round counters at zero; otherwise it overwrites the accumulated counters.
- The facade's `percent_decode` accepts a sign for the first hex digit of an escape, as in `%+a`. It differs from a
  decoder that asks for two hex digits exactly on the accepted values that hold a `%+` (`QueryString.LaxExactly`). The
  query round trip is not affected.
- `mark_running` clears the failure code and keeps the last round: a lost or degraded round is shown without a code
  exactly after such a restart (`DaemonStatus.RestartForgetsTheCode`).
- A recorded denial, a failed dry run or an event lost to another action's trace closes an action for good: from a quiet
  point of a run a confirmed action can still be executed if and only if its trace is empty and its key is unknown to
  the ledger or Confirmed there (`LedgerTraceAgreement.CanStillExecuteExactly`).
- `iso8601_utc` sorts as time does, and is a `date-time` of RFC 3339, exactly before year 10000
  (`Iso8601.OrderHoldsExactlyBefore`, `Iso8601.Rfc3339Exactly`).
- `compose_encrypted_grant_blob` keeps only the low 32 bits of a length, and parsing gives the two pieces back if and
  only if both lengths are below 2^32.

## Model

| member | source | states |
|---|---|---|
| OperationLedgers.OperationLedger.SubmitConfirmedAction | crates/oar-core/src/action/operation_ledger.rs:50-81 | the two-map ledger answers and changes as the one-map ledger: only confirmed actions, one record per key, a repeat gets the existing record; both indexes stay mutually inverse |
| OperationLedgers.OperationLedger.MarkExecuting | crates/oar-core/src/action/operation_ledger.rs:83-88 | refines the one-map move to Executing, refusals included, and keeps the indexes inverse |
| OperationLedgers.OperationLedger.MarkSucceeded | crates/oar-core/src/action/operation_ledger.rs:90-95 | refines the one-map move to Succeeded, refusals included |
| OperationLedgers.OperationLedger.MoveTo | crates/oar-core/src/action/operation_ledger.rs:136-178 | the shared transition: unknown key, same status, disallowed move or stored move, with `last_error` cleared |
| OperationLedgers.OperationLedger.MarkFailed | crates/oar-core/src/action/operation_ledger.rs:97-130 | refines the one-map failure with its error text; idempotent on a failed record |
| OperationLedgers.OperationLedger.GetByIdempotencyKey | crates/oar-core/src/action/operation_ledger.rs:132-134 | the record of the key in the one map, if any |
| OperationLedgers.RunKeepsLedger | crates/oar-core/src/action/operation_ledger.rs:35-184 | after any sequence of calls: operation ids are distinct and issued, statuses are Confirmed, Executing, Succeeded or Failed, and an error is present exactly on failed records |
| OperationLedgers.StepFollows | crates/oar-core/src/action/operation_ledger.rs:50-178 | no call loses a record or moves one backwards, and a refused call changes nothing |
| OperationLedgers.RecordsOnlyMoveForward | crates/oar-core/src/action/operation_ledger.rs:136-178 | between any two points of any run a record keeps its identity and only moves Confirmed, Executing, then Succeeded or Failed |
| OperationLedgers.MarksExactly | crates/oar-core/src/action/operation_ledger.rs:83-178 | each mark by the status it meets: idempotent, one allowed step, the error text kept, every other record untouched, anything else refused by name |
| OperationLedgers.OperationIdInjective | crates/oar-core/src/action/operation_ledger.rs:64-64 | two sequence numbers never give the same operation id |
| AuditLog.AuditEventRepository.Append | crates/oar-core/src/action/audit_repository.rs:36-51 | an event is stored at the end exactly when its id is new; a duplicate is refused and changes nothing |
| AuditLog.AuditEventRepository.FindByTraceId | crates/oar-core/src/action/audit_repository.rs:53-65 | exactly the events of the trace, each as often as stored, in sequence order, equal numbers in the order stored |
| AuditLog.SortIsStable | crates/oar-core/src/action/audit_repository.rs:63-63 | sorting keeps the order of events with equal numbers |
| AuditLog.AuditTrace.Record | crates/oar-core/src/action/audit_trace.rs:77-96 | the next event of the trace: its number is allocated and its id is built from trace id and number |
| AuditLog.AuditTrace.AllocateSequence | crates/oar-core/src/action/audit_trace.rs:88-92 | the next number, each used once |
| AuditLog.EventIdInjective | crates/oar-core/src/action/audit_trace.rs:94-96 | an event id names one trace id and one number, whatever the trace id contains |
| ExecutionProtocol.StepKeepsInv | crates/oar-core/src/action/executor/mod.rs:85-188 | every step of every call keeps the protocol invariant: traces are numbered words of the language, holders are unique and executions follow the stored events |
| ExecutionProtocol.TakenExactly | crates/oar-core/src/action/audit_repository.rs:36-51 | appending event n of a well-formed trace is refused exactly when the trace already has n events, so event 1 is a lock |
| ExecutionTheorems.AtMostOncePerTrace | crates/oar-core/src/action/executor/mod.rs:139-156 | over every interleaving of any number of calls the adapter executes at most once per trace id |
| ExecutionTheorems.TraceLanguage | crates/oar-core/src/action/executor/mod.rs:139-188 | at every point of every run a trace is numbered from 1 and spells a prefix of Confirmed, DryRun, Succeeded or of Confirmed, DryRun, Failed, or exactly Denied |
| ExecutionTheorems.StepGrows | crates/oar-core/src/action/audit_repository.rs:36-51 | no step removes or rewrites a stored event |
| ExecutionTheorems.ReportIsTheTrace | crates/oar-core/src/action/executor/mod.rs:139-188 | a report of a completed execution carries exactly the three stored events of its trace, which was executed once |
| ExecutionTheorems.AtMostOncePerKey | crates/oar-core/src/action/executor/mod.rs:85-188 | at most one execution per idempotency key in every run when the key determines the tenant |
| ExecutionTheorems.SharedKeyExecutesTwice | crates/oar-core/src/action/executor/mod.rs:85-188 | two confirmed actions of different tenants with one key can both be executed: the run |
| ExecutionTheorems.AtMostOncePerKeyExactly | crates/oar-core/src/action/executor/mod.rs:85-188 | every run executes each key at most once if and only if keys determine tenants among the confirmed actions |
| LedgerTraceAgreement.AgreementExactly | crates/oar-core/src/action/executor/mod.rs:112-188 | in every quiet state the ledger says Succeeded (Failed) iff the trace ends in Succeeded (Failed) and nothing is left Executing, if and only if keys and trace ids name each other |
| LedgerTraceAgreement.RunAgrees | crates/oar-core/src/action/executor/mod.rs:139-188 | the agreement holds at every point of every run, with the call in progress accounting for the difference |
| LedgerTraceAgreement.MismatchBreaksAgreement | crates/oar-core/src/action/executor/mod.rs:139-188 | whenever keys and trace ids of two confirmed actions disagree, there is a run that ends quietly with ledger and trace disagreeing |
| LedgerTraceAgreement.SubmitNeverSkipsTheLock | crates/oar-core/src/action/executor/mod.rs:90-99 | no submission answer leads straight to `execute`: the unguarded path in `run_from_submitted` is closed by the ledger invariant |
| LedgerTraceAgreement.ClosedTraceStaysClosed | crates/oar-core/src/action/executor/mod.rs:139-188 | a started trace that no call holds any more is never written or executed again |
| LedgerTraceAgreement.CanStillExecuteExactly | crates/oar-core/src/action/executor/mod.rs:85-188 | from any quiet point of any run, some continuation executes a confirmed action if and only if its trace is empty and its key is unknown to the ledger or Confirmed there |
| LedgerTraceAgreement.SpentKeyNeverExecutes | crates/oar-core/src/action/executor/mod.rs:90-99 | once a key's record has left Confirmed and no call is at work under it, no later call executes under it |
| AdapterAnswers.TraceTellsTheAnswer | crates/oar-core/src/action/executor/mod.rs:154-187 | at every point of every run a complete trace belongs to exactly one executed request, and its last event carries the adapter's answer to it: Succeeded with operation id and states iff Ok, Failed with code and message iff Err |
| AdapterAnswers.LedgerTellsTheAnswer | crates/oar-core/src/action/executor/mod.rs:154-187 | at every point of every run a record is Succeeded only after an Ok under its key, and Failed only after an Err, whose message it keeps |
| AdapterAnswers.RepliesMatchExecutions | crates/oar-core/src/action/executor/mod.rs:154-155 | the recorded answers are those to the executed requests, one each, in order |
| LedgerTraceAgreement.TraceIdsCollide | crates/oar-core/src/action/executor/trace.rs:11-13 | two tenants and two keys with one trace id, for which the agreement fails |
| ActionExecutors.ActionExecutor.ExecuteConfirmedRequest | crates/oar-core/src/action/executor/mod.rs:85-100 | the outcome table: for every ledger state, log and adapter answer, which result or error comes back, which record the key has, which events are appended and whether the adapter executed; a report says Succeeded iff the adapter answered Ok and Failed with its message iff it answered Err; also the protocol steps in a row, and at most one execution per trace over all calls of an accounted executor |
| ActionExecutors.ActionExecutor.ExecuteConfirmedRequestWithPolicy | crates/oar-core/src/action/executor/mod.rs:102-125 | a denial appends exactly the Denied event with its text, or fails on the duplicate, and moves nothing else; otherwise the outcome table of the plain call |
| CallOutcomes.CallOutcome | crates/oar-core/src/action/executor/mod.rs:85-227 | a call run alone ends as the outcome table says, with every id, event, record and error written out, over every ledger a run can leave |
| CallOutcomes.DeniedOutcome | crates/oar-core/src/action/executor/mod.rs:112-124 | a denied call ends with the Denied event or the duplicate, and nothing else moves |
| ActionExecutors.ActionExecutor.RunFromSubmitted | crates/oar-core/src/action/executor/mod.rs:139-188 | refines the protocol from its position; a report tells the adapter's answer in its record status and last event, and the adapter executed once |
| ActionExecutors.ActionExecutor.Prepare | crates/oar-core/src/action/executor/mod.rs:148-152 | event 1, dry run, event 2 and `mark_executing` refine the protocol and stop at the first refusal |
| ActionExecutors.ActionExecutor.ExecuteAndRecord | crates/oar-core/src/action/executor/mod.rs:154-187 | the adapter executes once; a report has status Succeeded and the operation id and states of an Ok, or status Failed and the code and message of an Err; refines the protocol |
| ActionExecutors.ActionExecutor.MarkOutcome | crates/oar-core/src/action/executor/mod.rs:155-172 | the ledger mark for the adapter's answer, Succeeded for Ok and Failed for Err, or its refusal as the end of the call |
| ActionExecutors.ActionExecutor.RecordConfirmedEvent | crates/oar-core/src/action/executor/mod.rs:198-206 | the first event refines its protocol step |
| ActionExecutors.ActionExecutor.RecordDryRunEvent | crates/oar-core/src/action/executor/mod.rs:208-217 | the dry run and its event refine their protocol steps; an adapter error ends the call |
| ActionExecutors.ActionExecutor.RecordEvent | crates/oar-core/src/action/executor/mod.rs:219-227 | append and keep the event, or report the duplicate; the sequence number is used up either way |
| LoneCalls.RunAloneIsARun | crates/oar-core/src/action/executor/mod.rs:85-188 | a call run alone, from any state, is a stretch of moves of that call only |
| LoneCalls.OneMoreCall | crates/oar-core/src/action/executor/mod.rs:85-188 | a ledger, log and execution list that some run from nothing leaves are, after one more whole call, plain or denied, again left by a run from nothing |
| LoneCalls.RepeatIsDuplicate | crates/oar-core/src/action/executor/mod.rs:85-188 | once a request was answered with a report, every later confirmed request with its key is answered with the same operation as a duplicate and changes nothing |
| ProposedActions.NormalizeEvidenceIds | crates/oar-core/src/domain/proposed_action.rs:227-250 | the loop computes the scan of the trimmed ids |
| ProposedActions.NormalizedExactly | crates/oar-core/src/domain/proposed_action.rs:227-254 | accepted exactly for non-empty lists of non-blank ids; each trimmed id is kept once, at its first place; the result passes the evidence check and normalizes to itself |
| ProposedActions.ProposedAction.NewDraft | crates/oar-core/src/domain/proposed_action.rs:73-104 | version and evidence errors in that order; an accepted draft passes the checks `publish` and `decide` make later |
| ProposedActions.DraftedExactly | crates/oar-core/src/domain/proposed_action.rs:73-104 | a draft is made exactly for a positive version and a non-empty list of non-blank evidence ids |
| ProposedActions.ProposedAction.DoPublish | crates/oar-core/src/domain/proposed_action.rs:106-110 | refines the publish call, errors included |
| ProposedActions.ProposedAction.DoWithdraw | crates/oar-core/src/domain/proposed_action.rs:112-127 | refines the withdraw call, errors included |
| ProposedActions.ProposedAction.DoSupersede | crates/oar-core/src/domain/proposed_action.rs:129-141 | refines the supersede call, errors included |
| ProposedActions.ProposedAction.DoDecide | crates/oar-core/src/domain/proposed_action.rs:143-160 | refines the decide call: the decision is stored once, and the confirmed action it asks for is built |
| ProposedActions.CallsExactly | crates/oar-core/src/domain/proposed_action.rs:106-203 | what each call accepts, what it leaves, and which error refuses it, over every proposal |
| ProposedActions.IssuesExactly | crates/oar-core/src/domain/proposed_action.rs:143-224 | what a decision issues, word for word: id and key with tenant, proposal, version and kind in place, the proposal's tenant and actor, the decision's time; nothing for a rejection |
| ProposedActions.AtMostOneDecision | crates/oar-core/src/domain/proposed_action.rs:106-203 | over any call sequence on a draft the accepted calls form one of six histories with at most one decision, at most one action is issued, and it is the one the decision asks for |
| ProposedActions.EvidenceIsSettledByDraft | crates/oar-core/src/domain/proposed_action.rs:162-203 | over any call sequence on a draft neither `publish` nor `decide` ever answers a version or evidence error |
| BuiltActions.DecisionsBuild | crates/oar-core/src/domain/proposed_action.rs:205-224 | a decision on any proposal, drafted or not, builds exactly the action of its tenant, id, actor, version, kind and time |
| BuiltActions.IssuableExactly | crates/oar-core/src/domain/proposed_action.rs:73-224 | the actions that call sequences on drafts issue are exactly the built ones: each is issued by drafting, publishing and deciding |
| BuiltActions.TailNamesTheDecision | crates/oar-core/src/domain/proposed_action.rs:210-216 | what follows the tenant in a key names one proposal id, one version and one kind of decision, whatever colons the id holds |
| BuiltActions.CollideExactly | crates/oar-core/src/domain/proposed_action.rs:210-216 | two prefixes can be completed to one string by decided tails if and only if one extends the other |
| BuiltActions.AtMostOnceForTenantsExactly | crates/oar-core/src/domain/proposed_action.rs:143-224 | every set of actions issued for these tenants executes at most once per key in every run, if and only if no tenant's key prefix extends another's; otherwise two drafts issue the failing pair |
| BuiltActions.AgreementForTenantsExactly | crates/oar-core/src/domain/proposed_action.rs:143-224 | ledger and trace agree for every set of actions issued for these tenants, if and only if neither key prefixes nor trace prefixes of two tenants extend one another |
| BuiltActions.ColonFreeTenantsAreSafe | crates/oar-core/src/domain/proposed_action.rs:212-216 | tenant ids without colons meet both conditions |
| AuditOutbox.SentIsFinal | crates/oar-core/src/storage/postgres/audit_sql.rs:79-204 | under every statement, fenced or not, in any order: `sent_at` is set exactly on sent rows, a sent row never changes again, and the attempt count never falls |
| AuditOutbox.NextClaimExactly | crates/oar-core/src/storage/postgres/audit_sql.rs:79-204 | when the next claim takes a row after each statement: from the lease end, from the retry or requeue time, or never |
| AuditOutbox.MarksLandExactly | crates/oar-core/src/storage/postgres/audit_sql.rs:111-204 | which rows each mark and the requeue land on, and what a landed sent mark leaves |
| AuditOutbox.LandsOnlyOnNewest | crates/oar-core/src/storage/postgres/audit_sql.rs:121-175 | a fenced mark lands exactly when it is for the newest claim |
| AuditOutbox.ClaimsArePermanent | crates/oar-core/src/storage/postgres/audit_sql.rs:79-175 | each attempt belongs to one claim for ever and keeps at most one mark outcome |
| AuditOutbox.Fencing | crates/oar-core/src/storage/postgres/audit_sql.rs:79-175 | in every run attempts are numbered by claims, an unmarked message is claimed again only at a claimer time at or after the lease end, and a mark for an older claim changes nothing |
| AuditOutbox.AttemptConservation | crates/oar-core/src/storage/postgres/audit_sql.rs:79-204 | attempts = landed sent + retryable + failed + claims without a mark; landed failures = requeues + (1 if failed now); landed sent = (1 if sent now) |
| AuditOutbox.SentIsEarned | crates/oar-core/src/storage/postgres/audit_sql.rs:121-131 | a sent row was answered Sent on exactly the attempt it stores |
| AuditOutbox.AttemptBound | crates/oar-core/src/storage/postgres/audit_outbox_worker.rs:114-128 | attempts never exceed max(1, max_attempts) + requeues + claims without a mark |
| OutboxWorker.OutboxTable.SelectDue | crates/oar-core/src/storage/postgres/audit_sql.rs:80-91 | the claim takes the first due, unlocked rows in claim order, all of them if the limit allows |
| OutboxWorker.OutboxTable.EarliestOf | crates/oar-core/src/storage/postgres/audit_sql.rs:87-87 | the first row in claim order: no next attempt first, then next attempt, creation time and id |
| OutboxWorker.ClaimOrder | crates/oar-core/src/storage/postgres/audit_sql.rs:87-87 | the claim order case by case: no next attempt first, then next attempt, creation time and id |
| OutboxWorker.OutboxTable.ClaimOutbox | crates/oar-core/src/storage/postgres/audit_sql.rs:79-109 | the claim is one protocol step on the first due rows and returns exactly those rows by id with their new attempt numbers |
| OutboxWorker.OutboxTable.MarkForAttempt | crates/oar-core/src/storage/postgres/audit_sql.rs:121-175 | a fenced mark is one protocol step and says whether it landed |
| OutboxWorker.Worker.DrainOnce | crates/oar-core/src/storage/postgres/audit_outbox_worker.rs:91-185 | whatever fails, the table moves only by protocol steps, and this drain's marks are exactly the ones the code issues: its answer, its attempt, the clock for sent and clock plus retry delay for a retry; a report comes back exactly when the batch limit is not negative and no database call fails, and then the claimed messages are distinct, are the first due rows of the table the claim met, are all the claims this drain ever made, and are each resolved by the exhaustion rule; the counters are the outcomes the table records for them, claimed = sent + retryable + failed + stale, exhausted <= failed |
| OutboxWorker.Worker.Claim | crates/oar-core/src/storage/postgres/audit_outbox_worker.rs:92-103 | the claimed messages are distinct, unresolved, the first due rows, and every claim this drain has made; each row is of the configured tenant and stream, claimed at the worker's clock and not due before clock plus lease |
| OutboxWorker.Worker.HandleAll | crates/oar-core/src/storage/postgres/audit_outbox_worker.rs:114-185 | the loop resolves every claimed message and the report counts exactly their recorded outcomes, unless a database call fails |
| OutboxWorker.Worker.DeliverAndMark | crates/oar-core/src/storage/postgres/audit_outbox_worker.rs:114-165 | a delivery is marked by the exhaustion rule on its own claim, and a miss is stale; a landed mark leaves the row sent at the clock, pending until clock plus retry delay, or failed with no next attempt |
| OutboxWorker.Worker.Tally | crates/oar-core/src/storage/postgres/audit_outbox_worker.rs:167-181 | one marked message is counted as its recorded outcome |
| Calendar.CivilNextDay | crates/oar-http-facade/src/feishu_auth/util.rs:149-161 | for every day number, negative ones too, the result is a valid date and the next number gives the next day |
| Calendar.CivilCountsDays | crates/oar-http-facade/src/feishu_auth/util.rs:149-161 | the closed form equals n next-day steps from 1970-01-01 |
| Calendar.CountOfCivil | crates/oar-http-facade/src/feishu_auth/util.rs:149-161 | counting the days of the result by years and months gives the day number back |
| Calendar.CivilOfCount | crates/oar-http-facade/src/feishu_auth/util.rs:149-161 | every valid Gregorian date is the result for its day count |
| Calendar.CivilIncreasing | crates/oar-http-facade/src/feishu_auth/util.rs:149-161 | earlier day numbers are exactly earlier dates |
| Iso8601.OrderPreserved | crates/oar-http-facade/src/feishu_auth/util.rs:135-147 | before year 10000, in nanoseconds, strings compare as the whole seconds of the times do, times before the epoch counting as the epoch, and a later time never prints earlier |
| Iso8601.Rfc3339Exactly | crates/oar-http-facade/src/feishu_auth/util.rs:135-147 | the output is a UTC `date-time` of section 5.6 of RFC 3339 if and only if the time is before year 10000; it then names the whole second the time falls in, or the epoch for earlier times |
| Iso8601.OrderHoldsExactlyBefore | crates/oar-http-facade/src/feishu_auth/util.rs:135-147 | all times before a horizon, given in seconds, print in order if and only if the horizon is the first second of year 10000 or earlier |
| Iso8601.OrderBreaksAtYear10000 | crates/oar-http-facade/src/feishu_auth/util.rs:135-147 | the first second of year 10000 prints below the last of year 9999 |
| Utf8.DecodeEncode | crates/oar-lark-adapter/src/okr/source_ref.rs:101-123 | decoding inverts encoding for every string |
| Utf8.EncodeDecode | crates/oar-lark-adapter/src/okr/source_ref.rs:121-123 | only encodings decode: overlong forms and surrogates are refused |
| Utf8.EncodeCharExactly | crates/oar-lark-adapter/src/okr/source_ref.rs:101-101 | number of bytes, lead byte and continuation bits of every character, as in section 3 of RFC 3629 |
| UrlEncoding.PercentEncode | crates/oar-lark-adapter/src/url_encoding.rs:21-31 | the loop computes the percent-encoding of the UTF-8 bytes; letters, digits and `-_.~` come out as they are |
| UrlEncoding.EncodedExactly | crates/oar-lark-adapter/src/url_encoding.rs:21-31 | character by character: a letter, digit or one of `-_.~` is itself, any other character is `%` and two upper-case hex digits for each of its bytes |
| UrlEncoding.EncodedAlphabet | crates/oar-lark-adapter/src/url_encoding.rs:21-31 | only letters, digits, `-_.~` and escapes appear, every `%` is followed by two upper-case hex digits, and nothing gets shorter |
| UrlEncoding.DecodeComponent | crates/oar-lark-adapter/src/okr/source_ref.rs:96-124 | the loop computes the strict decoding, refusals included; a valid string of letters, digits and `-_.~` is accepted as it is |
| UrlEncoding.DecodedBytesExactly | crates/oar-lark-adapter/src/okr/source_ref.rs:104-119 | one step of the decoder: a plain byte stands for itself, `%` and two hex digits for their byte, anything else refuses the whole |
| UrlEncoding.DecodedOfEncoded | crates/oar-lark-adapter/src/okr/source_ref.rs:96-124 | strict decoding gives an encoded string back exactly when it is non-empty and valid |
| SourceRefs.OkrSourceRefRoundTrip | crates/oar-lark-adapter/src/okr/source_ref.rs:30-94 | the path form of any reference parses back exactly when the reference is valid |
| SourceRefs.OkrSourceIdRoundTrip | crates/oar-lark-adapter/src/okr/source_ref.rs:39-94 | so does the colon form, which is never taken for the path form |
| SourceRefs.OrdinaryOkrParses | crates/oar-lark-adapter/src/okr/source_ref.rs:55-130 | references with ids of 1 to 100 letters, digits and `-_.~` parse as they stand in both forms |
| SourceRefs.AcceptedOkrIsCanonical | crates/oar-lark-adapter/src/okr/source_ref.rs:55-130 | whatever is accepted has components of 1 to 100 characters without control characters, and both canonical forms parse to it |
| SourceRefs.OkrPrintersInjective | crates/oar-lark-adapter/src/okr/source_ref.rs:30-46 | no two valid references print alike, within a form or across the two |
| SourceRefs.CalendarRoundTrip | crates/oar-lark-adapter/src/calendar/source_ref.rs:26-68 | both prefixes of the calendar path form parse back exactly when the reference is valid |
| SourceRefs.OrdinaryCalendarParses | crates/oar-lark-adapter/src/calendar/source_ref.rs:48-106 | references with ids of 1 to 256 letters, digits and `-_.~` parse as they stand under both prefixes |
| SourceRefs.AcceptedCalendarIsCanonical | crates/oar-lark-adapter/src/calendar/source_ref.rs:48-106 | whatever is accepted has components of 1 to 256 characters without control characters or white space, and its canonical form parses to it |
| QueryString.PercentDecode | crates/oar-http-facade/src/feishu_auth/util.rs:109-133 | the loop computes the facade's decoding: plus as space, escapes, refusals |
| QueryString.PercentDecodedOfEncoded | crates/oar-http-facade/src/feishu_auth/util.rs:109-133 | the facade's decoder inverts the adapter's encoder on every string |
| QueryString.PlusIsSpace | crates/oar-http-facade/src/feishu_auth/util.rs:114-118 | a plus sign between two encoded words decodes to a space |
| QueryString.QueryRoundTrip | crates/oar-http-facade/src/feishu_auth/util.rs:98-133 | parsing an encoded query gives the last-value-wins map of the pairs, empty and repeated ones included |
| QueryString.PiecesExactly | crates/oar-http-facade/src/feishu_auth/util.rs:98-107 | what one more piece does to the map: split at the first `=`, decoded, set; a missing `=` means an empty value; empty and undecodable pieces are passed over |
| QueryString.LaxExactly | crates/oar-http-facade/src/feishu_auth/util.rs:109-133 | for every value the decoder differs from one that asks for two hex digits in an escape if and only if it accepts the value and the value holds a `%+`, which the strict one refuses |
| QueryString.SignedEscapeIsAccepted | crates/oar-http-facade/src/feishu_auth/util.rs:120-124 | an instance: `%+a` decodes to a line feed, and the strict decoder refuses it |
| GrantBlob.ComposeEncryptedGrantBlob | crates/oar-lark-adapter/src/material/blob.rs:74-81 | the buffer is the two length-prefixed pieces |
| GrantBlob.LayoutExactly | crates/oar-lark-adapter/src/material/blob.rs:74-81 | a big-endian length modulo 2^32 stands before each piece, the primary grant first |
| GrantBlob.ParseOfComposedExactly | crates/oar-lark-adapter/src/material/blob.rs:12-81 | parsing a composed blob gives the two pieces back if and only if both lengths are below 2^32 |
| GrantBlob.ComposedOfParse | crates/oar-lark-adapter/src/material/blob.rs:12-50 | composing what was parsed gives the blob back |
| GrantBlob.AcceptedExactly | crates/oar-lark-adapter/src/material/blob.rs:12-50 | the accepted blobs are exactly the composed ones |
| TenantIds.ValidateTenantIds | crates/oar-runtime/src/runtime/tenant_ids.rs:13-34 | the loop computes the validation, with the first error in order |
| TenantIds.ValidateTenantIdsAllowEmpty | crates/oar-runtime/src/runtime/tenant_ids.rs:36-44 | no ids are accepted as none, others are validated |
| TenantIds.ValidatedExactly | crates/oar-runtime/src/runtime/tenant_ids.rs:13-34 | accepted exactly when there is an id and the trimmed ids are non-empty and distinct; the result is the trimmed ids in order |
| TenantIds.ErrorsExactly | crates/oar-runtime/src/runtime/tenant_ids.rs:13-34 | a refused list gets the error of its first blank or repeated id, with the repeated id, or that of an empty list |
| TenantIds.ValidatedTwice | crates/oar-runtime/src/runtime/tenant_ids.rs:9-34 | validated ids validate again, unchanged |
| TenantIds.AllowEmptyIsStable | crates/oar-runtime/src/runtime/tenant_ids.rs:9-44 | ids that passed discovery are trimmed already, and registry construction accepts them unchanged |
| TenantRuntime.TryNewRegistry | crates/oar-runtime/src/runtime/registry.rs:78-102 | the interval is checked first, then the ids; an accepted registry is fresh, in order, with zero counters |
| TenantRuntime.TryNewDiscoveringRuntime | crates/oar-runtime/src/runtime/discovering.rs:47-59 | refused exactly for a zero interval |
| TenantRuntime.Registry.RunRound | crates/oar-runtime/src/runtime/registry.rs:149-178 | one tick each for a prefix of the tenants, as long as the polls before cancellation allow, nothing else changed |
| TenantRuntime.Registry.RunOnceRound | crates/oar-runtime/src/runtime/registry.rs:104-110 | every tenant ticks exactly once, and the report says one completed round |
| TenantRuntime.AwaitTick | crates/oar-runtime/src/runtime/registry.rs:124-135 | the loop goes on exactly when cancellation has not come, or comes between check and tick and the tick wins |
| TenantRuntime.TicksAreCounted | crates/oar-runtime/src/runtime/registry.rs:160-174 | n ticks are counted exactly once each, by what they answered, and the last answer is kept |
| TenantRuntime.Registry.RunUntilCancelled | crates/oar-runtime/src/runtime/registry.rs:112-147 | every tenant ticked n or n+1 times, those with n+1 being a proper prefix, for any outcomes and any cancellation instant; n and the prefix are exactly what the polls before cancellation allow |
| TenantRuntime.DiscoveringRuntime.RunOnceRound | crates/oar-runtime/src/runtime/discovering.rs:61-113 | the discovery, validation or first factory error, or success with exactly one tick for each trimmed id in discovery order; nothing fails after the factory |
| TenantRuntime.InvalidDiscoveryIsNamed | crates/oar-runtime/src/runtime/discovering.rs:182-194 | a round whose discovered ids do not validate fails with the text for a blank or a repeated id |
| TenantRuntime.DiscoveringRuntime.RunBuiltTicks | crates/oar-runtime/src/runtime/discovering.rs:93-112 | the registry error, or one tick each; ids already validated never reach the error |
| TenantRuntime.DiscoveringRuntime.BuildTicks | crates/oar-runtime/src/runtime/discovering.rs:81-92 | one tick per id in order, or the factory's error for the first tenant it refuses |
| DaemonStatus.RestartForgetsTheCode | crates/oar-http-facade/src/tenant_maintenance_daemon_status/model.rs:149-196 | over any sequence of status calls, a lost or degraded last round is shown without a failure code exactly when the daemon was marked running since; after a good round, or none, no code is shown |
| DaemonStatus.StatusInner.RecordRound | crates/oar-http-facade/src/tenant_maintenance_daemon_status/model.rs:155-173 | one round is counted and described, nothing else changes |
| DaemonStatus.StatusInner.SetLastRound | crates/oar-http-facade/src/tenant_maintenance_daemon_status/model.rs:215-236 | the last-round fields become those of the round, nothing else changes |
| DaemonStatus.StatusInner.MarkStopped | crates/oar-http-facade/src/tenant_maintenance_daemon_status/model.rs:179-196 | the counters become the report's and the last round is described again |
| DaemonStatus.FailuresAreRemembered | crates/oar-http-facade/src/tenant_maintenance_daemon_status/model.rs:104-202 | over any sequence of status calls, every daemon failure is counted, the code shown is that of the last failure since the daemon was marked running, and the state is that of the last call |
| DaemonStatus.StoppingChangesOnlyTheState | crates/oar-http-facade/src/tenant_maintenance_daemon_status/model.rs:155-196 | after recording a run, stopping with that run's report changes only the state if and only if the round counters started at zero |
| DaemonStatus.SucceededRoundCountsAgree | crates/oar-http-facade/src/tenant_maintenance_daemon_status/model.rs:205-246 | in a successful round of the runtime, failed ticks equal tenants whose last tick failed |
| DaemonStatus.FailedTicksFollowTheRun | crates/oar-http-facade/src/tenant_maintenance_daemon_status/model.rs:155-173 | over a run the failed-tick counter grows by the failed tenants of its successful rounds |
| DaemonStatus.LastRoundIsExplained | crates/oar-http-facade/src/tenant_maintenance_daemon_status/model.rs:215-258 | the last-round fields describe the last recorded round alone: tenants and failed tenants counted, the code of the first tenant whose last tick failed, or nobody counted and the code of the round's error |
| DaemonStatus.RunUntilCancelledWithObserver | crates/oar-runtime/src/runtime/discovering.rs:126-179 | the report of the run is the count of the observed rounds, the mirror has recorded exactly those, and there are exactly as many as the polls before cancellation allow |
| DaemonStatus.ObserveRound | crates/oar-runtime/src/runtime/discovering.rs:154-155 | a round is run, shown to the mirror, and joins the rounds it has recorded |
| DaemonStatus.RunDaemon | crates/oar-http-facade/src/tenant_maintenance_daemon.rs:95-107 | from zero counters the stopped mirror is the recorded one with only the state changed; it counts every round of the report, exactly as many as the polls before cancellation allow, and every failed tenant |
| ReviewInbox.ReviewInboxItem.TransitionStatus | crates/oar-core/src/domain/review_inbox.rs:180-241 | refines the transition on values: a repeated status only moves the cursor, a refusal changes nothing |
| ReviewInbox.UserCallsExactly | crates/oar-core/src/domain/review_inbox.rs:96-129 | what confirm, reject, withdraw and advance do to every item: when accepted, the status left, cursor and time, and which of the two errors refuses |
| ReviewInbox.ReviewInboxItem.DoConfirm | crates/oar-core/src/domain/review_inbox.rs:96-102 | refines the confirm call, errors included |
| ReviewInbox.ReviewInboxItem.DoReject | crates/oar-core/src/domain/review_inbox.rs:104-110 | refines the reject call, errors included |
| ReviewInbox.ReviewInboxItem.DoWithdraw | crates/oar-core/src/domain/review_inbox.rs:112-118 | refines the withdraw call, errors included |
| ReviewInbox.ReviewInboxItem.ApplyLedgerProjection | crates/oar-core/src/domain/review_inbox.rs:131-170 | refines the projection: its own table first, then the transition, then ledger status and operation id |
| ReviewInbox.ProjectionsExactly | crates/oar-core/src/domain/review_inbox.rs:131-170 | what a projection does to every item: when accepted, everything it leaves, and which error refuses |
| ReviewInbox.ReviewInboxItem.AdvanceSyncCursor | crates/oar-core/src/domain/review_inbox.rs:120-129 | the cursor and time move exactly when the cursor rises |
| ReviewInbox.AcceptedExactlyRaisesCursor | crates/oar-core/src/domain/review_inbox.rs:243-251 | an accepted call sets a strictly higher cursor, a refused one changes nothing |
| ReviewInbox.RefusedCallsVanish | crates/oar-core/src/domain/review_inbox.rs:96-251 | any call sequence equals the sequence of its accepted calls, whose cursors rise strictly up to the item's cursor |
| ReviewInbox.StatusOnlyMovesForward | crates/oar-core/src/domain/review_inbox.rs:180-241 | over any call sequence the status never moves back and a terminal status is final |
| ReviewInbox.InboxFollowsLedger | crates/oar-core/src/domain/review_inbox.rs:131-241 | over any interleaving of ledger calls, user calls and shown changes with rising cursors: every change shown is accepted iff not withdrawn, an executing item has a record that is executing or ended, an ended item has the ledger's own ending, name and operation id, and so has the item once all changes are shown |
| ReviewInbox.ConfirmedItemFollows | crates/oar-core/src/domain/review_inbox.rs:96-241 | an open item that a user confirms follows the ledger from then on in the same way |

## Left out

- The Postgres execution recorder, the token-grant compare-and-set, the scheduler lease and the tenant maintenance
  worker's stages: they are not part of this model.
- HTTP routing, streaming, the Feishu request builders and response parsers, JSON, the Swift client: plumbing and finite
  tables.
- Cryptography, randomness, stable hashed ids: opaque calls.
- Execution policy evaluation: a denial is an arbitrary verdict. `safe_denial_message` is the text that comes with it.
- `classify_failure_code`: a finite table from text to code; the status takes an arbitrary function in its place.
- `record_tenant_report` and the stage counters of the daemon status: independent of the rounds.
- Capability, scope and error-code tables; `as_str` spellings that no property depends on.
- Audit event constants (actor kind, subject kind): the same on every event. The stored summary text is kept.
- Mutex poisoning, panics and counter overflow: locks succeed and counters are unbounded. The millisecond sums of the
  drain loop do saturate at 2^64 - 1 as in the code; a saturated sum then stored as a signed 64-bit value is not
  modelled.
- The floating-point `to_timestamp` conversions: times are whole milliseconds.
- Tokio timing: a tick happens or cancellation is seen first; cancellation may come at any poll and then stays. Missed
  ticks are not modelled.
- The outbox's `aggregate_id` and payload columns: no statement modelled here tests them.
- The recovery statement's row lock (`LOCK_FAILED_AUDIT_OUTBOX_FOR_RECOVERY`): the requeue statement tests the same
  conditions itself.
- The unfenced marks (`MARK_AUDIT_OUTBOX_SENT`, `_RETRYABLE`, `_FAILED`) in the worker protocol: the worker never issues
  them. `AuditOutbox.SentIsFinal` covers them; the conservation and fencing theorems do not.
- The ledger's answer for an operation id without a record: the proved inverse indexes make it impossible.
- The empty check after the loop of `normalize_evidence_ids`: the loop over a non-empty list never leaves it empty.
- `cmp_for_inbox`, `risk_score`, `priority` and the identity fields of an inbox item: constant in every call.
- The payloads, risk severity and target users of a proposal: carried along unchanged.
- A blob length on a platform whose `usize` has 32 bits: addition is unbounded here.

/** The operation ledger: the two-map, in-place implementation and the one-map specification it refines. */
module OperationLedgers {
  import opened Wrappers
  import opened Text

  datatype ActionStatus = Proposed | Confirmed | Executing | Succeeded | Failed | Cancelled

  datatype ConfirmedAction = ConfirmedAction(
    actionId: string,
    tenantId: string,
    actorUserId: string,
    idempotencyKey: string,
    status: ActionStatus,
    confirmedAt: Option<int>)

  datatype OperationRecord = OperationRecord(
    operationId: string,
    tenantId: string,
    actionId: string,
    idempotencyKey: string,
    status: ActionStatus,
    lastError: Option<string>)

  datatype SubmitResult = Created(record: OperationRecord) | Existing(record: OperationRecord)

  datatype LedgerError =
    | ActionNotConfirmed(status: ActionStatus)
    | UnknownIdempotencyKey(key: string)
    | InvalidTransition(from: ActionStatus, to: ActionStatus)

  // ---------------------------------------------------------------- specification: one map by key

  /** What a caller can observe: one record per idempotency key, and how many were created. */
  datatype Ledger = Ledger(records: map<string, OperationRecord>, sequence: nat)

  const EMPTY_LEDGER := Ledger(map[], 0)

  function OperationId(n: nat): string {
    "op-" + Decimal(n)
  }

  predicate AllowedTransition(from: ActionStatus, to: ActionStatus) {
    || (from == Confirmed && to == Executing)
    || (from == Executing && to == Succeeded)
    || (from == Executing && to == Failed)
  }

  function NewRecord(sequence: nat, action: ConfirmedAction): OperationRecord {
    OperationRecord(OperationId(sequence), action.tenantId, action.actionId, action.idempotencyKey, Confirmed, None)
  }

  function Submit(l: Ledger, action: ConfirmedAction): (Ledger, Result<SubmitResult, LedgerError>) {
    if action.status != Confirmed then
      (l, Err(ActionNotConfirmed(action.status)))
    else if action.idempotencyKey in l.records then
      (l, Ok(Existing(l.records[action.idempotencyKey])))
    else
      var record := NewRecord(l.sequence + 1, action);
      (Ledger(l.records[action.idempotencyKey := record], l.sequence + 1), Ok(Created(record)))
  }

  function Transition(l: Ledger, key: string, to: ActionStatus): (Ledger, Result<OperationRecord, LedgerError>) {
    if key !in l.records then
      (l, Err(UnknownIdempotencyKey(key)))
    else if l.records[key].status == to then
      (l, Ok(l.records[key]))
    else if !AllowedTransition(l.records[key].status, to) then
      (l, Err(InvalidTransition(l.records[key].status, to)))
    else
      var lastError := if to != Failed then None else l.records[key].lastError;
      var record := l.records[key].(status := to, lastError := lastError);
      (l.(records := l.records[key := record]), Ok(record))
  }

  function FailWith(l: Ledger, key: string, error: string): (Ledger, Result<OperationRecord, LedgerError>) {
    if key !in l.records then
      (l, Err(UnknownIdempotencyKey(key)))
    else if l.records[key].status == Failed then
      (l, Ok(l.records[key]))
    else if l.records[key].status != Executing then
      (l, Err(InvalidTransition(l.records[key].status, Failed)))
    else
      var record := l.records[key].(status := Failed, lastError := Some(error));
      (l.(records := l.records[key := record]), Ok(record))
  }

  // ---------------------------------------------------------------- runs of the specification

  datatype LedgerCall =
    | SubmitCall(action: ConfirmedAction)
    | ExecutingCall(key: string)
    | SucceededCall(key: string)
    | FailedCall(key: string, error: string)

  function Apply(l: Ledger, call: LedgerCall): Ledger {
    match call
    case SubmitCall(action) => Submit(l, action).0
    case ExecutingCall(key) => Transition(l, key, Executing).0
    case SucceededCall(key) => Transition(l, key, Succeeded).0
    case FailedCall(key, error) => FailWith(l, key, error).0
  }

  predicate Refused(l: Ledger, call: LedgerCall) {
    match call
    case SubmitCall(action) => Submit(l, action).1.Err?
    case ExecutingCall(key) => Transition(l, key, Executing).1.Err?
    case SucceededCall(key) => Transition(l, key, Succeeded).1.Err?
    case FailedCall(key, error) => FailWith(l, key, error).1.Err?
  }

  function Run(calls: seq<LedgerCall>): Ledger {
    if calls == [] then EMPTY_LEDGER else Apply(Run(calls[..|calls| - 1]), calls[|calls| - 1])
  }

  /** What every record looks like at every point of every run. */
  predicate RecordOk(key: string, r: OperationRecord) {
    && r.idempotencyKey == key
    && r.status in {Confirmed, Executing, Succeeded, Failed}
    && (r.lastError.Some? <==> r.status == Failed)
  }

  ghost predicate CreatedUpTo(r: OperationRecord, sequence: nat) {
    exists n :: 1 <= n <= sequence && r.operationId == OperationId(n)
  }

  ghost predicate LedgerOk(l: Ledger) {
    && (forall key :: key in l.records ==> RecordOk(key, l.records[key]) && CreatedUpTo(l.records[key], l.sequence))
    && (forall k1, k2 :: k1 in l.records && k2 in l.records && l.records[k1].operationId == l.records[k2].operationId
                         ==> k1 == k2)
  }

  /** `to` is `from` after zero or more status moves; nothing else about the record changes. */
  predicate Follows(from: OperationRecord, to: OperationRecord) {
    && to == from.(status := to.status, lastError := to.lastError)
    && (to.status == from.status ==> to == from)
    && (from.status == Confirmed || to.status == from.status
        || (from.status == Executing && to.status in {Succeeded, Failed}))
  }

  lemma OperationIdInjective(m: nat, n: nat)
    requires OperationId(m) == OperationId(n)
    ensures m == n
  {
    assert Decimal(m) == OperationId(m)[3..] && Decimal(n) == OperationId(n)[3..];
    DecimalInjective(m, n);
  }

  lemma FreshOperationId(l: Ledger, key: string)
    requires LedgerOk(l) && key in l.records
    ensures l.records[key].operationId != OperationId(l.sequence + 1)
  {
    var n :| 1 <= n <= l.sequence && l.records[key].operationId == OperationId(n);
    if OperationId(n) == OperationId(l.sequence + 1) {
      OperationIdInjective(n, l.sequence + 1);
    }
  }

  lemma CreatedUpToMonotone(r: OperationRecord, m: nat, n: nat)
    requires CreatedUpTo(r, m) && m <= n
    ensures CreatedUpTo(r, n)
  {
    var i :| 1 <= i <= m && r.operationId == OperationId(i);
    assert 1 <= i <= n;
  }

  lemma SubmitKeepsOk(l: Ledger, action: ConfirmedAction)
    requires LedgerOk(l)
    ensures LedgerOk(Submit(l, action).0)
  {
    var m := Submit(l, action).0;
    if m != l {
      forall key | key in m.records ensures RecordOk(key, m.records[key]) && CreatedUpTo(m.records[key], m.sequence) {
        if key in l.records {
          CreatedUpToMonotone(l.records[key], l.sequence, m.sequence);
        } else {
          assert m.records[key].operationId == OperationId(m.sequence);
        }
      }
      forall key | key in l.records ensures l.records[key].operationId != OperationId(m.sequence) {
        FreshOperationId(l, key);
      }
    }
  }

  lemma UpdateKeepsOk(l: Ledger, key: string, record: OperationRecord)
    requires LedgerOk(l) && key in l.records && RecordOk(key, record)
    requires record.operationId == l.records[key].operationId
    ensures LedgerOk(l.(records := l.records[key := record]))
  {
    var m := l.(records := l.records[key := record]);
    assert CreatedUpTo(l.records[key], l.sequence);
    forall k | k in m.records ensures RecordOk(k, m.records[k]) && CreatedUpTo(m.records[k], m.sequence) {
      assert m.records[k].operationId == l.records[k].operationId;
      var n :| 1 <= n <= l.sequence && l.records[k].operationId == OperationId(n);
    }
  }

  lemma TransitionKeepsOk(l: Ledger, key: string, to: ActionStatus)
    requires LedgerOk(l) && to in {Executing, Succeeded}
    ensures LedgerOk(Transition(l, key, to).0)
  {
    if key in l.records && AllowedTransition(l.records[key].status, to) {
      UpdateKeepsOk(l, key, Transition(l, key, to).1.value);
    }
  }

  lemma MarkFailedKeepsOk(l: Ledger, key: string, error: string)
    requires LedgerOk(l)
    ensures LedgerOk(FailWith(l, key, error).0)
  {
    if key in l.records && l.records[key].status == Executing {
      UpdateKeepsOk(l, key, FailWith(l, key, error).1.value);
    }
  }

  /** One call keeps the invariant. */
  lemma StepKeepsOk(l: Ledger, call: LedgerCall)
    requires LedgerOk(l)
    ensures LedgerOk(Apply(l, call))
  {
    match call
    case SubmitCall(action) => SubmitKeepsOk(l, action);
    case ExecutingCall(key) => TransitionKeepsOk(l, key, Executing);
    case SucceededCall(key) => TransitionKeepsOk(l, key, Succeeded);
    case FailedCall(key, error) => MarkFailedKeepsOk(l, key, error);
  }

  /** One call loses no record and moves each one only forward; a refused call changes nothing. */
  lemma StepFollows(l: Ledger, call: LedgerCall)
    requires forall key :: key in l.records ==> RecordOk(key, l.records[key])
    ensures forall key :: key in l.records ==>
                            key in Apply(l, call).records && Follows(l.records[key], Apply(l, call).records[key])
    ensures Refused(l, call) ==> Apply(l, call) == l
  {
    match call
    case SubmitCall(action) =>
    case ExecutingCall(key) =>
    case SucceededCall(key) =>
    case FailedCall(key, error) =>
  }

  /** What the three marks answer and leave behind, by the status they meet: each is idempotent, moves one step, keeps
      every other record, and refuses anything else with the move it was asked for. */
  lemma MarksExactly(l: Ledger, key: string, error: string)
    requires key in l.records ==> RecordOk(key, l.records[key])
    ensures key !in l.records ==>
              && Transition(l, key, Executing) == (l, Err(UnknownIdempotencyKey(key)))
              && Transition(l, key, Succeeded) == (l, Err(UnknownIdempotencyKey(key)))
              && FailWith(l, key, error) == (l, Err(UnknownIdempotencyKey(key)))
    ensures key in l.records ==>
              var r := l.records[key];
              && (r.status == Confirmed ==>
                    && Moved(l, key, Transition(l, key, Executing), r.(status := Executing))
                    && Transition(l, key, Succeeded) == (l, Err(InvalidTransition(Confirmed, Succeeded)))
                    && FailWith(l, key, error) == (l, Err(InvalidTransition(Confirmed, Failed))))
              && (r.status == Executing ==>
                    && Transition(l, key, Executing) == (l, Ok(r))
                    && Moved(l, key, Transition(l, key, Succeeded), r.(status := Succeeded))
                    && Moved(l, key, FailWith(l, key, error), r.(status := Failed, lastError := Some(error))))
              && (r.status == Succeeded ==>
                    && Transition(l, key, Executing) == (l, Err(InvalidTransition(Succeeded, Executing)))
                    && Transition(l, key, Succeeded) == (l, Ok(r))
                    && FailWith(l, key, error) == (l, Err(InvalidTransition(Succeeded, Failed))))
              && (r.status == Failed ==>
                    && Transition(l, key, Executing) == (l, Err(InvalidTransition(Failed, Executing)))
                    && Transition(l, key, Succeeded) == (l, Err(InvalidTransition(Failed, Succeeded)))
                    && FailWith(l, key, error) == (l, Ok(r)))
  {
  }

  /** The record of the key is replaced, and answered. */
  predicate Moved(l: Ledger, key: string, answer: (Ledger, Result<OperationRecord, LedgerError>), r: OperationRecord) {
    answer == (Ledger(l.records[key := r], l.sequence), Ok(r))
  }

  /** Every run keeps the invariant. */
  lemma {:induction false} RunKeepsLedger(calls: seq<LedgerCall>)
    ensures LedgerOk(Run(calls))
  {
    if calls != [] {
      RunKeepsLedger(calls[..|calls| - 1]);
      StepKeepsOk(Run(calls[..|calls| - 1]), calls[|calls| - 1]);
    }
  }

  /** Between any two points of a run a record keeps its identity and moves only along
      Confirmed, Executing, then Succeeded or Failed. */
  lemma {:induction false} RecordsOnlyMoveForward(calls: seq<LedgerCall>, i: nat, key: string)
    requires i <= |calls| && key in Run(calls[..i]).records
    ensures key in Run(calls).records && Follows(Run(calls[..i]).records[key], Run(calls).records[key])
    decreases |calls|
  {
    if i < |calls| {
      var before := calls[..|calls| - 1];
      assert before[..i] == calls[..i];
      RecordsOnlyMoveForward(before, i, key);
      RunKeepsLedger(before);
      StepFollows(Run(before), calls[|calls| - 1]);
      RunKeepsLedger(calls[..i]);
    } else {
      assert calls[..i] == calls;
    }
  }

  // ---------------------------------------------------------------- implementation: two maps

  class OperationLedger {
    var recordsByOperationId: map<string, OperationRecord>
    var operationIdByIdempotencyKey: map<string, string>
    var sequence: nat

    /** The specification state this object stands for. */
    ghost function View(): Ledger
      reads this
      requires IndexesAgree()
    {
      Ledger(map key | key in operationIdByIdempotencyKey :: recordsByOperationId[operationIdByIdempotencyKey[key]],
             sequence)
    }

    /** The key index and the record map are mutually inverse. */
    ghost predicate IndexesAgree()
      reads this
    {
      && (forall key :: key in operationIdByIdempotencyKey ==>
                          var id := operationIdByIdempotencyKey[key];
                          && id in recordsByOperationId
                          && recordsByOperationId[id].idempotencyKey == key)
      && (forall id :: id in recordsByOperationId ==>
                         var record := recordsByOperationId[id];
                         && record.operationId == id
                         && record.idempotencyKey in operationIdByIdempotencyKey
                         && operationIdByIdempotencyKey[record.idempotencyKey] == id)
    }

    ghost predicate Valid()
      reads this
    {
      IndexesAgree() && LedgerOk(View())
    }

    constructor ()
      ensures Valid() && View() == EMPTY_LEDGER
    {
      recordsByOperationId := map[];
      operationIdByIdempotencyKey := map[];
      sequence := 0;
    }

    method SubmitConfirmedAction(action: ConfirmedAction) returns (r: Result<SubmitResult, LedgerError>)
      requires Valid()
      modifies this
      ensures Valid()
      ensures (View(), r) == Submit(old(View()), action)
    {
      if action.status != Confirmed {
        return Err(ActionNotConfirmed(action.status));
      }
      var existing := GetByIdempotencyKey(action.idempotencyKey);
      if existing.Some? {
        return Ok(Existing(existing.value));
      }
      SubmitKeepsOk(View(), action);
      NoRecordUsesNextId();
      sequence := sequence + 1;
      var operationId := OperationId(sequence);
      var record := NewRecord(sequence, action);
      Insert(operationId, record);
      return Ok(Created(record));
    }

    lemma NoRecordUsesNextId()
      requires Valid()
      ensures OperationId(sequence + 1) !in recordsByOperationId
    {
      if OperationId(sequence + 1) in recordsByOperationId {
        FreshOperationId(View(), recordsByOperationId[OperationId(sequence + 1)].idempotencyKey);
      }
    }

    /** Enters a new record in both maps. */
    method Insert(operationId: string, record: OperationRecord)
      requires IndexesAgree()
      requires operationId !in recordsByOperationId && record.operationId == operationId
      requires record.idempotencyKey !in operationIdByIdempotencyKey
      modifies this`recordsByOperationId, this`operationIdByIdempotencyKey
      ensures IndexesAgree()
      ensures View() == old(View()).(records := old(View()).records[record.idempotencyKey := record])
    {
      operationIdByIdempotencyKey := operationIdByIdempotencyKey[record.idempotencyKey := operationId];
      recordsByOperationId := recordsByOperationId[operationId := record];
      assert View().records == old(View()).records[record.idempotencyKey := record];
    }

    method MarkExecuting(key: string) returns (r: Result<OperationRecord, LedgerError>)
      requires Valid()
      modifies this
      ensures Valid()
      ensures (View(), r) == Transition(old(View()), key, Executing)
    {
      r := MoveTo(key, Executing);
    }

    method MarkSucceeded(key: string) returns (r: Result<OperationRecord, LedgerError>)
      requires Valid()
      modifies this
      ensures Valid()
      ensures (View(), r) == Transition(old(View()), key, Succeeded)
    {
      r := MoveTo(key, Succeeded);
    }

    method MarkFailed(key: string, error: string) returns (r: Result<OperationRecord, LedgerError>)
      requires Valid()
      modifies this
      ensures Valid()
      ensures (View(), r) == FailWith(old(View()), key, error)
    {
      if key !in operationIdByIdempotencyKey {
        return Err(UnknownIdempotencyKey(key));
      }
      var record := recordsByOperationId[operationIdByIdempotencyKey[key]];
      if record.status == Failed {
        return Ok(record);
      }
      if record.status != Executing {
        return Err(InvalidTransition(record.status, Failed));
      }
      MarkFailedKeepsOk(View(), key, error);
      record := record.(status := Failed, lastError := Some(error));
      Replace(key, record);
      return Ok(record);
    }

    method GetByIdempotencyKey(key: string) returns (r: Option<OperationRecord>)
      requires Valid()
      ensures r == if key in View().records then Some(View().records[key]) else None
    {
      if key !in operationIdByIdempotencyKey {
        return None;
      }
      return Some(recordsByOperationId[operationIdByIdempotencyKey[key]]);
    }

    method MoveTo(key: string, to: ActionStatus) returns (r: Result<OperationRecord, LedgerError>)
      requires Valid() && to in {Executing, Succeeded}
      modifies this
      ensures Valid()
      ensures (View(), r) == Transition(old(View()), key, to)
    {
      if key !in operationIdByIdempotencyKey {
        return Err(UnknownIdempotencyKey(key));
      }
      var record := recordsByOperationId[operationIdByIdempotencyKey[key]];
      if record.status == to {
        return Ok(record);
      }
      if !AllowedTransition(record.status, to) {
        return Err(InvalidTransition(record.status, to));
      }
      TransitionKeepsOk(View(), key, to);
      record := record.(status := to);
      if to != Failed {
        record := record.(lastError := None);
      }
      Replace(key, record);
      return Ok(record);
    }

    /** Stores a new version of the record of `key`; both indexes stay in step. */
    method Replace(key: string, record: OperationRecord)
      requires IndexesAgree() && key in View().records
      requires record.operationId == View().records[key].operationId && record.idempotencyKey == key
      modifies this`recordsByOperationId
      ensures IndexesAgree()
      ensures View() == old(View()).(records := old(View()).records[key := record])
    {
      recordsByOperationId := recordsByOperationId[record.operationId := record];
      assert View().records == old(View()).records[key := record];
    }
  }
}

/** The review inbox item: the object that changes in place, the value it refines, and the proof that it follows the
    operation ledger. */
module ReviewInbox {
  import opened Wrappers
  import L = OperationLedgers

  datatype ItemStatus = Open | Confirmed | Rejected | Executing | Succeeded | Failed | Withdrawn

  datatype InboxError =
    | StaleSyncCursor(current: nat, proposed: nat)
    | InvalidStatusTransition(from: ItemStatus, to: ItemStatus)
    | InvalidLedgerProjection(from: ItemStatus, to: ItemStatus)

  /** The mutable part of an item. */
  datatype Item = Item(
    status: ItemStatus, syncCursor: nat, updatedAt: int, ledgerStatus: Option<string>, operationId: Option<string>)

  /** The calls a user's session makes; the ledger's projections are the other kind. */
  datatype UserCall =
    | Confirm(cursor: nat, now: int)
    | Reject(cursor: nat, now: int)
    | Withdraw(cursor: nat, now: int)
    | AdvanceCursor(cursor: nat, now: int)

  datatype InboxCall =
    | ByUser(call: UserCall)
    | Project(next: ItemStatus, ledgerStatus: string, operationId: Option<string>, cursor: nat, now: int)

  predicate IsTerminal(s: ItemStatus) {
    s in {Rejected, Succeeded, Failed, Withdrawn}
  }

  /** How far along its life an item is; no status is left for one of lower rank. */
  function Rank(s: ItemStatus): nat {
    match s
    case Open => 0
    case Confirmed => 1
    case Executing => 2
    case Succeeded => 3
    case Failed => 3
    case Rejected => 3
    case Withdrawn => 3
  }

  predicate LedgerMove(from: ItemStatus, to: ItemStatus) {
    || (from == Confirmed && to in {Executing, Succeeded, Failed})
    || (from == Executing && to in {Succeeded, Failed})
  }

  predicate AllowedMove(from: ItemStatus, to: ItemStatus) {
    || (from == Open && to in {Confirmed, Rejected, Withdrawn})
    || (from == Confirmed && to in {Executing, Succeeded, Failed, Withdrawn})
    || (from == Executing && to in {Succeeded, Failed})
  }

  // ---------------------------------------------------------------- calls on the value

  function Advanced(item: Item, cursor: nat, now: int): (Item, Result<(), InboxError>) {
    if cursor <= item.syncCursor then (item, Err(StaleSyncCursor(item.syncCursor, cursor)))
    else (item.(syncCursor := cursor, updatedAt := now), Ok(()))
  }

  function Transitioned(item: Item, next: ItemStatus, cursor: nat, now: int): (Item, Result<(), InboxError>) {
    if item.status != next && !AllowedMove(item.status, next) then
      (item, Err(InvalidStatusTransition(item.status, next)))
    else
      var (advanced, r) := Advanced(item, cursor, now);
      (if r.Ok? then advanced.(status := next) else item, r)
  }

  function Projected(
    item: Item, next: ItemStatus, ledgerStatus: string, operationId: Option<string>, cursor: nat, now: int)
    : (Item, Result<(), InboxError>)
  {
    if !LedgerMove(item.status, next) then
      (item, Err(InvalidLedgerProjection(item.status, next)))
    else
      var (moved, r) := Transitioned(item, next, cursor, now);
      (if r.Ok? then moved.(ledgerStatus := Some(ledgerStatus), operationId := operationId) else item, r)
  }

  function ByUserApplied(item: Item, call: UserCall): (Item, Result<(), InboxError>) {
    match call
    case Confirm(cursor, now) => Transitioned(item, Confirmed, cursor, now)
    case Reject(cursor, now) => Transitioned(item, Rejected, cursor, now)
    case Withdraw(cursor, now) => Transitioned(item, Withdrawn, cursor, now)
    case AdvanceCursor(cursor, now) => Advanced(item, cursor, now)
  }

  function Applied(item: Item, call: InboxCall): (Item, Result<(), InboxError>) {
    match call
    case ByUser(c) => ByUserApplied(item, c)
    case Project(next, ledgerStatus, operationId, cursor, now) =>
      Projected(item, next, ledgerStatus, operationId, cursor, now)
  }

  /** What a user's call does to an item, case by case: when it is accepted, the status it leaves, and which of the two
      errors refuses it. */
  lemma UserCallsExactly(item: Item, cursor: nat, now: int)
    ensures var (after, r) := Applied(item, ByUser(Confirm(cursor, now)));
            && (r.Ok? <==> cursor > item.syncCursor && item.status in {Open, Confirmed})
            && (r.Ok? ==> after == item.(status := Confirmed, syncCursor := cursor, updatedAt := now))
            && (r.Err? ==>
                  && after == item
                  && r.error == if item.status in {Open, Confirmed} then StaleSyncCursor(item.syncCursor, cursor)
                                else InvalidStatusTransition(item.status, Confirmed))
    ensures var (after, r) := Applied(item, ByUser(Reject(cursor, now)));
            && (r.Ok? <==> cursor > item.syncCursor && item.status in {Open, Rejected})
            && (r.Ok? ==> after == item.(status := Rejected, syncCursor := cursor, updatedAt := now))
            && (r.Err? ==>
                  && after == item
                  && r.error == if item.status in {Open, Rejected} then StaleSyncCursor(item.syncCursor, cursor)
                                else InvalidStatusTransition(item.status, Rejected))
    ensures var (after, r) := Applied(item, ByUser(Withdraw(cursor, now)));
            && (r.Ok? <==> cursor > item.syncCursor && item.status in {Open, Confirmed, Withdrawn})
            && (r.Ok? ==> after == item.(status := Withdrawn, syncCursor := cursor, updatedAt := now))
            && (r.Err? ==>
                  && after == item
                  && r.error == if item.status in {Open, Confirmed, Withdrawn}
                                then StaleSyncCursor(item.syncCursor, cursor)
                                else InvalidStatusTransition(item.status, Withdrawn))
    ensures var (after, r) := Applied(item, ByUser(AdvanceCursor(cursor, now)));
            && (r.Ok? <==> cursor > item.syncCursor)
            && (r.Ok? ==> after == item.(syncCursor := cursor, updatedAt := now))
            && (r.Err? ==> after == item && r.error == StaleSyncCursor(item.syncCursor, cursor))
  {
  }

  /** What a projection does: only a confirmed or executing item takes one, and an executing one only an outcome. */
  lemma ProjectionsExactly(
    item: Item, next: ItemStatus, ledger: string, operation: Option<string>, cursor: nat, now: int)
    ensures var (after, r) := Applied(item, Project(next, ledger, operation, cursor, now));
            var open := (item.status == Confirmed && next in {Executing, Succeeded, Failed})
                        || (item.status == Executing && next in {Succeeded, Failed});
            && (r.Ok? <==> open && cursor > item.syncCursor)
            && (r.Ok? ==> after == Item(next, cursor, now, Some(ledger), operation))
            && (r.Err? ==>
                  && after == item
                  && r.error == if open then StaleSyncCursor(item.syncCursor, cursor)
                                else InvalidLedgerProjection(item.status, next))
  {
  }

  // ---------------------------------------------------------------- any sequence of calls

  function CursorOf(call: InboxCall): nat {
    if call.ByUser? then call.call.cursor else call.cursor
  }

  function RunCalls(item: Item, calls: seq<InboxCall>): Item {
    if calls == [] then item else Applied(RunCalls(item, calls[..|calls| - 1]), calls[|calls| - 1]).0
  }

  /** The calls of the run that were accepted, in order. */
  function Accepted(item: Item, calls: seq<InboxCall>): seq<InboxCall> {
    if calls == [] then []
    else
      var before := calls[..|calls| - 1];
      var last := calls[|calls| - 1];
      Accepted(item, before) + if Applied(RunCalls(item, before), last).1.Ok? then [last] else []
  }

  ghost predicate CursorsRiseFrom(cursor: nat, calls: seq<InboxCall>) {
    forall i :: 0 <= i < |calls| ==> CursorOf(calls[i]) > if i == 0 then cursor else CursorOf(calls[i - 1])
  }

  lemma AcceptedExactlyRaisesCursor(item: Item, call: InboxCall)
    ensures var (after, r) := Applied(item, call);
            && (r.Ok? ==> item.syncCursor < CursorOf(call) == after.syncCursor)
            && (r.Err? ==> after == item)
  {
  }

  lemma CursorsRiseAppended(cursor: nat, ok: seq<InboxCall>, last: InboxCall)
    requires CursorsRiseFrom(cursor, ok)
    requires CursorOf(last) > if ok == [] then cursor else CursorOf(ok[|ok| - 1])
    ensures CursorsRiseFrom(cursor, ok + [last])
  {
  }

  /** Refused calls leave no trace: the run is the run of its accepted calls, whose cursors rise strictly, and the
      item's cursor is that of the last accepted call. */
  lemma {:induction false} RefusedCallsVanish(item: Item, calls: seq<InboxCall>)
    ensures var ok := Accepted(item, calls);
            && RunCalls(item, ok) == RunCalls(item, calls)
            && Accepted(item, ok) == ok
            && CursorsRiseFrom(item.syncCursor, ok)
            && RunCalls(item, calls).syncCursor == if ok == [] then item.syncCursor else CursorOf(ok[|ok| - 1])
  {
    if calls != [] {
      var before := calls[..|calls| - 1];
      var last := calls[|calls| - 1];
      RefusedCallsVanish(item, before);
      var ok := Accepted(item, before);
      AcceptedExactlyRaisesCursor(RunCalls(item, before), last);
      if Applied(RunCalls(item, before), last).1.Ok? {
        assert (ok + [last])[..|ok|] == ok;
        assert Accepted(item, calls) == ok + [last];
        assert RunCalls(item, ok + [last]) == Applied(RunCalls(item, ok), last).0;
        CursorsRiseAppended(item.syncCursor, ok, last);
      } else {
        assert Accepted(item, calls) == ok;
      }
    }
  }

  /** Over any run the rank never falls, and a terminal status is never left. */
  lemma {:induction false} StatusOnlyMovesForward(item: Item, calls: seq<InboxCall>)
    ensures Rank(item.status) <= Rank(RunCalls(item, calls).status)
    ensures IsTerminal(item.status) ==> RunCalls(item, calls).status == item.status
    ensures Rank(RunCalls(item, calls).status) == Rank(item.status) ==> RunCalls(item, calls).status == item.status
  {
    if calls != [] {
      StatusOnlyMovesForward(item, calls[..|calls| - 1]);
    }
  }

  // ---------------------------------------------------------------- the object

  class ReviewInboxItem {
    const id: string
    var status: ItemStatus
    var syncCursor: nat
    var updatedAt: int
    var ledgerStatus: Option<string>
    var operationId: Option<string>

    function Value(): Item
      reads this
    {
      Item(status, syncCursor, updatedAt, ledgerStatus, operationId)
    }

    constructor (id: string, syncCursor: nat, updatedAt: int)
      ensures this.id == id && Value() == Item(Open, syncCursor, updatedAt, None, None)
    {
      this.id := id;
      status := Open;
      this.syncCursor := syncCursor;
      this.updatedAt := updatedAt;
      ledgerStatus := None;
      operationId := None;
    }

    method DoConfirm(cursor: nat, now: int) returns (r: Result<(), InboxError>)
      modifies this
      ensures (Value(), r) == Applied(old(Value()), ByUser(Confirm(cursor, now)))
    {
      r := TransitionStatus(Confirmed, cursor, now);
    }

    method DoReject(cursor: nat, now: int) returns (r: Result<(), InboxError>)
      modifies this
      ensures (Value(), r) == Applied(old(Value()), ByUser(Reject(cursor, now)))
    {
      r := TransitionStatus(Rejected, cursor, now);
    }

    method DoWithdraw(cursor: nat, now: int) returns (r: Result<(), InboxError>)
      modifies this
      ensures (Value(), r) == Applied(old(Value()), ByUser(Withdraw(cursor, now)))
    {
      r := TransitionStatus(Withdrawn, cursor, now);
    }

    method AdvanceSyncCursor(cursor: nat, now: int) returns (r: Result<(), InboxError>)
      modifies this
      ensures (Value(), r) == Applied(old(Value()), ByUser(AdvanceCursor(cursor, now)))
    {
      r := EnsureSyncCursorAdvances(cursor);
      if r.Err? {
        return;
      }
      syncCursor := cursor;
      updatedAt := now;
    }

    method ApplyLedgerProjection(next: ItemStatus, ledger: string, operation: Option<string>, cursor: nat, now: int)
      returns (r: Result<(), InboxError>)
      modifies this
      ensures (Value(), r) == Applied(old(Value()), Project(next, ledger, operation, cursor, now))
    {
      if !LedgerMove(status, next) {
        return Err(InvalidLedgerProjection(status, next));
      }
      r := TransitionStatus(next, cursor, now);
      if r.Err? {
        return;
      }
      ledgerStatus := Some(ledger);
      operationId := operation;
    }

    method TransitionStatus(next: ItemStatus, cursor: nat, now: int) returns (r: Result<(), InboxError>)
      modifies this
      ensures (Value(), r) == Transitioned(old(Value()), next, cursor, now)
    {
      if status == next {
        r := EnsureSyncCursorAdvances(cursor);
        if r.Err? {
          return;
        }
        syncCursor := cursor;
        updatedAt := now;
        return;
      }
      if !AllowedMove(status, next) {
        return Err(InvalidStatusTransition(status, next));
      }
      r := EnsureSyncCursorAdvances(cursor);
      if r.Err? {
        return;
      }
      status := next;
      syncCursor := cursor;
      updatedAt := now;
    }

    method EnsureSyncCursorAdvances(proposed: nat) returns (r: Result<(), InboxError>)
      ensures r == Advanced(Value(), proposed, updatedAt).1
    {
      if proposed <= syncCursor {
        return Err(StaleSyncCursor(syncCursor, proposed));
      }
      r := Ok(());
    }
  }

  // ---------------------------------------------------------------- following the ledger

  /** The inbox status shown for a ledger status, if any. */
  function ShownFor(s: L.ActionStatus): Option<ItemStatus> {
    match s
    case Proposed => None
    case Confirmed => None
    case Executing => Some(Executing)
    case Succeeded => Some(Succeeded)
    case Failed => Some(Failed)
    case Cancelled => Some(Failed)
  }

  function LedgerStatusName(s: L.ActionStatus): string {
    match s
    case Proposed => "proposed"
    case Confirmed => "confirmed"
    case Executing => "executing"
    case Succeeded => "succeeded"
    case Failed => "failed"
    case Cancelled => "cancelled"
  }

  function StatusIn(l: L.Ledger, key: string): Option<L.ActionStatus> {
    if key in l.records then Some(l.records[key].status) else None
  }

  /** A ledger, the status changes its record for one key has gone through, and an item that is shown some of them.
      `shown` changes are behind the item: the last one shown is number `shown - 1`, earlier ones may have been
      skipped. */
  datatype Follow = Follow(ledger: L.Ledger, changes: seq<L.ActionStatus>, item: Item, shown: nat)

  datatype FollowStep =
    | LedgerStep(call: L.LedgerCall)
    | UserStep(request: UserCall)
    | ShowStep(index: nat, cursor: nat, now: int)

  /** A change not shown yet, with a cursor above the item's. */
  predicate CanShow(f: Follow, index: nat, cursor: nat) {
    f.shown <= index < |f.changes| && cursor > f.item.syncCursor
  }

  function ProjectionOf(f: Follow, key: string, index: nat, cursor: nat, now: int): InboxCall
    requires index < |f.changes| && ShownFor(f.changes[index]).Some?
  {
    Project(ShownFor(f.changes[index]).value, LedgerStatusName(f.changes[index]),
            if key in f.ledger.records then Some(f.ledger.records[key].operationId) else None, cursor, now)
  }

  predicate ShowAccepted(f: Follow, key: string, index: nat, cursor: nat, now: int) {
    && index < |f.changes|
    && ShownFor(f.changes[index]).Some?
    && Applied(f.item, ProjectionOf(f, key, index, cursor, now)).1.Ok?
  }

  function NextFollow(f: Follow, key: string, step: FollowStep): Follow {
    match step
    case LedgerStep(call) =>
      var l := L.Apply(f.ledger, call);
      var before := StatusIn(f.ledger, key);
      var after := StatusIn(l, key);
      f.(ledger := l,
         changes := if before.Some? && after.Some? && before != after then f.changes + [after.value] else f.changes)
    case UserStep(call) => f.(item := ByUserApplied(f.item, call).0)
    case ShowStep(index, cursor, now) =>
      if CanShow(f, index, cursor) && ShownFor(f.changes[index]).Some? then
        f.(item := Applied(f.item, ProjectionOf(f, key, index, cursor, now)).0, shown := index + 1)
      else f
  }

  function RunFollow(item: Item, key: string, steps: seq<FollowStep>): Follow {
    if steps == [] then Follow(L.EMPTY_LEDGER, [], item, 0)
    else NextFollow(RunFollow(item, key, steps[..|steps| - 1]), key, steps[|steps| - 1])
  }

  /** The only histories a ledger record has. */
  predicate LedgerHistory(changes: seq<L.ActionStatus>) {
    changes <= [L.Executing, L.Succeeded] || changes <= [L.Executing, L.Failed]
  }

  predicate FollowOk(f: Follow, key: string) {
    && LedgerHistory(f.changes)
    && (f.changes == [] ==> StatusIn(f.ledger, key) in {None, Some(L.Confirmed)})
    && (f.changes != [] ==> StatusIn(f.ledger, key) == Some(f.changes[|f.changes| - 1]))
    && f.shown <= |f.changes|
    && (f.shown == 0 ==> f.item.status in {Confirmed, Withdrawn})
    && (f.shown > 0 && f.item.status != Withdrawn ==>
          && Some(f.item.status) == ShownFor(f.changes[f.shown - 1])
          && f.item.ledgerStatus == Some(LedgerStatusName(f.changes[f.shown - 1]))
          && f.item.operationId == Some(f.ledger.records[key].operationId))
  }

  /** What one ledger call can do to the record of a key. */
  lemma LedgerMovesOneStep(l: L.Ledger, call: L.LedgerCall, key: string)
    ensures var before := StatusIn(l, key);
            var after := StatusIn(L.Apply(l, call), key);
            && (after == before
                || (before == None && after == Some(L.Confirmed))
                || (before == Some(L.Confirmed) && after == Some(L.Executing))
                || (before == Some(L.Executing) && after in {Some(L.Succeeded), Some(L.Failed)}))
            && (key in l.records ==>
                  key in L.Apply(l, call).records
                  && L.Apply(l, call).records[key].operationId == l.records[key].operationId)
  {
  }

  /** A change can be shown, with a fresh cursor, exactly when the item has not been withdrawn. */
  lemma ShownExactlyUnlessWithdrawn(f: Follow, key: string, index: nat, cursor: nat, now: int)
    requires FollowOk(f, key) && CanShow(f, index, cursor)
    ensures ShownFor(f.changes[index]).Some?
    ensures ShowAccepted(f, key, index, cursor, now) <==> f.item.status != Withdrawn
  {
  }

  lemma NextKeepsFollowOk(f: Follow, key: string, step: FollowStep)
    requires FollowOk(f, key)
    ensures FollowOk(NextFollow(f, key, step), key)
  {
    match step
    case LedgerStep(call) => LedgerMovesOneStep(f.ledger, call, key);
    case UserStep(call) =>
    case ShowStep(index, cursor, now) =>
      if CanShow(f, index, cursor) {
        ShownExactlyUnlessWithdrawn(f, key, index, cursor, now);
      }
  }

  lemma {:induction false} RunKeepsFollowOk(item: Item, key: string, steps: seq<FollowStep>)
    requires item.status == Confirmed
    ensures FollowOk(RunFollow(item, key, steps), key)
  {
    if steps != [] {
      RunKeepsFollowOk(item, key, steps[..|steps| - 1]);
      NextKeepsFollowOk(RunFollow(item, key, steps[..|steps| - 1]), key, steps[|steps| - 1]);
    }
  }

  /** The item's status and the ledger's agree, under the names both use. */
  predicate SameEnding(item: Item, record: L.OperationRecord) {
    && (item.status == Executing <==> record.status == L.Executing)
    && (item.status == Succeeded <==> record.status == L.Succeeded)
    && (item.status == Failed <==> record.status == L.Failed)
    && item.ledgerStatus == Some(match item.status
                                 case Executing => "executing"
                                 case Succeeded => "succeeded"
                                 case _ => "failed")
    && item.operationId == Some(record.operationId)
  }

  /** From a confirmed item, over any interleaving of ledger calls on any keys, user calls, and shown changes (any
      subsequence, rising cursors): every change shown is accepted unless the user withdrew, and withdrawing is
      refused once anything was shown; the item never ranks ahead of the ledger; and once the terminal change is
      shown the item has the ledger's terminal status, name and operation id. */
  lemma InboxFollowsLedger(item: Item, key: string, steps: seq<FollowStep>)
    requires item.status == Confirmed
    ensures var f := RunFollow(item, key, steps);
            && (forall index: nat, cursor: nat, now: int :: CanShow(f, index, cursor) ==>
                  (ShowAccepted(f, key, index, cursor, now) <==> f.item.status != Withdrawn))
            && (f.item.status != Withdrawn && f.item.status != Confirmed ==>
                  && key in f.ledger.records
                  && (f.shown == |f.changes| ==> SameEnding(f.item, f.ledger.records[key]))
                  && (f.item.status == Executing ==>
                        f.ledger.records[key].status in {L.Executing, L.Succeeded, L.Failed})
                  && (f.item.status != Executing ==> SameEnding(f.item, f.ledger.records[key])))
            && f.item.status in {Confirmed, Executing, Succeeded, Failed, Withdrawn}
            && (f.shown > 0 && f.item.status != Withdrawn ==>
                  forall cursor: nat, now: int :: ByUserApplied(f.item, Withdraw(cursor, now)).1.Err?)
  {
    var f := RunFollow(item, key, steps);
    RunKeepsFollowOk(item, key, steps);
    forall index: nat, cursor: nat, now: int | CanShow(f, index, cursor)
      ensures ShowAccepted(f, key, index, cursor, now) <==> f.item.status != Withdrawn
    {
      ShownExactlyUnlessWithdrawn(f, key, index, cursor, now);
    }
  }

  /** The life of an item from its first confirmation: an open item that a user confirms follows the ledger from then
      on. */
  lemma ConfirmedItemFollows(item: Item, cursor: nat, now: int, key: string, steps: seq<FollowStep>)
    requires item.status == Open && cursor > item.syncCursor
    ensures var confirmed := Applied(item, ByUser(Confirm(cursor, now))).0;
            var f := RunFollow(confirmed, key, steps);
            && confirmed.status == Confirmed
            && (forall index: nat, c: nat, at: int :: CanShow(f, index, c) ==>
                  (ShowAccepted(f, key, index, c, at) <==> f.item.status != Withdrawn))
            && (f.item.status in {Executing, Succeeded, Failed} && f.shown == |f.changes| ==>
                  key in f.ledger.records && SameEnding(f.item, f.ledger.records[key]))
            && (f.item.status in {Succeeded, Failed} ==>
                  key in f.ledger.records && SameEnding(f.item, f.ledger.records[key]))
  {
    UserCallsExactly(item, cursor, now);
    InboxFollowsLedger(Applied(item, ByUser(Confirm(cursor, now))).0, key, steps);
  }
}

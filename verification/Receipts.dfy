/** The idempotency receipts: one row per key, claimed, completed, abandoned or taken over. */
module Receipts {
  import opened Wrappers
  import opened JsonText

  datatype State = Pending | Completed

  /** `status` and `body` are what a replay answers with; both are meaningless while pending. */
  datatype Receipt = Receipt(
    action: Text, requestHash: Text, state: State, status: int, body: Option<Text>, requestId: Text, createdAt: int)

  datatype Claim = Started | Refused(receipt: Receipt)

  type Rows = map<Text, Receipt>

  const PENDING_TAKEOVER_MS := 60_000

  function Fresh(action: Text, requestHash: Text, requestId: Text, now: int): Receipt {
    Receipt(action, requestHash, Pending, 0, None, requestId, now)
  }

  /** A pending row this old counts as left behind by a crash. */
  predicate Stale(row: Receipt, now: int) { row.state.Pending? && now - row.createdAt > PENDING_TAKEOVER_MS }

  /** A takeover renews the claim but keeps the action and hash of the first claimant. */
  function TakenOver(row: Receipt, requestId: Text, now: int): Receipt {
    row.(requestId := requestId, createdAt := now)
  }

  function Begin(rows: Rows, key: Text, action: Text, requestHash: Text, requestId: Text, now: int): (Claim, Rows) {
    if key !in rows then (Started, rows[key := Fresh(action, requestHash, requestId, now)])
    else if Stale(rows[key], now) then (Started, rows[key := TakenOver(rows[key], requestId, now)])
    else (Refused(rows[key]), rows)
  }

  function Complete(rows: Rows, key: Text, status: int, body: Option<Text>): Rows {
    if key in rows then rows[key := rows[key].(state := Completed, status := status, body := body)] else rows
  }

  function Abandon(rows: Rows, key: Text): Rows {
    if key in rows && rows[key].state.Pending? then rows - {key} else rows
  }

  /**
   A key can be claimed when nobody has, or when the claim has been pending for more than a minute. The row then says
   since when and for which request; what was asked stays that of the first claimant. A refusal changes nothing.
   */
  lemma ClaimedExactlyWhen(rows: Rows, key: Text, action: Text, hash: Text, id: Text, now: int)
    ensures var (claim, after) := Begin(rows, key, action, hash, id, now);
      && (claim.Started? <==> key !in rows || (rows[key].state.Pending? && now - rows[key].createdAt > 60_000))
      && (claim.Refused? ==> after == rows && claim.receipt == rows[key])
      && (claim.Started? ==> key in after && after == rows[key := after[key]])
      && (claim.Started? ==>
            && after[key].state.Pending? && after[key].requestId == id && after[key].createdAt == now
            && after[key].action == (if key in rows then rows[key].action else action)
            && after[key].requestHash == (if key in rows then rows[key].requestHash else hash))
  {
  }

  /** Completion keeps everything but the outcome, release keeps everything that has one. */
  lemma OutcomesAre(rows: Rows, key: Text, status: int, body: Option<Text>)
    ensures var done := Complete(rows, key, status, body);
      && (key !in rows ==> done == rows)
      && (key in rows ==>
            && key in done && done == rows[key := done[key]]
            && done[key].state.Completed? && done[key].status == status && done[key].body == body
            && done[key].action == rows[key].action && done[key].requestHash == rows[key].requestHash
            && done[key].requestId == rows[key].requestId && done[key].createdAt == rows[key].createdAt)
    ensures var left := Abandon(rows, key);
      && (key in left <==> key in rows && rows[key].state.Completed?)
      && forall other :: other in rows && (other != key || rows[key].state.Completed?) ==>
           other in left && left[other] == rows[other]
    ensures Abandon(rows, key).Keys <= rows.Keys
  {
  }

  /** Whatever is done under other keys, a row changes only through its own key, and never once completed. */
  lemma CompletedStays(rows: Rows, key: Text, other: Text, action: Text, hash: Text, id: Text, now: int, status: int,
        body: Option<Text>)
    requires key in rows && rows[key].state.Completed?
    ensures var (claim, after) := Begin(rows, other, action, hash, id, now);
      key in after && after[key] == rows[key] && (other == key ==> claim == Refused(rows[key]) && after == rows)
    ensures key in Abandon(rows, other) && Abandon(rows, other)[key] == rows[key]
    ensures other != key ==>
      key in Complete(rows, other, status, body) && Complete(rows, other, status, body)[key] == rows[key]
  {
  }

  class ReceiptStore {
    var rows: Rows

    constructor ()
      ensures rows == map[]
    {
      rows := map[];
    }

    /** INSERT ... ON CONFLICT DO NOTHING: how many rows it changed. */
    method Insert(key: Text, row: Receipt) returns (changes: nat)
      modifies this
      ensures changes == (if old(key in rows) then 0 else 1)
      ensures rows == if old(key in rows) then old(rows) else old(rows)[key := row]
    {
      changes := 0;
      if key !in rows { rows, changes := rows[key := row], 1; }
    }

    /** The guarded UPDATE of a takeover. */
    method TakeOver(key: Text, requestId: Text, createdAt: int, now: int) returns (changes: nat)
      modifies this
      ensures var hit := old(key in rows && rows[key].state.Pending? && rows[key].createdAt == createdAt);
        changes == (if hit then 1 else 0) &&
        rows == (if hit then old(rows)[key := TakenOver(old(rows[key]), requestId, now)] else old(rows))
    {
      changes := 0;
      if key in rows && rows[key].state.Pending? && rows[key].createdAt == createdAt {
        rows, changes := rows[key := TakenOver(rows[key], requestId, now)], 1;
      }
    }

    method BeginReceipt(key: Text, action: Text, requestHash: Text, requestId: Text, now: int) returns (claim: Claim)
      modifies this
      ensures (claim, rows) == Begin(old(rows), key, action, requestHash, requestId, now)
    {
      var inserted := Insert(key, Fresh(action, requestHash, requestId, now));
      if inserted == 1 { return Started; }
      var receipt := rows[key];
      if receipt.state.Pending? && now - receipt.createdAt > PENDING_TAKEOVER_MS {
        var takeover := TakeOver(key, requestId, receipt.createdAt, now);
        if takeover == 1 { return Started; }
      }
      return Refused(receipt);
    }

    method CompleteReceipt(key: Text, status: int, body: Option<Text>)
      modifies this
      ensures rows == Complete(old(rows), key, status, body)
    {
      if key in rows { rows := rows[key := rows[key].(state := Completed, status := status, body := body)]; }
    }

    method AbandonReceipt(key: Text)
      modifies this
      ensures rows == Abandon(old(rows), key)
    {
      if key in rows && rows[key].state.Pending? { rows := rows - {key}; }
    }
  }
}

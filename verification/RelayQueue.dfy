/** internal/relaytransport/queue.go: the bounded queue of encrypted relay frames. The
    table `relay_frames` is its sequence of rows in rowid order; each SQL transaction is
    one step from a table to a table with a reply. */
module RelayQueue {
  import opened GoStrings
  import opened GoTime
  import opened RelayFrame
  import opened Sequences

  const MAXIMUM_QUEUE_AGE := 30 * DAY
  const ROUTINE := 100
  const ELEVATED := 200
  const CRITICAL := 300

  datatype Limits = Limits(maxItems: int, maxBytes: int, maxAge: int)
  {
    predicate Valid() {
      maxItems >= 1 && maxBytes >= 1 && 0 < maxAge <= MAXIMUM_QUEUE_AGE
    }
  }

  /** `delivery_token` and `lease_until`, which are set and cleared together. */
  datatype Lease = Lease(token: string, until: int)

  /** `blob` is what `frame_json` decodes to, if it decodes. */
  datatype Row = Row(
    rowid: nat,
    messageId: string,
    blob: Option<Frame>,
    size: int,
    createdAt: int,
    priority: int,
    lease: Option<Lease>,
    attempts: int)

  datatype Delivery = Delivery(frame: Frame, token: string, attempt: int, leaseUntil: int)

  datatype Reply =
    | Accepted | FrameRejected | Duplicate | Full
    | Delivered(delivery: Delivery) | Empty | LeaseRejected | StoredFrameInvalid
    | Acknowledged | Released | AckRejected
    | Purged(count: nat)

  function PriorityForFrame(frame: Frame): int {
    if frame.kind == "integrity_alert" || frame.kind == "tamper_alert" then CRITICAL
    else if frame.kind == "agent_check_in" || frame.kind == "server_reply" then ELEVATED
    else ROUTINE
  }

  // ----- The queries

  function TotalSize(rows: seq<Row>): int {
    if rows == [] then 0 else TotalSize(rows[..|rows| - 1]) + rows[|rows| - 1].size
  }

  predicate Claimable(row: Row, now: int) { row.lease.None? || row.lease.value.until <= now }

  /** The row order `priority DESC, rowid`. */
  predicate ServedBefore(a: Row, b: Row) {
    a.priority > b.priority || (a.priority == b.priority && a.rowid < b.rowid)
  }

  predicate RowidsIncrease(rows: seq<Row>) {
    forall i, j :: 0 <= i < j < |rows| ==> rows[i].rowid < rows[j].rowid
  }

  /** The index that `Claim` selects: the claimable row that is served before all others. */
  function Pick(rows: seq<Row>, now: int): (r: Option<nat>)
    requires RowidsIncrease(rows)
    ensures r.None? ==> forall row :: row in rows ==> !Claimable(row, now)
    ensures r.Some? ==> r.value < |rows| && Claimable(rows[r.value], now)
    ensures r.Some? ==> forall j :: 0 <= j < |rows| && j != r.value && Claimable(rows[j], now) ==>
      ServedBefore(rows[r.value], rows[j])
  {
    if rows == [] then None
    else
      var n := |rows| - 1;
      var best := Pick(rows[..n], now);
      if !Claimable(rows[n], now) then best
      else if best.None? || rows[best.value].priority < rows[n].priority then Some(n)
      else best
  }

  predicate Carries(row: Row, messageId: string, token: string) {
    row.messageId == messageId && row.lease.Some? && row.lease.value.token == token
  }

  predicate HasMessage(rows: seq<Row>, messageId: string) {
    exists row :: row in rows && row.messageId == messageId
  }

  /** SQLite gives a new row the largest rowid plus one. */
  function NextRowid(rows: seq<Row>): nat {
    if rows == [] then 1 else rows[|rows| - 1].rowid + 1
  }

  // ----- The transactions

  datatype Tx = Tx(rows: seq<Row>, reply: Reply)

  function NewRow(rows: seq<Row>, frame: Frame, size: int): Row {
    Row(NextRowid(rows), frame.messageId, Some(frame), size, frame.createdAt, PriorityForFrame(frame), None, 0)
  }

  /** `size` is the length of the encoded frame. */
  function TxEnqueue(rows: seq<Row>, limits: Limits, frame: Frame, size: int, now: int): Tx {
    if !ValidateFrame(frame, now) || frame.createdAt < now - limits.maxAge then Tx(rows, FrameRejected)
    else if size > limits.maxBytes then Tx(rows, Full)
    else if HasMessage(rows, frame.messageId) then Tx(rows, Duplicate)
    else if |rows| >= limits.maxItems || TotalSize(rows) + size > limits.maxBytes then Tx(rows, Full)
    else Tx(rows + [NewRow(rows, frame, size)], Accepted)
  }

  function TxClaim(rows: seq<Row>, now: int, leaseDuration: int, token: string): Tx
    requires RowidsIncrease(rows)
  {
    if leaseDuration <= 0 then Tx(rows, LeaseRejected)
    else
      match Pick(rows, now)
      case None => Tx(rows, Empty)
      case Some(i) =>
        var row := rows[i];
        if row.blob.None? || !ValidateFrame(row.blob.value, now) then Tx(rows, StoredFrameInvalid)
        else
          var until := now + leaseDuration;
          Tx(rows[i := row.(lease := Some(Lease(token, until)), attempts := row.attempts + 1)],
             Delivered(Delivery(row.blob.value, token, row.attempts + 1, until)))
  }

  function TxAcknowledge(rows: seq<Row>, messageId: string, token: string): Tx {
    if IsBlank(messageId) || IsBlank(token) then Tx(rows, AckRejected)
    else
      var left := Filter(rows, (row: Row) => !Carries(row, messageId, token));
      Tx(left, if |rows| - |left| == 1 then Acknowledged else AckRejected)
  }

  function TxRelease(rows: seq<Row>, messageId: string, token: string): Tx {
    var released := seq(|rows|, i requires 0 <= i < |rows| =>
      if Carries(rows[i], messageId, token) then rows[i].(lease := None) else rows[i]);
    var changed := |Filter(rows, (row: Row) => Carries(row, messageId, token))|;
    Tx(released, if changed == 1 then Released else AckRejected)
  }

  function TxPurge(rows: seq<Row>, limits: Limits, now: int): Tx {
    var left := Filter(rows, (row: Row) => row.createdAt >= now - limits.maxAge);
    Tx(left, Purged(|rows| - |left|))
  }

  /** One call of the queue's interface. */
  datatype Op =
    | Enqueue(frame: Frame, size: int, now: int)
    | Claim(now: int, leaseDuration: int, token: string)
    | Acknowledge(messageId: string, token: string)
    | Release(messageId: string, token: string)
    | PurgeExpired(now: int)

  function Apply(rows: seq<Row>, limits: Limits, op: Op): Tx
    requires RowidsIncrease(rows)
  {
    match op
    case Enqueue(frame, size, now) => TxEnqueue(rows, limits, frame, size, now)
    case Claim(now, leaseDuration, token) => TxClaim(rows, now, leaseDuration, token)
    case Acknowledge(messageId, token) => TxAcknowledge(rows, messageId, token)
    case Release(messageId, token) => TxRelease(rows, messageId, token)
    case PurgeExpired(now) => TxPurge(rows, limits, now)
  }

  // ----- What every transaction keeps

  predicate UniqueMessages(rows: seq<Row>) {
    forall i, j :: 0 <= i < j < |rows| ==> rows[i].messageId != rows[j].messageId
  }

  /** The row is what `Enqueue` writes for its frame, up to leases and attempts. */
  predicate Genuine(row: Row) {
    && row.blob.Some?
    && row.messageId == row.blob.value.messageId
    && row.createdAt == row.blob.value.createdAt
    && row.priority == PriorityForFrame(row.blob.value)
    && row.size > 0
    && row.attempts >= 0
  }

  predicate AllGenuine(rows: seq<Row>) { forall i :: 0 <= i < |rows| ==> Genuine(rows[i]) }

  predicate Valid(rows: seq<Row>, limits: Limits) {
    && RowidsIncrease(rows)
    && UniqueMessages(rows)
    && AllGenuine(rows)
    && |rows| <= limits.maxItems
    && TotalSize(rows) <= limits.maxBytes
  }

  lemma {:induction false} TotalSizeNonNegative(rows: seq<Row>)
    requires AllGenuine(rows)
    ensures TotalSize(rows) >= 0
  {
    if rows == [] {
    } else {
      TotalSizeNonNegative(rows[..|rows| - 1]);
    }
  }

  lemma {:induction false} TotalSizeUpdate(before: seq<Row>, after: seq<Row>)
    requires |before| == |after|
    requires forall i :: 0 <= i < |before| ==> before[i].size == after[i].size
    ensures TotalSize(before) == TotalSize(after)
  {
    if before == [] {
    } else {
      TotalSizeUpdate(before[..|before| - 1], after[..|after| - 1]);
    }
  }

  lemma TotalSizeAppend(rows: seq<Row>, row: Row)
    ensures TotalSize(rows + [row]) == TotalSize(rows) + row.size
  {
    assert (rows + [row])[..|rows|] == rows;
  }

  lemma {:induction false} FilterShrinks(rows: seq<Row>, keep: Row -> bool)
    requires AllGenuine(rows)
    ensures TotalSize(Filter(rows, keep)) <= TotalSize(rows)
  {
    if rows == [] {
    } else {
      var n := |rows| - 1;
      FilterShrinks(rows[..n], keep);
      TotalSizeAppend(Filter(rows[..n], keep), rows[n]);
    }
  }

  lemma {:induction false} FilterKeepsOrder(rows: seq<Row>, keep: Row -> bool)
    requires RowidsIncrease(rows) && UniqueMessages(rows)
    ensures RowidsIncrease(Filter(rows, keep)) && UniqueMessages(Filter(rows, keep))
  {
    if rows == [] {
    } else {
      var n := |rows| - 1;
      FilterKeepsOrder(rows[..n], keep);
      var kept := Filter(rows[..n], keep);
      forall i | 0 <= i < |kept|
        ensures kept[i].rowid < rows[n].rowid && kept[i].messageId != rows[n].messageId
      {
        assert kept[i] in kept;
      }
    }
  }

  /** Deleting rows keeps the others in order, so it keeps the table valid. */
  lemma FilterKeepsValid(rows: seq<Row>, keep: Row -> bool, limits: Limits)
    requires Valid(rows, limits)
    ensures Valid(Filter(rows, keep), limits)
  {
    FilterKeepsOrder(rows, keep);
    FilterShrinks(rows, keep);
    var kept := Filter(rows, keep);
    assert forall i :: 0 <= i < |kept| ==> kept[i] in kept;
  }

  lemma EnqueueKeepsValid(rows: seq<Row>, limits: Limits, frame: Frame, size: int, now: int)
    requires Valid(rows, limits) && size > 0
    ensures Valid(TxEnqueue(rows, limits, frame, size, now).rows, limits)
  {
    hide ValidateFrame;
    TotalSizeAppend(rows, NewRow(rows, frame, size));
  }

  /** Changing leases and counting attempts leaves a valid table valid. */
  lemma LeasingKeepsValid(before: seq<Row>, after: seq<Row>, limits: Limits)
    requires Valid(before, limits) && |before| == |after|
    requires forall i :: 0 <= i < |before| ==>
      after[i].attempts >= 0 && before[i] == after[i].(lease := before[i].lease, attempts := before[i].attempts)
    ensures Valid(after, limits)
  {
    hide TotalSize, PriorityForFrame;
    TotalSizeUpdate(before, after);
  }

  lemma ClaimKeepsValid(rows: seq<Row>, limits: Limits, now: int, leaseDuration: int, token: string)
    requires Valid(rows, limits)
    ensures Valid(TxClaim(rows, now, leaseDuration, token).rows, limits)
  {
    hide ValidateFrame, TotalSize, PriorityForFrame;
    LeasingKeepsValid(rows, TxClaim(rows, now, leaseDuration, token).rows, limits);
  }

  lemma ReleaseKeepsValid(rows: seq<Row>, limits: Limits, messageId: string, token: string)
    requires Valid(rows, limits)
    ensures Valid(TxRelease(rows, messageId, token).rows, limits)
  {
    hide TotalSize, PriorityForFrame, RowidsIncrease, UniqueMessages;
    LeasingKeepsValid(rows, TxRelease(rows, messageId, token).rows, limits);
  }

  /** Every transaction keeps the table valid; an encoded frame is never empty. */
  lemma ApplyKeepsValid(rows: seq<Row>, limits: Limits, op: Op)
    requires Valid(rows, limits) && (op.Enqueue? ==> op.size > 0)
    ensures Valid(Apply(rows, limits, op).rows, limits)
  {
    hide TxEnqueue, TxClaim, TxRelease, Valid;
    match op
    case Enqueue(frame, size, now) => EnqueueKeepsValid(rows, limits, frame, size, now);
    case Claim(now, leaseDuration, token) => ClaimKeepsValid(rows, limits, now, leaseDuration, token);
    case Acknowledge(messageId, token) =>
      FilterKeepsValid(rows, (row: Row) => !Carries(row, messageId, token), limits);
    case Release(messageId, token) => ReleaseKeepsValid(rows, limits, messageId, token);
    case PurgeExpired(now) =>
      FilterKeepsValid(rows, (row: Row) => row.createdAt >= now - limits.maxAge, limits);
  }

  // ----- The queue as an object

  /** Each method is one transaction; a method that replies with an error leaves `rows` as
      it was, except that a delete or update of several rows is not undone. */
  class Queue {
    const limits: Limits
    var rows: seq<Row>

    ghost predicate Ok()
      reads this
    {
      limits.Valid() && Valid(rows, limits)
    }

    constructor (limits: Limits)
      requires limits.Valid()
      ensures Ok() && rows == [] && this.limits == limits
    {
      this.limits, rows := limits, [];
    }

    method Enqueue(frame: Frame, size: int, now: int) returns (reply: Reply)
      requires Ok() && size > 0
      modifies this
      ensures Ok() && Tx(rows, reply) == TxEnqueue(old(rows), limits, frame, size, now)
    {
      EnqueueKeepsValid(rows, limits, frame, size, now);
      if !ValidateFrame(frame, now) {
        return FrameRejected;
      }
      if frame.createdAt < now - limits.maxAge {
        return FrameRejected;
      }
      if size > limits.maxBytes {
        return Full;
      }
      if HasMessage(rows, frame.messageId) {
        return Duplicate;
      }
      var items, bytesUsed := |rows|, TotalSize(rows);
      if items >= limits.maxItems || bytesUsed + size > limits.maxBytes {
        return Full;
      }
      rows := rows + [NewRow(rows, frame, size)];
      return Accepted;
    }

    /** A claim that finds its frame invalid is rolled back. */
    method Claim(now: int, leaseDuration: int, token: string) returns (reply: Reply)
      requires Ok()
      modifies this
      ensures Ok() && Tx(rows, reply) == TxClaim(old(rows), now, leaseDuration, token)
    {
      ClaimKeepsValid(rows, limits, now, leaseDuration, token);
      if leaseDuration <= 0 {
        return LeaseRejected;
      }
      var begun := rows;
      var selected := Pick(rows, now);
      if selected.None? {
        return Empty;
      }
      var row := rows[selected.value];
      var attempt, leaseUntil := row.attempts + 1, now + leaseDuration;
      rows := rows[selected.value := row.(lease := Some(Lease(token, leaseUntil)), attempts := attempt)];
      if row.blob.None? || !ValidateFrame(row.blob.value, now) {
        rows := begun;
        return StoredFrameInvalid;
      }
      return Delivered(Delivery(row.blob.value, token, attempt, leaseUntil));
    }

    method Acknowledge(messageId: string, token: string) returns (reply: Reply)
      requires Ok()
      modifies this
      ensures Ok() && Tx(rows, reply) == TxAcknowledge(old(rows), messageId, token)
    {
      if IsBlank(messageId) || IsBlank(token) {
        return AckRejected;
      }
      FilterKeepsValid(rows, (row: Row) => !Carries(row, messageId, token), limits);
      var before := |rows|;
      rows := Filter(rows, (row: Row) => !Carries(row, messageId, token));
      return if before - |rows| == 1 then Acknowledged else AckRejected;
    }

    method Release(messageId: string, token: string) returns (reply: Reply)
      requires Ok()
      modifies this
      ensures Ok() && Tx(rows, reply) == TxRelease(old(rows), messageId, token)
    {
      ReleaseKeepsValid(rows, limits, messageId, token);
      var changed := |Filter(rows, (row: Row) => Carries(row, messageId, token))|;
      var before := rows;
      rows := seq(|before|, i requires 0 <= i < |before| =>
        if Carries(before[i], messageId, token) then before[i].(lease := None) else before[i]);
      return if changed == 1 then Released else AckRejected;
    }

    method PurgeExpired(now: int) returns (reply: Reply)
      requires Ok()
      modifies this
      ensures Ok() && Tx(rows, reply) == TxPurge(old(rows), limits, now)
    {
      var cutoff := now - limits.maxAge;
      FilterKeepsValid(rows, (row: Row) => row.createdAt >= now - limits.maxAge, limits);
      var before := |rows|;
      rows := Filter(rows, (row: Row) => row.createdAt >= cutoff);
      return Purged(before - |rows|);
    }
  }
}

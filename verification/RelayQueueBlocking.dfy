/** A claim validates the frame it selects and rolls back if that frame is too old, so such
    a frame at the front of the queue holds back what is behind it. This module says exactly
    for how long. */
module RelayQueueBlocking {
  import opened GoStrings
  import opened GoTime
  import opened RelayFrame
  import opened RelayQueue
  import opened RelayQueueRuns
  import opened Sequences

  /** The frame is too old, at this time and ever after. */
  predicate Expired(frame: Frame, now: int) { frame.createdAt < now - 30 * DAY }

  predicate HasFrame(row: Row, frame: Frame) { row.blob == Some(frame) }

  /** The frame is queued and nobody holds it. */
  predicate Waiting(rows: seq<Row>, frame: Frame, now: int) {
    exists row :: row in rows && HasFrame(row, frame) && Claimable(row, now)
  }

  predicate Gone(rows: seq<Row>, frame: Frame) { forall row :: row in rows ==> !HasFrame(row, frame) }

  /** The call purges the frame, or acknowledges it with its last token. */
  predicate Removes(rows: seq<Row>, limits: Limits, op: Op, frame: Frame) {
    match op
    case PurgeExpired(now) => frame.createdAt < now - limits.maxAge
    case Acknowledge(messageId, token) =>
      && !IsBlank(messageId) && !IsBlank(token)
      && exists row :: row in rows && HasFrame(row, frame) && Carries(row, messageId, token)
    case _ => false
  }

  predicate NotBefore(op: Op, since: int) {
    match op
    case Enqueue(_, _, now) => now >= since
    case Claim(now, _, _) => now >= since
    case PurgeExpired(now) => now >= since
    case _ => true
  }

  /** The next claim at this time selects the frame. */
  predicate AtFront(rows: seq<Row>, frame: Frame, now: int)
    requires RowidsIncrease(rows)
  {
    var i := Pick(rows, now); i.Some? && HasFrame(rows[i.value], frame)
  }

  /** Every row served before the frame's is held. */
  predicate NothingAhead(rows: seq<Row>, frame: Frame, now: int) {
    forall row, holder :: row in rows && holder in rows && HasFrame(holder, frame) && ServedBefore(row, holder) ==>
      !Claimable(row, now)
  }

  // ----- One call

  lemma OneHolder(rows: seq<Row>, limits: Limits, a: Row, b: Row, frame: Frame)
    requires Valid(rows, limits) && a in rows && b in rows && HasFrame(a, frame) && HasFrame(b, frame)
    ensures a == b && a.messageId == frame.messageId && a.createdAt == frame.createdAt
  {
    hide TotalSize;
    var i :| 0 <= i < |rows| && rows[i] == a;
    var j :| 0 <= j < |rows| && rows[j] == b;
    assert Genuine(rows[i]) && Genuine(rows[j]);
  }

  lemma EnqueueKeepsOthers(rows: seq<Row>, limits: Limits, op: Op, frame: Frame, since: int)
    requires op.Enqueue? && op.now >= since && Expired(frame, since) && RowidsIncrease(rows)
    ensures var after := Apply(rows, limits, op).rows;
      forall row :: HasFrame(row, frame) ==> (row in after <==> row in rows)
  {
    hide WellFormedFrame, TotalSize, HasMessage;
  }

  lemma ClaimKeepsOthers(rows: seq<Row>, limits: Limits, op: Op, frame: Frame, since: int)
    requires op.Claim? && op.now >= since && Expired(frame, since) && RowidsIncrease(rows)
    ensures var after := Apply(rows, limits, op).rows;
      forall row :: HasFrame(row, frame) ==> (row in after <==> row in rows)
  {
    hide WellFormedFrame, Pick;
    var after := Apply(rows, limits, op).rows;
    assert |after| == |rows| && forall k :: 0 <= k < |rows| && (HasFrame(rows[k], frame) || HasFrame(after[k], frame)) ==> after[k] == rows[k];
    forall row | HasFrame(row, frame)
      ensures row in after <==> row in rows
    {
      if row in rows {
        var k :| 0 <= k < |rows| && rows[k] == row;
        assert after[k] == row;
      }
      if row in after {
        var k :| 0 <= k < |after| && after[k] == row;
        assert rows[k] == row;
      }
    }
  }

  lemma ReleaseKeepsFrames(rows: seq<Row>, messageId: string, token: string, frame: Frame, since: int)
    ensures Waiting(rows, frame, since) ==> Waiting(TxRelease(rows, messageId, token).rows, frame, since)
    ensures Gone(rows, frame) ==> Gone(TxRelease(rows, messageId, token).rows, frame)
  {
    hide Filter;
    var after := TxRelease(rows, messageId, token).rows;
    if Waiting(rows, frame, since) {
      var row :| row in rows && HasFrame(row, frame) && Claimable(row, since);
      var k :| 0 <= k < |rows| && rows[k] == row;
      assert after[k] in after && HasFrame(after[k], frame) && Claimable(after[k], since);
    }
    if Gone(rows, frame) {
      forall row | row in after
        ensures !HasFrame(row, frame)
      {
        var k :| 0 <= k < |after| && after[k] == row;
        assert rows[k] in rows;
      }
    }
  }

  /** A frame that waits, too old, goes on waiting until a call removes it. */
  lemma WaitingStep(rows: seq<Row>, limits: Limits, op: Op, frame: Frame, since: int)
    requires Valid(rows, limits) && NotBefore(op, since) && Expired(frame, since) && Waiting(rows, frame, since)
    ensures var after := Apply(rows, limits, op).rows;
      if Removes(rows, limits, op, frame) then Gone(after, frame) else Waiting(after, frame, since)
  {
    hide Filter, TxEnqueue, TxClaim, TxRelease, Valid, IsBlank;
    var holder :| holder in rows && HasFrame(holder, frame) && Claimable(holder, since);
    OneHolder(rows, limits, holder, holder, frame);
    ValidParts(rows, limits);
    match op
    case Enqueue(_, _, _) => EnqueueKeepsOthers(rows, limits, op, frame, since);
    case Claim(_, _, _) => ClaimKeepsOthers(rows, limits, op, frame, since);
    case Release(messageId, token) => ReleaseKeepsFrames(rows, messageId, token, frame, since);
    case Acknowledge(messageId, token) =>
      forall row | row in rows && HasFrame(row, frame)
        ensures row == holder
      {
        OneHolder(rows, limits, row, holder, frame);
      }
    case PurgeExpired(now) =>
      forall row | row in rows && HasFrame(row, frame)
        ensures row == holder
      {
        OneHolder(rows, limits, row, holder, frame);
      }
  }

  /** Too old to be enqueued again, it does not come back. */
  lemma GoneStep(rows: seq<Row>, limits: Limits, op: Op, frame: Frame, since: int)
    requires RowidsIncrease(rows) && NotBefore(op, since) && Expired(frame, since) && Gone(rows, frame)
    ensures Gone(Apply(rows, limits, op).rows, frame)
  {
    hide Filter, TxEnqueue, TxClaim, TxRelease, IsBlank, RowidsIncrease;
    match op
    case Enqueue(_, _, _) => EnqueueKeepsOthers(rows, limits, op, frame, since);
    case Claim(_, _, _) => ClaimKeepsOthers(rows, limits, op, frame, since);
    case Release(messageId, token) => ReleaseKeepsFrames(rows, messageId, token, frame, since);
    case Acknowledge(_, _) =>
    case PurgeExpired(_) =>
  }

  // ----- Runs

  /** Every call from `i` to `j` happens at `since` or later. */
  predicate Later(ops: seq<Op>, i: nat, j: nat, since: int)
    requires j <= |ops|
  {
    forall k :: i <= k < j ==> NotBefore(ops[k], since)
  }

  predicate NeverRemoved(q: Opened, ops: seq<Op>, i: nat, j: nat, frame: Frame)
    requires q.Ok() && AllEncoded(ops) && j <= |ops|
  {
    forall k :: i <= k < j ==> !Removes(Before(q, ops, k), q.limits, ops[k], frame)
  }

  lemma {:induction false} WaitingRun(q: Opened, ops: seq<Op>, i: nat, j: nat, frame: Frame, since: int)
    requires q.Ok() && AllEncoded(ops) && i <= j <= |ops| && Later(ops, i, j, since)
    requires Expired(frame, since) && Waiting(Before(q, ops, i), frame, since)
    ensures var rows := Before(q, ops, j);
      if NeverRemoved(q, ops, i, j, frame) then Waiting(rows, frame, since) else Gone(rows, frame)
    decreases j - i
  {
    hide Rows, Apply, Valid, Waiting, Gone, Removes, NotBefore, RowidsIncrease;
    if i == j {
    } else {
      WaitingRun(q, ops, i, j - 1, frame, since);
      NextTable(q, ops, j - 1);
      var rows := Before(q, ops, j - 1);
      if NeverRemoved(q, ops, i, j - 1, frame) {
        WaitingStep(rows, q.limits, ops[j - 1], frame, since);
      } else {
        ValidParts(rows, q.limits);
        GoneStep(rows, q.limits, ops[j - 1], frame, since);
      }
    }
  }

  lemma AtFrontIff(rows: seq<Row>, limits: Limits, frame: Frame, now: int)
    requires Valid(rows, limits) && RowidsIncrease(rows)
    ensures AtFront(rows, frame, now) <==> Waiting(rows, frame, now) && NothingAhead(rows, frame, now)
  {
    hide Pick, TotalSize, UniqueMessages, AllGenuine;
    var i := Pick(rows, now);
    if Waiting(rows, frame, now) && NothingAhead(rows, frame, now) {
      var holder :| holder in rows && HasFrame(holder, frame) && Claimable(holder, now);
      var k :| 0 <= k < |rows| && rows[k] == holder;
      assert rows[i.value] in rows;
    }
    if AtFront(rows, frame, now) {
      forall row, holder | row in rows && holder in rows && HasFrame(holder, frame) && ServedBefore(row, holder)
        ensures !Claimable(row, now)
      {
        OneHolder(rows, limits, holder, rows[i.value], frame);
        var k :| 0 <= k < |rows| && rows[k] == row;
      }
    }
  }

  /** An expired frame at the front fails the claim, which changes nothing. */
  lemma FrontBlocks(rows: seq<Row>, frame: Frame, now: int, leaseDuration: int, token: string)
    requires RowidsIncrease(rows) && leaseDuration > 0 && Expired(frame, now)
    ensures AtFront(rows, frame, now) ==> TxClaim(rows, now, leaseDuration, token) == Tx(rows, StoredFrameInvalid)
  {
    hide Pick, WellFormedFrame;
  }

  lemma StillWaiting(rows: seq<Row>, frame: Frame, since: int, now: int)
    requires since <= now
    ensures Waiting(rows, frame, since) ==> Waiting(rows, frame, now)
    ensures Gone(rows, frame) ==> !Waiting(rows, frame, now)
  {
  }

  /** Suppose a frame waits in the queue at call `i`, too old at time `since`, and the clock
      does not go back. Then it fails the claim at call `j` exactly when no call in between
      purged it or acknowledged it with its last token, and every row that is served before
      it is held at the time of the claim. */
  lemma BlockedIff(q: Opened, ops: seq<Op>, i: nat, j: nat, frame: Frame, since: int, now: int)
    requires q.Ok() && AllEncoded(ops) && i <= j <= |ops| && Later(ops, i, j, since) && since <= now
    requires Expired(frame, since) && Waiting(Before(q, ops, i), frame, since)
    ensures var rows := Before(q, ops, j);
      && (AtFront(rows, frame, now) <==> NeverRemoved(q, ops, i, j, frame) && NothingAhead(rows, frame, now))
      && (AtFront(rows, frame, now) ==> forall leaseDuration, token :: leaseDuration > 0 ==>
            TxClaim(rows, now, leaseDuration, token) == Tx(rows, StoredFrameInvalid))
  {
    hide Rows, Apply, Valid, AtFront, NothingAhead, Removes, TxClaim, RowidsIncrease;
    var rows := Before(q, ops, j);
    ValidParts(rows, q.limits);
    WaitingRun(q, ops, i, j, frame, since);
    AtFrontIff(rows, q.limits, frame, now);
    StillWaiting(rows, frame, since, now);
    forall leaseDuration, token | AtFront(rows, frame, now) && leaseDuration > 0
      ensures TxClaim(rows, now, leaseDuration, token) == Tx(rows, StoredFrameInvalid)
    {
      FrontBlocks(rows, frame, now, leaseDuration, token);
    }
  }

  // ----- A blocked queue

  /** A log batch whose message identifier repeats one digit. */
  function ExampleFrame(digit: char, createdAt: int): Frame {
    Frame(PROTOCOL_VERSION, seq(32, _ => digit), "agent_log_batch", "endpoint", "sender", "recipient", "key", 1, createdAt,
          seq(32, _ => 'k'), seq(12, _ => 'n'), "c", seq(64, _ => 's'))
  }

  lemma ExampleWellFormed(digit: char, createdAt: int)
    requires IsHexDigit(digit) && createdAt != ZERO_TIME
    ensures WellFormedFrame(ExampleFrame(digit, createdAt))
    ensures PriorityForFrame(ExampleFrame(digit, createdAt)) == ROUTINE
  {
    assert "agent_log_batch"[6] != "agent_check_in"[6];
  }

  /** The table after two frames were enqueued, `m` and `n` bytes long when encoded. */
  lemma TwoEnqueued(limits: Limits, a: Frame, b: Frame, m: int, n: int, first: int, second: int)
    requires limits.Valid() && limits.maxItems >= 2 && m > 0 && n > 0 && m + n <= limits.maxBytes
    requires a.messageId != b.messageId && ValidateFrame(a, first) && ValidateFrame(b, second)
    requires a.createdAt >= first - limits.maxAge && b.createdAt >= second - limits.maxAge
    ensures TxEnqueue([], limits, a, m, first) == Tx([NewRow([], a, m)], Accepted)
    ensures TxEnqueue([NewRow([], a, m)], limits, b, n, second)
      == Tx([NewRow([], a, m), NewRow([NewRow([], a, m)], b, n)], Accepted)
  {
    hide WellFormedFrame;
    assert TotalSize([]) == 0 && TotalSize([NewRow([], a, m)]) == m by { assert [NewRow([], a, m)][..0] == []; }
  }

  /** The first row is picked, as long as nobody holds either. */
  lemma FirstPicked(a: Row, b: Row, now: int)
    requires a.rowid < b.rowid && a.priority == b.priority && Claimable(a, now)
    ensures RowidsIncrease([a, b]) && Pick([a, b], now) == Some(0)
  {
    var i := Pick([a, b], now);
    assert [a, b][0] == a && [a, b][1] == b;
  }

  lemma StartEmpty(q: Opened, ops: seq<Op>)
    requires q.Ok() && AllEncoded(ops) && q.start == []
    ensures Before(q, ops, 0) == []
  {
  }

  lemma NewQueueOk(q: Opened)
    requires q.limits.Valid() && q.start == []
    ensures q.Ok()
  {
  }

  lemma ExampleTimes(late: int)
    requires late == 30 * DAY + 1
    ensures var a, b := ExampleFrame('0', 0), ExampleFrame('1', DAY);
      && a.messageId != b.messageId && a.createdAt == 0 && b.createdAt == DAY
      && PriorityForFrame(a) == PriorityForFrame(b)
      && ValidateFrame(a, 0) && ValidateFrame(b, DAY) && !ValidateFrame(a, late) && ValidateFrame(b, late)
  {
    hide WellFormedFrame, PriorityForFrame;
    ExampleWellFormed('0', 0);
    ExampleWellFormed('1', DAY);
    assert ExampleFrame('0', 0).messageId[0] != ExampleFrame('1', DAY).messageId[0];
  }

  /** Two log batches a day apart, in any queue that has room for both, whatever their
      encoded lengths `m` and `n`. When the first is a moment older than thirty days, a claim
      fails, although the second is valid and nobody holds it. */
  lemma BlockedExample(limits: Limits, m: int, n: int) returns (ops: seq<Op>, frame: Frame)
    requires limits.Valid() && limits.maxItems >= 2 && m > 0 && n > 0 && m + n <= limits.maxBytes
    ensures var q := Opened(limits, []);
      && q.Ok() && AllEncoded(ops) && |ops| == 3
      && ops[0].Enqueue? && ops[0].size == m && ReplyTo(q, ops, 0).Accepted?
      && ops[1].Enqueue? && ops[1].size == n && ops[1].frame == frame && ReplyTo(q, ops, 1).Accepted?
      && ops[2].Claim? && ops[2].leaseDuration > 0 && ReplyTo(q, ops, 2) == StoredFrameInvalid
      && ValidateFrame(frame, ops[2].now) && Waiting(Before(q, ops, 2), frame, ops[2].now)
  {
    hide ValidateFrame, WellFormedFrame, TotalSize, PriorityForFrame, TxEnqueue, ExampleFrame, Rows, Valid, Pick;
    var q := Opened(limits, []);
    NewQueueOk(q);
    var a, b, late := ExampleFrame('0', 0), ExampleFrame('1', DAY), 30 * DAY + 1;
    frame := b;
    ExampleTimes(late);
    ops := [Enqueue(a, m, 0), Enqueue(b, n, DAY), Claim(late, MINUTE, "token")];
    TwoEnqueued(limits, a, b, m, n, 0, DAY);
    var first := NewRow([], a, m);
    var second := NewRow([first], b, n);
    StartEmpty(q, ops);
    NextTable(q, ops, 0);
    NextTable(q, ops, 1);
    FirstPicked(first, second, late);
    assert second in [first, second] && HasFrame(second, b);
  }
}

/** What the relay queue guarantees over every run of its interface from any valid table,
    a new one or one that an earlier program version left behind. */
module RelayQueueRuns {
  import opened GoStrings
  import opened GoTime
  import opened RelayFrame
  import opened RelayQueue
  import opened Sequences

  /** A queue as it was opened: its limits and the table it found. */
  datatype Opened = Opened(limits: Limits, start: seq<Row>)
  {
    predicate Ok() { limits.Valid() && Valid(start, limits) }
  }

  predicate Encoded(op: Op) { op.Enqueue? ==> op.size > 0 }

  predicate AllEncoded(ops: seq<Op>) { forall op :: op in ops ==> Encoded(op) }

  /** The table after a run. */
  function Rows(q: Opened, ops: seq<Op>): (r: seq<Row>)
    requires q.Ok() && AllEncoded(ops)
    ensures Valid(r, q.limits)
  {
    if ops == [] then q.start
    else
      var before := Rows(q, ops[..|ops| - 1]);
      assert ops[|ops| - 1] in ops;
      ApplyKeepsValid(before, q.limits, ops[|ops| - 1]);
      Apply(before, q.limits, ops[|ops| - 1]).rows
  }

  /** The table that call `i` of a run starts from, and its reply. */
  function Before(q: Opened, ops: seq<Op>, i: nat): seq<Row>
    requires q.Ok() && AllEncoded(ops) && i <= |ops|
  {
    Rows(q, ops[..i])
  }

  function ReplyTo(q: Opened, ops: seq<Op>, i: nat): Reply
    requires q.Ok() && AllEncoded(ops) && i < |ops|
  {
    Apply(Before(q, ops, i), q.limits, ops[i]).reply
  }

  lemma NextTable(q: Opened, ops: seq<Op>, i: nat)
    requires q.Ok() && AllEncoded(ops) && i < |ops|
    ensures Before(q, ops, i + 1) == Apply(Before(q, ops, i), q.limits, ops[i]).rows
  {
    assert ops[..i + 1][..i] == ops[..i];
  }

  predicate DeliversMessage(reply: Reply, messageId: string) {
    reply.Delivered? && reply.delivery.frame.messageId == messageId
  }

  // ----- Conservation

  function Frames(rows: seq<Row>): multiset<Frame> {
    if rows == [] then multiset{}
    else
      var last := rows[|rows| - 1];
      Frames(rows[..|rows| - 1]) + if last.blob.Some? then multiset{last.blob.value} else multiset{}
  }

  /** The frames that a call accepts, acknowledges and purges. */
  function AcceptedBy(rows: seq<Row>, limits: Limits, op: Op): multiset<Frame>
    requires RowidsIncrease(rows)
  {
    if op.Enqueue? && Apply(rows, limits, op).reply.Accepted? then multiset{op.frame} else multiset{}
  }

  function AcknowledgedBy(rows: seq<Row>, limits: Limits, op: Op): multiset<Frame>
    requires RowidsIncrease(rows)
  {
    if op.Acknowledge? && Apply(rows, limits, op).reply.Acknowledged?
    then Frames(Filter(rows, (row: Row) => Carries(row, op.messageId, op.token)))
    else multiset{}
  }

  function PurgedBy(rows: seq<Row>, limits: Limits, op: Op): multiset<Frame> {
    if op.PurgeExpired? then Frames(Filter(rows, (row: Row) => row.createdAt < op.now - limits.maxAge))
    else multiset{}
  }

  /** Everything a run accepted, acknowledged and purged. */
  datatype Account = Account(accepted: multiset<Frame>, acknowledged: multiset<Frame>, purged: multiset<Frame>)

  function Books(q: Opened, ops: seq<Op>): Account
    requires q.Ok() && AllEncoded(ops)
  {
    if ops == [] then Account(multiset{}, multiset{}, multiset{})
    else
      var n := |ops| - 1;
      var books, rows := Books(q, ops[..n]), Rows(q, ops[..n]);
      Account(books.accepted + AcceptedBy(rows, q.limits, ops[n]),
              books.acknowledged + AcknowledgedBy(rows, q.limits, ops[n]),
              books.purged + PurgedBy(rows, q.limits, ops[n]))
  }

  lemma FramesAppend(rows: seq<Row>, row: Row)
    ensures Frames(rows + [row]) == Frames(rows) + if row.blob.Some? then multiset{row.blob.value} else multiset{}
  {
    assert (rows + [row])[..|rows|] == rows;
  }

  lemma {:induction false} FramesSplit(rows: seq<Row>, keep: Row -> bool, drop: Row -> bool)
    requires forall row :: row in rows ==> keep(row) != drop(row)
    ensures Frames(rows) == Frames(Filter(rows, keep)) + Frames(Filter(rows, drop))
    ensures |rows| == |Filter(rows, keep)| + |Filter(rows, drop)|
  {
    if rows == [] {
    } else {
      var n := |rows| - 1;
      FramesSplit(rows[..n], keep, drop);
      FramesAppend(Filter(rows[..n], keep), rows[n]);
      FramesAppend(Filter(rows[..n], drop), rows[n]);
    }
  }

  lemma {:induction false} FramesUpdate(before: seq<Row>, after: seq<Row>)
    requires |before| == |after|
    requires forall i :: 0 <= i < |before| ==> before[i].blob == after[i].blob
    ensures Frames(before) == Frames(after)
  {
    if before == [] {
    } else {
      FramesUpdate(before[..|before| - 1], after[..|after| - 1]);
    }
  }

  /** At most one row carries a message, so at most one leaves with an acknowledgement. */
  lemma {:induction false} AtMostOneCarrier(rows: seq<Row>, messageId: string, token: string)
    requires UniqueMessages(rows)
    ensures |Filter(rows, (row: Row) => Carries(row, messageId, token))| <= 1
  {
    if rows == [] {
    } else {
      var n := |rows| - 1;
      AtMostOneCarrier(rows[..n], messageId, token);
      var carriers := Filter(rows[..n], (row: Row) => Carries(row, messageId, token));
      assert carriers != [] ==> carriers[0] in carriers;
    }
  }

  predicate Conserves(rows: seq<Row>, limits: Limits, op: Op)
    requires RowidsIncrease(rows)
  {
    Frames(rows) + AcceptedBy(rows, limits, op) ==
      Frames(Apply(rows, limits, op).rows) + AcknowledgedBy(rows, limits, op) + PurgedBy(rows, limits, op)
  }

  lemma NoFrames()
    ensures Frames([]) == multiset{}
  {
  }

  lemma AcknowledgeConserves(rows: seq<Row>, limits: Limits, messageId: string, token: string)
    requires RowidsIncrease(rows) && UniqueMessages(rows)
    ensures Conserves(rows, limits, Acknowledge(messageId, token))
  {
    hide Frames, Filter, IsBlank;
    var carries, others := (row: Row) => Carries(row, messageId, token), (row: Row) => !Carries(row, messageId, token);
    AtMostOneCarrier(rows, messageId, token);
    FramesSplit(rows, others, carries);
    assert Frames([]) == multiset{} by { NoFrames(); }
  }

  lemma PurgeConserves(rows: seq<Row>, limits: Limits, now: int)
    requires RowidsIncrease(rows)
    ensures Conserves(rows, limits, PurgeExpired(now))
  {
    hide Frames, Filter;
    FramesSplit(rows, (row: Row) => row.createdAt >= now - limits.maxAge,
                (row: Row) => row.createdAt < now - limits.maxAge);
  }

  lemma ApplyConserves(rows: seq<Row>, limits: Limits, op: Op)
    requires RowidsIncrease(rows) && UniqueMessages(rows)
    ensures Conserves(rows, limits, op)
  {
    hide ValidateFrame, Frames, Filter, UniqueMessages, TotalSize;
    match op
    case Enqueue(frame, size, now) => FramesAppend(rows, NewRow(rows, frame, size));
    case Claim(now, leaseDuration, token) => FramesUpdate(rows, Apply(rows, limits, op).rows);
    case Release(messageId, token) => FramesUpdate(rows, Apply(rows, limits, op).rows);
    case Acknowledge(messageId, token) => AcknowledgeConserves(rows, limits, messageId, token);
    case PurgeExpired(now) => PurgeConserves(rows, limits, now);
  }

  lemma Balance(start: multiset<Frame>, books: Account, before: multiset<Frame>, accepted: multiset<Frame>,
                after: multiset<Frame>, acknowledged: multiset<Frame>, purged: multiset<Frame>)
    requires start + books.accepted == before + books.acknowledged + books.purged
    requires before + accepted == after + acknowledged + purged
    ensures start + (books.accepted + accepted) == after + (books.acknowledged + acknowledged) + (books.purged + purged)
  {
    calc {
      start + (books.accepted + accepted);
      (start + books.accepted) + accepted;
      (before + accepted) + books.acknowledged + books.purged;
      after + (books.acknowledged + acknowledged) + (books.purged + purged);
    }
  }

  /** Over any run, every frame found or accepted is queued once, or was acknowledged once with its
      current token, or was purged once: nothing is lost and nothing is duplicated. */
  lemma {:induction false} NothingLost(q: Opened, ops: seq<Op>)
    requires q.Ok() && AllEncoded(ops)
    ensures var books := Books(q, ops);
      Frames(q.start) + books.accepted == Frames(Rows(q, ops)) + books.acknowledged + books.purged
  {
    hide Apply, Frames, AcceptedBy, AcknowledgedBy, PurgedBy;
    if ops == [] {
    } else {
      var n := |ops| - 1;
      var rows := Rows(q, ops[..n]);
      NothingLost(q, ops[..n]);
      ApplyConserves(rows, q.limits, ops[n]);
      var before := Books(q, ops[..n]);
      Balance(Frames(q.start), before, Frames(rows), AcceptedBy(rows, q.limits, ops[n]), Frames(Rows(q, ops)),
              AcknowledgedBy(rows, q.limits, ops[n]), PurgedBy(rows, q.limits, ops[n]));
    }
  }

  // ----- What each call answers

  /** A frame is accepted exactly when it is valid, young enough and new, and there is room for
      it; it then comes last, unleased. Otherwise nothing changes, and the answer says why. */
  lemma EnqueueRule(rows: seq<Row>, limits: Limits, frame: Frame, size: int, now: int)
    requires Valid(rows, limits) && size > 0
    ensures var tx := TxEnqueue(rows, limits, frame, size, now);
      && var valid := WellFormedFrame(frame) && now - 30 * DAY <= frame.createdAt <= now + 5 * MINUTE
                      && frame.createdAt >= now - limits.maxAge;
      && var queued := exists row :: row in rows && row.messageId == frame.messageId;
      && var room := |rows| + 1 <= limits.maxItems && TotalSize(rows) + size <= limits.maxBytes;
      && (tx.reply.Accepted? <==> valid && !queued && room)
      && (tx.reply.FrameRejected? <==> !valid)
      && (tx.reply.Duplicate? <==> valid && queued && size <= limits.maxBytes)
      && (tx.reply.Full? <==> valid && !room && (!queued || size > limits.maxBytes))
      && (!tx.reply.Accepted? ==> tx.rows == rows)
      && (tx.reply.Accepted? ==>
            && |tx.rows| == |rows| + 1 && tx.rows[..|rows|] == rows
            && var row := tx.rows[|rows|];
            && Genuine(row) && row.blob == Some(frame) && row.size == size && row.lease.None? && row.attempts == 0
            && forall other :: other in rows ==> other.rowid < row.rowid)
  {
    hide WellFormedFrame, TotalSize, PriorityForFrame;
    TotalSizeNonNegative(rows);
  }

  /** A claim without a positive lease, and an acknowledgement without a message or token, are
      refused and change nothing. */
  lemma RefusedOutright(rows: seq<Row>, now: int, leaseDuration: int, token: string, messageId: string)
    requires RowidsIncrease(rows)
    ensures leaseDuration <= 0 ==> TxClaim(rows, now, leaseDuration, token) == Tx(rows, LeaseRejected)
    ensures IsBlank(messageId) || IsBlank(token) ==> TxAcknowledge(rows, messageId, token) == Tx(rows, AckRejected)
  {
    hide IsBlank, Filter;
  }

  lemma {:induction false} FramesCount(rows: seq<Row>)
    requires forall row :: row in rows ==> row.blob.Some?
    ensures |Frames(rows)| == |rows|
  {
    if rows == [] {
    } else {
      FramesCount(rows[..|rows| - 1]);
    }
  }

  /** A purge answers with the number of frames it removed. */
  lemma PurgeCounts(rows: seq<Row>, limits: Limits, now: int)
    requires AllGenuine(rows)
    ensures TxPurge(rows, limits, now).reply == Purged(|PurgedBy(rows, limits, PurgeExpired(now))|)
    ensures forall row :: row in TxPurge(rows, limits, now).rows <==> row in rows && row.createdAt >= now - limits.maxAge
  {
    hide Filter, Frames;
    var keep, drop := (row: Row) => row.createdAt >= now - limits.maxAge, (row: Row) => row.createdAt < now - limits.maxAge;
    FramesSplit(rows, keep, drop);
    var dropped := Filter(rows, drop);
    forall row | row in dropped
      ensures row.blob.Some?
    {
      var i :| 0 <= i < |rows| && rows[i] == row;
    }
    FramesCount(dropped);
  }

  /** An acknowledgement that carries a row's current token removes that row and nothing else. */
  lemma AcknowledgeRemovesOne(rows: seq<Row>, i: nat, token: string)
    requires UniqueMessages(rows) && i < |rows|
    requires !IsBlank(rows[i].messageId) && !IsBlank(token) && Carries(rows[i], rows[i].messageId, token)
    ensures TxAcknowledge(rows, rows[i].messageId, token) == Tx(rows[..i] + rows[i + 1..], Acknowledged)
  {
    hide Filter;
    var id := rows[i].messageId;
    assert rows == rows[..i] + [rows[i]] + rows[i + 1..];
    forall row | row in rows[..i] || row in rows[i + 1..]
      ensures !Carries(row, id, token)
    {
      if row in rows[..i] {
        var j :| 0 <= j < i && rows[j] == row;
      } else {
        var j :| i < j < |rows| && rows[j] == row;
      }
    }
    FilterAllBut(rows[..i], rows[i], rows[i + 1..], (row: Row) => !Carries(row, id, token));
  }

  lemma ClaimOnlyRow(row: Row, now: int, leaseDuration: int, token: string)
    requires leaseDuration > 0 && Claimable(row, now) && row.blob.Some? && ValidateFrame(row.blob.value, now)
    ensures RowidsIncrease([row])
    ensures var until := now + leaseDuration;
      TxClaim([row], now, leaseDuration, token) ==
        Tx([row.(lease := Some(Lease(token, until)), attempts := row.attempts + 1)],
           Delivered(Delivery(row.blob.value, token, row.attempts + 1, until)))
  {
    hide ValidateFrame, Claimable;
    assert Pick([row], now) == Some(0) by {
      assert row in [row];
    }
  }

  lemma AcknowledgeOnlyRow(row: Row, token: string)
    requires !IsBlank(row.messageId) && !IsBlank(token) && Carries(row, row.messageId, token)
    ensures TxAcknowledge([row], row.messageId, token) == Tx([], Acknowledged)
  {
    hide IsBlank, Carries;
    AcknowledgeRemovesOne([row], 0, token);
    assert [row][..0] + [row][1..] == [];
  }

  lemma MessageIsNotBlank(frame: Frame)
    requires WellFormedFrame(frame)
    ensures !IsBlank(frame.messageId)
  {
    assert IsHexDigit(frame.messageId[0]);
  }

  /** From an empty queue, what was enqueued is what is delivered, and acknowledging it with
      the token of the delivery empties the queue again. */
  lemma FrameRoundTrip(limits: Limits, frame: Frame, size: int, now: int, leaseDuration: int, token: string)
    requires limits.Valid() && 0 < size <= limits.maxBytes && leaseDuration > 0 && !IsBlank(token)
    requires ValidateFrame(frame, now) && frame.createdAt >= now - limits.maxAge
    ensures var enqueued := TxEnqueue([], limits, frame, size, now);
      && enqueued.reply.Accepted? && RowidsIncrease(enqueued.rows)
      && var claimed := TxClaim(enqueued.rows, now, leaseDuration, token);
      && claimed.reply == Delivered(Delivery(frame, token, 1, now + leaseDuration))
      && TxAcknowledge(claimed.rows, frame.messageId, token) == Tx([], Acknowledged)
  {
    hide WellFormedFrame, IsBlank, PriorityForFrame, TxClaim, TxAcknowledge;
    var row := NewRow([], frame, size);
    assert TxEnqueue([], limits, frame, size, now) == Tx([row], Accepted);
    MessageIsNotBlank(frame);
    ClaimOnlyRow(row, now, leaseDuration, token);
    AcknowledgeOnlyRow(row.(lease := Some(Lease(token, now + leaseDuration)), attempts := 1), token);
  }

  /** Any other acknowledgement is rejected and changes nothing. */
  lemma AcknowledgeRejected(rows: seq<Row>, messageId: string, token: string)
    requires forall row :: row in rows ==> !Carries(row, messageId, token)
    ensures TxAcknowledge(rows, messageId, token) == Tx(rows, AckRejected)
    ensures TxRelease(rows, messageId, token) == Tx(rows, AckRejected)
  {
    FilterAll(rows, (row: Row) => !Carries(row, messageId, token));
    FilterNone(rows, (row: Row) => Carries(row, messageId, token));
  }

  /** Releasing with the current token frees that row for the next claim and changes
      nothing else. */
  lemma ReleaseFreesOne(rows: seq<Row>, i: nat, token: string)
    requires UniqueMessages(rows) && i < |rows| && Carries(rows[i], rows[i].messageId, token)
    ensures TxRelease(rows, rows[i].messageId, token) == Tx(rows[i := rows[i].(lease := None)], Released)
  {
    hide Filter;
    var id := rows[i].messageId;
    var carries := (row: Row) => Carries(row, id, token);
    AtMostOneCarrier(rows, id, token);
    assert rows[i] in Filter(rows, carries);
    var after := TxRelease(rows, id, token).rows;
    assert forall j :: 0 <= j < |rows| && j != i ==> rows[j].messageId != id;
    assert after == rows[i := rows[i].(lease := None)];
  }

  // ----- Leases

  /** Whoever holds the message, holds it until `until` at least. */
  predicate HeldUntil(rows: seq<Row>, messageId: string, until: int) {
    forall row :: row in rows && row.messageId == messageId ==> row.lease.Some? && row.lease.value.until >= until
  }

  /** A call that lets go of the message: a successful release, or a new enqueue of it. */
  predicate LetsGo(op: Op, reply: Reply, messageId: string) {
    || (op.Release? && op.messageId == messageId && reply.Released?)
    || (op.Enqueue? && op.frame.messageId == messageId && reply.Accepted?)
  }

  /** A claim delivers the frame of the row it leases. */
  lemma ClaimEffect(rows: seq<Row>, limits: Limits, op: Op)
    requires Valid(rows, limits) && op.Claim? && Apply(rows, limits, op).reply.Delivered?
    ensures var i, tx := Pick(rows, op.now).value, Apply(rows, limits, op);
      && Pick(rows, op.now).Some?
      && tx.reply.delivery == Delivery(rows[i].blob.value, op.token, rows[i].attempts + 1, op.now + op.leaseDuration)
      && tx.reply.delivery.frame.messageId == rows[i].messageId
      && op.leaseDuration > 0
      && tx.rows == rows[i := rows[i].(lease := Some(Lease(op.token, op.now + op.leaseDuration)),
                                       attempts := rows[i].attempts + 1)]
  {
    hide ValidateFrame;
    assert Genuine(rows[Pick(rows, op.now).value]);
  }

  /** A release that is not accepted changes nothing. */
  lemma ReleaseRejectedOrReleased(rows: seq<Row>, messageId: string, token: string)
    requires UniqueMessages(rows)
    ensures var tx := TxRelease(rows, messageId, token); !tx.reply.Released? ==> tx.rows == rows
  {
    AtMostOneCarrier(rows, messageId, token);
    var carriers := Filter(rows, (row: Row) => Carries(row, messageId, token));
    if |carriers| == 0 {
      assert forall row :: row in rows ==> !Carries(row, messageId, token);
    }
  }

  lemma StillHeld(rows: seq<Row>, limits: Limits, op: Op, messageId: string, until: int)
    requires Valid(rows, limits) && HeldUntil(rows, messageId, until)
    requires !LetsGo(op, Apply(rows, limits, op).reply, messageId)
    ensures HeldUntil(Apply(rows, limits, op).rows, messageId, until)
  {
    hide ValidateFrame, TotalSize;
    match op
    case Claim(now, leaseDuration, token) =>
      if Apply(rows, limits, op).reply.Delivered? {
        ClaimEffect(rows, limits, op);
      }
    case Release(id, token) =>
      if id == messageId {
        ReleaseRejectedOrReleased(rows, id, token);
      }
    case _ =>
  }

  lemma {:induction false} HeldThrough(q: Opened, ops: seq<Op>, i: nat, j: nat, messageId: string, until: int)
    requires q.Ok() && AllEncoded(ops) && i <= j <= |ops|
    requires HeldUntil(Before(q, ops, i), messageId, until)
    requires forall k :: i <= k < j ==> !LetsGo(ops[k], ReplyTo(q, ops, k), messageId)
    ensures HeldUntil(Before(q, ops, j), messageId, until)
    decreases j - i
  {
    hide Apply, HeldUntil;
    if i == j {
    } else {
      NextTable(q, ops, i);
      StillHeld(Before(q, ops, i), q.limits, ops[i], messageId, until);
      HeldThrough(q, ops, i + 1, j, messageId, until);
    }
  }

  /** Lease exclusivity: after call `i` claims a message until some time, no call before
      that time claims it, unless it was released or enqueued anew in between. The clock
      may run in any direction. */
  lemma LeaseExclusive(q: Opened, ops: seq<Op>, i: nat, j: nat)
    requires q.Ok() && AllEncoded(ops) && i < j < |ops|
    requires ops[i].Claim? && ReplyTo(q, ops, i).Delivered?
    requires ops[j].Claim? && ops[j].now < ReplyTo(q, ops, i).delivery.leaseUntil
    requires var id := ReplyTo(q, ops, i).delivery.frame.messageId;
      forall k :: i < k < j ==> !LetsGo(ops[k], ReplyTo(q, ops, k), id)
    ensures !DeliversMessage(ReplyTo(q, ops, j), ReplyTo(q, ops, i).delivery.frame.messageId)
  {
    hide Apply, TotalSize;
    var delivery := ReplyTo(q, ops, i).delivery;
    var id := delivery.frame.messageId;
    NextTable(q, ops, i);
    ClaimEffect(Before(q, ops, i), q.limits, ops[i]);
    HeldThrough(q, ops, i + 1, j, id, delivery.leaseUntil);
    if ReplyTo(q, ops, j).Delivered? {
      ClaimEffect(Before(q, ops, j), q.limits, ops[j]);
    }
  }

  // ----- Tokens

  /** Only rows of the given message carry the token. */
  predicate TokenOnlyOn(rows: seq<Row>, token: string, messages: set<string>) {
    forall row :: row in rows && row.lease.Some? && row.lease.value.token == token ==> row.messageId in messages
  }

  /** Random tokens never repeat within a run, and none is on the table it starts from. */
  predicate FreshTokens(q: Opened, ops: seq<Op>) {
    && (forall i, j :: 0 <= i < j < |ops| && ops[i].Claim? && ops[j].Claim? ==> ops[i].token != ops[j].token)
    && (forall i :: 0 <= i < |ops| && ops[i].Claim? ==> TokenOnlyOn(q.start, ops[i].token, {}))
  }

  lemma TokenStays(rows: seq<Row>, limits: Limits, op: Op, token: string, messages: set<string>)
    requires Valid(rows, limits) && TokenOnlyOn(rows, token, messages)
    requires op.Claim? ==> op.token != token
    ensures TokenOnlyOn(Apply(rows, limits, op).rows, token, messages)
  {
    hide ValidateFrame, TotalSize;
    if op.Claim? && Apply(rows, limits, op).reply.Delivered? {
      ClaimEffect(rows, limits, op);
    }
  }

  lemma {:induction false} TokenThrough(q: Opened, ops: seq<Op>, i: nat, j: nat, token: string, messages: set<string>)
    requires q.Ok() && AllEncoded(ops) && i <= j <= |ops|
    requires TokenOnlyOn(Before(q, ops, i), token, messages)
    requires forall k :: i <= k < j && ops[k].Claim? ==> ops[k].token != token
    ensures TokenOnlyOn(Before(q, ops, j), token, messages)
    decreases j - i
  {
    hide Apply, TokenOnlyOn;
    if i == j {
    } else {
      NextTable(q, ops, i);
      TokenStays(Before(q, ops, i), q.limits, ops[i], token, messages);
      TokenThrough(q, ops, i + 1, j, token, messages);
    }
  }

  /** Right after a claim, its token is on the claimed message alone. */
  lemma TokenAfterClaim(q: Opened, ops: seq<Op>, i: nat)
    requires q.Ok() && AllEncoded(ops) && FreshTokens(q, ops) && i < |ops|
    requires ops[i].Claim? && ReplyTo(q, ops, i).Delivered?
    ensures TokenOnlyOn(Before(q, ops, i + 1), ops[i].token, {ReplyTo(q, ops, i).delivery.frame.messageId})
  {
    hide Apply, TotalSize;
    assert Before(q, ops, 0) == q.start;
    TokenThrough(q, ops, 0, i, ops[i].token, {});
    NextTable(q, ops, i);
    ClaimEffect(Before(q, ops, i), q.limits, ops[i]);
  }

  lemma ReclaimClears(rows: seq<Row>, limits: Limits, op: Op, token: string, messageId: string)
    requires Valid(rows, limits) && TokenOnlyOn(rows, token, {messageId})
    requires op.Claim? && op.token != token && DeliversMessage(Apply(rows, limits, op).reply, messageId)
    ensures TokenOnlyOn(Apply(rows, limits, op).rows, token, {})
  {
    hide Apply, TotalSize;
    ClaimEffect(rows, limits, op);
  }

  /** Once call `p` reclaims the message of call `i`, the token of call `i` is void for
      good: acknowledging or releasing with it is rejected and changes nothing. */
  lemma StaleTokenVoid(q: Opened, ops: seq<Op>, i: nat, p: nat, j: nat)
    requires q.Ok() && AllEncoded(ops) && FreshTokens(q, ops) && i < p < j <= |ops|
    requires ops[i].Claim? && ReplyTo(q, ops, i).Delivered?
    requires ops[p].Claim? && DeliversMessage(ReplyTo(q, ops, p), ReplyTo(q, ops, i).delivery.frame.messageId)
    ensures var rows, token := Before(q, ops, j), ops[i].token;
      forall id :: TxAcknowledge(rows, id, token) == TxRelease(rows, id, token) == Tx(rows, AckRejected)
  {
    hide Apply, TotalSize, TxAcknowledge, TxRelease;
    var id, token := ReplyTo(q, ops, i).delivery.frame.messageId, ops[i].token;
    TokenAfterClaim(q, ops, i);
    TokenThrough(q, ops, i + 1, p, token, {id});
    NextTable(q, ops, p);
    ClaimEffect(Before(q, ops, p), q.limits, ops[p]);
    assert TokenOnlyOn(Before(q, ops, p + 1), token, {}) by {
      ReclaimClears(Before(q, ops, p), q.limits, ops[p], token, id);
    }
    TokenThrough(q, ops, p + 1, j, token, {});
    var rows := Before(q, ops, j);
    forall other
      ensures TxAcknowledge(rows, other, token) == TxRelease(rows, other, token) == Tx(rows, AckRejected)
    {
      AcknowledgeRejected(rows, other, token);
    }
  }

  // ----- Attempts

  /** The attempts a table records for a message. */
  function AttemptsOf(rows: seq<Row>, messageId: string): int {
    if rows == [] then 0
    else if rows[|rows| - 1].messageId == messageId then rows[|rows| - 1].attempts
    else AttemptsOf(rows[..|rows| - 1], messageId)
  }

  lemma {:induction false} AttemptsFound(rows: seq<Row>, i: nat)
    requires UniqueMessages(rows) && i < |rows|
    ensures AttemptsOf(rows, rows[i].messageId) == rows[i].attempts
  {
    if i == |rows| - 1 {
    } else {
      AttemptsFound(rows[..|rows| - 1], i);
    }
  }

  /** How often a message has been delivered since it was last accepted: what the table
      recorded at the start, and the deliveries of the run. */
  function Claims(q: Opened, ops: seq<Op>, messageId: string): int
    requires q.Ok() && AllEncoded(ops)
  {
    if ops == [] then AttemptsOf(q.start, messageId)
    else
      var n := |ops| - 1;
      var reply := Apply(Rows(q, ops[..n]), q.limits, ops[n]).reply;
      if ops[n].Enqueue? && reply.Accepted? && ops[n].frame.messageId == messageId then 0
      else Claims(q, ops[..n], messageId) + if DeliversMessage(reply, messageId) then 1 else 0
  }

  predicate CountedFor(rows: seq<Row>, counts: string -> int) {
    forall row :: row in rows ==> row.attempts == counts(row.messageId)
  }

  lemma AttemptsStep(rows: seq<Row>, limits: Limits, op: Op, before: string -> int, after: string -> int)
    requires Valid(rows, limits) && CountedFor(rows, before)
    requires var reply := Apply(rows, limits, op).reply;
      forall id :: after(id) ==
        if op.Enqueue? && reply.Accepted? && op.frame.messageId == id then 0
        else before(id) + if DeliversMessage(reply, id) then 1 else 0
    ensures CountedFor(Apply(rows, limits, op).rows, after)
  {
    hide ValidateFrame, TotalSize;
    if op.Claim? && Apply(rows, limits, op).reply.Delivered? {
      ClaimEffect(rows, limits, op);
    }
  }

  /** The attempt number of every queued row is the number of deliveries of that row. */
  lemma {:induction false} AttemptsCountClaims(q: Opened, ops: seq<Op>)
    requires q.Ok() && AllEncoded(ops)
    ensures forall row :: row in Rows(q, ops) ==> row.attempts == Claims(q, ops, row.messageId)
  {
    hide Apply, TotalSize, AttemptsOf;
    if ops == [] {
      forall row | row in q.start
        ensures row.attempts == AttemptsOf(q.start, row.messageId)
      {
        var i :| 0 <= i < |q.start| && q.start[i] == row;
        AttemptsFound(q.start, i);
      }
    } else {
      var n := |ops| - 1;
      AttemptsCountClaims(q, ops[..n]);
      AttemptsStep(Rows(q, ops[..n]), q.limits, ops[n],
                   id => Claims(q, ops[..n], id), id => Claims(q, ops, id));
    }
  }

  // ----- Progress

  /** The clock has not run backwards past an enqueue. */
  predicate EnqueuedBy(ops: seq<Op>, now: int) {
    forall op :: op in ops && op.Enqueue? ==> op.now <= now
  }

  predicate NotFuture(rows: seq<Row>, now: int) {
    forall row :: row in rows ==> row.blob.Some? && WellFormedFrame(row.blob.value) && row.blob.value.createdAt <= now + 5 * MINUTE
  }

  lemma NotFutureStep(rows: seq<Row>, limits: Limits, op: Op, now: int)
    requires Valid(rows, limits) && NotFuture(rows, now) && (op.Enqueue? ==> op.now <= now)
    ensures NotFuture(Apply(rows, limits, op).rows, now)
  {
    hide WellFormedFrame, TotalSize;
  }

  lemma {:induction false} FramesStayWellFormed(q: Opened, ops: seq<Op>, now: int)
    requires q.Ok() && AllEncoded(ops) && EnqueuedBy(ops, now) && NotFuture(q.start, now)
    ensures NotFuture(Rows(q, ops), now)
  {
    hide Apply, NotFuture;
    if ops == [] {
    } else {
      assert ops[|ops| - 1] in ops;
      FramesStayWellFormed(q, ops[..|ops| - 1], now);
      NotFutureStep(Rows(q, ops[..|ops| - 1]), q.limits, ops[|ops| - 1], now);
    }
  }

  lemma ValidParts(rows: seq<Row>, limits: Limits)
    requires Valid(rows, limits)
    ensures AllGenuine(rows) && RowidsIncrease(rows)
  {
  }

  /** What a purge leaves is valid at that time. */
  lemma PurgedFramesValid(before: seq<Row>, limits: Limits, now: int)
    requires limits.Valid() && Valid(before, limits) && NotFuture(before, now)
    ensures var rows := TxPurge(before, limits, now).rows;
      RowidsIncrease(rows) && forall row :: row in rows ==> row.blob.Some? && ValidateFrame(row.blob.value, now)
  {
    hide Filter, Valid, WellFormedFrame;
    FilterKeepsValid(before, (row: Row) => row.createdAt >= now - limits.maxAge, limits);
    var rows := TxPurge(before, limits, now).rows;
    assert AllGenuine(before) && RowidsIncrease(rows) by { ValidParts(before, limits); ValidParts(rows, limits); }
    forall row | row in rows
      ensures row.blob.Some? && ValidateFrame(row.blob.value, now)
    {
      var i :| 0 <= i < |before| && before[i] == row;
      assert Genuine(before[i]);
    }
  }

  lemma ClaimOnValidFrames(rows: seq<Row>, now: int, leaseDuration: int, token: string)
    requires RowidsIncrease(rows) && leaseDuration > 0
    requires forall row :: row in rows ==> row.blob.Some? && ValidateFrame(row.blob.value, now)
    ensures var reply := TxClaim(rows, now, leaseDuration, token).reply;
      && (reply.Delivered? || reply.Empty?)
      && (reply.Empty? <==> forall row :: row in rows ==> row.lease.Some? && row.lease.value.until > now)
  {
    hide ValidateFrame;
  }

  /** A claim right after a purge never meets an invalid frame: it delivers, or every row
      is under an unexpired lease. Retention is at most the 30 days a frame stays valid. */
  lemma ClaimAfterPurgeProgresses(q: Opened, ops: seq<Op>, now: int, leaseDuration: int, token: string)
    requires q.Ok() && AllEncoded(ops) && EnqueuedBy(ops, now) && NotFuture(q.start, now) && leaseDuration > 0
    ensures var rows := TxPurge(Rows(q, ops), q.limits, now).rows;
      && RowidsIncrease(rows)
      && var reply := TxClaim(rows, now, leaseDuration, token).reply;
      && (reply.Delivered? || reply.Empty?)
      && (reply.Empty? <==> forall row :: row in rows ==> row.lease.Some? && row.lease.value.until > now)
  {
    hide Filter, Valid, Rows, TxClaim, TxPurge, NotFuture;
    var before := Rows(q, ops);
    var rows := TxPurge(before, q.limits, now).rows;
    FramesStayWellFormed(q, ops, now);
    PurgedFramesValid(before, q.limits, now);
    ClaimOnValidFrames(rows, now, leaseDuration, token);
  }
}

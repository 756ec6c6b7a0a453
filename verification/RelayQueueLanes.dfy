/** The relay queue seen as three FIFO lanes, one per priority: claims serve the highest
    lane that has something to serve, in insertion order, whatever else happens. */
module RelayQueueLanes {
  import opened GoStrings
  import opened RelayFrame
  import opened RelayQueue
  import opened Sequences

  function Lane(rows: seq<Row>, priority: int): seq<Row> {
    Filter(rows, (row: Row) => row.priority == priority)
  }

  /** The oldest entry of a lane that nobody holds. */
  function FirstClaimable(lane: seq<Row>, now: int): (r: Option<Row>)
    ensures r.Some? ==> r.value in lane && Claimable(r.value, now)
    ensures r.None? ==> forall row :: row in lane ==> !Claimable(row, now)
    ensures r.Some? && RowidsIncrease(lane) ==>
      forall row :: row in lane && Claimable(row, now) ==> r.value.rowid <= row.rowid
  {
    if lane == [] then None
    else if Claimable(lane[0], now) then Some(lane[0])
    else
      assert lane == [lane[0]] + lane[1..];
      FirstClaimable(lane[1..], now)
  }

  function Next(rows: seq<Row>, now: int): Option<Row> {
    var critical, elevated := FirstClaimable(Lane(rows, CRITICAL), now), FirstClaimable(Lane(rows, ELEVATED), now);
    if critical.Some? then critical
    else if elevated.Some? then elevated
    else FirstClaimable(Lane(rows, ROUTINE), now)
  }

  /** The single table query picks what the lanes would serve. */
  lemma PickServesLanes(rows: seq<Row>, limits: Limits, now: int)
    requires Valid(rows, limits)
    ensures var i := Pick(rows, now);
      Next(rows, now) == if i.None? then None else Some(rows[i.value])
  {
    hide Filter, Pick, TotalSize;
    forall priority ensures RowidsIncrease(Lane(rows, priority)) {
      FilterKeepsOrder(rows, (row: Row) => row.priority == priority);
    }
    assert forall row :: row in rows ==> row.priority in {CRITICAL, ELEVATED, ROUTINE} by {
      forall row | row in rows
        ensures row.priority in {CRITICAL, ELEVATED, ROUTINE}
      {
        var i :| 0 <= i < |rows| && rows[i] == row;
        assert Genuine(rows[i]);
      }
    }
    var i, next := Pick(rows, now), Next(rows, now);
    if i.Some? {
      assert rows[i.value] in Lane(rows, rows[i.value].priority);
      var j :| 0 <= j < |rows| && rows[j] == next.value;
    }
  }

  /** A claim delivers the oldest frame nobody holds in the highest lane that has one. It
      fails exactly when there is none or when that frame is not valid now, and then it
      changes nothing. */
  lemma ClaimServesHighestLane(rows: seq<Row>, limits: Limits, now: int, leaseDuration: int, token: string)
    requires Valid(rows, limits) && leaseDuration > 0
    ensures var tx, next := TxClaim(rows, now, leaseDuration, token), Next(rows, now);
      && (next.None? ==> tx == Tx(rows, Empty))
      && (next.Some? ==> next.value.blob.Some?)
      && (next.Some? && ValidateFrame(next.value.blob.value, now) ==>
            tx.reply == Delivered(Delivery(next.value.blob.value, token, next.value.attempts + 1, now + leaseDuration)))
      && (next.Some? && !ValidateFrame(next.value.blob.value, now) ==> tx == Tx(rows, StoredFrameInvalid))
  {
    hide ValidateFrame, Next, Pick, TotalSize;
    PickServesLanes(rows, limits, now);
    var i := Pick(rows, now);
    assert i.Some? ==> Genuine(rows[i.value]);
  }

  predicate IsAlert(frame: Frame) { frame.kind == "integrity_alert" || frame.kind == "tamper_alert" }

  predicate IsLogBatch(frame: Frame) { frame.kind == "agent_log_batch" }

  /** Alerts overtake everything, and logs wait for everything: no claim delivers a frame
      that is not an alert, or a log batch, while an alert, or anything but logs, could go. */
  lemma UrgentFirst(rows: seq<Row>, limits: Limits, now: int, leaseDuration: int, token: string, waiting: Row)
    requires Valid(rows, limits) && leaseDuration > 0
    requires waiting in rows && Claimable(waiting, now)
    ensures waiting.blob.Some? && var reply := TxClaim(rows, now, leaseDuration, token).reply;
      reply.Delivered? ==>
        && (IsAlert(waiting.blob.value) ==> IsAlert(reply.delivery.frame))
        && (AllowedKind(waiting.blob.value.kind) && !IsLogBatch(waiting.blob.value) ==> !IsLogBatch(reply.delivery.frame))
  {
    hide ValidateFrame, TotalSize;
    var j :| 0 <= j < |rows| && rows[j] == waiting;
    assert Genuine(rows[j]);
    var i := Pick(rows, now);
    if i.Some? {
      assert Genuine(rows[i.value]);
    }
  }

  /** An accepted frame goes to the end of its own lane. */
  lemma EnqueueJoinsItsLane(rows: seq<Row>, limits: Limits, frame: Frame, size: int, now: int, priority: int)
    ensures var tx := TxEnqueue(rows, limits, frame, size, now);
      tx.reply.Accepted? ==>
        Lane(tx.rows, priority) == Lane(rows, priority)
          + if priority == PriorityForFrame(frame) then [NewRow(rows, frame, size)] else []
  {
    hide ValidateFrame, TotalSize;
    assert (rows + [NewRow(rows, frame, size)])[..|rows|] == rows;
  }

  function Contents(lane: seq<Row>): seq<Option<Frame>> {
    seq(|lane|, i requires 0 <= i < |lane| => lane[i].blob)
  }

  lemma ContentsAppend(lane: seq<Row>, row: Row)
    ensures Contents(lane + [row]) == Contents(lane) + [row.blob]
  {
  }

  lemma {:induction false} LaneContentsUpdate(before: seq<Row>, after: seq<Row>, priority: int)
    requires |before| == |after|
    requires forall i :: 0 <= i < |before| ==> before[i].blob == after[i].blob && before[i].priority == after[i].priority
    ensures Contents(Lane(before, priority)) == Contents(Lane(after, priority))
  {
    if before == [] {
    } else {
      LaneContentsUpdate(before[..|before| - 1], after[..|after| - 1], priority);
      ContentsAppend(Lane(before[..|before| - 1], priority), before[|before| - 1]);
      ContentsAppend(Lane(after[..|after| - 1], priority), after[|after| - 1]);
    }
  }

  /** Claiming and releasing leave every lane's frames and their order alone. */
  lemma LeasingKeepsLanes(rows: seq<Row>, limits: Limits, op: Op, priority: int)
    requires RowidsIncrease(rows) && (op.Claim? || op.Release?)
    ensures Contents(Lane(Apply(rows, limits, op).rows, priority)) == Contents(Lane(rows, priority))
  {
    hide ValidateFrame, Contents, Lane;
    LaneContentsUpdate(rows, Apply(rows, limits, op).rows, priority);
  }

  /** Deleting rows from the table deletes them from their lane and keeps the rest in order. */
  lemma {:induction false} DeletingKeepsLaneOrder(rows: seq<Row>, keep: Row -> bool, priority: int)
    ensures Lane(Filter(rows, keep), priority) == Filter(Lane(rows, priority), keep)
  {
    if rows == [] {
    } else {
      var n := |rows| - 1;
      DeletingKeepsLaneOrder(rows[..n], keep, priority);
      var kept, lane := Filter(rows[..n], keep), Lane(rows[..n], priority);
      assert (kept + [rows[n]])[..|kept|] == kept;
      assert (lane + [rows[n]])[..|lane|] == lane;
    }
  }
}

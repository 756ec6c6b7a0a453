/** The schema migrations of internal/relaytransport/queue.go. Version 2 adds priorities,
    version 3 adds leases. Every statement or transaction is one durable step, and opening
    the queue may be interrupted between any two. */
module RelayQueueMigration {
  import opened GoStrings
  import opened RelayFrame
  import opened RelayQueue
  import opened RelayQueueRuns

  /** A row as schema 1 stores it. */
  datatype LegacyRow = LegacyRow(rowid: nat, messageId: string, blob: Option<Frame>, size: int, createdAt: int)

  datatype PriorityRow = PriorityRow(legacy: LegacyRow, priority: int)

  /** `relay_frames`: absent, or with the columns of schema 1, 2 or 3. */
  datatype Table = Absent | First(legacy: seq<LegacyRow>) | Second(prioritised: seq<PriorityRow>) | Third(rows: seq<Row>)

  datatype Database = Database(metadata: bool, version: Option<int>, table: Table)

  const QUEUE_SCHEMA_VERSION := 3

  /** A frame that does not decode is routine. */
  function PriorityOf(blob: Option<Frame>): int {
    if blob.Some? then PriorityForFrame(blob.value) else ROUTINE
  }

  function UpgradedRow(row: LegacyRow, priority: int): Row {
    Row(row.rowid, row.messageId, row.blob, row.size, row.createdAt, priority, None, 0)
  }

  /** What the table comes to once it is fully migrated. */
  function Upgraded(table: Table): seq<Row> {
    match table
    case Absent => []
    case First(rows) => seq(|rows|, i requires 0 <= i < |rows| => UpgradedRow(rows[i], PriorityOf(rows[i].blob)))
    case Second(rows) => seq(|rows|, i requires 0 <= i < |rows| => UpgradedRow(rows[i].legacy, rows[i].priority))
    case Third(rows) => rows
  }

  function Prioritised(rows: seq<LegacyRow>): seq<PriorityRow> {
    seq(|rows|, i requires 0 <= i < |rows| => PriorityRow(rows[i], PriorityOf(rows[i].blob)))
  }

  /** `message_id` is the primary key, and rows are listed by rowid. */
  predicate KeyedTable(table: Table) { RowidsIncrease(Upgraded(table)) && UniqueMessages(Upgraded(table)) }

  /** The recorded version and the columns agree, as they do after every step. */
  predicate Consistent(db: Database) {
    && (!db.metadata ==> db.version.None?)
    && KeyedTable(db.table)
    && (match db.version
        case None => db.table.Absent?
        case Some(version) =>
          if version == 1 then db.table.Absent? || db.table.First?
          else if version == 2 then db.table.Second?
          else version == QUEUE_SCHEMA_VERSION && db.table.Third?)
  }

  // ----- One opening of the queue, as the databases it leaves behind

  /** The next durable step of `migrate`; a database at version 3 has none. */
  function NextStep(db: Database): Option<Database> {
    if !db.metadata then Some(Database(true, None, db.table))
    else if db.version.None? then Some(db.(version := Some(1)))
    else if db.table.Absent? then Some(db.(table := First([])))
    else if db.version == Some(1) && db.table.First? then
      Some(Database(true, Some(2), Second(Prioritised(db.table.legacy))))
    else if db.version == Some(2) && db.table.Second? then
      Some(Database(true, Some(3), Third(Upgraded(db.table))))
    else None
  }

  /** How many steps are left until version 3. */
  function StepsLeft(db: Database): nat {
    if !db.metadata then 5
    else if db.version.None? then 4
    else if db.table.Absent? then 3
    else if db.table.First? then 2
    else if db.table.Second? then 1
    else 0
  }

  /** The databases that an opening leaves behind, one after the other. */
  function Steps(db: Database): seq<Database>
    decreases StepsLeft(db)
  {
    if NextStep(db).None? then [] else [NextStep(db).value] + Steps(NextStep(db).value)
  }

  /** Up to `budget` steps: an opening of the queue that is interrupted after that many. */
  function Open(db: Database, budget: nat): Database
    decreases budget
  {
    if budget == 0 || NextStep(db).None? then db else Open(NextStep(db).value, budget - 1)
  }

  /** An interrupted opening leaves behind one of the databases of the complete one. */
  lemma {:induction false} OpenIsPrefix(db: Database, budget: nat)
    ensures Open(db, budget) == if budget == 0 || Steps(db) == [] then db
                                else if budget <= |Steps(db)| then Steps(db)[budget - 1]
                                else Steps(db)[|Steps(db)| - 1]
    decreases budget
  {
    hide NextStep;
    if budget == 0 || NextStep(db).None? {
    } else {
      OpenIsPrefix(NextStep(db).value, budget - 1);
    }
  }

  /** Interrupted openings, one after the other. */
  function Reopen(db: Database, budgets: seq<nat>): Database
    decreases |budgets|
  {
    if budgets == [] then db else Reopen(Open(db, budgets[0]), budgets[1..])
  }

  lemma StepKeepsFrames(db: Database)
    requires Consistent(db) && NextStep(db).Some?
    ensures var next := NextStep(db).value; Consistent(next) && Upgraded(next.table) == Upgraded(db.table)
  {
    hide RowidsIncrease, UniqueMessages;
    assert Upgraded(NextStep(db).value.table) == Upgraded(db.table);
  }

  lemma {:induction false} OpenKeepsFrames(db: Database, budget: nat)
    requires Consistent(db)
    ensures Consistent(Open(db, budget)) && Upgraded(Open(db, budget).table) == Upgraded(db.table)
    decreases budget
  {
    hide Consistent;
    if budget == 0 || NextStep(db).None? {
    } else {
      StepKeepsFrames(db);
      OpenKeepsFrames(NextStep(db).value, budget - 1);
    }
  }

  /** Schema 3 with the original frames in the original order. */
  function Migrated(db: Database): Database {
    Database(true, Some(QUEUE_SCHEMA_VERSION), Third(Upgraded(db.table)))
  }

  lemma {:induction false} OpenFinishes(db: Database, budget: nat)
    requires Consistent(db) && budget >= StepsLeft(db)
    ensures Open(db, budget) == Migrated(db)
    decreases budget
  {
    hide KeyedTable;
    if budget == 0 || NextStep(db).None? {
    } else {
      StepKeepsFrames(db);
      OpenFinishes(NextStep(db).value, budget - 1);
    }
  }

  /** However often opening is interrupted, one opening that completes reaches schema 3
      with the frames of the original table, in the original order. */
  lemma {:induction false} MigrationPreservesQueue(db: Database, budgets: seq<nat>, budget: nat)
    requires Consistent(db) && budget >= StepsLeft(Reopen(db, budgets))
    ensures Open(Reopen(db, budgets), budget) == Migrated(db)
    decreases |budgets|
  {
    if budgets == [] {
      OpenFinishes(db, budget);
    } else {
      OpenKeepsFrames(db, budgets[0]);
      MigrationPreservesQueue(Open(db, budgets[0]), budgets[1..], budget);
    }
  }

  /** A row that schema 1 stored for a frame comes out as enqueueing the frame would store
      it: same place, same frame, the frame's priority, no lease and no attempts. */
  lemma MigratedRowIsGenuine(rows: seq<LegacyRow>, i: nat)
    requires i < |rows| && rows[i].blob.Some? && rows[i].size > 0
    requires rows[i].messageId == rows[i].blob.value.messageId && rows[i].createdAt == rows[i].blob.value.createdAt
    ensures var row := Upgraded(First(rows))[i];
      && Genuine(row)
      && row.rowid == rows[i].rowid && row.blob == rows[i].blob
      && row.lease.None? && row.attempts == 0
      && forall before :: NextRowid(before) == row.rowid ==> NewRow(before, rows[i].blob.value, row.size) == row
  {
  }

  lemma MigratedRowsAreGenuine(rows: seq<LegacyRow>)
    requires forall i :: 0 <= i < |rows| ==> rows[i].blob.Some? && rows[i].size > 0
    requires forall i :: 0 <= i < |rows| ==>
      rows[i].messageId == rows[i].blob.value.messageId && rows[i].createdAt == rows[i].blob.value.createdAt
    ensures AllGenuine(Upgraded(First(rows)))
  {
    hide PriorityForFrame;
    forall i | 0 <= i < |rows|
      ensures Genuine(Upgraded(First(rows))[i])
    {
      MigratedRowIsGenuine(rows, i);
    }
  }

  /** A migrated queue whose rows are genuine and within the limits is one that every theorem
      about runs applies to. */
  lemma MigratedQueueOpens(db: Database, budgets: seq<nat>, budget: nat, limits: Limits)
    requires Consistent(db) && budget >= StepsLeft(Reopen(db, budgets)) && limits.Valid()
    requires AllGenuine(Upgraded(db.table))
    requires |Upgraded(db.table)| <= limits.maxItems && TotalSize(Upgraded(db.table)) <= limits.maxBytes
    ensures var after := Open(Reopen(db, budgets), budget);
      after.table.Third? && after.table.rows == Upgraded(db.table) && Opened(limits, after.table.rows).Ok()
  {
    hide AllGenuine, TotalSize, Upgraded, RowidsIncrease, UniqueMessages;
    MigrationPreservesQueue(db, budgets, budget);
  }

  // ----- The migration as the queue performs it

  datatype LegacyPriority = LegacyPriority(messageId: string, priority: int)

  /** `UPDATE relay_frames SET priority=? WHERE message_id=?`. */
  function WithPriority(rows: seq<PriorityRow>, item: LegacyPriority): seq<PriorityRow> {
    seq(|rows|, i requires 0 <= i < |rows| =>
      if rows[i].legacy.messageId == item.messageId then rows[i].(priority := item.priority) else rows[i])
  }

  lemma KeyedLegacy(rows: seq<LegacyRow>)
    requires KeyedTable(First(rows))
    ensures forall i, j :: 0 <= i < j < |rows| ==> rows[i].messageId != rows[j].messageId
  {
    hide PriorityForFrame;
    forall i, j | 0 <= i < j < |rows|
      ensures rows[i].messageId != rows[j].messageId
    {
      assert Upgraded(First(rows))[i].messageId != Upgraded(First(rows))[j].messageId;
    }
  }

  lemma Advance(db: Database, writes: seq<Database>)
    requires NextStep(db).Some?
    ensures writes + Steps(db) == (writes + [NextStep(db).value]) + Steps(NextStep(db).value)
    ensures Consistent(db) ==> Consistent(NextStep(db).value)
  {
    hide NextStep, Consistent;
    if Consistent(db) {
      StepKeepsFrames(db);
    }
  }

  lemma NoMoreSteps(db: Database)
    requires db.metadata && db.version.Some? && db.table.Third?
    ensures Steps(db) == []
  {
  }

  lemma KeyedStays(before: Table, after: Table)
    requires KeyedTable(before) && Upgraded(before) == Upgraded(after)
    ensures KeyedTable(after)
  {
    hide Upgraded;
  }

  lemma UpgradedStays(table: Table)
    ensures table.Absent? ==> Upgraded(First([])) == Upgraded(table)
    ensures table.First? ==> Upgraded(Second(Prioritised(table.legacy))) == Upgraded(table)
    ensures table.Third? ==> Upgraded(table) == table.rows
  {
    hide PriorityForFrame;
  }

  /** `writes` lists the databases that statements and transactions have left behind. */
  class QueueDatabase {
    var db: Database
    ghost var writes: seq<Database>

    constructor (db: Database)
      ensures this.db == db && writes == []
    {
      this.db, writes := db, [];
    }

    method Write(d: Database)
      modifies this
      ensures db == d && writes == old(writes) + [d]
    {
      db := d;
      writes := writes + [d];
    }

    /** `migrate`. It performs the steps that an interruption can cut anywhere, loses no frame
        whatever happens, and refuses a newer schema. */
    method Migrate() returns (ok: bool)
      requires KeyedTable(db.table)
      modifies this
      ensures Consistent(old(db)) ==> ok && db == Migrated(old(db)) && writes == old(writes) + Steps(old(db))
      ensures old(db).metadata && old(db).version.Some? && old(db).version.value > QUEUE_SCHEMA_VERSION ==> !ok
      ensures Upgraded(db.table) == Upgraded(old(db).table)
    {
      hide KeyedTable, Prioritised, Upgraded, Steps;
      ghost var start := db;
      UpgradedStays(db.table);
      CreateTables();
      var version := db.version.value;
      if version > QUEUE_SCHEMA_VERSION {
        return false;
      }
      if version == 1 {
        UpgradedStays(db.table);
        KeyedStays(start.table, db.table);
        if Consistent(db) {
          Advance(db, writes);
        }
        ok := MigratePriorityQueue();
        if !ok {
          return;
        }
        version := 2;
      }
      if version == 2 {
        if Consistent(db) {
          Advance(db, writes);
        }
        ok := MigrateDeliveryQueue();
        UpgradedStays(db.table);
        if ok {
          NoMoreSteps(db);
        }
        return;
      }
      if Consistent(db) {
        NoMoreSteps(db);
      }
      return true;
    }

    /** The statements that create what is missing. */
    method CreateTables()
      modifies this
      ensures db.metadata && db.version.Some? && !db.table.Absent?
      ensures db.table == if old(db).table.Absent? then First([]) else old(db).table
      ensures old(db).metadata && old(db).version.Some? ==> db.version == old(db).version
      ensures writes + Steps(db) == old(writes) + Steps(old(db))
      ensures Consistent(old(db)) ==> Consistent(db)
    {
      hide KeyedTable, Steps;
      if !db.metadata {
        Advance(db, writes);
        Write(Database(true, None, db.table));
      }
      if db.version.None? {
        Advance(db, writes);
        Write(db.(version := Some(1)));
      }
      if db.table.Absent? {
        Advance(db, writes);
        Write(db.(table := First([])));
      }
    }

    /** Adding a column that is already there fails and rolls back. */
    method MigrateDeliveryQueue() returns (ok: bool)
      modifies this
      ensures ok == old(db.table.Second?)
      ensures db == if ok then Database(old(db.metadata), Some(3), Third(Upgraded(old(db.table)))) else old(db)
      ensures writes == if ok then old(writes) + [db] else old(writes)
    {
      if !db.table.Second? {
        return false;
      }
      var rows := db.table.prioritised;
      Write(Database(db.metadata, Some(3), Third(seq(|rows|, i requires 0 <= i < |rows| =>
        UpgradedRow(rows[i].legacy, rows[i].priority)))));
      return true;
    }

    /** Reads every row, works out its priority, then updates row by row. */
    method MigratePriorityQueue() returns (ok: bool)
      requires KeyedTable(db.table)
      modifies this
      ensures ok == old(db.table.First?)
      ensures db == if ok then Database(old(db.metadata), Some(2), Second(Prioritised(old(db.table.legacy)))) else old(db)
      ensures writes == if ok then old(writes) + [db] else old(writes)
    {
      if !db.table.First? {
        return false;
      }
      var legacy := db.table.legacy;
      KeyedLegacy(legacy);
      var rows := seq(|legacy|, i requires 0 <= i < |legacy| => PriorityRow(legacy[i], ROUTINE));
      var priorities: seq<LegacyPriority> := [];
      var next := 0;
      while next < |rows|
        invariant 0 <= next <= |rows| && |priorities| == next
        invariant forall i :: 0 <= i < next ==> priorities[i] == LegacyPriority(legacy[i].messageId, PriorityOf(legacy[i].blob))
      {
        var blob := rows[next].legacy.blob;
        var priority := if blob.Some? then PriorityForFrame(blob.value) else ROUTINE;
        priorities := priorities + [LegacyPriority(rows[next].legacy.messageId, priority)];
        next := next + 1;
      }
      var item := 0;
      while item < |priorities|
        invariant 0 <= item <= |priorities| && |rows| == |legacy|
        invariant forall i :: 0 <= i < |rows| ==> rows[i].legacy == legacy[i]
        invariant forall i :: 0 <= i < item ==> rows[i].priority == PriorityOf(legacy[i].blob)
      {
        rows := WithPriority(rows, priorities[item]);
        item := item + 1;
      }
      assert rows == Prioritised(legacy);
      Write(Database(db.metadata, Some(2), Second(rows)));
      return true;
    }
  }
}

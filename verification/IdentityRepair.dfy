/** `PostgresCompatConnection.execute` and `executemany` on a table with an identity column:
    savepoint, attempt, and on a primary-key violation rollback, sequence resync and retry, all
    inside the transaction that the connection's context commits or rolls back. */
module IdentityRepair {
  import opened Text

  datatype Entry = Entry(id: int, natural: Option<string>, payload: string)

  /** A row to insert: its id comes from the sequence or from the statement. `natural` is the
      value of a second unique constraint, for tables that have one. */
  datatype New = Auto(natural: Option<string>, payload: string)
               | Explicit(id: int, natural: Option<string>, payload: string)

  /** A table and the value its sequence hands out next. */
  datatype Db = Db(rows: seq<Entry>, next: int) {
    predicate Valid() {
      next >= 1 && Distinct(rows)
    }
  }

  predicate HasId(rows: seq<Entry>, id: int) {
    exists i :: 0 <= i < |rows| && rows[i].id == id
  }

  predicate HasNatural(rows: seq<Entry>, natural: Option<string>) {
    natural.Some? && exists i :: 0 <= i < |rows| && rows[i].natural == natural
  }

  predicate Distinct(rows: seq<Entry>) {
    forall i, j :: 0 <= i < j < |rows| ==>
      rows[i].id != rows[j].id && (rows[i].natural.Some? ==> rows[i].natural != rows[j].natural)
  }

  datatype Constraint = PrimaryKey | Other

  /** A violation undoes the rows but not the sequence: `nextval` is not transactional. */
  datatype Attempt = Inserted(db: Db) | Violated(constraint: Constraint, next: int)

  function IdFor(db: Db, row: New): int {
    if row.Auto? then db.next else row.id
  }

  function NextAfter(db: Db, row: New): int {
    if row.Auto? then db.next + 1 else db.next
  }

  function InsertOne(db: Db, row: New): Attempt {
    if HasId(db.rows, IdFor(db, row)) then Violated(PrimaryKey, NextAfter(db, row))
    else if HasNatural(db.rows, row.natural) then Violated(Other, NextAfter(db, row))
    else Inserted(Db(db.rows + [Entry(IdFor(db, row), row.natural, row.payload)], NextAfter(db, row)))
  }

  function InsertAll(db: Db, batch: seq<New>): Attempt
    decreases |batch|
  {
    if batch == [] then Inserted(db)
    else
      var one := InsertOne(db, batch[0]);
      if one.Violated? then one else InsertAll(one.db, batch[1..])
  }

  function MaxId(rows: seq<Entry>): int
    requires rows != []
  {
    if |rows| == 1 then rows[0].id
    else
      var m := MaxId(rows[..|rows| - 1]);
      if m > rows[|rows| - 1].id then m else rows[|rows| - 1].id
  }

  /** `COALESCE(MAX(id), 0) + 1`; a sequence refuses values below 1. */
  function Synced(rows: seq<Entry>): Option<int> {
    var next := if rows == [] then 1 else MaxId(rows) + 1;
    if next >= 1 then Some(next) else None
  }

  /** A statement that raises leaves its transaction failed; the sequence keeps what it handed out. */
  datatype Outcome = Succeeded(db: Db) | Raised(next: int)

  function Execute(db: Db, batch: seq<New>): Outcome {
    match InsertAll(db, batch)
    case Inserted(db') => Succeeded(db')
    case Violated(Other, next) => Raised(next)
    case Violated(PrimaryKey, next) =>
      match Synced(db.rows)
      case None => Raised(next)
      case Some(synced) =>
        match InsertAll(Db(db.rows, synced), batch)
        case Inserted(db') => Succeeded(db')
        case Violated(_, next') => Raised(next')
  }

  // ---------------------------------------------------------------- transactions

  /** A connection: the rows when its transaction began, the table as it sees it, and whether a
      statement of the transaction has raised. */
  datatype Session = Session(saved: seq<Entry>, db: Db, failed: bool) {
    predicate Valid() {
      db.Valid() && saved <= db.rows && (failed ==> db.rows == saved)
    }
  }

  datatype Step = Statement(batch: seq<New>) | Commit | Rollback

  /** In a failed transaction every statement raises, and a commit rolls back. */
  function Take(s: Session, step: Step): Session {
    match step
    case Statement(batch) =>
      if s.failed then s
      else
        (match Execute(s.db, batch)
         case Succeeded(db) => s.(db := db)
         case Raised(next) => Session(s.saved, Db(s.saved, next), true))
    case Commit => Session(s.db.rows, s.db, false)
    case Rollback => Session(s.saved, Db(s.saved, s.db.next), false)
  }

  /** The connection after any mix of statements, commits and rollbacks. */
  function Run(s: Session, steps: seq<Step>): Session {
    if steps == [] then s else Take(Run(s, steps[..|steps| - 1]), steps[|steps| - 1])
  }

  function Fresh(rows: seq<Entry>, next: int): Session {
    Session(rows, Db(rows, next), false)
  }

  // ---------------------------------------------------------------- the connection

  class Connection {
    var saved: seq<Entry>
    var rows: seq<Entry>
    var next: int
    var failed: bool

    function State(): Session
      reads this
    {
      Session(saved, Db(rows, next), failed)
    }

    constructor (rows: seq<Entry>, next: int)
      ensures State() == Fresh(rows, next)
    {
      this.saved, this.rows, this.next, this.failed := rows, rows, next, false;
    }

    /** The database running the statement once for each row, up to the first violation. */
    method RunStatement(batch: seq<New>) returns (violation: Option<Constraint>)
      modifies this`rows, this`next
      ensures match InsertAll(Db(old(rows), old(next)), batch)
              case Inserted(db) => violation.None? && Db(rows, next) == db
              case Violated(c, n) => violation == Some(c) && next == n
    {
      for i := 0 to |batch|
        invariant InsertAll(Db(rows, next), batch[i..]) == InsertAll(Db(old(rows), old(next)), batch)
      {
        var row := batch[i];
        assert batch[i..][1..] == batch[i + 1..];
        var id := if row.Auto? then next else row.id;
        if row.Auto? {
          next := next + 1;
        }
        if exists j :: 0 <= j < |rows| && rows[j].id == id {
          return Some(PrimaryKey);
        }
        if row.natural.Some? && exists j :: 0 <= j < |rows| && rows[j].natural == row.natural {
          return Some(Other);
        }
        rows := rows + [Entry(id, row.natural, row.payload)];
      }
      return None;
    }

    /** `_sync_sequence_for_identity`: the sequence stands just past the greatest id, or at 1 for an
        empty table; it cannot when every id is negative. */
    method SyncSequence() returns (ok: bool)
      modifies this`next
      ensures ok <==> rows == [] || exists i :: 0 <= i < |rows| && rows[i].id >= 0
      ensures ok ==> Healthy(Db(rows, next)) && if rows == [] then next == 1 else HasId(rows, next - 1)
      ensures !ok ==> next == old(next)
    {
      var value := if rows == [] then 1 else MaxId(rows) + 1;
      if rows != [] {
        MaxIdIsMax(rows);
      }
      ok := value >= 1;
      if ok {
        next := value;
      }
    }

    /** Both `execute` (one row) and `executemany`. Once a statement raised, every further one does,
        and the rows of the transaction are lost. */
    method ExecuteMany(batch: seq<New>) returns (raised: bool)
      requires State().Valid()
      modifies this
      ensures State() == Take(old(State()), Statement(batch)) && raised == failed
      ensures if raised then rows == old(saved) else Stored(old(rows), rows, batch)
    {
      if failed {
        return true;
      }
      ExecuteStores(Db(rows, next), batch);
      var savepoint := rows;
      var violation := RunStatement(batch);
      if violation.None? {
        return false;
      }
      rows := savepoint;
      raised := true;
      if violation == Some(PrimaryKey) {
        var ok := SyncSequence();
        SyncedIs(rows, next, ok);
        if ok {
          violation := RunStatement(batch);
          raised := violation.Some?;
        }
      }
      if raised {
        rows, failed := saved, true;
      }
    }

    method CommitAll()
      requires State().Valid()
      modifies this
      ensures State() == Take(old(State()), Commit)
    {
      if failed {
        rows := saved;
      }
      saved, failed := rows, false;
    }

    method RollbackAll()
      modifies this
      ensures State() == Take(old(State()), Rollback)
    {
      rows, failed := saved, false;
    }
  }

  /** What the resync promises is what the query computes. */
  lemma SyncedIs(rows: seq<Entry>, next: int, ok: bool)
    requires ok <==> rows == [] || exists i :: 0 <= i < |rows| && rows[i].id >= 0
    requires ok ==> Healthy(Db(rows, next)) && if rows == [] then next == 1 else HasId(rows, next - 1)
    ensures Synced(rows) == if ok then Some(next) else None
  {
    if rows != [] {
      MaxIdIsMax(rows);
    }
  }

  /** A statement's rows came after those of before, in order: each with its own unique value and
      payload, and with its own id if it names one. */
  predicate Stored(rows: seq<Entry>, rows': seq<Entry>, batch: seq<New>) {
    && rows <= rows' && |rows'| == |rows| + |batch|
    && forall k :: |rows| <= k < |rows'| ==> IsRowOf(rows'[k], batch[k - |rows|])
  }

  predicate IsRowOf(e: Entry, row: New) {
    e.natural == row.natural && e.payload == row.payload && (row.Explicit? ==> e.id == row.id)
  }

  lemma {:induction false} InsertAllStores(db: Db, batch: seq<New>)
    ensures InsertAll(db, batch).Inserted? ==> Stored(db.rows, InsertAll(db, batch).db.rows, batch)
    decreases |batch|
  {
    if batch != [] && InsertOne(db, batch[0]).Inserted? {
      var db' := InsertOne(db, batch[0]).db;
      InsertAllStores(db', batch[1..]);
      if InsertAll(db', batch[1..]).Inserted? {
        var rows' := InsertAll(db', batch[1..]).db.rows;
        forall k | |db.rows| <= k < |rows'| ensures IsRowOf(rows'[k], batch[k - |db.rows|]) {
          if k == |db.rows| {
            assert rows'[k] == db'.rows[k];
          } else {
            assert batch[1..][k - |db'.rows|] == batch[k - |db.rows|];
          }
        }
      }
    }
  }

  /** A statement that succeeds, repaired or not, leaves its rows and nothing else. */
  lemma ExecuteStores(db: Db, batch: seq<New>)
    ensures Execute(db, batch).Succeeded? ==> Stored(db.rows, Execute(db, batch).db.rows, batch)
  {
    InsertAllStores(db, batch);
    if Synced(db.rows).Some? {
      InsertAllStores(Db(db.rows, Synced(db.rows).value), batch);
    }
  }

  // ---------------------------------------------------------------- one statement

  predicate AllAuto(batch: seq<New>) {
    forall i :: 0 <= i < |batch| ==> batch[i].Auto?
  }

  /** The rows of a sequence-id batch numbered from `first`. */
  function Numbered(first: int, batch: seq<New>): seq<Entry>
    decreases |batch|
  {
    if batch == [] then []
    else [Entry(first, batch[0].natural, batch[0].payload)] + Numbered(first + 1, batch[1..])
  }

  /** The batch breaks no constraint but, possibly, the primary key. */
  predicate NaturalsFit(rows: seq<Entry>, batch: seq<New>)
    decreases |batch|
  {
    batch == [] ||
    (!HasNatural(rows, batch[0].natural) &&
     NaturalsFit(rows + [Entry(0, batch[0].natural, batch[0].payload)], batch[1..]))
  }

  predicate FreeFrom(rows: seq<Entry>, first: int, n: nat) {
    forall i :: 0 <= i < |rows| ==> !(first <= rows[i].id < first + n)
  }

  predicate SameNaturals(rows: seq<Entry>, rows': seq<Entry>) {
    |rows| == |rows'| && forall i :: 0 <= i < |rows| ==> rows[i].natural == rows'[i].natural
  }

  /** Only the natural values matter to `NaturalsFit`. */
  lemma {:induction false} NaturalsFitSame(rows: seq<Entry>, rows': seq<Entry>, batch: seq<New>)
    requires SameNaturals(rows, rows')
    ensures NaturalsFit(rows, batch) == NaturalsFit(rows', batch)
    decreases |batch|
  {
    if batch != [] {
      var e := Entry(0, batch[0].natural, batch[0].payload);
      assert HasNatural(rows, batch[0].natural) == HasNatural(rows', batch[0].natural);
      NaturalsFitSame(rows + [e], rows' + [e], batch[1..]);
    }
  }

  lemma NaturalsFitAfter(rows: seq<Entry>, id: int, batch: seq<New>)
    requires batch != []
    ensures NaturalsFit(rows, batch) <==>
            !HasNatural(rows, batch[0].natural) &&
            NaturalsFit(rows + [Entry(id, batch[0].natural, batch[0].payload)], batch[1..])
  {
    NaturalsFitSame(rows + [Entry(0, batch[0].natural, batch[0].payload)],
                    rows + [Entry(id, batch[0].natural, batch[0].payload)], batch[1..]);
  }

  /** An attempt whose ids are free inserts exactly its rows, numbered in order. */
  lemma {:induction false} FreeIdsInsert(db: Db, batch: seq<New>)
    requires AllAuto(batch) && NaturalsFit(db.rows, batch) && FreeFrom(db.rows, db.next, |batch|)
    ensures InsertAll(db, batch) == Inserted(Db(db.rows + Numbered(db.next, batch), db.next + |batch|))
    decreases |batch|
  {
    if batch == [] {
      assert db.rows + [] == db.rows;
    } else {
      NaturalsFitAfter(db.rows, db.next, batch);
      var e := Entry(db.next, batch[0].natural, batch[0].payload);
      FreeIdsInsert(Db(db.rows + [e], db.next + 1), batch[1..]);
      Assoc(db.rows, [e], Numbered(db.next + 1, batch[1..]));
    }
  }

  /** A sequence-id attempt fails only by reaching an id that is taken, and then the sequence
      stands just past that id. */
  lemma {:induction false} TakenIdFails(db: Db, batch: seq<New>)
    requires AllAuto(batch) && NaturalsFit(db.rows, batch)
    ensures InsertAll(db, batch).Violated? ==>
              && InsertAll(db, batch).constraint == PrimaryKey
              && db.next < InsertAll(db, batch).next
              && HasId(db.rows, InsertAll(db, batch).next - 1)
    decreases |batch|
  {
    if batch != [] && !HasId(db.rows, db.next) {
      NaturalsFitAfter(db.rows, db.next, batch);
      var e := Entry(db.next, batch[0].natural, batch[0].payload);
      var db' := Db(db.rows + [e], db.next + 1);
      TakenIdFails(db', batch[1..]);
      if InsertAll(db', batch[1..]).Violated? {
        var id := InsertAll(db', batch[1..]).next - 1;
        var i :| 0 <= i < |db'.rows| && db'.rows[i].id == id;
        assert db'.rows[i] == db.rows[i];
      }
    }
  }

  lemma {:induction false} InsertedFits(db: Db, batch: seq<New>)
    requires InsertAll(db, batch).Inserted?
    ensures NaturalsFit(db.rows, batch)
    decreases |batch|
  {
    if batch != [] {
      InsertedFits(InsertOne(db, batch[0]).db, batch[1..]);
      NaturalsFitAfter(db.rows, IdFor(db, batch[0]), batch);
    }
  }

  lemma {:induction false} MaxIdIsMax(rows: seq<Entry>)
    requires rows != []
    ensures forall i :: 0 <= i < |rows| ==> rows[i].id <= MaxId(rows)
    ensures HasId(rows, MaxId(rows))
  {
    if |rows| > 1 {
      MaxIdIsMax(rows[..|rows| - 1]);
      assert forall i :: 0 <= i < |rows| - 1 ==> rows[..|rows| - 1][i] == rows[i];
    }
  }

  /** The ids that a committed sequence-id batch got. */
  function FirstId(db: Db, batch: seq<New>): int {
    if InsertAll(db, batch).Inserted? then db.next
    else if db.rows == [] then 1 else MaxId(db.rows) + 1
  }

  lemma AboveMax(rows: seq<Entry>, id: int, n: nat)
    requires HasId(rows, id)
    ensures rows != [] && id <= MaxId(rows) && FreeFrom(rows, MaxId(rows) + 1, n)
  {
    MaxIdIsMax(rows);
  }

  lemma RepairSucceeds(db: Db, batch: seq<New>)
    requires db.Valid() && AllAuto(batch) && NaturalsFit(db.rows, batch) && InsertAll(db, batch).Violated?
    ensures var first := FirstId(db, batch);
            && first > db.next
            && FreeFrom(db.rows, first, |batch|)
            && Execute(db, batch) == Succeeded(Db(db.rows + Numbered(first, batch), first + |batch|))
  {
    TakenIdFails(db, batch);
    SyncedAbove(db, batch, InsertAll(db, batch).next - 1);
    RetrySucceeds(db, batch, FirstId(db, batch));
  }

  lemma SyncedAbove(db: Db, batch: seq<New>, id: int)
    requires db.Valid() && InsertAll(db, batch).Violated? && HasId(db.rows, id) && id >= db.next
    ensures var first := FirstId(db, batch);
            first > db.next && FreeFrom(db.rows, first, |batch|) && Synced(db.rows) == Some(first)
  {
    AboveMax(db.rows, id, |batch|);
  }

  lemma RetrySucceeds(db: Db, batch: seq<New>, synced: int)
    requires AllAuto(batch) && NaturalsFit(db.rows, batch) && FreeFrom(db.rows, synced, |batch|)
    requires InsertAll(db, batch).Violated? && InsertAll(db, batch).constraint == PrimaryKey
    requires Synced(db.rows) == Some(synced)
    ensures Execute(db, batch) == Succeeded(Db(db.rows + Numbered(synced, batch), synced + |batch|))
  {
    FreeIdsInsert(Db(db.rows, synced), batch);
  }

  lemma FittingBatchSucceeds(db: Db, batch: seq<New>)
    requires db.Valid() && AllAuto(batch) && NaturalsFit(db.rows, batch)
    ensures var first := FirstId(db, batch);
            && first >= db.next
            && FreeFrom(db.rows, first, |batch|)
            && Execute(db, batch) == Succeeded(Db(db.rows + Numbered(first, batch), first + |batch|))
  {
    if InsertAll(db, batch).Inserted? {
      InsertedIsFree(db, batch);
      FreeIdsInsert(db, batch);
    } else {
      RepairSucceeds(db, batch);
    }
  }

  /** However far the sequence has drifted, a batch of sequence-id rows is committed, after at most
      one repair, if and only if its other unique values fit; it then adds exactly its rows, in
      order, under consecutive ids that no row had, changes no existing row, and leaves the
      sequence past them. */
  lemma SequenceInsertSucceedsIff(db: Db, batch: seq<New>)
    requires db.Valid() && AllAuto(batch)
    ensures Execute(db, batch).Succeeded? <==> NaturalsFit(db.rows, batch)
    ensures Execute(db, batch).Succeeded? ==>
              var first := FirstId(db, batch);
              && first >= db.next
              && FreeFrom(db.rows, first, |batch|)
              && Execute(db, batch).db == Db(db.rows + Numbered(first, batch), first + |batch|)
  {
    if NaturalsFit(db.rows, batch) {
      FittingBatchSucceeds(db, batch);
    } else if InsertAll(db, batch).Inserted? {
      InsertedFits(db, batch);
    } else if Synced(db.rows).Some? && InsertAll(Db(db.rows, Synced(db.rows).value), batch).Inserted? {
      InsertedFits(Db(db.rows, Synced(db.rows).value), batch);
    }
  }

  lemma {:induction false} InsertedIsFree(db: Db, batch: seq<New>)
    requires AllAuto(batch) && InsertAll(db, batch).Inserted?
    ensures FreeFrom(db.rows, db.next, |batch|)
    decreases |batch|
  {
    if batch != [] {
      var db' := InsertOne(db, batch[0]).db;
      InsertedIsFree(db', batch[1..]);
      forall i | 0 <= i < |db.rows| ensures !(db.next <= db.rows[i].id < db.next + |batch|) {
        assert db'.rows[i] == db.rows[i];
      }
    }
  }

  /** The sequence is past every id: no sequence-id insert can collide. */
  predicate Healthy(db: Db) {
    forall i :: 0 <= i < |db.rows| ==> db.rows[i].id < db.next
  }

  /** From a healthy sequence no repair is needed, and a committed batch leaves it healthy: one
      repair lasts until the next explicit id. */
  lemma HealthyNeedsNoRepair(db: Db, batch: seq<New>)
    requires db.Valid() && AllAuto(batch) && Healthy(db) && NaturalsFit(db.rows, batch)
    ensures InsertAll(db, batch).Inserted? && Execute(db, batch) == Succeeded(InsertAll(db, batch).db)
    ensures Healthy(InsertAll(db, batch).db)
  {
    FreeIdsInsert(db, batch);
    NumberedIds(db.next, batch);
  }

  /** The rows of a batch under consecutive ids: each has its own unique values and payload. */
  lemma {:induction false} NumberedIds(first: int, batch: seq<New>)
    ensures |Numbered(first, batch)| == |batch|
    ensures forall i :: 0 <= i < |batch| ==>
              var row := Numbered(first, batch)[i];
              row.id == first + i && row.natural == batch[i].natural && row.payload == batch[i].payload
    decreases |batch|
  {
    if batch != [] {
      NumberedIds(first + 1, batch[1..]);
    }
  }

  /** A repair leaves the sequence healthy. */
  lemma RepairHeals(db: Db, batch: seq<New>)
    requires db.Valid() && AllAuto(batch) && NaturalsFit(db.rows, batch) && InsertAll(db, batch).Violated?
    ensures Execute(db, batch).Succeeded? && Healthy(Execute(db, batch).db)
  {
    SequenceInsertSucceedsIff(db, batch);
    TakenIdFails(db, batch);
    MaxIdIsMax(db.rows);
    NumberedIds(FirstId(db, batch), batch);
  }

  /** An explicit id that is taken always raises, repair or not. */
  lemma TakenExplicitIdRaises(db: Db, row: New)
    requires row.Explicit? && HasId(db.rows, row.id)
    ensures Execute(db, [row]).Raised?
  {
  }

  // ---------------------------------------------------------------- runs

  lemma {:induction false} InsertAllAppends(db: Db, batch: seq<New>)
    requires db.Valid() && InsertAll(db, batch).Inserted?
    ensures InsertAll(db, batch).db.Valid() && db.rows <= InsertAll(db, batch).db.rows
    decreases |batch|
  {
    if batch != [] {
      InsertAllAppends(InsertOne(db, batch[0]).db, batch[1..]);
    }
  }

  lemma {:induction false} InsertAllKeepsNext(db: Db, batch: seq<New>)
    ensures InsertAll(db, batch).Violated? ==> InsertAll(db, batch).next >= db.next
    decreases |batch|
  {
    if batch != [] && InsertOne(db, batch[0]).Inserted? {
      InsertAllKeepsNext(InsertOne(db, batch[0]).db, batch[1..]);
    }
  }

  lemma ExecuteAppends(db: Db, batch: seq<New>)
    requires db.Valid()
    ensures match Execute(db, batch)
            case Succeeded(db') => db'.Valid() && db.rows <= db'.rows
            case Raised(next) => next >= 1
  {
    InsertAllKeepsNext(db, batch);
    if InsertAll(db, batch).Inserted? {
      InsertAllAppends(db, batch);
    } else if Synced(db.rows).Some? {
      var db' := Db(db.rows, Synced(db.rows).value);
      InsertAllKeepsNext(db', batch);
      if InsertAll(db', batch).Inserted? {
        InsertAllAppends(db', batch);
      }
    }
  }

  lemma DistinctPrefix(rows: seq<Entry>, all: seq<Entry>)
    requires Distinct(all) && rows <= all
    ensures Distinct(rows)
  {
    assert forall i :: 0 <= i < |rows| ==> rows[i] == all[i];
  }

  lemma TakeKeeps(s: Session, step: Step)
    requires s.Valid()
    ensures Take(s, step).Valid() && s.saved <= Take(s, step).saved
  {
    DistinctPrefix(s.saved, s.db.rows);
    if step.Statement? {
      ExecuteAppends(s.db, step.batch);
    }
  }

  /** Over any mix of explicit-id and sequence-id statements, raises, commits and rollbacks: ids stay
      unique, and the rows committed at any moment are still there, unchanged and in place, at
      every later one. */
  lemma {:induction false} RunAppends(s: Session, steps: seq<Step>, k: nat)
    requires s.Valid() && k <= |steps|
    ensures Run(s, steps).Valid()
    ensures Run(s, steps[..k]).saved <= Run(s, steps).saved <= Run(s, steps).db.rows
  {
    if steps != [] {
      var n := |steps| - 1;
      RunAppends(s, steps[..n], if k <= n then k else n);
      TakeKeeps(Run(s, steps[..n]), steps[n]);
      if k <= n {
        assert steps[..n][..k] == steps[..k];
      } else {
        assert steps[..k] == steps;
      }
    }
  }

  /** After any run, a sequence-id batch whose other unique values fit succeeds, unless its
      transaction has failed, under ids that no row it sees and no row committed at any moment has. */
  lemma RunThenSequenceInsert(s: Session, steps: seq<Step>, batch: seq<New>, k: nat)
    requires s.Valid() && k <= |steps| && AllAuto(batch)
    requires !Run(s, steps).failed && NaturalsFit(Run(s, steps).db.rows, batch)
    ensures var now := Run(s, steps);
            var first := FirstId(now.db, batch);
            && Take(now, Statement(batch)) == now.(db := Db(now.db.rows + Numbered(first, batch), first + |batch|))
            && FreeFrom(now.db.rows, first, |batch|)
            && FreeFrom(Run(s, steps[..k]).saved, first, |batch|)
  {
    RunAppends(s, steps, k);
    var now := Run(s, steps);
    FittingSucceeds(now, batch);
    FreeBefore(Run(s, steps[..k]).saved, now.db.rows, FirstId(now.db, batch), |batch|);
  }

  lemma FittingSucceeds(s: Session, batch: seq<New>)
    requires s.Valid() && !s.failed && AllAuto(batch) && NaturalsFit(s.db.rows, batch)
    ensures var first := FirstId(s.db, batch);
            && Take(s, Statement(batch)) == s.(db := Db(s.db.rows + Numbered(first, batch), first + |batch|))
            && FreeFrom(s.db.rows, first, |batch|)
  {
    SequenceInsertSucceedsIff(s.db, batch);
  }

  lemma FreeBefore(was: seq<Entry>, now: seq<Entry>, first: int, n: nat)
    requires was <= now && FreeFrom(now, first, n)
    ensures FreeFrom(was, first, n)
  {
    assert forall i :: 0 <= i < |was| ==> was[i] == now[i];
  }

  // ---------------------------------------------------------------- ids that come again

  /** Some row had the id at some moment of the run, committed or not. */
  predicate Seen(s: Session, steps: seq<Step>, id: int) {
    exists k :: 0 <= k <= |steps| && HasId(Run(s, steps[..k]).db.rows, id)
  }

  /** A fitting sequence-id batch gives a row the id. */
  predicate Gives(db: Db, batch: seq<New>, id: int) {
    AllAuto(batch) && NaturalsFit(db.rows, batch) && FirstId(db, batch) <= id < FirstId(db, batch) + |batch|
  }

  /** The sequence reaches the id before any id that is taken, or a repair makes it start over below
      it: there is a taken id at or past the next value, and none at or past this one. */
  predicate Ahead(db: Db, id: int) {
    || (db.next <= id && forall i :: 0 <= i < |db.rows| ==> !(db.next <= db.rows[i].id <= id))
    || (!Healthy(db) && forall i :: 0 <= i < |db.rows| ==> db.rows[i].id < id)
  }

  /** `n` rows without other unique values. */
  function Autos(n: nat): (r: seq<New>)
    ensures |r| == n
  {
    if n == 0 then [] else [Auto(None, [])] + Autos(n - 1)
  }

  lemma {:induction false} AutosFit(rows: seq<Entry>, n: nat)
    ensures AllAuto(Autos(n)) && NaturalsFit(rows, Autos(n))
    decreases n
  {
    if n > 0 {
      AutosFit(rows + [Entry(0, None, [])], n - 1);
      assert Autos(n)[1..] == Autos(n - 1);
    }
  }

  lemma GivenIsAhead(db: Db, batch: seq<New>, id: int)
    requires db.Valid() && Gives(db, batch, id)
    ensures Ahead(db, id)
  {
    if InsertAll(db, batch).Inserted? {
      InsertedIsFree(db, batch);
    } else {
      TakenIdFails(db, batch);
      var taken := InsertAll(db, batch).next - 1;
      AboveMax(db.rows, taken, |batch|);
      MaxIdIsMax(db.rows);
      assert !Healthy(db);
    }
  }

  lemma TakenIsReached(db: Db, batch: seq<New>, i: nat)
    requires AllAuto(batch) && i < |db.rows| && db.next <= db.rows[i].id < db.next + |batch|
    ensures InsertAll(db, batch).Violated?
  {
    if InsertAll(db, batch).Inserted? {
      InsertedIsFree(db, batch);
      assert false;
    }
  }

  lemma AheadIsGiven(db: Db, id: int) returns (batch: seq<New>)
    requires db.Valid() && Ahead(db, id)
    ensures Gives(db, batch, id)
  {
    if db.next <= id && forall i :: 0 <= i < |db.rows| ==> !(db.next <= db.rows[i].id <= id) {
      batch := Autos(id - db.next + 1);
      AutosFit(db.rows, |batch|);
      FreeIdsInsert(db, batch);
    } else {
      var i :| 0 <= i < |db.rows| && db.rows[i].id >= db.next;
      MaxIdIsMax(db.rows);
      batch := Autos(id - db.next + 1);
      AutosFit(db.rows, |batch|);
      TakenIsReached(db, batch, i);
    }
  }

  /** After any run, no id that a row had at any moment, committed or not, can come again for a
      sequence-id row if and only if none of them is ahead of the sequence. */
  lemma NoIdComesAgainIff(s: Session, steps: seq<Step>)
    requires s.Valid()
    ensures (forall batch, id :: Gives(Run(s, steps).db, batch, id) ==> !Seen(s, steps, id)) <==>
            (forall id :: Seen(s, steps, id) ==> !Ahead(Run(s, steps).db, id))
  {
    RunAppends(s, steps, 0);
    var db := Run(s, steps).db;
    forall batch, id | Gives(db, batch, id) ensures Ahead(db, id) {
      GivenIsAhead(db, batch, id);
    }
    forall id | Ahead(db, id) ensures exists batch :: Gives(db, batch, id) {
      var batch := AheadIsGiven(db, id);
    }
  }

  /** No statement names its ids. */
  predicate SequenceOnly(steps: seq<Step>) {
    forall i :: 0 <= i < |steps| && steps[i].Statement? ==> AllAuto(steps[i].batch)
  }

  /** Behind the sequence for good: below its next value, or the id of a committed row. */
  predicate Behind(s: Session, id: int) {
    id < s.db.next || HasId(s.saved, id)
  }

  ghost predicate AllBehind(s: Session) {
    forall i :: 0 <= i < |s.db.rows| ==> Behind(s, s.db.rows[i].id)
  }

  lemma {:induction false} AutoMovesNext(db: Db, batch: seq<New>)
    requires AllAuto(batch)
    ensures match InsertAll(db, batch)
            case Inserted(db') => db' == Db(db.rows + Numbered(db.next, batch), db.next + |batch|)
            case Violated(c, next) => next > db.next && (c == PrimaryKey ==> HasIdFrom(db, next - 1))
    decreases |batch|
  {
    if batch == [] {
      assert db.rows + [] == db.rows;
    } else if InsertOne(db, batch[0]).Inserted? {
      var e := Entry(db.next, batch[0].natural, batch[0].payload);
      var db' := Db(db.rows + [e], db.next + 1);
      AutoMovesNext(db', batch[1..]);
      Assoc(db.rows, [e], Numbered(db.next + 1, batch[1..]));
      if InsertAll(db', batch[1..]).Violated? && InsertAll(db', batch[1..]).constraint == PrimaryKey {
        var id := InsertAll(db', batch[1..]).next - 1;
        var i :| 0 <= i < |db'.rows| && db'.rows[i].id == id;
        assert db'.rows[i] == db.rows[i];
      }
    }
  }

  predicate HasIdFrom(db: Db, id: int) {
    id >= db.next && HasId(db.rows, id)
  }

  /** A sequence-id statement never moves the sequence back, and its rows end up behind it. */
  lemma AutoExecute(db: Db, batch: seq<New>)
    requires db.Valid() && AllAuto(batch)
    ensures match Execute(db, batch)
            case Succeeded(db') =>
              db'.next >= db.next && forall i :: |db.rows| <= i < |db'.rows| ==> db'.rows[i].id < db'.next
            case Raised(next) => next >= db.next
  {
    AutoMovesNext(db, batch);
    NumberedIds(db.next, batch);
    var first := InsertAll(db, batch);
    if first.Violated? && first.constraint == PrimaryKey && Synced(db.rows).Some? {
      MaxIdIsMax(db.rows);
      var i :| 0 <= i < |db.rows| && db.rows[i].id == first.next - 1;
      var synced := Synced(db.rows).value;
      AutoMovesNext(Db(db.rows, synced), batch);
      NumberedIds(synced, batch);
    }
  }

  lemma {:induction false} HasIdLater(rows: seq<Entry>, more: seq<Entry>, id: int)
    requires rows <= more && HasId(rows, id)
    ensures HasId(more, id)
  {
    var i :| 0 <= i < |rows| && rows[i].id == id;
    assert more[i] == rows[i];
  }

  lemma TakeStaysBehind(s: Session, step: Step)
    requires s.Valid() && AllBehind(s) && (step.Statement? ==> AllAuto(step.batch))
    ensures AllBehind(Take(s, step))
    ensures forall id :: Behind(s, id) ==> Behind(Take(s, step), id)
  {
    TakeKeeps(s, step);
    var s' := Take(s, step);
    if step.Statement? {
      AutoExecute(s.db, step.batch);
      ExecuteAppends(s.db, step.batch);
    }
    forall id | Behind(s, id) ensures Behind(s', id) {
      if HasId(s.saved, id) {
        HasIdLater(s.saved, s'.saved, id);
      }
    }
    forall i | 0 <= i < |s'.db.rows| ensures Behind(s', s'.db.rows[i].id) {
      if i < |s.db.rows| && s'.db.rows[i] == s.db.rows[i] {
        assert Behind(s, s.db.rows[i].id);
      } else if step.Rollback? || s'.failed {
        assert HasId(s'.saved, s'.saved[i].id);
      }
    }
  }

  /** In a run without explicit ids no id ever comes again, whatever was rolled back and however far
      the sequence had drifted before. */
  lemma {:induction false} SequenceOnlyStaysBehind(s: Session, steps: seq<Step>, id: int)
    requires s.Valid() && s.saved == s.db.rows && SequenceOnly(steps)
    ensures AllBehind(Run(s, steps)) && Run(s, steps).Valid()
    ensures Seen(s, steps, id) ==> Behind(Run(s, steps), id)
  {
    if steps == [] {
      forall i | 0 <= i < |s.db.rows| ensures Behind(s, s.db.rows[i].id) {
        assert HasId(s.saved, s.db.rows[i].id);
      }
    } else {
      var n := |steps| - 1;
      SequenceOnlyStaysBehind(s, steps[..n], id);
      TakeStaysBehind(Run(s, steps[..n]), steps[n]);
      TakeKeeps(Run(s, steps[..n]), steps[n]);
      if Seen(s, steps, id) {
        var k :| 0 <= k <= |steps| && HasId(Run(s, steps[..k]).db.rows, id);
        if k <= n {
          assert steps[..n][..k] == steps[..k];
          assert Seen(s, steps[..n], id);
        } else {
          assert steps[..k] == steps;
        }
      }
    }
  }

  lemma SequenceOnlyNeverReuses(s: Session, steps: seq<Step>, batch: seq<New>, id: int)
    requires s.Valid() && s.saved == s.db.rows && SequenceOnly(steps)
    requires Gives(Run(s, steps).db, batch, id)
    ensures !Seen(s, steps, id)
  {
    SequenceOnlyStaysBehind(s, steps, id);
    var now := Run(s, steps);
    GivenIsAhead(now.db, batch, id);
    if HasId(now.saved, id) {
      HasIdLater(now.saved, now.db.rows, id);
    }
  }

  /** One transaction that gives an explicit id twice loses its first row with the second, although
      the failed repair has moved the sequence past it. */
  lemma RaiseLosesEarlierRows()
    ensures var five := Statement([Explicit(5, None, [])]);
            && Run(Fresh([], 1), [five]) == Session([], Db([Entry(5, None, [])], 1), false)
            && Run(Fresh([], 1), [five, five]) == Session([], Db([], 6), true)
  {
    var one := Statement([Explicit(5, None, [])]);
    assert [one, one][..1] == [one] && [one][..0] == [];
    assert [Explicit(5, None, [])][1..] == [];
    var e := Entry(5, None, []);
    assert [] + [e] == [e];
    assert Take(Fresh([], 1), one) == Session([], Db([e], 1), false);
    assert Run(Fresh([], 1), [one]) == Take(Fresh([], 1), one);
    assert HasId([e], 5) by {
      assert [e][0].id == 5;
    }
    assert Synced([e]) == Some(6);
    assert Execute(Db([e], 1), one.batch) == Raised(6);
  }

  /** An id does come again: an explicit one, rolled back, when the sequence had not reached it. */
  lemma LostIdComesAgain()
    ensures var steps := [Statement([Explicit(5, None, [])]), Rollback];
            Seen(Fresh([], 1), steps, 5) && Gives(Run(Fresh([], 1), steps).db, Autos(5), 5)
  {
    RaiseLosesEarlierRows();
    var one := Statement([Explicit(5, None, [])]);
    var steps := [one, Rollback];
    assert steps[..1] == [one];
    assert HasId(Run(Fresh([], 1), steps[..1]).db.rows, 5) by {
      assert Run(Fresh([], 1), [one]).db.rows[0].id == 5;
    }
    assert Run(Fresh([], 1), steps).db == Db([], 1);
    AutosFit([], 5);
    FreeIdsInsert(Db([], 1), Autos(5));
  }
}

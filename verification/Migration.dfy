/**
 Opening the forge database: tables are created when missing, columns added when missing, and the checkpoints table is
 rebuilt in one transaction to exchange its legacy unique constraint. The process may die after any statement.
 */
module Migration {

  datatype TableName = Specs | Hypotheses | Checkpoints | SessionLearns | Approaches | Verifications

  datatype Column =
    | Id | CreatedAt | TaskDescription | TaskType | AcceptanceCriteria | InterfaceContract | EdgeCases | FilesToTouch
    | Dependencies | Status | CompletedAt | StatusNote | BugDescription | Hypothesis | Confidence | Outcome
    | OutcomeNotes | VerifiedAt | SpecId | Name | GitRef | FilesSnapshot | Description | SliceIndex | RepoRoot
    | Discovery | Context | Tags
    | Pros | Cons | Score | Chosen | Command | ExitCode | Success | DurationMs | CriteriaIndex | Stdout | Stderr

  datatype Cell = Null | Value(text: string)

  type Row = map<Column, Cell>

  /** Columns, rows, and the columns of the UNIQUE constraint beside the primary key, none when empty. */
  datatype Table = Table(columns: set<Column>, rows: seq<Row>, unique: set<Column>)

  type Db = map<TableName, Table>

  /** The columns every release has had. */
  function Base(t: TableName): set<Column> {
    match t
    case Specs =>
      {Id, CreatedAt, TaskDescription, TaskType, AcceptanceCriteria, InterfaceContract, EdgeCases, FilesToTouch,
       Dependencies, Status}
    case Hypotheses => {Id, CreatedAt, BugDescription, Hypothesis, Confidence, Outcome, OutcomeNotes, VerifiedAt}
    case Checkpoints => {Id, Name, CreatedAt, GitRef, FilesSnapshot, Description}
    case SessionLearns => {Id, CreatedAt, Discovery, Context, Tags}
    case Approaches => {Id, SpecId, CreatedAt, Name, Description, Pros, Cons, Score, Chosen}
    case Verifications => {Id, SpecId, CreatedAt, Command, ExitCode, Success, DurationMs, CriteriaIndex, Stdout, Stderr}
  }

  /** The columns migrations bring in. */
  function Added(t: TableName): set<Column> {
    match t
    case Specs => {CompletedAt, StatusNote}
    case Hypotheses => {SpecId}
    case Checkpoints => {SpecId, SliceIndex, RepoRoot}
    case SessionLearns => {SpecId}
    case _ => {}
  }

  function Full(t: TableName): set<Column> {
    Base(t) + Added(t)
  }

  function UniqueOf(t: TableName): set<Column> {
    if t == Checkpoints then {RepoRoot, Name} else {}
  }

  /** SQLite's rule: two rows clash only when they agree on the constraint and none of its cells is null. */
  predicate Clash(unique: set<Column>, a: Row, b: Row) {
    unique != {} && forall c :: c in unique ==> c in a && c in b && a[c] == b[c] && a[c] != Null
  }

  ghost predicate Satisfied(t: Table) {
    forall i, j :: 0 <= i < j < |t.rows| ==> !Clash(t.unique, t.rows[i], t.rows[j])
  }

  /** A table of some release: base columns, any subset of the migrated ones, and the constraint that goes with them. */
  ghost predicate OlderTable(name: TableName, t: Table) {
    && Base(name) <= t.columns <= Full(name)
    && (forall i :: 0 <= i < |t.rows| ==> t.rows[i].Keys == t.columns)
    && Satisfied(t)
    && (if name == Checkpoints then
          (if RepoRoot in t.columns then t.unique == {RepoRoot, Name} else RepoRoot !in t.unique)
        else t.unique == {})
  }

  ghost predicate Older(db: Db) {
    forall name :: name in db ==> OlderTable(name, db[name])
  }

  // ----- statements

  datatype Statement =
    CreateIfMissing(table: TableName) | AddIfMissing(table: TableName, column: Column) | RebuildCheckpoints

  /** A row with the columns it lacks set to null. */
  function Padded(row: Row, columns: set<Column>): (r: Row)
    ensures r.Keys == columns
  {
    map c | c in columns :: if c in row then row[c] else Null
  }

  function PadAll(rows: seq<Row>, columns: set<Column>): (r: seq<Row>)
    ensures |r| == |rows| && forall i :: 0 <= i < |rows| ==> r[i] == Padded(rows[i], columns)
  {
    seq(|rows|, i requires 0 <= i < |rows| => Padded(rows[i], columns))
  }

  predicate HasColumn(db: Db, t: TableName, c: Column) {
    t in db && c in db[t].columns
  }

  function CreateTable(db: Db, t: TableName): Db {
    db[t := Table(Full(t), [], UniqueOf(t))]
  }

  /** `ALTER TABLE ... ADD COLUMN`: null in every existing row. */
  function AddColumn(db: Db, t: TableName, c: Column): Db
    requires t in db
  {
    db[t := Table(db[t].columns + {c}, PadAll(db[t].rows, db[t].columns + {c}), db[t].unique)]
  }

  /** Rename, create, copy, drop, commit: the rows move to a table scoped by repository, their scope null. */
  function Rebuild(db: Db): Db
    requires Checkpoints in db
  {
    db[Checkpoints := Table(Full(Checkpoints), PadAll(db[Checkpoints].rows, Full(Checkpoints)), UniqueOf(Checkpoints))]
  }

  /** One statement and its guard. A statement whose table or source columns are missing fails and changes nothing. */
  function Apply(s: Statement, db: Db): Db {
    match s
    case CreateIfMissing(t) => if t in db then db else CreateTable(db, t)
    case AddIfMissing(t, c) => if t !in db || HasColumn(db, t, c) then db else AddColumn(db, t, c)
    case RebuildCheckpoints =>
      if || Checkpoints !in db || HasColumn(db, Checkpoints, RepoRoot)
         || !(Full(Checkpoints) - {RepoRoot} <= db[Checkpoints].columns) then db
      else Rebuild(db)
  }

  /** The statements of `init_schema` and `migrate`, in order. */
  const PROGRAM: seq<Statement> :=
    [CreateIfMissing(Specs), CreateIfMissing(Hypotheses), CreateIfMissing(Checkpoints), CreateIfMissing(SessionLearns),
     CreateIfMissing(Approaches), CreateIfMissing(Verifications),
     AddIfMissing(Hypotheses, SpecId), AddIfMissing(SessionLearns, SpecId), AddIfMissing(Specs, CompletedAt),
     AddIfMissing(Specs, StatusNote), AddIfMissing(Checkpoints, SpecId), AddIfMissing(Checkpoints, SliceIndex),
     RebuildCheckpoints]

  /** The database after the first `n` statements of a program. */
  function After(program: seq<Statement>, db: Db): (r: Db)
  {
    if program == [] then db else Apply(program[|program| - 1], After(program[..|program| - 1], db))
  }

  function Prefix(n: nat): seq<Statement> {
    if n < |PROGRAM| then PROGRAM[..n] else PROGRAM
  }

  /** An open that dies after `n` statements; it completes when `n` covers the program. */
  function Open(db: Db, n: nat): Db {
    After(Prefix(n), db)
  }

  function Complete(db: Db): Db {
    After(PROGRAM, db)
  }

  /** Any number of opens, each dying where it dies. */
  function Opens(db: Db, deaths: seq<nat>): (r: Db)
  {
    if deaths == [] then db else Open(Opens(db, deaths[..|deaths| - 1]), deaths[|deaths| - 1])
  }

  // ----- the statements as the code runs them

  class Database {
    var tables: Db
    /** Statements that still take effect before the process dies. */
    var alive: nat

    constructor (tables: Db, alive: nat)
      ensures this.tables == tables && this.alive == alive
    {
      this.tables := tables;
      this.alive := alive;
    }

    method Execute(s: Statement, ghost start: Db, ghost limit: nat, ghost k: nat)
      requires k < |PROGRAM| && PROGRAM[k] == s
      requires tables == Open(start, if k < limit then k else limit) && alive == if k < limit then limit - k else 0
      modifies this
      ensures tables == Open(start, if k + 1 < limit then k + 1 else limit)
      ensures alive == if k + 1 < limit then limit - (k + 1) else 0
    {
      hide Full, Base, Added, UniqueOf, CreateTable, AddColumn, Rebuild;
      if alive == 0 {
        return;
      }
      alive := alive - 1;
      assert Prefix(k + 1)[..k] == Prefix(k) && Prefix(k + 1)[k] == s;
      match s {
        case CreateIfMissing(t) =>
          if t !in tables {
            tables := CreateTable(tables, t);
          }
        case AddIfMissing(t, c) =>
          if t in tables && !HasColumn(tables, t, c) {
            tables := AddColumn(tables, t, c);
          }
        case RebuildCheckpoints =>
          if && Checkpoints in tables && !HasColumn(tables, Checkpoints, RepoRoot)
             && Full(Checkpoints) - {RepoRoot} <= tables[Checkpoints].columns {
            tables := Rebuild(tables);
          }
      }
    }

    /** The table definitions of `init_schema`. */
    method CreateTables(ghost start: Db, ghost limit: nat)
      requires tables == start && alive == limit
      modifies this
      ensures tables == Open(start, if 6 < limit then 6 else limit)
      ensures alive == if 6 < limit then limit - 6 else 0
    {
      hide Open, PROGRAM;
      ProgramText();
      NothingYet(start);
      Execute(CreateIfMissing(Specs), start, limit, 0);
      Execute(CreateIfMissing(Hypotheses), start, limit, 1);
      Execute(CreateIfMissing(Checkpoints), start, limit, 2);
      Execute(CreateIfMissing(SessionLearns), start, limit, 3);
      Execute(CreateIfMissing(Approaches), start, limit, 4);
      Execute(CreateIfMissing(Verifications), start, limit, 5);
    }

    /** `migrate`. */
    method Migrate(ghost start: Db, ghost limit: nat)
      requires tables == Open(start, if 6 < limit then 6 else limit)
      requires alive == if 6 < limit then limit - 6 else 0
      modifies this
      ensures tables == Open(start, if 13 < limit then 13 else limit)
    {
      hide Open, PROGRAM;
      ProgramText();
      Execute(AddIfMissing(Hypotheses, SpecId), start, limit, 6);
      Execute(AddIfMissing(SessionLearns, SpecId), start, limit, 7);
      Execute(AddIfMissing(Specs, CompletedAt), start, limit, 8);
      Execute(AddIfMissing(Specs, StatusNote), start, limit, 9);
      Execute(AddIfMissing(Checkpoints, SpecId), start, limit, 10);
      Execute(AddIfMissing(Checkpoints, SliceIndex), start, limit, 11);
      Execute(RebuildCheckpoints, start, limit, 12);
    }

    /** `init_schema`, dying after `alive` statements. */
    method InitSchema()
      modifies this
      ensures tables == Open(old(tables), old(alive))
    {
      hide Open;
      ghost var start, limit := tables, alive;
      CreateTables(start, limit);
      Migrate(start, limit);
      if 13 <= limit { BeyondTheEnd(start, limit); }
    }
  }

  lemma ProgramText()
    ensures |PROGRAM| == 13
    ensures PROGRAM[0] == CreateIfMissing(Specs) && PROGRAM[1] == CreateIfMissing(Hypotheses)
    ensures PROGRAM[2] == CreateIfMissing(Checkpoints) && PROGRAM[3] == CreateIfMissing(SessionLearns)
    ensures PROGRAM[4] == CreateIfMissing(Approaches) && PROGRAM[5] == CreateIfMissing(Verifications)
    ensures PROGRAM[6] == AddIfMissing(Hypotheses, SpecId) && PROGRAM[7] == AddIfMissing(SessionLearns, SpecId)
    ensures PROGRAM[8] == AddIfMissing(Specs, CompletedAt) && PROGRAM[9] == AddIfMissing(Specs, StatusNote)
    ensures PROGRAM[10] == AddIfMissing(Checkpoints, SpecId) && PROGRAM[11] == AddIfMissing(Checkpoints, SliceIndex)
    ensures PROGRAM[12] == RebuildCheckpoints
  {
  }

  lemma BeyondTheEnd(db: Db, n: nat)
    requires |PROGRAM| <= n
    ensures Open(db, n) == Open(db, |PROGRAM|)
  {
    hide After, PROGRAM;
  }

  lemma NothingYet(db: Db)
    ensures Open(db, 0) == db
  {
  }

  // ----- the destination

  /** What a table must become: full columns, its own constraint, and every row kept with nulls in the new columns. */
  function TargetTable(name: TableName, db: Db): Table {
    if name in db then Table(Full(name), PadAll(db[name].rows, Full(name)), UniqueOf(name))
    else Table(Full(name), [], UniqueOf(name))
  }

  const ALL_TABLES: set<TableName> := {Specs, Hypotheses, Checkpoints, SessionLearns, Approaches, Verifications}

  function Target(db: Db): Db {
    map name | name in ALL_TABLES :: TargetTable(name, db)
  }

  lemma AllNames(name: TableName)
    ensures name in ALL_TABLES
  {
  }

  lemma PadTwice(rows: seq<Row>, some: set<Column>, all: set<Column>)
    requires some <= all && forall i :: 0 <= i < |rows| ==> rows[i].Keys <= some
    ensures PadAll(PadAll(rows, some), all) == PadAll(rows, all)
  {
    forall i | 0 <= i < |rows| ensures Padded(Padded(rows[i], some), all) == Padded(rows[i], all) {
    }
  }

  lemma PadNothing(rows: seq<Row>, columns: set<Column>)
    requires forall i :: 0 <= i < |rows| ==> rows[i].Keys == columns
    ensures PadAll(rows, columns) == rows
  {
    forall i | 0 <= i < |rows| ensures Padded(rows[i], columns) == rows[i] {
    }
  }

  /** A table is only ever replaced by one closer to its target. */
  ghost predicate Advances(name: TableName, db: Db, db': Db) {
    && (name in db ==> name in db')
    && TargetTable(name, db') == TargetTable(name, db)
    && (name in db' ==> OlderTable(name, db'[name]))
    && (name in db ==> db[name].columns <= db'[name].columns)
  }

  lemma CreateAdvances(db: Db, t: TableName)
    requires t !in db
    ensures Advances(t, db, CreateTable(db, t)) && Full(t) <= CreateTable(db, t)[t].columns
  {
  }

  lemma AddAdvances(db: Db, t: TableName, c: Column)
    requires t in db && OlderTable(t, db[t]) && c in Full(t) && c !in db[t].columns && c != RepoRoot
    ensures Advances(t, db, AddColumn(db, t, c)) && c in AddColumn(db, t, c)[t].columns
  {
    hide Full, Base, Added;
    var was, columns := db[t], db[t].columns + {c};
    var rows := PadAll(was.rows, columns);
    PadTwice(was.rows, columns, Full(t));
    forall i, j | 0 <= i < j < |rows| ensures !Clash(was.unique, rows[i], rows[j]) {
      assert !Clash(was.unique, was.rows[i], was.rows[j]);
      PaddedClash(was.unique, was.rows[i], was.rows[j], columns);
    }
  }

  /** New null columns never make two rows clash. */
  lemma PaddedClash(unique: set<Column>, a: Row, b: Row, columns: set<Column>)
    ensures Clash(unique, Padded(a, columns), Padded(b, columns)) ==> Clash(unique, a, b)
  {
  }

  lemma RebuildAdvances(db: Db)
    requires Checkpoints in db && OlderTable(Checkpoints, db[Checkpoints]) && RepoRoot !in db[Checkpoints].columns
    ensures Advances(Checkpoints, db, Rebuild(db)) && RepoRoot in Rebuild(db)[Checkpoints].columns
  {
    hide Base;
    var was, all := db[Checkpoints], Full(Checkpoints);
    var rows := PadAll(was.rows, all);
    PadTwice(was.rows, all, all);
    forall i, j | 0 <= i < j < |rows| ensures !Clash({RepoRoot, Name}, rows[i], rows[j]) {
      assert rows[i][RepoRoot] == Null;
    }
  }

  /** The goal a statement is there for. */
  predicate Goal(s: Statement, db: Db) {
    match s
    case CreateIfMissing(t) => t in db
    case AddIfMissing(t, c) => HasColumn(db, t, c)
    case RebuildCheckpoints => HasColumn(db, Checkpoints, RepoRoot)
  }

  /** Statements only add migrated columns, and never the one the rebuild is for. */
  predicate Proper(s: Statement) {
    s.AddIfMissing? ==> s.column in Added(s.table) && s.column != RepoRoot
  }

  lemma StatementAdvances(s: Statement, db: Db, name: TableName)
    requires Older(db) && Proper(s)
    ensures Advances(name, db, Apply(s, db))
  {
    hide Base, UniqueOf, OlderTable, PadAll, CreateTable, AddColumn, Rebuild, TargetTable;
    var db' := Apply(s, db);
    if db' != db {
      match s {
        case CreateIfMissing(t) => CreateAdvances(db, t); if name != t { CreateFrames(db, t, name); }
        case AddIfMissing(t, c) => AddAdvances(db, t, c); if name != t { AddFrames(db, t, c, name); }
        case RebuildCheckpoints => RebuildAdvances(db); if name != Checkpoints { RebuildFrames(db, name); }
      }
    }
  }

  lemma CreateFrames(db: Db, t: TableName, name: TableName)
    requires name != t
    ensures (name in CreateTable(db, t) <==> name in db) && (name in db ==> CreateTable(db, t)[name] == db[name])
    ensures TargetTable(name, CreateTable(db, t)) == TargetTable(name, db)
  {
  }

  lemma AddFrames(db: Db, t: TableName, c: Column, name: TableName)
    requires t in db && name != t
    ensures (name in AddColumn(db, t, c) <==> name in db) && (name in db ==> AddColumn(db, t, c)[name] == db[name])
    ensures TargetTable(name, AddColumn(db, t, c)) == TargetTable(name, db)
  {
  }

  lemma RebuildFrames(db: Db, name: TableName)
    requires Checkpoints in db && name != Checkpoints
    ensures (name in Rebuild(db) <==> name in db) && (name in db ==> Rebuild(db)[name] == db[name])
    ensures TargetTable(name, Rebuild(db)) == TargetTable(name, db)
  {
  }

  /** Every statement keeps the destination, keeps the database one of some release, and undoes no statement's goal. */
  lemma StatementKeeps(s: Statement, db: Db)
    requires Older(db) && Proper(s)
    ensures Target(Apply(s, db)) == Target(db) && Older(Apply(s, db))
    ensures forall g :: Goal(g, db) ==> Goal(g, Apply(s, db))
  {
    hide Apply, OlderTable, TargetTable;
    forall name ensures Advances(name, db, Apply(s, db)) {
      StatementAdvances(s, db, name);
    }
    forall g | Goal(g, db) ensures Goal(g, Apply(s, db)) {
      var name := if g.RebuildCheckpoints? then Checkpoints else g.table;
      assert Advances(name, db, Apply(s, db));
    }
    assert forall name :: name in Apply(s, db) ==> Advances(name, db, Apply(s, db));
    forall name | name in ALL_TABLES ensures Target(Apply(s, db))[name] == Target(db)[name] {
      assert Advances(name, db, Apply(s, db));
    }
    assert Target(Apply(s, db)) == Target(db);
  }

  /** A statement reaches its goal when the statements it relies on have reached theirs. */
  lemma StatementReaches(s: Statement, db: Db)
    requires s.AddIfMissing? ==> Goal(CreateIfMissing(s.table), db)
    requires s.RebuildCheckpoints? ==>
      Older(db) && Goal(AddIfMissing(Checkpoints, SpecId), db) && Goal(AddIfMissing(Checkpoints, SliceIndex), db)
    ensures Goal(s, Apply(s, db))
  {
  }

  lemma ProgramIsProper()
    ensures forall k :: 0 <= k < |PROGRAM| ==> Proper(PROGRAM[k])
    ensures forall k :: 0 <= k < |PROGRAM| && PROGRAM[k].AddIfMissing? ==>
      exists i :: 0 <= i < k && PROGRAM[i] == CreateIfMissing(PROGRAM[k].table)
    ensures |PROGRAM| == 13 && PROGRAM[12] == RebuildCheckpoints
    ensures forall k :: 0 <= k < 12 ==> PROGRAM[k] != RebuildCheckpoints
    ensures PROGRAM[10] == AddIfMissing(Checkpoints, SpecId) && PROGRAM[11] == AddIfMissing(Checkpoints, SliceIndex)
  {
    assert PROGRAM[0] == CreateIfMissing(Specs) && PROGRAM[1] == CreateIfMissing(Hypotheses);
    assert PROGRAM[2] == CreateIfMissing(Checkpoints) && PROGRAM[3] == CreateIfMissing(SessionLearns);
  }

  /** After `n` statements: same destination, still a database of some release, and the first `n` goals reached. */
  lemma {:induction false} PrefixKeeps(db: Db, n: nat)
    requires Older(db) && n <= |PROGRAM|
    ensures Target(After(PROGRAM[..n], db)) == Target(db) && Older(After(PROGRAM[..n], db))
    ensures forall k :: 0 <= k < n ==> Goal(PROGRAM[k], After(PROGRAM[..n], db))
  {
    hide Apply, Target, Older, Goal, Proper, PROGRAM;
    if n > 0 {
      PrefixKeeps(db, n - 1);
      ProgramIsProper();
      var before, s := After(PROGRAM[..n - 1], db), PROGRAM[n - 1];
      assert PROGRAM[..n][..n - 1] == PROGRAM[..n - 1];
      StatementKeeps(s, before);
      if s.AddIfMissing? {
        var i :| 0 <= i < n - 1 && PROGRAM[i] == CreateIfMissing(s.table);
        assert Goal(PROGRAM[i], before);
      }
      StatementReaches(s, before);
    }
  }

  /** A table of some release that has every migrated column is its own target. */
  lemma FullIsTarget(name: TableName, db: Db)
    requires name in db && OlderTable(name, db[name]) && Added(name) <= db[name].columns
    ensures db[name] == TargetTable(name, db)
  {
    hide Base, Added;
    assert db[name].columns == Full(name);
    PadNothing(db[name].rows, Full(name));
    if name == Checkpoints { CheckpointsAdds(); }
  }

  lemma CheckpointsAdds()
    ensures RepoRoot in Added(Checkpoints) && RepoRoot in Full(Checkpoints)
  {
  }

  lemma CompleteIsTarget(db: Db)
    requires Older(db)
    ensures Complete(db) == Target(db)
  {
    hide Apply, After, OlderTable, Base, UniqueOf, Full, TargetTable;
    assert PROGRAM[..|PROGRAM|] == PROGRAM;
    PrefixKeeps(db, |PROGRAM|);
    var end := Complete(db);
    forall name ensures name in end && Added(name) <= end[name].columns {
      AllGoals(end, name);
    }
    forall name ensures name in end && end[name] == Target(db)[name] {
      FullIsTarget(name, end);
      AllNames(name);
    }
  }

  lemma AllGoals(db: Db, name: TableName)
    requires forall k :: 0 <= k < |PROGRAM| ==> Goal(PROGRAM[k], db)
    ensures name in db && Added(name) <= db[name].columns
  {
    assert Goal(PROGRAM[0], db) && Goal(PROGRAM[1], db) && Goal(PROGRAM[2], db) && Goal(PROGRAM[3], db);
    assert Goal(PROGRAM[4], db) && Goal(PROGRAM[5], db) && Goal(PROGRAM[6], db) && Goal(PROGRAM[7], db);
    assert Goal(PROGRAM[8], db) && Goal(PROGRAM[9], db) && Goal(PROGRAM[10], db);
    assert Goal(PROGRAM[11], db) && Goal(PROGRAM[12], db);
  }

  lemma OpenKeeps(db: Db, n: nat)
    requires Older(db)
    ensures Target(Open(db, n)) == Target(db) && Older(Open(db, n))
  {
    hide After, Target, Older;
    assert PROGRAM[..|PROGRAM|] == PROGRAM;
    PrefixKeeps(db, if n < |PROGRAM| then n else |PROGRAM|);
  }

  lemma {:induction false} OpensKeep(db: Db, deaths: seq<nat>)
    requires Older(db)
    ensures Target(Opens(db, deaths)) == Target(db) && Older(Opens(db, deaths))
  {
    hide Open, Target, Older;
    if deaths != [] {
      OpensKeep(db, deaths[..|deaths| - 1]);
      OpenKeeps(Opens(db, deaths[..|deaths| - 1]), deaths[|deaths| - 1]);
    }
  }

  /**
   Migration converges: from a database of any release, with any rows, any number of opens that die anywhere, followed
   by one that completes, ends in one and the same database, the one a single undisturbed open reaches; and opening it
   again, to the end or not, changes nothing.
   */
  lemma MigrationConverges(db: Db, deaths: seq<nat>, n: nat)
    requires Older(db)
    ensures Complete(Opens(db, deaths)) == Target(db) == Complete(db)
    ensures Open(Complete(db), n) == Complete(db)
  {
    hide Open, Opens, Target, Older, Complete;
    OpensKeep(db, deaths);
    CompleteIsTarget(Opens(db, deaths));
    CompleteIsTarget(db);
    OpenKeeps(db, |PROGRAM|);
    CompleteIsOpen(db);
    OpenOnFull(Complete(db), n);
  }

  lemma CompleteIsOpen(db: Db)
    ensures Open(db, |PROGRAM|) == Complete(db)
  {
  }

  lemma OpenOnFull(db: Db, n: nat)
    requires db == Target(db)
    ensures Open(db, n) == db
  {
    hide After, Target;
    assert PROGRAM[..|PROGRAM|] == PROGRAM;
    IdlePrefix(db, if n < |PROGRAM| then n else |PROGRAM|);
  }

  lemma {:induction false} IdlePrefix(db: Db, n: nat)
    requires db == Target(db) && n <= |PROGRAM|
    ensures After(PROGRAM[..n], db) == db
  {
    hide Apply, Target, PROGRAM;
    if n > 0 {
      IdlePrefix(db, n - 1);
      assert PROGRAM[..n][..n - 1] == PROGRAM[..n - 1];
      ProgramIsProper();
      IdleStatement(PROGRAM[n - 1], db);
    }
  }

  lemma IdleStatement(s: Statement, db: Db)
    requires db == Target(db) && Proper(s)
    ensures Apply(s, db) == db
  {
    hide Base, UniqueOf, PadAll;
    var name := if s.RebuildCheckpoints? then Checkpoints else s.table;
    AllNames(name);
    assert db[name] == TargetTable(name, db);
    CheckpointsAdds();
  }

  /**
   What the destination is: all six tables with their full columns; every old row is there, in order, with its old
   cells, and null in the columns it did not have; and no two checkpoints clash on repository and name.
   */
  lemma TargetKeepsRows(db: Db, name: TableName)
    requires Older(db)
    ensures name in Target(db) && Target(db)[name].columns == Full(name) && Satisfied(Target(db)[name])
    ensures Target(db)[Checkpoints].unique == {RepoRoot, Name}
    ensures name !in db ==> Target(db)[name].rows == []
    ensures name in db ==>
      && |Target(db)[name].rows| == |db[name].rows|
      && forall i, c :: 0 <= i < |db[name].rows| && c in Full(name) ==>
           Target(db)[name].rows[i][c] == if c in db[name].columns then db[name].rows[i][c] else Null
  {
    hide Base, Added;
    AllNames(name);
    AllNames(Checkpoints);
    var t := Target(db)[name];
    if name in db {
      forall i, j | 0 <= i < j < |t.rows| ensures !Clash(t.unique, t.rows[i], t.rows[j]) {
        if name == Checkpoints && RepoRoot !in db[name].columns {
          CheckpointsAdds();
          assert t.rows[i][RepoRoot] == Null;
        } else {
          PaddedClash(t.unique, db[name].rows[i], db[name].rows[j], Full(name));
        }
      }
    }
  }

  /** Opens happen one after the other, each on what the one before left. */
  lemma OpensInTurn(db: Db, deaths: seq<nat>, n: nat)
    ensures Opens(db, []) == db && Opens(db, deaths + [n]) == Open(Opens(db, deaths), n)
  {
    hide Open;
    assert (deaths + [n])[..|deaths|] == deaths;
  }

  /** Opening an empty file creates these six tables, empty, with these columns, and one constraint. */
  lemma FreshDatabase()
    ensures var db := Complete(map[]);
      && db.Keys == {Specs, Hypotheses, Checkpoints, SessionLearns, Approaches, Verifications}
      && (forall name :: name in db ==> db[name].rows == [])
      && (forall name :: name in db ==> db[name].unique == if name == Checkpoints then {RepoRoot, Name} else {})
      && db[Specs].columns == {Id, CreatedAt, TaskDescription, TaskType, AcceptanceCriteria, InterfaceContract,
                               EdgeCases, FilesToTouch, Dependencies, Status, CompletedAt, StatusNote}
      && db[Hypotheses].columns == {Id, CreatedAt, BugDescription, Hypothesis, Confidence, Outcome, OutcomeNotes,
                                    VerifiedAt, SpecId}
      && db[Checkpoints].columns == {Id, Name, CreatedAt, GitRef, FilesSnapshot, Description, SpecId, SliceIndex,
                                     RepoRoot}
      && db[SessionLearns].columns == {Id, CreatedAt, Discovery, Context, Tags, SpecId}
      && db[Approaches].columns == {Id, SpecId, CreatedAt, Name, Description, Pros, Cons, Score, Chosen}
      && db[Verifications].columns == {Id, SpecId, CreatedAt, Command, ExitCode, Success, DurationMs, CriteriaIndex,
                                       Stdout, Stderr}
  {
    hide Complete, Full;
    CompleteIsTarget(map[]);
    FullColumns();
  }

  lemma FullColumns()
    ensures Full(Specs) == {Id, CreatedAt, TaskDescription, TaskType, AcceptanceCriteria, InterfaceContract, EdgeCases,
                            FilesToTouch, Dependencies, Status, CompletedAt, StatusNote}
    ensures Full(Hypotheses) == {Id, CreatedAt, BugDescription, Hypothesis, Confidence, Outcome, OutcomeNotes,
                                 VerifiedAt, SpecId}
    ensures Full(Checkpoints) == {Id, Name, CreatedAt, GitRef, FilesSnapshot, Description, SpecId, SliceIndex, RepoRoot}
    ensures Full(SessionLearns) == {Id, CreatedAt, Discovery, Context, Tags, SpecId}
    ensures Full(Approaches) == {Id, SpecId, CreatedAt, Name, Description, Pros, Cons, Score, Chosen}
    ensures Full(Verifications) == {Id, SpecId, CreatedAt, Command, ExitCode, Success, DurationMs, CriteriaIndex,
                                    Stdout, Stderr}
  {
  }

  /** A rebuild that could not copy a column fails whole: it changes nothing. */
  lemma RebuildNeedsItsColumns(db: Db)
    requires Checkpoints in db && RepoRoot !in db[Checkpoints].columns
    ensures Apply(RebuildCheckpoints, db) != db ==>
      {Id, Name, CreatedAt, GitRef, FilesSnapshot, Description, SpecId, SliceIndex} <= db[Checkpoints].columns
  {
  }
}

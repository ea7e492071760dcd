/** The migration shell as a state machine: the database it works on and the
    shell object whose startup, up, down, reset and rebuild change them. */
module Shell {
  import opened Text
  import opened Repository
  import opened Ledger
  import opened Runner

  /** The ledger table can be used as it is: it exists and passes the
      structure check. */
  predicate LedgerUsable(tables: seq<string>, columns: seq<Column>)
  {
    LedgerTable in tables && MatchesSchema(columns)
  }

  /** What startup can change in the database: the table list and the
      ledger table's description and rows. */
  datatype Store = Store(tables: seq<string>, columns: seq<Column>, rows: seq<Row>)

  /** The ledger part of _startDBConfig: __createTable when the ledger table
      is missing; __checkTable otherwise, which drops the table and calls
      __createTable when the structure does not match. The drop's result is
      ignored; when it fails the table is still there and the CREATE TABLE
      fails on it. The flag is false where a failed creation stops the
      shell. */
  function OpenLedgerOutcome(s: Store, dropOk: bool, createOk: bool): (bool, Store)
  {
    if LedgerTable !in s.tables then
      if createOk then (true, Store(s.tables + [LedgerTable], SchemaStructure, [])) else (false, s)
    else if MatchesSchema(s.columns) then (true, s)
    else if !dropOk then (false, s)
    else
      var dropped := Without(s.tables, {LedgerTable});
      if createOk then (true, Store(dropped + [LedgerTable], SchemaStructure, []))
      else (false, Store(dropped, [], []))
  }

  /** Opening the ledger goes on exactly when the table is usable, or can be
      created after the mismatched one (if any) was dropped; it leaves a
      usable ledger when it goes on, and never touches any other table. A
      usable ledger is kept as it is. A ledger that fails the structure check
      loses its rows once its drop succeeds, and when its re-creation then
      fails the table is gone as well; when the drop fails, the shell stops
      with the old table and rows in place. */
  lemma OpenLedgerOutcomeSpec(s: Store, dropOk: bool, createOk: bool)
    ensures var ok, after := OpenLedgerOutcome(s, dropOk, createOk).0, OpenLedgerOutcome(s, dropOk, createOk).1;
      && (ok <==> LedgerUsable(s.tables, s.columns) || (createOk && (LedgerTable in s.tables ==> dropOk)))
      && (ok ==> LedgerUsable(after.tables, after.columns))
      && (forall t :: t != LedgerTable ==> (t in after.tables <==> t in s.tables))
      && (LedgerUsable(s.tables, s.columns) ==> after == s)
      && (LedgerTable !in s.tables && !createOk ==> after == s)
      && (LedgerTable in s.tables && !MatchesSchema(s.columns) && dropOk ==>
            after.rows == [] && (ok || LedgerTable !in after.tables))
      && (LedgerTable in s.tables && !MatchesSchema(s.columns) && !dropOk ==> !ok && after == s)
  {
    WithoutMembers(s.tables, {LedgerTable});
    assert MatchesSchema(SchemaStructure);
  }

  /** The database behind the shell's connection, reduced to what the shell
      touches: the table list, the ledger table's description and rows, and
      one open transaction's snapshot of the table list. */
  class Database {
    /** listSources() */
    var tables: seq<string>
    /** describe() of the ledger table */
    var ledgerColumns: seq<Column>
    /** The ledger table's rows in table order. */
    var rows: seq<Row>
    /** The id the next saved ledger row receives. */
    var nextId: int
    /** The table list at begin(), restored by rollback(). */
    var snapshot: seq<string>
    /** Whether Migration::dropTable succeeds on a table. */
    const dropOk: string -> bool
    /** Whether the dropSchema of the ledger table in __checkTable succeeds. */
    const dropLedgerOk: bool
    /** Whether creating the ledger table succeeds while it is not listed. */
    const createOk: bool

    constructor (tables: seq<string>, ledgerColumns: seq<Column>, rows: seq<Row>, nextId: int,
                 dropOk: string -> bool, dropLedgerOk: bool, createOk: bool)
      ensures this.tables == tables && this.ledgerColumns == ledgerColumns && this.rows == rows
      ensures this.nextId == nextId && this.snapshot == tables
      ensures this.dropOk == dropOk && this.dropLedgerOk == dropLedgerOk && this.createOk == createOk
    {
      this.tables := tables;
      this.ledgerColumns := ledgerColumns;
      this.rows := rows;
      this.nextId := nextId;
      this.snapshot := tables;
      this.dropOk := dropOk;
      this.dropLedgerOk := dropLedgerOk;
      this.createOk := createOk;
    }

    /** __createTable: an empty ledger table with the expected columns. The
        CREATE TABLE statement fails on a table that is already there. */
    method CreateLedger() returns (ok: bool)
      modifies this`tables, this`ledgerColumns, this`rows
      ensures ok == (createOk && LedgerTable !in old(tables))
      ensures ok ==> tables == old(tables) + [LedgerTable] && ledgerColumns == SchemaStructure && rows == []
      ensures !ok ==> tables == old(tables) && ledgerColumns == old(ledgerColumns) && rows == old(rows)
    {
      ok := createOk && LedgerTable !in tables;
      if ok {
        tables := tables + [LedgerTable];
        ledgerColumns := SchemaStructure;
        rows := [];
      }
    }

    /** The dropSchema of the ledger table done by __checkTable, whose result
        the code ignores: when it fails, nothing changes. */
    method DropLedger()
      modifies this`tables, this`ledgerColumns, this`rows
      ensures dropLedgerOk ==> tables == Without(old(tables), {LedgerTable}) && ledgerColumns == [] && rows == []
      ensures !dropLedgerOk ==> tables == old(tables) && ledgerColumns == old(ledgerColumns) && rows == old(rows)
    {
      if dropLedgerOk {
        tables := Without(tables, {LedgerTable});
        ledgerColumns := [];
        rows := [];
      }
    }

    /** SchemaMigration->save of a new row; returns the id it was given. */
    method Save(version: int, classname: string, created: int) returns (id: int)
      modifies this`rows, this`nextId
      ensures id == old(nextId) && nextId == old(nextId) + 1
      ensures rows == old(rows) + [Row(id, version, classname, created)]
    {
      id := nextId;
      rows := rows + [Row(id, version, classname, created)];
      nextId := nextId + 1;
    }

    /** SchemaMigration->delete($id). */
    method Delete(id: int)
      modifies this`rows
      ensures rows == RemoveIds(old(rows), {id})
    {
      rows := RemoveIds(rows, {id});
    }

    /** begin(): the transaction remembers the table list. */
    method Begin()
      modifies this`snapshot
      ensures snapshot == tables
    {
      snapshot := tables;
    }

    /** Migration::dropTable inside the open transaction. */
    method DropTable(t: string) returns (ok: bool)
      modifies this`tables
      ensures ok == dropOk(t)
      ensures tables == if ok then Without(old(tables), {t}) else old(tables)
    {
      ok := dropOk(t);
      if ok {
        tables := Without(tables, {t});
      }
    }

    /** rollback(): the table list as it was at begin(). */
    method Rollback()
      modifies this`tables
      ensures tables == snapshot
    {
      tables := snapshot;
    }

    /** commit(): the dropped tables stay dropped. */
    method Commit()
      modifies this`snapshot
      ensures snapshot == tables
    {
      snapshot := tables;
    }
  }

  /** MigrationShell: the migrations path, the connection's database, what
      _exec answers, and the state read at startup. */
  class MigrationShell {
    const path: string
    const db: Database
    const exec: Exec
    var lastVersion: int
    /** _versions: the ledger rows read at startup, by ascending version. */
    var versions: seq<Row>
    /** _filesInfo: the migration files found in the path, in listing order. */
    var filesInfo: seq<FileInfo>
    /** Every _exec call made so far, in order. */
    var trace: seq<Attempt>

    /** What startup establishes: lastVersion is the version of the last row
        of the ascending read. */
    predicate Valid()
      reads this
    {
      Ascending(versions) && lastVersion == LastVersion(versions)
    }

    constructor (path: string, db: Database, exec: Exec)
      ensures this.path == path && this.db == db && this.exec == exec
      ensures lastVersion == 0 && versions == [] && filesInfo == [] && trace == []
    {
      this.path := path;
      this.db := db;
      this.exec := exec;
      lastVersion := 0;
      versions := [];
      filesInfo := [];
      trace := [];
    }

    /** startup: make sure the ledger table is there and well formed (drop
        and recreate it otherwise), read the ledger by ascending version, read
        the migrations directory (`entries`, None when it cannot be opened)
        and set lastVersion. Returns false where the shell stops. */
    method Startup(entries: Option<seq<string>>) returns (ok: bool)
      modifies this`versions, this`filesInfo, this`lastVersion, db`tables, db`ledgerColumns, db`rows
      ensures var start := OpenLedgerOutcome(Store(old(db.tables), old(db.ledgerColumns), old(db.rows)), db.dropLedgerOk, db.createOk);
        && Store(db.tables, db.ledgerColumns, db.rows) == start.1
        && (ok <==> entries.Some? && start.0)
      ensures ok <==> entries.Some? && (LedgerUsable(old(db.tables), old(db.ledgerColumns))
                                         || (db.createOk && (LedgerTable in old(db.tables) ==> db.dropLedgerOk)))
      ensures ok && old(lastVersion) == 0 ==> Valid()
      ensures ok ==> db.rows == (if LedgerUsable(old(db.tables), old(db.ledgerColumns)) then old(db.rows) else [])
      ensures ok ==> LedgerTable in db.tables && MatchesSchema(db.ledgerColumns)
      ensures ok ==> versions == SortByVersion(db.rows) && filesInfo == Discover(path, entries.value)
      ensures ok ==> lastVersion == if db.rows == [] then old(lastVersion) else LastVersion(SortByVersion(db.rows))
    {
      ok := OpenLedger();
      if !ok {
        return;
      }
      versions := SortByVersion(db.rows);
      if entries.None? {
        return false;
      }
      ReadPathInfo(entries.value);
      if versions != [] {
        lastVersion := versions[|versions| - 1].version;
      }
      ok := true;
    }

    /** The ledger part of startup: create the table when it is missing,
        drop and recreate it when __checkTable rejects its structure. */
    method OpenLedger() returns (ok: bool)
      modifies db`tables, db`ledgerColumns, db`rows
      ensures (ok, Store(db.tables, db.ledgerColumns, db.rows))
        == OpenLedgerOutcome(Store(old(db.tables), old(db.ledgerColumns), old(db.rows)), db.dropLedgerOk, db.createOk)
      ensures ok <==> LedgerUsable(old(db.tables), old(db.ledgerColumns))
                      || (db.createOk && (LedgerTable in old(db.tables) ==> db.dropLedgerOk))
      ensures ok ==> db.rows == (if LedgerUsable(old(db.tables), old(db.ledgerColumns)) then old(db.rows) else [])
      ensures ok ==> LedgerTable in db.tables && MatchesSchema(db.ledgerColumns)
    {
      OpenLedgerOutcomeSpec(Store(db.tables, db.ledgerColumns, db.rows), db.dropLedgerOk, db.createOk);
      WithoutMembers(db.tables, {LedgerTable});
      ok := true;
      if LedgerTable !in db.tables {
        ok := db.CreateLedger();
      } else {
        var matches := CheckStructure(db.ledgerColumns);
        if !matches {
          db.DropLedger();
          ok := db.CreateLedger();
        }
      }
    }

    /** _readPathInfo: one FileInfo per directory entry the file-name pattern
        accepts, in listing order. */
    method ReadPathInfo(entries: seq<string>)
      modifies this`filesInfo
      ensures filesInfo == Discover(path, entries)
    {
      var found: seq<FileInfo> := [];
      var i := 0;
      while i < |entries|
        invariant 0 <= i <= |entries|
        invariant found == Discover(path, entries[..i])
      {
        assert entries[..i + 1][..i] == entries[..i];
        var d := Discovered(path, entries[i]);
        if d.Some? {
          found := found + [d.value];
        }
        i := i + 1;
      }
      assert entries[..i] == entries;
      filesInfo := found;
    }

    /** up: install, in listing order, every file above lastVersion and at or
        below the target, saving a ledger row after each; stop at the first
        failure. */
    method Up(arg: Option<string>, now: int) returns (reply: Reply)
      modifies this`trace, db`rows, db`nextId
      ensures var run := UpOutcome(filesInfo, lastVersion, exec, arg, now);
        && reply == run.reply
        && trace == old(trace) + run.attempted
        && db.rows == old(db.rows) + NewRows(run.applied, old(db.nextId), now)
        && db.nextId == old(db.nextId) + |run.applied|
    {
      var target := UpTarget(arg, now);
      if target.None? {
        return Refused;
      }
      InstallFromIsInstallRun(filesInfo, 0, lastVersion, target.value, exec);
      assert filesInfo[0..] == filesInfo;
      reply := InstallUpTo(target.value, now);
    }

    /** The loop of up over _filesInfo, for the target `t`. */
    method InstallUpTo(t: int, now: int) returns (reply: Reply)
      modifies this`trace, db`rows, db`nextId
      ensures var run := InstallFrom(filesInfo, 0, lastVersion, t, exec);
        && reply == run.reply
        && trace == old(trace) + run.attempted
        && db.rows == old(db.rows) + NewRows(run.applied, old(db.nextId), now)
        && db.nextId == old(db.nextId) + |run.applied|
    {
      var files, last := filesInfo, lastVersion;
      ghost var trace0, rows0, id0 := trace, db.rows, db.nextId;
      ghost var attempted: seq<Attempt> := [];
      ghost var applied: seq<FileInfo> := [];
      var i := 0;
      while i < |files|
        invariant 0 <= i <= |files|
        invariant InstallFrom(files, 0, last, t, exec) == AfterInstalls(attempted, applied, InstallFrom(files, i, last, t, exec))
        invariant trace == trace0 + attempted
        invariant db.rows == rows0 + NewRows(applied, id0, now)
        invariant db.nextId == id0 + |applied|
      {
        var f := files[i];
        if last < f.timestamp <= t {
          var a := Attempt(Install, f.file, f.classname);
          trace := trace + [a];
          if !exec(a) {
            assert applied + [] == applied;
            return Refused;
          }
          var id := db.Save(f.timestamp, f.classname, now);
          NewRowsAppend(applied, f, id0, now);
          assert rows0 + NewRows(applied, id0, now) + [Row(id, f.timestamp, f.classname, now)]
            == rows0 + NewRows(applied + [f], id0, now);
          AfterInstallsAppend(attempted, applied, a, f, InstallFrom(files, i + 1, last, t, exec));
          attempted, applied := attempted + [a], applied + [f];
        }
        i := i + 1;
      }
      assert attempted + [] == attempted && applied + [] == applied;
      return Message(AllUpdated);
    }

    /** down: from the newest row backwards, uninstall and delete every row
        above the target; stop at the first row at or below it, after the
        oldest row, or at the first failed uninstall. */
    method Down(all: bool, arg: Option<string>) returns (reply: Reply)
      modifies this`trace, db`rows
      ensures var run := DownOutcome(versions, lastVersion, path, exec, all, arg);
        && reply == run.reply
        && trace == old(trace) + run.attempted
        && db.rows == RemoveIds(old(db.rows), IdsOf(run.reverted))
    {
      if lastVersion == 0 {
        RemoveIdsNothing(db.rows);
        assert IdsOf([]) == {};
        return Message(NothingInstalled);
      }
      var target := DownTarget(all, arg, lastVersion);
      if target.None? {
        RemoveIdsNothing(db.rows);
        assert IdsOf([]) == {};
        return Refused;
      }
      DownRunsPlan(versions, lastVersion, path, exec, all, arg, target.value);
      RevertFromIsRevertRun(versions, |versions|, target.value, Uninstaller(path), exec);
      assert versions[..|versions|] == versions;
      reply := RevertNewerThan(target.value, Uninstaller(path));
    }

    /** The loop of down over _versions, from the end back, for the target
        `t`; `uninstall` builds the _exec call for a row (down passes
        Uninstaller(path)). */
    method RevertNewerThan(t: int, uninstall: Row -> Attempt) returns (reply: Reply)
      modifies this`trace, db`rows
      ensures var run := RevertFrom(versions, |versions|, t, uninstall, exec);
        && reply == run.reply
        && trace == old(trace) + run.attempted
        && db.rows == RemoveIds(old(db.rows), IdsOf(run.reverted))
    {
      var rows := versions;
      ghost var trace0, rows0 := trace, db.rows;
      ghost var attempted: seq<Attempt> := [];
      ghost var reverted: seq<Row> := [];
      RemoveIdsNothing(rows0);
      assert IdsOf([]) == {};
      var pos := |rows| - 1;  // end()
      // current() is a row above the target; prev() leaves pos at -1 past the front
      while 0 <= pos && rows[pos].version > t
        invariant -1 <= pos < |rows|
        invariant RevertFrom(rows, |rows|, t, uninstall, exec)
          == AfterReverts(attempted, reverted, RevertFrom(rows, pos + 1, t, uninstall, exec))
        invariant trace == trace0 + attempted
        invariant db.rows == RemoveIds(rows0, IdsOf(reverted))
        decreases pos
      {
        var cur := rows[pos];
        var a := uninstall(cur);
        RevertStep(rows, pos, t, uninstall, exec, attempted, reverted, rows0);
        var ok := Revert(a, cur.id);
        AppendAssoc(trace0, attempted, [a]);
        if !ok {
          return Refused;
        }
        attempted, reverted := attempted + [a], reverted + [cur];
        pos := pos - 1;
      }
      assert attempted + [] == attempted && reverted + [] == reverted;
      return Message(AllDown);
    }

    /** One row of down: _exec the uninstall and, when it succeeds, delete
        the row. */
    method Revert(a: Attempt, id: int) returns (ok: bool)
      modifies this`trace, db`rows
      ensures ok == exec(a) && trace == old(trace) + [a]
      ensures db.rows == if ok then RemoveIds(old(db.rows), {id}) else old(db.rows)
    {
      trace := trace + [a];
      ok := exec(a);
      if ok {
        db.Delete(id);
      }
    }

    /** reset: down(true); when that answers, with -force drop every table
        but the ledger inside one transaction, rolling back at the first
        failed drop. */
    method Reset(force: bool) returns (reply: Reply)
      modifies this`trace, db`rows, db`tables, db`snapshot
      ensures var res := ResetOutcome(versions, lastVersion, path, exec, force, old(db.tables), db.dropOk);
        && reply == res.reply
        && trace == old(trace) + res.down.attempted
        && db.rows == RemoveIds(old(db.rows), IdsOf(res.down.reverted))
        && db.tables == res.tables
    {
      var down := Down(true, None);
      if down.Refused? {
        return Refused;
      }
      if force {
        var tables := db.tables;
        DropPhaseStepwise(tables, db.dropOk);
        var ok := DropAll(tables);
        if !ok {
          return Refused;
        }
      }
      return Message(Resetted);
    }

    /** The drop phase of reset over the listed tables. */
    method DropAll(tables: seq<string>) returns (ok: bool)
      requires db.tables == tables
      modifies db`tables, db`snapshot
      ensures ok == DropsFrom(tables, 0, db.dropOk)
      ensures db.tables == if ok then DroppedUpTo(tables, |tables|) else tables
    {
      if tables == [] {
        return true;
      }
      db.Begin();
      var i := 0;
      while i < |tables|
        invariant 0 <= i <= |tables|
        invariant db.tables == DroppedUpTo(tables, i) && db.snapshot == tables
        invariant DropsFrom(tables, 0, db.dropOk) == DropsFrom(tables, i, db.dropOk)
      {
        var t := tables[i];
        if t != LedgerTable {
          var dropped := db.DropTable(t);
          if !dropped {
            db.Rollback();
            return false;
          }
        }
        i := i + 1;
      }
      db.Commit();
      return true;
    }

    /** rebuild: reset() && up(), with up still using the lastVersion read
        at startup. */
    method Rebuild(force: bool, arg: Option<string>, now: int) returns (ok: bool)
      modifies this`trace, db`rows, db`nextId, db`tables, db`snapshot
      ensures var res := ResetOutcome(versions, lastVersion, path, exec, force, old(db.tables), db.dropOk);
        var up := UpOutcome(filesInfo, lastVersion, exec, arg, now);
        && ok == (res.reply.Message? && up.reply.Message?)
        && trace == old(trace) + res.down.attempted + (if res.reply.Message? then up.attempted else [])
        && db.rows == RemoveIds(old(db.rows), IdsOf(res.down.reverted))
                      + (if res.reply.Message? then NewRows(up.applied, old(db.nextId), now) else [])
        && db.nextId == old(db.nextId) + (if res.reply.Message? then |up.applied| else 0)
        && db.tables == res.tables
    {
      var reset := Reset(force);
      if reset.Refused? {
        return false;
      }
      var up := Up(arg, now);
      ok := up.Message?;
    }
  }

  lemma AppendAssoc<T>(a: seq<T>, b: seq<T>, c: seq<T>)
    ensures a + b + c == a + (b + c)
  {
  }

  /** A run preceded by the attempts already made and the files already
      installed. */
  ghost function AfterInstalls(attempted: seq<Attempt>, applied: seq<FileInfo>, run: UpRun): UpRun
  {
    UpRun(run.reply, attempted + run.attempted, applied + run.applied)
  }

  lemma AfterInstallsAppend(attempted: seq<Attempt>, applied: seq<FileInfo>, a: Attempt, f: FileInfo, run: UpRun)
    ensures AfterInstalls(attempted, applied, UpRun(run.reply, [a] + run.attempted, [f] + run.applied))
      == AfterInstalls(attempted + [a], applied + [f], run)
  {
    assert attempted + ([a] + run.attempted) == attempted + [a] + run.attempted;
    assert applied + ([f] + run.applied) == applied + [f] + run.applied;
  }

  /** A run preceded by the attempts already made and the rows already
      reverted. */
  ghost function AfterReverts(attempted: seq<Attempt>, reverted: seq<Row>, run: DownRun): DownRun
  {
    DownRun(run.reply, attempted + run.attempted, reverted + run.reverted)
  }

  /** One turn of down's loop: the row at `pos` is above the target, so the
      run continues with its uninstall, or ends there when that fails. */
  lemma RevertStep(rows: seq<Row>, pos: nat, t: int, uninstall: Row -> Attempt, exec: Exec,
                   attempted: seq<Attempt>, reverted: seq<Row>, rows0: seq<Row>)
    requires pos < |rows| && rows[pos].version > t
    requires RevertFrom(rows, |rows|, t, uninstall, exec)
      == AfterReverts(attempted, reverted, RevertFrom(rows, pos + 1, t, uninstall, exec))
    ensures !exec(uninstall(rows[pos])) ==>
      RevertFrom(rows, |rows|, t, uninstall, exec) == DownRun(Refused, attempted + [uninstall(rows[pos])], reverted)
    ensures exec(uninstall(rows[pos])) ==>
      RevertFrom(rows, |rows|, t, uninstall, exec)
        == AfterReverts(attempted + [uninstall(rows[pos])], reverted + [rows[pos]], RevertFrom(rows, pos, t, uninstall, exec))
    ensures RemoveIds(RemoveIds(rows0, IdsOf(reverted)), {rows[pos].id}) == RemoveIds(rows0, IdsOf(reverted + [rows[pos]]))
  {
    var a, r := uninstall(rows[pos]), rows[pos];
    if exec(a) {
      AfterRevertsAppend(attempted, reverted, a, r, RevertFrom(rows, pos, t, uninstall, exec));
    } else {
      assert reverted + [] == reverted;
    }
    RemoveIdsTwice(rows0, IdsOf(reverted), {r.id});
    IdsOfAppend(reverted, r);
  }

  lemma AfterRevertsAppend(attempted: seq<Attempt>, reverted: seq<Row>, a: Attempt, r: Row, run: DownRun)
    ensures AfterReverts(attempted, reverted, DownRun(run.reply, [a] + run.attempted, [r] + run.reverted))
      == AfterReverts(attempted + [a], reverted + [r], run)
  {
    assert attempted + ([a] + run.attempted) == attempted + [a] + run.attempted;
    assert reverted + ([r] + run.reverted) == reverted + [r] + run.reverted;
  }

  lemma NewRowsAppend(applied: seq<FileInfo>, f: FileInfo, id0: int, now: int)
    ensures NewRows(applied + [f], id0, now)
      == NewRows(applied, id0, now) + [Row(id0 + |applied|, f.timestamp, f.classname, now)]
  {
  }
}

/** The schema_migrations ledger: its rows, the structure the shell expects
    of the table, the ascending read done at startup and lastVersion. */
module Ledger {
  import opened Text

  const LedgerTable: string := "schema_migrations"

  /** One SchemaMigration record. */
  datatype Row = Row(id: int, version: int, classname: string, created: int)

  /** One column of a table description: its name and its 'type' entry. */
  datatype Column = Column(name: string, sqlType: string)

  /** The keys and types of _schemaStructure, in declaration order. */
  const SchemaStructure: seq<Column> := [
    Column("id", "integer"),
    Column("version", "integer"),
    Column("classname", "string"),
    Column("created", "integer")
  ]

  function Names(cols: seq<Column>): (names: seq<string>)
    ensures |names| == |cols|
    ensures forall i :: 0 <= i < |cols| ==> names[i] == cols[i].name
  {
    seq(|cols|, i requires 0 <= i < |cols| => cols[i].name)
  }

  /** The table passes __checkTable: the same column names in the same order,
      and each column's type equal to the expected one. */
  predicate MatchesSchema(describe: seq<Column>)
  {
    && Names(describe) == Names(SchemaStructure)
    && forall i :: 0 <= i < |SchemaStructure| ==> describe[i].sqlType == SchemaStructure[i].sqlType
  }

  /** The comparison in __checkTable: compare the key lists, then walk the
      expected columns and stop at the first type that differs. */
  method CheckStructure(describe: seq<Column>) returns (ok: bool)
    ensures ok <==> MatchesSchema(describe)
  {
    if Names(describe) != Names(SchemaStructure) {
      return false;
    }
    ok := true;
    var i := 0;
    while i < |SchemaStructure|
      invariant 0 <= i <= |SchemaStructure|
      invariant ok <==> forall j :: 0 <= j < i ==> describe[j].sqlType == SchemaStructure[j].sqlType
      invariant !ok ==> i == |SchemaStructure|
    {
      if SchemaStructure[i].sqlType != describe[i].sqlType {
        ok := false;
        break;
      }
      i := i + 1;
    }
  }

  /** Rows ordered by version, lowest first (find('all') with version ASC). */
  predicate Ascending(rows: seq<Row>)
  {
    forall i, j :: 0 <= i < j < |rows| ==> rows[i].version <= rows[j].version
  }

  /** Ascending with no version repeated, the ledger's intended shape. */
  predicate StrictlyAscending(rows: seq<Row>)
  {
    forall i, j :: 0 <= i < j < |rows| ==> rows[i].version < rows[j].version
  }

  lemma AscendingCons(a: Row, rest: seq<Row>)
    requires Ascending(rest)
    requires forall x :: x in rest ==> a.version <= x.version
    ensures Ascending([a] + rest)
  {
    var s := [a] + rest;
    forall i, j | 0 <= i < j < |s|
      ensures s[i].version <= s[j].version
    {
      assert s[j] == rest[j - 1];
      if i > 0 {
        assert s[i] == rest[i - 1];
      }
    }
  }

  function InsertByVersion(r: Row, sorted: seq<Row>): (s: seq<Row>)
    requires Ascending(sorted)
    ensures Ascending(s)
    ensures forall x :: x in s <==> x == r || x in sorted
    ensures multiset(s) == multiset(sorted) + multiset{r}
  {
    if sorted == [] then [r]
    else if r.version < sorted[0].version then
      AscendingCons(r, sorted);
      [r] + sorted
    else
      var rest := InsertByVersion(r, sorted[1..]);
      assert sorted == [sorted[0]] + sorted[1..];
      HeadBelowRest(r, sorted, rest);
      AscendingCons(sorted[0], rest);
      [sorted[0]] + rest
  }

  lemma HeadBelowRest(r: Row, sorted: seq<Row>, rest: seq<Row>)
    requires Ascending(sorted) && sorted != [] && sorted[0].version <= r.version
    requires forall x :: x in rest <==> x == r || x in sorted[1..]
    ensures forall x :: x in rest ==> sorted[0].version <= x.version
  {
    forall x | x in rest
      ensures sorted[0].version <= x.version
    {
      if x != r {
        var i :| 0 <= i < |sorted[1..]| && sorted[1..][i] == x;
        assert x == sorted[i + 1];
      }
    }
  }

  /** The rows of the table as the startup query returns them. Rows with
      equal versions keep their table order. */
  function SortByVersion(rows: seq<Row>): (s: seq<Row>)
    ensures Ascending(s)
    ensures multiset(s) == multiset(rows)
  {
    if rows == [] then []
    else
      assert rows == rows[..|rows| - 1] + [rows[|rows| - 1]];
      InsertByVersion(rows[|rows| - 1], SortByVersion(rows[..|rows| - 1]))
  }

  /** lastVersion as startup sets it: the version of the last row read, or 0
      when the table is empty. */
  function LastVersion(versions: seq<Row>): int
  {
    if versions == [] then 0 else versions[|versions| - 1].version
  }

  /** After the ascending read, lastVersion is the highest version in the
      table (0 for an empty table). */
  lemma LastVersionIsHighest(rows: seq<Row>)
    ensures rows == [] ==> LastVersion(SortByVersion(rows)) == 0
    ensures forall r :: r in rows ==> r.version <= LastVersion(SortByVersion(rows))
    ensures rows != [] ==> exists r :: r in rows && r.version == LastVersion(SortByVersion(rows))
  {
    var s := SortByVersion(rows);
    SameElements(rows, s);
    if rows != [] {
      AscendingLastIsHighest(s);
      assert s[|s| - 1] in rows;
    }
  }

  lemma SameElements<T>(a: seq<T>, b: seq<T>)
    requires multiset(a) == multiset(b)
    ensures forall x :: x in a <==> x in b
  {
    forall x
      ensures x in a <==> x in b
    {
      assert x in a <==> x in multiset(a);
      assert x in b <==> x in multiset(b);
    }
  }

  lemma AscendingLastIsHighest(s: seq<Row>)
    requires Ascending(s) && s != []
    ensures forall x :: x in s ==> x.version <= s[|s| - 1].version
  {
    forall x | x in s
      ensures x.version <= s[|s| - 1].version
    {
      var i :| 0 <= i < |s| && s[i] == x;
      if i < |s| - 1 {
        assert s[i].version <= s[|s| - 1].version;
      }
    }
  }

  /** The table after deleting every row whose id is in `ids`. */
  function RemoveIds(rows: seq<Row>, ids: set<int>): (kept: seq<Row>)
    ensures |kept| <= |rows|
  {
    if rows == [] then []
    else
      var last := rows[|rows| - 1];
      RemoveIds(rows[..|rows| - 1], ids) + (if last.id in ids then [] else [last])
  }

  /** After the deletions, a row is left exactly when it was there and its
      id was not deleted. */
  lemma {:induction false} RemoveIdsMembers(rows: seq<Row>, ids: set<int>)
    ensures forall r :: r in RemoveIds(rows, ids) <==> r in rows && r.id !in ids
  {
    if rows != [] {
      var init, last := rows[..|rows| - 1], rows[|rows| - 1];
      assert rows == init + [last];
      RemoveIdsMembers(init, ids);
    }
  }

  lemma {:induction false} RemoveIdsNothing(rows: seq<Row>)
    ensures RemoveIds(rows, {}) == rows
  {
    if rows != [] {
      RemoveIdsNothing(rows[..|rows| - 1]);
      assert rows == rows[..|rows| - 1] + [rows[|rows| - 1]];
    }
  }

  lemma {:induction false} RemoveIdsTwice(rows: seq<Row>, ids: set<int>, more: set<int>)
    ensures RemoveIds(RemoveIds(rows, ids), more) == RemoveIds(rows, ids + more)
  {
    if rows != [] {
      var init, last := rows[..|rows| - 1], rows[|rows| - 1];
      RemoveIdsTwice(init, ids, more);
      var once := RemoveIds(init, ids);
      if last.id in ids {
        assert RemoveIds(rows, ids) == once;
      } else {
        assert RemoveIds(rows, ids) == once + [last];
        assert (once + [last])[..|once|] == once;
      }
    }
  }

  function IdsOf(rows: seq<Row>): set<int>
  {
    set r | r in rows :: r.id
  }

  lemma IdsOfAppend(rows: seq<Row>, r: Row)
    ensures IdsOf(rows + [r]) == IdsOf(rows) + {r.id}
  {
    assert forall x :: x in rows + [r] <==> x in rows || x == r;
  }

  /** No two rows share an id: `id` is the ledger table's primary key. */
  predicate DistinctIds(rows: seq<Row>)
  {
    forall i, j :: 0 <= i < j < |rows| ==> rows[i].id != rows[j].id
  }

  lemma DistinctIdsCons(a: Row, rest: seq<Row>)
    requires DistinctIds(rest)
    requires forall x :: x in rest ==> x.id != a.id
    ensures DistinctIds([a] + rest)
  {
    var s := [a] + rest;
    forall i, j | 0 <= i < j < |s|
      ensures s[i].id != s[j].id
    {
      assert s[j] == rest[j - 1];
      if i > 0 {
        assert s[i] == rest[i - 1];
      }
    }
  }

  lemma {:induction false} InsertKeepsDistinctIds(r: Row, sorted: seq<Row>)
    requires Ascending(sorted) && DistinctIds(sorted)
    requires forall x :: x in sorted ==> x.id != r.id
    ensures DistinctIds(InsertByVersion(r, sorted))
  {
    if sorted != [] && r.version >= sorted[0].version {
      var tail := sorted[1..];
      assert forall x :: x in tail ==> x in sorted;
      assert DistinctIds(tail) by {
        forall i, j | 0 <= i < j < |tail|
          ensures tail[i].id != tail[j].id
        {
          assert tail[i] == sorted[i + 1] && tail[j] == sorted[j + 1];
        }
      }
      InsertKeepsDistinctIds(r, tail);
      forall x | x in tail
        ensures x.id != sorted[0].id
      {
        var i :| 0 <= i < |tail| && tail[i] == x;
        assert x == sorted[i + 1];
      }
      DistinctIdsCons(sorted[0], InsertByVersion(r, tail));
    } else if sorted != [] {
      DistinctIdsCons(r, sorted);
    }
  }

  /** The startup read keeps the ids distinct. */
  lemma {:induction false} SortKeepsDistinctIds(rows: seq<Row>)
    requires DistinctIds(rows)
    ensures DistinctIds(SortByVersion(rows))
  {
    if rows != [] {
      var init, last := rows[..|rows| - 1], rows[|rows| - 1];
      assert DistinctIds(init) by {
        forall i, j | 0 <= i < j < |init|
          ensures init[i].id != init[j].id
        {
          assert init[i] == rows[i] && init[j] == rows[j];
        }
      }
      SortKeepsDistinctIds(init);
      var sorted := SortByVersion(init);
      SameElements(init, sorted);
      forall x | x in sorted
        ensures x.id != last.id
      {
        var i :| 0 <= i < |init| && init[i] == x;
        assert x == rows[i];
      }
      InsertKeepsDistinctIds(last, sorted);
    }
  }

  /** With distinct ids, a row's id is deleted exactly when that row is one
      of the deleted rows. */
  lemma RemoveRowsOfDistinctIds(rows: seq<Row>, gone: seq<Row>)
    requires DistinctIds(rows)
    requires forall g :: g in gone ==> g in rows
    ensures forall r :: r in rows ==> (r in RemoveIds(rows, IdsOf(gone)) <==> r !in gone)
  {
    RemoveIdsMembers(rows, IdsOf(gone));
    forall r | r in rows && r.id in IdsOf(gone)
      ensures r in gone
    {
      var g :| g in gone && g.id == r.id;
      var i :| 0 <= i < |rows| && rows[i] == r;
      var j :| 0 <= j < |rows| && rows[j] == g;
      assert i == j;
    }
  }
}

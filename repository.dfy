/** Discovery of migration files: _readPathInfo's file-name pattern, the
    record it builds per file, and the file name down rebuilds from a ledger
    row. */
module Repository {
  import opened Text
  import opened Calendar
  import opened Inflector

  /** PHP's DS on the platforms the shell runs on. */
  const Separator: string := "/"

  /** The two groups of a matching file name: the 14 digits and the name. */
  datatype NameParts = NameParts(date: string, name: string)

  /** One entry of _filesInfo. */
  datatype FileInfo = FileInfo(file: string, timestamp: int, classname: string)

  /** Length of the longest prefix of `s` made of \w characters. */
  function WordRun(s: string): (n: nat)
    ensures n <= |s|
    ensures forall i :: 0 <= i < n ==> IsWordChar(s[i])
    ensures n < |s| ==> !IsWordChar(s[n])
  {
    if s == [] || !IsWordChar(s[0]) then 0 else 1 + WordRun(s[1..])
  }

  /** preg_match('/^(\d{14})_(\w+)\.php/', $file): fourteen digits, '_', a
      greedy run of word characters, then ".php". Nothing anchors the end,
      so anything may follow ".php". */
  function MatchMigrationFile(file: string): (m: Option<NameParts>)
    ensures m.Some? ==>
      var d, n := m.value.date, m.value.name;
      && IsDate14(d) && |n| > 0 && AllWordChars(n)
      && 19 + |n| <= |file|
      && file == d + "_" + n + ".php" + file[19 + |n|..]
  {
    if |file| >= 15 && AllDigits(file[..14]) && file[14] == '_' then
      var n := WordRun(file[15..]);
      if n > 0 && 19 + n <= |file| && file[15 + n..19 + n] == ".php" then
        assert file == file[..14] + "_" + file[15..15 + n] + ".php" + file[19 + n..];
        Some(NameParts(file[..14], file[15..15 + n]))
      else None
    else None
  }

  /** Every name of the form date_name.php followed by anything matches, with
      exactly those two groups. */
  lemma MatchMigrationFileComplete(d: string, w: string, rest: string)
    requires IsDate14(d) && |w| > 0 && AllWordChars(w)
    ensures MatchMigrationFile(d + "_" + w + ".php" + rest) == Some(NameParts(d, w))
  {
    var file := d + "_" + w + ".php" + rest;
    var tail := file[15..];
    assert tail == w + ".php" + rest;
    assert forall i :: 0 <= i < |w| ==> tail[i] == w[i];
    assert tail[|w|] == '.';
    assert WordRun(tail) == |w|;
    assert file[..14] == d;
    assert file[15..15 + |w|] == w;
    assert file[15 + |w|..19 + |w|] == ".php";
  }

  /** The _filesInfo record of one directory entry, if its name matches. */
  function Discovered(path: string, entry: string): Option<FileInfo>
  {
    match MatchMigrationFile(entry)
    case None => None
    case Some(p) => Some(FileInfo(path + Separator + entry, DateToTimestamp(p.date), Camelize(p.name)))
  }

  /** The records `find` gives for a listing, in listing order, entries it
      rejects left out. */
  function DiscoverBy(find: string -> Option<FileInfo>, entries: seq<string>): (files: seq<FileInfo>)
    ensures |files| <= |entries|
  {
    if entries == [] then []
    else
      var init := DiscoverBy(find, entries[..|entries| - 1]);
      match find(entries[|entries| - 1])
      case None => init
      case Some(f) => init + [f]
  }

  /** _filesInfo for a directory listing, in listing order. */
  function Discover(path: string, entries: seq<string>): seq<FileInfo>
  {
    DiscoverBy(e => Discovered(path, e), entries)
  }

  lemma {:induction false} DiscoverBySound(find: string -> Option<FileInfo>, entries: seq<string>, f: FileInfo)
    requires f in DiscoverBy(find, entries)
    ensures exists i :: 0 <= i < |entries| && find(entries[i]) == Some(f)
  {
    var init, last := entries[..|entries| - 1], find(entries[|entries| - 1]);
    assert DiscoverBy(find, entries)
      == if last.Some? then DiscoverBy(find, init) + [last.value] else DiscoverBy(find, init);
    if f in DiscoverBy(find, init) {
      DiscoverBySound(find, init, f);
      var i :| 0 <= i < |init| && find(init[i]) == Some(f);
      assert entries[i] == init[i];
    } else {
      assert last == Some(f);
    }
  }

  lemma {:induction false} DiscoverByComplete(find: string -> Option<FileInfo>, entries: seq<string>, i: int)
    requires 0 <= i < |entries| && find(entries[i]).Some?
    ensures find(entries[i]).value in DiscoverBy(find, entries)
  {
    var init, last := entries[..|entries| - 1], find(entries[|entries| - 1]);
    assert DiscoverBy(find, entries)
      == if last.Some? then DiscoverBy(find, init) + [last.value] else DiscoverBy(find, init);
    if i < |init| {
      assert entries[i] == init[i];
      DiscoverByComplete(find, init, i);
    }
  }

  /** Every record of _filesInfo comes from a matching entry. */
  lemma DiscoverSound(path: string, entries: seq<string>, f: FileInfo)
    requires f in Discover(path, entries)
    ensures exists i :: 0 <= i < |entries| && Discovered(path, entries[i]) == Some(f)
  {
    var find := e => Discovered(path, e);
    DiscoverBySound(find, entries, f);
    var i :| 0 <= i < |entries| && find(entries[i]) == Some(f);
    assert Discovered(path, entries[i]) == Some(f);
  }

  /** Every matching entry has its record in _filesInfo. */
  lemma DiscoverComplete(path: string, entries: seq<string>, i: int)
    requires 0 <= i < |entries| && Discovered(path, entries[i]).Some?
    ensures Discovered(path, entries[i]).value in Discover(path, entries)
  {
    var find := e => Discovered(path, e);
    assert find(entries[i]) == Discovered(path, entries[i]);
    DiscoverByComplete(find, entries, i);
  }

  /** The file down executes for a ledger row:
      path/date('YmdHis', version)_underscore(classname).php */
  function RevertFile(path: string, version: int, classname: string): string
  {
    path + Separator + FormatYmdHis(version) + "_" + Underscore(classname) + ".php"
  }

  lemma {:induction false} SnakeNameIsWord(w: string)
    requires IsSnakeTail(w)
    ensures AllWordChars(w)
    decreases |w|
  {
    if w != [] {
      SnakeNameIsWord(w[1..]);
      assert forall i :: 1 <= i < |w| ==> w[i] == w[1..][i - 1];
    }
  }

  /** For a file named date_name.php with a calendar date and a snake_case
      name, the row up writes for it leads down back to the same file. */
  lemma RevertFileFindsDiscoveredFile(path: string, date: string, name: string)
    requires IsDate14(date) && IsCalendarDate(date) && IsSnakeName(name)
    ensures var f := Discovered(path, date + "_" + name + ".php");
      f.Some? && RevertFile(path, f.value.timestamp, f.value.classname) == f.value.file
  {
    var file := date + "_" + name + ".php";
    SnakeNameIsWord(name);
    MatchMigrationFileComplete(date, name, "");
    assert file + "" == file;
    var ts, cls := DateToTimestamp(date), Camelize(name);
    assert Discovered(path, file) == Some(FileInfo(path + Separator + file, ts, cls));
    FormatInvertsDateToTimestamp(date);
    UnderscoreCamelize(name);
    RevertFileParts(path, ts, cls, date, name);
  }

  lemma RevertFileParts(path: string, ts: int, cls: string, date: string, name: string)
    requires FormatYmdHis(ts) == date && Underscore(cls) == name
    ensures RevertFile(path, ts, cls) == path + Separator + (date + "_" + name + ".php")
  {
  }

  /** With text after ".php" (say "..._name.php.bak") the file is still
      discovered and installed, but down looks for a different file. */
  lemma RevertFileMissesTrailingText(path: string, date: string, name: string, rest: string)
    requires IsDate14(date) && IsCalendarDate(date) && IsSnakeName(name) && |rest| > 0
    ensures var f := Discovered(path, date + "_" + name + ".php" + rest);
      f.Some? && RevertFile(path, f.value.timestamp, f.value.classname) != f.value.file
  {
    SnakeNameIsWord(name);
    MatchMigrationFileComplete(date, name, rest);
    FormatInvertsDateToTimestamp(date);
    UnderscoreCamelize(name);
  }
}

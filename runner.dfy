/** What up, down and the drop phase of reset decide: which migrations run,
    in what order, what is written to or removed from the ledger, and where a
    run halts. The shell's methods are proved to do exactly this. */
module Runner {
  import opened Text
  import opened Calendar
  import opened Repository
  import opened Ledger

  datatype Action = Install | Uninstall

  /** One call _exec($action, $file, $classname). */
  datatype Attempt = Attempt(action: Action, file: string, classname: string)

  /** What _exec answers for a call: whether the file could be read, held the
      class, the class extends Migration, and its install/uninstall returned
      true. */
  type Exec = Attempt -> bool

  /** A command's return value: a message, or PHP's false. */
  datatype Reply = Message(text: string) | Refused

  const AllUpdated: string := "All updated.\n"
  const AllDown: string := "All down.\n"
  const NothingInstalled: string := "No version installed.\n"
  const Resetted: string := "Resetted.\n"

  function Min(a: int, b: int): int { if a <= b then a else b }

  /** Index of the first element `ok` rejects, or |xs| when it accepts all. */
  function FirstFalse<T>(xs: seq<T>, ok: T -> bool): (k: nat)
    ensures k <= |xs|
  {
    if xs == [] then 0 else if !ok(xs[0]) then 0 else 1 + FirstFalse(xs[1..], ok)
  }

  lemma {:induction false} FirstFalseSpec<T>(xs: seq<T>, ok: T -> bool)
    ensures forall i :: 0 <= i < FirstFalse(xs, ok) ==> ok(xs[i])
    ensures FirstFalse(xs, ok) < |xs| ==> !ok(xs[FirstFalse(xs, ok)])
  {
    if xs != [] && ok(xs[0]) {
      FirstFalseSpec(xs[1..], ok);
      forall i | 1 <= i < FirstFalse(xs, ok)
        ensures ok(xs[i])
      {
        assert xs[i] == xs[1..][i - 1];
      }
    }
  }

  // ---------------------------------------------------------------- up

  /** The files up considers, in _filesInfo order: last < timestamp <= target. */
  function Window(files: seq<FileInfo>, last: int, target: int): (w: seq<FileInfo>)
    ensures |w| <= |files|
  {
    if files == [] then []
    else
      var f := files[|files| - 1];
      Window(files[..|files| - 1], last, target) + (if last < f.timestamp <= target then [f] else [])
  }

  /** The window holds exactly the files with last < timestamp <= target. */
  lemma {:induction false} WindowMembers(files: seq<FileInfo>, last: int, target: int)
    ensures forall f :: f in Window(files, last, target) <==> f in files && last < f.timestamp <= target
  {
    if files != [] {
      var init, f := files[..|files| - 1], files[|files| - 1];
      assert files == init + [f];
      WindowMembers(init, last, target);
    }
  }

  lemma {:induction false} WindowAppend(a: seq<FileInfo>, b: seq<FileInfo>, last: int, target: int)
    ensures Window(a + b, last, target) == Window(a, last, target) + Window(b, last, target)
    decreases |b|
  {
    if b != [] {
      var init := b[..|b| - 1];
      assert (a + b)[..|a + b| - 1] == a + init;
      WindowAppend(a, init, last, target);
    } else {
      assert a + b == a;
    }
  }

  function InstallAttempts(files: seq<FileInfo>): (at: seq<Attempt>)
    ensures |at| == |files|
  {
    seq(|files|, i requires 0 <= i < |files| => Attempt(Install, files[i].file, files[i].classname))
  }

  /** The ledger rows up saves for `files`, with ids handed out from `id0`. */
  function NewRows(files: seq<FileInfo>, id0: int, now: int): (rows: seq<Row>)
    ensures |rows| == |files|
  {
    seq(|files|, i requires 0 <= i < |files| => Row(id0 + i, files[i].timestamp, files[i].classname, now))
  }

  /** up's target: the parsed argument, or now without one; None when the
      argument is not 14 digits. */
  function UpTarget(arg: Option<string>, now: int): Option<int>
  {
    match arg
    case None => Some(now)
    case Some(s) => if IsDate14(s) then Some(DateToTimestamp(s)) else None
  }

  datatype UpRun = UpRun(reply: Reply, attempted: seq<Attempt>, applied: seq<FileInfo>)

  /** Install the files of `w` in order until one fails; every file
      installed gets a ledger row. */
  function InstallRun(w: seq<FileInfo>, exec: Exec): UpRun
  {
    var k := FirstFalse(InstallAttempts(w), exec);
    UpRun(if k == |w| then Message(AllUpdated) else Refused, InstallAttempts(w)[..Min(k + 1, |w|)], w[..k])
  }

  /** One run of up from lastVersion `last`: the install run over the window
      below the target. */
  function UpOutcome(files: seq<FileInfo>, last: int, exec: Exec, arg: Option<string>, now: int): UpRun
  {
    match UpTarget(arg, now)
    case None => UpRun(Refused, [], [])
    case Some(t) => InstallRun(Window(files, last, t), exec)
  }

  /** FirstFalse is pinned down by its contract: the first index whose
      element is rejected. */
  lemma FirstFalseAt<T>(xs: seq<T>, ok: T -> bool, k: nat)
    requires k <= |xs|
    requires forall j :: 0 <= j < k ==> ok(xs[j])
    requires k < |xs| ==> !ok(xs[k])
    ensures FirstFalse(xs, ok) == k
  {
    FirstFalseSpec(xs, ok);
  }

  lemma WindowSingle(f: FileInfo, last: int, target: int)
    ensures Window([f], last, target) == if last < f.timestamp <= target then [f] else []
  {
    assert [f][..0] == [];
  }

  /** Peeling the first file off the window's input. */
  lemma WindowCons(files: seq<FileInfo>, i: nat, last: int, target: int)
    requires i < |files|
    ensures Window(files[i..], last, target)
      == (if last < files[i].timestamp <= target then [files[i]] else []) + Window(files[i + 1..], last, target)
  {
    assert files[i..] == [files[i]] + files[i + 1..];
    WindowAppend([files[i]], files[i + 1..], last, target);
    WindowSingle(files[i], last, target);
  }

  /** up's loop as it walks _filesInfo from position `i` on: skip a file
      outside last < timestamp <= t, install one inside, stop at the first
      failure. */
  function InstallFrom(files: seq<FileInfo>, i: nat, last: int, t: int, exec: Exec): UpRun
    requires i <= |files|
    decreases |files| - i
  {
    if i == |files| then UpRun(Message(AllUpdated), [], [])
    else
      var f := files[i];
      if !(last < f.timestamp <= t) then InstallFrom(files, i + 1, last, t, exec)
      else
        var a := Attempt(Install, f.file, f.classname);
        if !exec(a) then UpRun(Refused, [a], [])
        else
          var rest := InstallFrom(files, i + 1, last, t, exec);
          UpRun(rest.reply, [a] + rest.attempted, [f] + rest.applied)
  }

  lemma InstallRunCons(f: FileInfo, w: seq<FileInfo>, exec: Exec)
    ensures var a := Attempt(Install, f.file, f.classname);
      InstallRun([f] + w, exec)
        == if !exec(a) then UpRun(Refused, [a], [])
           else var rest := InstallRun(w, exec); UpRun(rest.reply, [a] + rest.attempted, [f] + rest.applied)
  {
    var a := Attempt(Install, f.file, f.classname);
    var at := InstallAttempts([f] + w);
    assert at == [a] + InstallAttempts(w);
    assert at[1..] == InstallAttempts(w);
    var k := FirstFalse(InstallAttempts(w), exec);
    if exec(a) {
      assert FirstFalse(at, exec) == 1 + k;
      assert ([f] + w)[..1 + k] == [f] + w[..k];
      assert at[..Min(k + 2, |at|)] == [a] + InstallAttempts(w)[..Min(k + 1, |w|)];
    }
  }

  /** The loop's walk and the window definition agree: walking the files
      from position `i` installs the window of files[i..], in order, until
      one fails. */
  lemma {:induction false} InstallFromIsInstallRun(files: seq<FileInfo>, i: nat, last: int, t: int, exec: Exec)
    requires i <= |files|
    ensures InstallFrom(files, i, last, t, exec) == InstallRun(Window(files[i..], last, t), exec)
    decreases |files| - i
  {
    if i == |files| {
      assert files[i..] == [];
      assert InstallAttempts([]) == [];
    } else {
      var f := files[i];
      WindowCons(files, i, last, t);
      InstallFromIsInstallRun(files, i + 1, last, t, exec);
      if last < f.timestamp <= t {
        InstallRunCons(f, Window(files[i + 1..], last, t), exec);
      } else {
        assert Window(files[i..], last, t) == Window(files[i + 1..], last, t);
      }
    }
  }

  /** A date argument that is not 14 digits is refused before anything runs. */
  lemma UpRejectsMalformedDate(files: seq<FileInfo>, last: int, exec: Exec, s: string, now: int)
    requires !IsDate14(s)
    ensures UpOutcome(files, last, exec, Some(s), now) == UpRun(Refused, [], [])
  {
  }

  /** A run that succeeds installed exactly the files with
      last < timestamp <= target, each once, in _filesInfo order. */
  lemma UpAppliesWindow(files: seq<FileInfo>, last: int, exec: Exec, arg: Option<string>, now: int)
    requires UpOutcome(files, last, exec, arg, now).reply.Message?
    ensures UpTarget(arg, now).Some?
    ensures var run := UpOutcome(files, last, exec, arg, now);
      && run.applied == Window(files, last, UpTarget(arg, now).value)
      && run.attempted == InstallAttempts(run.applied)
      && forall f :: f in run.applied <==> f in files && last < f.timestamp <= UpTarget(arg, now).value
  {
    var t := UpTarget(arg, now).value;
    var w := Window(files, last, t);
    WindowMembers(files, last, t);
    assert w[..|w|] == w;
    assert InstallAttempts(w)[..|w|] == InstallAttempts(w);
  }

  /** A run that fails stops at the first failed install: every earlier file
      of the window was installed, the failed one gets no row, and nothing
      after it is attempted. */
  lemma UpHaltsAtFirstFailure(files: seq<FileInfo>, last: int, exec: Exec, arg: Option<string>, now: int)
    requires UpTarget(arg, now).Some?
    requires UpOutcome(files, last, exec, arg, now).reply.Refused?
    ensures var run := UpOutcome(files, last, exec, arg, now);
      var w := Window(files, last, UpTarget(arg, now).value);
      var k := |run.applied|;
      && k < |w|
      && run.applied == w[..k]
      && run.attempted == InstallAttempts(run.applied) + [Attempt(Install, w[k].file, w[k].classname)]
      && (forall i :: 0 <= i < k ==> exec(run.attempted[i]))
      && !exec(run.attempted[k])
  {
    var w := Window(files, last, UpTarget(arg, now).value);
    var k := FirstFalse(InstallAttempts(w), exec);
    FirstFalseSpec(InstallAttempts(w), exec);
    assert InstallAttempts(w)[..k + 1] == InstallAttempts(w[..k]) + [InstallAttempts(w)[k]];
  }

  /** Files whose version is at or below lastVersion are never run again. */
  lemma UpNeverRevisits(files: seq<FileInfo>, last: int, exec: Exec, arg: Option<string>, now: int)
    ensures forall f :: f in UpOutcome(files, last, exec, arg, now).applied ==> last < f.timestamp
  {
    match UpTarget(arg, now)
    case None =>
    case Some(t) =>
      var w := Window(files, last, t);
      var k := FirstFalse(InstallAttempts(w), exec);
      WindowMembers(files, last, t);
      assert forall f :: f in w[..k] ==> f in w;
  }

  lemma {:induction false} WindowEmpty(files: seq<FileInfo>, last: int, target: int)
    requires forall f :: f in files ==> !(last < f.timestamp <= target)
    ensures Window(files, last, target) == []
  {
    if files != [] {
      var init := files[..|files| - 1];
      assert files[|files| - 1] in files;
      assert forall f :: f in init ==> f in files;
      WindowEmpty(init, last, target);
    }
  }

  predicate AscendingFiles(files: seq<FileInfo>)
  {
    forall i, j :: 0 <= i < j < |files| ==> files[i].timestamp <= files[j].timestamp
  }

  lemma {:induction false} WindowKeepsOrder(files: seq<FileInfo>, last: int, target: int)
    requires AscendingFiles(files)
    ensures AscendingFiles(Window(files, last, target))
  {
    if files != [] {
      var init, f := files[..|files| - 1], files[|files| - 1];
      WindowKeepsOrder(init, last, target);
      WindowMembers(init, last, target);
      var w := Window(init, last, target);
      forall g | g in w
        ensures g.timestamp <= f.timestamp
      {
        var i :| 0 <= i < |init| && init[i] == g;
      }
    }
  }

  /** When the files are listed in timestamp order (the listing is never
      sorted by the shell itself), up installs them in ascending order. */
  lemma UpInAscendingOrder(files: seq<FileInfo>, last: int, exec: Exec, arg: Option<string>, now: int)
    requires AscendingFiles(files)
    ensures AscendingFiles(UpOutcome(files, last, exec, arg, now).applied)
  {
    match UpTarget(arg, now)
    case None =>
    case Some(t) =>
      WindowKeepsOrder(files, last, t);
  }

  /** The rows saved for `applied`, all above the old lastVersion, make the
      new lastVersion cover every one of them and not fall below the old. */
  lemma NewLastCovers(rows: seq<Row>, applied: seq<FileInfo>, id0: int, now: int)
    requires forall f :: f in applied ==> LastVersion(SortByVersion(rows)) < f.timestamp
    ensures var last' := LastVersion(SortByVersion(rows + NewRows(applied, id0, now)));
      && LastVersion(SortByVersion(rows)) <= last'
      && forall f :: f in applied ==> f.timestamp <= last'
  {
    var last := LastVersion(SortByVersion(rows));
    var added := NewRows(applied, id0, now);
    var rows' := rows + added;
    var last' := LastVersion(SortByVersion(rows'));
    LastVersionIsHighest(rows);
    LastVersionIsHighest(rows');
    if rows != [] {
      var r :| r in rows && r.version == last;
      assert r in rows';
    } else if added != [] {
      assert added[0] in rows';
      assert applied[0] in applied;
    }
    forall f | f in applied
      ensures f.timestamp <= last'
    {
      var i :| 0 <= i < |applied| && applied[i] == f;
      assert added[i] in rows';
    }
  }

  /** Once every file of a window is at or below a new lastVersion that has
      not gone down, the window above it, for the same target, is empty. */
  lemma WindowClosed(files: seq<FileInfo>, last: int, last': int, t: int)
    requires last <= last'
    requires forall f :: f in Window(files, last, t) ==> f.timestamp <= last'
    ensures Window(files, last', t) == []
  {
    WindowMembers(files, last, t);
    WindowEmpty(files, last', t);
  }

  /** Running up again in a new shell, after a run that succeeded, with the
      same target and the same files, does nothing: the window above the new
      lastVersion is empty. */
  lemma UpIdempotent(rows: seq<Row>, files: seq<FileInfo>, exec: Exec, arg: Option<string>, now: int, id0: int)
    requires UpOutcome(files, LastVersion(SortByVersion(rows)), exec, arg, now).reply.Message?
    ensures var run := UpOutcome(files, LastVersion(SortByVersion(rows)), exec, arg, now);
      var rows' := rows + NewRows(run.applied, id0, now);
      UpOutcome(files, LastVersion(SortByVersion(rows')), exec, arg, now)
        == UpRun(Message(AllUpdated), [], [])
  {
    var last := LastVersion(SortByVersion(rows));
    var run := UpOutcome(files, last, exec, arg, now);
    UpAppliesWindow(files, last, exec, arg, now);
    var t := UpTarget(arg, now).value;
    WindowMembers(files, last, t);
    NewLastCovers(rows, run.applied, id0, now);
    var last' := LastVersion(SortByVersion(rows + NewRows(run.applied, id0, now)));
    WindowClosed(files, last, last', t);
  }

  // ---------------------------------------------------------------- down

  /** down's target: 0 for "all"; otherwise the 14-digit argument parsed, or
      lastVersion - 1 for "last"; None for a missing or other argument. */
  function DownTarget(all: bool, arg: Option<string>, last: int): Option<int>
  {
    if all then Some(0)
    else match arg
      case None => None
      case Some(s) =>
        if IsDate14(s) then Some(DateToTimestamp(s))
        else if s == "last" then Some(last - 1)
        else None
  }

  /** How many rows at the end of the ledger have a version above `target`:
      the rows down visits before it stops. */
  function TrailingAbove(rows: seq<Row>, target: int): (n: nat)
    ensures n <= |rows|
  {
    if rows == [] || rows[|rows| - 1].version <= target then 0
    else 1 + TrailingAbove(rows[..|rows| - 1], target)
  }

  /** The trailing rows counted are all above the target, and the row
      before them (if any) is not. */
  lemma {:induction false} TrailingAboveSpec(rows: seq<Row>, target: int)
    ensures forall j :: |rows| - TrailingAbove(rows, target) <= j < |rows| ==> rows[j].version > target
    ensures TrailingAbove(rows, target) < |rows| ==> rows[|rows| - 1 - TrailingAbove(rows, target)].version <= target
  {
    if rows != [] && rows[|rows| - 1].version > target {
      var init := rows[..|rows| - 1];
      TrailingAboveSpec(init, target);
      assert forall j :: 0 <= j < |init| ==> rows[j] == init[j];
    }
  }

  /** The rows down reverts, newest first. */
  function RevertOrder(rows: seq<Row>, target: int): (plan: seq<Row>)
    ensures |plan| == TrailingAbove(rows, target)
    ensures forall j :: 0 <= j < |plan| ==> plan[j] == rows[|rows| - 1 - j]
  {
    var n := TrailingAbove(rows, target);
    seq(n, j requires 0 <= j < n => rows[|rows| - 1 - j])
  }

  /** The row down visits in step k is the k-th from the end of the ledger. */
  lemma RevertOrderAt(rows: seq<Row>, target: int, k: nat)
    requires k < |RevertOrder(rows, target)|
    ensures k < |rows| && RevertOrder(rows, target)[k] == rows[|rows| - 1 - k]
  {
  }

  /** The _exec call down makes for one ledger row: uninstall the file named
      after the row's version and class. */
  function UninstallAttempt(path: string, r: Row): Attempt
  {
    Attempt(Uninstall, RevertFile(path, r.version, r.classname), r.classname)
  }

  /** UninstallAttempt for the migrations in `path`, as a function value. */
  function Uninstaller(path: string): Row -> Attempt
  {
    r => UninstallAttempt(path, r)
  }

  /** The _exec calls for the rows of `plan`, in order. */
  function RevertAttempts(uninstall: Row -> Attempt, plan: seq<Row>): (at: seq<Attempt>)
    ensures |at| == |plan|
    ensures forall j :: 0 <= j < |plan| ==> at[j] == uninstall(plan[j])
  {
    seq(|plan|, j requires 0 <= j < |plan| => uninstall(plan[j]))
  }

  datatype DownRun = DownRun(reply: Reply, attempted: seq<Attempt>, reverted: seq<Row>)

  /** Uninstall the rows of `plan` in order, each through the _exec call
      `uninstall` builds for it, until one fails. */
  function RevertRun(plan: seq<Row>, uninstall: Row -> Attempt, exec: Exec): DownRun
  {
    var at := RevertAttempts(uninstall, plan);
    var k := FirstFalse(at, exec);
    DownRun(if k == |plan| then Message(AllDown) else Refused, at[..Min(k + 1, |at|)], plan[..k])
  }

  /** down's loop as it walks the rows read at startup back from the row
      before position `n`: stop at the front or at a row at or below the
      target, uninstall the others, stop at the first failure. */
  function RevertFrom(rows: seq<Row>, n: nat, t: int, uninstall: Row -> Attempt, exec: Exec): DownRun
    requires n <= |rows|
  {
    if n == 0 || rows[n - 1].version <= t then DownRun(Message(AllDown), [], [])
    else
      var r := rows[n - 1];
      if !exec(uninstall(r)) then DownRun(Refused, [uninstall(r)], [])
      else
        var rest := RevertFrom(rows, n - 1, t, uninstall, exec);
        DownRun(rest.reply, [uninstall(r)] + rest.attempted, [r] + rest.reverted)
  }

  lemma RevertOrderCons(rows: seq<Row>, t: int)
    requires rows != [] && rows[|rows| - 1].version > t
    ensures RevertOrder(rows, t) == [rows[|rows| - 1]] + RevertOrder(rows[..|rows| - 1], t)
  {
    var init := rows[..|rows| - 1];
    var plan, rest := RevertOrder(rows, t), RevertOrder(init, t);
    assert |plan| == 1 + |rest|;
    forall j | 0 <= j < |plan|
      ensures plan[j] == ([rows[|rows| - 1]] + rest)[j]
    {
      if j > 0 {
        assert rest[j - 1] == init[|init| - 1 - (j - 1)];
      }
    }
  }

  lemma RevertRunCons(r: Row, plan: seq<Row>, uninstall: Row -> Attempt, exec: Exec)
    ensures RevertRun([r] + plan, uninstall, exec)
      == if !exec(uninstall(r)) then DownRun(Refused, [uninstall(r)], [])
         else var rest := RevertRun(plan, uninstall, exec);
           DownRun(rest.reply, [uninstall(r)] + rest.attempted, [r] + rest.reverted)
  {
    var at := RevertAttempts(uninstall, [r] + plan);
    var tail := RevertAttempts(uninstall, plan);
    assert at == [uninstall(r)] + tail;
    assert at[1..] == tail;
    var k := FirstFalse(tail, exec);
    if exec(uninstall(r)) {
      assert FirstFalse(at, exec) == 1 + k;
      assert ([r] + plan)[..1 + k] == [r] + plan[..k];
      assert at[..Min(k + 2, |at|)] == [uninstall(r)] + tail[..Min(k + 1, |tail|)];
    }
  }

  /** The loop's walk and the plan definition agree: walking back from the
      row before position `n` uninstalls the rows of rows[..n] above the
      target, newest first, until one fails. */
  lemma {:induction false} RevertFromIsRevertRun(rows: seq<Row>, n: nat, t: int, uninstall: Row -> Attempt, exec: Exec)
    requires n <= |rows|
    ensures RevertFrom(rows, n, t, uninstall, exec) == RevertRun(RevertOrder(rows[..n], t), uninstall, exec)
  {
    if n == 0 || rows[n - 1].version <= t {
      assert RevertOrder(rows[..n], t) == [];
      assert RevertAttempts(uninstall, []) == [];
    } else {
      RevertFromIsRevertRun(rows, n - 1, t, uninstall, exec);
      RevertOrderCons(rows[..n], t);
      assert rows[..n][..n - 1] == rows[..n - 1];
      RevertRunCons(rows[n - 1], RevertOrder(rows[..n - 1], t), uninstall, exec);
    }
  }

  /** One run of down over the rows read at startup (`versions`). */
  function DownOutcome(versions: seq<Row>, last: int, path: string, exec: Exec, all: bool, arg: Option<string>): DownRun
  {
    if last == 0 then DownRun(Message(NothingInstalled), [], [])
    else match DownTarget(all, arg, last)
      case None => DownRun(Refused, [], [])
      case Some(t) => RevertRun(RevertOrder(versions, t), Uninstaller(path), exec)
  }

  /** Past the argument checks, down is the run over its plan. */
  lemma DownRunsPlan(versions: seq<Row>, last: int, path: string, exec: Exec, all: bool, arg: Option<string>, t: int)
    requires last != 0 && DownTarget(all, arg, last) == Some(t)
    ensures DownOutcome(versions, last, path, exec, all, arg) == RevertRun(RevertOrder(versions, t), Uninstaller(path), exec)
  {
  }

  /** With nothing installed down answers so and touches nothing; reset
      treats that message as success. */
  lemma DownNothingInstalled(versions: seq<Row>, path: string, exec: Exec, all: bool, arg: Option<string>)
    ensures DownOutcome(versions, 0, path, exec, all, arg) == DownRun(Message(NothingInstalled), [], [])
  {
  }

  /** Without "all", a missing argument, or one that is neither 14 digits nor
      "last", is refused and nothing runs. */
  lemma DownRejectsBadArgument(versions: seq<Row>, last: int, path: string, exec: Exec, arg: Option<string>)
    requires last != 0
    requires arg.None? || (!IsDate14(arg.value) && arg.value != "last")
    ensures DownOutcome(versions, last, path, exec, false, arg) == DownRun(Refused, [], [])
  {
  }

  /** down reverts a block of the newest rows, newest first, each through a
      successful uninstall of the file named after its version and class. */
  lemma DownRevertsNewestFirst(versions: seq<Row>, last: int, path: string, exec: Exec, all: bool, arg: Option<string>)
    ensures var run := DownOutcome(versions, last, path, exec, all, arg);
      && |run.reverted| <= |versions|
      && |run.reverted| <= |run.attempted|
      && (forall j :: 0 <= j < |run.reverted| ==> run.reverted[j] == versions[|versions| - 1 - j])
      && (forall j :: 0 <= j < |run.reverted| ==> run.attempted[j] == UninstallAttempt(path, run.reverted[j]))
      && (forall j :: 0 <= j < |run.reverted| ==> exec(run.attempted[j]))
  {
    if last != 0 && DownTarget(all, arg, last).Some? {
      var plan := RevertOrder(versions, DownTarget(all, arg, last).value);
      var at := RevertAttempts(Uninstaller(path), plan);
      var k := FirstFalse(at, exec);
      FirstFalseSpec(at, exec);
      var run := DownOutcome(versions, last, path, exec, all, arg);
      assert run == RevertRun(plan, Uninstaller(path), exec);
      assert run.reverted == plan[..k];
      assert run.attempted == at[..Min(k + 1, |at|)];
    }
  }

  /** A down that fails halts at the first uninstall that returns false: that
      row and every older row stay, and nothing after it is attempted. */
  lemma DownHaltsAtFailedRow(versions: seq<Row>, last: int, path: string, exec: Exec, all: bool, arg: Option<string>)
    requires last != 0 && DownTarget(all, arg, last).Some?
    requires DownOutcome(versions, last, path, exec, all, arg).reply.Refused?
    ensures var run := DownOutcome(versions, last, path, exec, all, arg);
      var plan := RevertOrder(versions, DownTarget(all, arg, last).value);
      var k := |run.reverted|;
      && k < |plan|
      && run.reverted == plan[..k]
      && plan[k] == versions[|versions| - 1 - k]
      && |run.attempted| == k + 1
      && run.attempted[k] == UninstallAttempt(path, plan[k])
      && !exec(run.attempted[k])
  {
    var plan := RevertOrder(versions, DownTarget(all, arg, last).value);
    assert DownOutcome(versions, last, path, exec, all, arg) == RevertRun(plan, Uninstaller(path), exec);
    RevertRunHalts(plan, Uninstaller(path), exec);
    RevertOrderAt(versions, DownTarget(all, arg, last).value, |RevertRun(plan, Uninstaller(path), exec).reverted|);
  }

  lemma RevertRunSucceeds(plan: seq<Row>, uninstall: Row -> Attempt, exec: Exec)
    requires RevertRun(plan, uninstall, exec).reply.Message?
    ensures RevertRun(plan, uninstall, exec).reverted == plan
  {
    assert plan[..|plan|] == plan;
  }

  lemma RevertRunHalts(plan: seq<Row>, uninstall: Row -> Attempt, exec: Exec)
    requires RevertRun(plan, uninstall, exec).reply.Refused?
    ensures var run := RevertRun(plan, uninstall, exec);
      var k := |run.reverted|;
      && k < |plan|
      && run.reverted == plan[..k]
      && |run.attempted| == k + 1
      && run.attempted[k] == uninstall(plan[k])
      && !exec(run.attempted[k])
  {
    var at := RevertAttempts(uninstall, plan);
    var k := FirstFalse(at, exec);
    FirstFalseSpec(at, exec);
    assert RevertRun(plan, uninstall, exec).attempted == at[..k + 1];
  }

  /** Over an ascending ledger, the rows down visits are exactly those with a
      version above the target. */
  lemma RevertOrderIsAboveTarget(versions: seq<Row>, target: int)
    requires Ascending(versions)
    ensures forall r :: r in RevertOrder(versions, target) <==> r in versions && r.version > target
  {
    var plan := RevertOrder(versions, target);
    var n := |plan|;
    TrailingAboveSpec(versions, target);
    forall r | r in versions && r.version > target
      ensures r in plan
    {
      var i :| 0 <= i < |versions| && versions[i] == r;
      if n < |versions| {
        assert versions[|versions| - 1 - n].version <= target;
      }
      assert plan[|versions| - 1 - i] == r;
    }
  }

  /** down("last") over a ledger with ascending, distinct versions reverts
      exactly the newest row. */
  lemma DownLastRevertsNewest(versions: seq<Row>)
    requires StrictlyAscending(versions) && versions != []
    ensures RevertOrder(versions, LastVersion(versions) - 1) == [versions[|versions| - 1]]
  {
    var plan := RevertOrder(versions, LastVersion(versions) - 1);
    TrailingAboveSpec(versions, LastVersion(versions) - 1);
    if |versions| > 1 {
      assert versions[|versions| - 2].version < versions[|versions| - 1].version;
    }
    assert |plan| == 1;
  }

  /** In a new shell (rows read back in ascending order), a down that
      succeeds leaves no row in the table with a version above the target. */
  lemma DownClearsAboveTarget(rows: seq<Row>, path: string, exec: Exec, all: bool, arg: Option<string>)
    requires var versions := SortByVersion(rows); var last := LastVersion(versions);
      && last != 0 && DownTarget(all, arg, last).Some?
      && DownOutcome(versions, last, path, exec, all, arg).reply.Message?
    ensures var versions := SortByVersion(rows); var last := LastVersion(versions);
      var run := DownOutcome(versions, last, path, exec, all, arg);
      forall r :: r in RemoveIds(rows, IdsOf(run.reverted)) ==> r.version <= DownTarget(all, arg, last).value
  {
    var versions := SortByVersion(rows);
    var last := LastVersion(versions);
    var t := DownTarget(all, arg, last).value;
    var run := DownOutcome(versions, last, path, exec, all, arg);
    var plan := RevertOrder(versions, t);
    DownRunsPlan(versions, last, path, exec, all, arg, t);
    RevertRunSucceeds(plan, Uninstaller(path), exec);
    RevertOrderIsAboveTarget(versions, t);
    RemoveIdsMembers(rows, IdsOf(run.reverted));
    forall r | r in rows && r.version > t
      ensures r.id in IdsOf(run.reverted)
    {
      assert r in multiset(versions);
      assert r in plan;
    }
  }

  /** down(all) in a new shell empties the ledger when every version is
      positive (rows at or below 0 are never reverted, the target being 0). */
  lemma DownAllEmptiesLedger(rows: seq<Row>, path: string, exec: Exec)
    requires forall r :: r in rows ==> r.version > 0
    requires var versions := SortByVersion(rows);
      DownOutcome(versions, LastVersion(versions), path, exec, true, None).reply == Message(AllDown)
    ensures var versions := SortByVersion(rows);
      RemoveIds(rows, IdsOf(DownOutcome(versions, LastVersion(versions), path, exec, true, None).reverted)) == []
  {
    var versions := SortByVersion(rows);
    var last := LastVersion(versions);
    var run := DownOutcome(versions, last, path, exec, true, None);
    var kept := RemoveIds(rows, IdsOf(run.reverted));
    assert kept == [] || kept[0] in kept;
    assert last != 0;
    DownClearsAboveTarget(rows, path, exec, true, None);
    RemoveIdsMembers(rows, IdsOf(run.reverted));
  }

  /** In a new shell over a table with distinct ids, down deletes exactly
      the rows it reverted: every other row stays. */
  lemma {:induction false} DownDeletesOnlyReverted(rows: seq<Row>, path: string, exec: Exec, all: bool, arg: Option<string>)
    requires DistinctIds(rows)
    ensures var versions := SortByVersion(rows);
      var run := DownOutcome(versions, LastVersion(versions), path, exec, all, arg);
      forall r :: r in RemoveIds(rows, IdsOf(run.reverted)) <==> r in rows && r !in run.reverted
  {
    var versions := SortByVersion(rows);
    var run := DownOutcome(versions, LastVersion(versions), path, exec, all, arg);
    DownRevertsNewestFirst(versions, LastVersion(versions), path, exec, all, arg);
    SameElements(rows, versions);
    forall g | g in run.reverted
      ensures g in rows
    {
      var j :| 0 <= j < |run.reverted| && run.reverted[j] == g;
      assert g == versions[|versions| - 1 - j];
    }
    RemoveIdsMembers(rows, IdsOf(run.reverted));
    RemoveRowsOfDistinctIds(rows, run.reverted);
  }

  /** A block taken from the end of a sequence with distinct ids, newest
      first, holds none of the rows before it. */
  lemma NewestBlockMissesOlder(versions: seq<Row>, block: seq<Row>)
    requires DistinctIds(versions) && |block| <= |versions|
    requires forall j :: 0 <= j < |block| ==> block[j] == versions[|versions| - 1 - j]
    ensures forall i :: 0 <= i < |versions| - |block| ==> versions[i] !in block
  {
    forall i, j | 0 <= i < |versions| - |block| && 0 <= j < |block|
      ensures block[j] != versions[i]
    {
      assert versions[i].id != versions[|versions| - 1 - j].id;
    }
  }

  /** A down that fails stops at the row k-th from the end, after
      reverting the k newer rows, and with distinct ids none of the rows from
      the failed one down is among those reverted. */
  lemma DownFailedRowIsOldestTouched(versions: seq<Row>, last: int, path: string, exec: Exec, all: bool, arg: Option<string>)
    requires DistinctIds(versions)
    requires last != 0 && DownTarget(all, arg, last).Some?
    requires DownOutcome(versions, last, path, exec, all, arg).reply.Refused?
    ensures var run := DownOutcome(versions, last, path, exec, all, arg);
      var k := |run.reverted|;
      && k < |versions| && |run.attempted| == k + 1
      && run.attempted[k] == UninstallAttempt(path, versions[|versions| - 1 - k])
      && (forall i :: 0 <= i < |versions| - k ==> versions[i] !in run.reverted)
  {
    var run := DownOutcome(versions, last, path, exec, all, arg);
    DownHaltsAtFailedRow(versions, last, path, exec, all, arg);
    DownRevertsNewestFirst(versions, last, path, exec, all, arg);
    NewestBlockMissesOlder(versions, run.reverted);
  }

  /** In a new shell over a table with distinct ids, a down that fails
      keeps the row whose uninstall failed (versions[|versions| - 1 - k],
      see DownFailedRowIsOldestTouched) and every older row, and deletes the
      newer rows it reverted before that. */
  lemma {:induction false} DownFailureKeepsOlderRows(rows: seq<Row>, path: string, exec: Exec, all: bool, arg: Option<string>)
    requires DistinctIds(rows)
    requires var versions := SortByVersion(rows); var last := LastVersion(versions);
      && last != 0 && DownTarget(all, arg, last).Some?
      && DownOutcome(versions, last, path, exec, all, arg).reply.Refused?
    ensures var versions := SortByVersion(rows);
      var run := DownOutcome(versions, LastVersion(versions), path, exec, all, arg);
      var k := |run.reverted|;
      var kept := RemoveIds(rows, IdsOf(run.reverted));
      && k < |versions|
      && (forall i :: 0 <= i < |versions| - k ==> versions[i] in kept)
      && (forall r :: r in run.reverted ==> r !in kept)
  {
    var versions := SortByVersion(rows);
    SortKeepsDistinctIds(rows);
    DownFailedRowIsOldestTouched(versions, LastVersion(versions), path, exec, all, arg);
    DownDeletesOnlyReverted(rows, path, exec, all, arg);
    SameElements(rows, versions);
  }

  // ---------------------------------------------------------------- reset

  /** The tables reset -force drops: all listed tables but the ledger. */
  function DropTargets(tables: seq<string>): (targets: seq<string>)
    ensures |targets| <= |tables|
  {
    if tables == [] then []
    else
      var t := tables[|tables| - 1];
      DropTargets(tables[..|tables| - 1]) + (if t == LedgerTable then [] else [t])
  }

  /** The loop drops exactly the listed tables other than the ledger. */
  lemma {:induction false} DropTargetsMembers(tables: seq<string>)
    ensures forall t :: t in DropTargets(tables) <==> t in tables && t != LedgerTable
  {
    if tables != [] {
      var init, t := tables[..|tables| - 1], tables[|tables| - 1];
      assert tables == init + [t];
      DropTargetsMembers(init);
    }
  }

  /** The names among `tables` that the drop loop drops. */
  function Dropped(tables: seq<string>): set<string>
  {
    set t | t in tables && t != LedgerTable
  }

  /** `tables` without the names in `gone`. */
  function Without(tables: seq<string>, gone: set<string>): (kept: seq<string>)
    ensures |kept| <= |tables|
  {
    if tables == [] then []
    else
      var t := tables[|tables| - 1];
      Without(tables[..|tables| - 1], gone) + (if t in gone then [] else [t])
  }

  lemma {:induction false} WithoutMembers(tables: seq<string>, gone: set<string>)
    ensures forall t :: t in Without(tables, gone) <==> t in tables && t !in gone
  {
    if tables != [] {
      var init, t := tables[..|tables| - 1], tables[|tables| - 1];
      assert tables == init + [t];
      WithoutMembers(init, gone);
    }
  }

  lemma {:induction false} WithoutNothing(tables: seq<string>)
    ensures Without(tables, {}) == tables
  {
    if tables != [] {
      WithoutNothing(tables[..|tables| - 1]);
      assert tables == tables[..|tables| - 1] + [tables[|tables| - 1]];
    }
  }

  lemma {:induction false} WithoutTwice(tables: seq<string>, gone: set<string>, more: set<string>)
    ensures Without(Without(tables, gone), more) == Without(tables, gone + more)
  {
    if tables != [] {
      var init, t := tables[..|tables| - 1], tables[|tables| - 1];
      WithoutTwice(init, gone, more);
      var once := Without(init, gone);
      if t in gone {
        assert Without(tables, gone) == once;
      } else {
        assert Without(tables, gone) == once + [t];
        assert (once + [t])[..|once|] == once;
      }
    }
  }

  /** The drop phase of reset -force over the listed tables, inside one
      transaction: (true, tables left) when every drop succeeds, (false, the
      tables as before) when one fails and the transaction is rolled back. */
  function DropPhase(tables: seq<string>, dropOk: string -> bool): (bool, seq<string>)
  {
    var targets := DropTargets(tables);
    var k := FirstFalse(targets, dropOk);
    if k < |targets| then (false, tables)
    else (true, Without(tables, Dropped(tables)))
  }

  /** All or nothing: after a successful drop phase only the ledger table is
      left (if it was listed); after a failed one every table is still there
      and some table's drop failed. */
  lemma DropPhaseAllOrNothing(tables: seq<string>, dropOk: string -> bool)
    ensures var (ok, after) := DropPhase(tables, dropOk);
      && (ok ==> (forall t :: t in after ==> t == LedgerTable) && (LedgerTable in tables ==> LedgerTable in after))
      && (ok ==> forall t :: t in tables && t != LedgerTable ==> dropOk(t))
      && (!ok ==> after == tables && exists t :: t in tables && t != LedgerTable && !dropOk(t))
  {
    var targets := DropTargets(tables);
    var k := FirstFalse(targets, dropOk);
    DropTargetsMembers(tables);
    FirstFalseSpec(targets, dropOk);
    WithoutMembers(tables, Dropped(tables));
    if k < |targets| {
      assert targets[k] in targets;
    } else {
      forall t | t in tables && t != LedgerTable
        ensures dropOk(t)
      {
        var i :| 0 <= i < |targets| && targets[i] == t;
      }
    }
  }

  /** The table list once the drop loop has passed the first `i` listed
      tables, every drop among them having succeeded. */
  function DroppedUpTo(tables: seq<string>, i: nat): seq<string>
    requires i <= |tables|
  {
    if i == 0 then tables
    else if tables[i - 1] == LedgerTable then DroppedUpTo(tables, i - 1)
    else Without(DroppedUpTo(tables, i - 1), {tables[i - 1]})
  }

  /** The names dropped by the time the loop has passed the first `i`
      listed tables. */
  function DroppedNames(tables: seq<string>, i: nat): set<string>
    requires i <= |tables|
  {
    if i == 0 then {}
    else DroppedNames(tables, i - 1) + (if tables[i - 1] == LedgerTable then {} else {tables[i - 1]})
  }

  lemma {:induction false} DroppedNamesMembers(tables: seq<string>, i: nat)
    requires i <= |tables|
    ensures forall x :: x in DroppedNames(tables, i) <==> x != LedgerTable && exists j :: 0 <= j < i && tables[j] == x
  {
    if i > 0 {
      DroppedNamesMembers(tables, i - 1);
    }
  }

  lemma {:induction false} DroppedUpToIsWithoutNames(tables: seq<string>, i: nat)
    requires i <= |tables|
    ensures DroppedUpTo(tables, i) == Without(tables, DroppedNames(tables, i))
  {
    if i == 0 {
      WithoutNothing(tables);
    } else {
      DroppedUpToIsWithoutNames(tables, i - 1);
      var t := tables[i - 1];
      if t == LedgerTable {
        assert DroppedNames(tables, i) == DroppedNames(tables, i - 1);
      } else {
        WithoutTwice(tables, DroppedNames(tables, i - 1), {t});
      }
    }
  }

  /** Dropping the tables one at a time leaves what dropping them all at
      once leaves. */
  lemma DroppedUpToIsWithout(tables: seq<string>)
    ensures DroppedUpTo(tables, |tables|) == Without(tables, Dropped(tables))
  {
    DroppedNamesMembers(tables, |tables|);
    assert DroppedNames(tables, |tables|) == Dropped(tables);
    DroppedUpToIsWithoutNames(tables, |tables|);
  }

  /** A failed drop of a listed table other than the ledger fails the whole
      phase and leaves the tables as they were. */
  lemma DropPhaseFails(tables: seq<string>, dropOk: string -> bool, t: string)
    requires t in tables && t != LedgerTable && !dropOk(t)
    ensures DropPhase(tables, dropOk) == (false, tables)
  {
    var targets := DropTargets(tables);
    DropTargetsMembers(tables);
    FirstFalseSpec(targets, dropOk);
    var i :| 0 <= i < |targets| && targets[i] == t;
    assert !dropOk(targets[i]);
  }

  lemma DropPhaseSucceeds(tables: seq<string>, dropOk: string -> bool)
    requires forall j :: 0 <= j < |tables| && tables[j] != LedgerTable ==> dropOk(tables[j])
    ensures DropPhase(tables, dropOk) == (true, DroppedUpTo(tables, |tables|))
  {
    var targets := DropTargets(tables);
    DropTargetsMembers(tables);
    forall j | 0 <= j < |targets|
      ensures dropOk(targets[j])
    {
      assert targets[j] in tables;
      var i :| 0 <= i < |tables| && tables[i] == targets[j];
    }
    FirstFalseAt(targets, dropOk, |targets|);
    DroppedUpToIsWithout(tables);
  }

  /** Whether every drop the loop makes from listed position `i` on
      succeeds (the ledger table is skipped). */
  function DropsFrom(tables: seq<string>, i: nat, dropOk: string -> bool): bool
    requires i <= |tables|
    decreases |tables| - i
  {
    if i == |tables| then true
    else if tables[i] == LedgerTable then DropsFrom(tables, i + 1, dropOk)
    else dropOk(tables[i]) && DropsFrom(tables, i + 1, dropOk)
  }

  lemma {:induction false} DropsFromAll(tables: seq<string>, i: nat, dropOk: string -> bool)
    requires i <= |tables|
    ensures DropsFrom(tables, i, dropOk)
      <==> forall j :: i <= j < |tables| && tables[j] != LedgerTable ==> dropOk(tables[j])
    decreases |tables| - i
  {
    if i < |tables| {
      DropsFromAll(tables, i + 1, dropOk);
    }
  }

  /** The drop loop, table by table, reaches the outcome of the drop phase. */
  lemma DropPhaseStepwise(tables: seq<string>, dropOk: string -> bool)
    ensures DropPhase(tables, dropOk)
      == if DropsFrom(tables, 0, dropOk) then (true, DroppedUpTo(tables, |tables|)) else (false, tables)
  {
    DropsFromAll(tables, 0, dropOk);
    if DropsFrom(tables, 0, dropOk) {
      DropPhaseSucceeds(tables, dropOk);
    } else {
      var j :| 0 <= j < |tables| && tables[j] != LedgerTable && !dropOk(tables[j]);
      DropPhaseFails(tables, dropOk, tables[j]);
    }
  }

  datatype ResetRun = ResetRun(reply: Reply, down: DownRun, tables: seq<string>)

  /** One run of reset: down(true), then with -force the drop phase over the
      tables listed after it; "Resetted." unless one of the two fails. */
  function ResetOutcome(versions: seq<Row>, last: int, path: string, exec: Exec,
                        force: bool, tables: seq<string>, dropOk: string -> bool): ResetRun
  {
    var down := DownOutcome(versions, last, path, exec, true, None);
    if down.reply.Refused? then ResetRun(Refused, down, tables)
    else if !force then ResetRun(Message(Resetted), down, tables)
    else
      var (ok, after) := DropPhase(tables, dropOk);
      ResetRun(if ok then Message(Resetted) else Refused, down, after)
  }

  /** reset fails exactly when down(true) fails or, with -force, a drop
      fails; without -force it never touches the tables, and a successful
      reset -force leaves the ledger table alone in the list. */
  lemma ResetFailsExactly(versions: seq<Row>, last: int, path: string, exec: Exec,
                          force: bool, tables: seq<string>, dropOk: string -> bool)
    ensures var res := ResetOutcome(versions, last, path, exec, force, tables, dropOk);
      && (res.reply.Refused? <==>
            res.down.reply.Refused? || (force && !DropPhase(tables, dropOk).0))
      && (res.reply.Message? ==> res.reply.text == Resetted)
      && (!force ==> res.tables == tables)
      && (force && res.reply.Message? ==>
            && res.tables == DropPhase(tables, dropOk).1
            && (forall t :: t in res.tables ==> t == LedgerTable)
            && (LedgerTable in tables ==> LedgerTable in res.tables))
  {
    DropPhaseAllOrNothing(tables, dropOk);
  }

  /** With nothing installed down(true) still answers with a message, so
      reset -force goes on to drop the tables. */
  lemma ResetDropsWithNothingInstalled(versions: seq<Row>, path: string, exec: Exec,
                                       tables: seq<string>, dropOk: string -> bool)
    ensures var res := ResetOutcome(versions, 0, path, exec, true, tables, dropOk);
      && res.down == DownRun(Message(NothingInstalled), [], [])
      && res.tables == DropPhase(tables, dropOk).1
      && (res.reply == Message(Resetted) <==> DropPhase(tables, dropOk).0)
  {
  }

  // ---------------------------------------------------------------- rebuild

  /** rebuild's up keeps the lastVersion read before the reset: in a new
      shell whose reset reverts everything, the ledger afterwards only holds
      rows for files newer than that stale lastVersion; files installed before
      are reverted and not installed again. */
  lemma RebuildForgetsInstalledFiles(rows: seq<Row>, files: seq<FileInfo>, path: string, exec: Exec,
                                     arg: Option<string>, now: int, id0: int)
    requires forall r :: r in rows ==> r.version > 0
    requires var versions := SortByVersion(rows);
      DownOutcome(versions, LastVersion(versions), path, exec, true, None).reply == Message(AllDown)
    ensures var versions := SortByVersion(rows); var last := LastVersion(versions);
      var down := DownOutcome(versions, last, path, exec, true, None);
      var up := UpOutcome(files, last, exec, arg, now);
      forall r :: r in RemoveIds(rows, IdsOf(down.reverted)) + NewRows(up.applied, id0, now) ==> r.version > last
  {
    var versions := SortByVersion(rows);
    var last := LastVersion(versions);
    var down := DownOutcome(versions, last, path, exec, true, None);
    var up := UpOutcome(files, last, exec, arg, now);
    DownAllEmptiesLedger(rows, path, exec);
    UpNeverRevisits(files, last, exec, arg, now);
    var added := NewRows(up.applied, id0, now);
    forall r | r in RemoveIds(rows, IdsOf(down.reverted)) + added
      ensures r.version > last
    {
      var i :| 0 <= i < |added| && added[i] == r;
      assert up.applied[i] in up.applied;
    }
  }
}

# MigrationShell migration engine, in Dafny

This project models the execution engine of the CakePHP migrations shell
(`app/Console/Command/MigrationShell.php`). The engine has three pieces of state:

- **The ledger.** These are the rows of the `schema_migrations` table. At startup they are read as `_versions`, in ascending `version` order.
- **The discovered files.** `_filesInfo` holds one `{file, timestamp, classname}` entry per directory entry whose name matches `/^(\d{14})_(\w+)\.php/`.
- **`lastVersion`.** It is the version of the last row read at startup.

The model covers the commands that change this state: `up`, `down`, `reset` and `rebuild`. It also covers the pure pieces they depend on:

- the 14-digit date check;
- `_dateToTimestamp` (PHP `mktime`) and `date('YmdHis')`;
- the file-name pattern and the record built for each match;
- the file name `down` rebuilds from a ledger row;
- Inflector's `camelize` and `underscore`;
- the ledger-structure check `__checkTable`.

The project has seven modules, one file each:

| file | module | contents |
|---|---|---|
| `text.dfy` | `Text` | ASCII character classes, digit strings, fixed-width decimal formatting |
| `calendar.dfy` | `Calendar` | `mktime` and `date('YmdHis')` on the Gregorian calendar in UTC, and the round trip between them |
| `inflector.dfy` | `Inflector` | `camelize` and `underscore`, and when they invert each other |
| `repository.dfy` | `Repository` | the file-name pattern, `_filesInfo`, and the file name `down` rebuilds |
| `ledger.dfy` | `Ledger` | ledger rows, the expected table structure and its check, the ascending read, `lastVersion`, row deletion |
| `runner.dfy` | `Runner` | what `up`, `down` and `reset` decide, as functions of the state read at startup, with the properties of each |
| `shell.dfy` | `Shell` | the `Database` class and the `MigrationShell` class |

In `shell.dfy`, the `MigrationShell` methods update the shell's fields in place. These methods are `Startup`, `ReadPathInfo`, `Up`, `Down`, `Reset` and `Rebuild`. Each loop carries invariants.

`Up`, `Down`, `Reset` and `Rebuild` are proved to leave exactly the state that the `Runner` functions describe. That state is:

- the reply;
- the sequence of `_exec` calls made;
- the ledger rows;
- the table list.

`Startup` and `ReadPathInfo` are proved against functions of their own:

- `ReadPathInfo` builds the `Repository` function `Discover`.
- `Startup` leaves the table list and the ledger table as `OpenLedgerOutcome` describes, whether it goes on or stops. It reads the ledger through `SortByVersion` and sets `lastVersion` from it, as `Ledger` describes.
- `Startup` establishes `Valid()` (an ascending ledger, with `lastVersion` the version of its last row) when it runs on a new shell, whose `lastVersion` is still 0.

`_exec` is an oracle parameter, `Exec = Attempt -> bool`. An `Attempt` is the triple (`install`/`uninstall`, file, class name). The file is part of the triple because `down` rebuilds it, and `is_readable` depends on it. The shell's `trace` field records every `_exec` call in order. The drops of `reset -force` succeed or fail according to the database's `dropOk` oracle. The drop of a mismatched ledger table in `__checkTable` succeeds or fails according to `dropLedgerOk`; the code ignores its result. Creating the ledger table succeeds or fails according to `createOk`, and always fails while the table is still listed, since `CREATE TABLE` fails on an existing table.

The model keeps these quirks of the code:

- **Files are not sorted.** `_filesInfo` keeps directory-listing order, because the sort at line 422 is commented out. `up` therefore runs files in listing order. Ascending order is proved only when the listing is already sorted (`UpInAscendingOrder`).
- **Text may follow `.php`.** The pattern has no `$` anchor, so the extension is `.php` followed by anything (`RevertFileMissesTrailingText`).
- **`lastVersion` is the last row read, and it goes stale.** It is the version of the last row of the ascending read, which is the highest version (`LastVersionIsHighest`). It is never updated by `up`, `down` or `reset`. `rebuild`'s `up` therefore uses the value read before the reset (`RebuildForgetsInstalledFiles`).
- **`rebuild` does not clear `-force`.** It calls `reset()`, which reads `-force` from the shell's parameters. `rebuild -force` therefore drops the tables too (`Rebuild` takes `force`).
- **`down` all only reverts versions above 0.** Its target is 0, so rows whose version is 0 or below are never reverted. The ledger is emptied only when every version is positive (`DownAllEmptiesLedger`).
- **`reset -force` drops tables even with nothing installed.** With nothing installed, `down(true)` answers "No version installed.", which is truthy, so `reset -force` still goes on to drop the tables (`ResetDropsWithNothingInstalled`).

Each piece of the code is defined once, by the function or predicate named below. The rows under "## Model" then name the members whose contracts state its properties. Line numbers are in `app/Console/Command/MigrationShell.php`.

| code | lines | defined by |
|---|---|---|
| the 14-digit date check in `up` and `down` | 208, 255 | `Text.IsDate14` |
| `mktime` | 470 | `Calendar.MkTime` |
| `_dateToTimestamp` | 467-471 | `Calendar.DateToTimestamp` |
| `date('YmdHis', …)` | 278 | `Calendar.FormatYmdHis` |
| `Inflector::camelize` | 418 | `Inflector.Camelize` |
| `Inflector::underscore` | 278 | `Inflector.Underscore` |
| the file-name pattern | 412 | `Repository.MatchMigrationFile` |
| one `_filesInfo` record | 412-419 | `Repository.Discovered` |
| `_readPathInfo` | 393-423 | `Repository.Discover` |
| the file name `down` rebuilds | 278 | `Repository.RevertFile` |
| `__checkTable`'s comparison | 497-508 | `Ledger.MatchesSchema` |
| the ascending read of the ledger | 186 | `Ledger.SortByVersion` |
| `lastVersion` after startup | 108-112 | `Ledger.LastVersion` |
| the ledger part of startup, with `__createTable` and `__checkTable` | 180-184, 479-514 | `Shell.OpenLedgerOutcome` |
| `up` | 205-234 | `Runner.UpOutcome` |
| `down` | 243-291 | `Runner.DownOutcome` |
| `reset` | 299-324 | `Runner.ResetOutcome` |

## Model

| member | source | states |
|---|---|---|
| Calendar.FormatInvertsDateToTimestamp | app/Console/Command/MigrationShell.php:467-471 | for a 14-digit string that names a real date and time with a year from 0101 on, `date('YmdHis')` of `_dateToTimestamp` gives back the same 14 digits |
| Calendar.DateToTimestampInjective | app/Console/Command/MigrationShell.php:467-471 | two different calendar dates get different timestamps, so a version names one migration date |
| Calendar.FormatMkTime | app/Console/Command/MigrationShell.php:470 | `date('YmdHis', mktime(h, i, s, m, d, y))` writes back the zero-padded fields of a real instant whose year lies in 101..9999 |
| Calendar.DateOfDayFinds | app/Console/Command/MigrationShell.php:470 | the day number `mktime` computes for a real date converts back to that year, month and day |
| Calendar.YearOfDay | app/Console/Command/MigrationShell.php:278 | the year `date()` finds for a day number is the one whose first day is at or before it and whose successor's first day is after it |
| Calendar.InstantOf | app/Console/Command/MigrationShell.php:278 | the broken-down time of any timestamp has a month in 1..12, a day within that month, and hour, minute and second in range |
| Calendar.DaysBeforeMonthsOfYear | app/Console/Command/MigrationShell.php:470 | the twelve month lengths add up to the year's length |
| Inflector.UnderscoreCamelize | app/Console/Command/MigrationShell.php:278 | for a lower-case snake_case name, `underscore(camelize(name))` is the name again, so `down` rebuilds the name part of a file `up` read |
| Inflector.DigitAfterUnderscoreIsLost | app/Console/Command/MigrationShell.php:418 | a name with a digit after an underscore is not restored: `add_2fa` camelizes to `Add2fa`, which underscores to `add2fa` |
| Repository.WordRun | app/Console/Command/MigrationShell.php:412 | the greedy `\w+` run: every character before the returned length is a word character, and the one at that length is not |
| Repository.MatchMigrationFile | app/Console/Command/MigrationShell.php:412 | a match yields 14 digits and a non-empty run of word characters, and the file name is `date_name.php` followed by any text |
| Repository.MatchMigrationFileComplete | app/Console/Command/MigrationShell.php:412 | every name `date_name.php…` with 14 digits and a non-empty word run matches, with exactly those two groups |
| Repository.DiscoverSound | app/Console/Command/MigrationShell.php:409-420 | every `_filesInfo` record is `path/entry` with the parsed timestamp and camelized name of some matching directory entry |
| Repository.DiscoverComplete | app/Console/Command/MigrationShell.php:409-420 | every matching directory entry has its record in `_filesInfo` |
| Repository.RevertFileFindsDiscoveredFile | app/Console/Command/MigrationShell.php:278 | for `date_name.php` with a calendar date and a snake_case name, the file `down` rebuilds from the row `up` writes is the file that was discovered |
| Repository.RevertFileMissesTrailingText | app/Console/Command/MigrationShell.php:412 | with text after `.php` the file is still discovered, but the file `down` rebuilds for its row is a different one |
| Ledger.CheckStructure | app/Console/Command/MigrationShell.php:496-509 | the check passes exactly when the column names equal the expected ones in the same order and every column's type is the expected type |
| Ledger.InsertByVersion | app/Console/Command/MigrationShell.php:186 | inserting a row into an ascending list keeps it ascending and adds exactly that row |
| Ledger.SortByVersion | app/Console/Command/MigrationShell.php:186 | the ledger read by ascending version is ascending and holds exactly the table's rows |
| Ledger.LastVersionIsHighest | app/Console/Command/MigrationShell.php:107-113 | `lastVersion` after the ascending read is 0 for an empty ledger; otherwise it is the highest version and is some row's version |
| Ledger.RemoveIdsMembers | app/Console/Command/MigrationShell.php:283 | after deleting by id, a row is left exactly when it was there and its id was not deleted |
| Ledger.RemoveIdsNothing | app/Console/Command/MigrationShell.php:283 | deleting no id leaves the table as it was |
| Ledger.RemoveIdsTwice | app/Console/Command/MigrationShell.php:283 | deleting one set of ids and then another leaves what deleting both at once leaves |
| Ledger.InsertKeepsDistinctIds | app/Console/Command/MigrationShell.php:58-63 | inserting a row whose id is new into an ascending ledger with distinct ids (`id` is the primary key) keeps the ids distinct |
| Ledger.SortKeepsDistinctIds | app/Console/Command/MigrationShell.php:186 | the ascending read of a table with distinct ids has distinct ids |
| Ledger.RemoveRowsOfDistinctIds | app/Console/Command/MigrationShell.php:283 | with distinct ids, deleting the ids of some of the table's rows removes exactly those rows and keeps every other |
| Runner.WindowMembers | app/Console/Command/MigrationShell.php:217 | the files `up` considers are exactly those with `lastVersion < timestamp <= target` |
| Runner.WindowKeepsOrder | app/Console/Command/MigrationShell.php:216-217 | the files `up` considers keep the listing's ascending timestamp order |
| Runner.InstallFromIsInstallRun | app/Console/Command/MigrationShell.php:216-232 | `up`'s walk over `_filesInfo` installs the files of the window, in order, until the first failure |
| Runner.UpRejectsMalformedDate | app/Console/Command/MigrationShell.php:206-211 | an argument that is not exactly 14 ASCII digits is refused, with no `_exec` call and no ledger row |
| Runner.UpAppliesWindow | app/Console/Command/MigrationShell.php:212-233 | a successful `up` installed exactly the files with `lastVersion < timestamp <= target`, in `_filesInfo` order, each once; the target is the parsed date, or now |
| Runner.UpHaltsAtFirstFailure | app/Console/Command/MigrationShell.php:219-222 | a failed `up` installed a prefix of the window; it attempted the next file, whose install failed and which gets no row; nothing later is attempted |
| Runner.UpNeverRevisits | app/Console/Command/MigrationShell.php:217 | no file at or below `lastVersion` is installed |
| Runner.UpInAscendingOrder | app/Console/Command/MigrationShell.php:216-232 | when the listing is in timestamp order, `up` installs in ascending timestamp order |
| Runner.NewLastCovers | app/Console/Command/MigrationShell.php:107-113 | after `up`'s rows are added, the next startup's `lastVersion` is no lower than before and covers every installed file |
| Runner.WindowClosed | app/Console/Command/MigrationShell.php:217 | once `lastVersion` covers every file of a window, the window above it for the same target is empty |
| Runner.UpIdempotent | app/Console/Command/MigrationShell.php:205-234 | after a successful `up`, a new shell running `up` with the same files and target installs nothing |
| Runner.TrailingAboveSpec | app/Console/Command/MigrationShell.php:265-289 | the rows `down` visits are the trailing rows above the target, and the row before them, if any, is at or below it |
| Runner.RevertFromIsRevertRun | app/Console/Command/MigrationShell.php:265-289 | `down`'s walk back from the newest row uninstalls the plan in order until the first failure |
| Runner.DownNothingInstalled | app/Console/Command/MigrationShell.php:244-246 | with `lastVersion == 0`, `down` answers "No version installed." and makes no call and no deletion |
| Runner.DownRejectsBadArgument | app/Console/Command/MigrationShell.php:250-259 | without "all", a missing argument, or one that is neither 14 digits nor "last", is refused and nothing runs |
| Runner.DownRevertsNewestFirst | app/Console/Command/MigrationShell.php:265-289 | `down` reverts a block of the newest rows, newest first, each after a successful uninstall of its rebuilt file |
| Runner.DownHaltsAtFailedRow | app/Console/Command/MigrationShell.php:279-282 | a failed `down` stops at the first failed uninstall, at the k-th row from the end of the ledger: the k rows before it in the plan are the ones reverted, and nothing after it is attempted |
| Runner.DownFailedRowIsOldestTouched | app/Console/Command/MigrationShell.php:265-282 | with distinct ids, the failed uninstall is that of the row k-th from the end, after k reverts, and no row from it down to the oldest was reverted |
| Runner.DownDeletesOnlyReverted | app/Console/Command/MigrationShell.php:265-290 | in a new shell over a table with distinct ids, a row is left after `down` exactly when it was there and `down` did not revert it |
| Runner.DownFailureKeepsOlderRows | app/Console/Command/MigrationShell.php:279-283 | in a new shell over a table with distinct ids, a failed `down` keeps the failed row and every older one, and deletes the newer rows it reverted |
| Runner.RevertOrderIsAboveTarget | app/Console/Command/MigrationShell.php:265-289 | over an ascending ledger, the rows `down` visits are exactly those with a version above the target |
| Runner.DownLastRevertsNewest | app/Console/Command/MigrationShell.php:260 | `down("last")` targets `lastVersion - 1`; over ascending distinct versions that plans exactly the newest row |
| Runner.DownClearsAboveTarget | app/Console/Command/MigrationShell.php:265-290 | after a successful `down` in a new shell, no ledger row has a version above the target |
| Runner.DownAllEmptiesLedger | app/Console/Command/MigrationShell.php:247-248 | a successful `down(true)` in a new shell empties a ledger whose versions are all positive |
| Runner.DropTargetsMembers | app/Console/Command/MigrationShell.php:308-312 | the drop loop drops exactly the listed tables other than the ledger table |
| Runner.DropPhaseAllOrNothing | app/Console/Command/MigrationShell.php:306-319 | after a committed drop phase only the ledger table is left; after a rolled-back one every table is still there and some drop failed |
| Runner.DroppedUpToIsWithout | app/Console/Command/MigrationShell.php:308-317 | dropping the tables one at a time leaves what removing every non-ledger table at once leaves |
| Runner.DropPhaseFails | app/Console/Command/MigrationShell.php:312-316 | one failing drop of a non-ledger table fails the phase and leaves the table list unchanged |
| Runner.DropPhaseSucceeds | app/Console/Command/MigrationShell.php:308-318 | when every non-ledger drop succeeds, the phase commits the tables left by dropping them one at a time |
| Runner.DropsFromAll | app/Console/Command/MigrationShell.php:308-317 | the loop gets through from a position exactly when every later non-ledger table can be dropped |
| Runner.DropPhaseStepwise | app/Console/Command/MigrationShell.php:306-319 | the table-by-table loop reaches the outcome of the drop phase |
| Runner.ResetFailsExactly | app/Console/Command/MigrationShell.php:299-324 | `reset` is refused exactly when `down(true)` is refused or, with `-force`, a drop fails; otherwise it answers "Resetted."; without `-force` the tables are untouched; a successful `reset -force` leaves the drop phase's table list, in which only the ledger table is left (if it was listed) |
| Runner.ResetDropsWithNothingInstalled | app/Console/Command/MigrationShell.php:299-301 | with nothing installed, `down(true)`'s message lets `reset -force` drop the tables |
| Runner.RebuildForgetsInstalledFiles | app/Console/Command/MigrationShell.php:332-334 | `rebuild`'s `up` keeps the stale `lastVersion`, so once the reset reverted everything, the ledger only holds rows for files newer than it |
| Shell.Database.CreateLedger | app/Console/Command/MigrationShell.php:479-488 | creation succeeds exactly when `createOk` holds and the ledger table is not listed; then the table is listed, has the expected columns and is empty; otherwise nothing changes |
| Shell.Database.DropLedger | app/Console/Command/MigrationShell.php:510-512 | a successful drop of the ledger table removes it, its columns and its rows; a failed one, whose result the code ignores, changes nothing |
| Shell.Database.Save | app/Console/Command/MigrationShell.php:223-230 | saving appends one row with the next id, the version, the class and the creation time |
| Shell.Database.Delete | app/Console/Command/MigrationShell.php:283 | deleting by id removes exactly the rows with that id |
| Shell.Database.Begin | app/Console/Command/MigrationShell.php:307 | begin remembers the table list |
| Shell.Database.DropTable | app/Console/Command/MigrationShell.php:312 | a drop removes the table when it succeeds and changes nothing otherwise |
| Shell.Database.Rollback | app/Console/Command/MigrationShell.php:313 | rollback restores the table list remembered at begin |
| Shell.Database.Commit | app/Console/Command/MigrationShell.php:318 | commit keeps the table list as it is |
| Shell.MigrationShell.constructor | app/Console/Command/MigrationShell.php:22-43 | a new shell has `lastVersion` 0, nothing read and no `_exec` call |
| Shell.MigrationShell.Startup | app/Console/Command/MigrationShell.php:97-113 | startup leaves the tables, the ledger's columns and its rows as `OpenLedgerOutcome` describes, on success and on failure, and goes on exactly when the directory opens and the ledger table is usable or can be created (after the mismatched table, if any, was dropped); it reads the ledger in ascending order and the files in listing order; `lastVersion` becomes the last row's version, or stays as it was for an empty ledger |
| Shell.MigrationShell.OpenLedger | app/Console/Command/MigrationShell.php:175-186 | the reply, the table list, the ledger's columns and its rows are those of `OpenLedgerOutcome`: a missing ledger table is created, one failing the structure check is dropped and recreated (empty), a usable table keeps its rows, and a failed drop stops the shell with the old table in place |
| Shell.OpenLedgerOutcomeSpec | app/Console/Command/MigrationShell.php:180-184 | opening the ledger goes on exactly when the table is usable, or can be created after a successful drop of a mismatched one, and then leaves it usable; no other table is touched; a usable ledger, or a missing one that cannot be created, is left as it is; a ledger failing the check loses its rows once its drop succeeds, and on a failed re-creation (lines 510-512, 482-484) the table is gone too; when that drop fails the shell stops with the old table, columns and rows |
| Shell.MigrationShell.ReadPathInfo | app/Console/Command/MigrationShell.php:393-423 | `_filesInfo` becomes one record per matching directory entry, in listing order |
| Shell.MigrationShell.Up | app/Console/Command/MigrationShell.php:205-234 | the reply, the `_exec` calls and the ledger rows appended (one per installed file, with consecutive ids and `created` = now) are those of `UpOutcome` |
| Shell.MigrationShell.InstallUpTo | app/Console/Command/MigrationShell.php:216-233 | the loop over `_filesInfo` makes exactly the calls and saves exactly the rows of the stepwise run |
| Shell.MigrationShell.Down | app/Console/Command/MigrationShell.php:243-291 | the reply, the `_exec` calls and the deleted rows are those of `DownOutcome` |
| Shell.MigrationShell.RevertNewerThan | app/Console/Command/MigrationShell.php:265-290 | the loop from the last row back makes exactly the calls and deletions of the stepwise run |
| Shell.MigrationShell.Revert | app/Console/Command/MigrationShell.php:279-283 | one row: the uninstall is recorded, and the row is deleted exactly when it succeeds |
| Shell.MigrationShell.Reset | app/Console/Command/MigrationShell.php:299-324 | the reply, the calls, the deleted rows and the table list are those of `ResetOutcome` |
| Shell.MigrationShell.DropAll | app/Console/Command/MigrationShell.php:306-319 | the drop loop succeeds exactly when every non-ledger drop does; then the tables left are those without the dropped ones, and otherwise the list is rolled back |
| Shell.MigrationShell.Rebuild | app/Console/Command/MigrationShell.php:332-334 | `reset && up`: `up` runs only after a successful reset, with the `lastVersion` read at startup, and the result is true only when both succeed; the next id advances by the rows `up` saved |

## Left out

- Console output is not modelled. This covers every `out`/`err`/`hr` message, translation through `__d`, `String::insert`, `help` and the `main` entry point. Replies keep only the returned strings and PHP's `false`.
- `create` is not modelled: it reads a template file and writes a new migration file, which is file I/O.
- `_paramsParsing` is not modelled: it reads the command-line parameters and computes the default path. `path`, `force` and the command arguments are parameters instead.
- The plugin-name detection on shell paths (lines 154-158) is not modelled: it is framework bootstrapping.
- Database plumbing is reduced to a few things:
  - the table list;
  - the ledger table's description and rows;
  - a snapshot taken at `begin`;
  - the `dropOk`, `dropLedgerOk` and `createOk` oracles.

  The connection manager, the `DboSource` check, the `listSources` connection error (the shell stops there) and the SQL produced by `createSchema`/`dropSchema` are not modelled.
- `_exec` internals are not modelled. `is_readable`, `include`, `class_exists`, `is_subclass_of` and the dynamic call are runtime reflection, and they become the `Exec` oracle over the attempted call.
- Shell.Database.Save is taken to succeed. The code ignores what `save` returns (lines 224-230). A failed save would leave an installed migration without a ledger row while `up` still answers "All updated.", and the model does not capture this: `Up`'s one row per installed file rests on it.
- Shell.Database.Delete is taken to succeed. The code ignores what `delete` returns (line 283). A failed delete would leave the row of a reverted migration, and the model does not capture this.
- `_exec` has no effect on the database in the model. An uninstall script that drops its own tables does not shorten the table list. `reset -force` therefore drops over the table list as it was before `down(true)` ran, where the code lists the tables again afterwards (line 305).
- `rollback` is taken to restore every table dropped since `begin`. The all-or-nothing results for `reset -force` (`DropPhaseAllOrNothing`, `DropPhaseFails`) rest on this. On databases where `DROP TABLE` commits implicitly, such as MySQL, the tables dropped before the failure stay dropped.
- Integers are unbounded. The `version` column is declared `integer` with limit 11 (lines 64-68), a 32-bit column on the usual servers. Versions after 2038-01-19 03:14:07 UTC would be refused or clamped there, which would change later `lastVersion` comparisons and the file name `down` rebuilds. The model keeps every version exactly.
- `time()` is a parameter `now`. One run reads it once, both for `up`'s default target and for the `created` column, where the code calls it separately.
- The server's time zone is not modelled. `mktime` and `date` are taken in UTC. Local time, daylight saving and time-zone offsets are not modelled.
- Calendar.FormatInvertsDateToTimestamp is weaker than an unconditional round trip. It holds only for real dates with a year from 0101 on. `mktime` maps years 0000-0100 to other years, and an out-of-range month, day or time carries over into the next field, so such strings do not come back unchanged.
- Inflector.UnderscoreCamelize is weaker than an unconditional inverse. It holds only for lower-case snake_case names, with a letter after every underscore. The full Inflector belongs to the framework, and only the two conversions the shell uses are modelled, on ASCII.
- Runner.DownDeletesOnlyReverted and Runner.DownFailureKeepsOlderRows take distinct ids as a premise (`Ledger.DistinctIds`). The database guarantees it through the primary key (lines 58-63). `Shell.Database` does not keep it as an invariant of its own: `Save` hands out `nextId`, and the model does not relate `nextId` to the ids already in the table.
- Ledger.SortByVersion keeps rows with equal versions in table order. The database may return such rows in any order.
- The file list is an input sequence. Directory iteration order, and a directory that cannot be opened (`Startup` then returns false, where the shell stops), are all that is kept of the file system.
- Concurrent runs against one database are not modelled: the shell has no locking, and a model of one sequential run has nothing to say about them.

# Vakantieroosters in Dafny

A model of the core of *vakantieroosters*, a Dutch leave-roster
application. A team of resources (employees), grouped by role, plans leave
codes on days. Each resource can have weekly fixed days off with one-off
exceptions. Dutch public holidays are seeded per year, and every role has a
minimum and a maximum presence per day. The application runs on one SQLite
file and has two front ends. The desktop front end (Qt) guards editing with
an exclusive lock file beside the database and takes rate-limited backups
after commits. The web front end (Streamlit) downloads the file from Google
Drive and writes it back under optimistic concurrency on Drive's head
revision.

The model covers:

- `Models`: the entities as values, the tables as maps keyed by their
  unique columns, the database URL helpers and the engine URL priority.
- `Logic`: the scheduling rules. These are leave ranges, fixed days off
  with exceptions, presence per role clamped with `real` arithmetic, the
  minimum/maximum check and absence fractions.
- `DbInit`: the Meeus/Jones/Butcher Easter computation, Koningsdag, the
  Dutch holiday list, holiday seeding and the default leave codes.
- `LockMgr`: the edit lock over a modelled file system. The file system
  tracks open handles and the exclusive lock per path.
- `BackupMgr`: the backup manager. It covers the file name stamp, the rate
  limit, the age-based rotation and the re-binding of its after-commit
  hook.
- `DriveStore` and `WebApp`: the sources of the Drive credentials, the
  download, the revision-checked upload, the in-process writer lock, and
  the web app's save flow and tabs.
- `Desktop`: database selection and the main window's edit-mode state
  machine.
- `Updater`: version comparison, the manifest check, the download checks
  and the installer arguments.
- `PlanTab`, `YearView`, `Upcoming` and `ResourcesView`: the rules inside
  the desktop screens. These are the leave planning tab, the year grid's
  row layout, cell and tooltip rules, the upcoming-months arithmetic, and
  the master-data screen's combo and form mappings.

Dates are Python ordinals (`date.toordinal()`); the weekday is
`(ordinal + 6) % 7`, Monday being 0. Strings follow Python's `str.strip`
white-space set; `upper`/`lower` are ASCII-only. Paths follow `posixpath`.
The clock, the ORM session and every outside service are parameters or
modelled objects.

Where the code and its own description disagree the model follows the
code:

- A second `acquire` on an `EditLock` that already holds the lock
  assigns a new file object to `_fh`. The old one loses its last
  reference, so CPython closes it and releases its lock. The new lock
  therefore succeeds, and `LockMgr.AcquireTwice` states this.
- `_rotate` deletes every old `.db` file in the backup folder, not only
  backups (`BackupMgr.RotationIgnoresPrefix`).
- The web app's expected revision is captured once and never refreshed,
  so a second save conflicts (`WebApp.SaveTwice`).
- `seed_public_holidays` is given a list that can repeat a date
  (`DbInit.HolidayListRepeatsADate`), and it still adds each date once.
- A failed copy after the destination was created leaves that file
  behind (`BackupMgr.BackupManager.RunBackupNow`).
- `_rotate` reads the clock again, after the copy. With
  `retention_days=0` the backup just written is older than that reading
  and is deleted at once (`BackupMgr.ZeroRetentionDeletesFresh`).
- The rate limit is tested with one `time.time()` reading, but
  `_last_run` records another one, taken after the copy and the rotation.
  The next window therefore runs from the end of the last backup. A
  commit `min_interval_sec` after the last backup's test is skipped when
  the backup took any time (`BackupMgr.CommitsInAWindow`).
- `upload_db` checks the head revision and updates the file in two
  separate requests. Another client's upload between them is overwritten
  although both uploads succeed (`DriveStore.LostUpdate`).
- A duplicate leave code fails the commit and leaves the session awaiting
  a rollback that the resources screen never performs. Every later save
  on that screen fails too (`ResourcesView.DuplicateBlocksLaterSaves`).
- `sqlite_path_from_url` keeps the slashes after `sqlite:`; see Findings.

## Model

| member | source | states |
|---|---|---|
| `Models.Session.constructor` | models.py:201-204 | a new session has no `after_commit` listeners and is open |
| `Models.Session.Close` | models.py:201-204 | closing marks the session closed and keeps its listeners |
| `Models.FullName` | models.py:38-42 | the full name never starts or ends with white space |
| `Models.FullNameJoins` | models.py:38-42 | two non-empty trimmed names are joined by one space; two missing or empty names give "" |
| `Models.PartCode` | models.py:57-58 | AM gives VO, PM gives VM, every other part VV, each in both directions |
| `Models.OrElse` | models.py:40-41 | `s or fallback`: a non-empty string is kept; None and "" give the fallback |
| `Models.RealOrElse` | models.py:52 | `x or fallback` on a float: None and 0.0 give the fallback, any other value is kept |
| `Models.FixedOffCode` | models.py:57-58 | the code is VO or VM exactly when the upper-cased part (missing or empty taken as FULL) is AM or PM; a missing part gives VV |
| `Models.DbUrl` | models.py:114-117 | the URL is `sqlite:///` followed by the path, or by the default path when the path is missing or empty |
| `Models.SqlitePathFromUrl` | models.py:146-159 | a URL not starting with `sqlite:` gives ""; otherwise everything after `sqlite:` is kept, position by position, with backslashes turned into slashes |
| `Models.SqlitePathKeepsSlashes` | models.py:146-159 | the URL built for a path comes back as `///` plus the path, not the path itself |
| `Models.SqlitePathDocExample` | models.py:146-159 | the documented example `sqlite:///C:/pad/file.db` does not give `C:/pad/file.db` |
| `Models.SqlitePathFromUrlDocumented` | models.py:146-152 | as documented: anything not starting with `sqlite:///` gives "" |
| `Models.SqlitePathDocumentedRoundTrip` | models.py:146-152 | the documented behaviour gives back the path a URL was built from, backslashes turned into slashes |
| `Models.SqlitePathDocumentedExamples` | models.py:147-151 | the documented behaviour meets both documented examples, the drive path and the UNC path |
| `Models.LoadSettingsUrl` | models.py:119-128 | a URL comes back exactly when a value is present and non-blank, and it is that value stripped |
| `Models.EngineUrl` | models.py:161-185 | settings.json wins, then a non-blank config.ini URL, then the SQLite URL of the given or default path; the URL is never empty |
| `Models.EngineConfig.constructor` | models.py:112 | no URL is recorded before the first engine |
| `Models.EngineConfig.GetEngine` | models.py:161-199 | the engine's URL follows the precedence above and is recorded |
| `Models.EngineConfig.GetCurrentDbUrl` | models.py:143-144 | the recorded URL, or "" before any engine was made |
| `LockMgr.LockPathInFolder` | lockmgr.py:7-11 | the lock path is empty exactly for an empty database path or a bare file name; otherwise it lies in the database's folder and is named `vakantierooster.lock` |
| `LockMgr.FieldText` | lockmgr.py:68 | a missing key renders as `?`, a string value as itself |
| `LockMgr.HolderText` | lockmgr.py:62-70 | empty content reads as `{}` and gives `?\?`; content that is not a JSON object gives ""; an object gives `host\user` |
| `LockMgr.HolderOfRecord` | lockmgr.py:13-14 | the record written by `acquire` reads back through `holder` as `host\user` of the writer |
| `LockMgr.FileSystem.constructor` | lockmgr.py:21-24 | the file system starts with the given files and no open handles or locks |
| `LockMgr.FileSystem.Open` | lockmgr.py:32 | opening in append mode yields a fresh handle on the path and creates an empty file when there was none |
| `LockMgr.FileSystem.Lock` | lockmgr.py:33 | the non-blocking exclusive lock succeeds exactly when no other handle holds the path's lock, and then records this handle as holder |
| `LockMgr.FileSystem.Unlock` | lockmgr.py:50 | unlocking removes the lock only when this handle held it |
| `LockMgr.FileSystem.Close` | lockmgr.py:40-41 | closing drops the handle and every lock it held; files are untouched |
| `LockMgr.FileSystem.Overwrite` | lockmgr.py:34-36 | truncating and writing replaces the content of the handle's file and nothing else |
| `LockMgr.FileSystem.Remove` | lockmgr.py:53-56 | removal succeeds exactly when the file exists and no handle is open on it |
| `LockMgr.EditLock.constructor` | lockmgr.py:21-24 | the lock path is derived from the database path and no handle is held |
| `LockMgr.EditLock.Acquire` | lockmgr.py:26-43 | with no lock path it returns true and changes nothing; an `OSError` from `makedirs` or `open` escapes and changes nothing; otherwise it takes the lock exactly when this instance already held it or nobody did, and then holds it with its own record in the file, except that a failed write raises with the lock still held and `_fh` set; when the lock is taken elsewhere the handle is closed and no lock changes |
| `LockMgr.EditLock.Release` | lockmgr.py:45-58 | afterwards this instance holds nothing; its lock and handle are gone and the lock file is removed unless another handle still has it open |
| `LockMgr.EditLock.Holder` | lockmgr.py:60-70 | "" when there is no lock path or no lock file, and also while any handle holds the lock, because the locked file cannot be read; otherwise what the file's content says |
| `LockMgr.EditLock.IsLocked` | lockmgr.py:72-83 | false with no lock path; an open that fails raises and changes nothing; otherwise true exactly when some handle holds the lock, and the lock file exists afterwards; locks and handles are left as they were |
| `LockMgr.TwoInstances` | lockmgr.py:26-83 | while one instance holds the lock a second cannot acquire it and sees it as locked, but reads no holder name; after the first releases, the second succeeds and its own record is in the file |
| `LockMgr.FailedWriteKeepsLock` | lockmgr.py:30-43 | an `acquire` that raises while writing the record still holds the lock, so a second instance is refused until the first releases |
| `LockMgr.AcquireTwice` | lockmgr.py:26-43 | a second acquire by the holder succeeds and it still holds the lock |
| `BackupMgr.BackupName` | backupmgr.py:35-37 | a backup's file name is `vakantierooster_` plus a 15-character stamp plus `.db`, with no folder separator in it |
| `BackupMgr.BackupFilePath` | backupmgr.py:26-37 | the backup path lies in the `backup` folder and its last component is the backup name |
| `BackupMgr.StampFields` | backupmgr.py:36 | the stamp is `YYYYMMDD_HHMMSS`: each field zero-padded at its fixed position |
| `BackupMgr.BackupNameInjective` | backupmgr.py:35-37 | two backups taken at different seconds never get the same name |
| `BackupMgr.RotatedKeepsExactly` | backupmgr.py:42-56 | rotation keeps a file, with its time, exactly when it is not a `.db` file (any case), is not older than the cutoff, or cannot be deleted |
| `BackupMgr.RotatedIdempotent` | backupmgr.py:42-56 | rotating twice with the same cutoff removes nothing more |
| `BackupMgr.RotationIgnoresPrefix` | backupmgr.py:46-53 | any old `.db` file is removed, not only backups: an old `notes.DB` goes too |
| `BackupMgr.AfterBackupHolds` | backupmgr.py:44-79 | after a successful copy the new backup is in the folder exactly when its time is not before the cutoff or it cannot be deleted, with its own time, and every other file is there exactly when rotation keeps it |
| `BackupMgr.FreshBackupSurvives` | backupmgr.py:44-53 | with at least one day of retention, a backup whose rotation starts less than a day after it was written is not older than the cutoff |
| `BackupMgr.ZeroRetentionDeletesFresh` | backupmgr.py:44-53 | with `retention_days=0` a deletable backup written before the rotation's clock reading is gone after the backup run |
| `BackupMgr.BackupDir.constructor` | backupmgr.py:26-30 | the backup folder holds the given files |
| `BackupMgr.BackupDir.Touch` | backupmgr.py:67-72 | writing a file records it with its modification time |
| `BackupMgr.BackupDir.Remove` | backupmgr.py:53-56 | deletion succeeds exactly for an existing, deletable file and removes only that file |
| `BackupMgr.Without` | backupmgr.py:98 | removing a listener leaves no copy of it and adds none |
| `BackupMgr.OwnedCountAppend` | backupmgr.py:113 | registering a listener adds one to its owner's count and nothing to others |
| `BackupMgr.WithoutOnlyOwned` | backupmgr.py:96-101 | removing an owner's only listener leaves it none |
| `BackupMgr.MemberIsOwned` | backupmgr.py:96-101 | a registered listener counts for its owner |
| `BackupMgr.NoneOwnedOne` | backupmgr.py:96-101 | removal from a list with no listener of the owner leaves it with none |
| `BackupMgr.BackupManager.constructor` | backupmgr.py:18-23 | the settings are stored, the last run is 0 and no session is attached |
| `BackupMgr.BackupManager.Rotate` | backupmgr.py:42-56 | the folder afterwards is the rotated folder for the cutoff `later - retention_days`, `later` being the clock reading `_rotate` takes |
| `BackupMgr.BackupManager.RunBackupNow` | backupmgr.py:59-79 | the result is the backup path exactly when the copy succeeds, and only then is the time recorded, as the clock reading taken after the copy and the rotation; the hooks and the invariant that the attached session carries one handler are kept; the folder becomes the one `AfterBackup` describes: untouched when the copy failed before creating the file, holding the partial file when it failed after, and rotated by the second clock reading after a success; the new backup survives exactly when its modification time is not before that cutoff |
| `BackupMgr.BackupManager.MaybeBackupAfterCommit` | backupmgr.py:81-85 | the Python method returns None; `dest` is the forced backup's result that it discards. Inside the rate-limit window, measured at the test's clock reading, nothing changes, the folder included; once the interval (inclusive) has passed `dest` and the folder are those of a forced backup, and the recorded time is the later reading taken after the copy and the rotation; the hooks and the one-handler invariant are kept |
| `BackupMgr.BackupManager.AttachToSession` | backupmgr.py:88-113 | the previous handler is removed from the previous session, a new handler is hooked onto the given session, and afterwards exactly the attached session carries one handler of this manager |
| `BackupMgr.BackupManager.OnCommit` | backupmgr.py:106-110 | the closure returns None; `dest`, the discarded result of the attempt, is a path exactly when the database path is a non-empty existing file, the rate limit allows at the test's clock reading and the copy succeeds; only then is the time recorded, as the reading taken after the copy; the folder changes as a forced backup changes it exactly when the path and the rate limit allow an attempt; the hooks and the one-handler invariant are kept |
| `BackupMgr.CommitsInAWindow` | backupmgr.py:81-85 | two commits in the same window give one backup; when the backup took any time, a commit exactly `min_interval_sec` after the first commit's test is skipped, and a commit `min_interval_sec` after the recorded end of the backup gives the next |
| `BackupMgr.ReattachScenario` | backupmgr.py:88-113 | attaching to one session, another, then the first again leaves one handler, on the first session |
| `BackupMgr.BackupThenReattach` | backupmgr.py:88-113 | a backup after a commit keeps the hooks intact, so re-attaching to another session still leaves exactly one handler, on that session |
| `DbInit.EasterSunday` | db_init.py:30-46 | Easter Sunday lies between 22 March and 25 April and is a Sunday |
| `DbInit.EasterFacts` | db_init.py:39-46 | the month and day computed by the algorithm form a valid date 0 to 34 days after 22 March, and that date is a Sunday |
| `DbInit.EasterOffsetRange` | db_init.py:39-43 | `h + l - 7m` lies between 0 and 34 |
| `DbInit.EasterIsSunday` | db_init.py:32-45 | 22 March plus `h + l - 7m` falls on a Sunday for every year 1 to 9999 |
| `DbInit.EasterLQuotient` | db_init.py:42 | `l` equals its defining sum less a multiple of seven |
| `DbInit.Koningsdag` | db_init.py:48-56 | King's Day is 27 April, or 26 April exactly when 27 April is a Sunday; it is never a Sunday |
| `DbInit.NlHolidaysForYear` | db_init.py:58-90 | the list has eleven entries |
| `DbInit.HolidaysInYear` | db_init.py:58-90 | every listed date lies in the year asked for; the Easter cycle sits at -2, 0, +1, +39, +49 and +50 days from Easter Sunday; the Easter entry is a Sunday |
| `DbInit.HolidayListRepeatsADate` | db_init.py:74-88 | the list can name a date twice: in 2016 Ascension Day and Liberation Day are both 5 May |
| `DbInit.Easter2016` | db_init.py:30-46 | Easter 2016 is 27 March |
| `DbInit.DatesOf` | db_init.py:97-99 | every row's date is among the dates of the rows |
| `DbInit.DatesOfAppend` | db_init.py:104-105 | adding a row adds its date |
| `DbInit.DistinctAppend` | db_init.py:103-105 | adding a row whose date is not yet present keeps the dates distinct |
| `DbInit.NoDatesNoRows` | db_init.py:106-108 | a list of rows with no dates is empty |
| `DbInit.SeedEntries` | db_init.py:102-105 | the inner loop appends exactly the rows `NewRows` names: in order, each entry whose date is not yet seen, so a repeated date keeps its first name; the seen dates grow by the list's dates, and the added dates are new and distinct |
| `DbInit.SeedYear` | db_init.py:101-105 | after year `y` the rows added are those `NewRows` names for the holiday lists of the years so far, and their dates are those years' holidays minus the ones already in the table |
| `DbInit.SeedStep` | db_init.py:101-105 | one more year extends the seeded dates by that year's holidays |
| `DbInit.SeedDone` | db_init.py:101 | when the year loop stops the whole inclusive range has been seeded |
| `DbInit.SeedRangeDone` | db_init.py:101-105 | when the year loop stops, the rows gathered are those of the whole inclusive range, both as `NewRows` of its holiday list and as its unseen dates |
| `DbInit.NewRowsConcat` | db_init.py:101-105 | seeding two lists one after the other adds what the first adds, then what the second adds on top of the first's dates |
| `DbInit.NewRowsDates` | db_init.py:102-105 | the dates of the added rows are exactly the list's dates not yet seen |
| `DbInit.NewRowsDistinct` | db_init.py:102-105 | no date occurs twice among the added rows |
| `DbInit.HolidayListDates` | db_init.py:101-102 | the dates of the concatenated holiday lists are the holiday dates of the range |
| `DbInit.NoYearsNoDates` | db_init.py:101 | an empty range of years names no dates |
| `DbInit.SeedPublicHolidays` | db_init.py:92-108 | the rows added are exactly those `NewRows` names for the lists of the years `start_year..end_year`, in order and with the first name for a repeated date; their dates are distinct and are exactly that range's holidays not already in the table |
| `DbInit.SeedTwice` | db_init.py:92-96 | seeding the same range again adds nothing |
| `DbInit.EnsureCode` | db_init.py:130-135 | a missing code is added with the given fields; existing rows are never overwritten |
| `DbInit.SeedCodes` | db_init.py:130-141 | afterwards VV, VO and VM exist; every code present before is unchanged and no other code is added; a code that was missing gets its label, its colour, `counts_as_absent` and the fraction 1.0 (VV) or 0.5 (VO, VM) |
| `DbInit.SeededCodesCoverParts` | db_init.py:130-141 | every code a weekly fixed day off maps to exists after seeding, and one seeded afresh counts as absent for the whole day (FULL) or half of it (AM, PM) |
| `Logic.IsWeekend` | logic.py:7-8 | a day is a weekend day exactly when it is a Saturday or a Sunday |
| `Logic.WeekendsRepeatWeekly` | logic.py:7-8 | weekends repeat every seven days, and two consecutive weekend days are a Saturday and its Sunday |
| `Logic.BaseHolidays` | logic.py:28-33 | the minimal list holds four distinct dates, all in the year asked for |
| `Logic.EnsurePublicHolidays` | logic.py:18-35 | a year that already has a holiday is left alone; afterwards the year has one; existing rows are kept and every new row is one of the four base dates of that year |
| `Logic.EnsurePublicHolidaysFreshYear` | logic.py:18-35 | for a year without holidays the table gains exactly four rows: 1 January `Nieuwjaarsdag`, 27 April `Koningsdag`, 25 December `Eerste Kerstdag` and 26 December `Tweede Kerstdag` |
| `Logic.BaseHolidayNames` | logic.py:28-33 | each base date carries its holiday's name |
| `Logic.EnsurePublicHolidaysIdempotent` | logic.py:18-35 | a second call for the same year changes nothing |
| `Logic.LeaveRangeSet` | logic.py:42-55 | inside the range exactly the weekdays carry the code; outside it the table is unchanged |
| `Logic.LeaveRangeCleared` | logic.py:57-66 | nothing of the resource is left inside the range and every other row is unchanged |
| `Logic.SetLeaveRange` | logic.py:42-55 | the delete-then-add loop produces exactly the table described by `LeaveRangeSet` |
| `Logic.SameLeaveTables` | logic.py:42-55 | the description of a planned range determines the table uniquely |
| `Logic.ClearLeaveRange` | logic.py:57-66 | the day-by-day delete loop produces exactly the table described by `LeaveRangeCleared` |
| `Logic.SetLeaveIdempotent` | logic.py:42-55 | planning the same range twice is planning it once |
| `Logic.ClearUndoesSet` | logic.py:42-66 | clearing after planning equals clearing, and planning after clearing equals planning |
| `Logic.FixedOffLookup` | logic.py:68-83 | a day is fixed-off exactly when some weekly row of the resource is on its weekday; with no effective-date columns every row applies |
| `Logic.RowsOn` | logic.py:96-99 | the rows selected for a resource and weekday are no more than the table's rows |
| `Logic.RowsOnMembers` | logic.py:96-99 | the selection holds exactly the table's rows of that resource on that weekday |
| `Logic.RowsNotOf` | logic.py:71 | the rows left after deleting a resource's rows are exactly the other resources' rows |
| `Logic.RowsOnConcat` | logic.py:96-99 | selecting from two concatenated tables is concatenating the selections |
| `Logic.RowsOnNotOf` | logic.py:96-99 | deleting one resource's rows keeps every other resource's rows per weekday and leaves none of its own |
| `Logic.WeeklyFraction` | logic.py:104 | a truthy stored fraction is used; otherwise 1.0 for FULL and 0.5 for any other part |
| `Logic.FixedOffWeeklyCases` | logic.py:92-105 | no effect on a weekend or without a row; an error with more than one row on the weekday; otherwise the row's own code and fraction; any code is VV, VO or VM |
| `Logic.FixedOffEffectCases` | logic.py:107-125 | an exception decides when present (NONE no effect, FULL VV 1.0, AM VO 0.5, PM VM 0.5); otherwise the weekly pattern decides |
| `Logic.ExceptionOverridesPattern` | logic.py:116-123 | with an exception on the day the weekly rows do not matter, not even duplicated ones, and no error arises |
| `Logic.CodeAbsence` | logic.py:142-146 | a code counts as absent exactly when its flag is true; a stored fraction is used as is, a missing one is 1.0 for absent codes and 0.0 otherwise |
| `Logic.Max0` | logic.py:180-181 | the lower bound 0 on a presence |
| `Logic.ResourcePresence` | logic.py:163-181 | a resource's presence is never negative |
| `Logic.ResourcePresenceIs` | logic.py:163-181 | presence is 1 minus leave minus the fixed-off fraction, floored at 0, and fails exactly when the fixed-off effect fails |
| `Logic.PresenceAtMostOne` | logic.py:163-181 | with non-negative fractions nobody counts for more than one person |
| `Logic.RoleNames` | logic.py:149-152 | every role's name is a counted name |
| `Logic.InitialCounts` | logic.py:150-153 | the counts start at 0 for every role name and for "(zonder rol)" |
| `Logic.PresenceShape` | logic.py:150-185 | the result has a key for every role name and "(zonder rol)" and no other, and no count is negative |
| `Logic.CountUnder` | logic.py:164 | the number of resources counted under a name is at most the number of resources |
| `Logic.PresenceBounded` | logic.py:163-185 | a name's count never exceeds the number of resources counted under it |
| `Logic.FailureSpreads` | logic.py:176 | one resource whose fixed days cannot be resolved makes the whole count fail |
| `Logic.PresenceStep` | logic.py:163-183 | one more resource adds its presence under its role's name |
| `Logic.PresenceCount` | logic.py:127-185 | the loop computes the per-name counts over all resources of the table |
| `Logic.AddPresence` | logic.py:163-183 | the loop body adds the resource at index i |
| `Logic.RoleIssue` | logic.py:192-196 | a role has a warning exactly when its presence (0 when missing) is below its minimum or above its maximum, and below-minimum wins |
| `Logic.CheckMinMax` | logic.py:187-197 | the check fails exactly when the presence count fails; otherwise a role name is listed exactly when that role has a warning, with that warning, and only role names are listed |
| `Logic.RowAbsence` | logic.py:233-238 | every weekly row takes a positive part of the day |
| `Logic.SumAbsence` | logic.py:232-238 | the sum over weekly rows is non-negative, and positive when there is a row |
| `Logic.Clamp01` | logic.py:240-244 | the clamp lands in [0, 1] and leaves values already there unchanged |
| `Logic.AbsenceFraction` | logic.py:203-245 | the absence lies in [0, 1] and is positive on a weekday with a weekly row |
| `Logic.AbsenceFractionForDay` | logic.py:203-245 | the loop computes the clamped sum of planned leave and every weekly row, a value in [0, 1] |
| `Logic.PresentFractionForDay` | logic.py:248-253 | presence is 1 minus the absence and lies in [0, 1] |
| `Logic.RolePresenceShape` | logic.py:256-268 | there is a sum for exactly the roles of the given resources, each between 0 and the number of resources |
| `Logic.RolePresenceStep` | logic.py:262-267 | one more resource adds its presence under its role id |
| `Logic.RolePresenceForDate` | logic.py:256-268 | the loop computes the summed presence per role id |
| `Logic.AddRolePresence` | logic.py:262-267 | the loop body adds the resource at index i |
| `Logic.PresenceRulesDisagree` | logic.py:169-224 | for an absent code with fraction 0 on a day without a weekly fixed row (a weekend or a weekday without one) the two rules disagree: `presence_count` keeps the person present, the half-day rule counts them fully absent |
| `DriveStore.CleanJsonText` | drive_store.py:25 | the cleaned credentials text has no white space at either end |
| `DriveStore.BomIsIgnored` | drive_store.py:25 | a byte-order mark in front of the text makes no difference |
| `DriveStore.CleanTextUnchanged` | drive_store.py:25 | text that is already clean reaches the parser unchanged |
| `DriveStore.ResolveCredentials` | drive_store.py:10-34 | no `[drive]` section is an error; a `service_account` table is used as is; otherwise SERVICE_ACCOUNT_JSON decides |
| `DriveStore.ResolveJsonEntry` | drive_store.py:17-34 | credentials result exactly from a table or from a string that cleans and parses as JSON; a missing entry, invalid JSON and any other type are the three distinct errors |
| `DriveStore.ServiceAccountTableWins` | drive_store.py:12-14 | a `service_account` table wins whatever SERVICE_ACCOUNT_JSON holds |
| `DriveStore.JsonEntryIgnoresBom` | drive_store.py:24-27 | a leading byte-order mark on a string entry never changes the outcome |
| `DriveStore.FileIdOf` | drive_store.py:43 | the file id is found exactly when the section has a string `DB_FILE_ID`, and it is that string |
| `DriveStore.DriveFile.constructor` | drive_store.py:45-48 | a Drive file with the given id, name, content and head revision |
| `DriveStore.DriveFile.Metadata` | drive_store.py:45-48 | the metadata names the file's id and its current head revision |
| `DriveStore.LocalDisk.constructor` | drive_store.py:51 | the local disk holds the given files |
| `DriveStore.Preflight` | drive_store.py:43-45 | a Drive call gets past its set-up exactly when the file id and the credentials resolve and the id names the file |
| `DriveStore.DownloadDb` | drive_store.py:41-57 | a set-up error leaves the disk alone; otherwise the local file holds exactly the Drive content, copied chunk by chunk, and the metadata with the head revision is returned |
| `DriveStore.UploadOutcome` | drive_store.py:59-71 | with the set-up passed, a head revision other than the expected one is a conflict; the upload succeeds exactly when the revision matches and the local file exists |
| `DriveStore.UploadDb` | drive_store.py:59-71 | the result is the outcome above, decided by the revision at the check; a failure leaves Drive unchanged; a success puts the local content on Drive under a newer revision, one more again when another client's update landed between the check and the update |
| `DriveStore.LostUpdate` | drive_store.py:64-70 | two clients that passed the check at the same revision both succeed, and Drive ends with the later update's content: the earlier acknowledged upload is lost |
| `DriveStore.WriterLock.constructor` | drive_store.py:74 | the writer lock starts free |
| `DriveStore.WriterLock.Acquire` | drive_store.py:77-79 | the acquire succeeds exactly when the lock was free, and the lock is held afterwards |
| `DriveStore.WriterLock.Release` | drive_store.py:80-83 | the lock is free afterwards |
| `WebApp.App.constructor` | streamlit_app.py:35-38 | the cached state keeps the local path and the head revision seen at download as the expected revision |
| `WebApp.App.Save` | streamlit_app.py:56-62 | a lock held by another session gives a time-out and changes nothing; otherwise the result is the guarded upload against the remembered revision; the lock is released on every path that took it |
| `WebApp.Bootstrap` | streamlit_app.py:18-24 | a set-up error leaves the disk alone; otherwise the database is downloaded to `vakantierooster.db` in the temporary folder and the head revision is remembered; the local file is stated as the download leaves it, before `init_db` seeds it |
| `WebApp.SaveTwice` | streamlit_app.py:38-62 | because the remembered revision is never refreshed, a second save in the same process fails with a conflict although nobody else wrote |
| `WebApp.MonthRange` | streamlit_app.py:85-89 | the range runs from the first to the last day of the month and has as many days as the month |
| `WebApp.MonthRangesTile` | streamlit_app.py:85-89 | consecutive months' ranges are adjacent, December followed by the next January |
| `WebApp.RowShape` | streamlit_app.py:99-101 | a row has the date, the weekday label and one cell per role, and a role named `datum` or `weekdag` overwrites that column |
| `WebApp.BuildRow` | streamlit_app.py:99-101 | the role loop builds exactly that row |
| `WebApp.OverviewDay` | streamlit_app.py:98-102 | one day's row: counts on a weekday, empty cells on a weekend, or the count's failure |
| `WebApp.RowsFromMeaning` | streamlit_app.py:95-103 | the table fails exactly when some day's count fails; otherwise it has one row per day, in date order |
| `WebApp.RowsFromFailure` | streamlit_app.py:97-103 | a failure part-way through fails the whole table |
| `WebApp.RowsBetween` | streamlit_app.py:95-103 | the day loop computes exactly that table |
| `WebApp.OverviewRows` | streamlit_app.py:85-103 | the tab first ensures the year's holidays, then lists the month's days on the updated database |
| `WebApp.OverviewLength` | streamlit_app.py:85-103 | a successful overview has one row per day of the month |
| `WebApp.OverviewCells` | streamlit_app.py:98-101 | on a weekend every role cell is empty; on a weekday it is a count between 0 and the number of resources with that role |
| `WebApp.NormaliseRange` | streamlit_app.py:139-151 | the two dates come back in order and cover the same days in either order |
| `WebApp.Plan` | streamlit_app.py:135-145 | without an employee or code it warns and changes nothing; otherwise it plans the ordered range |
| `WebApp.Delete` | streamlit_app.py:147-157 | without an employee it warns and changes nothing; otherwise it clears the ordered range |
| `WebApp.PlanEitherOrder` | streamlit_app.py:135-145 | whichever order the dates are picked in, exactly the working days between them are planned and the rest is untouched |
| `WebApp.SaveRole` | streamlit_app.py:189-202 | a blank name is refused; otherwise the role with the stripped name has the new bounds, other roles are unchanged, and names stay unique; an existing role of that name keeps its id and no id is added, while a new name is added under the fresh id and nothing else changes |
| `WebApp.WithBounds` | streamlit_app.py:197-200 | the found role is updated in place: the same ids and names, the new bounds on the role with that name, every other role unchanged |
| `WebApp.WithNewRole` | streamlit_app.py:198-200 | without a role of that name, exactly one role is added, under the fresh id with the stripped name and the bounds, and names stay unique |
| `WebApp.AddResource` | streamlit_app.py:220-232 | a blank first name or a missing role is refused; otherwise exactly one resource is appended under the fresh id, with the chosen role and the stripped first and last names stored as given |
| `WebApp.RowsOnCheckedRow` | streamlit_app.py:256-257 | the row added for a weekday is on that weekday only, and only when it is checked |
| `WebApp.CheckedRowsOn` | streamlit_app.py:256-257 | exactly one row per checked weekday, carrying the column defaults: part `FULL` and fraction 1.0 |
| `WebApp.CheckedRowsOnlyOwn` | streamlit_app.py:256-257 | none of the added rows belongs to another resource |
| `WebApp.SaveFixedOffDays` | streamlit_app.py:253-259 | the save deletes the resource's rows and adds one row per checked weekday in increasing order |
| `WebApp.SavedFixedOffRows` | streamlit_app.py:253-259 | afterwards the resource has one row on each checked weekday and none on others, and every other resource keeps its rows |
| `WebApp.SavedFixedOffEffect` | streamlit_app.py:253-259 | on a checked working day the saved pattern takes the whole day off as VV |
| `WebApp.SaveCode` | streamlit_app.py:281-284 | the save fails, with the missing-code error, exactly when the stripped code is blank |
| `WebApp.FormCode` | streamlit_app.py:284-293 | the written row carries the code, its label (the code when blank), colour (`#C6E6C6` when blank) and fraction, and counts as absent exactly when the fraction is above 0 |
| `WebApp.SaveCodeIs` | streamlit_app.py:281-295 | a successful save adds or overwrites exactly the stripped code with that row and leaves every other code unchanged |
| `WebApp.SavedCodeAbsence` | streamlit_app.py:285-293 | the presence count reads a saved code back as absent exactly when its fraction is above 0, with that fraction |
| `Desktop.WithDbSuffix` | main.py:88-90 | the selection is kept as a prefix and extended by at most `.db`, and it is unchanged exactly when its lower-cased name already ends in `.db` |
| `Desktop.WithDbSuffixEndsInDb` | main.py:88-90 | the result always ends in `.db` ignoring case, so applying the rule twice changes nothing |
| `Desktop.LastDbPath` | main.py:50-51 | nothing stored gives ""; the result never has white space at either end |
| `Desktop.LastDbPathStable` | main.py:50-55 | remembering the returned path and reading it back gives the same path |
| `Desktop.ApplyInstallDefaults` | main.py:71-79 | the install default's database path is remembered only when no usable path is remembered yet; its manifest path, when set, replaces the bundled one |
| `Desktop.EnsureDbPath` | main.py:94-120 | a usable remembered path is returned unchanged and not re-remembered; otherwise the picked file (with `.db` suffix) is used and remembered only when its folder is writable, and a cancelled dialog gives ""; any path returned has a writable folder |
| `Desktop.Connect` | main.py:134-140 | a new open session with a new backup manager (14 days, 120 s) attached to it |
| `Desktop.MainWindow.constructor` | main.py:124-163 | the window starts read-only with the toggle off, a fresh edit lock for the database that holds nothing, and a backup manager attached to a new session |
| `Desktop.MainWindow.ToggledOff` | main.py:250-253 | leaving edit mode releases the lock and returns to read-only with the read-only status |
| `Desktop.MainWindow.Uncheck` | main.py:245 | unchecking a checked toggle runs the leave-edit-mode branch; unchecking an unchecked one changes nothing |
| `Desktop.MainWindow.ToggledOn` | main.py:233-249 | the window becomes editable exactly when there is no lock file or the lock is free and `acquire` does not raise, and then shows `ik`, since `holder()` cannot read the file it just locked; a busy lock resets the toggle and keeps the window read-only with no lock taken; a raising `acquire` leaves the toggle checked in read-only mode with the status unchanged, holding the lock when the write failed |
| `Desktop.MainWindow.UserToggle` | main.py:233-253 | a click keeps the invariant "editable only with the toggle checked and the lock held; unchecked means read-only with no handle"; unchecking always ends read-only and frees the lock, also one left by a failed `acquire` |
| `Desktop.MainWindow.MaybeRefresh` | main.py:270-279 | only in read-only mode, never under an editor's hands, the overviews are rebuilt and the plan tab's `refresh_if_readonly` is called twice, once inside `rebuild_overviews` and once after it |
| `Desktop.MainWindow.BackupNow` | main.py:281-287 | the confirmation shows the backup's path exactly when the copy succeeded, and the backup folder changes as a forced backup changes it |
| `Desktop.MainWindow.ChangeDatabase` | main.py:292-341 | a cancelled dialog or an unusable folder changes nothing; otherwise the old lock is released, the old session closed and the window is read-only on the new path; if the new database opens, it has a new session, backup manager and edit lock and the path is remembered; if it does not, the window keeps the old released lock, the old closed session and the old backup manager, and the old path stays remembered |
| `Desktop.MainWindow.Reopen` | main.py:313-327 | when the new database opens: a new session with a backup manager, the new path remembered and a new edit lock holding nothing, in read-only mode (a database that does not open is `ChangeDatabase`'s other outcome) |
| `Desktop.MainWindow.Close` | main.py:470-479 | closing releases the lock and closes the session |
| `Desktop.TwoWindows` | main.py:233-253 | while one window edits, a second window's toggle is refused and reset; once the first leaves edit mode the second gets it |
| `Desktop.FailedToggleKeepsLock` | main.py:233-253 | after a toggle whose record write fails, the first window stays read-only with its toggle checked and holds the lock, so a second window is refused until the first is toggled off |
| `Updater.ParseInt` | updater.py:64 | `int(x)` only succeeds on text that is not blank |
| `Updater.ParseAll` | updater.py:64 | a parsed tuple has one number per piece |
| `Updater.ParseAllIs` | updater.py:64 | the tuple exists exactly when every piece parses, and each number is that piece's value |
| `Updater.TupleLessByPosition` | updater.py:68 | tuple `<` holds exactly when the first differing position is smaller or the left tuple is a proper prefix |
| `Updater.TupleLessIrreflexive` | updater.py:68 | no tuple is below itself |
| `Updater.TupleLessAsymmetric` | updater.py:68 | of two tuples at most one is below the other |
| `Updater.TupleLessTransitive` | updater.py:68 | the tuple order is transitive |
| `Updater.TupleLessTotal` | updater.py:68 | two different tuples are always ordered |
| `Updater.ExtensionIsGreater` | updater.py:68 | a longer version with the same leading numbers is newer |
| `Updater.IsNewerIrreflexive` | updater.py:66-70 | no version is newer than itself |
| `Updater.IsNewerAsymmetric` | updater.py:66-70 | of two versions at most one is newer than the other |
| `Updater.IsNewerOnNumbers` | updater.py:63-70 | versions written from numbers compare by those numbers, not by their text |
| `Updater.IsNewerNumeric` | updater.py:63-70 | 1.10 is newer than 1.9 |
| `Updater.SplitPlain` | updater.py:64 | a piece without a dot splits into itself |
| `Updater.SplitAround` | updater.py:64 | a dot after a dot-free piece starts the next piece |
| `Updater.DecimalRoundTrip` | updater.py:64 | a number's decimal text is all digits with that value |
| `Updater.ParseDecimal` | updater.py:64 | a decimal number parses back to itself |
| `Updater.RenderVersionRoundTrip` | updater.py:63-64 | a version written out from natural numbers normalises back to those numbers |
| `Updater.RenderEnds` | updater.py:64 | a written-out version starts and ends with a digit, so stripping leaves it alone |
| `Updater.SplitRender` | updater.py:64 | splitting a written-out version on dots gives its decimal pieces |
| `Updater.ParsedParts` | updater.py:64 | the decimal pieces all parse back to the numbers |
| `Updater.SourceTarget` | updater.py:24-54 | the scheme test ignores case; `http://` and `https://` go to the network with the stripped source; `file://` is cut off and the rest is the path; anything else is a path as written |
| `Updater.FileSchemeAnyCase` | updater.py:35-38 | a `FILE://` source in any letter case names the path after it |
| `Updater.FieldText` | updater.py:79-96 | a missing key reads as ""; reading fails exactly for a truthy non-string value |
| `Updater.CheckForUpdate` | updater.py:72-84 | read errors and invalid JSON give no update; a non-object or a non-string version raises; a manifest is offered exactly when its stripped version is non-empty and newer, and it is offered unchanged |
| `Updater.CheckForUpdateSettles` | updater.py:72-84 | a manifest announcing the running version is not offered, and once its version is installed it is not offered again |
| `Updater.InstallerName` | updater.py:92 | the installer's file name has no `/` and no `?` |
| `Updater.DownloadUpdate` | updater.py:86-107 | a non-string URL raises; an empty one gives nothing; the installer path is returned exactly when the download worked and the checksum is empty or matches, in the updates folder under the URL's file name; a mismatching file is reported removed exactly when its removal worked |
| `Updater.ChecksumIgnoresCase` | updater.py:96-99 | the checksum comparison ignores letter case on both sides |
| `Updater.InstallerArgs` | updater.py:115-117 | the command line starts with the installer, followed by the four silent flags exactly when silent |
| `Updater.LaunchInstaller` | updater.py:109-126 | a missing installer gives nothing; otherwise the silent command line is started, the plain one when that fails, and the process exits either way |
| `PlanTab.DateRange` | ui_plan.py:21-26 | the days from d0 to d1 inclusive, one per day in order; none when d1 is before d0 |
| `PlanTab.SelectedRange` | ui_plan.py:374-379 | the two picked dates, earliest first |
| `PlanTab.WorkingDayForIs` | ui_plan.py:381-389 | a day counts exactly when it is not a weekend day, not a public holiday and not on one of the resource's fixed-off weekdays |
| `PlanTab.WorkingDaysAre` | ui_plan.py:407-411 | the working days walked over are exactly the range's working days, strictly ascending |
| `PlanTab.LeavePlannedIs` | ui_plan.py:407-421 | every working day in range gets a row with the code (a new row or the existing one overwritten); every other row, including those on non-working days, is untouched |
| `PlanTab.LeavePlannedIdempotent` | ui_plan.py:407-421 | planning the same range and code twice is planning it once |
| `PlanTab.ClearUndoesPlan` | ui_plan.py:407-460 | deleting a range after planning it leaves what deleting it alone leaves |
| `PlanTab.CountInRangeIs` | ui_plan.py:445-457 | the count is 0 exactly when the delete would change nothing, and the rows left plus the count is the rows before |
| `PlanTab.NextMonth` | ui_plan.py:356-361 | the month directly after, December followed by January of the next year |
| `PlanTab.NextMonthUnique` | ui_plan.py:356-361 | no other month directly follows a month |
| `PlanTab.EarliestExists` | ui_plan.py:350 | a non-empty set of months has an earliest one |
| `PlanTab.SortedMonthsAre` | ui_plan.py:350 | `sorted(days_by_month.keys())` holds the set's months, each once, in `(year, month)` order |
| `PlanTab.ShownMonthsAre` | ui_plan.py:332-365 | without leave in the queried years the overview shows today's month and the next; otherwise exactly the months with leave, ascending |
| `PlanTab.WeekdayName` | ui_plan.py:194 | `WEEKDAY_FULL[w]` is the name of weekday w for 0 to 6 and fails exactly outside -7 to 6 |
| `PlanTab.AscendingInAre` | ui_plan.py:191 | the members of a set within bounds, strictly ascending |
| `PlanTab.FixedDaysTextIs` | ui_plan.py:190-195 | the label says `(geen)` exactly when the resource has no fixed-off row, and weekdays 0 to 6 always give a label |
| `PlanTab.NamedDaysNotGeen` | ui_plan.py:192-195 | a non-empty set of weekdays is listed by name and never reads as `(geen)` |
| `PlanTab.FixedWeekdaysSorted` | ui_plan.py:191 | the weekdays listed are the resource's distinct fixed-off weekdays, ascending |
| `PlanTab.WeekdayNameShape` | ui_plan.py:18 | every weekday name is non-empty and does not start with `(` |
| `PlanTab.JoinNotGeen` | ui_plan.py:195 | a comma-joined list of such names is never `(geen)` |
| `PlanTab.FillContainer` | ui_plan.py:320-364 | emptying the container and adding the month boxes in order leaves exactly those boxes |
| `PlanTab.PlanLeave.constructor` | ui_plan.py:43-51 | a new tab is read-only with its buttons off, the history box unticked and not building |
| `PlanTab.PlanLeave.RebuildOverview` | ui_plan.py:314-371 | a nested call changes nothing; otherwise the title, status, month boxes and fixed-days label follow the selection, and the building flag is cleared however the rebuild ends |
| `PlanTab.PlanLeave.ApplyLeave` | ui_plan.py:391-432 | without a resource or code, or when the commit fails, nothing changes; otherwise every working day of the range holds the code, `made` is the number of working days, the signal is emitted once and the overview is rebuilt, with its title and fixed-days label; the buttons never change |
| `PlanTab.PlanLeave.ShowAfterCommit` | ui_plan.py:431-432 | after a commit the overview is rebuilt with its title, months and fixed-days label, and the status line shows the report unless the label raised; the tables, the flags and the buttons are unchanged |
| `PlanTab.PlanLeave.ClearLeave` | ui_plan.py:434-469 | without a resource nothing changes; the count is the resource's rows in range; a zero count only sets its status, leaving the title, the months and the label; otherwise those rows are deleted, the signal is emitted once, the overview is rebuilt and the count reported; the buttons never change |
| `PlanTab.PlanLeave.SetReadonly` | ui_plan.py:472-481 | both buttons are enabled exactly when not read-only; nothing else changes |
| `PlanTab.PlanLeave.RefreshIfReadonly` | ui_plan.py:483-486 | only a read-only tab rebuilds its overview |
| `YearView.KeyLessIrreflexive` | ui_year.py:156-161 | the sort keys' order never puts a key before itself |
| `YearView.KeyLessTransitive` | ui_year.py:156-161 | the sort keys' order is transitive |
| `YearView.InsertByPerm` | ui_year.py:159-161 | inserting into a list adds exactly that element |
| `YearView.SortedCons` | ui_year.py:159-161 | a head no greater than a sorted list's elements keeps it sorted |
| `YearView.InsertBySorted` | ui_year.py:159-161 | inserting into a sorted list keeps it sorted |
| `YearView.SortByIs` | ui_year.py:159-161 | `sorted(…, key=…)` gives a sorted permutation of its input |
| `YearView.SortByKeeps` | ui_year.py:159-161 | sorting keeps exactly the elements it was given |
| `YearView.GroupKeysDistinct` | ui_year.py:146-151 | each role key of `by_role` appears once |
| `YearView.GroupKeysListed` | ui_year.py:146-151 | a key is listed exactly when some resource belongs to it |
| `YearView.MembersBelong` | ui_year.py:146-151 | a group's members are resources of that key; a resource without role falls under -1 |
| `YearView.BagOfGroups` | ui_year.py:146-151 | the groups together hold every resource exactly once |
| `YearView.BagInsert` | ui_year.py:159 | inserting a key adds exactly that group's members |
| `YearView.BagSort` | ui_year.py:159 | ordering the keys keeps the resources they hold |
| `YearView.GroupsFor` | ui_year.py:159-161 | one group per key |
| `YearView.LayoutHolds` | ui_year.py:163-173 | the layout has one group row per group plus one row per member, and its resource rows are the members in order |
| `YearView.GroupRowsAreGroupRows` | ui_year.py:163-173 | `group_rows` holds exactly the rows that hold no resource |
| `YearView.GroupsForMembers` | ui_year.py:159-161 | the groups' members are together the resources of their keys |
| `YearView.RowsHoldEveryResource` | ui_year.py:144-173 | every resource gets exactly one row, and there are as many rows as groups plus resources |
| `YearView.GroupsForAt` | ui_year.py:160-161 | group i has the role of its key, or none, and the key's resources sorted by last then first name |
| `YearView.GroupsInOrder` | ui_year.py:156-161 | groups come in order of role name (`ZZZ` for no role), each holding exactly its role's resources, sorted by name |
| `YearView.MembersComplete` | ui_year.py:146-151 | every resource is among the members of its own key |
| `YearView.BuildRows` | ui_year.py:144-173 | the rows and `group_rows` are the layout of the ordered groups |
| `YearView.OrderGroups` | ui_year.py:155-161 | the loop builds the groups in role-name order |
| `YearView.GroupsForStep` | ui_year.py:159-161 | one more key adds its group at the end |
| `YearView.LayOut` | ui_year.py:163-173 | the loop lays out a group row and then the members for each group |
| `YearView.GroupByRole` | ui_year.py:146-151 | the loop gives each key, in order of first appearance, exactly its resources in input order |
| `YearView.AppendMembers` | ui_year.py:172-173 | the inner loop appends one row per member, in order |
| `YearView.CellPrecedence` | ui_year.py:233-257 | a weekend cell is grey whatever it holds; a holiday is red and shows `F` unless there is leave; leave shows its code and colour; only then the fixed day off shows |
| `YearView.FixedOffEffectCodes` | ui_year.py:252-254 | a fixed day off in a cell is always `VV`, `VO` or `VM` |
| `YearView.VvHumanDescribesEffects` | ui_year.py:30-34 | each fixed-off code gets its own description, and only `VV` is the whole day |
| `YearView.TooltipMatchesCell` | ui_year.py:367-383 | the tooltip fails exactly when the cell does; an empty workday cell reads `Aanwezig`; a fixed day off is described by its part of the day |
| `YearView.DisplayNameIs` | ui_year.py:275-279 | the name shown is the first and last name joined, whichever exists, or `Onbekend`; never empty |
| `YearView.MonthGrid.constructor` | ui_year.py:43-51 | the grid's rows and group rows are the layout of the ordered groups of its resources |
| `YearView.MonthGrid.SelectedRangeDates` | ui_year.py:282-300 | a selection counts exactly when its first block is one resource row inside the day columns; it gives that resource and the dates of its first and last column |
| `Upcoming.MonthCount` | ui_upcoming.py:21 | at least one month and at least the number asked for; the number asked for unless that is below 1 |
| `Upcoming.MonthAt` | ui_upcoming.py:49-51 | the year and month computed for offset i always form a valid month |
| `Upcoming.MonthAtIs` | ui_upcoming.py:44-51 | offset i is exactly i months after the current month, so the months shown are consecutive and distinct |
| `Upcoming.MonthAtRollsOver` | ui_upcoming.py:49-51 | offset 0 is the current month, and December is followed by January of the next year |
| `Upcoming.MakeGrids` | ui_upcoming.py:47-60 | one caption and one grid per offset, each for month i after the start, captioned with its month name and year, laid out from the same resources |
| `Upcoming.UpcomingMonths.constructor` | ui_upcoming.py:18-65 | the month count is `max(1, months)`, the title names it, and there are that many captioned grids starting at the current month |
| `ResourcesView.ComboRoundTrip` | ui_resources.py:298-346 | each of the four combo entries saved and loaded again shows itself, and the row written carries the weekday, the part's code (`VV`, `VO`, `VM`) and its fraction |
| `ResourcesView.NewFixedRowsOn` | ui_resources.py:340-346 | the rows written belong to the resource only, and a weekday gets a row exactly when its combo is not `Geen` |
| `ResourcesView.SaveReplacesRows` | ui_resources.py:339-347 | other resources' rows are untouched, and the resource ends with at most one row per weekday, the one its combo asks for |
| `ResourcesView.SavedRowsAreUnambiguous` | ui_resources.py:339-347 | after a save the weekly fixed-day rule cannot meet two rows for the resource |
| `ResourcesView.LoadedCombos` | ui_resources.py:296-305 | seven combo indices, one per weekday |
| `ResourcesView.SaveLoadRoundTrip` | ui_resources.py:296-347 | saving seven combo choices and selecting the resource again shows the same choices |
| `ResourcesView.ReplaceFixedOff` | ui_resources.py:339-346 | the delete and the add loop leave the other resources' rows followed by the combos' rows |
| `ResourcesView.FractionIndex` | ui_resources.py:362 | the fraction shown is always one of the three entries |
| `ResourcesView.FractionRoundTrip` | ui_resources.py:362-370 | entry to fraction to entry gives the entry back, and 0, 0.5 and 1 survive fraction to entry to fraction |
| `ResourcesView.CodeFromFormIs` | ui_resources.py:365-372 | an empty code is refused; otherwise the code is stripped and upper-cased, an empty colour becomes `#C6E6C6`, `counts_as_absent` follows the first combo entry and the fraction is 0, 0.5 or 1 |
| `ResourcesView.CodeFormRoundTrip` | ui_resources.py:352-381 | a code already in normal form is saved back unchanged after being shown in the form |
| `ResourcesView.SavedCodesIs` | ui_resources.py:364-381 | the form's row is stored under its normalised code, the selected code is dropped when renamed and every other code is kept; the save fails exactly for an empty code or one another row already has |
| `ResourcesView.PutCodeIs` | ui_resources.py:374-381 | storing a row never fails for a missing code; it fails with a duplicate exactly when another code already has the row's key, and otherwise the row is stored under its code, the selected code is dropped when renamed and every other code is kept |
| `ResourcesView.ResourcesScreen.constructor` | ui_resources.py:27-31 | a new screen shows all weekdays as `Geen`, with no message, no change signalled and a usable session |
| `ResourcesView.ResourcesScreen.ShowFixedOff` | ui_resources.py:285-305 | the combos are reset to `Geen` and then show the selected resource's rows when it exists and the session can still be queried; nothing else changes |
| `ResourcesView.ResourcesScreen.SaveFixedOffDays` | ui_resources.py:333-349 | without a selection only the hint is shown; on a session awaiting a rollback nothing changes; otherwise for a resource that exists its rows are replaced by the combos' rows, the change is signalled once and `Opgeslagen.` is shown |
| `ResourcesView.ResourcesScreen.DeleteRole` | ui_resources.py:274-282 | a role is deleted exactly when the session is usable, the role exists and no resource has it; a role still in use is kept with a warning |
| `ResourcesView.ResourcesScreen.SaveCode` | ui_resources.py:364-381 | the code table becomes the saved table exactly when the session is usable and the save succeeds, the change is then signalled once; an empty code shows `Code is verplicht.`; a duplicate code leaves the session awaiting a rollback |
| `ResourcesView.ResourcesScreen.Commit` | ui_resources.py:379-381 | a successful commit replaces the code table and is signalled once; a refused empty code shows `Code is verplicht.`; a session awaiting a rollback refuses the commit; a duplicate code changes nothing but leaves the session awaiting a rollback |
| `ResourcesView.DuplicateBlocksLaterSaves` | ui_resources.py:364-381 | after a duplicate code, a save of a new code and a save of the weekday combos fail as well, and the tables keep their earlier state |

## Left out

- The Qt and Streamlit widgets, layouts, styles, message boxes and dialogs are left out. A message box becomes a message field, a signal a counter, and a dialog's answer a parameter.
- The clock, `date.today()`, the temporary folder, the host and user names are parameters.
- File contents are strings, and SQLite's backup API is reduced to its outcome. The actual I/O is outside the model.
- Drive's HTTP API, the service-account authentication and JSON parsing are parameters or outcomes. The Drive file is a modelled object holding content and a revision counter.
- The network download, SHA-256 hashing and starting the installer process are outcomes passed in (`updater.py`).
- The update-check dialogs in `main.py` (`_auto_check_update`, `_manual_check_update`, `_manual_install_update`) and `main()` are not part of this model. They only chain the modelled updater calls to message boxes.
- `Updater.DownloadUpdate`: the updates folder is a parameter. `_updates_dir` creates it with `os.makedirs` before the `try` (updater.py:19-22, 93), so a failure there raises out of `download_update` instead of returning None. That raise is not modelled.
- `Desktop.LastDbPath`: the stored value is a string or missing. A `last_db_path` of another JSON type (a number, say) makes `.strip()` raise in `get_last_db_path` (main.py:50-51). That raise is not modelled.
- `set_database_url_persisted`, `load_settings`/`save_settings` and the config files are reduced to the values they store. The file formats and their I/O are left out.
- `WebApp.Bootstrap`: the `init_db(engine)` call after the download (streamlit_app.py:23) is left out. It seeds the public holidays and the leave codes and commits them into the local file, so that file can differ from Drive's content; the ensures states the file as the download leaves it. File contents are bytes here, not tables; the seeding itself is modelled on tables by `DbInit.SeedPublicHolidays` and `DbInit.SeedCodes`.
- `_migrate_schema` and `init_db`'s table creation are left out. They are SQL DDL; the model starts from tables that already have every column.
- `get_session` and the SQLAlchemy engine are left out. The session is the `Db` value of tables, and a unique constraint is a map key.
- `holidays_between` and `leave_on` are table lookups in the model (`d in db.holidays`, `db.vacations[(rid, d)]`). No separate members model them.
- Integer widths are not an issue: Python's integers are unbounded, like Dafny's. Floats are modelled as `real`, so rounding is not modelled.
- Paths follow `posixpath` only. Windows drive letters and backslash separators (`ntpath`) are left out.
- `str.upper`/`str.lower` map ASCII letters only. Other Unicode case mappings are left out.
- `int()` in `Updater.ParseInt` accepts white space, a sign and ASCII digits. Underscores and non-ASCII digits are left out.
- `threading.Lock.acquire(timeout=30)` in `exclusive_writer` becomes a non-blocking try. A lock still held by another session counts as the time-out.
- The portalocker library becomes the modelled `LockMgr.FileSystem`, with Windows semantics. A lock is mandatory and per path, so a locked file cannot be read through another handle, and a file open through any handle cannot be removed.
- `LockMgr.FileSystem`: POSIX behaviour is left out. There `flock` is advisory, a locked file can be read, and an open file can be unlinked. A refused instance's `release` would then remove the holder's lock file, and a third instance could lock a new file.
- `Desktop.MainWindow.ChangeDatabase`: after a failed switch the window is inconsistent; it has the new path with the old lock and backup manager. No later operation on such a window is modelled, because every method requires the consistent window.
- Python's `date` covers the years 1 to 9999. `Upcoming.FitsCalendar` and the `requires` on `PlanTab` keep the months computed inside that range.
- `PlanTab.PlanLeave.RebuildOverview` requires `today.year < 9999`. The next year's 31 December has to exist.
- `PlanTab.PlanLeave.RebuildOverview`: the grouping of leave into `(year, month)` buckets is the `monthOf` parameter. The month boxes' contents (`_month_box`) are left out; only which months are shown is modelled.
- `PlanTab`: `_load_initials`, `hard_refresh` and `_current_resource` are left out. The combo box selection is passed in as the selected resource and code.
- `YearView`: the group-row presence text (float formatting of `presence_count`), `apply_code_to_selection`, `clear_code_on_selection`, the context menu for exceptions and the `YearOverview` widget are left out. Their table effects are the modelled `Logic` operations.
- `YearView.ResourceCell` and `YearView.ResourceTooltip` take the holiday name and code table as lookups. The grid's column sizing is left out.
- `Upcoming.UpcomingMonths.constructor`: the resource query (inner join on role, ordered by role and name) is a parameter. `set_readonly` has an empty body and is left out.
- `ResourcesView`: saving and deleting roles and resources, the list loaders (`reload_all`) and `_delete_code` are left out. They are single-row ORM writes with no rule beyond the table update.
- `ResourcesView`: a leave code is identified by its code string, not by its row id.
- `ResourcesView.ResourcesScreen`: after a failed commit SQLAlchemy can still answer `session.get` from its identity map without a query. The model treats every query on such a session as refused.
- `WebApp`: the counts sidebar and the "Ingepland" listing are display only and are left out.

## Findings

| source | as written | input that shows it | evidently intended | confidence | as-written member | corrected member |
|---|---|---|---|---|---|---|
| models.py:146-159 | `sqlite_path_from_url` returns everything after `sqlite:`, so the slashes of `sqlite:///` stay in front of the path | `sqlite:///C:/pad/file.db` gives `///C:/pad/file.db` | the docstring's `C:/pad/file.db`, i.e. the path after `sqlite:///` | not executed | `Models.SqlitePathDocExample` | `Models.SqlitePathDocumentedRoundTrip` |

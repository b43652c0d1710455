/** The desktop application's start-up and main window (main.py): choosing
    the database file, remembering it in the per-user settings, and the
    exclusive edit mode built on the edit lock.

    The settings file is reduced to the value it stores under
    `last_db_path`; the file dialogs, the folder checks and the clock are
    parameters.  The window keeps the state the edit mode, the auto-refresh
    and the database switch work on; the tab widgets themselves are left
    out, and a rebuild of the overviews is counted. */
module Desktop {
  import opened Wrappers
  import opened Strs
  import opened Calendar
  import opened Models
  import opened LockMgr
  import opened BackupMgr

  const AppVersion := "1.4.1"
  const DbSuffix := ".db"

  /** The suffix rule of `pick_db_path_dialog`: a selected file whose
      lower-cased name does not end in `.db` gets `.db` appended. */
  function WithDbSuffix(selected: string): (p: string)
    ensures StartsWith(p, selected) && |p| <= |selected| + |DbSuffix|
    ensures p == selected <==> EndsWith(Lower(selected), DbSuffix)
  {
    if EndsWith(Lower(selected), DbSuffix) then selected else selected + DbSuffix
  }

  /** Whatever was selected, the path ends in `.db` (ignoring case), so a
      second application of the rule changes nothing. */
  lemma WithDbSuffixEndsInDb(selected: string)
    ensures EndsWith(Lower(WithDbSuffix(selected)), DbSuffix)
    ensures WithDbSuffix(WithDbSuffix(selected)) == WithDbSuffix(selected)
  {
    if !EndsWith(Lower(selected), DbSuffix) {
      var p := selected + DbSuffix;
      assert Lower(p)[|selected|..] == DbSuffix by {
        forall i | 0 <= i < |DbSuffix|
          ensures Lower(p)[|selected|..][i] == DbSuffix[i]
        {
          assert Lower(p)[|selected| + i] == LowerChar(p[|selected| + i]);
        }
      }
    }
  }

  /** `get_last_db_path()`: the remembered path without surrounding
      whitespace, or "" when nothing (or nothing truthy) is stored. */
  function LastDbPath(stored: Option<string>): (p: string)
    ensures stored.None? ==> p == ""
    ensures p == [] || (!IsSpace(p[0]) && !IsSpace(p[|p| - 1]))
  {
    StripEnds(OrElse(stored, ""));
    Strip(OrElse(stored, ""))
  }

  /** Remembering the path `get_last_db_path` returned and reading it back
      gives the same path. */
  lemma LastDbPathStable(stored: Option<string>)
    ensures LastDbPath(Some(LastDbPath(stored))) == LastDbPath(stored)
  {
    StripShape(OrElse(stored, ""));
  }

  /** What the machine-wide `install.json` changes at start-up: the
      remembered database path and the update manifest's location. */
  datatype Startup = Startup(lastDbPath: Option<string>, manifest: string)

  /** The module-level start-up code: the install default's `db_path` is
      remembered only when no usable path is remembered yet, and its
      `manifest_path` replaces the bundled manifest location. */
  function ApplyInstallDefaults(stored: Option<string>, dbPath: Option<string>,
                                manifestPath: Option<string>, bundledManifest: string): (r: Startup)
    ensures LastDbPath(stored) != "" ==> r.lastDbPath == stored
    ensures LastDbPath(stored) == "" && dbPath.Some? && dbPath.value != "" ==> r.lastDbPath == dbPath
    ensures r.lastDbPath == stored || r.lastDbPath == dbPath
    ensures manifestPath.Some? && manifestPath.value != "" ==> r.manifest == manifestPath.value
    ensures manifestPath.None? || manifestPath.value == "" ==> r.manifest == bundledManifest
  {
    var last := if LastDbPath(stored) == "" && dbPath.Some? && dbPath.value != "" then dbPath else stored;
    Startup(last, OrElse(manifestPath, bundledManifest))
  }

  /** `_dir_is_writable(path)`: `os.makedirs("")` raises, so the empty
      folder is never writable; otherwise the probe's outcome decides. */
  predicate DirWritable(dir: string, probe: string -> bool) {
    dir != "" && probe(dir)
  }

  /** The outcome of `ensure_db_path`: the database path ("" when the user
      gave up) and whether it was newly remembered. */
  datatype DbChoice = DbChoice(path: string, remember: bool)

  /** `ensure_db_path()`: the remembered path when its folder is an existing
      writable directory; otherwise the file the user picks in the dialog
      (`picked` is None when the dialog is cancelled), which is used and
      remembered only when its folder is writable. */
  function EnsureDbPath(last: string, isDir: string -> bool, probe: string -> bool,
                        picked: Option<string>): (r: DbChoice)
    ensures r.path != "" ==> DirWritable(Dirname(r.path), probe)
    ensures r.path == "" || r.path == last || (picked.Some? && r.path == WithDbSuffix(picked.value))
    ensures last != "" && isDir(Dirname(last)) && DirWritable(Dirname(last), probe) ==> r == DbChoice(last, false)
    ensures r.remember <==> r.path != "" && !(last != "" && isDir(Dirname(last)) && DirWritable(Dirname(last), probe))
    ensures r.remember ==> picked.Some? && r.path == WithDbSuffix(picked.value)
    ensures picked.None? && !(last != "" && isDir(Dirname(last)) && DirWritable(Dirname(last), probe)) ==> r.path == ""
  {
    if last != "" && Dirname(last) != "" && isDir(Dirname(last)) && DirWritable(Dirname(last), probe) then
      DbChoice(last, false)
    else
      var chosen := if picked.Some? then WithDbSuffix(picked.value) else "";
      if chosen == "" then DbChoice("", false)
      else if !DirWritable(Dirname(chosen), probe) then DbChoice("", false)
      else DbChoice(chosen, true)
  }

  const RetentionDays := 14
  const MinIntervalSec := 120

  /** A new session on the database (`get_session`) with a new backup
      manager (14 days, at most once per 120 s) attached to it. */
  method Connect(dbPath: string) returns (session: Session, backupMgr: BackupManager)
    ensures fresh(session) && !session.closed
    ensures fresh(backupMgr) && backupMgr.Valid() && backupMgr.attached == session
    ensures backupMgr.dbPath == dbPath && backupMgr.retentionDays == RetentionDays
    ensures backupMgr.minIntervalSec == MinIntervalSec
  {
    session := new Session();
    backupMgr := new BackupManager(dbPath, RetentionDays, MinIntervalSec);
    backupMgr.AttachToSession(session);
  }

  const ReadOnlyStatus := "Status: Alleen-lezen"

  /** The status text while editing: the lock's holder, or `ik` when
      `holder()` gives "". */
  function EditingStatus(holder: string): string {
    "Status: Bewerken (" + (if holder == "" then "ik" else holder) + ")"
  }

  /** `MainWindow`. */
  class MainWindow {
    var dbPath: string
    /** `readonly`: the tabs refuse edits. */
    var readonly: bool
    /** Whether the `Bewerkstand (exclusief)` toolbar action is checked. */
    var editChecked: bool
    /** The text of the status label. */
    var status: string
    var editLock: EditLock
    var session: Session
    var backupMgr: BackupManager
    /** The `last_db_path` entry of the per-user settings. */
    var remembered: Option<string>
    /** How many times the auto-refresh rebuilt the overviews. */
    var rebuilds: nat
    /** How many times the auto-refresh called the plan tab's
        `refresh_if_readonly`. */
    var planRefreshes: nat
    /** The file system every lock of this process works on. */
    const fs: FileSystem

    /** The window's lock and backup manager belong to its database. */
    ghost predicate Wired()
      reads this, editLock, fs
    {
      editLock.fs == fs && editLock.Valid() && editLock.dbFilePath == dbPath
      && backupMgr.dbPath == dbPath
    }

    /** The edit-mode invariant: the window leaves read-only mode only with
        the toggle checked and while its current lock is held (or there is
        no lock file to take), and with the toggle unchecked it is
        read-only and holds no handle.  A toggle that stays checked in
        read-only mode is what an `acquire` that raised leaves behind. */
    ghost predicate Valid()
      reads this, editLock, fs
    {
      Wired()
      && (!readonly ==> editChecked && (editLock.lockFilePath == "" || editLock.Holds()))
      && (!editChecked ==> readonly && editLock.fh == None)
    }

    /** `__init__`: a fresh session with a backup manager attached, a fresh
        edit lock for the database, and read-only mode. */
    constructor (dbPath: string, fs: FileSystem, remembered: Option<string>)
      requires fs.Valid()
      ensures Valid() && readonly && !editChecked && status == ReadOnlyStatus
      ensures this.dbPath == dbPath && this.fs == fs && this.remembered == remembered
      ensures rebuilds == 0 && planRefreshes == 0
      ensures fresh(editLock) && editLock.lockFilePath == LockPathFromDbFile(dbPath) && !editLock.Holds()
      ensures fresh(session) && !session.closed
      ensures fresh(backupMgr) && backupMgr.Valid() && backupMgr.attached == session
      ensures backupMgr.dbPath == dbPath && backupMgr.retentionDays == RetentionDays
      ensures backupMgr.minIntervalSec == MinIntervalSec
    {
      this.dbPath := dbPath;
      this.fs := fs;
      this.remembered := remembered;
      readonly := true;
      editChecked := false;
      status := ReadOnlyStatus;
      rebuilds := 0;
      planRefreshes := 0;
      var s, b := Connect(dbPath);
      session := s;
      backupMgr := b;
      editLock := new EditLock(dbPath, fs);
    }

    /** The `toggled(False)` branch of `_toggle_edit_mode`: release the
        lock and return to read-only. */
    method ToggledOff()
      requires Wired() && !editChecked
      modifies this, editLock, fs
      ensures Valid() && readonly && !editLock.Holds() && status == ReadOnlyStatus
      ensures fs.locks == if old(editLock.fh).Some? then old(fs.locks) - {editLock.lockFilePath} else old(fs.locks)
      ensures forall h :: h in old(fs.handles) && old(editLock.fh) != Some(h) ==>
                h in fs.handles && fs.handles[h] == old(fs.handles)[h]
      ensures editChecked == old(editChecked) && dbPath == old(dbPath) && editLock == old(editLock)
      ensures session == old(session) && backupMgr == old(backupMgr)
      ensures remembered == old(remembered) && rebuilds == old(rebuilds) && planRefreshes == old(planRefreshes)
    {
      editLock.Release();
      readonly := true;
      status := ReadOnlyStatus;
    }

    /** `toggle_edit_act.setChecked(False)`: when the action was checked,
        Qt emits `toggled(False)` and the handler runs. */
    method Uncheck()
      requires Wired() && (!editChecked ==> readonly && editLock.fh == None)
      modifies this, editLock, fs
      ensures Valid() && readonly && !editChecked
      ensures old(editChecked) ==> !editLock.Holds() && status == ReadOnlyStatus
      ensures !old(editChecked) ==> status == old(status) && unchanged(fs) && editLock.fh == old(editLock.fh)
      ensures fs.locks == if old(editLock.fh).Some? then old(fs.locks) - {editLock.lockFilePath} else old(fs.locks)
      ensures forall h :: h in old(fs.handles) && old(editLock.fh) != Some(h) ==>
                h in fs.handles && fs.handles[h] == old(fs.handles)[h]
      ensures dbPath == old(dbPath) && editLock == old(editLock)
      ensures session == old(session) && backupMgr == old(backupMgr)
      ensures remembered == old(remembered) && rebuilds == old(rebuilds) && planRefreshes == old(planRefreshes)
    {
      if editChecked {
        editChecked := false;
        ToggledOff();
      }
    }

    /** The `toggled(True)` branch of `_toggle_edit_mode`: with the lock
        taken the window becomes editable; otherwise the toggle is reset
        (which runs the other branch) and the window stays read-only.  The
        status names the holder, but `holder()` cannot read the file this
        window has just locked, so it shows `ik`.  `info` is what
        `_editor_info()` reads from the environment; when `acquire` raises,
        the handler stops there and the toggle stays checked in read-only
        mode, still holding the lock if the write failed. */
    method ToggledOn(info: EditorInfo, fault: IoFault)
      requires Wired() && editChecked && readonly && editLock.fh == None
      modifies this, editLock, fs
      ensures Valid()
      ensures !readonly <==>
                editLock.lockFilePath == ""
                || (fault.NoFault? && editLock.lockFilePath !in old(fs.locks))
      ensures !readonly ==> status == EditingStatus("")
      ensures !readonly && editLock.lockFilePath != "" ==> fs.files[editLock.lockFilePath] == EditorRecord(info)
      ensures readonly && editChecked ==>
                editLock.lockFilePath != "" && !fault.NoFault? && status == old(status)
      ensures readonly && editChecked && fault.WriteFails? ==>
                editLock.Holds() && fs.files[editLock.lockFilePath] == fault.left
      ensures readonly && !editChecked ==>
                editLock.lockFilePath in old(fs.locks) && status == ReadOnlyStatus && fs.locks == old(fs.locks)
      ensures readonly && (fault.DirFails? || fault.OpenFails?) ==> fs.locks == old(fs.locks)
      ensures forall h :: h in old(fs.handles) ==> h in fs.handles && fs.handles[h] == old(fs.handles)[h]
      ensures dbPath == old(dbPath) && editLock == old(editLock)
      ensures session == old(session) && backupMgr == old(backupMgr)
      ensures remembered == old(remembered) && rebuilds == old(rebuilds) && planRefreshes == old(planRefreshes)
    {
      var r := editLock.Acquire(info, fault);
      if r == Acquired {
        readonly := false;
        status := EditingStatus(editLock.Holder());
      } else if r == Busy {
        Uncheck();
        readonly := true;
        status := ReadOnlyStatus;
      }
    }

    /** The user clicks the edit-mode toggle: Qt flips the action's state
        and emits `toggled` with the new state.  Leaving edit mode also
        frees a lock left behind by a failed `acquire`. */
    method UserToggle(info: EditorInfo, fault: IoFault)
      requires Valid()
      modifies this, editLock, fs
      ensures Valid()
      ensures old(editChecked) ==> readonly && !editChecked && !editLock.Holds() && status == ReadOnlyStatus
      ensures old(editChecked) && old(editLock.fh).Some? ==> fs.locks == old(fs.locks) - {editLock.lockFilePath}
      ensures !old(editChecked) ==>
                (!readonly <==> editLock.lockFilePath == ""
                                || (fault.NoFault? && editLock.lockFilePath !in old(fs.locks)))
      ensures !old(editChecked) && !readonly ==> status == EditingStatus("")
      ensures !old(editChecked) && readonly && !editChecked ==> status == ReadOnlyStatus && fs.locks == old(fs.locks)
      ensures !old(editChecked) && readonly && editChecked ==> !fault.NoFault? && status == old(status)
      ensures !old(editChecked) && !fault.NoFault? && editLock.lockFilePath != "" ==>
                (editLock.lockFilePath !in old(fs.locks) ==> readonly && editChecked)
      ensures !old(editChecked) && readonly && editChecked && fault.WriteFails? ==> editLock.Holds()
      ensures forall h :: h in old(fs.handles) && old(editLock.fh) != Some(h) ==>
                h in fs.handles && fs.handles[h] == old(fs.handles)[h]
      ensures dbPath == old(dbPath) && editLock == old(editLock)
      ensures session == old(session) && backupMgr == old(backupMgr)
      ensures remembered == old(remembered) && rebuilds == old(rebuilds) && planRefreshes == old(planRefreshes)
    {
      if editChecked {
        Uncheck();
      } else {
        editChecked := true;
        ToggledOn(info, fault);
      }
    }

    /** `_maybe_refresh`, run by the two-minute timer: only in read-only
        mode, so never under an editor's hands, it rebuilds the overviews
        (`rebuild_overviews`, which ends with the plan tab's
        `refresh_if_readonly`) and then calls `refresh_if_readonly` once
        more. */
    method MaybeRefresh()
      requires Valid()
      modifies this
      ensures Valid()
      ensures rebuilds > old(rebuilds) <==> readonly
      ensures readonly ==> rebuilds == old(rebuilds) + 1 && planRefreshes == old(planRefreshes) + 2
      ensures !readonly ==> rebuilds == old(rebuilds) && planRefreshes == old(planRefreshes)
      ensures readonly == old(readonly) && editChecked == old(editChecked) && status == old(status)
      ensures dbPath == old(dbPath) && editLock == old(editLock)
      ensures session == old(session) && backupMgr == old(backupMgr) && remembered == old(remembered)
    {
      if readonly {
        rebuilds := rebuilds + 1;
        planRefreshes := planRefreshes + 1;
        planRefreshes := planRefreshes + 1;
      }
    }

    /** `_backup_now`: the confirmation shows the backup's path exactly when
        the copy succeeded; otherwise the failure warning is shown. */
    method BackupNow(now: DateTime, written: real, later: real, recorded: real, outcome: CopyOutcome, dir: BackupDir)
      returns (shown: Option<string>)
      requires Valid() && ValidDateTime(now)
      modifies backupMgr, dir
      ensures Valid()
      ensures backupMgr.attached == old(backupMgr.attached) && backupMgr.everAttached == old(backupMgr.everAttached)
      ensures old(backupMgr.Valid()) ==> backupMgr.Valid()
      ensures shown.Some? <==> outcome.Copied?
      ensures shown.Some? ==> shown.value == BackupFilePath(dbPath, now) && backupMgr.lastRun == recorded
      ensures shown.None? ==> backupMgr.lastRun == old(backupMgr.lastRun)
      ensures dir.entries == AfterBackup(old(dir.entries), BackupName(now), written, outcome,
                                         Cutoff(later, backupMgr.retentionDays), dir.undeletable)
    {
      shown := backupMgr.RunBackupNow(now, written, later, recorded, outcome, dir);
    }

    /** `_change_database`: `picked` is the dialog's selection (None when
        cancelled) and `folderReady` whether its folder exists or could be
        made.  The old lock is released and the toggle reset, the old
        session closed, and `db_path` set to the new path.  `opens` is
        whether `get_engine`, `init_db` and `get_session` then succeed: if
        so, the window continues read-only on the new database with a new
        session, backup manager and edit lock, and the new path is
        remembered; if one of them raises, the error is only shown, and the
        window is left half switched: the new path with the old, released
        lock, the old, closed session and the old backup manager, and the
        old path still remembered. */
    method ChangeDatabase(picked: Option<string>, folderReady: bool, opens: bool)
      requires Valid()
      modifies this, editLock, fs, session
      ensures picked.None? || !folderReady ==>
                Valid()
                && dbPath == old(dbPath) && editLock == old(editLock) && session == old(session)
                && readonly == old(readonly) && unchanged(fs) && unchanged(old(editLock))
                && remembered == old(remembered)
      ensures picked.Some? && folderReady ==>
                dbPath == WithDbSuffix(picked.value)
                && readonly && !editChecked && status == ReadOnlyStatus
                && !old(editLock).Holds() && old(session).closed
      ensures picked.Some? && folderReady && opens ==>
                Valid() && remembered == Some(dbPath)
                && fresh(editLock) && editLock.lockFilePath == LockPathFromDbFile(dbPath)
                && fresh(session) && !session.closed
                && fresh(backupMgr) && backupMgr.attached == session && backupMgr.dbPath == dbPath
      ensures picked.Some? && folderReady && !opens ==>
                editLock == old(editLock) && editLock.dbFilePath == old(dbPath)
                && session == old(session) && backupMgr == old(backupMgr) && backupMgr.dbPath == old(dbPath)
                && remembered == old(remembered)
      ensures picked.Some? && folderReady && old(editLock.Holds()) ==> old(editLock.lockFilePath) !in fs.locks
      ensures rebuilds == old(rebuilds) && planRefreshes == old(planRefreshes)
    {
      var newPath := if picked.Some? then WithDbSuffix(picked.value) else "";
      if newPath == "" || !folderReady {
        return;
      }
      editLock.Release();
      Uncheck();
      status := ReadOnlyStatus;
      session.Close();
      assert fs.Valid();
      if opens {
        Reopen(newPath);
      } else {
        dbPath := newPath;
      }
    }

    /** The second half of `_change_database`: a new session with a new
        backup manager, the path remembered, and a new edit lock. */
    method Reopen(newPath: string)
      requires fs.Valid()
      modifies this
      ensures Valid() && readonly && !editChecked
      ensures dbPath == newPath && remembered == Some(newPath)
      ensures fresh(editLock) && editLock.lockFilePath == LockPathFromDbFile(newPath) && editLock.fh == None
      ensures fresh(session) && !session.closed
      ensures fresh(backupMgr) && backupMgr.attached == session && backupMgr.dbPath == newPath
      ensures status == old(status) && rebuilds == old(rebuilds) && planRefreshes == old(planRefreshes)
    {
      var lock := new EditLock(newPath, fs);
      var s, b := Connect(newPath);
      dbPath := newPath;
      session := s;
      backupMgr := b;
      remembered := Some(newPath);
      editLock := lock;
      readonly := true;
      editChecked := false;
    }

    /** `closeEvent`: the lock is released and the session closed. */
    method Close()
      requires Valid()
      modifies editLock, fs, session
      ensures !editLock.Holds() && session.closed
      ensures old(editLock.Holds()) ==> editLock.lockFilePath !in fs.locks
    {
      editLock.Release();
      session.Close();
    }
  }

  /** Two windows on the same database: while the first is in edit mode the
      second's toggle is refused and reset; once the first leaves edit mode
      the second gets it. */
  method TwoWindows(dbPath: string, first: EditorInfo, second: EditorInfo)
    returns (firstEdits: bool, secondEdits: bool, secondChecked: bool, secondLater: bool)
    requires LockPathFromDbFile(dbPath) != ""
    ensures firstEdits && !secondEdits && !secondChecked && secondLater
  {
    var fs := new FileSystem(map[]);
    var a := new MainWindow(dbPath, fs, None);
    var b := new MainWindow(dbPath, fs, None);
    a.UserToggle(first, NoFault);
    firstEdits := !a.readonly;
    assert b.Valid() && a.editLock.Holds();
    b.UserToggle(second, NoFault);
    secondEdits := !b.readonly;
    secondChecked := b.editChecked;
    assert a.Valid();
    a.UserToggle(first, NoFault);
    assert b.Valid() && b.editLock.lockFilePath !in fs.locks;
    b.UserToggle(second, NoFault);
    secondLater := !b.readonly;
  }

  /** A toggle whose `acquire` raises while writing the record: the first
      window stays read-only with its toggle checked yet holds the lock, so
      a second window is refused; a second click on the first window's
      toggle releases the lock and the second window gets it. */
  method FailedToggleKeepsLock(dbPath: string, first: EditorInfo, second: EditorInfo, left: LockText)
    returns (firstEdits: bool, firstChecked: bool, firstHolds: bool, secondEdits: bool, secondLater: bool)
    requires LockPathFromDbFile(dbPath) != ""
    ensures !firstEdits && firstChecked && firstHolds && !secondEdits && secondLater
  {
    var fs := new FileSystem(map[]);
    var a := new MainWindow(dbPath, fs, None);
    var b := new MainWindow(dbPath, fs, None);
    a.UserToggle(first, WriteFails(left));
    assert a.readonly && a.editChecked && a.editLock.Holds();
    firstEdits := !a.readonly;
    firstChecked := a.editChecked;
    firstHolds := a.editLock.Holds();
    assert b.Valid();
    b.UserToggle(second, NoFault);
    secondEdits := !b.readonly;
    assert a.Valid();
    a.UserToggle(first, NoFault);
    assert b.Valid() && b.editLock.lockFilePath !in fs.locks;
    b.UserToggle(second, NoFault);
    secondLater := !b.readonly;
  }
}

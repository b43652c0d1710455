/** The backup manager (backupmgr.py): a snapshot of the database after a
    commit, at most once per `min_interval_sec`, into
    `<dir(db)>/backup/vakantierooster_YYYYMMDD_HHMMSS.db`, followed by the
    removal of backups older than `retention_days`.

    The clock is passed in, one value per reading: `now` for the
    `datetime.now()` that names the backup, `later` for the one `_rotate`
    takes, `epoch` for the `time.time()` of the rate-limit test and
    `recorded` for the `time.time()` stored as `_last_run` once the copy
    and the rotation are done.  The backup folder is an object
    mapping file names to their modification times in local seconds,
    fractions included; the copy made by SQLite's backup API is reduced to
    its outcome and the moment it finished writing. */
module BackupMgr {
  import opened Wrappers
  import opened Strs
  import opened Calendar
  import opened Models

  const BackupPrefix := "vakantierooster_"

  /** `strftime("%Y%m%d_%H%M%S")`. */
  function Stamp(t: DateTime): (s: string)
    requires ValidDateTime(t)
  {
    FixedDigits(t.year, 4) + FixedDigits(t.month, 2) + FixedDigits(t.day, 2) + "_"
    + FixedDigits(t.hour, 2) + FixedDigits(t.minute, 2) + FixedDigits(t.second, 2)
  }

  /** The file name `_backup_filename` gives a backup taken at `t`. */
  function BackupName(t: DateTime): (name: string)
    requires ValidDateTime(t)
    ensures |name| == |BackupPrefix| + 15 + 3
    ensures StartsWith(name, BackupPrefix) && EndsWith(name, ".db")
    ensures '/' !in name
  {
    var name := BackupPrefix + Stamp(t) + ".db";
    assert name[..|BackupPrefix|] == BackupPrefix;
    assert name[|name| - 3..] == ".db";
    assert forall i :: |BackupPrefix| <= i < |BackupPrefix| + 15 ==> name[i] == Stamp(t)[i - |BackupPrefix|];
    name
  }

  /** `_backup_dir()`: the `backup` folder beside the database. */
  function BackupDirPath(dbPath: string): string {
    PathJoin(Dirname(dbPath), "backup")
  }

  /** `_backup_filename()`: the full path of the backup taken at `t`; it lies
      in the backup folder under `BackupName(t)`. */
  function BackupFilePath(dbPath: string, t: DateTime): (p: string)
    requires ValidDateTime(t)
    ensures Basename(p) == BackupName(t)
  {
    BasenameOfJoin(BackupDirPath(dbPath), BackupName(t));
    PathJoin(BackupDirPath(dbPath), BackupName(t))
  }

  /** Where each field of the stamp sits. */
  lemma StampFields(t: DateTime)
    requires ValidDateTime(t)
    ensures var s := Stamp(t);
            |s| == 15 && s[8] == '_'
            && s[0..4] == FixedDigits(t.year, 4) && s[4..6] == FixedDigits(t.month, 2)
            && s[6..8] == FixedDigits(t.day, 2) && s[9..11] == FixedDigits(t.hour, 2)
            && s[11..13] == FixedDigits(t.minute, 2) && s[13..15] == FixedDigits(t.second, 2)
  {
  }

  /** Two backups taken at different seconds get different names. */
  lemma {:induction false} BackupNameInjective(a: DateTime, b: DateTime)
    requires ValidDateTime(a) && ValidDateTime(b)
    requires BackupName(a) == BackupName(b)
    ensures a == b
  {
    assert Pow10(2) == 100 && Pow10(4) == 10000;
    var sa, sb := Stamp(a), Stamp(b);
    assert sa == BackupName(a)[|BackupPrefix|..|BackupPrefix| + 15];
    assert sb == BackupName(b)[|BackupPrefix|..|BackupPrefix| + 15];
    StampFields(a);
    StampFields(b);
    FixedDigitsRoundTrip(a.year, 4);
    FixedDigitsRoundTrip(b.year, 4);
    FixedDigitsRoundTrip(a.month, 2);
    FixedDigitsRoundTrip(b.month, 2);
    FixedDigitsRoundTrip(a.day, 2);
    FixedDigitsRoundTrip(b.day, 2);
    FixedDigitsRoundTrip(a.hour, 2);
    FixedDigitsRoundTrip(b.hour, 2);
    FixedDigitsRoundTrip(a.minute, 2);
    FixedDigitsRoundTrip(b.minute, 2);
    FixedDigitsRoundTrip(a.second, 2);
    FixedDigitsRoundTrip(b.second, 2);
  }

  /** `name.lower().endswith(".db")`: the files rotation looks at. */
  predicate IsDbName(name: string) {
    EndsWith(Lower(name), ".db")
  }

  /** The moment `_now() - timedelta(days=retention_days)`, in local
      seconds, for the reading `later` that `_rotate` takes. */
  function Cutoff(later: real, retentionDays: int): real {
    later - (retentionDays * 86400) as real
  }

  /** A file `_rotate` deletes: a `.db` file modified before the cutoff that
      the system lets it remove. */
  predicate Expired(name: string, mtime: real, cutoff: real, undeletable: set<string>) {
    IsDbName(name) && mtime < cutoff && name !in undeletable
  }

  /** The backup folder after `_rotate`. */
  function Rotated(entries: map<string, real>, cutoff: real, undeletable: set<string>): map<string, real> {
    map n | n in entries && !Expired(n, entries[n], cutoff, undeletable) :: entries[n]
  }

  /** Rotation removes exactly the expired files and leaves every other file,
      with its time, in place; a file it cannot delete stays. */
  lemma RotatedKeepsExactly(entries: map<string, real>, cutoff: real, undeletable: set<string>, n: string)
    ensures n in Rotated(entries, cutoff, undeletable)
            <==> n in entries && (!IsDbName(n) || entries[n] >= cutoff || n in undeletable)
    ensures n in Rotated(entries, cutoff, undeletable) ==> Rotated(entries, cutoff, undeletable)[n] == entries[n]
  {
  }

  /** Rotating twice with the same cutoff removes nothing more. */
  lemma RotatedIdempotent(entries: map<string, real>, cutoff: real, undeletable: set<string>)
    ensures Rotated(Rotated(entries, cutoff, undeletable), cutoff, undeletable) == Rotated(entries, cutoff, undeletable)
  {
    var r := Rotated(entries, cutoff, undeletable);
    assert forall n :: n in r ==> !Expired(n, r[n], cutoff, undeletable);
  }

  /** Any old `.db` file goes, whatever its name: an old `notes.DB` is
      removed together with old backups. */
  lemma RotationIgnoresPrefix(cutoff: real)
    ensures "notes.DB" !in Rotated(map["notes.DB" := cutoff - 1.0], cutoff, {})
  {
    assert Lower("notes.DB") == "notes.db";
    assert IsDbName("notes.DB");
  }

  /** How a call of SQLite's backup API ends: the copy succeeds, fails before
      the destination file exists, or fails after creating it. */
  datatype CopyOutcome = Copied | FailedBeforeDest | FailedAfterDest

  /** The backup folder after `run_backup_now` named the backup `name`, the
      copy ended with `outcome` having last written at `written`, and
      `_rotate` (run only after a successful copy) used `cutoff`. */
  function AfterBackup(entries: map<string, real>, name: string, written: real, outcome: CopyOutcome,
                       cutoff: real, undeletable: set<string>): map<string, real> {
    match outcome
    case FailedBeforeDest => entries
    case FailedAfterDest => entries[name := written]
    case Copied => Rotated(entries[name := written], cutoff, undeletable)
  }

  /** After a successful copy the folder holds the new backup exactly when
      it is not older than the cutoff (or cannot be deleted), and every
      other file exactly when rotation keeps it. */
  lemma AfterBackupHolds(entries: map<string, real>, name: string, written: real,
                         cutoff: real, undeletable: set<string>, n: string)
    requires IsDbName(name)
    ensures var r := AfterBackup(entries, name, written, Copied, cutoff, undeletable);
            (name in r <==> written >= cutoff || name in undeletable)
            && (name in r ==> r[name] == written)
            && (n != name ==> (n in r <==> n in Rotated(entries, cutoff, undeletable)))
  {
    RotatedKeepsExactly(entries[name := written], cutoff, undeletable, name);
    RotatedKeepsExactly(entries[name := written], cutoff, undeletable, n);
    RotatedKeepsExactly(entries, cutoff, undeletable, n);
  }

  /** With at least one day of retention, a backup whose rotation starts
      less than a day after the copy finished survives it. */
  lemma FreshBackupSurvives(retentionDays: int, written: real, later: real)
    requires retentionDays >= 1 && later - written < 86400.0
    ensures written >= Cutoff(later, retentionDays)
  {
  }

  /** With `retention_days=0` the cutoff is the rotation's own clock
      reading, so the backup just written, which is older than that
      reading, is deleted again at once. */
  lemma ZeroRetentionDeletesFresh(entries: map<string, real>, name: string, written: real,
                                  later: real, undeletable: set<string>)
    requires IsDbName(name) && name !in undeletable && written < later
    ensures name !in AfterBackup(entries, name, written, Copied, Cutoff(later, 0), undeletable)
  {
    AfterBackupHolds(entries, name, written, Cutoff(later, 0), undeletable, name);
  }

  /** The backup folder. */
  class BackupDir {
    /** File name to modification time (local seconds). */
    var entries: map<string, real>
    /** Names the system refuses to delete (open elsewhere, directories). */
    const undeletable: set<string>

    constructor (entries: map<string, real>, undeletable: set<string>)
      ensures this.entries == entries && this.undeletable == undeletable
    {
      this.entries := entries;
      this.undeletable := undeletable;
    }

    /** A file written at local time `mtime`. */
    method Touch(name: string, mtime: real)
      modifies this
      ensures entries == old(entries)[name := mtime]
    {
      entries := entries[name := mtime];
    }

    /** `os.remove`; false stands for the `OSError`. */
    method Remove(name: string) returns (ok: bool)
      modifies this
      ensures ok <==> name in old(entries) && name !in undeletable
      ensures entries == if ok then old(entries) - {name} else old(entries)
    {
      ok := name in entries && name !in undeletable;
      if ok {
        entries := entries - {name};
      }
    }
  }

  /** The number of listeners in `ls` that belong to `owner`. */
  function OwnedCount(ls: seq<Listener>, owner: object): nat {
    if ls == [] then 0
    else OwnedCount(ls[..|ls| - 1], owner) + (if ls[|ls| - 1].owner == owner then 1 else 0)
  }

  /** `event.remove`: the listener is no longer registered. */
  function Without(ls: seq<Listener>, l: Listener): (r: seq<Listener>)
    ensures l !in r
    ensures forall i :: 0 <= i < |r| ==> r[i] in ls
  {
    if ls == [] then []
    else if ls[|ls| - 1] == l then Without(ls[..|ls| - 1], l)
    else Without(ls[..|ls| - 1], l) + [ls[|ls| - 1]]
  }

  lemma OwnedCountAppend(ls: seq<Listener>, l: Listener, owner: object)
    ensures OwnedCount(ls + [l], owner) == OwnedCount(ls, owner) + (if l.owner == owner then 1 else 0)
  {
    assert (ls + [l])[..|ls|] == ls;
  }

  /** Removing an owner's only listener leaves it none. */
  lemma {:induction false} WithoutOnlyOwned(ls: seq<Listener>, l: Listener)
    requires OwnedCount(ls, l.owner) <= 1 && l in ls
    ensures OwnedCount(Without(ls, l), l.owner) == 0
  {
    var init, last := ls[..|ls| - 1], ls[|ls| - 1];
    assert ls == init + [last];
    if last == l {
      NoneOwnedOne(init, l);
    } else {
      assert l in init;
      OwnedCountAppend(init, last, l.owner);
      MemberIsOwned(init, l);
      WithoutOnlyOwned(init, l);
      OwnedCountAppend(Without(init, l), last, l.owner);
    }
  }

  lemma {:induction false} MemberIsOwned(ls: seq<Listener>, l: Listener)
    requires l in ls
    ensures OwnedCount(ls, l.owner) >= 1
  {
    var init, last := ls[..|ls| - 1], ls[|ls| - 1];
    assert ls == init + [last];
    if last != l {
      MemberIsOwned(init, l);
    }
  }

  /** With no listener of `owner` left, removal changes no count. */
  lemma {:induction false} NoneOwnedOne(ls: seq<Listener>, l: Listener)
    requires OwnedCount(ls, l.owner) == 0
    ensures OwnedCount(Without(ls, l), l.owner) == 0
  {
    if ls != [] {
      var init, last := ls[..|ls| - 1], ls[|ls| - 1];
      NoneOwnedOne(init, l);
      if last != l {
        OwnedCountAppend(Without(init, l), last, l.owner);
      }
    }
  }

  /** `BackupManager`. */
  class BackupManager {
    const dbPath: string
    const retentionDays: int
    const minIntervalSec: int
    /** `_last_run`: `time.time()` of the last successful backup. */
    var lastRun: real
    /** `_attached_session`. */
    var attached: Session?
    /** `_after_commit_handler`: the closure made by the last attach. */
    var handler: Option<Listener>
    /** How many handlers this manager has made; each closure is new. */
    var serial: nat
    /** The sessions this manager was ever attached to. */
    ghost var everAttached: set<Session>

    /** Exactly the attached session carries one handler of this manager;
        every session attached before carries none. */
    ghost predicate Valid()
      reads this, everAttached
    {
      (attached == null <==> handler.None?)
      && (attached != null ==> attached in everAttached && handler.value.owner == this
                               && handler.value in attached.afterCommit)
      && (forall s :: s in everAttached ==> OwnedCount(s.afterCommit, this) == (if s == attached then 1 else 0))
    }

    constructor (dbPath: string, retentionDays: int, minIntervalSec: int)
      ensures Valid()
      ensures this.dbPath == dbPath && this.retentionDays == retentionDays && this.minIntervalSec == minIntervalSec
      ensures lastRun == 0.0 && attached == null && handler == None && everAttached == {}
    {
      this.dbPath := dbPath;
      this.retentionDays := retentionDays;
      this.minIntervalSec := minIntervalSec;
      lastRun := 0.0;
      attached := null;
      handler := None;
      serial := 0;
      everAttached := {};
    }

    /** `_should_run()`: the interval since the last backup has fully
        elapsed (the bound itself counts). */
    predicate ShouldRun(epoch: real)
      reads this
    {
      epoch - lastRun >= minIntervalSec as real
    }

    /** `_rotate()`: every `.db` entry older than the cutoff is deleted;
        a failed delete is skipped and the loop goes on. */
    method Rotate(later: real, dir: BackupDir)
      modifies dir
      ensures dir.entries == Rotated(old(dir.entries), Cutoff(later, retentionDays), dir.undeletable)
    {
      var cutoff := Cutoff(later, retentionDays);
      var names := dir.entries.Keys;
      ghost var done: set<string> := {};
      while names != {}
        invariant names !! done && names + done == old(dir.entries).Keys
        invariant dir.entries == map n | n in old(dir.entries)
                                         && !(n in done && Expired(n, old(dir.entries)[n], cutoff, dir.undeletable))
                                         :: old(dir.entries)[n]
        decreases names
      {
        var name :| name in names;
        names := names - {name};
        if IsDbName(name) {
          var mtime := dir.entries[name];
          if mtime < cutoff {
            var removed := dir.Remove(name);
          }
        }
        done := done + {name};
      }
    }

    /** `run_backup_now()`: ignores the rate limit.  On success it returns
        the backup's path after rotating and records the time; on failure it
        returns None and keeps `_last_run`, though a destination file the
        copy already created stays behind.  The backup is named after
        `now`, was last written at `written`, `_rotate` reads the clock
        again (`later`), and `recorded` is the time stored at the end. */
    method RunBackupNow(now: DateTime, written: real, later: real, recorded: real, outcome: CopyOutcome, dir: BackupDir)
      returns (dest: Option<string>)
      requires ValidDateTime(now)
      modifies this, dir
      ensures attached == old(attached) && handler == old(handler) && serial == old(serial)
      ensures everAttached == old(everAttached) && (old(Valid()) ==> Valid())
      ensures dest.Some? <==> outcome.Copied?
      ensures dest.Some? ==> dest == Some(BackupFilePath(dbPath, now))
      ensures lastRun == if outcome.Copied? then recorded else old(lastRun)
      ensures dir.entries == AfterBackup(old(dir.entries), BackupName(now), written, outcome,
                                         Cutoff(later, retentionDays), dir.undeletable)
      ensures outcome.Copied? ==>
                (BackupName(now) in dir.entries <==> written >= Cutoff(later, retentionDays) || BackupName(now) in dir.undeletable)
    {
      var name := BackupName(now);
      match outcome
      case FailedBeforeDest =>
        dest := None;
      case FailedAfterDest =>
        dir.Touch(name, written);
        dest := None;
      case Copied =>
        dir.Touch(name, written);
        Rotate(later, dir);
        AfterBackupHolds(old(dir.entries), name, written, Cutoff(later, retentionDays), dir.undeletable, name);
        lastRun := recorded;
        dest := Some(BackupFilePath(dbPath, now));
    }

    /** `maybe_backup_after_commit()`: a backup, as `run_backup_now` makes
        it, only when the rate limit allows at `epoch`; otherwise nothing
        changes.  The time recorded is the later reading `recorded`, so the
        next window runs from the end of the backup, not from the test.
        The Python method returns None; `dest` is the result of
        `run_backup_now` that it discards, kept here so the contract can say
        whether a backup was made.  Hooks are left as they were. */
    method MaybeBackupAfterCommit(now: DateTime, written: real, later: real, epoch: real, recorded: real,
                                  outcome: CopyOutcome, dir: BackupDir)
      returns (dest: Option<string>)
      requires ValidDateTime(now)
      modifies this, dir
      ensures attached == old(attached) && handler == old(handler) && serial == old(serial)
      ensures everAttached == old(everAttached) && (old(Valid()) ==> Valid())
      ensures !old(ShouldRun(epoch)) ==> dest == None && lastRun == old(lastRun) && dir.entries == old(dir.entries)
      ensures old(ShouldRun(epoch)) ==>
                (dest.Some? <==> outcome.Copied?)
                && (dest.Some? ==> dest == Some(BackupFilePath(dbPath, now)))
                && lastRun == (if outcome.Copied? then recorded else old(lastRun))
                && dir.entries == AfterBackup(old(dir.entries), BackupName(now), written, outcome,
                                              Cutoff(later, retentionDays), dir.undeletable)
    {
      if !ShouldRun(epoch) {
        return None;
      }
      dest := RunBackupNow(now, written, later, recorded, outcome, dir);
    }

    /** `attach_to_session(session)`: unhooks the previous handler from the
        previous session and hooks a new one onto `session`. */
    method AttachToSession(session: Session)
      requires Valid()
      requires session in everAttached || OwnedCount(session.afterCommit, this) == 0
      modifies this, session, if attached == null then {} else {attached}
      ensures Valid()
      ensures attached == session && everAttached == old(everAttached) + {session}
      ensures session.closed == old(session.closed)
      ensures handler == Some(Listener(this, old(serial))) && serial == old(serial) + 1
      ensures OwnedCount(session.afterCommit, this) == 1
      ensures old(attached) != null && old(attached) != session ==>
                old(attached).afterCommit == Without(old(attached.afterCommit), old(handler).value)
      ensures session.afterCommit
              == (if old(attached) == session then Without(old(session.afterCommit), old(handler).value)
                  else old(session.afterCommit)) + [handler.value]
      ensures lastRun == old(lastRun)
    {
      if attached != null {
        WithoutOnlyOwned(attached.afterCommit, handler.value);
        attached.afterCommit := Without(attached.afterCommit, handler.value);
        attached := null;
      }
      attached := session;
      everAttached := everAttached + {session};
      var h := Listener(this, serial);
      serial := serial + 1;
      handler := Some(h);
      OwnedCountAppend(session.afterCommit, h, this);
      session.afterCommit := session.afterCommit + [h];
    }

    /** The `_handler` closure run after a commit: backs up, as
        `maybe_backup_after_commit` does, only a database that is a
        non-empty path naming an existing file.  The closure returns None;
        `dest` is the discarded result of the backup attempt. */
    method OnCommit(dbIsFile: bool, now: DateTime, written: real, later: real, epoch: real, recorded: real,
                    outcome: CopyOutcome, dir: BackupDir)
      returns (dest: Option<string>)
      requires ValidDateTime(now)
      modifies this, dir
      ensures attached == old(attached) && handler == old(handler) && serial == old(serial)
      ensures everAttached == old(everAttached) && (old(Valid()) ==> Valid())
      ensures dest.Some? <==> dbPath != "" && dbIsFile && old(ShouldRun(epoch)) && outcome.Copied?
      ensures dest.Some? ==> dest == Some(BackupFilePath(dbPath, now))
      ensures lastRun == if dest.Some? then recorded else old(lastRun)
      ensures dir.entries == if dbPath != "" && dbIsFile && old(ShouldRun(epoch))
                             then AfterBackup(old(dir.entries), BackupName(now), written, outcome,
                                              Cutoff(later, retentionDays), dir.undeletable)
                             else old(dir.entries)
    {
      if dbPath != "" && dbIsFile {
        dest := MaybeBackupAfterCommit(now, written, later, epoch, recorded, outcome, dir);
      } else {
        dest := None;
      }
    }
  }

  /** Commits against one manager whose backup takes `took` seconds: the
      first backs up and records the end of its copy; a commit exactly
      `min_interval_sec` after the first one's test is still inside the
      window when the copy took any time, and a commit
      `min_interval_sec` after the recorded end gives the next backup. */
  method CommitsInAWindow(now: DateTime, epoch: real, took: real)
    returns (first: Option<string>, second: Option<string>, third: Option<string>, fourth: Option<string>)
    requires ValidDateTime(now) && epoch >= 120.0 && took > 0.0
    ensures first.Some? && second.None? && fourth.Some?
    ensures third.None?
  {
    var m := new BackupManager("/data/rooster.db", 14, 120);
    var dir := new BackupDir(map[], {});
    var t := LocalSeconds(now) as real;
    first := m.OnCommit(true, now, t, t, epoch, epoch + took, Copied, dir);
    second := m.OnCommit(true, now, t, t, epoch + 119.0, epoch + 119.0, Copied, dir);
    third := m.OnCommit(true, now, t, t, epoch + 120.0, epoch + 120.0, Copied, dir);
    fourth := m.OnCommit(true, now, t, t, epoch + took + 120.0, epoch + took + 120.0, Copied, dir);
  }

  /** Attaching to one session, then another, then the first again leaves
      exactly one handler of the manager, on the first session. */
  method ReattachScenario() returns (onFirst: nat, onSecond: nat)
    ensures onFirst == 1 && onSecond == 0
  {
    var m := new BackupManager("/data/rooster.db", 14, 120);
    var s1 := new Session();
    var s2 := new Session();
    m.AttachToSession(s1);
    m.AttachToSession(s2);
    m.AttachToSession(s1);
    onFirst := OwnedCount(s1.afterCommit, m);
    onSecond := OwnedCount(s2.afterCommit, m);
  }

  /** A commit's backup leaves the hooks as they were, so the manager can
      still be re-attached: afterwards only the new session carries its
      handler. */
  method BackupThenReattach(now: DateTime, epoch: real) returns (dest: Option<string>, onFirst: nat, onSecond: nat)
    requires ValidDateTime(now) && epoch >= 120.0
    ensures dest.Some? && onFirst == 0 && onSecond == 1
  {
    var m := new BackupManager("/data/rooster.db", 14, 120);
    var dir := new BackupDir(map[], {});
    var s1 := new Session();
    var s2 := new Session();
    m.AttachToSession(s1);
    var t := LocalSeconds(now) as real;
    dest := m.OnCommit(true, now, t, t, epoch, epoch, Copied, dir);
    m.AttachToSession(s2);
    onFirst := OwnedCount(s1.afterCommit, m);
    onSecond := OwnedCount(s2.afterCommit, m);
  }
}

/** The edit lock (lockmgr.py): an exclusive, non-blocking lock on a
    `vakantierooster.lock` file beside the database, holding a small JSON
    record of who took it.

    The operating system is a `FileSystem` object shared by every `EditLock`:
    the files with their contents, the open file objects (handles) and, per
    path, the handle that holds the exclusive lock.  It behaves as Windows
    does: a lock is mandatory, so a locked file cannot be read through any
    other handle, and a file that some handle still has open cannot be
    removed.  A file object that loses its last reference is closed, which
    releases its lock, as in CPython. */
module LockMgr {
  import opened Wrappers
  import opened Strs

  const LockFileName := "vakantierooster.lock"

  /** `_lock_path_from_db_file(db_path)`: the lock file lives in the
      database's directory; there is none for an empty path or a bare file
      name. */
  function LockPathFromDbFile(dbPath: string): string {
    if dbPath == "" then ""
    else if Dirname(dbPath) != "" then PathJoin(Dirname(dbPath), LockFileName)
    else ""
  }

  /** The lock path is empty exactly for an empty path or a bare file name;
      otherwise it names `vakantierooster.lock` in the database's folder. */
  lemma LockPathInFolder(dbPath: string)
    ensures LockPathFromDbFile(dbPath) == "" <==> dbPath == "" || Dirname(dbPath) == ""
    ensures LockPathFromDbFile(dbPath) != "" ==>
              Dirname(LockPathFromDbFile(dbPath)) == Dirname(dbPath)
              && Basename(LockPathFromDbFile(dbPath)) == LockFileName
  {
    if dbPath != "" && Dirname(dbPath) != "" {
      var folder := Dirname(dbPath);
      DirnameOfJoin(dbPath, LockFileName);
      BasenameOfJoin(folder, LockFileName);
      assert Basename(PathJoin(folder, LockFileName)) == LockFileName;
      assert PathJoin(folder, LockFileName) != "";
    }
  }

  /** A JSON value as the lock record uses it. */
  datatype JsonValue = JStr(s: string) | JInt(n: int)

  /** The content of a lock file as `json.loads(content or "{}")` sees it:
      empty, a JSON object, some other JSON value, or not JSON at all. */
  datatype LockText = Blank | JsonObject(fields: map<string, JsonValue>) | OtherJson | Unparsable

  /** `_editor_info()`: host name, user name and `int(time.time())`, read
      from the environment by the caller. */
  datatype EditorInfo = EditorInfo(host: string, user: string, ts: int)

  /** `json.dumps(_editor_info())`. */
  function EditorRecord(info: EditorInfo): LockText {
    JsonObject(map["host" := JStr(info.host), "user" := JStr(info.user), "ts" := JInt(info.ts)])
  }

  /** `str(value)` inside the f-string of `holder`. */
  function Render(v: JsonValue): string {
    match v
    case JStr(s) => s
    case JInt(n) => IntToDecimal(n)
  }

  /** `data.get(key, '?')` rendered. */
  function FieldText(fields: map<string, JsonValue>, key: string): (s: string)
    ensures key !in fields ==> s == "?"
    ensures key in fields && fields[key].JStr? ==> s == fields[key].s
  {
    if key in fields then Render(fields[key]) else "?"
  }

  /** What `holder` makes of the file's content: `host\user`, with `?` for a
      missing key, and "" when the content is not a JSON object (`.get`
      raises on other JSON values). */
  function HolderText(t: LockText): (s: string)
    ensures t.Blank? ==> s == "?\\?"
    ensures t.OtherJson? || t.Unparsable? ==> s == ""
    ensures t.JsonObject? ==> s == FieldText(t.fields, "host") + "\\" + FieldText(t.fields, "user")
  {
    match t
    case Blank => "?\\?"
    case JsonObject(fields) => FieldText(fields, "host") + "\\" + FieldText(fields, "user")
    case OtherJson => ""
    case Unparsable => ""
  }

  /** The record `acquire` writes reads back as `host\user`. */
  lemma HolderOfRecord(info: EditorInfo)
    ensures HolderText(EditorRecord(info)) == info.host + "\\" + info.user
  {
    var fields := EditorRecord(info).fields;
    assert "host" in fields && fields["host"] == JStr(info.host);
    assert "user" in fields && fields["user"] == JStr(info.user);
  }

  /** The `OSError`s `acquire` lets escape, which its `except` clause (it
      catches only the lock conflict) does not handle: `os.makedirs` of the
      folder, `open` of the lock file, or the truncate, write and `fsync`
      after the lock was taken, which leave the content `left` behind. */
  datatype IoFault = NoFault | DirFails | OpenFails | WriteFails(left: LockText)

  /** What `acquire()` does: returns True, returns False, or raises. */
  datatype AcquireOutcome = Acquired | Busy | Raised

  /** The content of the lock file after `acquire` took the lock. */
  function Written(info: EditorInfo, fault: IoFault): LockText {
    if fault.WriteFails? then fault.left else EditorRecord(info)
  }

  /** The part of the operating system the lock uses. */
  class FileSystem {
    /** Existing files and their contents. */
    var files: map<string, LockText>
    /** Open file objects: handle to path. */
    var handles: map<nat, string>
    /** Per path, the handle holding the exclusive lock on it. */
    var locks: map<string, nat>
    var nextHandle: nat

    ghost predicate Valid()
      reads this
    {
      (forall h :: h in handles ==> h < nextHandle)
      && (forall h :: h in handles ==> handles[h] in files)
      && (forall p :: p in locks ==> locks[p] in handles && handles[locks[p]] == p)
    }

    /** Some file object is open on `p`. */
    predicate InUse(p: string)
      reads this
    {
      exists h :: h in handles && handles[h] == p
    }

    constructor (initial: map<string, LockText>)
      ensures Valid()
      ensures files == initial && handles == map[] && locks == map[]
    {
      files := initial;
      handles := map[];
      locks := map[];
      nextHandle := 0;
    }

    /** `open(p, "a+")`: creates an empty file when there is none. */
    method Open(p: string) returns (h: nat)
      requires Valid()
      modifies this
      ensures Valid()
      ensures h == old(nextHandle) && h !in old(handles) && nextHandle == h + 1
      ensures handles == old(handles)[h := p] && locks == old(locks)
      ensures files == if p in old(files) then old(files) else old(files)[p := Blank]
    {
      h := nextHandle;
      nextHandle := nextHandle + 1;
      handles := handles[h := p];
      if p !in files {
        files := files[p := Blank];
      }
    }

    /** `portalocker.lock(fh, LOCK_EX | LOCK_NB)`; false stands for the
        `LockException` raised when another handle holds the lock. */
    method Lock(h: nat) returns (ok: bool)
      requires Valid() && h in handles
      modifies this
      ensures Valid()
      ensures files == old(files) && handles == old(handles) && nextHandle == old(nextHandle)
      ensures ok <==> handles[h] !in old(locks) || old(locks)[handles[h]] == h
      ensures locks == if ok then old(locks)[handles[h] := h] else old(locks)
    {
      var p := handles[h];
      if p !in locks || locks[p] == h {
        locks := locks[p := h];
        ok := true;
      } else {
        ok := false;
      }
    }

    /** `portalocker.unlock(fh)`. */
    method Unlock(h: nat)
      requires Valid() && h in handles
      modifies this
      ensures Valid()
      ensures files == old(files) && handles == old(handles) && nextHandle == old(nextHandle)
      ensures locks == if handles[h] in old(locks) && old(locks)[handles[h]] == h
                       then old(locks) - {handles[h]} else old(locks)
    {
      var p := handles[h];
      if p in locks && locks[p] == h {
        locks := locks - {p};
      }
    }

    /** `fh.close()`: closing a handle also drops any lock it holds. */
    method Close(h: nat)
      requires Valid() && h in handles
      modifies this
      ensures Valid()
      ensures handles == old(handles) - {h}
      ensures locks == map p | p in old(locks) && old(locks)[p] != h :: old(locks)[p]
      ensures files == old(files) && nextHandle == old(nextHandle)
    {
      handles := handles - {h};
      locks := map p | p in locks && locks[p] != h :: locks[p];
    }

    /** `seek(0); truncate(); write(...)`: replaces the content of the file
        the handle is open on. */
    method Overwrite(h: nat, content: LockText)
      requires Valid() && h in handles
      modifies this
      ensures Valid()
      ensures files == old(files)[old(handles)[h] := content]
      ensures handles == old(handles) && locks == old(locks) && nextHandle == old(nextHandle)
    {
      files := files[handles[h] := content];
    }

    /** `os.remove(p)`; false stands for the `OSError` raised when the file
        is missing or still open. */
    method Remove(p: string) returns (ok: bool)
      requires Valid()
      modifies this
      ensures Valid()
      ensures ok <==> p in old(files) && !old(InUse(p))
      ensures files == if ok then old(files) - {p} else old(files)
      ensures handles == old(handles) && locks == old(locks) && nextHandle == old(nextHandle)
    {
      if p in files && !InUse(p) {
        files := files - {p};
        ok := true;
      } else {
        ok := false;
      }
    }
  }

  /** `EditLock`: one application instance's claim on the lock file. */
  class EditLock {
    const dbFilePath: string
    const lockFilePath: string
    /** `_fh`: the handle that holds the lock, if any. */
    var fh: Option<nat>
    const fs: FileSystem

    /** `_fh` is set only while its handle is open on the lock file and
        holds the lock. */
    ghost predicate Valid()
      reads this, fs
    {
      fs.Valid()
      && (fh.Some? ==> lockFilePath != "" && fh.value in fs.handles && fs.handles[fh.value] == lockFilePath
                       && lockFilePath in fs.locks && fs.locks[lockFilePath] == fh.value)
    }

    /** This instance holds the lock. */
    predicate Holds()
      reads this, fs
    {
      fh.Some? && lockFilePath in fs.locks && fs.locks[lockFilePath] == fh.value
    }

    constructor (dbFilePath: string, fs: FileSystem)
      requires fs.Valid()
      ensures Valid() && !Holds()
      ensures this.dbFilePath == dbFilePath && lockFilePath == LockPathFromDbFile(dbFilePath)
      ensures fh == None && this.fs == fs
    {
      this.dbFilePath := dbFilePath;
      lockFilePath := LockPathFromDbFile(dbFilePath);
      fh := None;
      this.fs := fs;
    }

    /** `acquire()`: true with nothing to lock; otherwise opens the lock
        file, takes the lock without blocking and writes the holder record.
        Reassigning `_fh` first closes a handle this instance already had,
        so a second acquire by the holder succeeds again.  `fault` is the
        `OSError`, if any, that escapes: one before the lock is taken
        changes nothing, one while writing leaves the lock taken and `_fh`
        set. */
    method Acquire(info: EditorInfo, fault: IoFault) returns (r: AcquireOutcome)
      requires Valid()
      modifies this, fs
      ensures Valid()
      ensures lockFilePath == "" ==> r == Acquired && fh == old(fh) && unchanged(fs)
      ensures lockFilePath != "" && (fault.DirFails? || fault.OpenFails?) ==>
                r == Raised && fh == old(fh) && unchanged(fs)
      ensures lockFilePath != "" && !fault.DirFails? && !fault.OpenFails? ==>
                (r != Busy <==> old(fh).Some? || lockFilePath !in old(fs.locks))
                && (r == Raised <==> r != Busy && fault.WriteFails?)
      ensures lockFilePath != "" && !fault.DirFails? && !fault.OpenFails? && r != Busy ==>
                Holds() && fs.files[lockFilePath] == Written(info, fault)
                && fs.locks == old(fs.locks)[lockFilePath := fh.value]
      ensures r == Busy ==>
                fh == None && fs.locks == old(fs.locks)
                && fs.files == (if lockFilePath in old(fs.files) then old(fs.files)
                                else old(fs.files)[lockFilePath := Blank])
      ensures forall h :: h in old(fs.handles) && old(fh) != Some(h) ==> h in fs.handles && fs.handles[h] == old(fs.handles)[h]
    {
      if lockFilePath == "" {
        return Acquired;
      }
      if fault.DirFails? || fault.OpenFails? {
        return Raised;
      }
      var h := fs.Open(lockFilePath);
      if fh.Some? {
        // the previous file object loses its last reference and is closed
        fs.Close(fh.value);
      }
      fh := Some(h);
      var ok := fs.Lock(h);
      if ok {
        fs.Overwrite(h, Written(info, fault));
        r := if fault.WriteFails? then Raised else Acquired;
      } else {
        fs.Close(h);
        fh := None;
        r := Busy;
      }
    }

    /** `release()`: unlocks and closes the held handle, then tries to
        remove the lock file; a failed removal is ignored. */
    method Release()
      requires Valid()
      modifies this, fs
      ensures Valid() && !Holds()
      ensures lockFilePath == "" ==> fh == old(fh) && unchanged(fs)
      ensures lockFilePath != "" ==> fh == None
      ensures lockFilePath != "" ==>
                fs.locks == if old(fh).Some? then old(fs.locks) - {lockFilePath} else old(fs.locks)
      ensures lockFilePath != "" ==>
                fs.handles == if old(fh).Some? then old(fs.handles) - {old(fh).value} else old(fs.handles)
      ensures lockFilePath != "" ==>
                fs.files == if lockFilePath in old(fs.files) && !fs.InUse(lockFilePath)
                            then old(fs.files) - {lockFilePath} else old(fs.files)
    {
      if lockFilePath == "" {
        return;
      }
      if fh.Some? {
        fs.Unlock(fh.value);
        fs.Close(fh.value);
        fh := None;
      }
      var removed := fs.Remove(lockFilePath);
    }

    /** `holder()`: who holds the lock according to the lock file.  Reading
        the file through a new handle fails while any handle, this
        instance's own included, holds the lock, and the failure gives "". */
    function Holder(): (s: string)
      reads this, fs
      ensures lockFilePath == "" || lockFilePath !in fs.files || lockFilePath in fs.locks ==> s == ""
      ensures lockFilePath != "" && lockFilePath in fs.files && lockFilePath !in fs.locks ==>
                s == HolderText(fs.files[lockFilePath])
    {
      if lockFilePath == "" || lockFilePath !in fs.files || lockFilePath in fs.locks then ""
      else HolderText(fs.files[lockFilePath])
    }

    /** `is_locked()`: tries the lock on a fresh handle and gives it back at
        once.  True exactly when some handle, this instance's own included,
        holds the lock; who holds it does not change.  Opening with "a+"
        leaves an empty lock file behind when there was none.  Only a
        refused lock is caught: when the open itself fails (`openFails`, a
        missing or read-only folder, say) the `OSError` escapes, given as
        None, and nothing changes. */
    method IsLocked(openFails: bool) returns (r: Option<bool>)
      requires Valid()
      modifies fs
      ensures Valid()
      ensures lockFilePath == "" ==> r == Some(false) && unchanged(fs)
      ensures lockFilePath != "" && openFails ==> r == None && unchanged(fs)
      ensures lockFilePath != "" && !openFails ==> r == Some(lockFilePath in old(fs.locks))
      ensures fs.locks == old(fs.locks) && fs.handles == old(fs.handles)
      ensures lockFilePath != "" && !openFails ==>
                fs.files == if lockFilePath in old(fs.files) then old(fs.files)
                            else old(fs.files)[lockFilePath := Blank]
    {
      if lockFilePath == "" {
        return Some(false);
      }
      if openFails {
        return None;
      }
      var h := fs.Open(lockFilePath);
      var ok := fs.Lock(h);
      if ok {
        fs.Unlock(h);
        fs.Close(h);
        r := Some(false);
      } else {
        // the local file object is dropped, and closed, on return
        fs.Close(h);
        r := Some(true);
      }
    }
  }

  /** Two application instances on the same database: while the first holds
      the lock the second cannot take it and sees it as locked, but cannot
      read who holds it; after the first releases, the second succeeds and
      its record is in the file. */
  method TwoInstances(dbPath: string, first: EditorInfo, second: EditorInfo)
    returns (a1: AcquireOutcome, b1: AcquireOutcome, seen: bool, who: string, b2: AcquireOutcome, record: LockText)
    requires LockPathFromDbFile(dbPath) != ""
    ensures a1 == Acquired && b1 == Busy && seen && b2 == Acquired
    ensures who == ""
    ensures record == EditorRecord(second)
  {
    var fs := new FileSystem(map[]);
    var a := new EditLock(dbPath, fs);
    var b := new EditLock(dbPath, fs);
    a1 := a.Acquire(first, NoFault);
    b1 := b.Acquire(second, NoFault);
    var probe := b.IsLocked(false);
    seen := probe == Some(true);
    who := b.Holder();
    a.Release();
    b2 := b.Acquire(second, NoFault);
    record := fs.files[b.lockFilePath];
  }

  /** A write that fails after the lock was taken makes `acquire` raise, yet
      the instance keeps the lock: a second instance is refused until the
      first releases. */
  method FailedWriteKeepsLock(dbPath: string, first: EditorInfo, second: EditorInfo, left: LockText)
    returns (a1: AcquireOutcome, held: bool, b1: AcquireOutcome, b2: AcquireOutcome)
    requires LockPathFromDbFile(dbPath) != ""
    ensures a1 == Raised && held && b1 == Busy && b2 == Acquired
  {
    var fs := new FileSystem(map[]);
    var a := new EditLock(dbPath, fs);
    var b := new EditLock(dbPath, fs);
    a1 := a.Acquire(first, WriteFails(left));
    held := a.Holds();
    b1 := b.Acquire(second, NoFault);
    a.Release();
    b2 := b.Acquire(second, NoFault);
  }

  /** A second `acquire` by the instance that already holds the lock
      succeeds, and the lock is still this instance's. */
  method AcquireTwice(dbPath: string, info: EditorInfo) returns (r1: AcquireOutcome, r2: AcquireOutcome, holds: bool)
    requires LockPathFromDbFile(dbPath) != ""
    ensures r1 == Acquired && r2 == Acquired && holds
  {
    var fs := new FileSystem(map[]);
    var a := new EditLock(dbPath, fs);
    r1 := a.Acquire(info, NoFault);
    r2 := a.Acquire(info, NoFault);
    holds := a.Holds();
  }
}

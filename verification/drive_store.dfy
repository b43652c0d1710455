/** The Google Drive side of the web front end (drive_store.py): where the
    service-account credentials come from, the download of the database file
    together with its revision, the upload guarded by that revision
    (optimistic concurrency), and the in-process writer lock. */
module DriveStore {
  import opened Wrappers
  import opened Strs

  /** The byte-order mark `lstrip("﻿")` removes. */
  const Bom: char := '\U{feff}'

  /** A value in the `[drive]` section of Streamlit's secrets: a TOML table,
      a string, or anything else TOML can hold. */
  datatype SecretValue = SDict(fields: map<string, string>) | SString(text: string) | SOther

  /** The `[drive]` section; `None` when the secrets have no such section. */
  type Secrets = Option<map<string, SecretValue>>

  /** The service-account description handed to the credentials factory. */
  type ServiceInfo = map<string, string>

  /** `json.loads`, supplied by the caller: `None` when the text is not JSON. */
  type JsonParser = string -> Option<ServiceInfo>

  /** Everything that makes a Drive operation raise, one case per cause. */
  datatype DriveError =
    | NoDriveSection        // `st.secrets["drive"]` raises KeyError
    | MissingFileId         // `st.secrets["drive"]["DB_FILE_ID"]` raises KeyError
    | MissingServiceAccount // neither credential entry is present
    | InvalidJson           // SERVICE_ACCOUNT_JSON is a string that is not JSON
    | UnknownSecretType     // SERVICE_ACCOUNT_JSON is neither a table nor a string
    | FileNotFound          // the Drive file id names no file
    | Conflict              // the remote revision is not the expected one
    | LocalFileMissing      // the local database cannot be opened for reading
    | LockTimeout           // the writer lock was not obtained within 30 s

  /** What `raw.lstrip("﻿").strip()` leaves of SERVICE_ACCOUNT_JSON. */
  function CleanJsonText(raw: string): (t: string)
    ensures t == [] || (!IsSpace(t[0]) && !IsSpace(t[|t| - 1]))
  {
    StripEnds(LStripChar(raw, Bom));
    Strip(LStripChar(raw, Bom))
  }

  /** A byte-order mark in front of the JSON text makes no difference. */
  lemma BomIsIgnored(raw: string)
    ensures CleanJsonText([Bom] + raw) == CleanJsonText(raw)
  {
    assert ([Bom] + raw)[1..] == raw;
  }

  /** Text that is already clean is handed to the parser unchanged. */
  lemma CleanTextUnchanged(raw: string)
    requires raw != [] && raw[0] != Bom && !IsSpace(raw[0]) && !IsSpace(raw[|raw| - 1])
    ensures CleanJsonText(raw) == raw
  {
    StripClean(raw);
  }

  /** The `service_account` table of the section, if it holds one. */
  function ServiceAccountTable(section: map<string, SecretValue>): Option<map<string, string>> {
    if "service_account" in section && section["service_account"].SDict? then
      Some(section["service_account"].fields)
    else None
  }

  /** `_drive()` up to the credentials: a table `service_account` is
      preferred; otherwise SERVICE_ACCOUNT_JSON decides. */
  function ResolveCredentials(secrets: Secrets, parse: JsonParser): (r: Result<ServiceInfo, DriveError>)
    ensures secrets.None? ==> r == Failure(NoDriveSection)
    ensures secrets.Some? && ServiceAccountTable(secrets.value).Some?
            ==> r == Success(ServiceAccountTable(secrets.value).value)
    ensures secrets.Some? && ServiceAccountTable(secrets.value).None?
            ==> r == ResolveJsonEntry(if "SERVICE_ACCOUNT_JSON" in secrets.value
                                      then Some(secrets.value["SERVICE_ACCOUNT_JSON"]) else None, parse)
  {
    if secrets.None? then Failure(NoDriveSection)
    else
      var section := secrets.value;
      match ServiceAccountTable(section)
      case Some(fields) => Success(fields)
      case None =>
        ResolveJsonEntry(if "SERVICE_ACCOUNT_JSON" in section then Some(section["SERVICE_ACCOUNT_JSON"]) else None, parse)
  }

  /** The SERVICE_ACCOUNT_JSON branch of `_drive()`: missing is an error, a
      table is used as is, a string is cleaned and parsed as JSON, and any
      other kind of value is an error. */
  function ResolveJsonEntry(raw: Option<SecretValue>, parse: JsonParser): (r: Result<ServiceInfo, DriveError>)
    ensures r.Success? <==> raw.Some? && (raw.value.SDict? || (raw.value.SString? && parse(CleanJsonText(raw.value.text)).Some?))
    ensures raw.Some? && raw.value.SDict? ==> r == Success(raw.value.fields)
    ensures raw.Some? && raw.value.SString? && r.Success? ==> r.value == parse(CleanJsonText(raw.value.text)).value
    ensures raw.None? ==> r == Failure(MissingServiceAccount)
    ensures raw.Some? && raw.value.SString? && r.Failure? ==> r.error == InvalidJson
    ensures raw.Some? && raw.value.SOther? ==> r == Failure(UnknownSecretType)
  {
    match raw
    case None => Failure(MissingServiceAccount)
    case Some(SDict(fields)) => Success(fields)
    case Some(SString(text)) =>
      (match parse(CleanJsonText(text))
       case Some(info) => Success(info)
       case None => Failure(InvalidJson))
    case Some(SOther) => Failure(UnknownSecretType)
  }

  /** A table `service_account` wins whatever SERVICE_ACCOUNT_JSON holds and
      whatever the parser would make of it. */
  lemma ServiceAccountTableWins(section: map<string, SecretValue>, fields: map<string, string>,
                                other: SecretValue, parse1: JsonParser, parse2: JsonParser)
    ensures ResolveCredentials(Some(section["service_account" := SDict(fields)]), parse1)
         == ResolveCredentials(Some(section["service_account" := SDict(fields)]["SERVICE_ACCOUNT_JSON" := other]), parse2)
         == Success(fields)
  {
    var s1 := section["service_account" := SDict(fields)];
    var s2 := s1["SERVICE_ACCOUNT_JSON" := other];
    assert "service_account"[0] != "SERVICE_ACCOUNT_JSON"[0];
    assert s2["service_account"] == SDict(fields);
  }

  /** A leading byte-order mark on a string SERVICE_ACCOUNT_JSON never
      changes the outcome. */
  lemma JsonEntryIgnoresBom(text: string, parse: JsonParser)
    ensures ResolveJsonEntry(Some(SString([Bom] + text)), parse) == ResolveJsonEntry(Some(SString(text)), parse)
  {
    BomIsIgnored(text);
  }

  /** `st.secrets["drive"]["DB_FILE_ID"]`. */
  function FileIdOf(secrets: Secrets): (r: Result<string, DriveError>)
    ensures r.Success? <==> secrets.Some? && "DB_FILE_ID" in secrets.value && secrets.value["DB_FILE_ID"].SString?
    ensures r.Success? ==> r.value == secrets.value["DB_FILE_ID"].text
    ensures secrets.None? ==> r == Failure(NoDriveSection)
  {
    if secrets.None? then Failure(NoDriveSection)
    else if "DB_FILE_ID" in secrets.value && secrets.value["DB_FILE_ID"].SString? then
      Success(secrets.value["DB_FILE_ID"].text)
    else Failure(MissingFileId)
  }

  /** Drive revision ids; the model only needs them to be distinct, so a
      fresh one is the next number. */
  type RevisionId = nat

  /** The metadata `files().get(fields=...)` returns. */
  datatype Meta = Meta(id: string, name: string, headRevisionId: Option<RevisionId>)

  /** The file resource `files().update()` returns with its default fields,
      which do not include the revision. */
  datatype FileRef = FileRef(id: string, name: string)

  /** `MediaIoBaseDownload`'s default chunk size (100 MiB). */
  const ChunkSize := 100 * 1024 * 1024

  /** The database file on Drive: its content and its head revision. */
  class DriveFile {
    const id: string
    const name: string
    var content: seq<bv8>
    var revision: RevisionId

    constructor (id: string, name: string, content: seq<bv8>, revision: RevisionId)
      ensures this.id == id && this.name == name && this.content == content && this.revision == revision
    {
      this.id := id;
      this.name := name;
      this.content := content;
      this.revision := revision;
    }

    /** The metadata the application asks for. */
    function Metadata(): (m: Meta)
      reads this
      ensures m.id == id && m.headRevisionId == Some(revision)
    {
      Meta(id, name, Some(revision))
    }
  }

  /** The local file system, as far as the database copy is concerned. */
  class LocalDisk {
    var files: map<string, seq<bv8>>

    constructor (files: map<string, seq<bv8>>)
      ensures this.files == files
    {
      this.files := files;
    }
  }

  /** The error, if any, that stops a Drive call before it reaches the file:
      the file id, then the credentials, then the lookup of the id. */
  function Preflight(secrets: Secrets, parse: JsonParser, driveId: string): (r: Option<DriveError>)
    ensures r.None? <==> FileIdOf(secrets).Success? && ResolveCredentials(secrets, parse).Success?
                         && FileIdOf(secrets).value == driveId
  {
    match FileIdOf(secrets)
    case Failure(e) => Some(e)
    case Success(fileId) =>
      match ResolveCredentials(secrets, parse)
      case Failure(e) => Some(e)
      case Success(_) => if fileId == driveId then None else Some(FileNotFound)
  }

  /** `download_db(local_path)`: reads the metadata, then copies the content
      chunk by chunk into `local_path` (truncated first), and returns the
      metadata read before the content. */
  method DownloadDb(secrets: Secrets, parse: JsonParser, drive: DriveFile, disk: LocalDisk,
                    localPath: string) returns (r: Result<Meta, DriveError>)
    modifies disk
    ensures Preflight(secrets, parse, drive.id).Some? ==>
              r == Failure(Preflight(secrets, parse, drive.id).value) && disk.files == old(disk.files)
    ensures Preflight(secrets, parse, drive.id).None? ==>
              r == Success(drive.Metadata()) && disk.files == old(disk.files)[localPath := drive.content]
  {
    var pre := Preflight(secrets, parse, drive.id);
    if pre.Some? {
      return Failure(pre.value);
    }
    var meta := drive.Metadata();
    var received: seq<bv8> := [];
    disk.files := disk.files[localPath := received];
    var done := false;
    while !done
      invariant |received| <= |drive.content| && received == drive.content[..|received|]
      invariant done ==> received == drive.content
      invariant disk.files == old(disk.files)[localPath := received]
      decreases |drive.content| - |received| + (if done then 0 else 1)
    {
      var n := if |drive.content| - |received| < ChunkSize then |drive.content| - |received| else ChunkSize;
      received := received + drive.content[|received|..|received| + n];
      disk.files := disk.files[localPath := received];
      done := |received| == |drive.content|;
    }
    r := Success(meta);
  }

  /** What `upload_db` returns for a given state of Drive and of the disk. */
  function UploadOutcome(secrets: Secrets, parse: JsonParser, driveId: string, driveName: string,
                         current: RevisionId, files: map<string, seq<bv8>>, localPath: string,
                         expected: Option<RevisionId>): (r: Result<FileRef, DriveError>)
    ensures Preflight(secrets, parse, driveId).None? && Some(current) != expected ==> r == Failure(Conflict)
    ensures r.Success? <==> Preflight(secrets, parse, driveId).None? && Some(current) == expected
                            && localPath in files
    ensures r.Success? ==> r.value == FileRef(driveId, driveName)
  {
    match Preflight(secrets, parse, driveId)
    case Some(e) => Failure(e)
    case None =>
      if Some(current) != expected then Failure(Conflict)
      else if localPath !in files then Failure(LocalFileMissing)
      else Success(FileRef(driveId, driveName))
  }

  /** `upload_db(local_path, expect_head_rev)`: uploads only when the head
      revision is still the expected one; the update gives the file a fresh
      revision. Every failure leaves Drive as it was.  The check (`get`) and
      the update are two separate requests: `intervening` is the content
      another client's update puts on Drive between them, if any, and this
      call's update then overwrites it. */
  method UploadDb(secrets: Secrets, parse: JsonParser, drive: DriveFile, disk: LocalDisk,
                  localPath: string, expected: Option<RevisionId>, intervening: Option<seq<bv8>>)
    returns (r: Result<FileRef, DriveError>)
    modifies drive
    ensures r == UploadOutcome(secrets, parse, drive.id, drive.name, old(drive.revision), disk.files, localPath, expected)
    ensures r.Failure? ==> drive.content == old(drive.content) && drive.revision == old(drive.revision)
    ensures r.Success? ==> drive.content == disk.files[localPath] && drive.revision > old(drive.revision)
    ensures r.Success? ==> drive.revision == old(drive.revision) + (if intervening.Some? then 2 else 1)
  {
    var pre := Preflight(secrets, parse, drive.id);
    if pre.Some? {
      return Failure(pre.value);
    }
    var now := drive.Metadata();
    if now.headRevisionId != expected {
      return Failure(Conflict);
    }
    if localPath !in disk.files {
      return Failure(LocalFileMissing);
    }
    if intervening.Some? {
      drive.content := intervening.value;
      drive.revision := drive.revision + 1;
    }
    drive.content := disk.files[localPath];
    drive.revision := drive.revision + 1;
    r := Success(FileRef(drive.id, drive.name));
  }

  /** Two clients that downloaded the same revision both pass the check when
      the first one's update lands after the second one's check: both
      uploads succeed, and Drive ends with the second client's content, the
      first client's acknowledged changes being lost. */
  method LostUpdate(secrets: Secrets, parse: JsonParser, mine: seq<bv8>, theirs: seq<bv8>)
    returns (myResult: Result<FileRef, DriveError>, theirResult: Result<FileRef, DriveError>, onDrive: seq<bv8>)
    requires FileIdOf(secrets) == Success("db") && ResolveCredentials(secrets, parse).Success?
    ensures myResult.Success? && theirResult.Success?
    ensures onDrive == mine
  {
    var drive := new DriveFile("db", "rooster.db", [], 7);
    var disk := new LocalDisk(map["/tmp/mine.db" := mine]);
    theirResult := UploadOutcome(secrets, parse, drive.id, drive.name, 7, map["/tmp/theirs.db" := theirs],
                                 "/tmp/theirs.db", Some(7));
    myResult := UploadDb(secrets, parse, drive, disk, "/tmp/mine.db", Some(7), Some(theirs));
    onDrive := drive.content;
  }

  /** The module-level `threading.Lock` behind `exclusive_writer`. A lock
      that is held when a writer arrives stands for one held by another
      session for the whole 30-second wait. */
  class WriterLock {
    var held: bool

    constructor ()
      ensures !held
    {
      held := false;
    }

    /** `_lock.acquire(timeout=30)`: succeeds exactly when the lock is free;
      either way the lock is held afterwards (by this writer or the other). */
    method Acquire() returns (ok: bool)
      modifies this
      ensures ok <==> !old(held)
      ensures held
    {
      ok := !held;
      held := true;
    }

    /** `_lock.release()`; releasing an unheld lock raises, so it is only
        called on a held one. */
    method Release()
      requires held
      modifies this
      ensures !held
    {
      held := false;
    }
  }
}

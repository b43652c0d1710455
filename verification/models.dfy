/** The ORM entities (models.py) as values, the tables as maps keyed by their
    unique columns, and the URL helpers. */
module Models {
  import opened Wrappers
  import opened Strs
  import opened Calendar

  datatype Role = Role(id: int, name: string, minRequiredPerDay: int, maxAllowedPerDay: int)

  /** `first_name` and `last_name` are NOT NULL in the schema; the Python code
      still treats them as possibly None, so the model keeps that case. */
  datatype Resource = Resource(id: int, firstName: Option<string>, lastName: Option<string>, roleId: int)

  /** One weekly fixed-off row: `part` is FULL, AM or PM, `absenceFraction`
      defaults to 1.0. */
  datatype FixedOffDay = FixedOffDay(resourceId: int, weekday: int, part: Option<string>, absenceFraction: Option<real>)

  datatype LeaveCode = LeaveCode(code: string, labelText: string, colorHex: string,
                                 countsAsAbsent: Option<bool>, absenceFraction: Option<real>)

  /** The unique constraint on (resource_id, date) is the map key. */
  type VacationTable = map<(int, Day), string>
  /** Exceptions, unique per (resource_id, date): the exception's part. */
  type ExceptionTable = map<(int, Day), Option<string>>
  /** `public_holiday.date` is unique: date to name. */
  type HolidayTable = map<Day, string>
  /** `leave_code.code` is unique: code to row. */
  type CodeTable = map<string, LeaveCode>

  /** The database behind one session. */
  datatype Db = Db(roles: map<int, Role>, resources: seq<Resource>, fixedOff: seq<FixedOffDay>,
                   exceptions: ExceptionTable, codes: CodeTable, vacations: VacationTable,
                   holidays: HolidayTable)

  /** An `after_commit` listener registered on a session: the object it
      belongs to and which of its registrations it is. */
  datatype Listener = Listener(owner: object, serial: nat)

  /** The part of a SQLAlchemy session the application's hooks see: its
      registered `after_commit` listeners and whether it is closed. */
  class Session {
    var afterCommit: seq<Listener>
    var closed: bool

    constructor ()
      ensures afterCommit == [] && !closed
    {
      afterCommit := [];
      closed := false;
    }

    method Close()
      modifies this
      ensures closed && afterCommit == old(afterCommit)
    {
      closed := true;
    }
  }

  /** `Resource.full_name`. */
  function FullName(r: Resource): (n: string)
    ensures n == [] || (!IsSpace(n[0]) && !IsSpace(n[|n| - 1]))
  {
    StripEnds(r.firstName.GetOr("") + " " + r.lastName.GetOr(""));
    Strip(r.firstName.GetOr("") + " " + r.lastName.GetOr(""))
  }

  /** With both names present and already trimmed, the full name is the two
      joined by one space; with neither it is empty. */
  lemma FullNameJoins(r: Resource)
    ensures r.firstName.Some? && r.lastName.Some? && r.firstName.value != "" && r.lastName.value != ""
            && !IsSpace(r.firstName.value[0]) && !IsSpace(r.lastName.value[|r.lastName.value| - 1])
            ==> FullName(r) == r.firstName.value + " " + r.lastName.value
    ensures r.firstName.GetOr("") == "" && r.lastName.GetOr("") == "" ==> FullName(r) == ""
  {
    var s := r.firstName.GetOr("") + " " + r.lastName.GetOr("");
    if r.firstName.Some? && r.lastName.Some? && r.firstName.value != "" && r.lastName.value != ""
       && !IsSpace(r.firstName.value[0]) && !IsSpace(r.lastName.value[|r.lastName.value| - 1]) {
      assert s[0] == r.firstName.value[0];
      assert s[|s| - 1] == r.lastName.value[|r.lastName.value| - 1];
      StripClean(s);
    }
    if r.firstName.GetOr("") == "" && r.lastName.GetOr("") == "" {
      assert s == " ";
      assert LStrip(s) == LStrip(s[1..]);
    }
  }

  /** The weekly part to code table shared by `FixedOffDay.code` and
      `fixed_off_weekly_for`: FULL, AM and PM give VV, VO and VM, anything
      else VV.  `part` is the already upper-cased value. */
  function PartCode(part: string): (c: string)
    ensures c == "VO" <==> part == "AM"
    ensures c == "VM" <==> part == "PM"
    ensures c == "VV" <==> part != "AM" && part != "PM"
  {
    if part == "FULL" then "VV"
    else if part == "AM" then "VO"
    else if part == "PM" then "VM"
    else "VV"
  }

  /** Python's `s or fallback` on an optional string: None and the empty
      string are both falsy. */
  function OrElse(s: Option<string>, fallback: string): (r: string)
    ensures s.Some? && s.value != "" ==> r == s.value
    ensures s.None? || s.value == "" ==> r == fallback
  {
    if s.Some? && s.value != "" then s.value else fallback
  }

  /** Python's `x or fallback` on an optional float: None and 0.0 are falsy. */
  function RealOrElse(x: Option<real>, fallback: real): (r: real)
    ensures x.Some? && x.value != 0.0 ==> r == x.value
    ensures x.None? || x.value == 0.0 ==> r == fallback
  {
    if x.Some? && x.value != 0.0 then x.value else fallback
  }

  /** `FixedOffDay.code()`: a missing or empty part counts as FULL, and the
      part is compared upper-cased. */
  function FixedOffCode(f: FixedOffDay): (c: string)
    ensures c == "VO" <==> Upper(OrElse(f.part, "FULL")) == "AM"
    ensures c == "VM" <==> Upper(OrElse(f.part, "FULL")) == "PM"
    ensures f.part.None? ==> c == "VV"
  {
    PartCode(Upper(OrElse(f.part, "FULL")))
  }

  const SqlitePrefix := "sqlite:///"

  /** `_db_url(db_path)`: an empty or missing path falls back to the default
      database next to the application. */
  function DbUrl(dbPath: Option<string>, defaultPath: string): (url: string)
    ensures StartsWith(url, SqlitePrefix)
    ensures dbPath.Some? && dbPath.value != "" ==> url[|SqlitePrefix|..] == dbPath.value
    ensures dbPath.GetOr("") == "" ==> url[|SqlitePrefix|..] == defaultPath
  {
    if dbPath.Some? && dbPath.value != "" then SqlitePrefix + dbPath.value
    else SqlitePrefix + defaultPath
  }

  /** `sqlite_path_from_url(url)`, as written: the text after `sqlite:`
      with backslashes turned into slashes (the slashes of `///` stay). */
  function SqlitePathFromUrl(url: string): (p: string)
    ensures !StartsWith(url, "sqlite:") ==> p == ""
    ensures StartsWith(url, "sqlite:") ==> |p| == |url| - 7 && '\\' !in p
    ensures StartsWith(url, "sqlite:") ==> forall i :: 0 <= i < |p| && url[7 + i] != '\\' ==> p[i] == url[7 + i]
  {
    if url == "" || !StartsWith(url, "sqlite:") then ""
    else ReplaceChar(url[7..], '\\', '/')
  }

  /** The URL `_db_url` builds for a path gives back that path with `///`
      still in front of it, not the bare path its documentation promises. */
  lemma SqlitePathKeepsSlashes(p: string)
    requires p != ""
    ensures SqlitePathFromUrl(DbUrl(Some(p), "")) == "///" + ReplaceChar(p, '\\', '/')
  {
    var url := DbUrl(Some(p), "");
    assert url[..7] == "sqlite:";
    assert url[7..] == "///" + p;
    ReplaceCharConcat("///", p, '\\', '/');
    assert ReplaceChar("///", '\\', '/') == "///";
  }

  /** The documented example `sqlite:///C:/pad/file.db` comes back as
      `///C:/pad/file.db`. */
  lemma SqlitePathDocExample()
    ensures SqlitePathFromUrl("sqlite:///C:/pad/file.db") == "///C:/pad/file.db"
    ensures SqlitePathFromUrl("sqlite:///C:/pad/file.db") != "C:/pad/file.db"
  {
    var p := SqlitePathFromUrl("sqlite:///C:/pad/file.db");
    assert "sqlite:///C:/pad/file.db"[7..] == "///C:/pad/file.db";
    assert p == ReplaceChar("///C:/pad/file.db", '\\', '/');
    assert p[0] == '/';
  }

  /** `sqlite_path_from_url` as its documentation describes it: the three
      slashes of `sqlite:///` are dropped, so a UNC path keeps its own two. */
  function SqlitePathFromUrlDocumented(url: string): (p: string)
    ensures !StartsWith(url, SqlitePrefix) ==> p == ""
  {
    if !StartsWith(url, SqlitePrefix) then ""
    else ReplaceChar(url[|SqlitePrefix|..], '\\', '/')
  }

  /** The documented behaviour round-trips `_db_url`: the path comes back
      with only its backslashes turned into slashes. */
  lemma {:induction false} SqlitePathDocumentedRoundTrip(p: string, defaultPath: string)
    requires p != ""
    ensures SqlitePathFromUrlDocumented(DbUrl(Some(p), defaultPath)) == ReplaceChar(p, '\\', '/')
  {
    var url := DbUrl(Some(p), defaultPath);
    assert StartsWith(url, SqlitePrefix) && url[|SqlitePrefix|..] == p;
  }

  /** The documented examples: a drive path and a UNC path. */
  lemma SqlitePathDocumentedExamples()
    ensures SqlitePathFromUrlDocumented("sqlite:///C:/pad/file.db") == "C:/pad/file.db"
    ensures SqlitePathFromUrlDocumented("sqlite://///server/share/file.db") == "//server/share/file.db"
  {
    var u1 := "sqlite:///C:/pad/file.db";
    assert StartsWith(u1, SqlitePrefix) && u1[|SqlitePrefix|..] == "C:/pad/file.db";
    assert ReplaceChar("C:/pad/file.db", '\\', '/') == "C:/pad/file.db";
    var u2 := "sqlite://///server/share/file.db";
    assert StartsWith(u2, SqlitePrefix) && u2[|SqlitePrefix|..] == "//server/share/file.db";
    assert ReplaceChar("//server/share/file.db", '\\', '/') == "//server/share/file.db";
  }

  /** `_load_settings_url()` given the raw `database_url` value of
      settings.json (None when absent or unreadable). */
  function LoadSettingsUrl(raw: Option<string>): (u: Option<string>)
    ensures u.Some? ==> raw.Some? && u.value != "" && u.value == Strip(raw.value)
    ensures u.None? <==> raw.None? || Strip(raw.value) == ""
  {
    if raw.Some? && Strip(raw.value) != "" then Some(Strip(raw.value)) else None
  }

  /** The URL `get_engine` opens: settings.json, then config.ini, then the
      SQLite file. */
  function EngineUrl(settingsRaw: Option<string>, iniUrl: Option<string>,
                     dbPath: Option<string>, defaultPath: string): (url: string)
    ensures LoadSettingsUrl(settingsRaw).Some? ==> url == LoadSettingsUrl(settingsRaw).value
    ensures LoadSettingsUrl(settingsRaw).None? && iniUrl.Some? && Strip(iniUrl.value) != ""
            ==> url == Strip(iniUrl.value)
    ensures LoadSettingsUrl(settingsRaw).None? && (iniUrl.None? || Strip(iniUrl.value) == "")
            ==> url == DbUrl(dbPath, defaultPath)
    ensures url != ""
  {
    var fromSettings := LoadSettingsUrl(settingsRaw);
    if fromSettings.Some? then fromSettings.value
    else if iniUrl.Some? && Strip(iniUrl.value) != "" then Strip(iniUrl.value)
    else DbUrl(dbPath, defaultPath)
  }

  /** The module-level `_current_db_url` that `get_engine` records. */
  class EngineConfig {
    var currentDbUrl: Option<string>

    constructor ()
      ensures currentDbUrl == None
    {
      currentDbUrl := None;
    }

    /** `get_engine(db_path)`: chooses the URL and remembers it. */
    method GetEngine(settingsRaw: Option<string>, iniUrl: Option<string>,
                     dbPath: Option<string>, defaultPath: string) returns (url: string)
      modifies this
      ensures url == EngineUrl(settingsRaw, iniUrl, dbPath, defaultPath)
      ensures currentDbUrl == Some(url)
    {
      url := EngineUrl(settingsRaw, iniUrl, dbPath, defaultPath);
      currentDbUrl := Some(url);
    }

    /** `get_current_db_url()`. */
    function GetCurrentDbUrl(): (u: string)
      reads this
      ensures currentDbUrl.None? ==> u == ""
      ensures currentDbUrl.Some? ==> u == currentDbUrl.value
    {
      currentDbUrl.GetOr("")
    }
  }
}

/** The Streamlit front end (streamlit_app.py): the database is downloaded
    from Drive once per process, edited locally, and written back under the
    writer lock with the revision captured at start as the expected one.
    The overview, planning and administration tabs are modelled as
    operations on the tables of `Models.Db`. */
module WebApp {
  import opened Wrappers
  import opened Strs
  import opened Calendar
  import opened Models
  import opened Logic
  import opened DriveStore

  // ---------------------------------------------------------------------
  // Bootstrap and save

  /** The file name of the local copy inside the temporary directory. */
  const DbFileName := "vakantierooster.db"

  /** The cached bootstrap state: the local copy's path and `REMOTE_REV`,
      both fixed for the life of the process, and the objects the app
      talks to. */
  class App {
    const localDb: string
    const remoteRev: Option<RevisionId>
    const drive: DriveFile
    const disk: LocalDisk
    const writer: WriterLock

    constructor (localDb: string, meta: Meta, drive: DriveFile, disk: LocalDisk, writer: WriterLock)
      ensures this.localDb == localDb && remoteRev == meta.headRevisionId
      ensures this.drive == drive && this.disk == disk && this.writer == writer
    {
      this.localDb := localDb;
      this.remoteRev := meta.headRevisionId;
      this.drive := drive;
      this.disk := disk;
      this.writer := writer;
    }

    /** The "Opslaan naar Drive" button: `upload_db(LOCAL_DB,
        expect_head_rev=REMOTE_REV)` inside `exclusive_writer()`. The lock
        is released on every path that acquired it; a lock held by another
        session makes the save fail with a timeout and changes nothing.  The
        lock does not reach other app instances, so `intervening` is the
        content another instance may upload between the check and the
        update, as in `upload_db`. */
    method Save(secrets: Secrets, parse: JsonParser, intervening: Option<seq<bv8>>) returns (r: Result<FileRef, DriveError>)
      modifies drive, writer
      ensures writer.held == old(writer.held)
      ensures old(writer.held) ==> r == Failure(LockTimeout)
      ensures !old(writer.held) ==>
                r == UploadOutcome(secrets, parse, drive.id, drive.name, old(drive.revision), disk.files, localDb, remoteRev)
      ensures r.Failure? ==> drive.content == old(drive.content) && drive.revision == old(drive.revision)
      ensures r.Success? ==> drive.content == disk.files[localDb] && drive.revision > old(drive.revision)
    {
      var ok := writer.Acquire();
      if !ok {
        return Failure(LockTimeout);
      }
      r := UploadDb(secrets, parse, drive, disk, localDb, remoteRev, intervening);
      writer.Release();
    }
  }

  /** `_bootstrap_db()`: downloads the database into a fresh temporary
      directory and remembers the head revision it saw. The directory is
      a parameter (`tempfile.mkdtemp` is I/O).  The local file is stated
      as the download leaves it; the `init_db` seeding that follows is
      not part of this method. */
  method Bootstrap(secrets: Secrets, parse: JsonParser, drive: DriveFile, disk: LocalDisk,
                   writer: WriterLock, tmpDir: string) returns (r: Result<App, DriveError>)
    modifies disk
    ensures Preflight(secrets, parse, drive.id).Some? ==>
              r == Failure(Preflight(secrets, parse, drive.id).value) && disk.files == old(disk.files)
    ensures Preflight(secrets, parse, drive.id).None? ==>
              r.Success? && r.value.localDb == PathJoin(tmpDir, DbFileName)
              && r.value.remoteRev == Some(drive.revision)
              && r.value.drive == drive && r.value.disk == disk && r.value.writer == writer
              && disk.files == old(disk.files)[r.value.localDb := drive.content]
  {
    var localDb := PathJoin(tmpDir, DbFileName);
    var meta := DownloadDb(secrets, parse, drive, disk, localDb);
    if meta.Failure? {
      return Failure(meta.error);
    }
    var app := new App(localDb, meta.value, drive, disk, writer);
    r := Success(app);
  }

  /** `REMOTE_REV` is not refreshed after a save, so within one process a
      second save fails with a conflict although nobody else wrote to
      Drive; only "Herladen vanaf Drive" (a new bootstrap) clears it. */
  method SaveTwice(app: App, secrets: Secrets, parse: JsonParser) returns (first: Result<FileRef, DriveError>,
                                                                          second: Result<FileRef, DriveError>)
    requires Preflight(secrets, parse, app.drive.id).None?
    requires app.remoteRev == Some(app.drive.revision) && app.localDb in app.disk.files
    requires !app.writer.held
    modifies app.drive, app.writer
    ensures first == Success(FileRef(app.drive.id, app.drive.name))
    ensures second == Failure(Conflict)
    ensures app.drive.content == app.disk.files[app.localDb]
  {
    first := app.Save(secrets, parse, None);
    second := app.Save(secrets, parse, None);
  }

  // ---------------------------------------------------------------------
  // The overview tab

  /** The year widget accepts 2020 to 2035. */
  predicate InputYear(year: int) {
    2020 <= year <= 2035
  }

  /** The first and last day of the chosen month: the day before the
      first of the next month, which for December is in the next year. */
  function MonthRange(year: int, month: int): (r: (Day, Day))
    requires InputYear(year) && 1 <= month <= 12
    ensures r.0 == MakeDate(year, month, 1)
    ensures r.1 == MakeDate(year, month, DaysInMonth(year, month))
    ensures r.1 - r.0 + 1 == DaysInMonth(year, month)
  {
    MonthsAreContiguous(year, month);
    var start := MakeDate(year, month, 1);
    var end := if month == 12 then MakeDate(year + 1, 1, 1) - 1 else MakeDate(year, month + 1, 1) - 1;
    (start, end)
  }

  /** The months of a year tile it: each range starts the day after the
      previous one ends, and December is followed by January. */
  lemma MonthRangesTile(year: int, month: int)
    requires InputYear(year) && 1 <= month <= 12
    ensures month < 12 ==> MonthRange(year, month + 1).0 == MonthRange(year, month).1 + 1
    ensures month == 12 && year < 2035 ==> MonthRange(year + 1, 1).0 == MonthRange(year, 12).1 + 1
  {
    MonthsAreContiguous(year, month);
  }

  /** A cell of the overview table. */
  datatype Cell = DateCell(date: Day) | Label(text: string) | Count(value: real) | Blank

  const WeekdayLabels := ["Ma", "Di", "Wo", "Do", "Vr", "Za", "Zo"]

  /** The counts shown for a day: `presence_count` on a weekday, none on a
      weekend. */
  function DayCounts(db: Db, d: Day): Result<map<string, real>, LogicError> {
    if Weekday(d) < 5 then PresenceOver(db, d, db.resources) else Success(map[])
  }

  /** A role's cell: its count (0 when missing) on a weekday, empty on a
      weekend. */
  function RoleCell(counts: map<string, real>, d: Day, rn: string): Cell {
    if Weekday(d) < 5 then Count(if rn in counts then counts[rn] else 0.0) else Blank
  }

  /** The row dictionary after its first n role columns were written. */
  function RowAfter(d: Day, counts: map<string, real>, roles: seq<string>, n: nat): map<string, Cell>
    requires n <= |roles|
  {
    if n == 0 then map["datum" := DateCell(d), "weekdag" := Label(WeekdayLabels[Weekday(d)])]
    else RowAfter(d, counts, roles, n - 1)[roles[n - 1] := RoleCell(counts, d, roles[n - 1])]
  }

  /** A row has the date, the weekday label and one cell per role; a role
      named like the first two columns overwrites them. */
  lemma {:induction false} RowShape(d: Day, counts: map<string, real>, roles: seq<string>, n: nat)
    requires n <= |roles|
    ensures RowAfter(d, counts, roles, n).Keys == {"datum", "weekdag"} + set i | 0 <= i < n :: roles[i]
    ensures forall i :: 0 <= i < n ==> RowAfter(d, counts, roles, n)[roles[i]] == RoleCell(counts, d, roles[i])
    ensures "datum" !in roles[..n] ==> RowAfter(d, counts, roles, n)["datum"] == DateCell(d)
    ensures "weekdag" !in roles[..n] ==> RowAfter(d, counts, roles, n)["weekdag"] == Label(WeekdayLabels[Weekday(d)])
  {
    if n > 0 {
      RowShape(d, counts, roles, n - 1);
      assert roles[..n] == roles[..n - 1] + [roles[n - 1]];
      assert (set i | 0 <= i < n :: roles[i]) == (set i | 0 <= i < n - 1 :: roles[i]) + {roles[n - 1]};
    } else {
      assert "datum"[0] != "weekdag"[0];
    }
  }

  /** One overview row: the `for rn in roles` loop. */
  method BuildRow(d: Day, counts: map<string, real>, roles: seq<string>) returns (row: map<string, Cell>)
    ensures row == RowAfter(d, counts, roles, |roles|)
  {
    row := map["datum" := DateCell(d), "weekdag" := Label(WeekdayLabels[Weekday(d)])];
    for i := 0 to |roles|
      invariant row == RowAfter(d, counts, roles, i)
    {
      row := row[roles[i] := RoleCell(counts, d, roles[i])];
    }
  }

  /** A day's row, or the failure of its count. */
  function DayRow(db: Db, d: Day, roles: seq<string>): Result<map<string, Cell>, LogicError> {
    match DayCounts(db, d)
    case Failure(e) => Failure(e)
    case Success(counts) => Success(RowAfter(d, counts, roles, |roles|))
  }

  /** The body of the `while cur <= end` loop for one day. */
  method OverviewDay(db: Db, d: Day, roles: seq<string>) returns (r: Result<map<string, Cell>, LogicError>)
    ensures r == DayRow(db, d, roles)
  {
    var counts: map<string, real> := map[];
    if Weekday(d) < 5 {
      var c := PresenceCount(db, d);
      if c.Failure? {
        return Failure(c.error);
      }
      counts := c.value;
    }
    var row := BuildRow(d, counts, roles);
    r := Success(row);
  }

  /** The rows for the days `start` through `end`, or the failure of the
      first day whose count fails. */
  function RowsFrom(db: Db, start: Day, end: Day, roles: seq<string>): Result<seq<map<string, Cell>>, LogicError>
    requires start <= end + 1
    decreases end - start
  {
    if end < start then Success([])
    else
      match RowsFrom(db, start, end - 1, roles)
      case Failure(e) => Failure(e)
      case Success(rows) =>
        match DayRow(db, end, roles)
        case Failure(e) => Failure(e)
        case Success(row) => Success(rows + [row])
  }

  /** The table fails exactly when some day's count fails; otherwise it
      has one row per day, in date order. */
  lemma {:induction false} RowsFromMeaning(db: Db, start: Day, end: Day, roles: seq<string>)
    requires start <= end + 1
    ensures RowsFrom(db, start, end, roles).Failure? <==> exists d :: start <= d <= end && DayRow(db, d, roles).Failure?
    ensures RowsFrom(db, start, end, roles).Success? ==>
              |RowsFrom(db, start, end, roles).value| == end - start + 1
              && forall k :: 0 <= k < end - start + 1 ==>
                   DayRow(db, start + k, roles) == Success(RowsFrom(db, start, end, roles).value[k])
    decreases end - start
  {
    if start <= end {
      RowsFromMeaning(db, start, end - 1, roles);
      var prev := RowsFrom(db, start, end - 1, roles);
      if prev.Success? && DayRow(db, end, roles).Success? {
        var rows := prev.value + [DayRow(db, end, roles).value];
        assert RowsFrom(db, start, end, roles) == Success(rows);
        forall k | 0 <= k < end - start + 1
          ensures DayRow(db, start + k, roles) == Success(rows[k])
        {
          if k < end - start {
            assert rows[k] == prev.value[k];
          }
        }
      }
    }
  }

  /** A failure part-way through fails the whole table. */
  lemma {:induction false} RowsFromFailure(db: Db, start: Day, mid: Day, end: Day, roles: seq<string>)
    requires start <= mid <= end && RowsFrom(db, start, mid, roles).Failure?
    ensures RowsFrom(db, start, end, roles) == Failure(MultipleResultsFound)
    decreases end - mid
  {
    if mid < end {
      RowsFromFailure(db, start, mid + 1, end, roles);
    } else {
      assert RowsFrom(db, start, end, roles).error.MultipleResultsFound?;
    }
  }

  /** One more day: its row is appended, or its failure ends the table. */
  lemma RowsFromStep(db: Db, start: Day, cur: Day, roles: seq<string>, rows: seq<map<string, Cell>>)
    requires start <= cur && RowsFrom(db, start, cur - 1, roles) == Success(rows)
    ensures RowsFrom(db, start, cur, roles)
            == if DayRow(db, cur, roles).Failure? then Failure(DayRow(db, cur, roles).error)
               else Success(rows + [DayRow(db, cur, roles).value])
  {
  }

  /** The `while cur <= end` loop: one row per day from `start` through
      `end`, stopping at the first count that fails. */
  method RowsBetween(db: Db, start: Day, end: Day, roles: seq<string>)
    returns (r: Result<seq<map<string, Cell>>, LogicError>)
    requires start <= end + 1
    ensures r == RowsFrom(db, start, end, roles)
  {
    var rows: seq<map<string, Cell>> := [];
    var cur := start;
    while cur <= end
      invariant start <= cur <= end + 1
      invariant RowsFrom(db, start, cur - 1, roles) == Success(rows)
    {
      var row := OverviewDay(db, cur, roles);
      RowsFromStep(db, start, cur, roles, rows);
      if row.Failure? {
        RowsFromFailure(db, start, cur, end, roles);
        return Failure(MultipleResultsFound);
      }
      rows := rows + [row.value];
      cur := cur + 1;
    }
    r := Success(rows);
  }

  /** The overview tab: makes sure the year has holidays, then lists the
      days of the chosen month on the updated database. */
  method OverviewRows(db: Db, year: int, month: int, roles: seq<string>)
    returns (db': Db, r: Result<seq<map<string, Cell>>, LogicError>)
    requires InputYear(year) && 1 <= month <= 12
    ensures db' == db.(holidays := EnsurePublicHolidays(db.holidays, year))
    ensures r == RowsFrom(db', MonthRange(year, month).0, MonthRange(year, month).1, roles)
  {
    db' := db.(holidays := EnsurePublicHolidays(db.holidays, year));
    var range := MonthRange(year, month);
    r := RowsBetween(db', range.0, range.1, roles);
  }

  /** The overview of a month has one row per day of the month, unless
      some weekday's count fails. */
  lemma OverviewLength(db: Db, year: int, month: int, roles: seq<string>)
    requires InputYear(year) && 1 <= month <= 12
    requires RowsFrom(db, MonthRange(year, month).0, MonthRange(year, month).1, roles).Success?
    ensures |RowsFrom(db, MonthRange(year, month).0, MonthRange(year, month).1, roles).value| == DaysInMonth(year, month)
  {
    RowsFromMeaning(db, MonthRange(year, month).0, MonthRange(year, month).1, roles);
  }

  /** On a weekday every role column holds a count between 0 and the
      number of resources with that role; on a weekend every role column
      is empty. */
  lemma OverviewCells(db: Db, d: Day, roles: seq<string>, rn: string)
    requires NonNegativeFractions(db) && DayRow(db, d, roles).Success? && rn in roles
    ensures var row := DayRow(db, d, roles).value;
            rn in row
            && (Weekday(d) >= 5 ==> row[rn] == Blank)
            && (Weekday(d) < 5 ==> row[rn].Count? && 0.0 <= row[rn].value <= CountUnder(db, db.resources, rn) as real)
  {
    var counts := DayCounts(db, d).value;
    RowShape(d, counts, roles, |roles|);
    var i :| 0 <= i < |roles| && roles[i] == rn;
    if Weekday(d) < 5 {
      PresenceShape(db, d, db.resources);
      if rn in counts {
        PresenceBounded(db, d, db.resources, rn);
      }
    }
  }

  // ---------------------------------------------------------------------
  // The planning tab

  /** A warning shown instead of acting. */
  datatype FormError = MissingSelection | MissingName | MissingCode

  /** Python's truthiness of an optional id: None and 0 are false. */
  predicate Truthy(id: Option<int>) {
    id.Some? && id.value != 0
  }

  predicate Between(x: Day, lo: Day, hi: Day) {
    lo <= x <= hi
  }

  /** `(d_from, d_to) if d_from <= d_to else (d_to, d_from)`: the same
      two dates in order, covering the same days. */
  function NormaliseRange(a: Day, b: Day): (r: (Day, Day))
    ensures r.0 <= r.1
    ensures r == (a, b) || r == (b, a)
    ensures forall x :: Between(x, r.0, r.1) <==> Between(x, a, b) || Between(x, b, a)
  {
    if a <= b then (a, b) else (b, a)
  }

  /** The "Plan" button. The date inputs always hold a date; the employee
      and the code are None when their lists are empty. */
  method Plan(vac: VacationTable, resId: Option<int>, dFrom: Day, dTo: Day, code: Option<string>)
    returns (r: Result<VacationTable, FormError>)
    ensures r.Failure? <==> !(Truthy(resId) && code.Some? && code.value != "")
    ensures r.Failure? ==> r.error == MissingSelection
    ensures r.Success? ==> var (d0, d1) := NormaliseRange(dFrom, dTo);
                           r.value == LeaveRangeSet(vac, resId.value, d0, d1, code.value)
  {
    if !(Truthy(resId) && code.Some? && code.value != "") {
      return Failure(MissingSelection);
    }
    var (d0, d1) := NormaliseRange(dFrom, dTo);
    var t := SetLeaveRange(vac, resId.value, d0, d1, code.value);
    r := Success(t);
  }

  /** The "Verwijder" button. */
  method Delete(vac: VacationTable, resId: Option<int>, dFrom: Day, dTo: Day)
    returns (r: Result<VacationTable, FormError>)
    ensures r.Failure? <==> !Truthy(resId)
    ensures r.Failure? ==> r.error == MissingSelection
    ensures r.Success? ==> var (d0, d1) := NormaliseRange(dFrom, dTo);
                           r.value == LeaveRangeCleared(vac, resId.value, d0, d1)
  {
    if !Truthy(resId) {
      return Failure(MissingSelection);
    }
    var (d0, d1) := NormaliseRange(dFrom, dTo);
    var t := ClearLeaveRange(vac, resId.value, d0, d1);
    r := Success(t);
  }

  /** Whichever order the two dates are picked in, planning marks exactly
      the working days between them and leaves the rest of the table. */
  lemma PlanEitherOrder(vac: VacationTable, rid: int, a: Day, b: Day, code: string, k: (int, Day))
    ensures var (d0, d1) := NormaliseRange(a, b);
            var t := LeaveRangeSet(vac, rid, d0, d1, code);
            (k.0 == rid && (Between(k.1, a, b) || Between(k.1, b, a)) ==> (k in t <==> !IsWeekend(k.1)) && (k in t ==> t[k] == code))
            && (!(k.0 == rid && (Between(k.1, a, b) || Between(k.1, b, a))) ==> (k in t <==> k in vac) && (k in t ==> t[k] == vac[k]))
    ensures NormaliseRange(a, b) == NormaliseRange(b, a)
  {
    var (d0, d1) := NormaliseRange(a, b);
    assert InRange(k, rid, d0, d1) <==> k.0 == rid && Between(k.1, d0, d1);
  }

  // ---------------------------------------------------------------------
  // The administration tab

  /** The role form: an empty name after stripping is refused; a role with
      the stripped name gets the new bounds, otherwise a new role is added
      under a fresh id. */
  function SaveRole(roles: map<int, Role>, name: string, minv: int, maxv: int, freshId: int)
    : (r: Result<map<int, Role>, FormError>)
    requires UniqueRoleNames(roles) && freshId !in roles
    ensures r.Failure? <==> Strip(name) == ""
    ensures r.Failure? ==> r.error == MissingName
    ensures r.Success? ==> UniqueRoleNames(r.value)
    ensures r.Success? ==> exists id :: id in r.value && r.value[id].name == Strip(name)
                             && r.value[id].minRequiredPerDay == minv && r.value[id].maxAllowedPerDay == maxv
    ensures r.Success? ==> forall id :: id in roles && roles[id].name != Strip(name) ==> id in r.value && r.value[id] == roles[id]
    ensures r.Success? ==> forall id :: id in r.value && id != freshId ==> id in roles
    ensures r.Success? ==> forall id :: id in roles && roles[id].name == Strip(name) ==>
              id in r.value && r.value[id] == roles[id].(minRequiredPerDay := minv, maxAllowedPerDay := maxv)
    ensures r.Success? && (exists id :: id in roles && roles[id].name == Strip(name)) ==> r.value.Keys == roles.Keys
    ensures r.Success? && (forall id :: id in roles ==> roles[id].name != Strip(name)) ==>
              r.value.Keys == roles.Keys + {freshId} && r.value[freshId] == Role(freshId, Strip(name), minv, maxv)
  {
    var n := Strip(name);
    if n == "" then Failure(MissingName)
    else if exists id :: id in roles && roles[id].name == n then
      Success(WithBounds(roles, n, minv, maxv))
    else
      Success(WithNewRole(roles, n, minv, maxv, freshId))
  }

  /** The found role's row updated in place: same ids, same names. */
  function WithBounds(roles: map<int, Role>, n: string, minv: int, maxv: int): (u: map<int, Role>)
    requires UniqueRoleNames(roles)
    ensures u.Keys == roles.Keys && UniqueRoleNames(u)
    ensures forall id :: id in roles && roles[id].name == n ==>
              u[id] == roles[id].(minRequiredPerDay := minv, maxAllowedPerDay := maxv)
    ensures forall id :: id in roles && roles[id].name != n ==> u[id] == roles[id]
  {
    var updated := map id | id in roles ::
      if roles[id].name == n then roles[id].(minRequiredPerDay := minv, maxAllowedPerDay := maxv) else roles[id];
    assert forall id :: id in updated ==> updated[id].name == roles[id].name;
    updated
  }

  /** A new role under a fresh id, when no role has the name. */
  function WithNewRole(roles: map<int, Role>, n: string, minv: int, maxv: int, freshId: int): (u: map<int, Role>)
    requires UniqueRoleNames(roles) && freshId !in roles
    requires forall id :: id in roles ==> roles[id].name != n
    ensures u.Keys == roles.Keys + {freshId} && UniqueRoleNames(u)
    ensures u[freshId] == Role(freshId, n, minv, maxv)
    ensures forall id :: id in roles ==> u[id] == roles[id]
  {
    var added := roles[freshId := Role(freshId, n, minv, maxv)];
    assert added[freshId].name == n;
    added
  }

  /** The employee form: a first name (after stripping) and a role are
      required; the new resource is appended with stripped names. The role
      is picked from the names of `roleIds`. */
  function AddResource(resources: seq<Resource>, firstName: string, lastName: string,
                       roleName: Option<string>, roleIds: map<string, int>, freshId: int)
    : (r: Result<seq<Resource>, FormError>)
    requires roleName.Some? ==> roleName.value in roleIds
    ensures r.Failure? <==> Strip(firstName) == "" || roleName.None? || roleName.value == ""
    ensures r.Failure? ==> r.error == MissingName
    ensures r.Success? ==> |r.value| == |resources| + 1 && r.value[..|resources|] == resources
    ensures r.Success? ==> var added := r.value[|resources|];
                           added.id == freshId && added.roleId == roleIds[roleName.value]
                           && added.firstName == Some(Strip(firstName)) && added.lastName == Some(Strip(lastName))
                           && FullName(added) == Strip(Strip(firstName) + " " + Strip(lastName))
  {
    if Strip(firstName) == "" || roleName.None? || roleName.value == "" then Failure(MissingName)
    else
      var res := Resource(freshId, Some(Strip(firstName)), Some(Strip(lastName)), roleIds[roleName.value]);
      Success(resources + [res])
  }

  /** The rows the checked weekdays below n become, in weekday order. */
  function CheckedRows(rid: int, checked: set<int>, n: nat): seq<FixedOffDay> {
    if n == 0 then []
    else CheckedRows(rid, checked, n - 1) + CheckedRow(rid, checked, n - 1)
  }

  /** A weekly row made without a part or a fraction: the table's column
      defaults give it part `FULL` and fraction 1.0 (models.py:51-52). */
  function DefaultFixedOffRow(rid: int, w: int): FixedOffDay {
    FixedOffDay(rid, w, Some("FULL"), Some(1.0))
  }

  /** The row added for weekday w when it is checked. */
  function CheckedRow(rid: int, checked: set<int>, w: int): seq<FixedOffDay> {
    if w in checked then [DefaultFixedOffRow(rid, w)] else []
  }

  /** Selecting from the row added for one weekday. */
  lemma RowsOnCheckedRow(rid: int, checked: set<int>, w: int, other: int, wd: int)
    ensures RowsOn(CheckedRow(rid, checked, w), other, wd)
         == (if other == rid && wd == w && w in checked then CheckedRow(rid, checked, w) else [])
  {
    var extra := CheckedRow(rid, checked, w);
    if w in checked {
      assert extra[1..] == [];
    }
  }

  /** Of the rows for checked weekdays, exactly one is on each checked
      weekday below n: a full-day row with the default fraction 1.0. */
  lemma {:induction false} CheckedRowsOn(rid: int, checked: set<int>, n: nat, wd: int)
    ensures RowsOn(CheckedRows(rid, checked, n), rid, wd)
         == (if 0 <= wd < n && wd in checked then [DefaultFixedOffRow(rid, wd)] else [])
  {
    if n > 0 {
      var prev := CheckedRows(rid, checked, n - 1);
      var extra := CheckedRow(rid, checked, n - 1);
      CheckedRowsOn(rid, checked, n - 1, wd);
      RowsOnConcat(prev, extra, rid, wd);
      RowsOnCheckedRow(rid, checked, n - 1, rid, wd);
    }
  }

  /** None of the rows for checked weekdays belongs to another resource. */
  lemma {:induction false} CheckedRowsOnlyOwn(rid: int, checked: set<int>, n: nat, other: int, wd: int)
    requires other != rid
    ensures RowsOn(CheckedRows(rid, checked, n), other, wd) == []
  {
    if n > 0 {
      var prev := CheckedRows(rid, checked, n - 1);
      var extra := CheckedRow(rid, checked, n - 1);
      CheckedRowsOnlyOwn(rid, checked, n - 1, other, wd);
      RowsOnConcat(prev, extra, other, wd);
      RowsOnCheckedRow(rid, checked, n - 1, other, wd);
    }
  }

  /** "Opslaan vaste vrije dagen": the resource's weekly rows are deleted,
      then one full-day row is added per checked weekday in increasing
      order. */
  method SaveFixedOffDays(rows: seq<FixedOffDay>, rid: int, checked: set<int>) returns (r: seq<FixedOffDay>)
    ensures r == RowsNotOf(rows, rid) + CheckedRows(rid, checked, 7)
  {
    r := RowsNotOf(rows, rid);
    for wd := 0 to 7
      invariant r == RowsNotOf(rows, rid) + CheckedRows(rid, checked, wd)
    {
      if wd in checked {
        r := r + [DefaultFixedOffRow(rid, wd)];
      }
    }
  }

  /** After saving, the resource has exactly one row on each checked
      weekday and none on the others, and every other resource keeps its
      rows. */
  lemma SavedFixedOffRows(rows: seq<FixedOffDay>, rid: int, checked: set<int>, other: int, wd: int)
    ensures var r := RowsNotOf(rows, rid) + CheckedRows(rid, checked, 7);
            |RowsOn(r, rid, wd)| == (if 0 <= wd < 7 && wd in checked then 1 else 0)
            && (other != rid ==> RowsOn(r, other, wd) == RowsOn(rows, other, wd))
  {
    var cr := CheckedRows(rid, checked, 7);
    RowsOnConcat(RowsNotOf(rows, rid), cr, rid, wd);
    RowsOnConcat(RowsNotOf(rows, rid), cr, other, wd);
    RowsOnNotOf(rows, rid, other, wd);
    CheckedRowsOn(rid, checked, 7, wd);
    if other != rid {
      CheckedRowsOnlyOwn(rid, checked, 7, other, wd);
    }
  }

  /** On a checked working day the saved pattern takes the whole day off,
      as VV. */
  lemma SavedFixedOffEffect(rows: seq<FixedOffDay>, rid: int, checked: set<int>, d: Day)
    requires Weekday(d) in checked && Weekday(d) < 5
    ensures FixedOffWeeklyFor(RowsNotOf(rows, rid) + CheckedRows(rid, checked, 7), rid, d) == Success(Effect(Some("VV"), 1.0))
  {
    var r := RowsNotOf(rows, rid) + CheckedRows(rid, checked, 7);
    var w := Weekday(d);
    RowsOnConcat(RowsNotOf(rows, rid), CheckedRows(rid, checked, 7), rid, w);
    RowsOnNotOf(rows, rid, rid, w);
    CheckedRowsOn(rid, checked, 7, w);
    assert RowsOn(r, rid, w) == [DefaultFixedOffRow(rid, w)];
    FixedOffWeeklyCases(r, rid, d);
    UpperKeeps("FULL");
  }

  /** The absence choices of the code form. */
  datatype AbsenceChoice = NoAbsence | HalfDay | WholeDay

  function ChoiceFraction(c: AbsenceChoice): real {
    match c
    case NoAbsence => 0.0
    case HalfDay => 0.5
    case WholeDay => 1.0
  }

  const DefaultColor := "#C6E6C6"

  /** The code form: an empty code after stripping is refused; otherwise
      the code is created or overwritten with the row of `FormCode`. */
  function SaveCode(codes: CodeTable, code: string, labelText: string, color: string, choice: AbsenceChoice)
    : (r: Result<CodeTable, FormError>)
    ensures r.Failure? <==> Strip(code) == ""
    ensures r.Failure? ==> r.error == MissingCode
  {
    var c := Strip(code);
    if c == "" then Failure(MissingCode) else Success(codes[c := FormCode(c, labelText, color, choice)])
  }

  /** A successful save adds the stripped code, or overwrites it, with the
      label (the code when empty), the colour (the default when empty) and
      the fraction; it counts as absent exactly when the fraction is above
      0, and every other code is unchanged. */
  lemma SaveCodeIs(codes: CodeTable, code: string, labelText: string, color: string, choice: AbsenceChoice)
    requires SaveCode(codes, code, labelText, color, choice).Success?
    ensures var t := SaveCode(codes, code, labelText, color, choice).value;
            var c := Strip(code);
            t.Keys == codes.Keys + {c}
            && (forall k :: k in codes && k != c ==> t[k] == codes[k])
            && t[c].code == c
            && t[c].labelText == (if Strip(labelText) == "" then c else Strip(labelText))
            && t[c].colorHex == (if Strip(color) == "" then DefaultColor else Strip(color))
            && t[c].absenceFraction == Some(ChoiceFraction(choice))
            && (t[c].countsAsAbsent == Some(true) <==> choice != NoAbsence)
  {
    var c := Strip(code);
    var row := FormCode(c, labelText, color, choice);
    assert SaveCode(codes, code, labelText, color, choice).value == codes[c := row];
  }

  /** The row the code form writes for the stripped code `c`. */
  function FormCode(c: string, labelText: string, color: string, choice: AbsenceChoice): (row: LeaveCode)
    ensures row.code == c
    ensures row.labelText == (if Strip(labelText) == "" then c else Strip(labelText))
    ensures row.colorHex == (if Strip(color) == "" then DefaultColor else Strip(color))
    ensures row.absenceFraction == Some(ChoiceFraction(choice))
    ensures row.countsAsAbsent == Some(true) <==> choice != NoAbsence
  {
    var frac := ChoiceFraction(choice);
    var lbl := if Strip(labelText) == "" then c else Strip(labelText);
    var col := if Strip(color) == "" then DefaultColor else Strip(color);
    LeaveCode(c, lbl, col, Some(frac > 0.0), Some(frac))
  }

  /** A code saved through the form is read back by the presence count as
      absent exactly when its fraction is above 0, with that fraction. */
  lemma SavedCodeAbsence(codes: CodeTable, code: string, labelText: string, color: string, choice: AbsenceChoice)
    requires SaveCode(codes, code, labelText, color, choice).Success?
    ensures var t := SaveCode(codes, code, labelText, color, choice).value;
            CodeAbsence(t[Strip(code)]) == (ChoiceFraction(choice) > 0.0, ChoiceFraction(choice))
  {
  }
}

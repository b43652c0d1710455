/** The "Plan Verlof" tab (ui_plan.py): planning and clearing leave for one
    resource over a date range, and the month overview the tab rebuilds.
    The widgets become the fields they show; the session's tables are the
    `Db` value the tab reads and writes. */
module PlanTab {
  import opened Wrappers
  import opened Strs
  import opened Calendar
  import opened Models
  import opened Logic

  const WeekdayFull: seq<string> := ["maandag", "dinsdag", "woensdag", "donderdag", "vrijdag", "zaterdag", "zondag"]

  // ---------------------------------------------------------------------
  // Date ranges

  /** `_daterange(d0, d1)`: every date from d0 to d1, one day at a time. */
  method DateRange(d0: Day, d1: Day) returns (ds: seq<Day>)
    ensures |ds| == if d1 < d0 then 0 else d1 - d0 + 1
    ensures forall i :: 0 <= i < |ds| ==> ds[i] == d0 + i
    ensures forall d :: d in ds <==> d0 <= d <= d1
  {
    ds := [];
    var cur := d0;
    while cur <= d1
      invariant d0 <= cur <= if d1 < d0 then d0 else d1 + 1
      invariant |ds| == cur - d0
      invariant forall i :: 0 <= i < |ds| ==> ds[i] == d0 + i
    {
      ds := ds + [cur];
      cur := cur + 1;
    }
    forall d | d0 <= d <= d1
      ensures d in ds
    {
      assert ds[d - d0] == d;
    }
  }

  /** `_selected_range`: the two picked dates, earliest first. */
  function SelectedRange(from: Day, to: Day): (r: (Day, Day))
    ensures r.0 <= r.1
    ensures (r.0 == from && r.1 == to) || (r.0 == to && r.1 == from)
  {
    if to < from then (to, from) else (from, to)
  }

  // ---------------------------------------------------------------------
  // Working days

  /** `_working_day_for(r, d)`: not a weekend day, not a public holiday and
      not one of the resource's fixed-off weekdays. */
  function WorkingDayFor(db: Db, r: Resource, d: Day): bool {
    if Weekday(d) >= 5 then false
    else if d in db.holidays then false
    else if RowsOn(db.fixedOff, r.id, Weekday(d)) != [] then false
    else true
  }

  /** A working day is exactly a weekday that is neither a holiday nor one
      of the resource's fixed-off weekdays. */
  lemma WorkingDayForIs(db: Db, r: Resource, d: Day)
    ensures WorkingDayFor(db, r, d) <==>
      !IsWeekend(d) && d !in db.holidays &&
      !(exists i :: 0 <= i < |db.fixedOff| && db.fixedOff[i].resourceId == r.id && db.fixedOff[i].weekday == Weekday(d))
  {
    var rows := db.fixedOff;
    RowsOnMembers(rows, r.id, Weekday(d));
    var on := RowsOn(rows, r.id, Weekday(d));
    if on != [] {
      assert on[0] in rows;
      var i :| 0 <= i < |rows| && rows[i] == on[0];
      assert rows[i].resourceId == r.id && rows[i].weekday == Weekday(d);
    }
  }

  /** The working days from lo to hi, ascending. */
  function WorkingDays(db: Db, r: Resource, lo: Day, hi: Day): seq<Day>
    decreases hi - lo
  {
    if hi < lo then []
    else WorkingDays(db, r, lo, hi - 1) + (if WorkingDayFor(db, r, hi) then [hi] else [])
  }

  /** `WorkingDays` holds every working day of the range once, ascending, and
      nothing else. */
  lemma {:induction false} WorkingDaysAre(db: Db, r: Resource, lo: Day, hi: Day)
    ensures forall d :: d in WorkingDays(db, r, lo, hi) <==> lo <= d <= hi && WorkingDayFor(db, r, d)
    ensures forall i, j :: 0 <= i < j < |WorkingDays(db, r, lo, hi)| ==>
              WorkingDays(db, r, lo, hi)[i] < WorkingDays(db, r, lo, hi)[j]
    decreases hi - lo
  {
    if hi >= lo {
      WorkingDaysAre(db, r, lo, hi - 1);
      var prefix := WorkingDays(db, r, lo, hi - 1);
      var all := WorkingDays(db, r, lo, hi);
      forall i, j | 0 <= i < j < |all|
        ensures all[i] < all[j]
      {
        if j >= |prefix| {
          assert all[i] == prefix[i] && prefix[i] in prefix;
        } else {
          assert all[i] == prefix[i] && all[j] == prefix[j];
        }
      }
    }
  }

  // ---------------------------------------------------------------------
  // Planning and clearing

  /** The vacation table after `apply_leave` commits, walking the range a
      day at a time: each working day gets a row with `code`, replacing the
      row it had. */
  function LeavePlanned(db: Db, r: Resource, lo: Day, hi: Day, code: string): VacationTable
    decreases hi - lo
  {
    if hi < lo then db.vacations
    else
      var before := LeavePlanned(db, r, lo, hi - 1, code);
      if WorkingDayFor(db, r, hi) then before[(r.id, hi) := code] else before
  }

  /** Planning upserts the working days of the range and nothing else: a
      non-working day keeps whatever row it had. */
  lemma {:induction false} LeavePlannedIs(db: Db, r: Resource, lo: Day, hi: Day, code: string)
    ensures forall d :: lo <= d <= hi && WorkingDayFor(db, r, d) ==>
              (r.id, d) in LeavePlanned(db, r, lo, hi, code) && LeavePlanned(db, r, lo, hi, code)[(r.id, d)] == code
    ensures forall k :: !(InRange(k, r.id, lo, hi) && WorkingDayFor(db, r, k.1)) ==>
              (k in LeavePlanned(db, r, lo, hi, code) <==> k in db.vacations)
    ensures forall k :: k in db.vacations && !(InRange(k, r.id, lo, hi) && WorkingDayFor(db, r, k.1)) ==>
              LeavePlanned(db, r, lo, hi, code)[k] == db.vacations[k]
    decreases hi - lo
  {
    if hi >= lo {
      LeavePlannedIs(db, r, lo, hi - 1, code);
    }
  }

  /** Planning the same range twice is planning it once. */
  lemma LeavePlannedIdempotent(db: Db, r: Resource, lo: Day, hi: Day, code: string)
    ensures LeavePlanned(db.(vacations := LeavePlanned(db, r, lo, hi, code)), r, lo, hi, code)
         == LeavePlanned(db, r, lo, hi, code)
  {
    var once := LeavePlanned(db, r, lo, hi, code);
    var twice := LeavePlanned(db.(vacations := once), r, lo, hi, code);
    LeavePlannedIs(db, r, lo, hi, code);
    LeavePlannedIs(db.(vacations := once), r, lo, hi, code);
    assert forall k :: k in twice <==> k in once;
  }

  /** Clearing the range afterwards removes everything the planning added:
      clearing after planning is clearing. */
  lemma ClearUndoesPlan(db: Db, r: Resource, lo: Day, hi: Day, code: string)
    ensures LeaveRangeCleared(LeavePlanned(db, r, lo, hi, code), r.id, lo, hi)
         == LeaveRangeCleared(db.vacations, r.id, lo, hi)
  {
    var planned := LeavePlanned(db, r, lo, hi, code);
    LeavePlannedIs(db, r, lo, hi, code);
    var a := LeaveRangeCleared(planned, r.id, lo, hi);
    var b := LeaveRangeCleared(db.vacations, r.id, lo, hi);
    assert forall k :: k in a <==> k in b;
  }

  /** `q.count()` in `clear_leave`: the resource's rows inside the range. */
  function CountInRange(vac: VacationTable, rid: int, lo: Day, hi: Day): nat {
    |set k | k in vac && InRange(k, rid, lo, hi)|
  }

  /** Nothing to delete exactly when clearing would leave the table as it
      is, and otherwise the count is the number of rows the delete removes. */
  lemma CountInRangeIs(vac: VacationTable, rid: int, lo: Day, hi: Day)
    ensures CountInRange(vac, rid, lo, hi) == 0 <==> LeaveRangeCleared(vac, rid, lo, hi) == vac
    ensures |LeaveRangeCleared(vac, rid, lo, hi).Keys| + CountInRange(vac, rid, lo, hi) == |vac.Keys|
  {
    var inside := set k | k in vac && InRange(k, rid, lo, hi);
    var cleared := LeaveRangeCleared(vac, rid, lo, hi);
    assert cleared.Keys + inside == vac.Keys;
    assert cleared.Keys * inside == {};
    if inside != {} {
      var k :| k in inside;
      assert k !in cleared;
    } else {
      assert forall k :: k in cleared <==> k in vac;
    }
  }

  // ---------------------------------------------------------------------
  // The overview

  /** The month after `ym`. */
  function NextMonth(ym: YearMonth): (n: YearMonth)
    requires ValidMonth(ym)
    ensures ValidMonth(n) && MonthIndex(n) == MonthIndex(ym) + 1
  {
    if ym.month == 12 then YearMonth(ym.year + 1, 1) else YearMonth(ym.year, ym.month + 1)
  }

  /** Only one valid month directly follows `ym`. */
  lemma NextMonthUnique(ym: YearMonth, n: YearMonth)
    requires ValidMonth(ym) && ValidMonth(n) && MonthIndex(n) == MonthIndex(ym) + 1
    ensures n == NextMonth(ym)
  {
  }

  /** Python's tuple order on `(year, month)`. */
  predicate MonthBefore(a: YearMonth, b: YearMonth) {
    a.year < b.year || (a.year == b.year && a.month < b.month)
  }

  /** `m` is the earliest month of `s`. */
  predicate IsEarliest(m: YearMonth, s: set<YearMonth>) {
    m in s && forall x :: x in s ==> x == m || MonthBefore(m, x)
  }

  /** A non-empty set of months has an earliest one. */
  lemma {:induction false} EarliestExists(s: set<YearMonth>)
    requires s != {}
    ensures exists m :: IsEarliest(m, s)
    decreases |s|
  {
    var y :| y in s;
    var rest := s - {y};
    if rest == {} {
      assert s == {y};
      assert IsEarliest(y, s);
    } else {
      EarliestExists(rest);
      var m :| IsEarliest(m, rest);
      if MonthBefore(y, m) {
        forall x | x in s
          ensures x == y || MonthBefore(y, x)
        {
          if x != y {
            assert x in rest;
          }
        }
        assert IsEarliest(y, s);
      } else {
        assert MonthBefore(m, y) by {
          assert y != m;
        }
        forall x | x in s
          ensures x == m || MonthBefore(m, x)
        {
          if x != y {
            assert x in rest;
          }
        }
        assert IsEarliest(m, s);
      }
    }
  }

  /** `sorted(days_by_month.keys())`. */
  function SortedMonths(s: set<YearMonth>): seq<YearMonth>
    decreases |s|
  {
    if s == {} then []
    else
      EarliestExists(s);
      var m :| IsEarliest(m, s);
      [m] + SortedMonths(s - {m})
  }

  /** The sorted months are the set's months, each once, in tuple order. */
  lemma {:induction false} SortedMonthsAre(s: set<YearMonth>)
    ensures forall x :: x in SortedMonths(s) <==> x in s
    ensures forall i, j :: 0 <= i < j < |SortedMonths(s)| ==> MonthBefore(SortedMonths(s)[i], SortedMonths(s)[j])
    ensures |SortedMonths(s)| == |s|
    decreases |s|
  {
    if s != {} {
      EarliestExists(s);
      var m :| IsEarliest(m, s);
      var rest := SortedMonths(s - {m});
      var r := SortedMonths(s);
      assert r == [m] + rest;
      SortedMonthsAre(s - {m});
      assert |s - {m}| == |s| - 1;
      forall x
        ensures x in r <==> x in s
      {
        assert x in r <==> x == m || x in rest;
      }
      forall i, j | 0 <= i < j < |r|
        ensures MonthBefore(r[i], r[j])
      {
        assert r[j] == rest[j - 1];
        if i == 0 {
          assert r[j] in s - {m};
        } else {
          assert r[i] == rest[i - 1];
        }
      }
    }
  }

  /** The keys of `days_by_month`: the months of the resource's vacations,
      limited to this year and next unless history is shown.  `monthOf` is
      `(date.year, date.month)`. */
  function MonthsWithLeave(vac: VacationTable, rid: int, history: bool, thisYear: int,
                           monthOf: Day -> YearMonth): set<YearMonth>
    requires MinYear <= thisYear < MaxYear
  {
    set k | k in vac && k.0 == rid &&
            (history || MakeDate(thisYear, 1, 1) <= k.1 <= MakeDate(thisYear + 1, 12, 31)) :: monthOf(k.1)
  }

  /** The month boxes `_rebuild_overview` lays out for a resource: the
      months with leave in order, or this month and the next. */
  function ShownMonths(db: Db, r: Resource, history: bool, today: YearMonth, monthOf: Day -> YearMonth): seq<YearMonth>
    requires ValidMonth(today) && MinYear <= today.year < MaxYear
  {
    var withLeave := MonthsWithLeave(db.vacations, r.id, history, today.year, monthOf);
    if withLeave != {} then SortedMonths(withLeave) else [today, NextMonth(today)]
  }

  /** Without leave the overview shows two consecutive months starting at
      today's; with leave it shows each month that has some, once, in
      order. */
  lemma ShownMonthsAre(db: Db, r: Resource, history: bool, today: YearMonth, monthOf: Day -> YearMonth)
    requires ValidMonth(today) && MinYear <= today.year < MaxYear
    ensures MonthsWithLeave(db.vacations, r.id, history, today.year, monthOf) == {} ==>
              ShownMonths(db, r, history, today, monthOf) == [today, NextMonth(today)]
              && MonthIndex(ShownMonths(db, r, history, today, monthOf)[1]) == MonthIndex(today) + 1
    ensures forall x :: x in MonthsWithLeave(db.vacations, r.id, history, today.year, monthOf) ==>
              x in ShownMonths(db, r, history, today, monthOf)
    ensures MonthsWithLeave(db.vacations, r.id, history, today.year, monthOf) != {} ==>
              forall x :: x in ShownMonths(db, r, history, today, monthOf) ==>
                x in MonthsWithLeave(db.vacations, r.id, history, today.year, monthOf)
    ensures forall i, j :: 0 <= i < j < |ShownMonths(db, r, history, today, monthOf)| ==>
              MonthBefore(ShownMonths(db, r, history, today, monthOf)[i], ShownMonths(db, r, history, today, monthOf)[j])
  {
    SortedMonthsAre(MonthsWithLeave(db.vacations, r.id, history, today.year, monthOf));
  }

  const NoResourceStatus := "Er zijn nog geen medewerkers aangemaakt. Ga naar 'Resources en Codes' om medewerkers toe te voegen."
  const NoLeaveStatus := "Er is nog geen verlof ingepland voor deze medewerker."

  /** The status line a rebuild leaves behind. */
  function OverviewStatus(db: Db, selected: Option<Resource>, history: bool, today: YearMonth,
                          monthOf: Day -> YearMonth): string
    requires ValidMonth(today) && MinYear <= today.year < MaxYear
  {
    match selected
    case None => NoResourceStatus
    case Some(r) =>
      if MonthsWithLeave(db.vacations, r.id, history, today.year, monthOf) != {} then "" else NoLeaveStatus
  }

  function OverviewTitle(selected: Option<Resource>, history: bool): string {
    if selected.None? then "Ingepland verlof"
    else if history then "Ingepland verlof (alle jaren)"
    else "Ingepland verlof (huidig + volgend jaar)"
  }

  // ---------------------------------------------------------------------
  // Fixed days text

  /** `WEEKDAY_FULL[w]`, negative indices counting from the end; None is the
      IndexError. */
  function WeekdayName(w: int): (n: Option<string>)
    ensures 0 <= w < 7 ==> n == Some(WeekdayFull[w])
    ensures n.None? <==> w < -7 || w >= 7
  {
    if 0 <= w < 7 then Some(WeekdayFull[w])
    else if -7 <= w < 0 then Some(WeekdayFull[w + 7])
    else None
  }

  /** The weekdays of a resource's fixed-off rows. */
  function FixedWeekdays(rows: seq<FixedOffDay>, rid: int): set<int> {
    set i | 0 <= i < |rows| && rows[i].resourceId == rid :: rows[i].weekday
  }

  /** The members of `s` from lo to hi, ascending. */
  function AscendingIn(s: set<int>, lo: int, hi: int): seq<int>
    decreases hi - lo
  {
    if hi < lo then []
    else AscendingIn(s, lo, hi - 1) + (if hi in s then [hi] else [])
  }

  lemma {:induction false} AscendingInAre(s: set<int>, lo: int, hi: int)
    ensures forall x :: x in AscendingIn(s, lo, hi) <==> x in s && lo <= x <= hi
    ensures forall i, j :: 0 <= i < j < |AscendingIn(s, lo, hi)| ==> AscendingIn(s, lo, hi)[i] < AscendingIn(s, lo, hi)[j]
    decreases hi - lo
  {
    if hi >= lo {
      AscendingInAre(s, lo, hi - 1);
      var prefix := AscendingIn(s, lo, hi - 1);
      var all := AscendingIn(s, lo, hi);
      forall i, j | 0 <= i < j < |all|
        ensures all[i] < all[j]
      {
        if j >= |prefix| {
          assert all[i] == prefix[i] && prefix[i] in prefix;
        } else {
          assert all[i] == prefix[i] && all[j] == prefix[j];
        }
      }
    }
  }

  function NamesOf(ws: seq<int>): seq<string>
    requires forall i :: 0 <= i < |ws| ==> WeekdayName(ws[i]).Some?
  {
    seq(|ws|, i requires 0 <= i < |ws| => WeekdayName(ws[i]).value)
  }

  const FixedDaysPrefix := "Vaste vrije dagen: "

  /** `_resource_fixed_days_text(r)`: the distinct weekdays, ascending, by
      name; `(geen)` without any.  None is the IndexError a weekday outside
      -7..6 raises. */
  function FixedDaysText(rows: seq<FixedOffDay>, rid: int): Option<string> {
    var wds := FixedWeekdays(rows, rid);
    if wds == {} then Some(FixedDaysPrefix + "(geen)")
    else if exists w :: w in wds && WeekdayName(w).None? then None
    else
      var sorted := AscendingIn(wds, -7, 6);
      AscendingInAre(wds, -7, 6);
      Some(FixedDaysPrefix + Join(NamesOf(sorted), ", "))
  }

  /** The text says `(geen)` exactly when the resource has no fixed-off
      row, and a resource whose weekdays are all 0..6 always gets a text. */
  lemma FixedDaysTextIs(rows: seq<FixedOffDay>, rid: int)
    ensures FixedDaysText(rows, rid) == Some(FixedDaysPrefix + "(geen)") <==>
              forall i :: 0 <= i < |rows| ==> rows[i].resourceId != rid
    ensures (forall i :: 0 <= i < |rows| && rows[i].resourceId == rid ==> 0 <= rows[i].weekday < 7) ==>
              FixedDaysText(rows, rid).Some?
  {
    var wds := FixedWeekdays(rows, rid);
    if exists i :: 0 <= i < |rows| && rows[i].resourceId == rid {
      var i :| 0 <= i < |rows| && rows[i].resourceId == rid;
      assert rows[i].weekday in wds;
      if FixedDaysText(rows, rid).Some? {
        NamedDaysNotGeen(wds, rows[i].weekday);
      }
    } else {
      assert wds == {};
    }
  }

  /** A non-empty set of weekdays that all have names is listed by name,
      never as `(geen)`. */
  lemma NamedDaysNotGeen(wds: set<int>, w: int)
    requires w in wds
    requires forall x :: x in wds ==> WeekdayName(x).Some?
    ensures forall i :: 0 <= i < |AscendingIn(wds, -7, 6)| ==> WeekdayName(AscendingIn(wds, -7, 6)[i]).Some?
    ensures FixedDaysPrefix + Join(NamesOf(AscendingIn(wds, -7, 6)), ", ") != FixedDaysPrefix + "(geen)"
  {
    var ws := AscendingIn(wds, -7, 6);
    AscendingInAre(wds, -7, 6);
    WeekdayNameShape(w);
    assert w in ws;
    var names := NamesOf(ws);
    forall k | 0 <= k < |names|
      ensures |names[k]| > 0 && names[k][0] != '('
    {
      WeekdayNameShape(ws[k]);
    }
    JoinNotGeen(names);
    PrefixCancel(FixedDaysPrefix, Join(names, ", "), "(geen)");
  }

  /** The sorted weekdays are the resource's weekdays in -7..6, ascending. */
  lemma FixedWeekdaysSorted(rows: seq<FixedOffDay>, rid: int)
    ensures forall w :: w in AscendingIn(FixedWeekdays(rows, rid), -7, 6) <==>
              -7 <= w < 7 && exists i :: 0 <= i < |rows| && rows[i].resourceId == rid && rows[i].weekday == w
    ensures forall i, j :: 0 <= i < j < |AscendingIn(FixedWeekdays(rows, rid), -7, 6)| ==>
              AscendingIn(FixedWeekdays(rows, rid), -7, 6)[i] < AscendingIn(FixedWeekdays(rows, rid), -7, 6)[j]
  {
    AscendingInAre(FixedWeekdays(rows, rid), -7, 6);
  }

  /** Every weekday name is a non-empty word. */
  lemma WeekdayNameShape(w: int)
    ensures WeekdayName(w).Some? ==> -7 <= w < 7 && |WeekdayName(w).value| > 0 && WeekdayName(w).value[0] != '('
  {
    if WeekdayName(w).Some? {
      var k := if w < 0 then w + 7 else w;
      assert WeekdayName(w).value == WeekdayFull[k];
      assert 0 <= k < 7;
      assert forall j :: 0 <= j < 7 ==> |WeekdayFull[j]| > 0 && WeekdayFull[j][0] != '(';
    }
  }

  /** Equal strings with the same prefix have equal rests. */
  lemma PrefixCancel(p: string, a: string, b: string)
    ensures p + a == p + b ==> a == b
  {
    if p + a == p + b {
      assert a == (p + a)[|p|..];
      assert b == (p + b)[|p|..];
    }
  }

  /** A joined list of words that do not start with `(` does not start with
      `(` either, so it is never `(geen)`. */
  lemma JoinNotGeen(names: seq<string>)
    requires names != []
    requires forall k :: 0 <= k < |names| ==> |names[k]| > 0 && names[k][0] != '('
    ensures Join(names, ", ") != "(geen)"
  {
    if |names| > 1 {
      assert Join(names, ", ")[0] == names[0][0];
    }
  }

  /** Emptying the overview's container box by box and adding the month
      boxes of `shown` in order leaves exactly those boxes. */
  method FillContainer(boxes: seq<YearMonth>, shown: seq<YearMonth>) returns (filled: seq<YearMonth>)
    ensures filled == shown
  {
    filled := boxes;
    while |filled| > 0
      decreases |filled|
    {
      filled := filled[1..];
    }
    for i := 0 to |shown|
      invariant filled == shown[..i]
    {
      filled := filled + [shown[i]];
    }
  }

  // ---------------------------------------------------------------------
  // The tab

  class PlanLeave {
    /** The session's tables. */
    var db: Db
    var readonly: bool
    /** `apply_btn` and `clear_btn` enabled. */
    var buttonsEnabled: bool
    var building: bool
    /** `chk_history`. */
    var history: bool
    var title: string
    var fixedDaysLabel: string
    var status: string
    /** The month boxes in the container, top to bottom. */
    var months: seq<YearMonth>
    /** How often `planning_committed` was emitted. */
    var commits: nat
    /** `(date.year, date.month)`. */
    const monthOf: Day -> YearMonth

    /** A tab is between rebuilds. */
    predicate Valid()
      reads this
    {
      !building
    }

    /** `__init__` up to `_load_initials`: read-only, not building. */
    constructor (db: Db, monthOf: Day -> YearMonth)
      ensures Valid() && readonly && !buttonsEnabled && !history
      ensures this.db == db && this.monthOf == monthOf && months == [] && commits == 0
    {
      this.db := db;
      this.monthOf := monthOf;
      readonly := true;
      buttonsEnabled := false;
      building := false;
      history := false;
      title := "Ingepland verlof (huidig + volgend jaar)";
      fixedDaysLabel := "";
      status := "";
      months := [];
      commits := 0;
    }

    /** `_rebuild_overview`: a call during a rebuild does nothing; otherwise
        the container is emptied and refilled, and `_building` is false
        again however the rebuild ends.  `ok` is false when the fixed-days
        label raised. */
    method RebuildOverview(selected: Option<Resource>, today: YearMonth) returns (ok: bool)
      requires ValidMonth(today) && MinYear <= today.year < MaxYear
      modifies this
      ensures old(building) ==> unchanged(this) && ok
      ensures !old(building) ==> !building
      ensures !old(building) ==>
        title == OverviewTitle(selected, history) && status == OverviewStatus(db, selected, history, today, monthOf)
      ensures !old(building) && selected.None? ==> months == [] && fixedDaysLabel == "" && ok
      ensures !old(building) && selected.Some? ==>
        months == ShownMonths(db, selected.value, history, today, monthOf)
        && ok == FixedDaysText(db.fixedOff, selected.value.id).Some?
        && (ok ==> fixedDaysLabel == FixedDaysText(db.fixedOff, selected.value.id).value)
        && (!ok ==> fixedDaysLabel == old(fixedDaysLabel))
      ensures db == old(db) && readonly == old(readonly) && buttonsEnabled == old(buttonsEnabled)
      ensures history == old(history) && commits == old(commits)
    {
      if building {
        return true;
      }
      building := true;
      ok := true;
      match selected {
        case None =>
          months := FillContainer(months, []);
          title := "Ingepland verlof";
          fixedDaysLabel := "";
          status := NoResourceStatus;
        case Some(r) =>
          title := if history then "Ingepland verlof (alle jaren)" else "Ingepland verlof (huidig + volgend jaar)";
          months := FillContainer(months, ShownMonths(db, r, history, today, monthOf));
          status := if MonthsWithLeave(db.vacations, r.id, history, today.year, monthOf) != {} then "" else NoLeaveStatus;
          var text := FixedDaysText(db.fixedOff, r.id);
          if text.Some? {
            fixedDaysLabel := text.value;
          } else {
            ok := false;
          }
      }
      building := false;
    }

    /** `apply_leave`: for a selected resource and a chosen code, upserts one
        row per working day of the range and commits; `made` counts the
        working days.  A failed commit rolls back and changes nothing. */
    method ApplyLeave(selected: Option<Resource>, from: Day, to: Day, code: Option<string>,
                      commitOk: bool, today: YearMonth) returns (made: nat)
      requires Valid()
      requires ValidMonth(today) && MinYear <= today.year < MaxYear
      modifies this
      ensures Valid()
      ensures selected.None? || code.None? || code == Some("") || !commitOk ==> unchanged(this)
      ensures selected.Some? && code.Some? && code != Some("") ==>
        made == |WorkingDays(old(db), selected.value, SelectedRange(from, to).0, SelectedRange(from, to).1)|
      ensures selected.Some? && code.Some? && code != Some("") && commitOk ==>
        db == old(db).(vacations := LeavePlanned(old(db), selected.value, SelectedRange(from, to).0,
                                                 SelectedRange(from, to).1, code.value))
        && commits == old(commits) + 1
        && months == ShownMonths(db, selected.value, history, today, monthOf)
        && (FixedDaysText(db.fixedOff, selected.value.id).Some? ==>
              status == "Gepland: " + NatToDecimal(made) + " dag(en).")
        && title == OverviewTitle(selected, history)
        && fixedDaysLabel == (if FixedDaysText(db.fixedOff, selected.value.id).Some?
                              then FixedDaysText(db.fixedOff, selected.value.id).value
                              else old(fixedDaysLabel))
      ensures readonly == old(readonly) && history == old(history) && buttonsEnabled == old(buttonsEnabled)
    {
      made := 0;
      if selected.None? || code.None? || code.value == "" {
        return;
      }
      var r, c := selected.value, code.value;
      var range := SelectedRange(from, to);
      var days := DateRange(range.0, range.1);
      var before := db;
      var vac := before.vacations;
      for i := 0 to |days|
        invariant made == |WorkingDays(before, r, range.0, range.0 + i - 1)|
        invariant vac == LeavePlanned(before, r, range.0, range.0 + i - 1, c)
      {
        assert days[i] == range.0 + i;
        if !WorkingDayFor(before, r, days[i]) {
          continue;
        }
        vac := vac[(r.id, days[i]) := c];
        made := made + 1;
      }
      if !commitOk {
        return;
      }
      db := db.(vacations := vac);
      commits := commits + 1;
      ShowAfterCommit(selected, today, "Gepland: " + NatToDecimal(made) + " dag(en).");
    }

    /** The tail both leave actions share after a commit: the overview is
        rebuilt and the status line reports the change, unless the rebuild
        raised in the fixed-days label. */
    method ShowAfterCommit(selected: Option<Resource>, today: YearMonth, message: string)
      requires Valid() && selected.Some?
      requires ValidMonth(today) && MinYear <= today.year < MaxYear
      modifies this
      ensures Valid()
      ensures db == old(db) && commits == old(commits)
      ensures readonly == old(readonly) && history == old(history) && buttonsEnabled == old(buttonsEnabled)
      ensures months == ShownMonths(db, selected.value, history, today, monthOf)
      ensures title == OverviewTitle(selected, history)
      ensures FixedDaysText(db.fixedOff, selected.value.id).Some? ==>
                status == message && fixedDaysLabel == FixedDaysText(db.fixedOff, selected.value.id).value
      ensures FixedDaysText(db.fixedOff, selected.value.id).None? ==> fixedDaysLabel == old(fixedDaysLabel)
    {
      var ok := RebuildOverview(selected, today);
      if ok {
        status := message;
      }
    }

    /** `clear_leave`: for a selected resource, deletes its rows inside the
        range and commits; with nothing in the range only the status line
        changes and no signal is emitted. */
    method ClearLeave(selected: Option<Resource>, from: Day, to: Day, commitOk: bool, today: YearMonth)
      returns (count: nat)
      requires Valid()
      requires ValidMonth(today) && MinYear <= today.year < MaxYear
      modifies this
      ensures Valid()
      ensures selected.None? ==> unchanged(this) && count == 0
      ensures selected.Some? ==>
        count == CountInRange(old(db).vacations, selected.value.id, SelectedRange(from, to).0, SelectedRange(from, to).1)
      ensures selected.Some? && count == 0 ==>
        status == "Niets te verwijderen in de gekozen periode." && db == old(db) && commits == old(commits)
        && months == old(months) && title == old(title) && fixedDaysLabel == old(fixedDaysLabel)
      ensures selected.Some? && count > 0 && !commitOk ==> unchanged(this)
      ensures selected.Some? && count > 0 && commitOk ==>
        db == old(db).(vacations := LeaveRangeCleared(old(db).vacations, selected.value.id,
                                                      SelectedRange(from, to).0, SelectedRange(from, to).1))
        && commits == old(commits) + 1
        && months == ShownMonths(db, selected.value, history, today, monthOf)
        && (FixedDaysText(db.fixedOff, selected.value.id).Some? ==>
              status == "Verwijderd: " + NatToDecimal(count) + " dag(en).")
        && title == OverviewTitle(selected, history)
        && fixedDaysLabel == (if FixedDaysText(db.fixedOff, selected.value.id).Some?
                              then FixedDaysText(db.fixedOff, selected.value.id).value
                              else old(fixedDaysLabel))
      ensures readonly == old(readonly) && history == old(history) && buttonsEnabled == old(buttonsEnabled)
    {
      count := 0;
      if selected.None? {
        return;
      }
      var r := selected.value;
      var range := SelectedRange(from, to);
      count := CountInRange(db.vacations, r.id, range.0, range.1);
      if count == 0 {
        status := "Niets te verwijderen in de gekozen periode.";
        return;
      }
      if !commitOk {
        return;
      }
      db := db.(vacations := LeaveRangeCleared(db.vacations, r.id, range.0, range.1));
      commits := commits + 1;
      ShowAfterCommit(selected, today, "Verwijderd: " + NatToDecimal(count) + " dag(en).");
    }

    /** `set_readonly`: both buttons follow the flag. */
    method SetReadonly(ro: bool)
      modifies this
      ensures readonly == ro && buttonsEnabled == !ro
      ensures db == old(db) && building == old(building) && months == old(months) && status == old(status)
      ensures commits == old(commits) && history == old(history) && title == old(title)
      ensures fixedDaysLabel == old(fixedDaysLabel)
    {
      readonly := ro;
      buttonsEnabled := !ro;
    }

    /** `refresh_if_readonly`: only a read-only tab rebuilds, and its
        overview then shows what `_rebuild_overview` shows. */
    method RefreshIfReadonly(selected: Option<Resource>, today: YearMonth)
      requires Valid()
      requires ValidMonth(today) && MinYear <= today.year < MaxYear
      modifies this
      ensures Valid()
      ensures !old(readonly) ==> unchanged(this)
      ensures old(readonly) ==>
        title == OverviewTitle(selected, history) && status == OverviewStatus(db, selected, history, today, monthOf)
      ensures old(readonly) && selected.None? ==> months == [] && fixedDaysLabel == ""
      ensures old(readonly) && selected.Some? ==>
        months == ShownMonths(db, selected.value, history, today, monthOf)
        && fixedDaysLabel == (if FixedDaysText(db.fixedOff, selected.value.id).Some?
                              then FixedDaysText(db.fixedOff, selected.value.id).value
                              else old(fixedDaysLabel))
      ensures db == old(db) && readonly == old(readonly) && commits == old(commits)
      ensures history == old(history) && buttonsEnabled == old(buttonsEnabled)
    {
      if readonly {
        var _ := RebuildOverview(selected, today);
      }
    }
  }

}

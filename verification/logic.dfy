/** The scheduling rules of logic.py over the tables of one database:
    weekends, the minimal holiday list, leave ranges, fixed days off with
    their one-off exceptions, and presence per role. */
module Logic {
  import opened Wrappers
  import opened Strs
  import opened Calendar
  import opened Models

  /** `is_weekend(d)`: Saturday or Sunday. */
  function IsWeekend(d: Day): (b: bool)
    ensures b <==> Weekday(d) == 5 || Weekday(d) == Sunday
  {
    Weekday(d) >= 5
  }

  /** Weekends repeat every seven days, and of two consecutive days at
      least one is a working day unless they are Saturday and Sunday. */
  lemma WeekendsRepeatWeekly(d: Day)
    ensures IsWeekend(d + 7) == IsWeekend(d)
    ensures IsWeekend(d) && IsWeekend(d + 1) ==> Weekday(d) == 5
  {
  }

  // ---------------------------------------------------------------------
  // The minimal holiday list of ensure_public_holidays

  /** The four dates `ensure_public_holidays` writes; King's Day is always
      27 April here (unlike `_koningsdag` in db_init.py). */
  function BaseHolidays(year: int): (h: HolidayTable)
    requires MinYear <= year <= MaxYear
    ensures |h.Keys| == 4
    ensures forall d :: d in h ==> InYear(d, year)
  {
    DateInYear(year, 1, 1);
    DateInYear(year, 4, 27);
    DateInYear(year, 12, 25);
    DateInYear(year, 12, 26);
    map[MakeDate(year, 1, 1) := "Nieuwjaarsdag", MakeDate(year, 4, 27) := "Koningsdag",
        MakeDate(year, 12, 25) := "Eerste Kerstdag", MakeDate(year, 12, 26) := "Tweede Kerstdag"]
  }

  predicate HasHolidayIn(h: HolidayTable, year: int)
    requires MinYear <= year <= MaxYear
  {
    exists d :: d in h && InYear(d, year)
  }

  /** `ensure_public_holidays(session, year)`: a year that already has a
      holiday is left alone; otherwise the four base dates are added. */
  function EnsurePublicHolidays(h: HolidayTable, year: int): (r: HolidayTable)
    requires MinYear <= year <= MaxYear
    ensures HasHolidayIn(h, year) ==> r == h
    ensures HasHolidayIn(r, year)
    ensures forall d :: d in h ==> d in r && r[d] == h[d]
    ensures forall d :: d in r && d !in h ==> InYear(d, year) && d in BaseHolidays(year)
  {
    if HasHolidayIn(h, year) then h
    else
      var base := BaseHolidays(year);
      assert MakeDate(year, 1, 1) in base;
      h + base
  }

  /** For a year without holidays the result is the old table plus exactly
      the four named base dates, none of which it held before. */
  lemma EnsurePublicHolidaysFreshYear(h: HolidayTable, year: int)
    requires MinYear <= year <= MaxYear && !HasHolidayIn(h, year)
    ensures var r := EnsurePublicHolidays(h, year);
            |r.Keys| == |h.Keys| + 4
            && (forall d :: d in r <==> d in h || d in BaseHolidays(year))
            && r[MakeDate(year, 1, 1)] == "Nieuwjaarsdag"
            && r[MakeDate(year, 4, 27)] == "Koningsdag"
            && r[MakeDate(year, 12, 25)] == "Eerste Kerstdag"
            && r[MakeDate(year, 12, 26)] == "Tweede Kerstdag"
  {
    var base := BaseHolidays(year);
    BaseHolidayNames(year);
    assert EnsurePublicHolidays(h, year) == h + base;
    assert h.Keys * base.Keys == {} by {
      forall d | d in base.Keys
        ensures d !in h.Keys
      {
        assert InYear(d, year);
      }
    }
  }

  /** Each base date carries its holiday's name. */
  lemma BaseHolidayNames(year: int)
    requires MinYear <= year <= MaxYear
    ensures var base := BaseHolidays(year);
            base[MakeDate(year, 1, 1)] == "Nieuwjaarsdag"
            && base[MakeDate(year, 4, 27)] == "Koningsdag"
            && base[MakeDate(year, 12, 25)] == "Eerste Kerstdag"
            && base[MakeDate(year, 12, 26)] == "Tweede Kerstdag"
  {
    var a, b, c, d := MakeDate(year, 1, 1), MakeDate(year, 4, 27), MakeDate(year, 12, 25), MakeDate(year, 12, 26);
    assert a < b < c < d;
  }

  /** A second call for the same year changes nothing. */
  lemma EnsurePublicHolidaysIdempotent(h: HolidayTable, year: int)
    requires MinYear <= year <= MaxYear
    ensures EnsurePublicHolidays(EnsurePublicHolidays(h, year), year) == EnsurePublicHolidays(h, year)
  {
  }

  // ---------------------------------------------------------------------
  // Leave ranges

  /** The vacation keys `set_leave_range` and `clear_leave_range` touch. */
  predicate InRange(k: (int, Day), rid: int, start: Day, end: Day) {
    k.0 == rid && start <= k.1 <= end
  }

  /** The table after `set_leave_range`: inside the range exactly the
      weekdays carry `code`; everything else is as before. */
  function LeaveRangeSet(vac: VacationTable, rid: int, start: Day, end: Day, code: string): (r: VacationTable)
    ensures forall k :: InRange(k, rid, start, end) ==> (k in r <==> !IsWeekend(k.1))
    ensures forall k :: k in r && InRange(k, rid, start, end) ==> r[k] == code
    ensures forall k :: !InRange(k, rid, start, end) ==> (k in r <==> k in vac)
    ensures forall k :: k in r && !InRange(k, rid, start, end) ==> r[k] == vac[k]
  {
    var kept := map k | k in vac && !InRange(k, rid, start, end) :: vac[k];
    var added := map d | start <= d <= end && !IsWeekend(d) :: (rid, d) := code;
    kept + added
  }

  /** The table after `clear_leave_range`: nothing of the resource inside
      the range, everything else as before. */
  function LeaveRangeCleared(vac: VacationTable, rid: int, start: Day, end: Day): (r: VacationTable)
    ensures forall k :: k in r <==> k in vac && !InRange(k, rid, start, end)
    ensures forall k :: k in r ==> r[k] == vac[k]
  {
    map k | k in vac && !InRange(k, rid, start, end) :: vac[k]
  }

  /** `set_leave_range`: delete the resource's rows in the range, then add
      one row per weekday, walking the range a day at a time. */
  method SetLeaveRange(vac: VacationTable, rid: int, start: Day, end: Day, code: string)
    returns (r: VacationTable)
    ensures r == LeaveRangeSet(vac, rid, start, end, code)
  {
    r := map k | k in vac && !InRange(k, rid, start, end) :: vac[k];
    ghost var stop := if end < start then start else end + 1;
    var cur := start;
    while cur <= end
      invariant start <= cur <= stop
      invariant forall k :: InRange(k, rid, start, end) && k.1 < cur ==> (k in r <==> !IsWeekend(k.1))
      invariant forall k :: InRange(k, rid, start, end) && k.1 >= cur ==> k !in r
      invariant forall k :: k in r && InRange(k, rid, start, end) ==> r[k] == code
      invariant forall k :: !InRange(k, rid, start, end) ==> (k in r <==> k in vac)
      invariant forall k :: k in r && !InRange(k, rid, start, end) ==> r[k] == vac[k]
    {
      if Weekday(cur) < 5 {
        r := r[(rid, cur) := code];
      }
      cur := cur + 1;
    }
    SameLeaveTables(r, LeaveRangeSet(vac, rid, start, end, code), vac, rid, start, end, code);
  }

  /** Two tables that agree with `vac` outside the range and hold `code` on
      exactly the weekdays inside it are the same table. */
  lemma SameLeaveTables(a: VacationTable, b: VacationTable, vac: VacationTable,
                        rid: int, start: Day, end: Day, code: string)
    requires forall k :: InRange(k, rid, start, end) ==> (k in a <==> !IsWeekend(k.1)) && (k in b <==> !IsWeekend(k.1))
    requires forall k :: k in a && InRange(k, rid, start, end) ==> a[k] == code
    requires forall k :: k in b && InRange(k, rid, start, end) ==> b[k] == code
    requires forall k :: !InRange(k, rid, start, end) ==> (k in a <==> k in vac) && (k in b <==> k in vac)
    requires forall k :: k in a && !InRange(k, rid, start, end) ==> a[k] == vac[k]
    requires forall k :: k in b && !InRange(k, rid, start, end) ==> b[k] == vac[k]
    ensures a == b
  {
    assert forall k :: k in a <==> k in b;
    assert forall k :: k in a ==> a[k] == b[k];
  }

  /** `clear_leave_range`: deletes the resource's row for each day of the
      range in turn. */
  method ClearLeaveRange(vac: VacationTable, rid: int, start: Day, end: Day) returns (r: VacationTable)
    ensures r == LeaveRangeCleared(vac, rid, start, end)
  {
    r := vac;
    ghost var stop := if end < start then start else end + 1;
    var cur := start;
    while cur <= end
      invariant start <= cur <= stop
      invariant forall k :: k in r <==> k in vac && !(InRange(k, rid, start, end) && k.1 < cur)
      invariant forall k :: k in r ==> r[k] == vac[k]
    {
      r := r - {(rid, cur)};
      cur := cur + 1;
    }
    assert forall k :: k in r <==> k in LeaveRangeCleared(vac, rid, start, end);
  }

  /** Planning the same range twice is planning it once. */
  lemma SetLeaveIdempotent(vac: VacationTable, rid: int, start: Day, end: Day, code: string)
    ensures LeaveRangeSet(LeaveRangeSet(vac, rid, start, end, code), rid, start, end, code)
         == LeaveRangeSet(vac, rid, start, end, code)
  {
    var once := LeaveRangeSet(vac, rid, start, end, code);
    SameLeaveTables(LeaveRangeSet(once, rid, start, end, code), once, vac, rid, start, end, code);
  }

  /** Clearing a range removes whatever planning it had: clearing after
      planning is clearing, and planning after clearing is planning. */
  lemma ClearUndoesSet(vac: VacationTable, rid: int, start: Day, end: Day, code: string)
    ensures LeaveRangeCleared(LeaveRangeSet(vac, rid, start, end, code), rid, start, end)
         == LeaveRangeCleared(vac, rid, start, end)
    ensures LeaveRangeSet(LeaveRangeCleared(vac, rid, start, end), rid, start, end, code)
         == LeaveRangeSet(vac, rid, start, end, code)
  {
    var set1 := LeaveRangeSet(vac, rid, start, end, code);
    var c1 := LeaveRangeCleared(set1, rid, start, end);
    var c0 := LeaveRangeCleared(vac, rid, start, end);
    assert forall k :: k in c1 <==> k in c0;
    assert c1 == c0;
    SameLeaveTables(LeaveRangeSet(c0, rid, start, end, code), set1, vac, rid, start, end, code);
  }

  // ---------------------------------------------------------------------
  // Fixed days off

  /** `fixed_off_lookup(resource_id, session)(d)`: some weekly row of the
      resource is on d's weekday.  The schema has no effective_from or
      effective_to column, so `getattr` finds None and every row applies
      whatever the date. */
  method FixedOffLookup(rows: seq<FixedOffDay>, rid: int, d: Day) returns (fixed: bool)
    ensures fixed <==> exists i :: 0 <= i < |rows| && rows[i].resourceId == rid && rows[i].weekday == Weekday(d)
  {
    var wd := Weekday(d);
    for i := 0 to |rows|
      invariant forall j :: 0 <= j < i ==> !(rows[j].resourceId == rid && rows[j].weekday == wd)
    {
      if rows[i].resourceId == rid && rows[i].weekday == wd {
        return true;
      }
    }
    return false;
  }

  /** The weekly rows of a resource on a weekday, in table order. */
  function RowsOn(rows: seq<FixedOffDay>, rid: int, wd: int): (m: seq<FixedOffDay>)
    ensures |m| <= |rows|
  {
    if rows == [] then []
    else
      var rest := RowsOn(rows[1..], rid, wd);
      if rows[0].resourceId == rid && rows[0].weekday == wd then [rows[0]] + rest else rest
  }

  /** The selected rows are exactly the table's rows of that resource on
      that weekday. */
  lemma {:induction false} RowsOnMembers(rows: seq<FixedOffDay>, rid: int, wd: int)
    ensures forall i :: 0 <= i < |RowsOn(rows, rid, wd)| ==>
              RowsOn(rows, rid, wd)[i].resourceId == rid && RowsOn(rows, rid, wd)[i].weekday == wd
              && RowsOn(rows, rid, wd)[i] in rows
    ensures forall i :: 0 <= i < |rows| && rows[i].resourceId == rid && rows[i].weekday == wd ==>
              rows[i] in RowsOn(rows, rid, wd)
  {
    if rows != [] {
      RowsOnMembers(rows[1..], rid, wd);
      var m := RowsOn(rows, rid, wd);
      var rest := RowsOn(rows[1..], rid, wd);
      forall i | 0 <= i < |rows| && rows[i].resourceId == rid && rows[i].weekday == wd
        ensures rows[i] in m
      {
        if i > 0 {
          assert rows[i] == rows[1..][i - 1];
        }
      }
      forall i | 0 <= i < |m|
        ensures m[i].resourceId == rid && m[i].weekday == wd && m[i] in rows
      {
        if rows[0].resourceId == rid && rows[0].weekday == wd && i > 0 {
          assert m[i] == rest[i - 1];
        }
      }
    }
  }

  /** The weekly rows of every other resource, in table order: what is left
      after deleting a resource's rows. */
  function RowsNotOf(rows: seq<FixedOffDay>, rid: int): (m: seq<FixedOffDay>)
    ensures forall i :: 0 <= i < |m| ==> m[i].resourceId != rid && m[i] in rows
    ensures forall f :: f in rows && f.resourceId != rid ==> f in m
  {
    if rows == [] then []
    else
      var rest := RowsNotOf(rows[1..], rid);
      if rows[0].resourceId != rid then [rows[0]] + rest else rest
  }

  /** Selecting rows distributes over concatenation. */
  lemma {:induction false} RowsOnConcat(a: seq<FixedOffDay>, b: seq<FixedOffDay>, rid: int, wd: int)
    ensures RowsOn(a + b, rid, wd) == RowsOn(a, rid, wd) + RowsOn(b, rid, wd)
  {
    if a != [] {
      assert (a + b)[1..] == a[1..] + b;
      RowsOnConcat(a[1..], b, rid, wd);
    } else {
      assert a + b == b;
    }
  }

  /** Deleting one resource's rows leaves the rows of every other resource
      as they were, and none of its own. */
  lemma {:induction false} RowsOnNotOf(rows: seq<FixedOffDay>, rid: int, other: int, wd: int)
    ensures other != rid ==> RowsOn(RowsNotOf(rows, rid), other, wd) == RowsOn(rows, other, wd)
    ensures RowsOn(RowsNotOf(rows, rid), rid, wd) == []
  {
    if rows != [] {
      RowsOnNotOf(rows[1..], rid, other, wd);
      var rest := RowsNotOf(rows[1..], rid);
      if rows[0].resourceId != rid {
        assert ([rows[0]] + rest)[1..] == rest;
      }
    }
  }

  /** `one_or_none()` on more than one row raises MultipleResultsFound. */
  datatype LogicError = MultipleResultsFound

  /** A fixed-off effect: the code (None when there is none) and the part
      of the day it takes. */
  datatype Effect = Effect(code: Option<string>, fraction: real)

  const NoEffect := Effect(None, 0.0)

  /** The fraction `fixed_off_weekly_for` uses for a row: the stored value
      when truthy, else 1.0 for FULL and 0.5 for anything else. */
  function WeeklyFraction(f: FixedOffDay): (x: real)
    ensures f.absenceFraction.Some? && f.absenceFraction.value != 0.0 ==> x == f.absenceFraction.value
    ensures (f.absenceFraction.None? || f.absenceFraction.value == 0.0) && Upper(OrElse(f.part, "FULL")) == "FULL" ==> x == 1.0
    ensures (f.absenceFraction.None? || f.absenceFraction.value == 0.0) && Upper(OrElse(f.part, "FULL")) != "FULL" ==> x == 0.5
  {
    RealOrElse(f.absenceFraction, if Upper(OrElse(f.part, "FULL")) == "FULL" then 1.0 else 0.5)
  }

  /** `fixed_off_weekly_for(session, resource_id, d)`. */
  function FixedOffWeeklyFor(rows: seq<FixedOffDay>, rid: int, d: Day): Result<Effect, LogicError> {
    if Weekday(d) >= 5 then Success(NoEffect)
    else
      var found := RowsOn(rows, rid, Weekday(d));
      if |found| > 1 then Failure(MultipleResultsFound)
      else if found == [] then Success(NoEffect)
      else
        var part := Upper(OrElse(found[0].part, "FULL"));
        Success(Effect(Some(PartCode(part)), RealOrElse(found[0].absenceFraction, if part == "FULL" then 1.0 else 0.5)))
  }

  /** No effect on a weekend or without a row; an error with two or more
      rows for the weekday; otherwise the row's own code (as
      `FixedOffDay.code` gives it) and its fraction. */
  lemma FixedOffWeeklyCases(rows: seq<FixedOffDay>, rid: int, d: Day)
    ensures IsWeekend(d) ==> FixedOffWeeklyFor(rows, rid, d) == Success(NoEffect)
    ensures !IsWeekend(d) && |RowsOn(rows, rid, Weekday(d))| > 1 ==> FixedOffWeeklyFor(rows, rid, d) == Failure(MultipleResultsFound)
    ensures !IsWeekend(d) && RowsOn(rows, rid, Weekday(d)) == [] ==> FixedOffWeeklyFor(rows, rid, d) == Success(NoEffect)
    ensures !IsWeekend(d) && |RowsOn(rows, rid, Weekday(d))| == 1 ==>
              var f := RowsOn(rows, rid, Weekday(d))[0];
              FixedOffWeeklyFor(rows, rid, d) == Success(Effect(Some(FixedOffCode(f)), WeeklyFraction(f)))
    ensures var r := FixedOffWeeklyFor(rows, rid, d);
            r.Success? && r.value.code.Some? ==> r.value.code.value in {"VV", "VO", "VM"}
  {
  }

  /** The upper-cased part of an exception, a missing or empty one being
      NONE. */
  function ExceptionPart(part: Option<string>): string {
    Upper(OrElse(part, "NONE"))
  }

  /** `fixed_off_effect_for(session, resource_id, d)`: an exception for the
      day overrides the weekly pattern; NONE cancels it, FULL takes the
      whole day, and any other part half of it. */
  function FixedOffEffectFor(db: Db, rid: int, d: Day): Result<Effect, LogicError> {
    if (rid, d) in db.exceptions then
      var p := ExceptionPart(db.exceptions[(rid, d)]);
      if p == "NONE" then Success(NoEffect)
      else Success(Effect(Some(PartCode(p)), if p == "FULL" then 1.0 else 0.5))
    else FixedOffWeeklyFor(db.fixedOff, rid, d)
  }

  /** The exception's part decides when there is one: NONE gives no
      effect, FULL the whole day as VV, AM and PM half a day as VO and VM;
      without an exception the weekly pattern decides. */
  lemma FixedOffEffectCases(db: Db, rid: int, d: Day)
    ensures (rid, d) in db.exceptions && ExceptionPart(db.exceptions[(rid, d)]) == "NONE" ==> FixedOffEffectFor(db, rid, d) == Success(NoEffect)
    ensures (rid, d) in db.exceptions && ExceptionPart(db.exceptions[(rid, d)]) == "FULL" ==> FixedOffEffectFor(db, rid, d) == Success(Effect(Some("VV"), 1.0))
    ensures (rid, d) in db.exceptions && ExceptionPart(db.exceptions[(rid, d)]) == "AM" ==> FixedOffEffectFor(db, rid, d) == Success(Effect(Some("VO"), 0.5))
    ensures (rid, d) in db.exceptions && ExceptionPart(db.exceptions[(rid, d)]) == "PM" ==> FixedOffEffectFor(db, rid, d) == Success(Effect(Some("VM"), 0.5))
    ensures (rid, d) !in db.exceptions ==> FixedOffEffectFor(db, rid, d) == FixedOffWeeklyFor(db.fixedOff, rid, d)
  {
  }

  /** With an exception on the day, the weekly rows do not matter at all,
      not even when there are several for the weekday. */
  lemma ExceptionOverridesPattern(db: Db, rows: seq<FixedOffDay>, rid: int, d: Day)
    requires (rid, d) in db.exceptions
    ensures FixedOffEffectFor(db, rid, d) == FixedOffEffectFor(db.(fixedOff := rows), rid, d)
    ensures FixedOffEffectFor(db, rid, d).Success?
  {
  }

  // ---------------------------------------------------------------------
  // Presence per role

  const NoRole := "(zonder rol)"

  /** The `(absent, fraction)` pair `presence_count` reads for a code: a
      missing fraction is 1.0 for an absent code and 0.0 otherwise. */
  function CodeAbsence(c: LeaveCode): (p: (bool, real))
    ensures p.0 <==> c.countsAsAbsent == Some(true)
    ensures c.absenceFraction.Some? ==> p.1 == c.absenceFraction.value
  {
    var absent := c.countsAsAbsent == Some(true);
    (absent, if c.absenceFraction.Some? then c.absenceFraction.value else if absent then 1.0 else 0.0)
  }

  /** The leave `presence_count` subtracts for a resource on a day. */
  function LeaveTaken(db: Db, rid: int, d: Day): real {
    if (rid, d) in db.vacations && db.vacations[(rid, d)] != "" then
      var c := db.vacations[(rid, d)];
      var p := if c in db.codes then CodeAbsence(db.codes[c]) else (false, 0.0);
      if p.0 then p.1 else 0.0
    else 0.0
  }

  function Max0(x: real): (r: real)
    ensures r >= 0.0 && r >= x && (r == x || r == 0.0)
  {
    if x < 0.0 then 0.0 else x
  }

  /** One resource's presence in `presence_count`: 1 minus its leave and
      its fixed-off fraction, never below 0. */
  function ResourcePresence(db: Db, r: Resource, d: Day): (p: Result<real, LogicError>)
    ensures p.Success? ==> p.value >= 0.0
  {
    match FixedOffEffectFor(db, r.id, d)
    case Failure(e) => Failure(e)
    case Success(e) =>
      var fixed := if e.code.Some? && e.code.value != "" then e.fraction else 0.0;
      Success(Max0(1.0 - LeaveTaken(db, r.id, d) - fixed))
  }

  /** A resource's presence is 1 minus its leave and its fixed-off
      fraction, floored at 0, and it fails exactly when the fixed-off
      effect cannot be resolved. */
  lemma ResourcePresenceIs(db: Db, r: Resource, d: Day)
    ensures ResourcePresence(db, r, d).Success? <==> FixedOffEffectFor(db, r.id, d).Success?
    ensures ResourcePresence(db, r, d).Success? ==>
              var e := FixedOffEffectFor(db, r.id, d).value;
              ResourcePresence(db, r, d).value
              == Max0(1.0 - LeaveTaken(db, r.id, d) - (if e.code.Some? && e.code.value != "" then e.fraction else 0.0))
  {
  }

  /** Every stored fraction is non-negative (the values the forms write are
      0, 0.5 and 1). */
  predicate NonNegativeFractions(db: Db) {
    (forall c :: c in db.codes && db.codes[c].absenceFraction.Some? ==> db.codes[c].absenceFraction.value >= 0.0)
    && (forall i :: 0 <= i < |db.fixedOff| && db.fixedOff[i].absenceFraction.Some? ==> db.fixedOff[i].absenceFraction.value >= 0.0)
  }

  /** With non-negative fractions nobody counts for more than one person. */
  lemma PresenceAtMostOne(db: Db, r: Resource, d: Day)
    requires NonNegativeFractions(db)
    requires ResourcePresence(db, r, d).Success?
    ensures ResourcePresence(db, r, d).value <= 1.0
  {
    ResourcePresenceIs(db, r, d);
    var e := FixedOffEffectFor(db, r.id, d).value;
    if (r.id, d) !in db.exceptions && !IsWeekend(d) {
      var found := RowsOn(db.fixedOff, r.id, Weekday(d));
      if |found| == 1 {
        var f := found[0];
        RowsOnMembers(db.fixedOff, r.id, Weekday(d));
        assert f in db.fixedOff;
        var i :| 0 <= i < |db.fixedOff| && db.fixedOff[i] == f;
        assert e.fraction == WeeklyFraction(f);
      }
    }
    assert e.fraction >= 0.0;
    assert LeaveTaken(db, r.id, d) >= 0.0;
  }

  /** The name a resource is counted under. */
  function RoleNameOf(db: Db, r: Resource): string {
    if r.roleId in db.roles then db.roles[r.roleId].name else NoRole
  }

  function RoleNames(roles: map<int, Role>): (names: set<string>)
    ensures forall id :: id in roles ==> roles[id].name in names
  {
    set id | id in roles :: roles[id].name
  }

  /** The counts `presence_count` starts from: 0 for every role and for
      "(zonder rol)". */
  function InitialCounts(roles: map<int, Role>): (out: map<string, real>)
    ensures out.Keys == RoleNames(roles) + {NoRole}
    ensures forall n :: n in out ==> out[n] == 0.0
  {
    map n | n in RoleNames(roles) + {NoRole} :: 0.0
  }

  /** `presence_count` over the first resources of the table. */
  function PresenceOver(db: Db, d: Day, rs: seq<Resource>): Result<map<string, real>, LogicError> {
    if rs == [] then Success(InitialCounts(db.roles))
    else
      var last := rs[|rs| - 1];
      AddTo(PresenceOver(db, d, rs[..|rs| - 1]), ResourcePresence(db, last, d), RoleNameOf(db, last))
  }

  /** `out[n] = out.get(n, 0.0) + p`, passing on a failure of either side. */
  function AddTo(acc: Result<map<string, real>, LogicError>, p: Result<real, LogicError>, n: string)
    : Result<map<string, real>, LogicError>
  {
    match acc
    case Failure(e) => Failure(e)
    case Success(out) =>
      match p
      case Failure(e) => Failure(e)
      case Success(x) => Success(out[n := (if n in out then out[n] else 0.0) + x])
  }

  /** The counts have a key for every role name and for "(zonder rol)" and
      no other, and no count is negative. */
  lemma {:induction false} PresenceShape(db: Db, d: Day, rs: seq<Resource>)
    requires PresenceOver(db, d, rs).Success?
    ensures PresenceOver(db, d, rs).value.Keys == RoleNames(db.roles) + {NoRole}
    ensures forall n :: n in PresenceOver(db, d, rs).value ==> PresenceOver(db, d, rs).value[n] >= 0.0
  {
    if rs != [] {
      PresenceShape(db, d, rs[..|rs| - 1]);
      var last := rs[|rs| - 1];
      assert RoleNameOf(db, last) in RoleNames(db.roles) + {NoRole};
    }
  }

  /** How many of the resources are counted under a name. */
  function CountUnder(db: Db, rs: seq<Resource>, n: string): (c: nat)
    ensures c <= |rs|
  {
    if rs == [] then 0
    else CountUnder(db, rs[..|rs| - 1], n) + (if RoleNameOf(db, rs[|rs| - 1]) == n then 1 else 0)
  }

  /** A name's count is at most the number of resources counted under it,
      so a role never shows more people than it has. */
  lemma {:induction false} PresenceBounded(db: Db, d: Day, rs: seq<Resource>, n: string)
    requires NonNegativeFractions(db)
    requires PresenceOver(db, d, rs).Success? && n in PresenceOver(db, d, rs).value
    ensures PresenceOver(db, d, rs).value[n] <= CountUnder(db, rs, n) as real
  {
    if rs != [] {
      var init := rs[..|rs| - 1];
      PresenceShape(db, d, rs);
      PresenceShape(db, d, init);
      PresenceBounded(db, d, init, n);
      PresenceAtMostOne(db, rs[|rs| - 1], d);
    }
  }

  /** Once one resource's fixed days cannot be resolved, the whole count
      fails. */
  lemma {:induction false} FailureSpreads(db: Db, d: Day, rs: seq<Resource>, i: nat)
    requires i <= |rs| && PresenceOver(db, d, rs[..i]).Failure?
    ensures PresenceOver(db, d, rs) == Failure(MultipleResultsFound)
    decreases |rs| - i
  {
    if i < |rs| {
      assert rs[..i + 1][..i] == rs[..i];
      FailureSpreads(db, d, rs, i + 1);
    } else {
      assert rs[..i] == rs;
      assert PresenceOver(db, d, rs).error.MultipleResultsFound?;
    }
  }

  /** One more resource in `PresenceOver`. */
  lemma PresenceStep(db: Db, d: Day, rs: seq<Resource>, i: nat)
    requires i < |rs|
    ensures PresenceOver(db, d, rs[..i + 1])
         == AddTo(PresenceOver(db, d, rs[..i]), ResourcePresence(db, rs[i], d), RoleNameOf(db, rs[i]))
  {
    var s := rs[..i + 1];
    assert s[..|s| - 1] == rs[..i];
  }

  /** `presence_count(d, session)`: accumulates each resource's presence
      under its role's name. */
  method PresenceCount(db: Db, d: Day) returns (r: Result<map<string, real>, LogicError>)
    ensures r == PresenceOver(db, d, db.resources)
  {
    var out := InitialCounts(db.roles);
    var i := 0;
    while i < |db.resources|
      invariant 0 <= i <= |db.resources|
      invariant PresenceOver(db, d, db.resources[..i]) == Success(out)
    {
      var next := AddPresence(db, d, db.resources, i, out);
      if next.Failure? {
        FailureSpreads(db, d, db.resources, i + 1);
        return Failure(MultipleResultsFound);
      }
      out := next.value;
      i := i + 1;
    }
    assert db.resources[..i] == db.resources;
    r := Success(out);
  }

  /** The body of `presence_count`'s loop for the resource at index i. */
  method AddPresence(db: Db, d: Day, rs: seq<Resource>, i: nat, out: map<string, real>)
    returns (next: Result<map<string, real>, LogicError>)
    requires i < |rs| && PresenceOver(db, d, rs[..i]) == Success(out)
    ensures next == PresenceOver(db, d, rs[..i + 1])
  {
    var res := rs[i];
    var p := ResourcePresence(db, res, d);
    next := AddTo(Success(out), p, RoleNameOf(db, res));
    PresenceStep(db, d, rs, i);
  }

  /** One role's warning from `check_min_max`. */
  datatype Issue = BelowMin(present: real, minimum: int) | AboveMax(present: real, maximum: int)

  /** Role names are unique (the schema's unique constraint). */
  predicate UniqueRoleNames(roles: map<int, Role>) {
    forall a, b :: a in roles && b in roles && roles[a].name == roles[b].name ==> a == b
  }

  /** A role's warning, if any: below the minimum first, then above the
      maximum. */
  function RoleIssue(role: Role, present: map<string, real>): (i: Option<Issue>)
    ensures var n := if role.name in present then present[role.name] else 0.0;
            (i.Some? <==> n < role.minRequiredPerDay as real || n > role.maxAllowedPerDay as real)
            && (i.Some? && i.value.BelowMin? <==> n < role.minRequiredPerDay as real)
  {
    var n := if role.name in present then present[role.name] else 0.0;
    if n < role.minRequiredPerDay as real then Some(BelowMin(n, role.minRequiredPerDay))
    else if n > role.maxAllowedPerDay as real then Some(AboveMax(n, role.maxAllowedPerDay))
    else None
  }

  /** `check_min_max(day, session)`: the roles whose presence is outside
      their bounds, by name. */
  function CheckMinMax(db: Db, d: Day): (r: Result<map<string, Issue>, LogicError>)
    requires UniqueRoleNames(db.roles)
    ensures r.Success? <==> PresenceOver(db, d, db.resources).Success?
    ensures r.Success? ==> forall id :: id in db.roles ==>
              (db.roles[id].name in r.value <==> RoleIssue(db.roles[id], PresenceOver(db, d, db.resources).value).Some?)
    ensures r.Success? ==> forall id :: id in db.roles && db.roles[id].name in r.value ==>
              r.value[db.roles[id].name] == RoleIssue(db.roles[id], PresenceOver(db, d, db.resources).value).value
    ensures r.Success? ==> r.value.Keys <= RoleNames(db.roles)
  {
    match PresenceOver(db, d, db.resources)
    case Failure(e) => Failure(e)
    case Success(present) =>
      Success(map id | id in db.roles && RoleIssue(db.roles[id], present).Some?
                :: db.roles[id].name := RoleIssue(db.roles[id], present).value)
  }

  // ---------------------------------------------------------------------
  // Half-day fractions

  /** What one weekly row adds in `absence_fraction_for_day`: the stored
      fraction when positive, else 1.0 for FULL and 0.5 otherwise. */
  function RowAbsence(f: FixedOffDay): (x: real)
    ensures x > 0.0
  {
    if f.absenceFraction.Some? && f.absenceFraction.value > 0.0 then f.absenceFraction.value
    else if Upper(OrElse(f.part, "FULL")) == "FULL" then 1.0 else 0.5
  }

  function SumAbsence(rows: seq<FixedOffDay>): (t: real)
    ensures t >= 0.0
    ensures rows != [] ==> t > 0.0
  {
    if rows == [] then 0.0 else SumAbsence(rows[..|rows| - 1]) + RowAbsence(rows[|rows| - 1])
  }

  /** The planned leave `absence_fraction_for_day` counts: the code's
      fraction, 1.0 when that is missing or zero, for an absent code. */
  function PlannedAbsence(db: Db, rid: int, d: Day): real {
    if (rid, d) in db.vacations && db.vacations[(rid, d)] in db.codes
       && db.codes[db.vacations[(rid, d)]].countsAsAbsent == Some(true)
    then RealOrElse(db.codes[db.vacations[(rid, d)]].absenceFraction, 1.0)
    else 0.0
  }

  function Clamp01(x: real): (r: real)
    ensures 0.0 <= r <= 1.0
    ensures 0.0 <= x <= 1.0 ==> r == x
  {
    if x > 1.0 then 1.0 else if x < 0.0 then 0.0 else x
  }

  /** The value `absence_fraction_for_day` computes. */
  function AbsenceFraction(db: Db, res: Resource, d: Day): (a: real)
    ensures 0.0 <= a <= 1.0
    ensures !IsWeekend(d) && RowsOn(db.fixedOff, res.id, Weekday(d)) != [] && PlannedAbsence(db, res.id, d) >= 0.0 ==> a > 0.0
  {
    var planned := PlannedAbsence(db, res.id, d);
    var fixed := if Weekday(d) < 5 then SumAbsence(RowsOn(db.fixedOff, res.id, Weekday(d))) else 0.0;
    Clamp01(planned + fixed)
  }

  /** `absence_fraction_for_day(session, resource, d)`: the planned leave
      plus every weekly row on a weekday, clamped to [0, 1]. */
  method AbsenceFractionForDay(db: Db, res: Resource, d: Day) returns (total: real)
    ensures total == AbsenceFraction(db, res, d)
    ensures 0.0 <= total <= 1.0
  {
    total := PlannedAbsence(db, res.id, d);
    if Weekday(d) < 5 {
      var fods := RowsOn(db.fixedOff, res.id, Weekday(d));
      for i := 0 to |fods|
        invariant total == PlannedAbsence(db, res.id, d) + SumAbsence(fods[..i])
      {
        assert fods[..i + 1][..i] == fods[..i];
        total := total + RowAbsence(fods[i]);
      }
      assert fods[..|fods|] == fods;
    }
    total := Clamp01(total);
  }

  /** `present_fraction_for_day`: 1 minus the absence, so within [0, 1]. */
  method PresentFractionForDay(db: Db, res: Resource, d: Day) returns (p: real)
    ensures p == 1.0 - AbsenceFraction(db, res, d)
    ensures 0.0 <= p <= 1.0
  {
    var a := AbsenceFractionForDay(db, res, d);
    p := 1.0 - a;
  }

  /** `role_presence_for_date` over the first resources: the summed
      presence per role id. */
  function RolePresenceOver(db: Db, rs: seq<Resource>, d: Day): map<int, real> {
    if rs == [] then map[]
    else
      var prev := RolePresenceOver(db, rs[..|rs| - 1], d);
      AddToRole(prev, rs[|rs| - 1].roleId, 1.0 - AbsenceFraction(db, rs[|rs| - 1], d))
  }

  /** `per_role[id] = per_role.get(id, 0.0) + x`. */
  function AddToRole(m: map<int, real>, id: int, x: real): map<int, real> {
    m[id := (if id in m then m[id] else 0.0) + x]
  }

  /** There is a sum for exactly the roles of the given resources, and each
      lies between 0 and the number of resources. */
  lemma {:induction false} RolePresenceShape(db: Db, rs: seq<Resource>, d: Day)
    ensures forall id :: id in RolePresenceOver(db, rs, d) <==> exists i :: 0 <= i < |rs| && rs[i].roleId == id
    ensures forall id :: id in RolePresenceOver(db, rs, d) ==> 0.0 <= RolePresenceOver(db, rs, d)[id] <= |rs| as real
  {
    if rs != [] {
      var init := rs[..|rs| - 1];
      RolePresenceShape(db, init, d);
      assert forall j :: 0 <= j < |rs| - 1 ==> init[j] == rs[j];
    }
  }

  /** One more resource in `RolePresenceOver`. */
  lemma RolePresenceStep(db: Db, rs: seq<Resource>, i: nat, d: Day)
    requires i < |rs|
    ensures RolePresenceOver(db, rs[..i + 1], d)
         == AddToRole(RolePresenceOver(db, rs[..i], d), rs[i].roleId, 1.0 - AbsenceFraction(db, rs[i], d))
  {
    var s := rs[..i + 1];
    assert s[..|s| - 1] == rs[..i];
    assert s[|s| - 1] == rs[i];
  }

  /** `role_presence_for_date(session, resources, d)`; `role_id` is NOT
      NULL in the schema, so no resource is skipped. */
  method RolePresenceForDate(db: Db, resources: seq<Resource>, d: Day) returns (perRole: map<int, real>)
    ensures perRole == RolePresenceOver(db, resources, d)
  {
    perRole := map[];
    for i := 0 to |resources|
      invariant perRole == RolePresenceOver(db, resources[..i], d)
    {
      perRole := AddRolePresence(db, resources, i, d, perRole);
    }
    assert resources[..|resources|] == resources;
  }

  /** The body of `role_presence_for_date`'s loop for the resource at
      index i. */
  method AddRolePresence(db: Db, rs: seq<Resource>, i: nat, d: Day, perRole: map<int, real>)
    returns (next: map<int, real>)
    requires i < |rs| && perRole == RolePresenceOver(db, rs[..i], d)
    ensures next == RolePresenceOver(db, rs[..i + 1], d)
  {
    var val := PresentFractionForDay(db, rs[i], d);
    RolePresenceStep(db, rs, i, d);
    next := AddToRole(perRole, rs[i].roleId, val);
  }

  /** The two presence rules disagree on a code that counts as absent with
      fraction 0: `presence_count` keeps the person fully present, the
      half-day rule counts them fully absent. */
  lemma PresenceRulesDisagree(db: Db, r: Resource, d: Day)
    requires (r.id, d) in db.vacations && db.vacations[(r.id, d)] == "X"
    requires "X" in db.codes && db.codes["X"].countsAsAbsent == Some(true) && db.codes["X"].absenceFraction == Some(0.0)
    requires (r.id, d) !in db.exceptions && (IsWeekend(d) || RowsOn(db.fixedOff, r.id, Weekday(d)) == [])
    ensures ResourcePresence(db, r, d) == Success(1.0)
    ensures AbsenceFraction(db, r, d) == 1.0
  {
    FixedOffWeeklyCases(db.fixedOff, r.id, d);
  }
}

/** The Dutch public-holiday calendar and the seeding done at start-up
    (db_init.py). */
module DbInit {
  import opened Wrappers
  import opened Calendar
  import opened Models

  /** The intermediate quantities of the Meeus/Jones/Butcher algorithm, with
      Python's floor division and modulo (they agree with Dafny's for the
      positive divisors used here). */
  function EasterH(year: int): int
    requires year >= 1
  {
    var a := year % 19;
    var b := year / 100;
    var d := b / 4;
    var f := (b + 8) / 25;
    var g := (b - f + 1) / 3;
    (19 * a + b - d - g + 15) % 30
  }

  function EasterL(year: int): int
    requires year >= 1
  {
    var b := year / 100;
    var c := year % 100;
    var e := b % 4;
    var i := c / 4;
    var k := c % 4;
    (32 + 2 * e + 2 * i - EasterH(year) - k) % 7
  }

  function EasterM(year: int): int
    requires year >= 1
  {
    (year % 19 + 11 * EasterH(year) + 22 * EasterL(year)) / 451
  }

  /** `h + l - 7m`: the number of days from 22 March to Easter. */
  function EasterOffset(year: int): int
    requires year >= 1
  {
    EasterH(year) + EasterL(year) - 7 * EasterM(year)
  }

  /** The month and day `_easter_sunday` passes to `date(...)`. */
  function EasterMonthDay(year: int): (int, int)
    requires year >= 1
  {
    var n := EasterOffset(year) + 114;
    (n / 31, 1 + n % 31)
  }

  /** `_easter_sunday(year)`. */
  function EasterSunday(year: int): (day: Day)
    requires MinYear <= year <= MaxYear
    ensures MakeDate(year, 3, 22) <= day <= MakeDate(year, 4, 25)
    ensures Weekday(day) == Sunday
  {
    EasterFacts(year);
    var (month, dayOfMonth) := EasterMonthDay(year);
    MakeDate(year, month, dayOfMonth)
  }

  /** The algorithm's month and day form a real date 0..34 days after 22 March,
      and that date is a Sunday. */
  lemma EasterFacts(year: int)
    requires MinYear <= year <= MaxYear
    ensures 0 <= EasterOffset(year) <= 34
    ensures ValidDate(year, EasterMonthDay(year).0, EasterMonthDay(year).1)
    ensures MakeDate(year, EasterMonthDay(year).0, EasterMonthDay(year).1) == MakeDate(year, 3, 22) + EasterOffset(year)
    ensures Weekday(MakeDate(year, 3, 22) + EasterOffset(year)) == Sunday
  {
    EasterOffsetRange(year);
    var n := EasterOffset(year);
    if n <= 9 {
      DivExact(n + 114, 31, 3, n + 21);
    } else {
      DivExact(n + 114, 31, 4, n - 10);
    }
    EasterIsSunday(year);
  }

  lemma EasterOffsetRange(year: int)
    requires year >= 1
    ensures 0 <= EasterOffset(year) <= 34
  {
    var a := year % 19;
    var h := EasterH(year);
    var l := EasterL(year);
    var m := EasterM(year);
    assert 0 <= a < 19 && 0 <= h < 30 && 0 <= l < 7;
    var s := a + 11 * h + 22 * l;
    assert 451 * m <= s < 451 * (m + 1);
    assert s < 902;
    assert 0 <= m <= 1;
    if m == 1 {
      assert h + 2 * l >= 40;
    } else {
      assert h + l <= 34;
    }
  }

  /** 22 March of `year` plus `h + l - 7m` is a multiple of seven, i.e. a
      Sunday: the weekday of 22 March is `3 + 5e + 5i + k` modulo 7, and `l`
      is chosen to make the sum with `h` vanish. */
  lemma EasterIsSunday(year: int)
    requires MinYear <= year <= MaxYear
    ensures Weekday(MakeDate(year, 3, 22) + EasterOffset(year)) == Sunday
  {
    var b, c := year / 100, year % 100;
    var h, l, m := EasterH(year), EasterL(year), EasterM(year);
    var t := EasterLQuotient(year);
    DaysBeforeEquinoxWindow(year);
    CenturySplit(year);
    var q4, q100, q400 := year / 4, year / 100, year / 400;
    SundayArithmetic(year, b, c / 4, c % 4, b / 4, b % 4, h, l, t, m, q4, q100, q400);
    assert MakeDate(year, 3, 22) + EasterOffset(year)
           == 365 * (year - 1) + q4 - q100 + q400 + 81 + h + l - 7 * m;
  }

  /** `l` is its defining sum less a multiple of seven. */
  lemma EasterLQuotient(year: int) returns (t: int)
    requires year >= 1
    ensures EasterL(year) == 32 + 2 * ((year / 100) % 4) + 2 * ((year % 100) / 4) - EasterH(year) - (year % 100) % 4 - 7 * t
  {
    var x := 32 + 2 * ((year / 100) % 4) + 2 * ((year % 100) / 4) - EasterH(year) - (year % 100) % 4;
    t := x / 7;
    assert EasterL(year) == x % 7;
  }

  /** 22 March is day 81 of the year plus the leap day, so its ordinal is a
      sum of floor quotients of `year` itself. */
  lemma DaysBeforeEquinoxWindow(year: int)
    requires MinYear <= year <= MaxYear
    ensures MakeDate(year, 3, 22) == 365 * (year - 1) + year / 4 - year / 100 + year / 400 + 81
  {
    QuotientStep(year, 4);
    QuotientStep(year, 100);
    QuotientStep(year, 400);
  }

  /** The quotients by 4 and 400 in terms of century and year of century. */
  lemma CenturySplit(year: int)
    requires year >= 1
    ensures year == 100 * (year / 100) + 4 * ((year % 100) / 4) + (year % 100) % 4
    ensures year / 100 == 4 * ((year / 100) / 4) + (year / 100) % 4
    ensures year / 4 == 25 * (year / 100) + (year % 100) / 4
    ensures year / 400 == (year / 100) / 4
  {
    var b, c := year / 100, year % 100;
    var i, k := c / 4, c % 4;
    var d, e := b / 4, b % 4;
    DivExact(year, 4, 25 * b + i, k);
    DivExact(year, 400, d, 100 * e + c);
  }

  lemma SundayArithmetic(year: int, b: int, i: int, k: int, d: int, e: int, h: int, l: int, t: int, m: int,
                         q4: int, q100: int, q400: int)
    requires year == 100 * b + 4 * i + k && b == 4 * d + e
    requires q4 == 25 * b + i && q100 == b && q400 == d
    requires l == 32 + 2 * e + 2 * i - h - k - 7 * t
    ensures (365 * (year - 1) + q4 - q100 + q400 + 81 + h + l - 7 * m + 6) % 7 == 6
  {
    var total := 365 * (year - 1) + q4 - q100 + q400 + 81 + h + l - 7 * m;
    var q := 20871 * d + 5218 * e + 209 * i + 52 * k - 36 - t - m;
    assert total == 7 * q;
    DivExact(total + 6, 7, q, 6);
  }

  /** `_koningsdag(year)`: 27 April, moved to the Saturday before when it
      falls on a Sunday. */
  function Koningsdag(year: int): (day: Day)
    requires MinYear <= year <= MaxYear
    ensures day == MakeDate(year, 4, 27) || day == MakeDate(year, 4, 26)
    ensures day == MakeDate(year, 4, 26) <==> Weekday(MakeDate(year, 4, 27)) == Sunday
    ensures Weekday(day) != Sunday
  {
    var d := MakeDate(year, 4, 27);
    if Weekday(d) == Sunday then MakeDate(year, 4, 26) else d
  }

  /** `nl_holidays_for_year(year)`: eleven (date, name) pairs. */
  function NlHolidaysForYear(year: int): (res: seq<(Day, string)>)
    requires MinYear <= year <= MaxYear
    ensures |res| == 11
  {
    var easter := EasterSunday(year);
    [ (MakeDate(year, 1, 1), "Nieuwjaarsdag"),
      (MakeDate(year, 12, 25), "Eerste Kerstdag"),
      (MakeDate(year, 12, 26), "Tweede Kerstdag"),
      (Koningsdag(year), "Koningsdag"),
      (easter - 2, "Goede Vrijdag"),
      (easter, "Eerste Paasdag"),
      (easter + 1, "Tweede Paasdag"),
      (easter + 39, "Hemelvaartsdag"),
      (easter + 49, "Eerste Pinksterdag"),
      (easter + 50, "Tweede Pinksterdag"),
      (MakeDate(year, 5, 5), "Bevrijdingsdag") ]
  }

  /** Every holiday of the list lies in the year asked for, and the Easter
      cycle sits at -2, 0, +1, +39, +49 and +50 days from Easter Sunday. */
  lemma HolidaysInYear(year: int)
    requires MinYear <= year <= MaxYear
    ensures forall k :: 0 <= k < 11 ==> InYear(NlHolidaysForYear(year)[k].0, year)
    ensures var res, easter := NlHolidaysForYear(year), EasterSunday(year);
            res[4].0 == easter - 2 && res[5].0 == easter && res[6].0 == easter + 1
            && res[7].0 == easter + 39 && res[8].0 == easter + 49 && res[9].0 == easter + 50
    ensures Weekday(NlHolidaysForYear(year)[5].0) == Sunday
  {
    var easter := EasterSunday(year);
    // Easter lies between 22 March and 25 April, so the whole cycle lies
    // between 20 March and 14 June.
    assert MakeDate(year, 3, 20) == MakeDate(year, 3, 22) - 2;
    assert MakeDate(year, 6, 14) == MakeDate(year, 4, 25) + 50;
    DateInYear(year, 3, 20);
    DateInYear(year, 6, 14);
    DateInYear(year, 4, 26);
    DateInYear(year, 4, 27);
  }

  /** The list can name one date twice: in 2016 Ascension Day fell on 5 May,
      Liberation Day. */
  lemma HolidayListRepeatsADate()
    ensures NlHolidaysForYear(2016)[7].0 == NlHolidaysForYear(2016)[10].0
  {
    Easter2016();
    assert MakeDate(2016, 3, 27) + 39 == MakeDate(2016, 5, 5);
  }

  /** Easter 2016 fell on 27 March. */
  lemma Easter2016()
    ensures EasterSunday(2016) == MakeDate(2016, 3, 27)
  {
    assert EasterH(2016) == 2;
    assert EasterL(2016) == 3;
    assert EasterM(2016) == 0;
    assert EasterMonthDay(2016) == (3, 27);
  }

  /** The dates a holiday list names. */
  function DatesOf(entries: seq<(Day, string)>): (dates: set<Day>)
    ensures forall k :: 0 <= k < |entries| ==> entries[k].0 in dates
  {
    if entries == [] then {}
    else DatesOf(entries[..|entries| - 1]) + {entries[|entries| - 1].0}
  }

  /** Every date `nl_holidays_for_year` names for the years first..last. */
  function HolidayDates(first: int, last: int): set<Day>
    requires MinYear <= first && (last < first || last <= MaxYear)
    decreases last - first
  {
    if last < first then {} else HolidayDates(first, last - 1) + DatesOf(NlHolidaysForYear(last))
  }

  /** No date occurs twice in a list of rows. */
  predicate DistinctDates(rows: seq<(Day, string)>) {
    forall p, q :: 0 <= p < q < |rows| ==> rows[p].0 != rows[q].0
  }

  lemma DatesOfAppend(rows: seq<(Day, string)>, row: (Day, string))
    ensures DatesOf(rows + [row]) == DatesOf(rows) + {row.0}
  {
    assert (rows + [row])[..|rows|] == rows;
  }

  lemma DatesOfPrefix(rows: seq<(Day, string)>, j: int)
    requires 0 <= j < |rows|
    ensures DatesOf(rows[..j + 1]) == DatesOf(rows[..j]) + {rows[j].0}
  {
    assert rows[..j + 1] == rows[..j] + [rows[j]];
    DatesOfAppend(rows[..j], rows[j]);
  }

  lemma DistinctAppend(rows: seq<(Day, string)>, row: (Day, string))
    requires DistinctDates(rows) && row.0 !in DatesOf(rows)
    ensures DistinctDates(rows + [row])
  {
  }

  /** The rows seeding adds from `entries`, walked in order, when the dates
      `seen` are already present: each entry whose date is neither seen nor
      taken by an earlier entry, so a date listed twice keeps its first
      name. */
  function NewRows(entries: seq<(Day, string)>, seen: set<Day>): seq<(Day, string)> {
    if entries == [] then []
    else
      var prefix := entries[..|entries| - 1];
      var row := entries[|entries| - 1];
      NewRows(prefix, seen) + (if row.0 in seen + DatesOf(prefix) then [] else [row])
  }

  /** `nl_holidays_for_year` for the years `first..last`, one after another. */
  function HolidayList(first: int, last: int): seq<(Day, string)>
    requires MinYear <= first && (last < first || last <= MaxYear)
    decreases last - first
  {
    if last < first then [] else HolidayList(first, last - 1) + NlHolidaysForYear(last)
  }

  lemma {:induction false} DatesOfConcat(a: seq<(Day, string)>, b: seq<(Day, string)>)
    ensures DatesOf(a + b) == DatesOf(a) + DatesOf(b)
    decreases |b|
  {
    if b == [] {
      assert a + b == a;
    } else {
      assert (a + b)[..|a + b| - 1] == a + b[..|b| - 1];
      DatesOfConcat(a, b[..|b| - 1]);
    }
  }

  /** Seeding two lists one after the other adds what seeding the first
      adds, then what seeding the second adds on top of the first's dates. */
  lemma {:induction false} NewRowsConcat(a: seq<(Day, string)>, b: seq<(Day, string)>, seen: set<Day>)
    ensures NewRows(a + b, seen) == NewRows(a, seen) + NewRows(b, seen + DatesOf(a))
    decreases |b|
  {
    if b == [] {
      assert a + b == a;
    } else {
      var b' := b[..|b| - 1];
      assert (a + b)[..|a + b| - 1] == a + b';
      NewRowsConcat(a, b', seen);
      DatesOfConcat(a, b');
    }
  }

  /** The dates of the holiday list are the holiday dates of the range. */
  lemma {:induction false} HolidayListDates(first: int, last: int)
    requires MinYear <= first && first - 1 <= last <= MaxYear
    ensures DatesOf(HolidayList(first, last)) == HolidayDates(first, last)
    decreases last - first
  {
    if last < first {
      NoYearsNoList(first, last);
      NoYearsNoDates(first, last);
    } else {
      HolidayListDates(first, last - 1);
      HolidayListDatesStep(first, last);
    }
  }

  lemma HolidayListDatesStep(first: int, last: int)
    requires MinYear <= first <= last <= MaxYear
    requires DatesOf(HolidayList(first, last - 1)) == HolidayDates(first, last - 1)
    ensures DatesOf(HolidayList(first, last)) == HolidayDates(first, last)
  {
    var earlier, year := HolidayList(first, last - 1), NlHolidaysForYear(last);
    assert HolidayList(first, last) == earlier + year;
    DatesOfConcat(earlier, year);
  }

  /** One more year of seeding extends the rows by what that year's list
      adds on top of the dates already seen. */
  lemma SeedListStep(existing: set<Day>, first: int, y: int)
    requires MinYear <= first <= y <= MaxYear
    ensures NewRows(HolidayList(first, y), existing)
            == NewRows(HolidayList(first, y - 1), existing)
               + NewRows(NlHolidaysForYear(y), existing + DatesOf(HolidayList(first, y - 1)))
    ensures DatesOf(HolidayList(first, y)) == DatesOf(HolidayList(first, y - 1)) + DatesOf(NlHolidaysForYear(y))
  {
    NewRowsConcat(HolidayList(first, y - 1), NlHolidaysForYear(y), existing);
    DatesOfConcat(HolidayList(first, y - 1), NlHolidaysForYear(y));
  }

  lemma NewRowsPrefix(entries: seq<(Day, string)>, j: int, seen: set<Day>)
    requires 0 <= j < |entries|
    ensures NewRows(entries[..j + 1], seen)
            == NewRows(entries[..j], seen) + (if entries[j].0 in seen + DatesOf(entries[..j]) then [] else [entries[j]])
  {
    assert entries[..j + 1][..j] == entries[..j];
  }

  /** A list of rows with no dates is empty. */
  lemma NoDatesNoRows(rows: seq<(Day, string)>)
    requires DatesOf(rows) == {}
    ensures rows == []
  {
  }

  /** The inner loop of `seed_public_holidays` over one list: the rows
      whose date is not yet `seen`, each added once. */
  method SeedEntries(entries: seq<(Day, string)>, existing: set<Day>, seen0: set<Day>, toAdd0: seq<(Day, string)>)
    returns (seen: set<Day>, toAdd: seq<(Day, string)>)
    requires seen0 == existing + DatesOf(toAdd0) && DatesOf(toAdd0) !! existing && DistinctDates(toAdd0)
    ensures seen == existing + DatesOf(toAdd) && DatesOf(toAdd) !! existing && DistinctDates(toAdd)
    ensures DatesOf(toAdd) == (DatesOf(toAdd0) + DatesOf(entries)) - existing
    ensures toAdd == toAdd0 + NewRows(entries, seen0) && seen == seen0 + DatesOf(entries)
  {
    seen, toAdd := seen0, toAdd0;
    var j := 0;
    while j < |entries|
      invariant 0 <= j <= |entries|
      invariant toAdd == toAdd0 + NewRows(entries[..j], seen0) && seen == seen0 + DatesOf(entries[..j])
    {
      var (d, name) := entries[j];
      DatesOfPrefix(entries, j);
      NewRowsPrefix(entries, j, seen0);
      if d !in seen {
        toAdd := toAdd + [(d, name)];
        seen := seen + {d};
      }
      j := j + 1;
    }
    assert entries[..j] == entries;
    SeedEntriesDone(entries, existing, seen0, toAdd0);
  }

  /** What seeding one list adds keeps the rows distinct and new. */
  lemma SeedEntriesDone(entries: seq<(Day, string)>, existing: set<Day>, seen0: set<Day>, toAdd0: seq<(Day, string)>)
    requires seen0 == existing + DatesOf(toAdd0) && DatesOf(toAdd0) !! existing && DistinctDates(toAdd0)
    ensures var toAdd := toAdd0 + NewRows(entries, seen0);
            seen0 + DatesOf(entries) == existing + DatesOf(toAdd) && DatesOf(toAdd) !! existing && DistinctDates(toAdd)
            && DatesOf(toAdd) == (DatesOf(toAdd0) + DatesOf(entries)) - existing
  {
    var added := NewRows(entries, seen0);
    NewRowsDates(entries, seen0);
    NewRowsDistinct(entries, seen0);
    DatesOfConcat(toAdd0, added);
    DistinctConcat(toAdd0, added);
  }

  /** The rows seeding adds carry exactly the dates of the list not yet
      seen. */
  lemma {:induction false} NewRowsDates(entries: seq<(Day, string)>, seen: set<Day>)
    ensures DatesOf(NewRows(entries, seen)) == DatesOf(entries) - seen
    decreases |entries|
  {
    if entries != [] {
      var prefix := entries[..|entries| - 1];
      var row := entries[|entries| - 1];
      assert DatesOf(entries) == DatesOf(prefix) + {row.0};
      NewRowsDates(prefix, seen);
      if row.0 !in seen + DatesOf(prefix) {
        assert NewRows(entries, seen) == NewRows(prefix, seen) + [row];
        DatesOfAppend(NewRows(prefix, seen), row);
      } else {
        assert NewRows(entries, seen) == NewRows(prefix, seen);
      }
    }
  }

  /** No date occurs twice among the rows seeding adds. */
  lemma {:induction false} NewRowsDistinct(entries: seq<(Day, string)>, seen: set<Day>)
    ensures DistinctDates(NewRows(entries, seen))
    decreases |entries|
  {
    if entries != [] {
      var prefix := entries[..|entries| - 1];
      var row := entries[|entries| - 1];
      NewRowsDistinct(prefix, seen);
      if row.0 !in seen + DatesOf(prefix) {
        NewRowsDates(prefix, seen);
        assert NewRows(entries, seen) == NewRows(prefix, seen) + [row];
        DistinctAppend(NewRows(prefix, seen), row);
      } else {
        assert NewRows(entries, seen) == NewRows(prefix, seen);
      }
    }
  }

  lemma DistinctConcat(a: seq<(Day, string)>, b: seq<(Day, string)>)
    requires DistinctDates(a) && DistinctDates(b) && DatesOf(a) !! DatesOf(b)
    ensures DistinctDates(a + b)
  {
    forall p, q | 0 <= p < q < |a + b|
      ensures (a + b)[p].0 != (a + b)[q].0
    {
      if q >= |a| && p < |a| {
        assert a[p].0 in DatesOf(a);
        assert b[q - |a|].0 in DatesOf(b);
      }
    }
  }

  /** One pass of the outer loop: year `y`'s holidays, seeded on top of the
      years `first..y-1`. */
  method SeedYear(y: int, existing: set<Day>, seen0: set<Day>, toAdd0: seq<(Day, string)>, ghost first: int)
    returns (seen: set<Day>, toAdd: seq<(Day, string)>)
    requires MinYear <= first <= y <= MaxYear
    requires seen0 == existing + DatesOf(toAdd0) && DatesOf(toAdd0) !! existing && DistinctDates(toAdd0)
    requires DatesOf(toAdd0) == HolidayDates(first, y - 1) - existing
    ensures seen == existing + DatesOf(toAdd) && DatesOf(toAdd) !! existing && DistinctDates(toAdd)
    ensures DatesOf(toAdd) == HolidayDates(first, y) - existing
    requires toAdd0 == NewRows(HolidayList(first, y - 1), existing)
    ensures toAdd == NewRows(HolidayList(first, y), existing)
  {
    HolidayListDates(first, y - 1);
    assert seen0 == existing + DatesOf(HolidayList(first, y - 1));
    seen, toAdd := SeedEntries(NlHolidaysForYear(y), existing, seen0, toAdd0);
    SeedStep(existing, first, y, DatesOf(toAdd0), DatesOf(toAdd));
    SeedListStep(existing, first, y);
  }

  /** One more year of seeding extends the range by that year's dates. */
  lemma SeedStep(existing: set<Day>, first: int, y: int, before: set<Day>, after: set<Day>)
    requires MinYear <= first <= y <= MaxYear
    requires before == HolidayDates(first, y - 1) - existing
    requires after == (before + DatesOf(NlHolidaysForYear(y))) - existing
    ensures after == HolidayDates(first, y) - existing
  {
  }

  /** When the loop over the years stops, the whole range has been seeded. */
  lemma SeedDone(existing: set<Day>, first: int, last: int, y: int, added: set<Day>)
    requires MinYear <= first && last <= MaxYear
    requires first <= y <= (if last < first then first else last + 1) && last < y
    requires added == HolidayDates(first, y - 1) - existing
    ensures added == HolidayDates(first, last) - existing
  {
    if last < first {
      NoYearsNoDates(first, last);
      NoYearsNoDates(first, y - 1);
    } else {
      LastYearReached(existing, first, last, y, added);
    }
  }

  /** An empty range of years names no dates. */
  lemma NoYearsNoDates(first: int, last: int)
    requires MinYear <= first && last < first
    ensures HolidayDates(first, last) == {}
  {
  }

  lemma LastYearReached(existing: set<Day>, first: int, last: int, y: int, added: set<Day>)
    requires MinYear <= first <= last <= MaxYear && y == last + 1
    requires added == HolidayDates(first, y - 1) - existing
    ensures added == HolidayDates(first, last) - existing
  {
  }

  /** The rows `seed_public_holidays(first, last)` adds to a table that
      already holds the dates `existing`, in the order it adds them. */
  method SeedPublicHolidays(existing: set<Day>, first: int, last: int) returns (toAdd: seq<(Day, string)>)
    requires MinYear <= first && last <= MaxYear
    ensures DistinctDates(toAdd)
    ensures DatesOf(toAdd) == HolidayDates(first, last) - existing
    ensures toAdd == NewRows(HolidayList(first, last), existing)
  {
    var seen := existing;
    toAdd := [];
    var y := first;
    ghost var stop := if last < first then first else last + 1;
    while y <= last
      invariant first <= y <= stop
      invariant seen == existing + DatesOf(toAdd) && DatesOf(toAdd) !! existing && DistinctDates(toAdd)
      invariant DatesOf(toAdd) == HolidayDates(first, y - 1) - existing
      invariant toAdd == NewRows(HolidayList(first, y - 1), existing)
    {
      seen, toAdd := SeedYear(y, existing, seen, toAdd, first);
      y := y + 1;
    }
    SeedRangeDone(existing, first, last, y, toAdd);
  }

  /** The exit of the year loop: what was seeded up to `y - 1` is what the
      whole range seeds. */
  lemma SeedRangeDone(existing: set<Day>, first: int, last: int, y: int, toAdd: seq<(Day, string)>)
    requires MinYear <= first && last <= MaxYear
    requires first <= y <= (if last < first then first else last + 1) && last < y
    requires DatesOf(toAdd) == HolidayDates(first, y - 1) - existing
    requires toAdd == NewRows(HolidayList(first, y - 1), existing)
    ensures DatesOf(toAdd) == HolidayDates(first, last) - existing
    ensures toAdd == NewRows(HolidayList(first, last), existing)
  {
    SeedDone(existing, first, last, y, DatesOf(toAdd));
    HolidayListDone(first, last, y);
  }

  /** When the loop over the years stops, the list walked is the whole
      range's. */
  lemma {:induction false} HolidayListDone(first: int, last: int, y: int)
    requires MinYear <= first && last <= MaxYear
    requires first <= y <= (if last < first then first else last + 1) && last < y
    ensures HolidayList(first, y - 1) == HolidayList(first, last)
  {
    if last < first {
      NoYearsNoList(first, y - 1);
      NoYearsNoList(first, last);
    } else {
      LastYearListed(first, last, y);
    }
  }

  lemma LastYearListed(first: int, last: int, y: int)
    requires MinYear <= first <= last <= MaxYear && y == last + 1
    ensures HolidayList(first, y - 1) == HolidayList(first, last)
  {
    var prev := y - 1;
    assert prev == last;
  }

  lemma NoYearsNoList(first: int, last: int)
    requires MinYear <= first && last < first
    ensures HolidayList(first, last) == []
  {
  }

  /** Seeding twice adds nothing the second time. */
  method SeedTwice(existing: set<Day>, first: int, last: int) returns (again: seq<(Day, string)>)
    requires MinYear <= first && last <= MaxYear
    ensures again == []
  {
    var toAdd := SeedPublicHolidays(existing, first, last);
    again := SeedPublicHolidays(existing + DatesOf(toAdd), first, last);
    NoDatesNoRows(again);
  }

  /** `ensure_code(...)` inside `init_db`: adds the code only when it is
      missing and never overwrites a row. */
  function EnsureCode(codes: CodeTable, code: string, labelText: string, color: string,
                      counts: bool, frac: real): (r: CodeTable)
    ensures r.Keys == codes.Keys + {code}
    ensures forall c :: c in codes ==> r[c] == codes[c]
    ensures code !in codes ==> r[code] == LeaveCode(code, labelText, color, Some(counts), Some(frac))
  {
    if code in codes then codes
    else codes[code := LeaveCode(code, labelText, color, Some(counts), Some(frac))]
  }

  /** Every code a weekly fixed day off maps to exists after seeding, and
      one seeded afresh is absent for the part's share of the day: the
      whole day for FULL, half for AM and PM. */
  lemma SeededCodesCoverParts(codes: CodeTable, part: string)
    ensures PartCode(part) in SeedCodes(codes)
    ensures PartCode(part) !in codes ==>
              SeedCodes(codes)[PartCode(part)].countsAsAbsent == Some(true)
              && SeedCodes(codes)[PartCode(part)].absenceFraction
                 == Some(if part == "AM" || part == "PM" then 0.5 else 1.0)
  {
  }

  /** The three fixed-off codes `init_db` guarantees. */
  function SeedCodes(codes: CodeTable): (r: CodeTable)
    ensures "VV" in r && "VO" in r && "VM" in r
    ensures forall c :: c in codes ==> c in r && r[c] == codes[c]
    ensures r.Keys == codes.Keys + {"VV", "VO", "VM"}
    ensures "VV" !in codes ==> r["VV"] == LeaveCode("VV", "Vaste vrije dag (hele dag)", "#c0c0c0", Some(true), Some(1.0))
    ensures "VO" !in codes ==> r["VO"] == LeaveCode("VO", "Vaste vrije dag (ochtend)", "#b0e0ff", Some(true), Some(0.5))
    ensures "VM" !in codes ==> r["VM"] == LeaveCode("VM", "Vaste vrije dag (middag)", "#ffd0b0", Some(true), Some(0.5))
  {
    var r1 := EnsureCode(codes, "VV", "Vaste vrije dag (hele dag)", "#c0c0c0", true, 1.0);
    var r2 := EnsureCode(r1, "VO", "Vaste vrije dag (ochtend)", "#b0e0ff", true, 0.5);
    EnsureCode(r2, "VM", "Vaste vrije dag (middag)", "#ffd0b0", true, 0.5)
  }
}

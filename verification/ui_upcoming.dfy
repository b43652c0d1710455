/** The upcoming-months view (ui_upcoming.py): a title and, starting at the
    current month, one captioned month grid per month. */
module Upcoming {
  import opened Strs
  import opened Calendar
  import opened Models
  import opened YearView

  /** `MONTHS`: the Dutch month names, index 0 unused. */
  const MonthNames: seq<string> :=
    ["", "Januari", "Februari", "Maart", "April", "Mei", "Juni",
     "Juli", "Augustus", "September", "Oktober", "November", "December"]

  /** `max(1, int(months))`: the number of months shown. */
  function MonthCount(months: int): (n: nat)
    ensures n >= 1 && n >= months
    ensures n == months || n == 1
  {
    if months < 1 then 1 else months
  }

  /** `yy` and `real_m` for offset `i` from the month `start`. */
  function MonthAt(start: YearMonth, i: nat): (ym: YearMonth)
    requires ValidMonth(start)
    ensures ValidMonth(ym)
  {
    var mm := start.month + i;
    YearMonth(start.year + (mm - 1) / 12, (mm - 1) % 12 + 1)
  }

  /** Offset i is i months after the start, so the months shown are
      consecutive and no month is shown twice. */
  lemma MonthAtIs(start: YearMonth, i: nat)
    requires ValidMonth(start)
    ensures MonthIndex(MonthAt(start, i)) == MonthIndex(start) + i
    ensures MonthAt(start, i).year >= start.year
  {
    var mm := start.month + i;
    var q, r := (mm - 1) / 12, (mm - 1) % 12;
    assert mm - 1 == 12 * q + r;
  }

  /** Offset 0 is the current month and December is followed by January of
      the next year. */
  lemma MonthAtRollsOver(start: YearMonth)
    requires ValidMonth(start)
    ensures MonthAt(start, 0) == start
    ensures start.month == 12 ==> MonthAt(start, 1) == YearMonth(start.year + 1, 1)
    ensures start.month < 12 ==> MonthAt(start, 1) == YearMonth(start.year, start.month + 1)
  {
  }

  /** The caption above a grid: the month's name and its year. */
  function Caption(ym: YearMonth): string
    requires ValidMonth(ym)
  {
    MonthNames[ym.month] + " " + IntToDecimal(ym.year)
  }

  /** The title label. */
  function Title(n: nat): string {
    "Komende " + NatToDecimal(n) + " maanden"
  }

  /** The last month `date` can represent, so that every grid's first day
      exists. */
  predicate FitsCalendar(start: YearMonth, n: nat) {
    ValidMonth(start) && MinYear <= start.year
    && MonthIndex(start) + n <= MonthIndex(YearMonth(MaxYear, 12)) + 1
  }

  /** The loop of `__init__`: a caption and a grid per offset. */
  method MakeGrids(start: YearMonth, n: nat, resources: seq<Resource>, roles: map<int, Role>)
    returns (captions: seq<string>, grids: seq<MonthGrid>)
    requires FitsCalendar(start, n)
    ensures |captions| == n && |grids| == n
    ensures forall i :: 0 <= i < n ==>
              grids[i].year == MonthAt(start, i).year && grids[i].month == MonthAt(start, i).month
              && captions[i] == Caption(MonthAt(start, i))
              && grids[i].rows == Layout(OrderedGroups(resources, roles))
  {
    captions := [];
    grids := [];
    for i := 0 to n
      invariant |captions| == i && |grids| == i
      invariant forall j :: 0 <= j < i ==>
                  grids[j].year == MonthAt(start, j).year && grids[j].month == MonthAt(start, j).month
                  && captions[j] == Caption(MonthAt(start, j))
                  && grids[j].rows == Layout(OrderedGroups(resources, roles))
    {
      var mm := start.month + i;
      var yy := start.year + (mm - 1) / 12;
      var realM := (mm - 1) % 12 + 1;
      MonthAtIs(start, i);
      assert YearMonth(yy, realM) == MonthAt(start, i);
      var grid := new MonthGrid(yy, realM, resources, roles);
      captions := captions + [MonthNames[realM] + " " + IntToDecimal(yy)];
      grids := grids + [grid];
    }
  }

  /** `UpcomingMonths`: the month count, the title and the grids.  The
      resources are those the query hands over. */
  class UpcomingMonths {
    const months: nat
    const title: string
    var captions: seq<string>
    var grids: seq<MonthGrid>

    constructor (months: int, today: YearMonth, resources: seq<Resource>, roles: map<int, Role>)
      requires FitsCalendar(today, MonthCount(months))
      ensures this.months == MonthCount(months) && this.months >= 1
      ensures title == Title(this.months)
      ensures |captions| == this.months && |grids| == this.months
      ensures forall i :: 0 <= i < this.months ==>
                grids[i].year == MonthAt(today, i).year && grids[i].month == MonthAt(today, i).month
                && captions[i] == Caption(MonthAt(today, i))
                && grids[i].rows == Layout(OrderedGroups(resources, roles))
    {
      var n := MonthCount(months);
      var caps, gs := MakeGrids(today, n, resources, roles);
      this.months := n;
      title := Title(n);
      captions := caps;
      grids := gs;
    }
  }
}

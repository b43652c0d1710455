/** The master-data screen (ui_resources.py): the weekly fixed days off of a
    resource edited through one combo box per weekday, leave codes edited
    through a form, and the guard on deleting a role. */
module ResourcesView {
  import opened Wrappers
  import opened Strs
  import opened Models
  import opened Logic

  // ---------------------------------------------------------------------
  // Fixed days off: combo index <-> row

  /** The row `_save_fixed_off_days` writes for weekday `wd` and combo index
      `sel`: none for "Geen" (0), FULL for "VV (hele dag)" (1), AM for
      "VO (ochtend)" (2) and PM for every other index. */
  function FixedRowFor(rid: int, wd: int, sel: int): Option<FixedOffDay> {
    if sel == 0 then None
    else if sel == 1 then Some(FixedOffDay(rid, wd, Some("FULL"), Some(1.0)))
    else if sel == 2 then Some(FixedOffDay(rid, wd, Some("AM"), Some(0.5)))
    else Some(FixedOffDay(rid, wd, Some("PM"), Some(0.5)))
  }

  /** The combo index `_on_resource_selected` shows for a weekday's row: 0
      without one, 1/2/3 for FULL/AM/PM (a missing or empty part counting
      as FULL), 0 for any other part. */
  function ComboIndexFor(f: Option<FixedOffDay>): int {
    if f.None? then 0
    else
      var p := Upper(OrElse(f.value.part, "FULL"));
      if p == "FULL" then 1 else if p == "AM" then 2 else if p == "PM" then 3 else 0
  }

  /** Each of the four combo entries comes back as itself, and the row
      written has the part's code and fraction. */
  lemma ComboRoundTrip(rid: int, wd: int, sel: int)
    requires 0 <= sel <= 3
    ensures ComboIndexFor(FixedRowFor(rid, wd, sel)) == sel
    ensures FixedRowFor(rid, wd, sel).Some? ==>
              FixedRowFor(rid, wd, sel).value.resourceId == rid && FixedRowFor(rid, wd, sel).value.weekday == wd
              && WeeklyFraction(FixedRowFor(rid, wd, sel).value) == (if sel == 1 then 1.0 else 0.5)
              && FixedOffCode(FixedRowFor(rid, wd, sel).value) == ["VV", "VO", "VM"][sel - 1]
  {
    assert Upper("FULL") == "FULL" && Upper("AM") == "AM" && Upper("PM") == "PM";
  }

  /** The rows written for the combo indices `sels`, weekday by weekday. */
  function NewFixedRows(rid: int, sels: seq<int>): seq<FixedOffDay> {
    if sels == [] then []
    else
      var wd := |sels| - 1;
      NewFixedRows(rid, sels[..wd]) + (if FixedRowFor(rid, wd, sels[wd]).Some? then [FixedRowFor(rid, wd, sels[wd]).value] else [])
  }

  /** The table after `_save_fixed_off_days`: the resource's rows deleted,
      then the new rows added. */
  function SavedFixedOff(rows: seq<FixedOffDay>, rid: int, sels: seq<int>): seq<FixedOffDay> {
    RowsNotOf(rows, rid) + NewFixedRows(rid, sels)
  }

  /** The new rows on a weekday: the row of that weekday's index, if any. */
  lemma {:induction false} NewFixedRowsOn(rid: int, sels: seq<int>, other: int, wd: int)
    ensures other != rid ==> RowsOn(NewFixedRows(rid, sels), other, wd) == []
    ensures 0 <= wd < |sels| && FixedRowFor(rid, wd, sels[wd]).Some? ==>
              RowsOn(NewFixedRows(rid, sels), rid, wd) == [FixedRowFor(rid, wd, sels[wd]).value]
    ensures (0 <= wd < |sels| && FixedRowFor(rid, wd, sels[wd]).None?) || wd < 0 || wd >= |sels| ==>
              RowsOn(NewFixedRows(rid, sels), rid, wd) == []
  {
    if sels != [] {
      var last := |sels| - 1;
      var front := sels[..last];
      NewFixedRowsOn(rid, front, other, wd);
      var tail: seq<FixedOffDay> := if FixedRowFor(rid, last, sels[last]).Some? then [FixedRowFor(rid, last, sels[last]).value] else [];
      RowsOnConcat(NewFixedRows(rid, front), tail, other, wd);
      RowsOnConcat(NewFixedRows(rid, front), tail, rid, wd);
      if 0 <= wd < last {
        assert front[wd] == sels[wd];
      }
    }
  }

  /** Saving replaces exactly the resource's rows: every other resource's
      rows are as they were, and the resource has at most one row per
      weekday, the one its combo asks for. */
  lemma SaveReplacesRows(rows: seq<FixedOffDay>, rid: int, sels: seq<int>, other: int, wd: int)
    ensures other != rid ==> RowsOn(SavedFixedOff(rows, rid, sels), other, wd) == RowsOn(rows, other, wd)
    ensures 0 <= wd < |sels| && FixedRowFor(rid, wd, sels[wd]).Some? ==>
              RowsOn(SavedFixedOff(rows, rid, sels), rid, wd) == [FixedRowFor(rid, wd, sels[wd]).value]
    ensures |RowsOn(SavedFixedOff(rows, rid, sels), rid, wd)| <= 1
  {
    RowsOnConcat(RowsNotOf(rows, rid), NewFixedRows(rid, sels), other, wd);
    RowsOnConcat(RowsNotOf(rows, rid), NewFixedRows(rid, sels), rid, wd);
    RowsOnNotOf(rows, rid, other, wd);
    NewFixedRowsOn(rid, sels, other, wd);
  }

  /** After a save the weekly rule never meets two rows for the resource,
      so `fixed_off_weekly_for` cannot fail for it. */
  lemma SavedRowsAreUnambiguous(rows: seq<FixedOffDay>, rid: int, sels: seq<int>, d: int)
    ensures FixedOffWeeklyFor(SavedFixedOff(rows, rid, sels), rid, d).Success?
  {
    SaveReplacesRows(rows, rid, sels, rid, Calendar.Weekday(d));
    FixedOffWeeklyCases(SavedFixedOff(rows, rid, sels), rid, d);
  }

  /** `by_wd.get(wd)`: the dict comprehension keeps the last of the
      resource's rows on the weekday. */
  function LastOn(rows: seq<FixedOffDay>, rid: int, wd: int): Option<FixedOffDay> {
    var m := RowsOn(rows, rid, wd);
    if m == [] then None else Some(m[|m| - 1])
  }

  /** The seven combo indices `_on_resource_selected` shows. */
  function LoadedCombos(rows: seq<FixedOffDay>, rid: int): (combos: seq<int>)
    ensures |combos| == 7
  {
    seq(7, wd requires 0 <= wd < 7 => ComboIndexFor(LastOn(rows, rid, wd)))
  }

  /** Saving seven combo indices and loading the resource again shows the
      same indices. */
  lemma SaveLoadRoundTrip(rows: seq<FixedOffDay>, rid: int, sels: seq<int>)
    requires |sels| == 7
    requires forall wd :: 0 <= wd < 7 ==> 0 <= sels[wd] <= 3
    ensures LoadedCombos(SavedFixedOff(rows, rid, sels), rid) == sels
  {
    var saved := SavedFixedOff(rows, rid, sels);
    forall wd | 0 <= wd < 7
      ensures LoadedCombos(saved, rid)[wd] == sels[wd]
    {
      SaveReplacesRows(rows, rid, sels, rid, wd);
      ComboRoundTrip(rid, wd, sels[wd]);
      if FixedRowFor(rid, wd, sels[wd]).None? {
        assert RowsOn(saved, rid, wd) == [] by {
          RowsOnConcat(RowsNotOf(rows, rid), NewFixedRows(rid, sels), rid, wd);
          RowsOnNotOf(rows, rid, rid, wd);
          NewFixedRowsOn(rid, sels, rid, wd);
        }
      }
    }
  }

  /** The loop of `_save_fixed_off_days` after the delete: one row per
      weekday whose combo is not "Geen". */
  method ReplaceFixedOff(rows: seq<FixedOffDay>, rid: int, sels: seq<int>) returns (out: seq<FixedOffDay>)
    ensures out == SavedFixedOff(rows, rid, sels)
  {
    out := RowsNotOf(rows, rid);
    for wd := 0 to |sels|
      invariant out == RowsNotOf(rows, rid) + NewFixedRows(rid, sels[..wd])
    {
      assert sels[..wd + 1][..wd] == sels[..wd];
      var sel := sels[wd];
      if sel == 0 {
        continue;
      }
      var part, frac;
      if sel == 1 {
        part, frac := "FULL", 1.0;
      } else if sel == 2 {
        part, frac := "AM", 0.5;
      } else {
        part, frac := "PM", 0.5;
      }
      out := out + [FixedOffDay(rid, wd, Some(part), Some(frac))];
    }
    assert sels[..|sels|] == sels;
  }

  // ---------------------------------------------------------------------
  // Leave codes: form <-> row

  const DefaultColor := "#C6E6C6"
  const CodeRequiredText := "Code is verplicht."

  /** The stored fraction of a code, or 1.0/0.0 by `counts_as_absent`. */
  function CodeFraction(c: LeaveCode): real {
    if c.absenceFraction.Some? then c.absenceFraction.value
    else if c.countsAsAbsent == Some(true) then 1.0 else 0.0
  }

  /** The "Afwezigheid" index shown for a fraction: 2 from 0.99, 1 from 0.49,
      else 0. */
  function FractionIndex(frac: real): (idx: int)
    ensures 0 <= idx <= 2
  {
    if frac >= 0.99 then 2 else if frac >= 0.49 then 1 else 0
  }

  /** The fraction saved for an "Afwezigheid" index. */
  function IndexFraction(idx: int): real {
    if idx == 2 then 1.0 else if idx == 1 then 0.5 else 0.0
  }

  /** Index and fraction round-trip both ways for the three entries. */
  lemma FractionRoundTrip(idx: int, frac: real)
    ensures 0 <= idx <= 2 ==> FractionIndex(IndexFraction(idx)) == idx
    ensures frac == 0.0 || frac == 0.5 || frac == 1.0 ==> IndexFraction(FractionIndex(frac)) == frac
  {
  }

  /** What the code form shows for a code: code, label, colour (default
      when empty), the "Telt als afwezig" index and the fraction index. */
  datatype CodeForm = CodeForm(code: string, labelText: string, color: string, countsIndex: int, fractionIndex: int)

  /** `_on_code_selected` for an existing code. */
  function FormOf(c: LeaveCode): CodeForm {
    CodeForm(c.code, c.labelText, if c.colorHex == "" then DefaultColor else c.colorHex,
             if c.countsAsAbsent == Some(true) then 0 else 1, FractionIndex(CodeFraction(c)))
  }

  /** The row `_save_code` writes for a form, or None when the normalised
      code is empty. */
  function CodeFromForm(f: CodeForm): (r: Option<LeaveCode>) {
    var code := Upper(Strip(f.code));
    if code == "" then None
    else
      var color := Strip(f.color);
      Some(LeaveCode(code, Strip(f.labelText), if color == "" then DefaultColor else color,
                     Some(f.countsIndex == 0), Some(IndexFraction(f.fractionIndex))))
  }

  /** The saved code is the stripped, upper-cased input, an empty one is
      refused, an empty colour becomes the default, and the flags follow
      the combo indices. */
  lemma CodeFromFormIs(f: CodeForm)
    ensures CodeFromForm(f).None? <==> Upper(Strip(f.code)) == ""
    ensures CodeFromForm(f).Some? ==>
              CodeFromForm(f).value.code == Upper(Strip(f.code))
              && (Strip(f.color) == "" ==> CodeFromForm(f).value.colorHex == DefaultColor)
              && (Strip(f.color) != "" ==> CodeFromForm(f).value.colorHex == Strip(f.color))
              && (CodeFromForm(f).value.countsAsAbsent == Some(true) <==> f.countsIndex == 0)
              && CodeFromForm(f).value.absenceFraction.value in {0.0, 0.5, 1.0}
  {
  }

  /** A code already in normal form survives being shown and saved again
      unchanged. */
  lemma CodeFormRoundTrip(c: LeaveCode)
    requires c.code != "" && Upper(Strip(c.code)) == c.code
    requires Strip(c.labelText) == c.labelText
    requires c.colorHex != "" && Strip(c.colorHex) == c.colorHex
    requires c.countsAsAbsent.Some?
    requires c.absenceFraction.Some? && c.absenceFraction.value in {0.0, 0.5, 1.0}
    ensures CodeFromForm(FormOf(c)) == Some(c)
  {
    FractionRoundTrip(0, c.absenceFraction.value);
    var f := FormOf(c);
    assert f.code == c.code && f.color == c.colorHex;
    assert Strip(f.color) == c.colorHex;
    assert IndexFraction(f.fractionIndex) == c.absenceFraction.value;
    assert (f.countsIndex == 0) == (c.countsAsAbsent.value);
  }

  // ---------------------------------------------------------------------
  // The screen

  /** The screen's state: the session's tables, the seven weekday combos,
      the last message box shown and how often `data_changed` fired.
      `broken` is set once a commit has failed on the unique constraint:
      the screen never rolls the session back, so from then on every
      query and commit through it raises instead of reaching the tables. */
  class ResourcesScreen {
    var db: Db
    var fixedCombos: seq<int>
    var message: Option<string>
    var changes: nat
    var broken: bool

    predicate HasResource(rid: int)
      reads this
    {
      exists r :: r in db.resources && r.id == rid
    }

    constructor (db: Db)
      ensures this.db == db && fixedCombos == [0, 0, 0, 0, 0, 0, 0]
      ensures message.None? && changes == 0 && !broken
    {
      this.db := db;
      fixedCombos := [0, 0, 0, 0, 0, 0, 0];
      message := None;
      changes := 0;
      broken := false;
    }

    /** The combo part of `_on_resource_selected`: all "Geen", then the
        selected resource's rows when it exists and the session can still
        be queried. */
    method ShowFixedOff(current: Option<int>)
      modifies this
      ensures db == old(db) && message == old(message) && changes == old(changes) && broken == old(broken)
      ensures current.Some? && !broken && HasResource(current.value) ==> fixedCombos == LoadedCombos(db.fixedOff, current.value)
      ensures !(current.Some? && !broken && HasResource(current.value)) ==> fixedCombos == [0, 0, 0, 0, 0, 0, 0]
    {
      fixedCombos := [0, 0, 0, 0, 0, 0, 0];
      if current.Some? && !broken && HasResource(current.value) {
        fixedCombos := LoadedCombos(db.fixedOff, current.value);
      }
    }

    /** `_save_fixed_off_days`: without a selection a hint; for a resource
        that exists its rows are replaced by the combos' rows. */
    method SaveFixedOffDays(current: Option<int>) returns (saved: bool)
      modifies this
      ensures fixedCombos == old(fixedCombos) && broken == old(broken)
      ensures saved <==> current.Some? && !broken && old(HasResource(current.value))
      ensures current.None? ==>
                db == old(db) && changes == old(changes) && message == Some("Selecteer eerst een medewerker.")
      ensures current.Some? && !saved ==> db == old(db) && changes == old(changes) && message == old(message)
      ensures saved ==> db == old(db).(fixedOff := SavedFixedOff(old(db).fixedOff, current.value, fixedCombos))
                        && changes == old(changes) + 1 && message == Some("Opgeslagen.")
    {
      if current.None? {
        message := Some("Selecteer eerst een medewerker.");
        return false;
      }
      if broken || !HasResource(current.value) {
        return false;
      }
      var rows := ReplaceFixedOff(db.fixedOff, current.value, fixedCombos);
      db := db.(fixedOff := rows);
      changes := changes + 1;
      message := Some("Opgeslagen.");
      saved := true;
    }

    /** `_delete_role`: refused while a resource still has the role. */
    method DeleteRole(current: Option<int>) returns (deleted: bool)
      modifies this
      ensures fixedCombos == old(fixedCombos) && broken == old(broken)
      ensures deleted <==> current.Some? && !broken && current.value in old(db).roles
                           && forall r :: r in old(db).resources ==> r.roleId != current.value
      ensures deleted ==> db == old(db).(roles := old(db).roles - {current.value}) && changes == old(changes) + 1
                          && message == old(message)
      ensures !deleted ==> db == old(db) && changes == old(changes)
      ensures !deleted && current.Some? && !broken && current.value in old(db).roles ==>
                message == Some("Er zijn nog medewerkers met deze rol.")
      ensures !deleted && !(current.Some? && !broken && current.value in old(db).roles) ==> message == old(message)
    {
      if current.None? || broken || current.value !in db.roles {
        return false;
      }
      var rid := current.value;
      if exists r :: r in db.resources && r.roleId == rid {
        message := Some("Er zijn nog medewerkers met deze rol.");
        return false;
      }
      db := db.(roles := db.roles - {rid});
      changes := changes + 1;
      deleted := true;
    }

    /** `_save_code`: the form's row replaces the selected code, or is
        added; an empty code is refused with a warning, and a code another
        row already has makes the commit fail on the unique constraint and
        leaves the session awaiting a rollback. */
    method SaveCode(current: Option<string>, form: CodeForm) returns (saved: bool)
      modifies this
      ensures fixedCombos == old(fixedCombos)
      ensures saved == (!old(broken) && SavedCodes(old(db).codes, current, form).Success?)
      ensures db == if saved then old(db).(codes := SavedCodes(old(db).codes, current, form).value) else old(db)
      ensures changes == if saved then old(changes) + 1 else old(changes)
      ensures message == if SavedCodes(old(db).codes, current, form) == Failure(CodeRequired)
                         then Some(CodeRequiredText) else old(message)
      ensures broken <==> old(broken) || SavedCodes(old(db).codes, current, form) == Failure(DuplicateCode)
    {
      saved := Commit(SavedCodes(db.codes, current, form));
    }

    /** The commit of a code save and what the screen shows afterwards: an
        empty code never reaches the session; a session awaiting a rollback
        refuses the commit; a duplicate code fails it and leaves the
        session awaiting one. */
    method Commit(r: Result<CodeTable, CodeError>) returns (saved: bool)
      modifies this
      ensures fixedCombos == old(fixedCombos)
      ensures saved == (!old(broken) && r.Success?)
      ensures db == if saved then old(db).(codes := r.value) else old(db)
      ensures changes == if saved then old(changes) + 1 else old(changes)
      ensures message == if r == Failure(CodeRequired) then Some(CodeRequiredText) else old(message)
      ensures broken <==> old(broken) || r == Failure(DuplicateCode)
    {
      saved := false;
      if r == Failure(CodeRequired) {
        message := Some(CodeRequiredText);
      } else if !broken {
        if r.Success? {
          db := db.(codes := r.value);
          changes := changes + 1;
          saved := true;
        } else {
          assert r.error != CodeRequired;
          broken := true;
        }
      }
    }
  }

  /** Saving a code another row already has breaks the session: a later
      save of a fresh code and a save of the weekday combos both fail, and
      the tables keep the state before the duplicate. */
  method DuplicateBlocksLaterSaves(db: Db, rid: int, taken: string, newCode: string, form: CodeForm)
    returns (first: bool, second: bool, third: bool, after: Db)
    requires taken in db.codes && taken != "" && Upper(Strip(taken)) == taken
    requires newCode !in db.codes && CodeFromForm(form).Some? && CodeFromForm(form).value.code == newCode
    requires exists r :: r in db.resources && r.id == rid
    ensures !first && !second && !third && after == db
  {
    var screen := new ResourcesScreen(db);
    var dup := CodeForm(taken, "", "", 0, 0);
    SavedCodesIs(db.codes, None, dup);
    first := screen.SaveCode(None, dup);
    second := screen.SaveCode(None, form);
    third := screen.SaveFixedOffDays(Some(rid));
    after := screen.db;
  }

  /** The codes other than the selected one, which the save overwrites. */
  function CodesWithout(codes: CodeTable, current: Option<string>): CodeTable {
    if current.Some? then codes - {current.value} else codes
  }

  datatype CodeError = CodeRequired | DuplicateCode

  /** The code table after `_save_code`. */
  function SavedCodes(codes: CodeTable, current: Option<string>, form: CodeForm): Result<CodeTable, CodeError> {
    match CodeFromForm(form)
    case None => Failure(CodeRequired)
    case Some(row) => PutCode(codes, current, row)
  }

  /** Storing one row: refused when another code already has its key. */
  function PutCode(codes: CodeTable, current: Option<string>, row: LeaveCode): Result<CodeTable, CodeError> {
    var others := CodesWithout(codes, current);
    if row.code in others then Failure(DuplicateCode) else Success(others[row.code := row])
  }

  /** Storing a row fails only on a duplicate key; otherwise the row
      replaces the selected code and every other code is kept. */
  lemma PutCodeIs(codes: CodeTable, current: Option<string>, row: LeaveCode)
    ensures PutCode(codes, current, row) != Failure(CodeRequired)
    ensures PutCode(codes, current, row) == Failure(DuplicateCode) <==>
              row.code in codes && current != Some(row.code)
    ensures PutCode(codes, current, row).Success? ==>
              var out := PutCode(codes, current, row).value;
              row.code in out && out[row.code] == row
              && (forall k :: k in out <==> k == row.code || (k in codes && current != Some(k)))
              && (forall k :: k in out && k != row.code ==> out[k] == codes[k])
  {
    var others := CodesWithout(codes, current);
    assert forall k :: k in others <==> k in codes && current != Some(k);
  }

  /** A save puts the form's row under its normalised code, drops the
      selected code when it was renamed and keeps every other code; it
      fails exactly for an empty code or one another row already has. */
  lemma SavedCodesIs(codes: CodeTable, current: Option<string>, form: CodeForm)
    ensures SavedCodes(codes, current, form) == Failure(CodeRequired) <==> Upper(Strip(form.code)) == ""
    ensures SavedCodes(codes, current, form) == Failure(DuplicateCode) <==>
              Upper(Strip(form.code)) != "" && Upper(Strip(form.code)) in codes
              && current != Some(Upper(Strip(form.code)))
    ensures SavedCodes(codes, current, form).Success? ==>
              var out := SavedCodes(codes, current, form).value;
              Upper(Strip(form.code)) in out && out[Upper(Strip(form.code))] == CodeFromForm(form).value
              && (forall k :: k in out <==> k == Upper(Strip(form.code)) || (k in codes && current != Some(k)))
              && (forall k :: k in out && k != Upper(Strip(form.code)) ==> out[k] == codes[k])
  {
    if CodeFromForm(form).Some? {
      PutCodeIs(codes, current, CodeFromForm(form).value);
    }
  }
}

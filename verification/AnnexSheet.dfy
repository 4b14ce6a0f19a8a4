/** Filling in the sheet: which rows change, what stays, and that a second round changes nothing. */
module AnnexSheet {
  import opened Text
  import opened Report
  import opened Annex
  import opened AnnexTheorems

  // ----- rows of the sheet --------------------------------------------------------------

  /** Every row of the sheet becomes what it becomes alone, whatever the others are. */
  lemma {:induction false} EachRowAlone(sheet: seq<seq<Cell>>, f: Filing, i: nat)
    requires i < |sheet|
    ensures EachPopulated(sheet, f)[i] == Populated(sheet[i], f) && Given(sheet, f)[i] == GivenTo(sheet[i], f)
  {
    if i < |sheet| - 1 {
      EachRowAlone(sheet[..|sheet| - 1], f, i);
    }
  }

  /** What a filing leaves alone: the pick goes by the identifier, and nothing is written over the identifier. */
  ghost predicate PicksByIdentifier(f: Filing) {
    forall a, b :: Identifier(a) == Identifier(b) ==> f.pick(a) == f.pick(b)
  }

  lemma ColumnsDiffer()
    ensures COL_CONTROL != COL_STATUS && COL_CONTROL != COL_COMMENTS && COL_STATUS != COL_COMMENTS
  {
    assert COL_CONTROL[0] == 'B' && COL_STATUS[0] == 'K' && COL_COMMENTS[0] == 'L';
  }

  ghost predicate SparesIdentifier(us: seq<Update>) {
    forall u :: u in us ==> u.column != COL_CONTROL
  }

  lemma UpdatesAreGood(f: Filing, row: ControlRow)
    ensures DistinctUpdates(UpdatesFor(f, row)) && SparesIdentifier(UpdatesFor(f, row))
  {
    ColumnsDiffer();
  }

  // ----- the identifier -------------------------------------------------------------------

  ghost predicate IsControlCell(c: Cell) {
    c.column == Some(COL_CONTROL)
  }

  /** The identifier is the value of the first control cell, if there is one. */
  lemma {:induction false} IdentifierExact(cells: seq<Cell>) returns (i: nat)
    ensures i <= |cells|
    ensures i < |cells| ==> IsControlCell(cells[i]) && Identifier(cells) == CellValue(cells[i])
    ensures i == |cells| ==> Identifier(cells) == "" && forall c :: c in cells ==> !IsControlCell(c)
  {
    if cells == [] {
      i := 0;
    } else if IsControlCell(cells[0]) {
      i := 0;
    } else {
      var j := IdentifierExact(cells[1..]);
      i := j + 1;
      assert cells == [cells[0]] + cells[1..];
    }
  }

  lemma {:induction false} NoIdentifier(cells: seq<Cell>)
    requires forall c :: c in cells ==> !IsControlCell(c)
    ensures Identifier(cells) == ""
  {
    if cells != [] {
      assert cells[0] in cells && forall c :: c in cells[1..] ==> c in cells;
      NoIdentifier(cells[1..]);
    }
  }

  lemma OneControlCell(cells: seq<Cell>, i: nat, j: nat)
    requires DistinctColumns(cells) && i < |cells| && j < |cells| && IsControlCell(cells[i]) && IsControlCell(cells[j])
    ensures i == j
  {
    if i < j {
      TwoOfAColumn(cells, i, j);
    } else if j < i {
      TwoOfAColumn(cells, j, i);
    }
  }

  /** With distinct columns, any control cell is the one the identifier is read from. */
  lemma IdentifierIs(cells: seq<Cell>, c: Cell)
    requires DistinctColumns(cells) && c in cells && IsControlCell(c)
    ensures Identifier(cells) == CellValue(c)
  {
    var j :| 0 <= j < |cells| && cells[j] == c;
    var i := IdentifierExact(cells);
    OneControlCell(cells, i, j);
  }

  lemma {:induction false} NoUpdateFor(us: seq<Update>)
    requires SparesIdentifier(us)
    ensures FindUpdate(us, COL_CONTROL).None?
  {
    if us != [] {
      assert us[0] in us && forall u :: u in us[1..] ==> u in us;
      NoUpdateFor(us[1..]);
    }
  }

  lemma ControlCellStays(cells: seq<Cell>, us: seq<Update>, i: nat)
    requires DistinctColumns(cells) && SparesIdentifier(us) && i < |cells| && IsControlCell(cells[i])
    ensures cells[i] in Rewritten(cells, us)
  {
    NoUpdateFor(us);
    RewrittenExact(cells, us);
    assert Targets(cells, us)[i] == cells[i];
    assert cells[i] in multiset(Targets(cells, us));
    assert cells[i] in multiset(Rewritten(cells, us));
  }

  lemma NoControlCellAppears(cells: seq<Cell>, us: seq<Update>)
    requires DistinctColumns(cells) && SparesIdentifier(us) && forall c :: c in cells ==> !IsControlCell(c)
    ensures forall c :: c in Rewritten(cells, us) ==> !IsControlCell(c)
  {
    forall c | c in Rewritten(cells, us) ensures !IsControlCell(c) {
      RewrittenHas(cells, us, c);
    }
  }

  /** Rewriting other columns leaves the identifier of a row as it was. */
  lemma IdentifierStays(cells: seq<Cell>, us: seq<Update>)
    requires DistinctColumns(cells) && DistinctUpdates(us) && SparesIdentifier(us)
    ensures Identifier(Rewritten(cells, us)) == Identifier(cells)
  {
    var i := IdentifierExact(cells);
    if i < |cells| {
      ControlCellStays(cells, us, i);
      RewrittenColumns(cells, us);
      IdentifierIs(Rewritten(cells, us), cells[i]);
    } else {
      NoControlCellAppears(cells, us);
      NoIdentifier(Rewritten(cells, us));
    }
  }

  // ----- a second round ---------------------------------------------------------------------

  /** A populated row is about the same control as before. */
  lemma PickStays(cells: seq<Cell>, f: Filing)
    requires DistinctColumns(cells) && PicksByIdentifier(f)
    ensures f.pick(Populated(cells, f)) == f.pick(cells) && DistinctColumns(Populated(cells, f))
  {
    var row := f.pick(cells);
    if row.Some? {
      UpdatesAreGood(f, row.value);
      IdentifierStays(cells, UpdatesFor(f, row.value));
      RewrittenColumns(cells, UpdatesFor(f, row.value));
    }
  }

  lemma PopulatedTwice(cells: seq<Cell>, f: Filing)
    requires DistinctColumns(cells) && PicksByIdentifier(f)
    ensures Populated(Populated(cells, f), f) == Populated(cells, f)
    ensures GivenTo(Populated(cells, f), f) == GivenTo(cells, f)
  {
    PickStays(cells, f);
    var row := f.pick(cells);
    if row.Some? {
      UpdatesAreGood(f, row.value);
      RewriteIdempotent(cells, UpdatesFor(f, row.value));
    }
  }

  lemma {:induction false} SheetTwice(sheet: seq<seq<Cell>>, f: Filing)
    requires PicksByIdentifier(f) && forall cells :: cells in sheet ==> DistinctColumns(cells)
    ensures EachPopulated(EachPopulated(sheet, f), f) == EachPopulated(sheet, f)
    ensures Given(EachPopulated(sheet, f), f) == Given(sheet, f)
  {
    if sheet != [] {
      var rest, last := sheet[..|sheet| - 1], sheet[|sheet| - 1];
      assert last in sheet;
      SheetTwice(rest, f);
      PopulatedTwice(last, f);
      var once := EachPopulated(rest, f);
      assert (once + [Populated(last, f)])[..|once|] == once;
    }
  }

  lemma ReportsPickByIdentifier(report: Report, comment: ControlRow -> string)
    ensures PicksByIdentifier(FilingOf(report, comment))
  {
  }

  /** Filling in a filled-in sheet from the same report changes nothing and counts the same. */
  lemma PopulateIdempotent(sheet: seq<seq<Cell>>, report: Report, comment: ControlRow -> string)
    requires forall cells :: cells in sheet ==> DistinctColumns(cells)
    ensures var f := FilingOf(report, comment);
            && EachPopulated(EachPopulated(sheet, f), f) == EachPopulated(sheet, f)
            && Given(EachPopulated(sheet, f), f) == Given(sheet, f)
  {
    ReportsPickByIdentifier(report, comment);
    SheetTwice(sheet, FilingOf(report, comment));
  }

  // ----- which rows --------------------------------------------------------------------------

  lemma {:induction false} ByControlExact(rows: seq<ControlRow>, control: string)
    ensures control in ByControl(rows) <==> exists row :: row in rows && row.controlId == control
    ensures control in ByControl(rows) ==>
              ByControl(rows)[control] in rows && ByControl(rows)[control].controlId == control
  {
    if rows != [] {
      var rest, last := rows[..|rows| - 1], rows[|rows| - 1];
      assert rows == rest + [last];
      ByControlExact(rest, control);
    }
  }

  /** The sheet row names a control of the report. */
  ghost predicate NamesControl(cells: seq<Cell>, report: Report, control: string) {
    ControlOf(Identifier(cells)) == Some(control) && exists row :: row in report.rows && row.controlId == control
  }

  /** The last row of the report for a control. */
  function RowFor(report: Report, control: string): ControlRow
    requires control in ByControl(report.rows)
  {
    ByControl(report.rows)[control]
  }

  lemma UnmatchedRow(cells: seq<Cell>, report: Report, comment: ControlRow -> string)
    requires forall control :: !NamesControl(cells, report, control)
    ensures Populated(cells, FilingOf(report, comment)) == cells && GivenTo(cells, FilingOf(report, comment)).None?
  {
    var control := ControlOf(Identifier(cells));
    if control.Some? {
      ByControlExact(report.rows, control.value);
      assert !NamesControl(cells, report, control.value);
    }
    assert FilingOf(report, comment).pick(cells) == Matched(cells, ByControl(report.rows));
  }

  lemma MatchedRow(cells: seq<Cell>, report: Report, comment: ControlRow -> string, control: string)
    requires NamesControl(cells, report, control)
    ensures control in ByControl(report.rows)
    ensures Populated(cells, FilingOf(report, comment))
         == Rewritten(cells, UpdatesFor(FilingOf(report, comment), RowFor(report, control)))
    ensures GivenTo(cells, FilingOf(report, comment)) == Some(StatusFor(RowFor(report, control)))
  {
    ByControlExact(report.rows, control);
    assert FilingOf(report, comment).pick(cells) == Matched(cells, ByControl(report.rows));
  }

  /** In the filled-in sheet, a row whose identifier names no reported control is as it was, and is not counted. */
  lemma UnmatchedStays(sheet: seq<seq<Cell>>, i: nat, report: Report, comment: ControlRow -> string)
    requires i < |sheet| && forall control :: !NamesControl(sheet[i], report, control)
    ensures EachPopulated(sheet, FilingOf(report, comment))[i] == sheet[i]
    ensures Given(sheet, FilingOf(report, comment))[i].None?
  {
    EachRowAlone(sheet, FilingOf(report, comment), i);
    UnmatchedRow(sheet[i], report, comment);
  }

  /**
   In the filled-in sheet, a row whose identifier names a reported control has that control's status and comment, is
   otherwise as it was, and is counted under that status.
   */
  lemma MatchedIsRewritten(sheet: seq<seq<Cell>>, i: nat, report: Report, comment: ControlRow -> string,
                           control: string)
    requires i < |sheet| && NamesControl(sheet[i], report, control)
    ensures control in ByControl(report.rows)
    ensures RowFor(report, control) in report.rows && RowFor(report, control).controlId == control
    ensures EachPopulated(sheet, FilingOf(report, comment))[i]
         == Rewritten(sheet[i], UpdatesFor(FilingOf(report, comment), RowFor(report, control)))
    ensures Given(sheet, FilingOf(report, comment))[i] == Some(StatusFor(RowFor(report, control)))
  {
    EachRowAlone(sheet, FilingOf(report, comment), i);
    ByControlExact(report.rows, control);
    MatchedRow(sheet[i], report, comment, control);
  }

  // ----- counts -----------------------------------------------------------------------------

  function CountFor(m: map<AsdStatus, nat>, s: AsdStatus): nat {
    if s in m then m[s] else 0
  }

  /** The rows written are the rows counted, status by status. */
  lemma WrittenIsSum(given: seq<Option<AsdStatus>>, written: nat, m: map<AsdStatus, nat>)
    requires Counted(given, written, m)
    ensures written == CountFor(m, NotAssessed) + CountFor(m, Effective) + CountFor(m, AlternateControl)
                       + CountFor(m, NotImplemented) + CountFor(m, Ineffective) + CountFor(m, NoVisibility)
                       + CountFor(m, NotApplicable)
  {
    AllCounted(given);
  }

  lemma {:induction false} AllCounted(given: seq<Option<AsdStatus>>)
    ensures |given| == multiset(given)[None] + Occurrences(given, NotAssessed) + Occurrences(given, Effective)
                       + Occurrences(given, AlternateControl) + Occurrences(given, NotImplemented)
                       + Occurrences(given, Ineffective) + Occurrences(given, NoVisibility)
                           + Occurrences(given, NotApplicable)
  {
    if given != [] {
      var rest, last := given[..|given| - 1], given[|given| - 1];
      assert given == rest + [last];
      AllCounted(rest);
      assert multiset(given) == multiset(rest) + multiset{last};
      match last
      case None =>
      case Some(s) =>
        match s
        case NotAssessed =>
        case Effective =>
        case AlternateControl =>
        case NotImplemented =>
        case Ineffective =>
        case NoVisibility =>
        case NotApplicable =>
    }
  }

  // ----- statuses ----------------------------------------------------------------------------

  lemma ReasonsDiffer()
    ensures TRIED_AND_BLIND !! OUTSIDE && "" !in TRIED_AND_BLIND && "" !in OUTSIDE
  {
    forall t | t in TRIED_AND_BLIND ensures t !in OUTSIDE && t != "" {
      NotOutside(t);
    }
  }

  lemma NotOutside(t: string)
    requires t in TRIED_AND_BLIND
    ensures t !in OUTSIDE && t != ""
  {
    assert |"requires-attestation"| == 20 && |"unreachable"| == 11 && |"partial-population"| == 18;
    assert |"collection-error"| == 16 && |"insufficient-privilege"| == 22;
    assert |"out-of-scope"| == 12 && |"unsupported-platform"| == 20;
    assert "requires-attestation"[0] == 'r' && "unsupported-platform"[0] == 'u';
  }

  /** Which status each row is given, case by case. */
  lemma StatusForExact(row: ControlRow)
    ensures var s, reason := StatusFor(row), if row.reason.Some? then row.reason.value else "";
            && (s.Effective? <==> row.status == "satisfied")
            && (s.Ineffective? <==> row.status == "not-satisfied")
            && (s.NoVisibility? <==> !row.IsDetermined() && reason in TRIED_AND_BLIND)
            && (s.NotApplicable? <==> !row.IsDetermined() && reason in OUTSIDE)
            && (s.NotAssessed? <==> !row.IsDetermined() && reason !in TRIED_AND_BLIND && reason !in OUTSIDE)
            && !s.AlternateControl? && !s.NotImplemented?
  {
    assert |"satisfied"| != |"not-satisfied"|;
    ReasonsDiffer();
  }

  /** A control found not applicable everywhere is filed as not assessed: its row carries no reason to say otherwise. */
  lemma NotApplicableIsFiledNotAssessed(row: ControlRow)
    requires row.status == "not-applicable" && row.reason.None?
    ensures StatusFor(row).NotAssessed?
  {
    assert |"not-applicable"| == 14 && |"satisfied"| == 9 && |"not-satisfied"| == 13;
    assert forall t :: t in TRIED_AND_BLIND + OUTSIDE ==> t != "";
  }
}

/** Writing statuses into the rows of the SSP Annex, touching nothing else. */
module Annex {
  import opened Text
  import opened Lists
  import opened Json
  import opened Report

  const COL_CONTROL := "B"
  const COL_STATUS := "K"
  const COL_COMMENTS := "L"

  // ----- columns --------------------------------------------------------------------

  predicate IsLetters(s: string) {
    forall i :: 0 <= i < |s| ==> 'A' <= s[i] <= 'Z'
  }

  /** A column's place: letters as digits of base 26 that run from 1 to 26. */
  function ColIndex(s: string): nat
    requires IsLetters(s)
  {
    if s == "" then 0 else 26 * ColIndex(s[..|s| - 1]) + LetterValue(s[|s| - 1])
  }

  function LetterValue(c: char): (v: nat)
    requires 'A' <= c <= 'Z'
    ensures 1 <= v <= 26
  {
    c as int - 64
  }

  type Column = s: string | s != "" && IsLetters(s) witness "A"

  /** `_col_index`, accumulating from the left; letters of either case count alike. */
  method ComputeColIndex(letters: string) returns (value: nat)
    requires IsLetters(Upper(letters))
    ensures value == ColIndex(Upper(letters))
  {
    var capitals := Upper(letters);
    value := 0;
    for i := 0 to |capitals|
      invariant value == ColIndex(capitals[..i])
    {
      assert capitals[..i + 1][..i] == capitals[..i];
      value := value * 26 + LetterValue(capitals[i]);
    }
    assert capitals[..|capitals|] == capitals;
  }

  // ----- cells -----------------------------------------------------------------------

  /** What a cell holds: its original markup with the value it reads as, or text written inline. */
  datatype Content = Original(markup: string, value: string) | Inline(text: string)

  /** A cell; one without a reference has no column. */
  datatype Cell = Cell(column: Option<Column>, style: Option<string>, content: Content)

  function CellValue(c: Cell): string {
    match c.content
    case Original(_, value) => value
    case Inline(text) => text
  }

  datatype Update = Update(column: Column, text: string)

  function FindUpdate(us: seq<Update>, column: Column): Option<string> {
    if us == [] then None
    else if us[0].column == column then Some(us[0].text)
    else FindUpdate(us[1..], column)
  }

  function WithoutColumn(us: seq<Update>, column: Column): (r: seq<Update>)
    ensures forall u :: u in r <==> u in us && u.column != column
  {
    if us == [] then []
    else (if us[0].column == column then [] else [us[0]]) + WithoutColumn(us[1..], column)
  }

  /** Cells after replacement, with the updates no cell has taken yet. */
  datatype Kept = Kept(cells: seq<Cell>, left: seq<Update>)

  /** One cell: rewritten in its own style when an update is waiting for its column, kept otherwise. */
  function TakeCell(k: Kept, c: Cell): Kept {
    if c.column.Some? && FindUpdate(k.left, c.column.value).Some? then
      Kept(k.cells + [c.(content := Inline(FindUpdate(k.left, c.column.value).value))],
           WithoutColumn(k.left, c.column.value))
    else Kept(k.cells + [c], k.left)
  }

  function TakeCells(cells: seq<Cell>, updates: seq<Update>): Kept {
    if cells == [] then Kept([], updates) else TakeCell(TakeCells(cells[..|cells| - 1], updates), cells[|cells| - 1])
  }

  function NewCells(us: seq<Update>): (r: seq<Cell>)
    ensures |r| == |us|
    ensures forall i :: 0 <= i < |us| ==> r[i] == Cell(Some(us[i].column), None, Inline(us[i].text))
  {
    if us == [] then []
    else NewCells(us[..|us| - 1]) + [Cell(Some(us[|us| - 1].column), None, Inline(us[|us| - 1].text))]
  }

  function SortKey(c: Cell): nat {
    if c.column.Some? then ColIndex(c.column.value) else 0
  }

  /** The order of cells on a row. */
  function ByColumn(): (Cell, Cell) -> bool {
    (a: Cell, b: Cell) => SortKey(a) <= SortKey(b)
  }

  function SortCells(cells: seq<Cell>): seq<Cell> {
    Sort(cells, ByColumn())
  }

  function Rewritten(cells: seq<Cell>, updates: seq<Update>): seq<Cell> {
    var kept := TakeCells(cells, updates);
    SortCells(kept.cells + NewCells(kept.left))
  }

  /** `_rewrite_row`: replace or insert the target cells, keeping column order. */
  method RewriteRow(cells: seq<Cell>, updates: seq<Update>) returns (r: seq<Cell>)
    ensures r == Rewritten(cells, updates)
  {
    var kept, left := [], updates;
    for i := 0 to |cells|
      invariant Kept(kept, left) == TakeCells(cells[..i], updates)
    {
      assert cells[..i + 1][..i] == cells[..i];
      var c := cells[i];
      if c.column.None? {
        kept := kept + [c];
        continue;
      }
      var text := FindUpdate(left, c.column.value);
      if text.Some? {
        kept := kept + [c.(content := Inline(text.value))];
        left := WithoutColumn(left, c.column.value);
      } else {
        kept := kept + [c];
      }
    }
    assert cells[..|cells|] == cells;
    for i := 0 to |left|
      invariant kept == TakeCells(cells, updates).cells + NewCells(left[..i])
    {
      assert left[..i + 1][..i] == left[..i];
      kept := kept + [Cell(Some(left[i].column), None, Inline(left[i].text))];
    }
    assert left[..|left|] == left;
    r := SortCells(kept);
  }

  // ----- statuses ----------------------------------------------------------------------

  datatype AsdStatus =
    | NotAssessed | Effective | AlternateControl | NotImplemented | Ineffective | NoVisibility | NotApplicable

  function AsdText(s: AsdStatus): string {
    match s
    case NotAssessed => "Not Assessed"
    case Effective => "Effective"
    case AlternateControl => "Alternate Control"
    case NotImplemented => "Not Implemented"
    case Ineffective => "Ineffective"
    case NoVisibility => "No Visibility"
    case NotApplicable => "Not Applicable"
  }

  const TRIED_AND_BLIND :=
    {"requires-attestation", "unreachable", "partial-population", "collection-error", "insufficient-privilege"}
  const OUTSIDE := {"out-of-scope", "unsupported-platform"}

  /** `status_for`: the sheet's own vocabulary for a row. */
  function StatusFor(row: ControlRow): AsdStatus {
    if row.status == "satisfied" then Effective
    else if row.status == "not-satisfied" then Ineffective
    else
      var reason := if row.reason.Some? then row.reason.value else "";
      if reason in TRIED_AND_BLIND then NoVisibility
      else if reason in OUTSIDE then NotApplicable
      else NotAssessed
  }

  // ----- the sheet ------------------------------------------------------------------------

  /** The value of the first cell in the control column, or nothing. */
  function Identifier(cells: seq<Cell>): string {
    if cells == [] then ""
    else if cells[0].column == Some(COL_CONTROL) then CellValue(cells[0])
    else Identifier(cells[1..])
  }

  /** `ISM-` in any case and three or four digits: the control id it stands for. */
  function ControlOf(identifier: string): Option<string> {
    var t := Strip(identifier);
    if 7 <= |t| <= 8 && Upper(t[..4]) == "ISM-" && AllDigits(t[4..]) then Some("ism-" + t[4..]) else None
  }

  /** The row of the report a sheet row is about, if there is one. */
  function Matched(cells: seq<Cell>, rows: map<string, ControlRow>): Option<ControlRow> {
    var control := ControlOf(Identifier(cells));
    if control.Some? && control.value in rows then Some(rows[control.value]) else None
  }

  /** Which report row a sheet row is about, and what is written for it. */
  datatype Filing = Filing(
    pick: seq<Cell> -> Option<ControlRow>, status: ControlRow -> AsdStatus, comment: ControlRow -> string)

  /** The filing of a report: rows matched by control, in the sheet's own words. */
  function AsdFiling(rows: map<string, ControlRow>, comment: ControlRow -> string): Filing {
    Filing(cells => Matched(cells, rows), row => StatusFor(row), comment)
  }

  function UpdatesFor(f: Filing, row: ControlRow): seq<Update> {
    [Update(COL_STATUS, AsdText(f.status(row))), Update(COL_COMMENTS, f.comment(row))]
  }

  function Populated(cells: seq<Cell>, f: Filing): seq<Cell> {
    var row := f.pick(cells);
    if row.Some? then Rewritten(cells, UpdatesFor(f, row.value)) else cells
  }

  function EachPopulated(sheet: seq<seq<Cell>>, f: Filing): (r: seq<seq<Cell>>)
    ensures |r| == |sheet|
  {
    if sheet == [] then [] else EachPopulated(sheet[..|sheet| - 1], f) + [Populated(sheet[|sheet| - 1], f)]
  }

  /** What a sheet row is given, if anything. */
  function GivenTo(cells: seq<Cell>, f: Filing): Option<AsdStatus> {
    var row := f.pick(cells);
    if row.Some? then Some(f.status(row.value)) else None
  }

  function Given(sheet: seq<seq<Cell>>, f: Filing): (r: seq<Option<AsdStatus>>)
    ensures |r| == |sheet|
  {
    if sheet == [] then [] else Given(sheet[..|sheet| - 1], f) + [GivenTo(sheet[|sheet| - 1], f)]
  }

  function Occurrences(given: seq<Option<AsdStatus>>, s: AsdStatus): nat {
    multiset(given)[Some(s)]
  }

  /** The counters hold how often each status was given, and how often any was. */
  ghost predicate Counted(given: seq<Option<AsdStatus>>, written: nat, byStatus: map<AsdStatus, nat>) {
    && written + multiset(given)[None] == |given|
    && forall s :: (s in byStatus <==> Occurrences(given, s) > 0)
                   && (s in byStatus ==> byStatus[s] == Occurrences(given, s))
  }

  function BumpStatus(m: map<AsdStatus, nat>, s: AsdStatus): map<AsdStatus, nat> {
    m[s := (if s in m then m[s] else 0) + 1]
  }

  lemma CountedNext(given: seq<Option<AsdStatus>>, written: nat, byStatus: map<AsdStatus, nat>, g: Option<AsdStatus>)
    requires Counted(given, written, byStatus)
    ensures g.None? ==> Counted(given + [g], written, byStatus)
    ensures g.Some? ==> Counted(given + [g], written + 1, BumpStatus(byStatus, g.value))
  {
  }

  /** `replace_row`: what the sheet row becomes, and the status it was given. */
  method ReplaceRow(cells: seq<Cell>, f: Filing) returns (given: Option<AsdStatus>, r: seq<Cell>)
    ensures given == GivenTo(cells, f) && r == Populated(cells, f)
  {
    var row := f.pick(cells);
    if row.None? { return None, cells; }
    r := RewriteRow(cells, UpdatesFor(f, row.value));
    given := Some(f.status(row.value));
  }

  /** The loop over the sheet: every picked row rewritten, every other row as it was, and a count of both kinds. */
  method PopulateWith(sheet: seq<seq<Cell>>, f: Filing)
    returns (result: seq<seq<Cell>>, written: nat, byStatus: map<AsdStatus, nat>)
    ensures result == EachPopulated(sheet, f)
    ensures Counted(Given(sheet, f), written, byStatus)
  {
    result, written, byStatus := [], 0, map[];
    for i := 0 to |sheet|
      invariant result == EachPopulated(sheet[..i], f)
      invariant Counted(Given(sheet[..i], f), written, byStatus)
    {
      assert sheet[..i + 1][..i] == sheet[..i];
      var given, cells := ReplaceRow(sheet[i], f);
      CountedNext(Given(sheet[..i], f), written, byStatus, given);
      result := result + [cells];
      if given.Some? {
        written := written + 1;
        byStatus := BumpStatus(byStatus, given.value);
      }
    }
    assert sheet[..|sheet|] == sheet;
  }

  /** The rows of a report by their control; of several for one control the last counts. */
  function ByControl(rows: seq<ControlRow>): map<string, ControlRow> {
    if rows == [] then map[] else ByControl(rows[..|rows| - 1])[rows[|rows| - 1].controlId := rows[|rows| - 1]]
  }

  /** The filing `populate` works with. */
  function FilingOf(report: Report, comment: ControlRow -> string): Filing {
    AsdFiling(ByControl(report.rows), comment)
  }

  /** `populate`: the sheet filled in from a report. */
  method Populate(sheet: seq<seq<Cell>>, report: Report, comment: ControlRow -> string)
    returns (result: seq<seq<Cell>>, written: nat, byStatus: map<AsdStatus, nat>)
    ensures result == EachPopulated(sheet, FilingOf(report, comment))
    ensures Counted(Given(sheet, FilingOf(report, comment)), written, byStatus)
  {
    result, written, byStatus := PopulateWith(sheet, FilingOf(report, comment));
  }
}

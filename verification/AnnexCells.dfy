/** What the cells of a filled-in row read, and in whose words. */
module AnnexCells {
  import opened Text
  import opened Json
  import opened Report
  import opened Annex
  import opened AnnexTheorems
  import opened AnnexSheet

  // ----- rewritten cells ------------------------------------------------------------------

  lemma {:induction false} SomeCellOf(cells: seq<Cell>, k: Column)
    ensures k in Columns(cells) <==> exists c :: c in cells && c.column == Some(k)
  {
    if cells != [] {
      var rest, last := cells[..|cells| - 1], cells[|cells| - 1];
      assert cells == rest + [last];
      SomeCellOf(rest, k);
    }
  }

  /** A cell of a rewritten row reads the text meant for its column, and a column without one has the cells it had. */
  lemma CellReads(cells: seq<Cell>, us: seq<Update>, u: Update, c: Cell)
    requires DistinctColumns(cells) && DistinctUpdates(us) && u in us && c in Rewritten(cells, us)
    ensures c.column == Some(u.column) ==> c.content == Inline(u.text)
  {
    FindExact(us, u);
    RewrittenHas(cells, us, c);
    if v :| v in us && c == Cell(Some(v.column), None, Inline(v.text)) {
      FindExact(us, v);
    }
  }

  lemma {:induction false} NoTextFor(us: seq<Update>, k: Column)
    requires forall u :: u in us ==> u.column != k
    ensures FindUpdate(us, k).None?
  {
    if us != [] {
      assert us[0] in us && forall u :: u in us[1..] ==> u in us;
      NoTextFor(us[1..], k);
    }
  }

  /** No text is meant for the cell. */
  ghost predicate Spared(us: seq<Update>, c: Cell) {
    c.column.None? || forall u :: u in us ==> u.column != c.column.value
  }

  lemma SparedIsItself(us: seq<Update>, c: Cell)
    requires Spared(us, c)
    ensures TargetOf(c, us) == c
  {
    if c.column.Some? {
      NoTextFor(us, c.column.value);
    }
  }

  lemma SparedStays(cells: seq<Cell>, us: seq<Update>, c: Cell)
    requires DistinctColumns(cells) && Spared(us, c) && c in cells
    ensures c in Rewritten(cells, us)
  {
    var i :| 0 <= i < |cells| && cells[i] == c;
    SparedIsItself(us, c);
    RewrittenExact(cells, us);
    assert Targets(cells, us)[i] == c;
    assert c in multiset(Targets(cells, us));
    assert c in multiset(Rewritten(cells, us));
  }

  /** Every other cell stays, and no other appears. */
  lemma OthersStay(cells: seq<Cell>, us: seq<Update>, c: Cell)
    requires DistinctColumns(cells) && Spared(us, c)
    ensures c in Rewritten(cells, us) <==> c in cells
  {
    if c in Rewritten(cells, us) {
      RewrittenHas(cells, us, c);
      if x :| x in cells && c == TargetOf(x, us) {
        assert x.column == c.column;
        SparedIsItself(us, x);
      }
    }
    if c in cells {
      SparedStays(cells, us, c);
    }
  }

  // ----- the two columns ---------------------------------------------------------------------

  lemma TwoUpdates(f: Filing, row: ControlRow, status: Column, comments: Column)
    requires status == "K" && comments == "L"
    ensures var us := UpdatesFor(f, row);
            && Update(status, AsdText(f.status(row))) in us && Update(comments, f.comment(row)) in us
            && DistinctUpdates(us)
            && forall c: Cell :: c.column != Some(status) && c.column != Some(comments) ==> Spared(us, c)
  {
    UpdatesAreGood(f, row);
    assert UpdatesFor(f, row)[0].column == status && UpdatesFor(f, row)[1].column == comments;
  }

  /** A filled-in row: status in column K, comment in column L, and every other cell as it was. */
  ghost predicate IsFilledIn(before: seq<Cell>, after: seq<Cell>, status: Column, statusText: string, comments: Column,
                             commentText: string) {
    && (exists c :: c in after && c.column == Some(status)) && (exists c :: c in after && c.column == Some(comments))
    && (forall c :: c in after && c.column == Some(status) ==> CellValue(c) == statusText)
    && (forall c :: c in after && c.column == Some(comments) ==> CellValue(c) == commentText)
    && forall c: Cell :: c.column != Some(status) && c.column != Some(comments) ==> (c in after <==> c in before)
  }

  lemma FillsIn(cells: seq<Cell>, f: Filing, row: ControlRow, status: Column, comments: Column)
    requires DistinctColumns(cells) && status == "K" && comments == "L"
    ensures IsFilledIn(cells, Rewritten(cells, UpdatesFor(f, row)), status, AsdText(f.status(row)), comments,
                       f.comment(row))
  {
    TwoUpdates(f, row, status, comments);
    FilledIn(cells, UpdatesFor(f, row), Update(status, AsdText(f.status(row))), Update(comments, f.comment(row)));
  }

  lemma FilledIn(cells: seq<Cell>, us: seq<Update>, u: Update, v: Update)
    requires DistinctColumns(cells) && DistinctUpdates(us) && u in us && v in us
    requires forall c: Cell :: c.column != Some(u.column) && c.column != Some(v.column) ==> Spared(us, c)
    ensures IsFilledIn(cells, Rewritten(cells, us), u.column, u.text, v.column, v.text)
  {
    var r := Rewritten(cells, us);
    RewrittenColumns(cells, us);
    SomeCellOf(r, u.column);
    SomeCellOf(r, v.column);
    forall c | c in r
      ensures c.column == Some(u.column) ==> CellValue(c) == u.text
      ensures c.column == Some(v.column) ==> CellValue(c) == v.text
    {
      CellReads(cells, us, u, c);
      CellReads(cells, us, v, c);
    }
    forall c: Cell | c.column != Some(u.column) && c.column != Some(v.column) ensures c in r <==> c in cells {
      OthersStay(cells, us, c);
    }
  }

  // ----- the words -------------------------------------------------------------------------------

  /** The sheet's words for a row, in the report's words. */
  ghost predicate Says(row: ControlRow, text: string) {
    var reason := if row.reason.Some? then row.reason.value else "";
    if row.status == "satisfied" then text == "Effective"
    else if row.status == "not-satisfied" then text == "Ineffective"
    else if reason == "requires-attestation" || reason == "unreachable" || reason == "partial-population"
            || reason == "collection-error" || reason == "insufficient-privilege" then text == "No Visibility"
    else if reason == "out-of-scope" || reason == "unsupported-platform" then text == "Not Applicable"
    else text == "Not Assessed"
  }

  lemma SaysStatus(row: ControlRow)
    ensures Says(row, AsdText(StatusFor(row)))
  {
  }

  /** In the filled-in sheet a matched row reads its control's status in column K and its comment in column L. */
  lemma MatchedReads(sheet: seq<seq<Cell>>, i: nat, report: Report, comment: ControlRow -> string, control: string,
                     status: Column, comments: Column)
    requires i < |sheet| && DistinctColumns(sheet[i]) && NamesControl(sheet[i], report, control)
    requires status == "K" && comments == "L"
    ensures control in ByControl(report.rows)
    ensures var row, after := RowFor(report, control), EachPopulated(sheet, FilingOf(report, comment))[i];
            exists text :: Says(row, text) && IsFilledIn(sheet[i], after, status, text, comments, comment(row))
  {
    MatchedIsRewritten(sheet, i, report, comment, control);
    var row := RowFor(report, control);
    FillsIn(sheet[i], FilingOf(report, comment), row, status, comments);
    SaysStatus(row);
  }

  // ----- identifiers -----------------------------------------------------------------------------

  /** The control's prefix as the sheet may spell it. */
  ghost predicate IsPrefix(p: string) {
    Upper(p) == "ISM-"
  }

  ghost predicate Identifies(t: string, digits: string) {
    3 <= |digits| <= 4 && AllDigits(digits) && exists p :: IsPrefix(p) && t == p + digits
  }

  /** An identifier stands for a control just when, trimmed, it is the prefix in any case and three or four digits. */
  lemma ControlOfExact(identifier: string, digits: string)
    ensures ControlOf(identifier) == Some("ism-" + digits) <==> Identifies(Strip(identifier), digits)
  {
    var t := Strip(identifier);
    if ControlOf(identifier) == Some("ism-" + digits) {
      SameDigits("ism-", t[4..], digits);
      assert t == t[..4] + digits && IsPrefix(t[..4]);
    }
    if Identifies(t, digits) {
      var p :| IsPrefix(p) && t == p + digits;
      assert |p| == |Upper(p)| == 4;
      assert t[..4] == p && t[4..] == digits;
    }
  }

  lemma SameDigits(p: string, d: string, e: string)
    requires p + d == p + e
    ensures d == e
  {
    assert d == (p + d)[|p|..] && e == (p + e)[|p|..];
  }
}

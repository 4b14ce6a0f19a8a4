/** Rewriting a row of the Annex changes two cells and nothing else, keeps column order, and can be repeated. */
module AnnexTheorems {
  import opened Text
  import opened Lists
  import opened Annex

  // ----- columns ----------------------------------------------------------------------

  /** The smallest and the largest place of a column of `n` letters: `A..A` and `Z..Z`. */
  function First(n: nat): nat {
    if n == 0 then 0 else 26 * First(n - 1) + 1
  }

  function Last(n: nat): nat {
    if n == 0 then 0 else 26 * Last(n - 1) + 26
  }

  lemma {:induction false} NextLength(n: nat)
    ensures First(n + 1) == Last(n) + 1
  {
    if n > 0 {
      NextLength(n - 1);
    }
  }

  lemma {:induction false} IndexInRange(s: string)
    requires IsLetters(s)
    ensures First(|s|) <= ColIndex(s) <= Last(|s|)
  {
    if s != "" {
      IndexInRange(s[..|s| - 1]);
    }
  }

  lemma {:induction false} LastGrows(m: nat, n: nat)
    requires m <= n
    ensures Last(m) <= Last(n)
  {
    if m < n {
      LastGrows(m, n - 1);
    }
  }

  /** Order of columns on a sheet: fewer letters first, then letter by letter. */
  predicate Before(s: string, t: string) {
    |s| < |t| || (|s| == |t| && LettersBefore(s, t))
  }

  predicate LettersBefore(s: string, t: string)
    requires |s| == |t|
  {
    s != "" && (LettersBefore(s[..|s| - 1], t[..|s| - 1]) || (s[..|s| - 1] == t[..|s| - 1] && s[|s| - 1] < t[|s| - 1]))
  }

  /** A later letter weighs less than an earlier one. */
  lemma LastLetterWeighsLeast(a: nat, b: nat, x: nat, y: nat)
    requires 1 <= x <= 26 && 1 <= y <= 26
    ensures 26 * a + x < 26 * b + y <==> a < b || (a == b && x < y)
    ensures 26 * a + x == 26 * b + y <==> a == b && x == y
  {
  }

  lemma {:induction false} SameLengthOrder(s: string, t: string)
    requires IsLetters(s) && IsLetters(t) && |s| == |t|
    ensures ColIndex(s) < ColIndex(t) <==> LettersBefore(s, t)
    ensures ColIndex(s) == ColIndex(t) <==> s == t
  {
    if s != "" {
      var n := |s| - 1;
      var u, v, x, y := s[..n], t[..n], s[n], t[n];
      assert s == u + [x] && t == v + [y];
      SameLengthOrder(u, v);
      LastLetterWeighsLeast(ColIndex(u), ColIndex(v), LetterValue(x), LetterValue(y));
    }
  }

  /** The index orders columns as the sheet does, and no two columns share one. */
  lemma {:induction false} ColIndexExact(s: string, t: string)
    requires IsLetters(s) && IsLetters(t)
    ensures ColIndex(s) < ColIndex(t) <==> Before(s, t)
    ensures ColIndex(s) == ColIndex(t) <==> s == t
  {
    IndexInRange(s);
    IndexInRange(t);
    if |s| == |t| {
      SameLengthOrder(s, t);
    } else if |s| < |t| {
      LastGrows(|s|, |t| - 1);
      NextLength(|t| - 1);
    } else {
      LastGrows(|t|, |s| - 1);
      NextLength(|s| - 1);
    }
  }

  // ----- rows ---------------------------------------------------------------------------

  function BagOf(c: Cell): multiset<Column> {
    if c.column.Some? then multiset{c.column.value} else multiset{}
  }

  /** The columns a row refers to, with repeats. */
  function Columns(cells: seq<Cell>): multiset<Column> {
    if cells == [] then multiset{} else Columns(cells[..|cells| - 1]) + BagOf(cells[|cells| - 1])
  }

  ghost predicate DistinctColumns(cells: seq<Cell>) {
    forall k :: Columns(cells)[k] <= 1
  }

  ghost predicate DistinctUpdates(us: seq<Update>) {
    forall i, j :: 0 <= i < j < |us| ==> us[i].column != us[j].column
  }

  ghost predicate KeysSorted(cells: seq<Cell>) {
    forall i, j :: 0 <= i < j < |cells| ==> SortKey(cells[i]) <= SortKey(cells[j])
  }

  /** What becomes of a cell: the text waiting for its column, in its own style, or itself. */
  function TargetOf(c: Cell, us: seq<Update>): Cell {
    if c.column.Some? && FindUpdate(us, c.column.value).Some?
    then c.(content := Inline(FindUpdate(us, c.column.value).value)) else c
  }

  function Targets(cells: seq<Cell>, us: seq<Update>): (r: seq<Cell>)
    ensures |r| == |cells| && forall i :: 0 <= i < |cells| ==> r[i] == TargetOf(cells[i], us)
  {
    if cells == [] then [] else Targets(cells[..|cells| - 1], us) + [TargetOf(cells[|cells| - 1], us)]
  }

  /** The updates whose column the row does not have. */
  function Missing(us: seq<Update>, columns: multiset<Column>): (r: seq<Update>)
    ensures forall u :: u in r <==> u in us && u.column !in columns
  {
    if us == [] then []
    else (if us[0].column in columns then [] else [us[0]]) + Missing(us[1..], columns)
  }

  lemma {:induction false} MissingStep(us: seq<Update>, columns: multiset<Column>, k: Column)
    ensures WithoutColumn(Missing(us, columns), k) == Missing(us, columns + multiset{k})
  {
    if us != [] {
      MissingStep(us[1..], columns, k);
      WithoutAppend(if us[0].column in columns then [] else [us[0]], Missing(us[1..], columns), k);
    }
  }

  lemma {:induction false} WithoutAppend(a: seq<Update>, b: seq<Update>, k: Column)
    ensures WithoutColumn(a + b, k) == WithoutColumn(a, k) + WithoutColumn(b, k)
  {
    if a == [] {
      assert a + b == b;
    } else {
      assert (a + b)[1..] == a[1..] + b;
      WithoutAppend(a[1..], b, k);
    }
  }

  lemma {:induction false} FindMissing(us: seq<Update>, columns: multiset<Column>, k: Column)
    requires k !in columns
    ensures FindUpdate(Missing(us, columns), k) == FindUpdate(us, k)
  {
    if us != [] {
      FindMissing(us[1..], columns, k);
      var head := if us[0].column in columns then [] else [us[0]];
      if head == [] {
        assert head + Missing(us[1..], columns) == Missing(us[1..], columns);
      } else {
        assert (head + Missing(us[1..], columns))[1..] == Missing(us[1..], columns);
      }
    }
  }

  /** With distinct columns, every update lands in its cell, and the ones left are those without a cell. */
  lemma {:induction false} TakeExact(cells: seq<Cell>, us: seq<Update>)
    requires DistinctColumns(cells)
    ensures TakeCells(cells, us) == Kept(Targets(cells, us), Missing(us, Columns(cells)))
  {
    if cells == [] {
      MissingNothing(us);
    } else {
      var rest, c := cells[..|cells| - 1], cells[|cells| - 1];
      forall k ensures Columns(rest)[k] <= 1 {
        assert Columns(cells)[k] == Columns(rest)[k] + BagOf(c)[k];
      }
      TakeExact(rest, us);
      if c.column.Some? {
        var k := c.column.value;
        assert Columns(cells)[k] == Columns(rest)[k] + 1;
        FindMissing(us, Columns(rest), k);
        MissingStep(us, Columns(rest), k);
        if FindUpdate(us, k).None? {
          WithoutAbsent(Missing(us, Columns(rest)), k);
        }
      } else {
        assert Columns(cells) == Columns(rest);
      }
    }
  }

  lemma {:induction false} MissingNothing(us: seq<Update>)
    ensures Missing(us, multiset{}) == us
  {
    if us != [] {
      MissingNothing(us[1..]);
    }
  }

  /** Exactly which cells a rewritten row has: its own, two of them possibly refilled, and those it lacked. */
  lemma RewrittenExact(cells: seq<Cell>, us: seq<Update>)
    requires DistinctColumns(cells)
    ensures multiset(Rewritten(cells, us)) == multiset(Targets(cells, us))
        + multiset(NewCells(Missing(us, Columns(cells))))
  {
    TakeExact(cells, us);
    SortKeeps(Targets(cells, us) + NewCells(Missing(us, Columns(cells))), ByColumn());
  }

  // ----- order ---------------------------------------------------------------------------------

  lemma ColumnsNext(cells: seq<Cell>, c: Cell)
    ensures Columns(cells + [c]) == Columns(cells) + BagOf(c)
  {
    assert (cells + [c])[..|cells|] == cells;
  }

  lemma {:induction false} ColumnsOfInsert(cells: seq<Cell>, c: Cell, leq: (Cell, Cell) -> bool)
    ensures Columns(Insert(cells, c, leq)) == Columns(cells) + BagOf(c)
  {
    if cells == [] || leq(cells[|cells| - 1], c) {
      ColumnsNext(cells, c);
    } else {
      ColumnsOfInsert(cells[..|cells| - 1], c, leq);
      ColumnsNext(Insert(cells[..|cells| - 1], c, leq), cells[|cells| - 1]);
    }
  }

  lemma {:induction false} ColumnsOfSort(cells: seq<Cell>, leq: (Cell, Cell) -> bool)
    ensures Columns(Sort(cells, leq)) == Columns(cells)
  {
    if cells != [] {
      ColumnsOfSort(cells[..|cells| - 1], leq);
      ColumnsOfInsert(Sort(cells[..|cells| - 1], leq), cells[|cells| - 1], leq);
    }
  }

  lemma SortSorts(cells: seq<Cell>)
    ensures KeysSorted(SortCells(cells))
  {
    SortOrders(cells, ByColumn());
  }

  lemma SortOfSorted(cells: seq<Cell>)
    requires KeysSorted(cells)
    ensures SortCells(cells) == cells
  {
    SortOfOrdered(cells, ByColumn());
  }

  lemma {:induction false} ColumnsAppend(a: seq<Cell>, b: seq<Cell>)
    ensures Columns(a + b) == Columns(a) + Columns(b)
  {
    if b == [] {
      assert a + b == a;
    } else {
      assert (a + b)[..|a + b| - 1] == a + b[..|b| - 1];
      ColumnsAppend(a, b[..|b| - 1]);
    }
  }

  lemma {:induction false} ColumnsOfTargets(cells: seq<Cell>, us: seq<Update>)
    ensures Columns(Targets(cells, us)) == Columns(cells)
  {
    if cells != [] {
      var rest, t := cells[..|cells| - 1], TargetOf(cells[|cells| - 1], us);
      ColumnsOfTargets(rest, us);
      assert (Targets(rest, us) + [t])[..|rest|] == Targets(rest, us);
    }
  }

  /** Some update is waiting for the column. */
  ghost predicate Waits(us: seq<Update>, k: Column) {
    exists u :: u in us && u.column == k
  }

  lemma NewCellsNext(us: seq<Update>, u: Update)
    ensures Columns(NewCells(us + [u])) == Columns(NewCells(us)) + multiset{u.column}
  {
    assert (us + [u])[..|us|] == us;
    ColumnsNext(NewCells(us), Cell(Some(u.column), None, Inline(u.text)));
  }

  lemma DistinctLast(rest: seq<Update>, u: Update)
    requires DistinctUpdates(rest + [u])
    ensures DistinctUpdates(rest) && !Waits(rest, u.column)
  {
    var us := rest + [u];
    assert forall i :: 0 <= i < |rest| ==> us[i] == rest[i] && us[i].column != us[|rest|].column;
  }

  lemma {:induction false} ColumnsOfNew(us: seq<Update>, k: Column)
    requires DistinctUpdates(us)
    ensures Columns(NewCells(us))[k] == if Waits(us, k) then 1 else 0
  {
    if us != [] {
      var rest, u := us[..|us| - 1], us[|us| - 1];
      assert us == rest + [u];
      DistinctLast(rest, u);
      ColumnsOfNew(rest, k);
      NewCellsNext(rest, u);
      assert Waits(us, k) <==> Waits(rest, k) || u.column == k;
    }
  }

  lemma {:induction false} MissingDistinct(us: seq<Update>, columns: multiset<Column>)
    requires DistinctUpdates(us)
    ensures DistinctUpdates(Missing(us, columns))
  {
    if us != [] {
      assert DistinctUpdates(us[1..]) by {
        forall i, j | 0 <= i < j < |us[1..]| ensures us[1..][i].column != us[1..][j].column {
          assert us[i + 1].column != us[j + 1].column;
        }
      }
      MissingDistinct(us[1..], columns);
      forall u | u in Missing(us[1..], columns) ensures u.column != us[0].column {
        var i :| 0 <= i < |us[1..]| && us[1..][i] == u;
        assert us[0].column != us[i + 1].column;
      }
    }
  }

  /** The columns of a rewritten row: those it had and those of the updates, each once. */
  lemma RewrittenColumns(cells: seq<Cell>, us: seq<Update>)
    requires DistinctColumns(cells) && DistinctUpdates(us)
    ensures DistinctColumns(Rewritten(cells, us))
    ensures forall k :: k in Columns(Rewritten(cells, us)) <==>
              k in Columns(cells) || exists u :: u in us && u.column == k
  {
    var left := Missing(us, Columns(cells));
    TakeExact(cells, us);
    ColumnsOfSort(Targets(cells, us) + NewCells(left), ByColumn());
    ColumnsAppend(Targets(cells, us), NewCells(left));
    ColumnsOfTargets(cells, us);
    MissingDistinct(us, Columns(cells));
    forall k
      ensures Columns(Rewritten(cells, us))[k] <= 1
      ensures k in Columns(Rewritten(cells, us)) <==> k in Columns(cells) || exists u :: u in us && u.column == k
    {
      ColumnsOfNew(left, k);
      assert Columns(Rewritten(cells, us))[k] == Columns(cells)[k] + Columns(NewCells(left))[k];
      if u :| u in us && u.column == k && k !in Columns(cells) {
        assert u in left;
      }
    }
  }

  lemma {:induction false} TwoOfAColumn(cells: seq<Cell>, i: nat, j: nat)
    requires i < j < |cells| && cells[i].column.Some? && cells[i].column == cells[j].column
    ensures Columns(cells)[cells[i].column.value] >= 2
  {
    var rest, last := cells[..|cells| - 1], cells[|cells| - 1];
    if j < |rest| {
      TwoOfAColumn(rest, i, j);
    } else {
      OneOfAColumn(rest, i);
    }
  }

  lemma {:induction false} OneOfAColumn(cells: seq<Cell>, i: nat)
    requires i < |cells| && cells[i].column.Some?
    ensures Columns(cells)[cells[i].column.value] >= 1
  {
    if i < |cells| - 1 {
      OneOfAColumn(cells[..|cells| - 1], i);
    }
  }

  /** Cells without a reference come first; after them the columns rise strictly. */
  lemma RewrittenInOrder(cells: seq<Cell>, us: seq<Update>, i: nat, j: nat)
    requires DistinctColumns(cells) && DistinctUpdates(us) && i < j < |Rewritten(cells, us)|
    ensures var a, b := Rewritten(cells, us)[i].column, Rewritten(cells, us)[j].column;
            b.Some? ==> a.None? || Before(a.value, b.value)
    ensures Rewritten(cells, us)[i].column.Some? ==> Rewritten(cells, us)[j].column.Some?
  {
    var r := Rewritten(cells, us);
    var kept := TakeCells(cells, us);
    SortSorts(kept.cells + NewCells(kept.left));
    RewrittenColumns(cells, us);
    assert SortKey(r[i]) <= SortKey(r[j]);
    if r[i].column.Some? {
      assert r[i].column.value != "" by { IndexInRange(r[i].column.value); }
      PositiveIndex(r[i].column.value);
      if r[j].column.Some? {
        ColIndexExact(r[i].column.value, r[j].column.value);
        if r[i].column == r[j].column {
          TwoOfAColumn(r, i, j);
        }
      }
    }
  }

  lemma PositiveIndex(s: Column)
    ensures ColIndex(s) > 0
  {
  }

  // ----- doing it twice ----------------------------------------------------------------------------

  lemma {:induction false} FindExact(us: seq<Update>, u: Update)
    requires DistinctUpdates(us) && u in us
    ensures FindUpdate(us, u.column) == Some(u.text)
  {
    if us[0] != u {
      var i :| 0 <= i < |us| && us[i] == u;
      assert us[0].column != us[i].column;
      assert us[1..][i - 1] == u;
      assert DistinctUpdates(us[1..]) by {
        forall a, b | 0 <= a < b < |us[1..]| ensures us[1..][a].column != us[1..][b].column {
          assert us[a + 1].column != us[b + 1].column;
        }
      }
      FindExact(us[1..], u);
    }
  }

  /** Nothing is left to change in a rewritten row. */
  lemma RewrittenIsDone(cells: seq<Cell>, us: seq<Update>)
    requires DistinctColumns(cells) && DistinctUpdates(us)
    ensures Targets(Rewritten(cells, us), us) == Rewritten(cells, us)
  {
    var r := Rewritten(cells, us);
    forall i | 0 <= i < |r| ensures TargetOf(r[i], us) == r[i] {
      RewrittenHas(cells, us, r[i]);
      if x :| x in cells && r[i] == TargetOf(x, us) {
      } else {
        var u :| u in us && r[i] == Cell(Some(u.column), None, Inline(u.text));
        FindExact(us, u);
      }
    }
  }

  lemma RewrittenHas(cells: seq<Cell>, us: seq<Update>, c: Cell)
    requires DistinctColumns(cells) && c in Rewritten(cells, us)
    ensures || (exists x :: x in cells && c == TargetOf(x, us))
            || exists u :: u in us && c == Cell(Some(u.column), None, Inline(u.text))
  {
    var left := Missing(us, Columns(cells));
    RewrittenExact(cells, us);
    InOneOf(Rewritten(cells, us), Targets(cells, us), NewCells(left), c);
    if c in Targets(cells, us) {
      var j :| 0 <= j < |cells| && Targets(cells, us)[j] == c;
      assert cells[j] in cells;
    } else {
      var j :| 0 <= j < |left| && NewCells(left)[j] == c;
      assert left[j] in left;
    }
  }

  lemma InOneOf<T>(all: seq<T>, a: seq<T>, b: seq<T>, x: T)
    requires multiset(all) == multiset(a) + multiset(b) && x in all
    ensures x in a || x in b
  {
    assert x in multiset(all);
  }

  /** Rewriting a row a second time changes nothing. */
  lemma RewriteIdempotent(cells: seq<Cell>, us: seq<Update>)
    requires DistinctColumns(cells) && DistinctUpdates(us)
    ensures Rewritten(Rewritten(cells, us), us) == Rewritten(cells, us)
  {
    var r := Rewritten(cells, us);
    var kept := TakeCells(cells, us);
    RewrittenColumns(cells, us);
    RewrittenIsDone(cells, us);
    TakeExact(r, us);
    NonEmpty(Missing(us, Columns(r)));
    assert r + NewCells([]) == r;
    SortSorts(kept.cells + NewCells(kept.left));
    SortOfSorted(r);
  }

  lemma {:induction false} WithoutAbsent(us: seq<Update>, k: Column)
    requires FindUpdate(us, k).None?
    ensures WithoutColumn(us, k) == us
  {
    if us != [] {
      WithoutAbsent(us[1..], k);
    }
  }
}

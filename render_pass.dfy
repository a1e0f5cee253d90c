/**
 * The cell loop of `render` as pure functions: what one visit to a cell does
 * to the committed cell, to the pending cell and to the output, and what a
 * whole top-to-bottom, left-to-right pass does to both grids and the output.
 */
module RenderPass {
  import opened Cells
  import opened Escapes

  /** `cellIsCursor`: the pointer position is compared with every cell, whatever `renderMouse` is. */
  predicate IsCursor(h: int, w: int, mouseX: int, mouseY: int) {
    mouseX == w && mouseY == h
  }

  /** The cursor block: a space in white on white. */
  function CursorBlock(h: nat, w: nat): Emit {
    Draw(h + 1, w + 1, White, White, " ")
  }

  /** A visit to one cell: the committed cell, the pending cell and the output it leaves. */
  datatype CellStep = CellStep(committed: Cell, pending: Cell, drawn: seq<Emit>)

  /** One iteration of the cell loop, on committed cell `c` and pending cell `p` at row `h`, column `w`. */
  function RenderCell(h: nat, w: nat, c: Cell, p: Cell, isCursor: bool): (r: CellStep)
    ensures |r.drawn| <= 1
    ensures r.drawn != [] <==> isCursor || c.wasCursor || Changed(p)
    ensures isCursor ==> r.drawn == [CursorBlock(h, w)] && r.pending == p && r.committed.wasCursor
    ensures !isCursor ==> !Changed(r.pending)
    ensures !isCursor && r.drawn != [] ==>
              r.drawn[0] == Draw(h + 1, w + 1, r.committed.fg, r.committed.bg, r.committed.ch)
    ensures !isCursor && Changed(p) ==> r.committed == p && r.pending == DefaultCell
    ensures isCursor || !Changed(p) ==>
              r.committed.fg == c.fg && r.committed.bg == c.bg && r.committed.ch == c.ch
    ensures !isCursor && !Changed(p) ==> !r.committed.wasCursor && r.pending == p
  {
    if isCursor then
      CellStep(c.(wasCursor := true), p, [CursorBlock(h, w)])
    else if c.wasCursor && !Changed(p) then
      CellStep(c.(wasCursor := false), p, [Draw(h + 1, w + 1, c.fg, c.bg, c.ch)])
    else if Changed(p) then
      CellStep(p, DefaultCell, [Draw(h + 1, w + 1, p.fg, p.bg, p.ch)])
    else
      CellStep(c, p, [])
  }

  /** The visit to cell (h, w) of committed grid `cg` and pending grid `pg`. */
  function StepAt(cg: Grid, pg: Grid, mouseX: int, mouseY: int, h: nat, w: nat): CellStep
    requires SameShape(cg, pg) && h < |cg| && w < |cg[h]|
  {
    RenderCell(h, w, cg[h][w], pg[h][w], IsCursor(h, w, mouseX, mouseY))
  }

  /** Row `h` of the committed grid once the visits to that row are done. */
  function RowCommitted(cg: Grid, pg: Grid, mouseX: int, mouseY: int, h: nat): (r: seq<Cell>)
    requires SameShape(cg, pg) && h < |cg|
    ensures |r| == |cg[h]|
  {
    seq(|cg[h]|, w requires 0 <= w < |cg[h]| => StepAt(cg, pg, mouseX, mouseY, h, w).committed)
  }

  /** Row `h` of the pending grid once the visits to that row are done. */
  function RowPending(cg: Grid, pg: Grid, mouseX: int, mouseY: int, h: nat): (r: seq<Cell>)
    requires SameShape(cg, pg) && h < |cg|
    ensures |r| == |cg[h]|
  {
    seq(|cg[h]|, w requires 0 <= w < |cg[h]| => StepAt(cg, pg, mouseX, mouseY, h, w).pending)
  }

  /** The committed grid after a pass. */
  function PassCommitted(cg: Grid, pg: Grid, mouseX: int, mouseY: int): (r: Grid)
    requires SameShape(cg, pg)
    ensures SameShape(r, cg)
  {
    seq(|cg|, h requires 0 <= h < |cg| => RowCommitted(cg, pg, mouseX, mouseY, h))
  }

  /** The pending grid after a pass. */
  function PassPending(cg: Grid, pg: Grid, mouseX: int, mouseY: int): (r: Grid)
    requires SameShape(cg, pg)
    ensures SameShape(r, cg)
  {
    seq(|cg|, h requires 0 <= h < |cg| => RowPending(cg, pg, mouseX, mouseY, h))
  }

  /** Row `h` of the committed grid once the visits to its first `n` cells are done. */
  function RowPrefixCommitted(cg: Grid, pg: Grid, mouseX: int, mouseY: int, h: nat, n: nat): (r: seq<Cell>)
    requires SameShape(cg, pg) && h < |cg| && n <= |cg[h]|
    ensures |r| == |cg[h]|
  {
    seq(|cg[h]|, w requires 0 <= w < |cg[h]| => if w < n then StepAt(cg, pg, mouseX, mouseY, h, w).committed else cg[h][w])
  }

  /** Row `h` of the pending grid once the visits to its first `n` cells are done. */
  function RowPrefixPending(cg: Grid, pg: Grid, mouseX: int, mouseY: int, h: nat, n: nat): (r: seq<Cell>)
    requires SameShape(cg, pg) && h < |cg| && n <= |cg[h]|
    ensures |r| == |cg[h]|
  {
    seq(|cg[h]|, w requires 0 <= w < |cg[h]| => if w < n then StepAt(cg, pg, mouseX, mouseY, h, w).pending else pg[h][w])
  }

  /** One more visit extends the finished part of the row by one cell. */
  lemma RowPrefixStep(cg: Grid, pg: Grid, mouseX: int, mouseY: int, h: nat, n: nat)
    requires SameShape(cg, pg) && h < |cg| && n < |cg[h]|
    ensures RowPrefixCommitted(cg, pg, mouseX, mouseY, h, n)[n] == cg[h][n]
    ensures RowPrefixPending(cg, pg, mouseX, mouseY, h, n)[n] == pg[h][n]
    ensures RowPrefixCommitted(cg, pg, mouseX, mouseY, h, n)[n := StepAt(cg, pg, mouseX, mouseY, h, n).committed] ==
            RowPrefixCommitted(cg, pg, mouseX, mouseY, h, n + 1)
    ensures RowPrefixPending(cg, pg, mouseX, mouseY, h, n)[n := StepAt(cg, pg, mouseX, mouseY, h, n).pending] ==
            RowPrefixPending(cg, pg, mouseX, mouseY, h, n + 1)
  {
  }

  /** Before any visit the row is as it was; after all of them it is the finished row. */
  lemma RowPrefixEnds(cg: Grid, pg: Grid, mouseX: int, mouseY: int, h: nat)
    requires SameShape(cg, pg) && h < |cg|
    ensures RowPrefixCommitted(cg, pg, mouseX, mouseY, h, 0) == cg[h]
    ensures RowPrefixPending(cg, pg, mouseX, mouseY, h, 0) == pg[h]
    ensures RowPrefixCommitted(cg, pg, mouseX, mouseY, h, |cg[h]|) == RowCommitted(cg, pg, mouseX, mouseY, h)
    ensures RowPrefixPending(cg, pg, mouseX, mouseY, h, |cg[h]|) == RowPending(cg, pg, mouseX, mouseY, h)
  {
  }

  /** The committed grid once its first `n` rows are done. */
  function PassPrefixCommitted(cg: Grid, pg: Grid, mouseX: int, mouseY: int, n: nat): (r: Grid)
    requires SameShape(cg, pg) && n <= |cg|
    ensures |r| == |cg|
  {
    seq(|cg|, h requires 0 <= h < |cg| => if h < n then RowCommitted(cg, pg, mouseX, mouseY, h) else cg[h])
  }

  /** The pending grid once its first `n` rows are done. */
  function PassPrefixPending(cg: Grid, pg: Grid, mouseX: int, mouseY: int, n: nat): (r: Grid)
    requires SameShape(cg, pg) && n <= |cg|
    ensures |r| == |cg|
  {
    seq(|cg|, h requires 0 <= h < |cg| => if h < n then RowPending(cg, pg, mouseX, mouseY, h) else pg[h])
  }

  lemma PassPrefixStep(cg: Grid, pg: Grid, mouseX: int, mouseY: int, n: nat)
    requires SameShape(cg, pg) && n < |cg|
    ensures PassPrefixCommitted(cg, pg, mouseX, mouseY, n)[n] == cg[n]
    ensures PassPrefixPending(cg, pg, mouseX, mouseY, n)[n] == pg[n]
    ensures PassPrefixCommitted(cg, pg, mouseX, mouseY, n)[n := RowCommitted(cg, pg, mouseX, mouseY, n)] ==
            PassPrefixCommitted(cg, pg, mouseX, mouseY, n + 1)
    ensures PassPrefixPending(cg, pg, mouseX, mouseY, n)[n := RowPending(cg, pg, mouseX, mouseY, n)] ==
            PassPrefixPending(cg, pg, mouseX, mouseY, n + 1)
  {
  }

  lemma PassPrefixEnds(cg: Grid, pg: Grid, mouseX: int, mouseY: int)
    requires SameShape(cg, pg)
    ensures PassPrefixCommitted(cg, pg, mouseX, mouseY, 0) == cg
    ensures PassPrefixPending(cg, pg, mouseX, mouseY, 0) == pg
    ensures PassPrefixCommitted(cg, pg, mouseX, mouseY, |cg|) == PassCommitted(cg, pg, mouseX, mouseY)
    ensures PassPrefixPending(cg, pg, mouseX, mouseY, |cg|) == PassPending(cg, pg, mouseX, mouseY)
  {
  }

  /** The output of the first `n` cells of row `h`. */
  function RowOutput(cg: Grid, pg: Grid, mouseX: int, mouseY: int, h: nat, n: nat): seq<Emit>
    requires SameShape(cg, pg) && h < |cg| && n <= |cg[h]|
  {
    if n == 0 then []
    else RowOutput(cg, pg, mouseX, mouseY, h, n - 1) + StepAt(cg, pg, mouseX, mouseY, h, n - 1).drawn
  }

  /** The output of the first `n` rows. */
  function RowsOutput(cg: Grid, pg: Grid, mouseX: int, mouseY: int, n: nat): seq<Emit>
    requires SameShape(cg, pg) && n <= |cg|
  {
    if n == 0 then []
    else RowsOutput(cg, pg, mouseX, mouseY, n - 1) + RowOutput(cg, pg, mouseX, mouseY, n - 1, |cg[n - 1]|)
  }

  /** The output of a whole pass. */
  function PassOutput(cg: Grid, pg: Grid, mouseX: int, mouseY: int): seq<Emit>
    requires SameShape(cg, pg)
  {
    RowsOutput(cg, pg, mouseX, mouseY, |cg|)
  }

  /** Some record of `out` draws the cell at 1-based (row, col). */
  predicate DrawnAt(out: seq<Emit>, row: int, col: int) {
    exists i :: 0 <= i < |out| && out[i].Draw? && out[i].row == row && out[i].col == col
  }

  /** `e` is a record drawn by the visit to its own cell. */
  predicate RecordOfCell(cg: Grid, pg: Grid, mouseX: int, mouseY: int, e: Emit)
    requires SameShape(cg, pg)
  {
    e.Draw? && 1 <= e.row <= |cg| && 1 <= e.col <= |cg[e.row - 1]| &&
    StepAt(cg, pg, mouseX, mouseY, e.row - 1, e.col - 1).drawn == [e]
  }

  /** Every record of `out` is drawn by the visit to its own cell. */
  predicate Records(cg: Grid, pg: Grid, mouseX: int, mouseY: int, out: seq<Emit>)
    requires SameShape(cg, pg)
  {
    forall i :: 0 <= i < |out| ==> RecordOfCell(cg, pg, mouseX, mouseY, out[i])
  }

  /** `a` and `b` are drawn cells, `a` earlier than `b` in row-major order. */
  predicate Before(a: Emit, b: Emit) {
    a.Draw? && b.Draw? && (a.row < b.row || (a.row == b.row && a.col < b.col))
  }

  /** The records of `out` are drawn cells in strictly increasing row-major order. */
  predicate RowMajor(out: seq<Emit>) {
    forall i, j :: 0 <= i < j < |out| ==> Before(out[i], out[j])
  }

  /** The cells a pass draws: the cursor cell, cells the cursor has left, cells with a pending change. */
  predicate Active(cg: Grid, pg: Grid, mouseX: int, mouseY: int, h: nat, w: nat)
    requires SameShape(cg, pg) && h < |cg| && w < |cg[h]|
  {
    IsCursor(h, w, mouseX, mouseY) || cg[h][w].wasCursor || Changed(pg[h][w])
  }

  lemma DrawnAtAppend(a: seq<Emit>, b: seq<Emit>, row: int, col: int)
    ensures DrawnAt(a + b, row, col) <==> DrawnAt(a, row, col) || DrawnAt(b, row, col)
  {
    if DrawnAt(a + b, row, col) {
      var i :| 0 <= i < |a + b| && (a + b)[i].Draw? && (a + b)[i].row == row && (a + b)[i].col == col;
      if i >= |a| {
        assert b[i - |a|] == (a + b)[i];
      } else {
        assert a[i] == (a + b)[i];
      }
    }
    if DrawnAt(a, row, col) {
      var i :| 0 <= i < |a| && a[i].Draw? && a[i].row == row && a[i].col == col;
      assert (a + b)[i] == a[i];
    }
    if DrawnAt(b, row, col) {
      var i :| 0 <= i < |b| && b[i].Draw? && b[i].row == row && b[i].col == col;
      assert (a + b)[|a| + i] == b[i];
    }
  }

  /** Every record of `out` draws a cell of row `row`, at a column from `lo` to `hi`. */
  predicate InRow(out: seq<Emit>, row: int, lo: int, hi: int) {
    forall i :: 0 <= i < |out| ==> out[i].Draw? && out[i].row == row && lo <= out[i].col <= hi
  }

  /** Every record of `out` draws a cell of a row from 1 to `n`. */
  predicate InRows(out: seq<Emit>, n: int) {
    forall i :: 0 <= i < |out| ==> out[i].Draw? && 1 <= out[i].row <= n
  }

  /** What a single visit draws is at most one record, of that cell. */
  lemma StepDrawn(cg: Grid, pg: Grid, mouseX: int, mouseY: int, h: nat, w: nat)
    requires SameShape(cg, pg) && h < |cg| && w < |cg[h]|
    ensures StepAt(cg, pg, mouseX, mouseY, h, w).drawn != [] <==> Active(cg, pg, mouseX, mouseY, h, w)
    ensures Records(cg, pg, mouseX, mouseY, StepAt(cg, pg, mouseX, mouseY, h, w).drawn)
    ensures InRow(StepAt(cg, pg, mouseX, mouseY, h, w).drawn, h + 1, w + 1, w + 1)
  {
    var d := StepAt(cg, pg, mouseX, mouseY, h, w).drawn;
    if d != [] {
      assert d == [d[0]];
    }
  }

  lemma RecordsAppend(cg: Grid, pg: Grid, mouseX: int, mouseY: int, a: seq<Emit>, b: seq<Emit>)
    requires SameShape(cg, pg)
    requires Records(cg, pg, mouseX, mouseY, a) && Records(cg, pg, mouseX, mouseY, b)
    ensures Records(cg, pg, mouseX, mouseY, a + b)
  {
    forall i | 0 <= i < |a + b|
      ensures RecordOfCell(cg, pg, mouseX, mouseY, (a + b)[i])
    {
      if i < |a| {
        assert (a + b)[i] == a[i];
      } else {
        assert (a + b)[i] == b[i - |a|];
      }
    }
  }

  lemma RowMajorAppend(a: seq<Emit>, b: seq<Emit>)
    requires RowMajor(a) && RowMajor(b)
    requires forall i, j :: 0 <= i < |a| && 0 <= j < |b| ==> Before(a[i], b[j])
    ensures RowMajor(a + b)
  {
    forall i, j | 0 <= i < j < |a + b|
      ensures Before((a + b)[i], (a + b)[j])
    {
      if j < |a| {
        assert (a + b)[i] == a[i] && (a + b)[j] == a[j];
      } else if i >= |a| {
        assert (a + b)[i] == b[i - |a|] && (a + b)[j] == b[j - |a|];
      } else {
        assert (a + b)[i] == a[i] && (a + b)[j] == b[j - |a|];
      }
    }
  }

  lemma InRowAppend(a: seq<Emit>, b: seq<Emit>, row: int, lo: int, mid: int, hi: int)
    requires InRow(a, row, lo, mid) && InRow(b, row, mid + 1, hi) && lo <= mid + 1 && mid <= hi
    ensures InRow(a + b, row, lo, hi)
    ensures forall i, j :: 0 <= i < |a| && 0 <= j < |b| ==> Before(a[i], b[j])
  {
    forall i | 0 <= i < |a + b|
      ensures (a + b)[i].Draw? && (a + b)[i].row == row && lo <= (a + b)[i].col <= hi
    {
      if i < |a| {
        assert (a + b)[i] == a[i];
      } else {
        assert (a + b)[i] == b[i - |a|];
      }
    }
  }

  lemma InRowsAppend(a: seq<Emit>, b: seq<Emit>, n: nat, lo: int, hi: int)
    requires InRows(a, n) && InRow(b, n + 1, lo, hi)
    ensures InRows(a + b, n + 1)
    ensures forall i, j :: 0 <= i < |a| && 0 <= j < |b| ==> Before(a[i], b[j])
  {
    forall i | 0 <= i < |a + b|
      ensures (a + b)[i].Draw? && 1 <= (a + b)[i].row <= n + 1
    {
      if i < |a| {
        assert (a + b)[i] == a[i];
      } else {
        assert (a + b)[i] == b[i - |a|];
      }
    }
  }

  /** Records confined to one cell draw it exactly when there are any. */
  lemma DrawnSingle(out: seq<Emit>, row: int, col: int)
    requires InRow(out, row, col, col)
    ensures DrawnAt(out, row, col) <==> out != []
  {
    if out != [] {
      assert out[0].Draw? && out[0].row == row && out[0].col == col;
    }
  }

  /** The records of a row prefix are visits' records. */
  lemma {:induction false} RowOutputRecords(cg: Grid, pg: Grid, mouseX: int, mouseY: int, h: nat, n: nat)
    requires SameShape(cg, pg) && h < |cg| && n <= |cg[h]|
    ensures Records(cg, pg, mouseX, mouseY, RowOutput(cg, pg, mouseX, mouseY, h, n))
  {
    if n > 0 {
      RowOutputRecords(cg, pg, mouseX, mouseY, h, n - 1);
      StepDrawn(cg, pg, mouseX, mouseY, h, n - 1);
      RecordsAppend(cg, pg, mouseX, mouseY, RowOutput(cg, pg, mouseX, mouseY, h, n - 1), StepAt(cg, pg, mouseX, mouseY, h, n - 1).drawn);
    }
  }

  /** The records of a row prefix draw that row, at columns up to `n`, left to right. */
  lemma {:induction false} RowOutputPlaces(cg: Grid, pg: Grid, mouseX: int, mouseY: int, h: nat, n: nat)
    requires SameShape(cg, pg) && h < |cg| && n <= |cg[h]|
    ensures InRow(RowOutput(cg, pg, mouseX, mouseY, h, n), h + 1, 1, n)
    ensures RowMajor(RowOutput(cg, pg, mouseX, mouseY, h, n))
  {
    if n > 0 {
      var prev := RowOutput(cg, pg, mouseX, mouseY, h, n - 1);
      var last := StepAt(cg, pg, mouseX, mouseY, h, n - 1).drawn;
      RowOutputPlaces(cg, pg, mouseX, mouseY, h, n - 1);
      StepDrawn(cg, pg, mouseX, mouseY, h, n - 1);
      InRowAppend(prev, last, h + 1, 1, n - 1, n);
      RowMajorAppend(prev, last);
    }
  }

  /** Within a row prefix, every active cell is drawn. */
  lemma {:induction false} RowOutputDrawn(cg: Grid, pg: Grid, mouseX: int, mouseY: int, h: nat, n: nat)
    requires SameShape(cg, pg) && h < |cg| && n <= |cg[h]|
    ensures forall w :: 0 <= w < n && Active(cg, pg, mouseX, mouseY, h, w) ==>
      DrawnAt(RowOutput(cg, pg, mouseX, mouseY, h, n), h + 1, w + 1)
  {
    if n > 0 {
      var prev := RowOutput(cg, pg, mouseX, mouseY, h, n - 1);
      var last := StepAt(cg, pg, mouseX, mouseY, h, n - 1).drawn;
      RowOutputDrawn(cg, pg, mouseX, mouseY, h, n - 1);
      StepDrawn(cg, pg, mouseX, mouseY, h, n - 1);
      forall w | 0 <= w < n && Active(cg, pg, mouseX, mouseY, h, w)
        ensures DrawnAt(prev + last, h + 1, w + 1)
      {
        DrawnAtAppend(prev, last, h + 1, w + 1);
        if w == n - 1 {
          DrawnSingle(last, h + 1, n - 1 + 1);
        }
      }
    }
  }

  /** The records of the first `n` rows are visits' records. */
  lemma {:induction false} RowsOutputRecords(cg: Grid, pg: Grid, mouseX: int, mouseY: int, n: nat)
    requires SameShape(cg, pg) && n <= |cg|
    ensures Records(cg, pg, mouseX, mouseY, RowsOutput(cg, pg, mouseX, mouseY, n))
  {
    if n > 0 {
      RowsOutputRecords(cg, pg, mouseX, mouseY, n - 1);
      RowOutputRecords(cg, pg, mouseX, mouseY, n - 1, |cg[n - 1]|);
      RecordsAppend(cg, pg, mouseX, mouseY, RowsOutput(cg, pg, mouseX, mouseY, n - 1), RowOutput(cg, pg, mouseX, mouseY, n - 1, |cg[n - 1]|));
    }
  }

  /** The records of the first `n` rows draw cells of those rows, in row-major order. */
  lemma {:induction false} RowsOutputPlaces(cg: Grid, pg: Grid, mouseX: int, mouseY: int, n: nat)
    requires SameShape(cg, pg) && n <= |cg|
    ensures InRows(RowsOutput(cg, pg, mouseX, mouseY, n), n)
    ensures RowMajor(RowsOutput(cg, pg, mouseX, mouseY, n))
  {
    if n > 0 {
      var prev := RowsOutput(cg, pg, mouseX, mouseY, n - 1);
      var last := RowOutput(cg, pg, mouseX, mouseY, n - 1, |cg[n - 1]|);
      RowsOutputPlaces(cg, pg, mouseX, mouseY, n - 1);
      RowOutputPlaces(cg, pg, mouseX, mouseY, n - 1, |cg[n - 1]|);
      InRowsAppend(prev, last, n - 1, 1, |cg[n - 1]|);
      RowMajorAppend(prev, last);
    }
  }

  /** Within the first `n` rows, every active cell is drawn. */
  lemma {:induction false} RowsOutputDrawn(cg: Grid, pg: Grid, mouseX: int, mouseY: int, n: nat)
    requires SameShape(cg, pg) && n <= |cg|
    ensures forall h, w :: 0 <= h < n && 0 <= w < |cg[h]| && Active(cg, pg, mouseX, mouseY, h, w) ==>
      DrawnAt(RowsOutput(cg, pg, mouseX, mouseY, n), h + 1, w + 1)
  {
    if n > 0 {
      var prev := RowsOutput(cg, pg, mouseX, mouseY, n - 1);
      var last := RowOutput(cg, pg, mouseX, mouseY, n - 1, |cg[n - 1]|);
      RowsOutputDrawn(cg, pg, mouseX, mouseY, n - 1);
      RowOutputDrawn(cg, pg, mouseX, mouseY, n - 1, |cg[n - 1]|);
      forall h, w | 0 <= h < n && 0 <= w < |cg[h]| && Active(cg, pg, mouseX, mouseY, h, w)
        ensures DrawnAt(prev + last, h + 1, w + 1)
      {
        DrawnAtAppend(prev, last, h + 1, w + 1);
      }
    }
  }

  /**
   * The output of a pass: every record draws a cell of the grid, as the
   * visit to that cell produces it, in row-major order (so no cell twice);
   * and a cell is drawn exactly when it is active.
   */
  lemma {:induction false} PassOutputCells(cg: Grid, pg: Grid, mouseX: int, mouseY: int)
    requires SameShape(cg, pg)
    ensures Records(cg, pg, mouseX, mouseY, PassOutput(cg, pg, mouseX, mouseY))
    ensures RowMajor(PassOutput(cg, pg, mouseX, mouseY))
    ensures forall h, w :: 0 <= h < |cg| && 0 <= w < |cg[h]| ==>
      (DrawnAt(PassOutput(cg, pg, mouseX, mouseY), h + 1, w + 1) <==> Active(cg, pg, mouseX, mouseY, h, w))
  {
    var out := PassOutput(cg, pg, mouseX, mouseY);
    RowsOutputRecords(cg, pg, mouseX, mouseY, |cg|);
    RowsOutputPlaces(cg, pg, mouseX, mouseY, |cg|);
    RowsOutputDrawn(cg, pg, mouseX, mouseY, |cg|);
    forall h, w | 0 <= h < |cg| && 0 <= w < |cg[h]| && DrawnAt(out, h + 1, w + 1)
      ensures Active(cg, pg, mouseX, mouseY, h, w)
    {
      RecordDrawnActive(cg, pg, mouseX, mouseY, out, h, w);
    }
  }

  /** A cell drawn by records that are all visits' records is an active cell. */
  lemma RecordDrawnActive(cg: Grid, pg: Grid, mouseX: int, mouseY: int, out: seq<Emit>, h: nat, w: nat)
    requires SameShape(cg, pg) && h < |cg| && w < |cg[h]|
    requires Records(cg, pg, mouseX, mouseY, out) && DrawnAt(out, h + 1, w + 1)
    ensures Active(cg, pg, mouseX, mouseY, h, w)
  {
    var i :| 0 <= i < |out| && out[i].Draw? && out[i].row == h + 1 && out[i].col == w + 1;
    assert RecordOfCell(cg, pg, mouseX, mouseY, out[i]);
    StepDrawn(cg, pg, mouseX, mouseY, h, w);
  }

  /** An active cell's own record is among the records of a pass. */
  lemma ActiveDrawn(cg: Grid, pg: Grid, mouseX: int, mouseY: int, h: nat, w: nat)
    requires SameShape(cg, pg) && h < |cg| && w < |cg[h]|
    requires Active(cg, pg, mouseX, mouseY, h, w)
    ensures StepAt(cg, pg, mouseX, mouseY, h, w).drawn != []
    ensures StepAt(cg, pg, mouseX, mouseY, h, w).drawn[0] in PassOutput(cg, pg, mouseX, mouseY)
  {
    var out := PassOutput(cg, pg, mouseX, mouseY);
    RowsOutputDrawn(cg, pg, mouseX, mouseY, |cg|);
    RowsOutputRecords(cg, pg, mouseX, mouseY, |cg|);
    assert DrawnAt(out, h + 1, w + 1);
    var i :| 0 <= i < |out| && out[i].Draw? && out[i].row == h + 1 && out[i].col == w + 1;
    assert RecordOfCell(cg, pg, mouseX, mouseY, out[i]);
  }

  /**
   * Away from the pointer, a pass commits and draws a cell with a pending
   * change, and leaves the glyph of any other cell as it was.
   */
  lemma PassCell(cg: Grid, pg: Grid, mouseX: int, mouseY: int, h: nat, w: nat)
    requires SameShape(cg, pg) && h < |cg| && w < |cg[h]|
    requires !IsCursor(h, w, mouseX, mouseY)
    ensures Changed(pg[h][w]) ==>
              PassCommitted(cg, pg, mouseX, mouseY)[h][w] == pg[h][w] &&
              Draw(h + 1, w + 1, pg[h][w].fg, pg[h][w].bg, pg[h][w].ch) in PassOutput(cg, pg, mouseX, mouseY)
    ensures !Changed(pg[h][w]) ==> PassCommitted(cg, pg, mouseX, mouseY)[h][w].ch == cg[h][w].ch
  {
    if Changed(pg[h][w]) {
      ActiveDrawn(cg, pg, mouseX, mouseY, h, w);
    }
  }

  /** Cell (h, w) is the cursor cell, or has neither a pending change nor a cursor mark. */
  predicate QuietAt(cg: Grid, pg: Grid, mouseX: int, mouseY: int, h: nat, w: nat)
    requires SameShape(cg, pg) && h < |cg| && w < |cg[h]|
  {
    IsCursor(h, w, mouseX, mouseY) || (!Changed(pg[h][w]) && !cg[h][w].wasCursor)
  }

  /** No cell but the cursor cell has a pending change or a cursor mark. */
  predicate Quiet(cg: Grid, pg: Grid, mouseX: int, mouseY: int)
    requires SameShape(cg, pg)
  {
    forall h, w :: 0 <= h < |cg| && 0 <= w < |cg[h]| ==> QuietAt(cg, pg, mouseX, mouseY, h, w)
  }

  /** The cursor block, when the pointer lies on the grid. */
  function CursorOutput(cg: Grid, mouseX: int, mouseY: int): seq<Emit> {
    if 0 <= mouseY < |cg| && 0 <= mouseX < |cg[mouseY]| then [CursorBlock(mouseY, mouseX)] else []
  }

  lemma {:induction false} QuietRowOutput(cg: Grid, pg: Grid, mouseX: int, mouseY: int, h: nat, n: nat)
    requires SameShape(cg, pg) && h < |cg| && n <= |cg[h]|
    requires Quiet(cg, pg, mouseX, mouseY)
    ensures RowOutput(cg, pg, mouseX, mouseY, h, n) ==
            if h == mouseY && 0 <= mouseX < n then [CursorBlock(h, mouseX)] else []
  {
    if n > 0 {
      QuietRowOutput(cg, pg, mouseX, mouseY, h, n - 1);
      assert QuietAt(cg, pg, mouseX, mouseY, h, n - 1);
    }
  }

  lemma {:induction false} QuietRowsOutput(cg: Grid, pg: Grid, mouseX: int, mouseY: int, n: nat)
    requires SameShape(cg, pg) && n <= |cg|
    requires Quiet(cg, pg, mouseX, mouseY)
    ensures RowsOutput(cg, pg, mouseX, mouseY, n) ==
            if 0 <= mouseY < n && 0 <= mouseX < |cg[mouseY]| then [CursorBlock(mouseY, mouseX)] else []
  {
    if n > 0 {
      QuietRowsOutput(cg, pg, mouseX, mouseY, n - 1);
      QuietRowOutput(cg, pg, mouseX, mouseY, n - 1, |cg[n - 1]|);
    }
  }

  /**
   * Two passes with the pointer held still leave the grids quiet, with the
   * cursor mark on the cursor cell: the first clears every pending change
   * away from the pointer, the second clears every stale cursor mark.
   */
  lemma TwoPassesSettle(cg: Grid, pg: Grid, mouseX: int, mouseY: int, c1: Grid, p1: Grid)
    requires SameShape(cg, pg)
    requires c1 == PassCommitted(cg, pg, mouseX, mouseY) && p1 == PassPending(cg, pg, mouseX, mouseY)
    ensures Quiet(PassCommitted(c1, p1, mouseX, mouseY), PassPending(c1, p1, mouseX, mouseY), mouseX, mouseY)
    ensures 0 <= mouseY < |cg| && 0 <= mouseX < |cg[mouseY]| ==>
              PassCommitted(c1, p1, mouseX, mouseY)[mouseY][mouseX].wasCursor
  {
    var c2: Grid, p2: Grid := PassCommitted(c1, p1, mouseX, mouseY), PassPending(c1, p1, mouseX, mouseY);
    forall h, w | 0 <= h < |c2| && 0 <= w < |c2[h]|
      ensures QuietAt(c2, p2, mouseX, mouseY, h, w)
    {
      assert p1[h][w] == StepAt(cg, pg, mouseX, mouseY, h, w).pending;
      assert c2[h][w] == StepAt(c1, p1, mouseX, mouseY, h, w).committed;
      assert p2[h][w] == StepAt(c1, p1, mouseX, mouseY, h, w).pending;
    }
  }

  /**
   * A quiet pass whose cursor cell already carries its mark draws only the
   * cursor block and changes neither grid.
   */
  lemma {:induction false} QuietPass(cg: Grid, pg: Grid, mouseX: int, mouseY: int)
    requires SameShape(cg, pg)
    requires Quiet(cg, pg, mouseX, mouseY)
    requires 0 <= mouseY < |cg| && 0 <= mouseX < |cg[mouseY]| ==> cg[mouseY][mouseX].wasCursor
    ensures PassOutput(cg, pg, mouseX, mouseY) == CursorOutput(cg, mouseX, mouseY)
    ensures PassCommitted(cg, pg, mouseX, mouseY) == cg
    ensures PassPending(cg, pg, mouseX, mouseY) == pg
  {
    QuietRowsOutput(cg, pg, mouseX, mouseY, |cg|);
    var c1, p1 := PassCommitted(cg, pg, mouseX, mouseY), PassPending(cg, pg, mouseX, mouseY);
    forall h, w | 0 <= h < |cg| && 0 <= w < |cg[h]|
      ensures c1[h][w] == cg[h][w] && p1[h][w] == pg[h][w]
    {
      assert QuietAt(cg, pg, mouseX, mouseY, h, w);
    }
    GridExt(PassCommitted(cg, pg, mouseX, mouseY), cg);
    GridExt(PassPending(cg, pg, mouseX, mouseY), pg);
  }
}

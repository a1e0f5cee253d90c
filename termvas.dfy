/**
 * The `termvas` class itself: the two screen buffers, the pointer position
 * and the flags as fields that the methods update, and the output as a
 * growing sequence of records. Each method is proved to do what the
 * matching function of module Screen says, through `Abs()`.
 */
module Renderer {
  import opened Cells
  import opened Escapes
  import opened RenderPass
  import Screen

  /** `#initScreenBuffer(width, height, element)`: `height` rows of `width` copies of `element`, built row by row. */
  method InitScreenBuffer(width: nat, height: nat, element: Cell) returns (buffer: Grid)
    ensures buffer == Blank(width, height, element)
  {
    buffer := [];
    var h := 0;
    while h < height
      invariant 0 <= h <= height
      invariant buffer == Blank(width, h, element)
    {
      var row := [];
      var w := 0;
      while w < width
        invariant 0 <= w <= width
        invariant row == seq(w, _ => element)
      {
        row := row + [element];
        w := w + 1;
      }
      buffer := buffer + [row];
      h := h + 1;
    }
  }

  lemma AppendAssoc(a: seq<Emit>, b: seq<Emit>, c: seq<Emit>)
    ensures a + b + c == a + (b + c)
  {
  }

  /** Writing a cell's own value back leaves the grid as it was. */
  lemma UpdateSame(g: Grid, h: nat, w: nat)
    requires h < |g| && w < |g[h]|
    ensures g[h := g[h][w := g[h][w]]] == g
  {
    assert g[h][w := g[h][w]] == g[h];
  }

  /** A second write to the same row replaces the first. */
  lemma UpdateTwice(g: Grid, h: nat, r1: seq<Cell>, r2: seq<Cell>)
    requires h < |g|
    ensures g[h := r1][h := r2] == g[h := r2]
  {
  }

  class Termvas {
    const width: nat
    const height: nat
    const renderMouse: bool
    /** The committed cells: what the terminal shows. */
    var buffer: Grid
    /** The pending cells: writes not yet rendered. */
    var updateBuffer: Grid
    var cursorHidden: bool
    var mouseX: int
    var mouseY: int
    var bufferUpdated: bool
    /** Everything written to the terminal so far. */
    var output: seq<Emit>

    /** Both buffers are `height` rows of `width` cells. */
    ghost predicate Valid()
      reads this
    {
      |buffer| == height && SameShape(buffer, updateBuffer) &&
      forall h :: 0 <= h < height ==> |buffer[h]| == width
    }

    /** The renderer as a value. */
    ghost function Abs(): Screen.State
      reads this
    {
      Screen.State(buffer, updateBuffer, mouseX, mouseY, renderMouse, cursorHidden, bufferUpdated, output)
    }

    /**
     * `new termvas(rendermouse)` on a terminal of `width` columns and
     * `height` rows: clears the screen and starts from two blank buffers.
     */
    constructor (width: nat, height: nat, renderMouse: bool)
      ensures Valid()
      ensures Abs() == Screen.Initial(width, height, renderMouse)
    {
      output := [ClearScreen];
      this.renderMouse := renderMouse;
      cursorHidden := false;
      mouseX := 0;
      mouseY := 0;
      this.width := width;
      this.height := height;
      var pending := InitScreenBuffer(width, height, DefaultCell);
      var committed := InitScreenBuffer(width, height, DefaultCell);
      updateBuffer := pending;
      buffer := committed;
      bufferUpdated := false;
    }

    /** The `mouse-move` listener, present only when `renderMouse` is set; (x, y) is 1-based. */
    method MouseMove(x: int, y: int)
      requires Valid()
      modifies this
      ensures Valid()
      ensures Abs() == Screen.MouseMove(old(Abs()), x, y)
    {
      if renderMouse {
        mouseX := x - 1;
        mouseY := y - 1;
      }
    }

    /** `setChar(x, y, text, fg, bg)`. */
    method SetChar(x: int, y: int, text: string, fg: ColorArg, bg: ColorArg) returns (r: Screen.Outcome)
      requires Valid()
      modifies this
      ensures Valid()
      ensures (r, Abs()) == Screen.SetChar(old(Abs()), x, y, text, fg, bg)
    {
      if x < 1 || y < 1 {
        return Screen.Fail(Screen.InvalidCoordinate);
      }
      var xPos, yPos := x - 1, y - 1;
      if yPos >= height {
        return Screen.Fail(Screen.RowOutsideGrid);
      }
      if xPos >= width {
        bufferUpdated := true;
        return Screen.Pass;
      }
      var ref := buffer[yPos][xPos];
      if ref.ch != text {
        ref := ref.(ch := text);
      }
      if fg.Named? && ref.fg != fg.color {
        ref := ref.(fg := fg.color);
      }
      if bg.Named? && ref.bg != bg.color {
        ref := ref.(bg := bg.color);
      }
      updateBuffer := updateBuffer[yPos := updateBuffer[yPos][xPos := ref]];
      bufferUpdated := true;
      return Screen.Pass;
    }

    /** `writeText(x, y, text, fg, bg)`: colours left out are 'default'; the first failing write ends it. */
    method WriteText(x: int, y: int, text: string, fg: ColorArg, bg: ColorArg) returns (r: Screen.Outcome)
      requires Valid()
      modifies this
      ensures Valid()
      ensures (r, Abs()) == Screen.WriteText(old(Abs()), x, y, text, fg, bg)
    {
      var fgArg, bgArg := WithDefault(fg), WithDefault(bg);
      var c := 0;
      while c < |text|
        invariant 0 <= c <= |text|
        invariant Valid()
        invariant (Screen.Pass, Abs()) == Screen.WriteText(old(Abs()), x, y, text[..c], fg, bg)
      {
        assert text[..c + 1][..c] == text[..c];
        r := SetChar(x + c, y, [text[c]], fgArg, bgArg);
        if r.Fail? {
          Screen.WriteTextStopsAtFailure(old(Abs()), x, y, text, c + 1, fg, bg);
          return;
        }
        c := c + 1;
      }
      assert text[..c] == text;
      return Screen.Pass;
    }

    /** One iteration of the cell loop of `render()`, at row `h`, column `w`. */
    method VisitCell(h: nat, w: nat)
      requires Valid() && h < height && w < width
      modifies this
      ensures Valid()
      ensures buffer == old(buffer[h := buffer[h][w := RenderCell(h, w, buffer[h][w], updateBuffer[h][w], IsCursor(h, w, mouseX, mouseY)).committed]])
      ensures updateBuffer == old(updateBuffer[h := updateBuffer[h][w := RenderCell(h, w, buffer[h][w], updateBuffer[h][w], IsCursor(h, w, mouseX, mouseY)).pending]])
      ensures output == old(output + RenderCell(h, w, buffer[h][w], updateBuffer[h][w], IsCursor(h, w, mouseX, mouseY)).drawn)
      ensures mouseX == old(mouseX) && mouseY == old(mouseY) && cursorHidden == old(cursorHidden) && bufferUpdated == old(bufferUpdated)
    {
      var oldCell := buffer[h][w];
      var newCell := updateBuffer[h][w];
      var fgChanged := DefaultCell.fg != newCell.fg;
      var bgChanged := DefaultCell.bg != newCell.bg;
      var chChanged := DefaultCell.ch != newCell.ch;
      var cellNeedsUpdate := fgChanged || bgChanged || chChanged;
      var cellIsCursor := mouseX == w && mouseY == h;
      var cellWasCursor := oldCell.wasCursor && !cellIsCursor;
      UpdateSame(updateBuffer, h, w);
      UpdateSame(buffer, h, w);
      if cellIsCursor {
        output := output + [Draw(h + 1, w + 1, White, White, " ")];
        buffer := buffer[h := buffer[h][w := buffer[h][w].(wasCursor := true)]];
      } else if cellWasCursor && !cellNeedsUpdate {
        output := output + [Draw(h + 1, w + 1, oldCell.fg, oldCell.bg, oldCell.ch)];
        buffer := buffer[h := buffer[h][w := buffer[h][w].(wasCursor := false)]];
      } else if cellNeedsUpdate {
        buffer := buffer[h := buffer[h][w := updateBuffer[h][w]]];
        output := output + [Draw(h + 1, w + 1, buffer[h][w].fg, buffer[h][w].bg, buffer[h][w].ch)];
        updateBuffer := updateBuffer[h := updateBuffer[h][w := DefaultCell]];
      }
    }

    /** The inner loop of `render()`: a visit to each cell of row `h`, left to right. */
    method RenderRow(h: nat, ghost cg: Grid, ghost pg: Grid)
      requires Valid() && h < height && SameShape(cg, pg) && |cg| == height && |cg[h]| == width
      requires buffer[h] == cg[h] && updateBuffer[h] == pg[h]
      modifies this
      ensures Valid()
      ensures buffer == old(buffer)[h := RowCommitted(cg, pg, mouseX, mouseY, h)]
      ensures updateBuffer == old(updateBuffer)[h := RowPending(cg, pg, mouseX, mouseY, h)]
      ensures output == old(output) + RowOutput(cg, pg, mouseX, mouseY, h, width)
      ensures mouseX == old(mouseX) && mouseY == old(mouseY) && cursorHidden == old(cursorHidden) && bufferUpdated == old(bufferUpdated)
    {
      RowPrefixEnds(cg, pg, mouseX, mouseY, h);
      assert buffer == old(buffer)[h := cg[h]] && updateBuffer == old(updateBuffer)[h := pg[h]];
      var w := 0;
      while w < width
        invariant 0 <= w <= width
        invariant Valid()
        invariant mouseX == old(mouseX) && mouseY == old(mouseY) && cursorHidden == old(cursorHidden) && bufferUpdated == old(bufferUpdated)
        invariant output == old(output) + RowOutput(cg, pg, mouseX, mouseY, h, w)
        invariant buffer == old(buffer)[h := RowPrefixCommitted(cg, pg, mouseX, mouseY, h, w)]
        invariant updateBuffer == old(updateBuffer)[h := RowPrefixPending(cg, pg, mouseX, mouseY, h, w)]
      {
        RowPrefixStep(cg, pg, mouseX, mouseY, h, w);
        assert buffer[h][w] == cg[h][w] && updateBuffer[h][w] == pg[h][w];
        VisitCell(h, w);
        UpdateTwice(old(buffer), h, RowPrefixCommitted(cg, pg, mouseX, mouseY, h, w), RowPrefixCommitted(cg, pg, mouseX, mouseY, h, w + 1));
        UpdateTwice(old(updateBuffer), h, RowPrefixPending(cg, pg, mouseX, mouseY, h, w), RowPrefixPending(cg, pg, mouseX, mouseY, h, w + 1));
        AppendAssoc(old(output), RowOutput(cg, pg, mouseX, mouseY, h, w), StepAt(cg, pg, mouseX, mouseY, h, w).drawn);
        w := w + 1;
      }
    }

    /** The two nested loops of `render()`: every row, top to bottom. */
    method RenderPass()
      requires Valid()
      modifies this
      ensures Valid()
      ensures buffer == PassCommitted(old(buffer), old(updateBuffer), mouseX, mouseY)
      ensures updateBuffer == PassPending(old(buffer), old(updateBuffer), mouseX, mouseY)
      ensures output == old(output) + PassOutput(old(buffer), old(updateBuffer), mouseX, mouseY)
      ensures mouseX == old(mouseX) && mouseY == old(mouseY) && cursorHidden == old(cursorHidden) && bufferUpdated == old(bufferUpdated)
    {
      ghost var cg, pg := buffer, updateBuffer;
      PassPrefixEnds(cg, pg, mouseX, mouseY);
      var h := 0;
      while h < height
        invariant 0 <= h <= height
        invariant Valid()
        invariant mouseX == old(mouseX) && mouseY == old(mouseY) && cursorHidden == old(cursorHidden) && bufferUpdated == old(bufferUpdated)
        invariant output == old(output) + RowsOutput(cg, pg, mouseX, mouseY, h)
        invariant buffer == PassPrefixCommitted(cg, pg, mouseX, mouseY, h)
        invariant updateBuffer == PassPrefixPending(cg, pg, mouseX, mouseY, h)
      {
        PassPrefixStep(cg, pg, mouseX, mouseY, h);
        RenderRow(h, cg, pg);
        AppendAssoc(old(output), RowsOutput(cg, pg, mouseX, mouseY, h), RowOutput(cg, pg, mouseX, mouseY, h, width));
        h := h + 1;
      }
    }

    /** `render()`: hide the cursor the first time, then visit every cell. */
    method Render()
      requires Valid()
      modifies this
      ensures Valid()
      ensures Abs() == Screen.Render(old(Abs()))
    {
      if !cursorHidden {
        output := output + [HideCursor];
        cursorHidden := true;
      }
      RenderPass();
    }
  }
}

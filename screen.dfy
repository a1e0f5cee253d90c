/**
 * The renderer's whole state as a value, and each public operation of
 * termvas as a function on it. The class in termvas.dfy is proved to follow
 * these functions; the lemmas here relate several operations.
 */
module Screen {
  import opened Cells
  import opened Escapes
  import opened RenderPass

  /**
   * `buffer` (committed), `updateBuffer` (pending), the pointer position,
   * the `renderMouse`, `cursorHidden` and `bufferUpdated` flags, and
   * everything written to the terminal so far.
   */
  datatype State = State(
    committed: Grid,
    pending: Grid,
    mouseX: int,
    mouseY: int,
    renderMouse: bool,
    cursorHidden: bool,
    bufferUpdated: bool,
    output: seq<Emit>)

  predicate Wf(s: State) {
    SameShape(s.committed, s.pending)
  }

  /**
   * Why a write throws: a coordinate below 1 (the explicit check), or a row
   * past the last one (the committed row it reads from does not exist).
   */
  datatype WriteError = InvalidCoordinate | RowOutsideGrid

  datatype Outcome = Pass | Fail(error: WriteError)

  /** The state the constructor leaves: blank grids, pointer at (0, 0), the screen cleared. */
  function Initial(width: nat, height: nat, renderMouse: bool): State {
    State(Blank(width, height, DefaultCell), Blank(width, height, DefaultCell),
          0, 0, renderMouse, false, false, [ClearScreen])
  }

  function CheckWrite(s: State, x: int, y: int): Outcome {
    if x < 1 || y < 1 then Fail(InvalidCoordinate)
    else if y > |s.committed| then Fail(RowOutsideGrid)
    else Pass
  }

  /**
   * `setChar(x, y, text, fg, bg)`: the committed cell at 1-based (x, y),
   * merged with the write, becomes the pending cell there. A column past the
   * end of the row lands outside the grid that render visits, so only the
   * flag changes.
   */
  function SetChar(s: State, x: int, y: int, text: string, fg: ColorArg, bg: ColorArg): (r: (Outcome, State))
    requires Wf(s)
    ensures Wf(r.1) && SameShape(r.1.pending, s.pending)
    ensures r.0 == Fail(InvalidCoordinate) <==> x < 1 || y < 1
    ensures r.0 == Fail(RowOutsideGrid) <==> 1 <= x && 1 <= y && y > |s.committed|
    ensures r.0.Fail? ==> r.1 == s
    ensures r.0.Pass? ==> r.1 == s.(pending := r.1.pending, bufferUpdated := true)
    ensures r.0.Pass? ==>
      forall h, w :: 0 <= h < |s.pending| && 0 <= w < |s.pending[h]| ==>
        r.1.pending[h][w] == if h == y - 1 && w == x - 1 then Merge(s.committed[h][w], text, fg, bg) else s.pending[h][w]
  {
    var outcome := CheckWrite(s, x, y);
    if outcome.Fail? then (outcome, s)
    else
      var h, w := y - 1, x - 1;
      var pending :=
        if w < |s.pending[h]| then s.pending[h := s.pending[h][w := Merge(s.committed[h][w], text, fg, bg)]]
        else s.pending;
      (Pass, s.(pending := pending, bufferUpdated := true))
  }

  /** `writeText(x, y, text, fg, bg)`: one `setChar` per character, left to right, stopping at the first that throws. */
  function WriteText(s: State, x: int, y: int, text: string, fg: ColorArg, bg: ColorArg): (r: (Outcome, State))
    requires Wf(s)
    ensures Wf(r.1) && SameShape(r.1.pending, s.pending)
    decreases |text|
  {
    if text == [] then (Pass, s)
    else
      var before := WriteText(s, x, y, text[..|text| - 1], fg, bg);
      if before.0.Fail? then before
      else SetChar(before.1, x + |text| - 1, y, [text[|text| - 1]], WithDefault(fg), WithDefault(bg))
  }

  /** A mouse-move event at 1-based (x, y); without `renderMouse` nothing listens for it. */
  function MouseMove(s: State, x: int, y: int): State {
    if s.renderMouse then s.(mouseX := x - 1, mouseY := y - 1) else s
  }

  /** `render()`: hide the cursor the first time, then one pass over every cell. */
  function Render(s: State): (r: State)
    requires Wf(s)
    ensures Wf(r) && SameShape(r.committed, s.committed)
    ensures r.cursorHidden
    ensures r == s.(committed := r.committed, pending := r.pending, cursorHidden := true, output := r.output)
    ensures s.output <= r.output
    ensures forall h, w :: 0 <= h < |r.pending| && 0 <= w < |r.pending[h]| && !IsCursor(h, w, s.mouseX, s.mouseY) ==>
      !Changed(r.pending[h][w])
  {
    var hideCursor := if s.cursorHidden then [] else [HideCursor];
    s.(committed := PassCommitted(s.committed, s.pending, s.mouseX, s.mouseY),
       pending := PassPending(s.committed, s.pending, s.mouseX, s.mouseY),
       cursorHidden := true,
       output := s.output + hideCursor + PassOutput(s.committed, s.pending, s.mouseX, s.mouseY))
  }

  /** Once one character of a text run throws, the rest of the run is not attempted. */
  lemma {:induction false} WriteTextStopsAtFailure(s: State, x: int, y: int, text: string, k: nat, fg: ColorArg, bg: ColorArg)
    requires Wf(s) && k <= |text|
    requires WriteText(s, x, y, text[..k], fg, bg).0.Fail?
    ensures WriteText(s, x, y, text, fg, bg) == WriteText(s, x, y, text[..k], fg, bg)
    decreases |text|
  {
    if k < |text| {
      var prefix := text[..|text| - 1];
      assert prefix[..k] == text[..k];
      WriteTextStopsAtFailure(s, x, y, prefix, k, fg, bg);
    } else {
      assert text[..k] == text;
    }
  }

  /**
   * How `writeText` ends: it throws exactly when the text is non-empty and
   * its first position is invalid, and then changes nothing; otherwise only
   * the pending cells and, for a non-empty text, the dirty flag change.
   */
  lemma {:induction false} WriteTextOutcome(s: State, x: int, y: int, text: string, fg: ColorArg, bg: ColorArg)
    requires Wf(s)
    ensures WriteText(s, x, y, text, fg, bg).0 == if text == [] then Pass else CheckWrite(s, x, y)
    ensures WriteText(s, x, y, text, fg, bg).0.Fail? ==> WriteText(s, x, y, text, fg, bg).1 == s
    ensures WriteText(s, x, y, text, fg, bg).0.Pass? ==>
      WriteText(s, x, y, text, fg, bg).1 ==
        s.(pending := WriteText(s, x, y, text, fg, bg).1.pending, bufferUpdated := s.bufferUpdated || text != [])
    decreases |text|
  {
    if text != [] {
      var n := |text|;
      var prefix := text[..n - 1];
      WriteTextOutcome(s, x, y, prefix, fg, bg);
    }
  }

  /**
   * What a successful `writeText` leaves: the pending cells of row y from
   * column x on hold the committed cells merged with one character each,
   * omitted colours counting as 'default'; every other pending cell is as
   * it was.
   */
  lemma {:induction false} WriteTextCells(s: State, x: int, y: int, text: string, fg: ColorArg, bg: ColorArg)
    requires Wf(s)
    requires WriteText(s, x, y, text, fg, bg).0.Pass?
    ensures forall h, w :: 0 <= h < |s.pending| && 0 <= w < |s.pending[h]| ==>
      WriteText(s, x, y, text, fg, bg).1.pending[h][w] ==
        if h == y - 1 && x - 1 <= w < x - 1 + |text|
        then Merge(s.committed[h][w], [text[w - x + 1]], WithDefault(fg), WithDefault(bg))
        else s.pending[h][w]
    decreases |text|
  {
    if text != [] {
      var n := |text|;
      var prefix := text[..n - 1];
      var before := WriteText(s, x, y, prefix, fg, bg);
      assert before.0.Pass?;
      WriteTextCells(s, x, y, prefix, fg, bg);
      WriteTextOutcome(s, x, y, prefix, fg, bg);
      var s0 := before.1;
      assert s0.committed == s.committed;
      var after := SetChar(s0, x + n - 1, y, [text[n - 1]], WithDefault(fg), WithDefault(bg));
      assert WriteText(s, x, y, text, fg, bg) == after;
      forall h, w | 0 <= h < |s.pending| && 0 <= w < |s.pending[h]|
        ensures after.1.pending[h][w] ==
          if h == y - 1 && x - 1 <= w < x - 1 + n
          then Merge(s.committed[h][w], [text[w - x + 1]], WithDefault(fg), WithDefault(bg))
          else s.pending[h][w]
      {
        if h == y - 1 && x - 1 <= w < x - 1 + (n - 1) {
          assert prefix[w - x + 1] == text[w - x + 1];
        }
      }
    }
  }

  /**
   * The colours a successful `writeText` leaves in the cells it writes: an
   * omitted colour overwrites the committed one with 'default', an explicit
   * null keeps the committed colour, and a named colour is used as given.
   */
  lemma WriteTextColors(s: State, x: int, y: int, text: string, fg: ColorArg, bg: ColorArg)
    requires Wf(s)
    requires WriteText(s, x, y, text, fg, bg).0.Pass?
    ensures forall h, w :: 0 <= h < |s.pending| && 0 <= w < |s.pending[h]| && h == y - 1 && x - 1 <= w < x - 1 + |text| ==>
      WriteText(s, x, y, text, fg, bg).1.pending[h][w].fg ==
        match fg
        case Undefined => Default
        case Null => s.committed[h][w].fg
        case Named(c) => c
    ensures forall h, w :: 0 <= h < |s.pending| && 0 <= w < |s.pending[h]| && h == y - 1 && x - 1 <= w < x - 1 + |text| ==>
      WriteText(s, x, y, text, fg, bg).1.pending[h][w].bg ==
        match bg
        case Undefined => Default
        case Null => s.committed[h][w].bg
        case Named(c) => c
  {
    WriteTextCells(s, x, y, text, fg, bg);
  }

  /** An active cell's record is among the bytes a render writes. */
  lemma ActiveCellDrawn(s: State, h: nat, w: nat)
    requires Wf(s) && h < |s.committed| && w < |s.committed[h]|
    requires Active(s.committed, s.pending, s.mouseX, s.mouseY, h, w)
    ensures StepAt(s.committed, s.pending, s.mouseX, s.mouseY, h, w).drawn != []
    ensures StepAt(s.committed, s.pending, s.mouseX, s.mouseY, h, w).drawn[0] in Render(s).output
  {
    ActiveDrawn(s.committed, s.pending, s.mouseX, s.mouseY, h, w);
    assert Render(s).output == s.output + (if s.cursorHidden then [] else [HideCursor]) + PassOutput(s.committed, s.pending, s.mouseX, s.mouseY);
  }

  /**
   * A valid write to a cell away from the pointer, followed by a render: a
   * merged cell that differs from the blank one is committed and drawn; one
   * that does not (a space in default colours, say) is neither, so the glyph
   * it was meant to erase stays.
   */
  lemma {:induction false} WriteThenRender(s: State, x: int, y: int, text: string, fg: ColorArg, bg: ColorArg)
    requires Wf(s)
    requires 1 <= y <= |s.committed| && 1 <= x <= |s.committed[y - 1]|
    requires !IsCursor(y - 1, x - 1, s.mouseX, s.mouseY)
    ensures Changed(Merge(s.committed[y - 1][x - 1], text, fg, bg)) ==>
      Render(SetChar(s, x, y, text, fg, bg).1).committed[y - 1][x - 1] == Merge(s.committed[y - 1][x - 1], text, fg, bg) &&
      Draw(y, x, Merge(s.committed[y - 1][x - 1], text, fg, bg).fg, Merge(s.committed[y - 1][x - 1], text, fg, bg).bg, text)
        in Render(SetChar(s, x, y, text, fg, bg).1).output
    ensures !Changed(Merge(s.committed[y - 1][x - 1], text, fg, bg)) ==>
      Render(SetChar(s, x, y, text, fg, bg).1).committed[y - 1][x - 1].ch == s.committed[y - 1][x - 1].ch
  {
    var s1 := SetChar(s, x, y, text, fg, bg).1;
    assert s1.pending[y - 1][x - 1] == Merge(s.committed[y - 1][x - 1], text, fg, bg);
    PassCell(s1.committed, s1.pending, s1.mouseX, s1.mouseY, y - 1, x - 1);
    assert Render(s1).output == s1.output + (if s1.cursorHidden then [] else [HideCursor]) + PassOutput(s1.committed, s1.pending, s1.mouseX, s1.mouseY);
  }


  /**
   * A pending change under the pointer is deferred: the pass draws the
   * cursor block there and keeps the change pending; once the pointer has
   * moved elsewhere, the next pass commits and draws it.
   */
  lemma {:induction false} CursorDefersWrite(s: State, h: nat, w: nat, x: int, y: int)
    requires Wf(s) && s.renderMouse
    requires h < |s.committed| && w < |s.committed[h]|
    requires IsCursor(h, w, s.mouseX, s.mouseY) && Changed(s.pending[h][w])
    requires !IsCursor(h, w, x - 1, y - 1)
    ensures Render(s).pending[h][w] == s.pending[h][w]
    ensures Render(s).committed[h][w].wasCursor
    ensures CursorBlock(h, w) in Render(s).output
    ensures Render(MouseMove(Render(s), x, y)).committed[h][w] == s.pending[h][w]
    ensures Draw(h + 1, w + 1, s.pending[h][w].fg, s.pending[h][w].bg, s.pending[h][w].ch)
              in Render(MouseMove(Render(s), x, y)).output
  {
    var s1 := Render(s);
    ActiveCellDrawn(s, h, w);
    var s2 := MouseMove(s1, x, y);
    assert s2.pending[h][w] == s.pending[h][w];
    assert Active(s2.committed, s2.pending, s2.mouseX, s2.mouseY, h, w);
    ActiveCellDrawn(s2, h, w);
  }


  /**
   * Render never consults `bufferUpdated`: with no writes in between, and the
   * pointer where it was, every pass after the second redraws the cursor
   * block and nothing else, and changes nothing else.
   */
  lemma {:induction false} RenderSteadyState(s: State)
    requires Wf(s)
    ensures Render(Render(Render(s))) ==
      Render(Render(s)).(output := Render(Render(s)).output + CursorOutput(s.committed, s.mouseX, s.mouseY))
  {
    var s1 := Render(s);
    var s2 := Render(s1);
    TwoPassesSettle(s.committed, s.pending, s.mouseX, s.mouseY, s1.committed, s1.pending);
    QuietPass(s2.committed, s2.pending, s2.mouseX, s2.mouseY);
    assert CursorOutput(s2.committed, s.mouseX, s.mouseY) == CursorOutput(s.committed, s.mouseX, s.mouseY);
  }

  /**
   * The pointer starts at (0, 0) and, without `renderMouse`, never moves, yet
   * the cursor test in render still applies: a pass over a state whose
   * pointer is at (0, 0) draws the cursor block at row 1, column 1 and keeps
   * a write to (1, 1) pending instead of showing it.
   */
  lemma {:induction false} OriginCursorHidesWrite(s: State, text: string, fg: ColorArg, bg: ColorArg, x: int, y: int)
    requires Wf(s) && s.mouseX == 0 && s.mouseY == 0
    requires |s.committed| > 0 && |s.committed[0]| > 0
    ensures !s.renderMouse ==> MouseMove(s, x, y) == s
    ensures CursorBlock(0, 0) in Render(SetChar(s, 1, 1, text, fg, bg).1).output
    ensures Render(SetChar(s, 1, 1, text, fg, bg).1).pending[0][0] == Merge(s.committed[0][0], text, fg, bg)
    ensures Render(SetChar(s, 1, 1, text, fg, bg).1).committed[0][0].ch == s.committed[0][0].ch
  {
    var s1 := SetChar(s, 1, 1, text, fg, bg).1;
    assert Active(s1.committed, s1.pending, 0, 0, 0, 0);
    ActiveCellDrawn(s1, 0, 0);
  }

}

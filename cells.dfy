/**
 * The cell model of termvas: the colour names and their SGR codes, the grid
 * cell, the blank cell, and how `setChar` merges a write over a cell.
 */
module Cells {
  import opened Optional

  /** The nine colour names known to the foreground and background tables. */
  datatype Color = Black | Red | Green | Yellow | Blue | Magenta | Cyan | White | Default

  /** The foreground table (`fgMatrix`), looked up by `#getFgCode`. */
  function FgCode(c: Color): (code: nat)
    ensures 30 <= code <= 39 && code != 38
  {
    match c
    case Black => 30
    case Red => 31
    case Green => 32
    case Yellow => 33
    case Blue => 34
    case Magenta => 35
    case Cyan => 36
    case White => 37
    case Default => 39
  }

  /** The background table (`bgMatrix`), looked up by `#getBgCode`. */
  function BgCode(c: Color): (code: nat)
    ensures 40 <= code <= 49 && code != 48
    ensures code == FgCode(c) + 10
  {
    match c
    case Black => 40
    case Red => 41
    case Green => 42
    case Yellow => 43
    case Blue => 44
    case Magenta => 45
    case Cyan => 46
    case White => 47
    case Default => 49
  }

  /** Reverse lookup in the foreground table. */
  function FgColor(code: int): (r: Option<Color>)
    ensures r.Some? ==> FgCode(r.value) == code
  {
    if code == 30 then Some(Black)
    else if code == 31 then Some(Red)
    else if code == 32 then Some(Green)
    else if code == 33 then Some(Yellow)
    else if code == 34 then Some(Blue)
    else if code == 35 then Some(Magenta)
    else if code == 36 then Some(Cyan)
    else if code == 37 then Some(White)
    else if code == 39 then Some(Default)
    else None
  }

  /** Reverse lookup in the background table. */
  function BgColor(code: int): (r: Option<Color>)
    ensures r.Some? ==> BgCode(r.value) == code
  {
    FgColor(code - 10)
  }

  /** Each table is one-to-one: a code names at most one colour. */
  lemma {:induction false} ColorTablesInvertible(c: Color)
    ensures FgColor(FgCode(c)) == Some(c)
    ensures BgColor(BgCode(c)) == Some(c)
    ensures forall d: Color :: FgCode(d) == FgCode(c) ==> d == c
  {
    forall d: Color | FgCode(d) == FgCode(c)
      ensures d == c
    {
      assert FgColor(FgCode(d)) == Some(d);
    }
  }

  /** A grid cell: colours, glyph, and whether the cursor block was drawn over it last. */
  datatype Cell = Cell(fg: Color, bg: Color, ch: string, wasCursor: bool)

  /** `defaultCell`: a space in default colours. */
  const DefaultCell := Cell(Default, Default, " ", false)

  /** The render test for a pending change: glyph or a colour differs from the blank cell; `wasCursor` is not compared. */
  predicate Changed(p: Cell) {
    p.fg != DefaultCell.fg || p.bg != DefaultCell.bg || p.ch != DefaultCell.ch
  }

  /** A colour argument as JavaScript passes it: left out, explicitly null, or a colour name. */
  datatype ColorArg = Undefined | Null | Named(color: Color)

  /** `writeText`'s default parameters: an omitted colour becomes 'default'; an explicit null stays null. */
  function WithDefault(arg: ColorArg): (r: ColorArg)
    ensures r.Named? <==> !arg.Null?
    ensures arg.Undefined? ==> r == Named(Default)
    ensures arg.Null? ==> r == Null
    ensures arg.Named? ==> r == arg
  {
    if arg.Undefined? then Named(Default) else arg
  }

  /** `setChar`'s merge: the glyph always replaces the base; a colour does only when one is named. */
  function Merge(base: Cell, text: string, fg: ColorArg, bg: ColorArg): Cell {
    Cell(if fg.Named? then fg.color else base.fg,
         if bg.Named? then bg.color else base.bg,
         text,
         base.wasCursor)
  }

  /** A grid: rows of cells, indexed `[row][column]`. */
  type Grid = seq<seq<Cell>>

  /** Two grids with the same number of rows and the same row lengths. */
  predicate SameShape(a: Grid, b: Grid) {
    |a| == |b| && forall i :: 0 <= i < |a| ==> |a[i]| == |b[i]|
  }

  /** `height` rows of `width` copies of `element`. */
  function Blank(width: nat, height: nat, element: Cell): Grid {
    seq(height, _ => seq(width, _ => element))
  }

  /** Grids are equal when they have the same shape and the same cells. */
  lemma GridExt(a: Grid, b: Grid)
    requires SameShape(a, b)
    requires forall i, j :: 0 <= i < |a| && 0 <= j < |a[i]| ==> a[i][j] == b[i][j]
    ensures a == b
  {
    forall i | 0 <= i < |a|
      ensures a[i] == b[i]
    {
      assert forall j :: 0 <= j < |a[i]| ==> a[i][j] == b[i][j];
    }
  }
}

# termvas in Dafny

A model of `termvas`, a small double-buffered terminal canvas for Node.js.
A `termvas` object keeps two grids of cells of the terminal's size:

- the *buffer* holds what the terminal is believed to show (called "committed" here);
- the *update buffer* holds writes not yet drawn (called "pending" here).

`setChar` and `writeText` put cells into the pending grid. `render` then walks
every cell, row by row, and decides for each one:

- draw the cursor block when the pointer is on the cell;
- redraw the committed cell when the pointer has just left it;
- commit and draw the pending cell when it differs from the blank cell.

Each drawn cell becomes one terminal write: a cursor-position sequence, two
SGR colour sequences, the glyph and an SGR reset.

The project is organised as follows:

- `optional.dfy`: module `Optional`, an `Option` type usable with `:-`.
- `cells.dfy`: module `Cells`. It holds the nine colour names and their foreground and background SGR codes, and the `Cell` record. It also has the blank cell, the merge `setChar` performs, and the `Grid` type (rows of cells).
- `escapes.dfy`: module `Escapes`. Every terminal write is an `Emit` record: clear screen, hide cursor, or a drawn cell. `Encode` gives the exact bytes, following ECMA-48: CUP is section 8.3.21, SGR section 8.3.117 and ED section 8.3.39. `Decode` reads a record back from them.
- `render_pass.dfy`: module `RenderPass`. One iteration of the render loop is the pure function `RenderCell`. A whole pass is given by the functions `PassCommitted`, `PassPending` and `PassOutput`. The lemmas say which cells a pass draws and in what order.
- `screen.dfy`: module `Screen`. The whole renderer is a value `State`, and every public operation is a function on it. The lemmas here relate several operations: write then render, cursor moves, repeated renders.
- `termvas.dfy`: module `Renderer`. Class `Termvas` has the renderer's fields; its methods update them with the same loops and branches as the JavaScript. Each method is proved to do what the matching `Screen` function says, through `Abs()`.

The model follows the code as written; in particular:

- `render` never looks at `bufferUpdated`. Every call is a full pass, and renders without writes keep drawing the cursor block (`Screen.RenderSteadyState`).
- No escape sequence is elided. Every drawn cell carries its own position and both colours, and there is no per-row position sentinel.
- The pointer test runs whether or not `renderMouse` is set. Because the pointer starts at (0, 0), a renderer without mouse support shows a cursor block at row 1, column 1 on every pass, and a write to that cell stays pending (`Screen.OriginCursorHidesWrite`).
- `setChar` merges the write into the *committed* cell, not the pending one. When that cell is committed, its `wasCursor` mark comes with it.
- A write whose merged cell equals the blank cell in glyph and colours is never committed. A space in default colours therefore cannot erase a glyph (`Screen.WriteThenRender`).

## Model

| member | source | states |
|---|---|---|
| Cells.FgCode | termvas.js:27-37 | each colour name has a foreground code from 30 to 39, never 38 |
| Cells.BgCode | termvas.js:39-49 | each background code is the foreground code of the same name plus 10 |
| Cells.ColorTablesInvertible | termvas.js:27-49 | both tables are one-to-one: looking a code up in reverse gives back its name, and no two names share a code |
| Cells.WithDefault | termvas.js:93 | `writeText`'s default parameters: an omitted colour becomes 'default', an explicit null stays null, a named colour is kept |
| Escapes.DecodeDrawEncode | termvas.js:143-151 | the bytes written for a drawn cell parse back to the same row, column, colours and glyph |
| Escapes.DecodeEncode | termvas.js:12-151 | every terminal write (clear screen, hide cursor, drawn cell) is read back from its bytes |
| Escapes.EncodeInjective | termvas.js:12-151 | two different writes never produce the same bytes |
| RenderPass.RenderCell | termvas.js:130-153 | one loop iteration: at most one record; a record exactly when the cell is the cursor, was the cursor, or has a pending change; the cursor cell gets the white block and keeps its pending change; any other cell leaves no pending change; a drawn non-cursor cell is drawn as it is now committed; a changed cell is committed and its pending cell reset |
| RenderPass.StepDrawn | termvas.js:139-153 | the visit to cell (h, w) draws something exactly when the cell is active, and what it draws is one record at row h+1, column w+1 |
| RenderPass.PassOutputCells | termvas.js:127-158 | the output of a pass: every record is the record of its own cell's visit, records are in strictly increasing row-major order (no cell twice), and a cell is drawn exactly when it is active |
| RenderPass.ActiveDrawn | termvas.js:128-153 | the record of every active cell is in the output of the pass |
| RenderPass.PassCell | termvas.js:145-153 | away from the pointer, a pass commits and draws a cell with a pending change and keeps the glyph of any other cell |
| RenderPass.TwoPassesSettle | termvas.js:139-152 | with the pointer held still, two passes leave no pending change and no cursor mark off the cursor cell, and mark the cursor cell (a change under the pointer stays pending) |
| RenderPass.QuietPass | termvas.js:128-158 | a pass over quiet grids whose cursor cell is already marked `wasCursor` changes neither grid and draws only the cursor block |
| Screen.SetChar | termvas.js:76-90 | throws on a coordinate below 1 or a row past the last one and then changes nothing; otherwise sets the dirty flag, puts the committed cell merged with the glyph and any named colours at (x, y) into the pending grid, and changes no other cell |
| Screen.WriteTextOutcome | termvas.js:93-97 | a text run throws exactly when it is non-empty and its first position is invalid, and then changes nothing; otherwise only pending cells and, for a non-empty text, the dirty flag change |
| Screen.WriteTextCells | termvas.js:93-97 | after a successful text run, the pending cells of row y from column x hold the committed cells merged with one character each, omitted colours counting as 'default'; every other pending cell is unchanged |
| Screen.WriteTextColors | termvas.js:93-97 | in every cell a successful text run writes, an omitted colour becomes 'default' whatever the committed colour was, an explicit null keeps the committed colour, and a named colour is used |
| Screen.WriteTextStopsAtFailure | termvas.js:94-96 | once one character throws, the rest of the run is not attempted |
| Screen.Render | termvas.js:111-159 | a render hides the cursor, keeps the pointer, flags and grid shape, only appends output, and leaves no pending change off the cursor cell |
| Screen.ActiveCellDrawn | termvas.js:139-153 | the record of an active cell is among the records a render writes |
| Screen.WriteThenRender | termvas.js:76-90 | a write away from the pointer followed by a render commits and draws the merged cell when it differs from the blank cell, and otherwise leaves the glyph on screen as it was |
| Screen.CursorDefersWrite | termvas.js:139-152 | a pending change under the pointer is kept pending and the cursor block is drawn; after the pointer moves away, the next render commits and draws the change |
| Screen.RenderSteadyState | termvas.js:111-159 | with no writes and the pointer held still, a third render changes no cell and no flag and writes only the cursor block (its CUP, SGR and glyph record) |
| Screen.OriginCursorHidesWrite | termvas.js:14-18 | without mouse support the pointer never moves from (0, 0); a render there draws the cursor block at (1, 1) and keeps a write to (1, 1) pending, its glyph unshown |
| Renderer.InitScreenBuffer | termvas.js:62-73 | the nested loops build `height` rows of `width` copies of the element |
| Renderer.Termvas.constructor | termvas.js:9-59 | the screen is cleared, both grids are blank, the pointer is at (0, 0) and no flag is set |
| Renderer.Termvas.MouseMove | termvas.js:18-24 | with mouse support the pointer moves to the 0-based event position; without it, nothing changes |
| Renderer.Termvas.SetChar | termvas.js:76-90 | the fields change exactly as `Screen.SetChar` says, the grids stay `height` by `width` |
| Renderer.Termvas.WriteText | termvas.js:93-97 | the loop of `setChar` calls changes the fields exactly as `Screen.WriteText` says, stopping at the first that throws |
| Renderer.Termvas.VisitCell | termvas.js:130-153 | one iteration of the cell loop updates the two cells at (h, w) and the output exactly as `RenderCell` says |
| Renderer.Termvas.RenderRow | termvas.js:129-157 | the inner loop replaces row h of both grids by the finished row and appends that row's records |
| Renderer.Termvas.RenderPass | termvas.js:128-158 | the nested loops turn the grids into `PassCommitted` and `PassPending` of the old grids and append `PassOutput` |
| Renderer.Termvas.Render | termvas.js:111-159 | `render()` changes the fields exactly as `Screen.Render` says |

## Left out

- Terminal output is the sequence of `Emit` records the renderer has written; `Encode` gives their bytes. The writes themselves, and their interleaving with other output, are not modelled.
- The `exit` and `SIGINT` handlers that `render` installs to show the cursor again (termvas.js:118-124) are not modelled: they run at process exit, outside the renderer's state.
- The `input-handler` module is not part of this model. Its `mouse-move` event is the method `MouseMove`, called with the event's 1-based position.
- The terminal size (`process.stdout.columns` and `rows`) is read once by the constructor; here it is the constructor's `width` and `height` parameters.
- `selftest` (termvas.js:163-187) is a demonstration with a timer and random digits; it is not modelled.
- Colours are the nine names of the two tables. A name outside them makes the JavaScript write `undefined` into the SGR sequence; the model has no such colour.
- Glyphs are strings, and positions and colours are checked as the JavaScript checks them. Non-integer or non-numeric coordinates, and glyphs that are not strings, are not modelled.
- Screen.SetChar: a column past the end of an existing row is stored by the JavaScript beyond the part of the row that `render` visits, so it is never drawn. The model drops that cell and only sets the dirty flag.
- A thrown `Error` or `TypeError` is the `Fail` outcome of `SetChar` and `WriteText`; the state is left as it was when the exception was raised.
- The nested JavaScript arrays are `seq` fields that the methods reassign. Every cell is a value, which matches the copies (`{ ...cell }`) the source makes whenever it stores a cell, so no two cells can alias.
- Screen.WriteText: the JavaScript counts and indexes the text in UTF-16 code units, while a Dafny string is a sequence of Unicode scalar values. A character outside the Basic Multilingual Plane becomes two cells, each holding a lone surrogate, in the JavaScript, and every later character moves one column right; the model writes it as one cell. The same holds for `Renderer.Termvas.WriteText`.

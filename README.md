# Minesweeper core, modelled in Dafny

This project models the game engine of a terminal minesweeper written in Rust.

- **Grid** (`src/minefield/grid.rs`) is a row-major two-dimensional container. It converts
  between (row, column) and flat indices, reads and writes cells, lists the up-to-eight
  neighbours of a cell in row-major order, iterates over cells and renders itself as text.
- **Minefield** (`src/minefield/field.rs`) holds the hidden board. Burying a bomb sets its
  cell to a bomb and adds one to every clean neighbour. Digging returns a cell. A submitted
  list of flags is accepted when it names exactly the bombs.
- **Client** (`src/minefield/client.rs`) is the player's view.
  - Every cell starts hidden.
  - Digging a cell reveals it.
  - Smart digging flood-fills outwards from cells with no neighbouring bomb.
  - Flags toggle.
  - Revealing uncovers the board at the end of a game.
  - Submitting the flags decides whether the game is won or lost.
- **Ascii** (`src/ascii_client.rs`) is the line-oriented front end. The model covers parsing a
  typed command, dropping coordinates that are off the board, and the one-character picture
  of a cell.
- **Tui** (`src/tui_client.rs`) is the full-screen front end. The model covers the map from
  terminal cursor to board cell, the starting cursor, and how one key or mouse event moves
  the cursor and picks an action.

The modules are `Wrappers` (Option and Result), `Text` (decimal digits and joining strings),
`Grid`, `Field`, `Client`, `Ascii` and `Tui`.

**How the code is modelled**
- Objects whose fields the Rust code updates become classes:
  - `Grid.Grid<T>` keeps its cells in a `seq` that `Set` reassigns.
  - `Field.Minefield`, `Client.Client` and `Tui.TuiClient` are classes too.
- The loops of the Rust code are methods with loop invariants. Each method is proved against
  a specification function:
  - `Buried` for `bury_bombs`;
  - `RevealedAll` for `reveal`;
  - `FlaggedPositions` for `get_flag_locations`;
  - `Rendered` for `Display`;
  - a flood-fill closure property for `query_smart`.

**Edge cases the code leaves open, and how the model settles them**
- Empty grids and too many bombs are not refused when a field is made:
  - `Grid::new` accepts zero sizes.
  - Neighbour listing computes `height - 1` on an unsigned number, which underflows for an
    empty grid.
  - The random sample panics when there are too many bombs.

  The model therefore requires at least one row and one column. It takes the bomb positions
  as distinct indices below `height * width`.
- Finished games: the code does not stop digging after a game has ended:
  - Digging in a won game still runs. Hitting a bomb then turns the game into Lost.
  - `Reveal` restores only Won. A game that was Lost stays Lost.

  The model keeps this behaviour.
- Nothing in the core ever produces the `Marked` cell state. The model keeps it as a state
  that `Flag` leaves alone, as the code does.

## Model

| member | source | states |
|---|---|---|
| Grid.Offset | src/minefield/grid.rs:39-45 | the flat index of an in-range (row, column) is below `height * width` |
| Grid.PosOf | src/minefield/grid.rs:47-53 | a flat index below `height * width` maps to an in-range position whose flat index is that index |
| Grid.OffsetPosOf | src/minefield/grid.rs:39-53 | converting a position to a flat index and back gives the position |
| Grid.OffsetInjective | src/minefield/grid.rs:39-45 | two in-range positions have the same flat index if and only if they are equal |
| Grid.OffsetOrder | src/minefield/grid.rs:39-45 | row-major order of positions is exactly the order of their flat indices |
| Grid.RenderedExample | src/minefield/grid.rs:205-210 | the 2x2 grid 1,2,3,4 renders as `1 2\n3 4` |
| Grid.Grid.constructor | src/minefield/grid.rs:80-93 | a grid built from matching data is valid and holds that shape and data |
| Grid.Grid.New | src/minefield/grid.rs:80-93 | succeeds if and only if the data length is `height * width`; the new grid holds the data, the shape and the length |
| Grid.Grid.Len | src/minefield/grid.rs:31-33 | the length is the number of cells |
| Grid.Grid.Shape | src/minefield/grid.rs:35-37 | the grid's (height, width), both at least one, multiplying to the number of cells |
| Grid.Grid.Index | src/minefield/grid.rs:39-45 | defined if and only if the position is on the board, and then it is the row-major flat index |
| Grid.Grid.IndexRev | src/minefield/grid.rs:47-53 | defined if and only if the index is below the length, and then it is the position with that flat index |
| Grid.Grid.IndexRoundTrip | src/minefield/grid.rs:39-53 | `index` and `index_rev` undo each other in both directions |
| Grid.Grid.Get | src/minefield/grid.rs:99-102 | defined if and only if the position is on the board, and then it is the cell stored there |
| Grid.Grid.Set | src/minefield/grid.rs:104-113 | succeeds if and only if the position is on the board; it then changes that one cell; on an error nothing changes |
| Grid.Grid.Neighbours8 | src/minefield/grid.rs:62-76 | the result is in row-major order and holds exactly the on-board cells adjacent to an on-board position; the position itself is excluded; the count is the product of the clipped row and column spans minus one |
| Grid.Grid.SweepWindowRow | src/minefield/grid.rs:69-74 | one row of the neighbour window appends that row's cells in order, skipping the centre |
| Grid.Grid.WindowIsNeighbourhood | src/minefield/grid.rs:62-76 | the clipped 3x3 window without its centre is exactly the on-board neighbourhood |
| Grid.Grid.Cells | src/minefield/grid.rs:16-28 | the iteration sequence has one entry per cell |
| Grid.Grid.CellsRowMajor | src/minefield/grid.rs:212-227 | the iteration yields each (row, column, value) at its flat index, in strictly increasing row-major order |
| Grid.Grid.Fmt | src/minefield/grid.rs:129-145 | the text is the rows joined by newlines, each row being its cells joined by spaces |
| Grid.Grid.Iter | src/minefield/grid.rs:55-60 | a fresh iterator over this grid, at the first cell |
| Grid.IterGrid.Next | src/minefield/grid.rs:16-28 | yields the next cell with its position and advances; past the end it yields nothing and stays put |
| Field.CellText | src/minefield/field.rs:12-19 | a bomb shows as `X`; a clean cell shows as the decimal digits of its count |
| Field.BuryConcat | src/minefield/field.rs:47-61 | burying a list in two calls, an in-range prefix and then the rest, is burying it in one call; an out-of-range prefix stops the burying |
| Field.BuriedKeepsBombs | src/minefield/field.rs:53-58 | burying never turns a bomb back into a clean cell |
| Field.ZeroHasNoBombNeighbour | src/minefield/field.rs:4-10 | in a consistent field, no neighbour of a zero cell is a bomb |
| Field.NeighbouringBombsAtMost8 | src/minefield/field.rs:8 | no cell has more than eight neighbouring bombs |
| Field.BuryOneConsistent | src/minefield/field.rs:49-58 | placing one new bomb keeps every count equal to the number of neighbouring bombs |
| Field.BuriedConsistent | src/minefield/field.rs:47-61 | burying distinct in-range new bombs keeps every count equal to the number of neighbouring bombs |
| Field.BuriedFromClean | src/minefield/field.rs:29-46 | burying distinct in-range locations into a clean grid puts bombs exactly there and the right count everywhere else |
| Field.BuryCentre | src/minefield/field.rs:162-169 | one bomb in the middle of a clean 3x3 grid gives `1111X1111` |
| Field.BumpNeighbours | src/minefield/field.rs:53-58 | adding one to each clean neighbour completes the placement of one bomb |
| Field.BuryBombs | src/minefield/field.rs:47-61 | succeeds if and only if every location is on the grid; the grid becomes the specified burial, which stops at the first off-grid location |
| Field.BombPositionsMember | src/minefield/field.rs:70-92 | a position is a bomb position if and only if it is on the board and holds a bomb |
| Field.ConsistentBombs | src/minefield/field.rs:29-61 | in a consistent field, the bomb cells are exactly the buried set |
| Field.DistinctCard | src/minefield/field.rs:33-34 | distinct sampled locations give as many bombs as were asked for |
| Field.AcceptsExactly | src/minefield/field.rs:70-92 | the submission check accepts if and only if the submitted set is exactly the set of bombs |
| Field.PresetAccepts | src/minefield/field.rs:123-145 | on the preset 2x2 field the check accepts exactly the two top bombs |
| Field.SampledLayout | src/minefield/field.rs:29-46 | a field built from distinct indices is consistent, has bombs exactly at those indices, and has as many bombs as requested |
| Field.Minefield.constructor | src/minefield/field.rs:22-26 | a field is a grid whose counts match its bombs, together with its bomb count |
| Field.Minefield.New | src/minefield/field.rs:29-46 | the shape and bomb count are as requested; the cells are the chosen indices buried into a clean grid; bombs sit exactly at those indices |
| Field.Minefield.Dig | src/minefield/field.rs:63-69 | defined if and only if the position is on the board; it then returns that cell, a bomb exactly at bomb positions |
| Field.Minefield.DigCount | src/minefield/field.rs:63-69 | a dug clean cell's count is the number of neighbouring bombs, at most eight |
| Field.Minefield.Submit | src/minefield/field.rs:70-92 | true if and only if the submitted locations, as a set, are exactly the bomb positions |
| Field.Minefield.Shape | src/minefield/client.rs:37 | the field's (height, width), both at least one, multiplying to the number of cells |
| Field.Minefield.NumBombs | src/minefield/client.rs:61-63 | the number of bombs on the field |
| Field.Minefield.Fmt | src/minefield/field.rs:95-99 | the field's text is the grid rendered with each cell's picture |
| Client.GameStateName | src/minefield/client.rs:119-122 | the `Debug` name of a game state: `Running`, `Lost` or `Won`, each naming exactly its state |
| Client.Toggled | src/minefield/client.rs:132-140 | hidden becomes flagged and flagged becomes hidden; any other state stays |
| Client.ToggledTwice | src/minefield/client.rs:132-140 | flagging twice restores the state |
| Client.FlaggedPositionsMember | src/minefield/client.rs:105-117 | a position is flagged if and only if it is on the board and its state is flagged |
| Client.RevealedAll | src/minefield/client.rs:85-103 | after revealing, no cell is hidden and hidden cells show their true cell; flags and marks are uncovered only with `all`; uncovered cells stay |
| Client.RevealOutcome | src/minefield/client.rs:85-103 | Won stays Won and Lost stays Lost; a running game is lost if and only if a bomb gets uncovered |
| Client.HiddenCountUpdate | src/minefield/client.rs:52-59 | uncovering a hidden cell lowers the number of hidden cells by one |
| Client.FloodRevealsAll | src/minefield/client.rs:65-83 | on a board without bombs, digging once from a fully hidden board uncovers every cell |
| Client.FloodStep | src/minefield/client.rs:68-81 | one worklist step keeps the flood's frontier invariant |
| Client.FloodFrontDone | src/minefield/client.rs:68-81 | an empty worklist means the flood is closed |
| Client.FloodInvStep | src/minefield/client.rs:68-81 | one worklist step keeps the flood invariant: no queued cell is a bomb, and the game state is kept |
| Client.HiddenAroundMember | src/minefield/client.rs:75-79 | the queued neighbours are exactly the hidden on-board neighbours |
| Client.PopFromSet | src/minefield/client.rs:25-33 | takes some element out of a non-empty set and returns the rest |
| Client.FloodTreeStep | src/minefield/client.rs:68-81 | one worklist step keeps every queued or uncovered cell linked, by an adjacent uncovered zero cell of lower rank, back to the dug cell |
| Client.FloodTurn | src/minefield/client.rs:68-81 | one worklist step keeps both the flood invariant and the tree of links back to the dug cell |
| Client.TreePath | src/minefield/client.rs:65-83 | following the links from a linked cell gives a path of adjacent uncovered zero cells from the dug cell |
| Client.FloodPath | src/minefield/client.rs:65-83 | after a flood, every cell it uncovered is reached from the dug cell through adjacent cells that it uncovered and that are zero |
| Client.FloodStopsAtCounts | src/minefield/client.rs:65-83 | on the row `0 1 * 1 0`, digging the left end uncovers exactly the first two cells: the flood stops at a count |
| Client.FloodReachesCount | src/minefield/client.rs:74-80 | the hidden neighbour of an uncovered zero cell is uncovered too |
| Client.FloodStopsBeyondCount | src/minefield/client.rs:74-80 | a cell with no uncovered zero neighbour is not reached by the flood and stays hidden |
| Client.Client.FromMinefield | src/minefield/client.rs:36-45 | a running game with every cell hidden, over the given field |
| Client.Client.NewRandom | src/minefield/client.rs:47-50 | a running, fully hidden game of the requested shape and bomb count |
| Client.Client.QueryUpdate | src/minefield/client.rs:52-59 | returns the dug cell and uncovers exactly that cell; the game becomes Lost if and only if it is a bomb, and otherwise keeps its state |
| Client.Client.NumBombs | src/minefield/client.rs:61-63 | the number of bombs on the field |
| Client.Client.EnqueueHiddenNeighbours | src/minefield/client.rs:75-79 | adds exactly the hidden neighbours to the worklist |
| Client.Client.VisitCell | src/minefield/client.rs:69-80 | takes a queued cell, uncovers exactly it, and queues its hidden neighbours when it is a zero |
| Client.Client.FloodVisit | src/minefield/client.rs:69-80 | one flood step keeps the flood invariant and the tree of links to the dug cell, and uncovers a hidden cell, so the loop ends |
| Client.Client.QuerySmart | src/minefield/client.rs:65-83 | returns Running; uncovers the dug cell; every other newly uncovered cell is reached from the dug cell through adjacent newly uncovered zero cells; the flood is closed (every hidden neighbour of an uncovered zero cell is uncovered); the game is Lost exactly when the dug cell is a bomb |
| Client.Client.Reveal | src/minefield/client.rs:85-103 | the board becomes the revealed board, and the game state becomes the specified outcome |
| Client.Client.RevealRow | src/minefield/client.rs:89-98 | one row of the sweep uncovers that row's cells as the reveal rule says, and loses the game on an uncovered bomb |
| Client.Client.GetFlagLocations | src/minefield/client.rs:105-117 | returns exactly the flagged positions, in row-major order |
| Client.Client.Submit | src/minefield/client.rs:119-130 | a game that is not running gives the error message and is unchanged; a running game ends, and is Won if and only if the flags are exactly the bombs |
| Client.Client.Flag | src/minefield/client.rs:132-140 | toggles the flag on one cell and returns the new state; no other cell changes |
| Client.Client.GetState | src/minefield/client.rs:142-144 | the view is the client's own state grid; it has the field's shape, and every uncovered cell shows the field's true cell |
| Client.Client.GetGameState | src/minefield/client.rs:146-148 | a running game shows no uncovered bomb |
| Ascii.ToAsciiLowerChar | src/ascii_client.rs:64 | only `A` to `Z` change, each to its lower-case letter; ASCII-ness is kept |
| Ascii.ToAsciiLowercase | src/ascii_client.rs:64 | lower-cases each character in place |
| Ascii.ToAsciiLowercaseIdempotent | src/ascii_client.rs:64 | lower-casing twice is lower-casing once |
| Ascii.ColumnOf | src/ascii_client.rs:54 | a letter of either case names column 0 to 25, and that column's letter is its lower case |
| Ascii.ParseCoordinate | src/ascii_client.rs:48-61 | defined if and only if a letter is followed by a digit; the row is the digit and the column is the letter |
| Ascii.ParseInput | src/ascii_client.rs:63-86 | non-ASCII input is no command; coordinates are below 10 and 26; exit and submit come from one character, a flag from three |
| Ascii.ParseCommandText | src/ascii_client.rs:63-86 | every command the parser can produce is read back from its text |
| Ascii.ParseDigText | src/ascii_client.rs:73-83 | a `d` followed by a dig's text is read back as that dig |
| Ascii.ParsedIsCommandText | src/ascii_client.rs:63-86 | whatever is accepted is, up to case, a command's text or `d` followed by a dig's text |
| Ascii.ParseInputCaseInsensitive | src/ascii_client.rs:63-86 | parsing ignores letter case |
| Ascii.ParseSingleKey | src/ascii_client.rs:67-68 | one character exits on `q` or `Q`, submits on `s` or `S`, and is otherwise no command |
| Ascii.ParseInputCoordinateExamples | src/ascii_client.rs:160-169 | `a1`, `e8`, `fa4` and `dz4` parse to the expected digs and flag |
| Ascii.ParseInputKeyExamples | src/ascii_client.rs:67-68 | `q`/`Q` exit and `s`/`S` submit |
| Ascii.ParseInputRejectExamples | src/ascii_client.rs:160-169 | `nn`, `55` and the empty line are no command |
| Ascii.CheckCoordinates | src/ascii_client.rs:34-46 | an off-board dig or flag becomes no command; everything else passes unchanged |
| Ascii.ToCharMono | src/ascii_client.rs:11-22 | hidden, flagged and marked cells have their block glyphs; a bomb is `*`; a zero is a blank; a count is its decimal digits |
| Ascii.ToCharMonoInjective | src/ascii_client.rs:11-22 | two cell states have the same picture if and only if they are equal |
| Tui.ActionOf | src/tui_client.rs:194-201 | `q` exits, space digs, `f` flags and `s` submits, each if and only if that key was pressed |
| Tui.Moved | src/tui_client.rs:202-227 | arrows move the cursor one step, a mouse release jumps to its position, anything else stays |
| Tui.TuiClient.ToGridCoordinates | src/tui_client.rs:71-82 | defined if and only if the terminal cell lies inside the board's frame; the result is the position shifted by the offset |
| Tui.TuiClient.New | src/tui_client.rs:84-90 | the cursor starts on the board's top-left cell |
| Tui.TuiClient.ParseEvent | src/tui_client.rs:194-235 | returns the event's action; the cursor moves to the event's target if that is on the board and otherwise stays, so it never leaves the board |
| Tui.GridCoordinatesExamples | src/tui_client.rs:307-353 | the first and last cell are found, and the terminal cells just past the board are not |
| Tui.TopLeftMoves | src/tui_client.rs:342-353 | from the top-left cell, left and up leave the board, and down stays on it if and only if there is a second row |
| Tui.BottomRightMoves | src/tui_client.rs:356-375 | from the bottom-right cell, right and down leave the board, and left stays on it if and only if there is a second column |

## Left out

- Randomness: `Minefield::new` samples the bomb indices with a random generator. The model
  takes the sampled indices as a parameter: distinct, in range, as many as bombs requested.
  `Client::new_random` is modelled the same way.
- Empty grids and too many bombs: `Grid::new` accepts zero sizes, and the neighbour listing
  then underflows `height - 1`. Sampling more bombs than cells panics. The model requires at
  least one row and one column, and valid indices. The panics are not modelled.
- Field.Cell: the Rust count is a `u8`. The model uses `nat` and proves that every count is at
  most eight, so the narrower type never overflows.
- Tui.TuiClient.ToGridCoordinates: the Rust code casts the board's size to `u16`, which
  truncates on huge boards. The model requires that the board fits on a `u16` terminal
  (`Fits`), so the truncation never happens.
- Ascii.ParseInput: Rust measures the line in bytes and the model counts characters. These
  agree once the line has passed the ASCII check, which comes first.
- Client.PopFromSet: which element a `HashSet` hands out first is left arbitrary. The
  contracts of the flood hold for every order; that two orders give the same board is not
  stated.
- Client.Client.QueryUpdate, Client.Client.QuerySmart, Client.Client.Flag: the panics of
  `dig().unwrap()` and `set().unwrap()` (`src/minefield/client.rs:53-54`) and of
  `get().unwrap()` and `set().unwrap()` (`src/minefield/client.rs:133`, `138`) on a position
  off the board are modelled as a precondition that the position is on the board. Every
  caller checks this first: `src/ascii_client.rs:106` through `check_coordinates`, and
  `src/tui_client.rs:255-257` and `262-264` through `to_grid_coordinates`.
- Grid.Grid.Set: the error text is simplified. Only the error case is kept, not the message's
  wording.
- `Debug` for `Grid` is not modelled. It is used only for printing while debugging.
- Field.Minefield.Shape and Field.Minefield.NumBombs: `src/minefield/client.rs` calls these,
  but `src/minefield/field.rs` does not define them. They are modelled as reads of the field's
  shape and its bomb count.
- The inner loops of `neighbours8`, `bury_bombs`, `reveal` and `query_smart` are separate
  methods: `SweepWindowRow`, `BumpNeighbours`, `RevealRow` and `FloodVisit`. The Rust code
  has them inline. The steps, and their order, are the same.
- `bury_bombs_2` and `bury_bombs_3` (three and five bombs) are not stated as concrete lemmas.
  The general laws `BuriedFromClean` and `BuriedConsistent` cover them.
- The client scenario tests (`src/minefield/client.rs:156-223`) are not stated as concrete
  lemmas. They are covered by the contracts of `QuerySmart`, `Submit` and `Reveal`.
- Everything that does terminal or console I/O is not part of this model:
  - `mainloop` of both front ends;
  - `draw` and `draw_box`;
  - `cellstate_to_prettystring`;
  - `Display` for the line client;
  - the game timer;
  - the `unwrap`s on terminal calls.
- `src/main.rs` and the binaries only wire the front ends together, and are not part of this
  model.

# Sea Battle rule engine in Dafny

This project models the rule engine of a two-player, 10x10 Battleship game
written in Java (`src/Main.java`). It covers four parts.

- **Coordinate text.** `C7` names row C and column 7. Text must be one
  upper-case letter and one or two digits. Translation gives zero-based
  `(x, y)`, or the sentinel `(-1, -1)` for malformed text. A placement
  line "start end" is split on spaces into two such coordinates.
- **The board.** A `BattleMap` holds a 10x10 grid of cell states, indexed
  `[y, x]`, and a roster of ships. A new board is all fog. Each ship
  placement goes through the source's checks in order: orientation, size,
  then a scan for neighbouring ships. The placement then happens
  completely or not at all. A shot hits, misses or is rejected as off the
  board.
- **Ships.** A `Ship` has a name, a health and the positions of the cells it
  occupies. Its health check recounts how many of those cells are not
  hit.
- **The turn's sinking check.** After a shot, the opponent's ships have
  their health checked in roster order, up to and including the first one
  found sunk. Later ships are not checked. The ship found sunk is removed,
  and the game ends when the roster is empty.

The modules follow that split:

- `Codec` in `codec.dfy` covers coordinate text;
- `Grid` in `grid.dfy` covers the board's size, bounds and per-cell rules;
- `Ships` in `ships.dfy` covers ships, their health and the sinking rule;
- `Board` in `board.dfy` covers the `BattleMap` class.

The two pure placement checks `checkShipNotDiagonal` and `checkShipSize`
are the predicates `Board.NotDiagonal` and `Board.SizeMatches`. Their
properties are stated by `Board.SpanOnBoard`, `Board.SingleCellSpan` and
`Board.BattleMap.PlaceShip`. `checkIfUserInputMatchesFormat` is
`Codec.MatchesFormat`.

The Java `Cell` objects become `Coord` values. The cell at `(x, y)` is
`grid[y, x]`. A ship keeps the positions of its cells, and its health is
read from the grid. This is the same sharing the Java gets from keeping
references to the board's `Cell` objects.

Three choices follow the code where it differs from a plain reading of the
game.

- **Malformed coordinates.** Translation returns the sentinel `(-1, -1)`,
  not an error value. `Codec.Decode` states exactly when that happens.
  Well-formed text is not checked against the board. `A0` gives
  `(-1, 0)` and `Z99` gives `(98, 25)`.
- **No bounds check in placement.** `placeShip` never checks bounds. When
  the neighbour scan reaches a cell off the grid, Java throws an array
  index exception. Here that is the outcome `OutOfGrid`. It happens when
  the scan reaches such a cell while every earlier cell of the span was on
  the board and clear. `Board.BattleMap.OverhangingPlacement` shows it for `A7 A11`.
- **Fewer than two tokens.** `translateInputCoordinates` reads tokens [0]
  and [1] without checking the array's length. A line with fewer than two
  tokens fails there, and here gives `None`. A line of spaces alone splits
  into no tokens at all, so it already fails at token [0].

## Model

| member | source | states |
|---|---|---|
| Codec.MatchesFormat | src/Main.java:133-136 | Well-formed coordinate text holds no space, so it is always a single token of an input line. The body is the regex `([A-Z])([0-9]{1,2})` written as a length, letter and digit test. `FormatIsEncoding` pins the accepted set for all inputs, and `FormatExamples` and `RejectedShapes` illustrate it. |
| Codec.Decode | src/Main.java:133-170 | The sentinel comes back exactly when the text is not one upper-case letter followed by one or two digits. Otherwise y is below 26 and x lies between -1 and 98: there is no bounds check. The values themselves are pinned by `DecodeEncode`, `EncodeDecode` and `LeadingZero`. |
| Codec.TranslateCoordinate | src/Main.java:148-170 | The source's loop sorts characters into letters and digits. For every input its result equals `Decode`. |
| Codec.DecodeEncode | src/Main.java:148-170 | Every position with 0 <= y < 26 and -1 <= x < 99 encodes as its row letter followed by the decimal form of x + 1. That text is well-formed and decodes back to the same position. This covers every board position. |
| Codec.EncodeDecode | src/Main.java:133-170 | Well-formed text whose number has no leading zero is exactly the encoding of the position it decodes to. |
| Codec.FormatIsEncoding | src/Main.java:133-136 | The accepted texts are exactly the encodings of positions with row A to Z and number 0 to 99, plus the three-character texts whose number has a leading zero. |
| Codec.LeadingZero | src/Main.java:133-170 | Text with a leading zero, `A00` to `Z09`, is accepted and decodes to the same position as the text without the zero: y is the letter minus 'A' and x is the last digit minus one. So `A05` is (4, 0). |
| Codec.DecodeOutOfBoard | src/Main.java:148-170 | `A7` is (6, 0), `A0` is (-1, 0), `Z99` is (98, 25) and `A11` is (10, 0): decoding does no bounds check. |
| Codec.FormatExamples | src/Main.java:133-136 | `C7`, `J10` and `A00` are accepted. A lower-case letter, a leading digit, two letters, three digits, a lone letter and the empty text are rejected. |
| Codec.RejectedShapes | src/Main.java:133-136 | Text that does not start with an upper-case letter is malformed, and so is text of any length other than 2 or 3. |
| Codec.DigitsValue | src/Main.java:167 | The value of one digit is that digit, and the value of two digits is ten times the first plus the second, so a leading zero adds nothing, as with `Integer.parseInt`. One digit is below 10 and two digits are below 100. |
| Codec.Split | src/Main.java:184 | A line without a space is its own single token, so the empty line is one empty token. No token holds a space. There are no tokens at all exactly when the line is one or more spaces and nothing else. |
| Codec.JoinFields | src/Main.java:184 | Joining the space-separated fields with single spaces gives back the original line, so splitting loses nothing but the separators. |
| Codec.DropTrailingEmpty | src/Main.java:184 | The result is a prefix of the fields. It does not end in an empty field, and everything dropped is empty, as `String.split` drops trailing empty strings. |
| Codec.SplitTwoTokens | src/Main.java:184 | A line made of two space-free tokens joined by one space, the second non-empty, splits into exactly those two tokens. |
| Codec.SplitSingleToken | src/Main.java:184-188 | A space-free line, with or without one trailing space, yields fewer than two tokens, which is the case where the source fails. |
| Codec.TranslateInputCoordinates | src/Main.java:183-190 | The result is `None` exactly when the line splits into fewer than two tokens. Otherwise it is the decoding of the first two tokens. |
| Grid.InBounds | src/Main.java:289-295 | True exactly when 0 <= x < 10 and 0 <= y < 10. |
| Grid.AfterShot | src/Main.java:444-456 | A shot always leaves the cell hit or missed. It is hit exactly when the cell held a ship part, hit or not. |
| Grid.ShotOutcome | src/Main.java:444-456 | A shot leaves the cell missed exactly when it was fog or missed. A second shot at the same cell changes nothing more. Of the states other than an unhit ship part, only fog is changed by a shot. |
| Grid.Hidden | src/Main.java:121-125 | The opponent's view never shows an unhit ship part: such a cell is shown as fog, and every other state is shown as itself. |
| Grid.ShotIsVisible | src/Main.java:121-125 | Once a cell has been shot, the opponent's view of it is its true state. |
| Ships.CountNotHit | src/Main.java:57-65 | The number of a ship's cells not hit is at most its number of cells. |
| Ships.CountNotHitExtremes | src/Main.java:57-65 | The count is 0 exactly when every cell is hit. It equals the number of cells exactly when no cell is hit. |
| Ships.Ship.constructor | src/Main.java:42-46 | A new ship has the given name and health and no cells. |
| Ships.Ship.AddCell | src/Main.java:48-50 | The position is appended to the ship's cells. |
| Ships.Ship.CheckHealth | src/Main.java:57-65 | The loop sets health to the number of the ship's cells that are not hit. It reports the ship afloat exactly when that number is not 0, and sunk exactly when every cell is hit. |
| Ships.FirstSunk | src/Main.java:501-508 | The index of the first ship with no cell afloat: every earlier ship is afloat. When every ship is afloat, it is the roster's length. |
| Ships.WithoutFirstSunk | src/Main.java:501-508 | The roster keeps its length exactly when every ship is afloat, and is then unchanged. Otherwise it loses exactly one ship and keeps only ships it had. |
| Ships.FirstSunkAt | src/Main.java:502-506 | A scan in roster order that finds ship i sunk after ships 0..i-1 afloat removes ship i and no other. |
| Ships.NoneSunk | src/Main.java:502-508 | With every ship afloat, nothing is removed. |
| Ships.CheckUntilSunk | src/Main.java:502-507 | The loop checks health in roster order and stops at the first sunk ship, returning its index as `FirstSunk` defines it. Every ship checked has its health recounted. Later ships keep their health, unless they are the same object as a ship already checked. |
| Ships.SinkFirst | src/Main.java:501-508 | The roster after the check is `WithoutFirstSunk` of the roster before it, with health recounted up to and including the ship found sunk. |
| Ships.LastShipSunk | src/Main.java:501-509 | When the one remaining ship has every cell hit, the roster becomes empty and the game ends. |
| Board.NotDiagonal | src/Main.java:280-283 | The ends pass the orientation check exactly when the source's walk from one to the other covers the whole distance between them. A diagonal pair is further apart than the cells walked. |
| Board.SizeMatches | src/Main.java:263-271 | The size check passes exactly when the number of cells the source walks from start to end equals the ship's health. A passing ship therefore has health at least 1. |
| Board.Verdict | src/Main.java:306-308 | The checks run in the source's order. A diagonal placement is rejected as diagonal whatever its size. A wrong size is reported only for straight placements. Placement succeeds exactly when the ends are straight, the size matches and the scan is clear. A touching or out-of-grid verdict comes only from the scan's result of that kind. |
| Board.Span | src/Main.java:235-256 | The cells the source visits from start to end: down the column of start when the rows differ, along its row otherwise. The span begins at start and moves one step at a time. It ends at end when the two share a row or column, and no cell appears twice. |
| Board.SpanOnBoard | src/Main.java:263-283 | For a straight span, the size check passes exactly when the span has health cells. When both ends are on the board, every cell of the span is. |
| Board.SingleCellSpan | src/Main.java:266-270 | With both ends on the same cell, the size check takes its x branch (along the row), as when the rows are equal, and passes exactly when health is 1. The span is that one cell. |
| Board.BattleMap.constructor | src/Main.java:77-88 | Every one of the 10x10 cells is fog and the roster is empty. |
| Board.BattleMap.CellHasNoAdjacentShips | src/Main.java:200-223 | True exactly when neither the cell nor any of its orthogonal neighbours on the board holds an unhit ship part. Diagonal neighbours never count. |
| Board.BattleMap.ScanCells | src/Main.java:232-258 | The scan finds nothing exactly when every cell is on the board and free of neighbouring ships. Otherwise it stops at the first failing cell, and every cell before that one is on the board and clear. An out-of-grid result means that cell is off the board. A neighbouring-ship result means that cell is on the board with a ship on it or beside it. |
| Board.BattleMap.ShipHasNoAdjacentShips | src/Main.java:232-258 | The result is the scan of the span from start to end, in the source's visiting order. |
| Board.BattleMap.ScanWalk | src/Main.java:235-257 | The stepping loop gives the scan of the span it walks, stopping at the first cell off the grid or next to a ship. |
| Board.BattleMap.OverhangingPlacement | src/Main.java:304-308 | On an empty board, `A7 A11` for a ship of five passes the orientation and size checks. It then runs off the grid. |
| Board.BattleMap.PlaceShip | src/Main.java:304-340 | The outcome follows the checks in order: diagonal, size, then the neighbour scan of the old grid. On any failure, neither the grid nor the ship's cells change. On success, exactly the span's cells become ship parts and all others are unchanged. The ship gains the span in visiting order, and the span has health cells. A fresh ship then has full remaining health. Ships already on the board stay on it. |
| Board.BattleMap.LaySpan | src/Main.java:312-337 | The write loop marks each cell of the span as a ship part and appends it to the ship. No other cell changes. |
| Board.BattleMap.LayShip | src/Main.java:312-337 | As `LaySpan`; also, every ship that lay on ship parts before still does. |
| Board.BattleMap.Shoot | src/Main.java:440-458 | Off the board, the shot is rejected and nothing changes. On the board, only the target changes, to its state after a shot. The result says a ship was hit exactly when the cell held a ship part. |
| Board.BattleMap.AddShip | src/Main.java:372 | The ship is appended to the roster. The fleet stays on the board exactly when the new ship lies on it. |
| Board.BattleMap.RemoveFirstSunk | src/Main.java:501-509 | The roster becomes `WithoutFirstSunk` of the roster before the check. The result says whether a ship sank. Health is recounted up to the ship found sunk. Later ships keep theirs, unless they are the same object as a ship checked. Ships on the board stay on it. The board is then defeated exactly when its roster was already empty, or held one ship and that ship sank. |
| Board.BattleMap.Defeated | src/Main.java:509 | True exactly when no ship is left on the roster. |
| Board.BattleMap.SetRoster | src/Main.java:505 | The roster is replaced by one drawn from it, and ships that were on the board stay on it. |

## Left out

- The game's console loops are not modelled: `startGameShipPlacement` (src/Main.java:346-434) and the turn loop of `main`. The reason is that they read standard input and print prompts. Of the turn loop, only the sinking check and the end-of-game test are modelled (`Board.BattleMap.RemoveFirstSunk`, `Board.BattleMap.Defeated`). `Board.BattleMap.AddShip` is the roster append those loops perform after a placement.
- The messages printed by `shoot` and the turn loop are left out. The hit or miss outcome is the `ShotResult` value.
- `toString`, `toStringHidden` and `Cell.toString` are text rendering and are not modelled. Only the per-cell fog rule is modelled, as `Grid.Hidden`.
- `CellState.symbol` strings are display-only and are not modelled.
- The regular expression engine and `Integer.parseInt` are replaced by a character predicate and digit arithmetic. `Character.isDigit` also accepts non-ASCII digits, but `TranslateCoordinate` only runs the loop on text already checked for ASCII digits, so the results agree.
- A `Cell` carries its own x and y. Here a position is a `Coord` and the state lives in the grid at `[y, x]`. The Java grid keeps a cell's coordinates equal to its indices, so nothing is lost.
- The source's four direction-specific loops in `checkIfShipHasNoAdjacentShips` and `placeShip` are written as one loop that steps by the direction `StepOf` picks. They visit the same cells in the same order.
- Java exceptions are modelled as values, and the program's crash itself is not modelled. The out-of-range array index in `placeShip` becomes `OutOfGrid`. Reading a missing token in `translateInputCoordinates` becomes `None`.
- Java's `int` is 32 bits, but coordinates here stay between -1 and 98, so overflow cannot arise and is not modelled.

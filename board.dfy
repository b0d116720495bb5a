/** One player's board: a 10x10 grid of cell states and the roster of ships
    placed on it, with ship placement, shots and the turn's removal of a
    sunk ship. */
module Board {
  import opened Codec
  import opened Grid
  import opened Ships

  /** What scanning a span for neighbouring ships finds. IndexOutOfBounds is
      where the source fails with an array index out of range: the scan
      reached a span cell outside the grid before any blocked cell. */
  datatype Scan = NoAdjacentShips | AdjacentShip | IndexOutOfBounds

  /** What a placement attempt does. The source reports Placed as true and
      Diagonal, WrongSize and Touching as false; OutOfGrid is its array
      index failure. */
  datatype Placement = Placed | Diagonal | WrongSize | Touching | OutOfGrid

  /** What a shot does: OffBoard is the source's false, ShipHit and Missed
      are the two outcomes it reports for a valid shot. */
  datatype ShotResult = OffBoard | ShipHit | Missed

  function Abs(n: int): (m: nat) { if n < 0 then -n else n }

  /** The two ends share a row or a column (or both). Exactly then does the
      walk from a to b cover the whole distance between them: a diagonal
      pair is further apart than the cells the source visits. */
  predicate NotDiagonal(a: Coord, b: Coord): (r: bool)
    ensures r <==> SpanLength(a, b) == Abs(a.x - b.x) + Abs(a.y - b.y) + 1
  {
    !(a.y != b.y && a.x != b.x)
  }

  /** The inclusive length along the axis the source picks, the rows when
      they differ and the columns otherwise, equals the ship's health: the
      source visits exactly health cells, so a passing ship has at least
      one. */
  predicate SizeMatches(a: Coord, b: Coord, health: int): (r: bool)
    ensures r <==> SpanLength(a, b) == health
    ensures r ==> health >= 1
  {
    if a.y != b.y then Abs(a.y - b.y) + 1 == health else Abs(a.x - b.x) + 1 == health
  }

  /** The one-cell move from a to b along the source's axis. */
  function StepOf(a: Coord, b: Coord): (step: (int, int)) {
    if a.y != b.y then (0, if a.y < b.y then 1 else -1)
    else (if a.x < b.x then 1 else -1, 0)
  }

  /** The number of cells from a to b along the source's axis. */
  function SpanLength(a: Coord, b: Coord): (n: nat) {
    (if a.y != b.y then Abs(a.y - b.y) else Abs(a.x - b.x)) + 1
  }

  /** cs starts at a and moves one step towards b along the source's axis
      at a time, for as many cells as the source visits. */
  ghost predicate Walks(cs: seq<Coord>, a: Coord, b: Coord) {
    |cs| == SpanLength(a, b) && cs[0] == a &&
    forall i :: 0 <= i < |cs| - 1 ==>
      cs[i + 1] == Coord(cs[i].x + StepOf(a, b).0, cs[i].y + StepOf(a, b).1)
  }

  /** The cells from a to b in the order the source visits them: down the
      column of a when the rows differ, along the row of a otherwise. */
  function Span(a: Coord, b: Coord): (cs: seq<Coord>)
    ensures Walks(cs, a, b)
    ensures NotDiagonal(a, b) ==> cs[|cs| - 1] == b
    ensures forall i, j :: 0 <= i < j < |cs| ==> cs[i] != cs[j]
  {
    if a.y != b.y then
      seq(Abs(a.y - b.y) + 1, i => Coord(a.x, if a.y < b.y then a.y + i else a.y - i))
    else
      seq(Abs(a.x - b.x) + 1, i => Coord(if a.x < b.x then a.x + i else a.x - i, a.y))
  }

  /** A straight span whose ends are on the board lies on the board, and
      passes the size check exactly when it has health cells. */
  lemma SpanOnBoard(a: Coord, b: Coord, health: int)
    requires NotDiagonal(a, b)
    ensures SizeMatches(a, b, health) <==> |Span(a, b)| == health
    ensures InBounds(a) && InBounds(b) ==>
              forall i :: 0 <= i < |Span(a, b)| ==> InBounds(Span(a, b)[i])
  {
    var cs := Span(a, b);
    if InBounds(a) && InBounds(b) {
      forall i | 0 <= i < |cs| ensures InBounds(cs[i]) {
        assert cs[i] == Coord(a.x, if a.y < b.y then a.y + i else a.y - i) ||
               cs[i] == Coord(if a.x < b.x then a.x + i else a.x - i, a.y);
      }
    }
  }

  /** A ship whose two ends are the same cell takes the size check's x
      branch (along the row), as when the rows are equal, so it passes
      exactly when its health is one; it spans that one cell. */
  lemma SingleCellSpan(a: Coord, health: int)
    ensures SizeMatches(a, a, health) <==> health == 1
    ensures Span(a, a) == [a]
  {
  }

  /** The outcome of the checks placeShip runs, in its order: orientation,
      then size, then the neighbour scan. */
  function Verdict(a: Coord, b: Coord, health: int, scan: Scan): (p: Placement)
    ensures p == Placed <==> NotDiagonal(a, b) && SizeMatches(a, b, health) && scan == NoAdjacentShips
    ensures p == Diagonal <==> !NotDiagonal(a, b)
    ensures p == WrongSize <==> NotDiagonal(a, b) && !SizeMatches(a, b, health)
    ensures p == Touching ==> scan == AdjacentShip
    ensures p == OutOfGrid ==> scan == IndexOutOfBounds
  {
    if !NotDiagonal(a, b) then Diagonal
    else if !SizeMatches(a, b, health) then WrongSize
    else match scan
      case NoAdjacentShips => Placed
      case AdjacentShip => Touching
      case IndexOutOfBounds => OutOfGrid
  }

  /** The cell at (x, y) is c itself or one of its four orthogonal
      neighbours. */
  predicate Orthogonal(c: Coord, x: int, y: int) {
    Abs(x - c.x) + Abs(y - c.y) <= 1
  }

  predicate IsShipPart(s: CellState) { s == Occupied || s == Hit }

  class BattleMap {
    /** The cells, indexed [y, x]: the cell at position (x, y) is grid[y, x]. */
    const grid: array2<CellState>
    /** The roster of ships still afloat, in the order they were added. */
    var ships: seq<Ship>

    ghost predicate Valid() {
      IsBoardGrid(grid)
    }

    /** The ship lies on the board, on cells that hold a ship part (hit or
        not). */
    ghost predicate ShipOnBoard(s: Ship)
      reads grid, s`cells
      requires Valid()
    {
      s.Valid() &&
      forall j :: 0 <= j < |s.cells| ==> IsShipPart(grid[s.cells[j].y, s.cells[j].x])
    }

    /** Every rostered ship lies on the board. */
    ghost predicate FleetOnBoard()
      reads this, grid, ships`cells
      requires Valid()
    {
      forall i :: 0 <= i < |ships| ==> ShipOnBoard(ships[i])
    }

    /** A new board: every cell fog and no ships. */
    constructor ()
      ensures Valid() && fresh(grid) && ships == []
      ensures forall y, x :: 0 <= y < Size && 0 <= x < Size ==> grid[y, x] == Fog
    {
      var g := new CellState[Size, Size];
      for y := 0 to Size
        invariant forall y', x :: 0 <= y' < y && 0 <= x < Size ==> g[y', x] == Fog
      {
        for x := 0 to Size
          invariant forall y', x' :: 0 <= y' < y && 0 <= x' < Size ==> g[y', x'] == Fog
          invariant forall x' :: 0 <= x' < x ==> g[y, x'] == Fog
        {
          g[y, x] := Fog;
        }
      }
      grid := g;
      ships := [];
    }

    /** A ship may stand on c: neither c nor any of its orthogonal neighbours
        on the board holds an unhit ship part. Diagonal neighbours do not
        count. */
    function CellHasNoAdjacentShips(c: Coord): (r: bool)
      reads this, grid
      requires Valid() && InBounds(c)
      ensures r <==> forall x, y :: 0 <= x < Size && 0 <= y < Size && Orthogonal(c, x, y) ==>
                                      grid[y, x] != Occupied
    {
      if grid[c.y, c.x] == Occupied then false
      else if c.x != 0 && grid[c.y, c.x - 1] == Occupied then false
      else if c.x != Size - 1 && grid[c.y, c.x + 1] == Occupied then false
      else if c.y != 0 && grid[c.y - 1, c.x] == Occupied then false
      else if c.y != Size - 1 && grid[c.y + 1, c.x] == Occupied then false
      else true
    }

    /** Every cell before index i is on the board with no ship next to it. */
    ghost predicate ClearBefore(cells: seq<Coord>, i: int)
      reads this, grid
      requires Valid() && 0 <= i <= |cells|
    {
      forall j :: 0 <= j < i ==> InBounds(cells[j]) && CellHasNoAdjacentShips(cells[j])
    }

    /** The result of checking the cells in order, stopping at the first
        that is off the board or has a ship next to it. */
    function ScanCells(cells: seq<Coord>): (r: Scan)
      reads this, grid
      requires Valid()
      ensures r == NoAdjacentShips <==>
                forall i :: 0 <= i < |cells| ==> InBounds(cells[i]) && CellHasNoAdjacentShips(cells[i])
      ensures r == IndexOutOfBounds ==>
                exists i :: 0 <= i < |cells| && !InBounds(cells[i]) && ClearBefore(cells, i)
      ensures r == AdjacentShip ==>
                exists i :: 0 <= i < |cells| && InBounds(cells[i]) &&
                  !CellHasNoAdjacentShips(cells[i]) && ClearBefore(cells, i)
    {
      if cells == [] then NoAdjacentShips
      else if !InBounds(cells[0]) then IndexOutOfBounds
      else if !CellHasNoAdjacentShips(cells[0]) then AdjacentShip
      else
        var r := ScanCells(cells[1..]);
        assert forall i :: 1 <= i < |cells| ==> cells[i] == cells[1..][i - 1];
        r
    }

    /** Checks every cell of the span from start to end, in the source's
        order, for a ship on it or beside it. */
    method ShipHasNoAdjacentShips(start: Coord, end: Coord) returns (r: Scan)
      requires Valid()
      ensures r == ScanCells(Span(start, end))
    {
      r := ScanWalk(start, end, Span(start, end));
    }

    /** The scanning loop, stepping from start towards end over the cells of
        span. */
    method ScanWalk(start: Coord, end: Coord, ghost span: seq<Coord>) returns (r: Scan)
      requires Valid() && Walks(span, start, end)
      ensures r == ScanCells(span)
    {
      var step := StepOf(start, end);
      var dx, dy := step.0, step.1;
      var n := SpanLength(start, end);
      var x, y := start.x, start.y;
      var k := 0;
      while k < n
        invariant 0 <= k <= n
        invariant k < n ==> Coord(x, y) == span[k]
        invariant ScanCells(span[k..]) == ScanCells(span)
      {
        if !InBounds(Coord(x, y)) {
          return IndexOutOfBounds;
        }
        if !CellHasNoAdjacentShips(Coord(x, y)) {
          return AdjacentShip;
        }
        assert span[k..][1..] == span[k + 1..];
        x, y := x + dx, y + dy;
        k := k + 1;
      }
      return NoAdjacentShips;
    }

    /** On an empty board, "A7 A11" (the positions (6, 0) and (10, 0)) for
        a ship of five passes the orientation and size checks and then runs
        off the grid at column 11: placement has no bounds check of its
        own. */
    lemma OverhangingPlacement()
      requires Valid()
      requires forall y, x :: 0 <= y < Size && 0 <= x < Size ==> grid[y, x] == Fog
      ensures Verdict(Coord(6, 0), Coord(10, 0), 5, ScanCells(Span(Coord(6, 0), Coord(10, 0)))) == OutOfGrid
    {
      var span := Span(Coord(6, 0), Coord(10, 0));
      assert span[4] == Coord(10, 0);
      var k := 4;
      while k > 0
        invariant 0 <= k <= 4
        invariant ScanCells(span[k..]) == IndexOutOfBounds
      {
        assert span[k - 1] == Coord(5 + k, 0);
        assert span[k - 1..][1..] == span[k..];
        k := k - 1;
      }
    }

    /** Places ship on the span from start to end when every check passes;
        on any failure nothing changes. On success exactly the span's cells
        become ship parts and the ship gains them in visiting order. */
    method PlaceShip(start: Coord, end: Coord, ship: Ship) returns (r: Placement)
      requires Valid() && ship.Valid()
      modifies grid, ship`cells
      ensures ship.Valid()
      ensures r == Verdict(start, end, ship.health, old(ScanCells(Span(start, end))))
      ensures r != Placed ==> unchanged(grid) && ship.cells == old(ship.cells)
      ensures r == Placed ==> ship.cells == old(ship.cells) + Span(start, end)
      ensures r == Placed ==> |Span(start, end)| == ship.health
      ensures r == Placed ==>
                forall y, x :: 0 <= y < Size && 0 <= x < Size ==>
                  grid[y, x] == if Coord(x, y) in Span(start, end) then Occupied else old(grid[y, x])
      ensures r == Placed && old(ship.cells) == [] ==> ship.RemainingHealth(grid) == ship.health
      ensures old(FleetOnBoard()) ==> FleetOnBoard()
    {
      if !NotDiagonal(start, end) {
        return Diagonal;
      }
      if !SizeMatches(start, end, ship.health) {
        return WrongSize;
      }
      var scan := ShipHasNoAdjacentShips(start, end);
      if scan == AdjacentShip {
        return Touching;
      } else if scan == IndexOutOfBounds {
        return OutOfGrid;
      }
      SpanOnBoard(start, end, ship.health);
      LayShip(start, end, ship);
      r := Placed;
      if old(ship.cells) == [] {
        PlacedCellsAfloat(ship);
      }
    }

    /** Lays the ship on the span; ships already on the board stay on it,
        since the only cells that change become ship parts. */
    method LayShip(start: Coord, end: Coord, ship: Ship)
      requires Valid() && ship.Valid()
      requires forall i :: 0 <= i < |Span(start, end)| ==> InBounds(Span(start, end)[i])
      modifies grid, ship`cells
      ensures ship.Valid()
      ensures ship.cells == old(ship.cells) + Span(start, end)
      ensures forall y, x :: 0 <= y < Size && 0 <= x < Size ==>
                grid[y, x] == if Coord(x, y) in Span(start, end) then Occupied else old(grid[y, x])
      ensures old(FleetOnBoard()) ==> FleetOnBoard()
    {
      LaySpan(start, end, ship, Span(start, end));
      if old(FleetOnBoard()) {
        assert forall y, x :: 0 <= y < Size && 0 <= x < Size && old(IsShipPart(grid[y, x])) ==>
                 IsShipPart(grid[y, x]);
        forall i | 0 <= i < |ships| ensures ShipOnBoard(ships[i]) {
          var s := ships[i];
          assert old(ShipOnBoard(s));
          forall j | 0 <= j < |s.cells| ensures IsShipPart(grid[s.cells[j].y, s.cells[j].x]) {
            if s != ship || j < |old(ship.cells)| {
              assert s.cells[j] == old(s.cells[j]);
            }
          }
        }
      }
    }

    /** Writes a ship part into every cell of the span from start to end, in
        the source's visiting order, adding each to the ship. */
    method LaySpan(start: Coord, end: Coord, ship: Ship, ghost span: seq<Coord>)
      requires Valid() && ship.Valid() && Walks(span, start, end)
      requires forall i :: 0 <= i < |span| ==> InBounds(span[i])
      modifies grid, ship`cells
      ensures ship.Valid()
      ensures ship.cells == old(ship.cells) + span
      ensures forall y, x :: 0 <= y < Size && 0 <= x < Size ==>
                grid[y, x] == if Coord(x, y) in span then Occupied else old(grid[y, x])
    {
      var step := StepOf(start, end);
      var dx, dy := step.0, step.1;
      var n := SpanLength(start, end);
      var x, y := start.x, start.y;
      ghost var laid: seq<Coord> := [];
      for k := 0 to n
        invariant k < n ==> Coord(x, y) == span[k]
        invariant laid == span[..k]
        invariant ship.cells == old(ship.cells) + laid
        invariant forall y', x' :: 0 <= y' < Size && 0 <= x' < Size ==>
                    grid[y', x'] == if Coord(x', y') in laid then Occupied else old(grid[y', x'])
      {
        assert span[..k + 1] == span[..k] + [span[k]];
        grid[y, x] := Occupied;
        ship.AddCell(Coord(x, y));
        laid := laid + [Coord(x, y)];
        x, y := x + dx, y + dy;
      }
      assert laid == span;
    }

    lemma PlacedCellsAfloat(ship: Ship)
      requires Valid() && ship.Valid()
      requires forall i :: 0 <= i < |ship.cells| ==> grid[ship.cells[i].y, ship.cells[i].x] == Occupied
      ensures ship.RemainingHealth(grid) == |ship.cells|
    {
      CountNotHitExtremes(grid, ship.cells);
    }

    /** Fires at c: off the board nothing changes; on the board only c
        changes, to the state after a shot, and the result says whether a
        ship part (hit before or not) was there. */
    method Shoot(c: Coord) returns (r: ShotResult)
      requires Valid()
      modifies grid
      ensures r == OffBoard <==> !InBounds(c)
      ensures !InBounds(c) ==> unchanged(grid)
      ensures InBounds(c) ==> grid[c.y, c.x] == AfterShot(old(grid[c.y, c.x]))
      ensures InBounds(c) ==> (r == ShipHit <==> IsShipPart(old(grid[c.y, c.x])))
      ensures forall y, x :: 0 <= y < Size && 0 <= x < Size && Coord(x, y) != c ==>
                grid[y, x] == old(grid[y, x])
      ensures old(FleetOnBoard()) ==> FleetOnBoard()
    {
      if !InBounds(c) {
        return OffBoard;
      }
      if grid[c.y, c.x] == Occupied || grid[c.y, c.x] == Hit {
        if grid[c.y, c.x] == Occupied {
          grid[c.y, c.x] := Hit;
        }
        r := ShipHit;
      } else {
        grid[c.y, c.x] := Miss;
        r := Missed;
      }
    }

    /** Adds a placed ship to the roster. */
    method AddShip(ship: Ship)
      requires Valid()
      modifies this`ships
      ensures ships == old(ships) + [ship]
      ensures FleetOnBoard() <==> old(FleetOnBoard()) && ShipOnBoard(ship)
    {
      ships := ships + [ship];
      assert forall i :: 0 <= i < |old(ships)| ==> ships[i] == old(ships)[i];
      assert ships[|ships| - 1] == ship;
      if FleetOnBoard() {
        assert ShipOnBoard(ships[|ships| - 1]);
      }
    }

    /** The sinking check after a shot: recounts the health of each ship in
        roster order, and removes the first one found sunk, and only that
        one. */
    method RemoveFirstSunk() returns (sank: bool)
      requires Valid() && AllValid(ships)
      modifies this`ships, ships`health
      ensures ships == old(WithoutFirstSunk(ships, grid))
      ensures sank <==> |ships| < |old(ships)|
      ensures var k := old(FirstSunk(ships, grid));
              forall j :: 0 <= j < |old(ships)| && j <= k ==>
                old(ships)[j].health == old(ships[j].RemainingHealth(grid))
      ensures var k := old(FirstSunk(ships, grid));
              forall j :: k < j < |old(ships)| && (forall i :: 0 <= i <= k ==> old(ships)[i] != old(ships)[j]) ==>
                old(ships)[j].health == old(ships[j].health)
      ensures old(FleetOnBoard()) ==> FleetOnBoard()
      ensures Defeated() <==> |old(ships)| == 0 || (|old(ships)| == 1 && sank)
    {
      var rest;
      rest, sank := SinkFirst(ships, grid);
      assert old(FleetOnBoard()) ==> FleetOnBoard();
      SetRoster(rest);
    }

    /** Replaces the roster by one drawn from it; ships that were on the
        board stay on it. */
    method SetRoster(rest: seq<Ship>)
      requires Valid()
      requires forall j :: 0 <= j < |rest| ==> rest[j] in ships
      modifies this`ships
      ensures ships == rest
      ensures old(FleetOnBoard()) ==> FleetOnBoard()
    {
      ghost var before := ships;
      ships := rest;
      if old(FleetOnBoard()) {
        forall j | 0 <= j < |ships| ensures ShipOnBoard(ships[j]) {
          assert ships[j] in before;
          var i :| 0 <= i < |before| && before[i] == ships[j];
          assert old(ShipOnBoard(before[i]));
        }
      }
    }

    /** The board is defeated once its roster is empty: no ship is left. */
    predicate Defeated(): (r: bool)
      reads this
      ensures r <==> |ships| == 0
    {
      ships == []
    }
  }
}

/** The board's geometry and the states of a single cell: the fixed 10x10
    size, the bounds test, and the per-cell rules for shots and for the
    view an opponent gets. */
module Grid {
  import opened Codec

  /** The side of the square board. */
  const Size := 10

  /** The state of one cell. Occupied is a cell holding part of a ship that
      has not been hit; a new board is all Fog. */
  datatype CellState = Fog | Occupied | Hit | Miss

  /** The position lies on the board. */
  function InBounds(c: Coord): (r: bool)
    ensures r <==> 0 <= c.x < Size && 0 <= c.y < Size
  {
    !((c.x < 0 || c.x > Size - 1) || (c.y < 0 || c.y > Size - 1))
  }

  /** A grid the board can use: Size rows of Size cells, indexed [y, x]. */
  ghost predicate IsBoardGrid(g: array2<CellState>) {
    g.Length0 == Size && g.Length1 == Size
  }

  /** The state a cell is left in after a shot at it: a ship part is hit, a
      hit stays hit, and fog or an earlier miss becomes (or stays) a miss. */
  function AfterShot(s: CellState): (t: CellState)
    ensures t == Hit || t == Miss
    ensures t == Hit <==> s == Occupied || s == Hit
  {
    match s
    case Occupied => Hit
    case Hit => Hit
    case Fog => Miss
    case Miss => Miss
  }

  /** A shot misses exactly when the cell holds fog or an earlier miss; a
      second shot at the same cell changes nothing further; and of the
      states other than an unhit ship part, only fog is changed by a shot. */
  lemma ShotOutcome(s: CellState)
    ensures AfterShot(s) == Miss <==> s == Fog || s == Miss
    ensures AfterShot(AfterShot(s)) == AfterShot(s)
    ensures s != Occupied ==> (AfterShot(s) == s <==> s != Fog)
  {
  }

  /** What the opponent sees of a cell: a ship part that has not been hit is
      shown as fog; every other state is shown as it is. */
  function Hidden(s: CellState): (v: CellState)
    ensures v != Occupied
    ensures v == s <==> s != Occupied
    ensures s == Occupied ==> v == Fog
  {
    if s == Occupied then Fog else s
  }

  /** After a shot, the opponent's view of the cell is the cell's true
      state. */
  lemma ShotIsVisible(s: CellState)
    ensures Hidden(AfterShot(s)) == AfterShot(s)
  {
  }
}

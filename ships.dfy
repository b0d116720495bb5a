/** Ships: a named ship with its declared health and the cells it occupies,
    how much of it is still afloat, and which ship a turn removes as sunk. */
module Ships {
  import opened Codec
  import opened Grid

  /** The number of the given cells of g that have not been hit. */
  function CountNotHit(g: array2<CellState>, cells: seq<Coord>): (n: nat)
    reads g
    requires IsBoardGrid(g)
    requires forall i :: 0 <= i < |cells| ==> InBounds(cells[i])
    ensures n <= |cells|
  {
    if cells == [] then 0
    else
      var c := cells[|cells| - 1];
      assert InBounds(c);
      CountNotHit(g, cells[..|cells| - 1]) + (if g[c.y, c.x] != Hit then 1 else 0)
  }

  /** No cell left afloat means every cell is hit, and a count equal to the
      number of cells means none is. */
  lemma {:induction false} CountNotHitExtremes(g: array2<CellState>, cells: seq<Coord>)
    requires IsBoardGrid(g)
    requires forall i :: 0 <= i < |cells| ==> InBounds(cells[i])
    ensures CountNotHit(g, cells) == 0 <==>
              forall i :: 0 <= i < |cells| ==> g[cells[i].y, cells[i].x] == Hit
    ensures CountNotHit(g, cells) == |cells| <==>
              forall i :: 0 <= i < |cells| ==> g[cells[i].y, cells[i].x] != Hit
  {
    if cells != [] {
      var prefix := cells[..|cells| - 1];
      CountNotHitExtremes(g, prefix);
      assert forall i :: 0 <= i < |prefix| ==> prefix[i] == cells[i];
    }
  }

  class Ship {
    const name: string
    /** The declared size until the first health check, then the number of
        cells not yet hit. */
    var health: int
    /** The positions of the board cells this ship occupies, in the order
        they were laid. */
    var cells: seq<Coord>

    ghost predicate Valid()
      reads this`cells
    {
      forall i :: 0 <= i < |cells| ==> InBounds(cells[i])
    }

    constructor (name: string, health: int)
      ensures this.name == name && this.health == health && cells == []
      ensures Valid()
    {
      this.name := name;
      this.health := health;
      cells := [];
    }

    method AddCell(c: Coord)
      modifies this`cells
      ensures cells == old(cells) + [c]
    {
      cells := cells + [c];
    }

    /** The number of this ship's cells on g that are not hit. */
    function RemainingHealth(g: array2<CellState>): (n: nat)
      reads this`cells, g
      requires Valid() && IsBoardGrid(g)
    {
      CountNotHit(g, cells)
    }

    /** Recounts health from the board and reports whether the ship is still
        afloat, which is false exactly when every one of its cells is hit. */
    method CheckHealth(g: array2<CellState>) returns (afloat: bool)
      requires Valid() && IsBoardGrid(g)
      modifies this`health
      ensures health == RemainingHealth(g)
      ensures afloat <==> health != 0
      ensures !afloat <==> forall i :: 0 <= i < |cells| ==> g[cells[i].y, cells[i].x] == Hit
    {
      health := 0;
      for i := 0 to |cells|
        invariant health == CountNotHit(g, cells[..i])
      {
        assert cells[..i + 1][..i] == cells[..i];
        if g[cells[i].y, cells[i].x] != Hit {
          health := health + 1;
        }
      }
      assert cells[..|cells|] == cells;
      afloat := health != 0;
      CountNotHitExtremes(g, cells);
    }
  }

  /** All ships have their cells on the board. */
  ghost predicate AllValid(ships: seq<Ship>)
    reads ships`cells
  {
    forall i :: 0 <= i < |ships| ==> ships[i].Valid()
  }

  /** The index of the first ship with no cell afloat, or the number of
      ships when every ship is afloat. */
  function FirstSunk(ships: seq<Ship>, g: array2<CellState>): (k: nat)
    reads ships`cells, g
    requires IsBoardGrid(g) && AllValid(ships)
    ensures k <= |ships|
    ensures k < |ships| ==> ships[k].RemainingHealth(g) == 0
    ensures forall j :: 0 <= j < k ==> ships[j].RemainingHealth(g) != 0
  {
    if ships == [] then 0
    else if ships[0].RemainingHealth(g) == 0 then 0
    else 1 + FirstSunk(ships[1..], g)
  }

  /** The roster after a turn's sinking check: the first sunk ship is
      removed, and only that one. */
  function WithoutFirstSunk(ships: seq<Ship>, g: array2<CellState>): (r: seq<Ship>)
    reads ships`cells, g
    requires IsBoardGrid(g) && AllValid(ships)
    ensures |r| == |ships| <==> forall j :: 0 <= j < |ships| ==> ships[j].RemainingHealth(g) != 0
    ensures |r| == |ships| ==> r == ships
    ensures |r| < |ships| ==> |r| == |ships| - 1
    ensures forall j :: 0 <= j < |r| ==> r[j] in ships
  {
    var k := FirstSunk(ships, g);
    if k < |ships| then ships[..k] + ships[k + 1..] else ships
  }

  /** The ship found sunk by a scan in roster order, after ships all found
      afloat, is the one the rule removes. */
  lemma FirstSunkAt(ships: seq<Ship>, g: array2<CellState>, i: nat)
    requires IsBoardGrid(g) && AllValid(ships)
    requires i < |ships| && ships[i].RemainingHealth(g) == 0
    requires forall j :: 0 <= j < i ==> ships[j].RemainingHealth(g) != 0
    ensures FirstSunk(ships, g) == i
    ensures WithoutFirstSunk(ships, g) == ships[..i] + ships[i + 1..]
  {
  }

  /** With every ship afloat the rule removes nothing. */
  lemma NoneSunk(ships: seq<Ship>, g: array2<CellState>)
    requires IsBoardGrid(g) && AllValid(ships)
    requires forall j :: 0 <= j < |ships| ==> ships[j].RemainingHealth(g) != 0
    ensures FirstSunk(ships, g) == |ships|
    ensures WithoutFirstSunk(ships, g) == ships
  {
  }

  /** Runs each ship's health check in roster order until one reports it
      has sunk, and returns that ship's index (the roster's length when none
      has). Every ship checked has its health recounted. */
  method CheckUntilSunk(roster: seq<Ship>, g: array2<CellState>) returns (k: nat)
    requires IsBoardGrid(g) && AllValid(roster)
    modifies roster`health
    ensures k == FirstSunk(roster, g)
    ensures forall j :: 0 <= j < |roster| && j <= k ==> roster[j].health == roster[j].RemainingHealth(g)
    ensures forall j :: k < j < |roster| && (forall i :: 0 <= i <= k ==> roster[i] != roster[j]) ==>
              roster[j].health == old(roster[j].health)
  {
    k := 0;
    while k < |roster|
      invariant k <= |roster|
      invariant forall j :: 0 <= j < k ==> roster[j].health != 0
      invariant forall j :: 0 <= j < k ==> roster[j].health == roster[j].RemainingHealth(g)
      invariant forall j :: k <= j < |roster| && (forall i :: 0 <= i < k ==> roster[i] != roster[j]) ==>
                  roster[j].health == old(roster[j].health)
    {
      var afloat := roster[k].CheckHealth(g);
      if !afloat {
        FirstSunkAt(roster, g, k);
        return;
      }
      k := k + 1;
    }
    NoneSunk(roster, g);
  }

  /** A turn's sinking check on the roster: recounts health in roster order
      up to the first ship found sunk and returns the roster without that
      ship, reporting whether one sank. */
  method SinkFirst(roster: seq<Ship>, g: array2<CellState>) returns (rest: seq<Ship>, sank: bool)
    requires IsBoardGrid(g) && AllValid(roster)
    modifies roster`health
    ensures rest == old(WithoutFirstSunk(roster, g))
    ensures sank <==> |rest| < |roster|
    ensures var k := old(FirstSunk(roster, g));
            forall j :: 0 <= j < |roster| && j <= k ==> roster[j].health == old(roster[j].RemainingHealth(g))
    ensures var k := old(FirstSunk(roster, g));
            forall j :: k < j < |roster| && (forall i :: 0 <= i <= k ==> roster[i] != roster[j]) ==>
              roster[j].health == old(roster[j].health)
  {
    var k := CheckUntilSunk(roster, g);
    sank := k < |roster|;
    if sank {
      FirstSunkAt(roster, g, k);
      rest := roster[..k] + roster[k + 1..];
    } else {
      NoneSunk(roster, g);
      rest := roster;
    }
  }

  /** When the one ship left is sunk, the roster becomes empty, which ends
      the game. */
  lemma LastShipSunk(ships: seq<Ship>, g: array2<CellState>)
    requires IsBoardGrid(g) && AllValid(ships)
    requires |ships| == 1
    requires forall i :: 0 <= i < |ships[0].cells| ==> g[ships[0].cells[i].y, ships[0].cells[i].x] == Hit
    ensures WithoutFirstSunk(ships, g) == []
  {
    CountNotHitExtremes(g, ships[0].cells);
  }
}

/**
 * The grid model: cells whose state is updated in place, and the game that
 * owns a size x size grid of them, row by row.
 */
module GridModel {
  import opened Optional
  import opened Boards
  import Wire

  /** One square of the puzzle: a fixed position in its game and a mutable state. */
  class Cell {
    const game: Game
    const x: int
    const y: int
    var state: nat

    /** A cell at column x, row y of `game`, in state 0. */
    constructor (game: Game, x: int, y: int)
      ensures this.game == game && this.x == x && this.y == y && state == 0
    {
      this.game := game;
      this.x := x;
      this.y := y;
      new;
      SetState(0);
    }

    method SetState(n: nat)
      modifies this
      ensures state == n
    {
      state := n;
    }

    /** Advances the state by one, wrapping around to 0 at the game's base. */
    method Increment()
      requires game.base != 0
      modifies this
      ensures state == Inc(old(state), game.base)
    {
      SetState((state + 1) % game.base);
    }
  }

  /** The states of one row, left to right. */
  function RowStates(row: seq<Cell>): (r: seq<nat>)
    reads row
    ensures |r| == |row| && forall x :: 0 <= x < |row| ==> r[x] == row[x].state
  {
    seq(|row|, x requires 0 <= x < |row| reads row => row[x].state)
  }

  class Game {
    const size: int
    const base: int
    /** `grid[y][x]` is the cell in column x of row y. */
    var grid: seq<seq<Cell>>

    /** The grid is square, of side max(size, 0), and each cell knows its game and its position. */
    ghost predicate Valid()
      reads this
    {
      |grid| == Dim(size) &&
      (forall y :: 0 <= y < |grid| ==> |grid[y]| == Dim(size)) &&
      (forall y, x :: 0 <= y < |grid| && 0 <= x < |grid[y]| ==>
        grid[y][x].game == this && grid[y][x].x == x && grid[y][x].y == y)
    }

    /** The cells of the grid: what a click may change. */
    ghost function Cells(): set<Cell>
      reads this
    {
      set y, x | 0 <= y < |grid| && 0 <= x < |grid[y]| :: grid[y][x]
    }

    /** The cell states, row by row. */
    function States(): (b: Board)
      reads this, Cells()
      requires Valid()
      ensures IsSquare(b, Dim(size))
      ensures forall y, x :: 0 <= y < Dim(size) && 0 <= x < Dim(size) ==> b[y][x] == grid[y][x].state
    {
      seq(|grid|, y requires 0 <= y < |grid| reads this, Cells() => RowStates(grid[y]))
    }

    /** A game of `size` rows of `size` cells, all in state 0. */
    constructor (size: int, base: int)
      ensures this.size == size && this.base == base
      ensures Valid() && fresh(Cells())
      ensures States() == Zeros(Dim(size))
    {
      this.size := size;
      this.base := base;
      grid := [];
      new;
      var y := 0;
      while y < size
        invariant y <= Dim(size) && |grid| == y
        invariant forall j :: 0 <= j < y ==> |grid[j]| == Dim(size)
        invariant forall j, i :: 0 <= j < y && 0 <= i < |grid[j]| ==>
          fresh(grid[j][i]) && grid[j][i].game == this && grid[j][i].x == i && grid[j][i].y == j
          && grid[j][i].state == 0
      {
        var row: seq<Cell> := [];
        var x := 0;
        ghost var done := grid;
        while x < size
          invariant grid == done
          invariant x <= size && |row| == x
          invariant forall i :: 0 <= i < x ==>
            fresh(row[i]) && row[i].game == this && row[i].x == i && row[i].y == y && row[i].state == 0
          invariant forall j, i :: 0 <= j < y && 0 <= i < |grid[j]| ==>
            fresh(grid[j][i]) && grid[j][i].game == this && grid[j][i].x == i && grid[j][i].y == j
            && grid[j][i].state == 0
        {
          var cell := new Cell(this, x, y);
          row := row + [cell];
          x := x + 1;
        }
        grid := grid + [row];
        y := y + 1;
      }
      assert Valid();
      forall j | 0 <= j < Dim(size) ensures States()[j] == Zeros(Dim(size))[j] {
      }
    }

    /** The cell at column x, row y, or nothing when (x, y) lies off the grid. */
    function GetCell(x: int, y: int): (r: Option<Cell>)
      reads this
      requires Valid()
      ensures r.Some? <==> 0 <= x < size && 0 <= y < size
      ensures r.Some? ==> r.value in Cells() && r.value.x == x && r.value.y == y
    {
      if 0 <= x < size && 0 <= y < size then Some(grid[y][x]) else None
    }

    /**
     * Increments the clicked cell and its four orthogonal neighbours, skipping
     * those off the grid, and returns the query string the address bar gets.
     */
    method Click(x: int, y: int) returns (query: string)
      requires Valid() && base != 0
      modifies Cells()
      ensures Valid()
      ensures States() == ClickBoard(old(States()), x, y, base)
      ensures query == Wire.Encode(size, base, States())
    {
      var k := 0;
      while k < |Offsets|
        invariant k <= |Offsets|
        invariant forall j, i :: 0 <= j < |grid| && 0 <= i < |grid[j]| ==>
          grid[j][i].state == if (i - x, j - y) in Offsets[..k] then Inc(old(grid[j][i].state), base)
                              else old(grid[j][i].state)
      {
        var (dx, dy) := Offsets[k];
        var cell := GetCell(x + dx, y + dy);
        if cell.Some? {
          cell.value.Increment();
        }
        OffsetsArePlus(x + dx, y + dy, x, y);
        k := k + 1;
      }
      var before := old(States());
      var after := ClickBoard(before, x, y, base);
      forall j | 0 <= j < |grid| ensures States()[j] == after[j] {
        forall i | 0 <= i < |grid[j]| ensures States()[j][i] == after[j][i] {
          OffsetsArePlus(i, j, x, y);
          assert Offsets[..|Offsets|] == Offsets;
        }
      }
      query := Update();
    }

    /**
     * The query string `size=..&base=..&state=..` for the current grid. When
     * every state is a single digit, it decodes back to this very game.
     */
    function Update(): (query: string)
      reads this, Cells()
      requires Valid()
      ensures query == Wire.Encode(size, base, States())
      ensures InRange(States(), 10) ==>
        forall size0, base0 :: Wire.Decode(query, size0, base0) == Wire.Session(size, base, States())
    {
      var b := States();
      if InRange(b, 10) then
        assert forall size0, base0 :: Wire.Decode(Wire.Encode(size, base, b), size0, base0) == Wire.Session(size, base, b) by {
          forall size0, base0 ensures Wire.Decode(Wire.Encode(size, base, b), size0, base0) == Wire.Session(size, base, b) {
            Wire.DecodeEncode(size, base, b, size0, base0);
          }
        }
        Wire.Encode(size, base, b)
      else
        Wire.Encode(size, base, b)
    }
  }
}

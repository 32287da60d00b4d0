/** The pixel manager: a width x height grid of cells, each either empty
    (background white) or occupied with a colour. Coordinates use a top-left
    origin; x selects the column list, y the cell inside it. Drawing the grid
    on a pygame surface is not part of this model. */
module Pixels {

  /** Colours are opaque tags; the program only ever compares them.
      White = (255,255,255), Food = (255,255,0), Body = (150,150,150),
      Head = (0,0,255). */
  datatype Color = White | Food | Body | Head

  /** One grid cell: the occupied flag and the colour. */
  datatype Cell = Cell(occupied: bool, color: Color)

  /** The state every cell starts in and returns to when removed or cleared. */
  const Empty := Cell(false, White)

  class PixelManager {
    const width: nat
    const height: nat
    const cells: array2<Cell>

    /** The cell array has exactly the grid's dimensions. */
    predicate Valid() {
      cells.Length0 == width && cells.Length1 == height
    }

    predicate InRange(x: int, y: int) {
      0 <= x < width && 0 <= y < height
    }

    /** Every cell is (False, white). */
    ghost predicate Blank()
      requires Valid()
      reads cells
    {
      forall x, y :: 0 <= x < width && 0 <= y < height ==> cells[x, y] == Empty
    }

    /** Every cell is occupied. */
    ghost predicate Full()
      requires Valid()
      reads cells
    {
      forall x, y :: 0 <= x < width && 0 <= y < height ==> cells[x, y].occupied
    }

    /** Builds the grid with every cell (False, white). The pixel size computed
        from the screen size divides by the map size, so both must be positive. */
    constructor (width: nat, height: nat)
      requires width > 0 && height > 0
      ensures Valid() && Blank() && fresh(cells)
      ensures this.width == width && this.height == height
    {
      this.width := width;
      this.height := height;
      cells := new Cell[width, height];
      new;
      Clear();
    }

    /** Writes (True, color) into a cell unless it is occupied and force is off;
        reports whether it wrote. No other cell changes. */
    method AddPixel(x: int, y: int, color: Color, force: bool) returns (ok: bool)
      requires Valid() && InRange(x, y)
      modifies cells
      ensures ok <==> !old(cells[x, y].occupied) || force
      ensures ok ==> cells[x, y] == Cell(true, color)
      ensures !ok ==> unchanged(cells)
      ensures forall i, j :: 0 <= i < width && 0 <= j < height && (i != x || j != y) ==>
                cells[i, j] == old(cells[i, j])
    {
      if cells[x, y].occupied && !force {
        return false;
      }
      cells[x, y] := Cell(true, color);
      return true;
    }

    /** Empties an occupied cell and reports whether it did; an empty cell is
        left alone. No other cell changes. */
    method RemovePixel(x: int, y: int) returns (ok: bool)
      requires Valid() && InRange(x, y)
      modifies cells
      ensures ok == old(cells[x, y].occupied)
      ensures ok ==> cells[x, y] == Empty
      ensures !ok ==> unchanged(cells)
      ensures forall i, j :: 0 <= i < width && 0 <= j < height && (i != x || j != y) ==>
                cells[i, j] == old(cells[i, j])
    {
      if !cells[x, y].occupied {
        return false;
      }
      cells[x, y] := Empty;
      return true;
    }

    /** Reads a cell; changes nothing. */
    method Query(x: int, y: int) returns (c: Cell)
      requires Valid() && InRange(x, y)
      ensures c == cells[x, y]
    {
      c := cells[x, y];
    }

    /** Empties every cell, column by column. */
    method Clear()
      requires Valid()
      modifies cells
      ensures Blank()
    {
      var i := 0;
      while i < width
        invariant 0 <= i <= width
        invariant forall a, b :: 0 <= a < i && 0 <= b < height ==> cells[a, b] == Empty
      {
        var j := 0;
        while j < height
          invariant 0 <= j <= height
          invariant forall a, b :: 0 <= a < i && 0 <= b < height ==> cells[a, b] == Empty
          invariant forall b :: 0 <= b < j ==> cells[i, b] == Empty
        {
          cells[i, j] := Empty;
          j := j + 1;
        }
        i := i + 1;
      }
    }
  }
}

/** The fixed-size cell array of one generation. */
module Matrices {
  import opened Points
  import opened Grids

  /** A `height` by `width` board of cells stored as `height` rows of `width`
      entries; true is a live cell (the source's 1), false a dead one (the
      source's `undefined`). `Contents` is the board as a value. */
  class Matrix {
    const width: nat
    const height: nat
    const cells: array2<bool>
    ghost var Contents: Grid

    ghost predicate Valid()
      reads this, cells
    {
      cells.Length0 == height && cells.Length1 == width &&
      Shaped(Contents, height, width) &&
      forall i, j :: 0 <= i < height && 0 <= j < width ==> Contents[i][j] == cells[i, j]
    }

    /** The bounds test uses `width` for `x` and `height` for `y`, while the
        array has `height` rows indexed by `x`; the two agree only on square
        boards, which is what every board-reading operation below requires. */
    predicate Square() {
      width == height
    }

    /** A fresh board with every cell dead. */
    constructor (width: nat, height: nat)
      ensures Valid() && fresh(cells)
      ensures this.width == width && this.height == height
      ensures Contents == Dead(height, width)
    {
      this.width := width;
      this.height := height;
      cells := new bool[height, width]((i, j) => false);
      Contents := Dead(height, width);
    }

    /** Kills every cell. */
    method Reset()
      requires Valid()
      modifies this, cells
      ensures Valid() && Contents == Dead(height, width)
    {
      for i := 0 to height
        invariant forall a, b :: 0 <= a < i && 0 <= b < width ==> !cells[a, b]
      {
        for j := 0 to width
          invariant forall a, b :: 0 <= a < i && 0 <= b < width ==> !cells[a, b]
          invariant forall b :: 0 <= b < j ==> !cells[i, b]
        {
          cells[i, j] := false;
        }
      }
      Contents := Dead(height, width);
    }

    /** Sets every cell from an explicit choice, one per cell; `choice`
        stands in for the source's per-cell random draw. */
    method FillRandom(choice: Grid)
      requires Valid() && Shaped(choice, height, width)
      modifies this, cells
      ensures Valid() && Contents == choice
    {
      for i := 0 to height
        invariant forall a, b :: 0 <= a < i && 0 <= b < width ==> cells[a, b] == choice[a][b]
      {
        for j := 0 to width
          invariant forall a, b :: 0 <= a < i && 0 <= b < width ==> cells[a, b] == choice[a][b]
          invariant forall b :: 0 <= b < j ==> cells[i, b] == choice[i][b]
        {
          cells[i, j] := choice[i][j];
        }
      }
      Contents := choice;
    }

    /** The bounds test, as written: `x` against `width`, `y` against `height`.
        On a square board it accepts exactly the row and column indices of
        the array, `x` below the number of rows and `y` below the row length. */
    function IsInside(p: Point): (inside: bool)
      ensures inside <==> 0 <= p.x < width && 0 <= p.y < height
      ensures Square() ==> (inside <==> 0 <= p.x < height && 0 <= p.y < width)
    {
      !(p.x < 0 || p.x >= width || p.y < 0 || p.y >= height)
    }

    /** The state of cell `p`; a point outside the board reads as dead. */
    function GetAt(p: Point): (alive: bool)
      reads this, cells
      requires Valid() && Square()
      ensures alive == Alive(Contents, p)
      ensures alive ==> IsInside(p)
    {
      if IsInside(p) then cells[p.x, p.y] else false
    }

    /** Overwrites cell `p` with `v`; a point outside the board is ignored. */
    method SetAt(p: Point, v: bool)
      requires Valid() && Square()
      modifies this, cells
      ensures Valid() && Contents == Update(old(Contents), p, v)
    {
      if IsInside(p) {
        cells[p.x, p.y] := v;
        Contents := Contents[p.x := Contents[p.x][p.y := v]];
      }
    }

    /** The states of the eight neighbours of `p` in the order of the
        `Neighbors` table; a neighbour off the board reads as dead. */
    method GetSurroundings(p: Point) returns (s: seq<bool>)
      requires Valid() && Square()
      ensures s == NeighborStates(Contents, p)
    {
      s := [];
      for k := 0 to |Neighbors|
        invariant s == NeighborStates(Contents, p)[..k]
      {
        var point := p.Add(Neighbors[k]);
        ghost var all := NeighborStates(Contents, p);
        assert all[..k + 1] == all[..k] + [Alive(Contents, point)];
        if IsInside(point) {
          s := s + [GetAt(point)];
        } else {
          s := s + [false];
        }
      }
    }

    /** The text picture: one line per row, '*' for a live cell and ' ' for a
        dead one, each line ended by "\n". */
    method ToString() returns (str: string)
      requires Valid()
      ensures str == GridText(Contents)
      ensures |str| == height * (width + 1)
    {
      str := "";
      for i := 0 to height
        invariant str == GridText(Contents[..i])
      {
        for j := 0 to width
          invariant str == GridText(Contents[..i]) + RowText(Contents[i][..j])
        {
          if cells[i, j] {
            str := str + "*";
          } else {
            str := str + " ";
          }
          assert Contents[i][..j + 1][..j] == Contents[i][..j];
          assert RowText(Contents[i][..j + 1]) == RowText(Contents[i][..j]) + [CellChar(Contents[i][j])];
          ConcatAssoc(GridText(Contents[..i]), RowText(Contents[i][..j]), [CellChar(Contents[i][j])]);
        }
        assert Contents[i][..width] == Contents[i];
        assert Contents[..i + 1] == Contents[..i] + [Contents[i]];
        GridTextAppend(Contents[..i], [Contents[i]]);
        GridTextOne(Contents[i]);
        ConcatAssoc(GridText(Contents[..i]), RowText(Contents[i]), "\n");
        str := str + "\n";
      }
      assert Contents[..height] == Contents;
      GridTextLength(Contents, height, width);
    }
  }

  /** On a square board a point passes the bounds test exactly when it is a
      cell of the array, and so a cell of the board's contents. */
  lemma InsideIsCell(m: Matrix, p: Point)
    requires m.Valid() && m.Square()
    ensures m.IsInside(p) <==> 0 <= p.x < m.cells.Length0 && 0 <= p.y < m.cells.Length1
    ensures m.IsInside(p) <==> InGrid(m.Contents, p)
  {
    if 0 <= p.x < m.height {
      assert |m.Contents[p.x]| == m.width;
    }
  }

  /** On a non-square, non-empty board some point passes the bounds test
      without naming a cell of the `height` by `width` array. */
  lemma NonSquareEscapes(m: Matrix)
    requires m.width > 0 && m.height > 0 && !m.Square()
    ensures exists p :: m.IsInside(p) && !(p.x < m.height && p.y < m.width)
  {
    if m.width > m.height {
      assert m.IsInside(Point(m.height, 0));
    } else {
      assert m.IsInside(Point(0, m.width));
    }
  }
}

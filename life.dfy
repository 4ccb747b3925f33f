/** The simulation: two equally sized boards used as a double buffer, the
    generation step, cell toggling and the running flag of the ticker. */
module Life {
  import opened Points
  import opened Grids
  import opened Matrices

  /** The number of live entries among a cell's surroundings. */
  method CountAlive(sur: seq<bool>) returns (count: nat)
    ensures count == CountTrue(sur)
    ensures count <= |sur|
  {
    count := 0;
    for k := 0 to |sur|
      invariant count == CountTrue(sur[..k])
    {
      if sur[k] {
        count := count + 1;
      }
      assert sur[..k + 1][..k] == sur[..k];
    }
    assert sur[..|sur|] == sur;
    CountTrueBounds(sur);
  }

  /** Progress of a step: in `next`, the cells before (i, j) in row-major
      order hold their successor state in the generation after `gen`, and
      the cells from (i, j) on are still dead from the clearing. */
  ghost predicate Written(next: Grid, gen: Grid, rows: nat, cols: nat, i: nat, j: nat) {
    Shaped(next, rows, cols) && Shaped(gen, rows, cols) &&
    forall a, b :: 0 <= a < rows && 0 <= b < cols ==>
      next[a][b] == ((a < i || (a == i && b < j)) && Successor(gen, Point(a, b)))
  }

  lemma WrittenStart(gen: Grid, rows: nat, cols: nat)
    requires Shaped(gen, rows, cols)
    ensures Written(Dead(rows, cols), gen, rows, cols, 0, 0)
  {
  }

  /** Writing the successor state of cell (i, j), or writing nothing when
      that state is dead, advances the progress by one cell. */
  lemma WrittenCell(next: Grid, gen: Grid, rows: nat, cols: nat, i: nat, j: nat)
    requires Written(next, gen, rows, cols, i, j) && i < rows && j < cols
    ensures Written(Update(next, Point(i, j), Successor(gen, Point(i, j))), gen, rows, cols, i, j + 1)
    ensures !Successor(gen, Point(i, j)) ==> Written(next, gen, rows, cols, i, j + 1)
  {
  }

  lemma WrittenRow(next: Grid, gen: Grid, rows: nat, cols: nat, i: nat)
    requires Written(next, gen, rows, cols, i, cols)
    ensures Written(next, gen, rows, cols, i + 1, 0)
  {
  }

  /** Once every row is written, `next` is the successor generation. */
  lemma WrittenAll(next: Grid, gen: Grid, rows: nat, cols: nat)
    requires Written(next, gen, rows, cols, rows, 0)
    ensures next == NextGeneration(gen)
  {
    forall a | 0 <= a < rows
      ensures next[a] == NextGeneration(gen)[a]
    {
    }
  }

  /** The body of the step loop for one cell `p`: counts its live neighbours
      on `src` and writes its successor state into `dst`, except that a dead
      successor of a dead cell is left to the clearing. */
  method StepCell(src: Matrix, dst: Matrix, p: Point)
    requires src.Valid() && src.Square() && dst.Valid() && dst.Square()
    requires src != dst && src.cells != dst.cells
    modifies dst, dst.cells
    ensures dst.Valid() && unchanged(src, src.cells)
    ensures dst.Contents == if Alive(src.Contents, p) || LiveNeighbors(src.Contents, p) == 3
                            then Update(old(dst.Contents), p, Successor(src.Contents, p))
                            else old(dst.Contents)
  {
    var sur := src.GetSurroundings(p);
    var count := CountAlive(sur);
    assert count == LiveNeighbors(src.Contents, p);
    if src.GetAt(p) {
      if count < 2 || count > 3 {
        dst.SetAt(p, false);
      } else {
        dst.SetAt(p, src.GetAt(p));
      }
    } else if count == 3 {
      dst.SetAt(p, true);
    }
  }

  class GameOfLife {
    const width: nat
    const height: nat
    const mat1: Matrix
    const mat2: Matrix
    /** The active board: the generation currently shown. */
    var mat: Matrix
    /** Whether a ticker is installed (the source keeps its interval handle). */
    var running: bool

    ghost predicate Valid()
      reads this, mat1, mat2, mat1.cells, mat2.cells
    {
      mat1 != mat2 && mat1.cells != mat2.cells &&
      (mat == mat1 || mat == mat2) &&
      mat1.Valid() && mat2.Valid() &&
      mat1.width == width && mat1.height == height &&
      mat2.width == width && mat2.height == height
    }

    /** The board that is not active: the scratch buffer of the next step. */
    function Scratch(): Matrix
      reads this
    {
      if mat != mat1 then mat1 else mat2
    }

    /** Both boards start dead; the first becomes active and is seeded from
        `seed`, which stands in for the source's random fill. */
    constructor (width: nat, height: nat, seed: Grid)
      requires Shaped(seed, height, width)
      ensures Valid() && fresh(mat1) && fresh(mat2) && fresh(mat1.cells) && fresh(mat2.cells)
      ensures this.width == width && this.height == height
      ensures mat == mat1 && !running
      ensures mat.Contents == seed && Scratch().Contents == Dead(height, width)
    {
      this.width := width;
      this.height := height;
      var m1 := new Matrix(width, height);
      var m2 := new Matrix(width, height);
      m1.Reset();
      m2.Reset();
      mat1 := m1;
      mat2 := m2;
      mat := m1;
      running := false;
      new;
      mat.FillRandom(seed);
    }

    /** Computes the next generation into the scratch board, which is cleared
        first, reading only the active board; then the two swap roles. */
    method Step()
      requires Valid() && width == height
      modifies this`mat, Scratch(), Scratch().cells
      ensures Valid()
      ensures mat == old(Scratch()) && Scratch() == old(mat)
      ensures mat.Contents == NextGeneration(old(mat.Contents))
      ensures unchanged(Scratch(), Scratch().cells)
    {
      var newmat := if mat != mat1 then mat1 else mat2;
      newmat.Reset();
      ghost var gen := mat.Contents;
      WrittenStart(gen, height, width);
      for i := 0 to height
        invariant Valid() && mat == old(mat) && newmat == old(Scratch())
        invariant unchanged(mat, mat.cells)
        invariant Written(newmat.Contents, gen, height, width, i, 0)
      {
        for j := 0 to width
          invariant Valid() && mat == old(mat) && newmat == old(Scratch())
          invariant unchanged(mat, mat.cells)
          invariant Written(newmat.Contents, gen, height, width, i, j)
        {
          var p := Point(i, j);
          WrittenCell(newmat.Contents, gen, height, width, i, j);
          StepCell(mat, newmat, p);
        }
        WrittenRow(newmat.Contents, gen, height, width, i);
      }
      WrittenAll(newmat.Contents, gen, height, width);
      mat := newmat;
    }

    /** Installs the ticker unless one is installed already; `scheduled`
        tells whether a new ticker was requested. */
    method Start() returns (scheduled: bool)
      modifies this`running
      ensures scheduled == !old(running)
      ensures running
    {
      scheduled := false;
      if !running {
        running := true;
        scheduled := true;
      }
    }

    /** Cancels the ticker if one is installed; `cancelled` tells whether
        one was. */
    method Stop() returns (cancelled: bool)
      modifies this`running
      ensures cancelled == old(running)
      ensures !running
    {
      cancelled := false;
      if running {
        running := false;
        cancelled := true;
      }
    }

    /** Flips cell `p` of the active board; a point off the board is ignored. */
    method Toggle(p: Point)
      requires Valid() && width == height
      modifies mat, mat.cells
      ensures Valid()
      ensures mat.Contents == Flip(old(mat.Contents), p)
      ensures unchanged(Scratch(), Scratch().cells)
    {
      if mat.IsInside(p) {
        if !mat.GetAt(p) {
          mat.SetAt(p, true);
        } else {
          mat.SetAt(p, false);
        }
      }
    }
  }
}

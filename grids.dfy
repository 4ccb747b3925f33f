/** The generation of a Game of Life as a value: a grid of rows of cells
    (true = alive), together with the neighbour count, the birth/survival
    rule, the successor generation, single-cell updates and the text picture.
    The mutable `Matrix` and `GameOfLife` classes are specified against these. */
module Grids {
  import opened Points

  type Grid = seq<seq<bool>>

  /** `g` has `rows` rows of `cols` cells each. */
  predicate Shaped(g: Grid, rows: nat, cols: nat) {
    |g| == rows && forall i :: 0 <= i < rows ==> |g[i]| == cols
  }

  /** The all-dead grid. */
  function Dead(rows: nat, cols: nat): (g: Grid)
    ensures Shaped(g, rows, cols)
    ensures forall i, j :: 0 <= i < rows && 0 <= j < cols ==> !g[i][j]
  {
    seq(rows, _ => seq(cols, _ => false))
  }

  /** `p` names a cell of `g` (row `p.x`, column `p.y`). */
  predicate InGrid(g: Grid, p: Point) {
    0 <= p.x < |g| && 0 <= p.y < |g[p.x]|
  }

  /** `p` is a live cell of `g`; nothing outside `g` is alive. */
  predicate Alive(g: Grid, p: Point) {
    InGrid(g, p) && g[p.x][p.y]
  }

  // ---------------------------------------------------------------------
  // Counting live neighbours
  // ---------------------------------------------------------------------

  /** The number of `true` entries of `s`. */
  function CountTrue(s: seq<bool>): nat {
    if s == [] then 0 else CountTrue(s[..|s| - 1]) + (if s[|s| - 1] then 1 else 0)
  }

  lemma CountTrueSnoc(s: seq<bool>, k: nat)
    requires k < |s|
    ensures CountTrue(s[..k + 1]) == CountTrue(s[..k]) + (if s[k] then 1 else 0)
  {
    assert s[..k + 1][..k] == s[..k];
  }

  lemma {:induction false} CountTrueBounds(s: seq<bool>)
    ensures CountTrue(s) <= |s|
    ensures CountTrue(s) == 0 <==> forall k :: 0 <= k < |s| ==> !s[k]
  {
    if s != [] {
      var t := s[..|s| - 1];
      CountTrueBounds(t);
      assert forall k :: 0 <= k < |t| ==> t[k] == s[k];
    }
  }

  /** The state of the eight neighbours of `p`, in the order of the
      `Neighbors` table; a neighbour outside the grid reads as dead. */
  function NeighborStates(g: Grid, p: Point): (s: seq<bool>)
    ensures |s| == |Neighbors|
  {
    seq(|Neighbors|, k requires 0 <= k < |Neighbors| => Alive(g, p.Add(Neighbors[k])))
  }

  /** The live-neighbour count used by the rule. */
  function LiveNeighbors(g: Grid, p: Point): nat {
    CountTrue(NeighborStates(g, p))
  }

  /** The live cells of `g` adjacent to `p`, independently of the offset table. */
  function AliveAround(g: Grid, p: Point): set<Point> {
    set i: int, j: int | p.x - 1 <= i <= p.x + 1 && p.y - 1 <= j <= p.y + 1
                         && Adjacent(p, Point(i, j)) && Alive(g, Point(i, j)) :: Point(i, j)
  }

  /** The live cells reached through the first `m` entries of the offset table. */
  function AliveAmong(g: Grid, p: Point, m: nat): set<Point>
    requires m <= |Neighbors|
  {
    set k | 0 <= k < m && Alive(g, p.Add(Neighbors[k])) :: p.Add(Neighbors[k])
  }

  lemma AliveAmongStep(g: Grid, p: Point, m: nat)
    requires 0 < m <= |Neighbors|
    ensures var q := p.Add(Neighbors[m - 1]);
      AliveAmong(g, p, m) == AliveAmong(g, p, m - 1) + (if Alive(g, q) then {q} else {})
  {
  }

  lemma NotAmongEarlier(g: Grid, p: Point, m: nat)
    requires 0 < m <= |Neighbors|
    ensures p.Add(Neighbors[m - 1]) !in AliveAmong(g, p, m - 1)
  {
    NeighborsOfPoint(p);
  }

  lemma {:induction false} CountPrefix(g: Grid, p: Point, m: nat)
    requires m <= |Neighbors|
    ensures CountTrue(NeighborStates(g, p)[..m]) == |AliveAmong(g, p, m)|
  {
    var s := NeighborStates(g, p);
    if m == 0 {
      assert AliveAmong(g, p, 0) == {};
    } else {
      CountPrefix(g, p, m - 1);
      CountTrueSnoc(s, m - 1);
      AliveAmongStep(g, p, m);
      NotAmongEarlier(g, p, m);
    }
  }

  /** The count lies in 0..8 and is the number of live cells among the eight
      cells around `p`; cells outside the grid never count. */
  lemma LiveNeighborsIsAdjacentCount(g: Grid, p: Point)
    ensures LiveNeighbors(g, p) <= 8
    ensures LiveNeighbors(g, p) == |AliveAround(g, p)|
    ensures forall q :: q in AliveAround(g, p) ==> InGrid(g, q) && Adjacent(p, q)
  {
    var s := NeighborStates(g, p);
    CountTrueBounds(s);
    CountPrefix(g, p, |Neighbors|);
    assert s[..|Neighbors|] == s;
    NeighborsOfPoint(p);
    forall q | q in AliveAmong(g, p, |Neighbors|)
      ensures q in AliveAround(g, p)
    {
      var k :| 0 <= k < |Neighbors| && Alive(g, p.Add(Neighbors[k])) && q == p.Add(Neighbors[k]);
      assert Adjacent(p, q);
    }
    forall q | q in AliveAround(g, p)
      ensures q in AliveAmong(g, p, |Neighbors|)
    {
      var k :| 0 <= k < |Neighbors| && q == p.Add(Neighbors[k]);
    }
    assert AliveAmong(g, p, |Neighbors|) == AliveAround(g, p);
  }

  // ---------------------------------------------------------------------
  // The rule and the successor generation
  // ---------------------------------------------------------------------

  /** B3/S23: a live cell survives with 2 or 3 live neighbours, a dead cell
      is born with exactly 3; every other cell is dead next. */
  function NextState(alive: bool, count: nat): (next: bool)
    ensures next <==> count == 3 || (alive && count == 2)
  {
    if alive then !(count < 2 || count > 3) else count == 3
  }

  /** The state of point `p` in the generation after `g`; a point off the
      grid reads as dead, so its successor is computed from that. */
  function Successor(g: Grid, p: Point): bool {
    NextState(Alive(g, p), LiveNeighbors(g, p))
  }

  /** The generation after `g`, computed synchronously from `g` alone. */
  function NextGeneration(g: Grid): (r: Grid)
    ensures |r| == |g| && forall i :: 0 <= i < |g| ==> |r[i]| == |g[i]|
  {
    seq(|g|, i requires 0 <= i < |g| =>
      seq(|g[i]|, j requires 0 <= j < |g[i]| => Successor(g, Point(i, j))))
  }

  /** Every cell of the successor is alive iff it was alive with 2 or 3 live
      neighbours or dead with exactly 3, counting the live cells around it. */
  lemma NextGenerationAt(g: Grid, i: nat, j: nat)
    requires i < |g| && j < |g[i]|
    ensures NextGeneration(g)[i][j] <==>
      var n := |AliveAround(g, Point(i, j))|;
      (g[i][j] && (n == 2 || n == 3)) || (!g[i][j] && n == 3)
  {
    LiveNeighborsIsAdjacentCount(g, Point(i, j));
  }

  /** An all-dead grid has an all-dead successor. */
  lemma DeadStaysDead(rows: nat, cols: nat)
    ensures NextGeneration(Dead(rows, cols)) == Dead(rows, cols)
  {
    var g := Dead(rows, cols);
    var r := NextGeneration(g);
    forall i, j | 0 <= i < rows && 0 <= j < cols
      ensures r[i][j] == g[i][j]
    {
      var s := NeighborStates(g, Point(i, j));
      CountTrueBounds(s);
      assert forall k :: 0 <= k < |s| ==> !s[k];
    }
    forall i | 0 <= i < rows
      ensures r[i] == g[i]
    {
    }
  }

  // ---------------------------------------------------------------------
  // Single-cell updates
  // ---------------------------------------------------------------------

  /** `g` with cell `p` set to `v`; unchanged when `p` is outside `g`. */
  function Update(g: Grid, p: Point, v: bool): (r: Grid)
    ensures |r| == |g| && forall i :: 0 <= i < |g| ==> |r[i]| == |g[i]|
    ensures forall i, j :: 0 <= i < |g| && 0 <= j < |g[i]| ==>
              r[i][j] == if i == p.x && j == p.y then v else g[i][j]
    ensures !InGrid(g, p) ==> r == g
  {
    if InGrid(g, p) then g[p.x := g[p.x][p.y := v]] else g
  }

  /** `g` with cell `p` turned from alive to dead or from dead to alive. */
  function Flip(g: Grid, p: Point): Grid {
    Update(g, p, !Alive(g, p))
  }

  /** Flipping inverts exactly one in-grid cell and leaves the rest alone. */
  lemma FlipAt(g: Grid, p: Point, q: Point)
    ensures InGrid(Flip(g, p), q) <==> InGrid(g, q)
    ensures Alive(Flip(g, p), q) == if q == p && InGrid(g, p) then !Alive(g, q) else Alive(g, q)
  {
  }

  /** Flipping the same cell twice restores the grid. */
  lemma FlipTwice(g: Grid, p: Point)
    ensures Flip(Flip(g, p), p) == g
  {
    var r := Flip(Flip(g, p), p);
    if InGrid(g, p) {
      forall i | 0 <= i < |g|
        ensures r[i] == g[i]
      {
        assert |r[i]| == |g[i]|;
        forall j | 0 <= j < |g[i]|
          ensures r[i][j] == g[i][j]
        {
        }
      }
    }
  }

  // ---------------------------------------------------------------------
  // The text picture
  // ---------------------------------------------------------------------

  function CellChar(alive: bool): char {
    if alive then '*' else ' '
  }

  /** One row drawn with '*' for live and ' ' for dead cells. */
  function RowText(row: seq<bool>): string {
    if row == [] then "" else RowText(row[..|row| - 1]) + [CellChar(row[|row| - 1])]
  }

  /** Each row drawn and followed by a newline. */
  function GridText(g: Grid): string {
    if g == [] then "" else RowText(g[0]) + "\n" + GridText(g[1..])
  }

  lemma {:induction false} RowTextAt(row: seq<bool>)
    ensures |RowText(row)| == |row|
    ensures forall j :: 0 <= j < |row| ==> RowText(row)[j] == CellChar(row[j])
  {
    if row != [] {
      var init := row[..|row| - 1];
      RowTextAt(init);
      assert forall j :: 0 <= j < |init| ==> init[j] == row[j];
    }
  }

  lemma {:induction false} GridTextLength(g: Grid, rows: nat, cols: nat)
    requires Shaped(g, rows, cols)
    ensures |GridText(g)| == rows * (cols + 1)
  {
    if rows > 0 {
      GridTextLength(g[1..], rows - 1, cols);
      RowTextAt(g[0]);
      assert rows * (cols + 1) == (rows - 1) * (cols + 1) + (cols + 1);
    }
  }

  /** Associativity of concatenation, stated once: left to the solver inside
      the proofs below it is markedly more expensive. */
  lemma ConcatAssoc(t: string, u: string, v: string)
    ensures t + (u + v) == (t + u) + v
  {
  }

  lemma {:induction false} GridTextAppend(a: Grid, b: Grid)
    ensures GridText(a + b) == GridText(a) + GridText(b)
  {
    if a == [] {
      assert a + b == b;
    } else {
      var line := RowText(a[0]) + "\n";
      GridTextAppend(a[1..], b);
      assert (a + b)[1..] == a[1..] + b;
      assert (a + b)[0] == a[0];
      assert GridText(a + b) == line + GridText(a[1..] + b);
      assert GridText(a) == line + GridText(a[1..]);
      ConcatAssoc(line, GridText(a[1..]), GridText(b));
    }
  }

  /** The picture of a single row. */
  lemma GridTextOne(row: seq<bool>)
    ensures GridText([row]) == RowText(row) + "\n"
  {
    assert [row][1..] == [];
  }

  /** The picture has `rows` lines of `cols` characters each followed by
      "\n": line `i` starts at offset i * (cols + 1) and draws row `i`. */
  lemma GridTextLine(g: Grid, rows: nat, cols: nat, i: nat)
    requires Shaped(g, rows, cols) && i < rows
    ensures |GridText(g)| == rows * (cols + 1)
    ensures i * (cols + 1) + cols + 1 <= rows * (cols + 1)
    ensures GridText(g)[i * (cols + 1)..i * (cols + 1) + cols + 1] == RowText(g[i]) + "\n"
  {
    var before, after := g[..i], g[i + 1..];
    assert g == before + [g[i]] + after;
    GridTextAppend(before + [g[i]], after);
    GridTextAppend(before, [g[i]]);
    var line := RowText(g[i]) + "\n";
    GridTextOne(g[i]);
    GridTextLength(g, rows, cols);
    GridTextLength(before, i, cols);
    RowTextAt(g[i]);
    var head := GridText(before);
    assert (head + line + GridText(after))[|head|..|head| + |line|] == line;
  }

  /** Character (i, j) of the picture is '*' exactly when cell (i, j) is alive,
      and every line ends in a newline. */
  lemma GridTextAt(g: Grid, rows: nat, cols: nat, i: nat, j: nat)
    requires Shaped(g, rows, cols) && i < rows && j < cols
    ensures |GridText(g)| == rows * (cols + 1)
    ensures i * (cols + 1) + cols < |GridText(g)|
    ensures GridText(g)[i * (cols + 1) + j] == (if g[i][j] then '*' else ' ')
    ensures GridText(g)[i * (cols + 1) + cols] == '\n'
  {
    GridTextLine(g, rows, cols, i);
    RowTextAt(g[i]);
    var line := GridText(g)[i * (cols + 1)..i * (cols + 1) + cols + 1];
    assert line == RowText(g[i]) + "\n";
    assert GridText(g)[i * (cols + 1) + j] == line[j];
    assert GridText(g)[i * (cols + 1) + cols] == line[cols];
  }
}

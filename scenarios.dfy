/** A client of the simulation that relies on the contracts alone: a step
    yields the successor of the seed, toggling twice restores the board,
    `Start` and `Stop` are idempotent, and a cleared board stays dead. */
module Scenarios {
  import opened Points
  import opened Grids
  import opened Life

  method Session(seed: Grid)
    requires Shaped(seed, 5, 5)
  {
    var life := new GameOfLife(5, 5, seed);
    life.Step();
    ghost var g := life.mat.Contents;
    assert g == NextGeneration(seed);

    life.Toggle(Point(0, 0));
    assert life.mat.Contents[0][0] == !g[0][0];
    life.Toggle(Point(0, 0));
    FlipTwice(g, Point(0, 0));
    assert life.mat.Contents == g;
    life.Toggle(Point(7, -1));
    assert life.mat.Contents == g;

    var first := life.Start();
    var second := life.Start();
    assert first && !second && life.running;
    var cancelled := life.Stop();
    var again := life.Stop();
    assert cancelled && !again && !life.running;

    life.mat.Reset();
    DeadStaysDead(5, 5);
    life.Step();
    assert life.mat.Contents == Dead(5, 5);
  }
}

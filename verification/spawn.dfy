/** The flame-spawning effect of the fire mage (hero id 5): after an
    elimination exactly one cell becomes a flame, chosen among the empty cells
    when there are any and among all cells otherwise. */
module Spawn {
  import opened Gems
  import opened Board

  /** Empty cells among the first `k` cells of row `row`, left to right. */
  function EmptiesInRow(b: Board, row: nat, k: nat): (s: seq<Pos>)
    requires row < N && k <= N
    ensures forall p :: p in s <==> p.row == row && 0 <= p.col < k && b[row][p.col].None?
  {
    if k == 0 then []
    else EmptiesInRow(b, row, k - 1) + (if b[row][k - 1].None? then [Pos(row, k - 1)] else [])
  }

  /** Empty cells among the first `k` rows, in row-major order. */
  function EmptiesUpTo(b: Board, k: nat): (s: seq<Pos>)
    requires k <= N
    ensures forall p :: p in s <==> IsValidPosition(p) && p.row < k && At(b, p).None?
  {
    if k == 0 then []
    else EmptiesUpTo(b, k - 1) + EmptiesInRow(b, k - 1, |b[k - 1]|)
  }

  /** The `emptyPositions` list: every empty cell, row by row. */
  function EmptyPositions(b: Board): (s: seq<Pos>)
    ensures forall p :: p in s <==> IsValidPosition(p) && At(b, p).None?
    ensures |s| > 0 <==> HasEmpty(b)
  {
    var s := EmptiesUpTo(b, |b|);
    assert HasEmpty(b) ==> |s| > 0 by {
      if HasEmpty(b) {
        var r, c :| 0 <= r < N && 0 <= c < N && b[r][c].None?;
        assert Pos(r, c) in s;
      }
    }
    assert |s| > 0 ==> HasEmpty(b) by {
      if |s| > 0 {
        assert s[0] in s;
        assert b[s[0].row][s[0].col].None?;
      }
    }
    s
  }

  /** The cell `spawnFlameGem` writes: the draw `u` picks among the empty
      cells; on a full board `u` picks the row and `v` the column. */
  function SpawnTarget(b: Board, u: real, v: real): (t: Pos)
    requires UnitInterval(u) && UnitInterval(v)
    ensures IsValidPosition(t)
    ensures HasEmpty(b) ==> At(b, t).None?
  {
    var empties := EmptyPositions(b);
    if |empties| > 0 then empties[Scale(u, |empties|)]
    else Pos(Scale(u, N), Scale(v, N))
  }

  /** `spawnFlameGem`: one flame is written at the target; nothing else changes. */
  function SpawnFlameGem(b: Board, u: real, v: real): (r: Board)
    requires UnitInterval(u) && UnitInterval(v)
    ensures var t := SpawnTarget(b, u, v);
      && At(r, t) == Some(Flame)
      && (HasEmpty(b) ==> At(b, t).None?)
      && forall q :: IsValidPosition(q) && q != t ==> At(r, q) == At(b, q)
  {
    Put(b, SpawnTarget(b, u, v), Some(Flame))
  }

  /** Every empty cell can receive the flame. */
  lemma SpawnReachesEveryEmpty(b: Board, p: Pos, v: real)
    requires IsValidPosition(p) && At(b, p).None?
    requires UnitInterval(v)
    ensures exists u :: UnitInterval(u) && SpawnTarget(b, u, v) == p
  {
    var empties := EmptyPositions(b);
    var i :| 0 <= i < |empties| && empties[i] == p;
    ScaleReaches(|empties|, i);
    var u :| UnitInterval(u) && Scale(u, |empties|) == i;
    assert SpawnTarget(b, u, v) == p;
  }

  /** On a full board every cell can receive the flame. */
  lemma SpawnReachesEveryCellOfFullBoard(b: Board, p: Pos)
    requires IsFull(b) && IsValidPosition(p)
    ensures exists u, v :: UnitInterval(u) && UnitInterval(v) && SpawnTarget(b, u, v) == p
  {
    ScaleReaches(N, p.row);
    ScaleReaches(N, p.col);
    var u :| UnitInterval(u) && Scale(u, N) == p.row;
    var v :| UnitInterval(v) && Scale(v, N) == p.col;
    assert !HasEmpty(b);
    assert SpawnTarget(b, u, v) == p;
  }
}

/** The chain resolver: from the bounds-filtered footprint of a cast to the
    full set of positions that are eliminated.

    The expansion is one fixed pass in three phases, exactly as the game
    code runs it:
      1. every seed position is removed;
      2. every seed holding a bomb removes its in-bounds orthogonal neighbours;
      3. every flame found among the seeds or among those neighbours removes
         its whole row and column.
    Bombs and flames reached only in phase 3, and bombs reached in phase 2,
    do not trigger again. */
module Chain {
  import opened Gems
  import opened Board
  import opened Targeting

  function Elems(s: seq<Pos>): set<Pos> {
    set p | p in s
  }

  /** The positions of `s` holding `g`, in order: the `bombPositions` and
      `flamePositions` lists the passes push to. */
  function CellsOf(b: Board, s: seq<Pos>, g: Gem): (r: seq<Pos>)
    requires AllValid(s)
    ensures AllValid(r)
  {
    if |s| == 0 then []
    else
      var front := s[..|s| - 1];
      var last := s[|s| - 1];
      assert last in s;
      CellsOf(b, front, g) + (if At(b, last) == Some(g) then [last] else [])
  }

  /** The listed cells are exactly the positions of `s` that hold `g`. */
  lemma {:induction false} CellsOfMembers(b: Board, s: seq<Pos>, g: Gem)
    requires AllValid(s)
    ensures forall p :: p in CellsOf(b, s, g) <==> p in s && At(b, p) == Some(g)
  {
    if |s| > 0 {
      var front := s[..|s| - 1];
      var last := s[|s| - 1];
      assert s == front + [last];
      CellsOfMembers(b, front, g);
    }
  }

  /** Phase 2: the neighbour lists of the bombs, concatenated in visiting order. */
  function Neighbourhood(bombs: seq<Pos>): (r: seq<Pos>)
    ensures AllValid(r)
  {
    if |bombs| == 0 then []
    else Neighbourhood(bombs[..|bombs| - 1]) + GetAdjacentPositions(bombs[|bombs| - 1])
  }

  /** Phase 3: the row-and-column lists of the flames, concatenated in visiting order. */
  function Lines(flames: seq<Pos>): seq<Pos>
  {
    if |flames| == 0 then []
    else Lines(flames[..|flames| - 1]) + GetRowAndColumnPositions(flames[|flames| - 1])
  }

  /** The bomb neighbourhood holds exactly the board cells next to a listed bomb. */
  lemma {:induction false} NeighbourhoodMembers(bombs: seq<Pos>)
    ensures forall q :: q in Neighbourhood(bombs) <==> IsValidPosition(q) && exists p :: p in bombs && Orthogonal(p, q)
  {
    if |bombs| > 0 {
      var front := bombs[..|bombs| - 1];
      var last := bombs[|bombs| - 1];
      assert bombs == front + [last];
      NeighbourhoodMembers(front);
    }
  }

  /** The flame lines hold exactly the board cells in the row or column of a listed flame. */
  lemma {:induction false} LinesMembers(flames: seq<Pos>)
    requires AllValid(flames)
    ensures forall q :: q in Lines(flames) <==> exists f :: f in flames && OnLine(f, q)
  {
    if |flames| > 0 {
      var front := flames[..|flames| - 1];
      var last := flames[|flames| - 1];
      assert flames == front + [last];
      LinesMembers(front);
    }
  }

  /** `q` is a seed holding a bomb. */
  ghost predicate IsBombSeed(b: Board, seeds: seq<Pos>, q: Pos) {
    q in seeds && IsValidPosition(q) && At(b, q) == Some(Bomb)
  }

  /** `p` is a board cell next to a seed bomb. */
  ghost predicate Blasted(b: Board, seeds: seq<Pos>, p: Pos) {
    IsValidPosition(p) && exists q :: IsBombSeed(b, seeds, q) && Orthogonal(q, p)
  }

  /** `f` is a flame that goes off: it is a seed, or a seed bomb blasts it. */
  ghost predicate Ignited(b: Board, seeds: seq<Pos>, f: Pos) {
    IsValidPosition(f) && At(b, f) == Some(Flame) && (f in seeds || Blasted(b, seeds, f))
  }

  /** `p` is in the row or the column of a flame that goes off. */
  ghost predicate Burned(b: Board, seeds: seq<Pos>, p: Pos) {
    exists f :: Ignited(b, seeds, f) && OnLine(f, p)
  }

  /** The single-pass elimination rule, stated position by position. */
  ghost predicate Chained(b: Board, seeds: seq<Pos>, p: Pos) {
    p in seeds || Blasted(b, seeds, p) || Burned(b, seeds, p)
  }

  /** Every position the three passes add, as the `Set` of `"r,c"` keys holds them. */
  function Removed(b: Board, seeds: seq<Pos>): (r: set<Pos>)
    requires AllValid(seeds)
    ensures forall p :: p in r <==> Chained(b, seeds, p)
    ensures forall p :: p in seeds ==> p in r
    ensures forall p :: p in r ==> IsValidPosition(p)
  {
    var blast := Neighbourhood(CellsOf(b, seeds, Bomb));
    var flames := CellsOf(b, seeds, Flame) + CellsOf(b, blast, Flame);
    CellsOfMembers(b, seeds, Bomb);
    CellsOfMembers(b, seeds, Flame);
    CellsOfMembers(b, blast, Flame);
    NeighbourhoodMembers(CellsOf(b, seeds, Bomb));
    LinesMembers(flames);
    assert forall p :: p in blast <==> Blasted(b, seeds, p);
    assert forall f :: f in flames <==> Ignited(b, seeds, f);
    Elems(seeds + blast + Lines(flames))
  }

  /** The board mutation of `removeGems`: the same expansion, then every
      chained cell is emptied and every other cell is left alone. */
  function RemoveGems(b: Board, positions: seq<Pos>): (r: Board)
    requires AllValid(positions)
    ensures forall p :: IsValidPosition(p) ==> (At(r, p).None? <==> Chained(b, positions, p) || At(b, p).None?)
    ensures forall p :: IsValidPosition(p) && !Chained(b, positions, p) ==> At(r, p) == At(b, p)
  {
    ClearCells(b, Removed(b, positions))
  }

  lemma ElemsAppend(s: seq<Pos>, p: Pos)
    ensures Elems(s + [p]) == Elems(s) + {p}
  {
  }

  lemma ElemsConcat(s: seq<Pos>, t: seq<Pos>)
    ensures Elems(s + t) == Elems(s) + Elems(t)
  {
  }

  lemma CellsOfAppend(b: Board, s: seq<Pos>, p: Pos, g: Gem)
    requires AllValid(s) && IsValidPosition(p)
    ensures AllValid(s + [p])
    ensures CellsOf(b, s + [p], g) == CellsOf(b, s, g) + (if At(b, p) == Some(g) then [p] else [])
  {
    assert (s + [p])[..|s|] == s;
  }

  lemma NeighbourhoodStep(bombs: seq<Pos>, i: nat)
    requires i < |bombs|
    ensures Neighbourhood(bombs[..i + 1]) == Neighbourhood(bombs[..i]) + GetAdjacentPositions(bombs[i])
  {
    assert bombs[..i + 1][..i] == bombs[..i];
  }

  /** `calculateAllRemovedPositions` (and the identical expansion at the head
      of `removeGems`): the three `forEach` passes over the seed, bomb and
      flame lists. */
  method CalculateAllRemovedPositions(b: Board, initialPositions: seq<Pos>) returns (positionsToRemove: set<Pos>)
    requires AllValid(initialPositions)
    ensures positionsToRemove == Removed(b, initialPositions)
    ensures forall p :: p in positionsToRemove <==> Chained(b, initialPositions, p)
  {
    var bombPositions, flamePositions;
    positionsToRemove, bombPositions, flamePositions := CollectSeeds(b, initialPositions);
    positionsToRemove, flamePositions := DetonateBombs(b, positionsToRemove, bombPositions, flamePositions);
    positionsToRemove := BurnLines(positionsToRemove, flamePositions);
  }

  /** First pass: every seed is removed; the bombs and flames among them are listed. */
  method CollectSeeds(b: Board, initialPositions: seq<Pos>)
    returns (positionsToRemove: set<Pos>, bombPositions: seq<Pos>, flamePositions: seq<Pos>)
    requires AllValid(initialPositions)
    ensures positionsToRemove == Elems(initialPositions)
    ensures bombPositions == CellsOf(b, initialPositions, Bomb)
    ensures flamePositions == CellsOf(b, initialPositions, Flame)
  {
    positionsToRemove := {};
    bombPositions := [];
    flamePositions := [];
    for i := 0 to |initialPositions|
      invariant AllValid(initialPositions[..i])
      invariant positionsToRemove == Elems(initialPositions[..i])
      invariant bombPositions == CellsOf(b, initialPositions[..i], Bomb)
      invariant flamePositions == CellsOf(b, initialPositions[..i], Flame)
    {
      var p := initialPositions[i];
      assert initialPositions[..i + 1] == initialPositions[..i] + [p];
      ElemsAppend(initialPositions[..i], p);
      CellsOfAppend(b, initialPositions[..i], p, Bomb);
      CellsOfAppend(b, initialPositions[..i], p, Flame);
      positionsToRemove := positionsToRemove + {p};
      if At(b, p) == Some(Bomb) {
        bombPositions := bombPositions + [p];
      }
      if At(b, p) == Some(Flame) {
        flamePositions := flamePositions + [p];
      }
    }
    assert initialPositions[..|initialPositions|] == initialPositions;
  }

  lemma {:induction false} CellsOfConcat(b: Board, s: seq<Pos>, t: seq<Pos>, g: Gem)
    requires AllValid(s) && AllValid(t)
    ensures AllValid(s + t)
    ensures CellsOf(b, s + t, g) == CellsOf(b, s, g) + CellsOf(b, t, g)
    decreases |t|
  {
    if |t| > 0 {
      var front := t[..|t| - 1];
      var last := t[|t| - 1];
      assert (s + t)[..|s + t| - 1] == s + front;
      CellsOfConcat(b, s, front, g);
    } else {
      assert s + t == s;
    }
  }

  /** One more bomb extends the removed set by its neighbours and the flame
      list by the flames among them. */
  lemma DetonateStep(b: Board, bombs: seq<Pos>, i: nat)
    requires i < |bombs|
    ensures Elems(Neighbourhood(bombs[..i + 1])) == Elems(Neighbourhood(bombs[..i])) + Elems(GetAdjacentPositions(bombs[i]))
    ensures CellsOf(b, Neighbourhood(bombs[..i + 1]), Flame)
         == CellsOf(b, Neighbourhood(bombs[..i]), Flame) + CellsOf(b, GetAdjacentPositions(bombs[i]), Flame)
  {
    var before := Neighbourhood(bombs[..i]);
    var adjacent := GetAdjacentPositions(bombs[i]);
    NeighbourhoodStep(bombs, i);
    ElemsConcat(before, adjacent);
    CellsOfConcat(b, before, adjacent, Flame);
  }

  /** Second pass: each listed bomb removes its neighbours; flames among them
      join the flame list. */
  method DetonateBombs(b: Board, removedSoFar: set<Pos>, bombPositions: seq<Pos>, flamesSoFar: seq<Pos>)
    returns (positionsToRemove: set<Pos>, flamePositions: seq<Pos>)
    ensures positionsToRemove == removedSoFar + Elems(Neighbourhood(bombPositions))
    ensures flamePositions == flamesSoFar + CellsOf(b, Neighbourhood(bombPositions), Flame)
  {
    positionsToRemove := removedSoFar;
    flamePositions := flamesSoFar;
    assert bombPositions[..0] == [];
    for i := 0 to |bombPositions|
      invariant positionsToRemove == removedSoFar + Elems(Neighbourhood(bombPositions[..i]))
      invariant flamePositions == flamesSoFar + CellsOf(b, Neighbourhood(bombPositions[..i]), Flame)
    {
      var adjacent := GetAdjacentPositions(bombPositions[i]);
      ghost var flamesBefore := CellsOf(b, Neighbourhood(bombPositions[..i]), Flame);
      positionsToRemove, flamePositions := AddNeighbours(b, positionsToRemove, flamePositions, adjacent);
      DetonateStep(b, bombPositions, i);
      AppendAssoc(flamesSoFar, flamesBefore, CellsOf(b, adjacent, Flame));
    }
    assert bombPositions[..|bombPositions|] == bombPositions;
  }

  lemma AppendAssoc(a: seq<Pos>, x: seq<Pos>, y: seq<Pos>)
    ensures (a + x) + y == a + (x + y)
  {
  }

  /** The inner loop of the second pass: one bomb's neighbours are removed and
      the flames among them are listed. */
  method AddNeighbours(b: Board, removedSoFar: set<Pos>, flamesSoFar: seq<Pos>, adjacent: seq<Pos>)
    returns (positionsToRemove: set<Pos>, flamePositions: seq<Pos>)
    requires AllValid(adjacent)
    ensures positionsToRemove == removedSoFar + Elems(adjacent)
    ensures flamePositions == flamesSoFar + CellsOf(b, adjacent, Flame)
  {
    positionsToRemove := removedSoFar;
    flamePositions := flamesSoFar;
    for j := 0 to |adjacent|
      invariant AllValid(adjacent[..j])
      invariant positionsToRemove == removedSoFar + Elems(adjacent[..j])
      invariant flamePositions == flamesSoFar + CellsOf(b, adjacent[..j], Flame)
    {
      var q := adjacent[j];
      assert adjacent[..j + 1] == adjacent[..j] + [q];
      ElemsAppend(adjacent[..j], q);
      CellsOfAppend(b, adjacent[..j], q, Flame);
      positionsToRemove := positionsToRemove + {q};
      if At(b, q) == Some(Flame) {
        flamePositions := flamePositions + [q];
      }
    }
    assert adjacent[..|adjacent|] == adjacent;
  }

  /** Third pass: each listed flame removes its whole row and column. */
  method BurnLines(removedSoFar: set<Pos>, flamePositions: seq<Pos>) returns (positionsToRemove: set<Pos>)
    ensures positionsToRemove == removedSoFar + Elems(Lines(flamePositions))
  {
    positionsToRemove := removedSoFar;
    for i := 0 to |flamePositions|
      invariant positionsToRemove == removedSoFar + Elems(Lines(flamePositions[..i]))
    {
      ghost var before := Lines(flamePositions[..i]);
      var rowColPositions := GetRowAndColumnPositions(flamePositions[i]);
      positionsToRemove := AddAll(positionsToRemove, rowColPositions);
      assert flamePositions[..i + 1][..i] == flamePositions[..i];
      assert Lines(flamePositions[..i + 1]) == before + rowColPositions;
      ElemsConcat(before, rowColPositions);
    }
    assert flamePositions[..|flamePositions|] == flamePositions;
  }

  /** The inner loop of the third pass: every position of `positions` is removed. */
  method AddAll(removedSoFar: set<Pos>, positions: seq<Pos>) returns (positionsToRemove: set<Pos>)
    ensures positionsToRemove == removedSoFar + Elems(positions)
  {
    positionsToRemove := removedSoFar;
    for j := 0 to |positions|
      invariant positionsToRemove == removedSoFar + Elems(positions[..j])
    {
      assert positions[..j + 1] == positions[..j] + [positions[j]];
      ElemsAppend(positions[..j], positions[j]);
      positionsToRemove := positionsToRemove + {positions[j]};
    }
    assert positions[..|positions|] == positions;
  }

  /** Seeds holding neither a bomb nor a flame set nothing off: exactly the seeds are removed. */
  lemma QuietSeeds(b: Board, seeds: seq<Pos>)
    requires AllValid(seeds)
    requires forall p :: p in seeds ==> At(b, p) != Some(Bomb) && At(b, p) != Some(Flame)
    ensures Removed(b, seeds) == Elems(seeds)
  {
    assert forall q :: !IsBombSeed(b, seeds, q);
    assert forall f :: !Ignited(b, seeds, f);
  }

  /** More seeds never remove fewer cells. */
  lemma RemovedMonotone(b: Board, seeds: seq<Pos>, more: seq<Pos>)
    requires AllValid(seeds) && AllValid(more)
    requires forall p :: p in seeds ==> p in more
    ensures Removed(b, seeds) <= Removed(b, more)
  {
    forall p | p in Removed(b, seeds)
      ensures p in Removed(b, more)
    {
      if Blasted(b, seeds, p) {
        var q :| IsBombSeed(b, seeds, q) && Orthogonal(q, p);
        assert IsBombSeed(b, more, q);
      } else if Burned(b, seeds, p) {
        var f :| Ignited(b, seeds, f) && OnLine(f, p);
        if Blasted(b, seeds, f) {
          var q :| IsBombSeed(b, seeds, q) && Orthogonal(q, f);
          assert IsBombSeed(b, more, q);
        }
        assert Ignited(b, more, f);
      }
    }
  }

  /** Water everywhere except two bombs side by side at (0,0) and (0,1). */
  function TwoBombs(): (b: Board)
    ensures forall p :: IsValidPosition(p) ==> At(b, p) == if p.row == 0 && p.col <= 1 then Some(Bomb) else Some(Water)
  {
    seq(N, r => seq(N, c => if r == 0 && c <= 1 then Some(Bomb) else Some(Water)))
  }

  /** Without a flame on the board nothing burns. */
  lemma NoFlameNoBurn(b: Board, seeds: seq<Pos>)
    requires forall p :: IsValidPosition(p) ==> At(b, p) != Some(Flame)
    ensures forall p :: !Burned(b, seeds, p)
  {
    assert forall f :: !Ignited(b, seeds, f);
  }

  lemma TwoBombsBlast()
    ensures forall p :: Blasted(TwoBombs(), [Pos(0, 0)], p) <==> p == Pos(1, 0) || p == Pos(0, 1)
  {
    var b := TwoBombs();
    var seeds := [Pos(0, 0)];
    assert IsBombSeed(b, seeds, Pos(0, 0));
    forall p | Blasted(b, seeds, p)
      ensures p == Pos(1, 0) || p == Pos(0, 1)
    {
      var q :| IsBombSeed(b, seeds, q) && Orthogonal(q, p);
    }
  }

  /** A bomb reached by another bomb's blast does not explode in turn: the
      expansion is one pass, not a fixpoint. */
  lemma BlastedBombStaysQuiet()
    ensures Removed(TwoBombs(), [Pos(0, 0)]) == {Pos(0, 0), Pos(1, 0), Pos(0, 1)}
    ensures Pos(0, 2) !in Removed(TwoBombs(), [Pos(0, 0)])
  {
    var b := TwoBombs();
    var seeds := [Pos(0, 0)];
    NoFlameNoBurn(b, seeds);
    TwoBombsBlast();
    var r := Removed(b, seeds);
    forall p
      ensures p in r <==> p == Pos(0, 0) || p == Pos(1, 0) || p == Pos(0, 1)
    {
      assert p in r <==> Chained(b, seeds, p);
    }
  }

  /** Running the resolver again on its own output removes more: the
      expansion is not idempotent. */
  lemma RemovedNotIdempotent()
    ensures Elems([Pos(0, 0), Pos(1, 0), Pos(0, 1)]) == Removed(TwoBombs(), [Pos(0, 0)])
    ensures Pos(0, 2) in Removed(TwoBombs(), [Pos(0, 0), Pos(1, 0), Pos(0, 1)])
    ensures Pos(0, 2) !in Removed(TwoBombs(), [Pos(0, 0)])
  {
    BlastedBombStaysQuiet();
    var b := TwoBombs();
    var again := [Pos(0, 0), Pos(1, 0), Pos(0, 1)];
    assert IsBombSeed(b, again, Pos(0, 1));
    assert Blasted(b, again, Pos(0, 2));
  }
}

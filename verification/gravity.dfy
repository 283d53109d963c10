/** Gravity and refill: after an elimination every column drops its
    surviving gems to the bottom, keeping their order, and the empty cells
    left at the top are filled with fresh draws. */
module Gravity {
  import opened Gems
  import opened Board

  /** The non-empty cells of a column, top to bottom. */
  function Survivors(s: seq<Cell>): (r: seq<Cell>)
    ensures |r| <= |s|
    ensures forall i :: 0 <= i < |r| ==> r[i].Some?
  {
    if |s| == 0 then []
    else (if s[0].Some? then [s[0]] else []) + Survivors(s[1..])
  }

  function Blanks(k: nat): (r: seq<Cell>)
    ensures |r| == k
    ensures forall i :: 0 <= i < k ==> r[i].None?
  {
    seq(k, _ => None)
  }

  /** No empty cell lies below a non-empty one. */
  predicate Settled(s: seq<Cell>) {
    forall i, j :: 0 <= i < j < |s| && s[i].Some? ==> s[j].Some?
  }

  lemma {:induction false} SurvivorsConcat(s: seq<Cell>, t: seq<Cell>)
    ensures Survivors(s + t) == Survivors(s) + Survivors(t)
  {
    if |s| > 0 {
      assert (s + t)[1..] == s[1..] + t;
      SurvivorsConcat(s[1..], t);
    } else {
      assert s + t == t;
    }
  }

  lemma {:induction false} SurvivorsOfFull(s: seq<Cell>)
    requires forall i :: 0 <= i < |s| ==> s[i].Some?
    ensures Survivors(s) == s
  {
    if |s| > 0 {
      SurvivorsOfFull(s[1..]);
    }
  }

  lemma {:induction false} SurvivorsOfBlanks(k: nat)
    ensures Survivors(Blanks(k)) == []
  {
    if k > 0 {
      assert Blanks(k)[1..] == Blanks(k - 1);
      SurvivorsOfBlanks(k - 1);
    }
  }

  /** A settled column is its empties on top of its survivors. */
  lemma {:induction false} SettledShape(s: seq<Cell>)
    requires Settled(s)
    ensures s == Blanks(|s| - |Survivors(s)|) + Survivors(s)
  {
    if |s| > 0 {
      if s[0].Some? {
        SurvivorsOfFull(s);
      } else {
        SettledShape(s[1..]);
        assert Survivors(s) == Survivors(s[1..]);
        assert s == [s[0]] + s[1..];
      }
    }
  }

  /** A column is determined by its length, its survivors and being settled. */
  lemma SettledUnique(s: seq<Cell>, t: seq<Cell>)
    requires Settled(s) && Settled(t)
    requires |s| == |t| && Survivors(s) == Survivors(t)
    ensures s == t
  {
    SettledShape(s);
    SettledShape(t);
  }

  /** The column after gravity: the same survivors in the same order,
      resting on the bottom, with every empty cell above them. */
  function Compact(s: seq<Cell>): (r: seq<Cell>)
    ensures |r| == |s|
    ensures Settled(r)
    ensures Survivors(r) == Survivors(s)
  {
    var survivors := Survivors(s);
    var r := Blanks(|s| - |survivors|) + survivors;
    SurvivorsConcat(Blanks(|s| - |survivors|), survivors);
    SurvivorsOfBlanks(|s| - |survivors|);
    SurvivorsOfFull(survivors);
    r
  }

  /** Gravity on one column: the `writeIndex` cursor loop of `applyGravity`,
      scanning from the bottom row up and moving each gem down to the cursor. */
  method DropColumn(column: seq<Cell>) returns (out: seq<Cell>)
    ensures out == Compact(column)
  {
    out := column;
    var writeIndex := |column| - 1;
    var row := |column| - 1;
    while row >= 0
      invariant -1 <= row <= writeIndex <= |column| - 1
      invariant |out| == |column|
      invariant out[..row + 1] == column[..row + 1]
      invariant forall i :: row < i <= writeIndex ==> out[i].None?
      invariant out[writeIndex + 1..] == Survivors(column[row + 1..])
      decreases row + 1
    {
      assert column[row..] == [column[row]] + column[row + 1..];
      assert out[row] == column[row];
      if out[row].Some? {
        if writeIndex != row {
          out := out[writeIndex := out[row]][row := None];
        }
        writeIndex := writeIndex - 1;
      }
      row := row - 1;
    }
    assert out == out[..writeIndex + 1] + out[writeIndex + 1..];
    assert out[..writeIndex + 1] == Blanks(writeIndex + 1);
  }

  /** The board after gravity, column by column. */
  function Settle(b: Board): (r: Board)
    ensures forall c :: 0 <= c < N ==> Settled(Column(r, c))
    ensures forall c :: 0 <= c < N ==> Survivors(Column(r, c)) == Survivors(Column(b, c))
  {
    var r: Board := seq(N, i requires 0 <= i < N => seq(N, c requires 0 <= c < N => Compact(Column(b, c))[i]));
    assert forall c :: 0 <= c < N ==> Column(r, c) == Compact(Column(b, c));
    r
  }

  /** `applyGravity`: every column in turn goes through the cursor loop. */
  method ApplyGravity(b: Board) returns (g: Board)
    ensures g == Settle(b)
  {
    g := b;
    for col := 0 to N
      invariant forall c :: 0 <= c < col ==> Column(g, c) == Compact(Column(b, c))
      invariant forall c :: col <= c < N ==> Column(g, c) == Column(b, c)
    {
      var packed := DropColumn(Column(g, col));
      g := WithColumn(g, col, packed);
    }
    forall c | 0 <= c < N
      ensures Column(g, c) == Column(Settle(b), c)
    {
      SettledUnique(Column(g, c), Column(Settle(b), c));
    }
    ColumnsDetermineBoard(g, Settle(b));
  }

  /** `fillEmptySpaces`: each empty cell takes its own fresh draw. */
  function FillEmptySpaces(b: Board, rolls: seq<seq<Roll>>): (r: Board)
    requires ValidRolls(rolls)
    ensures IsFull(r)
    ensures forall p :: IsValidPosition(p) && At(b, p).Some? ==> At(r, p) == At(b, p)
    ensures forall p :: IsValidPosition(p) && At(b, p).None? ==> IsDrawable(At(r, p).value)
  {
    seq(N, i requires 0 <= i < N => seq(N, c requires 0 <= c < N =>
      if b[i][c].None? then Some(GetRandomGemType(rolls[i][c])) else b[i][c]))
  }

  /** Gravity then refill: no empty cell remains, and each column ends with
      its former gems, in their former order, resting on the bottom. */
  lemma GravityThenFill(b: Board, rolls: seq<seq<Roll>>)
    requires ValidRolls(rolls)
    ensures IsFull(FillEmptySpaces(Settle(b), rolls))
    ensures forall c :: 0 <= c < N ==>
      var survivors := Survivors(Column(b, c));
      Column(FillEmptySpaces(Settle(b), rolls), c)[N - |survivors|..] == survivors
  {
    var s := Settle(b);
    var f := FillEmptySpaces(s, rolls);
    forall c | 0 <= c < N
      ensures Column(f, c)[N - |Survivors(Column(b, c))|..] == Survivors(Column(b, c))
    {
      var col := Column(s, c);
      SettledShape(col);
      var k := N - |Survivors(col)|;
      assert col[k..] == Survivors(col);
      forall i | k <= i < N
        ensures Column(f, c)[i] == col[i]
      {
        assert col[i].Some?;
        assert At(s, Pos(i, c)).Some?;
      }
    }
  }
}

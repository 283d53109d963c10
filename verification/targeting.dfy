/** Skill footprints and the two neighbourhoods the chain reaction uses. */
module Targeting {
  import opened Board

  /** `p` and `q` are orthogonal neighbours: one step up, down, left or right. */
  predicate Orthogonal(p: Pos, q: Pos) {
    || (q.col == p.col && (q.row == p.row - 1 || q.row == p.row + 1))
    || (q.row == p.row && (q.col == p.col - 1 || q.col == p.col + 1))
  }

  /** `q` is a board cell in the row or in the column of `p`. */
  predicate OnLine(p: Pos, q: Pos) {
    || (q.row == p.row && 0 <= q.col < N)
    || (q.col == p.col && 0 <= q.row < N)
  }

  /** `q` lies in the `width` x `height` rectangle whose top-left corner is `(top, left)`. */
  predicate InRect(q: Pos, top: int, left: int, width: nat, height: nat) {
    top <= q.row < top + height && left <= q.col < left + width
  }

  /** The cells `(row, left) .. (row, left + width - 1)`, left to right. */
  function RowSpan(row: int, left: int, width: nat): (s: seq<Pos>)
    ensures |s| == width
    ensures forall i :: 0 <= i < width ==> s[i] == Pos(row, left + i)
    ensures forall q :: q in s <==> q.row == row && left <= q.col < left + width
  {
    var s := seq(width, i => Pos(row, left + i));
    assert forall q: Pos :: q.row == row && left <= q.col < left + width ==> s[q.col - left] == q;
    s
  }

  /** The first `height` rows of a rectangle, row-major, as the nested loops
      of `getSkillArea` push them. */
  function {:induction false} Band(top: int, left: int, width: nat, height: nat): (s: seq<Pos>)
    ensures |s| == width * height
    ensures forall q :: q in s <==> InRect(q, top, left, width, height)
    ensures forall i :: 0 <= i < |s| ==> s[i].row < top + height
    ensures Distinct(s)
    decreases height
  {
    if height == 0 then []
    else
      var upper := Band(top, left, width, height - 1);
      var last := RowSpan(top + height - 1, left, width);
      assert forall i, j :: 0 <= i < |upper| && 0 <= j < |last| ==> upper[i] != last[j];
      upper + last
  }

  /** `getSkillArea`: the width x height footprint centred on `center`,
      anchored `floor(height/2)` rows above and `floor(width/2)` columns left
      of it, not filtered for bounds. */
  function GetSkillArea(center: Pos, width: nat, height: nat): (area: seq<Pos>)
    ensures |area| == width * height
    ensures Distinct(area)
    ensures forall q :: q in area <==> InRect(q, center.row - height / 2, center.col - width / 2, width, height)
  {
    Band(center.row - height / 2, center.col - width / 2, width, height)
  }

  /** The positions of `s` that pass `isValidPosition`, in their original order. */
  function FilterValid(s: seq<Pos>): (r: seq<Pos>)
    ensures forall q :: q in r <==> q in s && IsValidPosition(q)
    ensures |r| <= |s|
    ensures Distinct(s) ==> Distinct(r)
    ensures AllValid(r)
  {
    if |s| == 0 then []
    else
      var rest := FilterValid(s[1..]);
      if IsValidPosition(s[0]) then
        assert Distinct(s) ==> s[0] !in s[1..];
        [s[0]] + rest
      else rest
  }

  /** `getAdjacentPositions`: up, down, left, right, dropping those off the board. */
  function GetAdjacentPositions(p: Pos): (r: seq<Pos>)
    ensures forall q :: q in r <==> IsValidPosition(q) && Orthogonal(p, q)
    ensures |r| <= 4
    ensures Distinct(r)
  {
    FilterValid([Pos(p.row - 1, p.col), Pos(p.row + 1, p.col), Pos(p.row, p.col - 1), Pos(p.row, p.col + 1)])
  }

  /** Rows `0 .. k-1` of column `col`, except row `skip`, top to bottom. */
  function {:induction false} ColumnExcept(col: int, skip: int, k: nat): (s: seq<Pos>)
    requires k <= N
    ensures forall q :: q in s <==> q.col == col && 0 <= q.row < k && q.row != skip
    ensures |s| == if 0 <= skip < k then k - 1 else k
    ensures forall i :: 0 <= i < |s| ==> s[i].row < k
    ensures Distinct(s)
  {
    if k == 0 then []
    else
      var upper := ColumnExcept(col, skip, k - 1);
      if k - 1 != skip then upper + [Pos(k - 1, col)] else upper
  }

  /** `getRowAndColumnPositions`: the whole row of `p`, then the rest of its column. */
  function GetRowAndColumnPositions(p: Pos): (r: seq<Pos>)
    ensures forall q :: q in r ==> OnLine(p, q)
    ensures 0 <= p.col < N ==> forall q :: OnLine(p, q) ==> q in r
    ensures Distinct(r)
    ensures 0 <= p.row < N ==> |r| == 2 * N - 1
  {
    var row := RowSpan(p.row, 0, N);
    var column := ColumnExcept(p.col, p.row, N);
    assert forall i, j :: 0 <= i < |row| && 0 <= j < |column| ==> row[i] != column[j];
    row + column
  }

  /** The worked footprint example: a 2x1 skill cast at (2,2) covers (2,1) and (2,2). */
  lemma SkillAreaExample()
    ensures GetSkillArea(Pos(2, 2), 2, 1) == [Pos(2, 1), Pos(2, 2)]
  {
    assert Band(2, 1, 2, 0) == [];
  }
}

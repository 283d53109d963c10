/** The fixed 6x6 battle board: positions, bounds, cell access and the
    storage-only mutations (`createBoard`, clearing eliminated cells). */
module Board {
  import opened Gems

  /** `BOARD_SIZE`. */
  const N: nat := 6

  /** A `[row, col]` pair; rows count from the top. */
  datatype Pos = Pos(row: int, col: int)

  /** The board as `board[row][col]`, always N rows of N cells. */
  type Board = b: seq<seq<Cell>> | IsGrid(b) witness Uniform(None)

  predicate IsGrid(b: seq<seq<Cell>>) {
    |b| == N && forall r :: 0 <= r < |b| ==> |b[r]| == N
  }

  function Uniform(c: Cell): (b: seq<seq<Cell>>)
    ensures IsGrid(b)
  {
    seq(N, _ => seq(N, _ => c))
  }

  /** `isValidPosition`: both coordinates lie in `[0, N)`. */
  predicate IsValidPosition(p: Pos) {
    0 <= p.row < N && 0 <= p.col < N
  }

  predicate AllValid(s: seq<Pos>) {
    forall p :: p in s ==> IsValidPosition(p)
  }

  predicate Distinct<T(==)>(s: seq<T>) {
    forall i, j :: 0 <= i < j < |s| ==> s[i] != s[j]
  }

  function At(b: Board, p: Pos): Cell
    requires IsValidPosition(p)
  {
    b[p.row][p.col]
  }

  /** No cell is empty. */
  predicate IsFull(b: Board) {
    forall r, c :: 0 <= r < N && 0 <= c < N ==> b[r][c].Some?
  }

  predicate HasEmpty(b: Board) {
    exists r, c :: 0 <= r < N && 0 <= c < N && b[r][c].None?
  }

  /** The board with the cell at `p` replaced by `v`. */
  function Put(b: Board, p: Pos, v: Cell): (r: Board)
    requires IsValidPosition(p)
    ensures At(r, p) == v
    ensures forall q :: IsValidPosition(q) && q != p ==> At(r, q) == At(b, q)
  {
    b[p.row := b[p.row][p.col := v]]
  }

  /** A board of independent draws, one per cell. */
  predicate ValidRolls(rolls: seq<seq<Roll>>) {
    && |rolls| == N
    && (forall r :: 0 <= r < N ==> |rolls[r]| == N)
    && (forall r, c :: 0 <= r < N && 0 <= c < N ==> ValidRoll(rolls[r][c]))
  }

  /** `createBoard`: every cell receives its own random draw. */
  function CreateBoard(rolls: seq<seq<Roll>>): (b: Board)
    requires ValidRolls(rolls)
    ensures IsFull(b)
    ensures forall p :: IsValidPosition(p) ==> At(b, p).Some? && IsDrawable(At(b, p).value)
  {
    seq(N, r requires 0 <= r < N => seq(N, c requires 0 <= c < N => Some(GetRandomGemType(rolls[r][c]))))
  }

  /** The elimination step of `removeGems`: every position of `removed`
      becomes empty, every other cell keeps its value. */
  function ClearCells(b: Board, removed: set<Pos>): (r: Board)
    ensures forall p :: IsValidPosition(p) ==> (At(r, p).None? <==> p in removed || At(b, p).None?)
    ensures forall p :: IsValidPosition(p) && p !in removed ==> At(r, p) == At(b, p)
  {
    seq(N, r requires 0 <= r < N => seq(N, c requires 0 <= c < N => if Pos(r, c) in removed then None else b[r][c]))
  }

  /** The cells of column `c`, top to bottom. */
  function Column(b: Board, c: nat): (col: seq<Cell>)
    requires c < N
    ensures |col| == N
    ensures forall r :: 0 <= r < N ==> col[r] == b[r][c]
  {
    seq(N, r requires 0 <= r < N => b[r][c])
  }

  /** The board with column `c` replaced. */
  function WithColumn(b: Board, c: nat, col: seq<Cell>): (r: Board)
    requires c < N && |col| == N
    ensures Column(r, c) == col
    ensures forall c' :: 0 <= c' < N && c' != c ==> Column(r, c') == Column(b, c')
  {
    var r: Board := seq(N, i requires 0 <= i < N => b[i][c := col[i]]);
    assert Column(r, c) == col;
    r
  }

  /** Two boards that agree column by column are equal. */
  lemma ColumnsDetermineBoard(a: Board, b: Board)
    requires forall c :: 0 <= c < N ==> Column(a, c) == Column(b, c)
    ensures a == b
  {
    forall r | 0 <= r < N
      ensures a[r] == b[r]
    {
      forall c | 0 <= c < N
        ensures a[r][c] == b[r][c]
      {
        assert Column(a, c)[r] == Column(b, c)[r];
      }
    }
  }
}

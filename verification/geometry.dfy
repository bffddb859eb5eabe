/** Terminal cells, the playfield size and the one-step head movement of the
    snake, with its wrap-around at all four edges. */
module Geometry {

  /** A terminal position: column `x`, row `y`. */
  datatype Cell = Cell(x: int, y: int)

  /** The terminal size the game reads once per movement. */
  datatype Board = Board(columns: int, rows: int)

  /** Direction codes; 2 is deliberately unused. */
  const Left := 0
  const Right := 1
  const Up := 3
  const Down := 4

  predicate IsDir(d: int) {
    d == Left || d == Right || d == Up || d == Down
  }

  /** The exact reversal of a direction. */
  function Opposite(d: int): (r: int)
    requires IsDir(d)
    ensures IsDir(r) && r != d
  {
    if d == Left then Right
    else if d == Right then Left
    else if d == Up then Down
    else Up
  }

  /** The smallest terminal for which the food range below is non-empty. */
  predicate ValidBoard(b: Board) {
    b.columns >= 2 && b.rows >= 3
  }

  /** Where food may be placed: columns 1 .. columns-1, rows 2 .. rows-1
      (row 1 and above hold the score line). */
  predicate InFoodRange(b: Board, c: Cell) {
    1 <= c.x <= b.columns - 1 && 2 <= c.y <= b.rows - 1
  }

  /** Every cell the head can ever occupy: the start column 0, the wrap target
      `columns`, and rows 2 .. rows. */
  predicate InPlay(b: Board, c: Cell) {
    0 <= c.x <= b.columns && 2 <= c.y <= b.rows
  }

  /** One step toward larger coordinates; past `hi` it wraps to `lo`. */
  function Ascend(v: int, lo: int, hi: int): int {
    if v + 1 > hi then lo else v + 1
  }

  /** One step toward smaller coordinates; below `lo` it wraps to `hi`. */
  function Descend(v: int, lo: int, hi: int): int {
    if v - 1 < lo then hi else v - 1
  }

  /** The new head one step from `c` in direction `dir`. Leftward and upward
      wrap to `columns` and `rows`; rightward and downward wrap once past
      `columns - 1` and `rows - 1`. Any other `dir` copies the cell. */
  function Move(dir: int, c: Cell, b: Board): (r: Cell)
    ensures !IsDir(dir) ==> r == c
    ensures dir == Left || dir == Right ==> r.y == c.y
    ensures dir == Up || dir == Down ==> r.x == c.x
    ensures dir == Left ==> r.x == c.x - 1 || r.x == b.columns
    ensures dir == Right ==> r.x == c.x + 1 || r.x == 1
    ensures dir == Up ==> r.y == c.y - 1 || r.y == b.rows
    ensures dir == Down ==> r.y == c.y + 1 || r.y == 2
    ensures ValidBoard(b) && InPlay(b, c) ==> InPlay(b, r)
  {
    if dir == Left then Cell(Descend(c.x, 1, b.columns), c.y)
    else if dir == Right then Cell(Ascend(c.x, 1, b.columns - 1), c.y)
    else if dir == Up then Cell(c.x, Descend(c.y, 2, b.rows))
    else if dir == Down then Cell(c.x, Ascend(c.y, 2, b.rows - 1))
    else c
  }

  /** `k` consecutive moves in the same direction. */
  function MoveN(dir: int, c: Cell, b: Board, k: nat): (r: Cell)
    ensures dir == Left || dir == Right ==> r.y == c.y
    ensures dir == Up || dir == Down ==> r.x == c.x
    ensures ValidBoard(b) && InPlay(b, c) ==> InPlay(b, r)
    decreases k
  {
    if k == 0 then c else MoveN(dir, Move(dir, c, b), b, k - 1)
  }

  /** The head stays put exactly on the two degenerate boards: a rightward move
      on a two-column terminal, a downward move on a three-row terminal. */
  lemma StuckExactly(dir: int, c: Cell, b: Board)
    requires ValidBoard(b) && InPlay(b, c) && IsDir(dir)
    ensures Move(dir, c, b) == c <==>
              (dir == Right && c.x == 1 && b.columns == 2)
              || (dir == Down && c.y == 2 && b.rows == 3)
  {
  }

  /** Undoing a move by the opposite move returns to the start except at one
      column or row per direction: the wrap is asymmetric. */
  lemma {:induction false} UndoFailsAtOneLine(dir: int, c: Cell, b: Board)
    requires ValidBoard(b) && IsDir(dir)
    requires 1 <= c.x <= b.columns && 2 <= c.y <= b.rows
    ensures Move(Opposite(dir), Move(dir, c, b), b) == c <==>
              if dir == Right then c.x != b.columns - 1
              else if dir == Left then c.x != b.columns
              else if dir == Down then c.y != b.rows - 1
              else c.y != b.rows
  {
  }

  lemma ModShift(a: int, d: int, m: int)
    requires m > 0
    ensures (a % m + d) % m == (a + d) % m
  {
    var q := a / m;
    assert a == q * m + a % m;
    ModMultiple(a % m + d, q, m);
  }

  lemma MulAtLeastOnce(k: int, m: int)
    requires m > 0 && k >= 1
    ensures k * m >= m
  {
  }

  lemma MulDistributes(a: int, b: int, m: int)
    ensures (a - b) * m == a * m - b * m
  {
  }

  /** Euclidean remainder is unique: `r` is the remainder of `q * m + r`. */
  lemma ModUnique(x: int, q: int, r: int, m: int)
    requires m > 0 && 0 <= r < m && x == q * m + r
    ensures x % m == r
  {
    var d := x / m;
    var e := x % m;
    assert x == d * m + e;
    MulDistributes(q, d, m);
    MulDistributes(d, q, m);
    if q - d >= 1 {
      MulAtLeastOnce(q - d, m);
    } else if d - q >= 1 {
      MulAtLeastOnce(d - q, m);
    }
  }

  lemma ModMultiple(r: int, q: int, m: int)
    requires m > 0
    ensures (q * m + r) % m == r % m
  {
    var d := r / m;
    assert r == d * m + r % m;
    assert q * m + d * m == (q + d) * m;
    ModUnique(q * m + r, q + d, r % m, m);
  }

  /** Rightward movement cycles through columns 1 .. columns-1. */
  lemma {:induction false} RightIsCyclic(c: Cell, b: Board, k: nat)
    requires ValidBoard(b) && 1 <= c.x <= b.columns - 1
    ensures MoveN(Right, c, b, k) == Cell((c.x - 1 + k) % (b.columns - 1) + 1, c.y)
    decreases k
  {
    var m := b.columns - 1;
    if k > 0 {
      var n := Move(Right, c, b);
      assert n.x - 1 == c.x % m by {
        if c.x < m { ModUnique(c.x, 0, c.x, m); } else { ModUnique(c.x, 1, 0, m); }
      }
      assert MoveN(Right, c, b, k) == MoveN(Right, n, b, k - 1);
      RightIsCyclic(n, b, k - 1);
      ModShift(c.x, k - 1, m);
    } else {
      ModUnique(c.x - 1, 0, c.x - 1, m);
    }
  }

  /** Leftward movement cycles through columns 1 .. columns. */
  lemma {:induction false} LeftIsCyclic(c: Cell, b: Board, k: nat)
    requires ValidBoard(b) && 1 <= c.x <= b.columns
    ensures MoveN(Left, c, b, k) == Cell((c.x - 1 - k) % b.columns + 1, c.y)
    decreases k
  {
    var m := b.columns;
    if k > 0 {
      var n := Move(Left, c, b);
      assert n.x - 1 == (c.x - 2) % m by {
        if c.x > 1 { ModUnique(c.x - 2, 0, c.x - 2, m); } else { ModUnique(c.x - 2, -1, m - 1, m); }
      }
      assert MoveN(Left, c, b, k) == MoveN(Left, n, b, k - 1);
      LeftIsCyclic(n, b, k - 1);
      ModShift(c.x - 2, -(k - 1), m);
    } else {
      ModUnique(c.x - 1, 0, c.x - 1, m);
    }
  }

  /** Downward movement cycles through rows 2 .. rows-1. */
  lemma {:induction false} DownIsCyclic(c: Cell, b: Board, k: nat)
    requires ValidBoard(b) && 2 <= c.y <= b.rows - 1
    ensures MoveN(Down, c, b, k) == Cell(c.x, (c.y - 2 + k) % (b.rows - 2) + 2)
    decreases k
  {
    var m := b.rows - 2;
    if k > 0 {
      var n := Move(Down, c, b);
      assert n.y - 2 == (c.y - 1) % m by {
        if c.y < b.rows - 1 { ModUnique(c.y - 1, 0, c.y - 1, m); } else { ModUnique(c.y - 1, 1, 0, m); }
      }
      assert MoveN(Down, c, b, k) == MoveN(Down, n, b, k - 1);
      DownIsCyclic(n, b, k - 1);
      ModShift(c.y - 1, k - 1, m);
    } else {
      ModUnique(c.y - 2, 0, c.y - 2, m);
    }
  }

  /** Upward movement cycles through rows 2 .. rows. */
  lemma {:induction false} UpIsCyclic(c: Cell, b: Board, k: nat)
    requires ValidBoard(b) && 2 <= c.y <= b.rows
    ensures MoveN(Up, c, b, k) == Cell(c.x, (c.y - 2 - k) % (b.rows - 1) + 2)
    decreases k
  {
    var m := b.rows - 1;
    if k > 0 {
      var n := Move(Up, c, b);
      assert n.y - 2 == (c.y - 3) % m by {
        if c.y > 2 { ModUnique(c.y - 3, 0, c.y - 3, m); } else { ModUnique(c.y - 3, -1, m - 1, m); }
      }
      assert MoveN(Up, c, b, k) == MoveN(Up, n, b, k - 1);
      UpIsCyclic(n, b, k - 1);
      ModShift(c.y - 3, -(k - 1), m);
    } else {
      ModUnique(c.y - 2, 0, c.y - 2, m);
    }
  }

  /** A full horizontal lap takes `columns - 1` moves to the right but
      `columns` moves to the left. */
  lemma HorizontalLaps(c: Cell, b: Board)
    requires ValidBoard(b)
    ensures 1 <= c.x <= b.columns - 1 ==> MoveN(Right, c, b, b.columns - 1) == c
    ensures 1 <= c.x <= b.columns ==> MoveN(Left, c, b, b.columns) == c
  {
    if 1 <= c.x <= b.columns - 1 {
      var m := b.columns - 1;
      RightIsCyclic(c, b, m);
      FullTurn(c.x - 1, m, 1);
      assert (c.x - 1 + m) % m == c.x - 1;
    }
    if 1 <= c.x <= b.columns {
      var m := b.columns;
      LeftIsCyclic(c, b, m);
      FullTurn(c.x - 1, m, -1);
      assert (c.x - 1 - m) % m == c.x - 1;
    }
  }

  /** A full vertical lap takes `rows - 2` moves down but `rows - 1` moves up. */
  lemma VerticalLaps(c: Cell, b: Board)
    requires ValidBoard(b)
    ensures 2 <= c.y <= b.rows - 1 ==> MoveN(Down, c, b, b.rows - 2) == c
    ensures 2 <= c.y <= b.rows ==> MoveN(Up, c, b, b.rows - 1) == c
  {
    if 2 <= c.y <= b.rows - 1 {
      var m := b.rows - 2;
      DownIsCyclic(c, b, m);
      FullTurn(c.y - 2, m, 1);
      assert (c.y - 2 + m) % m == c.y - 2;
    }
    if 2 <= c.y <= b.rows {
      var m := b.rows - 1;
      UpIsCyclic(c, b, m);
      FullTurn(c.y - 2, m, -1);
      assert (c.y - 2 - m) % m == c.y - 2;
    }
  }

  /** Adding or subtracting one whole period to an offset inside it. */
  lemma FullTurn(v: int, m: int, sign: int)
    requires 0 <= v < m && (sign == 1 || sign == -1)
    ensures (v + sign * m) % m == v
  {
    ModUnique(v + sign * m, sign, v, m);
  }
}

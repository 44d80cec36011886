/**
 * The vocabulary of the bubble-shooter field: cell colour types, grid
 * positions, the 14 x 18 dimensions, 8-adjacency, the bounds of the
 * neighbour scan, and the counting facts that bound a search over the grid.
 */
module Cells {

  /** Rows (first index) and columns (second index) of the field. */
  const ROWS_COUNT: int := 14
  const COLUMNS_COUNT: int := 18

  /** Colour of a cell; E is the empty cell. */
  datatype CellType = R | G | B | Y | E

  /** The shooter's own ball-type tag; only its mapping to a CellType matters. */
  type BallType(==)

  /** A ball sprite on the field: an object identity carrying its ball type. */
  class BallSprite {
    const ballType: BallType

    constructor (t: BallType)
      ensures ballType == t
    {
      ballType := t;
    }
  }

  /**
   * One slot of the field: its colour, the sprite occupying it (null when
   * none), its own coordinates and the search mark.
   */
  datatype Cell = Cell(cellType: CellType, occupant: BallSprite?, x: int, y: int, visited: bool)

  /** The cell a fresh field holds at (x, y). */
  function EmptyCell(x: int, y: int): (r: Cell)
  {
    Cell(E, null, x, y, false)
  }

  datatype Pos = Pos(x: int, y: int)

  predicate InGrid(p: Pos)
  {
    0 <= p.x < ROWS_COUNT && 0 <= p.y < COLUMNS_COUNT
  }

  /** p comes before q in the row-major (last index fastest) traversal of the field. */
  predicate Before(p: Pos, q: Pos)
  {
    p.x < q.x || (p.x == q.x && p.y < q.y)
  }

  /** 8-adjacency: a different position at most one step away on each axis. */
  predicate Adjacent(p: Pos, q: Pos)
  {
    p != q && -1 <= p.x - q.x <= 1 && -1 <= p.y - q.y <= 1
  }

  function Max(a: int, b: int): (r: int) { if a < b then b else a }
  function Min(a: int, b: int): (r: int) { if a < b then a else b }

  /** First index the neighbour scan visits along an axis, for a centre c. */
  function ScanLower(c: int): (r: int)
    requires 0 <= c
    ensures 0 <= r <= c && (r == c - 1 || r == c == 0)
  {
    Max(0, c - 1)
  }

  /**
   * Last index (inclusive) the neighbour scan visits along an axis of
   * `count` slots. The clamp is at the last index, count - 1.
   */
  function ScanUpper(c: int, count: int): (r: int)
    requires 0 <= c < count
    ensures c <= r < count && (r == c + 1 || r == c == count - 1)
  {
    Min(c + 1, count - 1)
  }

  /**
   * The upper bound as the scan loop in the source computes it: the clamp
   * is at `count`, one past the last index.
   */
  function ScanUpperAsWritten(c: int, count: int): (r: int)
    ensures r <= count && (r == c + 1 || r == count)
    ensures 0 <= c < count ==> (r == count <==> c == count - 1)
  {
    Min(c + 1, count)
  }

  /**
   * A ball attached on the Down side of a ball in column 16 passes the
   * out-of-border test (16 + 1 < 18) and lands in column 17; the scan
   * around it then reaches column 18, which does not exist. Likewise a
   * Right attachment into row 13 makes the scan reach row 14.
   */
  lemma ScanAsWrittenOverruns(x: int)
    requires 0 <= x < ROWS_COUNT
    ensures !(16 + 1 >= COLUMNS_COUNT)
    ensures ScanUpperAsWritten(16 + 1, COLUMNS_COUNT) == COLUMNS_COUNT
    ensures !InGrid(Pos(x, ScanUpperAsWritten(16 + 1, COLUMNS_COUNT)))
    ensures InGrid(Pos(x, ScanUpper(16 + 1, COLUMNS_COUNT)))
    ensures !InGrid(Pos(ScanUpperAsWritten(ROWS_COUNT - 1, ROWS_COUNT), 0))
  {
  }

  /** p is one of the slots the neighbour scan around c visits: inside both bounds, not c itself. */
  predicate InScan(c: Pos, p: Pos)
    requires InGrid(c)
  {
    ScanLower(c.x) <= p.x <= ScanUpper(c.x, ROWS_COUNT) &&
    ScanLower(c.y) <= p.y <= ScanUpper(c.y, COLUMNS_COUNT) &&
    p != c
  }

  /** The slots the scan around c visits are exactly the grid positions adjacent to c. */
  lemma ScanWindow(c: Pos, p: Pos)
    requires InGrid(c)
    ensures InScan(c, p) <==> InGrid(p) && Adjacent(c, p)
  {
  }

  /** Every index between the scan bounds is within one step of c and inside the axis. */
  lemma ScanCoversNeighbourhood(c: int, count: int, i: int)
    requires 0 <= c < count
    ensures ScanLower(c) <= i <= ScanUpper(c, count) <==> 0 <= i < count && -1 <= i - c <= 1
  {
  }

  // ---------------------------------------------------------------------
  // Counting positions

  lemma SubsetCard<T>(a: set<T>, b: set<T>)
    requires a <= b
    ensures |a| <= |b|
  {
    assert b == a + (b - a);
  }

  lemma StrictSubsetCard<T>(a: set<T>, b: set<T>)
    requires a < b
    ensures |a| < |b|
  {
    var z :| z in b && z !in a;
    SubsetCard(a, b - {z});
  }

  /** Positions on one row x, with column below n, number at most n. */
  lemma {:induction false} RowCard(s: set<Pos>, x: int, n: nat)
    requires forall p :: p in s ==> p.x == x && 0 <= p.y < n
    ensures |s| <= n
  {
    if n > 0 {
      var rest := s - {Pos(x, n - 1)};
      RowCard(rest, x, n - 1);
    } else {
      assert s == {};
    }
  }

  /** Positions in an m x n box number at most m * n. */
  lemma {:induction false} BoxCard(s: set<Pos>, m: nat, n: nat)
    requires forall p :: p in s ==> 0 <= p.x < m && 0 <= p.y < n
    ensures |s| <= m * n
  {
    if m > 0 {
      var row := set p | p in s && p.x == m - 1;
      var rest := set p | p in s && p.x < m - 1;
      assert s == rest + row;
      assert rest !! row;
      RowCard(row, m - 1, n);
      BoxCard(rest, m - 1, n);
      assert |s| == |rest| + |row|;
      assert (m - 1) * n + n == m * n;
    } else {
      assert s == {};
    }
  }

  /** No set of grid positions exceeds the 252 slots of the field. */
  lemma GridCard(s: set<Pos>)
    requires forall p :: p in s ==> InGrid(p)
    ensures |s| <= ROWS_COUNT * COLUMNS_COUNT == 252
  {
    BoxCard(s, ROWS_COUNT, COLUMNS_COUNT);
  }

  predicate Distinct<T(==)>(s: seq<T>)
  {
    forall i, j :: 0 <= i < j < |s| ==> s[i] != s[j]
  }

  /** A sequence without repetitions has as many elements as its set. */
  lemma {:induction false} DistinctCard<T>(s: seq<T>)
    requires Distinct(s)
    ensures |set i | 0 <= i < |s| :: s[i]| == |s|
  {
    if s != [] {
      var t := s[..|s| - 1];
      DistinctCard(t);
      var st := set i | 0 <= i < |t| :: t[i];
      var ss := set i | 0 <= i < |s| :: s[i];
      assert s[|s| - 1] !in st;
      assert ss == st + {s[|s| - 1]};
    }
  }

  /** A repetition-free sequence of grid positions has at most 252 elements. */
  lemma DistinctPositionsBound(s: seq<Pos>)
    requires Distinct(s)
    requires forall i :: 0 <= i < |s| ==> InGrid(s[i])
    ensures |s| <= 252
  {
    DistinctCard(s);
    GridCard(set i | 0 <= i < |s| :: s[i]);
  }
}

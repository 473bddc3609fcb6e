/**
 * The 9×9 Sudoku board shared by the generator, the difficulty grading and the game.
 * A board is a row-major grid of integers; 0 marks an empty cell.  Cells are
 * addressed by (row, column) or, as the source does for positions and the
 * selected cell, by the row-major index `row * 9 + col`.
 */
module SudokuGrid {

  type Grid = seq<seq<int>>

  /** The three difficulty levels of the game, the generator and the difficulty grading. */
  datatype Difficulty = Intermediate | Hard | Expert

  /** Nine rows of nine cells. */
  predicate IsGrid(g: Grid) {
    |g| == 9 && forall r :: 0 <= r < 9 ==> |g[r]| == 9
  }

  predicate InRange(r: int, c: int) {
    0 <= r < 9 && 0 <= c < 9
  }

  /** Top-left row (or column) of the 3×3 box holding row (or column) i. */
  function BoxStart(i: int): int {
    (i / 3) * 3
  }

  /** Two cells share a row, a column or a 3×3 box. */
  predicate SameUnit(r1: int, c1: int, r2: int, c2: int) {
    r1 == r2 || c1 == c2 || (r1 / 3 == r2 / 3 && c1 / 3 == c2 / 3)
  }

  /** Two distinct cells that share a unit: a cell has 20 peers. */
  predicate Peer(r1: int, c1: int, r2: int, c2: int) {
    SameUnit(r1, c1, r2, c2) && (r1 != r2 || c1 != c2)
  }

  /** (r1, c1) comes strictly before (r2, c2) in row-major order. */
  predicate Before(r1: int, c1: int, r2: int, c2: int) {
    r1 < r2 || (r1 == r2 && c1 < c2)
  }

  /** The grid with cell (r, c) replaced by v. */
  function Set(g: Grid, r: int, c: int, v: int): (h: Grid)
    requires IsGrid(g) && InRange(r, c)
    ensures IsGrid(h)
    ensures forall i, j :: InRange(i, j) ==> h[i][j] == if i == r && j == c then v else g[i][j]
  {
    g[r := g[r][c := v]]
  }

  /** The cell at row-major index p. */
  function Cell(g: Grid, p: int): int
    requires IsGrid(g) && 0 <= p < 81
  {
    g[p / 9][p % 9]
  }

  /** Every cell holds a non-zero value. */
  ghost predicate Full(g: Grid)
    requires IsGrid(g)
  {
    forall r, c :: InRange(r, c) ==> g[r][c] != 0
  }

  /** Row-major indices of the empty cells. */
  ghost function Empties(g: Grid): set<int>
    requires IsGrid(g)
  {
    set p | 0 <= p < 81 && Cell(g, p) == 0
  }

  /** Row-major indices of the non-empty cells (the clues of a puzzle). */
  ghost function Clues(g: Grid): set<int>
    requires IsGrid(g)
  {
    set p | 0 <= p < 81 && Cell(g, p) != 0
  }

  /** The value at (r, c) differs from the value of each of its 20 peers. */
  ghost predicate NoConflictAt(s: Grid, r: int, c: int)
    requires IsGrid(s) && InRange(r, c)
  {
    forall r2, c2 :: InRange(r2, c2) && Peer(r, c, r2, c2) ==> s[r2][c2] != s[r][c]
  }

  /** A solved grid: digits 1..9 everywhere and no unit holds a digit twice. */
  ghost predicate Solved(s: Grid) {
    IsGrid(s) && forall r, c :: InRange(r, c) ==> 1 <= s[r][c] <= 9 && NoConflictAt(s, r, c)
  }

  /** No two peers of p hold the same non-zero value. */
  ghost predicate ConflictFree(p: Grid)
    requires IsGrid(p)
  {
    forall r, c :: InRange(r, c) && p[r][c] != 0 ==> NoConflictAt(p, r, c)
  }

  /** Every cell of p holds 0..9. */
  ghost predicate DigitsOnly(p: Grid)
    requires IsGrid(p)
  {
    forall r, c :: InRange(r, c) ==> 0 <= p[r][c] <= 9
  }

  /** q is p with some clues removed: each cell of q is 0 or p's value. */
  ghost predicate Reduces(p: Grid, q: Grid)
    requires IsGrid(p) && IsGrid(q)
  {
    forall r, c :: InRange(r, c) ==> q[r][c] == 0 || q[r][c] == p[r][c]
  }

  /**
   * s is one of the fillings the backtracking searches enumerate for p: s keeps
   * every non-zero cell of p, and every cell empty in p holds a digit 1..9 that
   * no peer of it holds in s.  (Givens of p are not checked against each other,
   * exactly as the searches never check them.)
   */
  ghost predicate Filling(p: Grid, s: Grid)
    requires IsGrid(p)
  {
    IsGrid(s) &&
    forall r, c :: InRange(r, c) ==>
      if p[r][c] != 0 then s[r][c] == p[r][c]
      else 1 <= s[r][c] <= 9 && NoConflictAt(s, r, c)
  }

  /** s is a solved grid that keeps every clue of p. */
  ghost predicate Completion(p: Grid, s: Grid)
    requires IsGrid(p)
  {
    Solved(s) && forall r, c :: InRange(r, c) && p[r][c] != 0 ==> s[r][c] == p[r][c]
  }

  ghost predicate HasFilling(p: Grid)
    requires IsGrid(p)
  {
    exists s :: Filling(p, s)
  }

  ghost predicate UniqueFilling(p: Grid)
    requires IsGrid(p)
  {
    exists s :: Filling(p, s) && forall t :: Filling(p, t) ==> t == s
  }

  /** No two entries of a list are equal. */
  ghost predicate Distinct<T>(xs: seq<T>) {
    forall i, j :: 0 <= i < j < |xs| ==> xs[i] != xs[j]
  }

  /** xs lists every filling of p exactly once. */
  ghost predicate ListsFillings(p: Grid, xs: seq<Grid>)
    requires IsGrid(p)
  {
    Distinct(xs) && forall s :: Filling(p, s) <==> s in xs
  }

  /** p has exactly n fillings. */
  ghost predicate ExactlyFillings(p: Grid, n: int)
    requires IsGrid(p)
  {
    exists xs :: ListsFillings(p, xs) && |xs| == n
  }

  /** xs is a list of distinct fillings of p. */
  ghost predicate SomeFillings(p: Grid, xs: seq<Grid>)
    requires IsGrid(p)
  {
    Distinct(xs) && forall s :: s in xs ==> Filling(p, s)
  }

  /** p has at least n distinct fillings. */
  ghost predicate AtLeastFillings(p: Grid, n: int)
    requires IsGrid(p)
  {
    exists xs :: SomeFillings(p, xs) && |xs| >= n
  }

  /** The rows of a 9×9 array, copied into a grid value. */
  function Rows(a: array2<int>): (g: Grid)
    requires a.Length0 == 9 && a.Length1 == 9
    reads a
    ensures IsGrid(g)
    ensures forall r, c :: InRange(r, c) ==> g[r][c] == a[r, c]
  {
    seq(9, r requires 0 <= r < 9 reads a => seq(9, c requires 0 <= c < 9 reads a => a[r, c]))
  }

  /** The all-zero board. */
  function EmptyGrid(): (g: Grid)
    ensures IsGrid(g)
  {
    seq(9, _ => seq(9, _ => 0))
  }

  // ---------------------------------------------------------------------------
  // Lemmas about grids

  /** Grids are equal when they agree cell by cell. */
  lemma GridExt(x: Grid, y: Grid)
    requires IsGrid(x) && IsGrid(y)
    requires forall r, c :: InRange(r, c) ==> x[r][c] == y[r][c]
    ensures x == y
  {
    forall r | 0 <= r < 9 ensures x[r] == y[r] {
      assert forall c :: 0 <= c < 9 ==> x[r][c] == y[r][c];
    }
  }

  /** An array whose cells match g reads back as g. */
  lemma RowsAre(a: array2<int>, g: Grid)
    requires a.Length0 == 9 && a.Length1 == 9 && IsGrid(g)
    requires forall r, c :: InRange(r, c) ==> a[r, c] == g[r][c]
    ensures Rows(a) == g
  {
    GridExt(Rows(a), g);
  }

  lemma CellOf(g: Grid, r: int, c: int)
    requires IsGrid(g) && InRange(r, c)
    ensures 0 <= r * 9 + c < 81 && Cell(g, r * 9 + c) == g[r][c]
    ensures (r * 9 + c) / 9 == r && (r * 9 + c) % 9 == c
  {
  }

  /** Filling an empty cell with a non-zero value removes exactly that cell from Empties. */
  lemma EmptiesAfterSet(g: Grid, r: int, c: int, v: int)
    requires IsGrid(g) && InRange(r, c) && g[r][c] == 0 && v != 0
    ensures r * 9 + c in Empties(g)
    ensures Empties(Set(g, r, c, v)) == Empties(g) - {r * 9 + c}
    ensures |Empties(Set(g, r, c, v))| == |Empties(g)| - 1
  {
    CellOf(g, r, c);
    var h := Set(g, r, c, v);
    forall p | 0 <= p < 81 ensures Cell(h, p) == if p == r * 9 + c then v else Cell(g, p) {
      var i, j := p / 9, p % 9;
      assert p == i * 9 + j;
    }
  }

  /** Clearing a non-empty cell removes exactly that cell from Clues. */
  lemma CluesAfterClear(g: Grid, r: int, c: int)
    requires IsGrid(g) && InRange(r, c) && g[r][c] != 0
    ensures r * 9 + c in Clues(g)
    ensures Clues(Set(g, r, c, 0)) == Clues(g) - {r * 9 + c}
    ensures |Clues(Set(g, r, c, 0))| == |Clues(g)| - 1
  {
    CellOf(g, r, c);
    var h := Set(g, r, c, 0);
    forall p | 0 <= p < 81 ensures Cell(h, p) == if p == r * 9 + c then 0 else Cell(g, p) {
      var i, j := p / 9, p % 9;
      assert p == i * 9 + j;
    }
  }

  /** A grid is full exactly when it has no empty cell. */
  lemma FullIffNoEmpties(g: Grid)
    requires IsGrid(g)
    ensures Full(g) <==> Empties(g) == {}
  {
    if !Full(g) {
      var r, c :| InRange(r, c) && g[r][c] == 0;
      CellOf(g, r, c);
      assert r * 9 + c in Empties(g);
    } else {
      forall p | 0 <= p < 81 ensures Cell(g, p) != 0 {
        var i, j := p / 9, p % 9;
        assert InRange(i, j);
      }
    }
  }

  /** The non-empty cells among the first n in row-major order. */
  ghost function CluesBelow(g: Grid, n: int): set<int>
    requires IsGrid(g) && n <= 81
  {
    set p | 0 <= p < n && Cell(g, p) != 0
  }

  /** On a full grid every one of the first n cells is a clue. */
  lemma {:induction false} FullCluesBelow(g: Grid, n: nat)
    requires IsGrid(g) && Full(g) && n <= 81
    ensures |CluesBelow(g, n)| == n
  {
    if n > 0 {
      FullCluesBelow(g, n - 1);
      var i, j := (n - 1) / 9, (n - 1) % 9;
      assert InRange(i, j) && Cell(g, n - 1) == g[i][j];
      assert CluesBelow(g, n) == CluesBelow(g, n - 1) + {n - 1};
    }
  }

  /** A full grid has 81 clues. */
  lemma FullHas81Clues(g: Grid)
    requires IsGrid(g) && Full(g)
    ensures |Clues(g)| == 81
  {
    FullCluesBelow(g, 81);
    assert Clues(g) == CluesBelow(g, 81);
  }

  /** A full board has itself as its one and only filling. */
  lemma FullFilling(p: Grid)
    requires IsGrid(p) && Full(p)
    ensures Filling(p, p)
    ensures forall s :: Filling(p, s) ==> s == p
  {
    forall s | Filling(p, s) ensures s == p {
      GridExt(s, p);
    }
  }

  /** A solved grid fills every puzzle obtained from it by removing clues. */
  lemma SolvedFillsReduction(g: Grid, q: Grid)
    requires Solved(g) && IsGrid(q) && Reduces(g, q)
    ensures Filling(q, g)
  {
  }

  /**
   * For a conflict-free board of digits, the fillings the searches enumerate
   * are exactly the solved grids that keep its clues.
   */
  lemma {:induction false} FillingIsCompletion(p: Grid, s: Grid)
    requires IsGrid(p) && DigitsOnly(p) && ConflictFree(p)
    ensures Filling(p, s) <==> Completion(p, s)
  {
    if Filling(p, s) {
      forall r, c | InRange(r, c) ensures 1 <= s[r][c] <= 9 && NoConflictAt(s, r, c) {
        if p[r][c] != 0 {
          forall r2, c2 | InRange(r2, c2) && Peer(r, c, r2, c2) ensures s[r2][c2] != s[r][c] {
            if p[r2][c2] != 0 {
              assert NoConflictAt(p, r, c);
            } else {
              assert NoConflictAt(s, r2, c2);
              assert Peer(r2, c2, r, c);
            }
          }
        }
      }
    }
  }
}

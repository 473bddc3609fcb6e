/**
 * The difficulty grader of puzzle-generator.js: candidate sets per cell, the
 * elimination of a placed value from its peers, and the naked-single and
 * hidden-single passes whose counts give the score.
 */
module SudokuGrader {
  import opened SudokuGrid
  import opened SudokuGenerator

  /** Candidate sets, one per cell. */
  type Cands = seq<seq<set<int>>>

  predicate IsCands(cs: Cands) {
    |cs| == 9 && forall r :: 0 <= r < 9 ==> |cs[r]| == 9
  }

  /** The candidate sets of a 9×9 array, copied into a value. */
  function CandRows(a: array2<set<int>>): (cs: Cands)
    requires a.Length0 == 9 && a.Length1 == 9
    reads a
    ensures IsCands(cs)
    ensures forall r, c :: InRange(r, c) ==> cs[r][c] == a[r, c]
  {
    seq(9, r requires 0 <= r < 9 reads a => seq(9, c requires 0 <= c < 9 reads a => a[r, c]))
  }

  lemma CandsExt(x: Cands, y: Cands)
    requires IsCands(x) && IsCands(y)
    requires forall r, c :: InRange(r, c) ==> x[r][c] == y[r][c]
    ensures x == y
  {
    forall r | 0 <= r < 9 ensures x[r] == y[r] {
      assert forall c :: 0 <= c < 9 ==> x[r][c] == y[r][c];
    }
  }

  /** The candidates with value removed from every peer of (row, col). */
  ghost function Eliminated(cs: Cands, row: int, col: int, value: int): (ds: Cands)
    requires IsCands(cs) && InRange(row, col)
    ensures IsCands(ds)
  {
    seq(9, r requires 0 <= r < 9 =>
      seq(9, c requires 0 <= c < 9 => if Peer(row, col, r, c) then cs[r][c] - {value} else cs[r][c]))
  }

  /**
   * eliminateValue: delete value from the candidates of the 20 peers of
   * (row, col), scanning its row, its column and its box.  The cell itself
   * and every other cell keep their candidates.
   */
  method EliminateValue(cands: array2<set<int>>, row: int, col: int, value: int)
    requires cands.Length0 == 9 && cands.Length1 == 9 && InRange(row, col)
    modifies cands
    ensures CandRows(cands) == Eliminated(old(CandRows(cands)), row, col, value)
  {
    ghost var before := CandRows(cands);
    for c := 0 to 9
      invariant forall r', c' :: InRange(r', c') ==>
        cands[r', c'] == if r' == row && c' != col && c' < c then before[r'][c'] - {value} else before[r'][c']
    {
      if c != col {
        cands[row, c] := cands[row, c] - {value};
      }
    }
    for r := 0 to 9
      invariant forall r', c' :: InRange(r', c') ==>
        cands[r', c'] ==
          if (r' == row && c' != col) || (c' == col && r' != row && r' < r) then before[r'][c'] - {value}
          else before[r'][c']
    {
      if r != row {
        cands[r, col] := cands[r, col] - {value};
      }
    }
    var boxRow, boxCol := (row / 3) * 3, (col / 3) * 3;
    for r := boxRow to boxRow + 3
      invariant forall r', c' :: InRange(r', c') ==>
        cands[r', c'] ==
          if (r' == row && c' != col) || (c' == col && r' != row) ||
             (boxRow <= r' < r && boxCol <= c' < boxCol + 3 && (r' != row || c' != col))
          then before[r'][c'] - {value}
          else before[r'][c']
    {
      for c := boxCol to boxCol + 3
        invariant forall r', c' :: InRange(r', c') ==>
          cands[r', c'] ==
            if (r' == row && c' != col) || (c' == col && r' != row) ||
               (boxRow <= r' < r && boxCol <= c' < boxCol + 3 && (r' != row || c' != col)) ||
               (r' == r && boxCol <= c' < c && (r' != row || c' != col))
            then before[r'][c'] - {value}
            else before[r'][c']
      {
        if r != row || c != col {
          cands[r, c] := cands[r, c] - {value};
        }
      }
    }
    CandsExt(CandRows(cands), Eliminated(before, row, col, value));
  }

  // ---------------------------------------------------------------------------
  // initCandidates

  /** No peer of (r, c) whose row-major index lies in lo..hi-1 holds d. */
  ghost predicate NoPeerHolds(g: Grid, r: int, c: int, d: int, lo: int, hi: int)
    requires IsGrid(g)
  {
    forall r2, c2 :: InRange(r2, c2) && Peer(r, c, r2, c2) && lo <= r2 * 9 + c2 < hi ==> g[r2][c2] != d
  }

  /**
   * d is a candidate of (r, c) once the givens before row-major index p have
   * been processed: a given already processed keeps its own value unless a
   * later processed peer holds the same; any other cell keeps the digits that
   * no processed peer holds.
   */
  ghost predicate CandidateAfter(g: Grid, p: int, r: int, c: int, d: int)
    requires IsGrid(g) && InRange(r, c)
  {
    if g[r][c] != 0 && r * 9 + c < p then d == g[r][c] && NoPeerHolds(g, r, c, d, r * 9 + c + 1, p)
    else 1 <= d <= 9 && NoPeerHolds(g, r, c, d, 0, p)
  }

  ghost predicate CandsAfter(g: Grid, p: int, cs: Cands)
    requires IsGrid(g) && IsCands(cs)
  {
    forall r, c, d :: InRange(r, c) ==> (d in cs[r][c] <==> CandidateAfter(g, p, r, c, d))
  }

  /** The candidates initCandidates computes for a board. */
  ghost predicate InitialCandidate(g: Grid, r: int, c: int, d: int)
    requires IsGrid(g) && InRange(r, c)
  {
    CandidateAfter(g, 81, r, c, d)
  }

  /** Passing an empty cell changes nothing. */
  lemma InitStepEmpty(g: Grid, r0: int, c0: int, cs: Cands)
    requires IsGrid(g) && IsCands(cs) && InRange(r0, c0) && g[r0][c0] == 0
    requires CandsAfter(g, r0 * 9 + c0, cs)
    ensures CandsAfter(g, r0 * 9 + c0 + 1, cs)
  {
    var p := r0 * 9 + c0;
    forall r, c, d | InRange(r, c) ensures CandidateAfter(g, p, r, c, d) <==> CandidateAfter(g, p + 1, r, c, d) {
      if r * 9 + c == p {
        CellOf(g, r, c);
        CellOf(g, r0, c0);
      }
      if d != 0 {
        NoPeerHoldsEmptyStep(g, r, c, d, 0, r0, c0);
        NoPeerHoldsEmptyStep(g, r, c, d, r * 9 + c + 1, r0, c0);
      }
    }
  }

  lemma NoPeerHoldsEmptyStep(g: Grid, r: int, c: int, d: int, lo: int, r0: int, c0: int)
    requires IsGrid(g) && InRange(r0, c0) && g[r0][c0] == 0 && d != 0
    ensures NoPeerHolds(g, r, c, d, lo, r0 * 9 + c0) <==> NoPeerHolds(g, r, c, d, lo, r0 * 9 + c0 + 1)
  {
    forall r2, c2 | InRange(r2, c2) && r2 * 9 + c2 == r0 * 9 + c0 ensures g[r2][c2] != d {
      CellOf(g, r2, c2);
      CellOf(g, r0, c0);
    }
  }

  /** Reaching the given at index p extends every peer's processed range by one given. */
  lemma NoPeerHoldsGivenStep(g: Grid, r: int, c: int, d: int, lo: int, r0: int, c0: int)
    requires IsGrid(g) && InRange(r0, c0) && lo <= r0 * 9 + c0
    ensures NoPeerHolds(g, r, c, d, lo, r0 * 9 + c0 + 1) <==>
      NoPeerHolds(g, r, c, d, lo, r0 * 9 + c0) && (Peer(r, c, r0, c0) ==> g[r0][c0] != d)
  {
    forall r2, c2 | InRange(r2, c2) && r2 * 9 + c2 == r0 * 9 + c0 ensures r2 == r0 && c2 == c0 {
      CellOf(g, r2, c2);
      CellOf(g, r0, c0);
    }
  }

  /** Processing the given (r0, c0): it becomes {v} and v leaves its peers. */
  lemma InitStepGiven(g: Grid, r0: int, c0: int, before: Cands, after: Cands)
    requires IsGrid(g) && IsCands(before) && IsCands(after) && InRange(r0, c0) && g[r0][c0] != 0
    requires CandsAfter(g, r0 * 9 + c0, before)
    requires forall r, c :: InRange(r, c) ==>
      after[r][c] == if r == r0 && c == c0 then {g[r0][c0]}
                     else if Peer(r0, c0, r, c) then before[r][c] - {g[r0][c0]}
                     else before[r][c]
    ensures CandsAfter(g, r0 * 9 + c0 + 1, after)
  {
    var p := r0 * 9 + c0;
    var v := g[r0][c0];
    forall r, c, d | InRange(r, c) ensures d in after[r][c] <==> CandidateAfter(g, p + 1, r, c, d) {
      CellOf(g, r, c);
      CellOf(g, r0, c0);
      if r == r0 && c == c0 {
        assert NoPeerHolds(g, r, c, d, p + 1, p + 1);
      } else {
        assert r * 9 + c != p;
        NoPeerHoldsGivenStep(g, r, c, d, 0, r0, c0);
        if r * 9 + c < p {
          NoPeerHoldsGivenStep(g, r, c, d, r * 9 + c + 1, r0, c0);
        }
      }
    }
  }

  /**
   * initCandidates: every cell starts with 1..9; each given, in row-major
   * order, is reset to its own value and that value is eliminated from its
   * peers.
   */
  method InitCandidates(board: array2<int>) returns (cands: array2<set<int>>)
    requires board.Length0 == 9 && board.Length1 == 9
    ensures fresh(cands) && cands.Length0 == 9 && cands.Length1 == 9
    ensures forall r, c, d :: InRange(r, c) ==> (d in cands[r, c] <==> InitialCandidate(Rows(board), r, c, d))
  {
    ghost var g := Rows(board);
    cands := new set<int>[9, 9]((r, c) => {1, 2, 3, 4, 5, 6, 7, 8, 9});
    for row := 0 to 9
      invariant CandsAfter(g, row * 9, CandRows(cands))
    {
      for col := 0 to 9
        invariant CandsAfter(g, row * 9 + col, CandRows(cands))
      {
        if board[row, col] != 0 {
          ghost var before := CandRows(cands);
          cands[row, col] := {board[row, col]};
          EliminateValue(cands, row, col, board[row, col]);
          InitStepGiven(g, row, col, before, CandRows(cands));
        } else {
          InitStepEmpty(g, row, col, CandRows(cands));
        }
      }
    }
  }

  /** On an empty cell the initial candidates are exactly the digits isValid accepts. */
  lemma InitialCandidateEmpty(g: Grid, r: int, c: int, d: int)
    requires IsGrid(g) && InRange(r, c) && g[r][c] == 0
    ensures InitialCandidate(g, r, c, d) <==> 1 <= d <= 9 && IsValid(g, r, c, d)
  {
  }

  /** On a conflict-free board a given's only initial candidate is its own value. */
  lemma InitialCandidateGiven(g: Grid, r: int, c: int, d: int)
    requires IsGrid(g) && ConflictFree(g) && InRange(r, c) && g[r][c] != 0
    ensures InitialCandidate(g, r, c, d) <==> d == g[r][c]
  {
    assert NoConflictAt(g, r, c);
  }

  // ---------------------------------------------------------------------------
  // The grading invariant

  /** The candidates of (r, c) reset to the single value v. */
  ghost function Fixed(cs: Cands, r: int, c: int, v: int): (ds: Cands)
    requires IsCands(cs) && InRange(r, c)
    ensures IsCands(ds)
    ensures forall i, j :: InRange(i, j) ==> ds[i][j] == if i == r && j == c then {v} else cs[i][j]
  {
    cs[r := cs[r][c := {v}]]
  }

  /** The candidates after v is placed at (r, c): the cell keeps {v} and its peers lose v. */
  ghost function Placed(cs: Cands, r: int, c: int, v: int): (ds: Cands)
    requires IsCands(cs) && InRange(r, c)
    ensures IsCands(ds)
  {
    Eliminated(Fixed(cs, r, c, v), r, c, v)
  }

  /** The solved grid s agrees with the grading state: filled cells match, empty cells are candidates. */
  ghost predicate Agrees(b: Grid, cs: Cands, s: Grid)
    requires IsGrid(b) && IsCands(cs) && IsGrid(s)
  {
    forall r, c :: InRange(r, c) ==> if b[r][c] != 0 then s[r][c] == b[r][c] else s[r][c] in cs[r][c]
  }

  /**
   * What holds of gradePuzzle's working board b and candidates cs for the
   * puzzle p throughout: b keeps the clues of p; the candidates of an empty
   * cell are digits and exclude every value already on a peer; and every
   * solution of p agrees with b and cs.
   */
  ghost predicate Grading(p: Grid, b: Grid, cs: Cands) {
    IsGrid(p) && DigitCands(b, cs) &&
    (forall r, c :: InRange(r, c) && p[r][c] != 0 ==> b[r][c] == p[r][c]) &&
    (forall r, c, r2, c2 :: InRange(r, c) && InRange(r2, c2) && b[r][c] == 0 && Peer(r, c, r2, c2) && b[r2][c2] != 0 ==>
       b[r2][c2] !in cs[r][c]) &&
    (forall s :: Completion(p, s) ==> Agrees(b, cs, s))
  }

  /** The candidates of every empty cell are digits. */
  ghost predicate DigitCands(b: Grid, cs: Cands) {
    IsGrid(b) && IsCands(cs) &&
    forall r, c, d :: InRange(r, c) && b[r][c] == 0 && d in cs[r][c] ==> 1 <= d <= 9
  }

  /** The candidates initCandidates computes satisfy the grading invariant for the untouched puzzle. */
  lemma InitialGrading(p: Grid, cs: Cands)
    requires IsGrid(p) && IsCands(cs)
    requires forall r, c, d :: InRange(r, c) ==> (d in cs[r][c] <==> InitialCandidate(p, r, c, d))
    ensures Grading(p, p, cs)
  {
    forall r, c, r2, c2 | InRange(r, c) && InRange(r2, c2) && p[r][c] == 0 && Peer(r, c, r2, c2) && p[r2][c2] != 0
      ensures p[r2][c2] !in cs[r][c]
    {
      assert !NoPeerHolds(p, r, c, p[r2][c2], 0, 81);
    }
    forall s | Completion(p, s) ensures Agrees(p, cs, s) {
      forall r, c | InRange(r, c) && p[r][c] == 0 ensures s[r][c] in cs[r][c] {
        assert NoConflictAt(s, r, c);
      }
    }
  }

  /** A value every solution puts at the empty cell (r, c) may be placed there. */
  lemma PlaceForced(p: Grid, b: Grid, cs: Cands, r: int, c: int, v: int)
    requires Grading(p, b, cs) && InRange(r, c) && b[r][c] == 0 && v in cs[r][c]
    requires forall s :: Completion(p, s) ==> s[r][c] == v
    ensures 1 <= v <= 9
    ensures Grading(p, Set(b, r, c, v), Placed(cs, r, c, v))
  {
    var b1, cs1 := Set(b, r, c, v), Placed(cs, r, c, v);
    forall r1, c1, r2, c2 | InRange(r1, c1) && InRange(r2, c2) && b1[r1][c1] == 0 && Peer(r1, c1, r2, c2) && b1[r2][c2] != 0
      ensures b1[r2][c2] !in cs1[r1][c1]
    {
      if r2 == r && c2 == c {
        assert Peer(r, c, r1, c1);
      }
    }
    forall s | Completion(p, s) ensures Agrees(b1, cs1, s) {
      assert Agrees(b, cs, s);
      assert NoConflictAt(s, r, c);
    }
  }

  /** A set of one element v is {v}. */
  lemma Singleton(S: set<int>, v: int)
    requires |S| == 1 && v in S
    ensures S == {v}
  {
    assert |S - {v}| == 0;
  }

  /** A set with no element has size zero. */
  lemma NoElementEmpty(S: set<int>)
    requires forall v :: v !in S
    ensures |S| == 0
  {
    var none: set<int> := {};
    assert forall v :: v in S <==> v in none;
    assert S == none;
  }

  /** A set of size one has an element. */
  lemma OnlyElement(S: set<int>)
    requires |S| == 1
    ensures exists v :: v in S
  {
    if forall v :: v !in S {
      NoElementEmpty(S);
      assert false;
    }
  }

  /** Naked single: an empty cell whose only candidate is v. */
  lemma NakedStep(p: Grid, b: Grid, cs: Cands, r: int, c: int, v: int)
    requires Grading(p, b, cs) && InRange(r, c) && b[r][c] == 0 && |cs[r][c]| == 1 && v in cs[r][c]
    ensures 1 <= v <= 9
    ensures Grading(p, Set(b, r, c, v), Eliminated(cs, r, c, v))
  {
    Singleton(cs[r][c], v);
    forall s | Completion(p, s) ensures s[r][c] == v {
      assert Agrees(b, cs, s);
    }
    PlaceForced(p, b, cs, r, c, v);
    CandsExt(Fixed(cs, r, c, v), cs);
  }

  /** No other empty cell of row r has n as a candidate. */
  ghost predicate UniqueInRow(b: Grid, cs: Cands, r: int, c: int, n: int)
    requires IsGrid(b) && IsCands(cs) && InRange(r, c)
  {
    forall k :: 0 <= k < 9 && k != c && b[r][k] == 0 ==> n !in cs[r][k]
  }

  /** No other empty cell of column c has n as a candidate. */
  ghost predicate UniqueInCol(b: Grid, cs: Cands, r: int, c: int, n: int)
    requires IsGrid(b) && IsCands(cs) && InRange(r, c)
  {
    forall k :: 0 <= k < 9 && k != r && b[k][c] == 0 ==> n !in cs[k][c]
  }

  /** No other empty cell of the box of (r, c) has n as a candidate. */
  ghost predicate UniqueInBox(b: Grid, cs: Cands, r: int, c: int, n: int)
    requires IsGrid(b) && IsCands(cs) && InRange(r, c)
  {
    forall r2, c2 :: InRange(r2, c2) && r2 / 3 == r / 3 && c2 / 3 == c / 3 && (r2 != r || c2 != c) && b[r2][c2] == 0 ==>
      n !in cs[r2][c2]
  }

  /** Hidden single: n is a candidate of (r, c) and of no other empty cell of its row, its column or its box. */
  ghost predicate HiddenSingle(b: Grid, cs: Cands, r: int, c: int, n: int)
    requires IsGrid(b) && IsCands(cs) && InRange(r, c)
  {
    n in cs[r][c] && (UniqueInRow(b, cs, r, c, n) || UniqueInCol(b, cs, r, c, n) || UniqueInBox(b, cs, r, c, n))
  }

  /** n is the least hidden single of (r, c): the one gradePuzzle's ascending candidate scan reaches first. */
  ghost predicate FirstHidden(b: Grid, cs: Cands, r: int, c: int, n: int)
    requires IsGrid(b) && IsCands(cs) && InRange(r, c)
  {
    HiddenSingle(b, cs, r, c, n) && forall m :: m < n ==> !HiddenSingle(b, cs, r, c, m)
  }

  /** Some empty cell has exactly one candidate. */
  ghost predicate HasNakedSingle(b: Grid, cs: Cands)
    requires IsGrid(b) && IsCands(cs)
  {
    exists r, c :: InRange(r, c) && b[r][c] == 0 && |cs[r][c]| == 1
  }

  /** Some empty cell has a hidden single. */
  ghost predicate HasHiddenSingle(b: Grid, cs: Cands)
    requires IsGrid(b) && IsCands(cs)
  {
    exists r, c, n :: InRange(r, c) && b[r][c] == 0 && HiddenSingle(b, cs, r, c, n)
  }

  /** Each column of a solved grid holds every digit. */
  lemma ColHoldsDigit(g: Grid, c: int, d: int)
    requires Solved(g) && 0 <= c < 9 && 1 <= d <= 9
    ensures exists k :: 0 <= k < 9 && g[k][c] == d
  {
    var S := {1, 2, 3, 4, 5, 6, 7, 8, 9};
    var col := seq(9, i requires 0 <= i < 9 => g[i][c]);
    if forall k :: 0 <= k < 9 ==> g[k][c] != d {
      forall i, j | 0 <= i < j < |col| ensures col[i] != col[j] {
        assert NoConflictAt(g, i, c) && Peer(i, c, j, c);
      }
      DistinctWithin(col, S - {d});
      assert false;
    }
  }

  /** Row (or column) offset a inside the box of x stays inside that box. */
  lemma BoxOffset(x: int, a: int)
    requires 0 <= x < 9 && 0 <= a < 3
    ensures 0 <= BoxStart(x) + a < 9 && (BoxStart(x) + a) / 3 == x / 3
  {
  }

  /** Index i of a box's nine cells splits into a row offset and a column offset. */
  lemma OffsetSplit(i: int)
    requires 0 <= i < 9
    ensures 0 <= i / 3 < 3 && 0 <= i % 3 < 3 && i == 3 * (i / 3) + i % 3
  {
  }

  /** The i-th of the nine cells of the box holding (r, c), row by row. */
  function BoxValue(g: Grid, r: int, c: int, i: int): int
    requires IsGrid(g) && InRange(r, c) && 0 <= i < 9
  {
    OffsetSplit(i);
    BoxOffset(r, i / 3);
    BoxOffset(c, i % 3);
    g[BoxStart(r) + i / 3][BoxStart(c) + i % 3]
  }

  /** Two different cells of a box of a solved grid hold different digits. */
  lemma BoxValuesDiffer(g: Grid, r: int, c: int, i: int, j: int)
    requires Solved(g) && InRange(r, c) && 0 <= i < j < 9
    ensures BoxValue(g, r, c, i) != BoxValue(g, r, c, j)
  {
    OffsetSplit(i);
    OffsetSplit(j);
    BoxOffset(r, i / 3);
    BoxOffset(c, i % 3);
    BoxOffset(r, j / 3);
    BoxOffset(c, j % 3);
    var r1, c1, r2, c2 := BoxStart(r) + i / 3, BoxStart(c) + i % 3, BoxStart(r) + j / 3, BoxStart(c) + j % 3;
    assert NoConflictAt(g, r1, c1);
    assert Peer(r1, c1, r2, c2);
  }

  /** Each box of a solved grid holds every digit, at one of its nine positions. */
  lemma BoxPositionHoldsDigit(g: Grid, r: int, c: int, d: int)
    requires Solved(g) && InRange(r, c) && 1 <= d <= 9
    ensures exists i :: 0 <= i < 9 && BoxValue(g, r, c, i) == d
  {
    var S := {1, 2, 3, 4, 5, 6, 7, 8, 9};
    var box := seq(9, i requires 0 <= i < 9 => BoxValue(g, r, c, i));
    if forall i :: 0 <= i < 9 ==> BoxValue(g, r, c, i) != d {
      forall i, j | 0 <= i < j < |box| ensures box[i] != box[j] {
        BoxValuesDiffer(g, r, c, i, j);
      }
      forall i | 0 <= i < |box| ensures box[i] in S - {d} {
        OffsetSplit(i);
        BoxOffset(r, i / 3);
        BoxOffset(c, i % 3);
      }
      DistinctWithin(box, S - {d});
      assert false;
    }
  }

  /** Each box of a solved grid holds every digit. */
  lemma BoxHoldsDigit(g: Grid, r: int, c: int, d: int)
    requires Solved(g) && InRange(r, c) && 1 <= d <= 9
    ensures exists r2, c2 :: InRange(r2, c2) && r2 / 3 == r / 3 && c2 / 3 == c / 3 && g[r2][c2] == d
  {
    BoxPositionHoldsDigit(g, r, c, d);
    var i :| 0 <= i < 9 && BoxValue(g, r, c, i) == d;
    OffsetSplit(i);
    BoxOffset(r, i / 3);
    BoxOffset(c, i % 3);
    var r2, c2 := BoxStart(r) + i / 3, BoxStart(c) + i % 3;
    assert InRange(r2, c2) && r2 / 3 == r / 3 && c2 / 3 == c / 3 && g[r2][c2] == d;
  }

  /** Every solution puts a hidden single at its cell. */
  lemma HiddenForced(p: Grid, b: Grid, cs: Cands, r: int, c: int, n: int, s: Grid)
    requires Grading(p, b, cs) && InRange(r, c) && b[r][c] == 0 && HiddenSingle(b, cs, r, c, n)
    requires Completion(p, s)
    ensures s[r][c] == n
  {
    assert Agrees(b, cs, s);
    if UniqueInRow(b, cs, r, c, n) {
      forall k | 0 <= k < 9 && k != c ensures s[r][k] != n {
        assert Peer(r, c, r, k);
      }
      RowHoldsDigit(s, r, n);
    } else if UniqueInCol(b, cs, r, c, n) {
      forall k | 0 <= k < 9 && k != r ensures s[k][c] != n {
        assert Peer(r, c, k, c);
      }
      ColHoldsDigit(s, c, n);
    } else {
      forall r2, c2 | InRange(r2, c2) && r2 / 3 == r / 3 && c2 / 3 == c / 3 && (r2 != r || c2 != c)
        ensures s[r2][c2] != n
      {
        assert Peer(r, c, r2, c2);
      }
      BoxHoldsDigit(s, r, c, n);
    }
  }

  /** Hidden single: placing n keeps the grading invariant. */
  lemma HiddenStep(p: Grid, b: Grid, cs: Cands, r: int, c: int, n: int)
    requires Grading(p, b, cs) && InRange(r, c) && b[r][c] == 0 && HiddenSingle(b, cs, r, c, n)
    ensures 1 <= n <= 9
    ensures Grading(p, Set(b, r, c, n), Placed(cs, r, c, n))
  {
    forall s | Completion(p, s) ensures s[r][c] == n {
      HiddenForced(p, b, cs, r, c, n, s);
    }
    PlaceForced(p, b, cs, r, c, n);
  }

  // ---------------------------------------------------------------------------
  // The passes of gradePuzzle as functions of the board and its candidates

  /** A working board and its candidates, with the number of singles placed so far. */
  datatype Sweep = Sweep(board: Grid, cands: Cands, placed: int)

  /** The element of a one-element set. */
  ghost function Only(S: set<int>): (v: int)
    requires |S| == 1
    ensures S == {v}
  {
    OnlyElement(S);
    var v :| v in S;
    Singleton(S, v);
    v
  }

  /**
   * The naked-singles step at (r, c): an empty cell with exactly one candidate
   * takes it, and the value leaves the peers; any other cell is left alone.
   */
  ghost function NakedAt(s: Sweep, r: int, c: int): (t: Sweep)
    requires IsGrid(s.board) && IsCands(s.cands) && InRange(r, c)
    ensures IsGrid(t.board) && IsCands(t.cands)
  {
    if s.board[r][c] == 0 && |s.cands[r][c]| == 1 then
      var v := Only(s.cands[r][c]);
      Sweep(Set(s.board, r, c, v), Eliminated(s.cands, r, c, v), s.placed + 1)
    else s
  }

  /**
   * (r, c) is a point of the row-major sweep: the rows above r are done and
   * so are the first c cells of row r.  (9, 0) is the end of the sweep.
   */
  ghost predicate SweepPoint(r: int, c: int) {
    0 <= c <= 9 && (0 <= r < 9 || (r == 9 && c == 0))
  }

  /** The naked-singles pass up to (r, c), each cell seeing what the earlier ones left. */
  ghost function NakedSweep(b: Grid, cs: Cands, r: int, c: int): (t: Sweep)
    requires IsGrid(b) && IsCands(cs) && SweepPoint(r, c)
    ensures IsGrid(t.board) && IsCands(t.cands)
    decreases r, c
  {
    if c > 0 then NakedAt(NakedSweep(b, cs, r, c - 1), r, c - 1)
    else if r > 0 then NakedSweep(b, cs, r - 1, 9)
    else Sweep(b, cs, 0)
  }

  /**
   * The hidden-singles step at (r, c): an empty cell with a hidden single
   * takes the least one, its candidates become that value alone, and the
   * value leaves the peers; any other cell is left alone.
   */
  ghost function HiddenAt(s: Sweep, r: int, c: int): (t: Sweep)
    requires IsGrid(s.board) && IsCands(s.cands) && InRange(r, c)
    ensures IsGrid(t.board) && IsCands(t.cands)
  {
    if s.board[r][c] == 0 && exists n :: HiddenSingle(s.board, s.cands, r, c, n) then
      var some :| HiddenSingle(s.board, s.cands, r, c, some);
      LeastHidden(s.board, s.cands, r, c, some);
      var n :| FirstHidden(s.board, s.cands, r, c, n);
      Sweep(Set(s.board, r, c, n), Placed(s.cands, r, c, n), s.placed + 1)
    else s
  }

  /** The hidden-singles pass up to (r, c), each cell seeing what the earlier ones left. */
  ghost function HiddenSweep(b: Grid, cs: Cands, r: int, c: int): (t: Sweep)
    requires IsGrid(b) && IsCands(cs) && SweepPoint(r, c)
    ensures IsGrid(t.board) && IsCands(t.cands)
    decreases r, c
  {
    if c > 0 then HiddenAt(HiddenSweep(b, cs, r, c - 1), r, c - 1)
    else if r > 0 then HiddenSweep(b, cs, r - 1, 9)
    else Sweep(b, cs, 0)
  }

  /** A cell with a hidden single has a least one. */
  lemma {:induction false} LeastHidden(b: Grid, cs: Cands, r: int, c: int, n: int)
    requires IsGrid(b) && IsCands(cs) && InRange(r, c) && HiddenSingle(b, cs, r, c, n)
    ensures exists m :: FirstHidden(b, cs, r, c, m)
    decreases |set x | x in cs[r][c] && x < n|
  {
    if !FirstHidden(b, cs, r, c, n) {
      var m :| m < n && HiddenSingle(b, cs, r, c, m);
      var below, upTo := set x | x in cs[r][c] && x < m, set x | x in cs[r][c] && x < n;
      assert m in cs[r][c];
      assert below <= upTo && m in upTo && m !in below;
      assert upTo == below + (upTo - below) && m in upTo - below;
      assert |below| < |upTo|;
      LeastHidden(b, cs, r, c, m);
    }
  }

  /** Sweeping one more cell applies the step at (r, c). */
  lemma NakedSweepNext(b: Grid, cs: Cands, r: int, c: int)
    requires IsGrid(b) && IsCands(cs) && InRange(r, c)
    ensures NakedSweep(b, cs, r, c + 1) == NakedAt(NakedSweep(b, cs, r, c), r, c)
  {
  }

  /** The end of one row is the start of the next. */
  lemma NakedSweepRow(b: Grid, cs: Cands, r: int)
    requires IsGrid(b) && IsCands(cs) && 0 <= r < 9
    ensures NakedSweep(b, cs, r + 1, 0) == NakedSweep(b, cs, r, 9)
  {
  }

  /** Sweeping one more cell applies the step at (r, c). */
  lemma HiddenSweepNext(b: Grid, cs: Cands, r: int, c: int)
    requires IsGrid(b) && IsCands(cs) && InRange(r, c)
    ensures HiddenSweep(b, cs, r, c + 1) == HiddenAt(HiddenSweep(b, cs, r, c), r, c)
  {
  }

  /** The end of one row is the start of the next. */
  lemma HiddenSweepRow(b: Grid, cs: Cands, r: int)
    requires IsGrid(b) && IsCands(cs) && 0 <= r < 9
    ensures HiddenSweep(b, cs, r + 1, 0) == HiddenSweep(b, cs, r, 9)
  {
  }

  /** A naked single at (r, c) is what NakedAt places. */
  lemma NakedAtTakes(s: Sweep, r: int, c: int, v: int)
    requires IsGrid(s.board) && IsCands(s.cands) && InRange(r, c) && s.board[r][c] == 0 && s.cands[r][c] == {v}
    ensures NakedAt(s, r, c) == Sweep(Set(s.board, r, c, v), Eliminated(s.cands, r, c, v), s.placed + 1)
  {
    assert Only(s.cands[r][c]) in {v};
  }

  /** The least hidden single of a cell is unique, so it is what HiddenAt places. */
  lemma HiddenAtTakes(s: Sweep, r: int, c: int, n: int)
    requires IsGrid(s.board) && IsCands(s.cands) && InRange(r, c) && s.board[r][c] == 0
    requires FirstHidden(s.board, s.cands, r, c, n)
    ensures HiddenAt(s, r, c) == Sweep(Set(s.board, r, c, n), Placed(s.cands, r, c, n), s.placed + 1)
  {
    forall m | FirstHidden(s.board, s.cands, r, c, m) ensures m == n {
      assert HiddenSingle(s.board, s.cands, r, c, m) && HiddenSingle(s.board, s.cands, r, c, n);
    }
  }

  /** A cell without a hidden single is left alone by HiddenAt. */
  lemma HiddenAtSkips(s: Sweep, r: int, c: int)
    requires IsGrid(s.board) && IsCands(s.cands) && InRange(r, c)
    requires !(s.board[r][c] == 0 && exists n :: HiddenSingle(s.board, s.cands, r, c, n))
    ensures HiddenAt(s, r, c) == s
  {
  }

  /** A value taken from the candidates of an empty cell keeps every empty cell's candidates digits. */
  lemma PlaceDigit(b: Grid, cs: Cands, ds: Cands, r: int, c: int, v: int)
    requires DigitCands(b, cs) && InRange(r, c) && b[r][c] == 0 && v in cs[r][c] && IsCands(ds)
    requires forall i, j :: InRange(i, j) && (i != r || j != c) ==> ds[i][j] <= cs[i][j]
    ensures 1 <= v <= 9
    ensures DigitCands(Set(b, r, c, v), ds)
    ensures |Empties(Set(b, r, c, v))| == |Empties(b)| - 1
  {
    EmptiesAfterSet(b, r, c, v);
  }

  /** The naked-singles sweep keeps the grading invariant. */
  lemma {:induction false} NakedSweepKeeps(p: Grid, b: Grid, cs: Cands, r: int, c: int)
    requires Grading(p, b, cs) && SweepPoint(r, c)
    ensures Grading(p, NakedSweep(b, cs, r, c).board, NakedSweep(b, cs, r, c).cands)
    decreases r, c
  {
    if c > 0 {
      NakedSweepKeeps(p, b, cs, r, c - 1);
      var t := NakedSweep(b, cs, r, c - 1);
      if t.board[r][c - 1] == 0 && |t.cands[r][c - 1]| == 1 {
        NakedStep(p, t.board, t.cands, r, c - 1, Only(t.cands[r][c - 1]));
      }
    } else if r > 0 {
      NakedSweepKeeps(p, b, cs, r - 1, 9);
    }
  }

  /** The naked-singles sweep keeps the candidates digits and counts the cells it fills. */
  lemma {:induction false} NakedSweepCounts(b: Grid, cs: Cands, r: int, c: int)
    requires DigitCands(b, cs) && SweepPoint(r, c)
    ensures DigitCands(NakedSweep(b, cs, r, c).board, NakedSweep(b, cs, r, c).cands)
    ensures 0 <= NakedSweep(b, cs, r, c).placed == |Empties(b)| - |Empties(NakedSweep(b, cs, r, c).board)|
    decreases r, c
  {
    if c > 0 {
      NakedSweepCounts(b, cs, r, c - 1);
      var t := NakedSweep(b, cs, r, c - 1);
      if t.board[r][c - 1] == 0 && |t.cands[r][c - 1]| == 1 {
        var v := Only(t.cands[r][c - 1]);
        PlaceDigit(t.board, t.cands, Eliminated(t.cands, r, c - 1, v), r, c - 1, v);
      }
    } else if r > 0 {
      NakedSweepCounts(b, cs, r - 1, 9);
    }
  }

  /** The hidden-singles sweep keeps the grading invariant. */
  lemma {:induction false} HiddenSweepKeeps(p: Grid, b: Grid, cs: Cands, r: int, c: int)
    requires Grading(p, b, cs) && SweepPoint(r, c)
    ensures Grading(p, HiddenSweep(b, cs, r, c).board, HiddenSweep(b, cs, r, c).cands)
    decreases r, c
  {
    if c > 0 {
      HiddenSweepKeeps(p, b, cs, r, c - 1);
      var t, col := HiddenSweep(b, cs, r, c - 1), c - 1;
      if t.board[r][col] == 0 && exists m :: HiddenSingle(t.board, t.cands, r, col, m) {
        var some :| HiddenSingle(t.board, t.cands, r, col, some);
        LeastHidden(t.board, t.cands, r, col, some);
        var m :| FirstHidden(t.board, t.cands, r, col, m);
        HiddenAtTakes(t, r, col, m);
        HiddenStep(p, t.board, t.cands, r, col, m);
      }
    } else if r > 0 {
      HiddenSweepKeeps(p, b, cs, r - 1, 9);
    }
  }

  /** The hidden-singles sweep keeps the candidates digits and counts the cells it fills. */
  lemma {:induction false} HiddenSweepCounts(b: Grid, cs: Cands, r: int, c: int)
    requires DigitCands(b, cs) && SweepPoint(r, c)
    ensures DigitCands(HiddenSweep(b, cs, r, c).board, HiddenSweep(b, cs, r, c).cands)
    ensures 0 <= HiddenSweep(b, cs, r, c).placed == |Empties(b)| - |Empties(HiddenSweep(b, cs, r, c).board)|
    decreases r, c
  {
    if c > 0 {
      HiddenSweepCounts(b, cs, r, c - 1);
      var t, col := HiddenSweep(b, cs, r, c - 1), c - 1;
      if t.board[r][col] == 0 && exists m :: HiddenSingle(t.board, t.cands, r, col, m) {
        var some :| HiddenSingle(t.board, t.cands, r, col, some);
        LeastHidden(t.board, t.cands, r, col, some);
        var m :| FirstHidden(t.board, t.cands, r, col, m);
        HiddenAtTakes(t, r, col, m);
        PlaceDigit(t.board, t.cands, Placed(t.cands, r, col, m), r, col, m);
      }
    } else if r > 0 {
      HiddenSweepCounts(b, cs, r - 1, 9);
    }
  }

  /** (i, j) comes before the sweep point (r, c) in row-major order. */
  predicate Before(i: int, j: int, r: int, c: int) {
    i < r || (i == r && j < c)
  }

  /** No empty cell before (r, c) has exactly one candidate. */
  ghost predicate NoNakedBefore(b: Grid, cs: Cands, r: int, c: int)
    requires IsGrid(b) && IsCands(cs)
  {
    forall i, j :: InRange(i, j) && Before(i, j, r, c) && b[i][j] == 0 ==> |cs[i][j]| != 1
  }

  /** No empty cell before (r, c) has a hidden single. */
  ghost predicate NoHiddenBefore(b: Grid, cs: Cands, r: int, c: int)
    requires IsGrid(b) && IsCands(cs)
  {
    forall i, j, m :: InRange(i, j) && Before(i, j, r, c) && b[i][j] == 0 ==> !HiddenSingle(b, cs, i, j, m)
  }

  /**
   * The naked-singles sweep up to (r, c) places nothing exactly when no cell
   * before (r, c) is empty with one candidate, and then it changes nothing.
   */
  lemma {:induction false} NakedSweepIdle(b: Grid, cs: Cands, r: int, c: int)
    requires IsGrid(b) && IsCands(cs) && SweepPoint(r, c)
    ensures NakedSweep(b, cs, r, c).placed >= 0
    ensures NakedSweep(b, cs, r, c).placed == 0 <==> NoNakedBefore(b, cs, r, c)
    ensures NakedSweep(b, cs, r, c).placed == 0 ==> NakedSweep(b, cs, r, c).board == b && NakedSweep(b, cs, r, c).cands == cs
    decreases r, c
  {
    if c > 0 {
      NakedSweepIdle(b, cs, r, c - 1);
      if NakedSweep(b, cs, r, c - 1).placed > 0 {
        assert !NoNakedBefore(b, cs, r, c - 1);
      } else {
        assert NoNakedBefore(b, cs, r, c) <==> NoNakedBefore(b, cs, r, c - 1) && !(b[r][c - 1] == 0 && |cs[r][c - 1]| == 1);
      }
    } else if r > 0 {
      NakedSweepIdle(b, cs, r - 1, 9);
      assert NoNakedBefore(b, cs, r, 0) <==> NoNakedBefore(b, cs, r - 1, 9);
    }
  }

  /**
   * The hidden-singles sweep up to (r, c) places nothing exactly when no cell
   * before (r, c) is empty with a hidden single, and then it changes nothing.
   */
  lemma {:induction false} HiddenSweepIdle(b: Grid, cs: Cands, r: int, c: int)
    requires IsGrid(b) && IsCands(cs) && SweepPoint(r, c)
    ensures HiddenSweep(b, cs, r, c).placed >= 0
    ensures HiddenSweep(b, cs, r, c).placed == 0 <==> NoHiddenBefore(b, cs, r, c)
    ensures HiddenSweep(b, cs, r, c).placed == 0 ==> HiddenSweep(b, cs, r, c).board == b && HiddenSweep(b, cs, r, c).cands == cs
    decreases r, c
  {
    if c > 0 {
      var col := c - 1;
      HiddenSweepIdle(b, cs, r, col);
      if HiddenSweep(b, cs, r, col).placed > 0 {
        assert !NoHiddenBefore(b, cs, r, col);
      } else {
        assert NoHiddenBefore(b, cs, r, c) <==> NoHiddenBefore(b, cs, r, col) && !(b[r][col] == 0 && exists m :: HiddenSingle(b, cs, r, col, m));
      }
    } else if r > 0 {
      HiddenSweepIdle(b, cs, r - 1, 9);
      assert NoHiddenBefore(b, cs, r, 0) <==> NoHiddenBefore(b, cs, r - 1, 9);
    }
  }

  /** No naked single before the end of the sweep is no naked single at all. */
  lemma NoNakedAll(b: Grid, cs: Cands)
    requires IsGrid(b) && IsCands(cs)
    ensures NoNakedBefore(b, cs, 9, 0) <==> !HasNakedSingle(b, cs)
  {
  }

  /** No hidden single before the end of the sweep is no hidden single at all. */
  lemma NoHiddenAll(b: Grid, cs: Cands)
    requires IsGrid(b) && IsCands(cs)
    ensures NoHiddenBefore(b, cs, 9, 0) <==> !HasHiddenSingle(b, cs)
  {
  }

  /** Where a round of gradePuzzle's loop stops, and how many singles of each kind it placed. */
  datatype Outcome = Outcome(board: Grid, cands: Cands, nakedSingles: int, hiddenSingles: int)

  /**
   * gradePuzzle's loop from board b with candidates cs: a naked-singles sweep,
   * then a hidden-singles sweep, repeated until a round places nothing.
   */
  ghost function Rounds(b: Grid, cs: Cands): (o: Outcome)
    requires DigitCands(b, cs)
    decreases |Empties(b)|
  {
    var naked := NakedSweep(b, cs, 9, 0);
    NakedSweepCounts(b, cs, 9, 0);
    var hidden := HiddenSweep(naked.board, naked.cands, 9, 0);
    HiddenSweepCounts(naked.board, naked.cands, 9, 0);
    if naked.placed + hidden.placed == 0 then Outcome(hidden.board, hidden.cands, 0, 0)
    else
      var rest := Rounds(hidden.board, hidden.cands);
      Outcome(rest.board, rest.cands, naked.placed + rest.nakedSingles, hidden.placed + rest.hiddenSingles)
  }

  /** One round of Rounds: the two sweeps, then either the stop or the rounds that follow. */
  lemma RoundsUnfold(b: Grid, cs: Cands)
    requires DigitCands(b, cs)
    ensures DigitCands(NakedSweep(b, cs, 9, 0).board, NakedSweep(b, cs, 9, 0).cands)
    ensures var naked := NakedSweep(b, cs, 9, 0);
            var hidden := HiddenSweep(naked.board, naked.cands, 9, 0);
            DigitCands(hidden.board, hidden.cands) &&
            Rounds(b, cs) == Later(Rest(hidden.board, hidden.cands, naked.placed + hidden.placed), naked.placed, hidden.placed)
  {
    NakedSweepCounts(b, cs, 9, 0);
    NakedSweepIdle(b, cs, 9, 0);
    var naked := NakedSweep(b, cs, 9, 0);
    HiddenSweepCounts(naked.board, naked.cands, 9, 0);
    HiddenSweepIdle(naked.board, naked.cands, 9, 0);
  }

  /** A round fills as many cells as the singles it counts. */
  lemma RoundCount(b: Grid, cs: Cands)
    requires DigitCands(b, cs)
    ensures var naked := NakedSweep(b, cs, 9, 0);
            var hidden := HiddenSweep(naked.board, naked.cands, 9, 0);
            0 <= naked.placed && 0 <= hidden.placed &&
            naked.placed + hidden.placed == |Empties(b)| - |Empties(hidden.board)|
  {
    NakedSweepCounts(b, cs, 9, 0);
    var naked := NakedSweep(b, cs, 9, 0);
    HiddenSweepCounts(naked.board, naked.cands, 9, 0);
  }

  /**
   * What the rounds reach from b and cs: the grading invariant still holds,
   * the counts are the cells filled, a naked single at the start is always
   * counted, nothing is counted exactly when the start has no single of
   * either kind, and the final board and candidates have no single left.
   */
  lemma {:induction false} RoundsFacts(p: Grid, b: Grid, cs: Cands)
    requires Grading(p, b, cs)
    ensures var o := Rounds(b, cs);
            Grading(p, o.board, o.cands) &&
            o.nakedSingles >= 0 && o.hiddenSingles >= 0 &&
            o.nakedSingles + o.hiddenSingles == |Empties(b)| - |Empties(o.board)| &&
            (HasNakedSingle(b, cs) ==> o.nakedSingles > 0) &&
            (o.nakedSingles + o.hiddenSingles == 0 <==> !HasNakedSingle(b, cs) && !HasHiddenSingle(b, cs)) &&
            !HasNakedSingle(o.board, o.cands) && !HasHiddenSingle(o.board, o.cands)
    decreases |Empties(b)|
  {
    RoundsUnfold(b, cs);
    RoundCount(b, cs);
    NakedSweepKeeps(p, b, cs, 9, 0);
    NakedSweepIdle(b, cs, 9, 0);
    NoNakedAll(b, cs);
    var naked := NakedSweep(b, cs, 9, 0);
    HiddenSweepKeeps(p, naked.board, naked.cands, 9, 0);
    HiddenSweepIdle(naked.board, naked.cands, 9, 0);
    NoHiddenAll(naked.board, naked.cands);
    var hidden := HiddenSweep(naked.board, naked.cands, 9, 0);
    if naked.placed + hidden.placed > 0 {
      RoundsFacts(p, hidden.board, hidden.cands);
    }
  }

  /**
   * What the rounds still to run reach after a round that placed last
   * singles: Rounds while the loop goes on, the current state once it stops.
   */
  ghost function Rest(b: Grid, cs: Cands, last: int): Outcome
    requires DigitCands(b, cs)
  {
    if last > 0 then Rounds(b, cs) else Outcome(b, cs, 0, 0)
  }

  /** An outcome reached after nakedSingles and hiddenSingles were already placed. */
  function Later(o: Outcome, nakedSingles: int, hiddenSingles: int): Outcome {
    Outcome(o.board, o.cands, nakedSingles + o.nakedSingles, hiddenSingles + o.hiddenSingles)
  }

  // ---------------------------------------------------------------------------
  // The two passes of gradePuzzle

  /**
   * The naked-singles pass: every empty cell with exactly one candidate takes
   * it, row by row.  It places nothing exactly when no empty cell had a single
   * candidate to begin with, and then nothing changes.
   */
  method NakedPass(board: array2<int>, cands: array2<set<int>>) returns (placed: int)
    requires board.Length0 == 9 && board.Length1 == 9 && cands.Length0 == 9 && cands.Length1 == 9
    modifies board, cands
    ensures Rows(board) == NakedSweep(old(Rows(board)), old(CandRows(cands)), 9, 0).board
    ensures CandRows(cands) == NakedSweep(old(Rows(board)), old(CandRows(cands)), 9, 0).cands
    ensures placed == NakedSweep(old(Rows(board)), old(CandRows(cands)), 9, 0).placed
    ensures placed == 0 <==> !HasNakedSingle(old(Rows(board)), old(CandRows(cands)))
    ensures placed == 0 ==> Rows(board) == old(Rows(board)) && CandRows(cands) == old(CandRows(cands))
  {
    ghost var start, startCands := Rows(board), CandRows(cands);
    placed := 0;
    for row := 0 to 9
      invariant Sweep(Rows(board), CandRows(cands), placed) == NakedSweep(start, startCands, row, 0)
    {
      placed := NakedRow(board, cands, row, placed, start, startCands);
      NakedSweepRow(start, startCands, row);
    }
    NakedSweepIdle(start, startCands, 9, 0);
    NoNakedAll(start, startCands);
  }

  /** The naked-singles pass over one row: the sweep advances by the nine cells of row. */
  method NakedRow(board: array2<int>, cands: array2<set<int>>, row: int, before: int, ghost start: Grid, ghost startCands: Cands)
    returns (placed: int)
    requires board.Length0 == 9 && board.Length1 == 9 && cands.Length0 == 9 && cands.Length1 == 9 && 0 <= row < 9
    requires IsGrid(start) && IsCands(startCands)
    requires Sweep(Rows(board), CandRows(cands), before) == NakedSweep(start, startCands, row, 0)
    modifies board, cands
    ensures Sweep(Rows(board), CandRows(cands), placed) == NakedSweep(start, startCands, row, 9)
  {
    placed := before;
    for col := 0 to 9
      invariant Sweep(Rows(board), CandRows(cands), placed) == NakedSweep(start, startCands, row, col)
    {
      NakedSweepNext(start, startCands, row, col);
      var took := NakedSingleAt(board, cands, row, col, placed);
      if took {
        placed := placed + 1;
      }
    }
  }

  /**
   * The naked-singles step at (row, col): an empty cell with exactly one
   * candidate takes it, and the value leaves the peers; any other cell is
   * left alone.  k is the count of singles placed so far in the pass.
   */
  method NakedSingleAt(board: array2<int>, cands: array2<set<int>>, row: int, col: int, ghost k: int)
    returns (placed: bool)
    requires board.Length0 == 9 && board.Length1 == 9 && cands.Length0 == 9 && cands.Length1 == 9 && InRange(row, col)
    modifies board, cands
    ensures placed <==> old(board[row, col]) == 0 && |old(cands[row, col])| == 1
    ensures Sweep(Rows(board), CandRows(cands), if placed then k + 1 else k) ==
            NakedAt(Sweep(old(Rows(board)), old(CandRows(cands)), k), row, col)
  {
    placed := board[row, col] == 0 && |cands[row, col]| == 1;
    if placed {
      var single := cands[row, col];
      OnlyElement(single);
      var value :| value in single;
      Singleton(single, value);
      ghost var b, cs := Rows(board), CandRows(cands);
      board[row, col] := value;
      EliminateValue(cands, row, col, value);
      RowsAre(board, Set(b, row, col, value));
      NakedAtTakes(Sweep(b, cs, k), row, col, value);
    }
  }

  method UniqueInRowAt(board: array2<int>, cands: array2<set<int>>, row: int, col: int, num: int) returns (unique: bool)
    requires board.Length0 == 9 && board.Length1 == 9 && cands.Length0 == 9 && cands.Length1 == 9 && InRange(row, col)
    ensures unique == UniqueInRow(Rows(board), CandRows(cands), row, col, num)
  {
    for c := 0 to 9
      invariant forall k :: 0 <= k < c && k != col && board[row, k] == 0 ==> num !in cands[row, k]
    {
      if c != col && board[row, c] == 0 && num in cands[row, c] {
        return false;
      }
    }
    return true;
  }

  method UniqueInColAt(board: array2<int>, cands: array2<set<int>>, row: int, col: int, num: int) returns (unique: bool)
    requires board.Length0 == 9 && board.Length1 == 9 && cands.Length0 == 9 && cands.Length1 == 9 && InRange(row, col)
    ensures unique == UniqueInCol(Rows(board), CandRows(cands), row, col, num)
  {
    for r := 0 to 9
      invariant forall k :: 0 <= k < r && k != row && board[k, col] == 0 ==> num !in cands[k, col]
    {
      if r != row && board[r, col] == 0 && num in cands[r, col] {
        return false;
      }
    }
    return true;
  }

  method UniqueInBoxAt(board: array2<int>, cands: array2<set<int>>, row: int, col: int, num: int) returns (unique: bool)
    requires board.Length0 == 9 && board.Length1 == 9 && cands.Length0 == 9 && cands.Length1 == 9 && InRange(row, col)
    ensures unique == UniqueInBox(Rows(board), CandRows(cands), row, col, num)
  {
    var boxRow, boxCol := (row / 3) * 3, (col / 3) * 3;
    for r := boxRow to boxRow + 3
      invariant forall r2, c2 :: boxRow <= r2 < r && boxCol <= c2 < boxCol + 3 && (r2 != row || c2 != col) && board[r2, c2] == 0 ==>
        num !in cands[r2, c2]
    {
      for c := boxCol to boxCol + 3
        invariant forall r2, c2 ::
          (boxRow <= r2 < r || (r2 == r && c2 < c)) && boxCol <= c2 < boxCol + 3 && (r2 != row || c2 != col) && board[r2, c2] == 0
          ==> num !in cands[r2, c2]
      {
        if (r != row || c != col) && board[r, c] == 0 && num in cands[r, c] {
          assert r / 3 == row / 3 && c / 3 == col / 3;
          return false;
        }
      }
    }
    forall r2, c2 | InRange(r2, c2) && r2 / 3 == row / 3 && c2 / 3 == col / 3 ensures boxRow <= r2 < boxRow + 3 && boxCol <= c2 < boxCol + 3 {
    }
    return true;
  }

  /**
   * The candidates of (row, col), ascending, are tried in turn, each checked
   * for being unique in the row, then the column, then the box; the first
   * that is unique anywhere is the hidden single found.
   */
  method FirstHiddenSingle(board: array2<int>, cands: array2<set<int>>, row: int, col: int)
    returns (found: bool, value: int)
    requires board.Length0 == 9 && board.Length1 == 9 && cands.Length0 == 9 && cands.Length1 == 9 && InRange(row, col)
    requires DigitCands(Rows(board), CandRows(cands)) && board[row, col] == 0
    ensures found <==> exists n :: HiddenSingle(Rows(board), CandRows(cands), row, col, n)
    ensures found ==> HiddenSingle(Rows(board), CandRows(cands), row, col, value)
    ensures found ==> forall n :: n < value ==> !HiddenSingle(Rows(board), CandRows(cands), row, col, n)
  {
    for num := 1 to 10
      invariant forall n :: n < num ==> !HiddenSingle(Rows(board), CandRows(cands), row, col, n)
    {
      if num in cands[row, col] {
        var unique := UniqueInRowAt(board, cands, row, col, num);
        if !unique {
          unique := UniqueInColAt(board, cands, row, col, num);
        }
        if !unique {
          unique := UniqueInBoxAt(board, cands, row, col, num);
        }
        if unique {
          assert HiddenSingle(Rows(board), CandRows(cands), row, col, num);
          return true, num;
        }
      }
    }
    forall n | n >= 10 ensures !HiddenSingle(Rows(board), CandRows(cands), row, col, n) {
    }
    return false, 0;
  }

  /**
   * The hidden-singles step at (row, col): when the cell is empty and has a
   * hidden single, the least one is placed, its cell's candidates become
   * that value alone, and it leaves the peers; otherwise nothing changes.
   * k is the count of singles placed so far in the pass.
   */
  method HiddenSingleAt(board: array2<int>, cands: array2<set<int>>, row: int, col: int, ghost k: int)
    returns (placed: bool, value: int)
    requires board.Length0 == 9 && board.Length1 == 9 && cands.Length0 == 9 && cands.Length1 == 9 && InRange(row, col)
    requires DigitCands(Rows(board), CandRows(cands))
    modifies board, cands
    ensures placed <==> old(board[row, col]) == 0 && exists n :: HiddenSingle(old(Rows(board)), old(CandRows(cands)), row, col, n)
    ensures placed ==> FirstHidden(old(Rows(board)), old(CandRows(cands)), row, col, value)
    ensures Sweep(Rows(board), CandRows(cands), if placed then k + 1 else k) ==
            HiddenAt(Sweep(old(Rows(board)), old(CandRows(cands)), k), row, col)
  {
    ghost var s := Sweep(Rows(board), CandRows(cands), k);
    placed, value := false, 0;
    if board[row, col] == 0 {
      placed, value := FirstHiddenSingle(board, cands, row, col);
    }
    if placed {
      PlaceHidden(board, cands, row, col, value);
      HiddenAtTakes(s, row, col, value);
    } else {
      assert s.board == Rows(board) && s.cands == CandRows(cands);
      HiddenAtSkips(s, row, col);
    }
  }

  /** Places num at (row, col), makes it the cell's only candidate and eliminates it from the peers. */
  method PlaceHidden(board: array2<int>, cands: array2<set<int>>, row: int, col: int, num: int)
    requires board.Length0 == 9 && board.Length1 == 9 && cands.Length0 == 9 && cands.Length1 == 9 && InRange(row, col)
    modifies board, cands
    ensures Rows(board) == Set(old(Rows(board)), row, col, num)
    ensures CandRows(cands) == Placed(old(CandRows(cands)), row, col, num)
  {
    ghost var b, cs := Rows(board), CandRows(cands);
    board[row, col] := num;
    cands[row, col] := {num};
    CandsExt(CandRows(cands), Fixed(cs, row, col, num));
    EliminateValue(cands, row, col, num);
    RowsAre(board, Set(b, row, col, num));
  }

  /**
   * The hidden-singles pass: HiddenSingleAt on every cell, row by row.  It
   * places nothing exactly when no empty cell had a hidden single to begin
   * with, and then nothing changes.
   */
  method HiddenPass(board: array2<int>, cands: array2<set<int>>) returns (placed: int)
    requires board.Length0 == 9 && board.Length1 == 9 && cands.Length0 == 9 && cands.Length1 == 9
    requires DigitCands(Rows(board), CandRows(cands))
    modifies board, cands
    ensures Rows(board) == HiddenSweep(old(Rows(board)), old(CandRows(cands)), 9, 0).board
    ensures CandRows(cands) == HiddenSweep(old(Rows(board)), old(CandRows(cands)), 9, 0).cands
    ensures placed == HiddenSweep(old(Rows(board)), old(CandRows(cands)), 9, 0).placed
    ensures placed == 0 <==> !HasHiddenSingle(old(Rows(board)), old(CandRows(cands)))
    ensures placed == 0 ==> Rows(board) == old(Rows(board)) && CandRows(cands) == old(CandRows(cands))
  {
    ghost var start, startCands := Rows(board), CandRows(cands);
    placed := 0;
    for row := 0 to 9
      invariant Sweep(Rows(board), CandRows(cands), placed) == HiddenSweep(start, startCands, row, 0)
    {
      placed := HiddenRow(board, cands, row, placed, start, startCands);
      HiddenSweepRow(start, startCands, row);
    }
    HiddenSweepIdle(start, startCands, 9, 0);
    NoHiddenAll(start, startCands);
  }

  /** The hidden-singles pass over one row: the sweep advances by the nine cells of row. */
  method HiddenRow(board: array2<int>, cands: array2<set<int>>, row: int, before: int, ghost start: Grid, ghost startCands: Cands)
    returns (placed: int)
    requires board.Length0 == 9 && board.Length1 == 9 && cands.Length0 == 9 && cands.Length1 == 9 && 0 <= row < 9
    requires DigitCands(start, startCands)
    requires Sweep(Rows(board), CandRows(cands), before) == HiddenSweep(start, startCands, row, 0)
    modifies board, cands
    ensures Sweep(Rows(board), CandRows(cands), placed) == HiddenSweep(start, startCands, row, 9)
  {
    placed := before;
    for col := 0 to 9
      invariant Sweep(Rows(board), CandRows(cands), placed) == HiddenSweep(start, startCands, row, col)
    {
      HiddenSweepCounts(start, startCands, row, col);
      HiddenSweepNext(start, startCands, row, col);
      var found, value := HiddenSingleAt(board, cands, row, col, placed);
      if found {
        placed := placed + 1;
      }
    }
  }

  /** The result of gradePuzzle. */
  datatype Grade = Grade(difficulty: Difficulty, score: int, nakedSingles: int, hiddenSingles: int)

  /**
   * The classification, in the order gradePuzzle tests it: only naked
   * singles (at least one) is intermediate; otherwise a score below 50 is
   * intermediate, below 100 hard, and anything higher expert.
   */
  function Classify(score: int, nakedSingles: int, hiddenSingles: int): Difficulty {
    if hiddenSingles == 0 && nakedSingles > 0 then Intermediate
    else if score < 50 then Intermediate
    else if score < 100 then Hard
    else Expert
  }

  /** The empty cells among the first n in row-major order. */
  ghost function EmptiesBelow(g: Grid, n: int): set<int>
    requires IsGrid(g) && n <= 81
  {
    set p | 0 <= p < n && Cell(g, p) == 0
  }

  lemma {:induction false} EmptiesBelowAtMost(g: Grid, n: nat)
    requires IsGrid(g) && n <= 81
    ensures |EmptiesBelow(g, n)| <= n
  {
    if n > 0 {
      EmptiesBelowAtMost(g, n - 1);
      assert EmptiesBelow(g, n) <= EmptiesBelow(g, n - 1) + {n - 1};
      assert EmptiesBelow(g, n - 1) + {n - 1} == EmptiesBelow(g, n) + (EmptiesBelow(g, n - 1) + {n - 1} - EmptiesBelow(g, n));
    }
  }

  /** A board has at most 81 empty cells. */
  lemma EmptiesAtMost81(g: Grid)
    requires IsGrid(g)
    ensures |Empties(g)| <= 81
  {
    EmptiesBelowAtMost(g, 81);
    assert Empties(g) == EmptiesBelow(g, 81);
  }

  /** The working board keeps the clues, and each solution of the puzzle fills it in. */
  lemma GradingReduces(p: Grid, b: Grid, cs: Cands)
    requires Grading(p, b, cs)
    ensures Reduces(b, p)
    ensures forall s :: Completion(p, s) ==> Reduces(s, b)
  {
    forall s | Completion(p, s) ensures Reduces(s, b) {
      assert Agrees(b, cs, s);
    }
  }

  /** With at most 81 singles placed, an expert score needs at least 19 hidden singles. */
  lemma ExpertBound(score: int, nakedSingles: int, hiddenSingles: int)
    requires nakedSingles >= 0 && hiddenSingles >= 0 && score == nakedSingles + 2 * hiddenSingles
    requires nakedSingles + hiddenSingles <= 81
    ensures Classify(score, nakedSingles, hiddenSingles) == Expert ==> hiddenSingles >= 19
  {
  }

  /** A full board every solution reduces to is the one solution. */
  lemma ForcedFull(p: Grid, b: Grid)
    requires IsGrid(p) && IsGrid(b) && Full(b)
    requires forall s :: Completion(p, s) ==> Reduces(s, b)
    ensures forall s :: Completion(p, s) ==> s == b
  {
    forall s | Completion(p, s) ensures s == b {
      GridExt(s, b);
    }
  }

  /**
   * gradePuzzle: on a copy of the puzzle, the naked-singles pass and the
   * hidden-singles pass alternate until a round places nothing; a naked
   * single scores 1 and a hidden single 2.  Every value placed is the one
   * every solution of the puzzle has there, so the final board keeps the
   * clues and is a reduction of each solution.  The first round starts from
   * the initial candidates of the puzzle, so a naked single there is always
   * counted; the last round found neither kind of single on the final board
   * and candidates.
   */
  method GradePuzzle(puzzle: array2<int>) returns (grade: Grade, ghost board: Grid, ghost initial: Cands, ghost cands: Cands)
    requires puzzle.Length0 == 9 && puzzle.Length1 == 9
    ensures grade.score == grade.nakedSingles + 2 * grade.hiddenSingles
    ensures grade.nakedSingles >= 0 && grade.hiddenSingles >= 0
    ensures grade.difficulty == Classify(grade.score, grade.nakedSingles, grade.hiddenSingles)
    ensures grade.hiddenSingles == 0 ==> grade.difficulty == Intermediate
    ensures grade.difficulty == Expert ==> grade.hiddenSingles >= 19
    ensures IsGrid(board) && Reduces(board, Rows(puzzle))
    ensures grade.nakedSingles + grade.hiddenSingles == |Empties(Rows(puzzle))| - |Empties(board)|
    ensures forall s :: Completion(Rows(puzzle), s) ==> Reduces(s, board)
    ensures Full(board) ==> forall s :: Completion(Rows(puzzle), s) ==> s == board
    ensures Full(Rows(puzzle)) ==> grade == Grade(Intermediate, 0, 0, 0)
    ensures IsCands(initial) && forall r, c, d :: InRange(r, c) ==> (d in initial[r][c] <==> InitialCandidate(Rows(puzzle), r, c, d))
    ensures HasNakedSingle(Rows(puzzle), initial) ==> grade.nakedSingles > 0
    ensures grade.nakedSingles + grade.hiddenSingles == 0 <==>
              !HasNakedSingle(Rows(puzzle), initial) && !HasHiddenSingle(Rows(puzzle), initial)
    ensures Grading(Rows(puzzle), board, cands)
    ensures !HasNakedSingle(board, cands) && !HasHiddenSingle(board, cands)
    ensures Grading(Rows(puzzle), Rows(puzzle), initial)
    ensures Rounds(Rows(puzzle), initial) == Outcome(board, cands, grade.nakedSingles, grade.hiddenSingles)
  {
    ghost var p := Rows(puzzle);
    var work := CopyBoard(puzzle);
    var candidates := InitCandidates(work);
    initial := CandRows(candidates);
    InitialGrading(p, initial);
    var score, nakedSingles, hiddenSingles := RunRounds(work, candidates);
    board, cands := Rows(work), CandRows(candidates);
    RoundsFacts(p, p, initial);
    GradingReduces(p, board, cands);
    EmptiesAtMost81(p);
    ExpertBound(score, nakedSingles, hiddenSingles);
    FullIffNoEmpties(p);
    if Full(board) {
      ForcedFull(p, board);
    }
    grade := Grade(Classify(score, nakedSingles, hiddenSingles), score, nakedSingles, hiddenSingles);
  }

  /**
   * gradePuzzle's while loop: rounds run until one places nothing, adding 1
   * to the score per naked single and 2 per hidden single.  The board, the
   * candidates and the counts it ends with are those of Rounds.  The loop's
   * progress flag is modelled as placed > 0, placed being the number of
   * singles the previous round placed (1 before the first round).
   */
  method RunRounds(work: array2<int>, candidates: array2<set<int>>)
    returns (score: int, nakedSingles: int, hiddenSingles: int)
    requires work.Length0 == 9 && work.Length1 == 9 && candidates.Length0 == 9 && candidates.Length1 == 9
    requires DigitCands(Rows(work), CandRows(candidates))
    modifies work, candidates
    ensures score == nakedSingles + 2 * hiddenSingles
    ensures Rounds(old(Rows(work)), old(CandRows(candidates))) ==
            Outcome(Rows(work), CandRows(candidates), nakedSingles, hiddenSingles)
  {
    ghost var total := Rounds(Rows(work), CandRows(candidates));
    score, nakedSingles, hiddenSingles := 0, 0, 0;
    var placed := 1;
    while placed > 0
      invariant DigitCands(Rows(work), CandRows(candidates))
      invariant score == nakedSingles + 2 * hiddenSingles
      invariant total == Later(Rest(Rows(work), CandRows(candidates), placed), nakedSingles, hiddenSingles)
      decreases |Empties(Rows(work))| + (if placed > 0 then 1 else 0)
    {
      var naked, hidden := Round(work, candidates, total, placed, nakedSingles, hiddenSingles);
      nakedSingles, hiddenSingles := nakedSingles + naked, hiddenSingles + hidden;
      score := score + naked + 2 * hidden;
      placed := naked + hidden;
    }
  }

  /**
   * One pass of gradePuzzle's while loop: the naked-singles pass, then the
   * hidden-singles pass, which is the first round of Rounds.
   */
  method Round(work: array2<int>, candidates: array2<set<int>>, ghost total: Outcome, ghost last: int, ghost n: int, ghost h: int)
    returns (naked: int, hidden: int)
    requires work.Length0 == 9 && work.Length1 == 9 && candidates.Length0 == 9 && candidates.Length1 == 9
    requires DigitCands(Rows(work), CandRows(candidates))
    requires last > 0 && total == Later(Rest(Rows(work), CandRows(candidates), last), n, h)
    modifies work, candidates
    ensures DigitCands(Rows(work), CandRows(candidates))
    ensures 0 <= naked && 0 <= hidden && naked + hidden == |Empties(old(Rows(work)))| - |Empties(Rows(work))|
    ensures total == Later(Rest(Rows(work), CandRows(candidates), naked + hidden), n + naked, h + hidden)
  {
    ghost var b, cs := Rows(work), CandRows(candidates);
    RoundsUnfold(b, cs);
    RoundCount(b, cs);
    naked := NakedPass(work, candidates);
    hidden := HiddenPass(work, candidates);
  }

  /** On a solved grid with (r, c) cleared, that cell's only initial candidate is the digit cleared. */
  lemma OneHoleCandidates(s: Grid, r: int, c: int, d: int)
    requires Solved(s) && InRange(r, c)
    ensures InitialCandidate(Set(s, r, c, 0), r, c, d) <==> d == s[r][c]
  {
    var h := Set(s, r, c, 0);
    InitialCandidateEmpty(h, r, c, d);
    if d == s[r][c] {
      assert NoConflictAt(s, r, c);
      assert IsValid(h, r, c, d);
    } else if 1 <= d <= 9 {
      ColHoldsDigit(s, c, d);
      var k :| 0 <= k < 9 && s[k][c] == d;
      assert SameUnit(r, c, k, c) && h[k][c] == d;
    }
  }

  /** A solved grid with one cell cleared has exactly one empty cell. */
  /** On a solved grid with one cell cleared, the initial candidates hold a naked single. */
  lemma OneHoleSingle(s: Grid, r: int, c: int, initial: Cands)
    requires Solved(s) && InRange(r, c) && IsCands(initial)
    requires forall i, j, d :: InRange(i, j) ==> (d in initial[i][j] <==> InitialCandidate(Set(s, r, c, 0), i, j, d))
    ensures HasNakedSingle(Set(s, r, c, 0), initial)
  {
    forall d ensures d in initial[r][c] <==> d == s[r][c] {
      OneHoleCandidates(s, r, c, d);
    }
    assert initial[r][c] == {s[r][c]};
  }

  lemma OneHoleEmpties(s: Grid, r: int, c: int)
    requires Solved(s) && InRange(r, c)
    ensures |Empties(Set(s, r, c, 0))| == 1
  {
    var h := Set(s, r, c, 0);
    FullIffNoEmpties(s);
    EmptiesAfterSet(h, r, c, s[r][c]);
    GridExt(Set(h, r, c, s[r][c]), s);
    assert Empties(h) == {r * 9 + c};
  }

  /**
   * gradePuzzle on a solved grid with one cell cleared: the cleared cell is a
   * naked single of the first round, so the grade is intermediate with a
   * score of 1, from one naked single and no hidden single.
   */
  method OneHoleGrade(puzzle: array2<int>, ghost s: Grid, ghost r: int, ghost c: int) returns (grade: Grade)
    requires puzzle.Length0 == 9 && puzzle.Length1 == 9 && Solved(s) && InRange(r, c)
    requires Rows(puzzle) == Set(s, r, c, 0)
    ensures grade == Grade(Intermediate, 1, 1, 0)
  {
    ghost var board, initial, cands;
    grade, board, initial, cands := GradePuzzle(puzzle);
    OneHoleSingle(s, r, c, initial);
    OneHoleEmpties(s, r, c);
  }
}

/**
 * The puzzle generator of puzzle-generator.js: the legality check, the
 * randomized filler, the capped solution counter, the clue remover, the plain
 * solver and the generate facade.  Boards that the source mutates in place are
 * `array2<int>`; `Rows` reads one back as a grid value.  Math.random is modelled
 * by nondeterministic choice (`:|`).
 */
module SudokuGenerator {
  import opened SudokuGrid

  const Digits: seq<int> := [1, 2, 3, 4, 5, 6, 7, 8, 9]

  /**
   * isValid: value occurs nowhere in the row, the column or the 3×3 box of
   * (row, col).  The scans include the cell itself.
   */
  predicate IsValid(g: Grid, row: int, col: int, value: int)
    requires IsGrid(g) && InRange(row, col)
    ensures IsValid(g, row, col, value) <==>
      forall r, c :: InRange(r, c) && SameUnit(row, col, r, c) ==> g[r][c] != value
  {
    var br, bc := BoxStart(row), BoxStart(col);
    (forall c :: 0 <= c < 9 ==> g[row][c] != value) &&
    (forall r :: 0 <= r < 9 ==> g[r][col] != value) &&
    (forall r, c :: br <= r < br + 3 && bc <= c < bc + 3 ==> g[r][c] != value)
  }

  /** isValid on a board array, with the source's three early-exit scans. */
  method IsValidAt(board: array2<int>, row: int, col: int, value: int) returns (ok: bool)
    requires board.Length0 == 9 && board.Length1 == 9 && InRange(row, col)
    ensures ok == IsValid(Rows(board), row, col, value)
  {
    for c := 0 to 9
      invariant forall c' :: 0 <= c' < c ==> board[row, c'] != value
    {
      if board[row, c] == value {
        return false;
      }
    }
    for r := 0 to 9
      invariant forall r' :: 0 <= r' < r ==> board[r', col] != value
    {
      if board[r, col] == value {
        return false;
      }
    }
    var boxRow, boxCol := (row / 3) * 3, (col / 3) * 3;
    for r := boxRow to boxRow + 3
      invariant forall r', c' :: boxRow <= r' < r && boxCol <= c' < boxCol + 3 ==> board[r', c'] != value
    {
      for c := boxCol to boxCol + 3
        invariant forall r', c' :: boxRow <= r' < r && boxCol <= c' < boxCol + 3 ==> board[r', c'] != value
        invariant forall c' :: boxCol <= c' < c ==> board[r, c'] != value
      {
        if board[r, c] == value {
          return false;
        }
      }
    }
    return true;
  }

  /** Fisher–Yates shuffle with an arbitrary choice of j at every step: any permutation. */
  method Shuffle(s: seq<int>) returns (r: seq<int>)
    ensures multiset(r) == multiset(s)
  {
    r := s;
    var i := |r| - 1;
    while i > 0
      invariant |r| == |s| && i < |r|
      invariant multiset(r) == multiset(s)
    {
      var j :| 0 <= j <= i;
      r := r[i := r[j]][j := r[i]];
      i := i - 1;
    }
  }

  /** A copy of the board (`board.map(row => [...row])`). */
  method CopyBoard(board: array2<int>) returns (copy: array2<int>)
    requires board.Length0 == 9 && board.Length1 == 9
    ensures fresh(copy) && copy.Length0 == 9 && copy.Length1 == 9
    ensures Rows(copy) == Rows(board)
  {
    copy := new int[9, 9]((r, c) reads board => if 0 <= r < 9 && 0 <= c < 9 then board[r, c] else 0);
    RowsAre(copy, Rows(board));
  }

  /** The row-major scan for the first empty cell that the three searches share. */
  method FindEmpty(board: array2<int>) returns (found: bool, row: int, col: int)
    requires board.Length0 == 9 && board.Length1 == 9
    ensures found ==> InRange(row, col) && board[row, col] == 0
    ensures found ==> forall r, c :: InRange(r, c) && Before(r, c, row, col) ==> board[r, c] != 0
    ensures !found ==> Full(Rows(board))
  {
    for r := 0 to 9
      invariant forall r', c' :: 0 <= r' < r && 0 <= c' < 9 ==> board[r', c'] != 0
    {
      for c := 0 to 9
        invariant forall r', c' :: 0 <= r' < r && 0 <= c' < 9 ==> board[r', c'] != 0
        invariant forall c' :: 0 <= c' < c ==> board[r, c'] != 0
      {
        if board[r, c] == 0 {
          return true, r, c;
        }
      }
    }
    return false, 0, 0;
  }

  // ---------------------------------------------------------------------------
  // How one placement splits the fillings of a board

  /** No filling of g puts v at (r, c). */
  ghost predicate NoFillingWith(g: Grid, r: int, c: int, v: int)
    requires IsGrid(g) && InRange(r, c)
  {
    forall s :: Filling(g, s) ==> s[r][c] != v
  }

  /**
   * Placing a legal digit v in the empty cell (r, c) keeps exactly the
   * fillings that put v there.
   */
  lemma PlaceKeepsFillings(g: Grid, r: int, c: int, v: int, s: Grid)
    requires IsGrid(g) && InRange(r, c) && g[r][c] == 0 && 1 <= v <= 9 && IsValid(g, r, c, v)
    ensures Filling(Set(g, r, c, v), s) <==> Filling(g, s) && s[r][c] == v
  {
    var h := Set(g, r, c, v);
    if Filling(h, s) {
      forall r2, c2 | InRange(r2, c2) && Peer(r, c, r2, c2) ensures s[r2][c2] != s[r][c] {
        if g[r2][c2] != 0 {
          assert SameUnit(r, c, r2, c2);
        } else {
          assert h[r2][c2] == 0;
          assert NoConflictAt(s, r2, c2);
          assert Peer(r2, c2, r, c);
        }
      }
      assert NoConflictAt(s, r, c);
    }
  }

  /** An illegal digit at (r, c) appears in no filling there. */
  lemma IllegalExcluded(g: Grid, r: int, c: int, v: int)
    requires IsGrid(g) && InRange(r, c) && g[r][c] == 0 && !IsValid(g, r, c, v)
    ensures NoFillingWith(g, r, c, v)
  {
    var r2, c2 :| InRange(r2, c2) && SameUnit(r, c, r2, c2) && g[r2][c2] == v;
    forall s | Filling(g, s) ensures s[r][c] != v {
      if v != 0 {
        assert Peer(r, c, r2, c2);
        assert NoConflictAt(s, r, c);
      }
    }
  }

  /** Fillings that put v at (r, c) are fillings of the board with v placed there. */
  lemma FailedPlacementExcluded(g: Grid, r: int, c: int, v: int)
    requires IsGrid(g) && InRange(r, c) && g[r][c] == 0 && 1 <= v <= 9 && IsValid(g, r, c, v)
    requires !HasFilling(Set(g, r, c, v))
    ensures NoFillingWith(g, r, c, v)
  {
    forall s | Filling(g, s) ensures s[r][c] != v {
      PlaceKeepsFillings(g, r, c, v, s);
    }
  }

  lemma DigitInDigits(d: int)
    requires 1 <= d <= 9
    ensures d in Digits
  {
    assert Digits[d - 1] == d;
  }

  /** xs orders the digits 1..9: each of them occurs and nothing else does. */
  ghost predicate DigitOrder(xs: seq<int>) {
    (forall k :: 0 <= k < |xs| ==> 1 <= xs[k] <= 9) && forall d :: 1 <= d <= 9 ==> d in xs
  }

  /** The shuffled digit list of fillBoard. */
  method ShuffleDigits() returns (numbers: seq<int>)
    ensures |numbers| == 9 && DigitOrder(numbers)
  {
    numbers := Shuffle(Digits);
    assert |multiset(numbers)| == |multiset(Digits)|;
    forall k | 0 <= k < |numbers| ensures 1 <= numbers[k] <= 9 {
      assert numbers[k] in multiset(Digits);
    }
    forall d | 1 <= d <= 9 ensures d in numbers {
      DigitInDigits(d);
      assert d in multiset(numbers);
    }
  }

  /** When every digit has been excluded at the empty cell (r, c), g has no filling. */
  lemma AllDigitsExcluded(g: Grid, r: int, c: int, tried: seq<int>)
    requires IsGrid(g) && InRange(r, c) && g[r][c] == 0 && DigitOrder(tried)
    requires forall j :: 0 <= j < |tried| ==> NoFillingWith(g, r, c, tried[j])
    ensures !HasFilling(g)
  {
    FillingDigitListed(g, r, c, tried);
  }

  /** Every filling puts at the empty cell (r, c) some digit of such an order. */
  lemma FillingDigitListed(g: Grid, r: int, c: int, tried: seq<int>)
    requires IsGrid(g) && InRange(r, c) && g[r][c] == 0 && DigitOrder(tried)
    ensures forall s :: Filling(g, s) ==> exists j :: 0 <= j < |tried| && tried[j] == s[r][c]
  {
    forall s | Filling(g, s) ensures exists j :: 0 <= j < |tried| && tried[j] == s[r][c] {
      assert s[r][c] in tried;
    }
  }

  // ---------------------------------------------------------------------------
  // fillBoard

  /**
   * fillBoard: randomized backtracking over the first empty cell.  On success
   * the board is a filling of the input; on failure it is restored and the input
   * has no filling at all.
   */
  method FillBoard(board: array2<int>) returns (ok: bool)
    requires board.Length0 == 9 && board.Length1 == 9
    modifies board
    ensures ok ==> Filling(old(Rows(board)), Rows(board))
    ensures !ok ==> Rows(board) == old(Rows(board)) && !HasFilling(old(Rows(board)))
    decreases Empties(Rows(board)), 2
  {
    var found, row, col := FindEmpty(board);
    if !found {
      FullFilling(Rows(board));
      return true;
    }
    ok := FillCell(board, row, col);
  }

  /** The body of fillBoard at its first empty cell: try the digits in a random order. */
  method FillCell(board: array2<int>, row: int, col: int) returns (ok: bool)
    requires board.Length0 == 9 && board.Length1 == 9 && InRange(row, col) && board[row, col] == 0
    modifies board
    ensures ok ==> Filling(old(Rows(board)), Rows(board))
    ensures !ok ==> Rows(board) == old(Rows(board)) && !HasFilling(old(Rows(board)))
    decreases Empties(Rows(board)), 1
  {
    ghost var g := Rows(board);
    var numbers := ShuffleDigits();
    for k := 0 to |numbers|
      invariant Rows(board) == g
      invariant forall j :: 0 <= j < k ==> NoFillingWith(g, row, col, numbers[j])
    {
      var num := numbers[k];
      ok := TryDigit(board, row, col, num);
      if ok {
        return;
      }
      assert NoFillingWith(g, row, col, num);
    }
    AllDigitsExcluded(g, row, col, numbers);
    return false;
  }

  /** One digit of fillBoard's loop: place it if legal and recurse, undoing the placement on failure. */
  method TryDigit(board: array2<int>, row: int, col: int, num: int) returns (ok: bool)
    requires board.Length0 == 9 && board.Length1 == 9 && InRange(row, col) && board[row, col] == 0
    requires 1 <= num <= 9
    modifies board
    ensures ok ==> Filling(old(Rows(board)), Rows(board))
    ensures !ok ==> Rows(board) == old(Rows(board)) && NoFillingWith(old(Rows(board)), row, col, num)
    decreases Empties(Rows(board)), 0
  {
    ghost var g := Rows(board);
    var valid := IsValidAt(board, row, col, num);
    if !valid {
      IllegalExcluded(g, row, col, num);
      return false;
    }
    board[row, col] := num;
    RowsAre(board, Set(g, row, col, num));
    EmptiesAfterSet(g, row, col, num);
    ok := FillBoard(board);
    if ok {
      PlaceKeepsFillings(g, row, col, num, Rows(board));
      return;
    }
    FailedPlacementExcluded(g, row, col, num);
    board[row, col] := 0;
    RowsAre(board, g);
  }

  // ---------------------------------------------------------------------------
  // countSolutions

  lemma DistinctConcat(xs: seq<Grid>, ys: seq<Grid>)
    requires Distinct(xs) && Distinct(ys)
    requires forall i, j :: 0 <= i < |xs| && 0 <= j < |ys| ==> xs[i] != ys[j]
    ensures Distinct(xs + ys)
  {
  }

  /** A duplicate-free list of all fillings has length one exactly when the filling is unique. */
  lemma ListedUnique(p: Grid, xs: seq<Grid>)
    requires IsGrid(p) && ListsFillings(p, xs)
    ensures UniqueFilling(p) <==> |xs| == 1
  {
    if |xs| == 1 {
      assert Filling(p, xs[0]);
      forall t | Filling(p, t) ensures t == xs[0] {
        assert t in xs;
      }
    }
    if UniqueFilling(p) {
      var s :| Filling(p, s) && forall t :: Filling(p, t) ==> t == s;
      assert s in xs;
      forall i | 0 <= i < |xs| ensures xs[i] == s {
        assert xs[i] in xs;
      }
      AllEqualDistinct(xs, s);
    }
  }

  /**
   * The state of one countSolutions call: the private copy of the board that
   * its inner `solve` mutates, the cap, and the running count.
   */
  class SolutionCounter {
    const boardCopy: array2<int>
    const limit: int
    var count: int

    constructor(board: array2<int>, limit: int)
      requires board.Length0 == 9 && board.Length1 == 9
      ensures fresh(boardCopy) && boardCopy.Length0 == 9 && boardCopy.Length1 == 9
      ensures Rows(boardCopy) == Rows(board) && this.limit == limit && count == 0
    {
      boardCopy := new int[9, 9]((r, c) reads board => if 0 <= r < 9 && 0 <= c < 9 then board[r, c] else 0);
      this.limit := limit;
      count := 0;
      new;
      RowsAre(boardCopy, Rows(board));
    }

    /**
     * The inner `solve` of countSolutions.  It always leaves the board as it
     * found it.  `found` (ghost) lists the distinct fillings it met.  A full board
     * answers true at once without counting; otherwise a false answer means every
     * filling was met and counted once, and a true answer means the cap was
     * reached (each caller then counts once more on the way out).
     */
    method Solve() returns (done: bool, ghost found: seq<Grid>)
      requires boardCopy.Length0 == 9 && boardCopy.Length1 == 9
      modifies this, boardCopy
      ensures Rows(boardCopy) == old(Rows(boardCopy))
      ensures SomeFillings(old(Rows(boardCopy)), found)
      ensures Full(old(Rows(boardCopy))) ==>
        done && count == old(count) && |found| == 1 && ListsFillings(old(Rows(boardCopy)), found)
      ensures !Full(old(Rows(boardCopy))) && !done ==>
        count == old(count) + |found| && ListsFillings(old(Rows(boardCopy)), found) &&
        (found == [] || count < limit)
      ensures !Full(old(Rows(boardCopy))) && done ==>
        |found| >= 1 && old(count) + |found| >= limit && count >= old(count) + |found|
      decreases Empties(Rows(boardCopy)), 2
    {
      var empty, row, col := FindEmpty(boardCopy);
      if !empty {
        FullFilling(Rows(boardCopy));
        return true, [Rows(boardCopy)];
      }
      done, found := SolveCell(row, col);
    }

    /** solve at its first empty cell (row, col): digits 1..9 in ascending order. */
    method SolveCell(row: int, col: int) returns (done: bool, ghost found: seq<Grid>)
      requires boardCopy.Length0 == 9 && boardCopy.Length1 == 9
      requires InRange(row, col) && boardCopy[row, col] == 0
      modifies this, boardCopy
      ensures Rows(boardCopy) == old(Rows(boardCopy))
      ensures SomeFillings(old(Rows(boardCopy)), found)
      ensures !done ==>
        count == old(count) + |found| && ListsFillings(old(Rows(boardCopy)), found) &&
        (found == [] || count < limit)
      ensures done ==> |found| >= 1 && old(count) + |found| >= limit && count >= old(count) + |found|
      decreases Empties(Rows(boardCopy)), 1
    {
      ghost var g := Rows(boardCopy);
      found := [];
      for num := 1 to 10
        invariant Rows(boardCopy) == g
        invariant count == old(count) + |found| && (found == [] || count < limit)
        invariant SomeFillings(g, found) && ValuesBelow(found, row, col, num)
        invariant forall s :: Filling(g, s) && s[row][col] < num ==> s in found
      {
        var stop;
        ghost var more;
        stop, more := TryCount(row, col, num);
        DistinctConcat(found, more);
        found := found + more;
        if stop {
          return true, found;
        }
      }
      return false, found;
    }

    /**
     * One digit of solve's loop: place num if legal, recurse, count a success,
     * stop once the cap is reached, and undo the placement.  `more` lists the
     * fillings met, all with num at (row, col).
     */
    method TryCount(row: int, col: int, num: int) returns (stop: bool, ghost more: seq<Grid>)
      requires boardCopy.Length0 == 9 && boardCopy.Length1 == 9
      requires InRange(row, col) && boardCopy[row, col] == 0 && 1 <= num <= 9
      modifies this, boardCopy
      ensures Rows(boardCopy) == old(Rows(boardCopy))
      ensures SomeFillings(old(Rows(boardCopy)), more) && ValuesAre(more, row, col, num)
      ensures !stop ==>
        count == old(count) + |more| && (more == [] || count < limit) &&
        forall s :: Filling(old(Rows(boardCopy)), s) && s[row][col] == num ==> s in more
      ensures stop ==> |more| >= 1 && old(count) + |more| >= limit && count >= old(count) + |more|
      decreases Empties(Rows(boardCopy)), 0
    {
      ghost var g := Rows(boardCopy);
      var valid := IsValidAt(boardCopy, row, col, num);
      if !valid {
        IllegalExcluded(g, row, col, num);
        return false, [];
      }
      boardCopy[row, col] := num;
      ghost var h := Set(g, row, col, num);
      RowsAre(boardCopy, h);
      EmptiesAfterSet(g, row, col, num);
      var sub;
      sub, more := Solve();
      PlacedFillings(g, row, col, num, more);
      stop := false;
      if sub {
        count := count + 1;
        if count >= limit {
          stop := true;
        }
      }
      boardCopy[row, col] := 0;
      RowsAre(boardCopy, g);
    }
  }

  /** Every grid listed holds v at (row, col). */
  ghost predicate ValuesAre(xs: seq<Grid>, row: int, col: int, v: int)
    requires InRange(row, col)
  {
    forall i :: 0 <= i < |xs| ==> IsGrid(xs[i]) && xs[i][row][col] == v
  }

  /** Every grid listed holds a value below v at (row, col). */
  ghost predicate ValuesBelow(xs: seq<Grid>, row: int, col: int, v: int)
    requires InRange(row, col)
  {
    forall i :: 0 <= i < |xs| ==> IsGrid(xs[i]) && xs[i][row][col] < v
  }

  /** Fillings of the board with num placed at (r, c) are fillings of the board itself. */
  lemma PlacedFillings(g: Grid, r: int, c: int, v: int, xs: seq<Grid>)
    requires IsGrid(g) && InRange(r, c) && g[r][c] == 0 && 1 <= v <= 9 && IsValid(g, r, c, v)
    requires SomeFillings(Set(g, r, c, v), xs)
    ensures SomeFillings(g, xs) && ValuesAre(xs, r, c, v)
    ensures forall s :: Filling(Set(g, r, c, v), s) <==> Filling(g, s) && s[r][c] == v
  {
    forall s ensures Filling(Set(g, r, c, v), s) <==> Filling(g, s) && s[r][c] == v {
      PlaceKeepsFillings(g, r, c, v, s);
    }
    assert forall i :: 0 <= i < |xs| ==> xs[i] in xs;
  }

  /**
   * countSolutions: the number of fillings, counted until the cap is reached.
   * Below the cap the count is exact; at or past the cap there are at least
   * `limit` fillings.  A board with no empty cell yields 0, because the inner
   * solve answers at once without counting anything.
   */
  method CountSolutions(board: array2<int>, limit: int := 2) returns (count: int)
    requires board.Length0 == 9 && board.Length1 == 9
    ensures Full(Rows(board)) ==> count == 0
    ensures !Full(Rows(board)) ==> (count == 0 <==> !HasFilling(Rows(board)))
    ensures !Full(Rows(board)) && count < limit ==> ExactlyFillings(Rows(board), count)
    ensures !Full(Rows(board)) && count >= limit ==> AtLeastFillings(Rows(board), limit)
    ensures !Full(Rows(board)) && limit >= 2 ==> (count == 1 <==> UniqueFilling(Rows(board)))
  {
    var counter := new SolutionCounter(board, limit);
    var done;
    ghost var found;
    done, found := counter.Solve();
    count := counter.count;
    if !Full(Rows(board)) {
      CountMeaning(Rows(board), found, done, count, limit);
    }
  }

  /** What the outcome of the top-level solve says about the fillings of a board that is not full. */
  lemma CountMeaning(g: Grid, found: seq<Grid>, done: bool, count: int, limit: int)
    requires IsGrid(g) && !Full(g) && SomeFillings(g, found)
    requires !done ==> count == |found| && ListsFillings(g, found) && (found == [] || count < limit)
    requires done ==> |found| >= 1 && |found| >= limit && count >= |found|
    ensures count == 0 <==> !HasFilling(g)
    ensures count < limit ==> ExactlyFillings(g, count)
    ensures count >= limit ==> AtLeastFillings(g, limit)
    ensures limit >= 2 ==> (count == 1 <==> UniqueFilling(g))
  {
    if !done {
      ListedUnique(g, found);
      if found != [] {
        assert found[0] in found;
      }
    } else {
      assert found[0] in found;
      if UniqueFilling(g) {
        var s :| Filling(g, s) && forall t :: Filling(g, t) ==> t == s;
        forall i | 0 <= i < |found| ensures found[i] == s {
          assert found[i] in found;
        }
        AllEqualDistinct(found, s);
      }
    }
  }

  /** A duplicate-free list whose entries all equal s has at most one entry. */
  lemma AllEqualDistinct(xs: seq<Grid>, s: Grid)
    requires Distinct(xs) && forall i :: 0 <= i < |xs| ==> xs[i] == s
    ensures |xs| <= 1
  {
    if |xs| >= 2 {
      FirstTwoDiffer(xs);
      assert false;
    }
  }

  lemma FirstTwoDiffer(xs: seq<Grid>)
    requires Distinct(xs) && |xs| >= 2
    ensures xs[0] != xs[1]
  {
  }

  // ---------------------------------------------------------------------------
  // removeClues

  /** A list without repeats drawn from S is no longer than S. */
  lemma {:induction false} DistinctWithin(xs: seq<int>, S: set<int>)
    requires forall i, j :: 0 <= i < j < |xs| ==> xs[i] != xs[j]
    requires forall i :: 0 <= i < |xs| ==> xs[i] in S
    ensures |xs| <= |S|
  {
    if |xs| > 0 {
      forall i | 0 <= i < |xs| - 1 ensures xs[1..][i] in S - {xs[0]} {
        assert xs[1..][i] == xs[i + 1];
      }
      DistinctWithin(xs[1..], S - {xs[0]});
    }
  }

  /** Each row of a solved grid holds every digit. */
  lemma RowHoldsDigit(g: Grid, r: int, d: int)
    requires Solved(g) && 0 <= r < 9 && 1 <= d <= 9
    ensures exists k :: 0 <= k < 9 && g[r][k] == d
  {
    var S := {1, 2, 3, 4, 5, 6, 7, 8, 9};
    if forall k :: 0 <= k < 9 ==> g[r][k] != d {
      forall i, j | 0 <= i < j < |g[r]| ensures g[r][i] != g[r][j] {
        assert NoConflictAt(g, r, i) && Peer(r, i, r, j);
      }
      DistinctWithin(g[r], S - {d});
      assert false;
    }
  }

  /** Emptying one cell of a solved grid leaves a puzzle that only the grid itself fills. */
  lemma SingleHoleUnique(g: Grid, r: int, c: int)
    requires Solved(g) && InRange(r, c)
    ensures Filling(Set(g, r, c, 0), g)
    ensures forall s :: Filling(Set(g, r, c, 0), s) ==> s == g
    ensures UniqueFilling(Set(g, r, c, 0))
  {
    var h := Set(g, r, c, 0);
    forall s | Filling(h, s) ensures s == g {
      var d := s[r][c];
      RowHoldsDigit(g, r, d);
      var k :| 0 <= k < 9 && g[r][k] == d;
      if k != c {
        assert Peer(r, c, r, k) && NoConflictAt(s, r, c);
      }
      GridExt(s, g);
    }
  }

  /**
   * The shuffled position list of removeClues: a permutation of the cell
   * indices 0..80, so every cell is visited exactly once.
   */
  method ShufflePositions() returns (positions: seq<int>)
    ensures multiset(positions) == multiset(seq(81, i => i))
    ensures forall k :: 0 <= k < |positions| ==> 0 <= positions[k] < 81
    ensures forall p :: 0 <= p < 81 ==> p in positions
    ensures |positions| == 81
  {
    var all := seq(81, i => i);
    positions := Shuffle(all);
    assert |multiset(positions)| == |multiset(all)|;
    forall k | 0 <= k < |positions| ensures 0 <= positions[k] < 81 {
      assert positions[k] in multiset(all);
    }
    forall p | 0 <= p < 81 ensures p in positions {
      assert all[p] == p;
      assert p in multiset(positions);
    }
  }

  /**
   * removeClues: visit the 81 positions in random order and empty each clue
   * whose removal keeps exactly one solution, until the running clue count,
   * which starts at 81, reaches the target.  The result only removes clues;
   * if anything was removed its filling is unique; at most 81 - targetClues
   * clues go; and a solved board is the one filling of the result.
   */
  method RemoveClues(board: array2<int>, targetClues: int) returns (puzzle: array2<int>)
    requires board.Length0 == 9 && board.Length1 == 9
    ensures fresh(puzzle) && puzzle.Length0 == 9 && puzzle.Length1 == 9
    ensures Reduces(Rows(board), Rows(puzzle))
    ensures Rows(puzzle) == Rows(board) || (!Full(Rows(puzzle)) && UniqueFilling(Rows(puzzle)))
    ensures |Clues(Rows(board))| - |Clues(Rows(puzzle))| <= if targetClues >= 81 then 0 else 81 - targetClues
    ensures Full(Rows(board)) ==> |Clues(Rows(puzzle))| >= if targetClues >= 81 then 81 else targetClues
    ensures Solved(Rows(board)) ==> forall s :: Filling(Rows(puzzle), s) <==> s == Rows(board)
    ensures Solved(Rows(board)) && targetClues < 81 ==> !Full(Rows(puzzle))
  {
    ghost var b := Rows(board);
    puzzle := CopyBoard(board);
    var positions := ShufflePositions();
    var currentClues := 81;
    for k := 0 to |positions|
      invariant Rows(board) == b
      invariant Reduces(b, Rows(puzzle))
      invariant Rows(puzzle) == b || (!Full(Rows(puzzle)) && UniqueFilling(Rows(puzzle)))
      invariant |Clues(Rows(puzzle))| + (81 - currentClues) == |Clues(b)|
      invariant currentClues <= 81 && (currentClues == 81 || currentClues >= targetClues)
      invariant k == 0 ==> Rows(puzzle) == b
      invariant Solved(b) && targetClues < 81 && k > 0 ==> !Full(Rows(puzzle))
    {
      if currentClues <= targetClues {
        break;
      }
      var pos := positions[k];
      var row, col := pos / 9, pos % 9;
      ghost var before := Rows(puzzle);
      if k == 0 && Solved(b) {
        SingleHoleUnique(b, row, col);
      }
      var removed := TryRemoveClue(puzzle, row, col);
      if removed {
        CluesAfterClear(before, row, col);
        currentClues := currentClues - 1;
      }
    }
    if Full(b) {
      FullHas81Clues(b);
    }
    if Solved(b) {
      if Rows(puzzle) == b {
        FullFilling(b);
      } else {
        SolvedFillsReduction(b, Rows(puzzle));
      }
    }
  }

  /**
   * The body of removeClues' loop for one position: skip an empty cell, else
   * empty it and keep the change only when exactly one solution remains.
   */
  method TryRemoveClue(puzzle: array2<int>, row: int, col: int) returns (removed: bool)
    requires puzzle.Length0 == 9 && puzzle.Length1 == 9 && InRange(row, col)
    modifies puzzle
    ensures removed <==> old(puzzle[row, col]) != 0 && UniqueFilling(Set(old(Rows(puzzle)), row, col, 0))
    ensures removed ==> Rows(puzzle) == Set(old(Rows(puzzle)), row, col, 0)
    ensures !removed ==> Rows(puzzle) == old(Rows(puzzle))
  {
    ghost var before := Rows(puzzle);
    var backup := puzzle[row, col];
    if backup == 0 {
      return false;
    }
    puzzle[row, col] := 0;
    ghost var after := Set(before, row, col, 0);
    RowsAre(puzzle, after);
    var count := CountSolutions(puzzle, 2);
    assert !Full(after) by {
      assert after[row][col] == 0;
    }
    if count != 1 {
      puzzle[row, col] := backup;
      RowsAre(puzzle, before);
      return false;
    }
    return true;
  }

  // ---------------------------------------------------------------------------
  // solve

  /** s and t agree on the first n cells in row-major order. */
  ghost predicate EqualBelow(s: Grid, t: Grid, n: int)
    requires IsGrid(s) && IsGrid(t) && n <= 81
  {
    forall q :: 0 <= q < n ==> Cell(s, q) == Cell(t, q)
  }

  /** s comes strictly before t in row-major lexicographic order. */
  ghost predicate LexLess(s: Grid, t: Grid)
    requires IsGrid(s) && IsGrid(t)
  {
    exists p :: 0 <= p < 81 && Cell(s, p) < Cell(t, p) && EqualBelow(s, t, p)
  }

  /** s is the filling of p that comes first in row-major lexicographic order. */
  ghost predicate FirstFilling(p: Grid, s: Grid)
    requires IsGrid(p)
  {
    Filling(p, s) && forall t :: Filling(p, t) ==> !LexLess(t, s)
  }

  lemma {:induction false} FirstDifferenceFrom(s: Grid, t: Grid, n: int)
    requires IsGrid(s) && IsGrid(t) && 0 <= n <= 81 && EqualBelow(s, t, n)
    requires exists q :: n <= q < 81 && Cell(s, q) != Cell(t, q)
    ensures exists p :: 0 <= p < 81 && Cell(s, p) != Cell(t, p) && EqualBelow(s, t, p)
    decreases 81 - n
  {
    if Cell(s, n) == Cell(t, n) {
      assert EqualBelow(s, t, n + 1);
      FirstDifferenceFrom(s, t, n + 1);
    }
  }

  /** Row-major lexicographic order is total on distinct grids. */
  lemma LexTotal(s: Grid, t: Grid)
    requires IsGrid(s) && IsGrid(t) && s != t
    ensures LexLess(s, t) || LexLess(t, s)
  {
    if forall q :: 0 <= q < 81 ==> Cell(s, q) == Cell(t, q) {
      forall r, c | InRange(r, c) ensures s[r][c] == t[r][c] {
        CellOf(s, r, c);
        CellOf(t, r, c);
      }
      GridExt(s, t);
      assert false;
    }
    FirstDifferenceFrom(s, t, 0);
    var p :| 0 <= p < 81 && Cell(s, p) != Cell(t, p) && EqualBelow(s, t, p);
    assert EqualBelow(t, s, p);
  }

  /** A board has at most one first filling, so the solver's answer is determined by the puzzle. */
  lemma FirstFillingUnique(p: Grid, s: Grid, t: Grid)
    requires IsGrid(p) && FirstFilling(p, s) && FirstFilling(p, t)
    ensures s == t
  {
    if s != t {
      LexTotal(s, t);
      assert false;
    }
  }

  /** With a unique filling, the first filling is that filling. */
  lemma UniqueIsFirst(p: Grid, s: Grid)
    requires IsGrid(p) && Filling(p, s) && forall t :: Filling(p, t) ==> t == s
    ensures FirstFilling(p, s)
  {
    forall t | Filling(p, t) ensures !LexLess(t, s) {
      assert t == s;
    }
  }

  /**
   * Two fillings of g that agree on every given before the first empty cell
   * (row, col): the one with the larger digit there does not come first.
   */
  lemma LargerDigitLater(g: Grid, row: int, col: int, s: Grid, t: Grid)
    requires IsGrid(g) && InRange(row, col)
    requires forall r, c :: InRange(r, c) && Before(r, c, row, col) ==> g[r][c] != 0
    requires Filling(g, s) && Filling(g, t) && t[row][col] > s[row][col]
    ensures !LexLess(t, s)
  {
    CellOf(s, row, col);
    CellOf(t, row, col);
    var pos := row * 9 + col;
    forall q | 0 <= q < pos ensures Cell(t, q) == Cell(s, q) {
      var r, c := q / 9, q % 9;
      assert InRange(r, c) && Before(r, c, row, col);
    }
    assert EqualBelow(t, s, pos);
    forall q | pos < q <= 81 ensures !EqualBelow(t, s, q) {
      assert 0 <= pos < q;
    }
  }

  /**
   * solveBacktrack: depth-first search with digits in ascending order.  On
   * success the board holds the first filling of the input in row-major
   * lexicographic order; on failure it is restored and there is no filling.
   */
  method SolveBacktrack(board: array2<int>) returns (ok: bool)
    requires board.Length0 == 9 && board.Length1 == 9
    modifies board
    ensures ok ==> FirstFilling(old(Rows(board)), Rows(board))
    ensures !ok ==> Rows(board) == old(Rows(board)) && !HasFilling(old(Rows(board)))
    decreases Empties(Rows(board)), 2
  {
    var found, row, col := FindEmpty(board);
    if !found {
      FullFilling(Rows(board));
      return true;
    }
    ok := SolveAt(board, row, col);
  }

  /** solveBacktrack at its first empty cell (row, col). */
  method SolveAt(board: array2<int>, row: int, col: int) returns (ok: bool)
    requires board.Length0 == 9 && board.Length1 == 9 && InRange(row, col) && board[row, col] == 0
    requires forall r, c :: InRange(r, c) && Before(r, c, row, col) ==> board[r, c] != 0
    modifies board
    ensures ok ==> FirstFilling(old(Rows(board)), Rows(board))
    ensures !ok ==> Rows(board) == old(Rows(board)) && !HasFilling(old(Rows(board)))
    decreases Empties(Rows(board)), 1
  {
    ghost var g := Rows(board);
    for num := 1 to 10
      invariant Rows(board) == g
      invariant forall v :: 1 <= v < num ==> NoFillingWith(g, row, col, v)
    {
      ok := PlaceAndSolve(board, row, col, num);
      if ok {
        forall t | Filling(g, t) && t[row][col] < num ensures NoFillingWith(g, row, col, t[row][col]) {
        }
        forall t | Filling(g, t) ensures !LexLess(t, Rows(board)) {
          if t[row][col] > num {
            LargerDigitLater(g, row, col, Rows(board), t);
          }
        }
        return;
      }
    }
    forall s | Filling(g, s) ensures NoFillingWith(g, row, col, s[row][col]) {
    }
    return false;
  }

  /** One digit of solveBacktrack's loop: place it if legal, recurse, undo on failure. */
  method PlaceAndSolve(board: array2<int>, row: int, col: int, num: int) returns (ok: bool)
    requires board.Length0 == 9 && board.Length1 == 9 && InRange(row, col) && board[row, col] == 0
    requires 1 <= num <= 9
    modifies board
    ensures ok ==> Filling(old(Rows(board)), Rows(board)) && board[row, col] == num
    ensures ok ==> forall t :: Filling(old(Rows(board)), t) && t[row][col] == num ==> !LexLess(t, Rows(board))
    ensures !ok ==> Rows(board) == old(Rows(board)) && NoFillingWith(old(Rows(board)), row, col, num)
    decreases Empties(Rows(board)), 0
  {
    ghost var g := Rows(board);
    var valid := IsValidAt(board, row, col, num);
    if !valid {
      IllegalExcluded(g, row, col, num);
      return false;
    }
    board[row, col] := num;
    ghost var h := Set(g, row, col, num);
    RowsAre(board, h);
    EmptiesAfterSet(g, row, col, num);
    ok := SolveBacktrack(board);
    if ok {
      forall t ensures Filling(h, t) <==> Filling(g, t) && t[row][col] == num {
        PlaceKeepsFillings(g, row, col, num, t);
      }
      return;
    }
    FailedPlacementExcluded(g, row, col, num);
    board[row, col] := 0;
    RowsAre(board, g);
  }

  /**
   * solve: a copy of the puzzle completed by solveBacktrack, or null when the
   * puzzle has no filling.  The answer is the first filling in row-major order.
   */
  method Solve(puzzle: array2<int>) returns (solution: array2?<int>)
    requires puzzle.Length0 == 9 && puzzle.Length1 == 9
    ensures solution == null <==> !HasFilling(Rows(puzzle))
    ensures solution != null ==>
      solution.Length0 == 9 && solution.Length1 == 9 && FirstFilling(Rows(puzzle), Rows(solution))
  {
    var board := CopyBoard(puzzle);
    var ok := SolveBacktrack(board);
    if ok {
      solution := board;
    } else {
      solution := null;
    }
  }

  // ---------------------------------------------------------------------------
  // generate

  /** A solved grid, one of the fillings of the empty board. */
  function WitnessGrid(): (w: Grid)
    ensures IsGrid(w)
  {
    seq(9, r => seq(9, c => (3 * (r % 3) + r / 3 + c) % 9 + 1))
  }

  /** Adding the same offset keeps distinct residues 0..8 distinct modulo 9. */
  lemma ShiftDistinct(a: int, b: int, k: int)
    requires 0 <= a < 9 && 0 <= b < 9 && a != b && k >= 0
    ensures (a + k) % 9 != (b + k) % 9
  {
    var q := k / 9;
    assert k == 9 * q + k % 9;
    assert (a + k) % 9 == (a + k % 9) % 9 && (b + k) % 9 == (b + k % 9) % 9;
  }

  /** Peers of the witness grid hold different values. */
  lemma WitnessPeers(r: int, c: int, r2: int, c2: int)
    requires InRange(r, c) && InRange(r2, c2) && Peer(r, c, r2, c2)
    ensures WitnessGrid()[r][c] != WitnessGrid()[r2][c2]
  {
    var f, f2 := 3 * (r % 3) + r / 3, 3 * (r2 % 3) + r2 / 3;
    assert WitnessGrid()[r][c] == (f + c) % 9 + 1;
    assert WitnessGrid()[r2][c2] == (f2 + c2) % 9 + 1;
    if r == r2 {
      ShiftDistinct(c, c2, f);
      assert f + c == c + f;
    } else if c == c2 {
      RowOffsetDistinct(r, r2);
      ShiftDistinct(f, f2, c);
    } else {
      WitnessBoxPeers(r, c, r2, c2);
    }
  }

  /** Different rows of the witness grid start at different offsets 0..8. */
  lemma RowOffsetDistinct(r: int, r2: int)
    requires 0 <= r < 9 && 0 <= r2 < 9 && r != r2
    ensures 0 <= 3 * (r % 3) + r / 3 < 9 && 0 <= 3 * (r2 % 3) + r2 / 3 < 9
    ensures 3 * (r % 3) + r / 3 != 3 * (r2 % 3) + r2 / 3
  {
    assert r == 3 * (r / 3) + r % 3 && r2 == 3 * (r2 / 3) + r2 % 3;
    assert 0 <= r / 3 < 3 && 0 <= r2 / 3 < 3;
  }

  /** Two different cells of one box get different values in the witness grid. */
  lemma WitnessBoxPeers(r: int, c: int, r2: int, c2: int)
    requires InRange(r, c) && InRange(r2, c2) && r != r2 && r / 3 == r2 / 3 && c / 3 == c2 / 3
    ensures (3 * (r % 3) + r / 3 + c) % 9 != (3 * (r2 % 3) + r2 / 3 + c2) % 9
  {
    var k := r / 3 + 3 * (c / 3);
    var a, b := 3 * (r % 3) + c % 3, 3 * (r2 % 3) + c2 % 3;
    assert r == 3 * (r / 3) + r % 3 && r2 == 3 * (r2 / 3) + r2 % 3;
    assert c == 3 * (c / 3) + c % 3 && c2 == 3 * (c2 / 3) + c2 % 3;
    assert r % 3 != r2 % 3;
    assert 0 <= a < 9 && 0 <= b < 9 && a != b;
    assert 3 * (r % 3) + r / 3 + c == a + k && 3 * (r2 % 3) + r2 / 3 + c2 == b + k;
    ShiftDistinct(a, b, k);
  }

  lemma WitnessSolved()
    ensures Solved(WitnessGrid())
  {
    var w := WitnessGrid();
    forall r, c, r2, c2 | InRange(r, c) && InRange(r2, c2) && Peer(r, c, r2, c2)
      ensures w[r2][c2] != w[r][c]
    {
      WitnessPeers(r, c, r2, c2);
    }
  }

  /** The fillings of the empty board are the solved grids, and there is one. */
  lemma EmptyBoardFillings()
    ensures forall s :: Filling(EmptyGrid(), s) <==> Solved(s)
    ensures HasFilling(EmptyGrid())
  {
    WitnessSolved();
    assert Filling(EmptyGrid(), WitnessGrid());
  }

  /** A puzzle obtained by removing clues from a solved grid is a conflict-free board of digits. */
  lemma ReductionOfSolved(g: Grid, p: Grid)
    requires Solved(g) && IsGrid(p) && Reduces(g, p)
    ensures DigitsOnly(p) && ConflictFree(p)
  {
    forall r, c | InRange(r, c) && p[r][c] != 0 ensures NoConflictAt(p, r, c) {
      assert NoConflictAt(g, r, c);
    }
  }

  /**
   * What `clueTargets[difficulty] || clueTargets.intermediate` yields: one of
   * the clue bands of generate, or a member an object literal inherits from
   * Object.prototype, which has neither a min nor a max.
   */
  datatype Target = ClueBand(min: int, max: int) | Inherited

  /** The property names every object literal inherits from Object.prototype. */
  const InheritedNames: set<string> := {
    "constructor", "hasOwnProperty", "isPrototypeOf", "propertyIsEnumerable", "toLocaleString", "toString",
    "valueOf", "__defineGetter__", "__defineSetter__", "__lookupGetter__", "__lookupSetter__", "__proto__"}

  /**
   * The target for a difficulty name: the band of one of the three levels;
   * the inherited member for an Object.prototype name, which is truthy, so
   * the fallback is not taken; and the intermediate band for any other name.
   */
  function ClueTarget(difficulty: string): (target: Target)
    ensures target.Inherited? <==> difficulty in InheritedNames
    ensures target.ClueBand? ==> 24 <= target.min <= target.max <= 42
  {
    if difficulty == "intermediate" then ClueBand(36, 42)
    else if difficulty == "hard" then ClueBand(30, 35)
    else if difficulty == "expert" then ClueBand(24, 29)
    else if difficulty in InheritedNames then Inherited
    else ClueBand(36, 42)
  }

  /** A name that is neither a level nor inherited from Object.prototype gets the intermediate band. */
  lemma UnknownDifficultyFallsBack(difficulty: string)
    requires difficulty != "intermediate" && difficulty != "hard" && difficulty != "expert"
    requires difficulty !in InheritedNames
    ensures ClueTarget(difficulty) == ClueTarget("intermediate")
  {
  }

  /**
   * The target number of clues generate hands to removeClues.  For a band it
   * is `Math.floor(Math.random() * (max - min + 1)) + min`, with the random
   * draw a parameter in [0, 1) written as fraction / denominator.  For an
   * inherited member the arithmetic on its missing min and max gives NaN, and
   * since `currentClues <= NaN` never holds, -1 stands for it: no clue count
   * is ever at or below it either.
   */
  function TargetClues(target: Target, fraction: nat, denominator: nat): (n: int)
    requires fraction < denominator
    ensures target.ClueBand? && target.min <= target.max ==> target.min <= n <= target.max
    ensures target.Inherited? ==> n < 0
  {
    match target
    case ClueBand(min, max) =>
      FloorScaled(fraction, denominator, max - min + 1);
      (fraction * (max - min + 1)) / denominator + min
    case Inherited => -1
  }

  /** `Math.floor(x * k)` for x = fraction / denominator in [0, 1) lies in 0..k-1 when k is positive. */
  lemma FloorScaled(fraction: nat, denominator: nat, k: int)
    requires fraction < denominator
    ensures 0 < k ==> 0 <= (fraction * k) / denominator < k
  {
    if 0 < k {
      assert fraction * k < denominator * k;
    }
  }

  /** What generate returns: copies of the puzzle and its solution. */
  datatype Generated = Generated(puzzle: Grid, solution: Grid, difficulty: string, clueCount: int)

  /** The non-empty cells among the first n grow by one cell at a time. */
  lemma CluesBelowStep(g: Grid, n: int)
    requires IsGrid(g) && 0 <= n < 81
    ensures CluesBelow(g, n + 1) == CluesBelow(g, n) + (if Cell(g, n) != 0 then {n} else {})
    ensures |CluesBelow(g, n + 1)| == |CluesBelow(g, n)| + (if Cell(g, n) != 0 then 1 else 0)
  {
    assert CluesBelow(g, n + 1) == CluesBelow(g, n) + (if Cell(g, n) != 0 then {n} else {});
    assert n !in CluesBelow(g, n);
  }

  /** A board with an empty cell has fewer than 81 clues. */
  lemma NotFullFewerClues(p: Grid, s: Grid)
    requires IsGrid(p) && IsGrid(s) && !Full(p) && Full(s)
    ensures |Clues(p)| < 81
  {
    var r, c :| InRange(r, c) && p[r][c] == 0;
    CellOf(p, r, c);
    CellOf(s, r, c);
    assert r * 9 + c !in Clues(p) && r * 9 + c in Clues(s);
    FullHas81Clues(s);
    var rest := Clues(s) - {r * 9 + c};
    assert Clues(p) <= rest;
    assert rest == Clues(p) + (rest - Clues(p));
  }

  /** `puzzle.flat().filter(v => v !== 0).length`: the number of clues. */
  method CountClues(board: array2<int>) returns (n: int)
    requires board.Length0 == 9 && board.Length1 == 9
    ensures n == |Clues(Rows(board))|
  {
    ghost var g := Rows(board);
    n := 0;
    for p := 0 to 81
      invariant n == |CluesBelow(g, p)|
    {
      CluesBelowStep(g, p);
      if board[p / 9, p % 9] != 0 {
        n := n + 1;
      }
    }
    assert Clues(g) == CluesBelow(g, 81);
  }

  /**
   * generate: fill an empty board at random, then remove clues towards a
   * target drawn from the difficulty's band.  The solution is solved, the
   * puzzle only removes clues from it, is not full, and has the solution as its
   * one and only completion; it keeps at least the band's minimum of clues
   * whenever the difficulty has a band.
   */
  method Generate(difficulty: string := "intermediate") returns (result: Generated)
    ensures Solved(result.solution) && IsGrid(result.puzzle)
    ensures Reduces(result.solution, result.puzzle) && !Full(result.puzzle)
    ensures forall s :: Filling(result.puzzle, s) <==> s == result.solution
    ensures forall s :: Completion(result.puzzle, s) <==> s == result.solution
    ensures result.clueCount == |Clues(result.puzzle)|
    ensures ClueTarget(difficulty).ClueBand? ==> ClueTarget(difficulty).min <= result.clueCount
    ensures result.clueCount < 81
    ensures result.difficulty == difficulty
  {
    var target := ClueTarget(difficulty);
    var fraction: nat, denominator: nat :| fraction < denominator;
    var targetClues := TargetClues(target, fraction, denominator);
    var solution := new int[9, 9]((r, c) => 0);
    RowsAre(solution, EmptyGrid());
    EmptyBoardFillings();
    var filled := FillBoard(solution);
    ghost var s := Rows(solution);
    var puzzle := RemoveClues(solution, targetClues);
    var clueCount := CountClues(puzzle);
    ghost var p := Rows(puzzle);
    FullFilling(s);
    ReductionOfSolved(s, p);
    forall t ensures Filling(p, t) <==> Completion(p, t) {
      FillingIsCompletion(p, t);
    }
    NotFullFewerClues(p, s);
    result := Generated(Rows(puzzle), Rows(solution), difficulty, clueCount);
  }
}

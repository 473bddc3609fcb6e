/**
 * The player's game state of app.js (class SudokuGame): the board being
 * played, pencil marks, an undo history of at most 100 snapshots, mistakes,
 * completion, the selected cell, and the position in the puzzle library.
 * Each operation is a method on the class Game that updates its fields in
 * place; its contract ties the new state to a function of the old state
 * (Saved, Placed, Toggled, Undone, ...), and the lemmas at the end state
 * what those functions promise across several calls.
 */
module SudokuGame {
  import opened SudokuGrid
  import opened SudokuGenerator
  import opened Wrappers

  /** Pencil marks, one set of digits per cell. */
  type Marks = seq<seq<set<int>>>

  predicate IsMarks(m: Marks) {
    |m| == 9 && forall r :: 0 <= r < 9 ==> |m[r]| == 9
  }

  /** Every cell without marks. */
  function NoMarks(): (m: Marks)
    ensures IsMarks(m)
    ensures forall r, c :: InRange(r, c) ==> m[r][c] == {}
  {
    seq(9, _ => seq(9, _ => {}))
  }

  /** The marks with those of (r, c) replaced by ms. */
  function SetMarks(m: Marks, r: int, c: int, ms: set<int>): (m': Marks)
    requires IsMarks(m) && InRange(r, c)
    ensures IsMarks(m')
    ensures forall i, j :: InRange(i, j) ==> m'[i][j] == if i == r && j == c then ms else m[i][j]
  {
    m[r := m[r][c := ms]]
  }

  lemma MarksExt(x: Marks, y: Marks)
    requires IsMarks(x) && IsMarks(y)
    requires forall r, c :: InRange(r, c) ==> x[r][c] == y[r][c]
    ensures x == y
  {
    forall r | 0 <= r < 9 ensures x[r] == y[r] {
      assert forall c :: 0 <= c < 9 ==> x[r][c] == y[r][c];
    }
  }

  /** The marks with num removed from every cell sharing a row, column or box with (row, col), the cell included. */
  ghost function MarksWithout(m: Marks, row: int, col: int, num: int): (m': Marks)
    requires IsMarks(m) && InRange(row, col)
    ensures IsMarks(m')
  {
    seq(9, r requires 0 <= r < 9 =>
      seq(9, c requires 0 <= c < 9 => if SameUnit(row, col, r, c) then m[r][c] - {num} else m[r][c]))
  }

  /** num added to the marks when absent, removed when present. */
  function Flip(ms: set<int>, num: int): (r: set<int>)
    ensures num in r <==> num !in ms
    ensures forall x :: x != num ==> (x in r <==> x in ms)
  {
    if num in ms then ms - {num} else ms + {num}
  }

  /** One undo entry: deep copies of the board and the marks. */
  datatype Snapshot = Snapshot(board: Grid, marks: Marks)

  /** A library entry: the puzzle and its solution. */
  datatype Entry = Entry(puzzle: Grid, solution: Grid)

  /** The library has puzzles for every difficulty, all of them 9×9. */
  ghost predicate LibraryOk(library: map<Difficulty, seq<Entry>>) {
    (forall d: Difficulty :: d in library && |library[d]| > 0) &&
    (forall d, i :: d in library && 0 <= i < |library[d]| ==> IsGrid(library[d][i].puzzle) && IsGrid(library[d][i].solution))
  }

  /** Every field of SudokuGame that its state logic reads or writes. */
  datatype GameState = GameState(
    currentPuzzle: Grid,
    currentSolution: Grid,
    board: Grid,
    initialBoard: Grid,
    pencilMarks: Marks,
    selectedCell: Option<int>,
    pencilMode: bool,
    history: seq<Snapshot>,
    historyIndex: int,
    mistakes: int,
    isComplete: bool,
    difficulty: Difficulty,
    puzzleIndex: int,
    progress: map<Difficulty, seq<int>>)

  /**
   * The shapes the game keeps: 9×9 grids and marks, a selected cell on the
   * board, a history of at most 100 well-formed snapshots with the index at
   * -1 or on an entry, and progress lists without repeats.
   */
  ghost predicate ValidState(s: GameState) {
    IsGrid(s.currentPuzzle) && IsGrid(s.currentSolution) && IsGrid(s.board) && IsGrid(s.initialBoard) &&
    IsMarks(s.pencilMarks) &&
    (s.selectedCell.Some? ==> 0 <= s.selectedCell.value < 81) &&
    -1 <= s.historyIndex < |s.history| <= 100 &&
    (forall i :: 0 <= i < |s.history| ==> IsGrid(s.history[i].board) && IsMarks(s.history[i].marks)) &&
    (forall d :: d in s.progress ==> Distinct(s.progress[d]))
  }

  // ---------------------------------------------------------------------------
  // The transitions, as functions of the state

  /**
   * The history after saveState: entries past the index are dropped, the
   * snapshot is appended, and the oldest entry goes when there are more
   * than 100.
   */
  function SavedHistory(history: seq<Snapshot>, index: int, snap: Snapshot): (r: seq<Snapshot>)
    requires -1 <= index < |history| <= 100
    ensures |r| == if index + 2 > 100 then 100 else index + 2
    ensures r[|r| - 1] == snap
    ensures forall k :: 0 <= k < |r| - 1 ==> r[k] == history[index + 2 - |r| + k]
  {
    var kept := history[..index + 1] + [snap];
    if |kept| > 100 then kept[1..] else kept
  }

  ghost function Saved(s: GameState): (t: GameState)
    requires ValidState(s)
    ensures ValidState(t)
  {
    var h := SavedHistory(s.history, s.historyIndex, Snapshot(s.board, s.pencilMarks));
    s.(history := h, historyIndex := |h| - 1)
  }

  /** The progress record with index added to the list of difficulty d, unless already there. */
  function Recorded(progress: map<Difficulty, seq<int>>, d: Difficulty, index: int): (r: map<Difficulty, seq<int>>)
    ensures d in r && index in r[d]
    ensures forall x :: x in r[d] <==> x == index || (d in progress && x in progress[d])
    ensures forall e :: e != d ==> (e in r <==> e in progress) && (e in r ==> r[e] == progress[e])
    ensures (d in progress ==> Distinct(progress[d])) ==> Distinct(r[d])
  {
    var started := if d !in progress then progress[d := []] else progress;
    if index !in started[d] then started[d := started[d] + [index]] else started
  }

  /** checkWin: a board equal to the solution completes the game and records it. */
  ghost function Won(s: GameState): (t: GameState)
    requires ValidState(s)
    ensures ValidState(t)
  {
    if s.board == s.currentSolution then s.(isComplete := true, progress := Recorded(s.progress, s.difficulty, s.puzzleIndex))
    else s
  }

  /** placeNumber. */
  ghost function Placed(s: GameState, row: int, col: int, num: int): (t: GameState)
    requires ValidState(s) && InRange(row, col)
    ensures ValidState(t)
  {
    var saved := Saved(s);
    var placed := saved.(board := Set(saved.board, row, col, num),
                         pencilMarks := MarksWithout(SetMarks(saved.pencilMarks, row, col, {}), row, col, num));
    var checked := if num != placed.currentSolution[row][col] then placed.(mistakes := placed.mistakes + 1) else placed;
    Won(checked)
  }

  /** togglePencilMark. */
  ghost function Toggled(s: GameState, row: int, col: int, num: int): (t: GameState)
    requires ValidState(s) && InRange(row, col)
    ensures ValidState(t)
  {
    if s.board[row][col] != 0 then s
    else
      var saved := Saved(s);
      saved.(pencilMarks := SetMarks(saved.pencilMarks, row, col, Flip(saved.pencilMarks[row][col], num)))
  }

  /** Input is ignored with no cell selected, once complete, or on a given. */
  ghost predicate Locked(s: GameState)
    requires ValidState(s)
  {
    s.selectedCell.None? || s.isComplete || s.initialBoard[s.selectedCell.value / 9][s.selectedCell.value % 9] != 0
  }

  /** enterNumber. */
  ghost function Entered(s: GameState, num: int): (t: GameState)
    requires ValidState(s)
    ensures ValidState(t)
  {
    if Locked(s) then s
    else
      var row, col := s.selectedCell.value / 9, s.selectedCell.value % 9;
      if s.pencilMode then Toggled(s, row, col, num) else Placed(s, row, col, num)
  }

  /** erase. */
  ghost function Erased(s: GameState): (t: GameState)
    requires ValidState(s)
    ensures ValidState(t)
  {
    if Locked(s) then s
    else
      var row, col := s.selectedCell.value / 9, s.selectedCell.value % 9;
      if s.board[row][col] != 0 || |s.pencilMarks[row][col]| > 0 then
        var saved := Saved(s);
        saved.(board := Set(saved.board, row, col, 0), pencilMarks := SetMarks(saved.pencilMarks, row, col, {}))
      else s
  }

  /** The row-major index of the first empty cell at or after p, or 81 when there is none. */
  function FirstZero(g: Grid, p: int): (q: int)
    requires IsGrid(g) && 0 <= p <= 81
    ensures p <= q <= 81
    ensures forall k :: p <= k < q ==> Cell(g, k) != 0
    ensures q < 81 ==> Cell(g, q) == 0
    decreases 81 - p
  {
    if p == 81 then 81 else if Cell(g, p) == 0 then p else FirstZero(g, p + 1)
  }

  /** getHint. */
  ghost function Hinted(s: GameState): (t: GameState)
    requires ValidState(s)
    ensures ValidState(t)
  {
    var p := FirstZero(s.board, 0);
    if s.isComplete || p == 81 then s
    else
      var row, col := p / 9, p % 9;
      var v := s.currentSolution[row][col];
      var saved := Saved(s);
      Won(saved.(board := Set(saved.board, row, col, v),
                 pencilMarks := MarksWithout(SetMarks(saved.pencilMarks, row, col, {}), row, col, v),
                 selectedCell := Some(p)))
  }

  /** undo: restore the snapshot at the index and step back, unless there is none or the game is complete. */
  ghost function Undone(s: GameState): (t: GameState)
    requires ValidState(s)
    ensures ValidState(t)
  {
    if s.historyIndex < 0 || s.isComplete then s
    else
      var snap := s.history[s.historyIndex];
      s.(board := snap.board, pencilMarks := snap.marks, historyIndex := s.historyIndex - 1)
  }

  /** The cell an arrow key moves the selection to: one step, never off the board. */
  function ArrowTarget(cell: int, key: string): (t: int)
    requires 0 <= cell < 81
    ensures 0 <= t < 81
    ensures key == "ArrowUp" && cell >= 9 ==> t == cell - 9
    ensures key == "ArrowDown" && cell < 72 ==> t == cell + 9
    ensures key == "ArrowLeft" && cell % 9 > 0 ==> t == cell - 1
    ensures key == "ArrowRight" && cell % 9 < 8 ==> t == cell + 1
  {
    var row, col := cell / 9, cell % 9;
    if key == "ArrowUp" && row > 0 then (row - 1) * 9 + col
    else if key == "ArrowDown" && row < 8 then (row + 1) * 9 + col
    else if key == "ArrowLeft" && col > 0 then row * 9 + (col - 1)
    else if key == "ArrowRight" && col < 8 then row * 9 + (col + 1)
    else cell
  }

  predicate IsArrow(key: string) {
    key == "ArrowUp" || key == "ArrowDown" || key == "ArrowLeft" || key == "ArrowRight"
  }

  /** A key "1" … "9". */
  predicate IsDigitKey(key: string) {
    |key| == 1 && '1' <= key[0] <= '9'
  }

  /** handleKeydown (ctrlOrMeta: the Ctrl or Meta modifier is held). */
  ghost function Keyed(s: GameState, key: string, ctrlOrMeta: bool): (t: GameState)
    requires ValidState(s)
    ensures ValidState(t)
  {
    if s.selectedCell.None? then s
    else if IsArrow(key) then s.(selectedCell := Some(ArrowTarget(s.selectedCell.value, key)))
    else if IsDigitKey(key) then Entered(s, key[0] as int - '0' as int)
    else if key == "Backspace" || key == "Delete" || key == "0" then Erased(s)
    else if key == "z" then (if ctrlOrMeta then Undone(s) else s)
    else if key == "p" then s.(pencilMode := !s.pencilMode)
    else s
  }

  /** loadPuzzle: a fresh game on entry index of difficulty d. */
  ghost function Loaded(library: map<Difficulty, seq<Entry>>, s: GameState, d: Difficulty, index: int): (t: GameState)
    requires LibraryOk(library) && ValidState(s) && 0 <= index < |library[d]|
    ensures ValidState(t)
  {
    var entry := library[d][index];
    s.(difficulty := d, puzzleIndex := index,
       currentPuzzle := entry.puzzle, currentSolution := entry.solution,
       board := entry.puzzle, initialBoard := entry.puzzle, pencilMarks := NoMarks(),
       selectedCell := None, history := [], historyIndex := -1, mistakes := 0, isComplete := false)
  }

  /** The difficulty after d in the order intermediate, hard, expert; expert stays. */
  function Following(d: Difficulty): Difficulty {
    match d
    case Intermediate => Hard
    case Hard => Expert
    case Expert => Expert
  }

  /** The library position nextPuzzle moves to. */
  function NextPosition(library: map<Difficulty, seq<Entry>>, d: Difficulty, index: int): (next: (Difficulty, int))
    requires d in library
  {
    if index + 1 < |library[d]| then (d, index + 1)
    else if d != Expert then (Following(d), 0)
    else (d, 0)
  }

  /** nextPuzzle. */
  ghost function Next(library: map<Difficulty, seq<Entry>>, s: GameState): (t: GameState)
    requires LibraryOk(library) && ValidState(s) && 0 <= s.puzzleIndex < |library[s.difficulty]|
    ensures ValidState(t)
  {
    var next := NextPosition(library, s.difficulty, s.puzzleIndex);
    Loaded(library, s, next.0, next.1)
  }

  /** A value some other cell of the row, column or box of (row, col) holds. */
  ghost predicate Conflict(g: Grid, row: int, col: int, value: int)
    requires IsGrid(g) && InRange(row, col)
  {
    exists r, c :: InRange(r, c) && Peer(row, col, r, c) && g[r][c] == value
  }

  // ---------------------------------------------------------------------------
  // The game object

  class Game {
    const library: map<Difficulty, seq<Entry>>
    var currentPuzzle: Grid
    var currentSolution: Grid
    var board: Grid
    var initialBoard: Grid
    var pencilMarks: Marks
    var selectedCell: Option<int>
    var pencilMode: bool
    var history: seq<Snapshot>
    var historyIndex: int
    var mistakes: int
    var isComplete: bool
    var difficulty: Difficulty
    var puzzleIndex: int
    var progress: map<Difficulty, seq<int>>

    ghost function State(): GameState
      reads this
    {
      GameState(currentPuzzle, currentSolution, board, initialBoard, pencilMarks, selectedCell, pencilMode,
            history, historyIndex, mistakes, isComplete, difficulty, puzzleIndex, progress)
    }

    ghost predicate Valid()
      reads this
    {
      ValidState(State()) && LibraryOk(library) && 0 <= puzzleIndex < |library[difficulty]|
    }

    /** A new game: no progress yet, the first intermediate puzzle loaded. */
    constructor(library: map<Difficulty, seq<Entry>>)
      requires LibraryOk(library)
      ensures Valid() && this.library == library
      ensures State() == Loaded(library, State(), Intermediate, 0)
      ensures progress == map[] && !pencilMode
    {
      this.library := library;
      currentPuzzle, currentSolution, board, initialBoard := EmptyGrid(), EmptyGrid(), EmptyGrid(), EmptyGrid();
      pencilMarks := NoMarks();
      selectedCell := None;
      pencilMode := false;
      history, historyIndex := [], -1;
      mistakes, isComplete := 0, false;
      difficulty, puzzleIndex := Intermediate, 0;
      progress := map[];
      new;
      LoadPuzzle(Intermediate, 0);
    }

    /** loadPuzzle. */
    method LoadPuzzle(d: Difficulty, index: int)
      requires Valid() && 0 <= index < |library[d]|
      modifies this
      ensures Valid()
      ensures State() == Loaded(library, old(State()), d, index)
    {
      var entry := library[d][index];
      ghost var target := Loaded(library, State(), d, index);
      ShowPuzzle(entry.puzzle, entry.solution);
      ResetPlay(d, index);
      assert State() == target;
    }

    /** The board part of loadPuzzle: the entry's grids, no pencil marks. */
    method ShowPuzzle(puzzle: Grid, solution: Grid)
      modifies this
      ensures currentPuzzle == puzzle && currentSolution == solution && board == puzzle && initialBoard == puzzle
      ensures pencilMarks == NoMarks()
      ensures selectedCell == old(selectedCell) && history == old(history) && historyIndex == old(historyIndex)
      ensures mistakes == old(mistakes) && isComplete == old(isComplete) && difficulty == old(difficulty)
      ensures puzzleIndex == old(puzzleIndex) && pencilMode == old(pencilMode) && progress == old(progress)
    {
      currentPuzzle := puzzle;
      currentSolution := solution;
      board := puzzle;
      initialBoard := puzzle;
      pencilMarks := NoMarks();
    }

    /** The rest of loadPuzzle: position d, index, no selection, empty history, no mistakes. */
    method ResetPlay(d: Difficulty, index: int)
      modifies this
      ensures currentPuzzle == old(currentPuzzle) && currentSolution == old(currentSolution)
      ensures board == old(board) && initialBoard == old(initialBoard) && pencilMarks == old(pencilMarks)
      ensures difficulty == d && puzzleIndex == index && selectedCell == None
      ensures history == [] && historyIndex == -1 && mistakes == 0 && !isComplete
      ensures pencilMode == old(pencilMode) && progress == old(progress)
    {
      difficulty := d;
      puzzleIndex := index;
      selectedCell := None;
      history := [];
      historyIndex := -1;
      mistakes := 0;
      isComplete := false;
    }

    /** selectCell. */
    method SelectCell(index: int)
      requires Valid() && 0 <= index < 81
      modifies this
      ensures Valid()
      ensures State() == old(State()).(selectedCell := Some(index))
    {
      selectedCell := Some(index);
    }

    /** saveState. */
    method SaveState()
      requires Valid()
      modifies this
      ensures State() == Saved(old(State()))
      ensures Valid()
    {
      ghost var saved := SavedHistory(history, historyIndex, Snapshot(board, pencilMarks));
      history := history[..historyIndex + 1];
      history := history + [Snapshot(board, pencilMarks)];
      historyIndex := historyIndex + 1;
      if |history| > 100 {
        history := history[1..];
        historyIndex := historyIndex - 1;
      }
      assert history == saved && historyIndex == |saved| - 1;
    }

    /** removePencilMarksForNumber: num leaves the marks of the row, the column and the box of (row, col). */
    method RemovePencilMarksForNumber(row: int, col: int, num: int)
      requires Valid() && InRange(row, col)
      modifies this
      ensures Valid()
      ensures State() == old(State()).(pencilMarks := MarksWithout(old(pencilMarks), row, col, num))
    {
      var marks := pencilMarks;
      ghost var before := marks;
      for c := 0 to 9
        invariant IsMarks(marks)
        invariant forall r', c' :: InRange(r', c') ==>
          marks[r'][c'] == if r' == row && c' < c then before[r'][c'] - {num} else before[r'][c']
      {
        marks := SetMarks(marks, row, c, marks[row][c] - {num});
      }
      for r := 0 to 9
        invariant IsMarks(marks)
        invariant forall r', c' :: InRange(r', c') ==>
          marks[r'][c'] == if r' == row || (c' == col && r' < r) then before[r'][c'] - {num} else before[r'][c']
      {
        marks := SetMarks(marks, r, col, marks[r][col] - {num});
      }
      var boxRow, boxCol := (row / 3) * 3, (col / 3) * 3;
      for r := boxRow to boxRow + 3
        invariant IsMarks(marks)
        invariant forall r', c' :: InRange(r', c') ==>
          marks[r'][c'] ==
            if r' == row || c' == col || (boxRow <= r' < r && boxCol <= c' < boxCol + 3) then before[r'][c'] - {num}
            else before[r'][c']
      {
        for c := boxCol to boxCol + 3
          invariant IsMarks(marks)
          invariant forall r', c' :: InRange(r', c') ==>
            marks[r'][c'] ==
              if r' == row || c' == col || (boxRow <= r' < r && boxCol <= c' < boxCol + 3) || (r' == r && boxCol <= c' < c)
              then before[r'][c'] - {num}
              else before[r'][c']
        {
          marks := SetMarks(marks, r, c, marks[r][c] - {num});
        }
      }
      MarksExt(marks, MarksWithout(before, row, col, num));
      pencilMarks := marks;
    }

    /** markPuzzleComplete. */
    method MarkPuzzleComplete()
      requires Valid()
      modifies this
      ensures Valid()
      ensures State() == old(State()).(progress := Recorded(old(progress), old(difficulty), old(puzzleIndex)))
    {
      if difficulty !in progress {
        progress := progress[difficulty := []];
      }
      if puzzleIndex !in progress[difficulty] {
        progress := progress[difficulty := progress[difficulty] + [puzzleIndex]];
      }
    }

    /** checkWin: compares the board with the solution cell by cell. */
    method CheckWin() returns (won: bool)
      requires Valid()
      modifies this
      ensures Valid()
      ensures won == (old(board) == old(currentSolution))
      ensures State() == Won(old(State()))
    {
      for row := 0 to 9
        invariant forall r, c :: 0 <= r < row && 0 <= c < 9 ==> board[r][c] == currentSolution[r][c]
      {
        for col := 0 to 9
          invariant forall r, c :: (0 <= r < row && 0 <= c < 9) || (r == row && 0 <= c < col) ==>
            board[r][c] == currentSolution[r][c]
        {
          if board[row][col] != currentSolution[row][col] {
            return false;
          }
        }
      }
      GridExt(board, currentSolution);
      isComplete := true;
      MarkPuzzleComplete();
      return true;
    }

    /** placeNumber. */
    method PlaceNumber(row: int, col: int, num: int)
      requires Valid() && InRange(row, col)
      modifies this
      ensures Valid()
      ensures State() == Placed(old(State()), row, col, num)
    {
      SaveState();
      FillCell(row, col, num);
      ghost var filled := State();
      if num != currentSolution[row][col] {
        mistakes := mistakes + 1;
      }
      assert State() == if num != filled.currentSolution[row][col] then filled.(mistakes := filled.mistakes + 1) else filled;
      var _ := CheckWin();
    }

    /** The cell update shared by placeNumber and getHint: v goes in, the cell's marks and v's marks in its units go. */
    method FillCell(row: int, col: int, v: int)
      requires Valid() && InRange(row, col)
      modifies this
      ensures Valid()
      ensures State() == old(State()).(board := Set(old(board), row, col, v),
                                       pencilMarks := MarksWithout(SetMarks(old(pencilMarks), row, col, {}), row, col, v))
    {
      board := Set(board, row, col, v);
      pencilMarks := SetMarks(pencilMarks, row, col, {});
      RemovePencilMarksForNumber(row, col, v);
    }

    /** togglePencilMark. */
    method TogglePencilMark(row: int, col: int, num: int)
      requires Valid() && InRange(row, col)
      modifies this
      ensures Valid()
      ensures State() == Toggled(old(State()), row, col, num)
    {
      if board[row][col] != 0 {
        return;
      }
      SaveState();
      var marks := pencilMarks[row][col];
      if num in marks {
        marks := marks - {num};
      } else {
        marks := marks + {num};
      }
      pencilMarks := SetMarks(pencilMarks, row, col, marks);
    }

    /** enterNumber. */
    method EnterNumber(num: int)
      requires Valid()
      modifies this
      ensures Valid()
      ensures State() == Entered(old(State()), num)
    {
      if selectedCell.None? || isComplete {
        return;
      }
      var row, col := selectedCell.value / 9, selectedCell.value % 9;
      if initialBoard[row][col] != 0 {
        return;
      }
      if pencilMode {
        TogglePencilMark(row, col, num);
      } else {
        PlaceNumber(row, col, num);
      }
    }

    /** erase. */
    method Erase()
      requires Valid()
      modifies this
      ensures Valid()
      ensures State() == Erased(old(State()))
    {
      if selectedCell.None? || isComplete {
        return;
      }
      var row, col := selectedCell.value / 9, selectedCell.value % 9;
      if initialBoard[row][col] != 0 {
        return;
      }
      if board[row][col] != 0 || |pencilMarks[row][col]| > 0 {
        SaveState();
        board := Set(board, row, col, 0);
        pencilMarks := SetMarks(pencilMarks, row, col, {});
      }
    }

    /** togglePencilMode. */
    method TogglePencilMode()
      requires Valid()
      modifies this
      ensures Valid()
      ensures State() == old(State()).(pencilMode := !old(pencilMode))
    {
      pencilMode := !pencilMode;
    }

    /** getHint: the first empty cell in row-major order gets its solution value. */
    method GetHint()
      requires Valid()
      modifies this
      ensures Valid()
      ensures State() == Hinted(old(State()))
    {
      if isComplete {
        return;
      }
      for row := 0 to 9
        invariant State() == old(State())
        invariant forall k :: 0 <= k < row * 9 ==> Cell(board, k) != 0
      {
        for col := 0 to 9
          invariant State() == old(State())
          invariant forall k :: 0 <= k < row * 9 + col ==> Cell(board, k) != 0
        {
          CellOf(board, row, col);
          if board[row][col] == 0 {
            FirstZeroAt(board, row * 9 + col);
            HintAt(row, col);
            return;
          }
        }
      }
      FirstZeroAt(board, 81);
    }

    /** The body of getHint once its scan has found the first empty cell (row, col). */
    method HintAt(row: int, col: int)
      requires Valid() && InRange(row, col) && !isComplete && FirstZero(board, 0) == row * 9 + col
      modifies this
      ensures Valid()
      ensures State() == Hinted(old(State()))
    {
      CellOf(board, row, col);
      SaveState();
      var v := currentSolution[row][col];
      FillCell(row, col, v);
      selectedCell := Some(row * 9 + col);
      var _ := CheckWin();
    }

    /** undo. */
    method Undo()
      requires Valid()
      modifies this
      ensures Valid()
      ensures State() == Undone(old(State()))
    {
      if historyIndex < 0 || isComplete {
        return;
      }
      var state := history[historyIndex];
      board := state.board;
      pencilMarks := state.marks;
      historyIndex := historyIndex - 1;
    }

    /** hasConflict: some other cell of the row, column or box holds value. */
    method HasConflict(row: int, col: int, value: int) returns (conflict: bool)
      requires Valid() && InRange(row, col)
      ensures conflict == Conflict(board, row, col, value)
    {
      for c := 0 to 9
        invariant forall k :: 0 <= k < c && k != col ==> board[row][k] != value
      {
        if c != col && board[row][c] == value {
          assert Peer(row, col, row, c);
          return true;
        }
      }
      for r := 0 to 9
        invariant forall k :: 0 <= k < r && k != row ==> board[k][col] != value
      {
        if r != row && board[r][col] == value {
          assert Peer(row, col, r, col);
          return true;
        }
      }
      var boxRow, boxCol := (row / 3) * 3, (col / 3) * 3;
      for r := boxRow to boxRow + 3
        invariant forall r2, c2 :: boxRow <= r2 < r && boxCol <= c2 < boxCol + 3 && (r2 != row || c2 != col) ==>
          board[r2][c2] != value
      {
        for c := boxCol to boxCol + 3
          invariant forall r2, c2 ::
            (boxRow <= r2 < r || (r2 == r && c2 < c)) && boxCol <= c2 < boxCol + 3 && (r2 != row || c2 != col)
            ==> board[r2][c2] != value
        {
          if (r != row || c != col) && board[r][c] == value {
            assert Peer(row, col, r, c);
            return true;
          }
        }
      }
      forall r2, c2 | InRange(r2, c2) && Peer(row, col, r2, c2) ensures board[r2][c2] != value {
        if r2 != row && c2 != col {
          assert boxRow <= r2 < boxRow + 3 && boxCol <= c2 < boxCol + 3;
        }
      }
      return false;
    }

    /** handleKeydown. */
    method HandleKeydown(key: string, ctrlOrMeta: bool)
      requires Valid()
      modifies this
      ensures Valid()
      ensures State() == Keyed(old(State()), key, ctrlOrMeta)
    {
      if selectedCell.None? {
        return;
      }
      if IsArrow(key) {
        MoveSelection(key);
      } else if IsDigitKey(key) {
        EnterNumber(key[0] as int - '0' as int);
      } else if key == "Backspace" || key == "Delete" || key == "0" {
        Erase();
      } else if key == "z" {
        if ctrlOrMeta {
          Undo();
        }
      } else if key == "p" {
        TogglePencilMode();
      }
    }

    /** The arrow cases of handleKeydown: the selection moves one cell unless at the edge. */
    method MoveSelection(key: string)
      requires Valid() && selectedCell.Some? && IsArrow(key)
      modifies this
      ensures Valid()
      ensures State() == old(State()).(selectedCell := Some(ArrowTarget(old(selectedCell).value, key)))
    {
      var row, col := selectedCell.value / 9, selectedCell.value % 9;
      if key == "ArrowUp" {
        if row > 0 {
          SelectCell((row - 1) * 9 + col);
        }
      } else if key == "ArrowDown" {
        if row < 8 {
          SelectCell((row + 1) * 9 + col);
        }
      } else if key == "ArrowLeft" {
        if col > 0 {
          SelectCell(row * 9 + (col - 1));
        }
      } else {
        if col < 8 {
          SelectCell(row * 9 + (col + 1));
        }
      }
    }

    /** nextPuzzle. */
    method NextPuzzle()
      requires Valid()
      modifies this
      ensures Valid()
      ensures State() == Next(library, old(State()))
    {
      var puzzles := library[difficulty];
      var nextDifficulty, nextIndex := difficulty, puzzleIndex + 1;
      if nextIndex >= |puzzles| {
        var difficulties := [Intermediate, Hard, Expert];
        var current := if difficulty == Intermediate then 0 else if difficulty == Hard then 1 else 2;
        if current < |difficulties| - 1 {
          nextDifficulty := difficulties[current + 1];
          nextIndex := 0;
        } else {
          nextIndex := 0;
        }
      }
      LoadPuzzle(nextDifficulty, nextIndex);
    }
  }

  /** The scan from index 0 stops at p when the cells before p are filled and p is empty (or 81). */
  lemma FirstZeroAt(g: Grid, p: int)
    requires IsGrid(g) && 0 <= p <= 81
    requires forall k :: 0 <= k < p ==> Cell(g, k) != 0
    requires p < 81 ==> Cell(g, p) == 0
    ensures FirstZero(g, 0) == p
  {
  }

  // ---------------------------------------------------------------------------
  // What the transitions promise

  /** Undo after placing a number restores the board and the marks; the mistake it may have cost stays. */
  lemma UndoRestoresPlacement(s: GameState, row: int, col: int, num: int)
    requires ValidState(s) && InRange(row, col)
    requires !Placed(s, row, col, num).isComplete
    ensures Undone(Placed(s, row, col, num)).board == s.board
    ensures Undone(Placed(s, row, col, num)).pencilMarks == s.pencilMarks
    ensures Undone(Placed(s, row, col, num)).mistakes == s.mistakes + (if num != s.currentSolution[row][col] then 1 else 0)
  {
    var saved := Saved(s);
    var h := saved.history;
    assert h[|h| - 1] == Snapshot(s.board, s.pencilMarks);
    var t := Placed(s, row, col, num);
    assert t.history == h && t.historyIndex == |h| - 1;
  }

  /** Toggling the same pencil mark twice gives back the marks (the history grows by two snapshots). */
  lemma ToggleTwice(s: GameState, row: int, col: int, num: int)
    requires ValidState(s) && InRange(row, col)
    ensures Toggled(Toggled(s, row, col, num), row, col, num).pencilMarks == s.pencilMarks
    ensures Toggled(Toggled(s, row, col, num), row, col, num).board == s.board
  {
    if s.board[row][col] == 0 {
      var t := Toggled(s, row, col, num);
      var ms := s.pencilMarks[row][col];
      assert t.pencilMarks[row][col] == Flip(ms, num);
      assert Flip(Flip(ms, num), num) == ms;
      var u := Toggled(t, row, col, num);
      assert u.pencilMarks == SetMarks(Saved(t).pencilMarks, row, col, Flip(Flip(ms, num), num));
      MarksExt(u.pencilMarks, s.pencilMarks);
    }
  }

  /** Undo right after a pencil-mark toggle on an empty cell gives back the marks. */
  lemma UndoRestoresToggle(s: GameState, row: int, col: int, num: int)
    requires ValidState(s) && InRange(row, col) && s.board[row][col] == 0 && !s.isComplete
    ensures Undone(Toggled(s, row, col, num)).pencilMarks == s.pencilMarks
    ensures Undone(Toggled(s, row, col, num)).board == s.board
  {
    var h := Saved(s).history;
    assert h[|h| - 1] == Snapshot(s.board, s.pencilMarks);
  }

  /**
   * A placement empties the marks of its cell, takes num out of every mark
   * in the cell's row, column and box, and leaves every other mark alone.
   */
  lemma PlacementClearsMarks(s: GameState, row: int, col: int, num: int)
    requires ValidState(s) && InRange(row, col)
    ensures Placed(s, row, col, num).pencilMarks[row][col] == {}
    ensures forall r, c :: InRange(r, c) && SameUnit(row, col, r, c) ==>
      Placed(s, row, col, num).pencilMarks[r][c] == s.pencilMarks[r][c] - {num}
        || (r == row && c == col)
    ensures forall r, c :: InRange(r, c) && !SameUnit(row, col, r, c) ==>
      Placed(s, row, col, num).pencilMarks[r][c] == s.pencilMarks[r][c]
  {
  }

  /** The number of empty cells on the board. */
  ghost function EmptyCount(s: GameState): nat
    requires ValidState(s)
  {
    |Empties(s.board)|
  }

  /** The scan of getHint finds a cell whenever the board has an empty one. */
  lemma FirstZeroFindsEmpty(g: Grid)
    requires IsGrid(g) && Empties(g) != {}
    ensures FirstZero(g, 0) < 81
  {
    var q :| q in Empties(g);
    assert Cell(g, q) == 0;
  }

  /**
   * On a board whose entries all match a full solution, a hint fills one
   * more cell with its solution value and costs no mistake.
   */
  lemma HintProgress(s: GameState)
    requires ValidState(s) && !s.isComplete && Full(s.currentSolution)
    requires Reduces(s.currentSolution, s.board)
    requires EmptyCount(s) > 0
    ensures Reduces(Hinted(s).currentSolution, Hinted(s).board)
    ensures Hinted(s).currentSolution == s.currentSolution
    ensures EmptyCount(Hinted(s)) == EmptyCount(s) - 1
    ensures Hinted(s).mistakes == s.mistakes
  {
    FirstZeroFindsEmpty(s.board);
    var p := FirstZero(s.board, 0);
    var row, col := p / 9, p % 9;
    CellOf(s.board, row, col);
    EmptiesAfterSet(s.board, row, col, s.currentSolution[row][col]);
  }

  /** Under the same conditions, the hint completes the game exactly when it fills the last empty cell. */
  lemma HintCompletes(s: GameState)
    requires ValidState(s) && !s.isComplete && Full(s.currentSolution)
    requires Reduces(s.currentSolution, s.board) && EmptyCount(s) > 0
    ensures Hinted(s).isComplete <==> EmptyCount(Hinted(s)) == 0
    ensures Hinted(s).isComplete ==> Hinted(s).board == s.currentSolution
    ensures Hinted(s).isComplete ==>
      s.difficulty in Hinted(s).progress && s.puzzleIndex in Hinted(s).progress[s.difficulty]
  {
    HintProgress(s);
    var t := Hinted(s);
    FullIffNoEmpties(t.board);
    if EmptyCount(t) == 0 {
      GridExt(t.board, t.currentSolution);
    }
  }

  /** The state after n hints in a row. */
  ghost function Hints(s: GameState, n: nat): (t: GameState)
    requires ValidState(s)
    ensures ValidState(t)
    decreases n
  {
    if n == 0 then s else Hints(Hinted(s), n - 1)
  }

  /** u finishes the game of s: the board is the solution, the game complete and recorded, no new mistake. */
  ghost predicate FinishedFrom(s: GameState, u: GameState)
    requires ValidState(s) && ValidState(u)
  {
    u.board == s.currentSolution && u.isComplete &&
    s.difficulty in u.progress && s.puzzleIndex in u.progress[s.difficulty] && u.mistakes == s.mistakes
  }

  /** One hint, summed up for the induction of HintsFinish. */
  lemma HintStep(s: GameState)
    requires ValidState(s) && !s.isComplete && Full(s.currentSolution)
    requires Reduces(s.currentSolution, s.board) && EmptyCount(s) > 0
    ensures EmptyCount(Hinted(s)) == EmptyCount(s) - 1
    ensures EmptyCount(Hinted(s)) == 0 ==> FinishedFrom(s, Hinted(s))
    ensures EmptyCount(Hinted(s)) > 0 ==>
      !Hinted(s).isComplete && Full(Hinted(s).currentSolution) && Reduces(Hinted(s).currentSolution, Hinted(s).board)
    ensures Hinted(s).currentSolution == s.currentSolution && Hinted(s).difficulty == s.difficulty
    ensures Hinted(s).puzzleIndex == s.puzzleIndex && Hinted(s).mistakes == s.mistakes
  {
    HintProgress(s);
    HintCompletes(s);
  }

  /**
   * Taking as many hints as there are empty cells solves the puzzle: the
   * board becomes the solution, the game is complete and the puzzle is
   * recorded as solved, without a mistake.
   */
  lemma {:induction false} HintsFinish(s: GameState)
    requires ValidState(s) && !s.isComplete && Full(s.currentSolution)
    requires Reduces(s.currentSolution, s.board) && EmptyCount(s) > 0
    ensures FinishedFrom(s, Hints(s, EmptyCount(s)))
    decreases EmptyCount(s)
  {
    HintStep(s);
    var t := Hinted(s);
    var n := EmptyCount(t);
    HintsFirst(s, n + 1);
    if n > 0 {
      HintsFinish(t);
      FinishedLater(s, t, Hints(t, n));
    }
  }

  /** n hints, for n > 0, are one hint and then n - 1 more. */
  lemma HintsFirst(s: GameState, n: nat)
    requires ValidState(s) && n > 0
    ensures Hints(s, n) == Hints(Hinted(s), n - 1)
  {
  }

  /** Finishing from a later state of the same game, with no mistake in between, finishes it. */
  lemma FinishedLater(s: GameState, t: GameState, u: GameState)
    requires ValidState(s) && ValidState(t) && ValidState(u) && FinishedFrom(t, u)
    requires t.currentSolution == s.currentSolution && t.difficulty == s.difficulty
    requires t.puzzleIndex == s.puzzleIndex && t.mistakes == s.mistakes
    ensures FinishedFrom(s, u)
  {
  }

  /**
   * hasConflict agrees with the generator's isValid on the board with the
   * cell itself cleared: a non-zero value conflicts exactly when it could
   * not be placed there.
   */
  lemma ConflictIffInvalid(g: Grid, row: int, col: int, value: int)
    requires IsGrid(g) && InRange(row, col) && value != 0
    ensures Conflict(g, row, col, value) <==> !IsValid(Set(g, row, col, 0), row, col, value)
  {
    var h := Set(g, row, col, 0);
    if !IsValid(h, row, col, value) {
      var r, c :| InRange(r, c) && SameUnit(row, col, r, c) && h[r][c] == value;
      assert Peer(row, col, r, c) && g[r][c] == value;
    }
    if Conflict(g, row, col, value) {
      var r, c :| InRange(r, c) && Peer(row, col, r, c) && g[r][c] == value;
      assert h[r][c] == value;
    }
  }

  /** On a solved board no cell is shown in conflict. */
  lemma SolvedHasNoConflict(g: Grid, row: int, col: int)
    requires Solved(g) && InRange(row, col)
    ensures !Conflict(g, row, col, g[row][col])
  {
    assert NoConflictAt(g, row, col);
  }

  /** Once the game is complete, no key changes the board, the marks, the mistakes or the completion. */
  lemma CompleteIgnoresInput(s: GameState, key: string, ctrlOrMeta: bool)
    requires ValidState(s) && s.isComplete
    ensures Keyed(s, key, ctrlOrMeta).board == s.board
    ensures Keyed(s, key, ctrlOrMeta).pencilMarks == s.pencilMarks
    ensures Keyed(s, key, ctrlOrMeta).mistakes == s.mistakes
    ensures Keyed(s, key, ctrlOrMeta).isComplete
  {
  }

  /**
   * A key adds at most one mistake, never takes one back (undo keeps them),
   * and adds one exactly when it places a number that differs from the
   * solution.
   */
  lemma MistakesCount(s: GameState, key: string, ctrlOrMeta: bool)
    requires ValidState(s)
    ensures s.mistakes <= Keyed(s, key, ctrlOrMeta).mistakes <= s.mistakes + 1
    ensures Keyed(s, key, ctrlOrMeta).mistakes == s.mistakes + 1 <==>
      s.selectedCell.Some? && !IsArrow(key) && IsDigitKey(key) && !Locked(s) && !s.pencilMode &&
      key[0] as int - '0' as int != s.currentSolution[s.selectedCell.value / 9][s.selectedCell.value % 9]
  {
  }

  /** The givens of a board: the non-zero cells of the initial board hold their value. */
  ghost predicate KeepsGivens(initial: Grid, g: Grid)
    requires IsGrid(initial) && IsGrid(g)
  {
    forall r, c :: InRange(r, c) && initial[r][c] != 0 ==> g[r][c] == initial[r][c]
  }

  /** The board and every snapshot in the history keep the givens. */
  ghost predicate GivensKept(s: GameState)
    requires ValidState(s)
  {
    KeepsGivens(s.initialBoard, s.board) &&
    forall i :: 0 <= i < |s.history| ==> KeepsGivens(s.initialBoard, s.history[i].board)
  }

  lemma SavedKeepsGivens(s: GameState)
    requires ValidState(s) && GivensKept(s)
    ensures GivensKept(Saved(s)) && Saved(s).board == s.board && Saved(s).initialBoard == s.initialBoard
  {
    var h := Saved(s).history;
    forall i | 0 <= i < |h|
      ensures KeepsGivens(s.initialBoard, h[i].board)
    {
      if i < |h| - 1 {
        assert h[i] == s.history[s.historyIndex + 2 - |h| + i];
      }
    }
  }

  lemma EnteredKeepsGivens(s: GameState, num: int)
    requires ValidState(s) && GivensKept(s)
    ensures GivensKept(Entered(s, num)) && Entered(s, num).initialBoard == s.initialBoard
  {
    if !Locked(s) {
      SavedKeepsGivens(s);
    }
  }

  lemma ErasedKeepsGivens(s: GameState)
    requires ValidState(s) && GivensKept(s)
    ensures GivensKept(Erased(s)) && Erased(s).initialBoard == s.initialBoard
  {
    if !Locked(s) {
      SavedKeepsGivens(s);
    }
  }

  /** No key press overwrites or erases a given, on the board or in the undo history. */
  lemma KeyKeepsGivens(s: GameState, key: string, ctrlOrMeta: bool)
    requires ValidState(s) && GivensKept(s)
    ensures GivensKept(Keyed(s, key, ctrlOrMeta))
    ensures Keyed(s, key, ctrlOrMeta).initialBoard == s.initialBoard
  {
    if s.selectedCell.Some? && !IsArrow(key) {
      if IsDigitKey(key) {
        EnteredKeepsGivens(s, key[0] as int - '0' as int);
      } else if key == "Backspace" || key == "Delete" || key == "0" {
        ErasedKeepsGivens(s);
      }
    }
  }

  /** A hint only fills an empty cell, so it keeps the givens too. */
  lemma HintKeepsGivens(s: GameState)
    requires ValidState(s) && GivensKept(s)
    ensures GivensKept(Hinted(s)) && Hinted(s).initialBoard == s.initialBoard
  {
    SavedKeepsGivens(s);
  }

  /** A loaded puzzle starts with its givens in place and an empty history. */
  lemma LoadedKeepsGivens(library: map<Difficulty, seq<Entry>>, s: GameState, d: Difficulty, index: int)
    requires LibraryOk(library) && ValidState(s) && 0 <= index < |library[d]|
    ensures GivensKept(Loaded(library, s, d, index))
  {
  }

  /** The position of library entry (d, index) in the order intermediate, hard, expert. */
  function Ordinal(library: map<Difficulty, seq<Entry>>, d: Difficulty, index: int): int
    requires forall e: Difficulty :: e in library
  {
    match d
    case Intermediate => index
    case Hard => |library[Intermediate]| + index
    case Expert => |library[Intermediate]| + |library[Hard]| + index
  }

  /**
   * nextPuzzle walks the library in order: the next entry is the one right
   * after the current, except after the last expert puzzle, which wraps to
   * the first expert puzzle. The next position is always in the library.
   */
  lemma NextWalksLibrary(library: map<Difficulty, seq<Entry>>, d: Difficulty, index: int)
    requires LibraryOk(library) && 0 <= index < |library[d]|
    ensures var next := NextPosition(library, d, index);
      0 <= next.1 < |library[next.0]| &&
      if d == Expert && index == |library[Expert]| - 1 then next == (Expert, 0)
      else Ordinal(library, next.0, next.1) == Ordinal(library, d, index) + 1
  {
    assert Intermediate in library && Hard in library && Expert in library;
  }

  /** Recording a solved puzzle twice is the same as recording it once. */
  lemma RecordedIdempotent(progress: map<Difficulty, seq<int>>, d: Difficulty, index: int)
    ensures Recorded(Recorded(progress, d, index), d, index) == Recorded(progress, d, index)
  {
  }
}

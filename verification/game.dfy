/** The game-state hook: the generated puzzle, the board the player edits,
    the selection and the mode switches, and the handlers and effects that
    overwrite them. Each handler is a method on the hook's state; the new
    board each one installs is the corresponding function of SudokuCells or
    SudokuValidation. */
module SudokuGame {
  import opened SudokuGrid
  import opened SudokuCells
  import opened SudokuValidation
  import SudokuSolver

  class GameState {
    var difficulty: Option<string>
    var puzzleState: Option<Puzzle>
    var originalCells: seq<Cell>
    var cells: seq<Cell>
    var selectedIndex: Option<int>
    var noteMode: bool
    var isComplete: bool
    var highlightUsedNumbers: bool
    var showMistakes: bool

    /** What the handlers keep true (see GameInvariant). */
    ghost predicate Valid()
      reads this
    {
      GameInvariant(puzzleState, originalCells, cells, selectedIndex)
    }

    /** The hook's initial state: no game yet, every switch off. */
    constructor()
      ensures Valid()
      ensures difficulty.None? && puzzleState.None? && originalCells == [] && cells == []
      ensures selectedIndex.None? && !noteMode && !isComplete && !highlightUsedNumbers && !showMistakes
    {
      difficulty := None;
      puzzleState := None;
      originalCells := [];
      cells := [];
      selectedIndex := None;
      noteMode := false;
      isComplete := false;
      highlightUsedNumbers := false;
      showMistakes := false;
    }

    /** startNewGame: a puzzle is generated for `level` (with the random
        choices `order` and `picks`), its board becomes both the original
        and the current board, and every switch is reset. The puzzle is
        the carving of the solution (CarvedFrom). When the full
        board was generated, the puzzle has as many empty cells as carving
        attempts succeeded, at most the level's target, and the solution
        is its only completion. */
    method StartNewGame(level: string, order: Grid -> seq<int>, picks: seq<(int, int)>)
      requires forall key :: IsShuffle(order(key))
      requires forall k :: 0 <= k < |picks| ==> InRange(picks[k].0, picks[k].1)
      modifies this
      ensures Valid()
      ensures difficulty == Some(level) && puzzleState.Some?
      ensures originalCells == ToCellState(puzzleState.value.puzzle) && cells == originalCells
      ensures selectedIndex.None? && !isComplete && !noteMode && !highlightUsedNumbers && !showMistakes
      ensures CarvedFrom(puzzleState.value, level, picks)
      ensures Solved(puzzleState.value.solution) ==>
        Zeros(puzzleState.value.puzzle) <= SudokuSolver.MaxRemoved(level) &&
        Completed(puzzleState.value.puzzle) == {puzzleState.value.solution}
    {
      var newPuzzle := NewPuzzle(level, order, picks);
      var initialCells := ToCellState(newPuzzle.puzzle);
      FreshBoard(newPuzzle);
      difficulty := Some(level);
      puzzleState := Some(newPuzzle);
      originalCells := initialCells;
      cells := initialCells;
      selectedIndex := None;
      isComplete := false;
      noteMode := false;
      highlightUsedNumbers := false;
      showMistakes := false;
    }

    /** handleRestartGame: the board goes back to the original, with no
        selection and the game not complete. */
    method RestartGame()
      requires Valid()
      modifies this
      ensures Valid()
      ensures cells == originalCells && selectedIndex.None? && !isComplete
      ensures originalCells == old(originalCells) && puzzleState == old(puzzleState)
      ensures difficulty == old(difficulty) && noteMode == old(noteMode) &&
              highlightUsedNumbers == old(highlightUsedNumbers) && showMistakes == old(showMistakes)
    {
      cells := originalCells;
      selectedIndex := None;
      isComplete := false;
      if puzzleState.Some? {
        FreshBoard(puzzleState.value);
      }
    }

    /** handleCellClick: a given cannot be selected; any other cell
        becomes the selection. */
    method CellClick(index: int)
      requires Valid() && 0 <= index < |cells|
      modifies this
      ensures Valid()
      ensures cells == old(cells) && originalCells == old(originalCells) && puzzleState == old(puzzleState)
      ensures cells[index].isInitial ==> selectedIndex == old(selectedIndex)
      ensures !cells[index].isInitial ==> selectedIndex == Some(index)
      ensures isComplete == old(isComplete) && noteMode == old(noteMode) && difficulty == old(difficulty) &&
              highlightUsedNumbers == old(highlightUsedNumbers) && showMistakes == old(showMistakes)
    {
      if cells[index].isInitial {
        return;
      }
      selectedIndex := Some(index);
    }

    /** handleClear: the board becomes ClearCells of the old board; once
        the game is complete, or with nothing selected, nothing changes. */
    method Clear()
      requires Valid()
      modifies this
      ensures Valid()
      ensures cells == ClearCells(old(cells), selectedIndex, isComplete)
      ensures old(isComplete) || selectedIndex.None? ==> cells == old(cells)
      ensures selectedIndex == old(selectedIndex) && isComplete == old(isComplete)
      ensures originalCells == old(originalCells) && puzzleState == old(puzzleState)
      ensures noteMode == old(noteMode) && difficulty == old(difficulty) &&
              highlightUsedNumbers == old(highlightUsedNumbers) && showMistakes == old(showMistakes)
    {
      if selectedIndex.None? || isComplete {
        return;
      }
      ghost var prev := cells;
      cells := ClearCells(cells, selectedIndex, isComplete);
      EditsKeepNotesSorted(prev, selectedIndex, isComplete, false, 0, EmptyGrid(), showMistakes);
      assert forall i :: 0 <= i < |cells| ==> cells[i].isInitial == prev[i].isInitial;
    }

    /** handleNumberClick: the board becomes NumberCells of the old board
        (a note toggle in note mode, an entry otherwise, flagged against
        the solution); once the game is complete, or with nothing selected,
        nothing changes. */
    method NumberClick(num: int)
      requires Valid() && 1 <= num <= 9
      modifies this
      ensures Valid()
      ensures selectedIndex.Some? ==>
        (puzzleState.Some? &&
         cells == NumberCells(old(cells), selectedIndex, isComplete, noteMode, num,
                              puzzleState.value.solution, showMistakes))
      ensures old(isComplete) || selectedIndex.None? ==> cells == old(cells)
      ensures selectedIndex == old(selectedIndex) && isComplete == old(isComplete)
      ensures originalCells == old(originalCells) && puzzleState == old(puzzleState)
      ensures noteMode == old(noteMode) && difficulty == old(difficulty) &&
              highlightUsedNumbers == old(highlightUsedNumbers) && showMistakes == old(showMistakes)
    {
      if selectedIndex.None? || isComplete {
        return;
      }
      ghost var prev := cells;
      var solution := puzzleState.value.solution;
      cells := NumberCells(cells, selectedIndex, isComplete, noteMode, num, solution, showMistakes);
      EditsKeepNotesSorted(prev, selectedIndex, isComplete, noteMode, num, solution, showMistakes);
      assert forall i :: 0 <= i < |cells| ==> cells[i].isInitial == prev[i].isInitial;
    }

    /** The mistake effect: once a game exists, every flag is recomputed
        against the solution; givens are never flagged. */
    method RecalcMistakes()
      requires Valid()
      modifies this
      ensures Valid()
      ensures cells == MistakeEffect(old(cells), puzzleState, showMistakes)
      ensures forall i :: 0 <= i < |cells| && cells[i].isInitial ==> !cells[i].isIncorrect
      ensures selectedIndex == old(selectedIndex) && isComplete == old(isComplete)
      ensures originalCells == old(originalCells) && puzzleState == old(puzzleState)
      ensures noteMode == old(noteMode) && difficulty == old(difficulty) &&
              highlightUsedNumbers == old(highlightUsedNumbers) && showMistakes == old(showMistakes)
    {
      if puzzleState.None? {
        return;
      }
      ghost var prev := cells;
      cells := Recalc(cells, puzzleState.value.solution, showMistakes);
      forall i | 0 <= i < |cells| && cells[i].isInitial
        ensures cells[i] == originalCells[i]
      {
        assert prev[i] == originalCells[i];
      }
      assert NotesSorted(cells) by {
        assert forall i :: 0 <= i < |cells| ==> cells[i].notes == prev[i].notes;
      }
    }

    /** The completion effect: isComplete becomes true exactly when every
        value is the solution digit and nothing is flagged, and is never
        set back to false. */
    method CheckCompletion()
      requires Valid()
      modifies this
      ensures Valid()
      ensures isComplete == CompletionEffect(cells, puzzleState, old(isComplete))
      ensures old(isComplete) ==> isComplete
      ensures cells == old(cells) && selectedIndex == old(selectedIndex)
      ensures originalCells == old(originalCells) && puzzleState == old(puzzleState)
      ensures noteMode == old(noteMode) && difficulty == old(difficulty) &&
              highlightUsedNumbers == old(highlightUsedNumbers) && showMistakes == old(showMistakes)
    {
      if puzzleState.None? {
        return;
      }
      var solution := puzzleState.value.solution;
      if AllCorrect(cells, solution) && NoneIncorrect(cells) {
        isComplete := true;
      }
    }
  }

  /** generatePuzzle's result as the hook stores it: the carved puzzle
      and the solution, read off the two boards. When the full board was
      generated, the puzzle has at most the level's target of empty cells,
      keeps every other solution digit, and has the solution as its only
      completion. */
  method NewPuzzle(level: string, order: Grid -> seq<int>, picks: seq<(int, int)>) returns (game: Puzzle)
    requires forall key :: IsShuffle(order(key))
    requires forall k :: 0 <= k < |picks| ==> InRange(picks[k].0, picks[k].1)
    ensures GoodPuzzle(game)
    ensures CarvedFrom(game, level, picks)
    ensures Solved(game.solution) ==> Zeros(game.puzzle) <= SudokuSolver.MaxRemoved(level)
    ensures !Solved(game.solution) ==> game.puzzle == EmptyGrid()
  {
    var puzzle, solution, attempts, p, sol, used := SudokuSolver.GeneratePuzzle(level, order, picks);
    var pg := SudokuSolver.Snapshot(puzzle);
    var sg := SudokuSolver.Snapshot(solution);
    GridExt(pg, p);
    GridExt(sg, sol);
    game := Puzzle(pg, sg);
  }

  /** The puzzle is what the carving loop makes of the solution with the
      level's target and the stream `picks`: the loop stops at the target
      unless the stream runs out first, and, when the full board was
      generated, every removal it counts is an empty cell of the puzzle. */
  ghost predicate CarvedFrom(game: Puzzle, level: string, picks: seq<(int, int)>)
    requires IsGrid(game.solution)
    requires forall k :: 0 <= k < |picks| ==> InRange(picks[k].0, picks[k].1)
  {
    var r := SudokuSolver.Carved(game.solution, SudokuSolver.MaxRemoved(level), 0, picks);
    game.puzzle == r.0 && (r.1 == SudokuSolver.MaxRemoved(level) || r.2 == |picks|) &&
    (Solved(game.solution) ==> Zeros(game.puzzle) == r.1)
  }

  /** The state the game-state hook keeps: before the first game there is
      no board; afterwards the original board is the puzzle's, the givens
      on the board are the original givens and hold the solution digit, a
      generated solution is the puzzle's only completion, the selection is
      an editable cell, and every note list is sorted without repeats. */
  ghost predicate GameInvariant(puzzleState: Option<Puzzle>, originalCells: seq<Cell>, cells: seq<Cell>,
                                selectedIndex: Option<int>)
  {
    |cells| == |originalCells| &&
    (puzzleState.None? ==> cells == []) &&
    (puzzleState.Some? ==> GoodPuzzle(puzzleState.value) && originalCells == ToCellState(puzzleState.value.puzzle)) &&
    (forall i :: 0 <= i < |cells| ==>
      cells[i].isInitial == originalCells[i].isInitial &&
      (cells[i].isInitial ==> cells[i] == originalCells[i])) &&
    (selectedIndex.Some? ==> 0 <= selectedIndex.value < |cells| && !cells[selectedIndex.value].isInitial) &&
    NotesSorted(cells)
  }

  /** What generatePuzzle guarantees of a game: the givens are solution
      digits, and a generated solution is the puzzle's only completion. */
  ghost predicate GoodPuzzle(game: Puzzle) {
    IsGrid(game.puzzle) && IsGrid(game.solution) &&
    Agrees(game.puzzle, game.solution) &&
    (Solved(game.solution) ==> Completed(game.puzzle) == {game.solution})
  }

  /** A fresh board, with nothing selected, is a valid state. */
  lemma FreshBoard(game: Puzzle)
    requires GoodPuzzle(game)
    ensures GameInvariant(Some(game), ToCellState(game.puzzle), ToCellState(game.puzzle), None)
  {
    var cells := ToCellState(game.puzzle);
    forall i | 0 <= i < 81
      ensures StrictlySorted(cells[i].notes)
    {
      assert cells[i].notes == [];
    }
  }
}

/** Mistake flags and the completion test: the two effects of the
    validation hook, and the same two effects inside the game-state hook. */
module SudokuValidation {
  import opened SudokuGrid
  import opened SudokuCells

  /** The flag a cell gets when mistakes are recalculated: givens and
      empty cells are never flagged; any other cell is flagged exactly when
      mistakes are shown and its value is not the solution digit. */
  function RecalcCell(cell: Cell, correct: int, showMistakes: bool): (next: Cell)
    ensures next.value == cell.value && next.isInitial == cell.isInitial && next.notes == cell.notes
    ensures next.isIncorrect <==> !cell.isInitial && cell.value != 0 && showMistakes && cell.value != correct
  {
    if cell.isInitial || cell.value == 0 then cell.(isIncorrect := false)
    else cell.(isIncorrect := showMistakes && cell.value != correct)
  }

  /** The recalculation map: every cell gets its flag recomputed, in
      place, against the solution digit of its index. */
  function Recalc(cells: seq<Cell>, solution: Grid, showMistakes: bool): (next: seq<Cell>)
    requires IsGrid(solution) && |cells| <= 81
    ensures |next| == |cells|
    ensures forall i :: 0 <= i < |cells| ==>
      next[i].value == cells[i].value && next[i].isInitial == cells[i].isInitial &&
      next[i].notes == cells[i].notes
    ensures forall i :: 0 <= i < |cells| ==>
      (next[i].isIncorrect <==>
        !cells[i].isInitial && cells[i].value != 0 && showMistakes && cells[i].value != CorrectAt(solution, i))
  {
    seq(|cells|, i requires 0 <= i < |cells| => RecalcCell(cells[i], CorrectAt(solution, i), showMistakes))
  }

  /** The mistake effect of both hooks: nothing happens before a game
      exists. */
  function MistakeEffect(cells: seq<Cell>, puzzleState: Option<Puzzle>, showMistakes: bool): (next: seq<Cell>)
    requires puzzleState.Some? ==> IsGrid(puzzleState.value.solution) && |cells| <= 81
    ensures puzzleState.None? ==> next == cells
    ensures puzzleState.Some? ==> next == Recalc(cells, puzzleState.value.solution, showMistakes)
  {
    if puzzleState.None? then cells else Recalc(cells, puzzleState.value.solution, showMistakes)
  }

  /** Every cell holds its solution digit. */
  predicate AllCorrect(cells: seq<Cell>, solution: Grid)
    requires IsGrid(solution) && |cells| <= 81
  {
    forall i :: 0 <= i < |cells| ==> cells[i].value == CorrectAt(solution, i)
  }

  predicate NoneIncorrect(cells: seq<Cell>) {
    forall i :: 0 <= i < |cells| ==> !cells[i].isIncorrect
  }

  /** The completion effect of the game-state hook: the new isComplete. */
  function CompletionEffect(cells: seq<Cell>, puzzleState: Option<Puzzle>, isComplete: bool): (complete: bool)
    requires puzzleState.Some? ==> IsGrid(puzzleState.value.solution) && |cells| <= 81
    ensures isComplete ==> complete
    ensures complete && !isComplete ==>
      puzzleState.Some? && AllCorrect(cells, puzzleState.value.solution) && NoneIncorrect(cells)
    ensures puzzleState.Some? && AllCorrect(cells, puzzleState.value.solution) && NoneIncorrect(cells) ==> complete
  {
    if puzzleState.None? then isComplete
    else if AllCorrect(cells, puzzleState.value.solution) && NoneIncorrect(cells) then true
    else isComplete
  }

  /** The completion effect of the validation hook: the new isComplete,
      and whether the timer is stopped. It also does nothing on an empty
      board. */
  function ValidationCompletion(cells: seq<Cell>, puzzleState: Option<Puzzle>, isComplete: bool): (r: (bool, bool))
    requires puzzleState.Some? ==> IsGrid(puzzleState.value.solution) && |cells| <= 81
    ensures isComplete ==> r.0
    ensures r.1 <==>
      puzzleState.Some? && cells != [] && AllCorrect(cells, puzzleState.value.solution) && NoneIncorrect(cells)
    ensures r.0 <==> isComplete || r.1
  {
    if puzzleState.None? || cells == [] then (isComplete, false)
    else if AllCorrect(cells, puzzleState.value.solution) && NoneIncorrect(cells) then (true, true)
    else (isComplete, false)
  }

  // ---------------------------------------------------------------------
  // Properties of the recalculation.

  /** Recalculating twice is recalculating once. */
  lemma RecalcIdempotent(cells: seq<Cell>, solution: Grid, showMistakes: bool)
    requires IsGrid(solution) && |cells| <= 81
    ensures Recalc(Recalc(cells, solution, showMistakes), solution, showMistakes) ==
            Recalc(cells, solution, showMistakes)
  {
    var once := Recalc(cells, solution, showMistakes);
    var twice := Recalc(once, solution, showMistakes);
    forall i | 0 <= i < |cells|
      ensures twice[i] == once[i]
    {
    }
  }

  /** With mistakes hidden nothing is flagged. */
  lemma RecalcHidden(cells: seq<Cell>, solution: Grid)
    requires IsGrid(solution) && |cells| <= 81
    ensures NoneIncorrect(Recalc(cells, solution, false))
  {
  }

  /** A recalculated flag is exactly what the number pad sets on entry: a
      digit just entered in value mode keeps its flag through the
      recalculation. */
  lemma EntryAgreesWithRecalc(cells: seq<Cell>, selected: Option<int>, isComplete: bool, num: int,
                              solution: Grid, showMistakes: bool)
    requires IsGrid(solution) && |cells| <= 81 && num != 0
    requires selected.Some? && 0 <= selected.value < |cells| && Editable(cells, selected, isComplete, selected.value)
    ensures
      var next := NumberCells(cells, selected, isComplete, false, num, solution, showMistakes);
      Recalc(next, solution, showMistakes)[selected.value] == next[selected.value]
  {
  }

  /** Once every value is right, the recalculation clears every flag, so
      the completion test then succeeds. */
  lemma CorrectBoardCompletes(cells: seq<Cell>, puzzle: Puzzle, showMistakes: bool, isComplete: bool)
    requires IsGrid(puzzle.solution) && |cells| <= 81 && AllCorrect(cells, puzzle.solution)
    ensures NoneIncorrect(Recalc(cells, puzzle.solution, showMistakes))
    ensures CompletionEffect(Recalc(cells, puzzle.solution, showMistakes), Some(puzzle), isComplete)
  {
  }

  /** The two hooks' completion effects agree on every non-empty board;
      on an empty board only the game-state hook's sets completion. */
  lemma CompletionEffectsAgree(cells: seq<Cell>, puzzleState: Option<Puzzle>, isComplete: bool)
    requires puzzleState.Some? ==> IsGrid(puzzleState.value.solution) && |cells| <= 81
    ensures cells != [] ==> ValidationCompletion(cells, puzzleState, isComplete).0 ==
                            CompletionEffect(cells, puzzleState, isComplete)
    ensures cells == [] && puzzleState.Some? ==> CompletionEffect(cells, puzzleState, isComplete)
    ensures cells == [] ==> ValidationCompletion(cells, puzzleState, isComplete).0 == isComplete
  {
  }
}

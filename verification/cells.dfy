/** The gameplay board: 81 cell records in row-major order, built from a
    puzzle grid, and the per-cell rules of the clear button and the number
    pad (value entry and the pencil-note toggle). */
module SudokuCells {
  import opened SudokuGrid

  /** One cell of the board as the game shows it. */
  datatype Cell = Cell(value: int, isInitial: bool, isIncorrect: bool, notes: seq<int>)

  /** A generated game: the carved puzzle and its full solution. */
  datatype Puzzle = Puzzle(puzzle: Grid, solution: Grid)

  /** The solution digit of board index i (row i / 9, column i % 9). */
  function CorrectAt(solution: Grid, i: int): int
    requires IsGrid(solution) && 0 <= i < 81
  {
    solution[i / 9][i % 9]
  }

  // ---------------------------------------------------------------------
  // toCellState.

  /** Array.prototype.flat on rows of nine: the rows one after the other. */
  function Flatten(rows: seq<seq<int>>): (flat: seq<int>)
    requires forall r :: 0 <= r < |rows| ==> |rows[r]| == 9
    ensures |flat| == 9 * |rows|
    ensures forall i :: 0 <= i < |flat| ==> flat[i] == rows[i / 9][i % 9]
  {
    if rows == [] then []
    else
      var rest := Flatten(rows[1..]);
      assert forall i :: 9 <= i < 9 * |rows| ==> (i - 9) / 9 == i / 9 - 1 && (i - 9) % 9 == i % 9;
      rows[0] + rest
  }

  /** toCellState: one record per cell, in row-major order; the givens are
      exactly the nonzero cells, nothing is flagged and no cell has notes. */
  function ToCellState(puzzle: Grid): (cells: seq<Cell>)
    requires IsGrid(puzzle)
    ensures |cells| == 81
    ensures forall i :: 0 <= i < 81 ==>
      cells[i].value == puzzle[i / 9][i % 9] && (cells[i].isInitial <==> puzzle[i / 9][i % 9] != 0) &&
      !cells[i].isIncorrect && cells[i].notes == []
  {
    var flat := Flatten(puzzle);
    seq(81, i requires 0 <= i < 81 => Cell(flat[i], flat[i] != 0, false, []))
  }

  /** The grid of values of an 81-cell board. */
  function Values(cells: seq<Cell>): (g: Grid)
    requires |cells| == 81
    ensures IsGrid(g)
    ensures forall r, c :: InRange(r, c) ==> g[r][c] == cells[9 * r + c].value
  {
    seq(9, r requires 0 <= r < 9 => seq(9, c requires 0 <= c < 9 => cells[9 * r + c].value))
  }

  /** The board toCellState builds shows exactly the puzzle it came from. */
  lemma ValuesOfCellState(puzzle: Grid)
    requires IsGrid(puzzle)
    ensures Values(ToCellState(puzzle)) == puzzle
  {
    var cells := ToCellState(puzzle);
    forall r, c | InRange(r, c)
      ensures Values(cells)[r][c] == puzzle[r][c]
    {
      var i := 9 * r + c;
      assert i / 9 == r && i % 9 == c;
    }
    GridExt(Values(cells), puzzle);
  }

  // ---------------------------------------------------------------------
  // Pencil notes.

  predicate Sorted(s: seq<int>) {
    forall i, j :: 0 <= i < j < |s| ==> s[i] <= s[j]
  }

  /** Sorted with no repeats: the shape every note list keeps. */
  predicate StrictlySorted(s: seq<int>) {
    forall i, j :: 0 <= i < j < |s| ==> s[i] < s[j]
  }

  /** Insertion into a sorted list, as one step of the sort. */
  function Insert(x: int, s: seq<int>): (t: seq<int>)
    requires Sorted(s)
    ensures Sorted(t) && |t| == |s| + 1
    ensures t[0] == x || (s != [] && t[0] == s[0])
    ensures multiset(t) == multiset(s) + multiset{x}
  {
    if s == [] || x <= s[0] then [x] + s
    else
      var rest := Insert(x, s[1..]);
      assert s == [s[0]] + s[1..];
      assert forall k :: 0 <= k < |rest| ==> s[0] <= rest[0] <= rest[k];
      [s[0]] + rest
  }

  /** The ascending sort applied to a note list after a note is added:
      a sorted permutation of its input. */
  function SortNotes(s: seq<int>): (t: seq<int>)
    ensures Sorted(t) && multiset(t) == multiset(s)
  {
    if s == [] then []
    else
      assert s == [s[0]] + s[1..];
      Insert(s[0], SortNotes(s[1..]))
  }

  /** Array.prototype.filter keeping every note other than `x`, in order. */
  function Remove(s: seq<int>, x: int): (t: seq<int>)
    ensures forall y :: y in t <==> y in s && y != x
    ensures StrictlySorted(s) ==> StrictlySorted(t)
  {
    if s == [] then []
    else
      var rest := Remove(s[1..], x);
      assert s == [s[0]] + s[1..];
      assert StrictlySorted(s) ==> forall k :: 0 <= k < |rest| ==> s[0] < rest[k] by {
        if StrictlySorted(s) {
          forall k | 0 <= k < |rest|
            ensures s[0] < rest[k]
          {
            assert rest[k] in rest;
            var j :| 0 <= j < |s[1..]| && s[1..][j] == rest[k];
            assert s[j + 1] == rest[k];
          }
        }
      }
      if s[0] == x then rest else [s[0]] + rest
  }

  /** The note-mode rule: a note present is removed, otherwise it is
      appended and the list sorted. */
  function ToggleNote(notes: seq<int>, num: int): (t: seq<int>)
    ensures num in t <==> num !in notes
    ensures forall y :: y != num ==> (y in t <==> y in notes)
  {
    if num in notes then Remove(notes, num)
    else
      var t := SortNotes(notes + [num]);
      assert forall y :: y in t <==> y in multiset(notes + [num]);
      t
  }

  /** Inserting the head of a sorted list last gives the same list as
      inserting it first. */
  lemma InsertHead(h: int, x: int, tail: seq<int>)
    requires Sorted(tail) && Sorted([h] + tail)
    ensures Insert(h, Insert(x, tail)) == Insert(x, [h] + tail)
  {
    var s := [h] + tail;
    assert tail == s[1..];
    var inner := Insert(x, tail);
    if x <= h {
      assert inner == [x] + tail;
      assert Insert(h, tail) == s;
    } else {
      if tail != [] {
        assert s[0] <= s[1] && s[1] == tail[0];
      }
      assert h <= inner[0];
    }
  }

  /** Sorting a sorted list with one element appended inserts it. */
  lemma {:induction false} SortAppend(s: seq<int>, x: int)
    requires Sorted(s)
    ensures SortNotes(s + [x]) == Insert(x, s)
  {
    if s != [] {
      var tail := s[1..];
      assert (s + [x])[1..] == tail + [x];
      assert s == [s[0]] + tail;
      assert Sorted(tail);
      SortAppend(tail, x);
      InsertHead(s[0], x, tail);
    }
  }

  /** Inserting a new element into a list without repeats keeps it without
      repeats and adds exactly that element. */
  lemma {:induction false} InsertStrict(x: int, s: seq<int>)
    requires StrictlySorted(s) && x !in s
    ensures StrictlySorted(Insert(x, s))
    ensures forall y :: y in Insert(x, s) <==> y == x || y in s
  {
    if s != [] && x > s[0] {
      InsertStrict(x, s[1..]);
      assert s == [s[0]] + s[1..];
    }
  }

  /** Two lists without repeats holding the same elements are the same
      list. */
  lemma {:induction false} StrictUnique(a: seq<int>, b: seq<int>)
    requires StrictlySorted(a) && StrictlySorted(b)
    requires forall y :: y in a <==> y in b
    ensures a == b
    decreases |a|
  {
    assert a == [] <==> b == [] by {
      if a != [] {
        assert a[0] in a;
      }
      if b != [] {
        assert b[0] in b;
      }
    }
    if a != [] {
      assert a[0] in b && b != [];
      assert b[0] in a;
      assert a[0] == b[0];
      forall y
        ensures y in a[1..] <==> y in b[1..]
      {
        assert y in a[1..] <==> y in a && y != a[0];
        assert y in b[1..] <==> y in b && y != b[0];
      }
      StrictUnique(a[1..], b[1..]);
      assert a == [a[0]] + a[1..] && b == [b[0]] + b[1..];
    }
  }

  /** Toggling keeps the note list sorted without repeats, and flips
      exactly the membership of `num`. */
  lemma ToggleNoteShape(notes: seq<int>, num: int)
    requires StrictlySorted(notes)
    ensures StrictlySorted(ToggleNote(notes, num))
    ensures forall y :: y in ToggleNote(notes, num) <==> (if y == num then num !in notes else y in notes)
  {
    if num !in notes {
      SortAppend(notes, num);
      InsertStrict(num, notes);
    }
  }

  /** Toggling the same note twice gives the note list back. */
  lemma ToggleNoteTwice(notes: seq<int>, num: int)
    requires StrictlySorted(notes)
    ensures ToggleNote(ToggleNote(notes, num), num) == notes
  {
    var once := ToggleNote(notes, num);
    ToggleNoteShape(notes, num);
    ToggleNoteShape(once, num);
    StrictUnique(ToggleNote(once, num), notes);
  }

  // ---------------------------------------------------------------------
  // The clear button and the number pad.

  /** The selected cell, unless nothing is selected or the game is over. */
  predicate Editable(cells: seq<Cell>, selected: Option<int>, isComplete: bool, i: int)
    requires 0 <= i < |cells|
  {
    selected == Some(i) && !isComplete && !cells[i].isInitial
  }

  /** handleClear's map: the selected cell, when it is not a given, loses
      its value, its notes and its flag; nothing else changes. */
  function ClearCells(cells: seq<Cell>, selected: Option<int>, isComplete: bool): (next: seq<Cell>)
    ensures |next| == |cells|
    ensures forall i :: 0 <= i < |cells| && !Editable(cells, selected, isComplete, i) ==> next[i] == cells[i]
    ensures forall i :: 0 <= i < |cells| && Editable(cells, selected, isComplete, i) ==>
      next[i] == Cell(0, false, false, [])
  {
    if selected.None? || isComplete then cells
    else
      seq(|cells|, i requires 0 <= i < |cells| =>
        if i == selected.value && !cells[i].isInitial
        then cells[i].(value := 0, notes := [], isIncorrect := false)
        else cells[i])
  }

  /** handleNumberClick's map. In note mode the selected cell's notes
      toggle `num` and its value stays; otherwise it takes `num`, loses its
      notes, and is flagged when mistakes are shown and `num` is not the
      solution digit. Givens and unselected cells never change. */
  function NumberCells(cells: seq<Cell>, selected: Option<int>, isComplete: bool, noteMode: bool,
                       num: int, solution: Grid, showMistakes: bool): (next: seq<Cell>)
    requires IsGrid(solution) && |cells| <= 81
    ensures |next| == |cells|
    ensures forall i :: 0 <= i < |cells| && !Editable(cells, selected, isComplete, i) ==> next[i] == cells[i]
    ensures forall i :: 0 <= i < |cells| && Editable(cells, selected, isComplete, i) && noteMode ==>
      next[i] == cells[i].(notes := ToggleNote(cells[i].notes, num))
    ensures forall i :: 0 <= i < |cells| && Editable(cells, selected, isComplete, i) && !noteMode ==>
      next[i] == Cell(num, false, showMistakes && num != CorrectAt(solution, i), [])
  {
    if selected.None? || isComplete then cells
    else
      seq(|cells|, i requires 0 <= i < |cells| =>
        if i != selected.value || cells[i].isInitial then cells[i]
        else if noteMode then cells[i].(notes := ToggleNote(cells[i].notes, num))
        else cells[i].(value := num, notes := [], isIncorrect := showMistakes && num != CorrectAt(solution, i)))
  }

  /** Every note list on the board is sorted without repeats. */
  predicate NotesSorted(cells: seq<Cell>) {
    forall i :: 0 <= i < |cells| ==> StrictlySorted(cells[i].notes)
  }

  /** The clear button and the number pad keep every note list sorted
      without repeats. */
  lemma EditsKeepNotesSorted(cells: seq<Cell>, selected: Option<int>, isComplete: bool, noteMode: bool,
                             num: int, solution: Grid, showMistakes: bool)
    requires IsGrid(solution) && |cells| <= 81 && NotesSorted(cells)
    ensures NotesSorted(ClearCells(cells, selected, isComplete))
    ensures NotesSorted(NumberCells(cells, selected, isComplete, noteMode, num, solution, showMistakes))
  {
    var next := NumberCells(cells, selected, isComplete, noteMode, num, solution, showMistakes);
    forall i | 0 <= i < |next|
      ensures StrictlySorted(next[i].notes)
    {
      if Editable(cells, selected, isComplete, i) && noteMode {
        ToggleNoteShape(cells[i].notes, num);
      }
    }
  }

  /** Pressing the same digit twice in note mode gives the board back. */
  lemma NoteTwice(cells: seq<Cell>, selected: Option<int>, isComplete: bool, num: int,
                  solution: Grid, showMistakes: bool)
    requires IsGrid(solution) && |cells| <= 81 && NotesSorted(cells)
    ensures NumberCells(NumberCells(cells, selected, isComplete, true, num, solution, showMistakes),
                        selected, isComplete, true, num, solution, showMistakes) == cells
  {
    var once := NumberCells(cells, selected, isComplete, true, num, solution, showMistakes);
    var twice := NumberCells(once, selected, isComplete, true, num, solution, showMistakes);
    forall i | 0 <= i < |cells|
      ensures twice[i] == cells[i]
    {
      if Editable(cells, selected, isComplete, i) {
        ToggleNoteTwice(cells[i].notes, num);
      }
    }
  }

  /** Clearing twice is clearing once, and so is entering the same digit
      twice in value mode. */
  lemma EditsIdempotent(cells: seq<Cell>, selected: Option<int>, isComplete: bool, num: int,
                        solution: Grid, showMistakes: bool)
    requires IsGrid(solution) && |cells| <= 81
    ensures ClearCells(ClearCells(cells, selected, isComplete), selected, isComplete) ==
            ClearCells(cells, selected, isComplete)
    ensures NumberCells(NumberCells(cells, selected, isComplete, false, num, solution, showMistakes),
                        selected, isComplete, false, num, solution, showMistakes) ==
            NumberCells(cells, selected, isComplete, false, num, solution, showMistakes)
  {
  }
}

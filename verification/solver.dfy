/** The puzzle engine: the constraint check, the two backtracking fills, the
    solution counter and the carving loop. Each works in place on a 9x9
    board; the ghost parameter `g` names the grid the board holds on entry,
    and every contract is stated against the value-level search of
    SudokuGrid. */
module SudokuSolver {
  import opened SudokuGrid

  /** The first n cells of row r of a board. */
  function RowOf(b: array2<int>, r: int, n: int): (row: seq<int>)
    requires b.Length0 == 9 && b.Length1 == 9 && 0 <= r < 9 && 0 <= n <= 9
    reads b
    ensures |row| == n && forall c :: 0 <= c < n ==> row[c] == b[r, c]
  {
    if n == 0 then [] else RowOf(b, r, n - 1) + [b[r, n - 1]]
  }

  /** The first n rows of a board. */
  function RowsOf(b: array2<int>, n: int): (g: Grid)
    requires b.Length0 == 9 && b.Length1 == 9 && 0 <= n <= 9
    reads b
    ensures |g| == n && forall r :: 0 <= r < n ==> g[r] == RowOf(b, r, 9)
  {
    if n == 0 then [] else RowsOf(b, n - 1) + [RowOf(b, n - 1, 9)]
  }

  /** The grid a 9x9 board currently holds. */
  function Snapshot(b: array2<int>): (g: Grid)
    requires b.Length0 == 9 && b.Length1 == 9
    reads b
    ensures IsGrid(g) && forall r, c :: InRange(r, c) ==> g[r][c] == b[r, c]
  {
    RowsOf(b, 9)
  }

  /** A 9x9 board holds the grid g. */
  ghost predicate Holds(b: array2<int>, g: Grid)
    reads b
  {
    b.Length0 == 9 && b.Length1 == 9 && IsGrid(g) && forall r, c :: InRange(r, c) ==> b[r, c] == g[r][c]
  }

  /** The i-th cell of the scan isValid makes of the box of (row, col); it
      lies in that box. */
  function BoxScan(row: int, col: int, i: int): (p: (int, int))
    requires InRange(row, col) && 0 <= i < 9
    ensures InRange(p.0, p.1) && Sees(row, col, p.0, p.1)
  {
    (3 * (row / 3) + i / 3, 3 * (col / 3) + i % 3)
  }

  /** Every cell of the box of (row, col) is visited by that scan. */
  lemma BoxScanCovers(row: int, col: int, r: int, c: int)
    requires InRange(row, col) && InRange(r, c) && r / 3 == row / 3 && c / 3 == col / 3
    ensures 0 <= 3 * (r % 3) + c % 3 < 9 && BoxScan(row, col, 3 * (r % 3) + c % 3) == (r, c)
  {
    var a, b := r % 3, c % 3;
    assert (3 * a + b) / 3 == a && (3 * a + b) % 3 == b;
    assert r == 3 * (row / 3) + a && c == 3 * (col / 3) + b;
  }

  /** isValid: true exactly when `num` is absent from the row, the column
      and the 3x3 box of (row, col). Reads the board only. */
  method IsValid(board: array2<int>, ghost g: Grid, row: int, col: int, num: int) returns (ok: bool)
    requires board.Length0 == 9 && board.Length1 == 9 && IsGrid(g) && InRange(row, col)
    requires forall r, c :: InRange(r, c) ==> board[r, c] == g[r][c]
    ensures ok <==> Allowed(g, row, col, num)
  {
    for i := 0 to 9
      invariant forall j :: 0 <= j < i ==> g[row][j] != num && g[j][col] != num
      invariant forall j :: 0 <= j < i ==> var p := BoxScan(row, col, j); g[p.0][p.1] != num
    {
      if board[row, i] == num || board[i, col] == num {
        assert Sees(row, col, row, i) && Sees(row, col, i, col);
        return false;
      }
      var boxRow := 3 * (row / 3) + i / 3;
      var boxCol := 3 * (col / 3) + i % 3;
      assert (boxRow, boxCol) == BoxScan(row, col, i);
      if board[boxRow, boxCol] == num {
        return false;
      }
    }
    forall r, c | InRange(r, c) && Sees(row, col, r, c)
      ensures g[r][c] != num
    {
      if r != row && c != col {
        BoxScanCovers(row, col, r, c);
      }
    }
    return true;
  }

  /** The row-major scan solve(), fill() and backtrack() each open with:
      the first empty cell, or None when the board is full. */
  method FirstEmpty(board: array2<int>, ghost g: Grid) returns (pos: Option<(int, int)>)
    requires board.Length0 == 9 && board.Length1 == 9 && IsGrid(g)
    requires forall r, c :: InRange(r, c) ==> board[r, c] == g[r][c]
    ensures pos == FirstZero(g)
  {
    for row := 0 to 9
      invariant forall r, c :: InRange(r, c) && r < row ==> g[r][c] != 0
    {
      for col := 0 to 9
        invariant forall r, c :: InRange(r, c) && Before(r, c, row, col) ==> g[r][c] != 0
      {
        if board[row, col] == 0 {
          FirstZeroIs(g, row, col);
          return Some((row, col));
        }
      }
    }
    assert Full(g);
    return None;
  }

  /** The unused deterministic solver. `h` is the grid the board holds on
      return: one of the completions of `g` on success; on failure the
      board is as it was and `g` has no completion. */
  method Solve(board: array2<int>, ghost g: Grid) returns (solved: bool, ghost h: Grid)
    requires board.Length0 == 9 && board.Length1 == 9 && IsGrid(g)
    requires forall r, c :: InRange(r, c) ==> board[r, c] == g[r][c]
    modifies board
    ensures IsGrid(h) && forall r, c :: InRange(r, c) ==> board[r, c] == h[r][c]
    ensures solved ==> h in Completed(g)
    ensures !solved ==> h == g && Completed(g) == {}
    decreases Zeros(g), 1
  {
    var pos := FirstEmpty(board, g);
    if pos.None? {
      CompletedEdgeCases(g);
      return true, g;
    }
    var (row, col) := pos.value;
    OrderedIsShuffle();
    for num := 1 to 10
      invariant forall r, c :: InRange(r, c) ==> board[r, c] == g[r][c]
      invariant Tried(g, row, col, Ordered(), num - 1) == {}
    {
      var done;
      done, h := SolveDigit(board, g, row, col, num);
      if done {
        TriedHas(g, row, col, Ordered(), 9, num - 1, h);
        CompletedAt(g, row, col, Ordered());
        return true, h;
      }
    }
    CompletedAt(g, row, col, Ordered());
    return false, g;
  }

  /** One pass of solve()'s digit loop, the counterpart of FillDigit. */
  method SolveDigit(board: array2<int>, ghost g: Grid, row: int, col: int, num: int) returns (done: bool, ghost h: Grid)
    requires board.Length0 == 9 && board.Length1 == 9 && IsGrid(g)
    requires forall r, c :: InRange(r, c) ==> board[r, c] == g[r][c]
    requires InRange(row, col) && g[row][col] == 0 && 1 <= num <= 9
    modifies board
    ensures IsGrid(h) && forall r, c :: InRange(r, c) ==> board[r, c] == h[r][c]
    ensures done ==> h in Branch(g, row, col, num)
    ensures !done ==> h == g && Branch(g, row, col, num) == {}
    decreases Zeros(g), 0
  {
    var ok := IsValid(board, g, row, col, num);
    if !ok {
      return false, g;
    }
    board[row, col] := num;
    ZerosPut(g, row, col, num);
    done, h := Solve(board, Put(g, row, col, num));
    if !done {
      board[row, col] := 0;
      h := g;
    }
  }

  /** The shuffle of 1..9 fill() draws on entry, looked up for the board
      as it stands. */
  method Draw(board: array2<int>, order: Grid -> seq<int>) returns (nums: seq<int>)
    requires board.Length0 == 9 && board.Length1 == 9
    requires forall key :: IsShuffle(order(key))
    ensures IsShuffle(nums)
  {
    nums := order(Snapshot(board));
  }

  /** generateFullBoard's inner fill(). `order` stands for the random
      shuffle of 1..9 drawn at each call, keyed by the board it is drawn
      for. `h` is the grid the board holds on return: one of the
      completions of `g` on success; on failure the board is as it was and
      `g` has no completion. */
  method Fill(board: array2<int>, ghost g: Grid, order: Grid -> seq<int>) returns (filled: bool, ghost h: Grid)
    requires board.Length0 == 9 && board.Length1 == 9 && IsGrid(g)
    requires forall r, c :: InRange(r, c) ==> board[r, c] == g[r][c]
    requires forall key :: IsShuffle(order(key))
    modifies board
    ensures IsGrid(h) && forall r, c :: InRange(r, c) ==> board[r, c] == h[r][c]
    ensures filled ==> h in Completed(g)
    ensures !filled ==> h == g && Completed(g) == {}
    decreases Zeros(g), 1
  {
    var nums := Draw(board, order);
    var pos := FirstEmpty(board, g);
    if pos.None? {
      CompletedEdgeCases(g);
      return true, g;
    }
    var (row, col) := pos.value;
    for k := 0 to 9
      invariant forall r, c :: InRange(r, c) ==> board[r, c] == g[r][c]
      invariant Tried(g, row, col, nums, k) == {}
    {
      var done;
      done, h := FillDigit(board, g, row, col, nums[k], order);
      if done {
        TriedHas(g, row, col, nums, 9, k, h);
        CompletedAt(g, row, col, nums);
        return true, h;
      }
    }
    CompletedAt(g, row, col, nums);
    return false, g;
  }

  /** One pass of fill()'s digit loop: place `num` if the
      check allows it and recurse, undoing the placement when that fails.
      On success the board holds a grid of this digit's branch; otherwise
      the board is as it was and the branch is empty. */
  method FillDigit(board: array2<int>, ghost g: Grid, row: int, col: int, num: int, order: Grid -> seq<int>)
    returns (done: bool, ghost h: Grid)
    requires board.Length0 == 9 && board.Length1 == 9 && IsGrid(g)
    requires forall r, c :: InRange(r, c) ==> board[r, c] == g[r][c]
    requires InRange(row, col) && g[row][col] == 0 && 1 <= num <= 9
    requires forall key :: IsShuffle(order(key))
    modifies board
    ensures IsGrid(h) && forall r, c :: InRange(r, c) ==> board[r, c] == h[r][c]
    ensures done ==> h in Branch(g, row, col, num)
    ensures !done ==> h == g && Branch(g, row, col, num) == {}
    decreases Zeros(g), 0
  {
    var ok := IsValid(board, g, row, col, num);
    if !ok {
      return false, g;
    }
    board[row, col] := num;
    ZerosPut(g, row, col, num);
    done, h := Fill(board, Put(g, row, col, num), order);
    if !done {
      board[row, col] := 0;
      h := g;
    }
  }

  /** generateFullBoard: fill an empty board. The source ignores whether
      fill() succeeded; the board then holds a solved grid, or is still
      empty, and the latter only if the empty grid had no completion. */
  method GenerateFullBoard(order: Grid -> seq<int>) returns (board: array2<int>, ghost sol: Grid)
    requires forall key :: IsShuffle(order(key))
    ensures fresh(board) && board.Length0 == 9 && board.Length1 == 9
    ensures IsGrid(sol) && forall r, c :: InRange(r, c) ==> board[r, c] == sol[r][c]
    ensures Solved(sol) || (sol == EmptyGrid() && Completed(EmptyGrid()) == {})
  {
    board := new int[9, 9]((_, _) => 0);
    var filled;
    filled, sol := Fill(board, EmptyGrid(), order);
    if filled {
      CompletedSolved(EmptyGrid(), sol);
    }
  }

  /** copyBoard: a fresh board with the same cells. */
  method CopyBoard(board: array2<int>) returns (copy: array2<int>)
    ensures fresh(copy) && copy.Length0 == board.Length0 && copy.Length1 == board.Length1
    ensures forall r, c :: 0 <= r < board.Length0 && 0 <= c < board.Length1 ==> copy[r, c] == board[r, c]
  {
    copy := new int[board.Length0, board.Length1];
    for r := 0 to board.Length0
      invariant forall i, j :: 0 <= i < r && 0 <= j < board.Length1 ==> copy[i, j] == board[i, j]
    {
      for c := 0 to board.Length1
        invariant forall i, j :: 0 <= i < r && 0 <= j < board.Length1 ==> copy[i, j] == board[i, j]
        invariant forall j :: 0 <= j < c ==> copy[r, j] == board[r, j]
      {
        copy[r, c] := board[r, c];
      }
    }
  }

  /** countSolutions' inner backtrack(). `count` is the counter the closure
      shares with countSolutions, passed in and handed back. The source
      returns true from the loop only after a recursive call returned true,
      and its base case returns false, so it never returns true: the
      `count >= limit` exit is dead. Here that exit is the `stop` flag,
      which therefore stays false. Every trial digit is undone, and the
      counter grows by Count(g), the number of completions of `g`. */
  method Backtrack(board: array2<int>, ghost g: Grid, count: int, limit: int) returns (found: bool, count': int)
    requires board.Length0 == 9 && board.Length1 == 9 && IsGrid(g)
    requires forall r, c :: InRange(r, c) ==> board[r, c] == g[r][c]
    modifies board
    ensures !found
    ensures forall r, c :: InRange(r, c) ==> board[r, c] == g[r][c]
    ensures count' == count + Count(g)
    decreases Zeros(g), 1
  {
    var pos := FirstEmpty(board, g);
    if pos.None? {
      count' := count + 1;
      return false, count';
    }
    var (row, col) := pos.value;
    count' := count;
    var stop := false;
    var k := 0;
    while k < 9 && !stop
      invariant 0 <= k <= 9 && !stop
      invariant forall r, c :: InRange(r, c) ==> board[r, c] == g[r][c]
      invariant count' == count + CountUpTo(g, row, col, k)
    {
      stop, count' := CountDigit(board, g, row, col, k + 1, count', limit);
      k := k + 1;
    }
    return stop, count';
  }

  /** One pass of backtrack()'s digit loop: place `num`
      if the check allows it, count below it, and undo it. The `stop` exit
      is the source's `count >= limit` return, which cannot be taken; the
      counter grows by the completions below this digit. */
  method CountDigit(board: array2<int>, ghost g: Grid, row: int, col: int, num: int, count: int, limit: int)
    returns (stop: bool, count': int)
    requires board.Length0 == 9 && board.Length1 == 9 && IsGrid(g)
    requires forall r, c :: InRange(r, c) ==> board[r, c] == g[r][c]
    requires InRange(row, col) && g[row][col] == 0 && 1 <= num <= 9
    modifies board
    ensures !stop
    ensures forall r, c :: InRange(r, c) ==> board[r, c] == g[r][c]
    ensures count' == count + (if Allowed(g, row, col, num) then Count(Put(g, row, col, num)) else 0)
    decreases Zeros(g), 0
  {
    stop := false;
    count' := count;
    var ok := IsValid(board, g, row, col, num);
    if ok {
      board[row, col] := num;
      ZerosPut(g, row, col, num);
      var inner;
      inner, count' := Backtrack(board, Put(g, row, col, num), count, limit);
      if inner {
        count' := count' + 1;
        stop := count' >= limit;
      }
      if !stop {
        board[row, col] := 0;
      }
    }
  }

  /** countSolutions: the number of completions of the board, whatever
      `limit` is, with the board left as it was found. */
  method CountSolutions(board: array2<int>, ghost g: Grid, limit: int) returns (count: int)
    requires board.Length0 == 9 && board.Length1 == 9 && IsGrid(g)
    requires forall r, c :: InRange(r, c) ==> board[r, c] == g[r][c]
    modifies board
    ensures forall r, c :: InRange(r, c) ==> board[r, c] == g[r][c]
    ensures count == |Completed(g)|
  {
    var _, n := Backtrack(board, g, 0, limit);
    CountIsCard(g);
    count := n;
  }

  /** Number of cells generatePuzzle clears for a difficulty label. */
  function MaxRemoved(difficulty: string): (n: nat)
    ensures difficulty == "easy" <==> n == 35
    ensures difficulty == "medium" <==> n == 45
    ensures difficulty != "easy" && difficulty != "medium" <==> n == 55
  {
    if difficulty == "easy" then 35 else if difficulty == "medium" then 45 else 55
  }

  /** One carving step, the body of generatePuzzle's while loop: a filled
      cell is emptied, and the change is kept exactly when a copy of the
      board still has exactly one completion. `q` is the grid the puzzle
      then holds. */
  method ClearCell(puzzle: array2<int>, ghost p: Grid, row: int, col: int) returns (cleared: bool, ghost q: Grid)
    requires puzzle.Length0 == 9 && puzzle.Length1 == 9 && IsGrid(p) && InRange(row, col)
    requires forall r, c :: InRange(r, c) ==> puzzle[r, c] == p[r][c]
    modifies puzzle
    ensures IsGrid(q) && forall r, c :: InRange(r, c) ==> puzzle[r, c] == q[r][c]
    ensures cleared <==> p[row][col] != 0 && |Completed(Put(p, row, col, 0))| == 1
    ensures cleared ==> q == Put(p, row, col, 0)
    ensures !cleared ==> q == p
  {
    q := p;
    cleared := false;
    if puzzle[row, col] != 0 {
      var temp := puzzle[row, col];
      puzzle[row, col] := 0;
      ghost var trial := Put(p, row, col, 0);
      var boardCopy := CopyBoard(puzzle);
      var count := CountSolutions(boardCopy, trial, 2);
      if count != 1 {
        puzzle[row, col] := temp;
      } else {
        q := trial;
        cleared := true;
      }
    }
  }

  /** What the carving loop does with a stream of picks, one pick at a
      time: while fewer than `maxRemoved` cells have been removed and picks
      remain, the next pick is emptied when it is filled and its removal
      leaves exactly one completion, and is skipped otherwise. The result is
      the final grid, the number of removals and the number of picks
      used. */
  ghost function Carved(p: Grid, maxRemoved: nat, attempts: nat, picks: seq<(int, int)>): (Grid, nat, nat)
    requires IsGrid(p)
    requires forall k :: 0 <= k < |picks| ==> InRange(picks[k].0, picks[k].1)
    decreases |picks|
  {
    if attempts >= maxRemoved || picks == [] then (p, attempts, 0)
    else
      var row, col := picks[0].0, picks[0].1;
      assert InRange(row, col);
      var rest := if p[row][col] != 0 && |Completed(Put(p, row, col, 0))| == 1
        then Carved(Put(p, row, col, 0), maxRemoved, attempts + 1, picks[1..])
        else Carved(p, maxRemoved, attempts, picks[1..]);
      (rest.0, rest.1, rest.2 + 1)
  }

  /** The carving stops only at the target or when the picks run out, and
      the target is never passed. */
  lemma {:induction false} CarvedStops(p: Grid, maxRemoved: nat, attempts: nat, picks: seq<(int, int)>)
    requires IsGrid(p) && attempts <= maxRemoved
    requires forall k :: 0 <= k < |picks| ==> InRange(picks[k].0, picks[k].1)
    ensures var r := Carved(p, maxRemoved, attempts, picks);
      attempts <= r.1 <= maxRemoved && r.2 <= |picks| && (r.1 == maxRemoved || r.2 == |picks|)
    decreases |picks|
  {
    if attempts < maxRemoved && picks != [] {
      var row, col := picks[0].0, picks[0].1;
      if p[row][col] != 0 && |Completed(Put(p, row, col, 0))| == 1 {
        CarvedStops(Put(p, row, col, 0), maxRemoved, attempts + 1, picks[1..]);
      } else {
        CarvedStops(p, maxRemoved, attempts, picks[1..]);
      }
    }
  }

  /** One step of Carved, from the k-th pick on: `q` and `a'` are the grid
      and the removal count after that pick. */
  lemma CarvedStep(p: Grid, maxRemoved: nat, attempts: nat, picks: seq<(int, int)>, k: nat, q: Grid, a': nat)
    requires IsGrid(p) && attempts < maxRemoved && k < |picks|
    requires forall j :: 0 <= j < |picks| ==> InRange(picks[j].0, picks[j].1)
    requires var row, col := picks[k].0, picks[k].1;
      assert InRange(row, col);
      if p[row][col] != 0 && |Completed(Put(p, row, col, 0))| == 1
      then q == Put(p, row, col, 0) && a' == attempts + 1
      else q == p && a' == attempts
    ensures IsGrid(q)
    ensures var r := Carved(q, maxRemoved, a', picks[k + 1..]);
      Carved(p, maxRemoved, attempts, picks[k..]) == (r.0, r.1, r.2 + 1)
  {
    assert picks[k..][0] == picks[k] && picks[k..][1..] == picks[k + 1..];
  }

  /** What each carving step keeps: the removals so far are exactly the
      new empty cells, every other cell of the start grid is kept, and
      after a removal there is exactly one completion. */
  ghost predicate CarveKeeps(p0: Grid, p: Grid, attempts: nat)
    requires IsGrid(p0) && IsGrid(p)
  {
    Zeros(p) == Zeros(p0) + attempts && Agrees(p, p0) &&
    (p == p0 || |Completed(p)| == 1) &&
    (p0 == EmptyGrid() ==> p == p0 && attempts == 0)
  }

  lemma CarveKeepsStep(p0: Grid, p: Grid, attempts: nat, row: int, col: int)
    requires IsGrid(p0) && IsGrid(p) && InRange(row, col) && CarveKeeps(p0, p, attempts)
    requires p[row][col] != 0 && |Completed(Put(p, row, col, 0))| == 1
    ensures CarveKeeps(p0, Put(p, row, col, 0), attempts + 1)
  {
    ZerosPut(p, row, col, 0);
  }

  /** What the carving keeps, for any stream of picks: starting from a
      grid that keeps it, so does the grid Carved ends with. */
  lemma {:induction false} CarvedKeeps(p0: Grid, p: Grid, maxRemoved: nat, attempts: nat, picks: seq<(int, int)>)
    requires IsGrid(p0) && IsGrid(p) && CarveKeeps(p0, p, attempts)
    requires forall k :: 0 <= k < |picks| ==> InRange(picks[k].0, picks[k].1)
    ensures var r := Carved(p, maxRemoved, attempts, picks); IsGrid(r.0) && CarveKeeps(p0, r.0, r.1)
    decreases |picks|
  {
    if attempts < maxRemoved && picks != [] {
      var row, col := picks[0].0, picks[0].1;
      assert InRange(row, col);
      if p[row][col] != 0 && |Completed(Put(p, row, col, 0))| == 1 {
        CarveKeepsStep(p0, p, attempts, row, col);
        CarvedKeeps(p0, Put(p, row, col, 0), maxRemoved, attempts + 1, picks[1..]);
      } else {
        CarvedKeeps(p0, p, maxRemoved, attempts, picks[1..]);
      }
    }
  }

  /** One round of the carving loop, on the `k`-th pick: ClearCell, with
      the count of removals and the progress through Carved brought up to
      date. */
  method CarveStep(puzzle: array2<int>, ghost p: Grid, maxRemoved: nat, attempts: nat,
                   picks: seq<(int, int)>, k: nat)
    returns (attempts': nat, ghost p': Grid)
    requires Holds(puzzle, p)
    requires forall i :: 0 <= i < |picks| ==> InRange(picks[i].0, picks[i].1)
    requires k < |picks| && attempts < maxRemoved
    modifies puzzle
    ensures Holds(puzzle, p')
    ensures var r := Carved(p', maxRemoved, attempts', picks[k + 1..]);
      Carved(p, maxRemoved, attempts, picks[k..]) == (r.0, r.1, r.2 + 1)
  {
    var (row, col) := picks[k];
    var cleared;
    cleared, p' := ClearCell(puzzle, p, row, col);
    attempts' := if cleared then attempts + 1 else attempts;
    CarvedStep(p, maxRemoved, attempts, picks, k, p', attempts');
  }

  /** The carving loop of generatePuzzle on a puzzle holding `p0`. `picks`
      stands for the stream of random cells the source draws, and bounds
      the loop: the source loops until the target is met, here the loop
      also ends when the stream is used up. The result is what Carved
      gives: `used` picks are consumed, and the loop ends at the target or
      with the stream used up. Every kept step empties one more filled cell
      of `p0` and leaves exactly one completion; an empty start never
      changes. */
  method Carve(puzzle: array2<int>, ghost p0: Grid, maxRemoved: nat, picks: seq<(int, int)>)
    returns (attempts: nat, ghost p: Grid, ghost used: nat)
    requires Holds(puzzle, p0)
    requires forall k :: 0 <= k < |picks| ==> InRange(picks[k].0, picks[k].1)
    modifies puzzle
    ensures Holds(puzzle, p)
    ensures Carved(p0, maxRemoved, 0, picks) == (p, attempts, used)
    ensures attempts == maxRemoved || used == |picks|
    ensures attempts <= maxRemoved && used <= |picks|
    ensures CarveKeeps(p0, p, attempts)
  {
    p := p0;
    attempts := 0;
    var k := 0;
    while attempts < maxRemoved && k < |picks|
      invariant 0 <= k <= |picks| && Holds(puzzle, p)
      invariant var r := Carved(p, maxRemoved, attempts, picks[k..]);
        Carved(p0, maxRemoved, 0, picks) == (r.0, r.1, r.2 + k)
      decreases |picks| - k
    {
      attempts, p := CarveStep(puzzle, p, maxRemoved, attempts, picks, k);
      k := k + 1;
    }
    assert Carved(p, maxRemoved, attempts, picks[k..]) == (p, attempts, 0);
    used := k;
    CarvedStops(p0, maxRemoved, 0, picks);
    CarvedKeeps(p0, p0, maxRemoved, 0, picks);
  }

  /** generatePuzzle: a full board, and a copy of it carved down. `p` and
      `sol` are the grids the puzzle and the solution hold; the carving is
      Carved of the solution, which stops at the level's target unless the
      `used` picks exhaust the stream. When the full board was generated,
      the puzzle has `attempts` empty cells, keeps every other cell of the
      solution, and the solution is its only completion. */
  method GeneratePuzzle(difficulty: string, order: Grid -> seq<int>, picks: seq<(int, int)>)
    returns (puzzle: array2<int>, solution: array2<int>, attempts: nat, ghost p: Grid, ghost sol: Grid,
             ghost used: nat)
    requires forall key :: IsShuffle(order(key))
    requires forall k :: 0 <= k < |picks| ==> InRange(picks[k].0, picks[k].1)
    ensures fresh(puzzle) && fresh(solution) && puzzle != solution
    ensures puzzle.Length0 == 9 && puzzle.Length1 == 9 && solution.Length0 == 9 && solution.Length1 == 9
    ensures IsGrid(p) && forall r, c :: InRange(r, c) ==> puzzle[r, c] == p[r][c]
    ensures IsGrid(sol) && forall r, c :: InRange(r, c) ==> solution[r, c] == sol[r][c]
    ensures Carved(sol, MaxRemoved(difficulty), 0, picks) == (p, attempts, used)
    ensures attempts == MaxRemoved(difficulty) || used == |picks|
    ensures attempts <= MaxRemoved(difficulty)
    ensures Solved(sol) ==> Zeros(p) == attempts && Agrees(p, sol) && Completed(p) == {sol}
    ensures !Solved(sol) ==> attempts == 0 && p == EmptyGrid()
  {
    solution, sol := GenerateFullBoard(order);
    puzzle := CopyBoard(solution);
    attempts, p, used := Carve(puzzle, sol, MaxRemoved(difficulty), picks);
    if Solved(sol) {
      ZerosNone(sol);
      CompletedEdgeCases(sol);
      UniqueCompletion(p, sol);
    }
  }
}

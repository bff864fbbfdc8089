/** Value-level view of a 9x9 Sudoku grid: the row, column and box rule,
    the row-major search order shared by every backtracking routine of the
    solver, and the set of completions that search reaches. */
module SudokuGrid {

  datatype Option<T> = None | Some(value: T)

  /** A grid is 9 rows of 9 integers; 0 is an empty cell. */
  type Grid = seq<seq<int>>

  predicate InRange(r: int, c: int) {
    0 <= r < 9 && 0 <= c < 9
  }

  predicate IsGrid(g: Grid) {
    |g| == 9 && forall r :: 0 <= r < 9 ==> |g[r]| == 9
  }

  /** Every cell holds 0 (empty) or a digit 1..9. */
  ghost predicate Digits(g: Grid)
    requires IsGrid(g)
  {
    forall r, c :: InRange(r, c) ==> 0 <= g[r][c] <= 9
  }

  /** Two cells share a row, a column, or a 3x3 box. */
  predicate Sees(r1: int, c1: int, r2: int, c2: int) {
    r1 == r2 || c1 == c2 || (r1 / 3 == r2 / 3 && c1 / 3 == c2 / 3)
  }

  /** `num` occurs nowhere in the row, column or box of (row, col). */
  ghost predicate Allowed(g: Grid, row: int, col: int, num: int)
    requires IsGrid(g) && InRange(row, col)
  {
    forall r, c :: InRange(r, c) && Sees(row, col, r, c) ==> g[r][c] != num
  }

  /** No nonzero digit repeats in any row, column or box. */
  ghost predicate Consistent(g: Grid)
    requires IsGrid(g)
  {
    forall r1, c1, r2, c2 ::
      (InRange(r1, c1) && InRange(r2, c2) && (r1 != r2 || c1 != c2) &&
       Sees(r1, c1, r2, c2) && g[r1][c1] != 0) ==> g[r1][c1] != g[r2][c2]
  }

  ghost predicate Full(g: Grid)
    requires IsGrid(g)
  {
    forall r, c :: InRange(r, c) ==> g[r][c] != 0
  }

  /** A finished Sudoku: only digits 1..9, and no repeats. */
  ghost predicate Solved(g: Grid) {
    IsGrid(g) && Full(g) && Digits(g) && Consistent(g)
  }

  /** Every given (nonzero cell) of `g` has the same value in `h`. */
  ghost predicate Agrees(g: Grid, h: Grid)
    requires IsGrid(g) && IsGrid(h)
  {
    forall r, c :: InRange(r, c) && g[r][c] != 0 ==> h[r][c] == g[r][c]
  }

  /** `h` is a solution of the puzzle `g`. */
  ghost predicate SolutionOf(h: Grid, g: Grid)
    requires IsGrid(g)
  {
    Solved(h) && Agrees(g, h)
  }

  function EmptyGrid(): (g: Grid)
    ensures IsGrid(g) && forall r, c :: InRange(r, c) ==> g[r][c] == 0
  {
    seq(9, _ => seq(9, _ => 0))
  }

  /** The grid with cell (r, c) set to v. */
  function Put(g: Grid, r: int, c: int, v: int): (h: Grid)
    requires IsGrid(g) && InRange(r, c)
    ensures IsGrid(h) && h[r][c] == v
    ensures forall r', c' :: InRange(r', c') && (r' != r || c' != c) ==> h[r'][c'] == g[r'][c']
  {
    g[r := g[r][c := v]]
  }

  /** Two grids that agree cell by cell are equal. */
  lemma GridExt(g: Grid, h: Grid)
    requires IsGrid(g) && IsGrid(h)
    requires forall r, c :: InRange(r, c) ==> g[r][c] == h[r][c]
    ensures g == h
  {
    forall r | 0 <= r < 9
      ensures g[r] == h[r]
    {
      assert forall c :: 0 <= c < 9 ==> g[r][c] == h[r][c];
    }
  }

  // ---------------------------------------------------------------------
  // Number of empty cells: the measure every search decreases.

  /** 1 for an empty cell, 0 for a filled one. */
  function EmptyCount(x: int): nat { if x == 0 then 1 else 0 }

  function RowZeros(row: seq<int>): nat {
    if row == [] then 0 else EmptyCount(row[0]) + RowZeros(row[1..])
  }

  function Zeros(g: Grid): nat {
    if g == [] then 0 else RowZeros(g[0]) + Zeros(g[1..])
  }

  lemma {:induction false} RowZerosPut(row: seq<int>, c: int, v: int)
    requires 0 <= c < |row|
    ensures RowZeros(row[c := v]) + EmptyCount(row[c]) == RowZeros(row) + EmptyCount(v)
    decreases c
  {
    if c > 0 {
      assert row[c := v][1..] == row[1..][c - 1 := v];
      RowZerosPut(row[1..], c - 1, v);
    } else {
      assert row[c := v][1..] == row[1..];
    }
  }

  lemma {:induction false} ZerosPutRow(g: Grid, r: int, row: seq<int>)
    requires 0 <= r < |g|
    ensures Zeros(g[r := row]) + RowZeros(g[r]) == Zeros(g) + RowZeros(row)
    decreases r
  {
    if r > 0 {
      assert g[r := row][1..] == g[1..][r - 1 := row];
      ZerosPutRow(g[1..], r - 1, row);
    } else {
      assert g[r := row][1..] == g[1..];
    }
  }

  /** Writing v over cell (r, c) changes the number of empty cells by
      EmptyCount(v) - EmptyCount(old value). */
  lemma ZerosPut(g: Grid, r: int, c: int, v: int)
    requires IsGrid(g) && InRange(r, c)
    ensures Zeros(Put(g, r, c, v)) + EmptyCount(g[r][c]) == Zeros(g) + EmptyCount(v)
  {
    RowZerosPut(g[r], c, v);
    ZerosPutRow(g, r, g[r][c := v]);
  }

  lemma {:induction false} RowZerosNone(row: seq<int>)
    requires forall c :: 0 <= c < |row| ==> row[c] != 0
    ensures RowZeros(row) == 0
  {
    if row != [] {
      RowZerosNone(row[1..]);
    }
  }

  lemma {:induction false} ZerosNone(g: Grid)
    requires forall r, c :: 0 <= r < |g| && 0 <= c < |g[r]| ==> g[r][c] != 0
    ensures Zeros(g) == 0
  {
    if g != [] {
      RowZerosNone(g[0]);
      ZerosNone(g[1..]);
    }
  }

  // ---------------------------------------------------------------------
  // Row-major search order.

  /** (r1, c1) comes strictly before (r2, c2) in row-major order. */
  predicate Before(r1: int, c1: int, r2: int, c2: int) {
    r1 < r2 || (r1 == r2 && c1 < c2)
  }

  /** First empty cell at or after (r, c) in row-major order. */
  function FirstZeroFrom(g: Grid, r: int, c: int): (p: Option<(int, int)>)
    requires IsGrid(g) && 0 <= r <= 9 && 0 <= c <= 9
    ensures p.None? ==>
      forall r', c' :: InRange(r', c') && !Before(r', c', r, c) ==> g[r'][c'] != 0
    ensures p.Some? ==>
      InRange(p.value.0, p.value.1) && g[p.value.0][p.value.1] == 0 &&
      !Before(p.value.0, p.value.1, r, c) &&
      forall r', c' :: InRange(r', c') && !Before(r', c', r, c) && Before(r', c', p.value.0, p.value.1) ==> g[r'][c'] != 0
    decreases |g| - r, 9 - c
  {
    if r == 9 then None
    else if c == 9 then FirstZeroFrom(g, r + 1, 0)
    else if g[r][c] == 0 then Some((r, c))
    else FirstZeroFrom(g, r, c + 1)
  }

  /** The empty cell every search of the solver fills next. */
  function FirstZero(g: Grid): (p: Option<(int, int)>)
    requires IsGrid(g)
    ensures p.None? <==> Full(g)
    ensures p.Some? ==>
      InRange(p.value.0, p.value.1) && g[p.value.0][p.value.1] == 0 &&
      forall r, c :: InRange(r, c) && Before(r, c, p.value.0, p.value.1) ==> g[r][c] != 0
  {
    FirstZeroFrom(g, 0, 0)
  }

  /** An empty cell with only filled cells before it is the first zero. */
  lemma FirstZeroIs(g: Grid, row: int, col: int)
    requires IsGrid(g) && InRange(row, col) && g[row][col] == 0
    requires forall r, c :: InRange(r, c) && Before(r, c, row, col) ==> g[r][c] != 0
    ensures FirstZero(g) == Some((row, col))
  {
    var p := FirstZero(g);
    assert p.Some?;
    var (r, c) := p.value;
    assert !Before(row, col, r, c);
  }

  // ---------------------------------------------------------------------
  // The completions reached by the row-major search.

  /** The digits in the order the deterministic searches try them. */
  function Ordered(): (nums: seq<int>)
    ensures |nums| == 9 && forall j :: 0 <= j < 9 ==> nums[j] == j + 1
  {
    seq(9, j => j + 1)
  }

  /** A candidate order: digits only. */
  predicate DigitSeq(nums: seq<int>) {
    forall j :: 0 <= j < |nums| ==> 1 <= nums[j] <= 9
  }

  /** A shuffled candidate order: each of the digits 1..9 exactly once. */
  ghost predicate IsShuffle(nums: seq<int>) {
    |nums| == 9 && DigitSeq(nums) && forall d :: 1 <= d <= 9 ==> d in nums
  }

  /** Completed(g): every grid the source's row-major backtracking reaches
      from `g` with no empty cell left, trying at the first empty cell each
      digit 1..9 that passes the row/column/box check. */
  ghost function Completed(g: Grid): set<Grid>
    requires IsGrid(g)
    decreases Zeros(g), 1
  {
    match FirstZero(g)
    case None => {g}
    case Some(p) => Tried(g, p.0, p.1, Ordered(), 9)
  }

  /** The completions reached by placing the first k candidates of `nums`,
      one after the other, at the empty cell (row, col). */
  ghost function Tried(g: Grid, row: int, col: int, nums: seq<int>, k: nat): set<Grid>
    requires IsGrid(g) && InRange(row, col) && g[row][col] == 0 && DigitSeq(nums) && k <= |nums|
    decreases Zeros(g), 0, k
  {
    if k == 0 then {}
    else Tried(g, row, col, nums, k - 1) + Branch(g, row, col, nums[k - 1])
  }

  /** The completions reached by placing `num` at (row, col), if the row,
      column and box check lets it be placed there. */
  ghost function Branch(g: Grid, row: int, col: int, num: int): set<Grid>
    requires IsGrid(g) && InRange(row, col) && g[row][col] == 0 && 1 <= num <= 9
    decreases Zeros(g), 0, 0
  {
    if Allowed(g, row, col, num) then
      ZerosPut(g, row, col, num);
      Completed(Put(g, row, col, num))
    else {}
  }

  /** One more candidate tried: its branch is added, and it is empty unless
      the digit passes the check and the grid with it placed has a
      completion. */
  lemma TriedStep(g: Grid, row: int, col: int, nums: seq<int>, k: nat)
    requires IsGrid(g) && InRange(row, col) && g[row][col] == 0 && DigitSeq(nums) && k < |nums|
    ensures Tried(g, row, col, nums, k + 1) ==
      Tried(g, row, col, nums, k) +
      (if Allowed(g, row, col, nums[k]) then Completed(Put(g, row, col, nums[k])) else {})
  {
    ZerosPut(g, row, col, nums[k]);
  }

  /** A grid reached by one of the first k candidates is among what the
      first k candidates reach. */
  lemma {:induction false} TriedHas(g: Grid, row: int, col: int, nums: seq<int>, k: nat, j: nat, h: Grid)
    requires IsGrid(g) && InRange(row, col) && g[row][col] == 0 && DigitSeq(nums) && j < k <= |nums|
    requires h in Branch(g, row, col, nums[j])
    ensures h in Tried(g, row, col, nums, k)
  {
    if j < k - 1 {
      TriedHas(g, row, col, nums, k - 1, j, h);
    }
  }

  /** Every grid the first k candidates reach comes from one of them. */
  lemma {:induction false} TriedFrom(g: Grid, row: int, col: int, nums: seq<int>, k: nat, h: Grid) returns (j: nat)
    requires IsGrid(g) && InRange(row, col) && g[row][col] == 0 && DigitSeq(nums) && k <= |nums|
    requires h in Tried(g, row, col, nums, k)
    ensures j < k && h in Branch(g, row, col, nums[j])
  {
    if h in Branch(g, row, col, nums[k - 1]) {
      j := k - 1;
    } else {
      j := TriedFrom(g, row, col, nums, k - 1, h);
    }
  }

  /** Members of the completion sets are full grids keeping every given;
      a member of a branch holds that branch's digit at (row, col). */
  lemma {:induction false} CompletedShape(g: Grid, h: Grid)
    requires IsGrid(g) && h in Completed(g)
    ensures IsGrid(h) && Full(h) && Agrees(g, h)
    decreases Zeros(g), 1
  {
    match FirstZero(g)
    case None =>
    case Some(p) =>
      var j := TriedFrom(g, p.0, p.1, Ordered(), 9, h);
      BranchShape(g, p.0, p.1, Ordered()[j], h);
  }

  lemma {:induction false} BranchShape(g: Grid, row: int, col: int, num: int, h: Grid)
    requires IsGrid(g) && InRange(row, col) && g[row][col] == 0 && 1 <= num <= 9
    requires h in Branch(g, row, col, num)
    ensures IsGrid(h) && Full(h) && Agrees(g, h)
    ensures h[row][col] == num && Allowed(g, row, col, num)
    ensures h in Completed(Put(g, row, col, num))
    decreases Zeros(g), 0, 0
  {
    ZerosPut(g, row, col, num);
    var g' := Put(g, row, col, num);
    CompletedShape(g', h);
    assert h[row][col] == g'[row][col];
  }

  /** Branches for different digits share no completion, so the sizes of
      the branches of distinct candidates add up. */
  lemma TriedCard(g: Grid, row: int, col: int, nums: seq<int>, k: nat)
    requires IsGrid(g) && InRange(row, col) && g[row][col] == 0 && DigitSeq(nums) && k < |nums|
    requires forall j :: 0 <= j < k ==> nums[j] != nums[k]
    ensures |Tried(g, row, col, nums, k + 1)| ==
      |Tried(g, row, col, nums, k)| +
      (if Allowed(g, row, col, nums[k]) then |Completed(Put(g, row, col, nums[k]))| else 0)
  {
    var before, here := Tried(g, row, col, nums, k), Branch(g, row, col, nums[k]);
    forall h | h in here
      ensures h !in before
    {
      BranchShape(g, row, col, nums[k], h);
      if h in before {
        var j := TriedFrom(g, row, col, nums, k, h);
        BranchShape(g, row, col, nums[j], h);
      }
    }
    assert before * here == {};
    TriedStep(g, row, col, nums, k);
  }

  /** Trying the candidates in any shuffled order reaches the same
      completions as trying 1..9 in order. */
  lemma TriedShuffle(g: Grid, row: int, col: int, nums: seq<int>)
    requires IsGrid(g) && InRange(row, col) && g[row][col] == 0 && IsShuffle(nums)
    ensures Tried(g, row, col, nums, 9) == Tried(g, row, col, Ordered(), 9)
  {
    forall h
      ensures h in Tried(g, row, col, nums, 9) <==> h in Tried(g, row, col, Ordered(), 9)
    {
      if h in Tried(g, row, col, nums, 9) {
        var j := TriedFrom(g, row, col, nums, 9, h);
        assert Ordered()[nums[j] - 1] == nums[j];
        TriedHas(g, row, col, Ordered(), 9, nums[j] - 1, h);
      }
      if h in Tried(g, row, col, Ordered(), 9) {
        var j := TriedFrom(g, row, col, Ordered(), 9, h);
        assert j + 1 in nums;
        var i :| 0 <= i < 9 && nums[i] == j + 1;
        TriedHas(g, row, col, nums, 9, i, h);
      }
    }
  }

  /** At the first empty cell, the completions of the grid are what the
      candidates of any shuffled order reach. */
  lemma CompletedAt(g: Grid, row: int, col: int, nums: seq<int>)
    requires IsGrid(g) && InRange(row, col) && FirstZero(g) == Some((row, col)) && IsShuffle(nums)
    ensures Completed(g) == Tried(g, row, col, nums, 9)
  {
    TriedShuffle(g, row, col, nums);
  }

  lemma OrderedIsShuffle()
    ensures IsShuffle(Ordered())
  {
    forall d | 1 <= d <= 9
      ensures d in Ordered()
    {
      assert Ordered()[d - 1] == d;
    }
  }

  /** The number countSolutions' backtracking adds up: one for a full
      grid, otherwise the counts below every digit 1..9 that passes the
      check at the first empty cell. */
  ghost function Count(g: Grid): nat
    requires IsGrid(g)
    decreases Zeros(g), 1
  {
    match FirstZero(g)
    case None => 1
    case Some(p) => CountUpTo(g, p.0, p.1, 9)
  }

  /** The count contributed by the digits 1..num at the empty cell (row, col). */
  ghost function CountUpTo(g: Grid, row: int, col: int, num: int): nat
    requires IsGrid(g) && InRange(row, col) && g[row][col] == 0 && 0 <= num <= 9
    decreases Zeros(g), 0, num
  {
    if num == 0 then 0
    else
      CountUpTo(g, row, col, num - 1) +
      (if Allowed(g, row, col, num) then
         ZerosPut(g, row, col, num);
         Count(Put(g, row, col, num))
       else 0)
  }

  /** The count is the number of completions the search reaches. */
  lemma {:induction false} CountIsCard(g: Grid)
    requires IsGrid(g)
    ensures Count(g) == |Completed(g)|
    decreases Zeros(g), 1
  {
    match FirstZero(g)
    case None =>
    case Some(p) =>
      CountUpToIsCard(g, p.0, p.1, 9);
  }

  lemma {:induction false} CountUpToIsCard(g: Grid, row: int, col: int, num: int)
    requires IsGrid(g) && InRange(row, col) && g[row][col] == 0 && 0 <= num <= 9
    ensures CountUpTo(g, row, col, num) == |Tried(g, row, col, Ordered(), num)|
    decreases Zeros(g), 0, num
  {
    if num > 0 {
      CountUpToIsCard(g, row, col, num - 1);
      TriedCard(g, row, col, Ordered(), num - 1);
      if Allowed(g, row, col, num) {
        ZerosPut(g, row, col, num);
        CountIsCard(Put(g, row, col, num));
      }
    }
  }

  /** Placing an allowed digit in an empty cell keeps a grid consistent. */
  lemma PutAllowedConsistent(g: Grid, row: int, col: int, num: int)
    requires IsGrid(g) && Consistent(g) && InRange(row, col) && Allowed(g, row, col, num)
    ensures Consistent(Put(g, row, col, num))
  {
    var h := Put(g, row, col, num);
    forall r1, c1, r2, c2 |
      InRange(r1, c1) && InRange(r2, c2) && (r1 != r2 || c1 != c2) &&
      Sees(r1, c1, r2, c2) && h[r1][c1] != 0
      ensures h[r1][c1] != h[r2][c2]
    {
      if r1 == row && c1 == col {
        assert Sees(row, col, r2, c2);
      } else if r2 == row && c2 == col {
        assert Sees(row, col, r1, c1);
      }
    }
  }

  /** Starting from a consistent grid of digits, every completion the
      search reaches is a solved grid. */
  lemma {:induction false} CompletedSolved(g: Grid, h: Grid)
    requires IsGrid(g) && Consistent(g) && Digits(g) && h in Completed(g)
    ensures Solved(h)
    decreases Zeros(g), 1
  {
    match FirstZero(g)
    case None =>
    case Some(p) =>
      var (row, col) := p;
      var j := TriedFrom(g, row, col, Ordered(), 9, h);
      var d := Ordered()[j];
      BranchShape(g, row, col, d, h);
      PutAllowedConsistent(g, row, col, d);
      ZerosPut(g, row, col, d);
      CompletedSolved(Put(g, row, col, d), h);
  }

  /** Every solution of `g` (a solved grid keeping g's givens) is reached by
      the search, whatever `g` holds. */
  lemma {:induction false} SolutionCompleted(g: Grid, h: Grid)
    requires IsGrid(g) && SolutionOf(h, g)
    ensures h in Completed(g)
    decreases Zeros(g), 1
  {
    match FirstZero(g)
    case None =>
      GridExt(g, h);
    case Some(p) =>
      var (row, col) := p;
      var d := h[row][col];
      assert Allowed(g, row, col, d) by {
        forall r, c | InRange(r, c) && Sees(row, col, r, c)
          ensures g[r][c] != d
        {
          if g[r][c] != 0 && (r != row || c != col) {
            assert h[r][c] == g[r][c];
          }
        }
      }
      ZerosPut(g, row, col, d);
      SolutionCompleted(Put(g, row, col, d), h);
      assert h in Branch(g, row, col, Ordered()[d - 1]);
      TriedHas(g, row, col, Ordered(), 9, d - 1, h);
  }

  /** What the counter counts: for a consistent grid of digits, the
      completions the search reaches are exactly its solutions. */
  lemma CompletedAreSolutions(g: Grid)
    requires IsGrid(g) && Consistent(g) && Digits(g)
    ensures forall h :: h in Completed(g) <==> SolutionOf(h, g)
  {
    forall h
      ensures h in Completed(g) <==> SolutionOf(h, g)
    {
      if h in Completed(g) {
        CompletedShape(g, h);
        CompletedSolved(g, h);
      }
      if SolutionOf(h, g) {
        SolutionCompleted(g, h);
      }
    }
  }

  /** A puzzle with exactly one completion, which a solved grid keeping
      its givens is, has that grid as its only solution. */
  lemma UniqueCompletion(p: Grid, sol: Grid)
    requires IsGrid(p) && Solved(sol) && Agrees(p, sol) && |Completed(p)| == 1
    ensures Completed(p) == {sol}
  {
    SolutionCompleted(p, sol);
    var rest := Completed(p) - {sol};
    assert |rest| == 0;
  }

  /** When no candidate among the first k is allowed, nothing is reached. */
  lemma {:induction false} TriedNone(g: Grid, row: int, col: int, nums: seq<int>, k: nat)
    requires IsGrid(g) && InRange(row, col) && g[row][col] == 0 && DigitSeq(nums) && k <= |nums|
    requires forall d :: 1 <= d <= 9 ==> !Allowed(g, row, col, d)
    ensures Tried(g, row, col, nums, k) == {}
  {
    if k > 0 {
      TriedNone(g, row, col, nums, k - 1);
    }
  }

  /** countSolutions' edge cases: a full grid has exactly one completion,
      and a grid whose first empty cell admits no digit has none. */
  lemma CompletedEdgeCases(g: Grid)
    requires IsGrid(g)
    ensures Full(g) ==> Completed(g) == {g}
    ensures FirstZero(g).Some? &&
            (forall d :: 1 <= d <= 9 ==> !Allowed(g, FirstZero(g).value.0, FirstZero(g).value.1, d))
            ==> Completed(g) == {}
  {
    var p := FirstZero(g);
    if p.Some? && forall d :: 1 <= d <= 9 ==> !Allowed(g, p.value.0, p.value.1, d) {
      TriedNone(g, p.value.0, p.value.1, Ordered(), 9);
    }
  }
}

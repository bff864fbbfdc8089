/** The selection hook: the selected cell, the peers of a cell (same row,
    column or 3x3 box) and the digits already used among the peers of the
    selected cell. Board index i is the cell (i / 9, i % 9). */
module SudokuSelection {
  import opened SudokuGrid
  import opened SudokuCells

  /** The indexes of the cells sharing a row, a column or a box with
      board index `index`, itself included. */
  ghost function Related(index: int): set<int>
    requires 0 <= index < 81
  {
    set j | 0 <= j < 81 && Sees(index / 9, index % 9, j / 9, j % 9)
  }

  /** The board index of cell (r, c). */
  function Idx(r: int, c: int): int {
    9 * r + c
  }

  /** Every board index is the index of its own cell, and no two cells
      share an index. */
  lemma IdxCell(j: int)
    requires 0 <= j < 81
    ensures InRange(j / 9, j % 9) && Idx(j / 9, j % 9) == j
  {
  }

  lemma IdxInjective(r: int, c: int, r': int, c': int)
    requires InRange(r, c) && InRange(r', c') && Idx(r, c) == Idx(r', c')
    ensures r == r' && c == c'
  {
  }

  /** getRelatedIndexes: the row, then the column, then the box of
      `index`, added one by one to a set. The result is exactly the peers
      of the cell, and there are 21 of them: 9 in the row, 8 more in the
      column and 4 more in the box. */
  method RelatedIndexes(index: int) returns (related: set<int>)
    requires 0 <= index < 81
    ensures related == Related(index)
    ensures |related| == 21
  {
    var row := index / 9;
    var col := index % 9;
    related := {};
    for i := 0 to 9
      invariant forall j :: j in related ==> 0 <= j < 81
      invariant forall r, c :: InRange(r, c) ==> (Idx(r, c) in related <==> r == row && c < i)
      invariant |related| == i
    {
      assert Idx(row, i) !in related;
      related := related + {Idx(row, i)};
      forall r, c | InRange(r, c) && Idx(r, c) == Idx(row, i) ensures r == row && c == i {
        IdxInjective(r, c, row, i);
      }
    }
    for i := 0 to 9
      invariant forall j :: j in related ==> 0 <= j < 81
      invariant forall r, c :: InRange(r, c) ==> (Idx(r, c) in related <==> r == row || (c == col && r < i))
      invariant |related| == 9 + i - (if row < i then 1 else 0)
    {
      assert Idx(i, col) in related <==> i == row;
      related := related + {Idx(i, col)};
      forall r, c | InRange(r, c) && Idx(r, c) == Idx(i, col) ensures r == i && c == col {
        IdxInjective(r, c, i, col);
      }
    }
    related := AddBox(related, row, col);
    RelatedByCell(index, related);
  }

  /** The box loops of getRelatedIndexes: the nine cells of the box of
      (row, col) are added to a set that already holds its row and column;
      four of them are new. */
  method AddBox(related: set<int>, row: int, col: int) returns (next: set<int>)
    requires InRange(row, col)
    requires forall j :: j in related ==> 0 <= j < 81
    requires forall r, c :: InRange(r, c) ==> (Idx(r, c) in related <==> r == row || c == col)
    requires |related| == 17
    ensures forall j :: j in next ==> 0 <= j < 81
    ensures forall r, c :: InRange(r, c) ==> (Idx(r, c) in next <==>
      r == row || c == col || (r / 3 == row / 3 && c / 3 == col / 3))
    ensures |next| == 21
  {
    next := related;
    var boxRow := row / 3 * 3;
    var boxCol := col / 3 * 3;
    for dr := 0 to 3
      invariant forall j :: j in next ==> 0 <= j < 81
      invariant forall r, c :: InRange(r, c) ==> (Idx(r, c) in next <==>
        r == row || c == col || (r / 3 == row / 3 && c / 3 == col / 3 && r < boxRow + dr))
      invariant |next| == 17 + 2 * (dr - (if row < boxRow + dr then 1 else 0))
    {
      for dc := 0 to 3
        invariant forall j :: j in next ==> 0 <= j < 81
        invariant forall r, c :: InRange(r, c) ==> (Idx(r, c) in next <==>
          r == row || c == col ||
          (r / 3 == row / 3 && c / 3 == col / 3 && (r < boxRow + dr || (r == boxRow + dr && c < boxCol + dc))))
        invariant |next| == 17 + 2 * (dr - (if row < boxRow + dr then 1 else 0)) +
          (if boxRow + dr == row then 0 else dc - (if col < boxCol + dc then 1 else 0))
      {
        assert Idx(boxRow + dr, boxCol + dc) in next <==> boxRow + dr == row || boxCol + dc == col;
        next := next + {Idx(boxRow + dr, boxCol + dc)};
        forall r, c | InRange(r, c) && Idx(r, c) == Idx(boxRow + dr, boxCol + dc)
          ensures r == boxRow + dr && c == boxCol + dc
        {
          IdxInjective(r, c, boxRow + dr, boxCol + dc);
        }
      }
    }
  }

  /** A set of board indexes that holds exactly the peers, cell by cell,
      is Related. */
  lemma RelatedByCell(index: int, related: set<int>)
    requires 0 <= index < 81
    requires forall j :: j in related ==> 0 <= j < 81
    requires forall r, c :: InRange(r, c) ==> (Idx(r, c) in related <==>
      r == index / 9 || c == index % 9 || (r / 3 == index / 9 / 3 && c / 3 == index % 9 / 3))
    ensures related == Related(index)
  {
    forall j | 0 <= j < 81
      ensures j in related <==> j in Related(index)
    {
      IdxCell(j);
    }
  }

  /** Being peers is symmetric, and a cell is its own peer. */
  lemma RelatedSymmetric(i: int, j: int)
    requires 0 <= i < 81 && 0 <= j < 81
    ensures i in Related(i)
    ensures j in Related(i) <==> i in Related(j)
  {
  }

  /** usedValues: no digits unless highlighting is on and a cell is
      selected; otherwise the nonzero values among the selected cell's
      peers. */
  ghost function Used(cells: seq<Cell>, highlight: bool, selected: Option<int>): set<int>
    requires highlight && selected.Some? ==> 0 <= selected.value < 81 && |cells| == 81
  {
    if !highlight || selected.None? then {}
    else set j | j in Related(selected.value) && cells[j].value != 0 :: cells[j].value
  }

  /** The digits used among the peers of (row, col) are exactly those the
      solver's row/column/box check rejects there. */
  lemma UsedIsNotAllowed(cells: seq<Cell>, row: int, col: int, d: int)
    requires |cells| == 81 && InRange(row, col) && d != 0
    ensures d in Used(cells, true, Some(9 * row + col)) <==> !Allowed(Values(cells), row, col, d)
  {
    var g := Values(cells);
    var index := 9 * row + col;
    assert index / 9 == row && index % 9 == col;
    if d in Used(cells, true, Some(index)) {
      var j :| j in Related(index) && cells[j].value != 0 && cells[j].value == d;
      var r, c := j / 9, j % 9;
      assert j == 9 * r + c;
      assert g[r][c] == d;
    }
    if !Allowed(g, row, col, d) {
      var r, c :| InRange(r, c) && Sees(row, col, r, c) && g[r][c] == d;
      var j := 9 * r + c;
      assert j / 9 == r && j % 9 == c;
      assert j in Related(index);
    }
  }

  /** The selection state of the hook. */
  class Selection {
    var selectedIndex: Option<int>

    constructor()
      ensures selectedIndex.None?
    {
      selectedIndex := None;
    }

    /** handleCellClick: a given cannot be selected; any other cell
        becomes the selection. */
    method HandleCellClick(cells: seq<Cell>, index: int)
      requires 0 <= index < |cells|
      modifies this
      ensures cells[index].isInitial ==> selectedIndex == old(selectedIndex)
      ensures !cells[index].isInitial ==> selectedIndex == Some(index)
    {
      if !cells[index].isInitial {
        selectedIndex := Some(index);
      }
    }

    /** usedValues, computed by walking the peers of the selection. */
    method UsedValues(cells: seq<Cell>, highlightUsedNumbers: bool) returns (values: set<int>)
      requires highlightUsedNumbers && selectedIndex.Some? ==> 0 <= selectedIndex.value < 81 && |cells| == 81
      ensures values == Used(cells, highlightUsedNumbers, selectedIndex)
      ensures 0 !in values
    {
      if !highlightUsedNumbers || selectedIndex.None? {
        return {};
      }
      var related := RelatedIndexes(selectedIndex.value);
      values := {};
      var rest := related;
      while rest != {}
        invariant rest <= related
        invariant values == set j | j in related - rest && cells[j].value != 0 :: cells[j].value
        decreases |rest|
      {
        var i :| i in rest;
        var val := cells[i].value;
        if val != 0 {
          values := values + {val};
        }
        rest := rest - {i};
      }
    }
  }
}

/** The backtracking solver of sudoku.py.  The board is an N-by-N array that
    the solver changes in place; the block size b, with b * b == N, is passed
    in where the source takes the integer square root of N. */
module Sudoku {
  import opened Grid

  /** The contents of the array as a grid value. */
  ghost function Cells(bo: array2<int>): (g: seq<seq<int>>)
    reads bo
    ensures |g| == bo.Length0
    ensures forall i :: 0 <= i < |g| ==> |g[i]| == bo.Length1
    ensures forall i, j :: 0 <= i < bo.Length0 && 0 <= j < bo.Length1 ==> g[i][j] == bo[i, j]
  {
    seq(bo.Length0, i requires 0 <= i < bo.Length0 reads bo =>
      seq(bo.Length1, j requires 0 <= j < bo.Length1 reads bo => bo[i, j]))
  }

  /** Cell (p, q) comes before cell (i, j) in row-major order. */
  predicate Before(p: int, q: int, i: int, j: int) {
    p < i || (p == i && q < j)
  }

  /** Finds the first empty cell in row-major order, or returns the sentinel
      (number of rows, number of rows) when there is none. */
  method FindEmpty(myboard: array2<int>) returns (i: int, j: int)
    ensures (i, j) == (myboard.Length0, myboard.Length0) ||
            (0 <= i < myboard.Length0 && 0 <= j < myboard.Length1)
    ensures 0 <= i < myboard.Length0 && 0 <= j < myboard.Length1 ==>
              myboard[i, j] == 0 &&
              forall p, q :: 0 <= p < myboard.Length0 && 0 <= q < myboard.Length1 && Before(p, q, i, j) ==>
                myboard[p, q] != 0
    ensures (i, j) == (myboard.Length0, myboard.Length0) <==>
              forall p, q :: 0 <= p < myboard.Length0 && 0 <= q < myboard.Length1 ==> myboard[p, q] != 0
  {
    var r := 0;
    while r < myboard.Length0
      invariant 0 <= r <= myboard.Length0
      invariant forall p, q :: 0 <= p < r && 0 <= q < myboard.Length1 ==> myboard[p, q] != 0
    {
      var c := 0;
      while c < myboard.Length1
        invariant 0 <= c <= myboard.Length1
        invariant forall q :: 0 <= q < c ==> myboard[r, q] != 0
      {
        if myboard[r, c] == 0 {
          return r, c;
        }
        c := c + 1;
      }
      r := r + 1;
    }
    return myboard.Length0, myboard.Length0;
  }

  /** A scan of the rows and columns from the block corner of (i, j) covers
      exactly the cells in the block of (i, j). */
  lemma BlockScanned(bo: array2<int>, b: nat, i: int, j: int, n: int)
    requires bo.Length0 == bo.Length1 && b > 0 && 0 <= i < bo.Length0 && 0 <= j < bo.Length1
    requires forall p, q :: i - i % b <= p < i - i % b + b && j - j % b <= q < j - j % b + b ==>
               0 <= p < bo.Length0 && 0 <= q < bo.Length1 && bo[p, q] != n
    ensures forall p, q :: 0 <= p < bo.Length0 && 0 <= q < bo.Length1 && SameBlock(b, p, q, i, j) ==>
              Cells(bo)[p][q] != n
  {
    forall p, q | 0 <= p < bo.Length0 && 0 <= q < bo.Length1 && SameBlock(b, p, q, i, j)
      ensures Cells(bo)[p][q] != n
    {
      SameBlockIsCornerRange(b, i, p);
      SameBlockIsCornerRange(b, j, q);
    }
  }

  /** Whether digit n may be written at (i, j): n is not 0 and occurs neither
      in row i, nor in column j, nor in the block of (i, j). */
  method IsValid(i: int, j: int, n: int, bo: array2<int>, b: nat) returns (ok: bool)
    requires bo.Length0 == bo.Length1 == b * b
    requires 0 <= i < bo.Length0 && 0 <= j < bo.Length1
    ensures ok == Allowed(Cells(bo), b, i, j, n)
    ensures n == 0 ==> !ok
    ensures bo[i, j] == n ==> !ok
  {
    if n == 0 {
      return false;
    }
    var len := bo.Length0;
    ghost var g := Cells(bo);
    // the row i and the column j must not contain n
    var c := 0;
    while c < len
      invariant 0 <= c <= len
      invariant forall c' :: 0 <= c' < c ==> bo[i, c'] != n
    {
      if bo[i, c] == n {
        assert g[i][c] == n;
        return false;
      }
      c := c + 1;
    }
    var r := 0;
    while r < len
      invariant 0 <= r <= len
      invariant forall r' :: 0 <= r' < r ==> bo[r', j] != n
    {
      if bo[r, j] == n {
        assert g[r][j] == n;
        return false;
      }
      r := r + 1;
    }
    // the b-by-b block whose top-left corner is (i - i % b, j - j % b)
    var x := b;
    var top, left := i - i % x, j - j % x;
    CornerRangeFits(x, i);
    CornerRangeFits(x, j);
    var p := top;
    while p < top + x
      invariant top <= p <= top + x
      invariant forall p', q' :: top <= p' < p && left <= q' < left + x ==> bo[p', q'] != n
    {
      var q := left;
      while q < left + x
        invariant left <= q <= left + x
        invariant forall q' :: left <= q' < q ==> bo[p, q'] != n
      {
        if bo[p, q] == n {
          SameBlockIsCornerRange(x, i, p);
          SameBlockIsCornerRange(x, j, q);
          assert SameBlock(b, p, q, i, j) && g[p][q] == n;
          return false;
        }
        q := q + 1;
      }
      p := p + 1;
    }
    BlockScanned(bo, b, i, j, n);
    assert forall c' :: 0 <= c' < len ==> g[i][c'] != n;
    assert forall r' :: 0 <= r' < len ==> g[r'][j] != n;
    return true;
  }

  /** Writing k into the empty cell (i, j) and then solving the rest keeps the
      givens of the grid before the write and fills its empty cells. */
  lemma PlaceThenSolve(g0: seq<seq<int>>, g: seq<seq<int>>, i: int, j: int, k: int)
    requires IsSquare(g0) && 0 <= i < |g0| && 0 <= j < |g0| && g0[i][j] == 0 && 1 <= k <= |g0|
    requires KeepsGivens(Place(g0, i, j, k), g) && FillsInRange(Place(g0, i, j, k), g)
    ensures KeepsGivens(g0, g) && FillsInRange(g0, g)
  {
    var g1 := Place(g0, i, j, k);
    assert g1[i][j] == k;
    forall p, q | 0 <= p < |g| && 0 <= q < |g| && g0[p][q] == 0
      ensures 1 <= g[p][q] <= |g|
    {
      if (p, q) != (i, j) {
        assert g1[p][q] == 0;
      }
    }
  }

  /** Fills the empty cells by depth-first backtracking: the first empty cell
      gets each digit 1..N that IsValid admits, in ascending order, and the
      rest is solved recursively; a digit whose branch fails is reset to 0. */
  method Solve(bo: array2<int>, b: nat) returns (solved: bool)
    requires bo.Length0 == bo.Length1 == b * b
    modifies bo
    ensures KeepsGivens(old(Cells(bo)), Cells(bo))
    ensures !solved ==> Cells(bo) == old(Cells(bo))
    ensures solved ==> NoEmpty(Cells(bo)) && FillsInRange(old(Cells(bo)), Cells(bo))
    ensures solved && NoConflicts(old(Cells(bo)), b) ==> NoConflicts(Cells(bo), b)
    ensures NoEmpty(old(Cells(bo))) ==> solved && Cells(bo) == old(Cells(bo))
    decreases Empties(Cells(bo))
  {
    var i, j := FindEmpty(bo);
    if i == bo.Length0 && j == bo.Length0 {
      return true;
    }
    ghost var g0 := Cells(bo);
    assert g0 == old(Cells(bo)) && g0[i][j] == 0;
    for k := 1 to bo.Length0 + 1
      invariant Cells(bo) == g0
    {
      var ok := IsValid(i, j, k, bo, b);
      if ok {
        bo[i, j] := k;
        ghost var g1 := Place(g0, i, j, k);
        SameCells(Cells(bo), g1);
        PlaceShrinksEmpties(g0, i, j, k);
        solved := Solve(bo, b);
        if solved {
          PlaceThenSolve(g0, Cells(bo), i, j, k);
          if NoConflicts(g0, b) {
            PlaceKeepsNoConflicts(g0, b, i, j, k);
          }
          return;
        }
        bo[i, j] := 0;
        SameCells(Cells(bo), g0);
      }
    }
    return false;
  }

  // ---------------------------------------------------------- the fixtures

  /** The 9-by-9 fixture board: a 1 in the top-left cell, every other cell
      empty. */
  function Board(): (g: seq<seq<int>>)
    ensures IsSquare(g) && |g| == 9
    ensures forall p, q :: 0 <= p < 9 && 0 <= q < 9 ==> g[p][q] == if p == 0 && q == 0 then 1 else 0
  {
    seq(9, i => seq(9, j => if i == 0 && j == 0 then 1 else 0))
  }

  /** The 4-by-4 fixture board1, whose first row holds the given 1 twice. */
  function Board1(): (g: seq<seq<int>>)
    ensures IsSquare(g) && |g| == 4
  {
    [[1, 1, 0, 0],
     [0, 0, 0, 0],
     [0, 0, 0, 0],
     [0, 0, 0, 0]]
  }

  /** The fixture board is free of conflicts, so a successful solve of it
      yields a solution. */
  lemma BoardHasNoConflicts()
    ensures NoConflicts(Board(), 3)
  {
    var g := Board();
    forall p, q, p2, q2 |
      0 <= p < 9 && 0 <= q < 9 && 0 <= p2 < 9 && 0 <= q2 < 9 &&
      Peers(3, p, q, p2, q2) && g[p][q] != 0
      ensures g[p][q] != g[p2][q2]
    {
      assert (p, q) == (0, 0);
      assert g[p2][q2] == 0;
    }
  }

  /** Every grid that keeps the givens of board1 repeats 1 in its first row:
      board1 has no solution, whatever solve reports for it. */
  lemma Board1HasNoSolution(g: seq<seq<int>>)
    requires KeepsGivens(Board1(), g)
    ensures !NoConflicts(g, 2) && !IsSolution(g, 2)
  {
    assert Board1()[0][0] == 1 && Board1()[0][1] == 1;
    assert Peers(2, 0, 0, 0, 1) && g[0][0] == 1 && g[0][1] == 1;
  }

  /** The array holding the grid g. */
  method ArrayOf(g: seq<seq<int>>) returns (bo: array2<int>)
    requires IsSquare(g)
    ensures fresh(bo) && bo.Length0 == bo.Length1 == |g| && Cells(bo) == g
  {
    bo := new int[|g|, |g|]((i, j) requires 0 <= i < |g| && 0 <= j < |g| => g[i][j]);
    SameCells(Cells(bo), g);
  }

  /** solve(board): on success the array is a solution that keeps the given 1
      in the top-left cell; on failure it is the fixture unchanged. */
  method SolveBoard() returns (solved: bool, bo: array2<int>)
    ensures fresh(bo) && bo.Length0 == bo.Length1 == 9
    ensures solved ==> KeepsGivens(Board(), Cells(bo)) && IsSolution(Cells(bo), 3) && bo[0, 0] == 1
    ensures !solved ==> Cells(bo) == Board()
  {
    bo := ArrayOf(Board());
    BoardHasNoConflicts();
    solved := Solve(bo, 3);
    if solved {
      FilledIsSolution(Board(), Cells(bo), 3);
    }
  }

  /** solve(board1): whatever it reports, the array it leaves behind is no
      solution, since it keeps the two 1s of the first row. */
  method SolveBoard1() returns (solved: bool, bo: array2<int>)
    ensures fresh(bo) && bo.Length0 == bo.Length1 == 4
    ensures KeepsGivens(Board1(), Cells(bo)) && !IsSolution(Cells(bo), 2)
    ensures solved ==> NoEmpty(Cells(bo))
  {
    bo := ArrayOf(Board1());
    solved := Solve(bo, 2);
    Board1HasNoSolution(Cells(bo));
  }

  /** is_valid(0, 2, 1, board1) is false: row 0 already holds a 1. */
  method Board1RowBlocksOne() returns (ok: bool)
    ensures !ok
  {
    var bo := ArrayOf(Board1());
    assert Cells(bo)[0][0] == 1;
    ok := IsValid(0, 2, 1, bo, 2);
  }
}

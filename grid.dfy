/** The Sudoku grid as a value: an N-by-N matrix of cells, 0 meaning empty,
    partitioned into b-by-b blocks where b * b == N.  The predicates here are
    the specification shared by the solver (module Sudoku) and by the game's
    own checks (module SudokuGui). */
module Grid {

  /** g is a matrix with |g| rows of |g| cells each. */
  predicate IsSquare(g: seq<seq<int>>) {
    forall r :: 0 <= r < |g| ==> |g[r]| == |g|
  }

  /** Cell (p, q) lies in the same b-by-b block as cell (i, j). */
  predicate SameBlock(b: int, p: int, q: int, i: int, j: int) {
    b > 0 && p / b == i / b && q / b == j / b
  }

  /** Two different cells that share a row, a column or a block. */
  predicate Peers(b: int, p: int, q: int, p2: int, q2: int) {
    (p, q) != (p2, q2) && (p == p2 || q == q2 || SameBlock(b, p, q, p2, q2))
  }

  /** Digit n may be written at (i, j): it is not 0, and it occurs nowhere in
      row i, nowhere in column j and nowhere in the block of (i, j).  The cell
      (i, j) itself is not exempted. */
  predicate Allowed(g: seq<seq<int>>, b: int, i: int, j: int, n: int)
    requires IsSquare(g) && 0 <= i < |g| && 0 <= j < |g|
  {
    && n != 0
    && (forall c :: 0 <= c < |g| ==> g[i][c] != n)
    && (forall r :: 0 <= r < |g| ==> g[r][j] != n)
    && (forall p, q :: 0 <= p < |g| && 0 <= q < |g| && SameBlock(b, p, q, i, j) ==> g[p][q] != n)
  }

  /** No filled cell shares its value with one of its peers. */
  predicate NoConflicts(g: seq<seq<int>>, b: int)
    requires IsSquare(g)
  {
    forall p, q, p2, q2 ::
      (0 <= p < |g| && 0 <= q < |g| && 0 <= p2 < |g| && 0 <= q2 < |g| &&
       Peers(b, p, q, p2, q2) && g[p][q] != 0) ==> g[p][q] != g[p2][q2]
  }

  /** No cell of g is empty. */
  predicate NoEmpty(g: seq<seq<int>>)
    requires IsSquare(g)
  {
    forall p, q :: 0 <= p < |g| && 0 <= q < |g| ==> g[p][q] != 0
  }

  /** g has the shape of g0 and holds every given (nonzero cell) of g0. */
  predicate KeepsGivens(g0: seq<seq<int>>, g: seq<seq<int>>)
  {
    && IsSquare(g0) && IsSquare(g) && |g| == |g0|
    && forall p, q :: 0 <= p < |g| && 0 <= q < |g| && g0[p][q] != 0 ==> g[p][q] == g0[p][q]
  }

  /** Every cell that is empty in g0 holds a digit 1..N in g. */
  predicate FillsInRange(g0: seq<seq<int>>, g: seq<seq<int>>)
    requires KeepsGivens(g0, g)
  {
    forall p, q :: 0 <= p < |g| && 0 <= q < |g| && g0[p][q] == 0 ==> 1 <= g[p][q] <= |g|
  }

  /** Every cell holds a digit 1..N, and no two peers hold the same one. */
  predicate IsSolution(g: seq<seq<int>>, b: int)
    requires IsSquare(g)
  {
    (forall p, q :: 0 <= p < |g| && 0 <= q < |g| ==> 1 <= g[p][q] <= |g|) && NoConflicts(g, b)
  }

  /** The positions of the empty cells. */
  function Empties(g: seq<seq<int>>): set<(int, int)>
    requires IsSquare(g)
  {
    set p, q | 0 <= p < |g| && 0 <= q < |g| && g[p][q] == 0 :: (p, q)
  }

  /** g with cell (i, j) set to v. */
  function Place(g: seq<seq<int>>, i: int, j: int, v: int): (g': seq<seq<int>>)
    requires IsSquare(g) && 0 <= i < |g| && 0 <= j < |g|
    ensures IsSquare(g') && |g'| == |g|
    ensures forall p, q :: 0 <= p < |g| && 0 <= q < |g| ==>
              g'[p][q] == if (p, q) == (i, j) then v else g[p][q]
  {
    g[i := g[i][j := v]]
  }

  /** Two grids of one shape that agree on every cell are equal. */
  lemma SameCells(g: seq<seq<int>>, h: seq<seq<int>>)
    requires IsSquare(g) && IsSquare(h) && |g| == |h|
    requires forall p, q :: 0 <= p < |g| && 0 <= q < |g| ==> g[p][q] == h[p][q]
    ensures g == h
  {
    forall p | 0 <= p < |g| ensures g[p] == h[p] {
      assert forall q :: 0 <= q < |g| ==> g[p][q] == h[p][q];
    }
  }

  /** b * x and b * y are at least b apart when x < y. */
  lemma {:induction false} MulGap(b: int, x: int, y: int)
    requires b > 0 && x < y
    ensures b * x + b <= b * y
    decreases y - x
  {
    if x + 1 < y {
      MulGap(b, x + 1, y);
    }
    assert b * (x + 1) == b * x + b;
  }

  /** The block of i, for block size b, is the range of b indices starting at
      i - i % b: the corner the solver's scan starts from. */
  lemma SameBlockIsCornerRange(b: int, i: int, p: int)
    requires b > 0 && 0 <= i && 0 <= p
    ensures p / b == i / b <==> i - i % b <= p < i - i % b + b
  {
    var B, P := i / b, p / b;
    assert i - i % b == b * B;
    assert p - p % b == b * P && 0 <= p % b < b;
    if P < B {
      MulGap(b, P, B);
    } else if P > B {
      MulGap(b, B, P);
    }
  }

  /** With b * b == N, the block of any index below N ends at or before N. */
  lemma CornerRangeFits(b: int, i: int)
    requires b > 0 && 0 <= i < b * b
    ensures 0 <= i - i % b && i - i % b + b <= b * b
  {
    var B := i / b;
    assert i - i % b == b * B && 0 <= i % b;
    if B >= b {
      if B > b {
        MulGap(b, b, B);
      }
      assert false;
    }
    MulGap(b, B, b);
  }

  /** Writing a digit that Allowed admits into an empty cell keeps a grid free
      of conflicts. */
  lemma {:induction false} PlaceKeepsNoConflicts(g: seq<seq<int>>, b: int, i: int, j: int, v: int)
    requires IsSquare(g) && 0 <= i < |g| && 0 <= j < |g|
    requires g[i][j] == 0 && Allowed(g, b, i, j, v) && NoConflicts(g, b)
    ensures NoConflicts(Place(g, i, j, v), b)
  {
    var g' := Place(g, i, j, v);
    forall p, q, p2, q2 |
      0 <= p < |g| && 0 <= q < |g| && 0 <= p2 < |g| && 0 <= q2 < |g| &&
      Peers(b, p, q, p2, q2) && g'[p][q] != 0
      ensures g'[p][q] != g'[p2][q2]
    {
      if (p, q) == (i, j) {
        assert g'[p2][q2] == g[p2][q2];
        if p == p2 {
        } else if q == q2 {
        } else {
          assert SameBlock(b, p2, q2, i, j);
        }
      } else if (p2, q2) == (i, j) {
        assert g'[p][q] == g[p][q];
        if p == p2 {
        } else if q == q2 {
        } else {
          assert SameBlock(b, p, q, i, j);
        }
      } else {
        assert g'[p][q] == g[p][q] && g'[p2][q2] == g[p2][q2];
      }
    }
  }

  /** Filling an empty cell removes exactly that cell from the empty ones, so
      the set of empty cells strictly shrinks. */
  lemma PlaceShrinksEmpties(g: seq<seq<int>>, i: int, j: int, v: int)
    requires IsSquare(g) && 0 <= i < |g| && 0 <= j < |g|
    requires g[i][j] == 0 && v != 0
    ensures Empties(Place(g, i, j, v)) == Empties(g) - {(i, j)}
    ensures Empties(Place(g, i, j, v)) < Empties(g)
  {
    var g' := Place(g, i, j, v);
    assert (i, j) in Empties(g);
    assert Empties(g') == Empties(g) - {(i, j)};
  }

  /** A solver result that keeps in-range givens, fills every empty cell with
      1..N and has no conflicts is a solution. */
  lemma FilledIsSolution(g0: seq<seq<int>>, g: seq<seq<int>>, b: int)
    requires KeepsGivens(g0, g) && FillsInRange(g0, g) && NoConflicts(g, b)
    requires forall p, q :: 0 <= p < |g0| && 0 <= q < |g0| ==> 0 <= g0[p][q] <= |g0|
    ensures NoEmpty(g) && IsSolution(g, b)
  {
  }
}

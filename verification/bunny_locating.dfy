/** Bunny prisoner locating: cells of an unbounded staircase are numbered
    along anti-diagonals, starting at (1,1) in the bottom-left corner:

        | 7
        | 4 8
        | 2 5 9
        | 1 3 6 10

    The solution computes the id of cell (x, y) in closed form from
    triangular numbers. Python 2's `/` on integers is floor division; since
    n(n+1) is always even it is exact here, and the model uses exact
    arithmetic on unbounded integers. The decimal rendering of the id is
    not modelled. */
module BunnyLocating {

  /** n(n+1)/2, the source's `sum1to`. */
  function SumTo(n: int): int
  {
    (n * (n + 1)) / 2
  }

  /** 1 + 2 + ... + n, the triangular number, by plain recursion. */
  function Triangle(n: nat): nat
  {
    if n == 0 then 0 else n + Triangle(n - 1)
  }

  /** The closed form is the triangular number, exactly (no rounding in the division). */
  lemma {:induction false} SumToIsTriangle(n: nat)
    ensures SumTo(n) == Triangle(n)
    ensures 2 * SumTo(n) == n * (n + 1)
  {
    if n > 0 {
      SumToIsTriangle(n - 1);
      assert n * (n + 1) == (n - 1) * n + 2 * n;
    }
  }

  /** The id of cell (x, y): the triangle up to column x, then the climb up column x. */
  function Solution(x: int, y: int): int
  {
    var bottomValue := SumTo(x);
    var sn := SumTo(x + y - 2);
    var sk := SumTo(x - 1);
    var sx := sn - sk;
    bottomValue + sx
  }

  /** For cells of the staircase the id is x plus the (x+y-2)-th triangular number. */
  lemma SolutionClosedForm(x: int, y: int)
    requires x >= 1 && y >= 1
    ensures Solution(x, y) == x + Triangle(x + y - 2)
  {
    SumToIsTriangle(x);
    SumToIsTriangle(x - 1);
    SumToIsTriangle(x + y - 2);
  }

  /** The numbering walked cell by cell: (x, 1) is the x-th triangular number,
      and each step up column x adds the length of the diagonal just left. */
  function WalkId(x: nat, y: nat): nat
    requires x >= 1 && y >= 1
  {
    if y == 1 then Triangle(x) else WalkId(x, y - 1) + x + y - 2
  }

  lemma {:induction false} WalkClosedForm(x: nat, y: nat)
    requires x >= 1 && y >= 1
    ensures WalkId(x, y) == x + Triangle(x + y - 2)
  {
    if y == 1 {
      assert Triangle(x) == x + Triangle(x - 1);
    } else {
      WalkClosedForm(x, y - 1);
      assert Triangle(x + y - 2) == (x + y - 2) + Triangle(x + y - 3);
    }
  }

  /** The closed form agrees with walking the staircase: the bottom row holds the
      triangular numbers and each step up column x adds the next diagonal's length. */
  lemma SolutionMatchesWalk(x: nat, y: nat)
    requires x >= 1 && y >= 1
    ensures Solution(x, y) == WalkId(x, y)
    ensures Solution(x, 1) == Triangle(x)
  {
    SolutionClosedForm(x, y);
    SolutionClosedForm(x, 1);
    WalkClosedForm(x, y);
    assert Triangle(x) == x + Triangle(x - 1);
  }

  /** Going up one cell adds x + y - 1; going right one cell adds x + y. */
  lemma Neighbours(x: nat, y: nat)
    requires x >= 1 && y >= 1
    ensures Solution(x, y + 1) == Solution(x, y) + x + y - 1
    ensures Solution(x + 1, y) == Solution(x, y) + x + y
  {
    SolutionClosedForm(x, y);
    SolutionClosedForm(x, y + 1);
    SolutionClosedForm(x + 1, y);
    assert Triangle(x + y - 1) == (x + y - 1) + Triangle(x + y - 2);
  }

  /** Every cell has a positive id. */
  lemma IdPositive(x: int, y: int)
    requires x >= 1 && y >= 1
    ensures Solution(x, y) >= 1
  {
    SolutionClosedForm(x, y);
  }

  /** The values drawn in the diagram at the head of the source. */
  lemma DiagramValues()
    ensures Solution(1, 1) == 1 && Solution(2, 2) == 5
    ensures Solution(1, 4) == 7 && Solution(4, 1) == 10
    ensures Solution(3, 2) == 9 && Solution(2, 3) == 8
  {
    assert Triangle(0) == 0 && Triangle(2) == 3 && Triangle(3) == 6;
    SolutionClosedForm(1, 1);
    SolutionClosedForm(2, 2);
    SolutionClosedForm(1, 4);
    SolutionClosedForm(4, 1);
    SolutionClosedForm(3, 2);
    SolutionClosedForm(2, 3);
  }
}

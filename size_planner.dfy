/** Planning the sizes of the groups: `initial_group_structure` in
    group-shuffle-gpt.py. A class of n students is split into x groups of
    three and y groups of four with 3x + 4y = n and y as small as possible. */
module SizePlanner {
  import opened Basics

  /** x groups of three and y groups of four seat exactly n students. */
  predicate Solves(n: nat, x: nat, y: nat)
  {
    3 * x + 4 * y == n
  }

  /** With y groups of four, what is left over is a non-negative multiple
      of three (the test of the search loop). */
  predicate Fits(n: nat, y: nat)
  {
    4 * y <= n && (n - 4 * y) % 3 == 0
  }

  /** Reference definition in closed form. Since 4 = 1 (mod 3), the fewest
      groups of four is n mod 3; the plan is empty when that many do not fit. */
  function Plan(n: nat): seq<nat>
  {
    var y := n % 3;
    if 4 * y <= n then Repeat(3, (n - 4 * y) / 3) + Repeat(4, y) else []
  }

  /** The remainder is a multiple of three exactly when y and n agree mod 3. */
  lemma FitsIffSameRemainder(n: nat, y: nat)
    requires 4 * y <= n
    ensures Fits(n, y) <==> y % 3 == n % 3
  {
    var a, b := n / 3, y / 3;
    assert n == 3 * a + n % 3;
    assert y == 3 * b + y % 3;
    assert n - 4 * y == 3 * (a - 4 * b - y % 3) + (n % 3 - y % 3);
  }

  /** If y fours fit, so do y - 3. */
  lemma FitsThreeFewer(n: nat, y: nat)
    ensures y >= 3 && Fits(n, y) ==> Fits(n, y - 3)
  {
    if y >= 3 && Fits(n, y) {
      FitsIffSameRemainder(n, y);
      FitsIffSameRemainder(n, y - 3);
    }
  }

  /** The closed-form number of fours, n mod 3, fits whenever it is at most n / 4. */
  lemma LeastFits(n: nat)
    ensures 4 * (n % 3) <= n ==> Fits(n, n % 3) && n % 3 <= n / 4
  {
    if 4 * (n % 3) <= n {
      FitsIffSameRemainder(n, n % 3);
    }
  }

  /** `initial_group_structure(num_students)`: try y = 0, 1, ..., n // 4 and
      return `[3] * x + [4] * y` for the first y that fits, else `[]`. */
  method InitialGroupStructure(numStudents: nat) returns (sizes: seq<nat>)
    ensures sizes == Plan(numStudents)
  {
    for y := 0 to numStudents / 4 + 1
      invariant forall y' :: 0 <= y' < y ==> !Fits(numStudents, y')
    {
      var remaining := numStudents - 4 * y;
      if remaining % 3 == 0 {
        var x := remaining / 3;
        sizes := Repeat(3, x) + Repeat(4, y);
        FitsIffSameRemainder(numStudents, y);
        FitsThreeFewer(numStudents, y);
        assert y == numStudents % 3;
        return;
      }
    }
    sizes := [];
    LeastFits(numStudents);
  }

  /** A non-empty plan holds x threes followed by y fours, seats exactly n
      students, and no solution of 3x' + 4y' = n uses fewer fours. */
  lemma PlanIsLeastFours(n: nat)
    requires Plan(n) != []
    ensures Sum(Plan(n)) == n
    ensures forall i :: 0 <= i < |Plan(n)| ==> Plan(n)[i] == 3 || Plan(n)[i] == 4
    ensures forall i, j :: 0 <= i < j < |Plan(n)| && Plan(n)[j] == 3 ==> Plan(n)[i] == 3
    ensures exists x, y :: Plan(n) == Repeat(3, x) + Repeat(4, y) && Solves(n, x, y)
                        && forall x', y' :: Solves(n, x', y') ==> y <= y'
  {
    var y := n % 3;
    var x := (n - 4 * y) / 3;
    FitsIffSameRemainder(n, y);
    assert Solves(n, x, y);
    SumOfThreesAndFours(x, y);
    FewestFours(n);
  }

  lemma SumOfThreesAndFours(x: nat, y: nat)
    ensures Sum(Repeat(3, x) + Repeat(4, y)) == 3 * x + 4 * y
  {
    SumAppend(Repeat(3, x), Repeat(4, y));
    SumRepeat(3, x);
    SumRepeat(4, y);
  }

  /** No solution of 3x + 4y = n has fewer than n mod 3 fours. */
  lemma FewestFours(n: nat)
    ensures forall x: nat, y: nat :: Solves(n, x, y) ==> n % 3 <= y
  {
    forall x: nat, y: nat | Solves(n, x, y) ensures n % 3 <= y {
      FitsIffSameRemainder(n, y);
      assert Fits(n, y);
    }
  }

  /** The plan is empty exactly for 0, 1, 2 and 5 students; in particular
      four students form one group of four. */
  lemma {:induction false} PlanEmptyExactly(n: nat)
    ensures Plan(n) == [] <==> n == 0 || n == 1 || n == 2 || n == 5
    ensures n == 4 ==> Plan(n) == [4]
  {
    var y := n % 3;
    if 4 * y <= n {
      var x := (n - 4 * y) / 3;
      assert |Plan(n)| == x + y;
      assert x + y == 0 <==> n == 0;
    }
  }
}

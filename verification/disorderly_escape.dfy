/** Disorderly escape: the number of w x h grids whose cells each take one of s
    states, counted up to any permutation of the rows and any permutation of the
    columns. The solution applies Pólya's cycle index to the product group
    S_h x S_w: it enumerates the cycle types of S_h and S_w as partitions, weighs
    each pair of cycle types by how many permutations have them, and raises s to
    the number of cycles the combined permutation has on the grid cells. */
module DisorderlyEscape {
  import opened Arith

  /** A part of a partition, and a cycle length. */
  type Part = x: nat | x >= 1 witness 1

  function Sum(p: seq<Part>): nat
  {
    if p == [] then 0 else p[0] + Sum(p[1..])
  }

  lemma {:induction false} SumSnoc(p: seq<Part>, x: Part)
    ensures Sum(p + [x]) == Sum(p) + x
  {
    if p != [] {
      assert (p + [x])[1..] == p[1..] + [x];
      SumSnoc(p[1..], x);
    }
  }

  predicate Nondecreasing(p: seq<Part>)
  {
    forall a, b :: 0 <= a < b < |p| ==> p[a] <= p[b]
  }

  /** p is a partition of n whose parts are all at least `lower`, smallest first. */
  predicate IsPartition(p: seq<Part>, n: nat, lower: nat)
  {
    |p| >= 1 && Sum(p) == n && Nondecreasing(p) && p[0] >= lower
  }

  /** Puts part i in front of each partition of ps. */
  function Prepend(i: Part, ps: seq<seq<Part>>): (r: seq<seq<Part>>)
    ensures |r| == |ps| && forall k :: 0 <= k < |r| ==> r[k] == [i] + ps[k]
  {
    seq(|ps|, k requires 0 <= k < |ps| => [i] + ps[k])
  }

  /** The source's generator `partitionsGen(n, lower)`: first [n], then, for each
      smallest part i from `lower` to n / 2, i followed by every partition of
      n - i into parts of at least i. */
  function PartitionsGen(n: Part, lower: Part): (r: seq<seq<Part>>)
    requires lower <= n
    ensures forall k :: 0 <= k < |r| ==> IsPartition(r[k], n, lower)
    ensures |r| >= 1 && r[0] == [n]
    decreases n, 1
  {
    assert Sum([n]) == n + Sum([]);
    [[n]] + Branches(n, lower)
  }

  /** The partitions of n with at least two parts whose smallest part is at least i. */
  function Branches(n: Part, i: Part): (r: seq<seq<Part>>)
    ensures forall k :: 0 <= k < |r| ==> IsPartition(r[k], n, i) && |r[k]| >= 2
    decreases n, 0, n - i
  {
    if i > n / 2 then []
    else Prepend(i, PartitionsGen(n - i, i)) + Branches(n, i + 1)
  }

  /** Each part of a partition is at most the partitioned number. */
  lemma {:induction false} SumAtLeastHead(p: seq<Part>)
    requires |p| >= 1
    ensures Sum(p) >= p[0]
    ensures |p| >= 2 ==> Sum(p) >= p[0] + p[1]
  {
    if |p| >= 2 {
      SumAtLeastHead(p[1..]);
    }
  }

  /** Any partition with smallest part at least i is found among the branches
      of a smaller starting part. */
  lemma {:induction false} BranchesMonotone(n: Part, lower: Part, i: Part, p: seq<Part>)
    requires lower <= i && p in Branches(n, i)
    ensures p in Branches(n, lower)
    decreases i - lower
  {
    if lower < i {
      BranchesMonotone(n, lower + 1, i, p);
      assert lower <= n / 2;
      InSuffix(Prepend(lower, PartitionsGen(n - lower, lower)), Branches(n, lower + 1), p);
    }
  }

  lemma InSuffix<T>(a: seq<T>, b: seq<T>, x: T)
    requires x in b
    ensures x in a + b
  {
    var k :| 0 <= k < |b| && b[k] == x;
    assert (a + b)[|a| + k] == x;
  }

  /** Removing the smallest part of a partition with at least two parts leaves a
      partition of the rest into parts no smaller than it. */
  lemma TailIsPartition(p: seq<Part>, n: Part, lower: Part)
    requires IsPartition(p, n, lower) && |p| >= 2
    ensures p[0] <= n / 2 && p[0] < n
    ensures IsPartition(p[1..], n - p[0], p[0])
  {
    SumAtLeastHead(p);
    SumAtLeastHead(p[1..]);
  }

  lemma PrependMember(i: Part, ps: seq<seq<Part>>, q: seq<Part>)
    requires q in ps
    ensures [i] + q in Prepend(i, ps)
  {
    var k :| 0 <= k < |ps| && ps[k] == q;
    assert Prepend(i, ps)[k] == [i] + q;
  }

  /** Every partition of n is generated. */
  lemma {:induction false} PartitionsGenComplete(n: Part, lower: Part, p: seq<Part>)
    requires lower <= n && IsPartition(p, n, lower)
    ensures p in PartitionsGen(n, lower)
    decreases n
  {
    if |p| == 1 {
      assert Sum(p) == p[0] + Sum(p[1..]) && p[1..] == [];
      assert p == [n];
    } else {
      var i := p[0];
      var q := p[1..];
      TailIsPartition(p, n, lower);
      PartitionsGenComplete(n - i, i, q);
      PrependMember(i, PartitionsGen(n - i, i), q);
      assert [i] + q == p;
      assert p in Branches(n, i);
      BranchesMonotone(n, lower, i, p);
    }
  }

  predicate Distinct<T(==)>(xs: seq<T>)
  {
    forall a, b :: 0 <= a < b < |xs| ==> xs[a] != xs[b]
  }

  lemma PrependDistinct(i: Part, ps: seq<seq<Part>>)
    requires Distinct(ps)
    ensures Distinct(Prepend(i, ps))
  {
    var r := Prepend(i, ps);
    forall a, b | 0 <= a < b < |r|
      ensures r[a] != r[b]
    {
      assert r[a][1..] == ps[a] && r[b][1..] == ps[b];
    }
  }

  /** No partition is generated twice. */
  lemma {:induction false} PartitionsGenDistinct(n: Part, lower: Part)
    requires lower <= n
    ensures Distinct(PartitionsGen(n, lower))
    decreases n, 1
  {
    BranchesDistinct(n, lower);
  }

  lemma {:induction false} BranchesDistinct(n: Part, i: Part)
    ensures Distinct(Branches(n, i))
    decreases n, 0, n - i
  {
    if i <= n / 2 {
      var front := Prepend(i, PartitionsGen(n - i, i));
      var rest := Branches(n, i + 1);
      PartitionsGenDistinct(n - i, i);
      PrependDistinct(i, PartitionsGen(n - i, i));
      BranchesDistinct(n, i + 1);
      var r := front + rest;
      forall a, b | 0 <= a < b < |r|
        ensures r[a] != r[b]
      {
        if a < |front| && b >= |front| {
          assert r[a][0] == i;
          assert r[b][0] >= i + 1;
        }
      }
    }
  }

  /** For n = 3 the generator yields [3], [1, 2] and [1, 1, 1], in that order. */
  lemma ThreeHasThreePartitions()
    ensures PartitionsGen(3, 1) == [[3], [1, 2], [1, 1, 1]]
  {
    assert Branches(1, 1) == [];
    assert PartitionsGen(1, 1) == [[1]];
    assert Branches(2, 2) == [];
    var two := Prepend(1, [[1]]);
    assert |two| == 1 && two[0] == [1, 1];
    assert Branches(2, 1) == [[1, 1]];
    assert PartitionsGen(2, 1) == [[2], [1, 1]];
    assert Branches(3, 2) == [];
    var three := Prepend(1, [[2], [1, 1]]);
    assert |three| == 2 && three[0] == [1, 2] && three[1] == [1, 1, 1];
    assert Branches(3, 1) == [[1, 2], [1, 1, 1]];
  }

  /** A count dictionary of a partition: pairs (k, jk) saying that part k occurs jk
      times, kept in order of first occurrence. */
  type CountDict = seq<(Part, nat)>

  /** The count recorded for key k, 0 when absent (the source's `get(k, 0)`). */
  function Lookup(d: CountDict, k: Part): nat
  {
    if d == [] then 0 else if d[0].0 == k then d[0].1 else Lookup(d[1..], k)
  }

  predicate DistinctKeys(d: CountDict)
  {
    forall a, b :: 0 <= a < b < |d| ==> d[a].0 != d[b].0
  }

  predicate PositiveCounts(d: CountDict)
  {
    forall a :: 0 <= a < |d| ==> d[a].1 >= 1
  }

  /** The parts a dictionary names. */
  function Keys(d: CountDict): set<Part>
  {
    set a | 0 <= a < |d| :: d[a].0
  }

  /** The source's `counterD[i] = counterD.get(i, 0) + 1`. */
  function Increment(d: CountDict, x: Part): (r: CountDict)
    ensures Lookup(r, x) == Lookup(d, x) + 1
    ensures forall k :: k != x ==> Lookup(r, k) == Lookup(d, k)
  {
    if d == [] then [(x, 1)]
    else if d[0].0 == x then [(x, d[0].1 + 1)] + d[1..]
    else [d[0]] + Increment(d[1..], x)
  }

  lemma KeysCons(p: (Part, nat), d: CountDict)
    ensures Keys([p] + d) == {p.0} + Keys(d)
  {
    var r := [p] + d;
    forall k | k in Keys(r)
      ensures k in {p.0} + Keys(d)
    {
      var a :| 0 <= a < |r| && r[a].0 == k;
      if a > 0 {
        assert d[a - 1].0 == k;
      }
    }
    forall k | k in Keys(d)
      ensures k in Keys(r)
    {
      var a :| 0 <= a < |d| && d[a].0 == k;
      assert r[a + 1].0 == k;
    }
    assert r[0].0 == p.0;
  }

  lemma DistinctKeysCons(p: (Part, nat), d: CountDict)
    ensures DistinctKeys([p] + d) <==> p.0 !in Keys(d) && DistinctKeys(d)
  {
    var r := [p] + d;
    if p.0 !in Keys(d) && DistinctKeys(d) {
      forall a, b | 0 <= a < b < |r|
        ensures r[a].0 != r[b].0
      {
        if a == 0 {
          assert r[b].0 == d[b - 1].0;
        } else {
          assert r[a].0 == d[a - 1].0 && r[b].0 == d[b - 1].0;
        }
      }
    }
    if DistinctKeys(r) {
      forall a, b | 0 <= a < b < |d|
        ensures d[a].0 != d[b].0
      {
        assert r[a + 1].0 == d[a].0 && r[b + 1].0 == d[b].0;
      }
      forall a | 0 <= a < |d|
        ensures d[a].0 != p.0
      {
        assert r[a + 1].0 == d[a].0 && r[0] == p;
      }
    }
  }

  lemma PositiveCountsCons(p: (Part, nat), d: CountDict)
    ensures PositiveCounts([p] + d) <==> p.1 >= 1 && PositiveCounts(d)
  {
    var r := [p] + d;
    assert r[0] == p;
    if PositiveCounts(d) && p.1 >= 1 {
      forall a | 0 <= a < |r|
        ensures r[a].1 >= 1
      {
        if a > 0 {
          assert r[a] == d[a - 1];
        }
      }
    }
    if PositiveCounts(r) {
      forall a | 0 <= a < |d|
        ensures d[a].1 >= 1
      {
        assert r[a + 1] == d[a];
      }
    }
  }

  /** Incrementing adds x to the keys, names no key twice and keeps counts positive. */
  lemma {:induction false} IncrementWellFormed(d: CountDict, x: Part)
    requires DistinctKeys(d) && PositiveCounts(d)
    ensures Keys(Increment(d, x)) == Keys(d) + {x}
    ensures DistinctKeys(Increment(d, x)) && PositiveCounts(Increment(d, x))
  {
    if d != [] {
      var tail := d[1..];
      assert d == [d[0]] + tail;
      KeysCons(d[0], tail);
      DistinctKeysCons(d[0], tail);
      PositiveCountsCons(d[0], tail);
      if d[0].0 == x {
        var p := (x, d[0].1 + 1);
        KeysCons(p, tail);
        DistinctKeysCons(p, tail);
        PositiveCountsCons(p, tail);
      } else {
        IncrementWellFormed(tail, x);
        var rest := Increment(tail, x);
        KeysCons(d[0], rest);
        DistinctKeysCons(d[0], rest);
        PositiveCountsCons(d[0], rest);
      }
    }
  }

  /** The count dictionary of a partition, built part by part as the source's loop does. */
  function Tally(part: seq<Part>): (r: CountDict)
    ensures forall k :: Lookup(r, k) == multiset(part)[k]
  {
    if part == [] then []
    else
      var init := part[..|part| - 1];
      assert part == init + [part[|part| - 1]];
      Increment(Tally(init), part[|part| - 1])
  }

  /** A tally names exactly the parts of the partition, each once, with positive counts. */
  lemma {:induction false} TallyWellFormed(part: seq<Part>)
    ensures Keys(Tally(part)) == set x | x in part
    ensures DistinctKeys(Tally(part)) && PositiveCounts(Tally(part))
  {
    if part != [] {
      var init := part[..|part| - 1];
      var x := part[|part| - 1];
      TallyWellFormed(init);
      IncrementWellFormed(Tally(init), x);
      ElemsSnoc(init, x);
      assert part == init + [x];
    }
  }

  /** The elements of xs + [x] are those of xs and x. */
  lemma ElemsSnoc<T>(xs: seq<T>, x: T)
    ensures (set y | y in xs + [x]) == (set y | y in xs) + {x}
  {
  }

  /** Sum of k * jk over the dictionary: the left side of 1 j1 + 2 j2 + ... + n jn = n. */
  function WeightedSum(d: CountDict): nat
  {
    if d == [] then 0 else d[0].0 * d[0].1 + WeightedSum(d[1..])
  }

  lemma {:induction false} IncrementWeightedSum(d: CountDict, x: Part)
    ensures WeightedSum(Increment(d, x)) == WeightedSum(d) + x
  {
    if d == [] {
    } else if d[0].0 == x {
      var c := d[0].1;
      MulDistrib(c, 1, x);
      MulSwap(1, x, c + 1);
      var r := Increment(d, x);
      assert r[0] == (x, c + 1) && r[1..] == d[1..];
      assert WeightedSum(r) == x * (c + 1) + WeightedSum(d[1..]);
    } else {
      IncrementWeightedSum(d[1..], x);
      assert Increment(d, x)[1..] == Increment(d[1..], x);
    }
  }

  lemma {:induction false} TallyWeightedSum(part: seq<Part>)
    ensures WeightedSum(Tally(part)) == Sum(part)
  {
    if part != [] {
      var init := part[..|part| - 1];
      var x := part[|part| - 1];
      TallyWeightedSum(init);
      IncrementWeightedSum(Tally(init), x);
      SumSnoc(init, x);
      assert init + [x] == part;
    }
  }

  /** The source's `partitions(n)`: the count dictionary of every generated partition. */
  function Partitions(n: Part): (r: seq<CountDict>)
    ensures |r| == |PartitionsGen(n, 1)|
    ensures forall k :: 0 <= k < |r| ==> r[k] == Tally(PartitionsGen(n, 1)[k])
  {
    var parts := PartitionsGen(n, 1);
    seq(|parts|, k requires 0 <= k < |parts| => Tally(parts[k]))
  }

  /** Every count dictionary satisfies 1 j1 + 2 j2 + ... + n jn = n, names each
      part once and counts it at least once. */
  lemma PartitionsAreCycleTypes(n: Part)
    ensures forall d :: d in Partitions(n) ==> WeightedSum(d) == n && DistinctKeys(d) && PositiveCounts(d)
  {
    var r := Partitions(n);
    forall d | d in r
      ensures WeightedSum(d) == n && DistinctKeys(d) && PositiveCounts(d)
    {
      var k :| 0 <= k < |r| && r[k] == d;
      TallyWeightedSum(PartitionsGen(n, 1)[k]);
      TallyWellFormed(PartitionsGen(n, 1)[k]);
    }
  }

  /** The product of k^jk * jk! over the dictionary. */
  function Divisor(d: CountDict): (r: nat)
    ensures r >= 1
  {
    if d == [] then 1 else Pow(d[0].0, d[0].1) * Factorial(d[0].1) * Divisor(d[1..])
  }

  /** The source's `cycle_coefficient`: n! // prod(k^jk * jk!), as floor
      division. */
  function CycleCoefficient(d: CountDict, n: nat): nat
  {
    Factorial(n) / Divisor(d)
  }

  lemma {:induction false} FactorialUnfold(n: nat)
    requires n >= 1
    ensures Factorial(n) == n * Factorial(n - 1)
  {
  }

  /** The identity is the only permutation with n fixed points, and there are
      (n - 1)! cyclic permutations of n elements. */
  lemma CycleCoefficientExtremes(n: Part)
    ensures CycleCoefficient([(1, n)], n) == 1
    ensures CycleCoefficient([(n, 1)], n) == Factorial(n - 1)
  {
    PowOne(n);
    assert Divisor([(1, n)]) == Factorial(n);
    assert Pow(n, 1) == n * Pow(n, 0);
    assert Factorial(1) == 1 * Factorial(0);
    assert Divisor([(n, 1)]) == n;
    FactorialUnfold(n);
    DivModUnique(n, Factorial(n), Factorial(n - 1), 0);
    assert Factorial(n) == n * Factorial(n - 1) + 0;
  }

  /** f(x, y1) + f(x, y2) + ... over the y's. */
  function RowSum<T, U>(x: T, ys: seq<U>, f: (T, U) -> int): int
  {
    if ys == [] then 0 else f(x, ys[0]) + RowSum(x, ys[1..], f)
  }

  /** The sum of f(x, y) over every x of xs and y of ys, row by row. */
  function DoubleSum<T, U>(xs: seq<T>, ys: seq<U>, f: (T, U) -> int): int
  {
    if xs == [] then 0 else RowSum(xs[0], ys, f) + DoubleSum(xs[1..], ys, f)
  }

  lemma {:induction false} RowSumNonNegative<T, U>(x: T, ys: seq<U>, f: (T, U) -> int)
    requires forall y :: y in ys ==> f(x, y) >= 0
    ensures RowSum(x, ys, f) >= 0
  {
    if ys != [] {
      RowSumNonNegative(x, ys[1..], f);
    }
  }

  lemma {:induction false} DoubleSumNonNegative<T, U>(xs: seq<T>, ys: seq<U>, f: (T, U) -> int)
    requires forall x, y :: x in xs && y in ys ==> f(x, y) >= 0
    ensures DoubleSum(xs, ys, f) >= 0
    ensures forall x :: x in xs ==> RowSum(x, ys, f) >= 0
  {
    forall x | x in xs
      ensures RowSum(x, ys, f) >= 0
    {
      RowSumNonNegative(x, ys, f);
    }
    if xs != [] {
      DoubleSumNonNegative(xs[1..], ys, f);
    }
  }

  /** With non-negative terms a sum is at least its first term. */
  lemma DoubleSumAtLeastFirst<T, U>(xs: seq<T>, ys: seq<U>, f: (T, U) -> int)
    requires |xs| >= 1 && |ys| >= 1
    requires forall x, y :: x in xs && y in ys ==> f(x, y) >= 0
    ensures DoubleSum(xs, ys, f) >= f(xs[0], ys[0])
  {
    DoubleSumNonNegative(xs[1..], ys, f);
    RowSumNonNegative(xs[0], ys[1..], f);
  }

  lemma {:induction false} PeelColumn<T, U>(ys: seq<U>, x: T, xs: seq<T>, f: (T, U) -> int, g: (U, T) -> int)
    requires forall x, y :: f(x, y) == g(y, x)
    ensures DoubleSum(ys, [x] + xs, g) == RowSum(x, ys, f) + DoubleSum(ys, xs, g)
  {
    if ys != [] {
      PeelColumn(ys[1..], x, xs, f, g);
      assert ([x] + xs)[1..] == xs;
    }
  }

  /** Exchanging the order of a double sum. */
  lemma {:induction false} SwapSums<T, U>(xs: seq<T>, ys: seq<U>, f: (T, U) -> int, g: (U, T) -> int)
    requires forall x, y :: f(x, y) == g(y, x)
    ensures DoubleSum(xs, ys, f) == DoubleSum(ys, xs, g)
  {
    if xs == [] {
      SumOfEmptyRows(ys, g);
    } else {
      SwapSums(xs[1..], ys, f, g);
      PeelColumn(ys, xs[0], xs[1..], f, g);
      assert [xs[0]] + xs[1..] == xs;
    }
  }

  lemma {:induction false} SumOfEmptyRows<T, U>(ys: seq<U>, g: (U, T) -> int)
    ensures DoubleSum(ys, [], g) == 0
  {
    if ys != [] {
      SumOfEmptyRows(ys[1..], g);
    }
  }

  /** gcd(r, t) * jr * jt: how many cycles of length lcm(r, t) arise on the grid
      cells from jr row cycles of length r and jt column cycles of length t. */
  function Term(p: (Part, nat), q: (Part, nat)): int
  {
    Gcd(p.0, q.0) * p.1 * q.1
  }

  lemma TermSymmetric()
    ensures forall p, q :: Term(p, q) == Term(q, p)
  {
    forall p: (Part, nat), q: (Part, nat)
      ensures Term(p, q) == Term(q, p)
    {
      GcdSymmetric(p.0, q.0);
    }
  }

  lemma TermNonNegative()
    ensures forall p, q :: Term(p, q) >= 0
  {
  }

  /** The source's exponent: the number of cycles of the combined permutation on
      the grid cells, the sum of gcd(r, t) * jr * jt over both dictionaries. */
  function Exponent(hp: CountDict, wp: CountDict): nat
  {
    TermNonNegative();
    DoubleSumNonNegative(hp, wp, Term);
    DoubleSum(hp, wp, Term)
  }

  /** The combined permutation has at least one cycle. */
  lemma ExponentPositive(hp: CountDict, wp: CountDict)
    requires |hp| >= 1 && |wp| >= 1 && PositiveCounts(hp) && PositiveCounts(wp)
    ensures Exponent(hp, wp) >= 1
  {
    var p := hp[0];
    var q := wp[0];
    GcdPositive(p.0, q.0);
    MulAtLeast(Gcd(p.0, q.0), p.1);
    MulAtLeast(Gcd(p.0, q.0) * p.1, q.1);
    TermNonNegative();
    DoubleSumAtLeastFirst(hp, wp, Term);
  }

  /** Swapping the roles of rows and columns keeps the exponent. */
  lemma ExponentSymmetric(hp: CountDict, wp: CountDict)
    ensures Exponent(hp, wp) == Exponent(wp, hp)
  {
    TermSymmetric();
    SwapSums(hp, wp, Term, Term);
  }

  /** The contribution of one pair of cycle types to the cycle index sum. */
  function Weight(w: Part, h: Part, s: int, hp: CountDict, wp: CountDict): int
  {
    CycleCoefficient(wp, w) * CycleCoefficient(hp, h) * Pow(s, Exponent(hp, wp))
  }

  /** The source's `total`: the cycle index of S_h x S_w evaluated at s, times h! w!. */
  function Total(w: Part, h: Part, s: int): int
  {
    DoubleSum(Partitions(h), Partitions(w), (hp, wp) => Weight(w, h, s, hp, wp))
  }

  /** The source's `solution` before the decimal rendering. With no states
      there is no configuration at all, and with s >= 0 states the count is
      never negative. */
  function Solution(w: Part, h: Part, s: int): (r: int)
    ensures s >= 0 ==> r >= 0
    ensures s == 0 ==> r == 0
  {
    TotalSign(w, h, s);
    Total(w, h, s) / (Factorial(h) * Factorial(w))
  }

  lemma {:induction false} PowNonNegative(b: int, e: nat)
    requires b >= 0
    ensures Pow(b, e) >= 0
  {
    if e > 0 {
      PowNonNegative(b, e - 1);
    }
  }

  lemma {:induction false} RowSumZero<T, U>(x: T, ys: seq<U>, f: (T, U) -> int)
    requires forall y :: y in ys ==> f(x, y) == 0
    ensures RowSum(x, ys, f) == 0
  {
    if ys != [] {
      RowSumZero(x, ys[1..], f);
    }
  }

  lemma {:induction false} DoubleSumZero<T, U>(xs: seq<T>, ys: seq<U>, f: (T, U) -> int)
    requires forall x, y :: x in xs && y in ys ==> f(x, y) == 0
    ensures DoubleSum(xs, ys, f) == 0
  {
    if xs != [] {
      RowSumZero(xs[0], ys, f);
      DoubleSumZero(xs[1..], ys, f);
    }
  }

  /** A pair of cycle types contributes s^c for some c >= 1 cycles, times a
      count of permutations: never negative for s >= 0, and nothing for s = 0. */
  lemma WeightSign(w: Part, h: Part, s: int, hp: CountDict, wp: CountDict)
    requires hp in Partitions(h) && wp in Partitions(w)
    ensures s >= 0 ==> Weight(w, h, s, hp, wp) >= 0
    ensures s == 0 ==> Weight(w, h, s, hp, wp) == 0
  {
    var e := Exponent(hp, wp);
    if s >= 0 {
      PowNonNegative(s, e);
      var a := CycleCoefficient(wp, w) * CycleCoefficient(hp, h);
      assert a >= 0;
      assert Weight(w, h, s, hp, wp) == a * Pow(s, e);
    }
    if s == 0 {
      PartitionsAreCycleTypes(h);
      PartitionsAreCycleTypes(w);
      assert hp != [] && wp != [];
      ExponentPositive(hp, wp);
      assert Pow(s, e) == s * Pow(s, e - 1);
    }
  }

  lemma TotalSign(w: Part, h: Part, s: int)
    ensures s >= 0 ==> Total(w, h, s) >= 0
    ensures s == 0 ==> Total(w, h, s) == 0
  {
    var f := (hp, wp) => Weight(w, h, s, hp, wp);
    forall hp, wp | hp in Partitions(h) && wp in Partitions(w)
      ensures s >= 0 ==> f(hp, wp) >= 0
      ensures s == 0 ==> f(hp, wp) == 0
    {
      WeightSign(w, h, s, hp, wp);
    }
    if s >= 0 {
      DoubleSumNonNegative(Partitions(h), Partitions(w), f);
    }
    if s == 0 {
      DoubleSumZero(Partitions(h), Partitions(w), f);
    }
  }

  lemma WeightSymmetric(w: Part, h: Part, s: int, hp: CountDict, wp: CountDict)
    ensures Weight(w, h, s, hp, wp) == Weight(h, w, s, wp, hp)
  {
    ExponentSymmetric(hp, wp);
  }

  /** Transposing the grid does not change the number of configurations. */
  lemma SolutionSymmetric(w: Part, h: Part, s: int)
    ensures Solution(w, h, s) == Solution(h, w, s)
  {
    var f := (hp, wp) => Weight(w, h, s, hp, wp);
    var g := (wp, hp) => Weight(h, w, s, wp, hp);
    forall hp, wp
      ensures f(hp, wp) == g(wp, hp)
    {
      WeightSymmetric(w, h, s, hp, wp);
    }
    SwapSums(Partitions(h), Partitions(w), f, g);
    assert Factorial(h) * Factorial(w) == Factorial(w) * Factorial(h);
  }

  /** A single cell has exactly s configurations. */
  lemma SingleCell(s: int)
    ensures Solution(1, 1, s) == s
  {
    assert PartitionsGen(1, 1) == [[1]];
    assert Tally([1]) == [(1, 1)];
    assert Partitions(1) == [[(1, 1)]];
    assert Exponent([(1, 1)], [(1, 1)]) == 1;
    assert CycleCoefficient([(1, 1)], 1) == 1;
    assert Pow(s, 1) == s;
    assert Weight(1, 1, s, [(1, 1)], [(1, 1)]) == s;
    var d: CountDict := [(1, 1)];
    var f := (hp, wp) => Weight(1, 1, s, hp, wp);
    assert RowSum(d, [d], f) == f(d, d) + RowSum(d, [], f);
    assert DoubleSum([d], [d], f) == RowSum(d, [d], f) + DoubleSum([], [d], f);
    assert Total(1, 1, s) == s;
    assert Factorial(1) == 1 * Factorial(0);
  }
}

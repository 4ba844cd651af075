/** Free the bunny prisoners: distribute keys to num_buns bunnies so that any
    num_required of them can open every lock but no num_required - 1 can. There
    is one lock per group of num_required - 1 bunnies, and its key goes to the
    t = num_buns - num_required + 1 bunnies outside the group. The solution
    lists every t-subset of the bunnies as a 0/1 column, one column per lock,
    with a loop that moves the 1s of a bit string through all of its
    arrangements (Knuth's generation in colexicographic order), and then turns
    each bunny's row into the list of keys it holds. */
module FreeBunnies {
  import opened Arith

  /** The source's `choose`: n! / (k! (n - k)!), Python 2's exact integer division. */
  function Choose(n: nat, k: nat): nat
    requires k <= n
  {
    Factorial(n) / (Factorial(k) * Factorial(n - k))
  }

  /** The factorial formula computes Pascal's coefficient, so the division is exact. */
  lemma ChooseIsBinomial(n: nat, k: nat)
    requires k <= n
    ensures Choose(n, k) == Binomial(n, k)
  {
    BinomialTimesFactorials(n, k);
    ExactQuotient(Factorial(k) * Factorial(n - k), Binomial(n, k), Factorial(n));
  }

  lemma ExactQuotient(d: int, q: int, n: int)
    requires d > 0 && q * d == n
    ensures n / d == q
  {
    DivModUnique(d, n, q, 0);
    assert n == d * (n / d);
    assert d * (n / d - q) == 0;
  }

  /** Choosing k is choosing the n - k left out. */
  lemma ChooseSymmetric(n: nat, k: nat)
    requires k <= n
    ensures Choose(n, k) == Choose(n, n - k)
  {
    assert Factorial(k) * Factorial(n - k) == Factorial(n - k) * Factorial(n - (n - k));
  }

  // ---------------------------------------------------------------------------
  // Bit strings and their colexicographic rank. Bit 0 is the least significant.

  predicate IsBits(x: seq<int>)
  {
    forall i :: 0 <= i < |x| ==> x[i] == 0 || x[i] == 1
  }

  function Ones(x: seq<int>): nat
  {
    multiset(x)[1]
  }

  /** A t-subset written as a bit string. */
  predicate IsComb(x: seq<int>, t: nat)
  {
    IsBits(x) && Ones(x) == t
  }

  function Repeat(v: int, k: nat): (r: seq<int>)
    ensures |r| == k && forall i :: 0 <= i < k ==> r[i] == v
  {
    seq(k, _ => v)
  }

  /** The colexicographic rank of a bit string among those of its length with as
      many 1s: each 1 at position p that is the j-th 1 from the bottom adds
      Binomial(p, j). */
  function Rank(x: seq<int>): nat
  {
    if x == [] then 0
    else
      var p := x[..|x| - 1];
      (if x[|x| - 1] == 1 then Binomial(|x| - 1, Ones(p) + 1) else 0) + Rank(p)
  }

  lemma OnesSnoc(p: seq<int>, b: int)
    ensures Ones(p + [b]) == Ones(p) + (if b == 1 then 1 else 0)
  {
    assert multiset(p + [b]) == multiset(p) + multiset{b};
  }

  lemma RankSnoc(p: seq<int>, b: int)
    ensures Rank(p + [b]) == (if b == 1 then Binomial(|p|, Ones(p) + 1) else 0) + Rank(p)
  {
    assert (p + [b])[..|p|] == p;
  }

  lemma OnesAppend(a: seq<int>, b: seq<int>)
    ensures Ones(a + b) == Ones(a) + Ones(b)
  {
    assert multiset(a + b) == multiset(a) + multiset(b);
  }

  lemma OnesAtMostLength(x: seq<int>)
    ensures Ones(x) <= |x|
  {
    assert multiset(x)[1] <= |multiset(x)|;
  }

  /** The rank of a bit string with m ones of length L is below Binomial(L, m). */
  lemma {:induction false} RankBound(x: seq<int>)
    requires IsBits(x)
    ensures Rank(x) < Binomial(|x|, Ones(x))
  {
    if x != [] {
      var p := x[..|x| - 1];
      var b := x[|x| - 1];
      assert x == p + [b];
      OnesSnoc(p, b);
      RankBound(p);
      var m := Ones(x);
      if b == 1 {
        assert Binomial(|x|, m) == Binomial(|p|, m - 1) + Binomial(|p|, m);
      } else if m >= 1 {
        assert Binomial(|x|, m) == Binomial(|p|, m - 1) + Binomial(|p|, m);
      }
    }
  }

  /** Of two bit strings of equal length, the one ending in 1 outranks the one
      ending in 0 when they hold as many 1s. */
  lemma RankTop(px: seq<int>, py: seq<int>)
    requires IsBits(py) && |px| == |py| && Ones(px) + 1 == Ones(py)
    ensures Rank(px + [1]) != Rank(py + [0])
  {
    RankSnoc(px, 1);
    RankSnoc(py, 0);
    RankBound(py);
  }

  /** Bit strings of equal length and equal number of 1s with equal ranks are equal. */
  lemma {:induction false} RankInjective(x: seq<int>, y: seq<int>)
    requires IsBits(x) && IsBits(y) && |x| == |y| && Ones(x) == Ones(y)
    requires Rank(x) == Rank(y)
    ensures x == y
    decreases |x|, 1
  {
    if x != [] {
      var k := |x| - 1;
      assert x == x[..k] + [x[k]] && y == y[..k] + [y[k]];
      RankInjectiveSnoc(x[..k], x[k], y[..k], y[k]);
    }
  }

  /** The step of RankInjective: the last bits agree, and then so do the rest. */
  lemma {:induction false} RankInjectiveSnoc(px: seq<int>, u: int, py: seq<int>, v: int)
    requires IsBits(px) && IsBits(py) && |px| == |py| && (u == 0 || u == 1) && (v == 0 || v == 1)
    requires Ones(px + [u]) == Ones(py + [v]) && Rank(px + [u]) == Rank(py + [v])
    ensures px + [u] == py + [v]
    decreases |px| + 1, 0
  {
    OnesSnoc(px, u);
    OnesSnoc(py, v);
    if u == v {
      RankSnoc(px, u);
      RankSnoc(py, v);
      RankInjective(px, py);
    } else if u == 1 {
      RankTop(px, py);
    } else {
      RankTop(py, px);
    }
  }

  /** The rank of the bits above a low part of length L with m ones. */
  function RankAbove(h: seq<int>, L: nat, m: nat): nat
  {
    if h == [] then 0
    else
      var p := h[..|h| - 1];
      (if h[|h| - 1] == 1 then Binomial(L + |h| - 1, m + Ones(p) + 1) else 0) + RankAbove(p, L, m)
  }

  /** The rank splits into the rank of the low part and a high part that depends
      on the low part only through its length and its number of 1s. */
  lemma {:induction false} RankAppend(a: seq<int>, h: seq<int>)
    ensures Rank(a + h) == Rank(a) + RankAbove(h, |a|, Ones(a))
  {
    if h != [] {
      var p := h[..|h| - 1];
      assert (a + h)[..|a + h| - 1] == a + p;
      assert (a + h)[|a + h| - 1] == h[|h| - 1];
      OnesAppend(a, p);
      RankAppend(a, p);
    } else {
      assert a + h == a;
    }
  }

  lemma {:induction false} RankOfOnesThenZeros(c: nat, z: nat)
    ensures Rank(Repeat(1, c) + Repeat(0, z)) == 0
  {
    if z > 0 {
      assert (Repeat(1, c) + Repeat(0, z))[..c + z - 1] == Repeat(1, c) + Repeat(0, z - 1);
      RankOfOnesThenZeros(c, z - 1);
    } else if c > 0 {
      assert Repeat(1, c) + Repeat(0, z) == Repeat(1, c);
      assert Repeat(1, c)[..c - 1] == Repeat(1, c - 1) + Repeat(0, 0);
      RankOfOnesThenZeros(c - 1, 0);
      assert multiset(Repeat(1, c - 1))[1] == c - 1 by {
        OnesOfRepeat(1, c - 1);
      }
      BinomialAboveIsZero(c - 1, c);
    }
  }

  lemma {:induction false} OnesOfRepeat(v: int, k: nat)
    ensures Ones(Repeat(v, k)) == if v == 1 then k else 0
  {
    if k > 0 {
      assert Repeat(v, k) == Repeat(v, k - 1) + [v];
      OnesSnoc(Repeat(v, k - 1), v);
      OnesOfRepeat(v, k - 1);
    }
  }

  lemma ZerosThenOnesSnoc(a: nat, c: nat)
    requires c >= 1
    ensures Rank(Repeat(0, a) + Repeat(1, c)) == Binomial(a + c - 1, c) + Rank(Repeat(0, a) + Repeat(1, c - 1))
  {
    var x := Repeat(0, a) + Repeat(1, c);
    var p := Repeat(0, a) + Repeat(1, c - 1);
    assert x[..|x| - 1] == p && x[|x| - 1] == 1;
    OnesOfRepeat(0, a);
    OnesOfRepeat(1, c - 1);
    OnesAppend(Repeat(0, a), Repeat(1, c - 1));
  }

  /** The hockey-stick identity: the top arrangement 0^a 1^c is the last of its kind. */
  lemma {:induction false} RankOfZerosThenOnes(a: nat, c: nat)
    ensures Rank(Repeat(0, a) + Repeat(1, c)) + 1 == Binomial(a + c, c)
  {
    if c == 0 {
      assert Repeat(0, a) + Repeat(1, c) == Repeat(1, 0) + Repeat(0, a);
      RankOfOnesThenZeros(0, a);
    } else {
      ZerosThenOnesSnoc(a, c);
      RankOfZerosThenOnes(a, c - 1);
      assert Binomial(a + c, c) == Binomial(a + c - 1, c - 1) + Binomial(a + c - 1, c);
    }
  }

  /** Two low parts of the same length and number of 1s keep their rank
      difference under any common high part. */
  lemma SameHighPart(a1: seq<int>, a2: seq<int>, h: seq<int>)
    requires |a1| == |a2| && Ones(a1) == Ones(a2)
    ensures Ones(a1 + h) == Ones(a2 + h)
    ensures Rank(a2 + h) - Rank(a1 + h) == Rank(a2) - Rank(a1)
  {
    RankAppend(a1, h);
    RankAppend(a2, h);
    OnesAppend(a1, h);
    OnesAppend(a2, h);
  }

  /** The move of lines 105-107: the top 1 of a bottom block 1^q moves up by one. */
  lemma LowStepRank(q: nat)
    requires q >= 1
    ensures Ones(Repeat(1, q - 1) + [0, 1]) == Ones(Repeat(1, q) + [0]) == q
    ensures Rank(Repeat(1, q - 1) + [0, 1]) == Rank(Repeat(1, q) + [0]) + 1
  {
    var p := Repeat(1, q - 1) + [0];
    assert Repeat(1, q - 1) + [0, 1] == p + [1];
    OnesOfRepeat(1, q);
    OnesOfRepeat(1, q - 1);
    OnesSnoc(Repeat(1, q), 0);
    OnesSnoc(Repeat(1, q - 1), 0);
    OnesSnoc(p, 1);
    RankSnoc(Repeat(1, q), 0);
    RankSnoc(p, 1);
    RankSnoc(Repeat(1, q - 1), 0);
    assert Repeat(1, q) == Repeat(1, q) + Repeat(0, 0);
    assert Repeat(1, q - 1) == Repeat(1, q - 1) + Repeat(0, 0);
    RankOfOnesThenZeros(q, 0);
    RankOfOnesThenZeros(q - 1, 0);
    BinomialFull(q);
  }

  lemma ShiftStepOnes(r0: nat, c: nat)
    requires c >= 1
    ensures Ones(Repeat(1, c - 1) + Repeat(0, r0 + 1) + [1]) == Ones(Repeat(0, r0) + Repeat(1, c) + [0]) == c
  {
    OnesOfRepeat(1, c - 1);
    OnesOfRepeat(0, r0 + 1);
    OnesOfRepeat(0, r0);
    OnesOfRepeat(1, c);
    OnesAppend(Repeat(1, c - 1), Repeat(0, r0 + 1));
    OnesAppend(Repeat(0, r0), Repeat(1, c));
    OnesSnoc(Repeat(1, c - 1) + Repeat(0, r0 + 1), 1);
    OnesSnoc(Repeat(0, r0) + Repeat(1, c), 0);
  }

  /** The shift of lines 114-127: a block 0^r0 1^c moves its top 1 up by one and
      its other c - 1 ones to the bottom. */
  lemma ShiftStepRank(r0: nat, c: nat)
    requires c >= 1
    ensures Ones(Repeat(1, c - 1) + Repeat(0, r0 + 1) + [1]) == Ones(Repeat(0, r0) + Repeat(1, c) + [0]) == c
    ensures Rank(Repeat(1, c - 1) + Repeat(0, r0 + 1) + [1]) == Rank(Repeat(0, r0) + Repeat(1, c) + [0]) + 1
  {
    ShiftStepOnes(r0, c);
    RankBeforeShift(r0, c);
    RankAfterShift(r0, c);
  }

  /** 0^r0 1^c 0 ranks just below Binomial(r0 + c, c). */
  lemma RankBeforeShift(r0: nat, c: nat)
    ensures Rank(Repeat(0, r0) + Repeat(1, c) + [0]) + 1 == Binomial(r0 + c, c)
  {
    RankSnoc(Repeat(0, r0) + Repeat(1, c), 0);
    RankOfZerosThenOnes(r0, c);
  }

  /** 1^(c - 1) 0^(r0 + 1) 1 ranks at Binomial(r0 + c, c). */
  lemma RankAfterShift(r0: nat, c: nat)
    requires c >= 1
    ensures Rank(Repeat(1, c - 1) + Repeat(0, r0 + 1) + [1]) == Binomial(r0 + c, c)
  {
    var p := Repeat(1, c - 1) + Repeat(0, r0 + 1);
    RankSnoc(p, 1);
    RankOfOnesThenZeros(c - 1, r0 + 1);
    OnesOfRepeat(1, c - 1);
    OnesOfRepeat(0, r0 + 1);
    OnesAppend(Repeat(1, c - 1), Repeat(0, r0 + 1));
    assert |p| == r0 + c && Ones(p) + 1 == c;
  }

  /** Lines 104-107 on the whole bit string: one step up in rank, same number of 1s. */
  lemma LowStep(comb: seq<int>, after: seq<int>, q: nat, n: nat)
    requires |comb| == n + 1 && |after| == n + 1 && 1 <= q < n && IsBits(comb[..n])
    requires forall i :: 0 <= i < q ==> comb[i] == 1
    requires comb[q] == 0
    requires after == comb[q := 1][q - 1 := 0]
    ensures IsBits(after[..n]) && Ones(after[..n]) == Ones(comb[..n])
    ensures Rank(after[..n]) == Rank(comb[..n]) + 1
  {
    var h := comb[q + 1..n];
    var a1 := Repeat(1, q) + [0];
    var a2 := Repeat(1, q - 1) + [0, 1];
    assert comb[..n] == a1 + h;
    assert after[..n] == a2 + h;
    LowStepRank(q);
    SameHighPart(a1, a2, h);
  }

  /** Lines 114-127 on the whole bit string, when the block does not reach the top. */
  lemma ShiftStep(comb: seq<int>, after: seq<int>, r0: nat, q: nat, r: nat, n: nat)
    requires |comb| == n + 1 && |after| == n + 1 && IsBits(comb[..n])
    requires q + r0 + 1 == r < n
    requires forall i :: 0 <= i < r0 ==> comb[i] == 0
    requires forall i :: r0 <= i < r ==> comb[i] == 1
    requires comb[r] == 0
    requires forall i :: 0 <= i < q ==> after[i] == 1
    requires forall i :: q <= i < r ==> after[i] == 0
    requires after[r] == 1
    requires forall i :: r < i < n ==> after[i] == comb[i]
    ensures IsBits(after[..n]) && Ones(after[..n]) == Ones(comb[..n])
    ensures Rank(after[..n]) == Rank(comb[..n]) + 1
  {
    var h := comb[r + 1..n];
    var c := r - r0;
    var a1 := Repeat(0, r0) + Repeat(1, c) + [0];
    var a2 := Repeat(1, c - 1) + Repeat(0, r0 + 1) + [1];
    assert comb[..n] == a1 + h;
    assert after[..n] == a2 + h;
    ShiftStepRank(r0, c);
    SameHighPart(a1, a2, h);
  }

  /** When the block reaches the top the bit string is 0^(n-t) 1^t, the last one. */
  lemma ShiftLast(comb: seq<int>, r0: nat, n: nat, t: nat)
    requires |comb| == n + 1 && r0 <= n && Ones(comb[..n]) == t
    requires forall i :: 0 <= i < r0 ==> comb[i] == 0
    requires forall i :: r0 <= i < n ==> comb[i] == 1
    ensures Rank(comb[..n]) + 1 == Binomial(n, t)
  {
    assert comb[..n] == Repeat(0, r0) + Repeat(1, n - r0);
    OnesAppend(Repeat(0, r0), Repeat(1, n - r0));
    OnesOfRepeat(0, r0);
    OnesOfRepeat(1, n - r0);
    RankOfZerosThenOnes(r0, n - r0);
  }

  // ---------------------------------------------------------------------------
  // The key matrix: one row per bunny, one column per lock.

  /** Python's None in a matrix cell not yet written. */
  const Unset: int := -1

  predicate IsMatrix(m: seq<seq<int>>, rows: nat, cols: nat)
  {
    |m| == rows && forall b :: 0 <= b < rows ==> |m[b]| == cols
  }

  /** Column c, one entry per bunny. */
  function Column(m: seq<seq<int>>, c: nat): seq<int>
    requires forall b :: 0 <= b < |m| ==> c < |m[b]|
  {
    seq(|m|, b requires 0 <= b < |m| => m[b][c])
  }

  function Reverse(x: seq<int>): (r: seq<int>)
    ensures |r| == |x|
  {
    seq(|x|, i requires 0 <= i < |x| => x[|x| - 1 - i])
  }

  lemma {:induction false} ReverseKeepsOnes(x: seq<int>)
    ensures Ones(Reverse(x)) == Ones(x)
    ensures IsBits(x) ==> IsBits(Reverse(x))
  {
    if x != [] {
      var p := x[..|x| - 1];
      assert x == p + [x[|x| - 1]];
      assert Reverse(x) == [x[|x| - 1]] + Reverse(p);
      ReverseKeepsOnes(p);
      OnesAppend([x[|x| - 1]], Reverse(p));
      OnesSnoc(p, x[|x| - 1]);
      assert Ones([x[|x| - 1]]) == if x[|x| - 1] == 1 then 1 else 0;
    }
  }

  lemma ReverseTwice(x: seq<int>)
    ensures Reverse(Reverse(x)) == x
  {
  }

  /** Columns from `from` on are written: each is a t-subset of the bunnies, and
      reading it bottom-up gives the bit string of colexicographic rank
      nlocks - 1 - c. */
  predicate RankedColumns(m: seq<seq<int>>, n: nat, t: nat, nlocks: nat, from: int)
  {
    IsMatrix(m, n, nlocks) &&
    forall c :: 0 <= c < nlocks && from <= c ==>
      IsComb(Column(m, c), t) && Rank(Reverse(Column(m, c))) == nlocks - 1 - c
  }

  /** Writing the bit string of rank nlocks - 1 - target into column target
      extends the ranked columns by one. */
  lemma WrittenColumnRanked(written: seq<seq<int>>, output: seq<seq<int>>, comb: seq<int>,
                            n: nat, t: nat, nlocks: nat, target: nat)
    requires RankedColumns(written, n, t, nlocks, target + 1) && target < nlocks
    requires |comb| >= n && IsComb(comb[..n], t) && target == nlocks - 1 - Rank(comb[..n])
    requires IsMatrix(output, n, nlocks)
    requires forall b, c :: 0 <= b < n && 0 <= c < nlocks && c != target ==> output[b][c] == written[b][c]
    requires forall b :: 0 <= b < n ==> output[b][target] == comb[n - 1 - b]
    ensures RankedColumns(output, n, t, nlocks, target)
  {
    assert Column(output, target) == Reverse(comb[..n]);
    ReverseTwice(comb[..n]);
    ReverseKeepsOnes(comb[..n]);
    forall c | 0 <= c < nlocks && target < c
      ensures Column(output, c) == Column(written, c)
    {
      assert forall b :: 0 <= b < n ==> output[b][c] == written[b][c];
    }
  }

  /** Lines 96-99: write the bit string, top bit first, into column `target`. */
  method WriteColumn(output: seq<seq<int>>, comb: seq<int>, n: nat, target: nat) returns (out: seq<seq<int>>)
    requires |output| == n && n <= |comb|
    requires forall b :: 0 <= b < n ==> target < |output[b]|
    ensures |out| == n
    ensures forall b :: 0 <= b < n ==> |out[b]| == |output[b]|
    ensures forall b, c :: 0 <= b < n && 0 <= c < |out[b]| && c != target ==> out[b][c] == output[b][c]
    ensures forall b :: 0 <= b < n ==> out[b][target] == comb[n - 1 - b]
  {
    out := output;
    var index := 0;
    var i := n - 1;
    while index < n
      invariant 0 <= index <= n && i == n - 1 - index
      invariant |out| == n
      invariant forall b :: 0 <= b < n ==> |out[b]| == |output[b]|
      invariant forall b, c :: 0 <= b < n && 0 <= c < |out[b]| && (c != target || index <= b) ==> out[b][c] == output[b][c]
      invariant forall b :: 0 <= b < index ==> out[b][target] == comb[n - 1 - b]
    {
      out := out[index := out[index][target := comb[i]]];
      index := index + 1;
      i := i - 1;
    }
  }

  /** Lines 114-121, entered with q == 0 and a block of 1s starting at r0: clear
      the block, moving all but one of its 1s to the bottom. Returns the new q
      and r; r is the first 0 above the block. */
  method ShiftBlock(comb: seq<int>, r0: nat, n: nat) returns (out: seq<int>, q: nat, r: nat)
    requires |comb| == n + 1 && comb[n] == 0 && r0 < n && comb[r0] == 1
    requires forall i :: 0 <= i < r0 ==> comb[i] == 0
    ensures r0 < r <= n && q + r0 + 1 == r
    ensures comb[r] != 1 && forall i :: r0 <= i < r ==> comb[i] == 1
    ensures |out| == n + 1
    ensures forall i :: 0 <= i < q ==> out[i] == 1
    ensures forall i :: q <= i < r ==> out[i] == 0
    ensures forall i :: r <= i <= n ==> out[i] == comb[i]
  {
    out := comb;
    q := 0;
    r := r0;
    while true
      invariant r0 <= r < n && q + r0 == r
      invariant |out| == n + 1 && out[r] == 1
      invariant forall i :: r0 <= i <= r ==> comb[i] == 1
      invariant forall i :: 0 <= i < q ==> out[i] == 1
      invariant forall i :: q <= i < r ==> out[i] == 0
      invariant forall i :: r <= i <= n ==> out[i] == comb[i]
      decreases n - r
    {
      out := out[r := 0];
      r := r + 1;
      assert out[r] == comb[r];
      if out[r] == 1 {
        out := out[q := 1];
        q := q + 1;
      } else {
        break;
      }
    }
  }

  /** Where the loop of lines 94-130 stands between two columns: the bottom
      block of 1s (q > 0) or the lowest 1 above a run of 0s (q == 0, at r). */
  predicate LoopState(comb: seq<int>, q: nat, r: nat, n: nat, t: nat)
  {
    && |comb| == n + 1 && comb[n] == 0 && IsComb(comb[..n], t)
    && q < n
    && (q > 0 ==> r == 0 && (forall i :: 0 <= i < q ==> comb[i] == 1) && comb[q] == 0)
    && (q == 0 ==> r < n && (forall i :: 0 <= i < r ==> comb[i] == 0) && comb[r] == 1)
  }

  /** Lines 103-130: step to the bit string of next colexicographic rank, or
      report (the source's `break`) that the current one was the last. */
  method NextComb(comb: seq<int>, q: nat, r: nat, n: nat, t: nat)
      returns (next: seq<int>, q': nat, r': nat, last: bool)
    requires LoopState(comb, q, r, n, t) && 0 < t < n
    ensures last ==> Rank(comb[..n]) + 1 == Binomial(n, t)
    ensures !last ==> LoopState(next, q', r', n, t) && Rank(next[..n]) == Rank(comb[..n]) + 1
  {
    next, q', r', last := comb, q, r, false;
    if q != 0 {
      next := next[q := 1];
      next := next[q - 1 := 0];
      LowStep(comb, next, q, n);
      q' := q - 1;
      if q' == 0 {
        r' := 1;
      }
    } else {
      next, q', r' := ShiftBlock(comb, r, n);
      if r' == n {
        ShiftLast(comb, r, n, t);
        last := true;
        return;
      } else {
        next := next[r' := 1];
      }
      assert comb[..n][r'] == comb[r'];
      ShiftStep(comb, next, r, q', r', n);
      if q' > 0 {
        r' := 0;
      }
    }
  }

  /** The source's `lexCombs(n, t)` (lines 48-132), with `num_buns`, the number
      of rows, equal to n as at its one call, and `nlocks` the number of columns.
      Column target gets the bit string of colexicographic rank nlocks - 1 - target,
      its top bit in row 0. */
  method LexCombs(n: nat, t: nat, nlocks: nat) returns (output: seq<seq<int>>)
    requires 0 < t < n ==> nlocks == Binomial(n, t)
    ensures |output| == n
    ensures n == t ==> forall b :: 0 <= b < n ==> output[b] == [1]
    ensures n < t ==> forall b :: 0 <= b < n ==> output[b] == []
    ensures t == 0 < n ==> forall b :: 0 <= b < n ==> output[b] == Repeat(0, nlocks)
    ensures 0 < t < n ==> RankedColumns(output, n, t, nlocks, 0)
  {
    if n == t {
      return seq(n, _ => [1]);
    }
    if n < t {
      return seq(n, _ => []);
    }
    if t == 0 {
      return seq(n, _ => Repeat(0, nlocks));
    }
    output := seq(n, _ => Repeat(Unset, nlocks));
    var comb := Repeat(1, t) + Repeat(0, n - t) + [0];
    var target: int := nlocks - 1;
    var q: nat := t;
    var r: nat := 0;
    assert comb[..n] == Repeat(1, t) + Repeat(0, n - t);
    RankOfOnesThenZeros(t, n - t);
    OnesAppend(Repeat(1, t), Repeat(0, n - t));
    OnesOfRepeat(1, t);
    OnesOfRepeat(0, n - t);
    while true
      invariant LoopState(comb, q, r, n, t)
      invariant target == nlocks - 1 - Rank(comb[..n])
      invariant RankedColumns(output, n, t, nlocks, target + 1)
      decreases target
    {
      RankBound(comb[..n]);
      ghost var written := output;
      output := WriteColumn(output, comb, n, target);
      WrittenColumnRanked(written, output, comb, n, t, nlocks, target);
      target := target - 1;

      var last;
      comb, q, r, last := NextComb(comb, q, r, n, t);
      if last {
        break;
      }
    }
  }

  /** Ranked columns that cover every rank list every t-subset of the bunnies
      exactly once: no two columns agree and every t-subset is some column. */
  lemma RankedColumnsAreAllCombs(m: seq<seq<int>>, n: nat, t: nat, nlocks: nat)
    requires nlocks == Binomial(n, t) && RankedColumns(m, n, t, nlocks, 0)
    ensures forall c1, c2 :: 0 <= c1 < c2 < nlocks ==> Column(m, c1) != Column(m, c2)
    ensures forall x :: |x| == n && IsComb(x, t) ==> exists c :: 0 <= c < nlocks && Column(m, c) == x
  {
    forall x | |x| == n && IsComb(x, t)
      ensures exists c :: 0 <= c < nlocks && Column(m, c) == x
    {
      var y := Reverse(x);
      ReverseKeepsOnes(x);
      RankBound(y);
      var c := nlocks - 1 - Rank(y);
      var z := Reverse(Column(m, c));
      ReverseKeepsOnes(Column(m, c));
      RankInjective(z, y);
      ReverseTwice(Column(m, c));
      ReverseTwice(x);
    }
  }

  // ---------------------------------------------------------------------------
  // From bit strings to key lists, and the whole solution.

  /** Lines 142-146: the positions of a row holding a 1, in increasing order. */
  function KeysOf(line: seq<int>): (row: seq<nat>)
    ensures forall i :: 0 <= i < |row| ==> row[i] < |line| && line[row[i]] == 1
    ensures forall i, j :: 0 <= i < j < |row| ==> row[i] < row[j]
  {
    if line == [] then []
    else KeysOf(line[..|line| - 1]) + (if line[|line| - 1] == 1 then [|line| - 1] else [])
  }

  /** Every position holding a 1 is listed. */
  lemma {:induction false} KeysOfComplete(line: seq<int>, k: nat)
    requires k < |line| && line[k] == 1
    ensures k in KeysOf(line)
  {
    if k < |line| - 1 {
      KeysOfComplete(line[..|line| - 1], k);
    }
  }

  /** A bunny gets as many keys as its row has 1s. */
  lemma {:induction false} KeysOfLength(line: seq<int>)
    ensures |KeysOf(line)| == Ones(line)
  {
    if line != [] {
      var p := line[..|line| - 1];
      assert line == p + [line[|line| - 1]];
      KeysOfLength(p);
      OnesSnoc(p, line[|line| - 1]);
    }
  }

  /** Lines 135-149. */
  function BitToKeys(bits: seq<seq<int>>): (keys: seq<seq<nat>>)
    ensures |keys| == |bits|
  {
    seq(|bits|, b requires 0 <= b < |bits| => KeysOf(bits[b]))
  }

  /** The bunnies holding the key of lock c, as a 0/1 string. */
  function Holders(keys: seq<seq<nat>>, c: nat): seq<int>
  {
    seq(|keys|, b requires 0 <= b < |keys| => if c in keys[b] then 1 else 0)
  }

  /** A key distribution over n bunnies and nlocks locks in which every lock's
      key is held by exactly t bunnies, no two locks have the same holders, and
      every t-subset of the bunnies holds the key of some lock. */
  ghost predicate KeyRing(keys: seq<seq<nat>>, n: nat, t: nat, nlocks: nat)
  {
    && |keys| == n
    && (forall b, i :: 0 <= b < n && 0 <= i < |keys[b]| ==> keys[b][i] < nlocks)
    && (forall b, i, j :: 0 <= b < n && 0 <= i < j < |keys[b]| ==> keys[b][i] < keys[b][j])
    && (forall c :: 0 <= c < nlocks ==> IsComb(Holders(keys, c), t))
    && (forall c1, c2 :: 0 <= c1 < c2 < nlocks ==> Holders(keys, c1) != Holders(keys, c2))
    && (forall x :: |x| == n && IsComb(x, t) ==> exists c :: 0 <= c < nlocks && Holders(keys, c) == x)
  }

  // ---------------------------------------------------------------------------
  // What the key ring is for: any num_required bunnies open every lock, and no
  // num_required - 1 bunnies do.

  /** A group of bunnies, each a valid bunny index. */
  predicate Group(B: set<int>, n: nat)
  {
    forall b :: b in B ==> 0 <= b < n
  }

  /** Some bunny of B holds the key of lock c. */
  ghost predicate Opens(keys: seq<seq<nat>>, B: set<int>, c: nat)
  {
    exists b :: b in B && 0 <= b < |keys| && c in keys[b]
  }

  /** Together the bunnies of B hold the key of every one of the nlocks locks. */
  ghost predicate OpenAll(keys: seq<seq<nat>>, B: set<int>, nlocks: nat)
  {
    forall c: nat :: c < nlocks ==> Opens(keys, B, c)
  }

  /** The positions of a bit string holding a 1. */
  ghost function OnesAt(x: seq<int>): set<int>
  {
    set b | 0 <= b < |x| && x[b] == 1
  }

  /** Every bunny index below n. */
  ghost function Below(n: nat): (r: set<int>)
    ensures forall i :: i in r <==> 0 <= i < n
  {
    if n == 0 then {} else Below(n - 1) + {n - 1}
  }

  lemma {:induction false} OnesAtCard(x: seq<int>)
    ensures |OnesAt(x)| == Ones(x)
    decreases |x|
  {
    if x == [] {
      assert OnesAt(x) == {};
    } else {
      var p := x[..|x| - 1];
      var last := x[|x| - 1];
      OnesAtCard(p);
      assert x == p + [last];
      OnesSnoc(p, last);
      assert OnesAt(x) == OnesAt(p) + (if last == 1 then {|p|} else {});
      assert |p| !in OnesAt(p);
    }
  }

  lemma {:induction false} BelowCard(n: nat)
    ensures |Below(n)| == n
  {
    if n > 0 {
      BelowCard(n - 1);
      assert Below(n) == Below(n - 1) + {n - 1};
    }
  }

  /** Two disjoint groups of bunnies number at most n together. */
  lemma DisjointGroups(A: set<int>, B: set<int>, n: nat)
    requires Group(A, n) && Group(B, n) && A * B == {}
    ensures |A| + |B| <= n
  {
    BelowCard(n);
    assert A + B <= Below(n);
    SubsetCard(A + B, Below(n));
  }

  lemma SubsetCard(A: set<int>, C: set<int>)
    requires A <= C
    ensures |A| <= |C|
  {
    assert C == A + (C - A);
  }

  /** The bunnies outside a group of n bunnies number n - |B|. */
  lemma ComplementCard(B: set<int>, n: nat)
    requires Group(B, n)
    ensures |Below(n) - B| == n - |B|
  {
    BelowCard(n);
    assert Below(n) == (Below(n) - B) + B;
  }

  /** Any r bunnies or more hold every key: a lock's t = n - r + 1 holders
      cannot all be among the other n - r or fewer bunnies. */
  lemma EnoughOpen(keys: seq<seq<nat>>, n: nat, r: nat, nlocks: nat, B: set<int>)
    requires 1 <= r <= n && KeyRing(keys, n, n - r + 1, nlocks)
    requires Group(B, n) && |B| >= r
    ensures OpenAll(keys, B, nlocks)
  {
    forall c: nat | c < nlocks
      ensures Opens(keys, B, c)
    {
      var x := Holders(keys, c);
      if !Opens(keys, B, c) {
        assert IsComb(x, n - r + 1);
        OnesAtCard(x);
        assert OnesAt(x) * B == {} by {
          forall b | b in B
            ensures b !in OnesAt(x)
          {
            assert x[b] == 0;
          }
        }
        DisjointGroups(OnesAt(x), B, n);
        assert false;
      }
    }
  }

  /** No r - 1 bunnies hold every key: the lock whose holders are exactly the
      other n - r + 1 bunnies stays shut. */
  lemma FewerDoNotOpen(keys: seq<seq<nat>>, n: nat, r: nat, nlocks: nat, B: set<int>)
    requires 1 <= r <= n && KeyRing(keys, n, n - r + 1, nlocks)
    requires Group(B, n) && |B| == r - 1
    ensures !OpenAll(keys, B, nlocks)
  {
    var x := seq(n, i requires 0 <= i < n => if i in B then 0 else 1);
    assert OnesAt(x) == Below(n) - B;
    OnesAtCard(x);
    ComplementCard(B, n);
    assert IsComb(x, n - r + 1);
    var c :| 0 <= c < nlocks && Holders(keys, c) == x;
    forall b | b in B
      ensures !(0 <= b < |keys| && c in keys[b])
    {
      assert Holders(keys, c)[b] == 0;
    }
    assert !Opens(keys, B, c);
  }

  /** Every group of at least r bunnies opens all locks, and no group of r - 1 does. */
  lemma KeyRingOpens(keys: seq<seq<nat>>, n: nat, r: nat, nlocks: nat)
    requires 1 <= r <= n && KeyRing(keys, n, n - r + 1, nlocks)
    ensures forall B :: Group(B, n) && |B| >= r ==> OpenAll(keys, B, nlocks)
    ensures forall B :: Group(B, n) && |B| == r - 1 ==> !OpenAll(keys, B, nlocks)
  {
    forall B | Group(B, n) && |B| >= r
      ensures OpenAll(keys, B, nlocks)
    {
      EnoughOpen(keys, n, r, nlocks, B);
    }
    forall B | Group(B, n) && |B| == r - 1
      ensures !OpenAll(keys, B, nlocks)
    {
      FewerDoNotOpen(keys, n, r, nlocks, B);
    }
  }

  /** With a single lock whose key every bunny holds, any one bunny opens it
      and no bunny at all does not. */
  lemma OneLockOpens(keys: seq<seq<nat>>, n: nat)
    requires |keys| == n && forall b :: 0 <= b < n ==> keys[b] == [0]
    ensures forall B :: Group(B, n) && |B| >= 1 ==> OpenAll(keys, B, 1)
    ensures forall B :: Group(B, n) && |B| == 0 ==> !OpenAll(keys, B, 1)
  {
    forall B | Group(B, n) && |B| >= 1
      ensures OpenAll(keys, B, 1)
    {
      if forall b :: b !in B {
        assert false;
      }
      var b :| b in B;
      assert 0 in keys[b];
      assert Opens(keys, B, 0);
    }
    forall B | Group(B, n) && |B| == 0
      ensures !OpenAll(keys, B, 1)
    {
      assert !Opens(keys, B, 0);
    }
  }

  /** Reading a 0/1 matrix as key lists keeps its columns as the holders of each lock. */
  lemma HoldersAreColumns(m: seq<seq<int>>, n: nat, nlocks: nat, c: nat)
    requires IsMatrix(m, n, nlocks) && c < nlocks && IsBits(Column(m, c))
    ensures Holders(BitToKeys(m), c) == Column(m, c)
  {
    forall b | 0 <= b < n
      ensures Holders(BitToKeys(m), c)[b] == Column(m, c)[b]
    {
      assert Column(m, c)[b] == m[b][c];
      if m[b][c] == 1 {
        KeysOfComplete(m[b], c);
      } else {
        var row := KeysOf(m[b]);
        assert forall i :: 0 <= i < |row| ==> row[i] != c;
      }
    }
  }

  /** The source's `solution` (lines 154-168): num_required == 1 gives every
      bunny the single key 0, num_required == num_buns + 1 gives no keys, and
      otherwise the key lists form a key ring over choose(num_buns,
      num_required - 1) locks, each key held by num_buns - num_required + 1
      bunnies. */
  method Solution(numBuns: nat, numRequired: nat) returns (keys: seq<seq<nat>>)
    requires 1 <= numRequired <= numBuns + 1
    ensures |keys| == numBuns
    ensures numRequired == 1 ==> forall b :: 0 <= b < numBuns ==> keys[b] == [0]
    ensures numRequired == numBuns + 1 ==> forall b :: 0 <= b < numBuns ==> keys[b] == []
    ensures 1 < numRequired <= numBuns ==>
              KeyRing(keys, numBuns, numBuns - numRequired + 1, Choose(numBuns, numRequired - 1))
    ensures numRequired <= numBuns ==>
              forall B :: Group(B, numBuns) && |B| >= numRequired ==> OpenAll(keys, B, Choose(numBuns, numRequired - 1))
    ensures numRequired <= numBuns ==>
              forall B :: Group(B, numBuns) && |B| == numRequired - 1 ==> !OpenAll(keys, B, Choose(numBuns, numRequired - 1))
  {
    var nlocks := if numRequired > numBuns then 0 else Choose(numBuns, numRequired - 1);
    var t := numBuns - numRequired + 1;
    if 1 < numRequired <= numBuns {
      ChooseIsBinomial(numBuns, numRequired - 1);
      ChooseIsBinomial(numBuns, t);
      ChooseSymmetric(numBuns, numRequired - 1);
    }
    var bitString := LexCombs(numBuns, t, nlocks);
    keys := BitToKeys(bitString);
    if numRequired == 1 {
      forall b | 0 <= b < numBuns
        ensures keys[b] == [0]
      {
        assert bitString[b] == [1];
        assert [1][..0] == [];
      }
    }
    if 1 < numRequired <= numBuns {
      forall c | 0 <= c < nlocks
        ensures Holders(keys, c) == Column(bitString, c)
      {
        HoldersAreColumns(bitString, numBuns, nlocks, c);
      }
      RankedColumnsAreAllCombs(bitString, numBuns, t, nlocks);
      assert KeyRing(keys, numBuns, t, nlocks);
      KeyRingOpens(keys, numBuns, numRequired, nlocks);
    }
    if numRequired == 1 && numBuns >= 1 {
      ChooseIsBinomial(numBuns, 0);
      OneLockOpens(keys, numBuns);
    }
  }
}

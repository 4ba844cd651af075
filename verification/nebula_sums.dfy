/** Expanding nebula, sums: Python sums dictionary values and iterates sets
    in an unspecified order. These are the order-free sums the model states
    them with, over a finite set of ints and over a sequence. */
module NebulaSums {

  lemma HasMember(s: set<int>)
    requires s != {}
    ensures exists x :: x in s
  {
    if forall x :: x !in s {
      assert false;
    }
  }

  /** Some element of a non-empty set. */
  ghost function Pick(s: set<int>): (x: int)
    requires s != {}
    ensures x in s
  {
    HasMember(s);
    var x :| x in s;
    x
  }

  /** One step of a loop that visits the set K: bid moves from the ids still
      to visit to those done. */
  lemma TakeOne(K: set<int>, done: set<int>, todo: set<int>, bid: int)
    requires done <= K && todo == K - done && bid in todo
    ensures done + {bid} <= K && todo - {bid} == K - (done + {bid})
    ensures done + {bid} - {bid} == done && |todo - {bid}| < |todo|
  {
  }

  /** A loop over K that has nothing left to visit has visited all of K. */
  lemma TakeAll(K: set<int>, done: set<int>)
    requires done <= K && K - done == {}
    ensures done == K
  {
    forall x | x in K
      ensures x in done
    {
      assert x !in K - done;
    }
  }

  /** The sum of f over the finite set s. */
  ghost function SetSum(s: set<int>, f: int -> int): int
    decreases |s|
  {
    if s == {} then 0 else f(Pick(s)) + SetSum(s - {Pick(s)}, f)
  }

  /** Any element can be taken out first: the sum does not depend on the order. */
  lemma {:induction false} SetSumRemove(s: set<int>, f: int -> int, y: int)
    requires y in s
    ensures SetSum(s, f) == f(y) + SetSum(s - {y}, f)
    decreases |s|
  {
    var x := Pick(s);
    if x != y {
      SetSumRemove(s - {x}, f, y);
      SetSumRemove(s - {y}, f, x);
      assert s - {x} - {y} == s - {y} - {x};
    }
  }

  /** Adding one element to a sum. */
  lemma SetSumAdd(s: set<int>, f: int -> int, y: int)
    requires y !in s
    ensures SetSum(s + {y}, f) == SetSum(s, f) + f(y)
  {
    SetSumRemove(s + {y}, f, y);
    assert s + {y} - {y} == s;
  }

  /** Functions that agree on s have the same sum over s. */
  lemma {:induction false} SetSumAgree(s: set<int>, f: int -> int, g: int -> int)
    requires forall x :: x in s ==> f(x) == g(x)
    ensures SetSum(s, f) == SetSum(s, g)
    decreases |s|
  {
    if s != {} {
      SetSumAgree(s - {Pick(s)}, f, g);
    }
  }

  /** Adding elements where f is zero leaves the sum unchanged. */
  lemma {:induction false} SetSumZeroOutside(s: set<int>, t: set<int>, f: int -> int)
    requires s <= t && forall x :: x in t && x !in s ==> f(x) == 0
    ensures SetSum(s, f) == SetSum(t, f)
    decreases |t|
  {
    if t != s {
      assert t - s != {} by {
        if t - s == {} {
          forall x | x in t
            ensures x in s
          {
            assert x !in t - s;
          }
          assert false;
        }
      }
      var y := Pick(t - s);
      SetSumRemove(t, f, y);
      SetSumZeroOutside(s, t - {y}, f);
    }
  }

  lemma {:induction false} SetSumNonNegative(s: set<int>, f: int -> int)
    requires forall x :: x in s ==> f(x) >= 0
    ensures SetSum(s, f) >= 0
    decreases |s|
  {
    if s != {} {
      SetSumNonNegative(s - {Pick(s)}, f);
    }
  }

  /** The sum of g over the elements of xs, repeats included. */
  function SeqSum(xs: seq<int>, g: int -> int): int
  {
    if xs == [] then 0 else SeqSum(xs[..|xs| - 1], g) + g(xs[|xs| - 1])
  }

  ghost function Elems(xs: seq<int>): (r: set<int>)
    ensures forall x :: x in r <==> x in xs
  {
    set x | x in xs
  }

  /** x weighed by its number of occurrences in xs. */
  ghost function Weighted(xs: seq<int>, g: int -> int): int -> int
  {
    x => multiset(xs)[x] * g(x)
  }

  /** A sum over a sequence, grouped by value: each distinct value once,
      times its number of occurrences. */
  lemma {:induction false} SeqSumGrouped(xs: seq<int>, g: int -> int)
    ensures SeqSum(xs, g) == SetSum(Elems(xs), Weighted(xs, g))
  {
    if xs != [] {
      var k := |xs| - 1;
      assert xs == xs[..k] + [xs[k]];
      SeqSumGrouped(xs[..k], g);
      GroupedSnoc(xs[..k], xs[k], g);
    }
  }

  /** The step of SeqSumGrouped: appending y. */
  lemma GroupedSnoc(init: seq<int>, y: int, g: int -> int)
    requires SeqSum(init, g) == SetSum(Elems(init), Weighted(init, g))
    ensures SeqSum(init + [y], g) == SetSum(Elems(init + [y]), Weighted(init + [y], g))
  {
    var xs := init + [y];
    assert xs[..|xs| - 1] == init;
    assert Elems(xs) == Elems(init) + {y};
    WeightedSnoc(init, y, g);
    SumBump(Elems(init), Weighted(init, g), Weighted(xs, g), y, g(y));
  }

  /** Appending y adds g(y) to the weight of y alone. */
  lemma WeightedSnoc(init: seq<int>, y: int, g: int -> int)
    ensures forall x :: Weighted(init + [y], g)(x) == Weighted(init, g)(x) + (if x == y then g(y) else 0)
    ensures y !in Elems(init) ==> Weighted(init, g)(y) == 0
  {
    assert multiset(init + [y]) == multiset(init) + multiset{y};
  }

  /** Adding c at y, and y to the set where it was not yet summed. */
  lemma SumBump(E: set<int>, f: int -> int, f': int -> int, y: int, c: int)
    requires forall x :: f'(x) == f(x) + (if x == y then c else 0)
    requires y !in E ==> f(y) == 0
    ensures SetSum(E + {y}, f') == SetSum(E, f) + c
  {
    var rest := E + {y} - {y};
    SetSumRemove(E + {y}, f', y);
    SetSumAgree(rest, f', f);
    if y in E {
      SetSumRemove(E, f, y);
      assert E - {y} == rest;
    } else {
      assert E == rest;
    }
  }

  function One(x: int): int
  {
    1
  }

  lemma {:induction false} SeqSumOne(xs: seq<int>)
    ensures SeqSum(xs, One) == |xs|
  {
    if xs != [] {
      SeqSumOne(xs[..|xs| - 1]);
    }
  }

  /** The number of occurrences of each value in xs. */
  ghost function Count(xs: seq<int>): int -> int
  {
    x => multiset(xs)[x]
  }

  /** The occurrence counts of a sequence's values add up to its length. */
  lemma Occurrences(xs: seq<int>)
    ensures SetSum(Elems(xs), Count(xs)) == |xs|
  {
    SeqSumOne(xs);
    SeqSumGrouped(xs, One);
    SetSumAgree(Elems(xs), Weighted(xs, One), Count(xs));
  }

  /** The values 0, 1, ..., n - 1 in increasing order. */
  function Range(n: nat): (r: seq<int>)
    ensures |r| == n
  {
    if n == 0 then [] else Range(n - 1) + [n - 1]
  }

  /** Range(n) holds each value of [0, n) once and nothing else. */
  lemma {:induction false} RangeCount(n: nat)
    ensures forall x :: multiset(Range(n))[x] == if 0 <= x < n then 1 else 0
  {
    if n > 0 {
      RangeCount(n - 1);
    }
  }

  /** Summing over the distinct values of Range(n) sums over [0, n). */
  lemma RangeGrouped(n: nat, g: int -> int)
    ensures forall x :: x in Elems(Range(n)) <==> 0 <= x < n
    ensures SeqSum(Range(n), g) == SetSum(Elems(Range(n)), g)
  {
    RangeCount(n);
    forall x
      ensures x in Elems(Range(n)) <==> 0 <= x < n
    {
      assert x in Range(n) <==> multiset(Range(n))[x] > 0;
    }
    SeqSumGrouped(Range(n), g);
    SetSumAgree(Elems(Range(n)), Weighted(Range(n), g), g);
  }
}

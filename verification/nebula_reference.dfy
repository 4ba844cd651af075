/** Expanding nebula, the reference: every previous state of a binary nebula
    (in the transposed orientation the solution works in), generated row by
    row over all 2^(w+1) candidate rows and checked against the transition rule.
    No ids, no tables, no stack, no merging. */
module NebulaReference {
  import opened Arith
  import opened NebulaRule
  import opened NebulaIds
  import opened NebulaSums
  import opened NebulaRows

  /** A binary grid of at least one row, all rows of one positive width. */
  predicate Grid(bg: seq<seq<int>>)
  {
    |bg| >= 1 && |bg[0]| >= 1 && forall r :: 0 <= r < |bg| ==> |bg[r]| == |bg[0]| && IsBits(bg[r])
  }

  function Last<T>(xs: seq<T>): T
    requires |xs| >= 1
  {
    xs[|xs| - 1]
  }

  /** P is a previous state of the first k rows of bg: k + 1 bit rows of
      w + 1 cells, each two consecutive rows a previous state of the nebula
      row between them. */
  ghost predicate IsPreimage(bg: seq<seq<int>>, P: seq<seq<int>>, k: nat)
    requires Grid(bg) && k <= |bg|
  {
    |P| == k + 1 &&
    (forall r :: 0 <= r < |P| ==> |P[r]| == |bg[0]| + 1 && IsBits(P[r])) &&
    forall r :: 0 <= r < k ==> StripOK(bg[r], Strip(P[r], P[r + 1]))
  }

  /** Q is P with one more row below it, and P's last row over Q's last row is
      a previous state of row. */
  predicate ChildOf(row: seq<int>, P: seq<seq<int>>, Q: seq<seq<int>>)
  {
    |P| >= 1 && |Q| == |P| + 1 && Q[..|P|] == P && StripOK(row, Strip(Last(P), Last(Q)))
  }

  predicate AllStarted(Ps: seq<seq<seq<int>>>)
  {
    forall k :: 0 <= k < |Ps| ==> |Ps[k]| >= 1
  }

  /** The one-row grids of the first i n-bit rows. */
  function Singles(n: nat, i: nat): (r: seq<seq<seq<int>>>)
    ensures |r| == i && forall k :: 0 <= k < i ==> r[k] == [RowOf(n, k)]
  {
    if i == 0 then [] else Singles(n, i - 1) + [[RowOf(n, i - 1)]]
  }

  /** The n-bit rows by id. */
  function Rows(n: nat): int -> seq<int>
  {
    j => RowOf(n, j)
  }

  /** rows(j) is the n-bit row with id j, for every id. */
  ghost predicate Names(rows: int -> seq<int>, n: nat)
  {
    forall j :: 0 <= j < Pow(2, n) ==> |rows(j)| == n && IsBits(rows(j)) && Id(rows(j)) == j
  }

  /** P extended by each of rows(0), ..., rows(i - 1) that keep accepts, in
      increasing id order. */
  function Extend(P: seq<seq<int>>, rows: int -> seq<int>, i: nat, keep: int -> bool): (r: seq<seq<seq<int>>>)
    requires |P| >= 1
    ensures forall k :: 0 <= k < |r| ==> |r[k]| == |P| + 1 && r[k][..|P|] == P
  {
    if i == 0 then []
    else
      var Q := P + [rows(i - 1)];
      assert Q[..|P|] == P;
      Extend(P, rows, i - 1, keep) + (if keep(i - 1) then [Q] else [])
  }

  /** The ids of the rows that fit under R: R over the row is a previous
      state of row. */
  function Fits(row: seq<int>, R: seq<int>): int -> bool
  {
    j => StripOK(row, Strip(R, RowOf(|row| + 1, j)))
  }

  /** P extended by every candidate row that fits under its last row. */
  function Children(row: seq<int>, P: seq<seq<int>>): seq<seq<seq<int>>>
    requires |P| >= 1
  {
    Extend(P, Rows(|row| + 1), Pow(2, |row| + 1), Fits(row, Last(P)))
  }

  /** Every grid of Ps extended by every candidate row that fits under it. */
  function Grow(row: seq<int>, Ps: seq<seq<seq<int>>>): (r: seq<seq<seq<int>>>)
    requires AllStarted(Ps)
    ensures forall j :: 0 <= j < |r| ==> |r[j]| >= 2 && r[j][..|r[j]| - 1] in Ps
  {
    if Ps == [] then []
    else
      var init, P := Ps[..|Ps| - 1], Last(Ps);
      var a, b := Grow(row, init), Children(row, P);
      assert forall j :: 0 <= j < |b| ==> b[j][..|b[j]| - 1] == P;
      a + b
  }

  /** The previous states of the first k rows of bg. */
  function Preimages(bg: seq<seq<int>>, k: nat): (r: seq<seq<seq<int>>>)
    requires Grid(bg) && k <= |bg|
    ensures forall j :: 0 <= j < |r| ==> |r[j]| == k + 1
  {
    var n := |bg[0]| + 1;
    if k == 0 then Singles(n, Pow(2, n))
    else
      var Ps := Preimages(bg, k - 1);
      var r := Grow(bg[k - 1], Ps);
      assert forall j :: 0 <= j < |r| ==> |r[j][..|r[j]| - 1]| == k;
      r
  }

  /** The id of the last row of each grid, in order. */
  function Lasts(Ps: seq<seq<seq<int>>>): (r: seq<int>)
    requires AllStarted(Ps)
    ensures |r| == |Ps|
  {
    if Ps == [] then [] else Lasts(Ps[..|Ps| - 1]) + [Id(Last(Last(Ps)))]
  }

  // ---------------------------------------------------------------------
  // The reference lists every previous state once

  lemma SinglesExact(n: nat)
    ensures Distinct(Singles(n, Pow(2, n)))
    ensures forall P :: P in Singles(n, Pow(2, n)) <==> |P| == 1 && |P[0]| == n && IsBits(P[0])
  {
    var r := Singles(n, Pow(2, n));
    forall i, k | 0 <= i < k < |r|
      ensures r[i] != r[k]
    {
      IdOfRowOf(n, i);
      IdOfRowOf(n, k);
      assert r[i][0] == RowOf(n, i) && r[k][0] == RowOf(n, k);
    }
    forall P | |P| == 1 && |P[0]| == n && IsBits(P[0])
      ensures P in r
    {
      RowOfId(P[0]);
      IdBound(P[0]);
      assert r[Id(P[0])] == P;
    }
  }

  /** Q is P with one more n-bit row below it. */
  predicate Below(P: seq<seq<int>>, n: nat, Q: seq<seq<int>>)
  {
    |P| >= 1 && |Q| == |P| + 1 && Q[..|P|] == P && |Last(Q)| == n && IsBits(Last(Q))
  }

  lemma RowsName(n: nat)
    ensures Names(Rows(n), n)
  {
    forall j | 0 <= j < Pow(2, n)
      ensures Id(Rows(n)(j)) == j
    {
      IdOfRowOf(n, j);
    }
  }

  /** A grid below P is named by the id of its last row. */
  lemma BelowLast(P: seq<seq<int>>, n: nat, rows: int -> seq<int>, Q: seq<seq<int>>)
    requires Names(rows, n) && Below(P, n, Q)
    ensures 0 <= Id(Last(Q)) < Pow(2, n) && Q == P + [rows(Id(Last(Q)))]
  {
    IdBound(Last(Q));
    IdInjective(Last(Q), rows(Id(Last(Q))));
    assert Q == Q[..|P|] + [Last(Q)];
  }

  /** Extend lists, each once, exactly the grids below P whose last row has
      an id below i that keep accepts. */
  lemma {:induction false} ExtendExact(P: seq<seq<int>>, n: nat, rows: int -> seq<int>, i: nat, keep: int -> bool)
    requires |P| >= 1 && Names(rows, n) && i <= Pow(2, n)
    ensures Distinct(Extend(P, rows, i, keep))
    ensures forall Q :: Q in Extend(P, rows, i, keep) <==> Below(P, n, Q) && Id(Last(Q)) < i && keep(Id(Last(Q)))
  {
    if i > 0 {
      var Q' := P + [rows(i - 1)];
      var c := Extend(P, rows, i - 1, keep);
      var extra := if keep(i - 1) then [Q'] else [];
      ExtendExact(P, n, rows, i - 1, keep);
      assert Q'[..|P|] == P && Last(Q') == rows(i - 1);
      DistinctAppend(c, extra);
      forall Q
        ensures Q in c + extra <==> Below(P, n, Q) && Id(Last(Q)) < i && keep(Id(Last(Q)))
      {
        if Below(P, n, Q) {
          BelowLast(P, n, rows, Q);
        }
      }
    } else {
      forall Q | Below(P, n, Q)
        ensures Id(Last(Q)) >= 0
      {
        IdBound(Last(Q));
      }
    }
  }

  /** The children of P are exactly the grids one row longer that it is a
      previous state over, each once. */
  lemma ChildrenExact(row: seq<int>, P: seq<seq<int>>)
    requires |P| >= 1
    ensures Distinct(Children(row, P))
    ensures forall Q :: Q in Children(row, P) <==> ChildOf(row, P, Q)
  {
    var n := |row| + 1;
    RowsName(n);
    ExtendExact(P, n, Rows(n), Pow(2, n), Fits(row, Last(P)));
    forall Q
      ensures Q in Children(row, P) <==> ChildOf(row, P, Q)
    {
      if Below(P, n, Q) {
        BelowLast(P, n, Rows(n), Q);
      }
    }
  }


  lemma {:induction false} GrowExact(row: seq<int>, Ps: seq<seq<seq<int>>>)
    requires AllStarted(Ps) && Distinct(Ps)
    ensures Distinct(Grow(row, Ps))
    ensures forall Q :: Q in Grow(row, Ps) <==> |Q| >= 2 && Q[..|Q| - 1] in Ps && ChildOf(row, Q[..|Q| - 1], Q)
  {
    if Ps != [] {
      var init, P := Ps[..|Ps| - 1], Last(Ps);
      var a, b := Grow(row, init), Children(row, P);
      assert Grow(row, Ps) == a + b;
      assert Distinct(init) && P !in init by {
        forall k | 0 <= k < |init|
          ensures init[k] != P
        {
          assert init[k] == Ps[k];
        }
      }
      GrowExact(row, init);
      ChildrenExact(row, P);
      GrowSeparate(row, init, P);
      DistinctAppend(a, b);
      Snoc(Ps);
      GrowMembers(row, init, P, a, b);
    }
  }

  lemma Snoc<T>(xs: seq<T>)
    requires |xs| >= 1
    ensures xs == xs[..|xs| - 1] + [Last(xs)]
  {
  }

  /** The grids grown from init, then the children of P, are the grids grown
      from init + [P]. */
  lemma GrowMembers(row: seq<int>, init: seq<seq<seq<int>>>, P: seq<seq<int>>, a: seq<seq<seq<int>>>, b: seq<seq<seq<int>>>)
    requires forall Q :: Q in a <==> |Q| >= 2 && Q[..|Q| - 1] in init && ChildOf(row, Q[..|Q| - 1], Q)
    requires forall Q :: Q in b <==> ChildOf(row, P, Q)
    ensures forall Q :: Q in a + b <==> |Q| >= 2 && Q[..|Q| - 1] in init + [P] && ChildOf(row, Q[..|Q| - 1], Q)
  {
    forall Q | Q in b
      ensures |Q| >= 2 && Q[..|Q| - 1] == P
    {
      assert ChildOf(row, P, Q);
    }
  }

  /** The children of a grid outside Ps are not grown from Ps. */
  lemma GrowSeparate(row: seq<int>, Ps: seq<seq<seq<int>>>, P: seq<seq<int>>)
    requires AllStarted(Ps) && |P| >= 1 && P !in Ps
    ensures forall Q :: Q in Children(row, P) ==> Q !in Grow(row, Ps)
  {
    forall Q | Q in Children(row, P)
      ensures Q !in Grow(row, Ps)
    {
      ChildPrefix(row, P, Q);
      GrowAvoids(row, Ps, P, Q);
    }
  }

  lemma GrowAvoids(row: seq<int>, Ps: seq<seq<seq<int>>>, P: seq<seq<int>>, Q: seq<seq<int>>)
    requires AllStarted(Ps) && P !in Ps && |Q| >= 2 && Q[..|Q| - 1] == P
    ensures Q !in Grow(row, Ps)
  {
  }

  lemma ChildPrefix(row: seq<int>, P: seq<seq<int>>, Q: seq<seq<int>>)
    requires |P| >= 1 && Q in Children(row, P)
    ensures |Q| >= 2 && Q[..|Q| - 1] == P
  {
  }

  /** The last row of a previous state of k rows is a child of the rest. */
  lemma PreimageStep(bg: seq<seq<int>>, Q: seq<seq<int>>, k: nat)
    requires Grid(bg) && 1 <= k <= |bg|
    ensures IsPreimage(bg, Q, k) <==>
            |Q| >= 2 && IsPreimage(bg, Q[..|Q| - 1], k - 1) && ChildOf(bg[k - 1], Q[..|Q| - 1], Q)
  {
    if |Q| >= 2 {
      var P := Q[..|Q| - 1];
      assert forall r :: 0 <= r < |P| ==> P[r] == Q[r];
      if IsPreimage(bg, P, k - 1) && ChildOf(bg[k - 1], P, Q) {
        assert Last(P) == Q[k - 1] && Last(Q) == Q[k];
        forall r | 0 <= r < |Q|
          ensures |Q[r]| == |bg[0]| + 1 && IsBits(Q[r])
        {
          if r < |P| {
            assert Q[r] == P[r];
          }
        }
      }
    }
  }

  /** The reference lists every previous state of the first k rows, each once,
      and nothing else. */
  lemma {:induction false} PreimagesExact(bg: seq<seq<int>>, k: nat)
    requires Grid(bg) && k <= |bg|
    ensures Distinct(Preimages(bg, k))
    ensures forall P :: P in Preimages(bg, k) <==> IsPreimage(bg, P, k)
  {
    if k == 0 {
      SinglesExact(|bg[0]| + 1);
    } else {
      var Ps := Preimages(bg, k - 1);
      PreimagesExact(bg, k - 1);
      GrowExact(bg[k - 1], Ps);
      forall Q
        ensures Q in Preimages(bg, k) <==> IsPreimage(bg, Q, k)
      {
        PreimageStep(bg, Q, k);
      }
    }
  }

  // ---------------------------------------------------------------------
  // Counting previous states by their last row

  lemma {:induction false} LastsAppend(a: seq<seq<seq<int>>>, b: seq<seq<seq<int>>>)
    requires AllStarted(a) && AllStarted(b)
    ensures AllStarted(a + b) && Lasts(a + b) == Lasts(a) + Lasts(b)
  {
    assert forall k :: 0 <= k < |a + b| ==> (a + b)[k] == if k < |a| then a[k] else b[k - |a|];
    if b == [] {
      assert a + b == a;
    } else {
      var b' := b[..|b| - 1];
      assert (a + b)[..|a + b| - 1] == a + b';
      LastsAppend(a, b');
    }
  }

  /** The last rows of the one-row grids are the ids 0, 1, ..., i - 1. */
  lemma {:induction false} SinglesLasts(n: nat, i: nat)
    requires i <= Pow(2, n)
    ensures AllStarted(Singles(n, i)) && Lasts(Singles(n, i)) == Range(i)
  {
    if i > 0 {
      assert Singles(n, i)[..i - 1] == Singles(n, i - 1);
      SinglesLasts(n, i - 1);
      IdOfRowOf(n, i - 1);
    }
  }

  /** Among the extensions of P, the number ending in the row with id v. */
  lemma {:induction false} ExtendLasts(P: seq<seq<int>>, rows: int -> seq<int>, i: nat, keep: int -> bool, v: int)
    requires |P| >= 1 && forall j :: 0 <= j < i ==> Id(rows(j)) == j
    ensures AllStarted(Extend(P, rows, i, keep))
    ensures multiset(Lasts(Extend(P, rows, i, keep)))[v] == if 0 <= v < i && keep(v) then 1 else 0
  {
    if i > 0 {
      var k := i - 1;
      ExtendLasts(P, rows, k, keep, v);
      ExtendStep(P, rows, k, keep, v);
    }
  }

  /** One step of Extend adds one grid ending in row k when keep accepts it. */
  lemma ExtendStep(P: seq<seq<int>>, rows: int -> seq<int>, k: nat, keep: int -> bool, v: int)
    requires |P| >= 1 && Id(rows(k)) == k
    ensures AllStarted(Extend(P, rows, k + 1, keep))
    ensures multiset(Lasts(Extend(P, rows, k + 1, keep)))[v] ==
            multiset(Lasts(Extend(P, rows, k, keep)))[v] + (if keep(k) && v == k then 1 else 0)
  {
    LastsSplit(Extend(P, rows, k, keep), P + [rows(k)], keep(k), k, v);
  }

  /** Among the children of P, the number ending in the row with id v is the
      link from P's last row to v. */
  lemma ChildrenLasts(row: seq<int>, P: seq<seq<int>>, v: int)
    requires |P| >= 1 && |Last(P)| == |row| + 1 && IsBits(Last(P))
    ensures AllStarted(Children(row, P))
    ensures multiset(Lasts(Children(row, P)))[v] == Link(row, Id(Last(P)), v)
  {
    var n := |row| + 1;
    RowsName(n);
    ExtendLasts(P, Rows(n), Pow(2, n), Fits(row, Last(P)), v);
    if 0 <= v < Pow(2, n) {
      LinkOfRow(row, Last(P), v);
    }
  }


  /** Appending one more grid, or none, to c. */
  lemma LastsSplit(c: seq<seq<seq<int>>>, Q: seq<seq<int>>, fits: bool, j: int, v: int)
    requires AllStarted(c) && |Q| >= 1 && Id(Last(Q)) == j
    ensures AllStarted(c + if fits then [Q] else [])
    ensures multiset(Lasts(c + if fits then [Q] else []))[v] ==
            multiset(Lasts(c))[v] + (if fits && v == j then 1 else 0)
  {
    var extra := if fits then [Q] else [];
    LastsAppend(c, extra);
    if fits {
      assert extra[..0] == [];
    }
  }


  /** Link read at a concrete upper row. */
  lemma LinkOfRow(row: seq<int>, R: seq<int>, j: int)
    requires |R| == |row| + 1 && IsBits(R) && 0 <= j < Pow(2, |row| + 1)
    ensures Link(row, Id(R), j) == if StripOK(row, Strip(R, RowOf(|row| + 1, j))) then 1 else 0
  {
    IdBound(R);
    RowOfId(R);
  }

  /** The previous states one row further, counted by last row, from those
      before: the sum of links from their last rows. */
  lemma {:induction false} GrowLasts(row: seq<int>, Ps: seq<seq<seq<int>>>, v: int)
    requires AllStarted(Ps) && forall k :: 0 <= k < |Ps| ==> |Last(Ps[k])| == |row| + 1 && IsBits(Last(Ps[k]))
    ensures AllStarted(Grow(row, Ps))
    ensures multiset(Lasts(Grow(row, Ps)))[v] == SeqSum(Lasts(Ps), LinkTo(row, v))
  {
    if Ps != [] {
      var init, P := Ps[..|Ps| - 1], Last(Ps);
      var a, b := Grow(row, init), Children(row, P);
      assert Grow(row, Ps) == a + b;
      assert Lasts(Ps)[..|Ps| - 1] == Lasts(init);
      GrowLasts(row, init, v);
      ChildrenLasts(row, P, v);
      LastsAppend(a, b);
    }
  }

  /** The previous states of the first row, counted by last row, are the
      links into it from every candidate upper row. */
  lemma FirstLasts(bg: seq<seq<int>>, v: int)
    requires Grid(bg)
    ensures AllStarted(Preimages(bg, 1))
    ensures multiset(Lasts(Preimages(bg, 1)))[v] == SeqSum(Range(Pow(2, |bg[0]| + 1)), LinkTo(bg[0], v))
  {
    var n := |bg[0]| + 1;
    var Ps := Singles(n, Pow(2, n));
    PreimagesOne(bg);
    SinglesRows(n, Pow(2, n));
    SinglesLasts(n, Pow(2, n));
    GrowLasts(bg[0], Ps, v);
  }

  lemma PreimagesOne(bg: seq<seq<int>>)
    requires Grid(bg)
    ensures Preimages(bg, 1) == Grow(bg[0], Singles(|bg[0]| + 1, Pow(2, |bg[0]| + 1)))
  {
  }

  lemma SinglesRows(n: nat, i: nat)
    ensures AllStarted(Singles(n, i))
    ensures forall k :: 0 <= k < |Singles(n, i)| ==> |Last(Singles(n, i)[k])| == n && IsBits(Last(Singles(n, i)[k]))
  {
  }
}

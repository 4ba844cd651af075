/** Expanding nebula, the solution: transpose the nebula, find the previous
    states of each row on its own, and merge them row after row through the
    ids of the rows they share. The count it returns is the number of
    previous states the reference lists. */
module ExpandingNebula {
  import opened Arith
  import opened NebulaRule
  import opened NebulaIds
  import opened NebulaSums
  import opened NebulaRows
  import opened NebulaIndex
  import opened NebulaReference
  import opened NebulaMerge

  /** The running count t counts the previous states of the first k rows of
      bg by the id of their last row. */
  ghost predicate Agrees(t: Tally, bg: seq<seq<int>>, k: nat)
    requires Grid(bg) && k <= |bg|
  {
    PreimagesStarted(bg, k);
    t.bottomIDSet == t.bottomIDs.Keys &&
    forall v :: Get(t.bottomIDs, v) == multiset(Lasts(Preimages(bg, k)))[v]
  }

  /** Every previous state of k rows ends in a bit row of the right width. */
  lemma PreimagesStarted(bg: seq<seq<int>>, k: nat)
    requires Grid(bg) && k <= |bg|
    ensures AllStarted(Preimages(bg, k))
    ensures forall j :: 0 <= j < |Preimages(bg, k)| ==>
              |Last(Preimages(bg, k)[j])| == |bg[0]| + 1 && IsBits(Last(Preimages(bg, k)[j]))
  {
    var Ps := Preimages(bg, k);
    PreimagesExact(bg, k);
    forall j | 0 <= j < |Ps|
      ensures |Last(Ps[j])| == |bg[0]| + 1 && IsBits(Last(Ps[j]))
    {
      assert Ps[j] in Ps;
    }
  }

  /** The count made from the first row's record agrees with the reference. */
  lemma InitAgrees(bg: seq<seq<int>>, rs: RowSolution)
    requires Grid(bg) && Describes(rs, bg[0])
    ensures Agrees(Init(rs), bg, 1)
  {
    forall v
      ensures Get(Init(rs).bottomIDs, v) == multiset(Lasts(Preimages(bg, 1)))[v]
    {
      InitCount(bg, rs, v);
    }
  }

  lemma InitCount(bg: seq<seq<int>>, rs: RowSolution, v: int)
    requires Grid(bg) && Describes(rs, bg[0])
    ensures AllStarted(Preimages(bg, 1))
    ensures LenOf(rs.bottomIDs, v) == multiset(Lasts(Preimages(bg, 1)))[v]
  {
    FirstLasts(bg, v);
  }

  /** After a merge, bottom id bid contributes its number of previous states
      times its number of links to x. */
  lemma MergeTermIs(t: Tally, rs: RowSolution, bg: seq<seq<int>>, k: nat, x: int, bid: int)
    requires Grid(bg) && 1 <= k < |bg| && Agrees(t, bg, k) && Describes(rs, bg[k])
    ensures MergeTerm(t, rs, x)(bid) == Weighted(Lasts(Preimages(bg, k)), LinkTo(bg[k], x))(bid)
  {
    if bid !in rs.upperIDs {
      assert Link(bg[k], bid, x) == 0;
    }
  }

  /** The merged count of x is the reference's count of previous states one
      row further ending in x. */
  lemma MergeCount(t: Tally, rs: RowSolution, bg: seq<seq<int>>, k: nat, x: int)
    requires Grid(bg) && 1 <= k < |bg| && Agrees(t, bg, k) && Describes(rs, bg[k])
    ensures SetSum(Inter(t, rs), MergeTerm(t, rs, x)) == multiset(Lasts(Preimages(bg, k + 1)))[x]
  {
    PreimagesStarted(bg, k);
    var Ps, row := Preimages(bg, k), bg[k];
    var L, f, w := Lasts(Ps), MergeTerm(t, rs, x), Weighted(Lasts(Ps), LinkTo(row, x));
    var inter, all := Inter(t, rs), Inter(t, rs) + Elems(L);
    forall bid
      ensures f(bid) == w(bid)
    {
      MergeTermIs(t, rs, bg, k, x, bid);
    }
    SetSumAgree(inter, f, w);
    forall bid | bid in all && bid !in inter
      ensures w(bid) == 0
    {
      if bid !in rs.upperIDs {
        assert Link(row, bid, x) == 0;
      }
    }
    SetSumZeroOutside(inter, all, w);
    SetSumZeroOutside(Elems(L), all, w);
    SeqSumGrouped(L, LinkTo(row, x));
    GrowLasts(row, Ps, x);
  }

  /** Merging the record of row k into a count that agrees for k rows gives
      a count that agrees for k + 1 rows. */
  lemma MergeAgrees(t: Tally, rs: RowSolution, r: Tally, bg: seq<seq<int>>, k: nat)
    requires Grid(bg) && 1 <= k < |bg| && Agrees(t, bg, k) && Describes(rs, bg[k])
    requires r.bottomIDSet == r.bottomIDs.Keys
    requires forall x :: Get(r.bottomIDs, x) == SetSum(Inter(t, rs), MergeTerm(t, rs, x))
    ensures Agrees(r, bg, k + 1)
  {
    forall x
      ensures Get(r.bottomIDs, x) == multiset(Lasts(Preimages(bg, k + 1)))[x]
    {
      MergeCount(t, rs, bg, k, x);
    }
  }

  /** A count that agrees with the reference adds up to the number of
      previous states. */
  lemma TotalAgrees(t: Tally, bg: seq<seq<int>>, k: nat)
    requires Grid(bg) && k <= |bg| && Agrees(t, bg, k)
    ensures Total(t) == |Preimages(bg, k)|
  {
    PreimagesStarted(bg, k);
    var L := Lasts(Preimages(bg, k));
    var keys, all := t.bottomIDs.Keys, t.bottomIDs.Keys + Elems(L);
    SetSumAgree(keys, TallyOf(t), Count(L));
    SetSumZeroOutside(keys, all, Count(L));
    SetSumZeroOutside(Elems(L), all, Count(L));
    Occurrences(L);
  }

  // ---------------------------------------------------------------------
  // Back to the nebula's own orientation

  /** Lines 323-324: the transposed nebula as bits. */
  function Bin(g: seq<seq<bool>>): (bg: seq<seq<int>>)
    requires Rectangular(g)
    ensures Grid(bg) && |bg| == |g[0]| && |bg[0]| == |g|
    ensures forall r, i :: 0 <= r < |g[0]| && 0 <= i < |g| ==> (bg[r][i] == 1 <==> g[i][r])
  {
    ConvertToBin(Transpose(g))
  }

  /** The rule at cell (i, j) of g: it holds gas exactly when one of the
      four cells of G at its corner does. */
  predicate Rule(g: seq<seq<bool>>, G: seq<seq<int>>, i: int, j: int)
    requires 0 <= i < |g| && 0 <= j < |g[i]| && i + 1 < |G| && j + 1 < |G[i]| && j + 1 < |G[i + 1]|
  {
    (G[i][j] + G[i][j + 1] + G[i + 1][j] + G[i + 1][j + 1] == 1) <==> g[i][j]
  }

  /** G is a previous state of the nebula g: one more row and one more column
      of bits, with the rule holding at every cell of g. */
  ghost predicate IsPrevious(g: seq<seq<bool>>, G: seq<seq<int>>)
    requires Rectangular(g)
  {
    Rectangular(G) && |G| == |g| + 1 && |G[0]| == |g[0]| + 1 &&
    (forall i :: 0 <= i < |G| ==> IsBits(G[i])) &&
    forall i, j :: 0 <= i < |g| && 0 <= j < |g[0]| ==> Rule(g, G, i, j)
  }

  /** One column of the transposed grids: the reference's strip test on it
      is the rule down column j of g. */
  lemma ColumnAgrees(g: seq<seq<bool>>, G: seq<seq<int>>, j: int)
    requires Rectangular(g) && Rectangular(G) && |G| == |g| + 1 && |G[0]| == |g[0]| + 1
    requires 0 <= j < |g[0]| && IsBits(Transpose(G)[j]) && IsBits(Transpose(G)[j + 1])
    ensures StripOK(Bin(g)[j], Strip(Transpose(G)[j], Transpose(G)[j + 1])) <==>
            forall i :: 0 <= i < |g| ==> Rule(g, G, i, j)
  {
    var bg, P := Bin(g), Transpose(G);
    assert |bg[j]| == |g| && |P[j]| == |g| + 1 && |P[j + 1]| == |g| + 1 && IsBits(bg[j]);
    forall i | 0 <= i < |g|
      ensures WindowAt(bg[j], Strip(P[j], P[j + 1]), i) <==> Rule(g, G, i, j)
    {
      assert P[j][i] == G[i][j] && P[j][i + 1] == G[i + 1][j];
      assert P[j + 1][i] == G[i][j + 1] && P[j + 1][i + 1] == G[i + 1][j + 1];
      assert bg[j][i] == 1 <==> g[i][j];
    }
    var s := Strip(P[j], P[j + 1]);
    assert IsBits(s.up) && IsBits(s.lo);
    if forall i :: 0 <= i < |g| ==> Rule(g, G, i, j) {
      forall i | 0 <= i < |bg[j]|
        ensures WindowAt(bg[j], s, i)
      {
        assert Rule(g, G, i, j);
      }
    }
  }

  /** The bit rows of G are the bit rows of its transpose. */
  lemma BitsTransposed(G: seq<seq<int>>)
    requires Rectangular(G)
    ensures (forall i :: 0 <= i < |G| ==> IsBits(G[i])) <==>
            (forall r :: 0 <= r < |Transpose(G)| ==> IsBits(Transpose(G)[r]))
  {
    var P := Transpose(G);
    if forall r :: 0 <= r < |P| ==> IsBits(P[r]) {
      forall i, j | 0 <= i < |G| && 0 <= j < |G[i]|
        ensures IsBit(G[i][j])
      {
        assert IsBits(P[j]) && P[j][i] == G[i][j];
      }
    }
  }

  /** G is a previous state of g exactly when its transpose is one of the
      transposed nebula in the reference's sense. */
  lemma PreviousTransposed(g: seq<seq<bool>>, G: seq<seq<int>>)
    requires Rectangular(g) && Rectangular(G)
    ensures IsPrevious(g, G) <==> IsPreimage(Bin(g), Transpose(G), |g[0]|)
  {
    var bg, P := Bin(g), Transpose(G);
    BitsTransposed(G);
    if |G| == |g| + 1 && |G[0]| == |g[0]| + 1 && forall i :: 0 <= i < |G| ==> IsBits(G[i]) {
      if IsPreimage(bg, P, |g[0]|) {
        forall i, j | 0 <= i < |g| && 0 <= j < |g[0]|
          ensures Rule(g, G, i, j)
        {
          ColumnAgrees(g, G, j);
        }
      }
      if IsPrevious(g, G) {
        forall j | 0 <= j < |g[0]|
          ensures StripOK(bg[j], Strip(P[j], P[j + 1]))
        {
          ColumnAgrees(g, G, j);
        }
      }
    }
  }

  /** The reference's previous states of the transposed nebula are the
      transposes of the previous states of g, each listed once. */
  lemma PreimagesArePrevious(g: seq<seq<bool>>)
    requires Rectangular(g)
    ensures Distinct(Preimages(Bin(g), |g[0]|))
    ensures forall G :: Rectangular(G) ==> (IsPrevious(g, G) <==> Transpose(G) in Preimages(Bin(g), |g[0]|))
    ensures forall P :: P in Preimages(Bin(g), |g[0]|) ==> Rectangular(P) && IsPrevious(g, Transpose(P))
  {
    var bg := Bin(g);
    PreimagesExact(bg, |g[0]|);
    forall G | Rectangular(G)
      ensures IsPrevious(g, G) <==> Transpose(G) in Preimages(bg, |g[0]|)
    {
      PreviousTransposed(g, G);
    }
    forall P | P in Preimages(bg, |g[0]|)
      ensures Rectangular(P) && IsPrevious(g, Transpose(P))
    {
      assert IsPreimage(bg, P, |g[0]|);
      assert Rectangular(P);
      TransposeTwice(P);
      PreviousTransposed(g, Transpose(P));
    }
  }

  /** The rule is the same read across or down: G is a previous state of g
      exactly when the transpose of G is one of the transpose of g. */
  lemma PreviousOfTranspose(g: seq<seq<bool>>, G: seq<seq<int>>)
    requires Rectangular(g) && Rectangular(G)
    ensures IsPrevious(g, G) <==> IsPrevious(Transpose(g), Transpose(G))
  {
    var tg, tG := Transpose(g), Transpose(G);
    BitsTransposed(G);
    if |G| == |g| + 1 && |G[0]| == |g[0]| + 1 {
      forall i, j | 0 <= i < |g| && 0 <= j < |g[0]|
        ensures Rule(g, G, i, j) <==> Rule(tg, tG, j, i)
      {
        assert tg[j][i] == g[i][j];
        assert tG[j][i] == G[i][j] && tG[j][i + 1] == G[i + 1][j];
        assert tG[j + 1][i] == G[i][j + 1] && tG[j + 1][i + 1] == G[i + 1][j + 1];
      }
      if IsPrevious(g, G) {
        forall j, i | 0 <= j < |tg| && 0 <= i < |tg[0]|
          ensures Rule(tg, tG, j, i)
        {
          assert Rule(g, G, i, j);
        }
      }
      if IsPrevious(tg, tG) {
        forall i, j | 0 <= i < |g| && 0 <= j < |g[0]|
          ensures Rule(g, G, i, j)
        {
          assert Rule(tg, tG, j, i);
        }
      }
    }
  }

  /** A list without repeats has as many elements as its set. */
  lemma {:induction false} DistinctCard<T>(xs: seq<T>)
    requires Distinct(xs)
    ensures |set x | x in xs| == |xs|
  {
    if |xs| > 0 {
      var init, last := xs[..|xs| - 1], xs[|xs| - 1];
      assert Distinct(init) by {
        forall i, k | 0 <= i < k < |init|
          ensures init[i] != init[k]
        {
          assert init[i] == xs[i] && init[k] == xs[k];
        }
      }
      DistinctCard(init);
      assert xs == init + [last];
      assert (set x | x in xs) == (set x | x in init) + {last};
    }
  }

  /** Transposing a previous state of g, read in the reference's
      orientation, gives one of the transpose of g. */
  lemma TransposedPreimage(g: seq<seq<bool>>, P: seq<seq<int>>)
    requires Rectangular(g) && P in Preimages(Bin(g), |g[0]|)
    ensures Rectangular(P) && Transpose(P) in Preimages(Bin(Transpose(g)), |g|)
  {
    PreimagesArePrevious(g);
    assert IsPrevious(g, Transpose(P));
    PreviousOfTranspose(g, Transpose(P));
    TransposeTwice(P);
    PreimagesArePrevious(Transpose(g));
  }

  /** Two lists without repeats holding the same elements have the same
      length. */
  lemma SameElementsSameLength<T>(xs: seq<T>, ys: seq<T>)
    requires Distinct(xs) && Distinct(ys)
    requires forall x :: x in xs <==> x in ys
    ensures |xs| == |ys|
  {
    assert (set x | x in xs) == (set y | y in ys);
    DistinctCard(xs);
    DistinctCard(ys);
  }

  predicate AllRectangular<T>(A: seq<seq<seq<T>>>)
  {
    forall j :: 0 <= j < |A| ==> Rectangular(A[j])
  }

  /** The transposes of a list of rectangular grids; without repeats when
      the list has none. */
  function TransposeEach(A: seq<seq<seq<int>>>): (r: seq<seq<seq<int>>>)
    requires AllRectangular(A)
    ensures |r| == |A| && forall j :: 0 <= j < |A| ==> r[j] == Transpose(A[j])
    ensures Distinct(A) ==> Distinct(r)
  {
    var r := seq(|A|, j requires 0 <= j < |A| => Transpose(A[j]));
    assert Distinct(A) ==> Distinct(r) by {
      if Distinct(A) {
        forall i, k | 0 <= i < k < |r|
          ensures r[i] != r[k]
        {
          TransposeTwice(A[i]);
          TransposeTwice(A[k]);
        }
      }
    }
    r
  }

  /** Every previous state of the nebula is rectangular. */
  lemma PreimagesRectangular(g: seq<seq<bool>>)
    requires Rectangular(g)
    ensures AllRectangular(Preimages(Bin(g), |g[0]|))
  {
    var A := Preimages(Bin(g), |g[0]|);
    forall j | 0 <= j < |A|
      ensures Rectangular(A[j])
    {
      TransposedPreimage(g, A[j]);
    }
  }

  /** Each transposed previous state of the nebula is one of its transpose. */
  lemma TransposeEachInto(g: seq<seq<bool>>, Q: seq<seq<int>>)
    requires Rectangular(g)
    ensures AllRectangular(Preimages(Bin(g), |g[0]|))
    ensures Q in TransposeEach(Preimages(Bin(g), |g[0]|)) ==> Q in Preimages(Bin(Transpose(g)), |g|)
  {
    PreimagesRectangular(g);
    var A := Preimages(Bin(g), |g[0]|);
    var TA := TransposeEach(A);
    if Q in TA {
      var j :| 0 <= j < |A| && TA[j] == Q;
      TransposedPreimage(g, A[j]);
    }
  }

  /** And each previous state of the transpose is such a one. */
  lemma TransposeEachOnto(g: seq<seq<bool>>, Q: seq<seq<int>>)
    requires Rectangular(g)
    ensures AllRectangular(Preimages(Bin(g), |g[0]|))
    ensures Q in Preimages(Bin(Transpose(g)), |g|) ==> Q in TransposeEach(Preimages(Bin(g), |g[0]|))
  {
    PreimagesRectangular(g);
    var tg := Transpose(g);
    TransposeTwice(g);
    var A := Preimages(Bin(g), |g[0]|);
    var TA := TransposeEach(A);
    if Q in Preimages(Bin(tg), |g|) {
      TransposedPreimage(tg, Q);
      TransposeTwice(Q);
      assert Transpose(Q) in A;
      var j :| 0 <= j < |A| && A[j] == Transpose(Q);
      assert TA[j] == Q;
    }
  }

  /** The nebula and its transpose have the same number of previous states:
      transposing is a one-to-one correspondence between the two lists. */
  lemma SolutionTransposed(g: seq<seq<bool>>)
    requires Rectangular(g)
    ensures |Preimages(ConvertToBin(Transpose(g)), |g[0]|)| ==
            |Preimages(ConvertToBin(Transpose(Transpose(g))), |Transpose(g)[0]|)|
    ensures |Preimages(ConvertToBin(Transpose(g)), |g[0]|)| == |Preimages(ConvertToBin(g), |g|)|
  {
    var tg := Transpose(g);
    TransposeTwice(g);
    var A, B := Preimages(Bin(g), |g[0]|), Preimages(Bin(tg), |g|);
    PreimagesRectangular(g);
    forall Q
      ensures Q in TransposeEach(A) <==> Q in B
    {
      TransposeEachInto(g, Q);
      TransposeEachOnto(g, Q);
    }
    PreimagesExact(Bin(g), |g[0]|);
    PreimagesExact(Bin(tg), |g|);
    SameElementsSameLength(TransposeEach(A), B);
  }

  /** Lines 330-347: the memo holds, under each row id, the record of the
      row with that id. */
  ghost predicate Memo(memo: map<int, RowSolution>, w: nat)
    requires w >= 1
  {
    forall id :: id in memo ==> memo[id] == SolBFS(RowOf(w, id))
  }

  /** A one-cell nebula has 4 previous states when it holds gas and 12 when
      it does not. */
  lemma SingleCell(g: seq<seq<bool>>)
    requires Rectangular(g) && |g| == 1 && |g[0]| == 1
    ensures |Preimages(ConvertToBin(Transpose(g)), 1)| == if g[0][0] then 4 else 12
  {
    var bg := ConvertToBin(Transpose(g));
    var row := bg[0];
    assert row[0] == 1 <==> g[0][0];
    SeedsOK(row);
    DrainAddsOut(row, Seeds(row), EmptyRow());
    SolBFSDescribes(row);
    InitAgrees(bg, SolBFS(row));
    TotalAgrees(Init(SolBFS(row)), bg, 1);
    InitTotal(Strips(row));
    SingleCellStrips(row);
    FirstMoveOptionsExact(row[0]);
  }

  /** Lines 330-346: the record of a row, from the memo when its id is
      there, otherwise found and stored. */
  method Lookup(memo: map<int, RowSolution>, row: seq<int>) returns (rs: RowSolution, memo': map<int, RowSolution>)
    requires IsBits(row) && |row| >= 1 && Memo(memo, |row|)
    ensures rs == SolBFS(row) && Memo(memo', |row|)
  {
    var rowId := Id(row);
    RowOfId(row);
    if rowId in memo {
      rs, memo' := memo[rowId], memo;
    } else {
      rs := SolBFS(row);
      memo' := memo[rowId := rs];
    }
  }

  /** Lines 339-349: one pass of the main loop, merging row k. */
  method NextRow(puzzle: Tally, memo: map<int, RowSolution>, bg: seq<seq<int>>, k: nat)
    returns (puzzle': Tally, memo': map<int, RowSolution>)
    requires Grid(bg) && 1 <= k < |bg| && Agrees(puzzle, bg, k) && Memo(memo, |bg[0]|)
    ensures Agrees(puzzle', bg, k + 1) && Memo(memo', |bg[0]|)
  {
    var rs;
    rs, memo' := Lookup(memo, bg[k]);
    SolBFSDescribes(bg[k]);
    puzzle' := Merge(puzzle, rs);
    MergeAgrees(puzzle, rs, puzzle', bg, k);
  }

  /** Lines 322-353: the main body of `solution(g)`, the number of previous
      states of the nebula g. */
  method Solution(g: seq<seq<bool>>) returns (r: int)
    requires Rectangular(g)
    ensures r == |Preimages(ConvertToBin(Transpose(g)), |g[0]|)|
    ensures |g| == 1 && |g[0]| == 1 ==> r == if g[0][0] then 4 else 12
  {
    var bg := ConvertToBin(Transpose(g));
    assert Grid(bg);
    var rs := SolBFS(bg[0]);
    SolBFSDescribes(bg[0]);
    var puzzle := Init(rs);
    InitAgrees(bg, rs);
    RowOfId(bg[0]);
    var memo := map[Id(bg[0]) := rs];
    for k := 1 to |bg|
      invariant Agrees(puzzle, bg, k) && Memo(memo, |bg[0]|)
    {
      puzzle, memo := NextRow(puzzle, memo, bg, k);
    }
    r := CountSolutions(puzzle);
    TotalAgrees(puzzle, bg, |bg|);
    if |g| == 1 && |g[0]| == 1 {
      SingleCell(g);
    }
  }
}

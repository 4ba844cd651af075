/** Expanding nebula, what a `RowSolution` holds once a sequence S of strips has
    been added: each upper id is filed with the lower ids of the strips above
    it, each lower id with the upper ids, and the two id sets are the two key
    sets. For the strips `solBFS` finds, the filing is the link relation
    between the two boundary rows of one nebula row. */
module NebulaIndex {
  import opened Arith
  import opened NebulaRule
  import opened NebulaIds
  import opened NebulaSums
  import opened NebulaRows

  /** The lower-row ids of the strips of S whose upper row has id u, in order. */
  function Lows(S: seq<Strip>, u: int): seq<int>
  {
    if S == [] then []
    else Lows(S[..|S| - 1], u) + (if Id(S[|S| - 1].up) == u then [Id(S[|S| - 1].lo)] else [])
  }

  /** The upper-row ids of the strips of S whose lower row has id b, in order. */
  function Ups(S: seq<Strip>, b: int): seq<int>
  {
    if S == [] then []
    else Ups(S[..|S| - 1], b) + (if Id(S[|S| - 1].lo) == b then [Id(S[|S| - 1].up)] else [])
  }

  /** The upper-row ids of S, in order. */
  function UpSeq(S: seq<Strip>): (r: seq<int>)
    ensures |r| == |S|
  {
    if S == [] then [] else UpSeq(S[..|S| - 1]) + [Id(S[|S| - 1].up)]
  }

  /** The lower-row ids of S, in order. */
  function LoSeq(S: seq<Strip>): (r: seq<int>)
    ensures |r| == |S|
  {
    if S == [] then [] else LoSeq(S[..|S| - 1]) + [Id(S[|S| - 1].lo)]
  }

  /** The length of the list filed under v, 0 when there is none. */
  function LenOf(m: map<int, seq<int>>, v: int): nat
  {
    if v in m then |m[v]| else 0
  }

  ghost function LensOf(m: map<int, seq<int>>): int -> int
  {
    v => LenOf(m, v)
  }

  /** The upper half of rs is what adding the strips of S in order to an
      empty record gives. */
  ghost predicate UpperFiled(rs: RowSolution, S: seq<Strip>)
  {
    rs.upperSet == rs.upperIDs.Keys && rs.upperIDs.Keys == Elems(UpSeq(S)) &&
    forall u :: u in rs.upperIDs ==> rs.upperIDs[u] == Lows(S, u)
  }

  /** The same for the lower half. */
  ghost predicate LowerFiled(rs: RowSolution, S: seq<Strip>)
  {
    rs.bottomSet == rs.bottomIDs.Keys && rs.bottomIDs.Keys == Elems(LoSeq(S)) &&
    forall b :: b in rs.bottomIDs ==> rs.bottomIDs[b] == Ups(S, b)
  }

  ghost predicate Indexes(rs: RowSolution, S: seq<Strip>)
  {
    UpperFiled(rs, S) && LowerFiled(rs, S)
  }

  lemma {:induction false} LowsAbsent(S: seq<Strip>, u: int)
    requires u !in UpSeq(S)
    ensures Lows(S, u) == []
  {
    if S != [] {
      assert UpSeq(S) == UpSeq(S[..|S| - 1]) + [Id(S[|S| - 1].up)];
      LowsAbsent(S[..|S| - 1], u);
    }
  }

  lemma {:induction false} UpsAbsent(S: seq<Strip>, b: int)
    requires b !in LoSeq(S)
    ensures Ups(S, b) == []
  {
    if S != [] {
      assert LoSeq(S) == LoSeq(S[..|S| - 1]) + [Id(S[|S| - 1].lo)];
      UpsAbsent(S[..|S| - 1], b);
    }
  }

  /** Lines 245, 249-252: `add` files the strip under its upper id. */
  lemma AddUpper(rs: RowSolution, S: seq<Strip>, s: Strip)
    requires UpperFiled(rs, S)
    ensures UpperFiled(Add(rs, s), S + [s])
  {
    var S', r', u := S + [s], Add(rs, s), Id(s.up);
    assert S'[..|S'| - 1] == S && S'[|S'| - 1] == s;
    assert UpSeq(S') == UpSeq(S) + [u];
    assert Elems(UpSeq(S')) == Elems(UpSeq(S)) + {u};
    forall w | w in r'.upperIDs
      ensures r'.upperIDs[w] == Lows(S', w)
    {
      if w == u && u !in rs.upperIDs {
        LowsAbsent(S, u);
      }
    }
  }

  /** Lines 246, 254-257: `add` files the strip under its lower id. */
  lemma AddLower(rs: RowSolution, S: seq<Strip>, s: Strip)
    requires LowerFiled(rs, S)
    ensures LowerFiled(Add(rs, s), S + [s])
  {
    var S', r', b := S + [s], Add(rs, s), Id(s.lo);
    assert S'[..|S'| - 1] == S && S'[|S'| - 1] == s;
    assert LoSeq(S') == LoSeq(S) + [b];
    assert Elems(LoSeq(S')) == Elems(LoSeq(S)) + {b};
    forall w | w in r'.bottomIDs
      ensures r'.bottomIDs[w] == Ups(S', w)
    {
      if w == b && b !in rs.bottomIDs {
        UpsAbsent(S, b);
      }
    }
  }

  lemma {:induction false} AddAllIndexes(rs: RowSolution, S: seq<Strip>, ss: seq<Strip>)
    requires Indexes(rs, S)
    ensures Indexes(AddAll(rs, ss), S + ss)
    decreases |ss|
  {
    if ss == [] {
      assert S + ss == S;
    } else {
      AddUpper(rs, S, ss[0]);
      AddLower(rs, S, ss[0]);
      AddAllIndexes(Add(rs, ss[0]), S + [ss[0]], ss[1..]);
      assert S + [ss[0]] + ss[1..] == S + ss;
    }
  }

  /** Adding S to an empty record files exactly S. */
  lemma AddAllFiles(S: seq<Strip>)
    ensures Indexes(AddAll(EmptyRow(), S), S)
  {
    assert Indexes(EmptyRow(), []);
    AddAllIndexes(EmptyRow(), [], S);
    assert [] + S == S;
  }

  // ---------------------------------------------------------------------
  // Counting

  /** The number of strips of S with upper id u and lower id x. */
  function PairCount(S: seq<Strip>, u: int, x: int): nat
  {
    if S == [] then 0
    else PairCount(S[..|S| - 1], u, x) + (if Id(S[|S| - 1].up) == u && Id(S[|S| - 1].lo) == x then 1 else 0)
  }

  lemma {:induction false} LowsPairs(S: seq<Strip>, u: int, x: int)
    ensures multiset(Lows(S, u))[x] == PairCount(S, u, x)
  {
    if S != [] {
      LowsPairs(S[..|S| - 1], u, x);
    }
  }

  lemma {:induction false} UpsPairs(S: seq<Strip>, u: int, x: int)
    ensures multiset(Ups(S, x))[u] == PairCount(S, u, x)
  {
    if S != [] {
      UpsPairs(S[..|S| - 1], u, x);
    }
  }

  lemma {:induction false} UpsLength(S: seq<Strip>, b: int)
    ensures |Ups(S, b)| == multiset(LoSeq(S))[b]
  {
    if S != [] {
      UpsLength(S[..|S| - 1], b);
    }
  }

  lemma {:induction false} LowsLength(S: seq<Strip>, u: int)
    ensures |Lows(S, u)| == multiset(UpSeq(S))[u]
  {
    if S != [] {
      LowsLength(S[..|S| - 1], u);
    }
  }

  /** Every strip of S is two bit rows of n cells. */
  ghost predicate Sized(S: seq<Strip>, n: nat)
  {
    forall k :: 0 <= k < |S| ==> |S[k].up| == n && |S[k].lo| == n && IsBits(S[k].up) && IsBits(S[k].lo)
  }

  /** A strip of n-bit rows is named by its two ids. */
  lemma StripIds(s: Strip, n: nat, u: int, x: int)
    requires |s.up| == n && |s.lo| == n && IsBits(s.up) && IsBits(s.lo)
    ensures (Id(s.up) == u && Id(s.lo) == x) <==>
            (0 <= u < Pow(2, n) && 0 <= x < Pow(2, n) && s == Strip(RowOf(n, u), RowOf(n, x)))
  {
    IdBound(s.up);
    IdBound(s.lo);
    RowOfId(s.up);
    RowOfId(s.lo);
    if 0 <= u < Pow(2, n) && 0 <= x < Pow(2, n) {
      IdOfRowOf(n, u);
      IdOfRowOf(n, x);
    }
  }

  /** In a list of distinct strips, an id pair names at most one strip. */
  lemma {:induction false} PairCountExact(S: seq<Strip>, n: nat, u: int, x: int)
    requires Sized(S, n) && Distinct(S)
    ensures PairCount(S, u, x) ==
            if 0 <= u < Pow(2, n) && 0 <= x < Pow(2, n) && Strip(RowOf(n, u), RowOf(n, x)) in S then 1 else 0
  {
    if S != [] {
      var init, s := S[..|S| - 1], S[|S| - 1];
      assert S == init + [s];
      forall k | 0 <= k < |init|
        ensures init[k] != s
      {
        assert S[k] == init[k];
      }
      PairCountExact(init, n, u, x);
      StripIds(s, n, u, x);
    }
  }

  lemma {:induction false} UpsIn(S: seq<Strip>, n: nat, b: int)
    requires Sized(S, n)
    ensures forall u :: u in Ups(S, b) ==> 0 <= u < Pow(2, n)
  {
    if S != [] {
      UpsIn(S[..|S| - 1], n, b);
      IdBound(S[|S| - 1].up);
    }
  }

  // ---------------------------------------------------------------------
  // After `solBFS`

  /** What the merge needs of a row's record: the upper lists count the links
      from each upper id, every link starts at a filed upper id, and each lower
      list is as long as the number of upper rows linked to its id. */
  ghost predicate Describes(rs: RowSolution, row: seq<int>)
  {
    rs.upperSet == rs.upperIDs.Keys && rs.bottomSet == rs.bottomIDs.Keys &&
    (forall u, x :: u in rs.upperIDs ==> multiset(rs.upperIDs[u])[x] == Link(row, u, x)) &&
    (forall u, x :: Link(row, u, x) == 1 ==> u in rs.upperIDs) &&
    (forall v :: LenOf(rs.bottomIDs, v) == SeqSum(Range(Pow(2, |row| + 1)), LinkTo(row, v)))
  }

  /** The strips of a row, counted by id pair, are the link relation. */
  lemma StripsPairs(row: seq<int>)
    requires IsBits(row) && |row| >= 1
    ensures Sized(Strips(row), |row| + 1)
    ensures forall u, x :: PairCount(Strips(row), u, x) == Link(row, u, x)
  {
    var S, n := Strips(row), |row| + 1;
    StripsExact(row);
    assert Sized(S, n) by {
      forall k | 0 <= k < |S|
        ensures |S[k].up| == n && |S[k].lo| == n && IsBits(S[k].up) && IsBits(S[k].lo)
      {
        assert S[k] in S;
      }
    }
    forall u, x
      ensures PairCount(S, u, x) == Link(row, u, x)
    {
      PairCountExact(S, n, u, x);
    }
  }

  /** The number of strips with lower id v, as a sum of links over every upper id. */
  lemma LowerCount(row: seq<int>, S: seq<Strip>, v: int)
    requires Sized(S, |row| + 1) && forall u, x :: PairCount(S, u, x) == Link(row, u, x)
    ensures |Ups(S, v)| == SeqSum(Range(Pow(2, |row| + 1)), LinkTo(row, v))
  {
    var n := |row| + 1;
    var U, g, all := Ups(S, v), LinkTo(row, v), Range(Pow(2, n));
    Occurrences(U);
    forall u | u in Elems(U)
      ensures Count(U)(u) == g(u)
    {
      UpsPairs(S, u, v);
    }
    SetSumAgree(Elems(U), Count(U), g);
    RangeGrouped(Pow(2, n), g);
    UpsIn(S, n, v);
    forall u | u in Elems(all) && u !in Elems(U)
      ensures g(u) == 0
    {
      UpsPairs(S, u, v);
    }
    SetSumZeroOutside(Elems(U), Elems(all), g);
  }

  /** Lines 260-297 with 231-257: the record `solBFS` returns describes the
      row's links. */
  lemma SolBFSDescribes(row: seq<int>)
    requires IsBits(row) && |row| >= 1
    ensures Describes(SolBFS(row), row)
  {
    var S, rs := Strips(row), SolBFS(row);
    SeedsOK(row);
    DrainAddsOut(row, Seeds(row), EmptyRow());
    AddAllFiles(S);
    StripsPairs(row);
    forall u, x | u in rs.upperIDs
      ensures multiset(rs.upperIDs[u])[x] == Link(row, u, x)
    {
      LowsPairs(S, u, x);
    }
    forall u, x | Link(row, u, x) == 1
      ensures u in rs.upperIDs
    {
      LowsPairs(S, u, x);
      if u !in UpSeq(S) {
        LowsAbsent(S, u);
      }
    }
    forall v
      ensures LenOf(rs.bottomIDs, v) == SeqSum(Range(Pow(2, |row| + 1)), LinkTo(row, v))
    {
      LowerCount(row, S, v);
      if v !in rs.bottomIDs {
        UpsAbsent(S, v);
      }
    }
  }

  /** Lines 170-182 with 231-257: the upper lists of a record filing S have
      total length |S|. */
  lemma UpperTotal(rs: RowSolution, S: seq<Strip>)
    requires UpperFiled(rs, S)
    ensures SetSum(rs.upperIDs.Keys, LensOf(rs.upperIDs)) == |S|
  {
    Occurrences(UpSeq(S));
    forall u | u in rs.upperIDs.Keys
      ensures LensOf(rs.upperIDs)(u) == Count(UpSeq(S))(u)
    {
      LowsLength(S, u);
    }
    SetSumAgree(rs.upperIDs.Keys, LensOf(rs.upperIDs), Count(UpSeq(S)));
  }

  /** The lower lists of a record filing S have total length |S|. */
  lemma LowerTotal(rs: RowSolution, S: seq<Strip>)
    requires LowerFiled(rs, S)
    ensures SetSum(rs.bottomIDs.Keys, LensOf(rs.bottomIDs)) == |S|
  {
    Occurrences(LoSeq(S));
    forall b | b in rs.bottomIDs.Keys
      ensures LensOf(rs.bottomIDs)(b) == Count(LoSeq(S))(b)
    {
      UpsLength(S, b);
    }
    SetSumAgree(rs.bottomIDs.Keys, LensOf(rs.bottomIDs), Count(LoSeq(S)));
  }
}

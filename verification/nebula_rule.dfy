/** Expanding nebula, the transition rule: a cell of the next generation holds
    gas exactly when one of the four cells of the 2x2 block above and to the
    right of it held gas. The source keeps the rule as two literal tables:
    the windows that can sit under the first cell of a row, and the column
    pairs that can extend a window given the carried column sum. */
module NebulaRule {

  predicate IsBit(x: int)
  {
    x == 0 || x == 1
  }

  predicate IsBits(r: seq<int>)
  {
    forall i :: 0 <= i < |r| ==> IsBit(r[i])
  }

  /** The rule on one 2x2 window with bits a, b (upper) and c, d (lower)
      producing bit t. */
  predicate Window(t: int, a: int, b: int, c: int, d: int)
  {
    (a + b + c + d == 1) == (t == 1)
  }

  /** The rule once the left column's sum v is known: the new column (a, b)
      completes a window producing t. */
  predicate Extends(t: int, v: int, a: int, b: int)
  {
    (v + a + b == 1) == (t == 1)
  }

  predicate Distinct<T(==)>(xs: seq<T>)
  {
    forall i, k :: 0 <= i < k < |xs| ==> xs[i] != xs[k]
  }

  /** Lines 40-64: `firstMoveOptions[t]`, the windows under a cell holding t. */
  function FirstMoveOptions(t: int): (r: seq<(int, int, int, int)>)
    requires IsBit(t)
    ensures forall k :: 0 <= k < |r| ==>
              IsBit(r[k].0) && IsBit(r[k].1) && IsBit(r[k].2) && IsBit(r[k].3) &&
              Window(t, r[k].0, r[k].1, r[k].2, r[k].3)
  {
    if t == 1 then
      [(1, 0, 0, 0), (0, 1, 0, 0), (0, 0, 1, 0), (0, 0, 0, 1)]
    else
      [(0, 0, 0, 0), (1, 1, 0, 0), (1, 0, 1, 0), (1, 0, 0, 1), (0, 1, 1, 0), (0, 1, 0, 1),
       (0, 0, 1, 1), (0, 1, 1, 1), (1, 0, 1, 1), (1, 1, 0, 1), (1, 1, 1, 0), (1, 1, 1, 1)]
  }

  /** The seed table lists every window, each once: 4 under gas, 12 elsewhere. */
  lemma FirstMoveOptionsExact(t: int)
    requires IsBit(t)
    ensures forall a, b, c, d :: IsBit(a) && IsBit(b) && IsBit(c) && IsBit(d) ==>
              ((a, b, c, d) in FirstMoveOptions(t) <==> Window(t, a, b, c, d))
    ensures Distinct(FirstMoveOptions(t))
    ensures |FirstMoveOptions(t)| == if t == 1 then 4 else 12
  {
    forall a, b, c, d | IsBit(a) && IsBit(b) && IsBit(c) && IsBit(d) && Window(t, a, b, c, d)
      ensures (a, b, c, d) in FirstMoveOptions(t)
    {
      SeedListed(t, a, b, c, d);
    }
    SeedsDistinct(t);
  }

  lemma SeedListed(t: int, a: int, b: int, c: int, d: int)
    requires IsBit(t) && IsBit(a) && IsBit(b) && IsBit(c) && IsBit(d) && Window(t, a, b, c, d)
    ensures (a, b, c, d) in FirstMoveOptions(t)
  {
    var r := FirstMoveOptions(t);
    if t == 1 {
      if a == 1 { assert r[0] == (a, b, c, d); }
      else if b == 1 { assert r[1] == (a, b, c, d); }
      else if c == 1 { assert r[2] == (a, b, c, d); }
      else { assert r[3] == (a, b, c, d); }
    } else {
      var k := 8 * a + 4 * b + 2 * c + d;
      var at := [0, -1, -1, 6, -1, 5, 4, 7, -1, 3, 2, 8, 1, 9, 10, 11];
      assert 0 <= k < 16 && 0 <= at[k] && r[at[k]] == (a, b, c, d);
    }
  }

  /** Each window's code 8a + 4b + 2c + d. */
  function Code(w: (int, int, int, int)): int
  {
    8 * w.0 + 4 * w.1 + 2 * w.2 + w.3
  }

  lemma SeedsDistinct(t: int)
    requires IsBit(t)
    ensures Distinct(FirstMoveOptions(t))
  {
    if t == 1 {
      GasSeedsDistinct();
    } else {
      EmptySeedsDistinct();
    }
  }

  lemma GasSeedsDistinct()
    ensures Distinct(FirstMoveOptions(1))
  {
    var r := FirstMoveOptions(1);
    var codes := seq(|r|, k requires 0 <= k < |r| => Code(r[k]));
    assert codes == [8, 4, 2, 1];
    IndexedDistinct(codes, map[8 := 0, 4 := 1, 2 := 2, 1 := 3]);
    DistinctCodes(r, codes);
  }

  lemma EmptySeedsDistinct()
    ensures Distinct(FirstMoveOptions(0))
  {
    var r := FirstMoveOptions(0);
    var codes := seq(|r|, k requires 0 <= k < |r| => Code(r[k]));
    assert codes == [0, 12, 10, 9, 6, 5, 3, 7, 11, 13, 14, 15];
    IndexedDistinct(codes, map[0 := 0, 12 := 1, 10 := 2, 9 := 3, 6 := 4, 5 := 5,
                               3 := 6, 7 := 7, 11 := 8, 13 := 9, 14 := 10, 15 := 11]);
    DistinctCodes(r, codes);
  }

  /** A sequence whose every element maps back to its own index is distinct. */
  lemma IndexedDistinct(xs: seq<int>, index: map<int, int>)
    requires forall k :: 0 <= k < |xs| ==> xs[k] in index && index[xs[k]] == k
    ensures Distinct(xs)
  {
  }

  /** Windows with distinct codes are distinct. */
  lemma DistinctCodes(r: seq<(int, int, int, int)>, codes: seq<int>)
    requires |codes| == |r| && forall k :: 0 <= k < |r| ==> codes[k] == Code(r[k])
    requires Distinct(codes)
    ensures Distinct(r)
  {
    forall i, k | 0 <= i < k < |r|
      ensures r[i] != r[k]
    {
      assert codes[i] != codes[k];
    }
  }


  /** Lines 69-97: `moveOptions[t][v]`, the columns that may follow a column of
      sum v under a cell holding t. */
  function MoveOptions(t: int, v: int): (r: seq<(int, int)>)
    requires IsBit(t) && 0 <= v <= 2
    ensures forall k :: 0 <= k < |r| ==> IsBit(r[k].0) && IsBit(r[k].1) && Extends(t, v, r[k].0, r[k].1)
  {
    if t == 0 then
      if v == 0 then [(0, 0), (1, 1)]
      else if v == 1 then [(1, 0), (0, 1), (1, 1)]
      else [(0, 0), (1, 0), (0, 1), (1, 1)]
    else
      if v == 0 then [(1, 0), (0, 1)]
      else if v == 1 then [(0, 0)]
      else []
  }

  /** The step table lists every admissible column once; in particular nothing
      follows a full column under a cell with gas. */
  lemma MoveOptionsExact(t: int, v: int)
    requires IsBit(t) && 0 <= v <= 2
    ensures forall a, b :: IsBit(a) && IsBit(b) ==> ((a, b) in MoveOptions(t, v) <==> Extends(t, v, a, b))
    ensures Distinct(MoveOptions(t, v))
    ensures t == 1 && v == 2 ==> MoveOptions(t, v) == []
  {
    forall a, b | IsBit(a) && IsBit(b) && Extends(t, v, a, b)
      ensures (a, b) in MoveOptions(t, v)
    {
      MoveListed(t, v, a, b);
    }
  }

  lemma MoveListed(t: int, v: int, a: int, b: int)
    requires IsBit(t) && 0 <= v <= 2 && IsBit(a) && IsBit(b) && Extends(t, v, a, b)
    ensures (a, b) in MoveOptions(t, v)
  {
    var r := MoveOptions(t, v);
    var k := if t == 0 && v == 0 then a
             else if t == 0 && v == 1 then (if a == 1 && b == 1 then 2 else b)
             else if t == 0 then 2 * b + a
             else if v == 0 then b
             else 0;
    assert 0 <= k < |r| && r[k] == (a, b);
  }

  /** A non-empty grid whose rows all have the same length. */
  predicate Rectangular<T>(g: seq<seq<T>>)
  {
    |g| >= 1 && |g[0]| >= 1 && forall i :: 0 <= i < |g| ==> |g[i]| == |g[0]|
  }

  /** Line 323: `zip(*g)` on a rectangular grid. */
  function Transpose<T>(g: seq<seq<T>>): (r: seq<seq<T>>)
    requires Rectangular(g)
    ensures Rectangular(r) && |r| == |g[0]| && |r[0]| == |g|
    ensures forall i, k :: 0 <= i < |r| && 0 <= k < |g| ==> r[i][k] == g[k][i]
  {
    seq(|g[0]|, i requires 0 <= i < |g[0]| => seq(|g|, k requires 0 <= k < |g| => g[k][i]))
  }

  /** Transposing twice gives the grid back. */
  lemma TransposeTwice<T>(g: seq<seq<T>>)
    requires Rectangular(g)
    ensures Transpose(Transpose(g)) == g
  {
    var t := Transpose(Transpose(g));
    assert |t| == |g|;
    forall k | 0 <= k < |g|
      ensures t[k] == g[k]
    {
      assert |t[k]| == |g[k]|;
    }
  }

  /** Lines 100-111: `convertToBin`, True to 1 and False to 0. */
  function ConvertToBin(g: seq<seq<bool>>): (r: seq<seq<int>>)
    ensures |r| == |g| && forall i :: 0 <= i < |g| ==> |r[i]| == |g[i]| && IsBits(r[i])
    ensures forall i, k :: 0 <= i < |g| && 0 <= k < |g[i]| ==> (r[i][k] == 1 <==> g[i][k])
  {
    seq(|g|, i requires 0 <= i < |g| => seq(|g[i]|, k requires 0 <= k < |g[i]| => if g[i][k] then 1 else 0))
  }
}

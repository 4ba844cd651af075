/** Expanding nebula, the running count: the `Solution` class of the source
    keeps, for each id a bottom row can have, how many previous states of the
    rows scanned so far end in it. Merging a row's record follows every link
    from a counted bottom id to the lower rows it can sit over. */
module NebulaMerge {
  import opened NebulaSums
  import opened NebulaRows
  import opened NebulaIndex

  /** Lines 114-141: `Solution`, the count per bottom id and the set of
      bottom ids. */
  datatype Tally = Tally(bottomIDs: map<int, int>, bottomIDSet: set<int>)

  /** `m.get(x, 0)`. */
  function Get(m: map<int, int>, x: int): int
  {
    if x in m then m[x] else 0
  }

  /** The list filed under k, empty when there is none. */
  function GetList(m: map<int, seq<int>>, k: int): seq<int>
  {
    if k in m then m[k] else []
  }

  /** Lines 129-141: `Solution(rsolution)`, each bottom id counted by the
      length of its list of upper ids. */
  function Init(rs: RowSolution): (r: Tally)
    ensures r.bottomIDSet == rs.bottomSet && r.bottomIDs.Keys == rs.bottomIDs.Keys
    ensures forall v :: Get(r.bottomIDs, v) == LenOf(rs.bottomIDs, v)
  {
    Tally(map v | v in rs.bottomIDs :: |rs.bottomIDs[v]|, rs.bottomSet)
  }

  /** Line 154: the counted bottom ids that are also upper ids of the row. */
  function Inter(t: Tally, rs: RowSolution): set<int>
  {
    t.bottomIDSet * rs.upperSet
  }

  /** What bottom id bid contributes to the count of new bottom id x: its
      count, once per occurrence of x in its list. */
  ghost function MergeTerm(t: Tally, rs: RowSolution, x: int): int -> int
  {
    bid => Get(t.bottomIDs, bid) * multiset(GetList(rs.upperIDs, bid))[x]
  }

  /** x is listed under some id of done. */
  ghost predicate Fed(done: set<int>, rs: RowSolution, x: int)
  {
    exists bid :: bid in done && x in GetList(rs.upperIDs, bid)
  }

  lemma FedStep(done: set<int>, rs: RowSolution, bid: int, x: int)
    ensures Fed(done + {bid}, rs, x) <==> Fed(done, rs, x) || x in GetList(rs.upperIDs, bid)
  {
    if Fed(done + {bid}, rs, x) && !Fed(done, rs, x) {
      var b :| b in done + {bid} && x in GetList(rs.upperIDs, b);
      assert b == bid;
    }
  }

  lemma MulSucc(c: int, a: int)
    ensures c * (a + 1) == c * a + c
  {
  }

  /** Lines 160-163: the inner loop, adding c to the count of every id of xs,
      once per occurrence. */
  method AddCount(m: map<int, int>, keys: set<int>, xs: seq<int>, c: int) returns (m': map<int, int>, keys': set<int>)
    requires keys == m.Keys
    ensures keys' == m'.Keys
    ensures forall x :: x in m' <==> x in m || x in xs
    ensures forall x :: Get(m', x) == Get(m, x) + c * multiset(xs)[x]
  {
    m', keys' := m, keys;
    for i := 0 to |xs|
      invariant keys' == m'.Keys
      invariant forall x :: x in m' <==> x in m || x in xs[..i]
      invariant forall x :: Get(m', x) == Get(m, x) + c * multiset(xs[..i])[x]
    {
      AddOne(m, m', xs, i, c);
      m' := m'[xs[i] := c + Get(m', xs[i])];
      keys' := keys' + {xs[i]};
    }
    assert xs[..|xs|] == xs;
  }

  /** One pass of the inner loop: counting xs[i] once more. */
  lemma AddOne(m: map<int, int>, m': map<int, int>, xs: seq<int>, i: int, c: int)
    requires 0 <= i < |xs|
    requires forall x :: x in m' <==> x in m || x in xs[..i]
    requires forall x :: Get(m', x) == Get(m, x) + c * multiset(xs[..i])[x]
    ensures forall x :: x in m'[xs[i] := c + Get(m', xs[i])] <==> x in m || x in xs[..i + 1]
    ensures forall x :: Get(m'[xs[i] := c + Get(m', xs[i])], x) == Get(m, x) + c * multiset(xs[..i + 1])[x]
  {
    var y := xs[i];
    assert xs[..i + 1] == xs[..i] + [y];
    forall x
      ensures multiset(xs[..i + 1])[x] == multiset(xs[..i])[x] + (if x == y then 1 else 0)
    {
    }
    MulSucc(c, multiset(xs[..i])[y]);
  }

  /** The new record once the shared ids of done have been visited. */
  ghost predicate Merged(t: Tally, rs: RowSolution, done: set<int>, m: map<int, int>, keys: set<int>)
  {
    keys == m.Keys &&
    (forall x :: x in m <==> Fed(done, rs, x)) &&
    (forall x :: Get(m, x) == SetSum(done, MergeTerm(t, rs, x)))
  }

  /** Lines 159-163: one pass of the outer loop, visiting bid. */
  method MergeStep(t: Tally, rs: RowSolution, done: set<int>, m: map<int, int>, keys: set<int>, bid: int)
    returns (m': map<int, int>, keys': set<int>)
    requires bid in t.bottomIDs && bid in rs.upperIDs && bid !in done
    requires Merged(t, rs, done, m, keys)
    ensures Merged(t, rs, done + {bid}, m', keys')
  {
    var xs := rs.upperIDs[bid];
    m', keys' := AddCount(m, keys, xs, t.bottomIDs[bid]);
    forall x
      ensures Get(m', x) == SetSum(done + {bid}, MergeTerm(t, rs, x))
      ensures x in m' <==> Fed(done + {bid}, rs, x)
    {
      SetSumAdd(done, MergeTerm(t, rs, x), bid);
      FedStep(done, rs, bid, x);
    }
  }

  /** Lines 144-167: `merge`. For every id both counted and filed as an upper
      id, its count goes to every bottom id listed under it. The result counts
      each new bottom id by the sum, over the shared ids, of count times
      occurrences. */
  method Merge(t: Tally, rs: RowSolution) returns (r: Tally)
    requires t.bottomIDSet <= t.bottomIDs.Keys && rs.upperSet <= rs.upperIDs.Keys
    ensures r.bottomIDSet == r.bottomIDs.Keys
    ensures forall x :: x in r.bottomIDs <==> Fed(Inter(t, rs), rs, x)
    ensures forall x :: Get(r.bottomIDs, x) == SetSum(Inter(t, rs), MergeTerm(t, rs, x))
  {
    var inter := Inter(t, rs);
    var todo, done := inter, {};
    var m: map<int, int>, keys: set<int> := map[], {};
    while todo != {}
      invariant done <= inter && todo == inter - done
      invariant Merged(t, rs, done, m, keys)
      decreases |todo|
    {
      HasMember(todo);
      var bid :| bid in todo;
      TakeOne(inter, done, todo, bid);
      m, keys := MergeStep(t, rs, done, m, keys, bid);
      todo, done := todo - {bid}, done + {bid};
    }
    TakeAll(inter, done);
    r := Tally(m, keys);
  }

  /** Each bottom id's count. */
  ghost function TallyOf(t: Tally): int -> int
  {
    v => Get(t.bottomIDs, v)
  }

  /** The sum of all counts. */
  ghost function Total(t: Tally): int
  {
    SetSum(t.bottomIDs.Keys, TallyOf(t))
  }

  /** total is the sum of the counts of done. */
  ghost predicate Counted(t: Tally, done: set<int>, total: int)
  {
    total == SetSum(done, TallyOf(t))
  }

  /** Line 180: one pass of the loop, adding the count of bid. */
  method CountStep(t: Tally, done: set<int>, bid: int, total: int) returns (total': int)
    requires bid in t.bottomIDs && bid !in done && Counted(t, done, total)
    ensures Counted(t, done + {bid}, total')
  {
    SetSumAdd(done, TallyOf(t), bid);
    total' := total + t.bottomIDs[bid];
  }

  /** Lines 170-182: `countSolutions`, the sum of the counts. */
  method CountSolutions(t: Tally) returns (total: int)
    ensures total == Total(t)
  {
    var keys := t.bottomIDs.Keys;
    var todo, done := keys, {};
    total := 0;
    while todo != {}
      invariant done <= keys && todo == keys - done
      invariant Counted(t, done, total)
      decreases |todo|
    {
      HasMember(todo);
      var bid :| bid in todo;
      TakeOne(keys, done, todo, bid);
      total := CountStep(t, done, bid, total);
      todo, done := todo - {bid}, done + {bid};
    }
    TakeAll(keys, done);
  }

  /** Counting the record of strips S straight away counts S. */
  lemma InitTotal(S: seq<Strip>)
    ensures Total(Init(AddAll(EmptyRow(), S))) == |S|
  {
    var rs := AddAll(EmptyRow(), S);
    AddAllFiles(S);
    LowerTotal(rs, S);
    SetSumAgree(rs.bottomIDs.Keys, LensOf(rs.bottomIDs), TallyOf(Init(rs)));
  }
}

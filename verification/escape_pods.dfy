/** Escape pods: the most bunnies per time step that can get from the
    entrance rooms to the escape-pod rooms through corridors of limited
    capacity. The solution adds a super source feeding every entrance and a
    super sink fed by every exit, and runs Edmonds-Karp: breadth-first search
    for a path of positive residual capacity, push its bottleneck along it,
    repeat until the sink is cut off. */
module EscapePods {

  /** The capacity given to the super source's and super sink's corridors:
      50 entrances times 2,000,000 bunnies. */
  const INFINITE: int := 2000000 * 50

  type Matrix = seq<seq<int>>

  predicate IsSquare(m: Matrix, n: nat)
  {
    |m| == n && forall u :: 0 <= u < n ==> |m[u]| == n
  }

  predicate NonNegative(m: Matrix)
  {
    forall u, v :: 0 <= u < |m| && 0 <= v < |m[u]| ==> m[u][v] >= 0
  }

  function RowSum(row: seq<int>): int
  {
    if row == [] then 0 else RowSum(row[..|row| - 1]) + row[|row| - 1]
  }

  /** Changing one entry changes the row's sum by the difference. */
  lemma {:induction false} RowSumUpdate(row: seq<int>, j: nat, x: int)
    requires j < |row|
    ensures RowSum(row[j := x]) == RowSum(row) - row[j] + x
  {
    var p := row[..|row| - 1];
    if j == |row| - 1 {
      assert row[j := x][..|row| - 1] == p;
    } else {
      assert row[j := x][..|row| - 1] == p[j := x];
      RowSumUpdate(p, j, x);
    }
  }

  lemma {:induction false} RowSumNonNegative(row: seq<int>)
    requires forall j :: 0 <= j < |row| ==> row[j] >= 0
    ensures RowSum(row) >= 0
  {
    if row != [] {
      RowSumNonNegative(row[..|row| - 1]);
    }
  }

  /** m with entry (u, v) set to x. */
  function Set(m: Matrix, u: nat, v: nat, x: int): (r: Matrix)
    requires u < |m| && v < |m[u]|
    ensures |r| == |m| && forall w :: 0 <= w < |m| ==> |r[w]| == |m[w]|
  {
    m[u := m[u][v := x]]
  }

  // ---------------------------------------------------------------------------
  // The super path (lines 28-56).

  /** A corridor matrix over rooms whose listed entrances and exits are rooms. */
  predicate ValidInput(entrances: seq<int>, exits: seq<int>, path: Matrix)
  {
    && IsSquare(path, |path|)
    && (forall i :: 0 <= i < |entrances| ==> 0 <= entrances[i] < |path|)
    && (forall i :: 0 <= i < |exits| ==> 0 <= exits[i] < |path|)
  }

  /** What line 50 as written needs besides: position i + 1 must be a column
      of the super path, so at most |path| + 1 entrances (repeats included). */
  predicate AsWrittenInput(entrances: seq<int>, exits: seq<int>, path: Matrix)
  {
    ValidInput(entrances, exits, path) && |entrances| <= |path| + 1
  }

  /** Lines 41-46: rooms move up by one, row and column 0 are the super source
      and row and column n - 1 the super sink. */
  function CopyPath(path: Matrix): (r: Matrix)
    requires IsSquare(path, |path|)
    ensures IsSquare(r, |path| + 2)
  {
    seq(|path| + 2, u => CopyRow(path, u))
  }

  /** Row u of the copied matrix. */
  function CopyRow(path: Matrix, u: int): (r: seq<int>)
    requires IsSquare(path, |path|)
    ensures |r| == |path| + 2
  {
    seq(|path| + 2, v requires 0 <= v < |path| + 2 =>
      if 1 <= u <= |path| && 1 <= v <= |path| then path[u - 1][v - 1] else 0)
  }

  /** Lines 49-50 as written: the super source feeds the first k rooms, one per
      POSITION in the entrance list. */
  function ConnectEntrancePositions(m: Matrix, k: nat): (r: Matrix)
    requires |m| >= 1 && k < |m[0]|
    ensures |r| == |m| && forall w :: 0 <= w < |m| ==> |r[w]| == |m[w]|
  {
    if k == 0 then m else Set(ConnectEntrancePositions(m, k - 1), 0, k, INFINITE)
  }

  /** Lines 49-50 as evidently intended: the super source feeds every entrance room. */
  function ConnectEntrances(m: Matrix, entrances: seq<int>): (r: Matrix)
    requires |m| >= 1 && forall i :: 0 <= i < |entrances| ==> 0 <= entrances[i] + 1 < |m[0]|
    ensures |r| == |m| && forall w :: 0 <= w < |m| ==> |r[w]| == |m[w]|
  {
    if entrances == [] then m
    else
      var k := |entrances| - 1;
      Set(ConnectEntrances(m, entrances[..k]), 0, entrances[k] + 1, INFINITE)
  }

  /** Lines 53-54: every exit room feeds the super sink. */
  function ConnectExits(m: Matrix, exits: seq<int>): (r: Matrix)
    requires IsSquare(m, |m|) && |m| >= 1
    requires forall i :: 0 <= i < |exits| ==> 0 <= exits[i] + 1 < |m|
    ensures IsSquare(r, |m|)
  {
    if exits == [] then m
    else
      var k := |exits| - 1;
      Set(ConnectExits(m, exits[..k]), exits[k] + 1, |m| - 1, INFINITE)
  }

  /** The source's `superPath`, as written. */
  function SuperPath(path: Matrix, entrances: seq<int>, exits: seq<int>): (r: Matrix)
    requires AsWrittenInput(entrances, exits, path)
    ensures IsSquare(r, |path| + 2)
  {
    ConnectExits(ConnectEntrancePositions(CopyPath(path), |entrances|), exits)
  }

  /** `superPath` with the super source connected to the entrance rooms themselves. */
  function SuperPathFixed(path: Matrix, entrances: seq<int>, exits: seq<int>): (r: Matrix)
    requires ValidInput(entrances, exits, path)
    ensures IsSquare(r, |path| + 2)
  {
    ConnectExits(ConnectEntrances(CopyPath(path), entrances), exits)
  }

  lemma {:induction false} EntrancePositionCells(m: Matrix, k: nat, u: nat, v: nat)
    requires |m| >= 1 && k < |m[0]| && u < |m| && v < |m[u]|
    ensures ConnectEntrancePositions(m, k)[u][v] == if u == 0 && 1 <= v <= k then INFINITE else m[u][v]
  {
    if k > 0 {
      EntrancePositionCells(m, k - 1, u, v);
    }
  }

  lemma {:induction false} EntranceCells(m: Matrix, entrances: seq<int>, u: nat, v: nat)
    requires |m| >= 1 && forall i :: 0 <= i < |entrances| ==> 0 <= entrances[i] + 1 < |m[0]|
    requires u < |m| && v < |m[u]|
    ensures ConnectEntrances(m, entrances)[u][v] == if u == 0 && v - 1 in entrances then INFINITE else m[u][v]
  {
    if entrances != [] {
      var k := |entrances| - 1;
      EntranceCells(m, entrances[..k], u, v);
      assert entrances == entrances[..k] + [entrances[k]];
    }
  }

  lemma {:induction false} ExitCells(m: Matrix, exits: seq<int>, u: nat, v: nat)
    requires IsSquare(m, |m|) && |m| >= 1
    requires forall i :: 0 <= i < |exits| ==> 0 <= exits[i] + 1 < |m|
    requires u < |m| && v < |m|
    ensures ConnectExits(m, exits)[u][v] == if v == |m| - 1 && u - 1 in exits then INFINITE else m[u][v]
  {
    if exits != [] {
      var k := |exits| - 1;
      ExitCells(m, exits[..k], u, v);
      assert exits == exits[..k] + [exits[k]];
    }
  }

  /** Every entry of the super path as written: the corridors copied one room
      up, INFINITE from the super source to rooms 0 .. |entrances| - 1 (by
      position), INFINITE from every exit to the super sink, 0 elsewhere. */
  lemma SuperPathCells(path: Matrix, entrances: seq<int>, exits: seq<int>, u: nat, v: nat)
    requires AsWrittenInput(entrances, exits, path) && u < |path| + 2 && v < |path| + 2
    ensures SuperPath(path, entrances, exits)[u][v] ==
              if u == 0 then (if 1 <= v <= |entrances| then INFINITE else 0)
              else if u <= |path| && 1 <= v <= |path| then path[u - 1][v - 1]
              else if u <= |path| && v == |path| + 1 && u - 1 in exits then INFINITE
              else 0
  {
    var c := CopyPath(path);
    EntrancePositionCells(c, |entrances|, u, v);
    ExitCells(ConnectEntrancePositions(c, |entrances|), exits, u, v);
  }

  /** Every entry of the corrected super path: as above, except that the super
      source feeds exactly the entrance rooms. */
  lemma SuperPathFixedCells(path: Matrix, entrances: seq<int>, exits: seq<int>, u: nat, v: nat)
    requires ValidInput(entrances, exits, path) && u < |path| + 2 && v < |path| + 2
    ensures SuperPathFixed(path, entrances, exits)[u][v] ==
              if u == 0 then (if v - 1 in entrances then INFINITE else 0)
              else if u <= |path| && 1 <= v <= |path| then path[u - 1][v - 1]
              else if u <= |path| && v == |path| + 1 && u - 1 in exits then INFINITE
              else 0
  {
    var c := CopyPath(path);
    EntranceCells(c, entrances, u, v);
    ExitCells(ConnectEntrances(c, entrances), exits, u, v);
  }

  /** One corridor of capacity 5 from room 1 to room 0, entrance room 1, exit
      room 0: as written the super source feeds room 0 (the exit) and not
      room 1, so source -> room 0 -> sink carries INFINITE where at most 5
      bunnies can really pass; the corrected super path feeds room 1 only. */
  lemma EntrancePositionCounterexample()
    ensures SuperPath([[0, 0], [5, 0]], [1], [0])[0][1] == INFINITE
    ensures SuperPath([[0, 0], [5, 0]], [1], [0])[1][3] == INFINITE
    ensures SuperPath([[0, 0], [5, 0]], [1], [0])[0][2] == 0
    ensures SuperPathFixed([[0, 0], [5, 0]], [1], [0])[0][1] == 0
    ensures SuperPathFixed([[0, 0], [5, 0]], [1], [0])[0][2] == INFINITE
  {
    var path := [[0, 0], [5, 0]];
    SuperPathCells(path, [1], [0], 0, 1);
    SuperPathCells(path, [1], [0], 1, 3);
    SuperPathCells(path, [1], [0], 0, 2);
    SuperPathFixedCells(path, [1], [0], 0, 1);
    SuperPathFixedCells(path, [1], [0], 0, 2);
  }

  /** The super source's total capacity is at most INFINITE per entrance. */
  lemma {:induction false} EntranceCapacity(m: Matrix, entrances: seq<int>)
    requires |m| >= 1 && forall i :: 0 <= i < |entrances| ==> 0 <= entrances[i] + 1 < |m[0]|
    requires forall v :: 0 <= v < |m[0]| ==> m[0][v] == 0
    ensures forall v :: 0 <= v < |m[0]| ==> ConnectEntrances(m, entrances)[0][v] >= 0
    ensures RowSum(ConnectEntrances(m, entrances)[0]) <= |entrances| * INFINITE
  {
    if entrances == [] {
      assert forall j :: 0 <= j < |m[0]| ==> m[0][j] >= 0;
      RowSumZero(m[0]);
    } else {
      var k := |entrances| - 1;
      var prev := ConnectEntrances(m, entrances[..k]);
      EntranceCapacity(m, entrances[..k]);
      RowSumUpdate(prev[0], entrances[k] + 1, INFINITE);
    }
  }

  lemma {:induction false} RowSumZero(row: seq<int>)
    requires forall j :: 0 <= j < |row| ==> row[j] == 0
    ensures RowSum(row) == 0
  {
    if row != [] {
      RowSumZero(row[..|row| - 1]);
    }
  }

  /** The corrected super source row is non-negative and sums to at most
      |entrances| * INFINITE. */
  lemma SourceRowBound(path: Matrix, entrances: seq<int>, exits: seq<int>)
    requires ValidInput(entrances, exits, path)
    ensures forall v :: 0 <= v < |path| + 2 ==> SuperPathFixed(path, entrances, exits)[0][v] >= 0
    ensures RowSum(SuperPathFixed(path, entrances, exits)[0]) <= |entrances| * INFINITE
  {
    var c := CopyPath(path);
    EntranceCapacity(c, entrances);
    var e := ConnectEntrances(c, entrances);
    forall v | 0 <= v < |path| + 2
      ensures ConnectExits(e, exits)[0][v] == e[0][v]
    {
      ExitCells(e, exits, 0, v);
    }
    assert ConnectExits(e, exits)[0] == e[0];
  }

  // ---------------------------------------------------------------------------
  // Residual paths and the breadth-first search (lines 59-87).

  /** A walk along corridors of positive residual capacity. */
  predicate IsResidualPath(m: Matrix, p: seq<int>)
    requires IsSquare(m, |m|)
  {
    && |p| >= 1
    && (forall i :: 0 <= i < |p| ==> 0 <= p[i] < |m|)
    && (forall i :: 0 <= i < |p| - 1 ==> m[p[i]][p[i + 1]] > 0)
  }

  ghost predicate Reachable(m: Matrix, s: int, t: int)
    requires IsSquare(m, |m|)
  {
    exists p :: IsResidualPath(m, p) && p[0] == s && p[|p| - 1] == t
  }

  /** A set that no positive corridor leaves. */
  predicate Closed(m: Matrix, S: set<int>)
    requires IsSquare(m, |m|)
  {
    forall u, v :: u in S && 0 <= u < |m| && 0 <= v < |m| && m[u][v] > 0 ==> v in S
  }

  lemma {:induction false} WalkStaysInside(m: Matrix, S: set<int>, p: seq<int>, k: nat)
    requires IsSquare(m, |m|) && Closed(m, S) && IsResidualPath(m, p) && p[0] in S && k < |p|
    ensures p[k] in S
  {
    if k > 0 {
      WalkStaysInside(m, S, p, k - 1);
    }
  }

  /** Nothing outside a closed set holding s is reachable from s. */
  lemma ClosedBlocks(m: Matrix, S: set<int>, s: int, t: int)
    requires IsSquare(m, |m|) && Closed(m, S) && s in S && t !in S
    ensures !Reachable(m, s, t)
  {
    forall p | IsResidualPath(m, p) && p[0] == s
      ensures p[|p| - 1] != t
    {
      WalkStaysInside(m, S, p, |p| - 1);
    }
  }

  /** What `previous` records for the nodes a search visited, pos giving the
      order of discovery: every visited node but s was reached from an earlier
      visited node over a positive corridor. */
  ghost predicate TraceOK(m: Matrix, previous: map<int, int>, pos: map<int, nat>, s: int)
  {
    && IsSquare(m, |m|)
    && s in pos && pos[s] == 0
    && (forall v :: v in pos ==> 0 <= v < |m|)
    && (forall v :: v in pos && v != s ==>
          v in previous && previous[v] in pos && pos[previous[v]] < pos[v] && m[previous[v]][v] > 0)
  }

  /** The path from s to v read off `previous` backwards (lines 106-112). */
  ghost function Retrace(m: Matrix, previous: map<int, int>, pos: map<int, nat>, s: int, v: int): (p: seq<int>)
    requires TraceOK(m, previous, pos, s) && v in pos
    ensures |p| >= 1 && p[0] == s && p[|p| - 1] == v
    ensures forall i :: 0 <= i < |p| ==> 0 <= p[i] < |m|
    decreases pos[v]
  {
    if v == s then [s] else Retrace(m, previous, pos, s, previous[v]) + [v]
  }

  /** What a retraced path satisfies: a residual path of discovered nodes, in
      increasing discovery order, each linked by previous to the one before. */
  ghost predicate Traced(m: Matrix, previous: map<int, int>, pos: map<int, nat>, s: int, p: seq<int>)
    requires IsSquare(m, |m|)
  {
    && IsResidualPath(m, p)
    && (forall i :: 0 <= i < |p| ==> p[i] in pos)
    && (forall i, j :: 0 <= i < j < |p| ==> pos[p[i]] < pos[p[j]])
    && (forall i :: 1 <= i < |p| ==> p[i] != s && p[i] in previous && previous[p[i]] == p[i - 1])
  }

  /** The retraced path is a residual path whose nodes were discovered in
      increasing order, so it never repeats a node. */
  lemma {:induction false} RetraceFacts(m: Matrix, previous: map<int, int>, pos: map<int, nat>, s: int, v: int)
    requires TraceOK(m, previous, pos, s) && v in pos
    ensures Traced(m, previous, pos, s, Retrace(m, previous, pos, s, v))
    decreases pos[v]
  {
    if v != s {
      var u := previous[v];
      RetraceFacts(m, previous, pos, s, u);
      TracedSnoc(m, previous, pos, s, Retrace(m, previous, pos, s, u), v);
    }
  }

  /** The step of RetraceFacts: appending v after its predecessor. */
  lemma TracedSnoc(m: Matrix, previous: map<int, int>, pos: map<int, nat>, s: int, q: seq<int>, v: int)
    requires IsSquare(m, |m|) && Traced(m, previous, pos, s, q)
    requires v in pos && v != s && 0 <= v < |m| && v in previous && previous[v] == q[|q| - 1]
    requires pos[previous[v]] < pos[v] && m[previous[v]][v] > 0
    ensures Traced(m, previous, pos, s, q + [v])
  {
    var p, n := q + [v], |q|;
    assert forall i :: 0 <= i < n ==> p[i] == q[i];
    assert p[n] == v && p[n - 1] == previous[v];
    forall i | 0 <= i < |p| - 1
      ensures m[p[i]][p[i + 1]] > 0
    {
      if i < n - 1 {
        assert m[q[i]][q[i + 1]] > 0;
      }
    }
    forall i, j | 0 <= i < j < |p|
      ensures pos[p[i]] < pos[p[j]]
    {
      if j == n && i < n - 1 {
        assert pos[q[i]] < pos[q[n - 1]];
      }
    }
    forall i | 1 <= i < |p|
      ensures p[i] != s && p[i] in previous && previous[p[i]] == p[i - 1]
    {
      if i < n {
        assert previous[q[i]] == q[i - 1];
      }
    }
  }

  /** Consecutive nodes of a retraced path are linked by previous. */
  lemma {:induction false} RetraceLinks(m: Matrix, previous: map<int, int>, pos: map<int, nat>, s: int, v: int, p: seq<int>)
    requires TraceOK(m, previous, pos, s) && v in pos && p == Retrace(m, previous, pos, s, v)
    ensures forall i :: 1 <= i < |p| ==> p[i] != s && p[i] in previous && previous[p[i]] == p[i - 1] && m[p[i - 1]][p[i]] > 0
    decreases pos[v]
  {
    if v != s {
      RetraceLinks(m, previous, pos, s, previous[v], Retrace(m, previous, pos, s, previous[v]));
    }
  }

  /** A retraced path visits no node twice, and leaves s when t is not s. */
  lemma RetraceSimple(m: Matrix, previous: map<int, int>, pos: map<int, nat>, s: int, v: int, p: seq<int>)
    requires TraceOK(m, previous, pos, s) && v in pos && p == Retrace(m, previous, pos, s, v)
    ensures Distinct(p) && (v != s ==> |p| >= 2)
  {
    RetraceFacts(m, previous, pos, s, v);
    assert forall i, j :: 0 <= i < j < |p| ==> pos[p[i]] < pos[p[j]];
  }

  /** A trace reaching t witnesses that t is reachable. */
  lemma TraceReaches(m: Matrix, previous: map<int, int>, pos: map<int, nat>, s: int, t: int)
    requires TraceOK(m, previous, pos, s) && t in pos
    ensures Reachable(m, s, t)
  {
    RetraceFacts(m, previous, pos, s, t);
    var p := Retrace(m, previous, pos, s, t);
    assert IsResidualPath(m, p) && p[0] == s && p[|p| - 1] == t;
  }

  /** Lines 78-80: discovering v from u over a positive corridor keeps the trace. */
  lemma TraceExtend(m: Matrix, previous: map<int, int>, pos: map<int, nat>, s: int, u: int, v: int, count: nat)
    requires TraceOK(m, previous, pos, s) && u in pos && v !in pos && 0 <= v < |m|
    requires m[u][v] > 0 && forall w :: w in pos ==> pos[w] < count
    ensures TraceOK(m, previous[v := u], pos[v := count], s)
  {
  }

  /** The state of the search between two corridors examined: visited nodes
      carry their discovery order in pos, every visited node is either done
      (all its positive corridors lead to visited nodes), still queued, or the
      one node being scanned. */
  ghost predicate Frontier(m: Matrix, s: int, t: int, visited: set<int>, queue: seq<int>,
                           previous: map<int, int>, pos: map<int, nat>, count: nat,
                           done: set<int>, scanning: set<int>)
  {
    && TraceOK(m, previous, pos, s)
    && visited == pos.Keys && done <= visited && scanning <= visited && t !in visited
    && (forall v :: v in pos ==> pos[v] < count)
    && (forall i :: 0 <= i < |queue| ==> queue[i] in visited && queue[i] !in done && queue[i] !in scanning)
    && (forall i, j :: 0 <= i < j < |queue| ==> queue[i] != queue[j])
    && (forall v :: v in visited ==> v in done || v in queue || v in scanning)
    && (forall u, v :: u in done && 0 <= v < |m| && m[u][v] > 0 ==> v in visited)
  }

  /** Lines 75-84: examine every corridor out of u, queueing each newly reached
      node; stop at once when it is the sink. */
  method ScanRow(m: Matrix, s: int, t: int, u: int, visited: set<int>, queue: seq<int>,
                 previous: map<int, int>, ghost pos: map<int, nat>, ghost count: nat, ghost done: set<int>)
      returns (found: bool, visited': set<int>, queue': seq<int>, previous': map<int, int>,
               ghost pos': map<int, nat>, ghost count': nat)
    requires 0 <= u < |m| && u in visited
    requires Frontier(m, s, t, visited, queue, previous, pos, count, done, {u})
    ensures found ==> TraceOK(m, previous', pos', s) && t in pos'
    ensures !found ==> Frontier(m, s, t, visited', queue', previous', pos', count', done + {u}, {})
  {
    found, visited', queue', previous', pos', count' := false, visited, queue, previous, pos, count;
    var v := 0;
    while v < |m[u]|
      invariant 0 <= v <= |m| && u in visited'
      invariant Frontier(m, s, t, visited', queue', previous', pos', count', done, {u})
      invariant forall w :: 0 <= w < v && m[u][w] > 0 ==> w in visited'
    {
      if m[u][v] > 0 && v !in visited' {
        TraceExtend(m, previous', pos', s, u, v, count');
        previous' := previous'[v := u];
        visited' := visited' + {v};
        queue' := queue' + [v];
        pos' := pos'[v := count'];
        count' := count' + 1;
        if v == t {
          return true, visited', queue', previous', pos', count';
        }
      }
      v := v + 1;
    }
  }

  /** Line 74: taking the head of the queue makes it the node being scanned. */
  lemma PopFrontier(m: Matrix, s: int, t: int, visited: set<int>, queue: seq<int>,
                    previous: map<int, int>, pos: map<int, nat>, count: nat, done: set<int>)
    requires Frontier(m, s, t, visited, queue, previous, pos, count, done, {}) && queue != []
    ensures Frontier(m, s, t, visited, queue[1..], previous, pos, count, done, {queue[0]})
    ensures queue[0] in visited && 0 <= queue[0] < |m| && queue[0] !in done
  {
    var u := queue[0];
    forall v | v in visited
      ensures v in done || v in queue[1..] || v in {u}
    {
      if v !in done && v != u {
        var i :| 0 <= i < |queue| && queue[i] == v;
        assert queue[1..][i - 1] == v;
      }
    }
  }

  lemma {:induction false} CardRange(S: set<int>, n: nat)
    requires forall x :: x in S ==> 0 <= x < n
    ensures |S| <= n
  {
    if n == 0 {
      assert forall x :: x !in S;
      assert S == {};
    } else {
      CardRange(S - {n - 1}, n - 1);
    }
  }

  /** The source's `getAugmentedPath`. It returns true exactly when the sink is
      reachable over positive residual corridors, and then `previous` traces
      such a path back from t to s. Entries of `previous` from earlier searches
      stay in the map but are never read. */
  method GetAugmentedPath(m: Matrix, s: int, t: int, previous: map<int, int>)
      returns (found: bool, previous': map<int, int>, ghost pos: map<int, nat>)
    requires IsSquare(m, |m|) && 0 <= s < |m| && 0 <= t < |m| && s != t
    ensures found <==> Reachable(m, s, t)
    ensures found ==> TraceOK(m, previous', pos, s) && t in pos
  {
    found := false;
    var visited: set<int> := {s};
    var queue: seq<int> := [s];
    previous' := previous;
    pos := map[s := 0];
    ghost var count: nat := 1;
    ghost var done: set<int> := {};
    while queue != []
      invariant !found
      invariant Frontier(m, s, t, visited, queue, previous', pos, count, done, {})
      decreases |m| - |done|
    {
      var u := queue[0];
      PopFrontier(m, s, t, visited, queue, previous', pos, count, done);
      queue := queue[1..];
      found, visited, queue, previous', pos, count := ScanRow(m, s, t, u, visited, queue, previous', pos, count, done);
      if found {
        TraceReaches(m, previous', pos, s, t);
        return;
      }
      CardRange(done + {u}, |m|);
      done := done + {u};
    }
    assert Closed(m, visited);
    ClosedBlocks(m, visited, s, t);
  }

  // ---------------------------------------------------------------------------
  // Bottleneck and augmentation (lines 104-123).

  /** The position of x in p, or -1 when x is not on p. */
  function IndexOf(p: seq<int>, x: int): (r: int)
    ensures -1 <= r < |p| && (r >= 0 ==> p[r] == x)
  {
    if p == [] then -1
    else if p[|p| - 1] == x then |p| - 1
    else IndexOf(p[..|p| - 1], x)
  }

  predicate Distinct(p: seq<int>)
  {
    forall i, j :: 0 <= i < j < |p| ==> p[i] != p[j]
  }

  lemma {:induction false} IndexOfDistinct(p: seq<int>, i: nat)
    requires Distinct(p) && i < |p|
    ensures IndexOf(p, p[i]) == i
  {
    if i < |p| - 1 {
      IndexOfDistinct(p[..|p| - 1], i);
    }
  }

  /** What pushing cflow along the edges of the simple path p from index k on
      does to entry (u, v): -cflow on a forward edge, +cflow on a reverse edge. */
  function PathShift(p: seq<int>, k: int, u: int, v: int, cflow: int): int
  {
    var iu, iv := IndexOf(p, u), IndexOf(p, v);
    if iu >= k && iv == iu + 1 then -cflow
    else if iv >= k && iu == iv + 1 then cflow
    else 0
  }

  /** Lines 104-112: the bottleneck, the least residual capacity along the
      traced path (capped at INFINITE), which is positive. */
  method Bottleneck(m: Matrix, previous: map<int, int>, ghost pos: map<int, nat>, s: int, t: int, ghost p: seq<int>)
      returns (cflow: int)
    requires TraceOK(m, previous, pos, s) && t in pos && p == Retrace(m, previous, pos, s, t)
    ensures 0 < cflow <= INFINITE
    ensures forall i :: 0 <= i < |p| - 1 ==> cflow <= m[p[i]][p[i + 1]]
    ensures cflow == INFINITE || exists i :: 0 <= i < |p| - 1 && cflow == m[p[i]][p[i + 1]]
  {
    RetraceLinks(m, previous, pos, s, t, p);
    cflow := BottleneckAlong(m, previous, p, s, t);
  }

  /** The walk of lines 107-111 back from t along previous, over the path p it retraces. */
  method BottleneckAlong(m: Matrix, previous: map<int, int>, ghost p: seq<int>, s: int, t: int)
      returns (cflow: int)
    requires IsSquare(m, |m|) && |p| >= 1 && p[0] == s && p[|p| - 1] == t
    requires forall i :: 0 <= i < |p| ==> 0 <= p[i] < |m|
    requires forall i :: 1 <= i < |p| ==> p[i] != s && p[i] in previous && previous[p[i]] == p[i - 1] && m[p[i - 1]][p[i]] > 0
    ensures 0 < cflow <= INFINITE
    ensures forall i :: 0 <= i < |p| - 1 ==> cflow <= m[p[i]][p[i + 1]]
    ensures cflow == INFINITE || exists i :: 0 <= i < |p| - 1 && cflow == m[p[i]][p[i + 1]]
  {
    cflow := INFINITE;
    var node := t;
    ghost var k := |p| - 1;
    ghost var w := -1;
    while node != s
      invariant 0 <= k < |p| && node == p[k]
      invariant 0 < cflow <= INFINITE
      invariant forall i :: k <= i < |p| - 1 ==> cflow <= m[p[i]][p[i + 1]]
      invariant cflow == INFINITE || (k <= w < |p| - 1 && cflow == m[p[w]][p[w + 1]])
      decreases k
    {
      var pnode := previous[node];
      assert pnode == p[k - 1];
      if m[pnode][node] < cflow {
        cflow := m[pnode][node];
        w := k - 1;
      }
      node := pnode;
      k := k - 1;
    }
    if cflow != INFINITE {
      assert 0 <= w < |p| - 1 && cflow == m[p[w]][p[w + 1]];
    }
  }

  /** Lines 117-123: push cflow along the traced path, lowering each forward
      residual and raising the reverse one; nothing off the path changes. */
  method Augment(m: Matrix, previous: map<int, int>, ghost pos: map<int, nat>, s: int, t: int, cflow: int, ghost p: seq<int>)
      returns (m': Matrix)
    requires TraceOK(m, previous, pos, s) && t in pos && p == Retrace(m, previous, pos, s, t)
    ensures IsSquare(m', |m|)
    ensures forall u, v :: 0 <= u < |m| && 0 <= v < |m| ==> m'[u][v] == m[u][v] + PathShift(p, 0, u, v, cflow)
  {
    RetraceSimple(m, previous, pos, s, t, p);
    RetraceLinks(m, previous, pos, s, t, p);
    m' := m;
    var node := t;
    ghost var k := |p| - 1;
    forall u, v | 0 <= u < |m| && 0 <= v < |m|
      ensures PathShift(p, k, u, v, cflow) == 0
    {
    }
    while node != s
      invariant 0 <= k < |p| && node == p[k]
      invariant IsSquare(m', |m|)
      invariant forall u, v :: 0 <= u < |m| && 0 <= v < |m| ==> m'[u][v] == m[u][v] + PathShift(p, k, u, v, cflow)
      decreases k
    {
      var pnode := previous[node];
      assert pnode == p[k - 1];
      m' := AugmentEdge(m, m', p, k, pnode, node, cflow);
      node := pnode;
      k := k - 1;
    }
  }

  /** Lines 120-122 for one edge (pnode, node) = (p[k-1], p[k]) of the path. */
  method AugmentEdge(m: Matrix, before: Matrix, ghost p: seq<int>, ghost k: int, pnode: int, node: int, cflow: int)
      returns (after: Matrix)
    requires IsSquare(m, |m|) && IsSquare(before, |m|) && 1 <= k < |p| && Distinct(p)
    requires forall i :: 0 <= i < |p| ==> 0 <= p[i] < |m|
    requires pnode == p[k - 1] && node == p[k]
    requires forall u, v :: 0 <= u < |m| && 0 <= v < |m| ==> before[u][v] == m[u][v] + PathShift(p, k, u, v, cflow)
    ensures IsSquare(after, |m|)
    ensures forall u, v :: 0 <= u < |m| && 0 <= v < |m| ==> after[u][v] == m[u][v] + PathShift(p, k - 1, u, v, cflow)
  {
    var mid := Set(before, pnode, node, before[pnode][node] - cflow);
    after := Set(mid, node, pnode, mid[node][pnode] + cflow);
    AugmentStep(m, before, mid, after, p, k, cflow);
  }

  /** One round of lines 120-122 moves the shift from index k down to k - 1. */
  lemma AugmentStep(m: Matrix, before: Matrix, mid: Matrix, after: Matrix, p: seq<int>, k: int, cflow: int)
    requires IsSquare(m, |m|) && IsSquare(before, |m|) && 1 <= k < |p| && Distinct(p)
    requires forall i :: 0 <= i < |p| ==> 0 <= p[i] < |m|
    requires forall u, v :: 0 <= u < |m| && 0 <= v < |m| ==> before[u][v] == m[u][v] + PathShift(p, k, u, v, cflow)
    requires mid == Set(before, p[k - 1], p[k], before[p[k - 1]][p[k]] - cflow)
    requires after == Set(mid, p[k], p[k - 1], mid[p[k]][p[k - 1]] + cflow)
    ensures IsSquare(after, |m|)
    ensures forall u, v :: 0 <= u < |m| && 0 <= v < |m| ==> after[u][v] == m[u][v] + PathShift(p, k - 1, u, v, cflow)
  {
    IndexOfDistinct(p, k - 1);
    IndexOfDistinct(p, k);
    forall u, v | 0 <= u < |m| && 0 <= v < |m|
      ensures after[u][v] == m[u][v] + PathShift(p, k - 1, u, v, cflow)
    {
      if (u, v) != (p[k - 1], p[k]) && (u, v) != (p[k], p[k - 1]) {
        assert PathShift(p, k - 1, u, v, cflow) == PathShift(p, k, u, v, cflow);
      }
    }
  }

  // ---------------------------------------------------------------------------
  // What one augmentation keeps (lines 115-123).

  /** p is a simple path of nodes of m, and m' is m with cflow pushed along it. */
  predicate Pushed(m: Matrix, m': Matrix, p: seq<int>, cflow: int)
  {
    && IsSquare(m, |m|) && IsSquare(m', |m|) && Distinct(p)
    && (forall i :: 0 <= i < |p| ==> 0 <= p[i] < |m|)
    && (forall u, v :: 0 <= u < |m| && 0 <= v < |m| ==> m'[u][v] == m[u][v] + PathShift(p, 0, u, v, cflow))
  }

  /** Each corridor and its reverse together keep their residual capacity:
      the flow pushed one way is credited the other way. */
  lemma AugmentKeepsSkew(m: Matrix, m': Matrix, p: seq<int>, cflow: int)
    requires Pushed(m, m', p, cflow)
    ensures forall u, v :: 0 <= u < |m| && 0 <= v < |m| ==> m'[u][v] + m'[v][u] == m[u][v] + m[v][u]
  {
    forall u, v | 0 <= u < |m| && 0 <= v < |m|
      ensures PathShift(p, 0, u, v, cflow) + PathShift(p, 0, v, u, cflow) == 0
    {
    }
  }

  /** A push no larger than the bottleneck leaves no residual capacity negative. */
  lemma AugmentKeepsNonNegative(m: Matrix, m': Matrix, p: seq<int>, cflow: int)
    requires Pushed(m, m', p, cflow) && cflow >= 0
    requires forall i :: 0 <= i < |p| - 1 ==> cflow <= m[p[i]][p[i + 1]]
    ensures forall u, v :: 0 <= u < |m| && 0 <= v < |m| && m[u][v] >= 0 ==> m'[u][v] >= 0
  {
    forall u, v | 0 <= u < |m| && 0 <= v < |m| && m[u][v] >= 0
      ensures m'[u][v] >= 0
    {
      var iu := IndexOf(p, u);
      if iu >= 0 && IndexOf(p, v) == iu + 1 {
        assert cflow <= m[p[iu]][p[iu + 1]];
      }
    }
  }

  /** Row u after the push, for u at index i of the path. */
  lemma PushedRow(m: Matrix, m': Matrix, p: seq<int>, cflow: int, i: nat)
    requires Pushed(m, m', p, cflow) && i < |p|
    ensures forall v :: 0 <= v < |m| ==>
      m'[p[i]][v] == m[p[i]][v]
        - (if i + 1 < |p| && v == p[i + 1] then cflow else 0)
        + (if i >= 1 && v == p[i - 1] then cflow else 0)
  {
    IndexOfDistinct(p, i);
    forall v | 0 <= v < |m|
      ensures PathShift(p, 0, p[i], v, cflow) ==
        - (if i + 1 < |p| && v == p[i + 1] then cflow else 0)
        + (if i >= 1 && v == p[i - 1] then cflow else 0)
    {
      if i + 1 < |p| {
        IndexOfDistinct(p, i + 1);
      }
      if i >= 1 {
        IndexOfDistinct(p, i - 1);
      }
    }
  }

  /** The source's outgoing residual drops by exactly the amount pushed. */
  lemma AugmentSourceRow(m: Matrix, m': Matrix, p: seq<int>, cflow: int)
    requires Pushed(m, m', p, cflow) && |p| >= 2
    ensures RowSum(m'[p[0]]) == RowSum(m[p[0]]) - cflow
  {
    PushedRow(m, m', p, cflow, 0);
    var row := m[p[0]];
    assert m'[p[0]] == row[p[1] := row[p[1]] - cflow];
    RowSumUpdate(row, p[1], row[p[1]] - cflow);
  }

  /** Flow conservation: every node other than the path's two ends keeps its
      row sum, since what it passes on it also receives. */
  lemma AugmentConserves(m: Matrix, m': Matrix, p: seq<int>, cflow: int, u: int)
    requires Pushed(m, m', p, cflow) && |p| >= 2
    requires 0 <= u < |m| && u != p[0] && u != p[|p| - 1]
    ensures RowSum(m'[u]) == RowSum(m[u])
  {
    var i := IndexOf(p, u);
    if i < 0 {
      OffPathRow(m, m', p, cflow, u);
    } else {
      InnerPathRow(m, m', p, cflow, i);
    }
  }

  /** A node off the path keeps its whole row. */
  lemma OffPathRow(m: Matrix, m': Matrix, p: seq<int>, cflow: int, u: int)
    requires Pushed(m, m', p, cflow) && 0 <= u < |m| && IndexOf(p, u) < 0
    ensures m'[u] == m[u]
  {
    forall v | 0 <= v < |m|
      ensures m'[u][v] == m[u][v]
    {
    }
  }

  /** A node inside the path loses cflow towards its successor and gains it
      towards its predecessor. */
  lemma InnerPathRow(m: Matrix, m': Matrix, p: seq<int>, cflow: int, i: int)
    requires Pushed(m, m', p, cflow) && 1 <= i < |p| - 1
    ensures RowSum(m'[p[i]]) == RowSum(m[p[i]])
  {
    PushedRow(m, m', p, cflow, i);
    var row := m[p[i]];
    var a, b := p[i + 1], p[i - 1];
    assert a != b;
    var row1 := row[a := row[a] - cflow];
    assert m'[p[i]] == row1[b := row1[b] + cflow];
    RowSumUpdate(row, a, row[a] - cflow);
    RowSumUpdate(row1, b, row1[b] + cflow);
  }

  // ---------------------------------------------------------------------------
  // The main loop (lines 93-125).

  /** What holds of the residual matrix m and the flow value after each round,
      relative to the starting capacities m0 of n nodes: the flow out of the
      source is the source's lost residual, the other nodes (but the sink)
      conserve flow, each corridor pair keeps its total, and no capacity that
      started non-negative has gone negative. */
  ghost predicate Residual(m0: Matrix, m: Matrix, n: nat, maxflow: int)
  {
    && n >= 2 && IsSquare(m0, n) && IsSquare(m, n)
    && maxflow == RowSum(m0[0]) - RowSum(m[0])
    && (forall v :: 0 <= v < n ==> m[0][v] >= 0)
    && (forall u :: 0 < u < n - 1 ==> RowSum(m[u]) == RowSum(m0[u]))
    && (forall u, v :: 0 <= u < n && 0 <= v < n ==> m[u][v] + m[v][u] == m0[u][v] + m0[v][u])
    && (forall u, v :: 0 <= u < n && 0 <= v < n && m0[u][v] >= 0 ==> m[u][v] >= 0)
  }

  /** One round of lines 115-123 keeps Residual and raises the flow by cflow. */
  lemma RoundKeepsResidual(m0: Matrix, m: Matrix, m': Matrix, n: nat, maxflow: int, p: seq<int>, cflow: int)
    requires Residual(m0, m, n, maxflow) && Pushed(m, m', p, cflow)
    requires |p| >= 2 && p[0] == 0 && p[|p| - 1] == n - 1 && cflow > 0
    requires forall i :: 0 <= i < |p| - 1 ==> cflow <= m[p[i]][p[i + 1]]
    ensures Residual(m0, m', n, maxflow + cflow)
  {
    AugmentKeepsSkew(m, m', p, cflow);
    AugmentKeepsNonNegative(m, m', p, cflow);
    AugmentSourceRow(m, m', p, cflow);
    forall u | 0 < u < n - 1
      ensures RowSum(m'[u]) == RowSum(m0[u])
    {
      AugmentConserves(m, m', p, cflow, u);
    }
  }

  /** The source's main loop on a super path of n nodes: the source is node 0
      and the sink node n - 1. It returns the total flow pushed, and the final
      residual matrix, from which the sink is unreachable. */
  method MaxFlow(spath0: Matrix, n: nat) returns (maxflow: int, ghost residual: Matrix)
    requires n >= 2 && IsSquare(spath0, n)
    requires forall v :: 0 <= v < n ==> spath0[0][v] >= 0
    ensures Residual(spath0, residual, n, maxflow)
    ensures !Reachable(residual, 0, n - 1)
    ensures 0 <= maxflow <= RowSum(spath0[0])
    ensures !Reachable(spath0, 0, n - 1) ==> maxflow == 0
  {
    var spath := spath0;
    maxflow := 0;
    var previous: map<int, int> := map[];
    var found;
    ghost var pos;
    found, previous, pos := GetAugmentedPath(spath, 0, n - 1, previous);
    while found
      invariant Residual(spath0, spath, n, maxflow)
      invariant found <==> Reachable(spath, 0, n - 1)
      invariant found ==> TraceOK(spath, previous, pos, 0) && n - 1 in pos
      invariant !Reachable(spath0, 0, n - 1) ==> maxflow == 0 && !found
      decreases RowSum(spath[0])
    {
      ghost var p := Retrace(spath, previous, pos, 0, n - 1);
      RetraceSimple(spath, previous, pos, 0, n - 1, p);
      var cflow := Bottleneck(spath, previous, pos, 0, n - 1, p);
      maxflow := maxflow + cflow;
      var spath' := Augment(spath, previous, pos, 0, n - 1, cflow, p);
      RoundKeepsResidual(spath0, spath, spath', n, maxflow - cflow, p, cflow);
      spath := spath';
      RowSumNonNegative(spath[0]);
      found, previous, pos := GetAugmentedPath(spath, 0, n - 1, previous);
    }
    residual := spath;
    RowSumNonNegative(spath[0]);
  }

  /** The source's `solution`, on the corrected super path: the bunnies that
      reach the sink are a flow whose residual leaves no augmenting path, at
      most INFINITE per entrance, and none when no exit can be reached. */
  method Solution(entrances: seq<int>, exits: seq<int>, path: Matrix) returns (r: int, ghost residual: Matrix)
    requires ValidInput(entrances, exits, path)
    ensures Residual(SuperPathFixed(path, entrances, exits), residual, |path| + 2, r)
    ensures !Reachable(residual, 0, |path| + 1)
    ensures 0 <= r <= |entrances| * INFINITE
    ensures !Reachable(SuperPathFixed(path, entrances, exits), 0, |path| + 1) ==> r == 0
  {
    var spath := SuperPathFixed(path, entrances, exits);
    SourceRowBound(path, entrances, exits);
    r, residual := MaxFlow(spath, |path| + 2);
  }
}

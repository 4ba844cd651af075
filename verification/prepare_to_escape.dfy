/** Prepare the bunnies' escape: the length, counted in cells, of the shortest
    route through a 0/1 maze from the top-left to the bottom-right corner when
    at most one wall (a cell holding 1) may be removed. The solution runs a
    breadth-first search from each corner, recording distances, and then
    scores every wall that borders the start's search region (and, when the
    exit cannot be reached at all, also the exit's region) by joining the two
    searches through it. */
module PrepareToEscape {

  datatype Option<T> = None | Some(value: T)

  /** A cell of the maze, row y and column x. */
  datatype Cell = Cell(y: int, x: int)

  type Grid = seq<seq<int>>

  const WALL: int := 1

  /** A non-empty rectangular maze. */
  predicate IsGrid(g: Grid)
  {
    |g| >= 1 && |g[0]| >= 1 && forall y :: 0 <= y < |g| ==> |g[y]| == |g[0]|
  }

  predicate InBounds(g: Grid, c: Cell)
    requires IsGrid(g)
  {
    0 <= c.y < |g| && 0 <= c.x < |g[0]|
  }

  /** An in-bounds cell holding a wall. */
  predicate IsWall(g: Grid, c: Cell)
    requires IsGrid(g)
  {
    InBounds(g, c) && g[c.y][c.x] == WALL
  }

  /** An in-bounds cell that is not a wall (line 60 skips the others). */
  predicate Open(g: Grid, c: Cell)
    requires IsGrid(g)
  {
    InBounds(g, c) && !IsWall(g, c)
  }

  /** a and b share a side. */
  predicate Adjacent(a: Cell, b: Cell)
  {
    (a.y == b.y && (a.x - b.x == 1 || b.x - a.x == 1)) ||
    (a.x == b.x && (a.y - b.y == 1 || b.y - a.y == 1))
  }

  // ---------------------------------------------------------------------------
  // Neighbourhoods (lines 3-33).

  /** Lines 3-10: the four moves south, north, west and east, in bounds or not. */
  function NextMoves(c: Cell): (r: seq<Cell>)
    ensures |r| == 4
    ensures forall b :: b in r <==> Adjacent(c, b)
  {
    [Cell(c.y + 1, c.x), Cell(c.y - 1, c.x), Cell(c.y, c.x - 1), Cell(c.y, c.x + 1)]
  }

  /** The cells of cs inside the maze, in order. */
  function InBoundsOf(g: Grid, cs: seq<Cell>): (r: seq<Cell>)
    requires IsGrid(g)
    ensures |r| <= |cs|
    ensures forall b :: b in r <==> b in cs && InBounds(g, b)
  {
    if cs == [] then []
    else
      var rest := InBoundsOf(g, cs[..|cs| - 1]);
      var b := cs[|cs| - 1];
      assert cs == cs[..|cs| - 1] + [b];
      if InBounds(g, b) then rest + [b] else rest
  }

  /** The cells of cs that are not walls, in order. */
  function OpenOf(g: Grid, cs: seq<Cell>): (r: seq<Cell>)
    requires IsGrid(g) && forall i :: 0 <= i < |cs| ==> InBounds(g, cs[i])
    ensures |r| <= |cs|
    ensures forall b :: b in r <==> b in cs && !IsWall(g, b)
  {
    if cs == [] then []
    else
      var rest := OpenOf(g, cs[..|cs| - 1]);
      var b := cs[|cs| - 1];
      assert cs == cs[..|cs| - 1] + [b];
      if !IsWall(g, b) then rest + [b] else rest
  }

  /** Lines 24-33: the in-bounds neighbours. */
  function Neighbours(g: Grid, c: Cell): (r: seq<Cell>)
    requires IsGrid(g)
    ensures |r| <= 4
    ensures forall b :: b in r <==> InBounds(g, b) && Adjacent(c, b)
  {
    InBoundsOf(g, NextMoves(c))
  }

  /** Lines 18-21: the in-bounds neighbours that are not walls. */
  function NonWallNeighbours(g: Grid, c: Cell): (r: seq<Cell>)
    requires IsGrid(g)
    ensures forall b :: b in r <==> Open(g, b) && Adjacent(c, b)
    ensures forall i :: 0 <= i < |r| ==> InBounds(g, r[i])
  {
    OpenOf(g, Neighbours(g, c))
  }

  /** Lines 12-15: the in-bounds neighbours that are walls. */
  function WallEdges(g: Grid, c: Cell): (r: set<Cell>)
    requires IsGrid(g)
    ensures forall b :: b in r <==> InBounds(g, b) && IsWall(g, b) && Adjacent(c, b)
  {
    set b | b in NextMoves(c) && InBounds(g, b) && IsWall(g, b)
  }

  // ---------------------------------------------------------------------------
  // Walks and distances.

  /** p is a walk from s: each later cell is an open neighbour of the one
      before. The first cell itself is not checked, as in lines 43-47. */
  predicate IsWalk(g: Grid, s: Cell, p: seq<Cell>)
    requires IsGrid(g)
  {
    && |p| >= 1 && p[0] == s
    && forall i :: 1 <= i < |p| ==> Open(g, p[i]) && Adjacent(p[i - 1], p[i])
  }

  ghost predicate Reachable(g: Grid, s: Cell, c: Cell)
    requires IsGrid(g)
  {
    exists p :: IsWalk(g, s, p) && p[|p| - 1] == c
  }

  /** d is the least number of steps of a walk from s to c. */
  ghost predicate ShortestDist(g: Grid, s: Cell, c: Cell, d: int)
    requires IsGrid(g)
  {
    && (exists p :: IsWalk(g, s, p) && p[|p| - 1] == c && |p| == d + 1)
    && (forall p :: IsWalk(g, s, p) && p[|p| - 1] == c ==> |p| >= d + 1)
  }

  /** A matrix of the maze's shape; the source's distance maps. */
  predicate IsDistMap(g: Grid, D: seq<seq<int>>)
    requires IsGrid(g)
  {
    |D| == |g| && forall y :: 0 <= y < |D| ==> |D[y]| == |g[0]|
  }

  /** The entry of D for c (0 outside D). */
  function Get(D: seq<seq<int>>, c: Cell): int
  {
    if 0 <= c.y < |D| && 0 <= c.x < |D[c.y]| then D[c.y][c.x] else 0
  }

  /** D with the entry for c set to v. */
  function Put(D: seq<seq<int>>, c: Cell, v: int): (r: seq<seq<int>>)
    requires 0 <= c.y < |D| && 0 <= c.x < |D[c.y]|
    ensures |r| == |D| && forall y :: 0 <= y < |D| ==> |r[y]| == |D[y]|
    ensures Get(r, c) == v
    ensures forall b: Cell :: b != c ==> Get(r, b) == Get(D, b)
  {
    D[c.y := D[c.y][c.x := v]]
  }

  predicate Distinct(cs: seq<Cell>)
  {
    forall i, j :: 0 <= i < j < |cs| ==> cs[i] != cs[j]
  }

  // ---------------------------------------------------------------------------
  // The breadth-first search `solve` (lines 36-79).

  /** Every listed cell is in the maze, open unless it is s, and has a walk
      from s of its recorded length; cells not listed keep their initial
      distance. */
  ghost predicate Listed(g: Grid, s: Cell, D0: seq<seq<int>>, D: seq<seq<int>>, path: seq<Cell>,
                         walks: map<Cell, seq<Cell>>)
    requires IsGrid(g)
  {
    && InBounds(g, s) && IsDistMap(g, D0) && IsDistMap(g, D) && Get(D0, s) == 0 && Get(D, s) == 0
    && |path| >= 1 && path[0] == s && Distinct(path)
    && (forall c :: c in path ==> InBounds(g, c) && (c == s || !IsWall(g, c)))
    && (forall c :: c in path ==> c in walks && IsWalk(g, s, walks[c]))
    && (forall c :: c in path ==> walks[c][|walks[c]| - 1] == c && |walks[c]| == Get(D, c) + 1)
    && (forall c :: InBounds(g, c) && c !in path ==> Get(D, c) == Get(D0, c))
  }

  /** The queue holds distinct listed cells not yet scanned, at distances
      level or level + 1 in non-decreasing order. */
  predicate Queued(D: seq<seq<int>>, path: seq<Cell>, queue: seq<Cell>, done: set<Cell>,
                   scanning: set<Cell>, level: int)
  {
    && Distinct(queue)
    && (forall i :: 0 <= i < |queue| ==> queue[i] in path && queue[i] !in done && queue[i] !in scanning)
    && (forall i :: 0 <= i < |queue| ==> level <= Get(D, queue[i]) <= level + 1)
    && (forall i, j :: 0 <= i < j < |queue| ==> Get(D, queue[i]) <= Get(D, queue[j]))
  }

  /** The state of the search between two scanned cells. `path` is both the
      source's `visited` and `path` list; `done` holds the cells already
      scanned and `scanning` the one being scanned; `walks` gives each listed
      cell a walk of its recorded length. Every open neighbour of a scanned
      cell is listed, at most one step further. */
  ghost predicate Searching(g: Grid, s: Cell, D0: seq<seq<int>>, D: seq<seq<int>>, path: seq<Cell>,
                            queue: seq<Cell>, walks: map<Cell, seq<Cell>>, done: set<Cell>,
                            scanning: set<Cell>, level: int)
    requires IsGrid(g)
  {
    && Listed(g, s, D0, D, path, walks)
    && Queued(D, path, queue, done, scanning, level)
    && (forall c :: c in path ==> Get(D, c) <= level + 1)
    && (forall c :: c in done ==> c in path && Get(D, c) <= level)
    && (forall c :: c in scanning ==> c in path && c !in done)
    && (forall c :: c in path ==> c in done || c in queue || c in scanning)
    && (forall u, b :: u in done && Open(g, b) && Adjacent(u, b) ==> b in path && Get(D, b) <= Get(D, u) + 1)
  }

  /** Lines 58-72: the i-th neighbour b of the cell u being scanned; the
      open ones among the first i are already listed. */
  method Visit(g: Grid, s: Cell, D0: seq<seq<int>>, D: seq<seq<int>>, path: seq<Cell>, queue: seq<Cell>,
               ghost walks: map<Cell, seq<Cell>>, ghost done: set<Cell>, u: Cell, ghost level: int,
               neighbours: seq<Cell>, i: nat)
      returns (D': seq<seq<int>>, path': seq<Cell>, queue': seq<Cell>, ghost walks': map<Cell, seq<Cell>>)
    requires IsGrid(g) && Searching(g, s, D0, D, path, queue, walks, done, {u}, level)
    requires Get(D, u) == level && i < |neighbours|
    requires forall b :: b in neighbours ==> InBounds(g, b) && Adjacent(u, b)
    requires forall j :: 0 <= j < i && Open(g, neighbours[j]) ==> neighbours[j] in path
    ensures Searching(g, s, D0, D', path', queue', walks', done, {u}, level)
    ensures Get(D', u) == level
    ensures forall j :: 0 <= j < i + 1 && Open(g, neighbours[j]) ==> neighbours[j] in path'
  {
    var b := neighbours[i];
    assert b in neighbours;
    D', path', queue', walks' := D, path, queue, walks;
    if g[b.y][b.x] == WALL {
      return;
    }
    var tentative := Get(D, u) + 1;
    if b !in path {
      D' := Put(D, b, tentative);
      path' := path + [b];
      queue' := queue + [b];
      walks' := walks[b := walks[u] + [b]];
      ListCell(g, s, D0, D, path, queue, walks, done, u, level, b);
    }
  }

  /** Listing a new open neighbour b of u at distance level + 1 keeps the search state. */
  lemma ListCell(g: Grid, s: Cell, D0: seq<seq<int>>, D: seq<seq<int>>, path: seq<Cell>, queue: seq<Cell>,
                 walks: map<Cell, seq<Cell>>, done: set<Cell>, u: Cell, level: int, b: Cell)
    requires IsGrid(g) && Searching(g, s, D0, D, path, queue, walks, done, {u}, level)
    requires Get(D, u) == level && Open(g, b) && Adjacent(u, b) && b !in path
    ensures Searching(g, s, D0, Put(D, b, level + 1), path + [b], queue + [b],
                      walks[b := walks[u] + [b]], done, {u}, level)
  {
    ListedAdd(g, s, D0, D, path, walks, u, b);
    QueuedAdd(D, path, queue, done, {u}, level, b);
  }

  lemma ListedAdd(g: Grid, s: Cell, D0: seq<seq<int>>, D: seq<seq<int>>, path: seq<Cell>,
                  walks: map<Cell, seq<Cell>>, u: Cell, b: Cell)
    requires IsGrid(g) && Listed(g, s, D0, D, path, walks)
    requires u in path && Open(g, b) && Adjacent(u, b) && b !in path
    ensures Listed(g, s, D0, Put(D, b, Get(D, u) + 1), path + [b], walks[b := walks[u] + [b]])
  {
    var walks' := walks[b := walks[u] + [b]];
    assert IsWalk(g, s, walks'[b]);
    assert forall c :: c in path ==> walks'[c] == walks[c];
  }

  lemma QueuedAdd(D: seq<seq<int>>, path: seq<Cell>, queue: seq<Cell>, done: set<Cell>,
                  scanning: set<Cell>, level: int, b: Cell)
    requires Queued(D, path, queue, done, scanning, level) && b !in path && b !in done && b !in scanning
    requires 0 <= b.y < |D| && 0 <= b.x < |D[b.y]|
    ensures Queued(Put(D, b, level + 1), path + [b], queue + [b], done, scanning, level)
  {
  }

  /** Lines 56-72: scan every neighbour of u, which was just taken off the queue. */
  method ScanCell(g: Grid, s: Cell, D0: seq<seq<int>>, D: seq<seq<int>>, path: seq<Cell>, queue: seq<Cell>,
                  ghost walks: map<Cell, seq<Cell>>, ghost done: set<Cell>, u: Cell, ghost level: int)
      returns (D': seq<seq<int>>, path': seq<Cell>, queue': seq<Cell>, ghost walks': map<Cell, seq<Cell>>)
    requires IsGrid(g) && Searching(g, s, D0, D, path, queue, walks, done, {u}, level)
    requires Get(D, u) == level
    ensures Searching(g, s, D0, D', path', queue', walks', done + {u}, {}, level)
  {
    D', path', queue', walks' := D, path, queue, walks;
    var neighbours := Neighbours(g, u);
    var i := 0;
    while i < |neighbours|
      invariant 0 <= i <= |neighbours|
      invariant Searching(g, s, D0, D', path', queue', walks', done, {u}, level)
      invariant Get(D', u) == level
      invariant forall j :: 0 <= j < i && Open(g, neighbours[j]) ==> neighbours[j] in path'
    {
      D', path', queue', walks' := Visit(g, s, D0, D', path', queue', walks', done, u, level, neighbours, i);
      i := i + 1;
    }
    FinishScan(g, s, D0, D', path', queue', walks', done, u, level, neighbours);
  }

  /** Once all of u's neighbours are scanned, u joins the scanned cells. */
  lemma FinishScan(g: Grid, s: Cell, D0: seq<seq<int>>, D: seq<seq<int>>, path: seq<Cell>, queue: seq<Cell>,
                   walks: map<Cell, seq<Cell>>, done: set<Cell>, u: Cell, level: int, neighbours: seq<Cell>)
    requires IsGrid(g) && Searching(g, s, D0, D, path, queue, walks, done, {u}, level)
    requires Get(D, u) == level
    requires forall b :: b in neighbours <==> InBounds(g, b) && Adjacent(u, b)
    requires forall j :: 0 <= j < |neighbours| && Open(g, neighbours[j]) ==> neighbours[j] in path
    ensures Searching(g, s, D0, D, path, queue, walks, done + {u}, {}, level)
  {
    forall b | Open(g, b) && Adjacent(u, b)
      ensures b in path && Get(D, b) <= Get(D, u) + 1
    {
      assert b in neighbours;
      var j :| 0 <= j < |neighbours| && neighbours[j] == b;
    }
  }

  /** Line 52: taking the head of the queue starts its scan, at its distance. */
  lemma PopQueue(g: Grid, s: Cell, D0: seq<seq<int>>, D: seq<seq<int>>, path: seq<Cell>, queue: seq<Cell>,
                 walks: map<Cell, seq<Cell>>, done: set<Cell>, level: int)
    requires IsGrid(g) && Searching(g, s, D0, D, path, queue, walks, done, {}, level) && queue != []
    ensures Searching(g, s, D0, D, path, queue[1..], walks, done, {queue[0]}, Get(D, queue[0]))
    ensures queue[0] in path && queue[0] !in done && InBounds(g, queue[0])
  {
    var u := queue[0];
    forall c | c in path
      ensures c in done || c in queue[1..] || c in {u}
    {
      if c !in done && c != u {
        var i :| 0 <= i < |queue| && queue[i] == c;
        assert queue[1..][i - 1] == c;
      }
    }
  }

  /** All cells of the maze. */
  function AllCells(g: Grid): (r: set<Cell>)
    requires IsGrid(g)
    ensures forall c :: c in r <==> InBounds(g, c)
  {
    set y, x | 0 <= y < |g| && 0 <= x < |g[0]| :: Cell(y, x)
  }

  /** The source's `solve`: breadth-first search from s over open cells. On
      return `path` lists, once each, exactly the cells reachable from s; the
      distance map holds each one's shortest distance and is unchanged
      elsewhere; the count is the cells on a shortest route to e, if any. */
  method Solve(g: Grid, s: Cell, e: Cell, D0: seq<seq<int>>)
      returns (count: Option<int>, path: seq<Cell>, D: seq<seq<int>>)
    requires IsGrid(g) && InBounds(g, s) && InBounds(g, e) && IsDistMap(g, D0) && Get(D0, s) == 0
    ensures IsDistMap(g, D) && Distinct(path) && |path| >= 1 && path[0] == s
    ensures forall c :: InBounds(g, c) ==> (c in path <==> Reachable(g, s, c))
    ensures forall c :: c in path ==> InBounds(g, c) && ShortestDist(g, s, c, Get(D, c))
    ensures forall c :: c in path ==> c == s || !IsWall(g, c)
    ensures forall c :: InBounds(g, c) && c !in path ==> Get(D, c) == Get(D0, c)
    ensures count.Some? <==> Reachable(g, s, e)
    ensures count.Some? ==> ShortestDist(g, s, e, count.value - 1)
  {
    path, D := Search(g, s, D0);
    if e in path {
      count := Some(Get(D, e) + 1);
    } else {
      count := None;
    }
  }

  /** Lines 43-72: the search loop itself. */
  method Search(g: Grid, s: Cell, D0: seq<seq<int>>) returns (path: seq<Cell>, D: seq<seq<int>>)
    requires IsGrid(g) && InBounds(g, s) && IsDistMap(g, D0) && Get(D0, s) == 0
    ensures IsDistMap(g, D) && Distinct(path) && |path| >= 1 && path[0] == s
    ensures forall c :: InBounds(g, c) ==> (c in path <==> Reachable(g, s, c))
    ensures forall c :: c in path ==> InBounds(g, c) && ShortestDist(g, s, c, Get(D, c))
    ensures forall c :: c in path ==> c == s || !IsWall(g, c)
    ensures forall c :: InBounds(g, c) && c !in path ==> Get(D, c) == Get(D0, c)
  {
    var queue := [s];
    path := [s];
    D := D0;
    ghost var walks := map[s := [s]];
    ghost var done: set<Cell> := {};
    ghost var level := 0;
    while queue != []
      invariant Searching(g, s, D0, D, path, queue, walks, done, {}, level)
      decreases |AllCells(g) - done|
    {
      var u := queue[0];
      D, path, queue, walks, level := Step(g, s, D0, D, path, queue, walks, done, level);
      done := done + {u};
    }
    SearchComplete(g, s, D0, D, path, walks, done, level);
  }

  /** One turn of the search loop: take the head of the queue and scan it. */
  method Step(g: Grid, s: Cell, D0: seq<seq<int>>, D: seq<seq<int>>, path: seq<Cell>, queue: seq<Cell>,
              ghost walks: map<Cell, seq<Cell>>, ghost done: set<Cell>, ghost level: int)
      returns (D': seq<seq<int>>, path': seq<Cell>, queue': seq<Cell>, ghost walks': map<Cell, seq<Cell>>,
               ghost level': int)
    requires IsGrid(g) && Searching(g, s, D0, D, path, queue, walks, done, {}, level) && queue != []
    ensures Searching(g, s, D0, D', path', queue', walks', done + {queue[0]}, {}, level')
    ensures |AllCells(g) - (done + {queue[0]})| < |AllCells(g) - done|
  {
    var u := queue[0];
    PopQueue(g, s, D0, D, path, queue, walks, done, level);
    level' := Get(D, u);
    D', path', queue', walks' := ScanCell(g, s, D0, D, path, queue[1..], walks, done, u, level');
    assert AllCells(g) - (done + {u}) < AllCells(g) - done;
  }

  /** When the queue runs dry, every walk from s ends at a listed cell, no
      shorter than its recorded distance. */
  lemma {:induction false} WalkBound(g: Grid, s: Cell, D0: seq<seq<int>>, D: seq<seq<int>>, path: seq<Cell>,
                                     walks: map<Cell, seq<Cell>>, done: set<Cell>, level: int, p: seq<Cell>)
    requires IsGrid(g) && Searching(g, s, D0, D, path, [], walks, done, {}, level)
    requires IsWalk(g, s, p)
    ensures p[|p| - 1] in path && Get(D, p[|p| - 1]) <= |p| - 1
  {
    if |p| > 1 {
      var q := p[..|p| - 1];
      WalkBound(g, s, D0, D, path, walks, done, level, q);
      assert p[|p| - 2] in done;
    }
  }

  lemma SearchComplete(g: Grid, s: Cell, D0: seq<seq<int>>, D: seq<seq<int>>, path: seq<Cell>,
                       walks: map<Cell, seq<Cell>>, done: set<Cell>, level: int)
    requires IsGrid(g) && Searching(g, s, D0, D, path, [], walks, done, {}, level)
    ensures IsDistMap(g, D) && Distinct(path) && |path| >= 1 && path[0] == s
    ensures forall c :: InBounds(g, c) ==> (c in path <==> Reachable(g, s, c))
    ensures forall c :: c in path ==> InBounds(g, c) && ShortestDist(g, s, c, Get(D, c))
    ensures forall c :: c in path ==> c == s || !IsWall(g, c)
    ensures forall c :: InBounds(g, c) && c !in path ==> Get(D, c) == Get(D0, c)
  {
    forall c | InBounds(g, c)
      ensures c in path <==> Reachable(g, s, c)
    {
      if c in path {
        assert IsWalk(g, s, walks[c]);
      }
      if Reachable(g, s, c) {
        var p :| IsWalk(g, s, p) && p[|p| - 1] == c;
        WalkBound(g, s, D0, D, path, walks, done, level, p);
      }
    }
    forall c | c in path
      ensures ShortestDist(g, s, c, Get(D, c))
    {
      assert IsWalk(g, s, walks[c]);
      forall p | IsWalk(g, s, p) && p[|p| - 1] == c
        ensures |p| >= Get(D, c) + 1
      {
        WalkBound(g, s, D0, D, path, walks, done, level, p);
      }
    }
  }

  lemma ShortestUnique(g: Grid, s: Cell, c: Cell, d1: int, d2: int)
    requires IsGrid(g) && ShortestDist(g, s, c, d1) && ShortestDist(g, s, c, d2)
    ensures d1 == d2
  {
    var p1 :| IsWalk(g, s, p1) && p1[|p1| - 1] == c && |p1| == d1 + 1;
    var p2 :| IsWalk(g, s, p2) && p2[|p2| - 1] == c && |p2| == d2 + 1;
  }

  // ---------------------------------------------------------------------------
  // Lower bounds: no walk is shorter than the Manhattan distance.

  function Abs(z: int): nat
  {
    if z < 0 then -z else z
  }

  function Manhattan(a: Cell, b: Cell): nat
  {
    Abs(a.y - b.y) + Abs(a.x - b.x)
  }

  lemma {:induction false} WalkManhattan(g: Grid, s: Cell, p: seq<Cell>)
    requires IsGrid(g) && IsWalk(g, s, p)
    ensures |p| - 1 >= Manhattan(s, p[|p| - 1])
  {
    if |p| > 1 {
      WalkManhattan(g, s, p[..|p| - 1]);
    }
  }

  lemma AreaBound(h: int, w: int)
    requires h >= 1 && w >= 1
    ensures h * w >= h + w - 1
  {
    assert (h - 1) * (w - 1) >= 0;
  }

  // ---------------------------------------------------------------------------
  // Candidate walls and their scores (lines 119-153).

  /** A distance map for s as the search leaves it: the shortest distance
      of every reachable cell, and inf everywhere else. */
  ghost predicate ShortestMap(g: Grid, s: Cell, D: seq<seq<int>>, inf: int)
    requires IsGrid(g)
  {
    && IsDistMap(g, D)
    && (forall c :: InBounds(g, c) && Reachable(g, s, c) ==> ShortestDist(g, s, c, Get(D, c)))
    && (forall c :: InBounds(g, c) && !Reachable(g, s, c) ==> Get(D, c) == inf)
  }

  /** Lines 122-124 and 128-130: the walls next to any cell of path. */
  function WallsNear(g: Grid, path: seq<Cell>): (r: set<Cell>)
    requires IsGrid(g)
    ensures forall c :: c in r <==> IsWall(g, c) && exists i :: 0 <= i < |path| && Adjacent(path[i], c)
  {
    if path == [] then {}
    else
      var k := |path| - 1;
      var rest := WallsNear(g, path[..k]);
      assert forall i :: 0 <= i < k ==> path[..k][i] == path[i];
      rest + WallEdges(g, path[k])
  }

  /** c borders a cell reachable from s. */
  ghost predicate NearRegion(g: Grid, s: Cell, c: Cell)
    requires IsGrid(g)
  {
    exists a :: InBounds(g, a) && Reachable(g, s, a) && Adjacent(a, c)
  }

  /** The walls scored by lines 141-149: those bordering the start's region,
      and when the exit is out of reach only those bordering both regions. */
  ghost function Candidates(g: Grid): set<Cell>
    requires IsGrid(g)
  {
    set c | c in AllCells(g) && IsWall(g, c) && NearRegion(g, Start(), c)
              && (Reachable(g, Start(), End(g)) || NearRegion(g, End(g), c))
  }

  function Start(): Cell
  {
    Cell(0, 0)
  }

  function End(g: Grid): Cell
    requires IsGrid(g)
  {
    Cell(|g| - 1, |g[0]| - 1)
  }

  /** The walls near a search's path are the walls near its region. */
  lemma WallsNearRegion(g: Grid, s: Cell, path: seq<Cell>)
    requires IsGrid(g)
    requires Explored(g, s, path)
    ensures forall c :: c in WallsNear(g, path) <==> IsWall(g, c) && NearRegion(g, s, c)
  {
    forall c | IsWall(g, c) && NearRegion(g, s, c)
      ensures c in WallsNear(g, path)
    {
      var a :| InBounds(g, a) && Reachable(g, s, a) && Adjacent(a, c);
      var i :| 0 <= i < |path| && path[i] == a;
    }
    forall c | c in WallsNear(g, path)
      ensures NearRegion(g, s, c)
    {
      var i :| 0 <= i < |path| && Adjacent(path[i], c);
      assert path[i] in path;
    }
  }

  /** The least recorded distance among the cells cs (Python's min over the list). */
  function MinDist(D: seq<seq<int>>, cs: seq<Cell>): (r: int)
    requires cs != []
    ensures exists i :: 0 <= i < |cs| && r == Get(D, cs[i])
    ensures forall i :: 0 <= i < |cs| ==> r <= Get(D, cs[i])
  {
    if |cs| == 1 then Get(D, cs[0])
    else
      var m := MinDist(D, cs[1..]);
      assert forall i :: 1 <= i < |cs| ==> cs[1..][i - 1] == cs[i];
      if Get(D, cs[0]) <= m then Get(D, cs[0]) else m
  }

  /** Lines 142-149: the cells of the best route through wall c, joining the
      nearest-to-start and nearest-to-exit open neighbours of c. */
  function Score(g: Grid, Ds: seq<seq<int>>, De: seq<seq<int>>, c: Cell): int
    requires IsGrid(g) && NonWallNeighbours(g, c) != []
  {
    var neighbours := NonWallNeighbours(g, c);
    (MinDist(De, neighbours) + 1) + (MinDist(Ds, neighbours) + 1) + 1
  }

  /** Every recorded distance is at least the Manhattan distance from s. */
  ghost predicate AtLeastManhattan(g: Grid, s: Cell, D: seq<seq<int>>)
    requires IsGrid(g)
  {
    forall a :: InBounds(g, a) ==> Get(D, a) >= Manhattan(s, a)
  }

  /** A shortest-distance map never undercuts the Manhattan distance. */
  lemma MapAtLeastManhattan(g: Grid, s: Cell, D: seq<seq<int>>)
    requires IsGrid(g) && InBounds(g, s) && ShortestMap(g, s, D, |g| * |g[0]|)
    ensures AtLeastManhattan(g, s, D)
  {
    forall a | InBounds(g, a)
      ensures Get(D, a) >= Manhattan(s, a)
    {
      if Reachable(g, s, a) {
        assert ShortestDist(g, s, a, Get(D, a));
        var p :| IsWalk(g, s, p) && p[|p| - 1] == a && |p| == Get(D, a) + 1;
        WalkManhattan(g, s, p);
      } else {
        AreaBound(|g|, |g[0]|);
      }
    }
  }

  /** Going around a cell c, between two of its neighbours, costs two steps. */
  lemma Detour(g: Grid, a: Cell, b: Cell, c: Cell)
    requires IsGrid(g) && Adjacent(a, c) && Adjacent(b, c)
    ensures Manhattan(Start(), a) + Manhattan(End(g), b) + 2 >= |g| + |g[0]| - 2
  {
  }

  /** No route through a wall is shorter than the corner-to-corner Manhattan bound. */
  lemma ScoreAtLeast(g: Grid, Ds: seq<seq<int>>, De: seq<seq<int>>, c: Cell)
    requires IsGrid(g) && NonWallNeighbours(g, c) != []
    requires AtLeastManhattan(g, Start(), Ds) && AtLeastManhattan(g, End(g), De)
    ensures Score(g, Ds, De, c) >= |g| + |g[0]| - 1
  {
    var neighbours := NonWallNeighbours(g, c);
    var i :| 0 <= i < |neighbours| && MinDist(De, neighbours) == Get(De, neighbours[i]);
    var j :| 0 <= j < |neighbours| && MinDist(Ds, neighbours) == Get(Ds, neighbours[j]);
    assert neighbours[i] in neighbours && neighbours[j] in neighbours;
    Detour(g, neighbours[j], neighbours[i], c);
  }

  /** A set with positive size has a member. */
  lemma NonEmpty(s: set<int>)
    requires |s| > 0
    ensures exists v :: v in s
  {
    if forall v :: v !in s {
      assert false;
    }
  }

  /** A set of cells with positive size has a member. */
  lemma NonEmptyCells(s: set<Cell>)
    requires |s| > 0
    ensures exists c :: c in s
  {
    if forall c :: c !in s {
      assert false;
    }
  }

  /** Line 153: the least of the forward count, when there is one, and the scores. */
  method Least(first: Option<int>, scores: set<int>) returns (r: int)
    requires first.Some? || |scores| > 0
    ensures first.Some? ==> r <= first.value
    ensures forall x :: x in scores ==> r <= x
    ensures (first.Some? && r == first.value) || r in scores
  {
    var best := first;
    var rest := scores;
    while |rest| > 0
      invariant rest <= scores && (best.Some? || |rest| > 0)
      invariant best.Some? && first.Some? ==> best.value <= first.value
      invariant best.None? ==> first.None? && rest == scores
      invariant forall x :: x in scores - rest ==> best.Some? && best.value <= x
      invariant best.Some? ==> (first.Some? && best.value == first.value) || best.value in scores
      decreases |rest|
    {
      NonEmpty(rest);
      var v :| v in rest;
      ghost var seen := scores - rest;
      if best.None? || v < best.value {
        best := Some(v);
      }
      rest := rest - {v};
      assert scores - rest == seen + {v};
    }
    assert rest == {} && scores - rest == scores;
    r := best.value;
  }

  /** A rows-by-columns matrix filled with v. */
  function Fill(rows: nat, cols: nat, v: int): (r: seq<seq<int>>)
    ensures |r| == rows && forall y :: 0 <= y < rows ==> |r[y]| == cols
    ensures forall c: Cell :: 0 <= c.y < rows && 0 <= c.x < cols ==> Get(r, c) == v
  {
    seq(rows, _ => seq(cols, _ => v))
  }

  /** Either corner reaches the other, or some wall borders both regions:
      otherwise line 153 takes the minimum of an empty list. */
  ghost predicate Escapable(g: Grid)
    requires IsGrid(g)
  {
    Reachable(g, Start(), End(g)) || Candidates(g) != {}
  }

  /** path lists exactly the cells reachable from s. */
  ghost predicate Explored(g: Grid, s: Cell, path: seq<Cell>)
    requires IsGrid(g)
  {
    (forall c :: InBounds(g, c) ==> (c in path <==> Reachable(g, s, c))) &&
    (forall c :: c in path ==> InBounds(g, c))
  }

  /** The forward search's count: present exactly when the exit is reachable,
      and then one more than the shortest distance to it. */
  ghost predicate Counted(g: Grid, count: Option<int>)
    requires IsGrid(g)
  {
    (count.Some? <==> Reachable(g, Start(), End(g))) &&
    (count.Some? ==> ShortestDist(g, Start(), End(g), count.value - 1))
  }

  /** Lines 100-117: the two searches, from each corner with every other cell
      at distance h * w. */
  method Searches(g: Grid) returns (scount: Option<int>, spath: seq<Cell>, Ds: seq<seq<int>>,
                                    epath: seq<Cell>, De: seq<seq<int>>)
    requires IsGrid(g)
    ensures ShortestMap(g, Start(), Ds, |g| * |g[0]|) && ShortestMap(g, End(g), De, |g| * |g[0]|)
    ensures Explored(g, Start(), spath) && Explored(g, End(g), epath) && Counted(g, scount)
  {
    var ecount;
    scount, spath, Ds := SearchFrom(g, Start(), End(g));
    ecount, epath, De := SearchFrom(g, End(g), Start());
  }

  /** One of the two searches: from corner s, every other cell starting at
      distance h * w. */
  method SearchFrom(g: Grid, s: Cell, e: Cell) returns (count: Option<int>, path: seq<Cell>, D: seq<seq<int>>)
    requires IsGrid(g) && InBounds(g, s) && InBounds(g, e)
    ensures ShortestMap(g, s, D, |g| * |g[0]|) && Explored(g, s, path)
    ensures count.Some? <==> Reachable(g, s, e)
    ensures count.Some? ==> ShortestDist(g, s, e, count.value - 1)
  {
    var infinity := |g[0]| * |g|;
    var D0 := Put(Fill(|g|, |g[0]|, infinity), s, 0);
    count, path, D := Solve(g, s, e, D0);
    SearchMap(g, s, path, D, D0, infinity);
  }

  /** The source's `solution`. The answer is never below the Manhattan bound
      h + w - 1, never above the shortest open route when there is one, and it
      is either that route or the best candidate wall's score. The distance
      maps of the two searches are returned as ghosts to state the scores. */
  method Solution(g: Grid) returns (r: int, ghost Ds: seq<seq<int>>, ghost De: seq<seq<int>>)
    requires IsGrid(g) && Open(g, Start()) && Escapable(g)
    ensures ShortestMap(g, Start(), Ds, |g| * |g[0]|) && ShortestMap(g, End(g), De, |g| * |g[0]|)
    ensures r >= |g| + |g[0]| - 1
    ensures forall d :: ShortestDist(g, Start(), End(g), d) ==> r <= d + 1
    ensures forall c :: c in Candidates(g) ==> NonWallNeighbours(g, c) != [] && r <= Score(g, Ds, De, c)
    ensures (exists d :: ShortestDist(g, Start(), End(g), d) && r == d + 1) ||
            exists c :: c in Candidates(g) && NonWallNeighbours(g, c) != [] && r == Score(g, Ds, De, c)
  {
    var scount, spath, ds, epath, de := Searches(g);
    Ds, De := ds, de;
    var common := WallsNear(g, spath);
    if scount.None? {
      common := common * WallsNear(g, epath);
    }
    CommonIsCandidates(g, scount, spath, epath, common);
    MapAtLeastManhattan(g, Start(), ds);
    MapAtLeastManhattan(g, End(g), de);
    r := Decide(g, scount, common, ds, de);
  }

  /** r is an answer for g: at least the Manhattan bound h + w - 1, at most
      the shortest open route plus one and every candidate wall's score, and
      equal to one of them. */
  ghost predicate Answers(g: Grid, Ds: seq<seq<int>>, De: seq<seq<int>>, r: int)
    requires IsGrid(g)
  {
    && r >= |g| + |g[0]| - 1
    && (forall d :: ShortestDist(g, Start(), End(g), d) ==> r <= d + 1)
    && (forall c :: c in Candidates(g) ==> NonWallNeighbours(g, c) != [] && r <= Score(g, Ds, De, c))
    && ((exists d :: ShortestDist(g, Start(), End(g), d) && r == d + 1) ||
        exists c :: c in Candidates(g) && NonWallNeighbours(g, c) != [] && r == Score(g, Ds, De, c))
  }

  /** Lines 133-153: answer with the forward count when it meets the lower
      bound, otherwise with the least of it and the candidate walls' scores. */
  method Decide(g: Grid, scount: Option<int>, common: set<Cell>, Ds: seq<seq<int>>, De: seq<seq<int>>)
    returns (r: int)
    requires IsGrid(g) && Open(g, Start()) && Escapable(g) && common == Candidates(g)
    requires AtLeastManhattan(g, Start(), Ds) && AtLeastManhattan(g, End(g), De)
    requires Counted(g, scount)
    ensures Answers(g, Ds, De, r)
  {
    if scount.Some? && scount.value == |g| + |g[0]| - 1 {
      r := scount.value;
      BoundMet(g, Ds, De, r - 1, r);
      return;
    }
    CandidatesAtLeast(g, Ds, De);
    var scoreOf := ScoreMap(g, Ds, De, common);
    r := BestOf(scount, scoreOf);
    BestAnswers(g, scount, Ds, De, scoreOf, r);
  }

  /** Lines 136-153: the least of the forward count and the scores is an
      answer meeting every bound. */
  lemma BestAnswers(g: Grid, scount: Option<int>, Ds: seq<seq<int>>, De: seq<seq<int>>, scoreOf: map<Cell, int>, r: int)
    requires IsGrid(g) && Counted(g, scount)
    requires forall c :: c in Candidates(g) ==> NonWallNeighbours(g, c) != [] && Score(g, Ds, De, c) >= |g| + |g[0]| - 1
    requires scoreOf.Keys == Candidates(g) && forall c :: c in Candidates(g) ==> scoreOf[c] == Score(g, Ds, De, c)
    requires scount.Some? ==> r <= scount.value
    requires forall c :: c in scoreOf ==> r <= scoreOf[c]
    requires (scount.Some? && r == scount.value) || exists c :: c in scoreOf && r == scoreOf[c]
    ensures Answers(g, Ds, De, r)
  {
    if scount.Some? {
      ForwardCount(g, scount.value - 1);
    }
    forall c | c in Candidates(g)
      ensures r <= Score(g, Ds, De, c)
    {
      assert c in scoreOf;
    }
    if !(scount.Some? && r == scount.value) {
      var c :| c in scoreOf && r == scoreOf[c];
      assert c in Candidates(g);
    }
  }

  /** Lines 133-135: a forward route of the least possible length h + w - 1
      is the answer. */
  lemma BoundMet(g: Grid, Ds: seq<seq<int>>, De: seq<seq<int>>, d: int, r: int)
    requires IsGrid(g) && Open(g, Start()) && ShortestDist(g, Start(), End(g), d)
    requires r == d + 1 == |g| + |g[0]| - 1
    requires AtLeastManhattan(g, Start(), Ds) && AtLeastManhattan(g, End(g), De)
    ensures Answers(g, Ds, De, r)
  {
    ForwardCount(g, d);
    CandidatesAtLeast(g, Ds, De);
  }

  /** Lines 141-149: the score of every wall in walls. */
  function ScoreMap(g: Grid, Ds: seq<seq<int>>, De: seq<seq<int>>, walls: set<Cell>): (r: map<Cell, int>)
    requires IsGrid(g) && forall c :: c in walls ==> NonWallNeighbours(g, c) != []
    ensures r.Keys == walls
    ensures forall c :: c in walls ==> r[c] == Score(g, Ds, De, c)
  {
    map c | c in walls :: Score(g, Ds, De, c)
  }

  /** Lines 151-153: the least of the forward count and the wall scores. */
  method BestOf(first: Option<int>, scoreOf: map<Cell, int>) returns (r: int)
    requires first.Some? || |scoreOf.Keys| > 0
    ensures first.Some? ==> r <= first.value
    ensures forall c :: c in scoreOf ==> r <= scoreOf[c]
    ensures (first.Some? && r == first.value) || exists c :: c in scoreOf && r == scoreOf[c]
  {
    var scores := scoreOf.Values;
    if first.None? {
      NonEmptyCells(scoreOf.Keys);
      var c :| c in scoreOf.Keys;
      assert scoreOf[c] in scores;
    }
    r := Least(first, scores);
    forall c | c in scoreOf
      ensures r <= scoreOf[c]
    {
      assert scoreOf[c] in scores;
    }
  }

  /** Lines 122-132: the walls the source scores are exactly the candidates. */
  lemma CommonIsCandidates(g: Grid, scount: Option<int>, spath: seq<Cell>, epath: seq<Cell>, common: set<Cell>)
    requires IsGrid(g)
    requires Explored(g, Start(), spath) && Explored(g, End(g), epath) && Counted(g, scount)
    requires common == if scount.None? then WallsNear(g, spath) * WallsNear(g, epath) else WallsNear(g, spath)
    ensures common == Candidates(g)
  {
    WallsNearRegion(g, Start(), spath);
    WallsNearRegion(g, End(g), epath);
  }

  lemma CandidatesAtLeast(g: Grid, Ds: seq<seq<int>>, De: seq<seq<int>>)
    requires IsGrid(g) && Open(g, Start())
    requires AtLeastManhattan(g, Start(), Ds) && AtLeastManhattan(g, End(g), De)
    ensures forall c :: c in Candidates(g) ==> NonWallNeighbours(g, c) != [] && Score(g, Ds, De, c) >= |g| + |g[0]| - 1
  {
    CandidatesScorable(g);
    forall c | c in Candidates(g)
      ensures Score(g, Ds, De, c) >= |g| + |g[0]| - 1
    {
      ScoreAtLeast(g, Ds, De, c);
    }
  }

  /** The shortest route between the corners is unique and at least h + w - 1 cells. */
  lemma ForwardCount(g: Grid, d: int)
    requires IsGrid(g) && ShortestDist(g, Start(), End(g), d)
    ensures d + 1 >= |g| + |g[0]| - 1
    ensures forall d' :: ShortestDist(g, Start(), End(g), d') ==> d' == d
  {
    var p :| IsWalk(g, Start(), p) && p[|p| - 1] == End(g) && |p| == d + 1;
    WalkManhattan(g, Start(), p);
    forall d' | ShortestDist(g, Start(), End(g), d')
      ensures d' == d
    {
      ShortestUnique(g, Start(), End(g), d, d');
    }
  }

  /** A finished search's distance map, started from inf everywhere but s. */
  lemma SearchMap(g: Grid, s: Cell, path: seq<Cell>, D: seq<seq<int>>, D0: seq<seq<int>>, inf: int)
    requires IsGrid(g) && InBounds(g, s) && IsDistMap(g, D)
    requires forall c :: InBounds(g, c) && c != s ==> Get(D0, c) == inf
    requires forall c :: InBounds(g, c) ==> (c in path <==> Reachable(g, s, c))
    requires forall c :: c in path ==> InBounds(g, c) && ShortestDist(g, s, c, Get(D, c))
    requires forall c :: InBounds(g, c) && c !in path ==> Get(D, c) == Get(D0, c)
    ensures ShortestMap(g, s, D, inf)
  {
    assert IsWalk(g, s, [s]);
    assert Reachable(g, s, s);
    forall c | InBounds(g, c) && Reachable(g, s, c)
      ensures ShortestDist(g, s, c, Get(D, c))
    {
      assert c in path;
    }
    forall c | InBounds(g, c) && !Reachable(g, s, c)
      ensures Get(D, c) == inf
    {
      assert c !in path && c != s;
    }
  }

  /** Every candidate wall borders an open cell of the start's region, so the
      neighbour list of line 142 is never empty. */
  lemma CandidatesScorable(g: Grid)
    requires IsGrid(g) && Open(g, Start())
    ensures forall c :: c in Candidates(g) ==> NonWallNeighbours(g, c) != []
  {
    forall c | c in Candidates(g)
      ensures NonWallNeighbours(g, c) != []
    {
      var a :| InBounds(g, a) && Reachable(g, Start(), a) && Adjacent(a, c);
      var p :| IsWalk(g, Start(), p) && p[|p| - 1] == a;
      assert Open(g, a);
      assert a in NonWallNeighbours(g, c);
    }
  }
}

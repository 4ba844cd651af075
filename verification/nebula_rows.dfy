/** Expanding nebula, one row at a time: every previous state of a single
    nebula row of w cells is a strip of two boundary rows of w + 1 bits. The
    source enumerates the strips with a stack of partial strips (`solBFS`)
    and files each complete one under the ids of its two boundary rows
    (`RowSolution.add`). */
module NebulaRows {
  import opened Arith
  import opened NebulaRule
  import opened NebulaIds
  import opened NebulaSums

  /** The source's `pg`: the upper row `pg[0]` and the lower row `pg[1]`. */
  datatype Strip = Strip(up: seq<int>, lo: seq<int>)

  /** A stack entry `(pg, j, value)`: columns 0..j of pg are fixed and value
      is the sum of column j. */
  datatype Item = Item(pg: Strip, j: int, value: int)

  predicate WindowAt(row: seq<int>, s: Strip, i: int)
    requires 0 <= i < |row| && i + 1 < |s.up| && i + 1 < |s.lo|
  {
    Window(row[i], s.up[i], s.up[i + 1], s.lo[i], s.lo[i + 1])
  }

  /** s is a previous state of row: two bit rows of length |row| + 1 whose
      window at each column i produces row[i]. */
  predicate StripOK(row: seq<int>, s: Strip)
  {
    |s.up| == |row| + 1 && |s.lo| == |row| + 1 && IsBits(s.up) && IsBits(s.lo) &&
    forall i :: 0 <= i < |row| ==> WindowAt(row, s, i)
  }

  /** The shape every stack entry has, enough to run the search. */
  predicate Shaped(row: seq<int>, it: Item)
  {
    IsBits(row) && 1 <= it.j <= |row| && |it.pg.up| == it.j + 1 && |it.pg.lo| == it.j + 1 &&
    0 <= it.value <= 2
  }

  predicate ShapedAll(row: seq<int>, stack: seq<Item>)
  {
    forall k :: 0 <= k < |stack| ==> Shaped(row, stack[k])
  }

  /** A consistent partial strip: bits, value is the sum of column j, and each
      window left of column j produces its cell. */
  predicate ItemOK(row: seq<int>, it: Item)
  {
    Shaped(row, it) && IsBits(it.pg.up) && IsBits(it.pg.lo) &&
    it.value == it.pg.up[it.j] + it.pg.lo[it.j] &&
    forall i :: 0 <= i < it.j ==> WindowAt(row, it.pg, i)
  }

  /** The complete strip s extends the partial strip it. */
  predicate Completes(row: seq<int>, it: Item, s: Strip)
  {
    StripOK(row, s) && 0 <= it.j <= |row| && s.up[..it.j + 1] == it.pg.up && s.lo[..it.j + 1] == it.pg.lo
  }

  predicate OptsOK(opts: seq<(int, int)>)
  {
    forall k :: 0 <= k < |opts| ==> IsBit(opts[k].0) && IsBit(opts[k].1)
  }

  /** Lines 292-295: it extended by the column (a, b). */
  function Child(it: Item, a: int, b: int): Item
  {
    Item(Strip(it.pg.up + [a], it.pg.lo + [b]), it.j + 1, a + b)
  }

  /** The entries pushed for it, one per option, in the options' order. */
  function Pushes(it: Item, opts: seq<(int, int)>): (r: seq<Item>)
    ensures |r| == |opts| && forall k :: 0 <= k < |opts| ==> r[k] == Child(it, opts[k].0, opts[k].1)
  {
    if opts == [] then [] else Pushes(it, opts[..|opts| - 1]) + [Child(it, opts[|opts| - 1].0, opts[|opts| - 1].1)]
  }

  /** Lines 271-279: the seed entries, one per window under the first cell. */
  function Seeds(row: seq<int>): (r: seq<Item>)
    requires IsBits(row) && |row| >= 1
  {
    var ws := FirstMoveOptions(row[0]);
    seq(|ws|, k requires 0 <= k < |ws| => Item(Strip([ws[k].0, ws[k].1], [ws[k].2, ws[k].3]), 1, ws[k].1 + ws[k].3))
  }

  /** 1 when the rows with ids u and v (of |row| + 1 bits each) are, as upper
      and lower row, a previous state of row, and 0 otherwise. */
  function Link(row: seq<int>, u: int, v: int): int
  {
    var n := |row| + 1;
    if 0 <= u < Pow(2, n) && 0 <= v < Pow(2, n) && StripOK(row, Strip(RowOf(n, u), RowOf(n, v))) then 1 else 0
  }

  /** Link as a function of the upper id, for a fixed lower id v. */
  function LinkTo(row: seq<int>, v: int): int -> int
  {
    u => Link(row, u, v)
  }

  // ---------------------------------------------------------------------
  // What the search adds, in order

  /** The complete strips the search reaches from it, in the order it adds them. */
  function Ext(row: seq<int>, it: Item): seq<Strip>
    requires Shaped(row, it)
    decreases |row| - it.j, 1, 0
  {
    if it.j >= |row| then [it.pg] else ExtOpts(row, it, MoveOptions(row[it.j], it.value))
  }

  /** The strips reached through the children of it for opts, last option first
      (the stack pops the last pushed child first). */
  function ExtOpts(row: seq<int>, it: Item, opts: seq<(int, int)>): seq<Strip>
    requires Shaped(row, it) && it.j < |row| && OptsOK(opts)
    decreases |row| - it.j, 0, |opts|
  {
    if opts == [] then []
    else
      var o := opts[|opts| - 1];
      Ext(row, Child(it, o.0, o.1)) + ExtOpts(row, it, opts[..|opts| - 1])
  }

  /** The strips reached from a whole stack, top entry first. */
  function Out(row: seq<int>, stack: seq<Item>): seq<Strip>
    requires ShapedAll(row, stack)
  {
    if stack == [] then [] else Ext(row, stack[|stack| - 1]) + Out(row, stack[..|stack| - 1])
  }

  /** The number of entries the search will pop from it, it included. */
  ghost function Size(row: seq<int>, it: Item): nat
    requires Shaped(row, it)
    decreases |row| - it.j, 1, 0
  {
    if it.j >= |row| then 1 else 1 + SizeOpts(row, it, MoveOptions(row[it.j], it.value))
  }

  ghost function SizeOpts(row: seq<int>, it: Item, opts: seq<(int, int)>): nat
    requires Shaped(row, it) && it.j < |row| && OptsOK(opts)
    decreases |row| - it.j, 0, |opts|
  {
    if opts == [] then 0
    else
      var o := opts[|opts| - 1];
      Size(row, Child(it, o.0, o.1)) + SizeOpts(row, it, opts[..|opts| - 1])
  }

  ghost function StackSize(row: seq<int>, stack: seq<Item>): nat
    requires ShapedAll(row, stack)
  {
    if stack == [] then 0 else Size(row, stack[|stack| - 1]) + StackSize(row, stack[..|stack| - 1])
  }

  lemma {:induction false} StackSizeAppend(row: seq<int>, a: seq<Item>, b: seq<Item>)
    requires ShapedAll(row, a) && ShapedAll(row, b)
    ensures ShapedAll(row, a + b) && StackSize(row, a + b) == StackSize(row, a) + StackSize(row, b)
  {
    assert forall k :: 0 <= k < |a + b| ==> (a + b)[k] == if k < |a| then a[k] else b[k - |a|];
    if b == [] {
      assert a + b == a;
    } else {
      var b' := b[..|b| - 1];
      assert (a + b)[..|a + b| - 1] == a + b';
      assert (a + b)[|a + b| - 1] == b[|b| - 1];
      StackSizeAppend(row, a, b');
    }
  }

  lemma {:induction false} StackSizePushes(row: seq<int>, it: Item, opts: seq<(int, int)>)
    requires Shaped(row, it) && it.j < |row| && OptsOK(opts)
    ensures ShapedAll(row, Pushes(it, opts)) && StackSize(row, Pushes(it, opts)) == SizeOpts(row, it, opts)
  {
    if opts != [] {
      StackSizePushes(row, it, opts[..|opts| - 1]);
    }
  }

  // ---------------------------------------------------------------------
  // The row's solution record

  /** The source's `RowSolution`: upper id to the lower ids filed under it,
      lower id to the upper ids, and the two id sets. */
  datatype RowSolution = RowSolution(upperIDs: map<int, seq<int>>, bottomIDs: map<int, seq<int>>,
                                     upperSet: set<int>, bottomSet: set<int>)

  /** Lines 202-210. */
  function EmptyRow(): RowSolution
  {
    RowSolution(map[], map[], {}, {})
  }

  /** Lines 231-257: file the strip s under the ids of its two rows. */
  function Add(rs: RowSolution, s: Strip): RowSolution
  {
    var u, b := Id(s.up), Id(s.lo);
    RowSolution(
      rs.upperIDs[u := if u in rs.upperIDs then rs.upperIDs[u] + [b] else [b]],
      rs.bottomIDs[b := if b in rs.bottomIDs then rs.bottomIDs[b] + [u] else [u]],
      rs.upperSet + {u},
      rs.bottomSet + {b})
  }

  /** Adds the strips of ss in order. */
  function AddAll(rs: RowSolution, ss: seq<Strip>): RowSolution
    decreases |ss|
  {
    if ss == [] then rs else AddAll(Add(rs, ss[0]), ss[1..])
  }

  /** Lines 281-297: the search loop. The top entry is popped; a complete strip
      is added, a partial one is replaced by one child per admissible column. */
  function Drain(row: seq<int>, stack: seq<Item>, rs: RowSolution): RowSolution
    requires ShapedAll(row, stack)
    decreases StackSize(row, stack)
  {
    if stack == [] then rs
    else
      var it, rest := stack[|stack| - 1], stack[..|stack| - 1];
      if it.j >= |row| then
        Drain(row, rest, Add(rs, it.pg))
      else
        var opts := MoveOptions(row[it.j], it.value);
        StackSizePushes(row, it, opts);
        StackSizeAppend(row, rest, Pushes(it, opts));
        Drain(row, rest + Pushes(it, opts), rs)
  }

  /** Lines 260-297: `solBFS`, every previous state of one nebula row. */
  function SolBFS(row: seq<int>): RowSolution
    requires IsBits(row) && |row| >= 1
  {
    Drain(row, Seeds(row), EmptyRow())
  }

  /** The strips `solBFS` adds, in the order it adds them. */
  ghost function Strips(row: seq<int>): seq<Strip>
    requires IsBits(row) && |row| >= 1
  {
    Out(row, Seeds(row))
  }

  // ---------------------------------------------------------------------
  // The search adds exactly what Out lists

  lemma {:induction false} OutAppend(row: seq<int>, a: seq<Item>, b: seq<Item>)
    requires ShapedAll(row, a) && ShapedAll(row, b)
    ensures ShapedAll(row, a + b) && Out(row, a + b) == Out(row, b) + Out(row, a)
  {
    assert forall k :: 0 <= k < |a + b| ==> (a + b)[k] == if k < |a| then a[k] else b[k - |a|];
    if b == [] {
      assert a + b == a;
    } else {
      var b' := b[..|b| - 1];
      assert (a + b)[..|a + b| - 1] == a + b';
      assert (a + b)[|a + b| - 1] == b[|b| - 1];
      OutAppend(row, a, b');
    }
  }

  lemma {:induction false} OutPushes(row: seq<int>, it: Item, opts: seq<(int, int)>)
    requires Shaped(row, it) && it.j < |row| && OptsOK(opts)
    ensures ShapedAll(row, Pushes(it, opts)) && Out(row, Pushes(it, opts)) == ExtOpts(row, it, opts)
  {
    if opts != [] {
      OutPushes(row, it, opts[..|opts| - 1]);
    }
  }

  lemma {:induction false} AddAllAppend(rs: RowSolution, a: seq<Strip>, b: seq<Strip>)
    ensures AddAll(rs, a + b) == AddAll(AddAll(rs, a), b)
    decreases |a|
  {
    if a == [] {
      assert a + b == b;
    } else {
      assert (a + b)[0] == a[0] && (a + b)[1..] == a[1..] + b;
      AddAllAppend(Add(rs, a[0]), a[1..], b);
    }
  }

  /** Popping from the stack adds, in order, exactly the strips Out lists. */
  lemma {:induction false} DrainAddsOut(row: seq<int>, stack: seq<Item>, rs: RowSolution)
    requires ShapedAll(row, stack)
    ensures Drain(row, stack, rs) == AddAll(rs, Out(row, stack))
    decreases StackSize(row, stack)
  {
    if stack != [] {
      var it, rest := stack[|stack| - 1], stack[..|stack| - 1];
      if it.j >= |row| {
        DrainAddsOut(row, rest, Add(rs, it.pg));
        assert ([it.pg] + Out(row, rest))[1..] == Out(row, rest);
      } else {
        var opts := MoveOptions(row[it.j], it.value);
        StackSizePushes(row, it, opts);
        StackSizeAppend(row, rest, Pushes(it, opts));
        DrainAddsOut(row, rest + Pushes(it, opts), rs);
        OutAppend(row, rest, Pushes(it, opts));
        OutPushes(row, it, opts);
      }
    }
  }

  // ---------------------------------------------------------------------
  // Out lists every previous state once

  lemma DistinctAppend<T>(a: seq<T>, b: seq<T>)
    requires Distinct(a) && Distinct(b) && forall x :: x in a ==> x !in b
    ensures Distinct(a + b)
  {
    forall i, k | 0 <= i < k < |a + b|
      ensures (a + b)[i] != (a + b)[k]
    {
      if i < |a| && k >= |a| {
        assert (a + b)[i] in a && (a + b)[k] == b[k - |a|];
      }
    }
  }

  /** Extending a consistent partial strip by an admissible column keeps it
      consistent. */
  lemma ChildOK(row: seq<int>, it: Item, a: int, b: int)
    requires ItemOK(row, it) && it.j < |row| && IsBit(a) && IsBit(b) && Extends(row[it.j], it.value, a, b)
    ensures ItemOK(row, Child(it, a, b))
  {
    var c := Child(it, a, b);
    forall i | 0 <= i < c.j
      ensures WindowAt(row, c.pg, i)
    {
      if i < it.j {
        assert WindowAt(row, it.pg, i);
      }
    }
  }

  lemma CompletesChild(row: seq<int>, it: Item, a: int, b: int, s: Strip)
    requires ItemOK(row, it) && it.j < |row| && IsBit(a) && IsBit(b)
    ensures Completes(row, Child(it, a, b), s) <==>
            Completes(row, it, s) && s.up[it.j + 1] == a && s.lo[it.j + 1] == b
  {
    var j := it.j;
    if StripOK(row, s) {
      assert s.up[..j + 2] == s.up[..j + 1] + [s.up[j + 1]];
      assert s.lo[..j + 2] == s.lo[..j + 1] + [s.lo[j + 1]];
    }
  }

  /** The strips reached from a consistent partial strip are exactly its
      completions, each once. */
  lemma {:induction false} ExtExact(row: seq<int>, it: Item)
    requires ItemOK(row, it)
    ensures Distinct(Ext(row, it))
    ensures forall s :: s in Ext(row, it) <==> Completes(row, it, s)
    decreases |row| - it.j, 1
  {
    if it.j >= |row| {
      forall s | Completes(row, it, s)
        ensures s == it.pg
      {
        assert s.up == s.up[..it.j + 1] && s.lo == s.lo[..it.j + 1];
      }
      assert it.pg.up[..it.j + 1] == it.pg.up && it.pg.lo[..it.j + 1] == it.pg.lo;
    } else {
      var opts := MoveOptions(row[it.j], it.value);
      MoveOptionsExact(row[it.j], it.value);
      ExtOptsExact(row, it, opts);
      forall s
        ensures s in Ext(row, it) <==> Completes(row, it, s)
      {
        ExtMember(row, it, s);
      }
    }
  }

  /** The next column of a completion is one of the moves the search tries. */
  lemma NextColumnListed(row: seq<int>, it: Item, s: Strip)
    requires ItemOK(row, it) && it.j < |row| && Completes(row, it, s)
    ensures (s.up[it.j + 1], s.lo[it.j + 1]) in MoveOptions(row[it.j], it.value)
  {
    var j := it.j;
    assert s.up[j] == s.up[..j + 1][j] && s.lo[j] == s.lo[..j + 1][j];
    assert WindowAt(row, s, j);
    MoveListed(row[j], it.value, s.up[j + 1], s.lo[j + 1]);
  }

  /** A completion of a partial strip completes the child for its next column. */
  lemma ExtMember(row: seq<int>, it: Item, s: Strip)
    requires ItemOK(row, it) && it.j < |row|
    requires forall s :: s in Ext(row, it) <==> CompletesSome(row, it, MoveOptions(row[it.j], it.value), s)
    ensures s in Ext(row, it) <==> Completes(row, it, s)
  {
    var j := it.j;
    var opts := MoveOptions(row[j], it.value);
    if Completes(row, it, s) {
      var a, b := s.up[j + 1], s.lo[j + 1];
      NextColumnListed(row, it, s);
      var k :| 0 <= k < |opts| && opts[k] == (a, b);
      CompletesChild(row, it, a, b, s);
    }
    if s in Ext(row, it) {
      var k :| 0 <= k < |opts| && Completes(row, Child(it, opts[k].0, opts[k].1), s);
      CompletesChild(row, it, opts[k].0, opts[k].1, s);
    }
  }

  lemma {:induction false} ExtOptsExact(row: seq<int>, it: Item, opts: seq<(int, int)>)
    requires ItemOK(row, it) && it.j < |row| && OptsOK(opts) && Distinct(opts)
    requires forall k :: 0 <= k < |opts| ==> Extends(row[it.j], it.value, opts[k].0, opts[k].1)
    ensures Distinct(ExtOpts(row, it, opts))
    ensures forall s :: s in ExtOpts(row, it, opts) <==> CompletesSome(row, it, opts, s)
    decreases |row| - it.j, 0, |opts|
  {
    if opts != [] {
      var n := |opts|;
      var o, init := opts[n - 1], opts[..n - 1];
      var c := Child(it, o.0, o.1);
      ChildOK(row, it, o.0, o.1);
      ExtExact(row, c);
      ExtOptsExact(row, it, init);
      ChildrenSeparate(row, it, opts);
      forall s | s in Ext(row, c)
        ensures s !in ExtOpts(row, it, init)
      {
        forall k | 0 <= k < |init|
          ensures !Completes(row, Child(it, init[k].0, init[k].1), s)
        {
          assert init[k] == opts[k];
        }
      }
      DistinctAppend(Ext(row, c), ExtOpts(row, it, init));
      assert opts == init + [o];
      ExtOptsMembers(row, it, init, o);
    }
  }

  /** No strip completes the children of two different columns. */
  lemma ChildrenSeparate(row: seq<int>, it: Item, opts: seq<(int, int)>)
    requires ItemOK(row, it) && it.j < |row| && OptsOK(opts) && Distinct(opts)
    ensures forall k1, k2, s :: 0 <= k1 < k2 < |opts| && Completes(row, Child(it, opts[k1].0, opts[k1].1), s) ==>
              !Completes(row, Child(it, opts[k2].0, opts[k2].1), s)
  {
    forall k1, k2, s | 0 <= k1 < k2 < |opts| && Completes(row, Child(it, opts[k1].0, opts[k1].1), s)
      ensures !Completes(row, Child(it, opts[k2].0, opts[k2].1), s)
    {
      CompletesChild(row, it, opts[k1].0, opts[k1].1, s);
      CompletesChild(row, it, opts[k2].0, opts[k2].1, s);
      assert opts[k1] != opts[k2];
    }
  }

  /** s completes the child of it for one of the columns in opts. */
  ghost predicate CompletesSome(row: seq<int>, it: Item, opts: seq<(int, int)>, s: Strip)
    requires Shaped(row, it) && it.j < |row| && OptsOK(opts)
  {
    exists k :: 0 <= k < |opts| && Completes(row, Child(it, opts[k].0, opts[k].1), s)
  }

  /** One step of ExtOptsExact's membership: the last option or an earlier one. */
  lemma ExtOptsMembers(row: seq<int>, it: Item, init: seq<(int, int)>, o: (int, int))
    requires Shaped(row, it) && it.j < |row| && OptsOK(init) && IsBit(o.0) && IsBit(o.1) && OptsOK(init + [o])
    requires forall s :: s in Ext(row, Child(it, o.0, o.1)) <==> Completes(row, Child(it, o.0, o.1), s)
    requires forall s :: s in ExtOpts(row, it, init) <==> CompletesSome(row, it, init, s)
    ensures forall s :: s in ExtOpts(row, it, init + [o]) <==> CompletesSome(row, it, init + [o], s)
  {
    var opts := init + [o];
    assert opts[..|opts| - 1] == init && opts[|opts| - 1] == o;
    forall s
      ensures s in ExtOpts(row, it, opts) <==> CompletesSome(row, it, opts, s)
    {
      ExtOptsMember(row, it, init, o, s);
    }
  }

  lemma ExtOptsMember(row: seq<int>, it: Item, init: seq<(int, int)>, o: (int, int), s: Strip)
    requires Shaped(row, it) && it.j < |row| && OptsOK(init) && IsBit(o.0) && IsBit(o.1) && OptsOK(init + [o])
    requires ExtOpts(row, it, init + [o]) == Ext(row, Child(it, o.0, o.1)) + ExtOpts(row, it, init)
    requires s in Ext(row, Child(it, o.0, o.1)) <==> Completes(row, Child(it, o.0, o.1), s)
    requires s in ExtOpts(row, it, init) <==> CompletesSome(row, it, init, s)
    ensures s in ExtOpts(row, it, init + [o]) <==> CompletesSome(row, it, init + [o], s)
  {
    var opts := init + [o];
    if CompletesSome(row, it, opts, s) {
      var k :| 0 <= k < |opts| && Completes(row, Child(it, opts[k].0, opts[k].1), s);
      if k < |init| {
        assert opts[k] == init[k];
      }
    }
    if CompletesSome(row, it, init, s) {
      var k :| 0 <= k < |init| && Completes(row, Child(it, init[k].0, init[k].1), s);
      assert opts[k] == init[k];
    }
  }

  /** Out over a stack of consistent entries lists the completions of its
      entries; when no strip completes two entries, each once. */
  lemma {:induction false} OutExact(row: seq<int>, stack: seq<Item>)
    requires ShapedAll(row, stack) && forall k :: 0 <= k < |stack| ==> ItemOK(row, stack[k])
    requires Separate(row, stack)
    ensures Distinct(Out(row, stack))
    ensures forall s :: s in Out(row, stack) <==> CompletesAny(row, stack, s)
  {
    if stack != [] {
      var n := |stack|;
      var it, rest := stack[n - 1], stack[..n - 1];
      ExtExact(row, it);
      OutExact(row, rest);
      forall s | s in Ext(row, it)
        ensures s !in Out(row, rest)
      {
        forall k | 0 <= k < |rest|
          ensures !Completes(row, rest[k], s)
        {
          assert rest[k] == stack[k];
        }
      }
      DistinctAppend(Ext(row, it), Out(row, rest));
      assert stack == rest + [it];
      OutMembers(row, rest, it);
    }
  }

  /** s completes some entry of the stack. */
  ghost predicate CompletesAny(row: seq<int>, stack: seq<Item>, s: Strip)
    requires ShapedAll(row, stack)
  {
    exists k :: 0 <= k < |stack| && Completes(row, stack[k], s)
  }

  /** The step of OutExact's membership: the top entry or one below it. */
  lemma OutMembers(row: seq<int>, rest: seq<Item>, it: Item)
    requires ShapedAll(row, rest) && Shaped(row, it) && ShapedAll(row, rest + [it])
    requires forall s :: s in Ext(row, it) <==> Completes(row, it, s)
    requires forall s :: s in Out(row, rest) <==> CompletesAny(row, rest, s)
    ensures forall s :: s in Out(row, rest + [it]) <==> CompletesAny(row, rest + [it], s)
  {
    var stack := rest + [it];
    assert stack[..|rest|] == rest && stack[|rest|] == it;
    forall s
      ensures s in Out(row, stack) <==> CompletesAny(row, stack, s)
    {
      OutMember(row, rest, it, s);
    }
  }

  lemma OutMember(row: seq<int>, rest: seq<Item>, it: Item, s: Strip)
    requires ShapedAll(row, rest) && Shaped(row, it) && ShapedAll(row, rest + [it])
    requires Out(row, rest + [it]) == Ext(row, it) + Out(row, rest)
    requires s in Ext(row, it) <==> Completes(row, it, s)
    requires s in Out(row, rest) <==> CompletesAny(row, rest, s)
    ensures s in Out(row, rest + [it]) <==> CompletesAny(row, rest + [it], s)
  {
    var stack := rest + [it];
    if CompletesAny(row, stack, s) {
      var k :| 0 <= k < |stack| && Completes(row, stack[k], s);
      if k < |rest| {
        assert stack[k] == rest[k];
      }
    }
    if CompletesAny(row, rest, s) {
      var k :| 0 <= k < |rest| && Completes(row, rest[k], s);
      assert stack[k] == rest[k];
    }
  }

  /** No strip completes two entries of the stack. */
  ghost predicate Separate(row: seq<int>, stack: seq<Item>)
    requires ShapedAll(row, stack)
  {
    forall k1, k2, s :: 0 <= k1 < k2 < |stack| && Completes(row, stack[k1], s) ==> !Completes(row, stack[k2], s)
  }

  /** The seed entries are consistent partial strips. */
  lemma SeedsOK(row: seq<int>)
    requires IsBits(row) && |row| >= 1
    ensures ShapedAll(row, Seeds(row))
    ensures forall k :: 0 <= k < |Seeds(row)| ==> ItemOK(row, Seeds(row)[k])
  {
    var seeds := Seeds(row);
    forall k | 0 <= k < |seeds|
      ensures ItemOK(row, seeds[k])
    {
      assert WindowAt(row, seeds[k].pg, 0);
    }
  }

  /** A strip completes the seed of its own first window, and no other. */
  lemma SeedsCover(row: seq<int>, s: Strip)
    requires IsBits(row) && |row| >= 1 && StripOK(row, s)
    ensures ShapedAll(row, Seeds(row))
    ensures exists k :: 0 <= k < |Seeds(row)| && Completes(row, Seeds(row)[k], s)
  {
    SeedsOK(row);
    var seeds, ws := Seeds(row), FirstMoveOptions(row[0]);
    assert WindowAt(row, s, 0);
    var w := (s.up[0], s.up[1], s.lo[0], s.lo[1]);
    SeedListed(row[0], w.0, w.1, w.2, w.3);
    var k :| 0 <= k < |ws| && ws[k] == w;
    assert s.up[..2] == [s.up[0], s.up[1]] && s.lo[..2] == [s.lo[0], s.lo[1]];
    assert Completes(row, seeds[k], s);
  }

  lemma SeedsSeparate(row: seq<int>)
    requires IsBits(row) && |row| >= 1
    ensures ShapedAll(row, Seeds(row)) && Separate(row, Seeds(row))
  {
    SeedsOK(row);
    var seeds, ws := Seeds(row), FirstMoveOptions(row[0]);
    SeedsDistinct(row[0]);
    forall k1, k2, s | 0 <= k1 < k2 < |seeds| && Completes(row, seeds[k1], s)
      ensures !Completes(row, seeds[k2], s)
    {
      assert s.up[..2] == [s.up[0], s.up[1]] && s.lo[..2] == [s.lo[0], s.lo[1]];
      assert seeds[k1].pg.up == [ws[k1].0, ws[k1].1] && seeds[k1].pg.lo == [ws[k1].2, ws[k1].3];
      assert seeds[k2].pg.up == [ws[k2].0, ws[k2].1] && seeds[k2].pg.lo == [ws[k2].2, ws[k2].3];
      assert ws[k1] != ws[k2];
    }
  }

  /** Lines 260-297: `solBFS` finds every previous state of the row, once each,
      and nothing else. */
  lemma StripsExact(row: seq<int>)
    requires IsBits(row) && |row| >= 1
    ensures Distinct(Strips(row))
    ensures forall s :: s in Strips(row) <==> StripOK(row, s)
  {
    SeedsOK(row);
    SeedsSeparate(row);
    OutExact(row, Seeds(row));
    forall s | StripOK(row, s)
      ensures s in Strips(row)
    {
      SeedsCover(row, s);
    }
  }

  /** With one cell per row every seed is already complete: the row has as
      many previous states as the seed table lists. */
  lemma SingleCellStrips(row: seq<int>)
    requires IsBits(row) && |row| == 1
    ensures |Strips(row)| == |FirstMoveOptions(row[0])|
  {
    OutComplete(row, Seeds(row));
  }

  lemma {:induction false} OutComplete(row: seq<int>, stack: seq<Item>)
    requires ShapedAll(row, stack) && forall k :: 0 <= k < |stack| ==> stack[k].j >= |row|
    ensures |Out(row, stack)| == |stack|
  {
    if stack != [] {
      OutComplete(row, stack[..|stack| - 1]);
    }
  }
}

/** Find the access code: count the "lucky triples" of a list, index triples
    i < j < k with l[i] dividing l[j] and l[j] dividing l[k]. The solution
    first tabulates every remainder l[j] % l[i] for i < j (the mod matrix) and
    the list of later entries each entry divides (the mod lists), then adds,
    for every pair (i, j) in the mod lists, the length of j's mod list. */
module AccessCode {
  import opened Arith

  /** The source takes l[j] % l[i] for every i < j, so every entry but the last
      must be nonzero (Python raises on a zero divisor). */
  predicate NonZeroDivisors(l: seq<int>)
  {
    forall i :: 0 <= i < |l| - 1 ==> l[i] != 0
  }

  /** Python's `%`: the remainder takes the sign of the divisor. */
  function PyMod(a: int, b: int): (r: int)
    requires b != 0
    ensures b > 0 ==> 0 <= r < b
    ensures b < 0 ==> b < r <= 0
  {
    if b > 0 || a % b == 0 then a % b else a % b + b
  }

  lemma ModOfMultiple(b: int, q: int)
    requires b != 0
    ensures Divides(b, b * q)
  {
    var n := b * q;
    var z := q - n / b;
    assert n == b * (n / b) + n % b;
    assert b * z == n % b;
    var d := if b > 0 then b else -b;
    var w := if b > 0 then z else -z;
    assert d * w == b * z;
    if w >= 1 {
      MulAtLeast(d, w);
    } else if w <= -1 {
      MulAtLeast(d, -w);
    }
  }

  /** PyMod is a remainder: a minus it is a multiple of b. Together with the sign
      bounds this is what Python promises of `%`. */
  lemma PyModIsRemainder(a: int, b: int)
    requires b != 0
    ensures Divides(b, a - PyMod(a, b))
    ensures PyMod(a, b) == 0 <==> Divides(b, a)
  {
    if b > 0 || a % b == 0 {
      assert a - a % b == b * (a / b);
      ModOfMultiple(b, a / b);
    } else {
      assert a - (a % b + b) == b * (a / b - 1);
      ModOfMultiple(b, a / b - 1);
    }
  }

  /** A lucky triple of positions. */
  predicate Lucky(l: seq<int>, i: int, j: int, k: int)
    requires NonZeroDivisors(l)
  {
    0 <= i < j < k < |l| && Divides(l[i], l[j]) && Divides(l[j], l[k])
  }

  /** Every lucky triple, the quantity the solution counts. */
  function Triples(l: seq<int>): set<(int, int, int)>
    requires NonZeroDivisors(l)
  {
    set i, j, k | 0 <= i < j < k < |l| && Lucky(l, i, j, k) :: (i, j, k)
  }

  /** The mod list of entry i restricted to positions from `from` on: the pairs
      (j, l[j]) with l[i] dividing l[j], in increasing order of j. */
  function Multiples(l: seq<int>, i: int, from: int): (r: seq<(int, int)>)
    requires NonZeroDivisors(l) && 0 <= i < from <= |l|
    ensures forall a :: 0 <= a < |r| ==> from <= r[a].0 < |l|
    ensures forall a, b :: 0 <= a < b < |r| ==> r[a].0 < r[b].0
    decreases |l| - from
  {
    if from == |l| then []
    else if Divides(l[i], l[from]) then [(from, l[from])] + Multiples(l, i, from + 1)
    else Multiples(l, i, from + 1)
  }

  /** The mod list holds only later entries that l[i] divides, paired with their positions. */
  lemma {:induction false} MultiplesSound(l: seq<int>, i: int, from: int)
    requires NonZeroDivisors(l) && 0 <= i < from <= |l|
    ensures forall p :: p in Multiples(l, i, from) ==>
              from <= p.0 < |l| && p.1 == l[p.0] && Divides(l[i], p.1)
    decreases |l| - from
  {
    if from < |l| {
      MultiplesSound(l, i, from + 1);
    }
  }

  /** The mod list misses no later multiple. */
  lemma {:induction false} MultiplesComplete(l: seq<int>, i: int, from: int, j: int)
    requires NonZeroDivisors(l) && 0 <= i < from <= j < |l| && Divides(l[i], l[j])
    ensures (j, l[j]) in Multiples(l, i, from)
    decreases |l| - from
  {
    var ms := Multiples(l, i, from);
    if from < j {
      MultiplesComplete(l, i, from + 1, j);
      var tail := Multiples(l, i, from + 1);
      assert ms == tail || ms == [(from, l[from])] + tail;
    } else {
      assert ms[0] == (j, l[j]);
    }
  }

  /** Row i of the mod matrix with the columns from `upTo` on still at -1. */
  function PartialRow(l: seq<int>, i: int, upTo: int): (row: seq<int>)
    requires NonZeroDivisors(l) && 0 <= i < |l|
    ensures |row| == |l|
  {
    seq(|l|, c requires 0 <= c < |l| => if i < c < upTo then PyMod(l[c], l[i]) else -1)
  }

  lemma PartialRowStep(l: seq<int>, i: int, j: int)
    requires NonZeroDivisors(l) && 0 <= i < j < |l|
    ensures PartialRow(l, i, j)[j := PyMod(l[j], l[i])] == PartialRow(l, i, j + 1)
  {
  }

  /** One pass of the source's inner building loop: row i of the mod matrix and
      the mod list of entry i. */
  method BuildRow(l: seq<int>, i: int) returns (row: seq<int>, factors: seq<(int, int)>)
    requires NonZeroDivisors(l) && 0 <= i < |l|
    ensures row == PartialRow(l, i, |l|)
    ensures factors == Multiples(l, i, i + 1)
  {
    var length := |l|;
    var n := l[i];
    row := seq(length, _ => -1);
    factors := [];
    var j := i + 1;
    assert row == PartialRow(l, i, j);
    while j < length
      invariant i + 1 <= j <= length
      invariant row == PartialRow(l, i, j)
      invariant factors + Multiples(l, i, j) == Multiples(l, i, i + 1)
    {
      var m := l[j];
      ghost var rest := Multiples(l, i, j + 1);
      assert Multiples(l, i, j) == if Divides(n, m) then [(j, m)] + rest else rest;
      PartialRowStep(l, i, j);
      row := row[j := PyMod(m, n)];
      PyModIsRemainder(m, n);
      if row[j] == 0 {
        factors := factors + [(j, l[j])];
      }
      j := j + 1;
    }
    assert Multiples(l, i, j) == [];
  }

  /** The mod matrix and mod lists of the source: modm[i][j] is l[j] % l[i] above
      the diagonal and -1 elsewhere; modl[i] lists the later entries l[i] divides. */
  method BuildTables(l: seq<int>) returns (modm: seq<seq<int>>, modl: seq<seq<(int, int)>>)
    requires NonZeroDivisors(l)
    ensures |modm| == |l| && forall i :: 0 <= i < |l| ==> |modm[i]| == |l|
    ensures forall i, j :: 0 <= i < |l| && 0 <= j < |l| ==>
              modm[i][j] == if i < j then PyMod(l[j], l[i]) else -1
    ensures |modl| == |l|
    ensures forall i :: 0 <= i < |l| ==> modl[i] == Multiples(l, i, i + 1)
  {
    var length := |l|;
    modm := seq(length, _ => seq(length, _ => -1));
    modl := seq(length, _ => []);
    var i := 0;
    while i < length
      invariant 0 <= i <= length
      invariant |modm| == length
      invariant forall r :: 0 <= r < i ==> modm[r] == PartialRow(l, r, length)
      invariant forall r :: i <= r < length ==> |modm[r]| == length
      invariant |modl| == length
      invariant forall r :: 0 <= r < i ==> modl[r] == Multiples(l, r, r + 1)
    {
      var row, factors := BuildRow(l, i);
      modm := modm[i := row];
      modl := modl[i := factors];
      i := i + 1;
    }
  }

  /** The number of lucky triples whose middle element is one of the pairs in `ps`,
      each completed by any later entry it divides. */
  function CompletionCount(l: seq<int>, ps: seq<(int, int)>): nat
    requires NonZeroDivisors(l)
    requires forall a :: 0 <= a < |ps| ==> 0 <= ps[a].0 < |l|
  {
    if ps == [] then 0 else |Multiples(l, ps[0].0, ps[0].0 + 1)| + CompletionCount(l, ps[1..])
  }

  lemma {:induction false} CompletionCountSnoc(l: seq<int>, ps: seq<(int, int)>, p: (int, int))
    requires NonZeroDivisors(l)
    requires forall a :: 0 <= a < |ps| ==> 0 <= ps[a].0 < |l|
    requires 0 <= p.0 < |l|
    ensures CompletionCount(l, ps + [p]) == CompletionCount(l, ps) + |Multiples(l, p.0, p.0 + 1)|
  {
    if ps != [] {
      assert (ps + [p])[1..] == ps[1..] + [p];
      CompletionCountSnoc(l, ps[1..], p);
    }
  }

  /** Lucky triples (i, j, k) with the first two positions fixed and k >= c. */
  function Completions(l: seq<int>, i: int, j: int, c: int): set<(int, int, int)>
    requires NonZeroDivisors(l)
  {
    set k | c <= k < |l| && Lucky(l, i, j, k) :: (i, j, k)
  }

  lemma CompletionsStep(l: seq<int>, i: int, j: int, c: int)
    requires NonZeroDivisors(l) && 0 <= i < j < c < |l| && Divides(l[i], l[j])
    ensures |Completions(l, i, j, c)| ==
            (if Divides(l[j], l[c]) then 1 else 0) + |Completions(l, i, j, c + 1)|
  {
    var all := Completions(l, i, j, c);
    var rest := Completions(l, i, j, c + 1);
    var here := if Divides(l[j], l[c]) then {(i, j, c)} else {};
    forall t | t in all
      ensures t in here + rest
    {
      var k :| c <= k < |l| && Lucky(l, i, j, k) && t == (i, j, k);
      if k > c {
        assert t in rest;
      }
    }
    assert all == here + rest;
    assert here * rest == {};
  }

  lemma {:induction false} CompletionsCount(l: seq<int>, i: int, j: int, c: int)
    requires NonZeroDivisors(l) && 0 <= i < j < c <= |l| && Divides(l[i], l[j])
    ensures |Completions(l, i, j, c)| == |Multiples(l, j, c)|
    decreases |l| - c
  {
    if c < |l| {
      CompletionsCount(l, i, j, c + 1);
      CompletionsStep(l, i, j, c);
    } else {
      assert Completions(l, i, j, c) == {};
    }
  }

  /** Lucky triples with first position i and middle position at least b. */
  function TriplesAt(l: seq<int>, i: int, b: int): set<(int, int, int)>
    requires NonZeroDivisors(l)
  {
    set j, k | b <= j < k < |l| && Lucky(l, i, j, k) :: (i, j, k)
  }

  lemma TriplesAtStep(l: seq<int>, i: int, b: int)
    requires NonZeroDivisors(l) && 0 <= i < b < |l|
    ensures |TriplesAt(l, i, b)| ==
            (if Divides(l[i], l[b]) then |Completions(l, i, b, b + 1)| else 0) + |TriplesAt(l, i, b + 1)|
  {
    var all := TriplesAt(l, i, b);
    var rest := TriplesAt(l, i, b + 1);
    var here := if Divides(l[i], l[b]) then Completions(l, i, b, b + 1) else {};
    forall t | t in all
      ensures t in here + rest
    {
      var j, k :| b <= j < k < |l| && Lucky(l, i, j, k) && t == (i, j, k);
      if j > b {
        assert t in rest;
      } else {
        assert t in here;
      }
    }
    assert all == here + rest;
    assert here * rest == {};
  }

  lemma MultiplesCompletionStep(l: seq<int>, i: int, b: int)
    requires NonZeroDivisors(l) && 0 <= i < b < |l|
    ensures CompletionCount(l, Multiples(l, i, b)) ==
            (if Divides(l[i], l[b]) then |Multiples(l, b, b + 1)| else 0) +
            CompletionCount(l, Multiples(l, i, b + 1))
  {
    var ms, rest := Multiples(l, i, b), Multiples(l, i, b + 1);
    if Divides(l[i], l[b]) {
      assert ms == [(b, l[b])] + rest;
      assert ms[0].0 == b && ms[1..] == rest;
      assert CompletionCount(l, ms) == |Multiples(l, b, b + 1)| + CompletionCount(l, rest);
    } else {
      assert ms == rest;
    }
  }

  lemma {:induction false} TriplesAtCount(l: seq<int>, i: int, b: int)
    requires NonZeroDivisors(l) && 0 <= i < b <= |l|
    ensures |TriplesAt(l, i, b)| == CompletionCount(l, Multiples(l, i, b))
    decreases |l| - b
  {
    if b < |l| {
      TriplesAtCount(l, i, b + 1);
      TriplesAtStep(l, i, b);
      MultiplesCompletionStep(l, i, b);
      if Divides(l[i], l[b]) {
        CompletionsCount(l, i, b, b + 1);
      }
    } else {
      assert TriplesAt(l, i, b) == {};
    }
  }

  /** Lucky triples whose first position is at least a. */
  function TriplesFrom(l: seq<int>, a: int): set<(int, int, int)>
    requires NonZeroDivisors(l)
  {
    set i, j, k | a <= i < j < k < |l| && Lucky(l, i, j, k) :: (i, j, k)
  }

  lemma TriplesFromStep(l: seq<int>, a: int)
    requires NonZeroDivisors(l) && 0 <= a < |l|
    ensures |TriplesFrom(l, a)| == |TriplesAt(l, a, a + 1)| + |TriplesFrom(l, a + 1)|
  {
    var all := TriplesFrom(l, a);
    var here := TriplesAt(l, a, a + 1);
    var rest := TriplesFrom(l, a + 1);
    forall t | t in all
      ensures t in here + rest
    {
      var i, j, k :| a <= i < j < k < |l| && Lucky(l, i, j, k) && t == (i, j, k);
      if i > a {
        assert t in rest;
      } else {
        assert t in here;
      }
    }
    assert all == here + rest;
    assert here * rest == {};
  }

  /** One pass of the source's inner counting loop: for every (j, _) in y_list,
      the length of j's mod list. */
  method CountCompletions(l: seq<int>, modl: seq<seq<(int, int)>>, yList: seq<(int, int)>)
    returns (count: nat)
    requires NonZeroDivisors(l)
    requires |modl| == |l| && forall i :: 0 <= i < |l| ==> modl[i] == Multiples(l, i, i + 1)
    requires forall a :: 0 <= a < |yList| ==> 0 <= yList[a].0 < |l|
    ensures count == CompletionCount(l, yList)
  {
    count := 0;
    var p := 0;
    while p < |yList|
      invariant 0 <= p <= |yList|
      invariant count == CompletionCount(l, yList[..p])
    {
      var j := yList[p].0;
      var zList := modl[j];
      assert yList[..p + 1] == yList[..p] + [yList[p]];
      CompletionCountSnoc(l, yList[..p], yList[p]);
      count := count + |zList|;
      p := p + 1;
    }
    assert yList[..p] == yList;
  }

  /** The counting half of the source's `solution`: for every pair (i, j) in the
      mod lists, add the length of j's mod list. */
  method CountTriples(l: seq<int>, modl: seq<seq<(int, int)>>) returns (counter: nat)
    requires NonZeroDivisors(l)
    requires |modl| == |l| && forall i :: 0 <= i < |l| ==> modl[i] == Multiples(l, i, i + 1)
    ensures counter == |Triples(l)|
  {
    counter := 0;
    var i := 0;
    while i < |l|
      invariant 0 <= i <= |l|
      invariant counter + |TriplesFrom(l, i)| == |TriplesFrom(l, 0)|
    {
      var found := CountCompletions(l, modl, modl[i]);
      counter := counter + found;
      TriplesAtCount(l, i, i + 1);
      TriplesFromStep(l, i);
      i := i + 1;
    }
    assert TriplesFrom(l, i) == {};
    assert TriplesFrom(l, 0) == Triples(l);
  }

  /** The source's `solution`: the number of lucky triples of l. */
  method Solution(l: seq<int>) returns (counter: nat)
    requires NonZeroDivisors(l)
    ensures counter == |Triples(l)|
  {
    var modm, modl := BuildTables(l);
    counter := CountTriples(l, modl);
  }

  /** Fewer than three entries hold no triple. */
  lemma ShortListHasNoTriples(l: seq<int>)
    requires NonZeroDivisors(l) && |l| < 3
    ensures |Triples(l)| == 0
  {
    assert Triples(l) == {};
  }

  /** The list of the worked example at the head of the source. */
  const Example: seq<int> := [2, 2, 3, 1, 3, 4, 5, 3, 6]

  /** The worked example's mod list of its first entry. */
  lemma WorkedExampleFirst()
    ensures Multiples(Example, 0, 1) == [(1, 2), (5, 4), (8, 6)]
  {
    var l := Example;
    assert Multiples(l, 0, 9) == [];
    assert Multiples(l, 0, 8) == [(8, 6)];
    assert Multiples(l, 0, 7) == [(8, 6)];
    assert Multiples(l, 0, 6) == [(8, 6)];
    assert Multiples(l, 0, 5) == [(5, 4), (8, 6)];
    assert Multiples(l, 0, 4) == [(5, 4), (8, 6)];
    assert Multiples(l, 0, 3) == [(5, 4), (8, 6)];
    assert Multiples(l, 0, 2) == [(5, 4), (8, 6)];
  }

  /** The worked example's mod list of the entry 1, which divides everything after it. */
  lemma WorkedExampleOne()
    ensures Multiples(Example, 3, 4) == [(4, 3), (5, 4), (6, 5), (7, 3), (8, 6)]
  {
    var l := Example;
    assert Multiples(l, 3, 9) == [];
    assert Multiples(l, 3, 8) == [(8, 6)];
    assert Multiples(l, 3, 7) == [(7, 3), (8, 6)];
    assert Multiples(l, 3, 6) == [(6, 5), (7, 3), (8, 6)];
    assert Multiples(l, 3, 5) == [(5, 4), (6, 5), (7, 3), (8, 6)];
  }

  /** The puzzle's first sample: [1, 1, 1] has one lucky triple. */
  lemma SampleOnes()
    ensures |Triples([1, 1, 1])| == 1
  {
    assert Triples([1, 1, 1]) == {(0, 1, 2)};
  }

  /** The puzzle's second sample: [1, 2, 3, 4, 5, 6] has three. */
  lemma SampleToSix()
    ensures |Triples([1, 2, 3, 4, 5, 6])| == 3
  {
    var l := [1, 2, 3, 4, 5, 6];
    var expected := {(0, 1, 3), (0, 1, 5), (0, 2, 5)};
    forall t | t in Triples(l)
      ensures t in expected
    {
      var i, j, k :| 0 <= i < j < k < |l| && Lucky(l, i, j, k) && t == (i, j, k);
      assert l[j] % l[i] == 0 && l[k] % l[j] == 0;
    }
    assert Lucky(l, 0, 1, 3) && Lucky(l, 0, 1, 5) && Lucky(l, 0, 2, 5);
    assert Triples(l) == expected;
  }
}

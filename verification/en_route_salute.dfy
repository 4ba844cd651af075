/** En route salute: a hallway string holds employees walking right ('>'),
    walking left ('<') and empty spots ('-'). Every time two employees meet
    they salute each other, two salutes per encounter. The solution adds, for
    each '>', the '<'s at or after it, and for each '<', the '>'s before it. */
module EnRouteSalute {

  const WalkingRight: char := '>'
  const WalkingLeft: char := '<'

  /** The source's `countEmployeesInOderDirection`: how many times `direction`
      occurs in `subhallway`. */
  method CountInDirection(subhallway: seq<char>, direction: char) returns (count: nat)
    ensures count == multiset(subhallway)[direction]
    ensures count <= |subhallway|
  {
    count := 0;
    var i := 0;
    while i < |subhallway|
      invariant 0 <= i <= |subhallway|
      invariant count == multiset(subhallway[..i])[direction]
    {
      assert subhallway[..i + 1] == subhallway[..i] + [subhallway[i]];
      if subhallway[i] == direction {
        count := count + 1;
      }
      i := i + 1;
    }
    assert subhallway[..i] == subhallway;
  }

  /** Number of pairs i < j with s[i] == '>' and s[j] == '<', counted at the '>'. */
  function CrossingsAhead(s: seq<char>): nat
  {
    if |s| == 0 then 0
    else (if s[0] == WalkingRight then multiset(s)[WalkingLeft] else 0) + CrossingsAhead(s[1..])
  }

  /** The same pairs, counted at the '<' against the '>'s before it. */
  function CrossingsBehind(s: seq<char>): nat
  {
    if |s| == 0 then 0
    else
      var init := s[..|s| - 1];
      CrossingsBehind(init) + (if s[|s| - 1] == WalkingLeft then multiset(init)[WalkingRight] else 0)
  }

  lemma {:induction false} CrossingsAheadSnoc(s: seq<char>, c: char)
    ensures CrossingsAhead(s + [c]) ==
            CrossingsAhead(s) + (if c == WalkingLeft then multiset(s)[WalkingRight] else 0)
  {
    if |s| > 0 {
      assert (s + [c])[1..] == s[1..] + [c];
      CrossingsAheadSnoc(s[1..], c);
      assert s == [s[0]] + s[1..];
    }
  }

  /** Counting each meeting pair from either end gives the same number. */
  lemma {:induction false} CrossingsAgree(s: seq<char>)
    ensures CrossingsAhead(s) == CrossingsBehind(s)
  {
    if |s| > 0 {
      var init := s[..|s| - 1];
      CrossingsAgree(init);
      CrossingsAheadSnoc(init, s[|s| - 1]);
      assert init + [s[|s| - 1]] == s;
    }
  }

  /** The source's encounter count: for each index, the opposite walkers it will meet. */
  method Solution(s: seq<char>) returns (encounters: nat)
    ensures encounters == 2 * CrossingsBehind(s)
  {
    var hallway := s;
    encounters := 0;
    var index := 0;
    while index < |hallway|
      invariant 0 <= index <= |hallway|
      invariant encounters + CrossingsAhead(hallway[index..]) == CrossingsAhead(hallway) + CrossingsBehind(hallway[..index])
    {
      var employee := hallway[index];
      assert hallway[index..][1..] == hallway[index + 1..];
      assert hallway[..index + 1][..index] == hallway[..index];
      if employee == WalkingRight {
        var met := CountInDirection(hallway[index..], WalkingLeft);
        encounters := encounters + met;
      }
      if employee == WalkingLeft {
        var met := CountInDirection(hallway[..index], WalkingRight);
        encounters := encounters + met;
      }
      index := index + 1;
    }
    assert hallway[index..] == [];
    assert hallway[..index] == hallway;
    CrossingsAgree(hallway);
  }

  /** Anything other than an arrow added at the end changes no count. */
  lemma NonArrowsAddNothing(s: seq<char>, c: char)
    requires c != WalkingRight && c != WalkingLeft
    ensures CrossingsBehind(s + [c]) == CrossingsBehind(s)
  {
    assert (s + [c])[..|s|] == s;
  }

  /** With every '<' before every '>' nobody meets anybody. */
  lemma {:induction false} NoMeetingWhenApart(s: seq<char>)
    requires forall i, j :: 0 <= i < j < |s| && s[i] == WalkingRight ==> s[j] != WalkingLeft
    ensures CrossingsBehind(s) == 0
  {
    if |s| > 0 {
      var init := s[..|s| - 1];
      NoMeetingWhenApart(init);
      if s[|s| - 1] == WalkingLeft {
        assert WalkingRight !in init;
        assert multiset(init)[WalkingRight] == 0;
      }
    }
  }

  /** A meeting pair makes the count positive. */
  lemma {:induction false} MeetingCounts(s: seq<char>, i: nat, j: nat)
    requires i < j < |s| && s[i] == WalkingRight && s[j] == WalkingLeft
    ensures CrossingsBehind(s) > 0
  {
    var init := s[..|s| - 1];
    if j == |s| - 1 {
      assert init[i] == WalkingRight;
      assert WalkingRight in multiset(init);
    } else {
      MeetingCounts(init, i, j);
    }
  }
}

/** Expanding nebula, row ids: the source names a 0/1 row by the number it
    spells in binary, most significant bit first (`_getId` and `getId`, which
    are the same loop). RowOf is the inverse: the n-bit row spelling x. */
module NebulaIds {
  import opened Arith
  import opened NebulaRule

  /** Lines 213-228 and 300-316: the value of the row read as a binary
      number, most significant bit first, by Horner's rule. */
  function Id(row: seq<int>): int
  {
    if row == [] then 0 else 2 * Id(row[..|row| - 1]) + row[|row| - 1]
  }

  /** The sum the source's loop accumulates: row[i] * 2^(len - 1 - i). */
  function PositionalSum(row: seq<int>): int
  {
    if row == [] then 0 else row[0] * Pow(2, |row| - 1) + PositionalSum(row[1..])
  }

  /** The n-bit binary row spelling x modulo 2^n, most significant bit first. */
  function RowOf(n: nat, x: int): (r: seq<int>)
    ensures |r| == n && IsBits(r)
  {
    if n == 0 then [] else RowOf(n - 1, x / 2) + [x % 2]
  }

  /** Appending a bit doubles the id and adds the bit. */
  lemma IdSnoc(row: seq<int>, b: int)
    ensures Id(row + [b]) == 2 * Id(row) + b
  {
    assert (row + [b])[..|row|] == row;
  }

  lemma {:induction false} PositionalSnoc(row: seq<int>, b: int)
    ensures PositionalSum(row + [b]) == 2 * PositionalSum(row) + b
  {
    if row != [] {
      assert (row + [b])[1..] == row[1..] + [b];
      PositionalSnoc(row[1..], b);
      var p := Pow(2, |row| - 1);
      assert Pow(2, |row|) == 2 * p;
      assert row[0] * (2 * p) == 2 * (row[0] * p);
    }
  }

  /** Horner's rule computes the source's positional sum. */
  lemma {:induction false} IdIsPositional(row: seq<int>)
    ensures Id(row) == PositionalSum(row)
  {
    if row != [] {
      var init := row[..|row| - 1];
      assert row == init + [row[|row| - 1]];
      IdIsPositional(init);
      PositionalSnoc(init, row[|row| - 1]);
    }
  }

  /** The id of a bit row of length n lies in [0, 2^n). */
  lemma {:induction false} IdBound(row: seq<int>)
    requires IsBits(row)
    ensures 0 <= Id(row) < Pow(2, |row|)
  {
    if row != [] {
      IdBound(row[..|row| - 1]);
      assert Pow(2, |row|) == 2 * Pow(2, |row| - 1);
    }
  }

  lemma {:induction false} IdOfRowOf(n: nat, x: int)
    requires 0 <= x < Pow(2, n)
    ensures Id(RowOf(n, x)) == x
  {
    if n > 0 {
      IdOfRowOf(n - 1, x / 2);
      IdSnoc(RowOf(n - 1, x / 2), x % 2);
    }
  }

  lemma {:induction false} RowOfId(row: seq<int>)
    requires IsBits(row)
    ensures RowOf(|row|, Id(row)) == row
  {
    if row != [] {
      var init, b := row[..|row| - 1], row[|row| - 1];
      assert row == init + [b];
      IdSnoc(init, b);
      IdBound(init);
      RowOfId(init);
      assert (2 * Id(init) + b) / 2 == Id(init);
      assert (2 * Id(init) + b) % 2 == b;
    }
  }

  /** Two bit rows of one length with one id are the same row. */
  lemma IdInjective(r1: seq<int>, r2: seq<int>)
    requires IsBits(r1) && IsBits(r2) && |r1| == |r2| && Id(r1) == Id(r2)
    ensures r1 == r2
  {
    RowOfId(r1);
    RowOfId(r2);
  }
}

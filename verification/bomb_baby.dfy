/** Bomb baby: starting from one Mach bomb and one Facula bomb, each
    generation either turns (m, f) into (m + f, f) or into (m, m + f). The
    solution counts the generations needed to reach (M, F), running the
    replication backwards and taking many identical steps at once with a
    quotient, or reports that (M, F) cannot be reached. */
module BombBaby {
  import opened Arith

  datatype Option<T> = None | Some(value: T)

  /** Adds k generations to a reachable result; keeps "impossible". */
  function AddSteps(r: Option<int>, k: int): Option<int>
  {
    match r
    case None => None
    case Some(n) => Some(n + k)
  }

  /** Reverse replication one generation at a time: the larger count must have been
      produced by adding the smaller one, so subtract it; equal counts above one can
      never be produced. None stands for "impossible". */
  function ReverseSteps(m: nat, f: nat): Option<int>
    requires m >= 1 && f >= 1
    decreases m + f
  {
    if m == 1 && f == 1 then Some(0)
    else if m > f then AddSteps(ReverseSteps(m - f, f), 1)
    else if f > m then AddSteps(ReverseSteps(m, f - m), 1)
    else None
  }

  lemma MulPredecessor(k: nat, f: nat)
    requires k > 0
    ensures (k - 1) * f == k * f - f && k * f >= f
  {
  }

  /** k identical reverse steps on the Mach side at once. */
  lemma {:induction false} ManyMachSteps(m: nat, f: nat, k: nat)
    requires f >= 1 && m - k * f >= 1
    ensures ReverseSteps(m, f) == AddSteps(ReverseSteps(m - k * f, f), k)
  {
    if k > 0 {
      MulPredecessor(k, f);
      ManyMachSteps(m - f, f, k - 1);
    }
  }

  lemma {:induction false} ManyFaculaSteps(m: nat, f: nat, k: nat)
    requires m >= 1 && f - k * m >= 1
    ensures ReverseSteps(m, f) == AddSteps(ReverseSteps(m, f - k * m), k)
  {
    if k > 0 {
      MulPredecessor(k, m);
      ManyFaculaSteps(m, f - m, k - 1);
    }
  }

  /** Taking a away q = a / b times leaves a % b, or b when b divides a. */
  lemma QuotientParts(a: nat, b: nat)
    requires a >= b > 1
    ensures a / b >= 1 && a - (a / b) * b == a % b
    ensures a % b == 0 ==> a - (a / b - 1) * b == b
  {
    var q := a / b;
    assert a == q * b + a % b;
    assert (q - 1) * b == q * b - b;
  }

  /** Reducing the larger count modulo the smaller one is m / f reverse steps at once;
      when the smaller divides the larger the pair was never reachable. */
  lemma MachQuotientStep(m: nat, f: nat)
    requires m > f > 1
    ensures m % f != 0 ==> ReverseSteps(m, f) == AddSteps(ReverseSteps(m % f, f), m / f)
    ensures m % f == 0 ==> ReverseSteps(m, f) == None
  {
    QuotientParts(m, f);
    if m % f != 0 {
      ManyMachSteps(m, f, m / f);
    } else {
      ManyMachSteps(m, f, m / f - 1);
    }
  }

  lemma FaculaQuotientStep(m: nat, f: nat)
    requires f >= m > 1
    ensures f % m != 0 ==> ReverseSteps(m, f) == AddSteps(ReverseSteps(m, f % m), f / m)
    ensures f % m == 0 ==> ReverseSteps(m, f) == None
  {
    QuotientParts(f, m);
    if f % m != 0 {
      ManyFaculaSteps(m, f, f / m);
    } else {
      ManyFaculaSteps(m, f, f / m - 1);
    }
  }

  /** With one count at 1, only the other rule was ever applied. */
  lemma OneSide(m: nat, f: nat)
    requires m >= 1 && f >= 1
    ensures m == 1 ==> ReverseSteps(m, f) == Some(f - 1)
    ensures f == 1 ==> ReverseSteps(m, f) == Some(m - 1)
  {
    if m == 1 && f > 1 {
      ManyFaculaSteps(1, f, f - 1);
    }
    if f == 1 && m > 1 {
      ManyMachSteps(m, 1, m - 1);
    }
  }

  /** The source's `solution`, with Python 2's integer `/` on positive operands.
      None stands for the string "impossible". */
  method Solution(M: int, F: int) returns (r: Option<int>)
    ensures M == 1 && F == 1 ==> r == Some(0)
    ensures M >= 1 && F >= 1 ==> r == ReverseSteps(M, F)
  {
    var mach := M;
    var facula := F;
    var generation := 0;

    if mach == 1 && facula == 1 {
      return Some(generation);
    }

    while mach > 1 && facula > 1
      invariant M >= 1 && F >= 1 ==> mach >= 0 && facula >= 0
      invariant M >= 1 && F >= 1 && mach >= 1 && facula >= 1 ==>
                  ReverseSteps(M, F) == AddSteps(ReverseSteps(mach, facula), generation)
      invariant M >= 1 && F >= 1 && (mach == 0 || facula == 0) ==>
                  ReverseSteps(M, F) == None && (mach > 1 || facula > 1)
      invariant M < 1 || F < 1 ==> mach == M && facula == F
      invariant M >= 1 && F >= 1 ==> Gcd(mach, facula) == Gcd(M, F)
      decreases mach + facula
    {
      if mach > facula {
        if M >= 1 && F >= 1 {
          MachQuotientStep(mach, facula);
          GcdMod(mach, facula);
        }
        generation := generation + mach / facula;
        mach := mach % facula;
      } else {
        if M >= 1 && F >= 1 {
          FaculaQuotientStep(mach, facula);
          GcdMod(facula, mach);
          GcdSymmetric(facula % mach, mach);
          GcdSymmetric(facula, mach);
        }
        generation := generation + facula / mach;
        facula := facula % mach;
      }
    }

    if mach == 1 && facula == 1 {
      return Some(generation);
    }
    if mach == 1 {
      if M >= 1 && F >= 1 && facula >= 1 {
        OneSide(mach, facula);
      }
      return Some(generation + facula - 1);
    }
    if facula == 1 {
      if M >= 1 && F >= 1 && mach >= 1 {
        OneSide(mach, facula);
      }
      return Some(generation + mach - 1);
    }
    return None;
  }

  /** A pair is reachable exactly when its counts are coprime. */
  lemma {:induction false} ImpossibleIffNotCoprime(m: nat, f: nat)
    requires m >= 1 && f >= 1
    ensures ReverseSteps(m, f) == None <==> Gcd(m, f) != 1
    decreases m + f
  {
    if m == 1 && f == 1 {
    } else if m > f {
      ImpossibleIffNotCoprime(m - f, f);
    } else if f > m {
      ImpossibleIffNotCoprime(m, f - m);
    } else {
      assert Gcd(m, f) == Gcd(m, 0) == m;
    }
  }

  /** A generation count n is an actual path: n forward replications lead from (1, 1)
      to (m, f), and the reverse walk never repeats a pair. */
  predicate ReplicatesTo(m: nat, f: nat, n: nat)
    decreases n
  {
    if n == 0 then m == 1 && f == 1
    else
      || (m > f && f >= 1 && ReplicatesTo(m - f, f, n - 1))
      || (f > m && m >= 1 && ReplicatesTo(m, f - m, n - 1))
  }

  lemma {:induction false} ReverseStepsIsPath(m: nat, f: nat)
    requires m >= 1 && f >= 1
    ensures ReverseSteps(m, f).Some? ==>
              ReverseSteps(m, f).value >= 0 && ReplicatesTo(m, f, ReverseSteps(m, f).value)
    decreases m + f
  {
    if m == 1 && f == 1 {
    } else if m > f {
      ReverseStepsIsPath(m - f, f);
    } else if f > m {
      ReverseStepsIsPath(m, f - m);
    }
  }

  /** The answer for sample inputs of the puzzle. */
  lemma Samples()
    ensures ReverseSteps(2, 1) == Some(1)
    ensures ReverseSteps(4, 7) == Some(4)
    ensures ReverseSteps(2, 4) == None
  {
  }
}

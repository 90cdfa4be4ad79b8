/** Counting subsets by size: the arithmetic behind the rule priorities. A subset of n ports is
    a number below 2^n whose k-th binary digit says whether port k is in it. */
module Combinatorics {

  function Bit(j: nat, k: nat): bool {
    if k == 0 then j % 2 == 1 else Bit(j / 2, k - 1)
  }

  // The number of one digits.
  function Pop(j: nat): nat {
    if j == 0 then 0 else j % 2 + Pop(j / 2)
  }

  function Pow2(n: nat): nat {
    if n == 0 then 1 else 2 * Pow2(n - 1)
  }

  function Factorial(n: nat): (r: nat)
    ensures r > 0
  {
    if n == 0 then 1 else n * Factorial(n - 1)
  }

  function Choose(n: nat, k: nat): nat {
    if k == 0 then 1 else if n == 0 then 0 else Choose(n - 1, k - 1) + Choose(n - 1, k)
  }

  lemma {:induction false} ChooseAbove(n: nat, k: nat)
    requires k > n
    ensures Choose(n, k) == 0
  {
    if n > 0 {
      ChooseAbove(n - 1, k - 1);
      ChooseAbove(n - 1, k);
    }
  }

  // The quotient of factorials the source computes is the binomial coefficient.
  lemma {:induction false} ChooseFactorial(n: nat, k: nat)
    requires k <= n
    ensures Choose(n, k) * (Factorial(k) * Factorial(n - k)) == Factorial(n)
  {
    if k == 0 {
    } else if k == n {
      ChooseFactorial(n - 1, n - 1);
      ChooseAbove(n - 1, n);
      assert Choose(n, n) == Choose(n - 1, n - 1);
      SelfStep(Choose(n, n), Factorial(n - 1), n);
    } else {
      ChooseFactorial(n - 1, k - 1);
      ChooseFactorial(n - 1, k);
      PascalStep(Choose(n - 1, k - 1), Choose(n - 1, k), Factorial(k - 1), Factorial(n - 1 - k), Factorial(n - 1), n, k);
    }
  }

  lemma SelfStep(c: nat, f: nat, n: nat)
    requires n > 0 && c * (f * 1) == f
    ensures c * ((n * f) * 1) == n * f
  {
    assert c * (n * f) == n * (c * f);
  }

  lemma PascalStep(a: nat, b: nat, x: nat, y: nat, f: nat, n: nat, k: nat)
    requires 0 < k < n
    requires a * (x * ((n - k) * y)) == f && b * ((k * x) * y) == f
    ensures (a + b) * ((k * x) * ((n - k) * y)) == n * f
  {
    var m := n - k;
    assert a * ((k * x) * (m * y)) == k * (a * (x * (m * y)));
    assert b * ((k * x) * (m * y)) == m * (b * ((k * x) * y));
  }

  lemma QuotientIsChoose(n: nat, k: nat)
    requires k <= n
    ensures Factorial(n) / (Factorial(k) * Factorial(n - k)) == Choose(n, k)
  {
    ChooseFactorial(n, k);
    ExactQuotient(Choose(n, k), Factorial(k) * Factorial(n - k), Factorial(n));
  }

  lemma ExactQuotient(q: nat, d: nat, f: nat)
    requires d > 0 && q * d == f
    ensures f / d == q
  {
    var e, r := f / d, f % d;
    assert f == d * e + r && 0 <= r < d;
    assert d * (q - e) == r;
    SmallMultiple(d, q - e);
  }

  lemma SmallMultiple(d: nat, x: int)
    requires 0 <= d * x < d
    ensures x == 0
  {}

  // How many numbers below `limit` have k one digits.
  function Count(k: nat, limit: nat): nat {
    if limit == 0 then 0 else (if Pop(limit - 1) == k then 1 else 0) + Count(k, limit - 1)
  }

  lemma {:induction false} CountDouble(k: nat, limit: nat)
    ensures Count(k, 2 * limit) == Count(k, limit) + if k == 0 then 0 else Count(k - 1, limit)
  {
    if limit > 0 {
      CountDouble(k, limit - 1);
      var h := limit - 1;
      assert (2 * h) / 2 == h && (2 * h) % 2 == 0 && (2 * h + 1) / 2 == h && (2 * h + 1) % 2 == 1;
      assert Pop(2 * h) == Pop(h) && Pop(2 * h + 1) == 1 + Pop(h);
      assert Count(k, 2 * limit) == (if Pop(2 * h + 1) == k then 1 else 0) + (if Pop(2 * h) == k then 1 else 0) + Count(k, 2 * h);
    }
  }

  // Exactly Choose(n, k) of the 2^n subsets have k members.
  lemma {:induction false} CountIsChoose(n: nat, k: nat)
    ensures Count(k, Pow2(n)) == Choose(n, k)
  {
    if n == 0 {
      assert Count(k, 1) == if Pop(0) == k then 1 else 0;
    } else {
      CountDouble(k, Pow2(n - 1));
      CountIsChoose(n - 1, k);
      if k > 0 { CountIsChoose(n - 1, k - 1); }
    }
  }

  lemma {:induction false} CountMonotone(k: nat, i: nat, j: nat)
    requires i <= j
    ensures Count(k, i) <= Count(k, j)
    ensures i < j && Pop(i) == k ==> Count(k, i) < Count(k, j)
    decreases j
  {
    if i < j { CountMonotone(k, i, j - 1); }
  }

  // The r-th number with k one digits exists below any limit that counts more than r.
  lemma {:induction false} CountReaches(k: nat, limit: nat, r: nat) returns (j: nat)
    requires r < Count(k, limit)
    ensures j < limit && Pop(j) == k && Count(k, j) == r
  {
    if Pop(limit - 1) == k && Count(k, limit - 1) == r {
      j := limit - 1;
    } else {
      j := CountReaches(k, limit - 1, r);
    }
  }

  lemma {:induction false} PopBelow(n: nat, j: nat)
    requires j < Pow2(n)
    ensures Pop(j) <= n && (j > 0 ==> Pop(j) > 0)
  {
    if j > 0 { PopBelow(n - 1, j / 2); }
  }

  // A proper subset has fewer members.
  lemma {:induction false} SubsetPops(i: nat, j: nat)
    requires forall k: nat :: Bit(i, k) ==> Bit(j, k)
    ensures Pop(i) <= Pop(j) && (i != j ==> Pop(i) < Pop(j))
  {
    assert Bit(i, 0) ==> Bit(j, 0);
    if i == 0 {
      PopPositive(j);
    } else {
      forall k: nat | Bit(i / 2, k)
        ensures Bit(j / 2, k)
      {
        assert Bit(i, k + 1);
      }
      SubsetPops(i / 2, j / 2);
    }
  }

  lemma {:induction false} PopPositive(j: nat)
    ensures j > 0 ==> Pop(j) > 0
  {
    if j > 1 { PopPositive(j / 2); }
  }

  // The subset given by a list of flags.
  function MaskOf(flags: seq<bool>): nat {
    if flags == [] then 0 else (if flags[0] then 1 else 0) + 2 * MaskOf(flags[1..])
  }

  lemma {:induction false} MaskOfBits(flags: seq<bool>, k: nat)
    ensures Bit(MaskOf(flags), k) <==> k < |flags| && flags[k]
    ensures MaskOf(flags) < Pow2(|flags|)
    decreases |flags|
  {
    if flags == [] {
      NoBits(k);
    } else {
      MaskOfBits(flags[1..], if k == 0 then 0 else k - 1);
      assert MaskOf(flags) / 2 == MaskOf(flags[1..]);
    }
  }

  lemma {:induction false} NoBits(k: nat)
    ensures !Bit(0, k)
  {
    if k > 0 { NoBits(k - 1); }
  }

  lemma {:induction false} BitsBelow(n: nat, j: nat, k: nat)
    requires j < Pow2(n) && Bit(j, k)
    ensures k < n
    decreases n
  {
    if n == 0 {
      NoBits(k);
    } else if k > 0 {
      BitsBelow(n - 1, j / 2, k - 1);
    }
  }

  // The number of non-empty subsets with fewer than k members.
  function Smaller(n: nat, k: nat): nat {
    if k <= 1 then 0 else Smaller(n, k - 1) + Choose(n, k - 1)
  }

  lemma {:induction false} SmallerMonotone(n: nat, i: nat, k: nat)
    requires i <= k
    ensures Smaller(n, i) <= Smaller(n, k)
    ensures 0 < i < k ==> Smaller(n, i) + Choose(n, i) <= Smaller(n, k)
    decreases k
  {
    if i < k { SmallerMonotone(n, i, k - 1); }
  }

  // Summing by size counts every non-empty subset once.
  lemma {:induction false} SmallerTotal(n: nat)
    ensures Smaller(n, n + 1) == Pow2(n) - 1
  {
    if n > 0 {
      SmallerTotal(n - 1);
      SmallerPascal(n, n + 1);
      ChooseAbove(n - 1, n);
      assert Smaller(n - 1, n + 1) == Smaller(n - 1, n);
    }
  }

  lemma {:induction false} SmallerPascal(n: nat, k: nat)
    requires n > 0 && k > 0
    ensures Smaller(n, k) == Smaller(n - 1, k) + (if k == 1 then 0 else 1 + Smaller(n - 1, k - 1))
  {
    if k > 1 {
      SmallerPascal(n, k - 1);
      assert Choose(n, k - 1) == Choose(n - 1, k - 2) + Choose(n - 1, k - 1);
    }
  }
}

/** Bits of 32-bit machine words: what shifts, masks and the bitwise operations do to each bit. The
    machine operations have names, so that proofs about positions need not look inside them. */
module WordBits {

  type Word = bv32

  function Plus(a: Word, b: Word): Word { a + b }
  function Minus(a: Word, b: Word): Word { a - b }
  predicate Small(a: Word) { a < 32 }
  predicate AtMost(a: Word, b: Word) { a <= b }

  function Shl(w: Word, k: Word): Word
    requires Small(k)
  {
    w << k
  }

  function Shr(w: Word, k: Word): Word
    requires Small(k)
  {
    w >> k
  }

  // The lowest k + 1 bits set.
  function LowMask(k: Word): Word
    requires Small(k)
  {
    (1 << (k + 1)) - 1
  }

  function And(x: Word, y: Word): Word { x & y }
  function Or(x: Word, y: Word): Word { x | y }
  function Not(x: Word): Word { !x }

  predicate Test(w: Word, b: Word)
    requires Small(b)
  {
    w & (1 << b) != 0
  }

  lemma PlusLaws(a: Word, b: Word, c: Word)
    ensures Plus(Plus(a, b), c) == Plus(a, Plus(b, c)) && Plus(a, 0) == a
  {}

  lemma NoWrap(b: Word, c: Word)
    requires Small(b) && Small(c)
    ensures AtMost(b, Plus(b, c)) && Minus(Plus(b, c), b) == c && (AtMost(Plus(b, c), b) ==> c == 0)
  {}

  // The machine facts, one at a time.

  lemma RawShl(x: Word, k: Word)
    requires k < 31
    ensures x << (k + 1) == (x << k) << 1
  {}

  lemma RawShr(x: Word, k: Word)
    requires k < 31
    ensures x >> (k + 1) == (x >> k) >> 1
  {}

  lemma RawTestShl(x: Word, j: Word)
    requires j < 31
    ensures (x << 1) & (1 << (j + 1)) != 0 <==> x & (1 << j) != 0
  {}

  lemma RawTestShr(x: Word, j: Word)
    requires j < 31
    ensures (x >> 1) & (1 << j) != 0 <==> x & (1 << (j + 1)) != 0
  {}

  lemma RawMask(x: Word, k: Word, i: Word)
    requires i < 32 && k < 31
    ensures (x & ((1 << (k + 1)) - 1)) & (1 << i) != 0 <==> i <= k && x & (1 << i) != 0
  {}

  lemma RawAndBoth(x: Word, y: Word, i: Word)
    requires i < 32 && x & (1 << i) != 0 && y & (1 << i) != 0
    ensures (x & y) & (1 << i) != 0
  {}

  lemma RawAndNone(x: Word, y: Word, i: Word)
    requires i < 32
    ensures x & (1 << i) == 0 ==> (x & y) & (1 << i) == 0 && (y & x) & (1 << i) == 0
  {}

  lemma RawOrNone(x: Word, y: Word, m: Word)
    requires x & m == 0 && y & m == 0
    ensures (x | y) & m == 0
  {}

  lemma RawOrOne(x: Word, y: Word, m: Word)
    requires (x | y) & m == 0
    ensures x & m == 0 && y & m == 0
  {}

  lemma RawNot(x: Word, i: Word)
    requires i < 32
    ensures (!x) & (1 << i) != 0 <==> x & (1 << i) == 0
  {}

  lemma NextSmall(k: Word)
    requires Small(k) && k != 31
    ensures Small(Plus(k, 1))
  {}

  lemma ShlStep(x: Word, k: Word)
    requires Small(k) && k != 31 && Small(Plus(k, 1)) && Small(1)
    ensures Shl(x, Plus(k, 1)) == Shl(Shl(x, k), 1)
  {
    RawShl(x, k);
  }

  lemma ShrStep(x: Word, k: Word)
    requires Small(k) && k != 31 && Small(Plus(k, 1)) && Small(1)
    ensures Shr(x, Plus(k, 1)) == Shr(Shr(x, k), 1)
  {
    RawShr(x, k);
  }

  lemma NoShift(x: Word)
    ensures Small(0) && Small(1) && Shl(x, 0) == x && Shr(x, 0) == x
  {}

  // Shifting by one moves every bit by one.
  lemma TestShl(x: Word, j: Word)
    requires Small(j) && j != 31 && Small(Plus(j, 1)) && Small(1)
    ensures Test(Shl(x, 1), Plus(j, 1)) <==> Test(x, j)
  {
    RawTestShl(x, j);
  }

  lemma TestShr(x: Word, j: Word)
    requires Small(j) && j != 31 && Small(Plus(j, 1)) && Small(1)
    ensures Test(Shr(x, 1), j) <==> Test(x, Plus(j, 1))
  {
    RawTestShr(x, j);
  }

  lemma TestEnds(x: Word)
    ensures !Test(Shl(x, 1), 0) && !Test(Shr(x, 1), 31)
  {}

  lemma TestMask(x: Word, k: Word, i: Word)
    requires Small(i) && Small(k) && k != 31
    ensures Test(And(x, LowMask(k)), i) <==> AtMost(i, k) && Test(x, i)
  {
    RawMask(x, k, i);
  }

  lemma TestAndBoth(x: Word, y: Word, i: Word)
    requires Small(i) && Test(x, i) && Test(y, i)
    ensures Test(And(x, y), i)
  {
    RawAndBoth(x, y, i);
  }

  lemma TestAndNone(x: Word, y: Word, i: Word)
    requires Small(i) && !Test(x, i)
    ensures !Test(And(x, y), i) && !Test(And(y, x), i)
  {
    RawAndNone(x, y, i);
  }

  lemma TestAnd(x: Word, y: Word, i: Word)
    requires Small(i)
    ensures Test(And(x, y), i) <==> Test(x, i) && Test(y, i)
  {
    hide Test, And, Small;
    if !Test(x, i) {
      TestAndNone(x, y, i);
    } else if !Test(y, i) {
      TestAndNone(y, x, i);
    } else {
      TestAndBoth(x, y, i);
    }
  }

  lemma TestOrNone(x: Word, y: Word, i: Word)
    requires Small(i) && !Test(x, i) && !Test(y, i)
    ensures !Test(Or(x, y), i)
  {
    RawOrNone(x, y, 1 << i);
  }

  lemma TestOrOne(x: Word, y: Word, i: Word)
    requires Small(i) && !Test(Or(x, y), i)
    ensures !Test(x, i) && !Test(y, i)
  {
    RawOrOne(x, y, 1 << i);
  }

  lemma TestOr(x: Word, y: Word, i: Word)
    requires Small(i)
    ensures Test(Or(x, y), i) <==> Test(x, i) || Test(y, i)
  {
    hide Test, Or, Small;
    if !Test(Or(x, y), i) {
      TestOrOne(x, y, i);
    } else if !Test(x, i) && !Test(y, i) {
      TestOrNone(x, y, i);
    }
  }

  lemma TestNot(x: Word, i: Word)
    requires Small(i)
    ensures Test(Not(x), i) <==> !Test(x, i)
  {
    RawNot(x, i);
  }

  lemma TestZero(i: Word)
    requires Small(i)
    ensures !Test(0, i)
  {}

  // ------------------------------------------------------------------
  // Positions as words

  function Amount(n: nat): Word {
    if n == 0 then 0 else Plus(Amount(n - 1), 1)
  }

  lemma AmountTable()
    ensures Amount(0) == 0 && Amount(1) == 1 && Amount(2) == 2 && Amount(3) == 3 && Amount(4) == 4 &&
      Amount(5) == 5 && Amount(6) == 6 && Amount(7) == 7 && Amount(8) == 8 && Amount(9) == 9 && Amount(10) == 10 &&
      Amount(11) == 11 && Amount(12) == 12 && Amount(13) == 13 && Amount(14) == 14 && Amount(15) == 15 &&
      Amount(16) == 16 && Amount(17) == 17 && Amount(18) == 18 && Amount(19) == 19 && Amount(20) == 20 &&
      Amount(21) == 21 && Amount(22) == 22 && Amount(23) == 23 && Amount(24) == 24 && Amount(25) == 25 &&
      Amount(26) == 26 && Amount(27) == 27 && Amount(28) == 28 && Amount(29) == 29 && Amount(30) == 30 &&
      Amount(31) == 31 && Amount(32) == 32
  {
    assert Amount(0) == 0; assert Amount(1) == 1; assert Amount(2) == 2; assert Amount(3) == 3; assert Amount(4) == 4; assert Amount(5) == 5; assert Amount(6) == 6; assert Amount(7) == 7;
    assert Amount(8) == 8; assert Amount(9) == 9; assert Amount(10) == 10; assert Amount(11) == 11; assert Amount(12) == 12; assert Amount(13) == 13; assert Amount(14) == 14; assert Amount(15) == 15;
    assert Amount(16) == 16; assert Amount(17) == 17; assert Amount(18) == 18; assert Amount(19) == 19; assert Amount(20) == 20; assert Amount(21) == 21; assert Amount(22) == 22; assert Amount(23) == 23;
    assert Amount(24) == 24; assert Amount(25) == 25; assert Amount(26) == 26; assert Amount(27) == 27; assert Amount(28) == 28; assert Amount(29) == 29; assert Amount(30) == 30; assert Amount(31) == 31;
    assert Amount(32) == 32;
  }

  lemma AmountSmall(n: nat)
    requires n < 32
    ensures Small(Amount(n)) && (n > 0 ==> Amount(n) != 0) && (n < 31 ==> Amount(n) != 31)
  {
    AmountTable();
    assert n == 0 || n == 1 || n == 2 || n == 3 || n == 4 || n == 5 || n == 6 || n == 7 || n == 8 || n == 9 ||
      n == 10 || n == 11 || n == 12 || n == 13 || n == 14 || n == 15 || n == 16 || n == 17 || n == 18 || n == 19 ||
      n == 20 || n == 21 || n == 22 || n == 23 || n == 24 || n == 25 || n == 26 || n == 27 || n == 28 || n == 29 ||
      n == 30 || n == 31;
  }

  lemma {:induction false} AmountAdds(m: nat, n: nat)
    ensures Amount(m + n) == Plus(Amount(m), Amount(n))
  {
    hide Plus;
    if n > 0 {
      AmountAdds(m, n - 1);
      PlusLaws(Amount(m), Amount(n - 1), 1);
    } else {
      PlusLaws(Amount(m), 0, 0);
    }
  }

  lemma AmountOrder(m: nat, n: nat)
    requires m <= n < 32
    ensures AtMost(Amount(m), Amount(n)) && Minus(Amount(n), Amount(m)) == Amount(n - m)
    ensures AtMost(Amount(n), Amount(m)) ==> m == n
  {
    hide Amount, Plus, Minus, Small, AtMost;
    AmountAdds(m, n - m);
    AmountSmall(m);
    AmountSmall(n - m);
    NoWrap(Amount(m), Amount(n - m));
  }

  // 32 - n as the source computes it.
  lemma AmountRest(n: nat)
    requires 0 < n < 32
    ensures Minus(32, Amount(n)) == Amount(32 - n)
  {
    hide Amount, Plus, Minus, Small, AtMost;
    assert Amount(32) == 32 by { AmountTable(); }
    AmountAdds(n, 32 - n);
    AmountSmall(n);
    AmountSmall(32 - n);
    NoWrap(Amount(n), Amount(32 - n));
  }

  // ------------------------------------------------------------------
  // Bits by position

  ghost predicate Bit(w: Word, n: nat)
    requires n < 32
  {
    AmountSmall(n);
    Test(w, Amount(n))
  }

  lemma BitOps(x: Word, y: Word, n: nat)
    requires n < 32
    ensures Bit(And(x, y), n) <==> Bit(x, n) && Bit(y, n)
    ensures Bit(Or(x, y), n) <==> Bit(x, n) || Bit(y, n)
    ensures Bit(Not(x), n) <==> !Bit(x, n)
    ensures !Bit(0, n)
  {
    hide Amount, Test, And, Or, Not, Small;
    AmountSmall(n);
    TestAnd(x, y, Amount(n));
    TestOr(x, y, Amount(n));
    TestNot(x, Amount(n));
    TestZero(Amount(n));
  }

  lemma BitShifted(x: Word, n: nat)
    requires n < 32 && Small(1)
    ensures Bit(Shl(x, 1), n) <==> n > 0 && Bit(x, n - 1)
    ensures Bit(Shr(x, 1), n) <==> n < 31 && Bit(x, n + 1)
  {
    hide Test, Shl, Shr, Small, Plus;
    AmountSmall(n);
    assert Amount(31) == 31 by { AmountTable(); }
    TestEnds(x);
    if n < 31 {
      NextSmall(Amount(n));
      TestShr(x, Amount(n));
    }
    if n > 0 {
      AmountSmall(n - 1);
      TestShl(x, Amount(n - 1));
    }
  }

  lemma {:induction false} BitShl(x: Word, k: nat, n: nat)
    requires k < 32 && n < 32 && Small(Amount(k))
    ensures Bit(Shl(x, Amount(k)), n) <==> n >= k && Bit(x, n - k)
  {
    hide Bit, Shl, Small, Plus;
    NoShift(x);
    if k > 0 {
      AmountSmall(k - 1);
      ShlStep(x, Amount(k - 1));
      BitShifted(Shl(x, Amount(k - 1)), n);
      if n > 0 { BitShl(x, k - 1, n - 1); }
    }
  }

  lemma {:induction false} BitShr(x: Word, k: nat, n: nat)
    requires k < 32 && n < 32 && Small(Amount(k))
    ensures Bit(Shr(x, Amount(k)), n) <==> n + k < 32 && Bit(x, n + k)
  {
    hide Bit, Shr, Small, Plus;
    NoShift(x);
    if k > 0 {
      AmountSmall(k - 1);
      ShrStep(x, Amount(k - 1));
      BitShifted(Shr(x, Amount(k - 1)), n);
      if n < 31 { BitShr(x, k - 1, n + 1); }
    }
  }

  lemma BitMask(x: Word, k: nat, n: nat)
    requires k < 31 && n < 32 && Small(Amount(k))
    ensures Bit(And(x, LowMask(Amount(k))), n) <==> n <= k && Bit(x, n)
  {
    hide Amount, Test, LowMask, And, Small, AtMost, Minus;
    AmountSmall(n);
    AmountSmall(k);
    TestMask(x, Amount(k), Amount(n));
    if n <= k {
      AmountOrder(n, k);
    } else {
      AmountOrder(k, n);
    }
  }

  // The word with only bit k set.
  function Mask(k: Word): Word
    requires Small(k)
  {
    Shl(1, k)
  }

  lemma RawOne(b: Word)
    requires b < 32 && b != 0
    ensures (1 as Word) & ((1 as Word) << b) == 0
  {}

  lemma TestOne(b: Word)
    requires Small(b)
    ensures Test(1, b) <==> b == 0
  {
    if b != 0 { RawOne(b); }
  }

  lemma BitOfMask(k: nat, n: nat)
    requires k < 32 && n < 32 && Small(Amount(k))
    ensures Bit(Mask(Amount(k)), n) <==> n == k
  {
    hide Test, Shl, Small, Amount;
    BitShl(1, k, n);
    if n >= k {
      AmountSmall(n - k);
      TestOne(Amount(n - k));
      assert Amount(0) == 0 by { AmountTable(); }
    }
  }

  lemma SameTests(x: Word, y: Word)
    requires (Test(x, 0) <==> Test(y, 0)) && (Test(x, 1) <==> Test(y, 1)) && (Test(x, 2) <==> Test(y, 2)) &&
      (Test(x, 3) <==> Test(y, 3)) && (Test(x, 4) <==> Test(y, 4)) && (Test(x, 5) <==> Test(y, 5)) &&
      (Test(x, 6) <==> Test(y, 6)) && (Test(x, 7) <==> Test(y, 7)) && (Test(x, 8) <==> Test(y, 8)) &&
      (Test(x, 9) <==> Test(y, 9)) && (Test(x, 10) <==> Test(y, 10)) && (Test(x, 11) <==> Test(y, 11)) &&
      (Test(x, 12) <==> Test(y, 12)) && (Test(x, 13) <==> Test(y, 13)) && (Test(x, 14) <==> Test(y, 14)) &&
      (Test(x, 15) <==> Test(y, 15)) && (Test(x, 16) <==> Test(y, 16)) && (Test(x, 17) <==> Test(y, 17)) &&
      (Test(x, 18) <==> Test(y, 18)) && (Test(x, 19) <==> Test(y, 19)) && (Test(x, 20) <==> Test(y, 20)) &&
      (Test(x, 21) <==> Test(y, 21)) && (Test(x, 22) <==> Test(y, 22)) && (Test(x, 23) <==> Test(y, 23)) &&
      (Test(x, 24) <==> Test(y, 24)) && (Test(x, 25) <==> Test(y, 25)) && (Test(x, 26) <==> Test(y, 26)) &&
      (Test(x, 27) <==> Test(y, 27)) && (Test(x, 28) <==> Test(y, 28)) && (Test(x, 29) <==> Test(y, 29)) &&
      (Test(x, 30) <==> Test(y, 30)) && (Test(x, 31) <==> Test(y, 31))
    ensures x == y
  {}

  /** Words with the same bits are the same word. */
  lemma SameBits(x: Word, y: Word)
    requires forall n: nat :: n < 32 ==> (Bit(x, n) <==> Bit(y, n))
    ensures x == y
  {
    hide Amount, Test;
    AmountTable();
    assert Bit(x, 0) == Bit(y, 0); assert Bit(x, 1) == Bit(y, 1); assert Bit(x, 2) == Bit(y, 2); assert Bit(x, 3) == Bit(y, 3);
    assert Bit(x, 4) == Bit(y, 4); assert Bit(x, 5) == Bit(y, 5); assert Bit(x, 6) == Bit(y, 6); assert Bit(x, 7) == Bit(y, 7);
    assert Bit(x, 8) == Bit(y, 8); assert Bit(x, 9) == Bit(y, 9); assert Bit(x, 10) == Bit(y, 10); assert Bit(x, 11) == Bit(y, 11);
    assert Bit(x, 12) == Bit(y, 12); assert Bit(x, 13) == Bit(y, 13); assert Bit(x, 14) == Bit(y, 14); assert Bit(x, 15) == Bit(y, 15);
    assert Bit(x, 16) == Bit(y, 16); assert Bit(x, 17) == Bit(y, 17); assert Bit(x, 18) == Bit(y, 18); assert Bit(x, 19) == Bit(y, 19);
    assert Bit(x, 20) == Bit(y, 20); assert Bit(x, 21) == Bit(y, 21); assert Bit(x, 22) == Bit(y, 22); assert Bit(x, 23) == Bit(y, 23);
    assert Bit(x, 24) == Bit(y, 24); assert Bit(x, 25) == Bit(y, 25); assert Bit(x, 26) == Bit(y, 26); assert Bit(x, 27) == Bit(y, 27);
    assert Bit(x, 28) == Bit(y, 28); assert Bit(x, 29) == Bit(y, 29); assert Bit(x, 30) == Bit(y, 30); assert Bit(x, 31) == Bit(y, 31);
    SameTests(x, y);
  }
}

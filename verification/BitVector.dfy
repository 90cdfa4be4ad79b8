/** The word-array bit vector behind every identifier (src/ba_bitvector.cc and .hh): each operation
    works word by word and is proved against its bit-by-bit meaning. Positions are split into word
    and bit by division by 32, as `>> 5` and `& 0x1F` do for non-negative numbers. */
module BitVector {
  import opened WordBits

  ghost predicate At(d: seq<Word>, p: nat)
    requires p < 32 * |d|
  {
    Bit(d[p / 32], p % 32)
  }

  // Nothing is set beyond position max.
  ghost predicate Tidy(d: seq<Word>, max: int) {
    forall p: nat :: max < p < 32 * |d| ==> !At(d, p)
  }

  // ------------------------------------------------------------------
  // From words to bits

  lemma NotBits(d: seq<Word>, e: seq<Word>, n: nat)
    requires n <= |d| == |e| && forall k :: 0 <= k < |d| ==> e[k] == if k < n then Not(d[k]) else d[k]
    ensures forall p: nat :: p < 32 * |d| ==> (At(e, p) <==> if p / 32 < n then !At(d, p) else At(d, p))
  {
    hide Bit, Not;
    forall p: nat | p < 32 * |d|
      ensures At(e, p) <==> if p / 32 < n then !At(d, p) else At(d, p)
    {
      BitOps(d[p / 32], 0, p % 32);
    }
  }

  lemma AndBits(d: seq<Word>, o: seq<Word>, e: seq<Word>, n: nat)
    requires n <= |d| == |e| && n <= |o| && forall k :: 0 <= k < |d| ==> e[k] == if k < n then And(d[k], o[k]) else d[k]
    ensures forall p: nat :: p < 32 * |d| ==> (At(e, p) <==> At(d, p) && (p / 32 < n ==> At(o, p)))
  {
    hide Bit, And;
    forall p: nat | p < 32 * |d|
      ensures At(e, p) <==> At(d, p) && (p / 32 < n ==> At(o, p))
    {
      if p / 32 < n { BitOps(d[p / 32], o[p / 32], p % 32); }
    }
  }

  lemma OrBits(d: seq<Word>, o: seq<Word>, e: seq<Word>, n: nat)
    requires n <= |d| == |e| && n <= |o| && forall k :: 0 <= k < |d| ==> e[k] == if k < n then Or(d[k], o[k]) else d[k]
    ensures forall p: nat :: p < 32 * |d| ==> (At(e, p) <==> At(d, p) || (p / 32 < n && At(o, p)))
  {
    hide Bit, Or;
    forall p: nat | p < 32 * |d|
      ensures At(e, p) <==> At(d, p) || (p / 32 < n && At(o, p))
    {
      if p / 32 < n { BitOps(d[p / 32], o[p / 32], p % 32); }
    }
  }

  // What the loop of or_with_difference leaves in a word, given which of the vectors are the same:
  // `self` if the difference goes to the vector itself, `into` if it goes to the operand.
  function OrWord(self: bool, into: bool, d: Word, o: Word): Word {
    var diff := And(o, Not(d));
    if self then (if into then Or(diff, diff) else Or(diff, o)) else if into then Or(d, diff) else Or(d, o)
  }

  lemma OrWordIs(self: bool, into: bool, d: Word, o: Word)
    ensures !self && !into ==> OrWord(self, into, d, o) == Or(d, o)
    ensures !self && into ==> OrWord(self, into, d, o) == Or(d, And(o, Not(d)))
    ensures self && !into ==> OrWord(self, into, d, o) == Or(And(o, Not(d)), o)
    ensures self && into ==> OrWord(self, into, d, o) == Or(And(o, Not(d)), And(o, Not(d)))
  {}

  lemma OrWordBits(self: bool, into: bool, d: Word, o: Word, n: nat)
    requires n < 32
    ensures Bit(And(o, Not(d)), n) <==> Bit(o, n) && !Bit(d, n)
    ensures Bit(OrWord(self, into, d, o), n) <==>
            if self then (Bit(o, n) && (into ==> !Bit(d, n))) else Bit(d, n) || Bit(o, n)
  {
    hide Bit, And, Not, Or;
    var diff := And(o, Not(d));
    BitOps(d, 0, n);
    BitOps(o, Not(d), n);
    BitOps(diff, diff, n);
    BitOps(diff, o, n);
    BitOps(d, diff, n);
    BitOps(d, o, n);
  }

  lemma DifferenceBits(self: bool, into: bool, d: seq<Word>, o: seq<Word>, e: seq<Word>, n: nat)
    requires n <= |d| == |e| && n <= |o| && forall k :: 0 <= k < |d| ==> e[k] == if k < n then OrWord(self, into, d[k], o[k]) else d[k]
    ensures forall p: nat :: p < 32 * n ==>
      (At(e, p) <==> if self then (At(o, p) && (into ==> !At(d, p))) else At(d, p) || At(o, p))
    ensures forall p: nat :: 32 * n <= p < 32 * |d| ==> (At(e, p) <==> At(d, p))
  {
    hide Bit, OrWord;
    forall p: nat | p < 32 * n
      ensures At(e, p) <==> if self then (At(o, p) && (into ==> !At(d, p))) else At(d, p) || At(o, p)
    {
      OrWordBits(self, into, d[p / 32], o[p / 32], p % 32);
    }
  }

  lemma NewBits(d: seq<Word>, o: seq<Word>, spare: seq<Word>, e: seq<Word>, n: nat)
    requires n <= |d| && n <= |o| && n <= |e| == |spare|
    requires forall k :: 0 <= k < |e| ==> e[k] == if k < n then And(o[k], Not(d[k])) else spare[k]
    ensures forall p: nat :: p < 32 * n ==> (At(e, p) <==> At(o, p) && !At(d, p))
    ensures forall p: nat :: 32 * n <= p < 32 * |e| ==> (At(e, p) <==> At(spare, p))
  {
    hide Bit, And, Not;
    forall p: nat | p < 32 * n
      ensures At(e, p) <==> At(o, p) && !At(d, p)
    {
      OrWordBits(false, false, d[p / 32], o[p / 32], p % 32);
    }
  }

  lemma SetBits(d: seq<Word>, i: nat, x: bool, e: seq<Word>)
    requires i < 32 * |d| && Small(Amount(i % 32))
    requires var m := Mask(Amount(i % 32)); e == d[i / 32 := if x then Or(d[i / 32], m) else And(d[i / 32], Not(m))]
    ensures forall p: nat :: p < 32 * |d| ==> (At(e, p) <==> if p == i then x else At(d, p))
  {
    hide Bit, And, Not, Or, Mask, Amount, Small;
    forall p: nat | p < 32 * |d|
      ensures At(e, p) <==> if p == i then x else At(d, p)
    {
      if p / 32 == i / 32 {
        var m := Mask(Amount(i % 32));
        BitOfMask(i % 32, p % 32);
        BitOps(d[i / 32], m, p % 32);
        BitOps(m, 0, p % 32);
        BitOps(d[i / 32], Not(m), p % 32);
        assert p == i <==> p % 32 == i % 32;
      }
    }
  }

  /** Equal words are equal bits, and the other way round. */
  lemma {:induction false} SameWords(d: seq<Word>, e: seq<Word>, n: nat)
    requires n <= |d| && n <= |e|
    ensures d[..n] == e[..n] <==> forall p: nat :: p < 32 * n ==> (At(d, p) <==> At(e, p))
  {
    hide Bit;
    if forall p: nat :: p < 32 * n ==> (At(d, p) <==> At(e, p)) {
      forall k | 0 <= k < n
        ensures d[k] == e[k]
      {
        forall b: nat | b < 32
          ensures Bit(d[k], b) <==> Bit(e[k], b)
        {
          var p := 32 * k + b;
          assert p / 32 == k && p % 32 == b;
          assert At(d, p) <==> At(e, p);
        }
        SameBits(d[k], e[k]);
      }
    }
    if d[..n] == e[..n] {
      forall p: nat | p < 32 * n
        ensures At(d, p) <==> At(e, p)
      {
        assert d[p / 32] == d[..n][p / 32] && e[p / 32] == e[..n][p / 32];
      }
    }
  }

  lemma ZeroWord(w: Word)
    ensures w == 0 <==> forall b: nat :: b < 32 ==> !Bit(w, b)
  {
    hide Bit;
    forall b: nat | b < 32
      ensures !Bit(0, b)
    {
      BitOps(0, 0, b);
    }
    if forall b: nat :: b < 32 ==> !Bit(w, b) { SameBits(w, 0); }
  }

  lemma ZeroWords(d: seq<Word>, n: nat)
    requires n <= |d| && forall k :: 0 <= k < n ==> d[k] == 0
    ensures forall p: nat :: p < 32 * n ==> !At(d, p)
  {
    hide Bit;
    forall p: nat | p < 32 * n
      ensures !At(d, p)
    {
      ZeroWord(d[p / 32]);
    }
  }

  lemma SomeBit(d: seq<Word>, k: nat) returns (p: nat)
    requires k < |d| && d[k] != 0
    ensures p < 32 * |d| && p / 32 == k && At(d, p)
  {
    hide Bit;
    ZeroWord(d[k]);
    var b: nat :| b < 32 && Bit(d[k], b);
    p := 32 * k + b;
    assert p / 32 == k && p % 32 == b;
  }

  // The last word cut to its lowest bits.
  lemma CutBits(d: seq<Word>, max: nat, e: seq<Word>)
    requires max < 32 * |d| && max % 32 != 31 && Small(Amount(max % 32))
    requires e == d[max / 32 := And(d[max / 32], LowMask(Amount(max % 32)))]
    ensures forall p: nat :: p < 32 * |d| ==> (At(e, p) <==> At(d, p) && (p <= max || p / 32 != max / 32))
  {
    hide Bit, And, LowMask, Amount, Small;
    forall p: nat | p < 32 * |d|
      ensures At(e, p) <==> At(d, p) && (p <= max || p / 32 != max / 32)
    {
      if p / 32 == max / 32 {
        BitMask(d[max / 32], max % 32, p % 32);
        assert p <= max <==> p % 32 <= max % 32;
      }
    }
  }

  // ------------------------------------------------------------------
  // Or at an offset

  // Position p lies in the image of word j of o moved up by offset, and that bit is set.
  ghost predicate Hit(o: seq<Word>, offset: nat, j: nat, p: nat)
    requires j < |o|
  {
    offset + 32 * j <= p < offset + 32 * j + 32 && At(o, p - offset)
  }

  // The part of word j that stays in its first word.
  lemma LowPart(d: seq<Word>, o: seq<Word>, offset: nat, j: nat, e: seq<Word>)
    requires j < |o| && offset / 32 + j < |d| && Small(Amount(offset % 32))
    requires var m := offset / 32 + j; e == d[m := Or(d[m], Shl(o[j], Amount(offset % 32)))]
    ensures forall p: nat :: p < 32 * |d| ==> (At(e, p) <==> At(d, p) || (p / 32 == offset / 32 + j && Hit(o, offset, j, p)))
  {
    hide Bit, Or, Shl, Amount, Small;
    var m, k := offset / 32 + j, offset % 32;
    forall p: nat | p < 32 * |d|
      ensures At(e, p) <==> At(d, p) || (p / 32 == m && Hit(o, offset, j, p))
    {
      if p / 32 == m {
        BitOps(d[m], Shl(o[j], Amount(k)), p % 32);
        BitShl(o[j], k, p % 32);
        LowPosition(offset, j, p);
      }
    }
  }

  lemma LowPosition(offset: nat, j: nat, p: nat)
    requires p / 32 == offset / 32 + j
    ensures p % 32 >= offset % 32 <==> offset + 32 * j <= p < offset + 32 * j + 32
    ensures p % 32 >= offset % 32 ==> p >= offset && (p - offset) / 32 == j && (p - offset) % 32 == p % 32 - offset % 32
  {
    if p % 32 >= offset % 32 {
      assert p - offset == 32 * j + (p % 32 - offset % 32);
    }
  }

  lemma HighPosition(offset: nat, j: nat, p: nat)
    requires p / 32 == offset / 32 + j + 1
    ensures p % 32 < offset % 32 <==> offset + 32 * j <= p < offset + 32 * j + 32
    ensures p % 32 < offset % 32 ==> p >= offset && (p - offset) / 32 == j && (p - offset) % 32 == p % 32 + 32 - offset % 32
  {
    if p % 32 < offset % 32 {
      assert p - offset == 32 * j + (p % 32 + 32 - offset % 32);
    }
  }

  // The part that spills into the next word.
  lemma HighPart(d: seq<Word>, o: seq<Word>, offset: nat, j: nat, e: seq<Word>)
    requires j < |o| && offset / 32 + j + 1 < |d| && offset % 32 > 0 && Small(Minus(32, Amount(offset % 32)))
    requires var m := offset / 32 + j + 1; e == d[m := Or(d[m], Shr(o[j], Minus(32, Amount(offset % 32))))]
    ensures forall p: nat :: p < 32 * |d| ==> (At(e, p) <==> At(d, p) || (p / 32 == offset / 32 + j + 1 && Hit(o, offset, j, p)))
  {
    hide Bit, Or, Shr, Amount, Small, Minus;
    var m, k := offset / 32 + j + 1, offset % 32;
    AmountRest(k);
    forall p: nat | p < 32 * |d|
      ensures At(e, p) <==> At(d, p) || (p / 32 == m && Hit(o, offset, j, p))
    {
      if p / 32 == m {
        BitOps(d[m], Shr(o[j], Amount(32 - k)), p % 32);
        BitShr(o[j], 32 - k, p % 32);
        HighPosition(offset, j, p);
      }
    }
  }

  // What is set after the first n words of o.
  ghost predicate Moved(d: seq<Word>, o: seq<Word>, offset: nat, n: nat, e: seq<Word>) {
    && |e| == |d| && n <= |o|
    && forall p: nat :: p < 32 * |d| ==> (At(e, p) <==> At(d, p) || (offset <= p < offset + 32 * n && At(o, p - offset)))
  }

  lemma MovedStart(d: seq<Word>, o: seq<Word>, offset: nat)
    ensures Moved(d, o, offset, 0, d)
  {
    hide At;
  }

  // A moved word covers its first word and the next one, only the first if the offset is aligned.
  lemma HitWords(o: seq<Word>, offset: nat, j: nat, p: nat)
    requires j < |o| && Hit(o, offset, j, p)
    ensures p / 32 == offset / 32 + j || (p / 32 == offset / 32 + j + 1 && offset % 32 > 0)
  {
    hide At;
  }

  // Both parts written, or only the first where nothing of the word reaches the second.
  lemma MovedStep(d: seq<Word>, o: seq<Word>, offset: nat, n: nat, e: seq<Word>, f: seq<Word>, second: bool)
    requires Moved(d, o, offset, n, e) && n < |o| && |f| == |e|
    requires forall p: nat :: p < 32 * |e| ==> (At(f, p) <==>
      At(e, p) || ((p / 32 == offset / 32 + n || (second && p / 32 == offset / 32 + n + 1)) && Hit(o, offset, n, p)))
    requires !second ==> forall p: nat :: p < 32 * |e| && p / 32 == offset / 32 + n + 1 ==> !Hit(o, offset, n, p)
    ensures Moved(d, o, offset, n + 1, f)
  {
    hide At;
    forall p: nat | p < 32 * |d|
      ensures At(f, p) <==> At(d, p) || (offset <= p < offset + 32 * (n + 1) && At(o, p - offset))
    {
      if Hit(o, offset, n, p) { HitWords(o, offset, n, p); }
    }
  }

  // All of o has been moved: the documented per-bit loop.
  lemma MovedAll(d: seq<Word>, o: seq<Word>, oMax: int, offset: nat, n: nat, e: seq<Word>)
    requires Moved(d, o, offset, n, e) && Tidy(o, oMax) && oMax < 32 * n
    ensures forall p: nat :: p < 32 * |d| ==>
      (At(e, p) <==> At(d, p) || (offset <= p <= offset + oMax && p - offset < 32 * |o| && At(o, p - offset)))
  {
    hide At;
  }

  // Beyond the last used bit of o nothing is hit.
  lemma NoHits(o: seq<Word>, oMax: int, offset: nat, j: nat, from: nat)
    requires j < |o| && Tidy(o, oMax) && offset + oMax < from
    ensures forall p: nat :: p >= from ==> !Hit(o, offset, j, p)
  {
    hide At;
  }

  class BABitvector {
    var max: int
    var data: seq<Word>

    ghost predicate Valid()
      reads this
    {
      -1 <= max < 32 * |data| && |data| >= 2
    }

    ghost predicate Clean()
      reads this
    {
      Valid() && Tidy(data, max)
    }

    function Words(): nat
      requires Valid()
      reads this
    {
      if max < 0 then 0 else max / 32 + 1
    }

    constructor (n: nat)
      ensures Clean() && max == n - 1 && forall p: nat :: p < 32 * |data| ==> !At(data, p)
    {
      max := n - 1;
      data := seq(if n > 64 then (n - 1) / 32 + 1 else 2, i => 0);
      new;
      ZeroWords(data, |data|);
    }

    // One bit as the source reads it.
    method Get(i: nat) returns (b: bool)
      requires Valid() && i <= max
      ensures b <==> At(data, i)
    {
      AmountSmall(i % 32);
      b := Test(data[i / 32], Amount(i % 32));
    }

    // One bit as the source writes it.
    method Set(i: nat, x: bool)
      requires Valid() && i <= max
      modifies this`data
      ensures Valid() && |data| == |old(data)| && (old(Clean()) ==> Clean())
      ensures forall p: nat :: p < 32 * |data| ==> (At(data, p) <==> if p == i then x else At(old(data), p))
    {
      hide At, Mask, Amount, Small, Or, And, Not;
      AmountSmall(i % 32);
      var mask := Mask(Amount(i % 32));
      SetBits(data, i, x, data[i / 32 := if x then Or(data[i / 32], mask) else And(data[i / 32], Not(mask))]);
      data := data[i / 32 := if x then Or(data[i / 32], mask) else And(data[i / 32], Not(mask))];
    }

    method Zero() returns (zero: bool)
      requires Clean()
      ensures zero <==> forall p: nat :: p <= max ==> !At(data, p)
    {
      hide At;
      for i := 0 to Words()
        invariant forall k :: 0 <= k < i ==> data[k] == 0
      {
        if data[i] != 0 {
          ghost var p := SomeBit(data, i);
          assert At(data, p) && p <= max;
          return false;
        }
      }
      ZeroWords(data, Words());
      return true;
    }

    /** Comparing the stored words compares the bits, because unused bits are zero. */
    method Equals(o: BABitvector) returns (same: bool)
      requires Clean() && o.Clean()
      ensures same <==> max == o.max && forall p: nat :: p <= max ==> (At(data, p) <==> At(o.data, p))
    {
      hide At;
      if max != o.max {
        return false;
      }
      var n := if max <= 63 then 2 else Words();
      SameWords(data, o.data, n);
      same := data[..n] == o.data[..n];
    }

    method ClearLast()
      requires Valid()
      modifies this`data
      ensures Valid() && |data| == |old(data)|
      ensures var last := if max < 0 then 0 else max / 32;
        forall p: nat :: p < 32 * |data| ==> (At(data, p) <==> At(old(data), p) && (p <= max || p / 32 != last))
    {
      hide Bit, And, LowMask, Amount, Small;
      if max < 0 {
        data := data[0 := 0];
        ZeroWords(data, 1);
      } else if max % 32 != 31 {
        AmountSmall(max % 32);
        CutBits(data, max, data[max / 32 := And(data[max / 32], LowMask(Amount(max % 32)))]);
        data := data[max / 32 := And(data[max / 32], LowMask(Amount(max % 32)))];
      }
    }

    /** Every bit is flipped and the unused ones stay zero. */
    method Negate()
      requires Clean()
      modifies this`data
      ensures Clean() && |data| == |old(data)| && forall p: nat :: p <= max ==> (At(data, p) <==> !At(old(data), p))
    {
      hide At, Not;
      ghost var was := data;
      for i := 0 to Words()
        invariant |data| == |was| && forall k :: 0 <= k < |data| ==> data[k] == if k < i then Not(was[k]) else was[k]
      {
        data := data[i := Not(data[i])];
      }
      NotBits(was, data, Words());
      ClearLast();
    }

    /** The bitwise and of two vectors of the same size. */
    method AndWith(o: BABitvector)
      requires Clean() && o.Clean() && o.max == max
      modifies this`data
      ensures Clean() && |data| == |old(data)| && forall p: nat :: p <= max ==> (At(data, p) <==> At(old(data), p) && At(old(o.data), p))
    {
      hide At, And;
      ghost var was, other := data, o.data;
      for i := 0 to Words()
        invariant |data| == |was| && (o != this ==> o.data == other)
        invariant forall k :: 0 <= k < |data| ==> data[k] == if k < i then And(was[k], other[k]) else was[k]
      {
        data := data[i := And(data[i], o.data[i])];
      }
      AndBits(was, other, data, Words());
    }

    /** A longer operand makes this vector grow first. */
    method OrWith(o: BABitvector)
      requires Clean() && o.Clean() && o.max >= max
      modifies this`data, this`max
      ensures Clean() && max == old(o.max)
      ensures forall p: nat :: p <= max ==> (At(data, p) <==> (p <= old(max) && At(old(data), p)) || At(old(o.data), p))
    {
      hide At, Or;
      if o.max > max {
        Resize(o.max + 1);
      }
      ghost var was, other := data, o.data;
      for i := 0 to Words()
        invariant max == old(o.max)
        invariant |data| == |was| && (o != this ==> o.data == other)
        invariant forall k :: 0 <= k < |data| ==> data[k] == if k < i then Or(was[k], other[k]) else was[k]
      {
        data := data[i := Or(data[i], o.data[i])];
      }
      OrBits(was, other, data, Words());
    }

    // One word, with whatever of the vectors is the same.
    method OrOne(o: BABitvector, diff: BABitvector, i: nat)
      requires i < |data| && i < |o.data| && i < |diff.data|
      modifies this`data, diff`data
      ensures data == old(data)[i := OrWord(diff == this, diff == o, old(data)[i], old(o.data)[i])]
      ensures diff != this ==> diff.data == old(diff.data)[i := And(old(o.data)[i], Not(old(data)[i]))]
    {
      hide Or, And, Not, OrWord;
      OrWordIs(diff == this, diff == o, data[i], o.data[i]);
      diff.data := diff.data[i := And(o.data[i], Not(data[i]))];
      data := data[i := Or(data[i], o.data[i])];
    }

    // The word loop, once diff has the right size.
    method OrInto(o: BABitvector, diff: BABitvector)
      requires Valid() && o.Valid() && diff.Valid() && o.max == max && diff.max == max
      modifies this`data, diff`data
      ensures |data| == |old(data)| && |diff.data| == |old(diff.data)|
      ensures forall k :: 0 <= k < |data| ==>
        data[k] == if k < Words() then OrWord(diff == this, diff == o, old(data)[k], old(o.data)[k]) else old(data)[k]
      ensures diff != this ==> forall k :: 0 <= k < |diff.data| ==>
        diff.data[k] == if k < Words() then And(old(o.data)[k], Not(old(data)[k])) else old(diff.data)[k]
    {
      hide Or, And, Not, OrWord;
      ghost var was, other, spare := data, o.data, diff.data;
      for i := 0 to Words()
        invariant |data| == |was| && |diff.data| == |spare|
        invariant o != this && o != diff ==> o.data == other
        invariant forall k :: 0 <= k < |data| ==> data[k] == if k < i then OrWord(diff == this, diff == o, was[k], other[k]) else was[k]
        invariant diff != this ==> forall k :: 0 <= k < |spare| ==> diff.data[k] == if k < i then And(other[k], Not(was[k])) else spare[k]
      {
        OrOne(o, diff, i);
      }
    }

    /** The new bits go to diff, which is first brought to size. If diff is the vector itself it ends
        up as the operand, and as nothing if it is the operand too. */
    method OrWithDifference(o: BABitvector, diff: BABitvector)
      requires Clean() && o.Clean() && diff.Valid() && o.max == max
      modifies this`data, diff`data, diff`max
      ensures Clean() && diff.Valid() && max == old(max) && diff.max == max
      ensures diff != this ==> forall p: nat :: p <= max ==> (At(data, p) <==> At(old(data), p) || At(old(o.data), p))
      ensures diff != this ==> forall p: nat :: p <= max ==> (At(diff.data, p) <==> At(old(o.data), p) && !At(old(data), p))
      ensures diff == this ==> forall p: nat :: p <= max ==> (At(data, p) <==> o != this && At(old(o.data), p))
      ensures old(diff.Clean()) && old(diff.max) <= max ==> diff.Clean()
    {
      hide At, Or, And, Not, OrWord;
      ghost var was, other := data, o.data;
      if diff.max != max {
        diff.Resize(max + 1);
      }
      ghost var spare := diff.data;
      OrInto(o, diff);
      DifferenceBits(diff == this, diff == o, was, other, data, Words());
      if diff != this { NewBits(was, other, spare, diff.data, Words()); }
    }

    /** Resizing only moves the end. A bit that becomes part of the vector is what was left in the
        stored words, so added bits are false exactly when nothing was left there, and unused bits stay
        zero exactly when those beyond the new end were. */
    method Resize(n: nat)
      requires Valid()
      modifies this`data, this`max
      ensures Valid() && max == n - 1 && |data| >= Kept(old(max), |old(data)|, n)
      ensures forall p: nat :: p < 32 * |data| ==> (At(data, p) <==> p < 32 * Kept(old(max), |old(data)|, n) && At(old(data), p))
      ensures (forall p: nat :: old(max) < p <= max ==> !At(data, p)) <==>
              (forall p: nat :: old(max) < p <= max && p < 32 * Kept(old(max), |old(data)|, n) ==> !At(old(data), p))
      ensures Clean() <==> forall p: nat :: max < p < 32 * Kept(old(max), |old(data)|, n) ==> !At(old(data), p)
    {
      hide At;
      ghost var was := data;
      if n - 1 > 63 {
        var want := (n - 1) / 32 + 1;
        var have := if Words() < 2 then 2 else Words();
        if want > have {
          data := data[..have] + seq(want - have, i => 0);
          Extended(was, have, data);
        }
      }
      max := n - 1;
    }

    /** Shrinking and growing again brings back the dropped bits: the added bits are false exactly when
        those in the kept words were. */
    method ShrinkAndGrow(n: nat, m: nat)
      requires Clean() && n <= m <= max + 1
      modifies this`data, this`max
      ensures Valid() && max == m - 1
      ensures forall p: nat :: n <= p < m ==> (At(data, p) <==> p < 32 * Kept(n - 1, |old(data)|, m) && At(old(data), p))
    {
      hide At;
      Resize(n);
      Resize(m);
    }

    /** Ten bits with the last one set, cut to five and extended to ten again: the added bit is true. */
    static method StaleBitReturns() returns (v: BABitvector)
      ensures v.Valid() && v.max == 9 && At(v.data, 9)
    {
      hide At;
      v := new BABitvector(10);
      v.Set(9, true);
      v.Resize(5);
      v.Resize(10);
    }

    // The low part of a word of the operand.
    method OrLow(val: Word, offset: nat, j: nat, ghost other: seq<Word>)
      requires j < |other| && val == other[j] && offset / 32 + j < |data|
      modifies this`data
      ensures |data| == |old(data)|
      ensures forall p: nat :: p < 32 * |data| ==> (At(data, p) <==> At(old(data), p) || (p / 32 == offset / 32 + j && Hit(other, offset, j, p)))
    {
      hide At, Or, Shl, Small, Amount, Hit;
      AmountSmall(offset % 32);
      var my := offset / 32 + j;
      LowPart(data, other, offset, j, data[my := Or(data[my], Shl(val, Amount(offset % 32)))]);
      data := data[my := Or(data[my], Shl(val, Amount(offset % 32)))];
    }

    // What of it goes into the next word.
    method OrHigh(val: Word, offset: nat, j: nat, ghost other: seq<Word>)
      requires j < |other| && val == other[j] && offset / 32 + j + 1 < |data| && offset % 32 > 0
      modifies this`data
      ensures |data| == |old(data)|
      ensures forall p: nat :: p < 32 * |data| ==>
        (At(data, p) <==> At(old(data), p) || (p / 32 == offset / 32 + j + 1 && Hit(other, offset, j, p)))
    {
      hide At, Or, Shr, Small, Amount, Minus, Hit;
      AmountRest(offset % 32);
      AmountSmall(32 - offset % 32);
      var my := offset / 32 + j + 1;
      HighPart(data, other, offset, j, data[my := Or(data[my], Shr(val, Minus(32, Amount(offset % 32))))]);
      data := data[my := Or(data[my], Shr(val, Minus(32, Amount(offset % 32))))];
    }

    // One turn of the loop; `last` when the vector's own words are used up.
    method OrShifted(val: Word, offset: nat, j: nat, ghost other: seq<Word>, ghost oMax: int, ghost was: seq<Word>) returns (last: bool)
      requires Valid() && Tidy(other, oMax) && offset + oMax <= max && j < |other| && val == other[j] && offset / 32 + j < |data|
      requires Moved(was, other, offset, j, data)
      modifies this`data
      ensures |data| == |old(data)| && Moved(was, other, offset, j + 1, data) && last == (offset / 32 + j + 1 > max / 32 || max < 0)
    {
      hide At, Moved, Hit;
      ghost var now := data;
      OrLow(val, offset, j, other);
      ghost var low := data;
      last := offset / 32 + j + 1 >= Words();
      if last {
        NoHits(other, oMax, offset, j, 32 * Words());
        MovedStep(was, other, offset, j, now, data, false);
      } else if offset % 32 > 0 {
        OrHigh(val, offset, j, other);
        MovedStep(was, other, offset, j, now, data, true);
      } else {
        Aligned(other, offset, j);
        MovedStep(was, other, offset, j, now, data, false);
      }
    }

    /** Or-ing o in at an offset is the loop over its bits, whatever the offset is, also across word
        boundaries. The word where o would start must exist. */
    method OffsetOr(o: BABitvector, offset: nat)
      requires Clean() && o.Clean() && offset + o.max <= max && offset / 32 < |data|
      modifies this`data
      ensures Clean() && |data| == |old(data)|
      ensures forall p: nat :: p <= max ==>
        (At(data, p) <==> At(old(data), p) || (offset <= p <= offset + o.max && At(old(o.data), p - offset)))
    {
      hide At, Moved;
      ghost var was, other := data, o.data;
      MovedStart(was, other, offset);
      var j := 0;
      while true
        invariant |data| == |was| && j < |o.data| && offset / 32 + j < |data| && (j > 0 ==> j < o.Words()) && o.data == other
        invariant Moved(was, other, offset, j, data) && Tidy(data, max)
        decreases |o.data| - j
      {
        var last := OrShifted(o.data[j], offset, j, other, o.max, was);
        MovedTidy(was, max, other, o.max, offset, j + 1, data);
        if o == this { MovedOntoItself(was, offset, j + 1, data); }
        j := j + 1;
        if last || j >= o.Words() {
          break;
        }
      }
      MovedAll(was, other, o.max, offset, j, data);
    }

    /** The Forwarder's all-ones test: negate a copy and ask whether it is zero. */
    method AllOnes() returns (all: bool)
      requires Clean()
      ensures all <==> forall p: nat :: p <= max ==> At(data, p)
    {
      hide At;
      var copy := new BABitvector.Copy(this);
      copy.Negate();
      all := copy.Zero();
    }

    constructor Copy(o: BABitvector)
      requires o.Clean()
      ensures Clean() && max == o.max && data == o.data
    {
      max, data := o.max, o.data;
    }
  }

  // Of a vector with last bit max in `size` words, those that a resize to n bits keeps: all, unless it
  // moves to a larger array.
  function Kept(max: int, size: nat, n: nat): (k: nat)
    requires -1 <= max && 2 <= size && max < 32 * size
    ensures k <= size
  {
    var have := if max / 32 + 1 < 2 then 2 else max / 32 + 1;
    if n > 64 && (n - 1) / 32 + 1 > have then have else size
  }

  // Or-ing a vector onto itself in place changes nothing.
  lemma MovedOntoItself(d: seq<Word>, offset: nat, n: nat, e: seq<Word>)
    requires offset == 0 && Moved(d, d, offset, n, e)
    ensures e == d
  {
    hide At;
    SameWords(e, d, |d|);
    assert e[..|d|] == e && d[..|d|] == d;
  }

  lemma Aligned(o: seq<Word>, offset: nat, j: nat)
    requires j < |o| && offset % 32 == 0
    ensures forall p: nat :: p / 32 == offset / 32 + j + 1 ==> !Hit(o, offset, j, p)
  {
    hide At;
  }

  lemma MovedTidy(d: seq<Word>, max: int, o: seq<Word>, oMax: int, offset: nat, n: nat, e: seq<Word>)
    requires Moved(d, o, offset, n, e) && Tidy(d, max) && Tidy(o, oMax) && offset + oMax <= max
    ensures Tidy(e, max)
  {
    hide At;
  }

  lemma Extended(d: seq<Word>, n: nat, e: seq<Word>)
    requires n <= |d| && n <= |e| && e[..n] == d[..n] && forall k :: n <= k < |e| ==> e[k] == 0
    ensures forall p: nat :: p < 32 * n ==> (At(e, p) <==> At(d, p))
    ensures forall p: nat :: 32 * n <= p < 32 * |e| ==> !At(e, p)
  {
    hide Bit;
    forall p: nat | p < 32 * n
      ensures At(e, p) <==> At(d, p)
    {
      assert e[p / 32] == e[..n][p / 32] && d[p / 32] == d[..n][p / 32];
    }
    forall p: nat | 32 * n <= p < 32 * |e|
      ensures !At(e, p)
    {
      ZeroWord(e[p / 32]);
    }
  }
}

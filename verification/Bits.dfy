/**
 Flag words as sets of bit numbers.  The library keeps presence bits, filters and
 interface flags in machine words; the model keeps the set of their one-bits.  The
 lemmas show, on 32-bit words, that the word operations are exactly the set operations.
 */
module Bits {

  /** The number of a bit in a 32-bit word, and the shift count it stands for. */
  type bit = n: int | 0 <= n < 32
  type shift = bv5

  /** A 32-bit word as the set of its one-bits. */
  type flags32 = set<bit>

  const ALL_FLAGS: flags32 := set b: bit | 0 <= b < 32

  predicate IsOne(w: bv32, i: shift) {
    (w >> i) & 1 == 1
  }

  predicate Bit(w: bv32, b: bit) {
    IsOne(w, b as bv5)
  }

  function Ones(w: bv32): flags32 {
    set b: bit | 0 <= b < 32 && Bit(w, b)
  }

  lemma BitOr(x: bv32, y: bv32, i: shift)
    ensures IsOne(x | y, i) <==> IsOne(x, i) || IsOne(y, i)
  {
  }

  lemma BitAnd(x: bv32, y: bv32, i: shift)
    ensures IsOne(x & y, i) <==> IsOne(x, i) && IsOne(y, i)
  {
  }

  lemma BitAndNot(x: bv32, y: bv32, i: shift)
    ensures IsOne(x & !y, i) <==> IsOne(x, i) && !IsOne(y, i)
  {
  }

  lemma BitShift(k: shift, i: shift)
    ensures IsOne(1 << k, i) <==> i == k
  {
  }

  lemma BitFull(i: shift)
    ensures IsOne(0xFFFF_FFFF, i) && !IsOne(0, i)
  {
  }

  lemma OrIsUnion(x: bv32, y: bv32)
    ensures Ones(x | y) == Ones(x) + Ones(y)
  {
    forall b: bit
      ensures Bit(x | y, b) <==> Bit(x, b) || Bit(y, b)
    {
      BitOr(x, y, b as bv5);
    }
  }

  lemma AndIsIntersection(x: bv32, y: bv32)
    ensures Ones(x & y) == Ones(x) * Ones(y)
  {
    forall b: bit
      ensures Bit(x & y, b) <==> Bit(x, b) && Bit(y, b)
    {
      BitAnd(x, y, b as bv5);
    }
  }

  lemma AndNotIsDifference(x: bv32, y: bv32)
    ensures Ones(x & !y) == Ones(x) - Ones(y)
  {
    forall b: bit
      ensures Bit(x & !y, b) <==> Bit(x, b) && !Bit(y, b)
    {
      BitAndNot(x, y, b as bv5);
    }
  }

  /** 0xFFFFFFFF and 0. */
  lemma FullAndEmpty()
    ensures Ones(0xFFFF_FFFF) == ALL_FLAGS && Ones(0) == {}
  {
    forall b: bit
      ensures Bit(0xFFFF_FFFF, b) && !Bit(0, b)
    {
      BitFull(b as bv5);
    }
  }

  /** MNLXT_FLAG: a one shifted to a bit number is the set of just that number. */
  lemma FlagMacro(k: bit)
    ensures Ones(1 << (k as bv5)) == {k}
  {
    var w: bv32 := 1 << (k as bv5);
    forall b: bit
      ensures Bit(w, b) <==> b == k
    {
      BitShift(k as bv5, b as bv5);
      assert b as bv5 == k as bv5 ==> (b as bv5) as int == (k as bv5) as int;
    }
  }

  /** The words agree on the bits up to n. */
  predicate LowBitsAgree(x: bv32, y: bv32, n: shift) {
    x << (31 - n) == y << (31 - n)
  }

  lemma NextBitAgrees(x: bv32, y: bv32, n: shift)
    requires n < 31 && LowBitsAgree(x, y, n) && IsOne(x, n + 1) == IsOne(y, n + 1)
    ensures LowBitsAgree(x, y, n + 1)
  {
  }

  lemma FirstBitAgrees(x: bv32, y: bv32)
    requires IsOne(x, 0) == IsOne(y, 0)
    ensures LowBitsAgree(x, y, 0)
  {
  }

  lemma {:induction false} AgreeUpTo(x: bv32, y: bv32, n: shift)
    requires forall i: shift :: IsOne(x, i) == IsOne(y, i)
    ensures LowBitsAgree(x, y, n)
    decreases n
  {
    if n == 0 {
      FirstBitAgrees(x, y);
    } else {
      var m: shift := n - 1;
      AgreeUpTo(x, y, m);
      NextBitAgrees(x, y, m);
    }
  }

  lemma AllBitsAgree(x: bv32, y: bv32)
    requires LowBitsAgree(x, y, 31)
    ensures x == y
  {
  }

  /** A word is determined by its one-bits, so comparing words is comparing sets. */
  lemma OnesInjective(x: bv32, y: bv32)
    requires Ones(x) == Ones(y)
    ensures x == y
  {
    forall i: shift
      ensures IsOne(x, i) == IsOne(y, i)
    {
      var b: bit := i as int;
      assert b in Ones(x) <==> b in Ones(y);
    }
    AgreeUpTo(x, y, 31);
    AllBitsAgree(x, y);
  }
}

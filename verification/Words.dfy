/** 64-bit words, powers of two and the second-level hash function. */
module Words {

  const TWO_64: nat := 0x1_0000_0000_0000_0000

  /** A stored value: a column cell, a join key or a filter constant (`myint_t`). */
  type Word = x: int | 0 <= x < 0x1_0000_0000_0000_0000

  /** The words are the numbers that 64 bits hold, from 0 to the largest. */
  lemma WordRange(w: Word) returns (top: Word)
    ensures 0 <= w <= top == TWO_64 - 1 && TWO_64 == Pow2(64)
  {
    PowerOf63();
    top := TWO_64 - 1;
  }

  datatype Option<+T> = None | Some(value: T)

  function Pow2(n: nat): (p: nat)
    ensures p > 0
  {
    if n == 0 then 1 else 2 * Pow2(n - 1)
  }

  lemma {:induction false} Pow2Monotone(a: nat, b: nat)
    requires a <= b
    ensures Pow2(a) <= Pow2(b)
    ensures a < b ==> 2 * Pow2(a) <= Pow2(b)
  {
    if a < b {
      Pow2Monotone(a, b - 1);
    }
  }

  lemma {:induction false} Pow2AtLeast(n: nat)
    ensures Pow2(n) > n
  {
    if n > 0 {
      Pow2AtLeast(n - 1);
    }
  }

  /** The integer part of the base-two logarithm, as the truncated `log2`. */
  function Log2(n: nat): (l: nat)
    requires n > 0
    ensures Pow2(l) <= n < 2 * Pow2(l)
  {
    if n == 1 then 0 else 1 + Log2(n / 2)
  }

  /** `log2` of an index array's size gives back the exponent it was sized with. */
  lemma Log2OfPow2(h: nat)
    ensures Log2(Pow2(h)) == h
  {
    var l := Log2(Pow2(h));
    if l < h {
      Pow2Monotone(l, h);
    } else if h < l {
      Pow2Monotone(h, l);
    }
  }

  /** Bit `i` of `m`. */
  predicate TestBit(m: nat, i: nat)
    decreases i
  {
    if i == 0 then m % 2 == 1 else TestBit(m / 2, i - 1)
  }

  /** Bitwise exclusive or. */
  function Xor(a: nat, b: nat): nat {
    if a == 0 && b == 0 then 0 else (a + b) % 2 + 2 * Xor(a / 2, b / 2)
  }

  /** `value >> n` */
  function ShiftRight(value: nat, n: nat): nat
    decreases n
  {
    if n == 0 then value else ShiftRight(value / 2, n - 1)
  }

  /** `value & (2^bits - 1)` */
  function Mask(value: nat, bits: nat): (m: nat)
    ensures m < Pow2(bits)
    decreases bits
  {
    if bits == 0 then 0 else value % 2 + 2 * Mask(value / 2, bits - 1)
  }

  /** The hash that picks a chain inside one bucket: the key is shifted past the bits the
      first hash used, folded twice and masked to `hash2` bits. */
  function Hashing(value: nat, hash1: nat, hash2: nat): (h: nat)
    ensures h < Pow2(hash2)
  {
    var v := ShiftRight(value, hash1);
    Mask(Xor(Xor(v, ShiftRight(v, hash1 + 3)), ShiftRight(v, hash1 + 5)), hash2)
  }

  lemma {:induction false} XorBit(a: nat, b: nat, i: nat)
    ensures TestBit(Xor(a, b), i) <==> TestBit(a, i) != TestBit(b, i)
    decreases i
  {
    XorHalf(a, b);
    if i > 0 {
      hide Xor;
      XorBit(a / 2, b / 2, i - 1);
    }
  }

  lemma XorHalf(a: nat, b: nat)
    ensures Xor(a, b) / 2 == Xor(a / 2, b / 2)
    ensures Xor(a, b) % 2 == 1 <==> a % 2 != b % 2
  {
    if a != 0 || b != 0 {
      var bit, rest := (a + b) % 2, Xor(a / 2, b / 2);
      assert Xor(a, b) == bit + 2 * rest;
      hide Xor;
      LowBit(bit, rest);
      Parity(a, b);
    }
  }

  lemma LowBit(bit: nat, rest: nat)
    requires bit < 2
    ensures (bit + 2 * rest) / 2 == rest && (bit + 2 * rest) % 2 == bit
  {
  }

  lemma Parity(a: nat, b: nat)
    ensures (a + b) % 2 == 1 <==> a % 2 != b % 2
  {
  }

  lemma {:induction false} ShiftBit(value: nat, n: nat, i: nat)
    ensures TestBit(ShiftRight(value, n), i) <==> TestBit(value, i + n)
    decreases n
  {
    if n > 0 {
      ShiftBit(value / 2, n - 1, i);
    }
  }

  lemma {:induction false} MaskBit(value: nat, bits: nat, i: nat)
    ensures TestBit(Mask(value, bits), i) <==> i < bits && TestBit(value, i)
    decreases bits, i
  {
    if bits == 0 {
      ZeroBit(i);
    } else if i > 0 {
      assert Mask(value, bits) / 2 == Mask(value / 2, bits - 1);
      MaskBit(value / 2, bits - 1, i - 1);
    }
  }

  lemma {:induction false} ZeroBit(i: nat)
    ensures !TestBit(0, i)
  {
    if i > 0 {
      ZeroBit(i - 1);
    }
  }

  /** Bit by bit: the key's bits past the first hash, folded with those hash1 + 3 and hash1 + 5 places further. */
  lemma HashingBit(value: nat, hash1: nat, hash2: nat, i: nat)
    ensures TestBit(Hashing(value, hash1, hash2), i)
       <==> && i < hash2
            && (TestBit(value, hash1 + i)
                != (TestBit(value, 2 * hash1 + 3 + i) != TestBit(value, 2 * hash1 + 5 + i)))
  {
    var v := ShiftRight(value, hash1);
    var once := Xor(v, ShiftRight(v, hash1 + 3));
    MaskBit(Xor(once, ShiftRight(v, hash1 + 5)), hash2, i);
    XorBit(once, ShiftRight(v, hash1 + 5), i);
    XorBit(v, ShiftRight(v, hash1 + 3), i);
    ShiftBit(v, hash1 + 3, i);
    ShiftBit(v, hash1 + 5, i);
    ShiftBit(value, hash1, i);
    ShiftBit(value, hash1, i + hash1 + 3);
    ShiftBit(value, hash1, i + hash1 + 5);
  }

  /** The least power of two not below `number`. Up to 2^63 the doubling stays in 64 bits. */
  method FindNextPower(number: nat) returns (power: nat, ghost exponent: nat)
    ensures power == Pow2(exponent) && number <= power
    ensures forall e: nat :: number <= Pow2(e) ==> power <= Pow2(e)
    ensures number <= 0x8000_0000_0000_0000 ==> power <= 0x8000_0000_0000_0000
  {
    power, exponent := 1, 0;
    while power < number
      invariant power == Pow2(exponent)
      invariant exponent > 0 ==> Pow2(exponent - 1) < number
      invariant number <= 0x8000_0000_0000_0000 ==> power <= 0x8000_0000_0000_0000
      decreases number - power
    {
      Doubling(exponent, power, number);
      power, exponent := 2 * power, exponent + 1;
    }
    forall e: nat | number <= Pow2(e)
      ensures power <= Pow2(e)
    {
      if e < exponent {
        Pow2Monotone(e, exponent - 1);
      } else {
        Pow2Monotone(exponent, e);
      }
    }
  }

  /** Doubling a power of two that is below a bound of at most 2^63 stays within 2^63. */
  lemma Doubling(e: nat, power: nat, number: nat)
    requires power == Pow2(e) < number
    ensures number <= 0x8000_0000_0000_0000 ==> 2 * power <= 0x8000_0000_0000_0000
  {
    if number <= 0x8000_0000_0000_0000 {
      assert Pow2(8) == 256;
      PowerOf63();
      if e >= 63 {
        Pow2Monotone(63, e);
      } else {
        Pow2Monotone(e, 63);
      }
    }
  }

  lemma PowerOf63()
    ensures Pow2(63) == 0x8000_0000_0000_0000
  {
    assert Pow2(10) == 1024;
    assert Pow2(20) == 0x10_0000;
    assert Pow2(30) == 0x4000_0000;
    assert Pow2(40) == 0x100_0000_0000;
    assert Pow2(50) == 0x4_0000_0000_0000;
    assert Pow2(60) == 0x1000_0000_0000_0000;
  }
}

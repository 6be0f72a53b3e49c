/** Sets of relations as bits of a table index. */
module Bitmasks {
  import opened Words
  import opened Bags

  /** Bitwise or. */
  function Or(a: nat, b: nat): nat {
    if a == 0 && b == 0 then 0
    else (if a % 2 == 1 || b % 2 == 1 then 1 else 0) + 2 * Or(a / 2, b / 2)
  }

  lemma {:induction false} OrBit(a: nat, b: nat, i: nat)
    ensures TestBit(Or(a, b), i) <==> TestBit(a, i) || TestBit(b, i)
    decreases i
  {
    OrHalf(a, b);
    if i > 0 {
      hide Or;
      OrBit(a / 2, b / 2, i - 1);
    }
  }

  lemma OrHalf(a: nat, b: nat)
    ensures Or(a, b) / 2 == Or(a / 2, b / 2)
    ensures Or(a, b) % 2 == 1 <==> a % 2 == 1 || b % 2 == 1
  {
  }

  lemma {:induction false} OrBelow(a: nat, b: nat, n: nat)
    requires a < Pow2(n) && b < Pow2(n)
    ensures Or(a, b) < Pow2(n)
  {
    if n > 0 {
      OrBelow(a / 2, b / 2, n - 1);
    }
  }

  lemma {:induction false} Pow2Bit(c: nat, i: nat)
    ensures TestBit(Pow2(c), i) <==> i == c
    decreases i
  {
    if c == 0 && i > 0 {
      ZeroBit(i - 1);
    } else if i > 0 {
      Pow2Bit(c - 1, i - 1);
    }
  }

  /** Numbers below 2^n with the same low `n` bits are equal. */
  lemma {:induction false} BitsDetermine(a: nat, b: nat, n: nat)
    requires a < Pow2(n) && b < Pow2(n)
    requires forall i: nat :: i < n ==> TestBit(a, i) == TestBit(b, i)
    ensures a == b
    decreases n
  {
    if n > 0 {
      assert TestBit(a, 0) == TestBit(b, 0);
      forall i: nat | i < n - 1
        ensures TestBit(a / 2, i) == TestBit(b / 2, i)
      {
        assert TestBit(a, i + 1) == TestBit(b, i + 1);
      }
      BitsDetermine(a / 2, b / 2, n - 1);
    }
  }

  /** The index that has exactly the bits of the set's members below `n`. */
  function SetIndex(s: set<nat>, n: nat): nat {
    if n == 0 then 0
    else if n - 1 in s then Or(SetIndex(s, n - 1), Pow2(n - 1))
    else SetIndex(s, n - 1)
  }

  lemma {:induction false} SetIndexBelow(s: set<nat>, n: nat)
    ensures SetIndex(s, n) < Pow2(n)
  {
    if n > 0 {
      SetIndexBelow(s, n - 1);
      OrBelow(SetIndex(s, n - 1), Pow2(n - 1), n);
    }
  }

  lemma {:induction false} SetIndexBit(s: set<nat>, n: nat, i: nat)
    ensures TestBit(SetIndex(s, n), i) <==> i < n && i in s
  {
    if n == 0 {
      ZeroBit(i);
    } else {
      SetIndexBit(s, n - 1, i);
      OrBit(SetIndex(s, n - 1), Pow2(n - 1), i);
      Pow2Bit(n - 1, i);
    }
  }

  /** Different sets of relations have different slots. */
  lemma SetIndexInjective(s: set<nat>, t: set<nat>, n: nat)
    requires s <= Below(n) && t <= Below(n)
    ensures SetIndex(s, n) == SetIndex(t, n) <==> s == t
  {
    if SetIndex(s, n) == SetIndex(t, n) {
      forall i: nat | i < n
        ensures i in s <==> i in t
      {
        SetIndexBit(s, n, i);
        SetIndexBit(t, n, i);
      }
      forall i | i in s || i in t
        ensures i in s && i in t
      {
        assert i in Below(n);
      }
    }
  }

  function Members(comb: seq<nat>): set<nat> {
    set c | c in comb
  }

  /** The index of a combination, whatever the order of its relations. */
  method CombToIndex(comb: seq<nat>, ghost n: nat) returns (index: nat)
    requires Members(comb) <= Below(n)
    ensures index == SetIndex(Members(comb), n)
  {
    index := 0;
    forall b: nat
      ensures !TestBit(0, b)
    {
      ZeroBit(b);
    }
    for i := 0 to |comb|
      invariant index < Pow2(n)
      invariant forall b: nat :: TestBit(index, b) <==> b in comb[..i]
    {
      var shift := comb[i];
      assert shift in Members(comb);
      AddBit(index, shift, n, comb[..i]);
      index := Or(index, Pow2(shift));
      assert comb[..i + 1] == comb[..i] + [shift];
    }
    assert comb[..|comb|] == comb;
    SetIndexBelow(Members(comb), n);
    forall b: nat | b < n
      ensures TestBit(index, b) == TestBit(SetIndex(Members(comb), n), b)
    {
      SetIndexBit(Members(comb), n, b);
    }
    BitsDetermine(index, SetIndex(Members(comb), n), n);
  }

  /** `index | (1 << shift)` */
  lemma AddBit(index: nat, shift: nat, n: nat, sofar: seq<nat>)
    requires index < Pow2(n) && shift < n
    requires forall b: nat :: TestBit(index, b) <==> b in sofar
    ensures Or(index, Pow2(shift)) < Pow2(n)
    ensures forall b: nat :: TestBit(Or(index, Pow2(shift)), b) <==> b in sofar + [shift]
  {
    Pow2Monotone(shift, n);
    OrBelow(index, Pow2(shift), n);
    forall b: nat
      ensures TestBit(Or(index, Pow2(shift)), b) <==> b in sofar + [shift]
    {
      OrBit(index, Pow2(shift), b);
      Pow2Bit(shift, b);
    }
  }

  lemma {:induction false} AllOnes(n: nat, i: nat)
    requires i < n
    ensures TestBit(Pow2(n) - 1, i)
  {
    assert (Pow2(n) - 1) / 2 == Pow2(n - 1) - 1;
    if i > 0 {
      AllOnes(n - 1, i - 1);
    }
  }

  /** The slot of all relations is the last one. */
  lemma FullIndex(n: nat)
    ensures SetIndex(Below(n), n) == Pow2(n) - 1
  {
    hide SetIndex, TestBit, Pow2;
    SetIndexBelow(Below(n), n);
    forall i: nat | i < n
      ensures TestBit(SetIndex(Below(n), n), i) == TestBit(Pow2(n) - 1, i)
    {
      SetIndexBit(Below(n), n, i);
      AllOnes(n, i);
    }
    BitsDetermine(SetIndex(Below(n), n), Pow2(n) - 1, n);
  }
}

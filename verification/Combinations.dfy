/** Generation of all r-element subsets of {0..n-1}. */
module Combinations {
  import opened Words

  /** A combination of `k` numbers of [start, n): strictly increasing. */
  predicate IsComb(c: seq<nat>, start: nat, n: nat, k: nat) {
    && |c| == k
    && (forall i :: 0 <= i < |c| ==> start <= c[i] < n)
    && (forall i, j :: 0 <= i < j < |c| ==> c[i] < c[j])
  }

  predicate LexLess(a: seq<nat>, b: seq<nat>) {
    a != [] && b != [] && (a[0] < b[0] || (a[0] == b[0] && LexLess(a[1..], b[1..])))
  }

  function AddPrefix(p: seq<nat>, cs: seq<seq<nat>>): (r: seq<seq<nat>>)
    ensures |r| == |cs| && forall i :: 0 <= i < |cs| ==> r[i] == p + cs[i]
  {
    if cs == [] then [] else [p + cs[0]] + AddPrefix(p, cs[1..])
  }

  /** All of them: first those with `start`, then those without. */
  function Combs(start: nat, n: nat, k: nat): (r: seq<seq<nat>>)
    decreases n - start, k
  {
    if k == 0 then [[]]
    else if start >= n then []
    else AddPrefix([start], Combs(start + 1, n, k - 1)) + Combs(start + 1, n, k)
  }

  lemma AddPrefixAppend(p: seq<nat>, a: seq<seq<nat>>, b: seq<seq<nat>>)
    ensures AddPrefix(p, a + b) == AddPrefix(p, a) + AddPrefix(p, b)
  {
  }

  lemma AddPrefixTwice(p: seq<nat>, x: nat, cs: seq<seq<nat>>)
    ensures AddPrefix(p, AddPrefix([x], cs)) == AddPrefix(p + [x], cs)
  {
    forall i | 0 <= i < |cs|
      ensures AddPrefix(p, AddPrefix([x], cs))[i] == AddPrefix(p + [x], cs)[i]
    {
      assert p + ([x] + cs[i]) == (p + [x]) + cs[i];
    }
  }

  /** Too few numbers are left for a combination. */
  lemma {:induction false} NoCombs(start: nat, n: nat, k: nat)
    requires n < start + k
    ensures start < n || k > 0 ==> Combs(start, n, k) == []
    decreases n - start, k
  {
    if k > 0 && start < n {
      NoCombs(start + 1, n, k - 1);
      NoCombs(start + 1, n, k);
    }
  }

  /** The list holds the combinations and nothing else. */
  lemma {:induction false} CombsExact(start: nat, n: nat, k: nat, c: seq<nat>)
    ensures c in Combs(start, n, k) <==> IsComb(c, start, n, k)
    decreases n - start, k
  {
    hide IsComb;
    if k == 0 {
      OnlyEmptyComb(c, start, n);
    } else if start < n {
      CombsExact(start + 1, n, k, c);
      PrefixMember(start, c, Combs(start + 1, n, k - 1));
      if c != [] && c[0] == start {
        CombsExact(start + 1, n, k - 1, c[1..]);
        HeadComb(c, start, n, k);
      } else {
        LaterComb(c, start, n, k);
      }
    } else {
      NoneLeft(c, start, n, k);
    }
  }

  lemma OnlyEmptyComb(c: seq<nat>, start: nat, n: nat)
    ensures c == [] <==> IsComb(c, start, n, 0)
  {
  }

  lemma NoneLeft(c: seq<nat>, start: nat, n: nat, k: nat)
    requires k > 0 && start >= n
    ensures !IsComb(c, start, n, k)
  {
    assert |c| == k ==> c != [] && !(start <= c[0] < n);
  }

  /** A combination that does not begin with `start` does not hold it at all. */
  lemma LaterComb(c: seq<nat>, start: nat, n: nat, k: nat)
    requires k > 0 && (c == [] || c[0] != start)
    ensures IsComb(c, start, n, k) <==> IsComb(c, start + 1, n, k)
  {
  }

  lemma PrefixMember(x: nat, c: seq<nat>, cs: seq<seq<nat>>)
    ensures c in AddPrefix([x], cs) <==> c != [] && c[0] == x && c[1..] in cs
  {
    var r := AddPrefix([x], cs);
    if c in r {
      var i :| 0 <= i < |r| && r[i] == c;
      assert c == [x] + cs[i];
      assert c[1..] == cs[i];
    }
    if c != [] && c[0] == x && c[1..] in cs {
      var i :| 0 <= i < |cs| && cs[i] == c[1..];
      assert r[i] == [x] + c[1..] == c;
    }
  }

  lemma HeadComb(c: seq<nat>, start: nat, n: nat, k: nat)
    requires c != [] && c[0] == start < n && k > 0
    ensures IsComb(c, start, n, k) <==> IsComb(c[1..], start + 1, n, k - 1)
    ensures !IsComb(c, start + 1, n, k)
  {
    if IsComb(c, start, n, k) {
      assert forall j :: 1 <= j < |c| ==> c[0] < c[j];
    }
    if IsComb(c[1..], start + 1, n, k - 1) {
      forall i, j | 0 <= i < j < |c|
        ensures c[i] < c[j]
      {
        assert c[j] == c[1..][j - 1];
        if i > 0 {
          assert c[i] == c[1..][i - 1];
        }
      }
    }
  }

  predicate Ordered(cs: seq<seq<nat>>) {
    forall i, j :: 0 <= i < j < |cs| ==> LexLess(cs[i], cs[j])
  }

  /** They come in lexicographic order, so none comes twice. */
  lemma {:induction false} CombsOrdered(start: nat, n: nat, k: nat)
    ensures Ordered(Combs(start, n, k))
    decreases n - start, k
  {
    hide Ordered, LexLess, AddPrefix;
    if k == 0 || start >= n {
      OneOrdered(Combs(start, n, k));
    } else {
      CombsOrdered(start + 1, n, k - 1);
      CombsOrdered(start + 1, n, k);
      var without := Combs(start + 1, n, k);
      forall j: nat | j < |without|
        ensures without[j] != [] && without[j][0] > start
      {
        LaterHead(start, n, k, j);
      }
      OrderedJoin(start, Combs(start + 1, n, k - 1), without);
    }
  }

  lemma OneOrdered(cs: seq<seq<nat>>)
    requires |cs| <= 1
    ensures Ordered(cs)
  {
  }

  lemma OrderedJoin(start: nat, rest: seq<seq<nat>>, without: seq<seq<nat>>)
    requires Ordered(rest) && Ordered(without)
    requires forall j :: 0 <= j < |without| ==> without[j] != [] && without[j][0] > start
    ensures Ordered(AddPrefix([start], rest) + without)
  {
    var all := AddPrefix([start], rest) + without;
    forall i: nat, j: nat | i < j < |all|
      ensures LexLess(all[i], all[j])
    {
      if j < |rest| {
        LexHead(start, rest[i], rest[j]);
      } else if i >= |rest| {
        assert LexLess(without[i - |rest|], without[j - |rest|]);
      } else {
        assert all[i] == [start] + rest[i];
      }
    }
  }

  lemma LaterHead(start: nat, n: nat, k: nat, j: nat)
    requires k > 0 && j < |Combs(start + 1, n, k)|
    ensures Combs(start + 1, n, k)[j] != [] && Combs(start + 1, n, k)[j][0] > start
  {
    var c := Combs(start + 1, n, k)[j];
    assert c in Combs(start + 1, n, k);
    CombsExact(start + 1, n, k, c);
    hide Combs;
  }

  lemma LexHead(x: nat, a: seq<nat>, b: seq<nat>)
    requires LexLess(a, b)
    ensures LexLess([x] + a, [x] + b)
  {
    assert ([x] + a)[1..] == a && ([x] + b)[1..] == b;
  }

  lemma {:induction false} LexIrreflexive(a: seq<nat>)
    ensures !LexLess(a, a)
  {
    if a != [] {
      LexIrreflexive(a[1..]);
    }
  }

  lemma CombsDistinct(start: nat, n: nat, k: nat)
    ensures forall i, j :: 0 <= i < j < |Combs(start, n, k)| ==> Combs(start, n, k)[i] != Combs(start, n, k)[j]
  {
    CombsOrdered(start, n, k);
    forall i: nat, j: nat | i < j < |Combs(start, n, k)|
      ensures Combs(start, n, k)[i] != Combs(start, n, k)[j]
    {
      LexIrreflexive(Combs(start, n, k)[i]);
    }
  }

  /* ----- their number ----- */

  function Factorial(n: nat): (f: nat)
    ensures f > 0
  {
    if n >= 1 then n * Factorial(n - 1) else 1
  }

  /** The word-sized product stays in range up to 20 and overflows from 21 on. */
  lemma FactorialFits(n: nat)
    ensures Factorial(n) < TWO_64 <==> n <= 20
  {
    assert Factorial(5) == 120;
    assert Factorial(10) == 3628800;
    assert Factorial(15) == 1307674368000;
    assert Factorial(20) == 2432902008176640000;
    if n <= 20 {
      FactorialMonotone(n, 20);
    } else {
      assert Factorial(21) == 21 * Factorial(20);
      FactorialMonotone(21, n);
    }
  }

  lemma {:induction false} FactorialMonotone(a: nat, b: nat)
    requires a <= b
    ensures Factorial(a) <= Factorial(b)
  {
    if a < b {
      FactorialMonotone(a, b - 1);
      assert b * Factorial(b - 1) >= 1 * Factorial(b - 1) by {
        Scale(b, Factorial(b - 1));
      }
    }
  }

  lemma Scale(b: nat, f: nat)
    requires b >= 1
    ensures b * f >= f
  {
    assert b * f == f + (b - 1) * f;
  }

  lemma FactorialStep(n: nat)
    requires n > 0
    ensures Factorial(n) == n * Factorial(n - 1)
  {
  }

  /** With `m` numbers to choose from there are m! / (k! (m - k)!) combinations. */
  lemma CombsCount(start: nat, n: nat, k: nat)
    requires start + k <= n
    ensures |Combs(start, n, k)| * (Factorial(k) * Factorial(n - start - k)) == Factorial(n - start)
  {
    CountTimes(start, n, k);
  }

  function Times(c: nat, a: nat, b: nat): nat {
    c * (a * b)
  }

  lemma {:induction false} CountTimes(start: nat, n: nat, k: nat)
    requires start + k <= n
    ensures Times(|Combs(start, n, k)|, Factorial(k), Factorial(n - start - k)) == Factorial(n - start)
    decreases n - start, k
  {
    hide Combs, Times, Factorial;
    var m := n - start;
    if k == 0 {
      CountOne(start, n);
    } else {
      var a, b := |Combs(start + 1, n, k - 1)|, |Combs(start + 1, n, k)|;
      CountTimes(start + 1, n, k - 1);
      CountSplit(start, n, k);
      FactorialStep(k);
      FactorialStep(m);
      if k == m {
        NoCombs(start + 1, n, k);
        PascalEnd(a, k, Factorial(k - 1), Factorial(0), Factorial(m - 1));
      } else {
        CountTimes(start + 1, n, k);
        FactorialStep(m - k);
        PascalStep(a, b, k, m - k, Factorial(k - 1), Factorial(m - k - 1), Factorial(m - 1));
      }
    }
  }

  lemma CountOne(start: nat, n: nat)
    requires start <= n
    ensures Times(|Combs(start, n, 0)|, Factorial(0), Factorial(n - start - 0)) == Factorial(n - start)
  {
  }

  lemma CountSplit(start: nat, n: nat, k: nat)
    requires start < n && k > 0
    ensures |Combs(start, n, k)| == |Combs(start + 1, n, k - 1)| + |Combs(start + 1, n, k)|
  {
  }

  lemma PascalEnd(a: nat, k: nat, fk: nat, fr: nat, f: nat)
    requires Times(a, fk, fr) == f
    ensures Times(a, k * fk, fr) == k * f
  {
    assert a * ((k * fk) * fr) == k * (a * (fk * fr));
  }

  lemma PascalStep(a: nat, b: nat, k: nat, rest: nat, fk: nat, fr: nat, f: nat)
    requires Times(a, fk, rest * fr) == f && Times(b, k * fk, fr) == f
    ensures Times(a + b, k * fk, rest * fr) == (k + rest) * f
  {
    assert a * ((k * fk) * (rest * fr)) == k * (a * (fk * (rest * fr)));
    assert b * ((k * fk) * (rest * fr)) == rest * (b * ((k * fk) * fr));
  }

  /** The size that the caller allocates. */
  function NumCombs(n: nat, r: nat): nat
    requires r <= n
  {
    Factorial(n) / (Factorial(r) * Factorial(n - r))
  }

  lemma CombsFillTheTable(n: nat, r: nat)
    requires r <= n
    ensures |Combs(0, n, r)| == NumCombs(n, r)
  {
    CombsCount(0, n, r);
    Divide(|Combs(0, n, r)|, Factorial(r), Factorial(n - r));
  }

  lemma Divide(c: nat, x: nat, y: nat)
    requires x > 0 && y > 0
    ensures x * y > 0 && c * (x * y) / (x * y) == c
  {
    Positive(x, y);
    DivideOne(c, x * y);
  }

  lemma Positive(x: nat, y: nat)
    requires x > 0 && y > 0
    ensures x * y > 0
  {
  }

  lemma DivideOne(c: nat, d: nat)
    requires d > 0
    ensures c * d / d == c
  {
    var q := c * d / d;
    assert 0 <= c * d - q * d < d;
    assert c * d - q * d == (c - q) * d;
    if c > q {
      Scale(c - q, d);
    } else if c < q {
      Scale(q - c, d);
    }
  }

  /* ----- the generator ----- */

  /** The generator with its global write index. */
  class Generator {
    var indexComb: nat

    constructor ()
      ensures indexComb == 0
    {
      indexComb := 0;
    }

    /** Writes, from the write index on, every way to complete data[..index] with numbers from
        start..end, in order. */
    method CombinationUtil(arr: array<nat>, data: array<nat>, start: nat, end: int, index: nat, r: nat,
                           combs: array<seq<nat>>)
      requires arr.Length == end + 1 && forall i :: 0 <= i < arr.Length ==> arr[i] == i
      requires index <= r == data.Length && arr != data
      requires indexComb + |Combs(start, end + 1, r - index)| <= combs.Length
      modifies this, data, combs
      ensures data[..index] == old(data[..index])
      ensures indexComb == old(indexComb) + |Combs(start, end + 1, r - index)|
      ensures combs[..] == Spliced(old(combs[..]), old(indexComb),
                                   AddPrefix(old(data[..index]), Combs(start, end + 1, r - index)))
      decreases r - index, 1
    {
      hide Combs, Spliced, AddPrefix;
      ghost var before, from, prefix := combs[..], indexComb, data[..index];
      if index == r {
        WriteOne(before, from, prefix, start, end + 1);
        combs[indexComb] := data[..r];
        indexComb := indexComb + 1;
        assert data[..r] == prefix && combs[..] == before[from := prefix];
        return;
      }
      ghost var all := AddPrefix(prefix, Combs(start, end + 1, r - index));
      ghost var done: seq<seq<nat>> := [];
      SpliceNone(before, from);
      var i := start;
      while i <= end && end - i + 1 >= r - index
        invariant data[..index] == prefix
        invariant done + AddPrefix(prefix, Combs(i, end + 1, r - index)) == all
        invariant indexComb == from + |done|
        invariant combs[..] == Spliced(before, from, done)
      {
        ghost var some := AddPrefix(prefix + [i], Combs(i + 1, end + 1, r - index - 1));
        Advance(prefix, done, i, end + 1, r - index);
        Choose(arr, data, i, end, index, r, combs);
        SpliceMore(before, from, done, some);
        done := done + some;
        i := i + 1;
      }
      NoCombs(i, end + 1, r - index);
      assert AddPrefix(prefix, []) == [];
      assert done == all;
    }

    /** One turn of the loop: the number at `i` goes next, and all that can follow it. */
    method Choose(arr: array<nat>, data: array<nat>, i: nat, end: int, index: nat, r: nat,
                  combs: array<seq<nat>>)
      requires arr.Length == end + 1 && forall k :: 0 <= k < arr.Length ==> arr[k] == k
      requires index < r == data.Length && arr != data && i <= end
      requires indexComb + |Combs(i + 1, end + 1, r - index - 1)| <= combs.Length
      modifies this, data, combs
      ensures data[..index] == old(data[..index])
      ensures indexComb == old(indexComb) + |Combs(i + 1, end + 1, r - index - 1)|
      ensures combs[..] == Spliced(old(combs[..]), old(indexComb),
                                   AddPrefix(old(data[..index]) + [i], Combs(i + 1, end + 1, r - index - 1)))
      decreases r - index, 0
    {
      hide Combs, Spliced, AddPrefix;
      data[index] := arr[i];
      assert data[..index + 1] == old(data[..index]) + [i];
      CombinationUtil(arr, data, i + 1, end, index + 1, r, combs);
      assert data[..index] == data[..index + 1][..index];
    }

    /** Writes all r-element subsets of {0..n-1} into the table of the size that holds them. */
    method GetCombination(n: nat, r: nat, combs: array<seq<nat>>)
      requires r <= n && combs.Length == NumCombs(n, r)
      modifies this, combs
      ensures combs[..] == Combs(0, n, r) && indexComb == combs.Length
    {
      hide Combs, AddPrefix, Spliced, NumCombs;
      var data := new nat[r];
      var arr := new nat[n];
      for i := 0 to n
        invariant forall k :: 0 <= k < i ==> arr[k] == k
      {
        arr[i] := i;
      }
      indexComb := 0;
      CombsFillTheTable(n, r);
      ghost var before := combs[..];
      CombinationUtil(arr, data, 0, n - 1, 0, r, combs);
      NoPrefix(Combs(0, n, r));
      SpliceAll(before, Combs(0, n, r));
    }
  }

  /** `before` with `part` written over it from `from` on. */
  function Spliced<T>(before: seq<T>, from: nat, part: seq<T>): (r: seq<T>)
    requires from + |part| <= |before|
    ensures |r| == |before|
  {
    before[..from] + part + before[from + |part|..]
  }

  lemma SpliceMore<T>(before: seq<T>, from: nat, a: seq<T>, b: seq<T>)
    requires from + |a| + |b| <= |before|
    ensures Spliced(Spliced(before, from, a), from + |a|, b) == Spliced(before, from, a + b)
  {
  }

  lemma SpliceAll<T>(before: seq<T>, part: seq<T>)
    requires |part| == |before|
    ensures Spliced(before, 0, part) == part
  {
  }

  lemma SpliceNone<T>(before: seq<T>, from: nat)
    requires from <= |before|
    ensures Spliced(before, from, []) == before
  {
  }

  lemma WriteOne(before: seq<seq<nat>>, from: nat, prefix: seq<nat>, start: nat, n: nat)
    requires from + |Combs(start, n, 0)| <= |before|
    ensures |Combs(start, n, 0)| == 1
    ensures Spliced(before, from, AddPrefix(prefix, Combs(start, n, 0))) == before[from := prefix]
  {
    var cs: seq<seq<nat>> := [[]];
    assert Combs(start, n, 0) == cs && cs[0] == [] && cs[1..] == [];
    assert prefix + cs[0] == prefix;
    assert AddPrefix(prefix, cs) == [prefix];
  }

  lemma Advance(prefix: seq<nat>, done: seq<seq<nat>>, i: nat, n: nat, k: nat)
    requires i < n && k > 0
    ensures done + AddPrefix(prefix, Combs(i, n, k))
         == done + AddPrefix(prefix + [i], Combs(i + 1, n, k - 1)) + AddPrefix(prefix, Combs(i + 1, n, k))
  {
    assert Combs(i, n, k) == AddPrefix([i], Combs(i + 1, n, k - 1)) + Combs(i + 1, n, k);
    AddPrefixAppend(prefix, AddPrefix([i], Combs(i + 1, n, k - 1)), Combs(i + 1, n, k));
    AddPrefixTwice(prefix, i, Combs(i + 1, n, k - 1));
    hide Combs, AddPrefix;
  }

  lemma NoPrefix(cs: seq<seq<nat>>)
    ensures AddPrefix([], cs) == cs
  {
    assert forall i :: 0 <= i < |cs| ==> [] + cs[i] == cs[i];
  }
}

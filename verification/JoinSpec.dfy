/** Facts about sequences taken as bags. */
module Bags {

  ghost predicate NoDuplicates<T>(s: seq<T>) {
    forall i, j :: 0 <= i < j < |s| ==> s[i] != s[j]
  }

  /** Taking an element out of a sequence takes one occurrence out of its bag. */
  lemma RemoveAt<T>(s: seq<T>, i: nat)
    requires i < |s|
    ensures multiset(s) == multiset(s[..i] + s[i + 1..]) + multiset{s[i]}
  {
    assert s == s[..i] + [s[i]] + s[i + 1..];
  }

  lemma SplitBag<T>(s: seq<T>, i: nat)
    requires i <= |s|
    ensures multiset(s) == multiset(s[..i]) + multiset(s[i..])
  {
    assert s == s[..i] + s[i..];
  }

  /** Two positions holding the same value give it multiplicity at least two. */
  lemma TwiceInBag<T>(s: seq<T>, i: nat, j: nat)
    requires i < j < |s| && s[i] == s[j]
    ensures multiset(s)[s[i]] >= 2
  {
    SplitBag(s, j);
    assert s[..j][i] == s[i] && s[j..][0] == s[j];
    assert s[i] in multiset(s[..j]) && s[i] in multiset(s[j..]);
  }

  lemma {:induction false} BagOfDistinct<T(!new)>(s: seq<T>, x: T)
    requires NoDuplicates(s)
    ensures multiset(s)[x] == if x in s then 1 else 0
  {
    if s != [] {
      assert s == [s[0]] + s[1..];
      BagOfDistinct(s[1..], x);
    }
  }

  /** Without duplicates, a bag is determined by membership. */
  lemma SameDistinctBag<T(!new)>(a: seq<T>, b: seq<T>)
    requires NoDuplicates(a) && NoDuplicates(b)
    requires forall x :: x in a <==> x in b
    ensures multiset(a) == multiset(b)
  {
    forall x
      ensures multiset(a)[x] == multiset(b)[x]
    {
      BagOfDistinct(a, x);
      BagOfDistinct(b, x);
    }
  }

  /** A sequence with the bag of a duplicate-free one has no duplicates either. */
  lemma SameBagDistinct<T(!new)>(a: seq<T>, b: seq<T>)
    requires multiset(a) == multiset(b) && NoDuplicates(b)
    ensures NoDuplicates(a)
    ensures forall x :: x in a <==> x in b
  {
    forall i, j | 0 <= i < j < |a|
      ensures a[i] != a[j]
    {
      if a[i] == a[j] {
        TwiceInBag(a, i, j);
        BagOfDistinct(b, a[i]);
      }
    }
    forall x
      ensures x in a <==> x in b
    {
      assert x in a <==> x in multiset(a);
      assert x in b <==> x in multiset(b);
    }
  }

  /** The distinct elements of a sequence number as many as its positions. */
  lemma {:induction false} DistinctLength<T(!new)>(s: seq<T>)
    requires NoDuplicates(s)
    ensures |set x | x in s| == |s|
  {
    if s != [] {
      var rest := s[1..];
      DistinctLength(rest);
      assert (set x | x in s) == {s[0]} + (set x | x in rest) by {
        assert s == [s[0]] + rest;
      }
    }
  }

  function Flatten<T>(ss: seq<seq<T>>): seq<T> {
    if ss == [] then [] else ss[0] + Flatten(ss[1..])
  }

  lemma {:induction false} FlattenAppend<T>(a: seq<seq<T>>, b: seq<seq<T>>)
    ensures Flatten(a + b) == Flatten(a) + Flatten(b)
  {
    if a == [] {
      assert a + b == b;
    } else {
      assert (a + b)[1..] == a[1..] + b;
      FlattenAppend(a[1..], b);
    }
  }

  lemma FlattenSnoc<T>(a: seq<seq<T>>, x: seq<T>)
    ensures Flatten(a + [x]) == Flatten(a) + x
  {
    FlattenAppend(a, [x]);
    assert Flatten([x]) == x + Flatten([]);
  }

  /** Picking every position exactly once rearranges a sequence. */
  function Pick<T>(s: seq<T>, at: seq<nat>): (r: seq<T>)
    requires forall k :: 0 <= k < |at| ==> at[k] < |s|
    ensures |r| == |at|
  {
    seq(|at|, k requires 0 <= k < |at| => s[at[k]])
  }

  lemma {:induction false} PickAll<T>(s: seq<T>, at: seq<nat>)
    requires |at| == |s| && NoDuplicates(at)
    requires forall k :: 0 <= k < |at| ==> at[k] < |s|
    ensures multiset(Pick(s, at)) == multiset(s)
  {
    if s != [] {
      var last := |s| - 1;
      Pigeonhole(at, |s|, last);
      var i :| 0 <= i < |at| && at[i] == last;
      var rest := at[..i] + at[i + 1..];
      PickWithout(s, at, i);
      PickAll(s[..last], rest);
      hide Pick;
      RemoveAt(Pick(s, at), i);
      assert s == s[..last] + [s[last]];
    }
  }

  /** Leaving out the position of the last element picks from the others. */
  lemma PickWithout<T>(s: seq<T>, at: seq<nat>, i: nat)
    requires |at| == |s| && NoDuplicates(at) && i < |at| && at[i] == |s| - 1
    requires forall k :: 0 <= k < |at| ==> at[k] < |s|
    ensures var rest := at[..i] + at[i + 1..];
      && NoDuplicates(rest) && (forall k :: 0 <= k < |rest| ==> rest[k] < |s| - 1)
      && Pick(s, at)[..i] + Pick(s, at)[i + 1..] == Pick(s[..|s| - 1], rest)
  {
  }

  /** `n` distinct numbers below `n` include each of them. */
  lemma Pigeonhole(at: seq<nat>, n: nat, x: nat)
    requires |at| == n && NoDuplicates(at) && x < n
    requires forall k :: 0 <= k < |at| ==> at[k] < n
    ensures x in at
  {
    DistinctLength(at);
    var hit := set y | y in at;
    if x !in at {
      assert hit <= Below(n) - {x};
      SubsetSize(hit, Below(n) - {x});
    }
  }

  /** {0, ..., n-1} */
  function Below(n: nat): (r: set<nat>)
    ensures |r| == n
    ensures forall x: int :: x in r <==> 0 <= x < n
  {
    if n == 0 then {} else Below(n - 1) + {n - 1}
  }

  lemma {:induction false} SubsetSize<T>(a: set<T>, b: set<T>)
    requires a <= b
    ensures |a| <= |b|
    ensures |a| == |b| ==> a == b
  {
    if a != {} {
      var x :| x in a;
      SubsetSize(a - {x}, b - {x});
    }
  }

  /** While fewer than `n` jobs have finished, some job has not. */
  lemma SomeUnfinished(finished: set<nat>, n: nat)
    requires finished <= Below(n)
    ensures |finished| == n ==> finished == Below(n)
    ensures |finished| != n ==> |finished| < n && exists w: nat :: w < n && w !in finished
  {
    SubsetSize(finished, Below(n));
    if |finished| != n {
      assert Below(n) - finished != {};
      var w :| w in Below(n) - finished;
    }
  }
}

/** The reference meaning of an equi-join: two nested loops. */
module JoinSpec {
  import opened Words
  import opened Bags

  datatype Tuple = Tuple(key: Word, payload: nat)
  /** The base columns: `db[rel][col]` lists the column's values. */
  type Database = seq<seq<seq<Word>>>

  datatype RowPair = RowPair(rowR: nat, rowS: nat)

  /** The inner loop: the partners of one tuple `t`, in order. */
  function Matches(r: seq<Tuple>, t: Tuple): seq<RowPair> {
    if r == [] then []
    else (if r[0].key == t.key then [RowPair(r[0].payload, t.payload)] else []) + Matches(r[1..], t)
  }

  function NestedLoop(r: seq<Tuple>, s: seq<Tuple>): seq<RowPair> {
    if s == [] then [] else Matches(r, s[0]) + NestedLoop(r, s[1..])
  }

  lemma {:induction false} MatchesAppend(a: seq<Tuple>, b: seq<Tuple>, t: Tuple)
    ensures Matches(a + b, t) == Matches(a, t) + Matches(b, t)
  {
    if a == [] {
      assert a + b == b;
    } else {
      assert (a + b)[1..] == a[1..] + b;
      MatchesAppend(a[1..], b, t);
    }
  }

  /** One tuple of the inner side accounts for its own pairs, wherever it stands. */
  lemma MatchesMove(r: seq<Tuple>, i: nat, t: Tuple)
    requires i < |r|
    ensures multiset(Matches(r, t))
         == multiset(Matches([r[i]], t)) + multiset(Matches(r[..i] + r[i + 1..], t))
  {
    assert r == r[..i] + ([r[i]] + r[i + 1..]);
    MatchesAppend(r[..i], [r[i]] + r[i + 1..], t);
    MatchesAppend([r[i]], r[i + 1..], t);
    MatchesAppend(r[..i], r[i + 1..], t);
  }

  lemma {:induction false} MatchesPermute(a: seq<Tuple>, b: seq<Tuple>, t: Tuple)
    requires multiset(a) == multiset(b)
    ensures multiset(Matches(a, t)) == multiset(Matches(b, t))
  {
    if a == [] {
      assert |multiset(b)| == 0;
    } else {
      var i, rest := Extract(a, b);
      MatchesPermute(a[1..], rest, t);
      MatchesMove(b, i, t);
      MatchesMove(a, 0, t);
      assert a[..0] + a[1..] == a[1..];
    }
  }

  /** The first element of one arrangement of a bag, taken out of another arrangement. */
  lemma Extract<T>(a: seq<T>, b: seq<T>) returns (i: nat, rest: seq<T>)
    requires a != [] && multiset(a) == multiset(b)
    ensures i < |b| && b[i] == a[0]
    ensures rest == b[..i] + b[i + 1..]
    ensures multiset(a[1..]) == multiset(rest)
  {
    assert a == [a[0]] + a[1..];
    assert a[0] in multiset(b);
    i :| 0 <= i < |b| && b[i] == a[0];
    rest := b[..i] + b[i + 1..];
    RemoveAt(b, i);
    assert multiset(a[1..]) == multiset(a) - multiset{a[0]};
  }

  lemma {:induction false} NestedLoopAppend(r: seq<Tuple>, a: seq<Tuple>, b: seq<Tuple>)
    ensures NestedLoop(r, a + b) == NestedLoop(r, a) + NestedLoop(r, b)
  {
    if a == [] {
      assert a + b == b;
    } else {
      assert (a + b)[1..] == a[1..] + b;
      NestedLoopAppend(r, a[1..], b);
    }
  }

  /** The outer side may be split too, as far as the bag of pairs is concerned. */
  lemma {:induction false} NestedLoopSplit(a: seq<Tuple>, b: seq<Tuple>, s: seq<Tuple>)
    ensures multiset(NestedLoop(a + b, s)) == multiset(NestedLoop(a, s)) + multiset(NestedLoop(b, s))
  {
    if s != [] {
      MatchesAppend(a, b, s[0]);
      NestedLoopSplit(a, b, s[1..]);
    }
  }

  /** One tuple of the outer side accounts for its own pairs, wherever it stands. */
  lemma NestedLoopMove(r: seq<Tuple>, s: seq<Tuple>, i: nat)
    requires i < |s|
    ensures multiset(NestedLoop(r, s))
         == multiset(Matches(r, s[i])) + multiset(NestedLoop(r, s[..i] + s[i + 1..]))
  {
    assert s == s[..i] + ([s[i]] + s[i + 1..]);
    NestedLoopAppend(r, s[..i], [s[i]] + s[i + 1..]);
    NestedLoopAppend(r, s[..i], s[i + 1..]);
  }

  lemma {:induction false} NestedLoopPermute(r: seq<Tuple>, r': seq<Tuple>, s: seq<Tuple>, s': seq<Tuple>)
    requires multiset(r) == multiset(r') && multiset(s) == multiset(s')
    ensures multiset(NestedLoop(r, s)) == multiset(NestedLoop(r', s'))
  {
    if s == [] {
      assert |multiset(s')| == 0;
    } else {
      var i, rest := Extract(s, s');
      NestedLoopPermute(r, r', s[1..], rest);
      MatchesPermute(r, r', s[0]);
      NestedLoopMove(r', s', i);
    }
  }

  lemma {:induction false} NoMatches(r: seq<Tuple>, t: Tuple)
    requires forall i :: 0 <= i < |r| ==> r[i].key != t.key
    ensures Matches(r, t) == []
  {
    if r != [] {
      NoMatches(r[1..], t);
    }
  }

  /** Two sides without a common key join to nothing. */
  lemma {:induction false} NestedLoopDisjoint(r: seq<Tuple>, s: seq<Tuple>)
    requires forall i, j :: 0 <= i < |r| && 0 <= j < |s| ==> r[i].key != s[j].key
    ensures NestedLoop(r, s) == []
  {
    if s != [] {
      NoMatches(r, s[0]);
      NestedLoopDisjoint(r, s[1..]);
    }
  }

  /** A column as a relation: position `i` becomes the tuple with payload `i`. */
  function Forge(values: seq<Word>): (r: seq<Tuple>)
    ensures |r| == |values|
    ensures forall i :: 0 <= i < |r| ==> r[i] == Tuple(values[i], i)
  {
    seq(|values|, i requires 0 <= i < |values| => Tuple(values[i], i))
  }

  /** Which pairs the partners of `t` are, for any tail of a forged relation. */
  lemma {:induction false} MatchesMember(r: seq<Tuple>, from: nat, t: Tuple)
    requires forall i :: 0 <= i < |r| ==> r[i].payload == from + i
    ensures NoDuplicates(Matches(r, t))
    ensures forall p :: p in Matches(r, t) <==>
              from <= p.rowR < from + |r| && r[p.rowR - from].key == t.key && p.rowS == t.payload
  {
    if r != [] {
      var rest := r[1..];
      MatchesMember(rest, from + 1, t);
      forall p
        ensures p in Matches(r, t) <==>
          from <= p.rowR < from + |r| && r[p.rowR - from].key == t.key && p.rowS == t.payload
      {
        if p.rowR > from && p.rowR < from + |r| {
          assert rest[p.rowR - (from + 1)] == r[p.rowR - from];
        }
      }
    }
  }

  /** The join of two forged relations: each pair of positions with equal values, once. */
  lemma {:induction false} NestedLoopMember(r: seq<Tuple>, s: seq<Tuple>, from: nat)
    requires forall i :: 0 <= i < |r| ==> r[i].payload == i
    requires forall j :: 0 <= j < |s| ==> s[j].payload == from + j
    ensures NoDuplicates(NestedLoop(r, s))
    ensures forall p :: p in NestedLoop(r, s) <==>
              p.rowR < |r| && from <= p.rowS < from + |s| && r[p.rowR].key == s[p.rowS - from].key
  {
    hide *;
    if s == [] {
      NestedLoopUnfold(r, s);
    } else {
      var rest := s[1..];
      var head, tail := Matches(r, s[0]), NestedLoop(r, rest);
      NestedLoopMember(r, rest, from + 1);
      MatchesMember(r, 0, s[0]);
      NestedLoopUnfold(r, s);
      forall p: RowPair
        ensures p in head + tail <==>
          p.rowR < |r| && from <= p.rowS < from + |s| && r[p.rowR].key == s[p.rowS - from].key
      {
        if from < p.rowS < from + |s| {
          assert rest[p.rowS - (from + 1)] == s[p.rowS - from];
        }
      }
      forall p: RowPair | p in head
        ensures p !in tail
      {
        assert p.rowS == from;
      }
      AppendDistinct(head, tail);
    }
  }

  /** The nested loops put the partners of the first probe tuple first. */
  lemma NestedLoopUnfold(r: seq<Tuple>, s: seq<Tuple>)
    ensures NestedLoop(r, s) == if s == [] then [] else Matches(r, s[0]) + NestedLoop(r, s[1..])
    ensures s == [] ==> NoDuplicates(NestedLoop(r, s))
  {
  }

  lemma AppendDistinct<T>(a: seq<T>, b: seq<T>)
    requires NoDuplicates(a) && NoDuplicates(b) && forall x :: x in a ==> x !in b
    ensures NoDuplicates(a + b)
  {
    forall i, j | 0 <= i < j < |a + b|
      ensures (a + b)[i] != (a + b)[j]
    {
      if i < |a| <= j {
        assert a[i] in a && b[j - |a|] in b;
      }
    }
  }
}

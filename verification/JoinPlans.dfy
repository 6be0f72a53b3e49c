/** What the table of the join enumeration means. */
module JoinPlans {
  import opened Words
  import opened Bags
  import opened Bitmasks
  import opened Combinations
  import opened JoinGraphs
  import opened JoinEnumeration
  import opened InterList
  import opened QuerySpec
  import opened Graphs
  import QueryRun

  /* ----- the best offer ----- */

  /** (s, r) is looked at before (s1, r1). */
  predicate Before(s: nat, r: nat, s1: nat, r1: nat) {
    s < s1 || (s == s1 && r < r1)
  }

  /** The pair (s, r) makes an offer for `target`. */
  predicate Offers<S>(g: seq<seq<Edge>>, est: Estimator<S>, t: Table<S>, cs: seq<seq<nat>>, target: set<nat>,
                      s: nat, r: nat)
    requires |t| == Pow2(|g|)
  {
    && s < |cs| && r < |g| && AllBelow(cs[s], |g|) && Members(cs[s]) + {r} == target
    && Offer(g, est, t, cs[s], r).Some?
  }

  /** Every offer from before (s, r) costs more. */
  ghost predicate EarlierCostMore<S>(g: seq<seq<Edge>>, est: Estimator<S>, t: Table<S>, cs: seq<seq<nat>>,
                                     target: set<nat>, s: nat, r: nat, cost: Word)
    requires |t| == Pow2(|g|)
  {
    forall s': nat, r': nat :: Before(s', r', s, r) && Offers(g, est, t, cs, target, s', r') ==>
      cost < Offer(g, est, t, cs[s'], r').value.cost
  }

  /** The best offer is one of the offers, and those before it cost more. */
  lemma {:induction false} BestIsOffered<S>(g: seq<seq<Edge>>, est: Estimator<S>, t: Table<S>, cs: seq<seq<nat>>,
                                            k: nat, s: nat, r: nat, target: set<nat>) returns (s': nat, r': nat)
    requires |t| == Pow2(|g|) && CombsOk(cs, |g|, k) && r <= |g|
    requires if r > 0 then s < |cs| else s <= |cs|
    requires BestOffer(g, est, t, cs, k, s, r, target).Some?
    ensures Offers(g, est, t, cs, target, s', r')
    ensures BestOffer(g, est, t, cs, k, s, r, target) == Offer(g, est, t, cs[s'], r')
    ensures EarlierCostMore(g, est, t, cs, target, s', r', Offer(g, est, t, cs[s'], r').value.cost)
    decreases s, r
  {
    hide Offer, Members;
    if r > 0 {
      var before := BestOffer(g, est, t, cs, k, s, r - 1, target);
      var now := if Members(cs[s]) + {r - 1} == target then Offer(g, est, t, cs[s], r - 1) else None;
      if now.Some? && (before.None? || before.value.cost > now.value.cost) {
        s', r' := s, r - 1;
        EarlierOffers(g, est, t, cs, k, s, r - 1, target);
      } else {
        s', r' := BestIsOffered(g, est, t, cs, k, s, r - 1, target);
      }
    } else {
      s', r' := BestIsOffered(g, est, t, cs, k, s - 1, |g|, target);
    }
  }

  /** What was offered so far costs at least as much as the best of it. */
  lemma EarlierOffers<S>(g: seq<seq<Edge>>, est: Estimator<S>, t: Table<S>, cs: seq<seq<nat>>,
                         k: nat, s: nat, r: nat, target: set<nat>)
    requires |t| == Pow2(|g|) && CombsOk(cs, |g|, k) && r <= |g|
    requires if r > 0 then s < |cs| else s <= |cs|
    ensures forall s': nat, r': nat :: Before(s', r', s, r) && Offers(g, est, t, cs, target, s', r') ==>
              && BestOffer(g, est, t, cs, k, s, r, target).Some?
              && BestOffer(g, est, t, cs, k, s, r, target).value.cost <= Offer(g, est, t, cs[s'], r').value.cost
  {
    hide Offer, Members, BestOffer;
    forall s': nat, r': nat | Before(s', r', s, r) && Offers(g, est, t, cs, target, s', r')
      ensures && BestOffer(g, est, t, cs, k, s, r, target).Some?
              && BestOffer(g, est, t, cs, k, s, r, target).value.cost <= Offer(g, est, t, cs[s'], r').value.cost
    {
      BestIsLeast(g, est, t, cs, k, s, r, target, s', r');
    }
  }

  /** No offer costs less. */
  lemma {:induction false} BestIsLeast<S>(g: seq<seq<Edge>>, est: Estimator<S>, t: Table<S>, cs: seq<seq<nat>>,
                                          k: nat, s: nat, r: nat, target: set<nat>, s': nat, r': nat)
    requires |t| == Pow2(|g|) && CombsOk(cs, |g|, k) && r <= |g|
    requires if r > 0 then s < |cs| else s <= |cs|
    requires s' < |cs| && r' < |g| && Before(s', r', s, r) && Members(cs[s']) + {r'} == target
    requires AllBelow(cs[s'], |g|) && Offer(g, est, t, cs[s'], r').Some?
    ensures BestOffer(g, est, t, cs, k, s, r, target).Some?
    ensures BestOffer(g, est, t, cs, k, s, r, target).value.cost <= Offer(g, est, t, cs[s'], r').value.cost
    decreases s, r
  {
    hide Offer, Members;
    if r > 0 {
      if (s', r') != (s, r - 1) {
        BestIsLeast(g, est, t, cs, k, s, r - 1, target, s', r');
      }
    } else {
      BestIsLeast(g, est, t, cs, k, s - 1, |g|, target, s', r');
    }
  }

  /* ----- sets and combinations ----- */

  /** Every set of relations is listed as a combination. */
  lemma {:induction false} CombOf(x: set<nat>, n: nat) returns (c: seq<nat>)
    requires x <= Below(n)
    ensures IsComb(c, 0, n, |x|) && Members(c) == x
    decreases n
  {
    hide IsComb, Members, Below;
    Shrink(x, n);
    if n == 0 {
      c := [];
      NoMembers(0);
    } else if n - 1 in x {
      c := CombOf(x - {n - 1}, n - 1);
      GrowComb(x - {n - 1}, n - 1, c);
      PutBack(x, n - 1);
      c := c + [n - 1];
    } else {
      c := CombOf(x, n - 1);
      CombWiden(c, n - 1, |x|);
    }
  }

  lemma Shrink(x: set<nat>, n: nat)
    requires x <= Below(n)
    ensures n == 0 ==> x == {}
    ensures n > 0 ==> x - {n - 1} <= Below(n - 1)
    ensures n > 0 && n - 1 in x ==> |x - {n - 1}| + 1 == |x| && x - {n - 1} + {n - 1} == x
    ensures n > 0 && n - 1 !in x ==> x <= Below(n - 1)
  {
  }

  lemma NoMembers(n: nat)
    ensures IsComb([], 0, n, 0) && Members([]) == {}
  {
  }

  lemma GrowComb(y: set<nat>, n: nat, c: seq<nat>)
    requires IsComb(c, 0, n, |y|) && Members(c) == y
    ensures IsComb(c + [n], 0, n + 1, |y| + 1) && Members(c + [n]) == y + {n}
  {
    MembersGrow(c, n);
    hide Members;
  }

  lemma PutBack(x: set<nat>, e: nat)
    requires e in x
    ensures x - {e} + {e} == x && |x - {e}| + 1 == |x|
  {
  }

  lemma CombWiden(c: seq<nat>, n: nat, k: nat)
    requires IsComb(c, 0, n, k)
    ensures IsComb(c, 0, n + 1, k)
  {
  }

  /** A split of `x`: one relation and a listed combination of the others. */
  ghost predicate IsSplit(x: set<nat>, comb: seq<nat>, r: nat, n: nat) {
    && x <= Below(n) && |x| >= 2
    && IsComb(comb, 0, n, |x| - 1) && r < n && Members(comb) + {r} == x
  }

  /* ----- the filled slots ----- */

  /** A slot of two or more relations holds an offer, and the least one, over all its splits. */
  lemma LeastOverSplits<S>(g: seq<seq<Edge>>, est: Estimator<S>, init: seq<Node<S>>, t: Table<S>,
                           x: set<nat>, comb: seq<nat>, r: nat)
    requires Solved(g, est, init, t, |g|) && IsSplit(x, comb, r, |g|)
    ensures AllBelow(comb, |g|)
    ensures Offer(g, est, t, comb, r).Some? ==>
              Slot(t, x, |g|).Some? && Slot(t, x, |g|).value.cost <= Offer(g, est, t, comb, r).value.cost
  {
    var n, k := |g|, |x| - 1;
    SizeBelow(x, n);
    AllCombsOk(n, k);
    CombMembers(comb, n, k);
    CombsExact(0, n, k, comb);
    var s' :| 0 <= s' < |Combs(0, n, k)| && Combs(0, n, k)[s'] == comb;
    hide Offer, Members, Combs, BestOffer, Slot, Attach, IsComb;
    assert Slot(t, x, n) == Expected(g, est, init, t, n, x);
    if Offer(g, est, t, comb, r).Some? {
      BestIsLeast(g, est, t, Combs(0, n, k), k, |Combs(0, n, k)|, 0, x, s', r);
    }
  }

  lemma SizeBelow(x: set<nat>, n: nat)
    requires x <= Below(n)
    ensures |x| <= n
  {
    SubsetSize(x, Below(n));
  }

  /** The split that a filled slot came from. */
  lemma SplitOf<S>(g: seq<seq<Edge>>, est: Estimator<S>, init: seq<Node<S>>, t: Table<S>, x: set<nat>)
    returns (comb: seq<nat>, r: nat)
    requires Solved(g, est, init, t, |g|) && x <= Below(|g|) && |x| >= 2 && Slot(t, x, |g|).Some?
    ensures IsSplit(x, comb, r, |g|) && AllBelow(comb, |g|) && Slot(t, x, |g|) == Offer(g, est, t, comb, r)
    ensures LargerCostMore(g, est, t, x, r, Slot(t, x, |g|).value.cost)
  {
    var n, k := |g|, |x| - 1;
    SizeBelow(x, n);
    AllCombsOk(n, k);
    hide Offer, Members, Combs, BestOffer, Slot, Attach, IsComb, EarlierCostMore, LargerCostMore;
    assert Slot(t, x, n) == Expected(g, est, init, t, n, x);
    var s';
    s', r := BestIsOffered(g, est, t, Combs(0, n, k), k, |Combs(0, n, k)|, 0, x);
    comb := Combs(0, n, k)[s'];
    LargerBefore(g, est, t, x, s', r, Slot(t, x, n).value.cost);
  }

  /** Leaving out a larger relation than `r` costs more. */
  ghost predicate LargerCostMore<S>(g: seq<seq<Edge>>, est: Estimator<S>, t: Table<S>, x: set<nat>, r: nat, cost: Word)
    requires |t| == Pow2(|g|)
  {
    forall comb, r': nat :: IsSplit(x, comb, r', |g|) && r < r' ==> NotCheaper(g, est, t, comb, r', cost)
  }

  predicate NotCheaper<S>(g: seq<seq<Edge>>, est: Estimator<S>, t: Table<S>, comb: seq<nat>, r: nat, cost: Word)
    requires |t| == Pow2(|g|)
  {
    AllBelow(comb, |g|) && r < |g| && Offer(g, est, t, comb, r).Some? ==> cost < Offer(g, est, t, comb, r).value.cost
  }

  /** Splits that leave out a larger relation are looked at earlier. */
  lemma LargerBefore<S>(g: seq<seq<Edge>>, est: Estimator<S>, t: Table<S>, x: set<nat>, s: nat, r: nat, cost: Word)
    requires |t| == Pow2(|g|) && |x| >= 2 && x <= Below(|g|)
    requires s < |Combs(0, |g|, |x| - 1)| && IsSplit(x, Combs(0, |g|, |x| - 1)[s], r, |g|)
    requires EarlierCostMore(g, est, t, Combs(0, |g|, |x| - 1), x, s, r, cost)
    ensures LargerCostMore(g, est, t, x, r, cost)
  {
    var n, k := |g|, |x| - 1;
    var cs := Combs(0, n, k);
    forall comb, r': nat | IsSplit(x, comb, r', n) && r < r'
      ensures NotCheaper(g, est, t, comb, r', cost)
    {
      hide Offer, Combs, EarlierCostMore, Offers, IsSplit;
      var s' := EarlierSplit(x, cs[s], r, comb, r', n, s);
      SplitMembers(x, comb, r', n);
      assert Before(s', r', s, r);
      EarlierCosts(g, est, t, cs, x, s, r, cost, s', r');
    }
  }

  lemma EarlierCosts<S>(g: seq<seq<Edge>>, est: Estimator<S>, t: Table<S>, cs: seq<seq<nat>>, x: set<nat>,
                        s: nat, r: nat, cost: Word, s': nat, r': nat)
    requires |t| == Pow2(|g|) && EarlierCostMore(g, est, t, cs, x, s, r, cost) && Before(s', r', s, r)
    requires s' < |cs| && r' < |g| && AllBelow(cs[s'], |g|) && Members(cs[s']) + {r'} == x
    ensures NotCheaper(g, est, t, cs[s'], r', cost)
  {
    hide Offer;
    if Offer(g, est, t, cs[s'], r').Some? {
      assert Offers(g, est, t, cs, x, s', r');
    }
  }

  /** A split's combination is the set without the relation. */
  lemma SplitMembers(x: set<nat>, comb: seq<nat>, r: nat, n: nat)
    requires IsSplit(x, comb, r, n)
    ensures AllBelow(comb, n) && Members(comb) == x - {r} && r in x && r !in comb && r < n
    ensures Members(comb) + {r} == x
    ensures forall i, j :: 0 <= i < j < |comb| ==> comb[i] < comb[j]
  {
    CombMembers(comb, n, |x| - 1);
    OneMissing(x, Members(comb), r);
  }

  lemma OneMissing(x: set<nat>, y: set<nat>, r: nat)
    requires y + {r} == x && |y| + 1 == |x|
    ensures r in x && r !in y && y == x - {r}
  {
    assert r in y ==> y + {r} == y;
  }

  lemma EarlierSplit(x: set<nat>, comb: seq<nat>, r: nat, comb': seq<nat>, r': nat, n: nat, s: nat)
    returns (s': nat)
    requires IsSplit(x, comb, r, n) && IsSplit(x, comb', r', n) && r < r'
    requires s < |Combs(0, n, |x| - 1)| && Combs(0, n, |x| - 1)[s] == comb
    ensures s' < s && Combs(0, n, |x| - 1)[s'] == comb'
  {
    hide *;
    SplitMembers(x, comb, r, n);
    SplitMembers(x, comb', r', n);
    s' := ListedAt(x, comb', r', n);
    var cs := Combs(0, n, |x| - 1);
    CombsOrdered(0, n, |x| - 1);
    LeftOutOrder(comb, comb', x, r, r');
    OrderedAt(cs, s', s);
  }

  /** Where a split's combination is listed. */
  lemma ListedAt(x: set<nat>, comb: seq<nat>, r: nat, n: nat) returns (s: nat)
    requires IsSplit(x, comb, r, n)
    ensures |x| >= 2 && s < |Combs(0, n, |x| - 1)| && Combs(0, n, |x| - 1)[s] == comb
  {
    hide Combs, IsComb, Members;
    CombsExact(0, n, |x| - 1, comb);
    s := PositionIn(Combs(0, n, |x| - 1), comb);
  }

  lemma PositionIn<T>(s: seq<T>, x: T) returns (i: nat)
    requires x in s
    ensures i < |s| && s[i] == x
  {
    i :| 0 <= i < |s| && s[i] == x;
  }

  lemma OrderedAt(cs: seq<seq<nat>>, i: nat, j: nat)
    requires Ordered(cs) && i < |cs| && j < |cs| && LexLess(cs[i], cs[j])
    ensures i < j
  {
    hide LexLess;
    LexIrreflexive(cs[i]);
    LexAsymmetric(cs[i], cs[j]);
  }

  /** Without a larger element a set comes earlier in the lexicographic order. */
  lemma {:induction false} LeftOutOrder(c: seq<nat>, c': seq<nat>, x: set<nat>, r: nat, r': nat)
    requires forall i, j :: 0 <= i < j < |c| ==> c[i] < c[j]
    requires forall i, j :: 0 <= i < j < |c'| ==> c'[i] < c'[j]
    requires Members(c) == x - {r} && Members(c') == x - {r'} && r in x && r' in x && r < r'
    ensures LexLess(c', c)
  {
    assert r in Members(c') && r' in Members(c);
    FirstIsLeast(c);
    FirstIsLeast(c');
    if c'[0] == r {
      assert c[0] in Members(c);
      assert c[0] == r' || c[0] in Members(c');
      assert c'[0] < c[0];
    } else {
      assert c[0] in Members(c) && c'[0] in Members(c');
      assert c'[0] in Members(c) && c[0] in Members(c');
      assert c[0] == c'[0];
      TailMembers(c);
      TailMembers(c');
      LeftOutOrder(c[1..], c'[1..], x - {c[0]}, r, r');
    }
  }

  lemma FirstIsLeast(c: seq<nat>)
    requires forall i, j :: 0 <= i < j < |c| ==> c[i] < c[j]
    ensures forall e :: e in Members(c) ==> c[0] <= e
  {
  }

  lemma TailMembers(c: seq<nat>)
    requires c != [] && forall i, j :: 0 <= i < j < |c| ==> c[i] < c[j]
    ensures Members(c[1..]) == Members(c) - {c[0]}
  {
    assert c == [c[0]] + c[1..];
  }

  lemma {:induction false} LexAsymmetric(a: seq<nat>, b: seq<nat>)
    ensures !(LexLess(a, b) && LexLess(b, a))
  {
    if a != [] && b != [] {
      LexAsymmetric(a[1..], b[1..]);
    }
  }

  /** What an offer is made of. */
  lemma OfferParts<S>(g: seq<seq<Edge>>, est: Estimator<S>, t: Table<S>, comb: seq<nat>, r: nat)
    requires |t| == Pow2(|g|) && AllBelow(comb, |g|) && r < |g|
    ensures Offer(g, est, t, comb, r).Some? <==>
            r !in comb && Attach(g, comb, r).Some? && Slot(t, Members(comb), |g|).Some? && Slot(t, {r}, |g|).Some?
  {
  }

  lemma SingleSlot<S>(g: seq<seq<Edge>>, est: Estimator<S>, init: seq<Node<S>>, t: Table<S>, r: nat)
    requires Solved(g, est, init, t, |g|) && r < |g|
    ensures Slot(t, {r}, |g|) == Some(init[r])
  {
    assert {r} <= Below(|g|);
    assert Slot(t, {r}, |g|) == Expected(g, est, init, t, |g|, {r});
    InitialSingle(init, r);
    hide Slot;
  }

  /** A slot of one or more relations is filled exactly when the joins connect them. */
  lemma {:induction false} FilledIffConnected<S>(g: seq<seq<Edge>>, joins: seq<Pred>, est: Estimator<S>,
                                                 init: seq<Node<S>>, t: Table<S>, x: set<nat>)
    requires IsGraphOf(g, joins) && Solved(g, est, init, t, |g|) && x <= Below(|g|) && x != {}
    ensures Slot(t, x, |g|).Some? <==> Connected(JoinEdges(joins), x)
    decreases |x|
  {
    assert |t| == Pow2(|g|);
    hide Slot, Offer, Attach, Connected, IsGraphOf, Solved;
    if |x| == 1 {
      var r :| r in x;
      SubsetSize({r}, x);
      SingleSlot(g, est, init, t, r);
      SingletonConnected(JoinEdges(joins), r);
    } else {
      if Slot(t, x, |g|).Some? {
        var comb, r := SplitOf(g, est, init, t, x);
        SplitFilled(g, joins, est, init, t, x, comb, r);
        FilledIffConnected(g, joins, est, init, t, x - {r});
        SplitConnected(g, joins, x, comb, r);
      }
      if Connected(JoinEdges(joins), x) {
        var r, y := RemovableRelation(JoinEdges(joins), x);
        FilledIffConnected(g, joins, est, init, t, x - {r});
        ConnectedFilled(g, joins, est, init, t, x, r, y);
      }
    }
  }

  lemma SplitFilled<S>(g: seq<seq<Edge>>, joins: seq<Pred>, est: Estimator<S>,
                       init: seq<Node<S>>, t: Table<S>, x: set<nat>, comb: seq<nat>, r: nat)
    requires |t| == Pow2(|g|) && IsSplit(x, comb, r, |g|) && AllBelow(comb, |g|) && Offer(g, est, t, comb, r).Some?
    ensures r !in comb && Members(comb) == x - {r} && |x - {r}| == |x| - 1
    ensures Attach(g, comb, r).Some? && Slot(t, x - {r}, |g|).Some?
  {
    OfferParts(g, est, t, comb, r);
    hide Slot, Offer, Attach;
    assert r !in Members(comb);
    assert Members(comb) == x - {r};
  }

  lemma SplitConnected(g: seq<seq<Edge>>, joins: seq<Pred>, x: set<nat>, comb: seq<nat>, r: nat)
    requires IsGraphOf(g, joins) && AllBelow(comb, |g|) && r < |g| && r !in comb && r in x && Members(comb) == x - {r}
    requires Attach(g, comb, r).Some? && Connected(JoinEdges(joins), x - {r})
    ensures Connected(JoinEdges(joins), x)
  {
    AttachExact(g, joins, comb, r);
    hide Attach, Connected, IsGraphOf, JoinEdges;
    var y :| y in comb && Neighbour(joins, y, r);
    assert y in Members(comb);
    GrowConnected(JoinEdges(joins), x - {r}, y, r);
    assert x - {r} + {r} == x;
  }

  lemma ConnectedFilled<S>(g: seq<seq<Edge>>, joins: seq<Pred>, est: Estimator<S>,
                           init: seq<Node<S>>, t: Table<S>, x: set<nat>, r: nat, y: nat)
    requires IsGraphOf(g, joins) && Solved(g, est, init, t, |g|) && x <= Below(|g|) && |x| >= 2
    requires r in x && y in x - {r} && Neighbour(joins, y, r) && Slot(t, x - {r}, |g|).Some?
    ensures Slot(t, x, |g|).Some?
  {
    assert |t| == Pow2(|g|);
    hide Slot, Offer, Attach, IsGraphOf, JoinEdges, Solved;
    var comb := CombOf(x - {r}, |g|);
    assert y in Members(comb) && r !in Members(comb);
    assert Members(comb) + {r} == x;
    CombMembers(comb, |g|, |x| - 1);
    AttachExact(g, joins, comb, r);
    SingleSlot(g, est, init, t, r);
    OfferParts(g, est, t, comb, r);
    LeastOverSplits(g, est, init, t, x, comb, r);
  }

  /* ----- the join sequences ----- */

  /** The join relates `r` to one of `earlier`. */
  predicate Attaches(joins: seq<Pred>, joinId: nat, earlier: seq<nat>, r: nat) {
    && joinId < |joins| && joins[joinId].Join?
    && var p := joins[joinId];
       || (p.participant1.rel in earlier && p.participant2.rel == r)
       || (p.participant2.rel in earlier && p.participant1.rel == r)
  }

  /** A join tree over exactly the relations of `x`: one join fewer than relations, each
      attaching one new relation to those already joined. */
  predicate WellJoined<S>(joins: seq<Pred>, node: Node<S>, x: set<nat>) {
    && Members(node.comb) == x && Members(node.rels) == x && |node.rels| == |x|
    && |node.joinSeq| == |x| - 1
    && forall j :: 0 <= j < |node.joinSeq| ==>
         Attaches(joins, node.joinSeq[j], node.rels[..j + 1], node.rels[j + 1])
  }

  lemma {:induction false} SlotWellJoined<S>(g: seq<seq<Edge>>, joins: seq<Pred>, est: Estimator<S>,
                                             init: seq<Node<S>>, t: Table<S>, x: set<nat>)
    requires IsGraphOf(g, joins) && Solved(g, est, init, t, |g|) && x <= Below(|g|) && x != {}
    requires Slot(t, x, |g|).Some?
    ensures WellJoined(joins, Slot(t, x, |g|).value, x)
    decreases |x|
  {
    assert |t| == Pow2(|g|);
    if |x| == 1 {
      var r :| r in x;
      SubsetSize({r}, x);
      SingleSlot(g, est, init, t, r);
      assert IsSingle(init[r], r);
      hide Slot;
    } else {
      var comb, r := SplitOf(g, est, init, t, x);
      SplitFilled(g, joins, est, init, t, x, comb, r);
      SlotWellJoined(g, joins, est, init, t, x - {r});
      SingleSlot(g, est, init, t, r);
      assert IsSingle(init[r], r);
      hide Solved, Slot, WellJoined, Connected, IsGraphOf;
      AttachExact(g, joins, comb, r);
      OfferTree(g, est, t, comb, r, x);
      MembersGrow(comb, r);
      TreeGrows(joins, est, Slot(t, x - {r}, |g|).value, Slot(t, {r}, |g|).value, comb + [r],
                Attach(g, comb, r).value, x, r);
    }
  }

  /** An offer is the join tree of the two slots. */
  lemma OfferTree<S>(g: seq<seq<Edge>>, est: Estimator<S>, t: Table<S>, comb: seq<nat>, r: nat, x: set<nat>)
    requires |t| == Pow2(|g|) && AllBelow(comb, |g|) && r < |g| && Offer(g, est, t, comb, r).Some?
    requires Members(comb) == x - {r}
    ensures Attach(g, comb, r).Some? && Slot(t, x - {r}, |g|).Some? && Slot(t, {r}, |g|).Some?
    ensures Offer(g, est, t, comb, r)
         == Some(JoinTree(est, Slot(t, x - {r}, |g|).value, Slot(t, {r}, |g|).value,
                          comb + [r], Attach(g, comb, r).value))
  {
  }

  lemma TreeGrows<S>(joins: seq<Pred>, est: Estimator<S>, h1: Node<S>, h2: Node<S>, newComb: seq<nat>,
                     l: Link, x: set<nat>, r: nat)
    requires r in x && WellJoined(joins, h1, x - {r}) && |x - {r}| >= 1 && IsSingle(h2, r)
    requires l.connection in x - {r} && Links(joins, l, r) && Members(newComb) == x
    ensures WellJoined(joins, JoinTree(est, h1, h2, newComb, l), x)
    ensures PartOf(h1.rels, l.connection) < |h1.rels| && h1.rels[PartOf(h1.rels, l.connection)] == l.connection
  {
    var node := JoinTree(est, h1, h2, newComb, l);
    MembersGrow(h1.rels, r);
    assert node.rels == h1.rels + [r];
    assert l.connection in h1.rels by {
      assert l.connection in Members(h1.rels);
    }
    forall j | 0 <= j < |node.joinSeq|
      ensures Attaches(joins, node.joinSeq[j], node.rels[..j + 1], node.rels[j + 1])
    {
      if j < |h1.joinSeq| {
        assert node.rels[..j + 1] == h1.rels[..j + 1];
        assert Attaches(joins, h1.joinSeq[j], h1.rels[..j + 1], h1.rels[j + 1]);
      } else {
        assert node.rels[..j + 1] == h1.rels;
      }
    }
  }

  /** No join is used twice. */
  lemma JoinsDistinct<S>(joins: seq<Pred>, node: Node<S>, x: set<nat>)
    requires WellJoined(joins, node, x)
    ensures NoDuplicates(node.joinSeq)
  {
    MembersDistinct(node.rels);
    forall i: nat, j: nat | i < j < |node.joinSeq|
      ensures node.joinSeq[i] != node.joinSeq[j]
    {
      assert Attaches(joins, node.joinSeq[i], node.rels[..i + 1], node.rels[i + 1]);
      assert Attaches(joins, node.joinSeq[j], node.rels[..j + 1], node.rels[j + 1]);
      if node.joinSeq[i] == node.joinSeq[j] {
        TwoNews(joins[node.joinSeq[i]], node.rels, i, j);
        assert false;
      }
    }
  }

  /** One join cannot bring in both the relation at i + 1 and the later one at j + 1. */
  lemma TwoNews(p: Pred, rels: seq<nat>, i: nat, j: nat)
    requires p.Join? && i < j && j + 1 < |rels| && NoDuplicates(rels)
    requires p.participant1.rel in rels[..i + 1] + [rels[i + 1]] && p.participant2.rel in rels[..i + 1] + [rels[i + 1]]
    ensures p.participant1.rel != rels[j + 1] && p.participant2.rel != rels[j + 1]
  {
  }

  lemma {:induction false} MembersDistinct(rels: seq<nat>)
    requires |Members(rels)| == |rels|
    ensures NoDuplicates(rels)
  {
    if rels != [] {
      var n := |rels| - 1;
      MembersGrow(rels[..n], rels[n]);
      assert rels == rels[..n] + [rels[n]];
      MembersSize(rels[..n]);
      MembersDistinct(rels[..n]);
      assert rels[n] !in Members(rels[..n]);
    }
  }

  lemma {:induction false} MembersSize(rels: seq<nat>)
    ensures |Members(rels)| <= |rels|
  {
    if rels != [] {
      var n := |rels| - 1;
      MembersGrow(rels[..n], rels[n]);
      assert rels == rels[..n] + [rels[n]];
      MembersSize(rels[..n]);
    }
  }

  /** There is a plan for exactly the queries that are connected. */
  lemma PlannedIffConnected<S>(q: Query, filters: seq<Pred>, joins: seq<Pred>, g: seq<seq<Edge>>,
                               est: Estimator<S>, init: seq<Node<S>>, t: Table<S>)
    requires q.Valid() && |q.rels| == |g| > 0
    requires QueryRun.AllFilters(q, filters) && QueryRun.AllJoins(q, joins)
    requires IsGraphOf(g, joins) && Solved(g, est, init, t, |g|)
    ensures Slot(t, Below(|g|), |g|).Some? && filters + joins != []
       <==> QueryRun.ConnectedQuery(q, QueryRun.SetOf(filters) + QueryRun.SetOf(joins))
  {
    hide Slot, Solved, IsGraphOf, Connected;
    assert 0 in Below(|g|);
    FilledIffConnected(g, joins, est, init, t, Below(|g|));
    SameEdges(q, filters, joins);
  }

  /** Filters make no edges. */
  lemma SameEdges(q: Query, filters: seq<Pred>, joins: seq<Pred>)
    requires q.Valid() && QueryRun.AllFilters(q, filters) && QueryRun.AllJoins(q, joins)
    ensures var preds := QueryRun.SetOf(filters) + QueryRun.SetOf(joins);
      && AllIn(q, preds) && (preds != {} <==> filters + joins != [])
      && QueryState.EdgesOf(preds) == JoinEdges(joins)
  {
    var preds := QueryRun.SetOf(filters) + QueryRun.SetOf(joins);
    if filters + joins != [] {
      assert (filters + joins)[0] in preds;
    }
  }

  /** There is a plan for exactly the queries whose execution, whatever it does in between, ends with
      one intermediate over all relations. */
  lemma PlannedIffOneLeft<S>(q: Query, filters: seq<Pred>, joins: seq<Pred>, g: seq<seq<Edge>>,
                             est: Estimator<S>, init: seq<Node<S>>, t: Table<S>, inters: seq<Inter>)
    requires q.Valid() && |q.rels| == |g| > 0
    requires QueryRun.AllFilters(q, filters) && QueryRun.AllJoins(q, joins)
    requires IsGraphOf(g, joins) && Solved(g, est, init, t, |g|)
    requires QueryState.Inv(q, QueryRun.SetOf(filters) + QueryRun.SetOf(joins), inters)
    ensures Slot(t, Below(|g|), |g|).Some? && filters + joins != []
       <==> |inters| == 1 && RelSet(inters[0]) == QueryRun.AllRels(q)
  {
    PlannedIffConnected(q, filters, joins, g, est, init, t);
    hide Slot, Solved, IsGraphOf, QueryState.Inv;
    QueryRun.OneIffConnected(q, QueryRun.SetOf(filters) + QueryRun.SetOf(joins), inters);
  }

  /** No join of a tree is a self-join: each one attaches a new relation. */
  lemma TreeHasNoSelfJoin<S>(joins: seq<Pred>, node: Node<S>, x: set<nat>, j: nat)
    requires WellJoined(joins, node, x) && j < |node.joinSeq|
    ensures node.joinSeq[j] < |joins| && !joins[node.joinSeq[j]].IsSelfJoin()
  {
    MembersDistinct(node.rels);
    assert Attaches(joins, node.joinSeq[j], node.rels[..j + 1], node.rels[j + 1]);
  }
}

/** The dynamic program over subsets of relations that picks a join order. */
module JoinEnumeration {
  import opened Words
  import opened Bags
  import opened Bitmasks
  import opened Combinations
  import opened JoinGraphs

  /** A join tree for some relations: `rels` in the order in which they were joined, their
      statistics, the joins that joined them and the estimated cost. */
  datatype Node<S> = Node(comb: seq<nat>, rels: seq<nat>, stats: S, joinSeq: seq<nat>, cost: Word)

  datatype Estimate<S> = Estimate(stats: S, rows: Word)

  /** The cardinality estimate of joining two nodes, given the position of the left relation and
      the two columns; left open. */
  type Estimator<!S> = (S, S, nat, nat, nat) -> Estimate<S>

  type Table<S> = seq<Option<Node<S>>>

  /* ----- one join tree ----- */

  /** The last position of `x`; 0 without one. */
  function PartOf(rels: seq<nat>, x: nat): (p: nat)
    ensures x in rels ==> p < |rels| && rels[p] == x
  {
    if rels == [] then 0
    else if rels[|rels| - 1] == x then |rels| - 1
    else PartOf(rels[..|rels| - 1], x)
  }

  function JoinTree<S>(est: Estimator<S>, h1: Node<S>, h2: Node<S>, newComb: seq<nat>, l: Link): Node<S> {
    var e := est(h1.stats, h2.stats, PartOf(h1.rels, l.connection), l.col1, l.col2);
    Node(newComb, h1.rels + h2.rels, e.stats, h1.joinSeq + [l.joinId], (h1.cost + e.rows) % TWO_64)
  }

  method CreateJoinTree<S>(est: Estimator<S>, h1: Node<S>, h2: Node<S>, newComb: seq<nat>, l: Link)
    returns (node: Node<S>)
    requires |newComb| == |h1.rels| + 1 && |h2.rels| == 1
    ensures node == JoinTree(est, h1, h2, newComb, l)
  {
    var numRels := |newComb|;
    var partA := 0;
    var rels := [];
    for i := 0 to numRels - 1
      invariant rels == h1.rels[..i] && partA == PartOf(h1.rels[..i], l.connection)
    {
      rels := rels + [h1.rels[i]];
      assert h1.rels[..i + 1][..i] == h1.rels[..i];
      if h1.rels[i] == l.connection {
        partA := i;
      }
    }
    assert h1.rels[..numRels - 1] == h1.rels && [h2.rels[0]] == h2.rels;
    var e := est(h1.stats, h2.stats, partA, l.col1, l.col2);
    node := Node(newComb, rels + [h2.rels[0]], e.stats, h1.joinSeq + [l.joinId], (h1.cost + e.rows) % TWO_64);
  }

  /* ----- the table ----- */

  function Slot<S>(t: Table<S>, s: set<nat>, n: nat): Option<Node<S>>
    requires |t| == Pow2(n)
  {
    SetIndexBelow(s, n);
    t[SetIndex(s, n)]
  }

  /** What joining `r` to the best tree of `comb` offers. */
  function Offer<S>(g: seq<seq<Edge>>, est: Estimator<S>, t: Table<S>, comb: seq<nat>, r: nat): Option<Node<S>>
    requires |t| == Pow2(|g|) && AllBelow(comb, |g|) && r < |g|
  {
    if r in comb then None
    else
      var l := Attach(g, comb, r);
      var h1, h2 := Slot(t, Members(comb), |g|), Slot(t, {r}, |g|);
      if l.None? || h1.None? || h2.None? then None
      else Some(JoinTree(est, h1.value, h2.value, comb + [r], l.value))
  }

  /** The old tree stays unless the new one costs less. */
  function Cheaper<S>(best: Option<Node<S>>, offer: Option<Node<S>>): Option<Node<S>> {
    if offer.Some? && (best.None? || best.value.cost > offer.value.cost) then offer else best
  }

  predicate CombsOk(cs: seq<seq<nat>>, n: nat, k: nat) {
    forall i :: 0 <= i < |cs| ==> IsComb(cs[i], 0, n, k)
  }

  /** The best offer for `target` among the pairs (combination, relation) before (s, r), the
      earliest among equals. */
  function BestOffer<S>(g: seq<seq<Edge>>, est: Estimator<S>, t: Table<S>, cs: seq<seq<nat>>, k: nat,
                        s: nat, r: nat, target: set<nat>): Option<Node<S>>
    requires |t| == Pow2(|g|) && CombsOk(cs, |g|, k) && r <= |g|
    requires if r > 0 then s < |cs| else s <= |cs|
    decreases s, r
  {
    if r > 0 then
      Cheaper(BestOffer(g, est, t, cs, k, s, r - 1, target),
              if Members(cs[s]) + {r - 1} == target then Offer(g, est, t, cs[s], r - 1) else None)
    else if s > 0 then BestOffer(g, est, t, cs, k, s - 1, |g|, target)
    else None
  }

  /** The table after one pair has been looked at. */
  function Considered<S>(g: seq<seq<Edge>>, est: Estimator<S>, t: Table<S>, comb: seq<nat>, r: nat): (t': Table<S>)
    requires |t| == Pow2(|g|) && AllBelow(comb, |g|) && r < |g|
    ensures |t'| == |t|
  {
    var target := Members(comb) + {r};
    SetIndexBelow(target, |g|);
    if Offer(g, est, t, comb, r).None? then t
    else t[SetIndex(target, |g|) := Cheaper(Slot(t, target, |g|), Offer(g, est, t, comb, r))]
  }

  /** Filled slots hold trees over as many relations as the slot stands for; those of single
      relations are filled. */
  ghost predicate Sized<S>(t: Table<S>, n: nat)
    requires |t| == Pow2(n)
  {
    && (forall s: set<nat> :: s <= Below(n) ==> SizedSlot(t, s, n))
    && forall r: nat :: r < n ==> Slot(t, {r}, n).Some?
  }

  predicate SizedSlot<S>(t: Table<S>, s: set<nat>, n: nat)
    requires |t| == Pow2(n)
  {
    Slot(t, s, n).Some? ==> |Slot(t, s, n).value.rels| == |s|
  }

  method ExistsInComb(comb: seq<nat>, r: nat) returns (b: bool)
    ensures b <==> r in comb
  {
    for i := 0 to |comb|
      invariant r !in comb[..i]
    {
      if comb[i] == r {
        return true;
      }
    }
    return false;
  }

  lemma CombMembers(c: seq<nat>, n: nat, k: nat)
    requires IsComb(c, 0, n, k)
    ensures AllBelow(c, n) && Members(c) <= Below(n) && |Members(c)| == k
  {
    DistinctMembers(c);
  }

  lemma {:induction false} DistinctMembers(c: seq<nat>)
    requires forall i, j :: 0 <= i < j < |c| ==> c[i] != c[j]
    ensures |Members(c)| == |c|
  {
    if c != [] {
      var n := |c| - 1;
      DistinctMembers(c[..n]);
      assert Members(c) == Members(c[..n]) + {c[n]};
    }
  }

  lemma MembersGrow(comb: seq<nat>, r: nat)
    ensures Members(comb + [r]) == Members(comb) + {r}
  {
  }

  /** What one pair offers. */
  method MakeOffer<S>(g: seq<seq<Edge>>, est: Estimator<S>, hashTree: array<Option<Node<S>>>, comb: seq<nat>, r: nat)
    returns (offer: Option<Node<S>>)
    requires hashTree.Length == Pow2(|g|) && Sized(hashTree[..], |g|)
    requires IsComb(comb, 0, |g|, |comb|) && AllBelow(comb, |g|) && r < |g|
    ensures offer == Offer(g, est, hashTree[..], comb, r)
  {
    hide *;
    ghost var t := hashTree[..];
    CombMembers(comb, |g|, |comb|);
    var found := ExistsInComb(comb, r);
    if found {
      NoOffer(g, est, t, comb, r);
      return None;
    }
    var connection, col1, col2, joinId := AreConnected(comb, r, g);
    if connection == -1 {
      NoOffer(g, est, t, comb, r);
      return None;
    }
    var hashIndex1 := CombToIndex(comb, |g|);
    SlotIs(t, Members(comb), |g|);
    var h1 := hashTree[hashIndex1];
    if h1.None? {
      NoOffer(g, est, t, comb, r);
      return None;
    }
    SetIndexOfOne(r, |g|);
    SlotIs(t, {r}, |g|);
    var h2 := hashTree[Pow2(r)];
    SomeOffer(g, est, t, comb, r);
    var newHTNode := CreateJoinTree(est, h1.value, h2.value, comb + [r], Link(connection, col1, col2, joinId));
    offer := Some(newHTNode);
  }

  lemma SlotIs<S>(t: Table<S>, s: set<nat>, n: nat)
    requires |t| == Pow2(n)
    ensures SetIndex(s, n) < |t| && Slot(t, s, n) == t[SetIndex(s, n)]
  {
    SetIndexBelow(s, n);
  }

  lemma NoOffer<S>(g: seq<seq<Edge>>, est: Estimator<S>, t: Table<S>, comb: seq<nat>, r: nat)
    requires |t| == Pow2(|g|) && AllBelow(comb, |g|) && r < |g|
    requires r in comb || Attach(g, comb, r).None? || Slot(t, Members(comb), |g|).None?
    ensures Offer(g, est, t, comb, r).None?
  {
    hide Attach, Slot;
  }

  lemma SomeOffer<S>(g: seq<seq<Edge>>, est: Estimator<S>, t: Table<S>, comb: seq<nat>, r: nat)
    requires |t| == Pow2(|g|) && IsComb(comb, 0, |g|, |comb|) && AllBelow(comb, |g|) && r < |g| && Sized(t, |g|)
    requires r !in comb && Attach(g, comb, r).Some? && Slot(t, Members(comb), |g|).Some?
    ensures var h1, h2 := Slot(t, Members(comb), |g|), Slot(t, {r}, |g|);
      && h2.Some? && |h1.value.rels| == |comb| && |h2.value.rels| == 1
      && Offer(g, est, t, comb, r) == Some(JoinTree(est, h1.value, h2.value, comb + [r], Attach(g, comb, r).value))
  {
    hide Attach, Slot, JoinTree, IsComb, AllBelow, Members, Pow2;
    CombMembers(comb, |g|, |comb|);
    assert {r} <= Below(|g|);
    assert SizedSlot(t, Members(comb), |g|) && SizedSlot(t, {r}, |g|);
  }

  /** One pair: the loop body. */
  method Consider<S>(g: seq<seq<Edge>>, est: Estimator<S>, hashTree: array<Option<Node<S>>>, comb: seq<nat>, r: nat)
    requires hashTree.Length == Pow2(|g|) && Sized(hashTree[..], |g|)
    requires IsComb(comb, 0, |g|, |comb|) && AllBelow(comb, |g|) && r < |g|
    modifies hashTree
    ensures hashTree[..] == Considered(g, est, old(hashTree[..]), comb, r)
  {
    hide *;
    ghost var t := hashTree[..];
    ConsideredIs(g, est, t, comb, r);
    var offer := MakeOffer(g, est, hashTree, comb, r);
    if offer.None? {
      return;
    }
    CombMembers(comb, |g|, |comb|);
    MembersGrow(comb, r);
    assert {r} <= Below(|g|);
    var indexHT := CombToIndex(comb + [r], |g|);
    if hashTree[indexHT].None? || hashTree[indexHT].value.cost > offer.value.cost {
      hashTree[indexHT] := offer;
    }
  }

  lemma ConsideredIs<S>(g: seq<seq<Edge>>, est: Estimator<S>, t: Table<S>, comb: seq<nat>, r: nat)
    requires |t| == Pow2(|g|) && AllBelow(comb, |g|) && r < |g|
    ensures var i := SetIndex(Members(comb) + {r}, |g|); var offer := Offer(g, est, t, comb, r);
      && i < |t|
      && (offer.None? ==> Considered(g, est, t, comb, r) == t)
      && (offer.Some? && (t[i].None? || t[i].value.cost > offer.value.cost) ==>
            Considered(g, est, t, comb, r) == t[i := offer])
      && (offer.Some? && !(t[i].None? || t[i].value.cost > offer.value.cost) ==> Considered(g, est, t, comb, r) == t)
  {
    hide Offer, SetIndex, Members;
    SlotIs(t, Members(comb) + {r}, |g|);
  }

  /** The slot of one relation is at the power of two. */
  lemma SetIndexOfOne(r: nat, n: nat)
    requires r < n
    ensures SetIndex({r}, n) == Pow2(r) < Pow2(n)
  {
    SetIndexBelow({r}, n);
    Pow2Monotone(r, n);
    forall i: nat | i < n
      ensures TestBit(SetIndex({r}, n), i) == TestBit(Pow2(r), i)
    {
      SetIndexBit({r}, n, i);
      Pow2Bit(r, i);
    }
    BitsDetermine(SetIndex({r}, n), Pow2(r), n);
  }

  /* ----- one level ----- */

  /** While level `k` runs from table `t0`, having come to (s, r): only slots of k + 1 relations
      have changed, and each holds the best offer so far. */
  ghost predicate LevelInv<S>(g: seq<seq<Edge>>, est: Estimator<S>, t0: Table<S>, t: Table<S>,
                              cs: seq<seq<nat>>, k: nat, s: nat, r: nat)
    requires |t0| == |t| == Pow2(|g|) && CombsOk(cs, |g|, k) && r <= |g|
    requires if r > 0 then s < |cs| else s <= |cs|
  {
    forall x: set<nat> :: x <= Below(|g|) ==>
      Slot(t, x, |g|) == if |x| == k + 1 then BestOffer(g, est, t0, cs, k, s, r, x) else Slot(t0, x, |g|)
  }

  /** What a pair offers depends only on the slots of the combination and of the relation. */
  lemma OfferFrame<S>(g: seq<seq<Edge>>, est: Estimator<S>, t: Table<S>, t': Table<S>, comb: seq<nat>, r: nat)
    requires |t| == |t'| == Pow2(|g|) && AllBelow(comb, |g|) && r < |g|
    requires Slot(t, Members(comb), |g|) == Slot(t', Members(comb), |g|) && Slot(t, {r}, |g|) == Slot(t', {r}, |g|)
    ensures Offer(g, est, t, comb, r) == Offer(g, est, t', comb, r)
  {
  }

  lemma ConsiderSlot<S>(g: seq<seq<Edge>>, est: Estimator<S>, t: Table<S>, comb: seq<nat>, r: nat, x: set<nat>)
    requires |t| == Pow2(|g|) && AllBelow(comb, |g|) && r < |g| && x <= Below(|g|)
    ensures Slot(Considered(g, est, t, comb, r), x, |g|)
         == if x == Members(comb) + {r} then Cheaper(Slot(t, x, |g|), Offer(g, est, t, comb, r)) else Slot(t, x, |g|)
  {
    hide Offer, SetIndex, Pow2;
    assert Members(comb) + {r} <= Below(|g|);
    SetIndexInjective(x, Members(comb) + {r}, |g|);
    SetIndexBelow(x, |g|);
  }

  lemma LevelStep<S>(g: seq<seq<Edge>>, est: Estimator<S>, t0: Table<S>, t: Table<S>,
                     cs: seq<seq<nat>>, k: nat, s: nat, r: nat)
    requires |t0| == |t| == Pow2(|g|) && CombsOk(cs, |g|, k) && r < |g| && s < |cs| && k >= 1
    requires LevelInv(g, est, t0, t, cs, k, s, r)
    ensures AllBelow(cs[s], |g|)
    ensures LevelInv(g, est, t0, Considered(g, est, t, cs[s], r), cs, k, s, r + 1)
  {
    var n := |g|;
    CombMembers(cs[s], n, k);
    hide Offer, Considered, Slot, Cheaper;
    assert {r} <= Below(n);
    OfferFrame(g, est, t, t0, cs[s], r);
    forall x: set<nat> | x <= Below(n)
      ensures Slot(Considered(g, est, t, cs[s], r), x, n)
           == if |x| == k + 1 then BestOffer(g, est, t0, cs, k, s, r + 1, x) else Slot(t0, x, n)
    {
      ConsiderSlot(g, est, t, cs[s], r, x);
      StepFor(g, est, t0, cs, k, s, r, x, Slot(t, x, n));
    }
  }

  lemma StepFor<S>(g: seq<seq<Edge>>, est: Estimator<S>, t0: Table<S>, cs: seq<seq<nat>>, k: nat, s: nat, r: nat,
                   x: set<nat>, slot: Option<Node<S>>)
    requires |t0| == Pow2(|g|) && CombsOk(cs, |g|, k) && r < |g| && s < |cs| && AllBelow(cs[s], |g|)
    requires |x| == k + 1 ==> slot == BestOffer(g, est, t0, cs, k, s, r, x)
    ensures |x| == k + 1 ==>
              BestOffer(g, est, t0, cs, k, s, r + 1, x)
              == if x == Members(cs[s]) + {r} then Cheaper(slot, Offer(g, est, t0, cs[s], r)) else slot
    ensures x == Members(cs[s]) + {r} && |x| != k + 1 ==> Offer(g, est, t0, cs[s], r).None?
  {
    CombMembers(cs[s], |g|, k);
    hide Attach, Slot, JoinTree;
  }

  /** The slots of single relations and of `k` relations are the same in both tables. */
  ghost predicate Agree<S>(t: Table<S>, t': Table<S>, n: nat, k: nat)
    requires |t| == |t'| == Pow2(n)
  {
    forall x: set<nat> :: x <= Below(n) && (|x| == 1 || |x| == k) ==> Slot(t, x, n) == Slot(t', x, n)
  }

  lemma AgreeOffer<S>(g: seq<seq<Edge>>, est: Estimator<S>, t: Table<S>, t': Table<S>, comb: seq<nat>, k: nat, r: nat)
    requires |t| == |t'| == Pow2(|g|) && IsComb(comb, 0, |g|, k) && r < |g| && Agree(t, t', |g|, k)
    ensures AllBelow(comb, |g|) && Offer(g, est, t, comb, r) == Offer(g, est, t', comb, r)
  {
    hide Offer, Slot;
    CombMembers(comb, |g|, k);
    assert {r} <= Below(|g|);
    OfferFrame(g, est, t, t', comb, r);
  }

  /** A level reads only slots of `k` relations and of single ones. */
  lemma {:induction false} LevelReads<S>(g: seq<seq<Edge>>, est: Estimator<S>, t: Table<S>, t': Table<S>,
                                         cs: seq<seq<nat>>, k: nat, s: nat, r: nat, target: set<nat>)
    requires |t| == |t'| == Pow2(|g|) && CombsOk(cs, |g|, k) && r <= |g|
    requires if r > 0 then s < |cs| else s <= |cs|
    requires Agree(t, t', |g|, k)
    ensures BestOffer(g, est, t, cs, k, s, r, target) == BestOffer(g, est, t', cs, k, s, r, target)
    decreases s, r
  {
    hide Offer, Agree, Slot, Cheaper, Members;
    if r > 0 {
      LevelReads(g, est, t, t', cs, k, s, r - 1, target);
      AgreeOffer(g, est, t, t', cs[s], k, r - 1);
    } else if s > 0 {
      LevelReads(g, est, t, t', cs, k, s - 1, |g|, target);
    }
  }

  /** All pairs of one level. */
  method RunLevel<S>(g: seq<seq<Edge>>, est: Estimator<S>, hashTree: array<Option<Node<S>>>,
                     combs: seq<seq<nat>>, k: nat)
    requires hashTree.Length == Pow2(|g|) && Sized(hashTree[..], |g|) && CombsOk(combs, |g|, k) && k >= 1
    requires forall x: set<nat> :: x <= Below(|g|) && |x| == k + 1 ==> Slot(hashTree[..], x, |g|).None?
    modifies hashTree
    ensures LevelInv(g, est, old(hashTree[..]), hashTree[..], combs, k, |combs|, 0)
    ensures Sized(hashTree[..], |g|)
  {
    hide Slot, Considered, Offer, LevelInv, Sized;
    ghost var t0 := hashTree[..];
    LevelStart(g, est, t0, combs, k);
    for s := 0 to |combs|
      invariant LevelInv(g, est, t0, hashTree[..], combs, k, s, 0)
      invariant Sized(hashTree[..], |g|)
    {
      for r := 0 to |g|
        invariant LevelInv(g, est, t0, hashTree[..], combs, k, s, r)
        invariant Sized(hashTree[..], |g|)
      {
        LevelStep(g, est, t0, hashTree[..], combs, k, s, r);
        assert IsComb(combs[s], 0, |g|, |combs[s]|);
        ConsiderSized(g, est, hashTree[..], combs[s], r);
        Consider(g, est, hashTree, combs[s], r);
      }
      NextComb(g, est, t0, hashTree[..], combs, k, s);
    }
  }

  lemma LevelStart<S>(g: seq<seq<Edge>>, est: Estimator<S>, t: Table<S>, cs: seq<seq<nat>>, k: nat)
    requires |t| == Pow2(|g|) && CombsOk(cs, |g|, k)
    requires forall x: set<nat> :: x <= Below(|g|) && |x| == k + 1 ==> Slot(t, x, |g|).None?
    ensures LevelInv(g, est, t, t, cs, k, 0, 0)
  {
    hide Slot;
  }

  lemma NextComb<S>(g: seq<seq<Edge>>, est: Estimator<S>, t0: Table<S>, t: Table<S>,
                    cs: seq<seq<nat>>, k: nat, s: nat)
    requires |t0| == |t| == Pow2(|g|) && CombsOk(cs, |g|, k) && s < |cs|
    requires LevelInv(g, est, t0, t, cs, k, s, |g|)
    ensures LevelInv(g, est, t0, t, cs, k, s + 1, 0)
  {
    hide Slot, Offer;
  }

  lemma ConsiderSized<S>(g: seq<seq<Edge>>, est: Estimator<S>, t: Table<S>, comb: seq<nat>, r: nat)
    requires |t| == Pow2(|g|) && IsComb(comb, 0, |g|, |comb|) && AllBelow(comb, |g|) && r < |g| && Sized(t, |g|)
    ensures Sized(Considered(g, est, t, comb, r), |g|)
  {
    hide Slot, Considered, Offer, Pow2, IsComb, AllBelow, Members, SizedSlot;
    var n, t' := |g|, Considered(g, est, t, comb, r);
    forall x: set<nat> | x <= Below(n)
      ensures SizedSlot(t', x, n)
    {
      SlotSized(g, est, t, comb, r, x);
    }
    forall q: nat | q < n
      ensures Slot(t', {q}, n).Some?
    {
      assert {q} <= Below(n);
      SlotSized(g, est, t, comb, r, {q});
    }
  }

  lemma SlotSized<S>(g: seq<seq<Edge>>, est: Estimator<S>, t: Table<S>, comb: seq<nat>, r: nat, x: set<nat>)
    requires |t| == Pow2(|g|) && IsComb(comb, 0, |g|, |comb|) && AllBelow(comb, |g|) && r < |g| && Sized(t, |g|)
    requires x <= Below(|g|)
    ensures var t' := Considered(g, est, t, comb, r);
      && SizedSlot(t', x, |g|)
      && (Slot(t, x, |g|).Some? ==> Slot(t', x, |g|).Some?)
  {
    hide Slot, Considered, Offer, Pow2, IsComb, AllBelow, Members;
    assert SizedSlot(t, x, |g|);
    OfferSized(g, est, t, comb, r);
    ConsiderSlot(g, est, t, comb, r, x);
  }

  lemma OfferSized<S>(g: seq<seq<Edge>>, est: Estimator<S>, t: Table<S>, comb: seq<nat>, r: nat)
    requires |t| == Pow2(|g|) && AllBelow(comb, |g|) && r < |g| && Sized(t, |g|)
    ensures Offer(g, est, t, comb, r).Some? ==>
              |Offer(g, est, t, comb, r).value.rels| == |Members(comb) + {r}|
  {
    hide Slot, Attach;
    assert Members(comb) <= Below(|g|) && {r} <= Below(|g|);
    if r !in comb {
      assert |Members(comb) + {r}| == |Members(comb)| + 1;
    }
  }

  /* ----- the whole program ----- */

  /** The tree of a single relation. */
  predicate IsSingle<S>(node: Node<S>, r: nat) {
    node.comb == [r] && node.rels == [r] && node.joinSeq == []
  }

  /** The slots that the program starts from. */
  function Initial<S>(init: seq<Node<S>>, x: set<nat>): Option<Node<S>> {
    if r: nat :| r < |init| && x == {r} then Some(init[r]) else None
  }

  /** The table after the levels below `upto`: each slot of 2..upto relations holds the best of
      all offers made from this same table, and slots of more relations are empty. */
  ghost predicate Solved<S>(g: seq<seq<Edge>>, est: Estimator<S>, init: seq<Node<S>>, t: Table<S>, upto: nat) {
    && |t| == Pow2(|g|) && |init| == |g|
    && (forall r :: 0 <= r < |init| ==> IsSingle(init[r], r))
    && forall x: set<nat> :: x <= Below(|g|) ==> Slot(t, x, |g|) == Expected(g, est, init, t, upto, x)
  }

  function Expected<S>(g: seq<seq<Edge>>, est: Estimator<S>, init: seq<Node<S>>, t: Table<S>, upto: nat,
                       x: set<nat>): Option<Node<S>>
    requires |t| == Pow2(|g|)
  {
    if 2 <= |x| <= upto then LevelBest(g, est, t, x) else Initial(init, x)
  }

  /** The best of all offers for `x`. */
  function LevelBest<S>(g: seq<seq<Edge>>, est: Estimator<S>, t: Table<S>, x: set<nat>): Option<Node<S>>
    requires |t| == Pow2(|g|) && |x| >= 1
  {
    var k := |x| - 1;
    AllCombsOk(|g|, k);
    BestOffer(g, est, t, Combs(0, |g|, k), k, |Combs(0, |g|, k)|, 0, x)
  }

  lemma AllCombsOk(n: nat, k: nat)
    ensures CombsOk(Combs(0, n, k), n, k)
  {
    forall i | 0 <= i < |Combs(0, n, k)|
      ensures IsComb(Combs(0, n, k)[i], 0, n, k)
    {
      CombsExact(0, n, k, Combs(0, n, k)[i]);
    }
  }

  /** A finished level turns the table solved up to `k` into one solved up to `k + 1`. */
  lemma SolvedStep<S>(g: seq<seq<Edge>>, est: Estimator<S>, init: seq<Node<S>>, t0: Table<S>, t: Table<S>, k: nat)
    requires Solved(g, est, init, t0, k) && k >= 1 && |t| == |t0|
    requires CombsOk(Combs(0, |g|, k), |g|, k)
    requires LevelInv(g, est, t0, t, Combs(0, |g|, k), k, |Combs(0, |g|, k)|, 0)
    ensures Solved(g, est, init, t, k + 1)
  {
    hide Slot, Combs, BestOffer, Initial, IsSingle, LevelInv, Expected;
    forall x: set<nat> | x <= Below(|g|)
      ensures Slot(t, x, |g|) == Expected(g, est, init, t, k + 1, x)
    {
      assert Slot(t0, x, |g|) == Expected(g, est, init, t0, k, x);
      if |x| == k + 1 {
        NewSlot(g, est, init, t0, t, k, x);
      } else {
        OldSlot(g, est, init, t0, t, k, x);
      }
    }
  }

  lemma LevelAgrees<S>(g: seq<seq<Edge>>, est: Estimator<S>, t0: Table<S>, t: Table<S>, k: nat, j: nat)
    requires |t0| == |t| == Pow2(|g|) && 1 <= j <= k
    requires CombsOk(Combs(0, |g|, k), |g|, k)
    requires LevelInv(g, est, t0, t, Combs(0, |g|, k), k, |Combs(0, |g|, k)|, 0)
    ensures Agree(t0, t, |g|, j)
  {
    hide Slot, Combs, BestOffer;
  }

  lemma NewSlot<S>(g: seq<seq<Edge>>, est: Estimator<S>, init: seq<Node<S>>, t0: Table<S>, t: Table<S>,
                   k: nat, x: set<nat>)
    requires |t0| == |t| == Pow2(|g|) && k >= 1 && CombsOk(Combs(0, |g|, k), |g|, k)
    requires LevelInv(g, est, t0, t, Combs(0, |g|, k), k, |Combs(0, |g|, k)|, 0)
    requires x <= Below(|g|) && |x| == k + 1
    ensures Slot(t, x, |g|) == Expected(g, est, init, t, k + 1, x)
  {
    hide Slot, Combs, BestOffer, Agree, LevelBest, Initial;
    LevelAgrees(g, est, t0, t, k, k);
    LevelReads(g, est, t0, t, Combs(0, |g|, k), k, |Combs(0, |g|, k)|, 0, x);
    LevelBestIs(g, est, t, x, k);
  }

  lemma LevelBestIs<S>(g: seq<seq<Edge>>, est: Estimator<S>, t: Table<S>, x: set<nat>, k: nat)
    requires |t| == Pow2(|g|) && |x| == k + 1 && CombsOk(Combs(0, |g|, k), |g|, k)
    ensures LevelBest(g, est, t, x) == BestOffer(g, est, t, Combs(0, |g|, k), k, |Combs(0, |g|, k)|, 0, x)
  {
    hide Combs, BestOffer;
  }

  lemma OldSlot<S>(g: seq<seq<Edge>>, est: Estimator<S>, init: seq<Node<S>>, t0: Table<S>, t: Table<S>,
                   k: nat, x: set<nat>)
    requires |t0| == |t| == Pow2(|g|) && k >= 1 && CombsOk(Combs(0, |g|, k), |g|, k)
    requires LevelInv(g, est, t0, t, Combs(0, |g|, k), k, |Combs(0, |g|, k)|, 0)
    requires x <= Below(|g|) && |x| != k + 1 && Slot(t0, x, |g|) == Expected(g, est, init, t0, k, x)
    ensures Slot(t, x, |g|) == Expected(g, est, init, t, k + 1, x)
  {
    hide Slot, Combs, BestOffer, Initial, Agree;
    if 2 <= |x| <= k {
      var j := |x| - 1;
      AllCombsOk(|g|, j);
      LevelAgrees(g, est, t0, t, k, j);
      LevelReads(g, est, t0, t, Combs(0, |g|, j), j, |Combs(0, |g|, j)|, 0, x);
    }
  }

  lemma SolvedSized<S>(g: seq<seq<Edge>>, est: Estimator<S>, init: seq<Node<S>>, t: Table<S>)
    requires Solved(g, est, init, t, 1)
    ensures Sized(t, |g|)
  {
    hide Slot, Initial, IsSingle, LevelBest, Solved;
    assert |t| == Pow2(|g|) by {
      SolvedSlot(g, est, init, t, {});
    }
    forall x: set<nat> | x <= Below(|g|)
      ensures SizedSlot(t, x, |g|)
    {
      SolvedSlot(g, est, init, t, x);
    }
    forall r: nat | r < |g|
      ensures Slot(t, {r}, |g|).Some?
    {
      assert {r} <= Below(|g|);
      SolvedSlot(g, est, init, t, {r});
      InitialSingle(init, r);
    }
  }

  /** At first a slot is filled only for a single relation. */
  lemma SolvedSlot<S>(g: seq<seq<Edge>>, est: Estimator<S>, init: seq<Node<S>>, t: Table<S>, x: set<nat>)
    requires Solved(g, est, init, t, 1) && x <= Below(|g|)
    ensures |t| == Pow2(|g|) && |init| == |g| && Slot(t, x, |g|) == Initial(init, x)
    ensures Slot(t, x, |g|).Some? ==> |Slot(t, x, |g|).value.rels| == |x|
  {
    hide Slot;
    assert Slot(t, x, |g|) == Expected(g, est, init, t, 1, x);
  }

  lemma InitialSingle<S>(init: seq<Node<S>>, r: nat)
    requires r < |init|
    ensures Initial(init, {r}) == Some(init[r])
  {
    assert forall q: nat :: q < |init| && {r} == {q} ==> q in {r};
  }

  /** After the program every slot holds the best of the offers for its relations. */
  method EnumerateJoins<S>(g: seq<seq<Edge>>, est: Estimator<S>, hashTree: array<Option<Node<S>>>,
                           ghost init: seq<Node<S>>)
    requires Solved(g, est, init, hashTree[..], 1)
    modifies hashTree
    ensures Solved(g, est, init, hashTree[..], |g|)
  {
    hide *;
    var numRels := |g|;
    var generator := new Generator();
    SolvedLength(g, est, init, hashTree[..], 1);
    SolvedSized(g, est, init, hashTree[..]);
    if numRels < 2 {
      SolvedAtOnce(g, est, init, hashTree[..]);
      return;
    }
    for i := 1 to numRels
      invariant hashTree.Length == Pow2(numRels)
      invariant Solved(g, est, init, hashTree[..], i) && Sized(hashTree[..], numRels)
    {
      var combs := AllCombinations(generator, numRels, i);
      ghost var t0 := hashTree[..];
      EmptyAbove(g, est, init, t0, i);
      RunLevel(g, est, hashTree, combs, i);
      SolvedStep(g, est, init, t0, hashTree[..], i);
    }
  }

  /** A table of the size that holds them, filled with the combinations of `i` relations. */
  method AllCombinations(generator: Generator, numRels: nat, i: nat) returns (combs: seq<seq<nat>>)
    requires i <= numRels
    modifies generator
    ensures combs == Combs(0, numRels, i) && CombsOk(combs, numRels, i)
  {
    hide Combs, Factorial, CombsOk;
    var numCombs := Factorial(numRels) / (Factorial(i) * Factorial(numRels - i));
    var table := new seq<nat>[numCombs];
    generator.GetCombination(numRels, i, table);
    AllCombsOk(numRels, i);
    combs := table[..];
  }

  lemma SolvedLength<S>(g: seq<seq<Edge>>, est: Estimator<S>, init: seq<Node<S>>, t: Table<S>, k: nat)
    requires Solved(g, est, init, t, k)
    ensures |t| == Pow2(|g|)
  {
    hide Slot, Initial, IsSingle, LevelBest;
  }

  /** With fewer than two relations there is nothing to do. */
  lemma SolvedAtOnce<S>(g: seq<seq<Edge>>, est: Estimator<S>, init: seq<Node<S>>, t: Table<S>)
    requires Solved(g, est, init, t, 1) && |g| < 2
    ensures Solved(g, est, init, t, |g|)
  {
    hide Slot;
  }

  lemma EmptyAbove<S>(g: seq<seq<Edge>>, est: Estimator<S>, init: seq<Node<S>>, t: Table<S>, k: nat)
    requires Solved(g, est, init, t, k) && k >= 1
    ensures forall x: set<nat> :: x <= Below(|g|) && |x| == k + 1 ==> Slot(t, x, |g|).None?
  {
    hide Slot;
  }

  /** The trees of the single relations, from their statistics. */
  function Singles<S>(stats: seq<S>, rows: seq<Word>): (r: seq<Node<S>>)
    requires |stats| == |rows|
    ensures |r| == |stats|
  {
    seq(|stats|, i requires 0 <= i < |stats| => Node([i], [i], stats[i], [], rows[i]))
  }

  method InitialiseHashTree<S>(stats: seq<S>, rows: seq<Word>) returns (hashTree: array<Option<Node<S>>>)
    requires |stats| == |rows|
    ensures fresh(hashTree) && hashTree.Length == Pow2(|stats|)
    ensures forall x: set<nat> :: x <= Below(|stats|) ==>
              Slot(hashTree[..], x, |stats|) == Initial(Singles(stats, rows), x)
  {
    var n, nodes := |stats|, Singles(stats, rows);
    hashTree := new Option<Node<S>>[Pow2(n)](_ => None);
    for i := 0 to n
      invariant Filled(hashTree[..], nodes, i)
    {
      SetIndexOfOne(i, n);
      FillStep(hashTree[..], nodes, i);
      hide Filled, Pow2;
      hashTree[Pow2(i)] := Some(Node([i], [i], stats[i], [], rows[i]));
    }
    forall x: set<nat> | x <= Below(n)
      ensures Slot(hashTree[..], x, n) == Initial(nodes, x)
    {
      SlotStart(hashTree[..], nodes, x);
    }
  }

  /** The trees of the first `i` relations are in place and nothing else is. */
  ghost predicate Filled<S>(t: Table<S>, nodes: seq<Node<S>>, i: nat)
    requires i <= |nodes|
  {
    && (forall b :: 0 <= b < i ==> Pow2(b) < |t| && t[Pow2(b)] == Some(nodes[b]))
    && forall j :: 0 <= j < |t| && (forall b: nat :: b < i ==> j != Pow2(b)) ==> t[j].None?
  }

  lemma FillStep<S>(t: Table<S>, nodes: seq<Node<S>>, i: nat)
    requires i < |nodes| && Pow2(i) < |t| && Filled(t, nodes, i)
    ensures Filled(t[Pow2(i) := Some(nodes[i])], nodes, i + 1)
  {
    hide Pow2;
    PowersApart(i);
    FillRest(t, nodes, i, Pow2(i));
  }

  lemma PowersApart(i: nat)
    ensures forall b: nat :: b < i ==> Pow2(b) != Pow2(i)
  {
    hide Pow2;
    forall b: nat | b < i
      ensures Pow2(b) != Pow2(i)
    {
      Pow2Monotone(b, i);
    }
  }

  /** One more tree in place, at a slot of its own. */
  lemma FillRest<S>(t: Table<S>, nodes: seq<Node<S>>, i: nat, slot: nat)
    requires i < |nodes| && slot == Pow2(i) < |t| && Filled(t, nodes, i)
    requires forall b: nat :: b < i ==> Pow2(b) != slot
    ensures Filled(t[slot := Some(nodes[i])], nodes, i + 1)
  {
    hide Pow2;
    var t' := t[slot := Some(nodes[i])];
    forall j: nat | j < |t| && (forall b: nat :: b < i + 1 ==> j != Pow2(b))
      ensures t'[j].None?
    {
      assert j != Pow2(i);
    }
  }

  lemma SlotStart<S>(t: Table<S>, nodes: seq<Node<S>>, x: set<nat>)
    requires |t| == Pow2(|nodes|) && x <= Below(|nodes|) && Filled(t, nodes, |nodes|)
    ensures Slot(t, x, |nodes|) == Initial(nodes, x)
  {
    var n := |nodes|;
    SetIndexBelow(x, n);
    if r: nat :| r < n && x == {r} {
      SetIndexOfOne(r, n);
      InitialSingle(nodes, r);
    } else {
      forall b: nat | b < n
        ensures SetIndex(x, n) != Pow2(b)
      {
        assert {b} <= Below(n);
        SetIndexInjective(x, {b}, n);
        SetIndexOfOne(b, n);
      }
    }
  }
}

/** The plan that the dynamic program picks, by a recursion on sets of relations alone: no table, no
    combinations, no graph. */
module BestPlans {
  import opened Words
  import opened Bags
  import opened Bitmasks
  import opened Combinations
  import opened JoinGraphs
  import opened JoinEnumeration
  import opened JoinPlans
  import opened InterList
  import opened QuerySpec
  import opened Graphs

  /* ----- the reference ----- */

  /** A join tree as a caller sees it. */
  datatype Tree<S> = Tree(rels: seq<nat>, joinSeq: seq<nat>, stats: S, cost: Word)

  /** A tree over `y` extended by `r`, through the link of the smallest relation of `y` that has one. */
  function Extend<S>(joins: seq<Pred>, est: Estimator<S>, stats: seq<S>, tree: Option<Tree<S>>, y: set<nat>, r: nat)
    : Option<Tree<S>>
    requires r < |stats|
  {
    var l := LinkFrom(joins, y, r, 0, |stats|);
    if tree.None? || l.None? then None
    else
      var h := tree.value;
      var e := est(h.stats, stats[r], PartOf(h.rels, l.value.connection), l.value.col1, l.value.col2);
      Some(Tree(h.rels + [r], h.joinSeq + [l.value.joinId], e.stats, (h.cost + e.rows) % TWO_64))
  }

  function Lower<S>(best: Option<Tree<S>>, other: Option<Tree<S>>): Option<Tree<S>> {
    if other.Some? && (best.None? || other.value.cost < best.value.cost) then other else best
  }

  /** The best tree over the relations of `x`. */
  ghost function Best<S>(joins: seq<Pred>, est: Estimator<S>, stats: seq<S>, rows: seq<Word>, x: set<nat>)
    : Option<Tree<S>>
    requires |stats| == |rows|
    decreases |x|, 1, 0
  {
    if r: nat :| r < |stats| && x == {r} then Some(Tree([r], [], stats[r], rows[r]))
    else BestFrom(joins, est, stats, rows, x, 0)
  }

  /** The best of those in which a relation from `r` on is joined last, a larger one before a smaller
      one at the same cost. */
  ghost function BestFrom<S>(joins: seq<Pred>, est: Estimator<S>, stats: seq<S>, rows: seq<Word>, x: set<nat>, r: nat)
    : Option<Tree<S>>
    requires |stats| == |rows| && r <= |stats|
    decreases |x|, 0, |stats| - r
  {
    if r == |stats| then None
    else
      var larger := BestFrom(joins, est, stats, rows, x, r + 1);
      if r in x
      then Lower(larger, Extend(joins, est, stats, Best(joins, est, stats, rows, x - {r}), x - {r}, r))
      else larger
  }

  /** The best tree that joins `r` last. */
  ghost function LastJoined<S>(joins: seq<Pred>, est: Estimator<S>, stats: seq<S>, rows: seq<Word>,
                               x: set<nat>, r: nat): Option<Tree<S>>
    requires |stats| == |rows| && r < |stats|
  {
    Extend(joins, est, stats, Best(joins, est, stats, rows, x - {r}), x - {r}, r)
  }

  /** The best tree joins some relation last; a larger one would cost more and no other one costs less. */
  lemma {:induction false} BestFromWins<S>(joins: seq<Pred>, est: Estimator<S>, stats: seq<S>, rows: seq<Word>,
                                           x: set<nat>, from: nat) returns (last: nat)
    requires |stats| == |rows| && from <= |stats|
    ensures BestFrom(joins, est, stats, rows, x, from).None? ==>
              forall r: nat :: from <= r < |stats| && r in x ==> LastJoined(joins, est, stats, rows, x, r).None?
    ensures var best := BestFrom(joins, est, stats, rows, x, from);
      best.Some? ==>
        && last in x && from <= last < |stats| && best == LastJoined(joins, est, stats, rows, x, last)
        && forall r: nat :: from <= r < |stats| && r in x ==>
             AtLeast(best.value.cost, LastJoined(joins, est, stats, rows, x, r), last < r)
    decreases |stats| - from
  {
    hide BestFrom, LastJoined, Lower, Extend, Best;
    last := 0;
    BestFromStep(joins, est, stats, rows, x, from);
    if from < |stats| {
      last := BestFromWins(joins, est, stats, rows, x, from + 1);
      if from in x {
        var larger := BestFrom(joins, est, stats, rows, x, from + 1);
        var now := LastJoined(joins, est, stats, rows, x, from);
        LowerIs(larger, now);
        if now.Some? && (larger.None? || now.value.cost < larger.value.cost) {
          last := from;
        }
      }
    }
  }

  lemma BestFromStep<S>(joins: seq<Pred>, est: Estimator<S>, stats: seq<S>, rows: seq<Word>, x: set<nat>, r: nat)
    requires |stats| == |rows| && r <= |stats|
    ensures BestFrom(joins, est, stats, rows, x, r)
         == if r == |stats| then None
            else if r in x
            then Lower(BestFrom(joins, est, stats, rows, x, r + 1), LastJoined(joins, est, stats, rows, x, r))
            else BestFrom(joins, est, stats, rows, x, r + 1)
  {
    hide Extend, Best, Lower;
  }

  lemma LowerIs<S>(best: Option<Tree<S>>, other: Option<Tree<S>>)
    ensures Lower(best, other)
         == if other.Some? && (best.None? || other.value.cost < best.value.cost) then other else best
  {
  }

  /** Any such tree costs at least `cost`, and more if `strictly`. */
  predicate AtLeast<S>(cost: Word, tree: Option<Tree<S>>, strictly: bool) {
    tree.Some? ==> cost <= tree.value.cost && (strictly ==> cost < tree.value.cost)
  }

  /* ----- the table holds it ----- */

  function TreeOf<S>(node: Option<Node<S>>): Option<Tree<S>> {
    match node
    case None => None
    case Some(h) => Some(Tree(h.rels, h.joinSeq, h.stats, h.cost))
  }

  /** The split that leaves out `r` offers what joining `r` last gives. */
  lemma OfferIsLastJoined<S>(g: seq<seq<Edge>>, joins: seq<Pred>, est: Estimator<S>, stats: seq<S>, rows: seq<Word>,
                             t: Table<S>, x: set<nat>, comb: seq<nat>, r: nat)
    requires |stats| == |rows| == |g| && IsGraphOf(g, joins) && Solved(g, est, Singles(stats, rows), t, |g|)
    requires IsSplit(x, comb, r, |g|)
    requires |t| == Pow2(|g|) && TreeOf(Slot(t, x - {r}, |g|)) == Best(joins, est, stats, rows, x - {r})
    ensures AllBelow(comb, |g|) && TreeOf(Offer(g, est, t, comb, r)) == LastJoined(joins, est, stats, rows, x, r)
  {
    hide *;
    SplitMembers(x, comb, r, |g|);
    MembersSame(comb);
    SingleSlot(g, est, Singles(stats, rows), t, r);
    AttachIsLink(g, joins, comb, x - {r}, r, 0);
    OfferIsJoined(g, est, t, comb, r, x - {r});
    JoinedIsExtended(joins, est, stats, rows, Slot(t, x - {r}, |g|), comb + [r], x - {r}, r);
    LastJoinedIs(joins, est, stats, rows, x, r);
  }

  lemma MembersSame(comb: seq<nat>)
    ensures forall e: nat :: e in comb <==> e in Members(comb)
  {
  }

  /** Two slots joined through a link, if all are there. */
  function Joined<S>(est: Estimator<S>, h1: Option<Node<S>>, h2: Option<Node<S>>, newComb: seq<nat>, l: Option<Link>)
    : Option<Node<S>>
  {
    if l.None? || h1.None? || h2.None? then None else Some(JoinTree(est, h1.value, h2.value, newComb, l.value))
  }

  lemma OfferIsJoined<S>(g: seq<seq<Edge>>, est: Estimator<S>, t: Table<S>, comb: seq<nat>, r: nat, y: set<nat>)
    requires |t| == Pow2(|g|) && AllBelow(comb, |g|) && r < |g| && r !in comb && Members(comb) == y
    ensures Offer(g, est, t, comb, r)
         == Joined(est, Slot(t, y, |g|), Slot(t, {r}, |g|), comb + [r], Attach(g, comb, r))
  {
    hide Attach, Slot, JoinTree;
  }

  lemma JoinedIsExtended<S>(joins: seq<Pred>, est: Estimator<S>, stats: seq<S>, rows: seq<Word>, h1: Option<Node<S>>,
                            newComb: seq<nat>, y: set<nat>, r: nat)
    requires |stats| == |rows| && r < |stats|
    ensures TreeOf(Joined(est, h1, Some(Singles(stats, rows)[r]), newComb, LinkFrom(joins, y, r, 0, |stats|)))
         == Extend(joins, est, stats, TreeOf(h1), y, r)
  {
    hide *;
    var l, single := LinkFrom(joins, y, r, 0, |stats|), Singles(stats, rows);
    if h1.Some? && l.Some? {
      JoinTreeParts(est, stats, rows, h1.value, newComb, l.value, r);
      TreeOfParts(JoinTree(est, h1.value, single[r], newComb, l.value));
      TreeOfParts(h1.value);
      JoinedParts(est, h1.value, single[r], newComb, l.value);
      ExtendParts(joins, est, stats, TreeOf(h1), y, r);
    } else {
      TreeOfKeeps(h1);
      NothingJoined(joins, est, stats, h1, single[r], newComb, y, r);
    }
  }

  lemma TreeOfParts<S>(h: Node<S>)
    ensures TreeOf(Some(h)) == Some(Tree(h.rels, h.joinSeq, h.stats, h.cost))
  {
  }

  lemma JoinedParts<S>(est: Estimator<S>, h1: Node<S>, h2: Node<S>, newComb: seq<nat>, l: Link)
    ensures Joined(est, Some(h1), Some(h2), newComb, Some(l)) == Some(JoinTree(est, h1, h2, newComb, l))
  {
    hide JoinTree;
  }

  lemma ExtendParts<S>(joins: seq<Pred>, est: Estimator<S>, stats: seq<S>, tree: Option<Tree<S>>, y: set<nat>, r: nat)
    requires r < |stats| && tree.Some? && LinkFrom(joins, y, r, 0, |stats|).Some?
    ensures var h, l := tree.value, LinkFrom(joins, y, r, 0, |stats|).value;
      var e := est(h.stats, stats[r], PartOf(h.rels, l.connection), l.col1, l.col2);
      Extend(joins, est, stats, tree, y, r)
      == Some(Tree(h.rels + [r], h.joinSeq + [l.joinId], e.stats, (h.cost + e.rows) % TWO_64))
  {
    hide LinkFrom, PartOf;
  }

  lemma NothingJoined<S>(joins: seq<Pred>, est: Estimator<S>, stats: seq<S>, h1: Option<Node<S>>, h2: Node<S>,
                         newComb: seq<nat>, y: set<nat>, r: nat)
    requires r < |stats| && (h1.None? || LinkFrom(joins, y, r, 0, |stats|).None?)
    ensures TreeOf(Joined(est, h1, Some(h2), newComb, LinkFrom(joins, y, r, 0, |stats|))).None?
    ensures Extend(joins, est, stats, TreeOf(h1), y, r).None?
  {
    hide LinkFrom, PartOf, JoinTree;
  }

  lemma LastJoinedIs<S>(joins: seq<Pred>, est: Estimator<S>, stats: seq<S>, rows: seq<Word>, x: set<nat>, r: nat)
    requires |stats| == |rows| && r < |stats|
    ensures LastJoined(joins, est, stats, rows, x, r)
         == Extend(joins, est, stats, Best(joins, est, stats, rows, x - {r}), x - {r}, r)
  {
  }

  /** Every slot of one or more relations holds the best tree over them. */
  lemma {:induction false} SlotIsBest<S>(g: seq<seq<Edge>>, joins: seq<Pred>, est: Estimator<S>, stats: seq<S>,
                                         rows: seq<Word>, t: Table<S>, x: set<nat>)
    requires |stats| == |rows| == |g| && IsGraphOf(g, joins) && Solved(g, est, Singles(stats, rows), t, |g|)
    requires x <= Below(|g|) && x != {}
    ensures |t| == Pow2(|g|) && TreeOf(Slot(t, x, |g|)) == Best(joins, est, stats, rows, x)
    decreases |x|
  {
    assert |t| == Pow2(|g|);
    hide *;
    if |x| == 1 {
      var r :| r in x;
      assert r in Below(|g|);
      OnlyOne(x, r);
      SingleSlot(g, est, Singles(stats, rows), t, r);
      BestSingle(joins, est, stats, rows, r);
      SingleTree(stats, rows, r);
    } else {
      forall r: nat | r in x
        ensures r < |g| && TreeOf(Slot(t, x - {r}, |g|)) == Best(joins, est, stats, rows, x - {r})
      {
        assert r in Below(|g|);
        SmallerSet(x, r);
        SlotIsBest(g, joins, est, stats, rows, t, x - {r});
      }
      SlotWins(g, joins, est, stats, rows, t, x);
    }
  }

  lemma OnlyOne(x: set<nat>, r: nat)
    requires |x| == 1 && r in x
    ensures x == {r}
  {
    SubsetSize({r}, x);
  }

  lemma SmallerSet(x: set<nat>, r: nat)
    requires r in x && |x| != 1
    ensures |x - {r}| == |x| - 1 && x - {r} != {} && x - {r} <= x
  {
  }

  lemma BestSingle<S>(joins: seq<Pred>, est: Estimator<S>, stats: seq<S>, rows: seq<Word>, r: nat)
    requires |stats| == |rows| && r < |stats|
    ensures Best(joins, est, stats, rows, {r}) == Some(Tree([r], [], stats[r], rows[r]))
  {
    assert forall q: nat :: {q} == {r} ==> q in {r};
  }

  lemma SingleTree<S>(stats: seq<S>, rows: seq<Word>, r: nat)
    requires |stats| == |rows| && r < |stats|
    ensures TreeOf(Some(Singles(stats, rows)[r])) == Some(Tree([r], [], stats[r], rows[r]))
  {
  }

  lemma BestOfMore<S>(joins: seq<Pred>, est: Estimator<S>, stats: seq<S>, rows: seq<Word>, x: set<nat>)
    requires |stats| == |rows| && |x| >= 2
    ensures Best(joins, est, stats, rows, x) == BestFrom(joins, est, stats, rows, x, 0)
  {
  }

  /** A slot that holds the best offer holds the best tree: both take the cheapest, and among several the
      one that joins the largest relation last. */
  lemma SlotWins<S>(g: seq<seq<Edge>>, joins: seq<Pred>, est: Estimator<S>, stats: seq<S>, rows: seq<Word>,
                    t: Table<S>, x: set<nat>)
    requires |stats| == |rows| == |g| && IsGraphOf(g, joins) && Solved(g, est, Singles(stats, rows), t, |g|)
    requires |t| == Pow2(|g|) && x <= Below(|g|) && |x| >= 2
    requires forall r: nat :: r in x ==>
               r < |g| && TreeOf(Slot(t, x - {r}, |g|)) == Best(joins, est, stats, rows, x - {r})
    ensures TreeOf(Slot(t, x, |g|)) == Best(joins, est, stats, rows, x)
  {
    hide *;
    BestOfMore(joins, est, stats, rows, x);
    TreeOfKeeps(Slot(t, x, |g|));
    var last := BestFromWins(joins, est, stats, rows, x, 0);
    if Slot(t, x, |g|).Some? {
      var comb, r := SplitOf(g, est, Singles(stats, rows), t, x);
      SplitMembers(x, comb, r, |g|);
      OfferIsLastJoined(g, joins, est, stats, rows, t, x, comb, r);
      SameLast(g, joins, est, stats, rows, t, x, r, last);
    } else if BestFrom(joins, est, stats, rows, x, 0).Some? {
      LastIsOffered(g, joins, est, stats, rows, t, x, last, 0, 0);
    }
  }

  /** Both join the same relation last. */
  lemma SameLast<S>(g: seq<seq<Edge>>, joins: seq<Pred>, est: Estimator<S>, stats: seq<S>, rows: seq<Word>,
                    t: Table<S>, x: set<nat>, r: nat, last: nat)
    requires |stats| == |rows| == |g| && IsGraphOf(g, joins) && Solved(g, est, Singles(stats, rows), t, |g|)
    requires |t| == Pow2(|g|) && x <= Below(|g|) && |x| >= 2 && r in x && last in x && r < |g| && last < |g|
    requires TreeOf(Slot(t, x - {last}, |g|)) == Best(joins, est, stats, rows, x - {last})
    requires Slot(t, x, |g|).Some? && TreeOf(Slot(t, x, |g|)) == LastJoined(joins, est, stats, rows, x, r)
    requires LargerCostMore(g, est, t, x, r, Slot(t, x, |g|).value.cost)
    requires LastJoined(joins, est, stats, rows, x, last).Some?
    requires AtLeast(LastJoined(joins, est, stats, rows, x, last).value.cost,
                     LastJoined(joins, est, stats, rows, x, r), last < r)
    ensures r == last
  {
    hide *;
    TreeOfKeeps(Slot(t, x, |g|));
    var cost := Slot(t, x, |g|).value.cost;
    LastIsOffered(g, joins, est, stats, rows, t, x, last, r, cost);
    var best := LastJoined(joins, est, stats, rows, x, last).value;
    AtLeastIs(best.cost, LastJoined(joins, est, stats, rows, x, r), last < r);
  }

  lemma TreeOfKeeps<S>(node: Option<Node<S>>)
    ensures TreeOf(node).Some? <==> node.Some?
    ensures node.Some? ==> TreeOf(node).value.cost == node.value.cost
  {
  }

  lemma AtLeastIs<S>(cost: Word, tree: Option<Tree<S>>, strictly: bool)
    requires AtLeast(cost, tree, strictly) && tree.Some?
    ensures cost <= tree.value.cost && (strictly ==> cost < tree.value.cost)
  {
  }

  /** What joining `last` last gives is offered, so it costs at least what the slot does, and more if
      `last` is larger than the relation that the slot's tree joins last. */
  lemma LastIsOffered<S>(g: seq<seq<Edge>>, joins: seq<Pred>, est: Estimator<S>, stats: seq<S>, rows: seq<Word>,
                         t: Table<S>, x: set<nat>, last: nat, r: nat, cost: Word)
    requires |stats| == |rows| == |g| && IsGraphOf(g, joins) && Solved(g, est, Singles(stats, rows), t, |g|)
    requires |t| == Pow2(|g|) && x <= Below(|g|) && |x| >= 2 && last in x && last < |g|
    requires TreeOf(Slot(t, x - {last}, |g|)) == Best(joins, est, stats, rows, x - {last})
    requires LastJoined(joins, est, stats, rows, x, last).Some?
    ensures var tree := LastJoined(joins, est, stats, rows, x, last).value;
      && Slot(t, x, |g|).Some? && Slot(t, x, |g|).value.cost <= tree.cost
      && (LargerCostMore(g, est, t, x, r, cost) && r < last ==> cost < tree.cost)
  {
    hide *;
    SmallerSet(x, last);
    var comb := CombOf(x - {last}, |g|);
    SplitOfRest(x, comb, last, |g|);
    OfferIsLastJoined(g, joins, est, stats, rows, t, x, comb, last);
    TreeOfKeeps(Offer(g, est, t, comb, last));
    LeastOverSplits(g, est, Singles(stats, rows), t, x, comb, last);
    if LargerCostMore(g, est, t, x, r, cost) && r < last {
      LargerAt(g, est, t, x, r, cost, comb, last);
    }
  }

  lemma SplitOfRest(x: set<nat>, comb: seq<nat>, r: nat, n: nat)
    requires x <= Below(n) && |x| >= 2 && r in x && r < n && IsComb(comb, 0, n, |x - {r}|) && Members(comb) == x - {r}
    ensures IsSplit(x, comb, r, n)
  {
    hide IsComb, Members;
    assert x - {r} + {r} == x;
  }

  lemma LargerAt<S>(g: seq<seq<Edge>>, est: Estimator<S>, t: Table<S>, x: set<nat>, r: nat, cost: Word,
                    comb: seq<nat>, last: nat)
    requires |t| == Pow2(|g|) && LargerCostMore(g, est, t, x, r, cost) && IsSplit(x, comb, last, |g|) && r < last
    requires AllBelow(comb, |g|) && last < |g| && Offer(g, est, t, comb, last).Some?
    ensures cost < Offer(g, est, t, comb, last).value.cost
  {
    hide Offer, IsSplit;
    assert NotCheaper(g, est, t, comb, last, cost);
  }

  /* ----- what a tree costs ----- */

  /** Statistics and summed-up estimates of a sequence of joins. */
  datatype Total<S> = Total(stats: S, rows: nat)

  /** Relations in the order in which they are joined, and the joins that attach them. */
  predicate Traced(joins: seq<Pred>, n: nat, rels: seq<nat>, joinSeq: seq<nat>) {
    && |rels| == |joinSeq| + 1
    && (forall i :: 0 <= i < |rels| ==> rels[i] < n)
    && forall j :: 0 <= j < |joinSeq| ==> Attaches(joins, joinSeq[j], rels[..j + 1], rels[j + 1])
  }

  lemma TracedBefore(joins: seq<Pred>, n: nat, rels: seq<nat>, joinSeq: seq<nat>)
    requires Traced(joins, n, rels, joinSeq) && joinSeq != []
    ensures Traced(joins, n, rels[..|joinSeq|], joinSeq[..|joinSeq| - 1])
  {
    hide Attaches;
    forall j | 0 <= j < |joinSeq| - 1
      ensures Attaches(joins, joinSeq[j], rels[..|joinSeq|][..j + 1], rels[..|joinSeq|][j + 1])
    {
      assert rels[..|joinSeq|][..j + 1] == rels[..j + 1];
    }
  }

  /** The rows of the first relation plus the estimates of all joins, each of them made from the
      statistics so far, those of the new relation, and the position and the columns that the join names. */
  function Summed<S>(joins: seq<Pred>, est: Estimator<S>, stats: seq<S>, rows: seq<Word>,
                     rels: seq<nat>, joinSeq: seq<nat>): Total<S>
    requires |stats| == |rows| && Traced(joins, |stats|, rels, joinSeq)
    decreases |joinSeq|
  {
    if joinSeq == [] then Total(stats[rels[0]], rows[rels[0]])
    else
      TracedBefore(joins, |stats|, rels, joinSeq);
      var j := |joinSeq| - 1;
      var before := Summed(joins, est, stats, rows, rels[..j + 1], joinSeq[..j]);
      var p, r := joins[joinSeq[j]], rels[j + 1];
      var joined := if p.participant2.rel == r then p.participant1 else p.participant2;
      var added := if p.participant2.rel == r then p.participant2 else p.participant1;
      var e := est(before.stats, stats[r], IndexOf(rels[..j + 1], joined.rel), joined.col, added.col);
      Total(e.stats, before.rows + e.rows)
  }

  /** The tree's statistics and cost are what its own relations and joins add up to, modulo 2^64. */
  ghost predicate Costed<S>(joins: seq<Pred>, est: Estimator<S>, stats: seq<S>, rows: seq<Word>, node: Node<S>)
    requires |stats| == |rows|
  {
    && Traced(joins, |stats|, node.rels, node.joinSeq)
    && var total := Summed(joins, est, stats, rows, node.rels, node.joinSeq);
       node.stats == total.stats && node.cost == total.rows % Pow2(64)
  }

  /** Every filled slot's tree costs what its joins are estimated to produce. */
  lemma {:induction false} SlotCosted<S>(g: seq<seq<Edge>>, joins: seq<Pred>, est: Estimator<S>, stats: seq<S>,
                                         rows: seq<Word>, t: Table<S>, x: set<nat>)
    requires |stats| == |rows| == |g| && IsGraphOf(g, joins) && Solved(g, est, Singles(stats, rows), t, |g|)
    requires x <= Below(|g|) && x != {} && |t| == Pow2(|g|) && Slot(t, x, |g|).Some?
    ensures Costed(joins, est, stats, rows, Slot(t, x, |g|).value)
    decreases |x|
  {
    hide *;
    if |x| == 1 {
      var r :| r in x;
      assert r in Below(|g|);
      OnlyOne(x, r);
      SingleSlot(g, est, Singles(stats, rows), t, r);
      SingleCosted(joins, est, stats, rows, r);
    } else {
      var init := Singles(stats, rows);
      AtLeastTwo(x);
      var comb, r := SplitOf(g, est, init, t, x);
      SplitMembers(x, comb, r, |g|);
      SmallerSet(x, r);
      SplitFilled(g, joins, est, init, t, x, comb, r);
      SlotCosted(g, joins, est, stats, rows, t, x - {r});
      SlotWellJoined(g, joins, est, init, t, x - {r});
      SingleSlot(g, est, init, t, r);
      AttachExact(g, joins, comb, r);
      OfferTree(g, est, t, comb, r, x);
      MembersSame(comb);
      TreeCosted(joins, est, stats, rows, Slot(t, x - {r}, |g|).value, comb + [r], Attach(g, comb, r).value, x, r);
    }
  }

  lemma AtLeastTwo(x: set<nat>)
    requires x != {} && |x| != 1
    ensures |x| >= 2
  {
  }

  lemma SingleCosted<S>(joins: seq<Pred>, est: Estimator<S>, stats: seq<S>, rows: seq<Word>, r: nat)
    requires |stats| == |rows| && r < |stats|
    ensures Costed(joins, est, stats, rows, Singles(stats, rows)[r])
  {
    var top := WordRange(rows[r]);
    hide Pow2;
  }

  /** One more join adds its estimate. */
  lemma TreeCosted<S>(joins: seq<Pred>, est: Estimator<S>, stats: seq<S>, rows: seq<Word>, h: Node<S>,
                      newComb: seq<nat>, l: Link, x: set<nat>, r: nat)
    requires |stats| == |rows| && Costed(joins, est, stats, rows, h) && WellJoined(joins, h, x - {r})
    requires r in x && r < |stats| && l.connection in x - {r} && Links(joins, l, r)
    ensures Costed(joins, est, stats, rows, JoinTree(est, h, Singles(stats, rows)[r], newComb, l))
  {
    hide *;
    RelsOf(joins, h, x, r);
    OnlyPosition(h.rels, l.connection);
    CostedParts(joins, est, stats, rows, h);
    SummedAfter(joins, est, stats, rows, h.rels, h.joinSeq, r, l);
    var e := est(h.stats, stats[r], PartOf(h.rels, l.connection), l.col1, l.col2);
    JoinTreeParts(est, stats, rows, h, newComb, l, r);
    var top := WordRange(h.cost);
    AddWrapped(Summed(joins, est, stats, rows, h.rels, h.joinSeq).rows, e.rows);
    CostedParts(joins, est, stats, rows, JoinTree(est, h, Singles(stats, rows)[r], newComb, l));
  }

  lemma RelsOf<S>(joins: seq<Pred>, h: Node<S>, x: set<nat>, r: nat)
    requires WellJoined(joins, h, x - {r})
    ensures NoDuplicates(h.rels) && r !in h.rels && forall c: nat :: c in x - {r} ==> c in h.rels
  {
    assert forall c: nat :: c in h.rels <==> c in Members(h.rels);
    MembersDistinct(h.rels);
    hide Members;
  }

  lemma CostedParts<S>(joins: seq<Pred>, est: Estimator<S>, stats: seq<S>, rows: seq<Word>, node: Node<S>)
    requires |stats| == |rows|
    ensures Costed(joins, est, stats, rows, node) <==>
            && Traced(joins, |stats|, node.rels, node.joinSeq)
            && node.stats == Summed(joins, est, stats, rows, node.rels, node.joinSeq).stats
            && node.cost == Summed(joins, est, stats, rows, node.rels, node.joinSeq).rows % Pow2(64)
  {
    hide Summed, Traced, Pow2;
  }

  lemma JoinTreeParts<S>(est: Estimator<S>, stats: seq<S>, rows: seq<Word>, h: Node<S>, newComb: seq<nat>,
                         l: Link, r: nat)
    requires |stats| == |rows| && r < |stats|
    ensures var node := JoinTree(est, h, Singles(stats, rows)[r], newComb, l);
      var e := est(h.stats, stats[r], PartOf(h.rels, l.connection), l.col1, l.col2);
      && node.rels == h.rels + [r] && node.joinSeq == h.joinSeq + [l.joinId]
      && node.stats == e.stats && node.cost == (h.cost + e.rows) % TWO_64
  {
    hide PartOf;
  }

  lemma TracedAfter(joins: seq<Pred>, n: nat, rels: seq<nat>, joinSeq: seq<nat>, r: nat, joinId: nat)
    requires Traced(joins, n, rels, joinSeq) && r < n && Attaches(joins, joinId, rels, r)
    ensures Traced(joins, n, rels + [r], joinSeq + [joinId])
  {
    hide Attaches;
    forall j | 0 <= j < |joinSeq| + 1
      ensures Attaches(joins, (joinSeq + [joinId])[j], (rels + [r])[..j + 1], (rels + [r])[j + 1])
    {
      assert (rels + [r])[..j + 1] == rels[..j + 1];
      assert rels[..|rels|] == rels;
    }
  }

  /** In relations without repetition the last position of one is the first. */
  lemma OnlyPosition(rels: seq<nat>, x: nat)
    requires NoDuplicates(rels) && x in rels
    ensures PartOf(rels, x) == IndexOf(rels, x)
  {
  }

  lemma SummedAfter<S>(joins: seq<Pred>, est: Estimator<S>, stats: seq<S>, rows: seq<Word>,
                       rels: seq<nat>, joinSeq: seq<nat>, r: nat, l: Link)
    requires |stats| == |rows| && Traced(joins, |stats|, rels, joinSeq) && r < |stats| && r !in rels
    requires l.connection in rels && Links(joins, l, r)
    ensures Traced(joins, |stats|, rels + [r], joinSeq + [l.joinId])
    ensures var before := Summed(joins, est, stats, rows, rels, joinSeq);
      var e := est(before.stats, stats[r], IndexOf(rels, l.connection), l.col1, l.col2);
      Summed(joins, est, stats, rows, rels + [r], joinSeq + [l.joinId]) == Total(e.stats, before.rows + e.rows)
  {
    TracedAfter(joins, |stats|, rels, joinSeq, r, l.joinId);
    assert (rels + [r])[..|joinSeq| + 1] == rels && (joinSeq + [l.joinId])[..|joinSeq|] == joinSeq;
    hide IndexOf, Traced;
  }

  lemma AddWrapped(a: nat, b: nat)
    ensures (a % TWO_64 + b) % TWO_64 == (a + b) % TWO_64
  {
  }

  /* ----- planning a query ----- */

  /** The plan is the last slot of a table that the program solves for these joins, this estimate and
      these relations. */
  ghost predicate PlannedBy<S>(joins: seq<Pred>, est: Estimator<S>, stats: seq<S>, rows: seq<Word>,
                               plan: Option<Node<S>>, g: seq<seq<Edge>>, t: Table<S>)
    requires |stats| == |rows|
  {
    && |g| == |stats| && IsGraphOf(g, joins) && Solved(g, est, Singles(stats, rows), t, |g|)
    && plan == Slot(t, Below(|g|), |g|)
  }

  /** No tree over all relations that extends a best tree over all but one costs less. */
  ghost predicate NoneCheaper<S>(joins: seq<Pred>, est: Estimator<S>, stats: seq<S>, rows: seq<Word>, cost: Word)
    requires |stats| == |rows|
  {
    forall r: nat :: r < |stats| ==>
      AtLeast(cost, LastJoined(joins, est, stats, rows, Below(|stats|), r), false)
  }

  lemma BestNoneCheaper<S>(joins: seq<Pred>, est: Estimator<S>, stats: seq<S>, rows: seq<Word>)
    requires |stats| == |rows| > 1 && Best(joins, est, stats, rows, Below(|stats|)).Some?
    ensures NoneCheaper(joins, est, stats, rows, Best(joins, est, stats, rows, Below(|stats|)).value.cost)
  {
    hide Best, LastJoined, BestFrom;
    BestOfMore(joins, est, stats, rows, Below(|stats|));
    var last := BestFromWins(joins, est, stats, rows, Below(|stats|), 0);
  }

  /** From the joins of a query to its plan: the graph, the table of single relations, all levels
      and then the last slot. There is a plan exactly when the joins connect the relations; it is the
      best one, and its cost is what its joins are estimated to produce. */
  method PlanQuery<S>(joins: seq<Pred>, est: Estimator<S>, stats: seq<S>, rows: seq<Word>)
    returns (plan: Option<Node<S>>)
    requires |stats| == |rows| > 0 && AllJoins(joins, |stats|)
    ensures plan.Some? <==> Connected(JoinEdges(joins), Below(|stats|))
    ensures plan.Some? ==> WellJoined(joins, plan.value, Below(|stats|)) && NoDuplicates(plan.value.joinSeq)
    ensures exists g, t :: PlannedBy(joins, est, stats, rows, plan, g, t)
    ensures TreeOf(plan) == Best(joins, est, stats, rows, Below(|stats|))
    ensures plan.Some? ==> Costed(joins, est, stats, rows, plan.value)
    ensures plan.Some? && |stats| > 1 ==> NoneCheaper(joins, est, stats, rows, plan.value.cost)
  {
    hide Slot, BestOffer, Combs, Connected, JoinEdges, Best, Costed, NoneCheaper, TreeOf, WellJoined;
    var n := |stats|;
    var joinGraph := new Graph(n);
    joinGraph.ConstructGraph(joins);
    var g := joinGraph.graphArray;
    var hashTree := InitialiseHashTree(stats, rows);
    StartSolved(g, est, Singles(stats, rows), hashTree[..]);
    EnumerateJoins(g, est, hashTree, Singles(stats, rows));
    FullIndex(n);
    plan := hashTree[Pow2(n) - 1];
    LastSlot(hashTree[..], n);
    PlanIs(joins, est, stats, rows, plan, g, hashTree[..]);
  }

  /** What a plan from a solved table is. */
  lemma PlanIs<S>(joins: seq<Pred>, est: Estimator<S>, stats: seq<S>, rows: seq<Word>,
                  plan: Option<Node<S>>, g: seq<seq<Edge>>, t: Table<S>)
    requires |stats| == |rows| > 0 && PlannedBy(joins, est, stats, rows, plan, g, t)
    ensures plan.Some? <==> Connected(JoinEdges(joins), Below(|stats|))
    ensures plan.Some? ==> WellJoined(joins, plan.value, Below(|stats|)) && NoDuplicates(plan.value.joinSeq)
    ensures TreeOf(plan) == Best(joins, est, stats, rows, Below(|stats|))
    ensures plan.Some? ==> Costed(joins, est, stats, rows, plan.value)
    ensures plan.Some? && |stats| > 1 ==> NoneCheaper(joins, est, stats, rows, plan.value.cost)
  {
    var n := |stats|;
    assert |t| == Pow2(n) && 0 in Below(n);
    hide *;
    FilledIffConnected(g, joins, est, Singles(stats, rows), t, Below(n));
    SlotIsBest(g, joins, est, stats, rows, t, Below(n));
    TreeOfKeeps(plan);
    if plan.Some? {
      SlotWellJoined(g, joins, est, Singles(stats, rows), t, Below(n));
      JoinsDistinct(joins, plan.value, Below(n));
      SlotCosted(g, joins, est, stats, rows, t, Below(n));
      if n > 1 {
        BestNoneCheaper(joins, est, stats, rows);
      }
    }
  }

  lemma LastSlot<S>(t: Table<S>, n: nat)
    requires |t| == Pow2(n)
    ensures Slot(t, Below(n), n) == t[Pow2(n) - 1]
  {
    FullIndex(n);
  }

  lemma StartSolved<S>(g: seq<seq<Edge>>, est: Estimator<S>, init: seq<Node<S>>, t: Table<S>)
    requires |t| == Pow2(|g|) && |init| == |g| && forall r :: 0 <= r < |init| ==> IsSingle(init[r], r)
    requires forall x: set<nat> :: x <= Below(|g|) ==> Slot(t, x, |g|) == Initial(init, x)
    ensures Solved(g, est, init, t, 1)
  {
    hide Slot, Initial;
  }
}

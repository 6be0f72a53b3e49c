/** What it means for a self-join to overrun, in the query's own terms: the rows that its relation's
    component offers it outnumber the rows of the relation. */
module Misfits {
  import opened Bags
  import opened Graphs
  import opened InterList
  import opened QuerySpec
  import opened QueryState
  import opened JointPerformer
  import opened TempRoom
  import opened QueryRun
  import opened States

  /** The relations that the joins applied so far link to `rel`. */
  ghost function Component(q: Query, applied: set<Pred>, rel: nat): set<nat> {
    set x | x in AllRels(q) && Linked(EdgesOf(applied), AllRels(q), rel, x)
  }

  /** The members of `on` below `n`, in order. */
  function Listed(on: set<nat>, n: nat): seq<nat> {
    if n == 0 then [] else Listed(on, n - 1) + if n - 1 in on then [n - 1] else []
  }

  /** The row-id tuples of `on` that satisfy the predicates, by nested loops over its relations. */
  function Satisfying(q: Query, preds: set<Pred>, on: set<nat>): seq<Assignment>
    requires q.Valid() && AllIn(q, preds)
  {
    ListedBelow(on, |q.rels|);
    Answers(q, Within(preds, on), AllOver(q, Listed(on, |q.rels|)))
  }

  lemma {:induction false} ListedBelow(on: set<nat>, n: nat)
    ensures forall c :: 0 <= c < |Listed(on, n)| ==> Listed(on, n)[c] < n
    ensures NoDuplicates(Listed(on, n))
    ensures forall x :: x in Listed(on, n) <==> x in on && x < n
  {
    if n > 0 {
      ListedBelow(on, n - 1);
    }
  }

  /** They are exactly those, each once. */
  lemma SatisfyingExact(q: Query, preds: set<Pred>, on: set<nat>)
    requires q.Valid() && AllIn(q, preds) && on <= AllRels(q)
    ensures ExactRows(q, preds, on, Satisfying(q, preds, on))
  {
    hide AllOver, Query.Admits, Query.InRange, Answers, Query.Valid, Query.HasPred, Listed, Rels;
    var order := Listed(on, |q.rels|);
    ListedBelow(on, |q.rels|);
    ListedRels(q, on);
    AllOverEnumerates(q, order);
    AnswersMembers(q, Within(preds, on), AllOver(q, order));
    forall m: Assignment
      ensures m in Satisfying(q, preds, on) <==> q.Satisfies(preds, on, m)
    {
      assert forall p :: p in preds && p.Rels() <= on <==> p in Within(preds, on);
    }
  }

  lemma ListedRels(q: Query, on: set<nat>)
    requires on <= AllRels(q)
    ensures Rels(Listed(on, |q.rels|)) == on
  {
    ListedBelow(on, |q.rels|);
    hide Listed;
    forall x | x in on
      ensures x in Rels(Listed(on, |q.rels|))
    {
      assert x in AllRels(q);
    }
  }

  /* ----- components ----- */

  /** No edge leads out. */
  ghost predicate Closed(e: Edges, on: set<nat>) {
    forall a, b :: a in on && Adjacent(e, a, b) ==> b in on
  }

  /** Connected relations that no edge leaves are a component. */
  lemma ComponentIs(q: Query, applied: set<Pred>, on: set<nat>, rel: nat)
    requires rel in on && on <= AllRels(q) && Connected(EdgesOf(applied), on) && Closed(EdgesOf(applied), on)
    ensures Component(q, applied, rel) == on
  {
    hide Connected, Closed, EdgesOf, Linked;
    forall x | x in on
      ensures x in Component(q, applied, rel)
    {
      ReachAll(EdgesOf(applied), on, rel, x);
      LinkedWider(EdgesOf(applied), on, AllRels(q), rel, x);
    }
    forall x | x in Component(q, applied, rel)
      ensures x in on
    {
      LinkedInside(EdgesOf(applied), AllRels(q), on, rel, x);
    }
  }

  lemma LinkedWider(e: Edges, s: set<nat>, t: set<nat>, a: nat, b: nat)
    requires Linked(e, s, a, b) && s <= t
    ensures Linked(e, t, a, b)
  {
    var path :| IsPath(e, s, path) && path[0] == a && path[|path| - 1] == b;
    assert IsPath(e, t, path);
  }

  lemma LinkedInside(e: Edges, all: set<nat>, on: set<nat>, a: nat, b: nat)
    requires Linked(e, all, a, b) && a in on && Closed(e, on)
    ensures b in on
  {
    var path :| IsPath(e, all, path) && path[0] == a && path[|path| - 1] == b;
    for i := 0 to |path| - 1
      invariant path[i] in on
    {
      assert Adjacent(e, path[i], path[i + 1]);
    }
  }

  /** The relations of an intermediate are the component of each of them. */
  lemma NodeIsComponent(q: Query, applied: set<Pred>, inters: seq<Inter>, i: nat, rel: nat)
    requires q.Valid() && Inv(q, applied, inters) && i < |inters| && rel in RelSet(inters[i])
    ensures RelSet(inters[i]) <= AllRels(q) && Component(q, applied, rel) == RelSet(inters[i])
  {
    hide Exact, Connected, EdgesOf, RelSet, Component;
    var on := RelSet(inters[i]);
    assert Known(q, inters[i]);
    forall a, b | a in on && Adjacent(EdgesOf(applied), a, b)
      ensures b in on
    {
      StaysInside(q, applied, inters, i, a, b);
    }
    ComponentIs(q, applied, on, rel);
  }

  /** A relation that no join has touched is a component of its own. */
  lemma AloneComponent(q: Query, applied: set<Pred>, rel: nat)
    requires rel < |q.rels| && NotTouched(applied, rel)
    ensures Component(q, applied, rel) == {rel}
  {
    SingletonConnected(EdgesOf(applied), rel);
    forall b | Adjacent(EdgesOf(applied), rel, b)
      ensures b == rel
    {
      var p :| p in applied && p.Join? && {p.participant1.rel, p.participant2.rel} == {rel, b};
      assert rel in p.Rels() && b in p.Rels();
      assert !Touches(p, rel);
    }
    hide Connected, EdgesOf, Component;
    ComponentIs(q, applied, {rel}, rel);
  }

  /* ----- the meaning ----- */

  /** The tuples of the relation's component that satisfy the predicates so far and the self-join
      outnumber the rows of the relation. */
  ghost predicate Outnumbers(q: Query, applied: set<Pred>, p: Pred, rel: nat)
    requires q.Valid() && AllIn(q, applied + {p}) && rel < |q.rels|
  {
    |Satisfying(q, applied + {p}, Component(q, applied, rel))| > q.Rows(rel)
  }

  /** The survivors in an intermediate are as many as the tuples that satisfy one more predicate. */
  lemma SurvivorsCounted(q: Query, applied: set<Pred>, p: Pred, inter: Inter)
    requires q.Valid() && q.HasPred(p) && AllIn(q, applied) && Exact(q, applied, inter)
    requires p.Rels() <= RelSet(inter) <= AllRels(q)
    ensures |Surviving(q, inter.Rows(), p, inter.numbOfRows)| == |Satisfying(q, applied + {p}, RelSet(inter))|
  {
    hide Surviving, Satisfying, Query.Admits, Query.Valid, Query.HasPred, RelSet, NoDuplicates;
    var on, found := RelSet(inter), Satisfying(q, applied + {p}, RelSet(inter));
    SatisfyingExact(q, applied + {p}, on);
    var kept := KeptRows(q, inter.Rows(), p);
    forall m: Assignment
      ensures m in kept <==> m in found
    {
      OneMore(q, applied, p, on, m);
    }
    SameDistinctBag(kept, found);
    assert |multiset(kept)| == |multiset(found)|;
  }

  lemma OneMore(q: Query, applied: set<Pred>, p: Pred, on: set<nat>, m: Assignment)
    requires q.Valid() && q.HasPred(p) && AllIn(q, applied) && p.Rels() <= on
    ensures q.Satisfies(applied + {p}, on, m) <==> q.Satisfies(applied, on, m) && q.Admits(p, m)
  {
    hide Query.Admits;
  }

  /** A relation alone never offers more rows than it has. */
  lemma AloneFits(q: Query, preds: set<Pred>, rel: nat)
    requires q.Valid() && AllIn(q, preds) && rel < |q.rels|
    ensures |Satisfying(q, preds, {rel})| <= q.Rows(rel)
  {
    hide Satisfying, Query.Satisfies, Query.Valid, Query.HasPred, Exact, NoDuplicates;
    SatisfyingExact(q, preds, {rel});
    var found := Satisfying(q, preds, {rel});
    OneRelation(rel);
    var inter := ExactOver(q, preds, [rel]);
    SingleIsSmall(q, preds, inter, rel);
    ExactMembers(q, preds, inter);
    SameDistinctBag(found, inter.Rows());
    assert |multiset(found)| == |multiset(inter.Rows())|;
  }

  lemma OneRelation(rel: nat)
    ensures NoDuplicates([rel]) && Rels([rel]) == {rel}
  {
  }

  lemma ExactMembers(q: Query, preds: set<Pred>, inter: Inter)
    requires q.Valid() && AllIn(q, preds) && Exact(q, preds, inter)
    ensures inter.Valid() && NoDuplicates(inter.Rows())
    ensures forall m :: m in inter.Rows() <==> q.Satisfies(preds, RelSet(inter), m)
  {
  }

  /** Room in the temporary array, for any list that keeps the invariant, in the query's terms. */
  lemma FitsMeaning(q: Query, applied: set<Pred>, p: Pred, rel: nat, inters: seq<Inter>)
    requires q.Valid() && q.HasPred(p) && p.Rels() == {rel} && rel < |q.rels| && Inv(q, applied, inters)
    ensures AllIn(q, applied + {p})
    ensures TempFits(q, p, rel, inters) <==> !Outnumbers(q, applied, p, rel)
  {
    InvTyped(q, applied, inters);
    hide Surviving, Satisfying, Component, Inv, Exact, Query.Valid, Query.HasPred, Pred.Rels;
    if IsNew(inters, rel) {
      NewUntouched(q, applied, inters, rel);
      AloneComponent(q, applied, rel);
      AloneFits(q, applied + {p}, rel);
      NewFits(q, p, rel, inters);
    } else {
      var i: nat :| i < |inters| && rel in RelSet(inters[i]);
      NodeIsComponent(q, applied, inters, i, rel);
      NodeExact(q, applied, inters, i);
      SurvivorsCounted(q, applied, p, inters[i]);
      JointPerformer.NodeFits(q, applied, p, rel, inters, i);
    }
  }

  /** A self-join is a misfit if and only if the tuples of its relation's component that satisfy the
      predicates before it and the self-join itself outnumber the rows of the relation. */
  lemma MisfitMeaning(q: Query, filters: seq<Pred>, joins: seq<Pred>, i: nat)
    requires q.Valid() && AllFilters(q, filters) && AllJoins(q, joins) && i < |joins| && joins[i].IsSelfJoin()
    ensures joins[i].participant1.rel < |q.rels| && AllIn(q, AppliedBefore(filters, joins, i) + {joins[i]})
    ensures Misfit(q, filters, joins, i)
       <==> Outnumbers(q, AppliedBefore(filters, joins, i), joins[i], joins[i].participant1.rel)
  {
    hide Outnumbers, Inv, TempFits, Misfit;
    JoinOk(q, joins, i);
    AllTyped(q, filters, joins, i);
    SelfJoinRels(q, joins[i]);
    var inters := StateExists(q, filters + joins[..i]);
    assert SetOf(filters + joins[..i]) == AppliedBefore(filters, joins, i);
    RoomDecides(q, filters, joins, i, inters);
    FitsMeaning(q, AppliedBefore(filters, joins, i), joins[i], joins[i].participant1.rel, inters);
  }

  lemma SelfJoinRels(q: Query, p: Pred)
    requires q.Valid() && q.HasPred(p) && p.IsSelfJoin()
    ensures p.Rels() == {p.participant1.rel} && p.participant1.rel < |q.rels|
  {
  }

  lemma AllTyped(q: Query, filters: seq<Pred>, joins: seq<Pred>, i: nat)
    requires q.Valid() && AllFilters(q, filters) && AllJoins(q, joins) && i <= |joins|
    ensures forall k :: 0 <= k < |filters + joins[..i]| ==> q.HasPred((filters + joins[..i])[k])
  {
    hide Query.Valid, Query.HasPred;
    forall k | 0 <= k < |filters + joins[..i]|
      ensures q.HasPred((filters + joins[..i])[k])
    {
      var p := (filters + joins[..i])[k];
      if k < |filters| {
        assert p in filters;
      } else {
        assert joins[k - |filters|] == p;
        assert p in joins;
      }
    }
  }
}

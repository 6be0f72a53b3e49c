/** When a join meets two empty intermediates, the one case in which no bucket exponent is chosen. */
module EmptySides {
  import opened InterList
  import opened QuerySpec
  import opened QueryState

  /** The two relations of the join are in two intermediates, and both are empty. */
  ghost predicate BothEmpty(p: Pred, inters: seq<Inter>) {
    && p.Join?
    && exists i, j :: 0 <= i < |inters| && 0 <= j < |inters| && i != j
         && p.participant1.rel in RelSet(inters[i]) && p.participant2.rel in RelSet(inters[j])
         && inters[i].numbOfRows == inters[j].numbOfRows == 0
  }

  /** No assignment to the relations satisfies the predicates. */
  ghost predicate NoAnswers(q: Query, applied: set<Pred>, on: set<nat>)
    requires q.Valid() && AllIn(q, applied)
  {
    forall m: Assignment :: !q.Satisfies(applied, on, m)
  }

  /** An intermediate is empty exactly when no assignment to its relations satisfies the predicates. */
  lemma EmptyIffNoAnswers(q: Query, applied: set<Pred>, inter: Inter)
    requires q.Valid() && AllIn(q, applied) && Exact(q, applied, inter)
    ensures inter.numbOfRows == 0 <==> NoAnswers(q, applied, RelSet(inter))
  {
    hide Query.Satisfies, Inter.Row;
    if inter.numbOfRows > 0 {
      assert inter.Rows()[0] in inter.Rows();
    }
  }

  /** The filters and the join of the query `0 1|0.0=1.0&0.0<0&1.0<0|0.0`: no value is below zero. */
  const NONE_OF_0: Pred := Filter(ColRel(0, 0), LESS, 0)
  const NONE_OF_1: Pred := Filter(ColRel(1, 0), LESS, 0)
  const JOIN: Pred := Join(ColRel(0, 0), ColRel(1, 0))

  /** On every database the query's filters leave its join two empty intermediates. */
  lemma FiltersLeaveNothing(q: Query, inters: seq<Inter>)
    requires q.Valid() && Inv(q, {NONE_OF_0, NONE_OF_1}, inters)
    ensures BothEmpty(JOIN, inters)
  {
    var applied := {NONE_OF_0, NONE_OF_1};
    var i := EmptyNode(q, inters, NONE_OF_0, 0);
    var j := EmptyNode(q, inters, NONE_OF_1, 1);
    hide Exact;
    if i == j {
      NotConnected(applied, RelSet(inters[i]));
      assert false;
    }
  }

  /** The filter's relation is in an empty intermediate. */
  lemma EmptyNode(q: Query, inters: seq<Inter>, p: Pred, rel: nat) returns (i: nat)
    requires q.Valid() && Inv(q, {NONE_OF_0, NONE_OF_1}, inters) && p in {NONE_OF_0, NONE_OF_1}
    requires rel == p.participant.rel
    ensures i < |inters| && rel in RelSet(inters[i]) && inters[i].numbOfRows == 0
  {
    var applied := {NONE_OF_0, NONE_OF_1};
    assert Grouped(p, inters);
    i :| 0 <= i < |inters| && p.Rels() <= RelSet(inters[i]);
    assert rel in p.Rels();
    forall m: Assignment
      ensures !q.Satisfies(applied, RelSet(inters[i]), m)
    {
      NeverAdmits(q, p, m);
    }
    EmptyIffNoAnswers(q, applied, inters[i]);
  }

  lemma NeverAdmits(q: Query, p: Pred, m: Assignment)
    requires q.Valid() && q.HasPred(p) && p.Filter? && p.op == LESS && p.value == 0
    ensures !q.Admits(p, m)
  {
  }

  /** Without joins two relations are not connected. */
  lemma NotConnected(applied: set<Pred>, on: set<nat>)
    requires (forall p :: p in applied ==> p.Filter?) && 0 in on && 1 in on
    ensures !Graphs.Connected(EdgesOf(applied), on)
  {
    assert EdgesOf(applied) == {};
    var t: set<nat> := {0};
    assert t < on;
    assert !Graphs.Crossed({}, t, on - t);
  }
}

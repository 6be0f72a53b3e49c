/** When the temporary array of a filter or a self-join is long enough. It has one place per row of
    the base relation, and the relation's intermediate may have more rows than that. */
module TempRoom {
  import opened Bags
  import opened InterList
  import opened QuerySpec
  import opened QueryState
  import opened JointPerformer
  import opened Graphs

  /** A join of the relation with another one. */
  predicate Touches(p: Pred, rel: nat) {
    p.Join? && !p.IsSelfJoin() && rel in p.Rels()
  }

  predicate NotTouched(applied: set<Pred>, rel: nat) {
    forall p :: p in applied ==> !Touches(p, rel)
  }

  /** A relation in company has been touched by a join. */
  lemma CompanyByJoin(applied: set<Pred>, on: set<nat>, rel: nat) returns (p: Pred)
    requires Connected(EdgesOf(applied), on) && rel in on && on != {rel}
    ensures p in applied && Touches(p, rel)
  {
    assert {rel} < on;
    assert Crossed(EdgesOf(applied), {rel}, on - {rel});
    var a, b :| a in {rel} && b in on - {rel} && Adjacent(EdgesOf(applied), a, b);
    p :| p in applied && p.Join? && {p.participant1.rel, p.participant2.rel} == {a, b};
    assert a in p.Rels() && b in p.Rels();
  }

  /** A relation that no join has touched is alone in its intermediate. */
  lemma SoloNode(q: Query, applied: set<Pred>, inters: seq<Inter>, i: nat, rel: nat)
    requires q.Valid() && Inv(q, applied, inters) && i < |inters| && rel in RelSet(inters[i])
    requires NotTouched(applied, rel)
    ensures RelSet(inters[i]) == {rel}
  {
    hide Exact, Connected;
    if RelSet(inters[i]) != {rel} {
      var p := CompanyByJoin(applied, RelSet(inters[i]), rel);
      assert false;
    }
  }

  /** An exact intermediate over one relation has no more rows than the relation. */
  lemma SingleIsSmall(q: Query, applied: set<Pred>, inter: Inter, rel: nat)
    requires q.Valid() && AllIn(q, applied) && Exact(q, applied, inter) && rel < |q.rels| && RelSet(inter) == {rel}
    ensures inter.numbOfRows <= q.Rows(rel)
  {
    hide Query.Admits, Inter.Row, Query.HasPred, Inter.Valid;
    var rows := inter.Rows();
    forall k | 0 <= k < |rows|
      ensures rows[k].Keys == {rel} && rows[k][rel] < q.Rows(rel)
    {
      assert rows[k] in rows;
      assert rel in rows[k];
    }
    var at := seq(|rows|, k requires 0 <= k < |rows| && rel in rows[k] => rows[k][rel]);
    forall i, j | 0 <= i < j < |at|
      ensures at[i] != at[j]
    {
      assert rows[i] == map[rel := at[i]] && rows[j] == map[rel := at[j]];
    }
    DistinctLength(at);
    SubsetSize((set x | x in at), Below(q.Rows(rel)));
  }

  /** The survivors fit as long as no join has touched the relation. */
  lemma UntouchedFits(q: Query, applied: set<Pred>, p: Pred, rel: nat, inters: seq<Inter>)
    requires q.Valid() && q.HasPred(p) && rel < |q.rels| && Inv(q, applied, inters) && NotTouched(applied, rel)
    ensures TempFits(q, p, rel, inters)
  {
    hide Surviving, Exact, NotTouched;
    forall i | 0 <= i < |inters| && inters[i].Valid() && rel in inters[i].joinedRels
      ensures |Surviving(q, inters[i].Rows(), p, inters[i].numbOfRows)| <= q.Rows(rel)
    {
      assert rel in RelSet(inters[i]);
      SoloNode(q, applied, inters, i, rel);
      SingleIsSmall(q, applied, inters[i], rel);
    }
  }

  /* ----- the predicates applied so far decide ----- */

  /** Along an applied join one stays inside an intermediate. */
  lemma StaysInside(q: Query, applied: set<Pred>, inters: seq<Inter>, i: nat, a: nat, b: nat)
    requires q.Valid() && Inv(q, applied, inters) && i < |inters|
    requires a in RelSet(inters[i]) && Adjacent(EdgesOf(applied), a, b)
    ensures b in RelSet(inters[i])
  {
    hide Exact, Connected;
    var p :| p in applied && p.Join? && {p.participant1.rel, p.participant2.rel} == {a, b};
    assert a in p.Rels() && b in p.Rels();
    assert Grouped(p, inters);
    var k :| 0 <= k < |inters| && p.Rels() <= RelSet(inters[k]);
    assert a in RelSet(inters[k]);
  }

  /** Connected relations of which one is in an intermediate are all in it. */
  lemma ComponentInside(q: Query, applied: set<Pred>, inters: seq<Inter>, i: nat, on: set<nat>, rel: nat)
    requires q.Valid() && Inv(q, applied, inters) && i < |inters|
    requires Connected(EdgesOf(applied), on) && rel in on && rel in RelSet(inters[i])
    ensures on <= RelSet(inters[i])
  {
    hide Inv;
    var inside := on * RelSet(inters[i]);
    if inside != on {
      assert rel in inside && inside < on;
      assert Crossed(EdgesOf(applied), inside, on - inside);
      var a, b :| a in inside && b in on - inside && Adjacent(EdgesOf(applied), a, b);
      StaysInside(q, applied, inters, i, a, b);
      assert false;
    }
  }

  /** After the same predicates a relation is in the same company. */
  lemma SameNode(q: Query, applied: set<Pred>, inters: seq<Inter>, inters': seq<Inter>, i: nat, i': nat, rel: nat)
    requires q.Valid() && Inv(q, applied, inters) && Inv(q, applied, inters')
    requires i < |inters| && i' < |inters'| && rel in RelSet(inters[i]) && rel in RelSet(inters'[i'])
    ensures RelSet(inters[i]) == RelSet(inters'[i'])
  {
    hide Connected, Exact;
    ComponentInside(q, applied, inters, i, RelSet(inters'[i']), rel);
    ComponentInside(q, applied, inters', i', RelSet(inters[i]), rel);
  }

  /** The rows that survive, each once. */
  lemma KeptRows(q: Query, rows: seq<Assignment>, p: Pred) returns (kept: seq<Assignment>)
    requires q.Valid() && q.HasPred(p) && NoDuplicates(rows)
    ensures NoDuplicates(kept) && |kept| == |Surviving(q, rows, p, |rows|)|
    ensures forall m :: m in kept <==> m in rows && q.Admits(p, m)
  {
    hide Query.Admits;
    var at := Surviving(q, rows, p, |rows|);
    SurvivingExact(q, rows, p, |rows|);
    hide Surviving;
    kept := Pick(rows, at);
    forall m | m in rows && q.Admits(p, m)
      ensures m in kept
    {
      var i :| 0 <= i < |rows| && rows[i] == m;
      assert i in at;
      var k :| 0 <= k < |at| && at[k] == i;
      assert kept[k] == m;
    }
    forall m | m in kept
      ensures m in rows && q.Admits(p, m)
    {
      var k :| 0 <= k < |kept| && kept[k] == m;
      assert at[k] in at;
    }
  }

  /** Two intermediates that are exact for the same predicates and relations have equally many
      survivors. */
  lemma SameSurvivors(q: Query, applied: set<Pred>, p: Pred, inter: Inter, inter': Inter)
    requires q.Valid() && q.HasPred(p) && AllIn(q, applied)
    requires Exact(q, applied, inter) && Exact(q, applied, inter') && RelSet(inter) == RelSet(inter')
    ensures |Surviving(q, inter.Rows(), p, inter.numbOfRows)| == |Surviving(q, inter'.Rows(), p, inter'.numbOfRows)|
  {
    hide Query.Admits, Query.Satisfies, Surviving;
    var kept := KeptRows(q, inter.Rows(), p);
    var kept' := KeptRows(q, inter'.Rows(), p);
    SameDistinctBag(kept, kept');
    assert |multiset(kept)| == |multiset(kept')|;
  }

  /** Whether the survivors fit is decided by the predicates applied so far: every list that keeps
      the invariant for them gives the same answer. */
  lemma FitsDetermined(q: Query, applied: set<Pred>, p: Pred, rel: nat, inters: seq<Inter>, inters': seq<Inter>)
    requires q.Valid() && q.HasPred(p) && rel < |q.rels|
    requires Inv(q, applied, inters) && Inv(q, applied, inters') && TempFits(q, p, rel, inters)
    ensures TempFits(q, p, rel, inters')
  {
    hide Surviving, Exact, Connected;
    forall i' | 0 <= i' < |inters'| && inters'[i'].Valid() && rel in inters'[i'].joinedRels
      ensures |Surviving(q, inters'[i'].Rows(), p, inters'[i'].numbOfRows)| <= q.Rows(rel)
    {
      assert rel in RelSet(inters'[i']);
      if IsNew(inters, rel) {
        NewUntouched(q, applied, inters, rel);
        UntouchedFits(q, applied, p, rel, inters');
      } else {
        var i :| 0 <= i < |inters| && rel in RelSet(inters[i]);
        SameNode(q, applied, inters, inters', i, i', rel);
        ExactValid(q, applied, inters[i]);
        SameSurvivors(q, applied, p, inters[i], inters'[i']);
      }
    }
  }

  lemma NewUntouched(q: Query, applied: set<Pred>, inters: seq<Inter>, rel: nat)
    requires q.Valid() && Inv(q, applied, inters) && IsNew(inters, rel)
    ensures NotTouched(applied, rel)
  {
    hide Exact, Connected;
    forall p | p in applied
      ensures !Touches(p, rel)
    {
      assert Grouped(p, inters);
    }
  }
}

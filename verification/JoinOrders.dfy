/** Which orders of the joins never overrun a temporary array, and a query whose order does. */
module JoinOrders {
  import opened Words
  import opened InterList
  import opened QuerySpec
  import opened QueryState
  import opened JointPerformer
  import opened TempRoom
  import opened QueryRun
  import opened States

  /* ----- relations of two rows, with one value everywhere ----- */

  /** `n` relations of `n` columns, of two rows each, with the same value in every cell. */
  function Uniform(n: nat, v: Word): Query {
    Query(seq(n, _ => seq(n, _ => [v, v])), seq(n, i => i))
  }

  predicate Bounded(p: Pred, n: nat) {
    if p.Filter? then p.participant.rel < n && p.participant.col < n
    else
      && p.participant1.rel < n && p.participant1.col < n
      && p.participant2.rel < n && p.participant2.col < n
  }

  predicate AllBounded(preds: seq<Pred>, n: nat) {
    forall i :: 0 <= i < |preds| ==> Bounded(preds[i], n)
  }

  /** Enough relations and columns for all the predicates. */
  lemma {:induction false} BoundOf(preds: seq<Pred>) returns (n: nat)
    ensures n > 0 && AllBounded(preds, n)
  {
    if preds == [] {
      n := 1;
    } else {
      var p := preds[0];
      n := BoundOf(preds[1..]);
      assert forall i :: 0 < i < |preds| ==> preds[i] == preds[1..][i - 1];
      if p.Filter? {
        n := n + p.participant.rel + p.participant.col + 1;
      } else {
        n := n + p.participant1.rel + p.participant1.col + p.participant2.rel + p.participant2.col + 1;
      }
    }
  }

  lemma UniformOk(n: nat, v: Word)
    requires n > 0
    ensures Uniform(n, v).Valid() && |Uniform(n, v).rels| == n
    ensures forall r: nat :: r < n ==> Uniform(n, v).Rows(r) == 2
  {
  }

  lemma UniformTyped(n: nat, v: Word, p: Pred)
    requires n > 0 && Uniform(n, v).Valid() && Bounded(p, n)
    ensures Uniform(n, v).HasPred(p)
  {
  }

  /** What such a relation's rows never fail: any join, and a filter that lets the value pass. */
  predicate Passes(p: Pred, v: Word) {
    p.Filter? ==> ApplyFilter(v, p.op, p.value)
  }

  lemma UniformAdmits(n: nat, v: Word, p: Pred, m: Assignment)
    requires n > 0 && Uniform(n, v).Valid() && Bounded(p, n) && Uniform(n, v).HasPred(p) && Passes(p, v)
    requires p.Rels() <= m.Keys && Uniform(n, v).InRange(m)
    ensures Uniform(n, v).Admits(p, m)
  {
    if p.Filter? {
      assert p.participant.rel in p.Rels();
    } else {
      assert p.participant1.rel in p.Rels() && p.participant2.rel in p.Rels();
    }
  }

  /** Row `a` of `r`, row `b` of `s` and the first row of every other relation. */
  function RowOf(on: set<nat>, r: nat, a: nat, s: nat, b: nat): Assignment {
    map x | x in on :: if x == r then a else if x == s then b else 0
  }

  lemma RowSatisfies(n: nat, v: Word, applied: set<Pred>, on: set<nat>, r: nat, a: nat, s: nat, b: nat)
    requires n > 0 && Uniform(n, v).Valid() && AllIn(Uniform(n, v), applied)
    requires forall p :: p in applied ==> Bounded(p, n) && Passes(p, v)
    requires a < 2 && b < 2 && forall x :: x in on ==> x < n
    ensures Uniform(n, v).Satisfies(applied, on, RowOf(on, r, a, s, b))
  {
    UniformOk(n, v);
    var m := RowOf(on, r, a, s, b);
    assert m.Keys == on;
    assert Uniform(n, v).InRange(m);
    forall p | p in applied && p.Rels() <= on
      ensures Uniform(n, v).Admits(p, m)
    {
      UniformAdmits(n, v, p, m);
    }
  }

  /** Two relations in one intermediate give it more than two rows. */
  lemma MoreThanTwo(n: nat, v: Word, applied: set<Pred>, on: set<nat>, rows: seq<Assignment>, r: nat, s: nat)
    requires n > 0 && Uniform(n, v).Valid() && AllIn(Uniform(n, v), applied)
    requires forall p :: p in applied ==> Bounded(p, n) && Passes(p, v)
    requires ExactRows(Uniform(n, v), applied, on, rows) && r in on && s in on && r != s
    requires forall x :: x in on ==> x < n
    ensures |rows| > 2
  {
    RowSatisfies(n, v, applied, on, r, 0, s, 0);
    RowSatisfies(n, v, applied, on, r, 0, s, 1);
    RowSatisfies(n, v, applied, on, r, 1, s, 0);
    hide Query.Satisfies;
    var m1, m2, m3 := RowOf(on, r, 0, s, 0), RowOf(on, r, 0, s, 1), RowOf(on, r, 1, s, 0);
    assert m1[s] == 0 && m2[s] == 1 && m3[r] == 1 && m1[r] == 0 && m2[r] == 0;
    hide RowOf, ExactRows;
    assert m1 in rows && m2 in rows && m3 in rows;
    var i :| 0 <= i < |rows| && rows[i] == m1;
    var j :| 0 <= j < |rows| && rows[j] == m2;
    var k :| 0 <= k < |rows| && rows[k] == m3;
    assert i != j && i != k && j != k;
  }

  lemma {:induction false} AllSurvive(q: Query, rows: seq<Assignment>, p: Pred, n: nat)
    requires q.Valid() && q.HasPred(p) && n <= |rows|
    requires forall k :: 0 <= k < |rows| ==> q.Admits(p, rows[k])
    ensures |Surviving(q, rows, p, n)| == n
  {
    hide Query.Admits;
    if n > 0 {
      AllSurvive(q, rows, p, n - 1);
    }
  }

  /** After a join of `r` with another relation, a self-join of `r` has more survivors than its
      temporary array has places, in whatever state the run has come to it. */
  lemma TouchedOverruns(n: nat, v: Word, applied: set<Pred>, inters: seq<Inter>, join: Pred, p: Pred, r: nat)
    requires n > 0 && Uniform(n, v).Valid() && Inv(Uniform(n, v), applied, inters)
    requires forall x :: x in applied ==> Bounded(x, n) && Passes(x, v)
    requires join in applied && Touches(join, r) && p.IsSelfJoin() && p.Rels() == {r} && Bounded(p, n)
    ensures Uniform(n, v).HasPred(p) && r < |Uniform(n, v).rels| && !TempFits(Uniform(n, v), p, r, inters)
  {
    var q := Uniform(n, v);
    UniformOk(n, v);
    UniformTyped(n, v, p);
    assert r in p.Rels();
    assert Grouped(join, inters);
    var i :| 0 <= i < |inters| && join.Rels() <= RelSet(inters[i]);
    var s := if join.participant1.rel == r then join.participant2.rel else join.participant1.rel;
    assert r in join.Rels() && s in join.Rels() && s != r;
    var inter := inters[i];
    assert Known(q, inter) && Exact(q, applied, inter);
    MoreThanTwo(n, v, applied, RelSet(inter), inter.Rows(), r, s);
    hide Inv, Uniform;
    forall k | 0 <= k < |inter.Rows()|
      ensures q.Admits(p, inter.Rows()[k])
    {
      assert inter.Rows()[k] in inter.Rows();
      UniformAdmits(n, v, p, inter.Rows()[k]);
    }
    AllSurvive(q, inter.Rows(), p, |inter.Rows()|);
    assert r in inter.joinedRels;
  }

  /* ----- the exact order condition ----- */

  /** The filters all let some value pass. */
  predicate AllPass(filters: seq<Pred>, v: Word) {
    forall i :: 0 <= i < |filters| ==> filters[i].Filter? && Passes(filters[i], v)
  }

  /** On every database the order finds room for every self-join. */
  ghost predicate FitsEverywhere(filters: seq<Pred>, joins: seq<Pred>) {
    forall q: Query :: q.Valid() && AllFilters(q, filters) && AllJoins(q, joins) ==> NoMisfit(q, filters, joins)
  }

  /** An unsafe order overruns on some database: a run comes to a self-join that is a misfit, all
      those before it having found room. */
  lemma UnsafeMisfits(filters: seq<Pred>, joins: seq<Pred>, v: Word) returns (q: Query, j: nat)
    requires AllPass(filters, v) && (forall k :: 0 <= k < |joins| ==> joins[k].Join?) && !SafeOrder(joins)
    ensures q.Valid() && AllFilters(q, filters) && AllJoins(q, joins)
    ensures Misfit(q, filters, joins, j) && NoMisfitBefore(q, filters, joins, j)
  {
    q, j := SomeMisfit(filters, joins, v);
    j := FirstMisfit(q, filters, joins, j);
  }

  /** Of the misfits the one that a run meets first. */
  lemma {:induction false} FirstMisfit(q: Query, filters: seq<Pred>, joins: seq<Pred>, j: nat) returns (first: nat)
    requires q.Valid() && AllJoins(q, joins) && Misfit(q, filters, joins, j)
    ensures first <= j && Misfit(q, filters, joins, first) && NoMisfitBefore(q, filters, joins, first)
  {
    hide Misfit;
    if i: nat :| i < j && Misfit(q, filters, joins, i) {
      first := FirstMisfit(q, filters, joins, i);
    } else {
      first := j;
    }
  }

  lemma SomeMisfit(filters: seq<Pred>, joins: seq<Pred>, v: Word) returns (q: Query, j: nat)
    requires AllPass(filters, v) && (forall k :: 0 <= k < |joins| ==> joins[k].Join?) && !SafeOrder(joins)
    ensures q.Valid() && AllFilters(q, filters) && AllJoins(q, joins) && Misfit(q, filters, joins, j)
  {
    var i;
    i, j :| 0 <= i < j < |joins| && joins[j].IsSelfJoin() && Touches(joins[i], joins[j].participant1.rel);
    hide SafeOrder, AllPass, AllBounded, Uniform, Query.Valid, AllFilters, AllJoins, Misfit, Touches;
    var n := BoundOf(filters + joins);
    q := Uniform(n, v);
    UniformOk(n, v);
    Typed(n, v, filters, joins);
    UniformMisfit(n, v, filters, joins, i, j);
  }

  lemma UniformMisfit(n: nat, v: Word, filters: seq<Pred>, joins: seq<Pred>, i: nat, j: nat)
    requires AllPass(filters, v) && (forall k :: 0 <= k < |joins| ==> joins[k].Join?)
    requires n > 0 && AllBounded(filters + joins, n) && Uniform(n, v).Valid()
    requires AllFilters(Uniform(n, v), filters) && AllJoins(Uniform(n, v), joins)
    requires i < j < |joins| && joins[j].IsSelfJoin() && Touches(joins[i], joins[j].participant1.rel)
    requires forall k: nat :: k < |filters + joins[..j]| ==> Uniform(n, v).HasPred((filters + joins[..j])[k])
    ensures Misfit(Uniform(n, v), filters, joins, j)
  {
    hide Uniform, Inv, Query.Valid, Query.HasPred, AllFilters, AllJoins, TempFits;
    var applied := AppliedBefore(filters, joins, j);
    var inters := StateExists(Uniform(n, v), filters + joins[..j]);
    assert SetOf(filters + joins[..j]) == applied;
    assert joins[..j][i] == joins[i];
    BoundedApplied(n, v, filters, joins, j);
    assert Bounded((filters + joins)[|filters| + j], n);
    hide Bounded, AllPass;
    TouchedOverruns(n, v, applied, inters, joins[i], joins[j], joins[j].participant1.rel);
    assert Misses(Uniform(n, v), filters, joins, j, inters);
  }

  lemma Typed(n: nat, v: Word, filters: seq<Pred>, joins: seq<Pred>)
    requires n > 0 && AllBounded(filters + joins, n) && Uniform(n, v).Valid()
    requires AllPass(filters, v) && forall k :: 0 <= k < |joins| ==> joins[k].Join?
    ensures AllFilters(Uniform(n, v), filters) && AllJoins(Uniform(n, v), joins)
    ensures forall j: nat, k: nat :: j <= |joins| && k < |filters + joins[..j]| ==>
              Uniform(n, v).HasPred((filters + joins[..j])[k])
  {
    hide Uniform, Bounded, Query.HasPred;
    forall k: nat | k < |filters + joins|
      ensures Uniform(n, v).HasPred((filters + joins)[k])
    {
      UniformTyped(n, v, (filters + joins)[k]);
    }
    forall p | p in filters
      ensures p.Filter? && Uniform(n, v).HasPred(p)
    {
      var k :| 0 <= k < |filters| && filters[k] == p;
      assert (filters + joins)[k] == p;
    }
    forall p | p in joins
      ensures p.Join? && Uniform(n, v).HasPred(p)
    {
      var k :| 0 <= k < |joins| && joins[k] == p;
      assert (filters + joins)[|filters| + k] == p;
    }
    forall j: nat, k: nat | j <= |joins| && k < |filters + joins[..j]|
      ensures Uniform(n, v).HasPred((filters + joins[..j])[k])
    {
      assert (filters + joins[..j])[k] == (filters + joins)[k];
    }
  }

  lemma BoundedApplied(n: nat, v: Word, filters: seq<Pred>, joins: seq<Pred>, j: nat)
    requires AllBounded(filters + joins, n) && AllPass(filters, v) && j <= |joins|
    requires forall k :: 0 <= k < |joins| ==> joins[k].Join?
    ensures forall p :: p in AppliedBefore(filters, joins, j) ==> Bounded(p, n) && Passes(p, v)
  {
    hide Bounded;
    forall p | p in AppliedBefore(filters, joins, j)
      ensures Bounded(p, n) && Passes(p, v)
    {
      if p in filters {
        var k :| 0 <= k < |filters| && filters[k] == p;
        assert (filters + joins)[k] == p;
      } else {
        var k :| 0 <= k < j && joins[k] == p;
        assert (filters + joins)[|filters| + k] == p;
      }
    }
  }

  /** The exact condition on the order: a run finds room for every self-join, on every database and
      behind any filters, if and only if no self-join comes after a join of its relation with another
      one. */
  lemma SafeOrderExact(joins: seq<Pred>)
    requires forall k :: 0 <= k < |joins| ==> joins[k].Join?
    ensures SafeOrder(joins) <==> forall filters :: FitsEverywhere(filters, joins)
  {
    hide SafeOrder, FitsEverywhere;
    if SafeOrder(joins) {
      forall filters
        ensures FitsEverywhere(filters, joins)
      {
        SafeFitsEverywhere(filters, joins);
      }
    } else {
      SafeBehindFilters([], joins, 0);
    }
  }

  lemma SafeFitsEverywhere(filters: seq<Pred>, joins: seq<Pred>)
    requires SafeOrder(joins)
    ensures FitsEverywhere(filters, joins)
  {
    hide NoMisfit;
    forall q: Query | q.Valid() && AllFilters(q, filters) && AllJoins(q, joins)
      ensures NoMisfit(q, filters, joins)
    {
      SafeOrderFits(q, filters, joins);
    }
  }

  /** The same behind given filters that let some value pass. */
  lemma SafeBehindFilters(filters: seq<Pred>, joins: seq<Pred>, v: Word)
    requires AllPass(filters, v) && forall k :: 0 <= k < |joins| ==> joins[k].Join?
    ensures SafeOrder(joins) <==> FitsEverywhere(filters, joins)
  {
    hide NoMisfit;
    if SafeOrder(joins) {
      SafeFitsEverywhere(filters, joins);
    } else {
      var q, j := UnsafeMisfits(filters, joins, v);
      MisfitSpoils(q, filters, joins, j);
    }
  }

  lemma MisfitSpoils(q: Query, filters: seq<Pred>, joins: seq<Pred>, j: nat)
    requires q.Valid() && AllJoins(q, joins) && Misfit(q, filters, joins, j)
    ensures !NoMisfit(q, filters, joins)
  {
  }

  /* ----- a query that the engine itself runs in an unsafe order ----- */

  /** The query `0 1|0.0=1.0&0.0=0.0|0.0` on two relations of one column with two equal cells. The
      self-join compares a column with itself, so it is not scheduled before the joins of the tree,
      and no tree contains it (see `TreeHasNoSelfJoin`): it comes last. */
  const LATE_QUERY: Query := Uniform(2, 1)
  const TREE_JOIN: Pred := Join(ColRel(0, 0), ColRel(1, 0))
  const SELF_JOIN: Pred := Join(ColRel(0, 0), ColRel(0, 0))

  /** Whatever list the join leaves, the self-join has more survivors than places, and there is such a
      list: the run writes past the end of its temporary array. */
  lemma LateSelfJoinOverruns()
    ensures LATE_QUERY.Valid() && AllJoins(LATE_QUERY, [TREE_JOIN, SELF_JOIN])
    ensures AllIn(LATE_QUERY, {TREE_JOIN}) && LATE_QUERY.HasPred(SELF_JOIN) && 0 < |LATE_QUERY.rels|
    ensures forall inters :: Inv(LATE_QUERY, {TREE_JOIN}, inters) ==> !TempFits(LATE_QUERY, SELF_JOIN, 0, inters)
    ensures Misfit(LATE_QUERY, [], [TREE_JOIN, SELF_JOIN], 1)
  {
    var joins := [TREE_JOIN, SELF_JOIN];
    UniformOk(2, 1);
    assert [] + joins == joins;
    Typed(2, 1, [], joins);
    assert SELF_JOIN in joins && TREE_JOIN in joins;
    forall inters | Inv(LATE_QUERY, {TREE_JOIN}, inters)
      ensures !TempFits(LATE_QUERY, SELF_JOIN, 0, inters)
    {
      TouchedOverruns(2, 1, {TREE_JOIN}, inters, TREE_JOIN, SELF_JOIN, 0);
    }
    hide Inv, TempFits, Uniform;
    var inters := StateExists(LATE_QUERY, [TREE_JOIN]);
    assert SetOf([TREE_JOIN]) == {TREE_JOIN} == AppliedBefore([], joins, 1);
    assert Misses(LATE_QUERY, [], joins, 1, inters);
  }
}

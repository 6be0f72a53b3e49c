/** Whole queries: filters, then joins, then checksums. */
module QueryRun {
  import opened Words
  import opened Bags
  import opened JoinSpec
  import opened RadixJoin
  import opened InterList
  import opened QuerySpec
  import opened QueryState
  import opened JointPerformer
  import opened TempRoom
  import opened Graphs

  /* ----- the meaning of a query, by nested loops ----- */

  /** All row-id tuples of the relations below `n`, by one loop per relation. */
  function AllTuples(q: Query, n: nat): seq<Assignment>
    requires q.Valid() && n <= |q.rels|
  {
    if n == 0 then [map[]] else ExtendAll(AllTuples(q, n - 1), n - 1, q.Rows(n - 1))
  }

  function ExtendAll(ms: seq<Assignment>, rel: nat, rows: nat): seq<Assignment> {
    if ms == [] then []
    else seq(rows, i requires 0 <= i => ms[0][rel := i]) + ExtendAll(ms[1..], rel, rows)
  }

  /** The tuples that satisfy every predicate. */
  function Answers(q: Query, preds: set<Pred>, ms: seq<Assignment>): seq<Assignment>
    requires q.Valid() && forall p :: p in preds ==> q.HasPred(p)
  {
    if ms == [] then []
    else (if forall p :: p in preds ==> q.Admits(p, ms[0]) then [ms[0]] else []) + Answers(q, preds, ms[1..])
  }

  /** The sum of a column over the given rows. */
  function SumOver(q: Query, c: ColRel, ms: seq<Assignment>): nat
    requires q.Valid() && q.HasCol(c)
  {
    if ms == [] then 0
    else (if c.rel in ms[0] && ms[0][c.rel] < q.Rows(c.rel) then q.Col(c)[ms[0][c.rel]] else 0) + SumOver(q, c, ms[1..])
  }

  /** The checksum of a column, as a 64-bit sum over the query's answers. */
  function Checksum(q: Query, preds: set<Pred>, c: ColRel): Word
    requires q.Valid() && q.HasCol(c) && forall p :: p in preds ==> q.HasPred(p)
  {
    SumOver(q, c, Answers(q, preds, AllTuples(q, |q.rels|))) % TWO_64
  }

  /** It differs from the unbounded sum by a multiple of 2^64. */
  lemma ChecksumWraps(q: Query, preds: set<Pred>, c: ColRel) returns (k: nat)
    requires q.Valid() && q.HasCol(c) && forall p :: p in preds ==> q.HasPred(p)
    ensures SumOver(q, c, Answers(q, preds, AllTuples(q, |q.rels|))) == k * Pow2(64) + Checksum(q, preds, c)
  {
    var sum := SumOver(q, c, Answers(q, preds, AllTuples(q, |q.rels|)));
    var top := WordRange(Checksum(q, preds, c));
    k := sum / TWO_64;
    hide SumOver, Answers, AllTuples, Pow2;
  }

  function AllRels(q: Query): set<nat> {
    Below(|q.rels|)
  }

  /** Every relation is reached by some predicate, and the joins connect them all. */
  ghost predicate ConnectedQuery(q: Query, preds: set<Pred>)
    requires q.Valid()
  {
    AllIn(q, preds) && preds != {} && Connected(EdgesOf(preds), AllRels(q))
  }

  /** `ms` are the assignments to the relations `on`, each once. */
  ghost predicate Enumerates(q: Query, on: set<nat>, ms: seq<Assignment>)
    requires q.Valid()
  {
    && NoDuplicates(ms)
    && forall m: Assignment :: m in ms <==> m.Keys == on && q.InRange(m)
  }

  lemma {:induction false} ExtendAllMembers(ms: seq<Assignment>, rel: nat, rows: nat)
    requires NoDuplicates(ms) && forall m :: m in ms ==> rel !in m
    ensures NoDuplicates(ExtendAll(ms, rel, rows))
    ensures forall x: Assignment :: x in ExtendAll(ms, rel, rows) <==>
              rel in x && x[rel] < rows && x - {rel} in ms
  {
    if ms != [] {
      var head, tail := seq(rows, i requires 0 <= i => ms[0][rel := i]), ExtendAll(ms[1..], rel, rows);
      assert ms[0] in ms;
      assert forall m :: m in ms[1..] ==> m in ms;
      ExtendAllMembers(ms[1..], rel, rows);
      forall i | 0 <= i < rows
        ensures head[i] - {rel} == ms[0] && rel in head[i] && head[i][rel] == i
      {
      }
      forall x: Assignment
        ensures x in head <==> rel in x && x[rel] < rows && x - {rel} == ms[0]
      {
        if rel in x && x[rel] < rows && x - {rel} == ms[0] {
          assert x == head[x[rel]];
        }
      }
      forall i, j | 0 <= i < j < |head + tail|
        ensures (head + tail)[i] != (head + tail)[j]
      {
        if i < rows <= j {
          assert tail[j - rows] in tail && tail[j - rows] - {rel} in ms[1..];
          assert ms[0] !in ms[1..];
        }
      }
    }
  }

  lemma {:induction false} AllTuplesEnumerates(q: Query, n: nat)
    requires q.Valid() && n <= |q.rels|
    ensures Enumerates(q, Below(n), AllTuples(q, n))
  {
    hide *;
    NextTuples(q, n);
    if n == 0 {
      NoTuples(q);
    } else {
      AllTuplesEnumerates(q, n - 1);
      EnumeratesStep(q, Below(n - 1), n - 1, AllTuples(q, n - 1));
    }
  }

  lemma NoTuples(q: Query)
    requires q.Valid()
    ensures Enumerates(q, {}, [map[]])
  {
    forall m: Assignment | m.Keys == {}
      ensures m == map[]
    {
    }
  }

  lemma NextTuples(q: Query, n: nat)
    requires q.Valid() && n <= |q.rels|
    ensures n == 0 ==> Below(n) == {} && AllTuples(q, n) == [map[]]
    ensures n > 0 ==> n - 1 !in Below(n - 1) && Below(n) == Below(n - 1) + {n - 1}
    ensures n > 0 ==> AllTuples(q, n) == ExtendAll(AllTuples(q, n - 1), n - 1, q.Rows(n - 1))
  {
  }

  lemma EnumeratesStep(q: Query, on: set<nat>, rel: nat, ms: seq<Assignment>)
    requires q.Valid() && rel < |q.rels| && rel !in on && Enumerates(q, on, ms)
    ensures Enumerates(q, on + {rel}, ExtendAll(ms, rel, q.Rows(rel)))
  {
    hide Query.Valid, Query.InRange, ExtendAll;
    ExtendAllMembers(ms, rel, q.Rows(rel));
    forall m: Assignment
      ensures m in ExtendAll(ms, rel, q.Rows(rel)) <==> m.Keys == on + {rel} && q.InRange(m)
    {
      OneMoreRelation(q, on, rel, m);
    }
  }

  lemma OneMoreRelation(q: Query, on: set<nat>, rel: nat, m: Assignment)
    requires q.Valid() && rel < |q.rels| && rel !in on
    ensures m.Keys == on + {rel} && q.InRange(m)
       <==> rel in m && m[rel] < q.Rows(rel) && (m - {rel}).Keys == on && q.InRange(m - {rel})
  {
    var r := m - {rel};
    if rel in m {
      assert m.Keys == r.Keys + {rel};
    }
    if m.Keys == on + {rel} {
      assert r.Keys == on;
    }
  }

  lemma {:induction false} AnswersMembers(q: Query, preds: set<Pred>, ms: seq<Assignment>)
    requires q.Valid() && AllIn(q, preds) && NoDuplicates(ms)
    ensures NoDuplicates(Answers(q, preds, ms))
    ensures forall m :: m in Answers(q, preds, ms) <==> m in ms && forall p :: p in preds ==> q.Admits(p, m)
  {
    hide Query.Admits;
    if ms != [] {
      var rest := Answers(q, preds, ms[1..]);
      AnswersMembers(q, preds, ms[1..]);
      assert ms == [ms[0]] + ms[1..];
      assert ms[0] !in rest;
    }
  }

  /** An exact intermediate over all relations holds the query's answers, as a bag. */
  lemma FinalIsAnswers(q: Query, preds: set<Pred>, inter: Inter)
    requires q.Valid() && AllIn(q, preds) && Exact(q, preds, inter) && RelSet(inter) == AllRels(q)
    ensures multiset(inter.Rows()) == multiset(Answers(q, preds, AllTuples(q, |q.rels|)))
  {
    var ms := AllTuples(q, |q.rels|);
    AllTuplesEnumerates(q, |q.rels|);
    AnswersMembers(q, preds, ms);
    hide Answers, AllTuples;
    forall p | p in preds
      ensures p.Rels() <= AllRels(q)
    {
    }
    hide Query.Admits;
    SameDistinctBag(inter.Rows(), Answers(q, preds, ms));
  }

  lemma {:induction false} SumAppend(q: Query, c: ColRel, a: seq<Assignment>, b: seq<Assignment>)
    requires q.Valid() && q.HasCol(c)
    ensures SumOver(q, c, a + b) == SumOver(q, c, a) + SumOver(q, c, b)
  {
    if a == [] {
      assert a + b == b;
    } else {
      assert (a + b)[1..] == a[1..] + b;
      SumAppend(q, c, a[1..], b);
    }
  }

  /** A sum does not depend on the order of the rows. */
  lemma {:induction false} SumPermute(q: Query, c: ColRel, a: seq<Assignment>, b: seq<Assignment>)
    requires q.Valid() && q.HasCol(c) && multiset(a) == multiset(b)
    ensures SumOver(q, c, a) == SumOver(q, c, b)
  {
    if a == [] {
      assert |multiset(b)| == 0;
    } else {
      var i, rest := Extract(a, b);
      SumPermute(q, c, a[1..], rest);
      SumAppend(q, c, b[..i], b[i + 1..]);
      SumAppend(q, c, b[..i], [b[i]] + b[i + 1..]);
      assert b == b[..i] + ([b[i]] + b[i + 1..]);
    }
  }

  /* ----- after all predicates there is one intermediate ----- */

  predicate IsFirst(i: int) {
    i == 0
  }

  /** When the applied predicates connect the query, one intermediate is left, over all relations. */
  lemma OneIntermediate(q: Query, preds: set<Pred>, inters: seq<Inter>)
    requires q.Valid() && Inv(q, preds, inters) && ConnectedQuery(q, preds)
    ensures |inters| == 1 && RelSet(inters[0]) == AllRels(q)
  {
    hide Exact;
    var p :| p in preds;
    assert Grouped(p, inters);
    var t, all := RelSet(inters[0]), AllRels(q);
    assert Known(q, inters[0]) && t <= all;
    assert !Crossed(EdgesOf(preds), t, all - t) by {
      forall a, b | a in t && Adjacent(EdgesOf(preds), a, b)
        ensures b in t
      {
        StaysInside(q, preds, inters, 0, a, b);
      }
    }
    assert t == all;
    forall i | 0 <= i < |inters|
      ensures IsFirst(i)
    {
      assert Known(q, inters[i]);
      var r :| r in RelSet(inters[i]);
      assert r in RelSet(inters[0]);
    }
    assert |inters| > 1 ==> IsFirst(1);
  }

  /** One intermediate over all relations is left exactly when the predicates connect the query. */
  lemma OneIffConnected(q: Query, preds: set<Pred>, inters: seq<Inter>)
    requires q.Valid() && Inv(q, preds, inters)
    ensures |inters| == 1 && RelSet(inters[0]) == AllRels(q) <==> ConnectedQuery(q, preds)
  {
    hide Exact, Connected;
    if ConnectedQuery(q, preds) {
      OneIntermediate(q, preds, inters);
    }
  }

  /* ----- the code ----- */

  /** The sum, modulo 2^64, of a column over the rows that an intermediate's column names. */
  method CalcChecksum(q: Query, c: ColRel, inter: Inter) returns (sum: Word)
    requires q.Valid() && q.HasCol(c) && inter.Valid() && c.rel in inter.joinedRels && RowIdsExist(q, inter)
    ensures sum == SumOver(q, c, inter.Rows()) % TWO_64
  {
    var rowIds, relValues := inter.Column(c.rel), q.Col(c);
    ghost var rows := inter.Rows();
    forall k | 0 <= k < inter.numbOfRows
      ensures rowIds[k] < |relValues| && c.rel in rows[k] && rows[k][c.rel] == rowIds[k]
    {
      assert RowIdOk(q, inter, c.rel, k);
      assert rows[k] == inter.Row(k);
    }
    sum := SumColumn(q, c, rowIds, relValues, rows);
  }

  /** The summation loop. */
  method SumColumn(q: Query, c: ColRel, rowIds: seq<nat>, relValues: seq<Word>, ghost rows: seq<Assignment>)
    returns (sum: Word)
    requires q.Valid() && q.HasCol(c) && relValues == q.Col(c) && |rows| == |rowIds|
    requires forall k :: 0 <= k < |rows| ==>
               rowIds[k] < |relValues| && c.rel in rows[k] && rows[k][c.rel] == rowIds[k]
    ensures sum == SumOver(q, c, rows) % TWO_64
  {
    hide SumOver;
    SumNone(q, c);
    assert rows[..0] == [];
    sum := 0;
    for whichRow := 0 to |rowIds|
      invariant sum == SumOver(q, c, rows[..whichRow]) % TWO_64
    {
      SumAppend(q, c, rows[..whichRow], [rows[whichRow]]);
      assert rows[..whichRow + 1] == rows[..whichRow] + [rows[whichRow]];
      SumOne(q, c, rows[whichRow]);
      WrappingAdd(SumOver(q, c, rows[..whichRow]), relValues[rowIds[whichRow]]);
      sum := (sum + relValues[rowIds[whichRow]]) % TWO_64;
    }
    assert rows[..|rowIds|] == rows;
  }

  lemma SumNone(q: Query, c: ColRel)
    requires q.Valid() && q.HasCol(c)
    ensures SumOver(q, c, []) == 0
  {
  }

  lemma SumOne(q: Query, c: ColRel, m: Assignment)
    requires q.Valid() && q.HasCol(c) && c.rel in m && m[c.rel] < q.Rows(c.rel)
    ensures SumOver(q, c, [m]) == q.Col(c)[m[c.rel]]
  {
    assert SumOver(q, c, [m]) == q.Col(c)[m[c.rel]] + SumOver(q, c, []);
  }

  lemma WrappingAdd(a: nat, b: nat)
    ensures (a % TWO_64 + b) % TWO_64 == (a + b) % TWO_64
  {
  }

  /** The intermediate that is left is well-formed and holds the answers. */
  lemma LastIntermediate(q: Query, preds: set<Pred>, inters: seq<Inter>)
    requires q.Valid() && Inv(q, preds, inters) && ConnectedQuery(q, preds)
    ensures |inters| == 1 && AllIn(q, preds)
    ensures inters[0].Valid() && RowIdsExist(q, inters[0]) && RelSet(inters[0]) == AllRels(q)
    ensures multiset(inters[0].Rows()) == multiset(Answers(q, preds, AllTuples(q, |q.rels|)))
  {
    OneIntermediate(q, preds, inters);
    InvAllIn(q, preds, inters);
    FinalIsAnswers(q, preds, inters[0]);
    hide *;
  }

  /** One checksum per requested column, from the only intermediate. */
  method PerformChecksums(q: Query, ghost preds: set<Pred>, sums: seq<ColRel>, hq: HeadInter)
    returns (checksums: seq<Word>)
    requires q.Valid() && hq.Valid() && Inv(q, preds, hq.Contents()) && ConnectedQuery(q, preds)
    requires forall c :: c in sums ==> q.HasCol(c)
    ensures |checksums| == |sums|
    ensures forall s :: 0 <= s < |sums| ==> checksums[s] == Checksum(q, preds, sums[s])
  {
    LastIntermediate(q, preds, hq.Contents());
    var inter := hq.start.data;
    assert hq.Contents()[0] == inter;
    hide *;
    checksums := SumColumns(q, preds, sums, inter);
  }

  /** The loop over the requested columns. */
  method SumColumns(q: Query, ghost preds: set<Pred>, sums: seq<ColRel>, inter: Inter) returns (checksums: seq<Word>)
    requires q.Valid() && AllIn(q, preds) && (forall c :: c in sums ==> q.HasCol(c))
    requires inter.Valid() && RowIdsExist(q, inter) && RelSet(inter) == AllRels(q)
    requires multiset(inter.Rows()) == multiset(Answers(q, preds, AllTuples(q, |q.rels|)))
    ensures |checksums| == |sums|
    ensures forall s :: 0 <= s < |sums| ==> checksums[s] == Checksum(q, preds, sums[s])
  {
    hide Query.Valid, Query.HasPred, Query.HasCol, Inter.Valid, RowIdsExist, RelSet, AllRels, Answers, AllTuples,
      Checksum;
    checksums := [];
    for whichSum := 0 to |sums|
      invariant |checksums| == whichSum
      invariant forall s :: 0 <= s < whichSum ==> checksums[s] == Checksum(q, preds, sums[s])
    {
      assert sums[whichSum] in sums;
      var sum := OneChecksum(q, preds, sums[whichSum], inter);
      checksums := checksums + [sum];
    }
  }

  method OneChecksum(q: Query, ghost preds: set<Pred>, c: ColRel, inter: Inter) returns (sum: Word)
    requires q.Valid() && AllIn(q, preds) && q.HasCol(c)
    requires inter.Valid() && RowIdsExist(q, inter) && RelSet(inter) == AllRels(q)
    requires multiset(inter.Rows()) == multiset(Answers(q, preds, AllTuples(q, |q.rels|)))
    ensures sum == Checksum(q, preds, c)
  {
    hide Answers, AllTuples, RowIdsExist, SumOver, Inter.Valid;
    assert c.rel in AllRels(q);
    assert c.rel in inter.joinedRels;
    sum := CalcChecksum(q, c, inter);
    SumPermute(q, c, inter.Rows(), Answers(q, preds, AllTuples(q, |q.rels|)));
  }

  ghost function SetOf(preds: seq<Pred>): set<Pred> {
    set p | p in preds
  }

  lemma SetOfNext(done: set<Pred>, preds: seq<Pred>, i: nat)
    requires i < |preds|
    ensures done + SetOf(preds[..i + 1]) == done + SetOf(preds[..i]) + {preds[i]}
  {
    assert preds[..i + 1] == preds[..i] + [preds[i]];
  }

  /* ----- the order of the joins ----- */

  predicate AllJoins(q: Query, joins: seq<Pred>)
    requires q.Valid()
  {
    forall p :: p in joins ==> p.Join? && q.HasPred(p)
  }

  predicate AllFilters(q: Query, filters: seq<Pred>)
    requires q.Valid()
  {
    forall p :: p in filters ==> p.Filter? && q.HasPred(p)
  }

  /** No self-join comes after a join of its relation with another one. */
  predicate SafeOrder(joins: seq<Pred>) {
    forall i, j :: 0 <= i < j < |joins| && joins[j].IsSelfJoin() ==> !Touches(joins[i], joins[j].participant1.rel)
  }

  /** The predicates applied before join `i`. */
  ghost function AppliedBefore(filters: seq<Pred>, joins: seq<Pred>, i: nat): set<Pred>
    requires i <= |joins|
  {
    SetOf(filters) + SetOf(joins[..i])
  }

  /** Join `i` is a self-join and a run that comes to it has no room for the survivors. */
  ghost predicate Misfit(q: Query, filters: seq<Pred>, joins: seq<Pred>, i: nat)
    requires q.Valid() && AllJoins(q, joins)
  {
    && i < |joins| && joins[i].IsSelfJoin()
    && exists inters :: Misses(q, filters, joins, i, inters)
  }

  ghost predicate Misses(q: Query, filters: seq<Pred>, joins: seq<Pred>, i: nat, inters: seq<Inter>)
    requires q.Valid() && AllJoins(q, joins) && i < |joins| && joins[i].IsSelfJoin()
  {
    Inv(q, AppliedBefore(filters, joins, i), inters) && !TempFits(q, joins[i], joins[i].participant1.rel, inters)
  }

  ghost predicate NoMisfit(q: Query, filters: seq<Pred>, joins: seq<Pred>)
    requires q.Valid() && AllJoins(q, joins)
  {
    NoMisfitBefore(q, filters, joins, |joins|)
  }

  ghost predicate NoMisfitBefore(q: Query, filters: seq<Pred>, joins: seq<Pred>, n: nat)
    requires q.Valid() && AllJoins(q, joins)
  {
    forall i: nat :: i < n ==> !Misfit(q, filters, joins, i)
  }

  /** In a safe order every self-join finds room, on every database. */
  lemma SafeOrderFits(q: Query, filters: seq<Pred>, joins: seq<Pred>)
    requires q.Valid() && AllFilters(q, filters) && AllJoins(q, joins) && SafeOrder(joins)
    ensures NoMisfit(q, filters, joins)
  {
    forall i: nat | i < |joins| && joins[i].IsSelfJoin()
      ensures forall inters :: !Misses(q, filters, joins, i, inters)
    {
      var rel := joins[i].participant1.rel;
      assert joins[i] in joins;
      assert NotTouched(AppliedBefore(filters, joins, i), rel);
      forall inters | Inv(q, AppliedBefore(filters, joins, i), inters)
        ensures TempFits(q, joins[i], rel, inters)
      {
        UntouchedFits(q, AppliedBefore(filters, joins, i), joins[i], rel, inters);
      }
    }
  }

  /* ----- the run ----- */

  /** One filter, when only filters have been applied: there is room. */
  method FilterStep(q: Query, p: Pred, hq: HeadInter, ghost applied: set<Pred>)
    requires q.Valid() && p.Filter? && q.HasPred(p) && forall x :: x in applied ==> x.Filter?
    requires hq.Valid() && Inv(q, applied, hq.Contents())
    modifies hq, hq.Nodes()
    ensures hq.Valid() && OwnNodes(hq) && Inv(q, applied + {p}, hq.Contents())
  {
    assert NotTouched(applied, p.participant.rel);
    hide Inv, TempFits, HeadInter.Valid, HeadInter.Contents, HeadInter.Nodes, NotTouched;
    UntouchedFits(q, applied, p, p.participant.rel, hq.Contents());
    var ok := WorkerF(q, p, hq, applied);
  }

  /** The filters, applied to an empty list, always find room. */
  method RunFilters(q: Query, filters: seq<Pred>, hq: HeadInter)
    requires q.Valid() && AllFilters(q, filters)
    requires hq.Valid() && hq.spine == []
    modifies hq
    ensures hq.Valid() && fresh(hq.Nodes()) && Inv(q, SetOf(filters), hq.Contents())
  {
    assert Inv(q, SetOf(filters[..0]), hq.Contents());
    hide Inv, SetOf, HeadInter.Valid, HeadInter.Contents, Query.Valid, Query.HasPred, AllFilters;
    for whichFilter := 0 to |filters|
      invariant hq.Valid() && fresh(hq.Nodes())
      invariant Inv(q, SetOf(filters[..whichFilter]), hq.Contents())
    {
      FilterOk(q, filters, whichFilter);
      FilterStep(q, filters[whichFilter], hq, SetOf(filters[..whichFilter]));
    }
    assert filters[..|filters|] == filters;
  }

  lemma FilterOk(q: Query, filters: seq<Pred>, i: nat)
    requires q.Valid() && AllFilters(q, filters) && i < |filters|
    ensures filters[i].Filter? && q.HasPred(filters[i])
    ensures forall x :: x in SetOf(filters[..i]) ==> x.Filter?
    ensures SetOf(filters[..i + 1]) == SetOf(filters[..i]) + {filters[i]}
  {
    assert filters[i] in filters;
    assert filters[..i + 1] == filters[..i] + [filters[i]];
  }

  /** A run that has come to join `i`. */
  ghost predicate Ready(q: Query, w: Warehouses, joins: seq<Pred>, i: nat, hq: HeadInter, filters: seq<Pred>)
    requires q.Valid() && AllJoins(q, joins) && i <= |joins|
    reads w, hq, hq.spine
  {
    && w.Valid(q.db) && hq.Valid() && Inv(q, AppliedBefore(filters, joins, i), hq.Contents())
    && NoMisfitBefore(q, filters, joins, i)
  }

  /** The join at position `i`: carried out unless it has no room for its survivors. */
  method JoinNext(q: Query, w: Warehouses, joins: seq<Pred>, i: nat, hq: HeadInter, ghost filters: seq<Pred>)
    returns (ok: bool)
    requires q.Valid() && AllJoins(q, joins) && i < |joins| && Ready(q, w, joins, i, hq, filters)
    modifies w, hq, hq.Nodes()
    ensures w.Valid(q.db) && OwnNodes(hq)
    ensures if ok then Ready(q, w, joins, i + 1, hq, filters) else !NoMisfit(q, filters, joins)
  {
    ghost var inters := hq.Contents();
    JoinOk(q, joins, i);
    NextApplied(filters, joins, i);
    RoomDecides(q, filters, joins, i, inters);
    OneMoreFits(q, filters, joins, i);
    hide Inv, TempFits, Misfit, NoMisfit, NoMisfitBefore, AppliedBefore, AllJoins, HeadInter.Valid, HeadInter.Contents,
      Warehouses.Valid, Query.Valid, Query.HasPred;
    ok := WorkerJ(q, joins[i], w, hq, AppliedBefore(filters, joins, i));
  }

  lemma JoinOk(q: Query, joins: seq<Pred>, i: nat)
    requires q.Valid() && AllJoins(q, joins) && i < |joins|
    ensures joins[i].Join? && q.HasPred(joins[i])
  {
    assert joins[i] in joins;
  }

  lemma NextApplied(filters: seq<Pred>, joins: seq<Pred>, i: nat)
    requires i < |joins|
    ensures AppliedBefore(filters, joins, i + 1) == AppliedBefore(filters, joins, i) + {joins[i]}
  {
    SetOfNext(SetOf(filters), joins, i);
  }

  /** The list that a run has built decides for every list that it could have built. */
  lemma RoomDecides(q: Query, filters: seq<Pred>, joins: seq<Pred>, i: nat, inters: seq<Inter>)
    requires q.Valid() && AllJoins(q, joins) && i < |joins| && joins[i].Join? && q.HasPred(joins[i])
    requires Inv(q, AppliedBefore(filters, joins, i), inters)
    ensures Misfit(q, filters, joins, i)
       <==> joins[i].IsSelfJoin() && !TempFits(q, joins[i], joins[i].participant1.rel, inters)
  {
    hide Inv, TempFits;
    if Misfit(q, filters, joins, i) {
      var others :| Misses(q, filters, joins, i, others);
      if TempFits(q, joins[i], joins[i].participant1.rel, inters) {
        FitsDetermined(q, AppliedBefore(filters, joins, i), joins[i], joins[i].participant1.rel, inters, others);
      }
    }
    if joins[i].IsSelfJoin() && !TempFits(q, joins[i], joins[i].participant1.rel, inters) {
      assert Misses(q, filters, joins, i, inters);
    }
  }

  /** The joins in the order given, up to the first that has no room for its survivors. */
  method RunJoins(q: Query, w: Warehouses, joins: seq<Pred>, hq: HeadInter, ghost filters: seq<Pred>)
    returns (ok: bool)
    requires q.Valid() && AllFilters(q, filters) && AllJoins(q, joins)
    requires w.Valid(q.db) && hq.Valid() && Inv(q, SetOf(filters), hq.Contents())
    modifies w, hq, hq.Nodes()
    ensures w.Valid(q.db) && OwnNodes(hq)
    ensures ok <==> NoMisfit(q, filters, joins)
    ensures SafeOrder(joins) ==> ok
    ensures ok ==> hq.Valid() && Inv(q, SetOf(filters) + SetOf(joins), hq.Contents())
  {
    NothingBefore(filters, joins);
    if SafeOrder(joins) {
      SafeOrderFits(q, filters, joins);
    }
    ok := JoinsInOrder(q, w, joins, hq, filters);
  }

  method JoinsInOrder(q: Query, w: Warehouses, joins: seq<Pred>, hq: HeadInter, ghost filters: seq<Pred>)
    returns (ok: bool)
    requires q.Valid() && AllJoins(q, joins) && Ready(q, w, joins, 0, hq, filters)
    modifies w, hq, hq.Nodes()
    ensures w.Valid(q.db) && OwnNodes(hq)
    ensures if ok then Ready(q, w, joins, |joins|, hq, filters) else !NoMisfit(q, filters, joins)
  {
    hide Ready, NoMisfit, AllJoins, Query.Valid, Warehouses.Valid;
    ReadyValid(q, w, joins, 0, hq, filters);
    ghost var nodes := hq.Nodes();
    for whichJoin := 0 to |joins|
      invariant Ready(q, w, joins, whichJoin, hq, filters) && w.Valid(q.db)
      invariant fresh(hq.Nodes() - nodes)
    {
      ok := JoinNext(q, w, joins, whichJoin, hq, filters);
      if !ok {
        return;
      }
    }
    ok := true;
  }

  lemma ReadyValid(q: Query, w: Warehouses, joins: seq<Pred>, i: nat, hq: HeadInter, filters: seq<Pred>)
    requires q.Valid() && AllJoins(q, joins) && i <= |joins| && Ready(q, w, joins, i, hq, filters)
    ensures w.Valid(q.db)
  {
  }

  lemma NothingBefore(filters: seq<Pred>, joins: seq<Pred>)
    ensures AppliedBefore(filters, joins, 0) == SetOf(filters)
    ensures AppliedBefore(filters, joins, |joins|) == SetOf(filters) + SetOf(joins)
  {
    assert joins[..|joins|] == joins;
  }

  lemma OneMoreFits(q: Query, filters: seq<Pred>, joins: seq<Pred>, i: nat)
    requires q.Valid() && AllJoins(q, joins) && i < |joins|
    ensures Misfit(q, filters, joins, i) ==> !NoMisfit(q, filters, joins)
    ensures !Misfit(q, filters, joins, i) && NoMisfitBefore(q, filters, joins, i) ==>
              NoMisfitBefore(q, filters, joins, i + 1)
  {
    hide Misfit;
  }

  /** A query from start to finish. Whatever the warehouses hold from earlier queries and in
      whatever order the joins come, as long as every self-join finds room, each checksum is the one
      that nested loops over all relations would give. */
  method ExecuteQuery(q: Query, w: Warehouses, filters: seq<Pred>, joins: seq<Pred>, sums: seq<ColRel>)
    returns (ok: bool, checksums: seq<Word>)
    requires q.Valid() && w.Valid(q.db) && AllFilters(q, filters) && AllJoins(q, joins)
    requires forall c :: c in sums ==> q.HasCol(c)
    requires ConnectedQuery(q, SetOf(filters) + SetOf(joins))
    modifies w
    ensures w.Valid(q.db)
    ensures ok <==> NoMisfit(q, filters, joins)
    ensures SafeOrder(joins) ==> ok
    ensures ok ==> |checksums| == |sums|
    ensures ok ==> forall s :: 0 <= s < |sums| ==>
              checksums[s] == Checksum(q, SetOf(filters) + SetOf(joins), sums[s])
  {
    hide Inv, HeadInter.Valid, HeadInter.Contents, Warehouses.Valid, ConnectedQuery, NoMisfit, SafeOrder, Checksum;
    if SafeOrder(joins) {
      SafeOrderFits(q, filters, joins);
    }
    var hq := new HeadInter();
    RunFilters(q, filters, hq);
    ok := RunJoins(q, w, joins, hq, filters);
    checksums := [];
    if ok {
      checksums := PerformChecksums(q, SetOf(filters) + SetOf(joins), sums, hq);
    }
  }

  /** One query of a batch. */
  datatype Request = Request(q: Query, filters: seq<Pred>, joins: seq<Pred>, sums: seq<ColRel>) {

    /** Well-typed and connected. */
    ghost predicate Ok(db: Database) {
      && q.db == db && q.Valid() && AllFilters(q, filters) && AllJoins(q, joins)
      && (forall c :: c in sums ==> q.HasCol(c))
      && ConnectedQuery(q, SetOf(filters) + SetOf(joins))
    }

    /** No self-join overruns. */
    ghost predicate Fits(db: Database)
      requires Ok(db)
    {
      NoMisfit(q, filters, joins)
    }

    /** The checksums of the nested loops. */
    ghost predicate AnsweredBy(db: Database, checksums: seq<Word>)
      requires Ok(db)
    {
      && |checksums| == |sums|
      && forall s :: 0 <= s < |sums| ==> checksums[s] == Checksum(q, SetOf(filters) + SetOf(joins), sums[s])
    }
  }

  /** A query in a safe order fits. */
  lemma SafeRequestFits(db: Database, request: Request)
    requires request.Ok(db) && SafeOrder(request.joins)
    ensures request.Fits(db)
  {
    SafeOrderFits(request.q, request.filters, request.joins);
  }

  /** Queries one after the other on the same warehouses, up to the first that overruns: what earlier
      ones left behind never changes an answer. */
  method ExecuteBatch(db: Database, requests: seq<Request>) returns (answers: seq<seq<Word>>)
    requires forall i :: 0 <= i < |requests| ==> requests[i].Ok(db)
    ensures |answers| <= |requests|
    ensures |answers| < |requests| ==> !requests[|answers|].Fits(db)
    ensures forall i :: 0 <= i < |answers| ==> requests[i].Fits(db) && requests[i].AnsweredBy(db, answers[i])
  {
    var w := new Warehouses(db);
    hide *;
    answers := [];
    for i := 0 to |requests|
      invariant fresh(w) && w.Valid(db)
      invariant |answers| == i
      invariant forall j :: 0 <= j < i ==> requests[j].Fits(db) && requests[j].AnsweredBy(db, answers[j])
    {
      var ok, checksums := ExecuteRequest(db, requests[i], w);
      if !ok {
        return;
      }
      answers := answers + [checksums];
    }
  }

  method ExecuteRequest(db: Database, request: Request, w: Warehouses) returns (ok: bool, checksums: seq<Word>)
    requires request.Ok(db) && w.Valid(db)
    modifies w
    ensures w.Valid(db) && (ok <==> request.Fits(db))
    ensures ok ==> request.AnsweredBy(db, checksums)
  {
    hide Warehouses.Valid, Checksum, ConnectedQuery, NoMisfit;
    ok, checksums := ExecuteQuery(request.q, w, request.filters, request.joins, request.sums);
  }
}

/** For any predicates there is a list of intermediates that keeps the invariant: a run can always
    be followed further, as far as room in memory allows. */
module States {
  import opened Bags
  import opened InterList
  import opened QuerySpec
  import opened QueryState
  import opened QueryRun

  /** Row-id tuples as an intermediate, its columns in the given order. */
  function InterOf(order: seq<nat>, rows: seq<Assignment>): Inter
    requires forall k, c :: 0 <= k < |rows| && 0 <= c < |order| ==> order[c] in rows[k]
  {
    Inter(order, |rows|, seq(|order|, c requires 0 <= c < |order| =>
                               seq(|rows|, k requires 0 <= k < |rows| => rows[k][order[c]])))
  }

  function Rels(order: seq<nat>): set<nat> {
    set r | r in order
  }

  lemma InterOfRows(order: seq<nat>, rows: seq<Assignment>)
    requires NoDuplicates(order) && forall k :: 0 <= k < |rows| ==> rows[k].Keys == Rels(order)
    ensures forall k, c :: 0 <= k < |rows| && 0 <= c < |order| ==> order[c] in rows[k]
    ensures InterOf(order, rows).Valid() && InterOf(order, rows).Rows() == rows
    ensures RelSet(InterOf(order, rows)) == Rels(order)
  {
    hide NoDuplicates, InterOf, Inter.Valid, Inter.Row;
    AllCells(order, rows);
    InterOfValid(order, rows);
    var data := InterOf(order, rows);
    forall k: nat | k < |rows|
      ensures data.Row(k) == rows[k]
    {
      InterOfRow(order, rows, k);
    }
  }

  lemma AllCells(order: seq<nat>, rows: seq<Assignment>)
    requires forall k :: 0 <= k < |rows| ==> rows[k].Keys == Rels(order)
    ensures forall k, c :: 0 <= k < |rows| && 0 <= c < |order| ==> order[c] in rows[k]
  {
    forall k, c | 0 <= k < |rows| && 0 <= c < |order|
      ensures order[c] in rows[k]
    {
      assert order[c] in Rels(order);
    }
  }

  lemma InterOfValid(order: seq<nat>, rows: seq<Assignment>)
    requires NoDuplicates(order)
    requires forall k, c :: 0 <= k < |rows| && 0 <= c < |order| ==> order[c] in rows[k]
    ensures InterOf(order, rows).Valid() && InterOf(order, rows).numbOfRows == |rows|
    ensures InterOf(order, rows).joinedRels == order
  {
    hide NoDuplicates;
  }

  lemma InterOfRow(order: seq<nat>, rows: seq<Assignment>, k: nat)
    requires forall k, c :: 0 <= k < |rows| && 0 <= c < |order| ==> order[c] in rows[k]
    requires InterOf(order, rows).Valid() && k < |rows| && rows[k].Keys == Rels(order)
    ensures InterOf(order, rows).Row(k) == rows[k]
  {
    hide NoDuplicates, Inter.Valid;
    var data := InterOf(order, rows);
    forall r | r in order
      ensures data.Row(k)[r] == rows[k][r]
    {
      assert data.Column(r) == data.rowIds[IndexOf(order, r)];
    }
    assert data.Row(k).Keys == Rels(order);
  }

  /** All row-id tuples of the relations listed. */
  function AllOver(q: Query, order: seq<nat>): seq<Assignment>
    requires q.Valid() && forall c :: 0 <= c < |order| ==> order[c] < |q.rels|
  {
    if order == [] then [map[]]
    else
      var last := |order| - 1;
      ExtendAll(AllOver(q, order[..last]), order[last], q.Rows(order[last]))
  }

  lemma {:induction false} AllOverEnumerates(q: Query, order: seq<nat>)
    requires q.Valid() && NoDuplicates(order) && forall c :: 0 <= c < |order| ==> order[c] < |q.rels|
    ensures Enumerates(q, Rels(order), AllOver(q, order))
  {
    hide Enumerates, Query.Valid;
    if order == [] {
      NoTuples(q);
      assert Rels(order) == {};
    } else {
      var last := |order| - 1;
      AllOverEnumerates(q, order[..last]);
      EnumeratesStep(q, Rels(order[..last]), order[last], AllOver(q, order[..last]));
      assert order == order[..last] + [order[last]];
      assert Rels(order) == Rels(order[..last]) + {order[last]};
    }
  }

  /** The predicates about relations of `on` alone. */
  function Within(applied: set<Pred>, on: set<nat>): set<Pred> {
    set p | p in applied && p.Rels() <= on
  }

  /** The intermediate that holds exactly what it should, over the relations listed. */
  lemma ExactOver(q: Query, applied: set<Pred>, order: seq<nat>) returns (data: Inter)
    requires q.Valid() && AllIn(q, applied) && NoDuplicates(order)
    requires forall c :: 0 <= c < |order| ==> order[c] < |q.rels|
    ensures Exact(q, applied, data) && data.joinedRels == order && RelSet(data) == Rels(order)
  {
    var on, ms := Rels(order), AllOver(q, order);
    AllOverEnumerates(q, order);
    hide AllOver, Query.Admits, Query.InRange;
    var rows := Answers(q, Within(applied, on), ms);
    AnswersMembers(q, Within(applied, on), ms);
    hide Answers;
    forall k | 0 <= k < |rows|
      ensures rows[k].Keys == on
    {
      assert rows[k] in rows;
    }
    InterOfRows(order, rows);
    data := InterOf(order, rows);
    hide InterOf;
    forall m: Assignment
      ensures m in rows <==> q.Satisfies(applied, on, m)
    {
      assert forall p :: p in applied && p.Rels() <= on <==> p in Within(applied, on);
    }
  }

  /** The order of two lists of relations put one after the other. */
  lemma Together(a: seq<nat>, b: seq<nat>)
    requires NoDuplicates(a) && NoDuplicates(b) && Rels(a) !! Rels(b)
    ensures NoDuplicates(a + b) && Rels(a + b) == Rels(a) + Rels(b)
  {
    assert forall i :: 0 <= i < |a| ==> a[i] in Rels(a);
    assert forall j :: 0 <= j < |b| ==> b[j] in Rels(b);
  }

  /** What is known about the columns of an intermediate. */
  lemma NodeOrder(q: Query, applied: set<Pred>, inters: seq<Inter>, i: nat)
    requires q.Valid() && Inv(q, applied, inters) && i < |inters|
    ensures NoDuplicates(inters[i].joinedRels) && Rels(inters[i].joinedRels) == RelSet(inters[i])
    ensures forall c :: 0 <= c < |inters[i].joinedRels| ==> inters[i].joinedRels[c] < |q.rels|
  {
    assert Known(q, inters[i]);
    assert Exact(q, applied, inters[i]);
    forall c | 0 <= c < |inters[i].joinedRels|
      ensures inters[i].joinedRels[c] in RelSet(inters[i])
    {
    }
  }

  /** The columns of the intermediate of a relation, or the relation alone when it is in none. */
  ghost predicate IsSide(q: Query, inters: seq<Inter>, rel: nat, order: seq<nat>, at: int) {
    && NoDuplicates(order) && rel in Rels(order) && (forall c :: 0 <= c < |order| ==> order[c] < |q.rels|)
    && -1 <= at < |inters|
    && (at == -1 ==> IsNew(inters, rel) && Rels(order) == {rel})
    && (at >= 0 ==> Rels(order) == RelSet(inters[at]))
  }

  lemma SideOrder(q: Query, applied: set<Pred>, inters: seq<Inter>, rel: nat) returns (order: seq<nat>, at: int)
    requires q.Valid() && Inv(q, applied, inters) && rel < |q.rels|
    ensures IsSide(q, inters, rel, order, at)
  {
    hide Inv;
    if IsNew(inters, rel) {
      order, at := [rel], -1;
    } else {
      at :| 0 <= at < |inters| && rel in RelSet(inters[at]);
      order := inters[at].joinedRels;
      NodeOrder(q, applied, inters, at);
    }
  }

  /** One more predicate can always be applied. */
  lemma NextState(q: Query, applied: set<Pred>, inters: seq<Inter>, p: Pred) returns (after: seq<Inter>)
    requires q.Valid() && Inv(q, applied, inters) && q.HasPred(p)
    ensures Inv(q, applied + {p}, after)
  {
    hide *;
    var r1, r2 := TwoRels(q, p);
    var order1, at1 := SideOrder(q, applied, inters, r1);
    var order2, at2 := SideOrder(q, applied, inters, r2);
    if r2 in Rels(order1) {
      after := NextWithin(q, applied, inters, p, r1, r2, order1, at1);
    } else {
      SidesDisjoint(q, applied, inters, r1, order1, at1, r2, order2, at2);
      Together(order1, order2);
      if at2 == -1 {
        after := NextExtended(q, applied, inters, p, r1, order1, at1, r2, order2, order1 + order2);
      } else if at1 == -1 {
        after := NextExtended(q, applied, inters, p, r2, order2, at2, r1, order1, order1 + order2);
      } else {
        after := NextMerged(q, applied, inters, p, r1, order1, at1, r2, order2, at2);
      }
    }
  }

  /** All relations of the predicate on one side. */
  lemma NextWithin(q: Query, applied: set<Pred>, inters: seq<Inter>, p: Pred, r1: nat, r2: nat,
                   order: seq<nat>, at: int) returns (after: seq<Inter>)
    requires q.Valid() && Inv(q, applied, inters) && q.HasPred(p) && p.Rels() == {r1, r2}
    requires IsSide(q, inters, r1, order, at) && r2 in Rels(order)
    ensures Inv(q, applied + {p}, after)
  {
    hide Inv, Query.Valid, Query.HasPred, Pred.Rels, NoDuplicates, RelSet;
    after := GrowState(q, applied, inters, p, at, order, order);
  }

  /** A new relation joins a side. */
  lemma NextExtended(q: Query, applied: set<Pred>, inters: seq<Inter>, p: Pred, r: nat, base: seq<nat>, at: int,
                     r': nat, added: seq<nat>, order: seq<nat>) returns (after: seq<Inter>)
    requires q.Valid() && Inv(q, applied, inters) && q.HasPred(p) && p.Rels() == {r, r'}
    requires IsSide(q, inters, r, base, at) && IsSide(q, inters, r', added, -1)
    requires NoDuplicates(order) && Rels(order) == Rels(base) + Rels(added)
    ensures Inv(q, applied + {p}, after)
  {
    hide Inv, Query.Valid, Query.HasPred, Pred.Rels, NoDuplicates, RelSet;
    after := GrowState(q, applied, inters, p, at, base, order);
  }

  /** Two nodes made one. */
  lemma NextMerged(q: Query, applied: set<Pred>, inters: seq<Inter>, p: Pred, r1: nat, order1: seq<nat>, at1: int,
                   r2: nat, order2: seq<nat>, at2: int) returns (after: seq<Inter>)
    requires q.Valid() && Inv(q, applied, inters) && q.HasPred(p) && p.Rels() == {r1, r2}
    requires IsSide(q, inters, r1, order1, at1) && IsSide(q, inters, r2, order2, at2)
    requires at1 != -1 && at2 != -1 && at1 != at2
    requires NoDuplicates(order1 + order2) && Rels(order1 + order2) == Rels(order1) + Rels(order2)
    ensures Inv(q, applied + {p}, after)
  {
    InvTyped(q, applied, inters);
    hide Inv, Exact, Query.Valid, Query.HasPred, RelSet, NoDuplicates, Pred.Rels;
    var data := ExactOver(q, applied + {p}, order1 + order2);
    MergeInv(q, applied, inters, at1, at2, p, data);
    after := Without(inters[at1 := data], at2);
  }

  /** The relation or the two relations of a predicate. */
  lemma TwoRels(q: Query, p: Pred) returns (r1: nat, r2: nat)
    requires q.Valid() && q.HasPred(p)
    ensures p.Rels() == {r1, r2} && r1 < |q.rels| && r2 < |q.rels|
  {
    r1, r2 := if p.Filter? then p.participant.rel else p.participant1.rel,
              if p.Filter? then p.participant.rel else p.participant2.rel;
  }

  lemma InvTyped(q: Query, applied: set<Pred>, inters: seq<Inter>)
    requires q.Valid() && Inv(q, applied, inters)
    ensures AllIn(q, applied)
  {
  }

  /** Different sides have no relation in common. */
  lemma SidesDisjoint(q: Query, applied: set<Pred>, inters: seq<Inter>, r1: nat, order1: seq<nat>, at1: int,
                      r2: nat, order2: seq<nat>, at2: int)
    requires q.Valid() && Inv(q, applied, inters)
    requires IsSide(q, inters, r1, order1, at1) && IsSide(q, inters, r2, order2, at2) && r2 !in Rels(order1)
    ensures NoDuplicates(order1) && NoDuplicates(order2) && Rels(order1) !! Rels(order2)
    ensures -1 <= at1 && -1 <= at2 && (at1 >= 0 ==> at1 != at2)
  {
    hide Exact, NoDuplicates, RelSet;
  }

  /** One node more, or one node replaced by one with the relations of the predicate besides. */
  lemma GrowState(q: Query, applied: set<Pred>, inters: seq<Inter>, p: Pred, at: int, base: seq<nat>, order: seq<nat>)
    returns (after: seq<Inter>)
    requires q.Valid() && Inv(q, applied, inters) && q.HasPred(p) && -1 <= at < |inters|
    requires NoDuplicates(order) && Rels(order) == Rels(base) + p.Rels()
    requires forall r :: r in Rels(order) ==> r < |q.rels|
    requires at == -1 ==> Rels(order) == p.Rels() && forall r :: r in p.Rels() ==> IsNew(inters, r)
    requires at >= 0 ==> Rels(base) == RelSet(inters[at]) && !(p.Rels() !! Rels(base))
    requires at >= 0 ==> forall r :: r in p.Rels() ==> r in Rels(base) || IsNew(inters, r)
    ensures Inv(q, applied + {p}, after)
  {
    InvTyped(q, applied, inters);
    hide Inv, Exact, Pred.Rels;
    forall c | 0 <= c < |order|
      ensures order[c] < |q.rels|
    {
      assert order[c] in Rels(order);
    }
    var data := ExactOver(q, applied + {p}, order);
    if at == -1 {
      AppendInv(q, applied, inters, p, data);
      after := inters + [data];
    } else {
      ReplaceInv(q, applied, inters, at, p, data);
      after := inters[at := data];
    }
  }

  /** Any predicates can be applied one after the other. */
  lemma {:induction false} StateExists(q: Query, preds: seq<Pred>) returns (inters: seq<Inter>)
    requires q.Valid() && forall i :: 0 <= i < |preds| ==> q.HasPred(preds[i])
    ensures Inv(q, SetOf(preds), inters)
  {
    if preds == [] {
      inters := [];
    } else {
      hide *;
      var last := |preds| - 1;
      var before := StateExists(q, preds[..last]);
      SetOfLast(preds);
      inters := NextState(q, SetOf(preds[..last]), before, preds[last]);
    }
  }

  lemma SetOfLast(preds: seq<Pred>)
    requires preds != []
    ensures SetOf(preds) == SetOf(preds[..|preds| - 1]) + {preds[|preds| - 1]}
  {
    assert preds == preds[..|preds| - 1] + [preds[|preds| - 1]];
  }
}

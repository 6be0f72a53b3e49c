/** One predicate of a query at a time, applied to the list of intermediates. */
module JointPerformer {
  import opened Bags
  import opened JoinSpec
  import opened ResultLists
  import opened RadixJoin
  import opened InterList
  import opened QuerySpec
  import opened QueryState

  /* ----- rows that survive a predicate ----- */

  /** The positions below `n` of the rows that the predicate admits, in order. */
  ghost function Surviving(q: Query, rows: seq<Assignment>, p: Pred, n: nat): (at: seq<nat>)
    requires q.Valid() && q.HasPred(p) && n <= |rows|
    ensures |at| <= n
    ensures forall k :: 0 <= k < |at| ==> at[k] < n
  {
    if n == 0 then []
    else Surviving(q, rows, p, n - 1) + if q.Admits(p, rows[n - 1]) then [n - 1] else []
  }

  lemma {:induction false} SurvivingExact(q: Query, rows: seq<Assignment>, p: Pred, n: nat)
    requires q.Valid() && q.HasPred(p) && n <= |rows|
    ensures NoDuplicates(Surviving(q, rows, p, n))
    ensures forall k :: k in Surviving(q, rows, p, n) <==> 0 <= k < n && q.Admits(p, rows[k])
  {
    hide Query.Admits;
    if n > 0 {
      SurvivingExact(q, rows, p, n - 1);
    }
  }

  /** A filter's or self-join's test on a row of the base relation. */
  predicate TestBase(q: Query, p: Pred, rel: nat, i: nat)
    requires q.Valid() && q.HasPred(p) && p.Rels() == {rel} && i < q.Rows(rel)
  {
    match p
    case Filter(c, op, value) => ApplyFilter(q.Col(c)[i], op, value)
    case Join(c1, c2) => q.Col(c1)[i] == q.Col(c2)[i]
  }

  /** Row ids in the columns of an intermediate exist in the base relations. */
  ghost predicate RowIdsExist(q: Query, inter: Inter)
    requires q.Valid()
  {
    && inter.Valid() && Known(q, inter)
    && (forall r: nat, k: nat :: r in inter.joinedRels && k < inter.numbOfRows ==> RowIdOk(q, inter, r, k))
  }

  ghost predicate RowIdOk(q: Query, inter: Inter, r: nat, k: nat)
    requires q.Valid() && inter.Valid() && r in inter.joinedRels && k < inter.numbOfRows
  {
    r < |q.rels| && inter.Column(r)[k] < q.Rows(r)
  }

  /** The test of a predicate about relations of one intermediate on its row `i`. */
  predicate TestNode(q: Query, p: Pred, inter: Inter, i: nat)
    requires q.Valid() && q.HasPred(p) && p.Rels() <= RelSet(inter) && RowIdsExist(q, inter) && i < inter.numbOfRows
  {
    assert forall r :: r in p.Rels() ==> RowIdOk(q, inter, r, i);
    match p
    case Filter(c, op, value) => ApplyFilter(q.Col(c)[inter.Column(c.rel)[i]], op, value)
    case Join(c1, c2) => q.Col(c1)[inter.Column(c1.rel)[i]] == q.Col(c2)[inter.Column(c2.rel)[i]]
  }

  lemma RowIdExists(q: Query, applied: set<Pred>, inter: Inter, r: nat, k: nat)
    requires q.Valid() && AllIn(q, applied) && Exact(q, applied, inter)
    requires r in inter.joinedRels && k < inter.numbOfRows
    ensures RowIdOk(q, inter, r, k)
  {
    var m := inter.Row(k);
    assert inter.Rows()[k] == m && m in inter.Rows();
    assert q.Satisfies(applied, RelSet(inter), m);
    assert r in m && m[r] == inter.Column(r)[k];
  }

  lemma ExactRowIds(q: Query, applied: set<Pred>, inter: Inter)
    requires q.Valid() && AllIn(q, applied) && Exact(q, applied, inter) && Known(q, inter)
    ensures RowIdsExist(q, inter)
  {
    forall r: nat, k: nat | r in inter.joinedRels && k < inter.numbOfRows
      ensures RowIdOk(q, inter, r, k)
    {
      RowIdExists(q, applied, inter, r, k);
    }
  }

  lemma TestBaseAdmits(q: Query, p: Pred, rel: nat, i: nat)
    requires q.Valid() && q.HasPred(p) && p.Rels() == {rel} && i < q.Rows(rel)
    ensures TestBase(q, p, rel, i) <==> q.Admits(p, Untouched(q, rel)[i])
  {
    if p.Join? {
      assert p.participant1.rel in p.Rels() && p.participant2.rel in p.Rels();
    }
  }

  lemma TestNodeAdmits(q: Query, p: Pred, inter: Inter, i: nat)
    requires q.Valid() && q.HasPred(p) && p.Rels() <= RelSet(inter) && RowIdsExist(q, inter) && i < inter.numbOfRows
    ensures TestNode(q, p, inter, i) <==> q.Admits(p, inter.Rows()[i])
  {
    var m := inter.Row(i);
    assert m.Keys == RelSet(inter);
    forall r | r in m
      ensures r < |q.rels| && m[r] < q.Rows(r)
    {
      assert RowIdOk(q, inter, r, i);
    }
  }

  /** The survivors among a base relation's rows; there is room for all of them. */
  method SurvivingBase(q: Query, p: Pred, rel: nat) returns (at: seq<nat>)
    requires q.Valid() && q.HasPred(p) && p.Rels() == {rel}
    ensures at == Surviving(q, Untouched(q, rel), p, |Untouched(q, rel)|)
  {
    hide Query.Admits, TestBase, Query.Valid, Query.HasPred, Pred.Rels, Surviving, Untouched;
    RelExists(q, p, rel);
    AllUntouched(q, rel);
    var rows, cur := q.Rows(rel), 0;
    var temp := new nat[rows];
    for i := 0 to rows
      invariant cur <= i && temp[..cur] == Surviving(q, Untouched(q, rel), p, i)
    {
      TestBaseAdmits(q, p, rel, i);
      SurvivingStep(q, Untouched(q, rel), p, i);
      if TestBase(q, p, rel, i) {
        temp[cur] := i;
        assert temp[..cur + 1] == temp[..cur] + [i];
        cur := cur + 1;
      }
    }
    at := temp[..cur];
  }

  lemma SurvivingStep(q: Query, rows: seq<Assignment>, p: Pred, i: nat)
    requires q.Valid() && q.HasPred(p) && i < |rows|
    ensures Surviving(q, rows, p, 0) == []
    ensures Surviving(q, rows, p, i + 1) == Surviving(q, rows, p, i) + if q.Admits(p, rows[i]) then [i] else []
  {
  }

  lemma AllUntouched(q: Query, rel: nat)
    requires q.Valid() && rel < |q.rels|
    ensures |Untouched(q, rel)| == q.Rows(rel)
    ensures forall i :: 0 <= i < q.Rows(rel) ==> Untouched(q, rel)[i] == map[rel := i]
  {
  }

  /** The survivors among an intermediate's rows, collected in `capacity` places. When there are
      more survivors than places the code writes past the end: `ok` is false. */
  method SurvivingNode(q: Query, p: Pred, inter: Inter, capacity: nat, ghost rows: seq<Assignment>)
    returns (ok: bool, at: seq<nat>)
    requires q.Valid() && q.HasPred(p) && p.Rels() <= RelSet(inter) && RowIdsExist(q, inter)
    requires |rows| == inter.numbOfRows
    requires forall i :: 0 <= i < |rows| ==> (TestNode(q, p, inter, i) <==> q.Admits(p, rows[i]))
    ensures ok <==> |Surviving(q, rows, p, |rows|)| <= capacity
    ensures ok ==> at == Surviving(q, rows, p, |rows|)
  {
    hide Query.Admits, TestNode, RowIdsExist, RelSet;
    var cur := 0;
    var temp := new nat[capacity];
    for i := 0 to inter.numbOfRows
      invariant cur <= capacity && temp[..cur] == Surviving(q, rows, p, i)
    {
      if TestNode(q, p, inter, i) {
        if cur == capacity {
          SurvivingMonotone(q, rows, p, i + 1, |rows|);
          return false, [];
        }
        temp[cur] := i;
        assert temp[..cur + 1] == temp[..cur] + [i];
        cur := cur + 1;
      }
    }
    ok, at := true, temp[..cur];
  }

  lemma {:induction false} SurvivingMonotone(q: Query, rows: seq<Assignment>, p: Pred, m: nat, n: nat)
    requires q.Valid() && q.HasPred(p) && m <= n <= |rows|
    ensures |Surviving(q, rows, p, m)| <= |Surviving(q, rows, p, n)|
    decreases n
  {
    hide Query.Admits;
    if m < n {
      SurvivingMonotone(q, rows, p, m, n - 1);
    }
  }

  /* ----- joining two sides ----- */

  /** The relation to join for one side: its column's values, with row positions as payloads. */
  ghost predicate ForgedFrom(q: Query, c: ColRel, rows: seq<Assignment>, tuples: seq<Tuple>)
    requires q.Valid() && q.HasCol(c)
  {
    && |tuples| == |rows|
    && (forall k :: 0 <= k < |rows| ==>
          && c.rel in rows[k] && rows[k][c.rel] < q.Rows(c.rel)
          && tuples[k] == Tuple(q.Col(c)[rows[k][c.rel]], k))
  }

  /** A side of a join: the base column when the relation is in no intermediate. */
  method ForgeRelationsheep(q: Query, c: ColRel, node: NodeInter?) returns (r: Relation)
    requires q.Valid() && q.HasCol(c)
    requires node != null ==> RowIdsExist(q, node.data) && c.rel in node.data.joinedRels
    ensures r.realRel == q.rels[c.rel] && r.realCol == c.col
    ensures node == null ==> r.tuples == Forge(q.Col(c)) && ForgedFrom(q, c, Untouched(q, c.rel), r.tuples)
    ensures node != null ==> ForgedFrom(q, c, node.data.Rows(), r.tuples)
  {
    if node == null {
      return Relation(Forge(q.Col(c)), q.rels[c.rel], c.col);
    }
    var data := node.data;
    var rowIds := data.Column(c.rel);
    var t := new Tuple[data.numbOfRows];
    for i := 0 to data.numbOfRows
      invariant forall k :: 0 <= k < i ==> rowIds[k] < q.Rows(c.rel) && t[k] == Tuple(q.Col(c)[rowIds[k]], k)
    {
      assert RowIdOk(q, data, c.rel, i);
      t[i] := Tuple(q.Col(c)[rowIds[i]], i);
    }
    r := Relation(t[..], q.rels[c.rel], c.col);
    forall k | 0 <= k < data.numbOfRows
      ensures data.Rows()[k][c.rel] == rowIds[k]
    {
      assert data.Rows()[k] == data.Row(k);
    }
  }

  /** The pairs of a radix join, as positions in the first and in the second side. */
  ghost function Positions(contents: seq<RowPair>, switched: nat): (pairs: seq<(nat, nat)>)
    ensures |pairs| == |contents|
    ensures forall k :: 0 <= k < |pairs| ==> pairs[k] == (First(contents[k], switched), Second(contents[k], switched))
  {
    seq(|contents|, k requires 0 <= k < |contents| => (First(contents[k], switched), Second(contents[k], switched)))
  }

  /** The predicate compares these two columns, in either order. */
  predicate Compares(p: Pred, c: ColRel, c': ColRel) {
    p == Join(c, c') || p == Join(c', c)
  }

  /** A join predicate admits two rows together exactly when their forged keys are equal. */
  lemma KeysDecide(q: Query, p: Pred, c: ColRel, c': ColRel, on: set<nat>, on': set<nat>,
                   a: seq<Assignment>, b: seq<Assignment>, x: seq<Tuple>, y: seq<Tuple>, i: nat, j: nat)
    requires q.Valid() && q.HasCol(c) && q.HasCol(c') && Compares(p, c, c') && on !! on'
    requires ForgedFrom(q, c, a, x) && ForgedFrom(q, c', b, y) && i < |a| && j < |b|
    requires a[i].Keys == on && b[j].Keys == on' && q.InRange(a[i]) && q.InRange(b[j])
    ensures q.Admits(p, a[i] + b[j]) <==> x[i].key == y[j].key
  {
    var m := a[i] + b[j];
    assert c.rel in on && c'.rel in on';
    assert m[c.rel] == a[i][c.rel] && m[c'.rel] == b[j][c'.rel];
  }

  /** The pair that stands for row `i` of the first and row `j` of the second side. */
  function PairOf(i: nat, j: nat, switched: nat): RowPair {
    if switched == 0 then RowPair(i, j) else RowPair(j, i)
  }

  /** The pairs of a radix join of relations whose payloads are positions. */
  lemma JoinMembers(x: seq<Tuple>, y: seq<Tuple>, contents: seq<RowPair>, switched: nat)
    requires forall i :: 0 <= i < |x| ==> x[i].payload == i
    requires forall j :: 0 <= j < |y| ==> y[j].payload == j
    requires multiset(contents) == multiset(if switched == 0 then NestedLoop(x, y) else NestedLoop(y, x))
    ensures NoDuplicates(contents)
    ensures forall i: nat, j: nat :: PairOf(i, j, switched) in contents <==>
              i < |x| && j < |y| && x[i].key == y[j].key
  {
    hide NestedLoop, NoDuplicates;
    if switched == 0 {
      RowPairs(x, y, contents);
    } else {
      RowPairs(y, x, contents);
    }
  }

  lemma RowPairs(r: seq<Tuple>, s: seq<Tuple>, contents: seq<RowPair>)
    requires forall i :: 0 <= i < |r| ==> r[i].payload == i
    requires forall j :: 0 <= j < |s| ==> s[j].payload == j
    requires multiset(contents) == multiset(NestedLoop(r, s))
    ensures NoDuplicates(contents)
    ensures forall i: nat, j: nat :: RowPair(i, j) in contents <==> i < |r| && j < |s| && r[i].key == s[j].key
  {
    hide *;
    NestedLoopMember(r, s, 0);
    SameBagDistinct(contents, NestedLoop(r, s));
    forall i: nat, j: nat
      ensures RowPair(i, j) in contents <==> i < |r| && j < |s| && r[i].key == s[j].key
    {
      assert RowPair(i, j) in contents <==> RowPair(i, j) in NestedLoop(r, s);
    }
  }

  /** The radix join of two forged sides yields exactly the pairs of rows that the predicate
      admits, each once, whichever side was indexed. */
  lemma JoinMatches(q: Query, preds: set<Pred>, p: Pred, c: ColRel, c': ColRel, on: set<nat>, on': set<nat>,
                    a: seq<Assignment>, b: seq<Assignment>, x: seq<Tuple>, y: seq<Tuple>,
                    contents: seq<RowPair>, switched: nat)
    requires q.Valid() && AllIn(q, preds) && q.HasCol(c) && q.HasCol(c') && Compares(p, c, c') && on !! on'
    requires ExactRows(q, preds, on, a) && ExactRows(q, preds, on', b)
    requires ForgedFrom(q, c, a, x) && ForgedFrom(q, c', b, y)
    requires multiset(contents) == multiset(if switched == 0 then NestedLoop(x, y) else NestedLoop(y, x))
    ensures Matched(q, a, b, p, Positions(contents, switched))
    ensures forall k :: 0 <= k < |contents| ==>
              First(contents[k], switched) < |a| && Second(contents[k], switched) < |b|
  {
    JoinMembers(x, y, contents, switched);
    PositionsDistinct(contents, switched);
    assert |x| == |a| && |y| == |b|;
    hide NestedLoop, NoDuplicates, Query.Admits, Query.Satisfies;
    forall k | 0 <= k < |contents|
      ensures First(contents[k], switched) < |a| && Second(contents[k], switched) < |b|
    {
      assert PairOf(First(contents[k], switched), Second(contents[k], switched), switched) == contents[k];
    }
    var pairs := Positions(contents, switched);
    forall i: nat, j: nat
      ensures (i, j) in pairs <==> i < |a| && j < |b| && q.Admits(p, a[i] + b[j])
    {
      InPositions(contents, switched, i, j);
      if i < |a| && j < |b| {
        SidesOfRow(q, preds, on, a, i);
        SidesOfRow(q, preds, on', b, j);
        KeysDecide(q, p, c, c', on, on', a, b, x, y, i, j);
      }
    }
  }

  lemma PositionsDistinct(contents: seq<RowPair>, switched: nat)
    requires NoDuplicates(contents)
    ensures NoDuplicates(Positions(contents, switched))
  {
  }

  lemma SidesOfRow(q: Query, preds: set<Pred>, on: set<nat>, a: seq<Assignment>, i: nat)
    requires q.Valid() && AllIn(q, preds) && ExactRows(q, preds, on, a) && i < |a|
    ensures a[i].Keys == on && q.InRange(a[i])
  {
    assert a[i] in a;
  }

  lemma InPositions(contents: seq<RowPair>, switched: nat, i: nat, j: nat)
    ensures (i, j) in Positions(contents, switched)
       <==> PairOf(i, j, switched) in contents
  {
    var pairs, p := Positions(contents, switched), PairOf(i, j, switched);
    if (i, j) in pairs {
      var k :| 0 <= k < |pairs| && pairs[k] == (i, j);
      assert contents[k] == p;
    }
    if p in contents {
      var k :| 0 <= k < |contents| && contents[k] == p;
      assert pairs[k] == (i, j);
    }
  }

  /* ----- the workers ----- */

  /** There is room for the survivors: the temporary array of a filter or a self-join has one
      place per row of the base relation, which the relation's intermediate may exceed. */
  ghost predicate TempFits(q: Query, p: Pred, rel: nat, inters: seq<Inter>)
    requires q.Valid() && q.HasPred(p) && rel < |q.rels|
  {
    forall i :: 0 <= i < |inters| && inters[i].Valid() && rel in inters[i].joinedRels ==>
      |Surviving(q, inters[i].Rows(), p, inters[i].numbOfRows)| <= q.Rows(rel)
  }

  /** New nodes only: a list never takes over another list's nodes. */
  twostate predicate OwnNodes(hq: HeadInter)
    reads hq
  {
    fresh(hq.Nodes() - old(hq.Nodes()))
  }

  /** What a narrowed intermediate looks like. */
  ghost predicate NarrowedTo(q: Query, applied: set<Pred>, p: Pred, inter: Inter, data: Inter)
    requires q.Valid() && AllIn(q, applied) && q.HasPred(p)
  {
    Exact(q, applied + {p}, data) && data.joinedRels == inter.joinedRels && data.numbOfRows <= inter.numbOfRows
  }

  /** The survivors of a predicate about relations of one intermediate. */
  method Narrow(q: Query, p: Pred, inter: Inter, capacity: nat, ghost applied: set<Pred>)
    returns (ok: bool, data: Inter)
    requires q.Valid() && q.HasPred(p) && AllIn(q, applied) && Exact(q, applied, inter) && Known(q, inter)
    requires p.Rels() <= RelSet(inter)
    ensures ok <==> |Surviving(q, inter.Rows(), p, inter.numbOfRows)| <= capacity
    ensures ok ==> NarrowedTo(q, applied, p, inter, data)
  {
    ghost var rows := inter.Rows();
    TestsAdmit(q, p, inter, applied);
    hide *;
    var at;
    ok, at := SurvivingNode(q, p, inter, capacity, rows);
    data := inter;
    if ok {
      data := SelectRows(inter, at);
      SelectedExact(q, p, inter, data, at, applied);
    }
  }

  lemma TestsAdmit(q: Query, p: Pred, inter: Inter, applied: set<Pred>)
    requires q.Valid() && q.HasPred(p) && AllIn(q, applied) && Exact(q, applied, inter) && Known(q, inter)
    requires p.Rels() <= RelSet(inter)
    ensures inter.Valid() && RowIdsExist(q, inter)
    ensures forall i :: 0 <= i < |inter.Rows()| ==> (TestNode(q, p, inter, i) <==> q.Admits(p, inter.Rows()[i]))
    ensures forall k :: 0 <= k < |Surviving(q, inter.Rows(), p, |inter.Rows()|)| ==>
              Surviving(q, inter.Rows(), p, |inter.Rows()|)[k] < inter.numbOfRows
  {
    ExactRowIds(q, applied, inter);
    forall i | 0 <= i < |inter.Rows()|
      ensures TestNode(q, p, inter, i) <==> q.Admits(p, inter.Rows()[i])
    {
      TestNodeAdmits(q, p, inter, i);
    }
  }

  /** The rows at the survivors' positions are exact for one more predicate. */
  lemma SelectedExact(q: Query, p: Pred, inter: Inter, data: Inter, at: seq<nat>, applied: set<Pred>)
    requires q.Valid() && q.HasPred(p) && AllIn(q, applied) && Exact(q, applied, inter) && p.Rels() <= RelSet(inter)
    requires at == Surviving(q, inter.Rows(), p, |inter.Rows()|)
    requires data.Valid() && data.joinedRels == inter.joinedRels && data.numbOfRows == |at|
    requires forall k :: 0 <= k < |at| ==> at[k] < inter.numbOfRows && data.Row(k) == inter.Row(at[k])
    ensures NarrowedTo(q, applied, p, inter, data)
  {
    hide Query.Admits, Surviving, ExactRows, Inter.Row, Query.Valid, Query.HasPred, Inter.Valid, NoDuplicates;
    SurvivingExact(q, inter.Rows(), p, |inter.Rows()|);
    SelectExact(q, applied, RelSet(inter), inter.Rows(), p, at, data.Rows());
    assert RelSet(data) == RelSet(inter);
  }

  /** The data that takes the place of a narrowed node's. */
  method NarrowData(q: Query, p: Pred, inter: Inter, capacity: nat,
                    ghost inters: seq<Inter>, ghost at: nat, ghost applied: set<Pred>)
    returns (ok: bool, data: Inter)
    requires q.Valid() && q.HasPred(p) && Inv(q, applied, inters) && at < |inters| && inter == inters[at]
    requires p.Rels() <= RelSet(inter)
    ensures inter.Valid() && AllIn(q, applied)
    ensures ok <==> |Surviving(q, inter.Rows(), p, inter.numbOfRows)| <= capacity
    ensures ok ==> Inv(q, applied + {p}, inters[at := data]) && NarrowedTo(q, applied, p, inter, data)
  {
    NodeExact(q, applied, inters, at);
    hide *;
    ok, data := Narrow(q, p, inter, capacity, applied);
    if ok {
      NarrowedInv(q, applied, inters, at, p, data);
    }
  }

  lemma NodeExact(q: Query, applied: set<Pred>, inters: seq<Inter>, at: nat)
    requires q.Valid() && Inv(q, applied, inters) && at < |inters|
    ensures AllIn(q, applied) && Exact(q, applied, inters[at]) && Known(q, inters[at]) && inters[at].Valid()
  {
  }

  lemma NarrowedInv(q: Query, applied: set<Pred>, inters: seq<Inter>, at: nat, p: Pred, data: Inter)
    requires q.Valid() && q.HasPred(p) && Inv(q, applied, inters) && at < |inters| && p.Rels() <= RelSet(inters[at])
    requires AllIn(q, applied) && NarrowedTo(q, applied, p, inters[at], data)
    ensures Inv(q, applied + {p}, inters[at := data])
  {
    RelsNonEmpty(p);
    assert RelSet(data) == RelSet(inters[at]);
    assert Known(q, inters[at]);
    hide Exact;
    ReplaceInv(q, applied, inters, at, p, data);
  }

  lemma ExactValid(q: Query, applied: set<Pred>, inter: Inter)
    requires q.Valid() && AllIn(q, applied) && Exact(q, applied, inter)
    ensures inter.Valid()
  {
  }

  /** A filter: on the rows of the relation's intermediate, or on all its rows when it has none. */
  method WorkerF(q: Query, pred: Pred, hq: HeadInter, ghost applied: set<Pred>) returns (ok: bool)
    requires q.Valid() && pred.Filter? && q.HasPred(pred) && hq.Valid() && Inv(q, applied, hq.Contents())
    modifies hq, hq.Nodes()
    ensures hq.Valid() && OwnNodes(hq)
    ensures ok <==> TempFits(q, pred, pred.participant.rel, old(hq.Contents()))
    ensures ok ==> Inv(q, applied + {pred}, hq.Contents())
  {
    ok := ApplyToOne(q, pred, pred.participant.rel, hq, applied);
  }

  /** A filter or a self-join: a predicate about one relation. */
  method ApplyToOne(q: Query, p: Pred, rel: nat, hq: HeadInter, ghost applied: set<Pred>) returns (ok: bool)
    requires q.Valid() && q.HasPred(p) && p.Rels() == {rel} && hq.Valid() && Inv(q, applied, hq.Contents())
    modifies hq, hq.Nodes()
    ensures hq.Valid() && OwnNodes(hq)
    ensures rel < |q.rels| && (ok <==> TempFits(q, p, rel, old(hq.Contents())))
    ensures ok ==> Inv(q, applied + {p}, hq.Contents())
  {
    hide Inv, TempFits, HeadInter.Valid, HeadInter.Contents, Query.Valid, Query.HasPred, Pred.Rels, IsNew, RelSet,
      Surviving;
    RelExists(q, p, rel);
    var node, at := hq.FindNode(rel);
    if node != null {
      ok := NarrowRel(q, p, rel, hq, node, at, applied);
    } else {
      NotFound(hq, rel);
      NewFits(q, p, rel, hq.Contents());
      AddNode(q, p, rel, hq, applied);
      ok := true;
    }
  }

  lemma RelExists(q: Query, p: Pred, rel: nat)
    requires q.Valid() && q.HasPred(p) && rel in p.Rels()
    ensures rel < |q.rels|
  {
  }

  lemma NotFound(hq: HeadInter, rel: nat)
    requires forall i :: 0 <= i < |hq.spine| ==> rel !in hq.spine[i].data.joinedRels
    ensures IsNew(hq.Contents(), rel)
  {
  }

  /** A relation that is in an intermediate: the intermediate is narrowed, if there is room. */
  method NarrowRel(q: Query, p: Pred, rel: nat, hq: HeadInter, node: NodeInter, ghost at: nat, ghost applied: set<Pred>)
    returns (ok: bool)
    requires q.Valid() && q.HasPred(p) && p.Rels() == {rel} && hq.Valid() && Inv(q, applied, hq.Contents())
    requires at < |hq.spine| && node == hq.spine[at] && rel in node.data.joinedRels && rel < |q.rels|
    modifies hq, hq.Nodes()
    ensures hq.Valid() && hq.spine == old(hq.spine)
    ensures ok <==> TempFits(q, p, rel, old(hq.Contents()))
    ensures ok ==> Inv(q, applied + {p}, hq.Contents())
  {
    hide Inv, TempFits, HeadInter.Contents, HeadInter.Valid, Query.Valid, Query.HasPred, Pred.Rels;
    var data;
    ok, data := FittedData(q, p, rel, node.data, hq.Contents(), at, applied);
    if ok {
      hq.UpdateInter(node, data, at);
    }
  }

  /** The data of that narrowed intermediate. */
  method FittedData(q: Query, p: Pred, rel: nat, inter: Inter,
                    ghost inters: seq<Inter>, ghost at: nat, ghost applied: set<Pred>)
    returns (ok: bool, data: Inter)
    requires q.Valid() && q.HasPred(p) && p.Rels() == {rel} && rel < |q.rels| && Inv(q, applied, inters)
    requires at < |inters| && inter == inters[at] && rel in inter.joinedRels
    ensures ok <==> TempFits(q, p, rel, inters)
    ensures ok ==> Inv(q, applied + {p}, inters[at := data])
  {
    assert rel in RelSet(inter);
    NodeFits(q, applied, p, rel, inters, at);
    hide Exact, Surviving, ExactRows, Query.Admits, Inv, TempFits, RelSet;
    ok, data := NarrowData(q, p, inter, q.Rows(rel), inters, at, applied);
  }

  /** A relation that was in no intermediate gets one with its survivors. */
  method AddNode(q: Query, p: Pred, rel: nat, hq: HeadInter, ghost applied: set<Pred>)
    requires q.Valid() && q.HasPred(p) && p.Rels() == {rel} && rel < |q.rels|
    requires hq.Valid() && Inv(q, applied, hq.Contents()) && IsNew(hq.Contents(), rel)
    modifies hq, hq.Nodes()
    ensures hq.Valid() && OwnNodes(hq) && Inv(q, applied + {p}, hq.Contents())
  {
    hide Inv, HeadInter.Contents, HeadInter.Valid, Query.Valid, Query.HasPred, Pred.Rels, IsNew;
    var data := NewData(q, p, rel, hq.Contents(), applied);
    hq.PushInter(data);
  }

  /** The data of that new intermediate. */
  method NewData(q: Query, p: Pred, rel: nat, ghost inters: seq<Inter>, ghost applied: set<Pred>)
    returns (data: Inter)
    requires q.Valid() && q.HasPred(p) && p.Rels() == {rel} && rel < |q.rels|
    requires Inv(q, applied, inters) && IsNew(inters, rel)
    ensures Inv(q, applied + {p}, inters + [data])
  {
    data := NarrowBase(q, p, rel, inters, applied);
    hide Inv, Exact;
    AppendInv(q, applied, inters, p, data);
  }

  /** The survivors among all rows of a relation that is in no intermediate. */
  method NarrowBase(q: Query, p: Pred, rel: nat, ghost inters: seq<Inter>, ghost applied: set<Pred>)
    returns (data: Inter)
    requires q.Valid() && q.HasPred(p) && p.Rels() == {rel} && rel < |q.rels|
    requires Inv(q, applied, inters) && IsNew(inters, rel)
    ensures data.joinedRels == [rel] && RelSet(data) == {rel} && Exact(q, applied + {p}, data)
  {
    NewSide(q, applied, inters, rel);
    ghost var rows := Untouched(q, rel);
    hide Inv, Query.Admits, ExactRows;
    var at := SurvivingBase(q, p, rel);
    SurvivingExact(q, rows, p, |rows|);
    data := SingleInter(rel, at);
    forall k | 0 <= k < |at|
      ensures at[k] < |rows| && data.Rows()[k] == rows[at[k]]
    {
      assert data.Row(k) == map[rel := at[k]];
    }
    SelectExact(q, applied, {rel}, rows, p, at, data.Rows());
    assert RelSet(data) == {rel};
  }

  /** Relations are in at most one node, so only that node's survivors must fit. */
  lemma NodeFits(q: Query, applied: set<Pred>, p: Pred, rel: nat, inters: seq<Inter>, at: nat)
    requires q.Valid() && q.HasPred(p) && rel < |q.rels| && Inv(q, applied, inters)
    requires at < |inters| && rel in inters[at].joinedRels
    ensures inters[at].Valid() && Inv(q, applied, inters)
    ensures TempFits(q, p, rel, inters)
       <==> |Surviving(q, inters[at].Rows(), p, inters[at].numbOfRows)| <= q.Rows(rel)
  {
    hide Surviving;
    forall i | 0 <= i < |inters| && rel in inters[i].joinedRels
      ensures i == at
    {
      assert rel in RelSet(inters[i]) && rel in RelSet(inters[at]);
    }
  }

  lemma NewFits(q: Query, p: Pred, rel: nat, inters: seq<Inter>)
    requires q.Valid() && q.HasPred(p) && rel < |q.rels| && IsNew(inters, rel)
    ensures TempFits(q, p, rel, inters)
  {
    hide Surviving;
    forall i | 0 <= i < |inters|
      ensures rel !in inters[i].joinedRels
    {
      assert rel !in RelSet(inters[i]);
    }
  }

  /** What a radix join of two sides delivers: the admitted pairs of their rows. */
  ghost predicate Delivers(q: Query, p: Pred, a: seq<Assignment>, b: seq<Assignment>, res: HeadResult, switched: nat)
    requires q.Valid() && q.HasPred(p)
    reads res, res.Repr
  {
    && res.Valid() && res.buffTuple == null
    && Matched(q, a, b, p, Positions(res.Contents(), switched))
    && (forall k :: 0 <= k < |res.Contents()| ==>
          First(res.Contents()[k], switched) < |a| && Second(res.Contents()[k], switched) < |b|)
  }

  /** The rows of a side: the node's, or all of a relation that has none. */
  ghost function SideRows(q: Query, c: ColRel, node: NodeInter?): seq<Assignment>
    requires q.Valid() && q.HasCol(c)
    requires node != null ==> node.data.Valid()
    reads node
  {
    if node == null then Untouched(q, c.rel) else node.data.Rows()
  }

  /** The relation for a side; a side without a node is its whole base column. */
  method ForgeSide(q: Query, c: ColRel, node: NodeInter?) returns (r: Relation)
    requires q.Valid() && q.HasCol(c)
    requires node != null ==> RowIdsExist(q, node.data) && c.rel in node.data.joinedRels
    ensures node == null ==> r.IsBase(q.db)
    ensures ForgedFrom(q, c, SideRows(q, c, node), r.tuples)
  {
    hide ForgedFrom, RowIdOk;
    r := ForgeRelationsheep(q, c, node);
  }

  /** Forges both sides and joins them. `kind` tells the join which sides are base columns: both
      (0), the second (1), none (2). */
  method PerformRHJ(q: Query, p: Pred, w: Warehouses, c: ColRel, c': ColRel,
                    left: NodeInter?, right: NodeInter?, kind: nat,
                    ghost applied: set<Pred>, ghost on: set<nat>, ghost on': set<nat>,
                    ghost a: seq<Assignment>, ghost b: seq<Assignment>)
    returns (res: HeadResult, switched: nat)
    requires q.Valid() && q.HasPred(p) && q.HasCol(c) && q.HasCol(c') && Compares(p, c, c') && AllIn(q, applied)
    requires w.Valid(q.db) && on !! on'
    requires kind == if right != null then 2 else if left != null then 1 else 0
    requires left != null ==> RowIdsExist(q, left.data) && c.rel in left.data.joinedRels
    requires right != null ==> RowIdsExist(q, right.data) && c'.rel in right.data.joinedRels && left != null
    requires a == SideRows(q, c, left) && b == SideRows(q, c', right)
    requires ExactRows(q, applied, on, a) && ExactRows(q, applied, on', b)
    modifies w
    ensures w.Valid(q.db) && fresh(res.Repr) && res in res.Repr
    ensures Delivers(q, p, a, b, res, switched)
  {
    hide ForgedFrom, RowIdsExist, ExactRows, HeadResult.Valid, HeadResult.Contents, NestedLoop, Matched, Untouched,
      SideRows, Warehouses.Valid, Relation.IsBase, Query.Valid, Query.HasCol, Query.HasPred, AllIn;
    var relation1 := ForgeSide(q, c, left);
    var relation2 := ForgeSide(q, c', right);
    res, switched := RadixHashJoin(w, relation1, relation2, kind, q.db);
    JoinMatches(q, applied, p, c, c', on, on', a, b, relation1.tuples, relation2.tuples, res.Contents(), switched);
  }

  /** What joining two sides gives: an exact intermediate over the relations of both. */
  ghost predicate Joined(q: Query, applied: set<Pred>, p: Pred, on: set<nat>, on': set<nat>, data: Inter)
    requires q.Valid() && AllIn(q, applied) && q.HasPred(p)
  {
    Exact(q, applied + {p}, data) && RelSet(data) == on + on'
  }

  /** Two disjoint sides that a join predicate connects, ready to be joined. */
  ghost predicate Joinable(q: Query, applied: set<Pred>, p: Pred, c: ColRel, c': ColRel,
                           on: set<nat>, on': set<nat>, a: seq<Assignment>, b: seq<Assignment>)
    requires q.Valid() && AllIn(q, applied)
  {
    && q.HasCol(c) && q.HasCol(c') && Compares(p, c, c')
    && on !! on' && NoneCrosses(applied, on, on') && Between(p, on, on')
    && ExactRows(q, applied, on, a) && ExactRows(q, applied, on', b)
  }

  /** Two sides of a list of intermediates are joinable when their relations are not together. */
  lemma SidesJoinable(q: Query, applied: set<Pred>, inters: seq<Inter>, p: Pred, c: ColRel, c': ColRel,
                      on: set<nat>, a: seq<Assignment>, on': set<nat>, b: seq<Assignment>)
    requires q.Valid() && q.HasPred(p) && Inv(q, applied, inters) && q.HasCol(c) && q.HasCol(c') && Compares(p, c, c')
    requires SideOf(q, applied, inters, c.rel, on, a) && SideOf(q, applied, inters, c'.rel, on', b) && c'.rel !in on
    ensures Joinable(q, applied, p, c, c', on, on', a, b)
  {
    SidesApart(q, applied, inters, c.rel, c'.rel, on, a, on', b);
    SidesCrossFree(q, applied, inters, c.rel, c'.rel, on, a, on', b);
    hide Inv, ExactRows, NoneCrosses;
    assert c.rel in p.Rels() && c'.rel in p.Rels();
  }

  /** Neither relation is in an intermediate: the pairs become a new one. */
  method JoinNewNew(q: Query, p: Pred, w: Warehouses, c: ColRel, c': ColRel, ghost applied: set<Pred>)
    returns (data: Inter)
    requires q.Valid() && q.HasPred(p) && AllIn(q, applied) && w.Valid(q.db)
    requires q.HasCol(c) && q.HasCol(c')
    requires Joinable(q, applied, p, c, c', {c.rel}, {c'.rel}, Untouched(q, c.rel), Untouched(q, c'.rel))
    modifies w
    ensures w.Valid(q.db) && Joined(q, applied, p, {c.rel}, {c'.rel}, data)
  {
    ghost var a, b := Untouched(q, c.rel), Untouched(q, c'.rel);
    hide ExactRows, HeadResult.Valid, HeadResult.Contents, Matched, NoneCrosses, Between, Warehouses.Valid;
    var res, switched := PerformRHJ(q, p, w, c, c', null, null, 0, applied, {c.rel}, {c'.rel}, a, b);
    ghost var pairs := Positions(res.Contents(), switched);
    data := ResultInter(res, c.rel, c'.rel, switched, res.Contents());
    SideBySideNew(q, c.rel, c'.rel, data, pairs);
    MergeExact(q, applied, {c.rel}, {c'.rel}, a, b, p, pairs, data.Rows());
    assert RelSet(data) == {c.rel} + {c'.rel};
  }

  lemma SideBySideNew(q: Query, r: nat, r': nat, data: Inter, pairs: seq<(nat, nat)>)
    requires q.Valid() && r < |q.rels| && r' < |q.rels| && data.Valid() && data.numbOfRows == |pairs|
    requires forall k :: 0 <= k < |pairs| ==> pairs[k].0 < q.Rows(r) && pairs[k].1 < q.Rows(r')
    requires forall k :: 0 <= k < |pairs| ==> data.Row(k) == map[r := pairs[k].0, r' := pairs[k].1]
    ensures SideBySide(Untouched(q, r), Untouched(q, r'), pairs, data.Rows())
  {
    hide Query.Valid, Inter.Valid, Inter.Row;
    AllUntouched(q, r);
    AllUntouched(q, r');
    hide Untouched;
    forall k | 0 <= k < |pairs|
      ensures data.Rows()[k] == Untouched(q, r)[pairs[k].0] + Untouched(q, r')[pairs[k].1]
    {
      assert data.Rows()[k] == data.Row(k);
      TwoRows(q, r, r', pairs[k].0, pairs[k].1);
    }
  }

  lemma TwoRows(q: Query, r: nat, r': nat, i: nat, j: nat)
    requires q.Valid() && r < |q.rels| && r' < |q.rels| && i < q.Rows(r) && j < q.Rows(r')
    ensures Untouched(q, r)[i] + Untouched(q, r')[j] == map[r := i, r' := j]
  {
    hide Query.Valid;
  }

  /** One relation is in an intermediate, the other is new: the intermediate is extended. */
  method JoinNodeNew(q: Query, p: Pred, w: Warehouses, node: NodeInter, c: ColRel, c': ColRel, ghost applied: set<Pred>)
    returns (data: Inter)
    requires q.Valid() && q.HasPred(p) && AllIn(q, applied) && w.Valid(q.db)
    requires q.HasCol(c) && q.HasCol(c') && RowIdsExist(q, node.data) && c.rel in node.data.joinedRels
    requires Joinable(q, applied, p, c, c', RelSet(node.data), {c'.rel}, node.data.Rows(), Untouched(q, c'.rel))
    modifies w
    ensures w.Valid(q.db) && Joined(q, applied, p, RelSet(node.data), {c'.rel}, data)
  {
    hide ExactRows, Matched, NoneCrosses, Between, Warehouses.Valid, Untouched, Inter.Rows, Inter.Valid, Known, RelSet,
      Delivers, Query.Valid, Query.HasPred, Query.HasCol, AllIn, RowIdOk, Joined;
    ColExists(q, c');
    ghost var a, b := node.data.Rows(), Untouched(q, c'.rel);
    var res, switched := PerformRHJ(q, p, w, c, c', node, null, 1, applied, RelSet(node.data), {c'.rel}, a, b);
    data := ExtendedData(q, p, node.data, c, c', res, switched, applied);
  }

  lemma ColExists(q: Query, c: ColRel)
    requires q.Valid() && q.HasCol(c)
    ensures c.rel < |q.rels|
  {
  }

  /** What the pairs make of the intermediate and the new relation. */
  method ExtendedData(q: Query, p: Pred, inter: Inter, c: ColRel, c': ColRel, res: HeadResult, switched: nat,
                      ghost applied: set<Pred>) returns (data: Inter)
    requires q.Valid() && q.HasPred(p) && AllIn(q, applied) && inter.Valid() && q.HasCol(c')
    requires Joinable(q, applied, p, c, c', RelSet(inter), {c'.rel}, inter.Rows(), Untouched(q, c'.rel))
    requires Delivers(q, p, inter.Rows(), Untouched(q, c'.rel), res, switched)
    ensures Joined(q, applied, p, RelSet(inter), {c'.rel}, data)
  {
    hide ExactRows, HeadResult.Valid, HeadResult.Contents, Matched, NoneCrosses, Between, Untouched, Inter.Rows,
      Query.Valid, Query.HasPred, Query.HasCol, AllIn, NoDuplicates;
    ColExists(q, c');
    AllUntouched(q, c'.rel);
    ghost var on, a, b := RelSet(inter), inter.Rows(), Untouched(q, c'.rel);
    assert c'.rel !in inter.joinedRels;
    ghost var pairs := Positions(res.Contents(), switched);
    data := ExtendInter(inter, res, c'.rel, switched, res.Contents());
    SideBySideExtended(q, inter, c'.rel, data, pairs);
    MergeExact(q, applied, on, {c'.rel}, a, b, p, pairs, data.Rows());
    assert RelSet(data) == on + {c'.rel};
  }

  lemma SideBySideExtended(q: Query, inter: Inter, r: nat, data: Inter, pairs: seq<(nat, nat)>)
    requires q.Valid() && r < |q.rels| && inter.Valid() && data.Valid() && data.numbOfRows == |pairs|
    requires forall k :: 0 <= k < |pairs| ==> pairs[k].0 < inter.numbOfRows && pairs[k].1 < q.Rows(r)
    requires forall k :: 0 <= k < |pairs| ==> data.Row(k) == inter.Row(pairs[k].0)[r := pairs[k].1]
    ensures SideBySide(inter.Rows(), Untouched(q, r), pairs, data.Rows())
  {
    hide Inter.Row;
    forall k | 0 <= k < |pairs|
      ensures data.Rows()[k] == inter.Rows()[pairs[k].0] + Untouched(q, r)[pairs[k].1]
    {
      assert data.Rows()[k] == data.Row(k);
      var m := inter.Row(pairs[k].0);
      assert m[r := pairs[k].1] == m + map[r := pairs[k].1];
    }
  }

  /** The relations are in two intermediates: these are merged. */
  method JoinNodes(q: Query, p: Pred, w: Warehouses, node1: NodeInter, node2: NodeInter, c: ColRel, c': ColRel,
                   ghost applied: set<Pred>)
    returns (data: Inter)
    requires q.Valid() && q.HasPred(p) && AllIn(q, applied) && w.Valid(q.db) && q.HasCol(c) && q.HasCol(c')
    requires RowIdsExist(q, node1.data) && c.rel in node1.data.joinedRels
    requires RowIdsExist(q, node2.data) && c'.rel in node2.data.joinedRels
    requires Joinable(q, applied, p, c, c', RelSet(node1.data), RelSet(node2.data),
                      node1.data.Rows(), node2.data.Rows())
    modifies w
    ensures w.Valid(q.db) && Joined(q, applied, p, RelSet(node1.data), RelSet(node2.data), data)
  {
    ghost var inter1, inter2 := node1.data, node2.data;
    ghost var on, on', a, b := RelSet(inter1), RelSet(inter2), inter1.Rows(), inter2.Rows();
    forall r | r in inter1.joinedRels
      ensures r !in inter2.joinedRels
    {
      assert r in on && r !in on';
    }
    hide ExactRows, HeadResult.Valid, HeadResult.Contents, Matched, NoneCrosses, Between, Warehouses.Valid, RowIdOk;
    var res, switched := PerformRHJ(q, p, w, c, c', node1, node2, 2, applied, on, on', a, b);
    ghost var pairs := Positions(res.Contents(), switched);
    data := MergeInters(node1.data, node2.data, res, switched, res.Contents());
    SideBySideMerged(inter1, inter2, data, pairs);
    MergeExact(q, applied, on, on', a, b, p, pairs, data.Rows());
    assert RelSet(data) == on + on';
  }

  lemma SideBySideMerged(inter1: Inter, inter2: Inter, data: Inter, pairs: seq<(nat, nat)>)
    requires inter1.Valid() && inter2.Valid() && data.Valid() && data.numbOfRows == |pairs|
    requires forall k :: 0 <= k < |pairs| ==> pairs[k].0 < inter1.numbOfRows && pairs[k].1 < inter2.numbOfRows
    requires forall k :: 0 <= k < |pairs| ==> data.Row(k) == inter1.Row(pairs[k].0) + inter2.Row(pairs[k].1)
    ensures SideBySide(inter1.Rows(), inter2.Rows(), pairs, data.Rows())
  {
    hide Inter.Row;
  }

  /** A list that has had the predicate applied. */
  twostate predicate Advanced(q: Query, applied: set<Pred>, p: Pred, w: Warehouses, hq: HeadInter)
    requires q.Valid() && q.HasPred(p)
    reads w, hq, hq.spine
  {
    w.Valid(q.db) && hq.Valid() && OwnNodes(hq) && Inv(q, applied + {p}, hq.Contents())
  }

  /** Both relations in the same node: its rows are filtered, one temporary place per row. */
  method StepSameNode(q: Query, p: Pred, w: Warehouses, hq: HeadInter, node: NodeInter,
                      ghost at: nat, ghost applied: set<Pred>)
    requires q.Valid() && q.HasPred(p) && w.Valid(q.db) && hq.Valid() && Inv(q, applied, hq.Contents())
    requires at < |hq.spine| && node == hq.spine[at] && p.Rels() <= RelSet(node.data)
    modifies hq, hq.Nodes()
    ensures Advanced(q, applied, p, w, hq)
  {
    hide Inv, Warehouses.Valid, HeadInter.Contents, HeadInter.Valid, Query.Valid, Query.HasPred, NarrowedTo, AllIn,
      Inter.Valid, RelSet, Pred.Rels;
    var ok, data := NarrowData(q, p, node.data, node.data.numbOfRows, hq.Contents(), at, applied);
    assert ok;
    hq.UpdateInter(node, data, at);
  }

  lemma InvAllIn(q: Query, applied: set<Pred>, inters: seq<Inter>)
    requires q.Valid() && Inv(q, applied, inters)
    ensures AllIn(q, applied)
    ensures forall i :: 0 <= i < |inters| ==> inters[i].Valid() && RowIdsExist(q, inters[i])
  {
    hide ExactRows, RowIdOk;
    forall i | 0 <= i < |inters|
      ensures RowIdsExist(q, inters[i])
    {
      ExactRowIds(q, applied, inters[i]);
    }
  }

  /** Two new relations are ready to be joined. */
  lemma ReadyNewNew(q: Query, applied: set<Pred>, inters: seq<Inter>, p: Pred, c: ColRel, c': ColRel)
    requires q.Valid() && q.HasPred(p) && Inv(q, applied, inters) && q.HasCol(c) && q.HasCol(c') && Compares(p, c, c')
    requires IsNew(inters, c.rel) && IsNew(inters, c'.rel) && c.rel != c'.rel
    ensures AllIn(q, applied)
    ensures Joinable(q, applied, p, c, c', {c.rel}, {c'.rel}, Untouched(q, c.rel), Untouched(q, c'.rel))
  {
    NewSide(q, applied, inters, c.rel);
    NewSide(q, applied, inters, c'.rel);
    hide SideOf, Untouched, Joinable, Exact;
    SidesJoinable(q, applied, inters, p, c, c', {c.rel}, Untouched(q, c.rel), {c'.rel}, Untouched(q, c'.rel));
  }

  /** An intermediate and a new relation are ready to be joined. */
  lemma ReadyNodeNew(q: Query, applied: set<Pred>, inters: seq<Inter>, p: Pred, c: ColRel, c': ColRel, at: nat)
    requires q.Valid() && q.HasPred(p) && Inv(q, applied, inters) && q.HasCol(c) && q.HasCol(c') && Compares(p, c, c')
    requires at < |inters| && c.rel in inters[at].joinedRels && IsNew(inters, c'.rel)
    ensures AllIn(q, applied) && RowIdsExist(q, inters[at])
    ensures Joinable(q, applied, p, c, c', RelSet(inters[at]), {c'.rel}, inters[at].Rows(), Untouched(q, c'.rel))
  {
    NodeSide(q, applied, inters, c.rel, at);
    NewSide(q, applied, inters, c'.rel);
    InvAllIn(q, applied, inters);
    assert c'.rel !in RelSet(inters[at]);
    hide SideOf, Untouched, Joinable, Exact, RowIdsExist;
    SidesJoinable(q, applied, inters, p, c, c', RelSet(inters[at]), inters[at].Rows(), {c'.rel}, Untouched(q, c'.rel));
  }

  /** Two intermediates are ready to be joined. */
  lemma ReadyNodes(q: Query, applied: set<Pred>, inters: seq<Inter>, p: Pred, c: ColRel, c': ColRel, i: nat, j: nat)
    requires q.Valid() && q.HasPred(p) && Inv(q, applied, inters) && q.HasCol(c) && q.HasCol(c') && Compares(p, c, c')
    requires i < |inters| && j < |inters| && i != j && c.rel in inters[i].joinedRels && c'.rel in inters[j].joinedRels
    ensures AllIn(q, applied) && RowIdsExist(q, inters[i]) && RowIdsExist(q, inters[j])
    ensures Joinable(q, applied, p, c, c', RelSet(inters[i]), RelSet(inters[j]), inters[i].Rows(), inters[j].Rows())
  {
    NodeSide(q, applied, inters, c.rel, i);
    NodeSide(q, applied, inters, c'.rel, j);
    InvAllIn(q, applied, inters);
    assert c'.rel in RelSet(inters[j]);
    hide SideOf, Joinable, Exact, RowIdsExist;
    assert c'.rel !in RelSet(inters[i]);
    SidesJoinable(q, applied, inters, p, c, c', RelSet(inters[i]), inters[i].Rows(),
                  RelSet(inters[j]), inters[j].Rows());
  }

  /** A join's data takes the place of the intermediate it extends. */
  lemma ExtendedInv(q: Query, applied: set<Pred>, inters: seq<Inter>, p: Pred, c: ColRel, c': ColRel,
                    at: nat, data: Inter)
    requires q.Valid() && q.HasPred(p) && Inv(q, applied, inters) && q.HasCol(c') && Compares(p, c, c')
    requires at < |inters| && c.rel in inters[at].joinedRels && IsNew(inters, c'.rel)
    requires Joined(q, applied, p, RelSet(inters[at]), {c'.rel}, data)
    ensures Inv(q, applied + {p}, inters[at := data])
  {
    hide Exact;
    assert Known(q, inters[at]);
    assert c.rel in RelSet(inters[at]);
    ReplaceInv(q, applied, inters, at, p, data);
  }

  /** The data of a new node for two new relations. */
  method DataNewNew(q: Query, p: Pred, w: Warehouses, ghost inters: seq<Inter>, ghost applied: set<Pred>)
    returns (data: Inter)
    requires q.Valid() && q.HasPred(p) && p.Join? && !p.IsSelfJoin() && w.Valid(q.db) && Inv(q, applied, inters)
    requires IsNew(inters, p.participant1.rel) && IsNew(inters, p.participant2.rel)
    modifies w
    ensures w.Valid(q.db) && Inv(q, applied + {p}, inters + [data])
  {
    var c, c' := p.participant1, p.participant2;
    ReadyNewNew(q, applied, inters, p, c, c');
    hide Inv, Joinable, Untouched, Exact, Warehouses.Valid, AllIn;
    data := JoinNewNew(q, p, w, c, c', applied);
    AppendInv(q, applied, inters, p, data);
  }

  /** The data of a node extended by a new relation. */
  method DataNodeNew(q: Query, p: Pred, w: Warehouses, node: NodeInter, c: ColRel, c': ColRel,
                     ghost inters: seq<Inter>, ghost at: nat, ghost applied: set<Pred>)
    returns (data: Inter)
    requires q.Valid() && q.HasPred(p) && q.HasCol(c) && q.HasCol(c') && Compares(p, c, c')
    requires w.Valid(q.db) && Inv(q, applied, inters)
    requires at < |inters| && inters[at] == node.data && c.rel in node.data.joinedRels && IsNew(inters, c'.rel)
    modifies w
    ensures w.Valid(q.db) && Inv(q, applied + {p}, inters[at := data])
  {
    ReadyNodeNew(q, applied, inters, p, c, c', at);
    hide Inv, Joinable, Untouched, Joined, Warehouses.Valid, AllIn, RowIdsExist, IsNew, RelSet;
    data := JoinNodeNew(q, p, w, node, c, c', applied);
    ExtendedInv(q, applied, inters, p, c, c', at, data);
  }

  /** The data of two nodes merged. */
  method DataNodes(q: Query, p: Pred, w: Warehouses, node1: NodeInter, node2: NodeInter,
                   ghost inters: seq<Inter>, ghost at1: nat, ghost at2: nat, ghost applied: set<Pred>)
    returns (data: Inter)
    requires q.Valid() && q.HasPred(p) && p.Join? && w.Valid(q.db) && Inv(q, applied, inters)
    requires at1 < |inters| && inters[at1] == node1.data && p.participant1.rel in node1.data.joinedRels
    requires at2 < |inters| && inters[at2] == node2.data && p.participant2.rel in node2.data.joinedRels && at1 != at2
    modifies w
    ensures w.Valid(q.db) && Inv(q, applied + {p}, Without(inters[at1 := data], at2))
  {
    var c, c' := p.participant1, p.participant2;
    ReadyNodes(q, applied, inters, p, c, c', at1, at2);
    hide Inv, Joinable, Joined, Warehouses.Valid, RowIdsExist, RelSet, AllIn;
    data := JoinNodes(q, p, w, node1, node2, c, c', applied);
    MergedInv(q, applied, inters, p, at1, at2, data);
  }

  /** Both relations new: one more node. */
  method StepNewNew(q: Query, p: Pred, w: Warehouses, hq: HeadInter, ghost applied: set<Pred>)
    requires q.Valid() && q.HasPred(p) && p.Join? && !p.IsSelfJoin()
    requires w.Valid(q.db) && hq.Valid() && Inv(q, applied, hq.Contents())
    requires IsNew(hq.Contents(), p.participant1.rel) && IsNew(hq.Contents(), p.participant2.rel)
    modifies w, hq, hq.Nodes()
    ensures Advanced(q, applied, p, w, hq)
  {
    hide Inv, Warehouses.Valid, HeadInter.Contents, HeadInter.Valid, Query.Valid, Query.HasPred, IsNew;
    var data := DataNewNew(q, p, w, hq.Contents(), applied);
    hq.PushInter(data);
  }

  /** One relation new: the other's node is extended. */
  method StepNodeNew(q: Query, p: Pred, w: Warehouses, hq: HeadInter, node: NodeInter, c: ColRel, c': ColRel,
                     ghost at: nat, ghost applied: set<Pred>)
    requires q.Valid() && q.HasPred(p) && q.HasCol(c) && q.HasCol(c') && Compares(p, c, c')
    requires w.Valid(q.db) && hq.Valid() && Inv(q, applied, hq.Contents())
    requires at < |hq.spine| && node == hq.spine[at] && c.rel in node.data.joinedRels && IsNew(hq.Contents(), c'.rel)
    modifies w, hq, hq.Nodes()
    ensures Advanced(q, applied, p, w, hq)
  {
    hide Inv, Warehouses.Valid, HeadInter.Contents, HeadInter.Valid, Query.Valid, Query.HasPred, Query.HasCol, IsNew;
    var data := DataNodeNew(q, p, w, node, c, c', hq.Contents(), at, applied);
    hq.UpdateInter(node, data, at);
  }

  /** Two nodes: the first becomes the merge of both, the second is deleted. */
  method StepNodes(q: Query, p: Pred, w: Warehouses, hq: HeadInter, node1: NodeInter, node2: NodeInter,
                   ghost at1: nat, ghost at2: nat, ghost applied: set<Pred>)
    requires q.Valid() && q.HasPred(p) && p.Join?
    requires w.Valid(q.db) && hq.Valid() && Inv(q, applied, hq.Contents())
    requires at1 < |hq.spine| && node1 == hq.spine[at1] && p.participant1.rel in node1.data.joinedRels
    requires at2 < |hq.spine| && node2 == hq.spine[at2] && p.participant2.rel in node2.data.joinedRels && node1 != node2
    modifies w, hq, hq.Nodes()
    ensures Advanced(q, applied, p, w, hq)
  {
    hide Inv, Warehouses.Valid, HeadInter.Contents, HeadInter.Valid, Query.Valid, Query.HasPred, Without;
    var data := DataNodes(q, p, w, node1, node2, hq.Contents(), at1, at2, applied);
    ReplaceNodes(hq, node1, node2, at1, at2, data);
  }

  lemma MergedInv(q: Query, applied: set<Pred>, inters: seq<Inter>, p: Pred, i: nat, j: nat, data: Inter)
    requires q.Valid() && q.HasPred(p) && p.Join? && Inv(q, applied, inters) && i < |inters| && j < |inters| && i != j
    requires p.participant1.rel in inters[i].joinedRels && p.participant2.rel in inters[j].joinedRels
    requires Joined(q, applied, p, RelSet(inters[i]), RelSet(inters[j]), data)
    ensures Inv(q, applied + {p}, Without(inters[i := data], j))
  {
    hide Exact;
    assert p.participant1.rel in RelSet(inters[i]) && p.participant2.rel in RelSet(inters[j]);
    MergeInv(q, applied, inters, i, j, p, data);
  }

  /** updateInterAndDelete: a merge removes exactly one node and leaves the others unchanged. */
  method ReplaceNodes(hq: HeadInter, node1: NodeInter, node2: NodeInter, ghost at1: nat, ghost at2: nat, data: Inter)
    requires hq.Valid() && at1 < |hq.spine| && node1 == hq.spine[at1]
    requires at2 < |hq.spine| && node2 == hq.spine[at2] && node1 != node2
    modifies hq, hq.Nodes()
    ensures hq.Valid() && OwnNodes(hq)
    ensures hq.spine == Without(old(hq.spine), at2)
    ensures hq.Contents() == Without(old(hq.Contents())[at1 := data], at2)
  {
    hide HeadInter.Contents, HeadInter.Valid;
    hq.UpdateInter(node1, data, at1);
    hq.DeleteInterNode(node2, at2);
  }

  /** A join: dispatched on which of its relations are in an intermediate already. */
  method WorkerJ(q: Query, pred: Pred, w: Warehouses, hq: HeadInter, ghost applied: set<Pred>) returns (ok: bool)
    requires q.Valid() && pred.Join? && q.HasPred(pred)
    requires w.Valid(q.db) && hq.Valid() && Inv(q, applied, hq.Contents())
    modifies w, hq, hq.Nodes()
    ensures w.Valid(q.db) && hq.Valid() && OwnNodes(hq)
    ensures ok <==> (pred.IsSelfJoin() ==> TempFits(q, pred, pred.participant1.rel, old(hq.Contents())))
    ensures ok ==> Inv(q, applied + {pred}, hq.Contents())
  {
    hide Inv, Warehouses.Valid, TempFits, HeadInter.Contents, HeadInter.Valid;
    var r1, r2 := pred.participant1, pred.participant2;
    if r1.rel == r2.rel {
      ok := ApplyToOne(q, pred, r1.rel, hq, applied);
      return;
    }
    ok := true;
    var n1, at1 := hq.FindNode(r1.rel);
    var n2, at2 := hq.FindNode(r2.rel);
    if n1 == null && n2 == null {
      StepNewNew(q, pred, w, hq, applied);
    } else if n2 == null {
      StepNodeNew(q, pred, w, hq, n1, r1, r2, at1, applied);
    } else if n1 == null {
      StepNodeNew(q, pred, w, hq, n2, r2, r1, at2, applied);
    } else if n1 == n2 {
      StepSameNode(q, pred, w, hq, n1, at1, applied);
    } else {
      StepNodes(q, pred, w, hq, n1, n2, at1, at2, applied);
    }
  }
}

/** The join graph of a query: adjacency lists built from the joins, and lookups in them. */
module JoinGraphs {
  import opened Words
  import opened QuerySpec
  import opened Graphs
  import QueryState

  datatype Edge = Edge(parentCol: nat, node: nat, nodeCol: nat, joinId: nat)

  /** How a new relation attaches to a combination: the old relation, its column, the new
      relation's column and the join. */
  datatype Link = Link(connection: nat, col1: nat, col2: nat, joinId: nat)

  predicate AllJoins(joins: seq<Pred>, n: nat) {
    forall i :: 0 <= i < |joins| ==>
      joins[i].Join? && joins[i].participant1.rel < n && joins[i].participant2.rel < n
  }

  /** A join of two different columns of one relation makes no edge. */
  predicate Skipped(p: Pred)
    requires p.Join?
  {
    p.participant1.rel == p.participant2.rel && p.participant1.col != p.participant2.col
  }

  /** The adjacency list of `v` after the first `k` joins. */
  function EdgesFrom(joins: seq<Pred>, k: nat, v: nat): seq<Edge>
    requires k <= |joins| && forall i :: 0 <= i < |joins| ==> joins[i].Join?
  {
    if k == 0 then []
    else
      var p := joins[k - 1];
      EdgesFrom(joins, k - 1, v) +
      if p.participant1.rel == v && !Skipped(p)
      then [Edge(p.participant1.col, p.participant2.rel, p.participant2.col, k - 1)] else []
  }

  /** The edge is the join it names, leading away from `v`. */
  predicate IsEdge(joins: seq<Pred>, v: nat, e: Edge) {
    e.joinId < |joins| && joins[e.joinId] == Join(ColRel(v, e.parentCol), ColRel(e.node, e.nodeCol))
  }

  lemma {:induction false} EdgesFromExact(joins: seq<Pred>, k: nat, v: nat, e: Edge)
    requires k <= |joins| && forall i :: 0 <= i < |joins| ==> joins[i].Join?
    ensures e in EdgesFrom(joins, k, v) <==>
            e.joinId < k && IsEdge(joins, v, e) && (e.node == v ==> e.parentCol == e.nodeCol)
  {
    if k > 0 {
      EdgesFromExact(joins, k - 1, v, e);
    }
  }

  class Graph {
    var graphArray: seq<seq<Edge>>

    constructor (numVertices: nat)
      ensures graphArray == seq(numVertices, _ => [])
    {
      graphArray := seq(numVertices, _ => []);
    }

    method InsertGraph(parent: nat, parentCol: nat, edgeRel: nat, edgeCol: nat, joinId: nat)
      requires parent < |graphArray|
      modifies this
      ensures graphArray
           == old(graphArray)[parent := old(graphArray)[parent] + [Edge(parentCol, edgeRel, edgeCol, joinId)]]
    {
      graphArray := graphArray[parent := graphArray[parent] + [Edge(parentCol, edgeRel, edgeCol, joinId)]];
    }

    method ConstructGraph(joins: seq<Pred>)
      requires AllJoins(joins, |graphArray|) && graphArray == seq(|graphArray|, _ => [])
      modifies this
      ensures IsGraphOf(graphArray, joins) && |graphArray| == old(|graphArray|)
    {
      var n := |graphArray|;
      for i := 0 to |joins|
        invariant |graphArray| == n
        invariant forall v :: 0 <= v < n ==> graphArray[v] == EdgesFrom(joins, i, v)
      {
        var rel1, rel2 := joins[i].participant1.rel, joins[i].participant2.rel;
        var col1, col2 := joins[i].participant1.col, joins[i].participant2.col;
        if rel1 == rel2 && col1 != col2 {
          continue;
        }
        InsertGraph(rel1, col1, rel2, col2, i);
      }
    }
  }

  predicate IsGraphOf(g: seq<seq<Edge>>, joins: seq<Pred>) {
    && AllJoins(joins, |g|)
    && forall v :: 0 <= v < |g| ==> g[v] == EdgesFrom(joins, |joins|, v)
  }

  /** The first edge that leads to `v`. */
  function FindEdge(edges: seq<Edge>, v: nat): (r: Option<Edge>)
    ensures r.Some? ==> r.value in edges && r.value.node == v
    ensures r.None? ==> forall e :: e in edges ==> e.node != v
  {
    if edges == [] then None
    else if edges[0].node == v then Some(edges[0])
    else FindEdge(edges[1..], v)
  }

  method ConnectedVertices(g: seq<seq<Edge>>, vertex1: nat, vertex2: nat) returns (e: Option<Edge>)
    requires vertex1 < |g|
    ensures e == FindEdge(g[vertex1], vertex2)
  {
    var edges := g[vertex1];
    for k := 0 to |edges|
      invariant FindEdge(edges, vertex2) == FindEdge(edges[k..], vertex2)
    {
      if edges[k].node == vertex2 {
        return Some(edges[k]);
      }
    }
    return None;
  }

  predicate AllBelow(comb: seq<nat>, n: nat) {
    forall i :: 0 <= i < |comb| ==> comb[i] < n
  }

  /** The link through the first relation of `comb` that has an edge to or from `r`. */
  function Attach(g: seq<seq<Edge>>, comb: seq<nat>, r: nat): Option<Link>
    requires r < |g| && AllBelow(comb, |g|)
  {
    if comb == [] then None
    else
      match FindEdge(g[comb[0]], r)
      case Some(e) => Some(Link(comb[0], e.parentCol, e.nodeCol, e.joinId))
      case None =>
        match FindEdge(g[r], comb[0])
        case Some(e) => Some(Link(comb[0], e.nodeCol, e.parentCol, e.joinId))
        case None => Attach(g, comb[1..], r)
  }

  /** The relation of the link, or -1; the columns and the join are set only with a relation. */
  method AreConnected(comb: seq<nat>, r: nat, g: seq<seq<Edge>>)
    returns (connection: int, col1: nat, col2: nat, joinId: nat)
    requires r < |g| && AllBelow(comb, |g|)
    ensures Attach(g, comb, r) == if connection < 0 then None else Some(Link(connection, col1, col2, joinId))
    ensures connection >= -1
  {
    connection, col1, col2, joinId := -1, 0, 0, 0;
    for i := 0 to |comb|
      invariant Attach(g, comb, r) == Attach(g, comb[i..], r)
    {
      var c := comb[i];
      var e := ConnectedVertices(g, c, r);
      if e.Some? {
        return c, e.value.parentCol, e.value.nodeCol, e.value.joinId;
      }
      e := ConnectedVertices(g, r, c);
      if e.Some? {
        return c, e.value.nodeCol, e.value.parentCol, e.value.joinId;
      }
    }
  }

  /** The join that the link names joins the two relations on the two columns. */
  predicate Links(joins: seq<Pred>, l: Link, r: nat) {
    && l.joinId < |joins|
    && var a, b := ColRel(l.connection, l.col1), ColRel(r, l.col2);
       joins[l.joinId] == Join(a, b) || joins[l.joinId] == Join(b, a)
  }

  ghost predicate Neighbour(joins: seq<Pred>, x: nat, r: nat) {
    Adjacent(JoinEdges(joins), x, r)
  }

  ghost function JoinEdges(joins: seq<Pred>): Edges {
    QueryState.EdgesOf(set p | p in joins)
  }

  /** A relation outside the combination attaches to it exactly when a join connects them, and
      the link is such a join. */
  lemma {:induction false} AttachExact(g: seq<seq<Edge>>, joins: seq<Pred>, comb: seq<nat>, r: nat)
    requires IsGraphOf(g, joins) && r < |g| && AllBelow(comb, |g|) && r !in comb
    ensures Attach(g, comb, r).Some? <==> exists x :: x in comb && Neighbour(joins, x, r)
    ensures Attach(g, comb, r).Some? ==>
              Attach(g, comb, r).value.connection in comb && Links(joins, Attach(g, comb, r).value, r)
  {
    if comb != [] {
      EdgeToNeighbour(g, joins, comb[0], r);
      AttachExact(g, joins, comb[1..], r);
      assert comb == [comb[0]] + comb[1..];
    }
  }

  lemma EdgeToNeighbour(g: seq<seq<Edge>>, joins: seq<Pred>, c: nat, r: nat)
    requires IsGraphOf(g, joins) && r < |g| && c < |g| && r != c
    ensures Neighbour(joins, c, r) <==> FindEdge(g[c], r).Some? || FindEdge(g[r], c).Some?
    ensures FindEdge(g[c], r).Some? ==> IsEdge(joins, c, FindEdge(g[c], r).value)
    ensures FindEdge(g[r], c).Some? ==> IsEdge(joins, r, FindEdge(g[r], c).value)
  {
    OneWay(g, joins, c, r);
    OneWay(g, joins, r, c);
  }

  lemma OneWay(g: seq<seq<Edge>>, joins: seq<Pred>, a: nat, b: nat)
    requires IsGraphOf(g, joins) && a < |g| && a != b
    ensures FindEdge(g[a], b).Some? <==> (a, b) in JoinEdges(joins)
    ensures FindEdge(g[a], b).Some? ==> IsEdge(joins, a, FindEdge(g[a], b).value)
  {
    var found := FindEdge(g[a], b);
    if found.Some? {
      EdgesFromExact(joins, |joins|, a, found.value);
      assert joins[found.value.joinId] in joins;
    }
    if (a, b) in JoinEdges(joins) {
      var p :| p in joins && p.Join? && (p.participant1.rel, p.participant2.rel) == (a, b);
      var i :| 0 <= i < |joins| && joins[i] == p;
      var e := Edge(p.participant1.col, b, p.participant2.col, i);
      EdgesFromExact(joins, |joins|, a, e);
    }
  }

  /* ----- which join links a relation ----- */

  predicate Leads(p: Pred, a: nat, b: nat) {
    p.Join? && p.participant1.rel == a && p.participant2.rel == b
  }

  /** The first of the first `k` joins that leads from `a` to `b`. */
  function FirstJoin(joins: seq<Pred>, k: nat, a: nat, b: nat): (i: Option<nat>)
    requires k <= |joins|
    ensures i.Some? ==>
              && i.value < k && Leads(joins[i.value], a, b)
              && forall j :: 0 <= j < i.value ==> !Leads(joins[j], a, b)
    ensures i.None? ==> forall j :: 0 <= j < k ==> !Leads(joins[j], a, b)
  {
    if k == 0 then None
    else
      var i := FirstJoin(joins, k - 1, a, b);
      if i.Some? then i else if Leads(joins[k - 1], a, b) then Some(k - 1) else None
  }

  /** The link names the first join that leads from `a` to `b`. */
  predicate NamesFirst(joins: seq<Pred>, l: Link, a: nat, b: nat) {
    && l.joinId < |joins| && Leads(joins[l.joinId], a, b)
    && forall j :: 0 <= j < l.joinId ==> !Leads(joins[j], a, b)
  }

  /** The link between `c` and `r`: the first join that leads from `c` to `r`, else the first that
      leads back. */
  function LinkTo(joins: seq<Pred>, c: nat, r: nat): Option<Link> {
    match FirstJoin(joins, |joins|, c, r)
    case Some(i) => Some(Link(c, joins[i].participant1.col, joins[i].participant2.col, i))
    case None =>
      match FirstJoin(joins, |joins|, r, c)
      case Some(i) => Some(Link(c, joins[i].participant2.col, joins[i].participant1.col, i))
      case None => None
  }

  lemma LinkToExact(joins: seq<Pred>, c: nat, r: nat)
    ensures var l := LinkTo(joins, c, r);
      && (l.None? <==> forall j :: 0 <= j < |joins| ==> !Leads(joins[j], c, r) && !Leads(joins[j], r, c))
      && (l.Some? ==>
            && l.value.connection == c && Links(joins, l.value, r)
            && (NamesFirst(joins, l.value, c, r)
                || (NamesFirst(joins, l.value, r, c) && forall j :: 0 <= j < |joins| ==> !Leads(joins[j], c, r))))
  {
  }

  /** The link from the smallest relation of `y`, from `c` on, that has one to `r`. */
  function LinkFrom(joins: seq<Pred>, y: set<nat>, r: nat, c: nat, n: nat): Option<Link>
    requires c <= n
    decreases n - c
  {
    if c == n then None
    else if c in y && LinkTo(joins, c, r).Some? then LinkTo(joins, c, r)
    else LinkFrom(joins, y, r, c + 1, n)
  }

  lemma {:induction false} LinkFromExact(joins: seq<Pred>, y: set<nat>, r: nat, c: nat, n: nat)
    requires c <= n
    ensures var l := LinkFrom(joins, y, r, c, n);
      && (l.None? ==> forall d: nat :: c <= d < n && d in y ==> LinkTo(joins, d, r).None?)
      && (l.Some? ==>
            var d := l.value.connection;
            && c <= d < n && d in y && l == LinkTo(joins, d, r)
            && forall d': nat :: c <= d' < d && d' in y ==> LinkTo(joins, d', r).None?)
    decreases n - c
  {
    if c < n {
      LinkToExact(joins, c, r);
      hide LinkTo;
      LinkFromExact(joins, y, r, c + 1, n);
    }
  }

  /** No edge before the one found leads to `v`. */
  lemma {:induction false} FindEdgeAt(edges: seq<Edge>, v: nat) returns (k: nat)
    requires FindEdge(edges, v).Some?
    ensures k < |edges| && FindEdge(edges, v) == Some(edges[k]) && edges[k].node == v
    ensures forall j :: 0 <= j < k ==> edges[j].node != v
  {
    k := 0;
    if edges[0].node != v {
      k := FindEdgeAt(edges[1..], v);
      k := k + 1;
    }
  }

  lemma {:induction false} FindEdgeSnoc(edges: seq<Edge>, e: Edge, v: nat)
    ensures FindEdge(edges + [e], v)
         == if FindEdge(edges, v).Some? then FindEdge(edges, v) else if e.node == v then Some(e) else None
  {
    if edges == [] {
      assert FindEdge([e], v) == if e.node == v then Some(e) else FindEdge([], v);
    } else {
      assert (edges + [e])[1..] == edges[1..] + [e];
      FindEdgeSnoc(edges[1..], e, v);
    }
  }

  /** The edge that a lookup between two relations finds is the first join's. */
  lemma {:induction false} FindEdgeFirst(joins: seq<Pred>, k: nat, a: nat, b: nat)
    requires k <= |joins| && a != b && forall i :: 0 <= i < |joins| ==> joins[i].Join?
    ensures FindEdge(EdgesFrom(joins, k, a), b) == EdgeOf(joins, FirstJoin(joins, k, a, b))
  {
    hide *;
    NoEdges(joins, a, b);
    if k > 0 {
      FindEdgeFirst(joins, k - 1, a, b);
      var e := EdgeOf(joins, Some(k - 1)).value;
      EdgesFromLast(joins, k, a, e);
      FindEdgeSnoc(EdgesFrom(joins, k - 1, a), e, b);
      FirstJoinLast(joins, k, a, b);
    }
  }

  lemma NoEdges(joins: seq<Pred>, a: nat, b: nat)
    requires forall i :: 0 <= i < |joins| ==> joins[i].Join?
    ensures FindEdge(EdgesFrom(joins, 0, a), b).None? && EdgeOf(joins, FirstJoin(joins, 0, a, b)).None?
  {
  }

  lemma FirstJoinLast(joins: seq<Pred>, k: nat, a: nat, b: nat)
    requires 0 < k <= |joins| && a != b && forall i :: 0 <= i < |joins| ==> joins[i].Join?
    ensures var p, before := joins[k - 1], EdgeOf(joins, FirstJoin(joins, k - 1, a, b));
      EdgeOf(joins, FirstJoin(joins, k, a, b))
      == if before.Some? then before
         else if p.participant1.rel == a && !Skipped(p) && p.participant2.rel == b then EdgeOf(joins, Some(k - 1))
         else None
  {
  }

  function EdgeOf(joins: seq<Pred>, i: Option<nat>): (e: Option<Edge>)
    requires i.Some? ==> i.value < |joins| && joins[i.value].Join?
    ensures e.None? <==> i.None?
  {
    if i.None? then None
    else
      var p := joins[i.value];
      Some(Edge(p.participant1.col, p.participant2.rel, p.participant2.col, i.value))
  }

  lemma EdgesFromLast(joins: seq<Pred>, k: nat, a: nat, e: Edge)
    requires 0 < k <= |joins| && forall i :: 0 <= i < |joins| ==> joins[i].Join?
    requires EdgeOf(joins, Some(k - 1)) == Some(e)
    ensures e.node == joins[k - 1].participant2.rel
    ensures EdgesFrom(joins, k, a)
         == if joins[k - 1].participant1.rel == a && !Skipped(joins[k - 1]) then EdgesFrom(joins, k - 1, a) + [e]
            else EdgesFrom(joins, k - 1, a)
  {
  }

  /** For a combination in increasing order the link found is that of the smallest linked relation. */
  lemma {:induction false} AttachIsLink(g: seq<seq<Edge>>, joins: seq<Pred>, comb: seq<nat>, y: set<nat>,
                                        r: nat, c: nat)
    requires IsGraphOf(g, joins) && r < |g| && c <= |g| && r !in y && AllBelow(comb, |g|)
    requires forall i, j :: 0 <= i < j < |comb| ==> comb[i] < comb[j]
    requires forall x: nat :: c <= x ==> (x in comb <==> x in y)
    requires forall i :: 0 <= i < |comb| ==> c <= comb[i]
    ensures Attach(g, comb, r) == LinkFrom(joins, y, r, c, |g|)
    decreases |g| - c
  {
    if comb != [] {
      assert c <= comb[0] < |g|;
    }
    hide *;
    if c == |g| {
      LinkFromHere(joins, y, r, c, |g|);
      AttachNothing(g, r);
    } else {
      LinkFromHere(joins, y, r, c, |g|);
      if comb != [] && comb[0] == c {
        assert c in comb;
        AttachHere(g, joins, comb, r);
        if LinkTo(joins, c, r).None? {
          RestMembers(comb);
          AllBelowRest(g, comb);
          AttachIsLink(g, joins, comb[1..], y, r, c + 1);
        }
      } else {
        NotInRest(comb, c);
        AttachIsLink(g, joins, comb, y, r, c + 1);
      }
    }
  }

  lemma AttachNothing(g: seq<seq<Edge>>, r: nat)
    requires r < |g|
    ensures AllBelow([], |g|) && Attach(g, [], r).None?
  {
  }

  lemma LinkFromHere(joins: seq<Pred>, y: set<nat>, r: nat, c: nat, n: nat)
    requires c <= n
    ensures LinkFrom(joins, y, r, c, n)
         == if c == n then None else if c in y && LinkTo(joins, c, r).Some? then LinkTo(joins, c, r)
            else LinkFrom(joins, y, r, c + 1, n)
  {
    hide LinkTo;
  }

  lemma AllBelowRest(g: seq<seq<Edge>>, comb: seq<nat>)
    requires comb != [] && AllBelow(comb, |g|)
    ensures AllBelow(comb[1..], |g|)
  {
  }

  /** What follows the first of increasing numbers is above it. */
  lemma RestMembers(comb: seq<nat>)
    requires comb != [] && forall i, j :: 0 <= i < j < |comb| ==> comb[i] < comb[j]
    ensures forall x: nat :: comb[0] < x ==> (x in comb <==> x in comb[1..])
    ensures forall i :: 0 <= i < |comb[1..]| ==> comb[0] + 1 <= comb[1..][i]
    ensures forall i, j :: 0 <= i < j < |comb[1..]| ==> comb[1..][i] < comb[1..][j]
  {
    assert comb == [comb[0]] + comb[1..];
  }

  lemma NotInRest(comb: seq<nat>, c: nat)
    requires comb == [] || comb[0] != c
    requires forall i, j :: 0 <= i < j < |comb| ==> comb[i] < comb[j]
    requires forall i :: 0 <= i < |comb| ==> c <= comb[i]
    ensures forall i :: 0 <= i < |comb| ==> c + 1 <= comb[i]
  {
  }

  /** The link of the first relation of a combination. */
  lemma AttachHere(g: seq<seq<Edge>>, joins: seq<Pred>, comb: seq<nat>, r: nat)
    requires IsGraphOf(g, joins) && r < |g| && comb != [] && AllBelow(comb, |g|) && comb[0] != r
    ensures AllBelow(comb[1..], |g|)
    ensures Attach(g, comb, r)
         == if LinkTo(joins, comb[0], r).Some? then LinkTo(joins, comb[0], r) else Attach(g, comb[1..], r)
  {
    FindEdgeFirst(joins, |joins|, comb[0], r);
    FindEdgeFirst(joins, |joins|, r, comb[0]);
    hide FindEdge, FirstJoin, EdgesFrom;
  }
}

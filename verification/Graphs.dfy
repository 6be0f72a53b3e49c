/** Undirected connectivity. */
module Graphs {
  import opened Bags

  /** Edges between relations, to be read in both directions. */
  type Edges = set<(nat, nat)>

  predicate Adjacent(e: Edges, a: nat, b: nat) {
    (a, b) in e || (b, a) in e
  }

  /** Some edge leads from one side of a cut to the other. */
  ghost predicate Crossed(e: Edges, t: set<nat>, rest: set<nat>) {
    exists a, b :: a in t && b in rest && Adjacent(e, a, b)
  }

  /** Connected: every way to cut the set in two is crossed by an edge. */
  ghost predicate Connected(e: Edges, s: set<nat>) {
    s != {} && forall t: set<nat> :: t != {} && t < s ==> Crossed(e, t, s - t)
  }

  /** A walk inside `s` along edges. */
  predicate IsPath(e: Edges, s: set<nat>, path: seq<nat>) {
    && path != []
    && (forall i :: 0 <= i < |path| ==> path[i] in s)
    && (forall i :: 0 <= i < |path| - 1 ==> Adjacent(e, path[i], path[i + 1]))
  }

  ghost predicate Linked(e: Edges, s: set<nat>, a: nat, b: nat) {
    exists path: seq<nat> :: IsPath(e, s, path) && path[0] == a && path[|path| - 1] == b
  }

  /** Connected by cuts is connected by paths. */
  lemma ConnectedIffPaths(e: Edges, s: set<nat>)
    requires s != {}
    ensures Connected(e, s) <==> forall a, b :: a in s && b in s ==> Linked(e, s, a, b)
  {
    if Connected(e, s) {
      forall a, b | a in s && b in s
        ensures Linked(e, s, a, b)
      {
        ReachAll(e, s, a, b);
      }
    }
    if forall a, b :: a in s && b in s ==> Linked(e, s, a, b) {
      forall t: set<nat> | t != {} && t < s
        ensures Crossed(e, t, s - t)
      {
        var a :| a in t;
        var b := Missing(t, s);
        assert Linked(e, s, a, b);
        var path :| IsPath(e, s, path) && path[0] == a && path[|path| - 1] == b;
        PathCrosses(e, s, t, path);
      }
    }
  }

  lemma ReachAll(e: Edges, s: set<nat>, a: nat, b: nat)
    requires Connected(e, s) && a in s && b in s
    ensures Linked(e, s, a, b)
  {
    var t := set x | x in s && Linked(e, s, a, x);
    assert IsPath(e, s, [a]);
    assert a in t;
    if t != s {
      assert Crossed(e, t, s - t);
      var x, y :| x in t && y in s - t && Adjacent(e, x, y);
      OneFurther(e, s, a, x, y);
      assert false;
    }
  }

  lemma OneFurther(e: Edges, s: set<nat>, a: nat, x: nat, y: nat)
    requires Linked(e, s, a, x) && y in s && Adjacent(e, x, y)
    ensures Linked(e, s, a, y)
  {
    var path :| IsPath(e, s, path) && path[0] == a && path[|path| - 1] == x;
    assert IsPath(e, s, path + [y]);
  }

  /** An element that a proper subset lacks. */
  lemma Missing(t: set<nat>, s: set<nat>) returns (y: nat)
    requires t < s
    ensures y in s && y !in t
  {
    y :| y in s && y !in t;
  }

  lemma {:induction false} PathCrosses(e: Edges, s: set<nat>, t: set<nat>, path: seq<nat>)
    requires IsPath(e, s, path) && path[0] in t && path[|path| - 1] !in t
    ensures Crossed(e, t, s - t)
  {
    if path[1] in t {
      PathCrosses(e, s, t, path[1..]);
    } else {
      assert Adjacent(e, path[0], path[1]);
    }
  }

  lemma SingletonConnected(e: Edges, a: nat)
    ensures Connected(e, {a})
  {
    forall t: set<nat> | t < {a}
      ensures t == {}
    {
      SubsetSize(t, {a});
    }
  }

  /** Cutting a grown set cuts the old one, unless the cut separates just the new element. */
  lemma OldCut(t: set<nat>, s: set<nat>, a: nat)
    requires a !in s && t < s + {a} && t != {} && t != {a} && t != s
    ensures t - {a} != {} && t - {a} < s
  {
    var y := Missing(t, s + {a});
    if y == a {
      assert t - {a} == t;
    } else {
      assert y !in t - {a} && y in s;
    }
    if t <= {a} {
      SubsetSize(t, {a});
    }
  }

  /** A connected set grows by any neighbour. */
  lemma GrowConnected(e: Edges, s: set<nat>, x: nat, a: nat)
    requires Connected(e, s) && x in s && a !in s && Adjacent(e, x, a)
    ensures Connected(e, s + {a})
  {
    forall t: set<nat> | t != {} && t < s + {a}
      ensures Crossed(e, t, s + {a} - t)
    {
      if t == {a} {
        assert Adjacent(e, a, x);
      } else if t == s {
        assert Adjacent(e, x, a);
      } else {
        var u := t - {a};
        OldCut(t, s, a);
        assert Crossed(e, u, s - u);
        var y, z :| y in u && z in s - u && Adjacent(e, y, z);
        assert y in t && z in s + {a} - t;
      }
    }
  }

  predicate Cuts(u: set<nat>, s: set<nat>) {
    u * s != {} && u * s != s
  }

  /** Two connected sets with an edge from one to the other are connected together. */
  lemma UnionConnected(e: Edges, s: set<nat>, t: set<nat>, x: nat, y: nat)
    requires Connected(e, s) && Connected(e, t) && x in s && y in t && Adjacent(e, x, y)
    ensures Connected(e, s + t)
  {
    forall u: set<nat> | u != {} && u < s + t
      ensures Crossed(e, u, s + t - u)
    {
      CutUnion(e, s, t, x, y, u);
    }
  }

  /** A cut of the union cuts one of the sets or separates them. */
  lemma CutUnion(e: Edges, s: set<nat>, t: set<nat>, x: nat, y: nat, u: set<nat>)
    requires Connected(e, s) && Connected(e, t) && x in s && y in t && Adjacent(e, x, y)
    requires u != {} && u < s + t
    ensures Crossed(e, u, s + t - u)
  {
    if Cuts(u, s) {
      CrossedWithin(e, s, u, s + t);
    } else if Cuts(u, t) {
      CrossedWithin(e, t, u, s + t);
    } else if x in u {
      assert x in u * s;
      assert y in u ==> y in u * t;
      var z := Missing(u, s + t);
      assert z in s ==> z in u * s;
      assert y !in u;
    } else {
      var z :| z in u;
      assert z in u * s || z in u * t;
      assert x in u <==> x in u * s;
      assert y in u <==> y in u * t;
      assert Adjacent(e, y, x);
    }
  }

  /** A set that cuts a connected part cuts the whole. */
  lemma CrossedWithin(e: Edges, s: set<nat>, u: set<nat>, whole: set<nat>)
    requires Connected(e, s) && s <= whole && Cuts(u, s)
    ensures Crossed(e, u, whole - u)
  {
    assert u * s < s;
    assert Crossed(e, u * s, s - u * s);
    var a, b :| a in u * s && b in s - u * s && Adjacent(e, a, b);
    assert a in u && b in whole - u;
  }

  /** More edges keep a set connected. */
  lemma MoreEdges(e: Edges, e': Edges, s: set<nat>)
    requires Connected(e, s) && e <= e'
    ensures Connected(e', s)
  {
    forall t: set<nat> | t != {} && t < s
      ensures Crossed(e', t, s - t)
    {
      assert Crossed(e, t, s - t);
      var a, b :| a in t && b in s - t && Adjacent(e, a, b);
      assert Adjacent(e', a, b);
    }
  }

  lemma SmallerIsProper(t: set<nat>, s: set<nat>)
    requires t <= s && |t| < |s|
    ensures t < s
  {
    if s <= t {
      SubsetSize(s, t);
    }
  }

  /** A connected set of two or more relations has one whose removal leaves it connected, and
      that one is a neighbour of what is left. */
  lemma RemovableRelation(e: Edges, s: set<nat>) returns (r: nat, x: nat)
    requires Connected(e, s) && |s| >= 2
    ensures r in s && Connected(e, s - {r}) && x in s - {r} && Adjacent(e, x, r)
  {
    var a :| a in s;
    SingletonConnected(e, a);
    var t := {a};
    while |t| < |s| - 1
      invariant t <= s && t != {} && Connected(e, t) && |t| <= |s| - 1
      decreases |s| - |t|
    {
      SmallerIsProper(t, s);
      assert Crossed(e, t, s - t);
      var y, z :| y in t && z in s - t && Adjacent(e, y, z);
      GrowConnected(e, t, y, z);
      SubsetSize(t + {z}, s);
      t := t + {z};
    }
    SmallerIsProper(t, s);
    assert Crossed(e, t, s - t);
    x, r :| x in t && r in s - t && Adjacent(e, x, r);
    SubsetSize(t, s - {r});
    assert t == s - {r};
  }
}

/** The list of intermediates as a whole, and what each step does to it. */
module QueryState {
  import opened InterList
  import opened QuerySpec
  import opened Graphs

  /** The join graph of some predicates. */
  ghost function EdgesOf(preds: set<Pred>): Edges {
    set p | p in preds && p.Join? :: (p.participant1.rel, p.participant2.rel)
  }

  /** Between steps: each intermediate is exact, no two share a relation, the relations of a
      predicate applied so far are all in one intermediate, and the joins applied so far connect
      the relations of each intermediate. */
  ghost predicate Inv(q: Query, applied: set<Pred>, inters: seq<Inter>)
    requires q.Valid()
  {
    && AllIn(q, applied)
    && (forall i :: 0 <= i < |inters| ==> Exact(q, applied, inters[i]))
    && (forall i :: 0 <= i < |inters| ==> Known(q, inters[i]))
    && (forall i, j :: 0 <= i < j < |inters| ==> RelSet(inters[i]) !! RelSet(inters[j]))
    && (forall p :: p in applied ==> Grouped(p, inters))
    && (forall i :: 0 <= i < |inters| ==> Connected(EdgesOf(applied), RelSet(inters[i])))
    && (inters != [] ==> applied != {})
  }

  /** About some relations, all of them the query's. */
  predicate Known(q: Query, inter: Inter) {
    RelSet(inter) != {} && forall r :: r in RelSet(inter) ==> r < |q.rels|
  }

  ghost predicate Grouped(p: Pred, inters: seq<Inter>) {
    exists i :: 0 <= i < |inters| && p.Rels() <= RelSet(inters[i])
  }

  /** No intermediate holds the relation. */
  predicate IsNew(inters: seq<Inter>, rel: nat) {
    forall i :: 0 <= i < |inters| ==> rel !in RelSet(inters[i])
  }

  /** The rows to work on for relation `rel`: those of its intermediate, or all of its own. */
  ghost predicate SideOf(q: Query, applied: set<Pred>, inters: seq<Inter>, rel: nat,
                         on: set<nat>, rows: seq<Assignment>)
    requires q.Valid() && AllIn(q, applied) && rel < |q.rels|
  {
    && rel in on
    && ExactRows(q, applied, on, rows)
    && if IsNew(inters, rel) then on == {rel} && rows == Untouched(q, rel)
       else exists i :: 0 <= i < |inters| && on == RelSet(inters[i]) && inters[i].Valid() && rows == inters[i].Rows()
  }

  lemma NewSide(q: Query, applied: set<Pred>, inters: seq<Inter>, rel: nat)
    requires q.Valid() && Inv(q, applied, inters) && rel < |q.rels| && IsNew(inters, rel)
    ensures SideOf(q, applied, inters, rel, {rel}, Untouched(q, rel))
  {
    forall p | p in applied
      ensures rel !in p.Rels()
    {
      assert Grouped(p, inters);
    }
    UntouchedExact(q, applied, rel);
  }

  lemma NodeSide(q: Query, applied: set<Pred>, inters: seq<Inter>, rel: nat, i: nat)
    requires q.Valid() && Inv(q, applied, inters) && i < |inters| && rel in inters[i].joinedRels
    ensures rel < |q.rels| && SideOf(q, applied, inters, rel, RelSet(inters[i]), inters[i].Rows())
  {
    assert rel in RelSet(inters[i]);
  }

  /** No predicate applied so far is about two different sides. */
  lemma SidesCrossFree(q: Query, applied: set<Pred>, inters: seq<Inter>, r: nat, s: nat,
                       on: set<nat>, rows: seq<Assignment>, on': set<nat>, rows': seq<Assignment>)
    requires q.Valid() && Inv(q, applied, inters) && r < |q.rels| && s < |q.rels|
    requires SideOf(q, applied, inters, r, on, rows) && SideOf(q, applied, inters, s, on', rows')
    ensures NoneCrosses(applied, on, on')
  {
    hide ExactRows, Untouched, Exact, Query.Valid, Query.HasPred, Pred.Rels, Connected, SideOf;
    forall p | p in applied && p.Rels() <= on + on'
      ensures p.Rels() <= on || p.Rels() <= on'
    {
      assert Grouped(p, inters);
      var k: nat :| k < |inters| && p.Rels() <= RelSet(inters[k]);
      SideIsWhole(q, applied, inters, r, on, rows, k);
      SideIsWhole(q, applied, inters, s, on', rows', k);
      RelsNonEmpty(p);
      var x :| x in p.Rels();
    }
  }

  /** A side is one intermediate's relations, and has none of any other's. */
  lemma SideIsWhole(q: Query, applied: set<Pred>, inters: seq<Inter>, rel: nat,
                    on: set<nat>, rows: seq<Assignment>, k: nat)
    requires q.Valid() && Inv(q, applied, inters) && rel < |q.rels| && k < |inters|
    requires SideOf(q, applied, inters, rel, on, rows)
    ensures RelSet(inters[k]) == on || RelSet(inters[k]) !! on
  {
    hide ExactRows, Untouched, Exact, Connected, RelSet;
  }

  /** Sides of relations that are not together are disjoint. */
  lemma SidesApart(q: Query, applied: set<Pred>, inters: seq<Inter>, r: nat, s: nat,
                   on: set<nat>, rows: seq<Assignment>, on': set<nat>, rows': seq<Assignment>)
    requires q.Valid() && Inv(q, applied, inters) && r < |q.rels| && s < |q.rels| && s !in on
    requires SideOf(q, applied, inters, r, on, rows) && SideOf(q, applied, inters, s, on', rows')
    ensures on !! on'
  {
    hide ExactRows, Untouched, Exact;
  }

  lemma RelsNonEmpty(p: Pred)
    ensures p.Rels() != {}
  {
    var rel := if p.Filter? then p.participant.rel else p.participant1.rel;
    assert rel in p.Rels();
  }

  /** A predicate's relations are some, so a disjoint set does not contain them. */
  lemma NotElsewhere(p: Pred, on: set<nat>, other: set<nat>)
    requires p.Rels() <= on && on !! other
    ensures !(p.Rels() <= other)
  {
    var x :| x in p.Rels();
  }

  /** A predicate applied besides keeps what the joins connected before. */
  lemma StillConnected(applied: set<Pred>, p: Pred, on: set<nat>)
    requires Connected(EdgesOf(applied), on)
    ensures Connected(EdgesOf(applied + {p}), on)
  {
    MoreEdges(EdgesOf(applied), EdgesOf(applied + {p}), on);
  }

  /** A predicate about both of two sides is a join that connects them. */
  lemma NowConnected(applied: set<Pred>, p: Pred, on: set<nat>, on': set<nat>)
    requires Connected(EdgesOf(applied), on) && Connected(EdgesOf(applied), on') && on !! on'
    requires p.Rels() <= on + on' && !(p.Rels() !! on) && !(p.Rels() !! on')
    ensures Connected(EdgesOf(applied + {p}), on + on')
  {
    StillConnected(applied, p, on);
    StillConnected(applied, p, on');
    hide Connected;
    var x :| x in p.Rels() && x in on;
    var y :| y in p.Rels() && y in on';
    assert p.Join? && p in applied + {p};
    assert (p.participant1.rel, p.participant2.rel) in EdgesOf(applied + {p});
    UnionConnected(EdgesOf(applied + {p}), on, on', x, y);
  }

  /** The relations of one predicate are connected by it. */
  lemma OwnRelsConnected(applied: set<Pred>, p: Pred)
    ensures Connected(EdgesOf(applied + {p}), p.Rels())
  {
    hide Connected;
    if p.Filter? {
      SingletonConnected(EdgesOf(applied + {p}), p.participant.rel);
    } else {
      var x, y := p.participant1.rel, p.participant2.rel;
      SingletonConnected(EdgesOf(applied), x);
      SingletonConnected(EdgesOf(applied), y);
      SingletonConnected(EdgesOf(applied + {p}), x);
      if x != y {
        NowConnected(applied, p, {x}, {y});
        assert {x} + {y} == p.Rels();
      } else {
        assert {x} == p.Rels();
      }
    }
  }

  /** An intermediate that the predicate has nothing to do with stays as it should be. */
  lemma Bystander(q: Query, applied: set<Pred>, inter: Inter, p: Pred, on: set<nat>)
    requires q.Valid() && AllIn(q, applied) && q.HasPred(p) && Exact(q, applied, inter)
    requires Connected(EdgesOf(applied), RelSet(inter)) && p.Rels() <= on && on !! RelSet(inter)
    ensures Exact(q, applied + {p}, inter) && Connected(EdgesOf(applied + {p}), RelSet(inter))
  {
    hide ExactRows, Connected;
    RelsNonEmpty(p);
    NotElsewhere(p, on, RelSet(inter));
    OtherPredicate(q, applied, RelSet(inter), inter.Rows(), p);
    StillConnected(applied, p, RelSet(inter));
  }

  /** A new intermediate for relations that were in none. */
  lemma AppendInv(q: Query, applied: set<Pred>, inters: seq<Inter>, p: Pred, data: Inter)
    requires q.Valid() && Inv(q, applied, inters) && q.HasPred(p)
    requires Exact(q, applied + {p}, data) && p.Rels() == RelSet(data)
    requires forall r :: r in p.Rels() ==> r < |q.rels| && IsNew(inters, r)
    ensures Inv(q, applied + {p}, inters + [data])
  {
    hide Exact, Connected, EdgesOf;
    var after := inters + [data];
    RelsNonEmpty(p);
    OwnRelsConnected(applied, p);
    assert after[|inters|] == data;
    forall i | 0 <= i < |inters|
      ensures RelSet(inters[i]) !! RelSet(data)
      ensures Exact(q, applied + {p}, after[i]) && Connected(EdgesOf(applied + {p}), RelSet(after[i]))
    {
      Bystander(q, applied, inters[i], p, RelSet(data));
    }
    forall x | x in applied + {p}
      ensures Grouped(x, after)
    {
      if x in applied {
        assert Grouped(x, inters);
        var i :| 0 <= i < |inters| && x.Rels() <= RelSet(inters[i]);
        assert x.Rels() <= RelSet(after[i]);
      }
    }
  }

  /** What one intermediate grows to: its relations and, when the predicate is about one that is in
      none, that one. */
  lemma GrownConnected(applied: set<Pred>, p: Pred, on: set<nat>)
    requires Connected(EdgesOf(applied), on) && !(p.Rels() !! on)
    ensures Connected(EdgesOf(applied + {p}), on + p.Rels())
  {
    hide Connected;
    if p.Rels() <= on {
      StillConnected(applied, p, on);
      assert on + p.Rels() == on;
    } else {
      var y :| y in p.Rels() && y !in on;
      SingletonConnected(EdgesOf(applied), y);
      NowConnected(applied, p, on, {y});
      assert on + {y} == on + p.Rels();
    }
  }

  /** One intermediate replaced by one that adds the predicate's relations, of which some were its
      own and the others were in none. */
  lemma ReplaceInv(q: Query, applied: set<Pred>, inters: seq<Inter>, at: nat, p: Pred, data: Inter)
    requires q.Valid() && Inv(q, applied, inters) && q.HasPred(p) && at < |inters|
    requires Exact(q, applied + {p}, data) && !(p.Rels() !! RelSet(inters[at]))
    requires RelSet(data) == RelSet(inters[at]) + p.Rels()
    requires forall r :: r in RelSet(data) ==> r < |q.rels| && (r in RelSet(inters[at]) || IsNew(inters, r))
    ensures Inv(q, applied + {p}, inters[at := data])
  {
    hide Exact, Connected, EdgesOf, Pred.Rels;
    var after := inters[at := data];
    assert Known(q, inters[at]);
    GrownConnected(applied, p, RelSet(inters[at]));
    forall i | 0 <= i < |inters| && i != at
      ensures RelSet(inters[i]) !! RelSet(data)
      ensures Exact(q, applied + {p}, after[i]) && Connected(EdgesOf(applied + {p}), RelSet(after[i]))
    {
      Bystander(q, applied, inters[i], p, RelSet(data));
    }
    forall x | x in applied + {p}
      ensures Grouped(x, after)
    {
      if x in applied {
        assert Grouped(x, inters);
        var i :| 0 <= i < |inters| && x.Rels() <= RelSet(inters[i]);
        assert x.Rels() <= RelSet(after[i]);
      } else {
        assert x.Rels() <= RelSet(after[at]);
      }
    }
  }

  function Without<T>(s: seq<T>, i: nat): (r: seq<T>)
    requires i < |s|
    ensures |r| == |s| - 1
    ensures forall k :: 0 <= k < |r| ==> r[k] == s[if k < i then k else k + 1]
  {
    s[..i] + s[i + 1..]
  }

  /** After a merge the predicates' relations are still together. */
  lemma MergeGrouped(inters: seq<Inter>, i: nat, j: nat, x: Pred, data: Inter)
    requires i < |inters| && j < |inters| && i != j
    requires RelSet(inters[i]) + RelSet(inters[j]) <= RelSet(data)
    requires Grouped(x, inters) || x.Rels() <= RelSet(data)
    ensures Grouped(x, Without(inters[i := data], j))
  {
    var merged := inters[i := data];
    var k := i;
    if Grouped(x, inters) {
      k :| 0 <= k < |inters| && x.Rels() <= RelSet(inters[k]);
      k := if k == j then i else k;
    }
    assert x.Rels() <= RelSet(merged[k]);
    assert Without(merged, j)[if k < j then k else k - 1] == merged[k];
  }

  /** Two intermediates merged into the first, the second deleted. */
  lemma MergeInv(q: Query, applied: set<Pred>, inters: seq<Inter>, i: nat, j: nat, p: Pred, data: Inter)
    requires q.Valid() && Inv(q, applied, inters) && q.HasPred(p) && i < |inters| && j < |inters| && i != j
    requires Exact(q, applied + {p}, data) && p.Rels() <= RelSet(data) == RelSet(inters[i]) + RelSet(inters[j])
    requires !(p.Rels() !! RelSet(inters[i])) && !(p.Rels() !! RelSet(inters[j]))
    ensures Inv(q, applied + {p}, Without(inters[i := data], j))
  {
    hide Exact, RelSet, Grouped, Connected, EdgesOf;
    var merged := inters[i := data];
    NowConnected(applied, p, RelSet(inters[i]), RelSet(inters[j]));
    forall k | 0 <= k < |inters| && k != i && k != j
      ensures RelSet(inters[k]) !! RelSet(data)
      ensures Exact(q, applied + {p}, merged[k]) && Connected(EdgesOf(applied + {p}), RelSet(merged[k]))
    {
      Bystander(q, applied, inters[k], p, RelSet(data));
    }
    assert Known(q, data) by {
      assert Known(q, inters[i]) && Known(q, inters[j]);
    }
    forall x | x in applied + {p}
      ensures Grouped(x, Without(merged, j))
    {
      MergeGrouped(inters, i, j, x, data);
    }
  }
}

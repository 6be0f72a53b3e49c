/** The radix hash join, and the warehouses that keep reordered columns and indexes across joins. */
module RadixJoin {
  import opened Words
  import opened Bags
  import opened JoinSpec
  import opened Reordered
  import opened Index
  import opened Reorder
  import opened ResultLists
  import opened Probe

  predicate HasColumn(db: Database, rel: nat, col: nat) {
    rel < |db| && col < |db[rel]|
  }

  /** A relation to join, and the base column it was made from. */
  datatype Relation = Relation(tuples: seq<Tuple>, realRel: nat, realCol: nat) {

    /** The whole base column, not empty. */
    predicate IsBase(db: Database) {
      HasColumn(db, realRel, realCol) && tuples == Forge(db[realRel][realCol]) && tuples != []
    }
  }

  datatype IndexEntry = IndexEntry(rel: nat, col: nat, hash1: nat, indexes: seq<seq<RelationIndex>>)
  datatype ReEntry = ReEntry(rel: nat, col: nat, hash1: nat, ror: ReorderedR)

  /** `slots` is an index, with 2^h slots, over some reordering of `tuples`. */
  ghost predicate Indexes(slots: seq<seq<RelationIndex>>, tuples: seq<Tuple>, h: nat) {
    exists ror: ReorderedR :: IsReordering(tuples, Pow2(h), ror) && IsIndexOf(slots, ror.tuples, h)
  }

  class Warehouses {
    var index: seq<IndexEntry>
    var re: seq<ReEntry>
    var best: map<(nat, nat), ReorderedR>

    /** Every entry is about the whole base column it names. */
    ghost predicate Coherent(db: Database)
      reads this
    {
      && (forall i :: 0 <= i < |index| ==>
            && HasColumn(db, index[i].rel, index[i].col)
            && Indexes(index[i].indexes, Forge(db[index[i].rel][index[i].col]), index[i].hash1))
      && (forall i :: 0 <= i < |re| ==>
            && HasColumn(db, re[i].rel, re[i].col)
            && IsReordering(Forge(db[re[i].rel][re[i].col]), Pow2(re[i].hash1), re[i].ror))
      && (forall i, j :: 0 <= i < j < |index| ==> (index[i].rel, index[i].col) != (index[j].rel, index[j].col))
    }

    ghost predicate HasIndex(rel: nat, col: nat)
      reads this`index
    {
      exists i :: 0 <= i < |index| && index[i].rel == rel && index[i].col == col
    }

    /** A best reordering is only kept for a column that is indexed, but for columns in `pending`. */
    ghost predicate BestIndexed(pending: set<(nat, nat)>)
      reads this
    {
      forall k :: k in best ==> k in pending || HasIndex(k.0, k.1)
    }

    ghost predicate Valid(db: Database)
      reads this
    {
      Coherent(db) && BestIndexed({})
    }

    /** initialiseWarehouses: nothing cached. */
    constructor (ghost db: Database)
      ensures Valid(db)
    {
      index, re, best := [], [], map[];
    }

    method FetchFromIndexWarehouse(rel: nat, col: nat) returns (e: Option<IndexEntry>)
      ensures e.Some? ==> e.value in index && e.value.rel == rel && e.value.col == col
      ensures e.Some? <==> HasIndex(rel, col)
    {
      for i := 0 to |index|
        invariant forall j :: 0 <= j < i ==> index[j].rel != rel || index[j].col != col
      {
        if index[i].rel == rel && index[i].col == col {
          return Some(index[i]);
        }
      }
      e := None;
    }

    /** Without an exponent, the best reordering of the column; else one with that exponent. */
    method FetchFromReWarehouse(rel: nat, col: nat, hash1: Exponent) returns (r: Option<ReorderedR>)
      ensures hash1.None? ==> r == if (rel, col) in best then Some(best[(rel, col)]) else None
      ensures hash1.Some? && r.Some? ==> ReEntry(rel, col, hash1.value, r.value) in re
      ensures hash1.Some? && r.None? ==>
                forall a {:trigger ReEntry(rel, col, hash1.value, a)} :: ReEntry(rel, col, hash1.value, a) !in re
    {
      if hash1.None? {
        return if (rel, col) in best then Some(best[(rel, col)]) else None;
      }
      for i := 0 to |re|
        invariant forall j :: 0 <= j < i ==> re[j].rel != rel || re[j].col != col || re[j].hash1 != hash1.value
      {
        if re[i].rel == rel && re[i].col == col && re[i].hash1 == hash1.value {
          return Some(re[i].ror);
        }
      }
      r := None;
    }

    method AddToIndexWarehouse(rel: nat, col: nat, hash1: nat, indexes: seq<seq<RelationIndex>>, ghost db: Database)
      requires Coherent(db) && !HasIndex(rel, col) && BestIndexed({(rel, col)})
      requires HasColumn(db, rel, col) && Indexes(indexes, Forge(db[rel][col]), hash1)
      modifies this`index
      ensures Valid(db) && index == old(index) + [IndexEntry(rel, col, hash1, indexes)] && HasIndex(rel, col)
    {
      hide Indexes, IsReordering;
      index := index + [IndexEntry(rel, col, hash1, indexes)];
      assert index[|index| - 1].rel == rel;
      forall k | k in best
        ensures HasIndex(k.0, k.1)
      {
        if k != (rel, col) {
          var i :| 0 <= i < |old(index)| && old(index)[i].rel == k.0 && old(index)[i].col == k.1;
          assert index[i].rel == k.0;
        }
      }
    }

    method AddToReWarehouse(rel: nat, col: nat, hash1: nat, ror: ReorderedR, isBest: bool,
                            ghost db: Database, ghost pending: set<(nat, nat)>)
      requires Coherent(db) && BestIndexed(pending)
      requires HasColumn(db, rel, col) && IsReordering(Forge(db[rel][col]), Pow2(hash1), ror)
      modifies this`re, this`best
      ensures Coherent(db) && BestIndexed(if isBest then pending + {(rel, col)} else pending)
      ensures re == old(re) + [ReEntry(rel, col, hash1, ror)]
      ensures best == if isBest then old(best)[(rel, col) := ror] else old(best)
    {
      hide Indexes, IsReordering;
      if isBest {
        best := best[(rel, col) := ror];
      }
      re := re + [ReEntry(rel, col, hash1, ror)];
    }
  }

  /** What is ready for indexing and probing: the side to index, cached or reordered, and the
      probing side reordered with the same exponent. */
  ghost predicate Ready(x: seq<Tuple>, y: seq<Tuple>, cached: Option<seq<seq<RelationIndex>>>,
                        ror: Option<ReorderedR>, ros: ReorderedR, h: Exponent)
  {
    if cached.Some? then
      h.Some? && Indexes(cached.value, x, h.value) && IsReordering(y, Pow2(h.value), ros)
    else
      && ror.Some?
      && (h.Some? ==> IsReordering(x, Pow2(h.value), ror.value) && IsReordering(y, Pow2(h.value), ros))
      && (h.None? ==> x == y == [] && ror.value == ros == ReorderedR([], []))
  }

  /** Two base columns: use an index of either, else reorder both and keep the reorderings. */
  method PrepareBases(w: Warehouses, rRel: Relation, sRel: Relation, ghost db: Database)
    returns (indArr: Option<seq<seq<RelationIndex>>>, ror: Option<ReorderedR>, ros: ReorderedR,
             h1: Exponent, switched: nat)
    requires w.Valid(db) && rRel.IsBase(db) && sRel.IsBase(db)
    modifies w`re, w`best
    ensures w.Coherent(db) && h1.Some? && switched <= 1
    ensures old(w.HasIndex(rRel.realRel, rRel.realCol)) ==> switched == 0
    ensures old(!w.HasIndex(rRel.realRel, rRel.realCol) && w.HasIndex(sRel.realRel, sRel.realCol)) ==> switched == 1
    ensures old(!w.HasIndex(rRel.realRel, rRel.realCol) && !w.HasIndex(sRel.realRel, sRel.realCol)) ==>
              (switched == 0 <==> |rRel.tuples| < |sRel.tuples|)
    ensures old(w.re) <= w.re
    ensures indArr.Some? <==> var x := if switched == 0 then rRel else sRel; w.HasIndex(x.realRel, x.realCol)
    ensures Ready(if switched == 0 then rRel.tuples else sRel.tuples,
                  if switched == 0 then sRel.tuples else rRel.tuples, indArr, ror, ros, h1)
    ensures var x := if switched == 0 then rRel else sRel;
      w.BestIndexed(if indArr.Some? then {} else {(x.realRel, x.realCol)})
  {
    hide IsReordering, Indexes;
    indArr, ror, h1, switched := None, None, None, 0;
    var e := w.FetchFromIndexWarehouse(rRel.realRel, rRel.realCol);
    if e.None? {
      e := w.FetchFromIndexWarehouse(sRel.realRel, sRel.realCol);
      if e.Some? {
        switched := 1;
      }
    }
    if e.Some? {
      indArr, h1 := Some(e.value.indexes), Some(e.value.hash1);
      var probing := if switched == 0 then sRel else rRel;
      ros := Reordering(w, probing, e.value.hash1, db, {});
    } else {
      var kept := w.FetchFromReWarehouse(rRel.realRel, rRel.realCol, None);
      var kept' := w.FetchFromReWarehouse(sRel.realRel, sRel.realCol, None);
      // a kept best reordering would mean a cached index: neither is ever reused here
      assert kept.None? && kept'.None?;
      switched := if |rRel.tuples| < |sRel.tuples| then 0 else 1;
      var x, y := if switched == 0 then rRel else sRel, if switched == 0 then sRel else rRel;
      var r;
      r, ros, h1 := ReorderBases(w, x, y, db);
      ror := Some(r);
    }
  }

  /** Reorders the side to index, as the best reordering of its column, and then the other one. */
  method ReorderBases(w: Warehouses, x: Relation, y: Relation, ghost db: Database)
    returns (ror: ReorderedR, ros: ReorderedR, h1: Exponent)
    requires w.Valid(db) && x.IsBase(db) && y.IsBase(db)
    modifies w`re, w`best
    ensures w.Coherent(db) && old(w.re) <= w.re && w.BestIndexed({(x.realRel, x.realCol)})
    ensures h1.Some? && Ready(x.tuples, y.tuples, None, Some(ror), ros, h1)
  {
    hide IsReordering, Indexes;
    ror, h1 := ReorderRelation(x.tuples, None);
    w.AddToReWarehouse(x.realRel, x.realCol, h1.value, ror, true, db, {});
    ros, h1 := ReorderRelation(y.tuples, h1);
    w.AddToReWarehouse(y.realRel, y.realCol, h1.value, ros, false, db, {(x.realRel, x.realCol)});
  }

  /** A base column reordered with a given exponent: a kept one, or a new one that is kept. */
  method Reordering(w: Warehouses, r: Relation, h: nat, ghost db: Database, ghost pending: set<(nat, nat)>)
    returns (ros: ReorderedR)
    requires w.Coherent(db) && w.BestIndexed(pending) && r.IsBase(db)
    modifies w`re, w`best
    ensures w.Coherent(db) && w.BestIndexed(pending) && IsReordering(r.tuples, Pow2(h), ros)
    ensures ReEntry(r.realRel, r.realCol, h, ros) in w.re && w.best == old(w.best) && old(w.re) <= w.re
  {
    hide IsReordering, Indexes;
    var kept := w.FetchFromReWarehouse(r.realRel, r.realCol, Some(h));
    if kept.Some? {
      return kept.value;
    }
    var h';
    ros, h' := ReorderRelation(r.tuples, Some(h));
    w.AddToReWarehouse(r.realRel, r.realCol, h'.value, ros, false, db, pending);
  }

  /** The second side is a base column, the first an intermediate: index the base column. */
  method PrepareWithBase(w: Warehouses, rRel: Relation, sRel: Relation, ghost db: Database)
    returns (indArr: Option<seq<seq<RelationIndex>>>, ror: Option<ReorderedR>, ros: ReorderedR, h1: Exponent)
    requires w.Valid(db) && sRel.IsBase(db)
    modifies w`re, w`best
    ensures w.Coherent(db) && h1.Some? && old(w.re) <= w.re
    ensures indArr.Some? <==> w.HasIndex(sRel.realRel, sRel.realCol)
    ensures Ready(sRel.tuples, rRel.tuples, indArr, ror, ros, h1)
    ensures w.BestIndexed(if indArr.Some? then {} else {(sRel.realRel, sRel.realCol)})
  {
    hide IsReordering, Indexes;
    indArr, ror, h1 := None, None, None;
    var e := w.FetchFromIndexWarehouse(sRel.realRel, sRel.realCol);
    if e.Some? {
      indArr, h1 := Some(e.value.indexes), Some(e.value.hash1);
    } else {
      var kept := w.FetchFromReWarehouse(sRel.realRel, sRel.realCol, None);
      assert kept.None?;  // no best reordering without an index
      var r;
      r, h1 := ReorderRelation(sRel.tuples, None);
      w.AddToReWarehouse(sRel.realRel, sRel.realCol, h1.value, r, true, db, {});
      ror := Some(r);
    }
    ros, h1 := ReorderRelation(rRel.tuples, h1);
  }

  /** Both sides are intermediates: reorder both, the smaller one to be indexed; keep nothing. */
  method PrepareIntermediates(rRel: Relation, sRel: Relation)
    returns (ror: Option<ReorderedR>, ros: ReorderedR, h1: Exponent, switched: nat)
    ensures switched == if |rRel.tuples| <= |sRel.tuples| then 0 else 1
    ensures h1.None? <==> rRel.tuples == [] && sRel.tuples == []
    ensures Ready(if switched == 0 then rRel.tuples else sRel.tuples,
                  if switched == 0 then sRel.tuples else rRel.tuples, None, ror, ros, h1)
  {
    switched := if |rRel.tuples| <= |sRel.tuples| then 0 else 1;
    var x, y := if switched == 0 then rRel else sRel, if switched == 0 then sRel else rRel;
    var r;
    r, h1 := ReorderRelation(x.tuples, None);
    ror := Some(r);
    ros, h1 := ReorderRelation(y.tuples, h1);
  }

  /** Two sides made ready and indexed join to the nested loops' pairs. */
  lemma ReadyJoin(x: seq<Tuple>, y: seq<Tuple>, slots: seq<seq<RelationIndex>>, ros: ReorderedR, h: nat)
    returns (indexed: seq<Tuple>)
    requires Indexes(slots, x, h) && IsReordering(y, Pow2(h), ros)
    ensures IsIndexOf(slots, indexed, h) && ros.WellFormed(Pow2(h))
    ensures multiset(Flatten(SearchBuckets(slots, ros, |ros.psum|, h))) == multiset(NestedLoop(x, y))
  {
    var ror :| IsReordering(x, Pow2(h), ror) && IsIndexOf(slots, ror.tuples, h);
    indexed := ror.tuples;
    RadixJoinIsNestedLoop(slots, x, ror, y, ros, h);
  }

  /** The radix hash join. `switched` says on entry what the two sides are (0: two base columns,
      1: the second one is, 2: none) and on return which side was indexed: the first (0) or the
      second (1). Of two base columns that is one with an index already, the first before the second;
      without any, the smaller one, the second when they are of equal size. A pair's rowR comes from
      the indexed side, its rowS from the probing one. */
  method RadixHashJoin(w: Warehouses, rRel: Relation, sRel: Relation, switchedIn: nat, ghost db: Database)
    returns (results: HeadResult, switched: nat)
    requires w.Valid(db) && switchedIn <= 2
    requires switchedIn == 0 ==> rRel.IsBase(db)
    requires switchedIn <= 1 ==> sRel.IsBase(db)
    modifies w
    ensures w.Valid(db)
    ensures results.Valid() && results.buffTuple == null && fresh(results.Repr)
    ensures switched <= 1 && (switchedIn == 1 ==> switched == 1)
    ensures switchedIn == 0 && old(w.HasIndex(rRel.realRel, rRel.realCol)) ==> switched == 0
    ensures switchedIn == 0 && old(!w.HasIndex(rRel.realRel, rRel.realCol)) ==>
              (old(w.HasIndex(sRel.realRel, sRel.realCol)) ==> switched == 1)
    ensures switchedIn == 0 && old(!w.HasIndex(rRel.realRel, rRel.realCol)) ==>
              (old(!w.HasIndex(sRel.realRel, sRel.realCol)) ==>
                 (switched == 0 <==> |rRel.tuples| < |sRel.tuples|))
    ensures switchedIn == 2 ==> (switched == 0 <==> |rRel.tuples| <= |sRel.tuples|)
    ensures old(w.index) <= w.index && old(w.re) <= w.re
    ensures switchedIn == 2 ==> w.index == old(w.index) && w.re == old(w.re) && w.best == old(w.best)
    ensures switchedIn <= 1 ==>
              var side := if switched == 0 then rRel else sRel; w.HasIndex(side.realRel, side.realCol)
    ensures multiset(results.Contents())
         == multiset(if switched == 0 then NestedLoop(rRel.tuples, sRel.tuples)
                     else NestedLoop(sRel.tuples, rRel.tuples))
  {
    hide IsReordering, IsIndexOf, HeadResult.Valid, HeadResult.Contents, NestedLoop, Flatten, SearchBuckets,
      Warehouses.Coherent, Warehouses.HasIndex, Indexes;
    var indArr, ror, ros, h1 := None, None, ReorderedR([], []), None;
    switched := switchedIn;
    if switchedIn == 0 {
      indArr, ror, ros, h1, switched := PrepareBases(w, rRel, sRel, db);
    } else if switchedIn == 1 {
      indArr, ror, ros, h1 := PrepareWithBase(w, rRel, sRel, db);
    } else {
      ror, ros, h1, switched := PrepareIntermediates(rRel, sRel);
    }
    ghost var x := if switched == 0 then rRel.tuples else sRel.tuples;
    ghost var y := if switched == 0 then sRel.tuples else rRel.tuples;
    if h1.None? {
      results := JoinNothing(ror.value, ros);
      return;
    }
    var slots;
    if indArr.Some? {
      slots := indArr.value;
    } else {
      slots := IndexReordered(ror.value, x, h1.value);
      if switchedIn <= 1 {
        var side := if switched == 0 then rRel else sRel;
        w.AddToIndexWarehouse(side.realRel, side.realCol, h1.value, slots, db);
      }
    }
    ghost var indexed := ReadyJoin(x, y, slots, ros, h1.value);
    results := SearchThreadVer(slots, ros, indexed, h1.value);
  }

  /** Two empty sides leave the exponent at 100, so that the number of slots comes from converting
      2^100 to 64 bits, which C leaves undefined. Whatever number it gives, none included, the index is
      never looked at and there are no pairs. */
  method JoinNothing(ror: ReorderedR, ros: ReorderedR) returns (results: HeadResult)
    requires ror == ros == ReorderedR([], [])
    ensures results.Valid() && results.buffTuple == null && fresh(results.Repr)
    ensures results.Contents() == NestedLoop([], [])
  {
    EmptyReordering(FIRST_REORDERED);
    hide Covers, Pow2, HeadResult.Valid, HeadResult.Contents;
    var sizeOfIndexArray: nat := *;
    var slots := Indexing(ror, FIRST_REORDERED, sizeOfIndexArray);
    results := SearchThreadVer(slots, ros, [], FIRST_REORDERED);
  }

  method IndexReordered(ror: ReorderedR, ghost x: seq<Tuple>, hash1: nat) returns (slots: seq<seq<RelationIndex>>)
    requires IsReordering(x, Pow2(hash1), ror)
    ensures Indexes(slots, x, hash1)
  {
    hide Covers;
    slots := Indexing(ror, hash1, Pow2(hash1));
  }

  lemma EmptyReordering(h: nat)
    ensures IsReordering([], Pow2(h), ReorderedR([], []))
  {
  }
}

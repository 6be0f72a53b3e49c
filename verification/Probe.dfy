/** Probing the chained index with the other relation, sequentially or one job per bucket. */
module Probe {
  import opened Words
  import opened Bags
  import opened JoinSpec
  import opened Reordered
  import opened Index
  import opened ResultLists

  /** The pairs met on a chain: those positions whose key really equals the probe's. */
  function MatchesAt(rel: seq<Tuple>, at: seq<nat>, t: Tuple): seq<RowPair>
    requires forall i :: 0 <= i < |at| ==> at[i] < |rel|
  {
    if at == [] then []
    else (if rel[at[0]].key == t.key then [RowPair(rel[at[0]].payload, t.payload)] else [])
         + MatchesAt(rel, at[1..], t)
  }

  /** What one index yields for one tuple: the matches along the tuple's chain. */
  function ProbeOne(index: RelationIndex, t: Tuple, hash1: nat): seq<RowPair> {
    MatchesAt(index.rel,
              Positions(index.rel, hash1, index.hash2, Hashing(t.key, hash1, index.hash2), |index.rel|), t)
  }

  function ProbeAll(index: RelationIndex, tuples: seq<Tuple>, hash1: nat): seq<RowPair> {
    if tuples == [] then [] else ProbeOne(index, tuples[0], hash1) + ProbeAll(index, tuples[1..], hash1)
  }

  /** What the indexes of one slot yield for one bucket of the other relation. */
  function SearchKey(indexes: seq<RelationIndex>, tuples: seq<Tuple>, hash1: nat): seq<RowPair> {
    if indexes == [] then [] else ProbeAll(indexes[0], tuples, hash1) + SearchKey(indexes[1..], tuples, hash1)
  }

  /** The pairs of each of the first `n` buckets of `s`. */
  function SearchBuckets(slots: seq<seq<RelationIndex>>, s: ReorderedR, n: nat, hash1: nat): (parts: seq<seq<RowPair>>)
    requires s.WellFormed(Pow2(hash1)) && n <= |s.psum| && (n > 0 ==> |slots| == Pow2(hash1))
    ensures |parts| == n
  {
    if n == 0 then []
    else
      assert s.psum[n - 1].offset < s.End(n - 1);
      SearchBuckets(slots, s, n - 1, hash1) + [SearchKey(slots[s.psum[n - 1].h1Res], s.Bucket(n - 1), hash1)]
  }

  /* ----- the bag of pairs is that of the nested loops ----- */

  /** Positions off the probe's chain cannot hold its key. */
  lemma {:induction false} ChainHasAllMatches(rel: seq<Tuple>, hash1: nat, hash2: nat, t: Tuple, n: nat)
    requires n <= |rel|
    ensures multiset(MatchesAt(rel, Positions(rel, hash1, hash2, Hashing(t.key, hash1, hash2), n), t))
         == multiset(Matches(rel[..n], t))
  {
    hide Hashing, Matches, MatchesAt;
    if n == 0 {
      assert rel[..n] == [];
      EmptyProbe(rel, t);
    } else {
      var rest := Positions(rel, hash1, hash2, Hashing(t.key, hash1, hash2), n - 1);
      ChainHasAllMatches(rel, hash1, hash2, t, n - 1);
      ChainStep(rel, hash1, hash2, t, n, rest);
      assert rel[..n] == rel[..n - 1] + [rel[n - 1]];
      MatchesSnoc(rel[..n - 1], rel[n - 1], t);
    }
  }

  lemma EmptyProbe(rel: seq<Tuple>, t: Tuple)
    ensures MatchesAt(rel, [], t) == Matches([], t)
  {
  }

  /** The tuple a step looks at, as a list of at most one pair. */
  function Pair(x: Tuple, t: Tuple): seq<RowPair> {
    if x.key == t.key then [RowPair(x.payload, t.payload)] else []
  }

  lemma MatchesSnoc(r: seq<Tuple>, x: Tuple, t: Tuple)
    ensures multiset(Matches(r + [x], t)) == multiset(Matches(r, t)) + multiset(Pair(x, t))
  {
    MatchesAppend(r, [x], t);
    assert Matches([x], t) == Pair(x, t) + Matches([], t);
  }

  /** Position `n - 1` contributes its own pair, whether or not it is on the probe's chain. */
  lemma ChainStep(rel: seq<Tuple>, hash1: nat, hash2: nat, t: Tuple, n: nat, rest: seq<nat>)
    requires 0 < n <= |rel| && rest == Positions(rel, hash1, hash2, Hashing(t.key, hash1, hash2), n - 1)
    ensures multiset(MatchesAt(rel, Positions(rel, hash1, hash2, Hashing(t.key, hash1, hash2), n), t))
         == multiset(MatchesAt(rel, rest, t)) + multiset(Pair(rel[n - 1], t))
  {
    hide Hashing;
    var h, x := Hashing(t.key, hash1, hash2), rel[n - 1];
    var at := Positions(rel, hash1, hash2, h, n);
    if Hashing(x.key, hash1, hash2) == h {
      assert at == [n - 1] + rest && at[1..] == rest;
      assert MatchesAt(rel, at, t) == Pair(x, t) + MatchesAt(rel, rest, t);
    } else {
      assert x.key != t.key;
    }
  }

  lemma {:induction false} ProbeAllIsJoin(index: RelationIndex, tuples: seq<Tuple>, hash1: nat)
    ensures multiset(ProbeAll(index, tuples, hash1)) == multiset(NestedLoop(index.rel, tuples))
  {
    if tuples != [] {
      ChainHasAllMatches(index.rel, hash1, index.hash2, tuples[0], |index.rel|);
      assert index.rel[..|index.rel|] == index.rel;
      ProbeAllIsJoin(index, tuples[1..], hash1);
    }
  }

  lemma {:induction false} SearchKeyIsJoin(indexes: seq<RelationIndex>, tuples: seq<Tuple>, hash1: nat)
    ensures multiset(SearchKey(indexes, tuples, hash1)) == multiset(NestedLoop(Slices(indexes), tuples))
  {
    if indexes == [] {
      NestedLoopDisjoint([], tuples);
    } else {
      SlicesCons(indexes);
      ProbeAllIsJoin(indexes[0], tuples, hash1);
      SearchKeyIsJoin(indexes[1..], tuples, hash1);
      NestedLoopSplit(indexes[0].rel, Slices(indexes[1..]), tuples);
    }
  }

  lemma SlicesCons(indexes: seq<RelationIndex>)
    requires indexes != []
    ensures Slices(indexes) == indexes[0].rel + Slices(indexes[1..])
  {
    var rest := indexes[1..];
    var rels := seq(|indexes|, k requires 0 <= k < |indexes| => indexes[k].rel);
    assert rels[1..] == seq(|rest|, k requires 0 <= k < |rest| => rest[k].rel);
  }

  /** A tuple only ever meets its own bucket. */
  lemma {:induction false} MatchesInBucket(r: seq<Tuple>, t: Tuple, buckets: nat)
    requires buckets > 0
    ensures Matches(OfBucket(r, buckets, Hash1(t.key, buckets)), t) == Matches(r, t)
  {
    if r != [] {
      MatchesInBucket(r[1..], t, buckets);
      var h := Hash1(t.key, buckets);
      if Hash1(r[0].key, buckets) == h {
        assert OfBucket(r, buckets, h) == [r[0]] + OfBucket(r[1..], buckets, h);
        assert OfBucket(r, buckets, h)[1..] == OfBucket(r[1..], buckets, h);
      } else {
        assert OfBucket(r, buckets, h) == OfBucket(r[1..], buckets, h);
        assert Matches(r, t) == Matches(r[1..], t);
      }
    }
  }

  lemma {:induction false} JoinInBucket(r: seq<Tuple>, s: seq<Tuple>, buckets: nat, h: nat)
    requires buckets > 0
    requires forall j :: 0 <= j < |s| ==> Hash1(s[j].key, buckets) == h
    ensures NestedLoop(OfBucket(r, buckets, h), s) == NestedLoop(r, s)
  {
    if s != [] {
      MatchesInBucket(r, s[0], buckets);
      JoinInBucket(r, s[1..], buckets, h);
    }
  }

  /** One more bucket: its pairs are those of the nested loops over its run of tuples. */
  lemma OneMoreBucket(indexes: seq<RelationIndex>, r: seq<Tuple>, before: seq<Tuple>, run: seq<Tuple>,
                      key: nat, hash1: nat)
    requires Covers(indexes, OfBucket(r, Pow2(hash1), key), key, hash1)
    requires forall j :: 0 <= j < |run| ==> Hash1(run[j].key, Pow2(hash1)) == key
    ensures multiset(NestedLoop(r, before + run))
         == multiset(NestedLoop(r, before)) + multiset(SearchKey(indexes, run, hash1))
  {
    SearchKeyIsJoin(indexes, run, hash1);
    JoinInBucket(r, run, Pow2(hash1), key);
    NestedLoopAppend(r, before, run);
  }

  lemma {:induction false} SearchBucketsJoin(slots: seq<seq<RelationIndex>>, r: seq<Tuple>, s: ReorderedR,
                                             n: nat, hash1: nat)
    requires IsIndexOf(slots, r, hash1) && s.WellFormed(Pow2(hash1)) && n <= |s.psum|
    ensures multiset(Flatten(SearchBuckets(slots, s, n, hash1)))
         == multiset(NestedLoop(r, if n == 0 then [] else s.tuples[..s.End(n - 1)]))
  {
    hide Covers, NestedLoop, SearchKey, Flatten;
    if n == 0 {
      EmptySearch(r);
    } else {
      var w := n - 1;
      assert s.psum[w].offset < s.End(w);
      var key, before, run := s.psum[w].h1Res, s.tuples[..s.psum[w].offset], s.Bucket(w);
      var prior, pairs := SearchBuckets(slots, s, w, hash1), SearchKey(slots[key], run, hash1);
      SearchBucketsJoin(slots, r, s, w, hash1);
      assert before == if w == 0 then [] else s.tuples[..s.End(w - 1)];
      OneMoreBucket(slots[key], r, before, run, key, hash1);
      assert s.tuples[..s.End(w)] == before + run;
      FlattenSnoc(prior, pairs);
    }
  }

  lemma EmptySearch(r: seq<Tuple>)
    ensures Flatten<RowPair>([]) == NestedLoop(r, []) == []
  {
  }

  /** The radix join: index one reordered relation, probe it with the other one bucket at a time.
      As a bag, the pairs are those of the nested loops over the original relations. */
  lemma RadixJoinIsNestedLoop(slots: seq<seq<RelationIndex>>, r: seq<Tuple>, ror: ReorderedR,
                              s: seq<Tuple>, ros: ReorderedR, hash1: nat)
    requires IsReordering(r, Pow2(hash1), ror) && IsReordering(s, Pow2(hash1), ros)
    requires IsIndexOf(slots, ror.tuples, hash1)
    ensures multiset(Flatten(SearchBuckets(slots, ros, |ros.psum|, hash1))) == multiset(NestedLoop(r, s))
  {
    var n := |ros.psum|;
    SearchBucketsJoin(slots, ror.tuples, ros, n, hash1);
    if n > 0 {
      assert ros.tuples[..ros.End(n - 1)] == ros.tuples;
    }
    NestedLoopPermute(ror.tuples, r, ros.tuples, s);
  }

  /* ----- the code ----- */

  lemma MatchesStep(rel: seq<Tuple>, at: seq<nat>, t: Tuple)
    requires forall i :: 0 <= i < |at| ==> at[i] < |rel|
    ensures at == [] ==> MatchesAt(rel, at, t) == []
    ensures at != [] ==>
              MatchesAt(rel, at, t)
              == (if rel[at[0]].key == t.key then [RowPair(rel[at[0]].payload, t.payload)] else [])
                 + MatchesAt(rel, at[1..], t)
  {
  }

  /** Walks the chain of the tuple's hash value and pushes the true matches. */
  method FollowChain(resultList: HeadResult, rIndex: RelationIndex, t: Tuple, hash1: nat)
    requires resultList.Valid() && resultList.Open() && rIndex.Built(hash1)
    modifies resultList.Repr
    ensures resultList.Valid() && resultList.Open() && fresh(resultList.Repr - old(resultList.Repr))
    ensures resultList.Contents() == old(resultList.Contents()) + ProbeOne(rIndex, t, hash1)
  {
    hide HeadResult.Valid, HeadResult.Contents, HeadResult.Open, Hashing, MatchesAt, Pow2;
    MatchesStep(rIndex.rel, [], t);
    var hashRes := Hashing(t.key, hash1, rIndex.hash2);
    ghost var todo := ChainFrom(rIndex.chain, rIndex.buckets[hashRes]);
    var chainPointer := rIndex.buckets[hashRes] as int - 1;
    // EMPTY_BUCKET is -1: no position of the chain
    while chainPointer != -1
      invariant -1 <= chainPointer < |rIndex.chain|
      invariant todo == ChainFrom(rIndex.chain, chainPointer + 1)
      invariant forall i :: 0 <= i < |todo| ==> todo[i] < |rIndex.rel|
      invariant resultList.Valid() && resultList.Open() && fresh(resultList.Repr - old(resultList.Repr))
      invariant resultList.Contents() + MatchesAt(rIndex.rel, todo, t)
             == old(resultList.Contents()) + ProbeOne(rIndex, t, hash1)
      decreases chainPointer
    {
      if rIndex.rel[chainPointer].key == t.key {
        resultList.Push(RowPair(rIndex.rel[chainPointer].payload, t.payload));
      }
      MatchesStep(rIndex.rel, todo, t);
      todo := todo[1..];
      chainPointer := rIndex.chain[chainPointer] as int - 1;
    }
  }

  /** The probe loop over one index. */
  method ProbeIndex(index: RelationIndex, resultList: HeadResult, checkedTuples: seq<Tuple>, hash1: nat)
    requires resultList.Valid() && resultList.Open() && index.Built(hash1)
    modifies resultList.Repr
    ensures resultList.Valid() && resultList.Open() && fresh(resultList.Repr - old(resultList.Repr))
    ensures resultList.Contents() == old(resultList.Contents()) + ProbeAll(index, checkedTuples, hash1)
  {
    hide HeadResult.Valid, HeadResult.Contents, HeadResult.Open, ProbeOne, RelationIndex.Built;
    ghost var start, done := resultList.Contents(), [];
    for whichTup := 0 to |checkedTuples|
      invariant resultList.Valid() && resultList.Open() && fresh(resultList.Repr - old(resultList.Repr))
      invariant resultList.Contents() == start + done
      invariant done + ProbeAll(index, checkedTuples[whichTup..], hash1) == ProbeAll(index, checkedTuples, hash1)
    {
      assert checkedTuples[whichTup..][1..] == checkedTuples[whichTup + 1..];
      FollowChain(resultList, index, checkedTuples[whichTup], hash1);
      ghost var one := ProbeOne(index, checkedTuples[whichTup], hash1);
      assert start + (done + one) == (start + done) + one;
      done := done + one;
    }
  }

  method SearchKeyRec(indexes: seq<RelationIndex>, resultList: HeadResult, checkedTuples: seq<Tuple>, hash1: nat)
    requires resultList.Valid() && resultList.Open()
    requires forall k :: 0 <= k < |indexes| ==> indexes[k].Built(hash1)
    modifies resultList.Repr
    ensures resultList.Valid() && resultList.Open() && fresh(resultList.Repr - old(resultList.Repr))
    ensures resultList.Contents() == old(resultList.Contents()) + SearchKey(indexes, checkedTuples, hash1)
    decreases |indexes|
  {
    hide HeadResult.Valid, HeadResult.Contents, HeadResult.Open, RelationIndex.Built, ProbeAll;
    if indexes != [] {
      ProbeIndex(indexes[0], resultList, checkedTuples, hash1);
      SearchKeyRec(indexes[1..], resultList, checkedTuples, hash1);
    }
  }

  /** The sequential probe. */
  method Search(slots: seq<seq<RelationIndex>>, s: ReorderedR, ghost r: seq<Tuple>, ghost hash1: nat)
    returns (resultList: HeadResult)
    requires IsIndexOf(slots, r, hash1) && s.WellFormed(Pow2(hash1))
    ensures resultList.Valid() && resultList.Packed() && fresh(resultList.Repr)
    ensures resultList.Contents() == Flatten(SearchBuckets(slots, s, |s.psum|, hash1))
  {
    hide HeadResult.Valid, HeadResult.Contents, HeadResult.Open, HeadResult.Packed, Slices, RelationIndex.Built,
      NodeCount;
    resultList := new HeadResult.Buffered();
    for whichKey := 0 to |s.psum|
      invariant resultList.Valid() && resultList.Open() && fresh(resultList.Repr)
      invariant resultList.Contents() == Flatten(SearchBuckets(slots, s, whichKey, hash1))
    {
      assert s.psum[whichKey].offset < s.End(whichKey);
      Log2OfPow2(hash1);
      SearchKeyRec(slots[s.psum[whichKey].h1Res], resultList, s.Bucket(whichKey), Log2(|slots|));
      FlattenSnoc(SearchBuckets(slots, s, whichKey, hash1),
                  SearchKey(slots[s.psum[whichKey].h1Res], s.Bucket(whichKey), hash1));
    }
    resultList.CleanListHead();
  }

  /** The nodes that the given pairs take, bucket by bucket. */
  function NodesOf(parts: seq<seq<RowPair>>): nat {
    if parts == [] then 0
    else NodesOf(parts[..|parts| - 1]) + NodeCount(|parts[|parts| - 1]|)
  }

  lemma NodesOfSnoc(parts: seq<seq<RowPair>>, pairs: seq<RowPair>)
    ensures NodesOf([]) == 0
    ensures NodesOf(parts + [pairs]) == NodesOf(parts) + NodeCount(|pairs|)
  {
    assert (parts + [pairs])[..|parts|] == parts;
  }

  /** A finished job's list. */
  ghost predicate Holds(list: HeadResult, pairs: seq<RowPair>)
    reads list, list.Repr
  {
    && list.Valid() && list.Packed() && list.Contents() == pairs
    && list.numbOfNodes == NodeCount(|pairs|)
  }

  /** One bucket's job: a list of its own. */
  method JoinBucket(indexes: seq<RelationIndex>, tuples: seq<Tuple>, hash1: nat) returns (resultList: HeadResult)
    requires forall k :: 0 <= k < |indexes| ==> indexes[k].Built(hash1)
    ensures fresh(resultList.Repr) && resultList in resultList.Repr
    ensures Holds(resultList, SearchKey(indexes, tuples, hash1))
  {
    hide HeadResult.Valid, HeadResult.Contents, HeadResult.Open, HeadResult.Packed, NodeCount, SearchKey;
    resultList := new HeadResult.Buffered();
    SearchKeyRec(indexes, resultList, tuples, hash1);
    resultList.CleanListHead();
  }

  lemma {:induction false} SearchBucketsAt(slots: seq<seq<RelationIndex>>, s: ReorderedR, n: nat, hash1: nat, w: nat)
    requires s.WellFormed(Pow2(hash1)) && w < n <= |s.psum| && |slots| == Pow2(hash1)
    ensures s.psum[w].offset <= s.End(w) <= |s.tuples|
    ensures SearchBuckets(slots, s, n, hash1)[w] == SearchKey(slots[s.psum[w].h1Res], s.Bucket(w), hash1)
  {
    hide SearchKey;
    assert s.psum[n - 1].offset < s.End(n - 1);
    if w < n - 1 {
      SearchBucketsAt(slots, s, n - 1, hash1, w);
    }
  }

  /** The lists delivered so far hold their buckets' pairs, in memory of their own. */
  ghost predicate Delivered(jobLists: map<nat, HeadResult>, parts: seq<seq<RowPair>>, owned: set<object>)
    reads jobLists.Values, owned
  {
    && (forall w :: w in jobLists ==> jobLists[w] in jobLists[w].Repr && jobLists[w].Repr <= owned)
    && (forall w :: w in jobLists ==> w < |parts| && Holds(jobLists[w], parts[w]))
    && (forall v, w :: v in jobLists && w in jobLists && v != w ==> jobLists[v].Repr !! jobLists[w].Repr)
  }

  /** The job of bucket `whichKey`, with its arguments as the main thread sets them up. */
  method RunJob(slots: seq<seq<RelationIndex>>, s: ReorderedR, whichKey: nat, ghost r: seq<Tuple>, ghost hash1: nat)
    returns (list: HeadResult)
    requires IsIndexOf(slots, r, hash1) && s.WellFormed(Pow2(hash1)) && whichKey < |s.psum|
    ensures fresh(list.Repr) && list in list.Repr
    ensures Holds(list, SearchBuckets(slots, s, |s.psum|, hash1)[whichKey])
  {
    hide Holds, SearchBuckets, SearchKey, Slices, RelationIndex.Built;
    SearchBucketsAt(slots, s, |s.psum|, hash1, whichKey);
    Log2OfPow2(hash1);
    list := JoinBucket(slots[s.psum[whichKey].h1Res], s.Bucket(whichKey), Log2(|slots|));
  }

  lemma DeliverOne(lists: map<nat, HeadResult>, parts: seq<seq<RowPair>>, own: set<object>, w: nat, list: HeadResult)
    requires Delivered(lists, parts, own) && w !in lists && w < |parts|
    requires Holds(list, parts[w]) && list in list.Repr && list.Repr !! own
    ensures Delivered(lists[w := list], parts, own + list.Repr)
  {
    hide Holds;
  }

  /** Some job that has not finished yet finishes next and delivers. */
  method FinishOne(slots: seq<seq<RelationIndex>>, s: ReorderedR, lists: map<nat, HeadResult>,
                   ghost parts: seq<seq<RowPair>>, ghost own: set<object>, ghost r: seq<Tuple>, ghost hash1: nat)
    returns (jobLists: map<nat, HeadResult>, ghost owned: set<object>)
    requires IsIndexOf(slots, r, hash1) && s.WellFormed(Pow2(hash1))
    requires parts == SearchBuckets(slots, s, |s.psum|, hash1)
    requires Delivered(lists, parts, own)
    requires lists.Keys <= Below(|s.psum|) && |lists.Keys| != |s.psum|
    ensures Delivered(jobLists, parts, owned) && own <= owned && fresh(owned - own)
    ensures jobLists.Keys <= Below(|s.psum|) && |jobLists.Keys| == |lists.Keys| + 1
  {
    hide IsIndexOf, ReorderedR.WellFormed, Holds, SearchBuckets, Below, Delivered;
    SomeUnfinished(lists.Keys, |s.psum|);
    var whichKey: nat :| whichKey < |s.psum| && whichKey !in lists.Keys;
    var list := RunJob(slots, s, whichKey, r, hash1);
    assert list.Repr !! own;
    DeliverOne(lists, parts, own, whichKey, list);
    jobLists, owned := lists[whichKey := list], own + list.Repr;
    assert jobLists.Keys == lists.Keys + {whichKey};
    assert whichKey in Below(|s.psum|);
  }

  /** All the buckets' lists, in bucket order. */
  ghost predicate AllDelivered(lists: seq<HeadResult>, parts: seq<seq<RowPair>>, owned: set<object>)
    reads lists, owned
  {
    && |lists| == |parts|
    && (forall w :: 0 <= w < |lists| ==> lists[w] in lists[w].Repr && lists[w].Repr <= owned)
    && (forall w :: 0 <= w < |lists| ==> Holds(lists[w], parts[w]))
    && (forall v, w :: 0 <= v < w < |lists| ==> lists[v].Repr !! lists[w].Repr)
  }

  /** The delivered lists taken in slot order. */
  lemma InOrder(jobLists: map<nat, HeadResult>, lists: seq<HeadResult>, parts: seq<seq<RowPair>>, owned: set<object>)
    requires Delivered(jobLists, parts, owned) && |lists| == |parts|
    requires forall w :: 0 <= w < |lists| ==> w in jobLists && lists[w] == jobLists[w]
    ensures AllDelivered(lists, parts, owned)
  {
    hide Holds;
  }

  lemma NothingDelivered(parts: seq<seq<RowPair>>)
    ensures Delivered(map[], parts, {})
  {
  }

  function InSlots(jobLists: map<nat, HeadResult>, n: nat): (lists: seq<HeadResult>)
    requires Below(n) <= jobLists.Keys
    ensures |lists| == n && forall w :: 0 <= w < n ==> w in jobLists && lists[w] == jobLists[w]
  {
    seq(n, w requires 0 <= w < n && w in jobLists => jobLists[w])
  }

  /** Runs one job per bucket, in whatever order they come to finish. Each delivers its list
      in its own slot, and the barrier opens when as many have finished as there are buckets. */
  method RunJobs(slots: seq<seq<RelationIndex>>, s: ReorderedR, ghost parts: seq<seq<RowPair>>,
                 ghost r: seq<Tuple>, ghost hash1: nat)
    returns (lists: seq<HeadResult>, ghost owned: set<object>)
    requires s.WellFormed(Pow2(hash1)) && (s.psum != [] ==> IsIndexOf(slots, r, hash1))
    requires parts == SearchBuckets(slots, s, |s.psum|, hash1)
    ensures fresh(owned) && AllDelivered(lists, parts, owned)
  {
    hide *;
    SlotsMatch(slots, s, r, hash1);
    var sBuckets, connectedLists := |s.psum|, 0;
    var jobLists: map<nat, HeadResult> := map[];
    owned := {};
    NothingDelivered(parts);
    while connectedLists != sBuckets
      invariant fresh(owned) && Delivered(jobLists, parts, owned)
      invariant jobLists.Keys <= Below(sBuckets) && |jobLists.Keys| == connectedLists <= sBuckets
      decreases sBuckets - connectedLists
    {
      SomeUnfinished(jobLists.Keys, sBuckets);
      jobLists, owned := FinishOne(slots, s, jobLists, parts, owned, r, hash1);
      connectedLists := connectedLists + 1;
    }
    SomeUnfinished(jobLists.Keys, sBuckets);
    lists := InSlots(jobLists, sBuckets);
    InOrder(jobLists, lists, parts, owned);
  }

  /** A delivered list goes to the end of the final one. */
  method ConnectDelivered(finalResultList: HeadResult, list: HeadResult, ghost pairs: seq<RowPair>)
    requires finalResultList.Valid() && finalResultList.buffTuple == null
    requires Holds(list, pairs) && list in list.Repr && finalResultList.Repr !! list.Repr
    modifies finalResultList.Repr
    ensures finalResultList.Valid() && finalResultList.buffTuple == null
    ensures finalResultList.Contents() == old(finalResultList.Contents()) + pairs
    ensures finalResultList.numbOfNodes
         == old(finalResultList.numbOfNodes) + NodeCount(|pairs|)
    ensures finalResultList.Repr <= old(finalResultList.Repr) + list.Repr
  {
    hide HeadResult.Contents, HeadResult.Valid, HeadResult.Packed, NodeCount;
    ConnectResultList(finalResultList, list);
  }

  /** Connects the buckets' lists in bucket order. */
  method ConnectAll(finalResultList: HeadResult, lists: seq<HeadResult>,
                    ghost parts: seq<seq<RowPair>>, ghost owned: set<object>)
    requires finalResultList.Valid() && finalResultList.buffTuple == null
    requires finalResultList.Contents() == [] && finalResultList.numbOfNodes == 0
    requires AllDelivered(lists, parts, owned) && finalResultList.Repr !! owned
    modifies finalResultList.Repr, owned
    ensures finalResultList.Valid() && finalResultList.buffTuple == null
    ensures finalResultList.Contents() == Flatten(parts) && finalResultList.numbOfNodes == NodesOf(parts)
    ensures finalResultList.Repr <= old(finalResultList.Repr) + owned
  {
    NodesOfSnoc([], []);
    EmptySearch([]);
    hide HeadResult.Contents, HeadResult.Valid, Holds, Flatten, NodesOf, NodeCount;
    for whichList := 0 to |lists|
      invariant finalResultList.Valid() && finalResultList.buffTuple == null
      invariant finalResultList.Contents() == Flatten(parts[..whichList])
      invariant finalResultList.numbOfNodes == NodesOf(parts[..whichList])
      invariant forall w :: whichList <= w < |lists| ==>
                  lists[w].Repr == old(lists[w].Repr) && lists[w] in lists[w].Repr
      invariant forall w :: whichList <= w < |lists| ==> Holds(lists[w], parts[w])
      invariant forall w :: whichList <= w < |lists| ==> finalResultList.Repr !! old(lists[w].Repr)
      invariant finalResultList.Repr <= old(finalResultList.Repr) + owned
    {
      assert parts[..whichList + 1] == parts[..whichList] + [parts[whichList]];
      FlattenSnoc(parts[..whichList], parts[whichList]);
      NodesOfSnoc(parts[..whichList], parts[whichList]);
      ConnectDelivered(finalResultList, lists[whichList], parts[whichList]);
    }
    assert parts[..|parts|] == parts;
  }

  /** The threaded probe: the buckets' lists are connected in bucket order, so the result is the
      sequential one whatever order the jobs finished in. Without tuples to probe with there are no
      jobs, and the index is not looked at. */
  method SearchThreadVer(slots: seq<seq<RelationIndex>>, s: ReorderedR, ghost r: seq<Tuple>, ghost hash1: nat)
    returns (finalResultList: HeadResult)
    requires s.WellFormed(Pow2(hash1)) && (s.psum != [] ==> IsIndexOf(slots, r, hash1))
    ensures finalResultList.Valid() && finalResultList.buffTuple == null && fresh(finalResultList.Repr)
    ensures finalResultList.Contents() == Flatten(SearchBuckets(slots, s, |s.psum|, hash1))
    ensures finalResultList.numbOfNodes == NodesOf(SearchBuckets(slots, s, |s.psum|, hash1))
  {
    hide *;
    SlotsMatch(slots, s, r, hash1);
    ghost var parts := SearchBuckets(slots, s, |s.psum|, hash1);
    var lists, owned := RunJobs(slots, s, parts, r, hash1);
    finalResultList := ConnectLists(lists, parts, owned);
  }

  lemma SlotsMatch(slots: seq<seq<RelationIndex>>, s: ReorderedR, r: seq<Tuple>, hash1: nat)
    requires s.psum != [] ==> IsIndexOf(slots, r, hash1)
    ensures s.psum != [] ==> |slots| == Pow2(hash1)
  {
  }

  /** The delivered lists as one. */
  method ConnectLists(lists: seq<HeadResult>, ghost parts: seq<seq<RowPair>>, ghost owned: set<object>)
    returns (finalResultList: HeadResult)
    requires AllDelivered(lists, parts, owned)
    modifies owned
    ensures finalResultList.Valid() && finalResultList.buffTuple == null
    ensures finalResultList.Contents() == Flatten(parts) && finalResultList.numbOfNodes == NodesOf(parts)
    ensures forall o :: o in finalResultList.Repr ==> o in owned || fresh(o)
  {
    hide *;
    finalResultList := new HeadResult.NoBuff();
    ConnectAll(finalResultList, lists, parts, owned);
  }
}

/** The chained index over each bucket, split into sub-indexes that fit in the cache. */
module Index {
  import opened Words
  import opened Bags
  import opened JoinSpec
  import opened Reordered

  const CACHE_SIZE: nat := 65536
  const AVAILABLE_CACHE_SIZE: nat := 65536 * 20 / 21

  /** Bytes of an index: its size field, tuples and chain, and bucket array. */
  function Footprint(size: nat, hash2: nat): nat {
    8 + size * 24 + Pow2(hash2) * 8
  }

  /** One index over a slice of a bucket. Entry 0 of `chain` and `buckets` means none;
      any other entry is a position plus one. */
  datatype RelationIndex = RelationIndex(chain: seq<nat>, buckets: seq<nat>, rel: seq<Tuple>, key: nat, hash2: nat) {

    /** Every bucket's chain visits exactly the positions that hash to it, last first. */
    predicate Built(hash1: nat) {
      && |chain| == |rel|
      && Descending(chain)
      && |buckets| == Pow2(hash2)
      && (forall h :: 0 <= h < |buckets| ==>
            buckets[h] <= |chain| && ChainFrom(chain, buckets[h]) == Positions(rel, hash1, hash2, h, |rel|))
    }
  }

  /** Eight bytes for the size and for each entry of the two arrays, sixteen for each tuple. */
  lemma FootprintBytes(index: RelationIndex, hash1: nat)
    requires index.Built(hash1)
    ensures Footprint(|index.rel|, index.hash2)
         == 8 + 16 * |index.rel| + 8 * |index.chain| + 8 * |index.buckets|
  {
  }

  /** Following links only ever leads to smaller positions. */
  predicate Descending(chain: seq<nat>) {
    forall i :: 0 <= i < |chain| ==> chain[i] <= i
  }

  /** The positions met from entry `p` on. */
  function ChainFrom(chain: seq<nat>, p: nat): seq<nat>
    requires Descending(chain) && p <= |chain|
    decreases p
  {
    if p == 0 then [] else [p - 1] + ChainFrom(chain, chain[p - 1])
  }

  /** The positions below `n` that hash to `h`, last first. */
  function Positions(rel: seq<Tuple>, hash1: nat, hash2: nat, h: nat, n: nat): (at: seq<nat>)
    requires n <= |rel|
    ensures forall i :: 0 <= i < |at| ==> at[i] < n
  {
    if n == 0 then []
    else if Hashing(rel[n - 1].key, hash1, hash2) == h then
      [n - 1] + Positions(rel, hash1, hash2, h, n - 1)
    else
      Positions(rel, hash1, hash2, h, n - 1)
  }

  /** They are in strictly decreasing order, and they are exactly those that hash to `h`. */
  lemma {:induction false} PositionsExact(rel: seq<Tuple>, hash1: nat, hash2: nat, h: nat, n: nat)
    requires n <= |rel|
    ensures var at := Positions(rel, hash1, hash2, h, n);
      && (forall i, j :: 0 <= i < j < |at| ==> at[i] > at[j])
      && forall p: nat :: p in at <==> p < n && Hashing(rel[p].key, hash1, hash2) == h
  {
    hide Hashing;
    if n > 0 {
      PositionsExact(rel, hash1, hash2, h, n - 1);
      var rest := Positions(rel, hash1, hash2, h, n - 1);
      PutFirst(rest, n - 1);
    }
  }

  /** A number larger than all the others goes first. */
  lemma PutFirst(rest: seq<nat>, p: nat)
    requires forall i, j :: 0 <= i < j < |rest| ==> rest[i] > rest[j]
    requires forall i :: 0 <= i < |rest| ==> rest[i] < p
    ensures var at := [p] + rest; forall i, j :: 0 <= i < j < |at| ==> at[i] > at[j]
    ensures forall x: nat :: x in [p] + rest <==> x == p || x in rest
  {
  }

  /** A chain depends only on the entries below its start. */
  lemma {:induction false} ChainFrame(a: seq<nat>, b: seq<nat>, p: nat)
    requires Descending(a) && Descending(b) && p <= |a| && p <= |b|
    requires forall i :: 0 <= i < p ==> a[i] == b[i]
    ensures ChainFrom(a, p) == ChainFrom(b, p)
    decreases p
  {
    if p > 0 {
      ChainFrame(a, b, a[p - 1]);
    }
  }

  method UpdateChain(chain: array<nat>, buckets: array<nat>, hash2Index: nat, i: nat)
    requires chain != buckets && hash2Index < buckets.Length && i < chain.Length
    modifies chain, buckets
    ensures chain[..] == old(chain[..])[i := old(buckets[hash2Index])]
    ensures buckets[..] == old(buckets[..])[hash2Index := i + 1]
  {
    var temp := buckets[hash2Index];
    buckets[hash2Index] := i + 1;
    chain[i] := temp;
  }

  /** Links position `i` in front of its bucket's chain, for each position in turn. */
  method BuildIndex(chain: array<nat>, buckets: array<nat>, rel: seq<Tuple>, key: nat, hash1: nat, hash2: nat)
    returns (index: RelationIndex)
    requires chain != buckets && chain.Length == |rel| && buckets.Length == Pow2(hash2)
    requires forall i :: 0 <= i < chain.Length ==> chain[i] == 0
    requires forall h :: 0 <= h < buckets.Length ==> buckets[h] == 0
    modifies chain, buckets
    ensures index == RelationIndex(chain[..], buckets[..], rel, key, hash2)
    ensures index.Built(hash1)
  {
    hide Hashing, Pow2, ChainFrom, Positions, Descending;
    NothingIndexed(chain[..], buckets[..], rel, hash1, hash2);
    for i := 0 to |rel|
      invariant IndexedUpTo(chain[..], buckets[..], rel, hash1, hash2, i)
    {
      hide IndexedUpTo;
      var hash2Index := Hashing(rel[i].key, hash1, hash2);
      IndexNext(chain[..], buckets[..], rel, hash1, hash2, i);
      UpdateChain(chain, buckets, hash2Index, i);
    }
    index := RelationIndex(chain[..], buckets[..], rel, key, hash2);
  }

  /** The first `i` positions are linked into their buckets' chains. */
  predicate IndexedUpTo(chain: seq<nat>, buckets: seq<nat>, rel: seq<Tuple>, hash1: nat, hash2: nat, i: nat) {
    && |chain| == |rel| && |buckets| == Pow2(hash2) && i <= |rel|
    && Descending(chain)
    && (forall h :: 0 <= h < |buckets| ==>
          buckets[h] <= i && ChainFrom(chain, buckets[h]) == Positions(rel, hash1, hash2, h, i))
  }

  lemma NothingIndexed(chain: seq<nat>, buckets: seq<nat>, rel: seq<Tuple>, hash1: nat, hash2: nat)
    requires |chain| == |rel| && |buckets| == Pow2(hash2)
    requires (forall i :: 0 <= i < |chain| ==> chain[i] == 0) && forall h :: 0 <= h < |buckets| ==> buckets[h] == 0
    ensures IndexedUpTo(chain, buckets, rel, hash1, hash2, 0)
  {
  }

  /** Linking position `i` in front of its bucket's chain leaves the other chains alone. */
  lemma IndexNext(chain: seq<nat>, buckets: seq<nat>, rel: seq<Tuple>, hash1: nat, hash2: nat, i: nat)
    requires IndexedUpTo(chain, buckets, rel, hash1, hash2, i) && i < |rel|
    ensures var h := Hashing(rel[i].key, hash1, hash2);
      h < |buckets| && IndexedUpTo(chain[i := buckets[h]], buckets[h := i + 1], rel, hash1, hash2, i + 1)
  {
    hide Hashing, Pow2;
    var h := Hashing(rel[i].key, hash1, hash2);
    var after := chain[i := buckets[h]];
    forall p: nat | p <= i
      ensures ChainFrom(after, p) == ChainFrom(chain, p)
    {
      ChainFrame(after, chain, p);
    }
  }

  /** An index over `rel` with fresh, zeroed arrays. */
  method NewIndex(rel: seq<Tuple>, key: nat, hash1: nat, hash2: nat) returns (index: RelationIndex)
    ensures index.Built(hash1) && index.rel == rel && index.key == key && index.hash2 == hash2
  {
    var chain := new nat[|rel|](_ => 0);
    var buckets := new nat[Pow2(hash2)](_ => 0);
    index := BuildIndex(chain, buckets, rel, key, hash1, hash2);
  }

  /** Splits an oversized bucket: halves the slice until an index over it fits in the cache,
      then takes the largest bucket array that still fits. */
  method RecomputeSizes(sizeAll: nat, hash2: nat) returns (eachSize: nat, hash2Var: nat)
    requires Footprint(1, hash2) <= CACHE_SIZE < Footprint(sizeAll, hash2)
    ensures 0 < eachSize <= sizeAll / 2
    ensures eachSize == sizeAll / 2 || CACHE_SIZE < Footprint(2 * eachSize + 1, hash2)
    ensures Footprint(eachSize, hash2Var) <= CACHE_SIZE
    ensures forall g: nat :: Footprint(eachSize, g) <= CACHE_SIZE ==> g <= hash2Var
  {
    hash2Var := hash2;
    eachSize := sizeAll / 2;
    var sizeOfIndex := Footprint(eachSize, hash2Var);
    while sizeOfIndex > CACHE_SIZE
      invariant 0 < eachSize <= sizeAll / 2
      invariant eachSize == sizeAll / 2 || CACHE_SIZE < Footprint(2 * eachSize + 1, hash2)
      invariant sizeOfIndex == Footprint(eachSize, hash2)
      decreases eachSize
    {
      eachSize := eachSize / 2;
      sizeOfIndex := Footprint(eachSize, hash2Var);
    }
    while sizeOfIndex <= CACHE_SIZE
      invariant sizeOfIndex == Footprint(eachSize, hash2Var)
      invariant hash2Var > hash2 ==> Footprint(eachSize, hash2Var - 1) <= CACHE_SIZE
      invariant hash2Var >= hash2
      invariant hash2Var == hash2 ==> sizeOfIndex <= CACHE_SIZE
      decreases CACHE_SIZE - sizeOfIndex
    {
      hash2Var := hash2Var + 1;
      sizeOfIndex := Footprint(eachSize, hash2Var);
    }
    hash2Var := hash2Var - 1;
    LargestHash2(eachSize, hash2Var);
  }

  /** A larger bucket array takes more. */
  lemma LargestHash2(size: nat, hash2: nat)
    requires CACHE_SIZE < Footprint(size, hash2 + 1)
    ensures forall g: nat :: Footprint(size, g) <= CACHE_SIZE ==> g <= hash2
  {
    hide Pow2;
    forall g: nat | Footprint(size, g) <= CACHE_SIZE
      ensures g <= hash2
    {
      if g > hash2 {
        Pow2Monotone(hash2 + 1, g);
      }
    }
  }

  /** The indexes of one bucket, head first, cover it slice by slice, and each fits in the cache. */
  ghost predicate Covers(indexes: seq<RelationIndex>, bucket: seq<Tuple>, key: nat, hash1: nat) {
    && Slices(indexes) == bucket
    && (forall k :: 0 <= k < |indexes| ==>
          && indexes[k].Built(hash1) && indexes[k].key == key && indexes[k].rel != []
          && Footprint(|indexes[k].rel|, indexes[k].hash2) <= CACHE_SIZE)
  }

  ghost function Slices(indexes: seq<RelationIndex>): seq<Tuple> {
    Flatten(seq(|indexes|, k requires 0 <= k < |indexes| => indexes[k].rel))
  }

  lemma SlicesSnoc(indexes: seq<RelationIndex>, index: RelationIndex)
    ensures Slices(indexes + [index]) == Slices(indexes) + index.rel
  {
    var longer := indexes + [index];
    assert seq(|longer|, k requires 0 <= k < |longer| => longer[k].rel)
        == seq(|indexes|, k requires 0 <= k < |indexes| => indexes[k].rel) + [index.rel];
    FlattenSnoc(seq(|indexes|, k requires 0 <= k < |indexes| => indexes[k].rel), index.rel);
  }

  /** Indexes what the head index left over, slice after slice; the last one may be shorter. */
  method BuildSubIndex(head: seq<RelationIndex>, bucket: seq<Tuple>, size: nat, indexedSoFar: nat,
                       key: nat, hash1: nat, hash2: nat)
    returns (indexes: seq<RelationIndex>)
    requires 0 < size && Footprint(size, hash2) <= CACHE_SIZE
    requires indexedSoFar <= |bucket| && Covers(head, bucket[..indexedSoFar], key, hash1)
    ensures Covers(indexes, bucket, key, hash1)
    ensures head <= indexes && SameSized(indexes[|head|..], size, hash2, true)
    ensures indexedSoFar < |bucket| ==> |head| < |indexes|
  {
    indexes := head;
    var sizeAll, eachSize, sizeIndexedSofar := |bucket| - indexedSoFar, size, indexedSoFar;
    while sizeAll > 0
      invariant sizeAll + sizeIndexedSofar == |bucket| && sizeAll >= 0
      invariant 0 < eachSize <= size
      invariant eachSize == size || sizeAll == 0
      invariant Covers(indexes, bucket[..sizeIndexedSofar], key, hash1)
      invariant head <= indexes && SameSized(indexes[|head|..], size, hash2, sizeAll == 0)
      invariant indexedSoFar < sizeIndexedSofar ==> |head| < |indexes|
      decreases sizeAll
    {
      if sizeAll < eachSize {
        eachSize := sizeAll;
      }
      var rel := bucket[sizeIndexedSofar..sizeIndexedSofar + eachSize];
      var index := NewIndex(rel, key, hash1, hash2);
      SlicesSnoc(indexes, index);
      assert bucket[..sizeIndexedSofar] + rel == bucket[..sizeIndexedSofar + eachSize];
      MoreIndexes(head, indexes, index, size, hash2, sizeAll == eachSize);
      indexes := indexes + [index];
      sizeIndexedSofar := sizeIndexedSofar + eachSize;
      sizeAll := sizeAll - eachSize;
    }
    assert bucket[..sizeIndexedSofar] == bucket;
  }

  /** Slices of one size and one number of buckets; if `shorter`, the last one may be shorter. */
  predicate SameSized(indexes: seq<RelationIndex>, size: nat, hash2: nat, shorter: bool) {
    forall k :: 0 <= k < |indexes| ==>
      && indexes[k].hash2 == hash2 && |indexes[k].rel| <= size
      && (k < |indexes| - 1 || !shorter ==> |indexes[k].rel| == size)
  }

  lemma MoreIndexes(head: seq<RelationIndex>, indexes: seq<RelationIndex>, index: RelationIndex,
                    size: nat, hash2: nat, shorter: bool)
    requires head <= indexes && SameSized(indexes[|head|..], size, hash2, false)
    requires index.hash2 == hash2 && |index.rel| <= size && (!shorter ==> |index.rel| == size)
    ensures head <= indexes + [index] && SameSized((indexes + [index])[|head|..], size, hash2, shorter)
  {
    assert (indexes + [index])[|head|..] == indexes[|head|..] + [index];
  }

  /** An oversized bucket is split: into slices as large as repeated halving allows, with as many
      buckets as still fit, the last slice being what is left. */
  ghost predicate SplitToFit(indexes: seq<RelationIndex>, n: nat, hash2: nat) {
    && |indexes| >= 2
    && var size := |indexes[0].rel|;
       && SameSized(indexes, size, indexes[0].hash2, true)
       && (size == n / 2 || CACHE_SIZE < Footprint(2 * size + 1, hash2))
       && forall g: nat :: Footprint(size, g) <= CACHE_SIZE ==> g <= indexes[0].hash2
  }

  /** All indexes of one bucket: a single one when it fits in the cache, else a split. */
  method IndexBucket(bucket: seq<Tuple>, key: nat, hash1: nat, hash2: nat) returns (indexes: seq<RelationIndex>)
    requires bucket != [] && Footprint(1, hash2) <= CACHE_SIZE
    ensures Covers(indexes, bucket, key, hash1)
    ensures Footprint(|bucket|, hash2) <= CACHE_SIZE ==> |indexes| == 1 && indexes[0].hash2 == hash2
    ensures Footprint(|bucket|, hash2) > CACHE_SIZE ==> SplitToFit(indexes, |bucket|, hash2)
  {
    if Footprint(|bucket|, hash2) <= CACHE_SIZE {
      var index := NewIndex(bucket, key, hash1, hash2);
      SlicesSnoc([], index);
      indexes := [index];
      assert indexes == [] + [index];
    } else {
      var eachSize, hash2Var := RecomputeSizes(|bucket|, hash2);
      var index := NewIndex(bucket[..eachSize], key, hash1, hash2Var);
      SlicesSnoc([], index);
      assert [index] == [] + [index];
      indexes := BuildSubIndex([index], bucket, eachSize, eachSize, key, hash1, hash2Var);
      assert indexes == [index] + indexes[1..];
    }
  }

  /** One slot per hash value: empty exactly when no tuple has it, else covering its tuples. */
  ghost predicate IsIndexOf(slots: seq<seq<RelationIndex>>, tuples: seq<Tuple>, hash1: nat) {
    && |slots| == Pow2(hash1)
    && forall i :: 0 <= i < |slots| ==> Covers(slots[i], OfBucket(tuples, Pow2(hash1), i), i, hash1)
  }

  /** The bucket array that the reserved 1/21 of the cache has room for. */
  lemma FirstHash2()
    ensures CACHE_SIZE == Pow2(16) && 21 * AVAILABLE_CACHE_SIZE <= 20 * CACHE_SIZE < 21 * (AVAILABLE_CACHE_SIZE + 1)
    ensures Log2((CACHE_SIZE - AVAILABLE_CACHE_SIZE) / 8) == 8
    ensures Footprint(1, 8) <= CACHE_SIZE
  {
    assert (CACHE_SIZE - AVAILABLE_CACHE_SIZE) / 8 == 390;
    assert Log2(24) == 4;
    assert Log2(97) == 6;
    assert Pow2(8) == 256;
  }

  /** The psum entries before `whichPsum` are exactly those of hash values below `i`. */
  predicate PsumPassed(ror: ReorderedR, i: nat, whichPsum: nat) {
    && whichPsum <= |ror.psum|
    && (forall w :: 0 <= w < whichPsum ==> ror.psum[w].h1Res < i)
    && (forall w :: whichPsum <= w < |ror.psum| ==> i <= ror.psum[w].h1Res)
  }

  /** Slot `i`: indexed when the next psum entry is for it. */
  method IndexSlot(ror: ReorderedR, hash1: nat, hash2: nat, i: nat, psumSoFar: nat)
    returns (indexes: seq<RelationIndex>, whichPsum: nat)
    requires ror.WellFormed(Pow2(hash1)) && Footprint(1, hash2) <= CACHE_SIZE
    requires PsumPassed(ror, i, psumSoFar)
    ensures PsumPassed(ror, i + 1, whichPsum)
    ensures Covers(indexes, OfBucket(ror.tuples, Pow2(hash1), i), i, hash1)
  {
    whichPsum := psumSoFar;
    if whichPsum < |ror.psum| && i == ror.psum[whichPsum].h1Res {
      BucketIsOfBucket(ror, Pow2(hash1), whichPsum);
      assert ror.psum[whichPsum].offset < ror.End(whichPsum);
      indexes := IndexBucket(ror.Bucket(whichPsum), i, hash1, hash2);
      whichPsum := whichPsum + 1;
    } else {
      UnlistedIsEmpty(ror, Pow2(hash1), i);
      indexes := [];
    }
  }

  /** Walks the slots and the psum array side by side. The array has 2^hash1 slots, or any number of
      them when there is nothing to index. */
  method Indexing(ror: ReorderedR, hash1: nat, sizeOfIndexArray: nat) returns (slots: seq<seq<RelationIndex>>)
    requires ror.WellFormed(Pow2(hash1)) && (ror.tuples != [] ==> sizeOfIndexArray == Pow2(hash1))
    ensures |slots| == sizeOfIndexArray
    ensures sizeOfIndexArray == Pow2(hash1) ==> IsIndexOf(slots, ror.tuples, hash1)
    ensures forall i :: 0 <= i < |slots| ==> Covers(slots[i], OfBucket(ror.tuples, Pow2(hash1), i), i, hash1)
  {
    FirstHash2();
    hide Covers, Pow2, Footprint, OfBucket, IndexedUpTo;
    var range := (CACHE_SIZE - AVAILABLE_CACHE_SIZE) / 8;
    var hash2 := Log2(range);
    slots := [];
    var whichPsum := 0;
    for i := 0 to sizeOfIndexArray
      invariant |slots| == i && PsumPassed(ror, i, whichPsum)
      invariant forall k :: 0 <= k < i ==> Covers(slots[k], OfBucket(ror.tuples, Pow2(hash1), k), k, hash1)
    {
      var indexes;
      indexes, whichPsum := IndexSlot(ror, hash1, hash2, i, whichPsum);
      slots := slots + [indexes];
    }
  }

  /** A slot is empty exactly when no tuple hashes to it. */
  lemma SlotEmpty(slots: seq<seq<RelationIndex>>, tuples: seq<Tuple>, hash1: nat, i: nat)
    requires IsIndexOf(slots, tuples, hash1) && i < |slots|
    ensures slots[i] == [] <==> forall p :: 0 <= p < |tuples| ==> Hash1(tuples[p].key, Pow2(hash1)) != i
  {
    OfBucketEmpty(tuples, Pow2(hash1), i);
    if slots[i] != [] {
      var rels := seq(|slots[i]|, k requires 0 <= k < |slots[i]| => slots[i][k].rel);
      assert rels[0] == slots[i][0].rel;
      assert Flatten(rels) == rels[0] + Flatten(rels[1..]);
    }
  }

  lemma {:induction false} OfBucketEmpty(tuples: seq<Tuple>, buckets: nat, h: nat)
    requires buckets > 0
    ensures OfBucket(tuples, buckets, h) == [] <==>
            forall p :: 0 <= p < |tuples| ==> Hash1(tuples[p].key, buckets) != h
  {
    if tuples != [] {
      OfBucketEmpty(tuples[1..], buckets, h);
      assert forall p :: 0 < p < |tuples| ==> tuples[p] == tuples[1..][p - 1];
    }
  }
}

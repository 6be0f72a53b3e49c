/** The first-level histogram: one job per chunk of the relation, merged after a barrier. */
module Histogram {
  import opened Bags
  import opened JoinSpec
  import opened Reordered

  const NUMB_OF_THREADS: nat := 7

  /** Where thread `t`'s share of `n` tuples starts. */
  function From(t: nat, n: nat): nat {
    t * (n / NUMB_OF_THREADS)
  }

  /** Where it ends: the last thread takes the remainder. */
  function To(t: nat, n: nat): nat {
    if t != NUMB_OF_THREADS - 1 then (t + 1) * (n / NUMB_OF_THREADS) else n
  }

  /** The shares follow one another without gap or overlap. */
  lemma ChunksPartition(n: nat)
    ensures From(0, n) == 0 && To(NUMB_OF_THREADS - 1, n) == n
    ensures forall t: nat :: t < NUMB_OF_THREADS ==> From(t, n) <= To(t, n) <= n
    ensures forall t: nat :: t + 1 < NUMB_OF_THREADS ==> To(t, n) == From(t + 1, n)
  {
    var q := n / 7;
    assert 7 * q <= n;
    forall t: nat | t < NUMB_OF_THREADS
      ensures From(t, n) <= To(t, n) <= n
    {
      assert t * q <= (t + 1) * q <= 7 * q;
    }
  }

  /** All shares are of one size but the last, which has at most six more. */
  lemma ChunksEven(n: nat, t: nat)
    requires t < NUMB_OF_THREADS
    ensures t + 1 < NUMB_OF_THREADS ==> To(t, n) == From(t, n) + To(0, n)
    ensures t + 1 == NUMB_OF_THREADS ==> From(t, n) + To(0, n) <= To(t, n) < From(t, n) + To(0, n) + NUMB_OF_THREADS
  {
    Share(t, n / NUMB_OF_THREADS);
  }

  lemma Share(t: nat, q: nat)
    ensures (t + 1) * q == t * q + q
  {
  }

  /** How many tuples have hash value `b`. */
  function Count(tuples: seq<Tuple>, buckets: nat, b: nat): nat
    requires buckets > 0
  {
    |OfBucket(tuples, buckets, b)|
  }

  /** How many tuples have a hash value below `b`: where bucket `b` starts. */
  function PrefixCount(tuples: seq<Tuple>, buckets: nat, b: nat): nat
    requires buckets > 0
  {
    if b == 0 then 0 else PrefixCount(tuples, buckets, b - 1) + Count(tuples, buckets, b - 1)
  }

  lemma {:induction false} PrefixCountMonotone(tuples: seq<Tuple>, buckets: nat, a: nat, b: nat)
    requires buckets > 0 && a <= b
    ensures PrefixCount(tuples, buckets, a) <= PrefixCount(tuples, buckets, b)
    decreases b
  {
    if a < b {
      PrefixCountMonotone(tuples, buckets, a, b - 1);
    }
  }

  lemma {:induction false} PrefixCountHead(x: Tuple, rest: seq<Tuple>, buckets: nat, b: nat)
    requires buckets > 0
    ensures PrefixCount([x] + rest, buckets, b)
         == PrefixCount(rest, buckets, b) + if Hash1(x.key, buckets) < b then 1 else 0
  {
    hide Hash1, Count;
    if b > 0 {
      PrefixCountHead(x, rest, buckets, b - 1);
      CountCons(x, rest, buckets, b - 1);
    }
  }

  lemma CountCons(x: Tuple, rest: seq<Tuple>, buckets: nat, b: nat)
    requires buckets > 0
    ensures Count([x] + rest, buckets, b)
         == Count(rest, buckets, b) + if Hash1(x.key, buckets) == b then 1 else 0
  {
    OfBucketAppend([x], rest, buckets, b);
  }

  /** The histogram sums to the size of the relation. */
  lemma {:induction false} HistogramTotal(tuples: seq<Tuple>, buckets: nat)
    requires buckets > 0
    ensures PrefixCount(tuples, buckets, buckets) == |tuples|
  {
    if tuples == [] {
      EmptyPrefixCount(buckets, buckets);
    } else {
      HistogramTotal(tuples[1..], buckets);
      PrefixCountHead(tuples[0], tuples[1..], buckets, buckets);
      assert tuples == [tuples[0]] + tuples[1..];
    }
  }

  lemma {:induction false} EmptyPrefixCount(buckets: nat, b: nat)
    requires buckets > 0
    ensures PrefixCount([], buckets, b) == 0
  {
    if b > 0 {
      EmptyPrefixCount(buckets, b - 1);
    }
  }

  lemma CountSnoc(tuples: seq<Tuple>, x: Tuple, buckets: nat, b: nat)
    requires buckets > 0
    ensures Count(tuples + [x], buckets, b)
         == Count(tuples, buckets, b) + if Hash1(x.key, buckets) == b then 1 else 0
  {
    OfBucketAppend(tuples, [x], buckets, b);
  }

  /** What a finished job has stored for its chunk. */
  datatype Content = Content(hist: seq<nat>, hashValues: seq<nat>)

  /** The contents that a sequential pass over the chunk would give. */
  ghost predicate ContentOf(c: Content, chunk: seq<Tuple>, buckets: nat)
    requires buckets > 0
  {
    && |c.hist| == buckets && |c.hashValues| == |chunk|
    && (forall b :: 0 <= b < buckets ==> c.hist[b] == Count(chunk, buckets, b))
    && (forall i :: 0 <= i < |chunk| ==> c.hashValues[i] == Hash1(chunk[i].key, buckets))
  }

  /** One thread's job over `t[from..to]`. */
  method HistogramJob(t: seq<Tuple>, from: nat, to: nat, buckets: nat) returns (c: Content)
    requires from <= to <= |t| && buckets > 0
    ensures ContentOf(c, t[from..to], buckets)
  {
    hide Hash1;
    var hist := new nat[buckets](_ => 0);
    var hashValues := new nat[to - from];
    EmptyCounts(buckets);
    assert t[from..from] == [];
    for i := from to to
      invariant forall b :: 0 <= b < buckets ==> hist[b] == Count(t[from..i], buckets, b)
      invariant forall k :: 0 <= k < i - from ==> hashValues[k] == Hash1(t[from + k].key, buckets)
    {
      var value := Hash1(t[i].key, buckets);
      assert t[from..i + 1] == t[from..i] + [t[i]];
      forall b | 0 <= b < buckets
        ensures Count(t[from..i + 1], buckets, b)
             == Count(t[from..i], buckets, b) + if value == b then 1 else 0
      {
        CountSnoc(t[from..i], t[i], buckets, b);
      }
      hashValues[i - from] := value;
      hist[value] := hist[value] + 1;
    }
    c := Content(hist[..], hashValues[..]);
  }

  lemma EmptyCounts(buckets: nat)
    requires buckets > 0
    ensures forall b :: 0 <= b < buckets ==> Count([], buckets, b) == 0
  {
  }

  /** Runs the seven jobs, which may finish in any order, up to the barrier. */
  method RunHistogramJobs(r: seq<Tuple>, buckets: nat) returns (contents: map<nat, Content>)
    requires buckets > 0
    ensures contents.Keys == Below(NUMB_OF_THREADS)
    ensures forall t: nat :: t < NUMB_OF_THREADS ==>
              From(t, |r|) <= To(t, |r|) <= |r| && ContentOf(contents[t], r[From(t, |r|)..To(t, |r|)], buckets)
  {
    hide From, To, ContentOf, Below;
    ChunksPartition(|r|);
    contents := map[];
    var histsCompleted := 0;
    while histsCompleted != NUMB_OF_THREADS
      invariant contents.Keys <= Below(NUMB_OF_THREADS) && |contents.Keys| == histsCompleted <= NUMB_OF_THREADS
      invariant forall t :: t in contents ==> ContentOf(contents[t], r[From(t, |r|)..To(t, |r|)], buckets)
      decreases NUMB_OF_THREADS - histsCompleted
    {
      SomeUnfinished(contents.Keys, NUMB_OF_THREADS);
      var t: nat :| t < NUMB_OF_THREADS && t !in contents.Keys;
      var c := HistogramJob(r, From(t, |r|), To(t, |r|), buckets);
      assert (contents[t := c]).Keys == contents.Keys + {t};
      contents := contents[t := c];
      histsCompleted := histsCompleted + 1;
    }
    SomeUnfinished(contents.Keys, NUMB_OF_THREADS);
  }

  /** The histogram and the hash values of the first `n` tuples have been entered. */
  ghost predicate HashedUpTo(hist: array<nat>, hashValues: array<nat>, r: seq<Tuple>, n: nat, buckets: nat)
    requires buckets > 0
    reads hist, hashValues
  {
    && hist.Length == buckets && hashValues.Length == |r| && n <= |r|
    && (forall b :: 0 <= b < buckets ==> hist[b] == Count(r[..n], buckets, b))
    && (forall i :: 0 <= i < n ==> hashValues[i] == Hash1(r[i].key, buckets))
  }

  /** Adds one chunk's contents to the merged histogram and hash values. */
  method MergeContent(hist: array<nat>, hashValues: array<nat>, c: Content,
                      r: seq<Tuple>, from: nat, to: nat, buckets: nat)
    requires hist != hashValues && from <= to <= |r| && buckets > 0 && ContentOf(c, r[from..to], buckets)
    requires HashedUpTo(hist, hashValues, r, from, buckets)
    modifies hist, hashValues
    ensures HashedUpTo(hist, hashValues, r, to, buckets)
  {
    hide Hash1, Count;
    for i := 0 to buckets
      invariant forall b :: 0 <= b < i ==> hist[b] == Count(r[..from], buckets, b) + Count(r[from..to], buckets, b)
      invariant forall b :: i <= b < buckets ==> hist[b] == Count(r[..from], buckets, b)
      invariant forall i :: 0 <= i < from ==> hashValues[i] == Hash1(r[i].key, buckets)
    {
      hist[i] := hist[i] + c.hist[i];
    }
    forall b | 0 <= b < buckets
      ensures Count(r[..to], buckets, b) == Count(r[..from], buckets, b) + Count(r[from..to], buckets, b)
    {
      CountSplit(r, from, to, buckets, b);
    }
    for i := from to to
      invariant forall b :: 0 <= b < buckets ==> hist[b] == Count(r[..to], buckets, b)
      invariant forall k :: 0 <= k < i ==> hashValues[k] == Hash1(r[k].key, buckets)
    {
      assert r[from..to][i - from] == r[i];
      hashValues[i] := c.hashValues[i - from];
    }
  }

  lemma CountSplit(r: seq<Tuple>, from: nat, to: nat, buckets: nat, b: nat)
    requires from <= to <= |r| && buckets > 0
    ensures Count(r[..to], buckets, b) == Count(r[..from], buckets, b) + Count(r[from..to], buckets, b)
  {
    OfBucketAppend(r[..from], r[from..to], buckets, b);
    assert r[..to] == r[..from] + r[from..to];
  }

  /** How many tuples the first `t` chunks hold. */
  function Merged(t: nat, n: nat): nat {
    if t == NUMB_OF_THREADS then n else From(t, n)
  }

  lemma MergedChunks(n: nat)
    ensures Merged(0, n) == 0 && Merged(NUMB_OF_THREADS, n) == n
    ensures forall t: nat :: t < NUMB_OF_THREADS ==>
              Merged(t, n) == From(t, n) <= To(t, n) == Merged(t + 1, n) && To(t, n) <= n
  {
    ChunksPartition(n);
  }

  /** Histogram and hash values of the whole relation, as one sequential pass would give them:
      the chunks' counts are added up from zero and their hash values copied in chunk order. */
  method DoTheHash(r: seq<Tuple>, buckets: nat, hist: array<nat>, hashValues: array<nat>)
    requires buckets > 0 && hist != hashValues && hist.Length == buckets && hashValues.Length == |r|
    requires forall b :: 0 <= b < buckets ==> hist[b] == 0
    modifies hist, hashValues
    ensures forall b :: 0 <= b < buckets ==> hist[b] == Count(r, buckets, b)
    ensures forall i :: 0 <= i < |r| ==> hashValues[i] == Hash1(r[i].key, buckets)
  {
    hide Hash1, Count, ContentOf, From, To, Merged, HashedUpTo, Below;
    NothingHashed(hist, hashValues, r, buckets);
    var contents := RunHistogramJobs(r, buckets);
    MergedChunks(|r|);
    for j := 0 to NUMB_OF_THREADS
      invariant HashedUpTo(hist, hashValues, r, Merged(j, |r|), buckets)
    {
      assert j in contents.Keys;
      MergeContent(hist, hashValues, contents[j], r, From(j, |r|), To(j, |r|), buckets);
    }
    AllHashed(hist, hashValues, r, buckets);
  }

  lemma NothingHashed(hist: array<nat>, hashValues: array<nat>, r: seq<Tuple>, buckets: nat)
    requires buckets > 0 && hist.Length == buckets && hashValues.Length == |r|
    requires forall b :: 0 <= b < buckets ==> hist[b] == 0
    ensures HashedUpTo(hist, hashValues, r, 0, buckets)
  {
    EmptyCounts(buckets);
    hide Count, Hash1;
    assert r[..0] == [];
  }

  lemma AllHashed(hist: array<nat>, hashValues: array<nat>, r: seq<Tuple>, buckets: nat)
    requires buckets > 0 && HashedUpTo(hist, hashValues, r, |r|, buckets)
    ensures hist.Length == buckets && hashValues.Length == |r|
    ensures forall b :: 0 <= b < buckets ==> hist[b] == Count(r, buckets, b)
    ensures forall i :: 0 <= i < |r| ==> hashValues[i] == Hash1(r[i].key, buckets)
  {
    assert r[..|r|] == r;
  }
}

/** Reordering a relation: histogram, prefix sums and the concurrent scatter. */
module Reorder {
  import opened Words
  import opened JoinSpec
  import opened Reordered
  import opened Histogram
  import opened Scatter
  import Index

  /** A bucket exponent, or none yet. The code marks none by FIRST_REORDERED, which is 100 and
      so the exponent of no 64-bit bucket count. */
  type Exponent = Option<nat>
  const FIRST_REORDERED: nat := 100

  /** The psum entries of the hash values below `b`: those that occur, each with its start. */
  function PsumOf(tuples: seq<Tuple>, buckets: nat, b: nat): seq<PSum>
    requires buckets > 0
  {
    if b == 0 then []
    else PsumOf(tuples, buckets, b - 1)
         + if Count(tuples, buckets, b - 1) == 0 then []
           else [PSum(b - 1, PrefixCount(tuples, buckets, b - 1))]
  }

  /** Where the run of entry `w` ends: at the next entry, or at `end`. */
  function RunEnd(psum: seq<PSum>, w: nat, end: nat): nat
    requires w < |psum|
  {
    if w + 1 < |psum| then psum[w + 1].offset else end
  }

  /** Entry by entry: hash values increase, and each run ends where the next one starts. */
  lemma {:induction false} PsumRuns(tuples: seq<Tuple>, buckets: nat, b: nat)
    requires buckets > 0
    ensures Runs(tuples, buckets, b, PsumOf(tuples, buckets, b))
  {
    hide Runs;
    if b > 0 {
      PsumRuns(tuples, buckets, b - 1);
      NextRun(tuples, buckets, b - 1, PsumOf(tuples, buckets, b - 1));
    } else {
      NoRuns(tuples, buckets);
    }
  }

  predicate Runs(tuples: seq<Tuple>, buckets: nat, b: nat, psum: seq<PSum>)
    requires buckets > 0
  {
    && (psum == [] <==> PrefixCount(tuples, buckets, b) == 0)
    && (psum != [] ==> psum[0].offset == 0)
    && (forall w :: 0 <= w < |psum| ==> psum[w].h1Res < b && Count(tuples, buckets, psum[w].h1Res) > 0)
    && (forall w :: 0 <= w < |psum| ==> psum[w].offset == PrefixCount(tuples, buckets, psum[w].h1Res))
    && (forall v, w :: 0 <= v < w < |psum| ==> psum[v].h1Res < psum[w].h1Res)
  }

  lemma NoRuns(tuples: seq<Tuple>, buckets: nat)
    requires buckets > 0
    ensures Runs(tuples, buckets, 0, [])
  {
  }

  lemma NextRun(tuples: seq<Tuple>, buckets: nat, b: nat, psum: seq<PSum>)
    requires buckets > 0 && Runs(tuples, buckets, b, psum)
    ensures Runs(tuples, buckets, b + 1,
                 psum + if Count(tuples, buckets, b) == 0 then [] else [PSum(b, PrefixCount(tuples, buckets, b))])
  {
    hide Count;
    assert PrefixCount(tuples, buckets, b + 1) == PrefixCount(tuples, buckets, b) + Count(tuples, buckets, b);
    hide PrefixCount;
  }

  lemma {:induction false} PsumRunEnds(tuples: seq<Tuple>, buckets: nat, b: nat, w: nat)
    requires buckets > 0 && w < |PsumOf(tuples, buckets, b)|
    ensures var psum := PsumOf(tuples, buckets, b);
      psum[w].offset + Count(tuples, buckets, psum[w].h1Res) == RunEnd(psum, w, PrefixCount(tuples, buckets, b))
  {
    assert PrefixCount(tuples, buckets, b) == PrefixCount(tuples, buckets, b - 1) + Count(tuples, buckets, b - 1);
    hide Count, PrefixCount;
    if w < |PsumOf(tuples, buckets, b - 1)| {
      PsumRunEnds(tuples, buckets, b - 1, w);
    }
  }

  /** A scattered relation with these psum entries is a reordering. */
  lemma ScatteredIsReordering(job: Job, r: seq<Tuple>)
    requires job.WellFormed() && Scattered(job, r) && |r| == |job.tuples| > 0
    ensures IsReordering(job.tuples, job.buckets, ReorderedR(r, PsumOf(job.tuples, job.buckets, job.buckets)))
  {
    var psum := PsumOf(job.tuples, job.buckets, job.buckets);
    var ror := ReorderedR(r, psum);
    PsumRuns(job.tuples, job.buckets, job.buckets);
    HistogramTotal(job.tuples, job.buckets);
    forall w | 0 <= w < |psum|
      ensures psum[w].offset < ror.End(w) <= |r|
      ensures forall p :: psum[w].offset <= p < ror.End(w) ==> Hash1(r[p].key, job.buckets) == psum[w].h1Res
    {
      SegmentEnd(job, psum[w].h1Res);
      PsumRunEnds(job.tuples, job.buckets, job.buckets, w);
    }
  }

  /* ----- prefix sums ----- */

  lemma {:induction false} PsumPrefix(tuples: seq<Tuple>, buckets: nat, a: nat, b: nat)
    requires buckets > 0 && a <= b
    ensures |PsumOf(tuples, buckets, a)| <= |PsumOf(tuples, buckets, b)|
    ensures |PsumOf(tuples, buckets, a)| == |PsumOf(tuples, buckets, b)| ==>
              && PsumOf(tuples, buckets, a) == PsumOf(tuples, buckets, b)
              && PrefixCount(tuples, buckets, a) == PrefixCount(tuples, buckets, b)
    ensures PsumOf(tuples, buckets, a) <= PsumOf(tuples, buckets, b)
    decreases b
  {
    hide Count;
    if a < b {
      PsumPrefix(tuples, buckets, a, b - 1);
    }
  }

  /** The hash values that occur, counted down from all of them. */
  method CountBuckets(hist: array<nat>, tuples: seq<Tuple>) returns (buckets: nat)
    requires hist.Length > 0
    requires Counted(hist, tuples)
    ensures buckets == |PsumOf(tuples, hist.Length, hist.Length)|
  {
    hide Count;
    buckets := hist.Length;
    for i := 0 to hist.Length
      invariant buckets == hist.Length - i + |PsumOf(tuples, hist.Length, i)|
    {
      if hist[i] == 0 {
        buckets := buckets - 1;
      }
    }
  }

  /** The starts of the hash values below `j` have been entered. */
  ghost predicate Filled(helpPSum: array<nat>, tuples: seq<Tuple>, j: nat)
    reads helpPSum
  {
    helpPSum.Length > 0 && j <= helpPSum.Length
    && forall b :: 0 <= b < j ==> helpPSum[b] == PrefixCount(tuples, helpPSum.Length, b)
  }

  ghost predicate Counted(hist: array<nat>, tuples: seq<Tuple>)
    reads hist
  {
    hist.Length > 0 && forall b :: 0 <= b < hist.Length ==> hist[b] == Count(tuples, hist.Length, b)
  }

  /** A run of hash values that do not occur: all start where the next bucket starts. */
  method SkipEmpty(hist: array<nat>, tuples: seq<Tuple>, helpPSum: array<nat>, from: nat, temp: nat)
    returns (j: nat)
    requires helpPSum.Length == hist.Length && helpPSum != hist && Filled(helpPSum, tuples, from)
    requires Counted(hist, tuples)
    requires temp == PrefixCount(tuples, hist.Length, from)
    modifies helpPSum
    ensures from <= j <= hist.Length && Filled(helpPSum, tuples, j)
    ensures j < hist.Length ==> hist[j] != 0
    ensures PsumOf(tuples, hist.Length, j) == PsumOf(tuples, hist.Length, from)
    ensures PrefixCount(tuples, hist.Length, j) == temp
  {
    hide Count;
    j := from;
    while j < hist.Length
      invariant from <= j <= hist.Length && Filled(helpPSum, tuples, j)
      invariant PsumOf(tuples, hist.Length, j) == PsumOf(tuples, hist.Length, from)
      invariant PrefixCount(tuples, hist.Length, j) == temp
    {
      if hist[j] != 0 {
        break;
      }
      helpPSum[j] := temp;
      j := j + 1;
    }
  }

  /** A hash value that occurs: one more psum entry. */
  lemma NextEntry(tuples: seq<Tuple>, buckets: nat, j: nat)
    requires buckets > 0 && Count(tuples, buckets, j) != 0
    ensures PsumOf(tuples, buckets, j + 1)
         == PsumOf(tuples, buckets, j) + [PSum(j, PrefixCount(tuples, buckets, j))]
    ensures PrefixCount(tuples, buckets, j + 1) == PrefixCount(tuples, buckets, j) + Count(tuples, buckets, j)
  {
  }

  /** The entry of hash value `j` goes to position `i` of psum, its start to `helpPSum`. */
  method PutEntry(psum: array<PSum>, helpPSum: array<nat>, tuples: seq<Tuple>, i: nat, j: nat, start: nat)
    requires i < psum.Length && j < helpPSum.Length && Filled(helpPSum, tuples, j)
    requires psum[..i] == PsumOf(tuples, helpPSum.Length, j) && Count(tuples, helpPSum.Length, j) != 0
    requires start == PrefixCount(tuples, helpPSum.Length, j)
    modifies psum, helpPSum
    ensures psum[..i + 1] == PsumOf(tuples, helpPSum.Length, j + 1) && psum[i] == PSum(j, start)
    ensures Filled(helpPSum, tuples, j + 1)
  {
    hide Count, PsumOf, PrefixCount;
    psum[i] := PSum(j, start);
    helpPSum[j] := start;
    NextEntry(tuples, helpPSum.Length, j);
    assert psum[..i + 1] == psum[..i] + [psum[i]];
  }

  /** The trailing hash values that do not occur. */
  method FillRest(hist: array<nat>, tuples: seq<Tuple>, helpPSum: array<nat>, from: nat, size: nat)
    requires helpPSum.Length == hist.Length && helpPSum != hist && Filled(helpPSum, tuples, from)
    requires size == PrefixCount(tuples, hist.Length, from) == PrefixCount(tuples, hist.Length, hist.Length)
    modifies helpPSum
    ensures Filled(helpPSum, tuples, hist.Length)
  {
    for j := from to hist.Length
      invariant Filled(helpPSum, tuples, j)
    {
      PrefixCountMonotone(tuples, hist.Length, from, j);
      PrefixCountMonotone(tuples, hist.Length, j, hist.Length);
      helpPSum[j] := size;
    }
  }

  /** The first value that occurs, and the starts up to and including it. */
  method FirstEntry(hist: array<nat>, size: nat, tuples: seq<Tuple>, psum: array<PSum>, helpPSum: array<nat>)
    returns (prevJ: nat, temp: nat)
    requires hist.Length > 0 && size == |tuples| > 0
    requires Counted(hist, tuples)
    requires |PsumOf(tuples, hist.Length, hist.Length)| == psum.Length
    requires helpPSum.Length == hist.Length && helpPSum != hist
    modifies psum, helpPSum
    ensures prevJ < hist.Length && Filled(helpPSum, tuples, prevJ + 1)
    ensures psum.Length > 0 && psum[..1] == PsumOf(tuples, hist.Length, prevJ + 1)
    ensures psum[0].offset + hist[prevJ] == PrefixCount(tuples, hist.Length, prevJ + 1) == temp
  {
    ghost var h := hist.Length;
    HistogramTotal(tuples, h);
    PsumRuns(tuples, h, h);
    assert PsumOf(tuples, h, 0) == [] && PrefixCount(tuples, h, 0) == 0;
    hide Count, PsumOf, PrefixCount;
    temp := 0;
    prevJ := SkipEmpty(hist, tuples, helpPSum, 0, temp);
    PutEntry(psum, helpPSum, tuples, 0, prevJ, 0);
    NextEntry(tuples, h, prevJ);
    if 0 < hist.Length - 1 {
      temp := temp + hist[prevJ];
    } else {
      temp := size;
    }
  }

  /** The next value that occurs gets entry `i`; while an entry is missing, one lies ahead. */
  method PutNext(hist: array<nat>, tuples: seq<Tuple>, psum: array<PSum>, helpPSum: array<nat>,
                 i: nat, prevJ: nat, from: nat, temp: nat) returns (j: nat)
    requires helpPSum.Length == hist.Length && helpPSum != hist && 0 < i < psum.Length
    requires Counted(hist, tuples)
    requires |PsumOf(tuples, hist.Length, hist.Length)| == psum.Length
    requires prevJ < from <= hist.Length && Filled(helpPSum, tuples, from)
    requires psum[..i] == PsumOf(tuples, hist.Length, from)
    requires psum[i - 1].offset + hist[prevJ] == PrefixCount(tuples, hist.Length, from) == temp
    modifies psum, helpPSum
    ensures from <= j < hist.Length && Filled(helpPSum, tuples, j + 1)
    ensures psum[..i + 1] == PsumOf(tuples, hist.Length, j + 1)
    ensures psum[i].offset + hist[j] == temp + hist[j] == PrefixCount(tuples, hist.Length, j + 1)
  {
    hide Count, PsumOf, PrefixCount;
    j := SkipEmpty(hist, tuples, helpPSum, from, temp);
    assert j < hist.Length;
    NextEntry(tuples, hist.Length, j);
    PutEntry(psum, helpPSum, tuples, i, j, psum[i - 1].offset + hist[prevJ]);
  }

  /** One pass over the histogram fills `psum` (values that occur) and `helpPSum` (all values). */
  method PrefixSums(hist: array<nat>, size: nat, buckets: nat, tuples: seq<Tuple>,
                    psum: array<PSum>, helpPSum: array<nat>)
    requires hist.Length > 0 && size == |tuples| > 0
    requires Counted(hist, tuples)
    requires buckets == |PsumOf(tuples, hist.Length, hist.Length)| == psum.Length
    requires helpPSum.Length == hist.Length && helpPSum != hist
    modifies psum, helpPSum
    ensures psum[..] == PsumOf(tuples, hist.Length, hist.Length)
    ensures Filled(helpPSum, tuples, hist.Length)
  {
    hide Count, PsumOf, PrefixCount, Filled, Counted;
    ghost var h := hist.Length;
    HistogramTotal(tuples, h);
    var prevJ, temp := FirstEntry(hist, size, tuples, psum, helpPSum);
    var j: nat := prevJ + 1;
    var i: nat := 1;
    PsumPrefix(tuples, h, j, h);
    while i < buckets
      invariant 1 <= i <= buckets == psum.Length && 0 <= prevJ < j <= h
      invariant psum[..i] == PsumOf(tuples, h, j) && Filled(helpPSum, tuples, j)
      invariant psum[i - 1].offset + hist[prevJ] == PrefixCount(tuples, h, j)
      invariant temp == PrefixCount(tuples, h, j)
      decreases buckets - i
    {
      j := PutNext(hist, tuples, psum, helpPSum, i, prevJ, j, temp);
      prevJ := j;
      j := j + 1;
      i := i + 1;
      PsumPrefix(tuples, h, j, h);
      if i == buckets {
        break;
      }
      temp := temp + hist[prevJ];
    }
    assert psum[..] == psum[..buckets];
    PsumPrefix(tuples, h, j, h);
    FillRest(hist, tuples, helpPSum, j, size);
  }

  /* ----- reordering ----- */

  /** One more than 1.05 times the number of cache-fuls that `size` tuples take, rounded down. */
  function WantedBuckets(size: nat): (n: nat)
    ensures 100 * (n - 1) <= 105 * (size * 16 / Index.AVAILABLE_CACHE_SIZE) < 100 * n
  {
    WithMargin(CacheFuls(size * 16)) + 1
  }

  function CacheFuls(bytes: nat): (r: nat)
    ensures r * Index.AVAILABLE_CACHE_SIZE <= bytes < (r + 1) * Index.AVAILABLE_CACHE_SIZE
  {
    bytes / Index.AVAILABLE_CACHE_SIZE
  }

  function WithMargin(x: nat): (r: nat)
    ensures 100 * r <= 105 * x < 100 * (r + 1)
  {
    105 * x / 100
  }

  /** The number of buckets for a relation of `size` tuples: the least power of two that is at
      least what is wanted, so that an average bucket fits in the cache. */
  method ChooseBuckets(size: nat) returns (buckets: nat, ghost exponent: nat)
    ensures buckets == Pow2(exponent) && WantedBuckets(size) <= buckets
    ensures forall e: nat :: WantedBuckets(size) <= Pow2(e) ==> buckets <= Pow2(e)
    ensures size * 16 < buckets * Index.AVAILABLE_CACHE_SIZE
  {
    hide Pow2, WithMargin;
    var number := WantedBuckets(size);
    buckets, exponent := FindNextPower(number);
    Roomy(size * 16, Index.AVAILABLE_CACHE_SIZE, buckets, number);
  }

  lemma Roomy(bytes: nat, cache: nat, buckets: nat, number: nat)
    requires cache > 0 && number == WithMargin(bytes / cache) + 1 && buckets >= number
    ensures bytes < buckets * cache
  {
    var x := bytes / cache;
    AtLeast(x);
    hide WithMargin;
    Product(bytes, cache, x, buckets);
  }

  lemma AtLeast(x: nat)
    ensures WithMargin(x) >= x
  {
  }

  lemma Product(bytes: nat, cache: nat, x: nat, buckets: nat)
    requires cache > 0 && x == bytes / cache && buckets >= x + 1
    ensures bytes < buckets * cache
  {
    assert bytes == x * cache + bytes % cache;
    Scaled(x + 1, buckets, cache);
  }

  lemma Scaled(a: nat, b: nat, c: nat)
    requires a <= b
    ensures a * c <= b * c
  {
  }

  /** Shifting the bucket count away gives back its exponent. */
  method ExponentOf(buckets: nat, ghost exponent: nat) returns (h: nat)
    requires buckets == Pow2(exponent)
    ensures h == exponent
  {
    var rest, a := buckets, 0;
    while rest != 0
      invariant a <= exponent + 1
      invariant rest == if a <= exponent then Pow2(exponent - a) else 0
      decreases rest
    {
      rest := rest / 2;
      a := a + 1;
    }
    h := a - 1;
  }

  /** The threads' shares of `n` elements. */
  function Chunks(n: nat): seq<(nat, nat)> {
    seq(NUMB_OF_THREADS, t requires 0 <= t < NUMB_OF_THREADS => (From(t, n), To(t, n)))
  }

  lemma ChunksCover(job: Job)
    requires job.chunks == Chunks(|job.tuples|)
    ensures forall t :: 0 <= t < |job.chunks| ==> job.chunks[t].0 <= job.chunks[t].1 <= |job.tuples|
    ensures forall e :: 0 <= e < |job.tuples| ==> job.Covered(e)
    ensures forall t, u :: 0 <= t < u < |job.chunks| ==> job.chunks[t].1 <= job.chunks[u].0
  {
    var n := |job.tuples|;
    ChunksPartition(n);
    hide From, To;
    forall e | 0 <= e < n
      ensures job.Covered(e)
    {
      var t := ChunkWith(n, e, NUMB_OF_THREADS);
      assert job.InChunk(t, e);
    }
    forall t, u | 0 <= t < u < NUMB_OF_THREADS
      ensures To(t, n) <= From(u, n)
    {
      ChunkOrder(n, t, u);
    }
  }

  lemma {:induction false} ChunkOrder(n: nat, t: nat, u: nat)
    requires t < u < NUMB_OF_THREADS
    ensures To(t, n) <= From(u, n)
    decreases u
  {
    ChunksPartition(n);
    hide From, To;
    if t + 1 < u {
      ChunkOrder(n, t, u - 1);
    }
  }

  lemma {:induction false} ChunkWith(n: nat, e: nat, k: nat) returns (t: nat)
    requires 0 < k <= NUMB_OF_THREADS && e < To(k - 1, n)
    ensures t < k && From(t, n) <= e < To(t, n)
    decreases k
  {
    ChunksPartition(n);
    hide From, To;
    if From(k - 1, n) <= e {
      t := k - 1;
    } else {
      t := ChunkWith(n, e, k - 1);
    }
  }

  /** Starts the threads on fresh memory. */
  function Start(job: Job, hist: seq<nat>, memory: seq<Tuple>): State
    requires |hist| == job.buckets
  {
    State(seq(job.buckets, b requires 0 <= b < |hist| => hist[b]),
          seq(|memory|, p requires 0 <= p < |memory| => Slot(memory[p], 0, 0)),
          seq(|job.chunks|, t requires 0 <= t < |job.chunks| => Thread(job.chunks[t].0, Fetch)),
          0,
          seq(job.buckets, _ => []))
  }

  /** The job is well set up once histogram, prefix sums and chunks are. */
  lemma StartIsInit(job: Job, hist: seq<nat>, memory: seq<Tuple>)
    requires job.buckets > 0 && |hist| == |job.helpPsum| == job.buckets
    requires |memory| == |job.tuples| == |job.hashValues| && job.chunks == Chunks(|job.tuples|)
    requires forall e :: 0 <= e < |job.tuples| ==> job.hashValues[e] == Hash1(job.tuples[e].key, job.buckets)
    requires forall b :: 0 <= b < job.buckets ==> hist[b] == Count(job.tuples, job.buckets, b)
    requires forall b :: 0 <= b < job.buckets ==> job.helpPsum[b] == PrefixCount(job.tuples, job.buckets, b)
    ensures job.WellFormed() && Init(job, Start(job, hist, memory))
  {
    ChunksCover(job);
    hide Count, PrefixCount, From, To, Chunks;
  }

  /** Lets any thread take the next step until the barrier opens. */
  method RunScatter(job: Job, start: State) returns (newR: seq<Tuple>)
    requires job.WellFormed() && Init(job, start)
    ensures Scattered(job, newR) && |newR| == |job.tuples|
  {
    InitInv(job, start);
    var s := start;
    hide Step, Work, Scattered, BucketInv, ThreadInv, Taken;
    while s.completed != |s.threads|
      invariant Inv(job, s)
      decreases Work(s.threads, job.chunks)
    {
      StepsRunOut(job, s);
      var t: nat :| t < |s.threads| && Enabled(s, t);
      StepKeepsInv(job, s, t);
      s := Step(job, s, t);
    }
    ScatterComplete(job, s);
    newR := Tuples(s.newR);
  }

  /** Histogram, prefix sums and scatter of a non-empty relation. */
  method GroupInto(r: seq<Tuple>, buckets: nat) returns (newR: seq<Tuple>, entries: seq<PSum>)
    requires r != [] && buckets > 0
    ensures IsReordering(r, buckets, ReorderedR(newR, entries))
  {
    hide Count, PrefixCount, PsumOf, Chunks, Start, Scattered, IsReordering, Hash1, Init, Job.WellFormed;
    var size := |r|;
    var hist, hashValues := new nat[buckets](_ => 0), new nat[size];
    DoTheHash(r, buckets, hist, hashValues);
    var psumSize := CountBuckets(hist, r);
    var psum, helpPSum, memory := new PSum[psumSize], new nat[buckets], new Tuple[size];
    PrefixSums(hist, size, psumSize, r, psum, helpPSum);
    var job := Job(r, buckets, hashValues[..], helpPSum[..], Chunks(size));
    StartIsInit(job, hist[..], memory[..]);
    newR := RunScatter(job, Start(job, hist[..], memory[..]));
    ScatteredIsReordering(job, newR);
    entries := psum[..];
  }

  lemma ReorderingGrouped(r: seq<Tuple>, buckets: nat, ror: ReorderedR)
    requires IsReordering(r, buckets, ror)
    ensures ror.WellFormed(buckets) && GroupedByKey(ror, buckets)
  {
    KeysGrouped(ror, buckets);
  }

  lemma NothingReordered(buckets: nat)
    requires buckets > 0
    ensures IsReordering([], buckets, ReorderedR([], []))
    ensures ReorderedR([], []).WellFormed(buckets) && GroupedByKey(ReorderedR([], []), buckets)
  {
    KeysGrouped(ReorderedR([], []), buckets);
  }

  /** Groups a relation into 2^h buckets. Without an exponent one is chosen; a given one is
      kept. An empty relation leaves the exponent as it is, chosen or not. */
  method ReorderRelation(r: seq<Tuple>, hash1: Exponent) returns (ror: ReorderedR, h: Exponent)
    ensures r == [] ==> h == hash1 && ror == ReorderedR([], [])
    ensures r != [] || hash1.Some? ==> h.Some? && IsReordering(r, Pow2(h.value), ror)
    ensures h.Some? ==> ror.WellFormed(Pow2(h.value)) && GroupedByKey(ror, Pow2(h.value))
    ensures hash1.Some? ==> h == hash1
    ensures hash1.None? && r != [] ==> WantedBuckets(|r|) <= Pow2(h.value)
    ensures hash1.None? && r != [] ==> forall e: nat :: WantedBuckets(|r|) <= Pow2(e) ==> Pow2(h.value) <= Pow2(e)
  {
    hide IsReordering, ReorderedR.WellFormed, GroupedByKey;
    if r == [] {
      if hash1.Some? {
        NothingReordered(Pow2(hash1.value));
      }
      return ReorderedR([], []), hash1;
    }
    var size, buckets := |r|, 0;
    ghost var exponent;
    if hash1.None? {
      buckets, exponent := ChooseBuckets(size);
    } else {
      buckets, exponent := Pow2(hash1.value), hash1.value;
    }
    var newR, psum := GroupInto(r, buckets);
    ror := ReorderedR(newR, psum);
    var n := ExponentOf(buckets, exponent);
    ReorderingGrouped(r, buckets, ror);
    h := Some(n);
  }
}

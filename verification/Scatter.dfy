/** The concurrent bucket scatter: threads take slots by decrementing shared counters and then
    write their tuples, in any interleaving. */
module Scatter {
  import opened Words
  import opened Bags
  import opened JoinSpec
  import opened Reordered
  import opened Histogram

  /** What all threads share and none changes. */
  datatype Job = Job(tuples: seq<Tuple>, buckets: nat, hashValues: seq<nat>, helpPsum: seq<nat>,
                     chunks: seq<(nat, nat)>) {

    /** Hash values, bucket starts and consecutive chunks, as set up before the threads start. */
    ghost predicate WellFormed() {
      && buckets > 0 && |hashValues| == |tuples| && |helpPsum| == buckets
      && (forall e :: 0 <= e < |tuples| ==> hashValues[e] == Hash1(tuples[e].key, buckets))
      && (forall b :: 0 <= b < buckets ==> helpPsum[b] == PrefixCount(tuples, buckets, b))
      && (forall t :: 0 <= t < |chunks| ==> chunks[t].0 <= chunks[t].1 <= |tuples|)
      && (forall e :: 0 <= e < |tuples| ==> Covered(e))
      && (forall t, u :: 0 <= t < u < |chunks| ==> chunks[t].1 <= chunks[u].0)
    }

    predicate InChunk(t: nat, e: nat) {
      t < |chunks| && chunks[t].0 <= e < chunks[t].1
    }

    ghost predicate Covered(e: nat) {
      exists t: nat :: InChunk(t, e)
    }

    /** One past the last slot of bucket `b`, as a thread computes it. */
    function End(b: nat): nat
      requires |helpPsum| == buckets
    {
      if b < buckets - 1 then helpPsum[b + 1] else |tuples|
    }

    /** The thread whose chunk holds element `e`. */
    ghost function Owner(e: nat): (t: nat)
      requires WellFormed() && e < |tuples|
      ensures InChunk(t, e)
      ensures forall u: nat :: InChunk(u, e) ==> u == t
    {
      assert Covered(e);
      var t: nat :| InChunk(t, e);
      t
    }
  }

  /** Where a thread stands: about to take a slot, about to write the key or the payload into
      the slot it took (`temp` before the end of the bucket), or past the barrier. */
  datatype Phase = Fetch | WriteKey(temp: int) | WritePayload(temp: int) | Done

  datatype Thread = Thread(i: nat, phase: Phase) {
    predicate Writing() { phase.WriteKey? || phase.WritePayload? }
  }

  /** A slot of the new relation, with a count of the writes to each of its halves. */
  datatype Slot = Slot(tuple: Tuple, keyWrites: nat, payloadWrites: nat)

  /** `claimed[b]` records, in order, the elements that have taken a slot of bucket `b`. */
  datatype State = State(hist: seq<int>, newR: seq<Slot>, threads: seq<Thread>, completed: nat, claimed: seq<seq<nat>>)

  predicate Shape(job: Job, s: State) {
    && |s.hist| == job.buckets == |s.claimed| == |job.helpPsum|
    && |s.newR| == |job.tuples| == |job.hashValues|
    && |s.threads| == |job.chunks|
    && (forall e :: 0 <= e < |job.hashValues| ==> job.hashValues[e] < job.buckets)
    && (forall t :: 0 <= t < |job.chunks| ==> s.threads[t].i <= job.chunks[t].1 <= |job.tuples|)
    && (forall t :: 0 <= t < |job.chunks| && s.threads[t].Writing() ==> s.threads[t].i < job.chunks[t].1)
  }

  /** The counters start at the histogram, the threads at their chunks, and the new relation is
      memory with anything in it. */
  ghost predicate Init(job: Job, s: State)
    requires job.WellFormed()
  {
    && Shape(job, s)
    && (forall b :: 0 <= b < job.buckets ==> s.hist[b] == Count(job.tuples, job.buckets, b) && s.claimed[b] == [])
    && (forall t :: 0 <= t < |job.chunks| ==> s.threads[t] == Thread(job.chunks[t].0, Fetch))
    && (forall p :: 0 <= p < |s.newR| ==> s.newR[p].keyWrites == s.newR[p].payloadWrites == 0)
    && s.completed == 0
  }

  predicate Enabled(s: State, t: nat) {
    t < |s.threads| && !s.threads[t].phase.Done?
  }

  /** One step of thread `t`. Reading and decrementing a counter is one step: the bucket's lock
      is held. The two halves of a tuple are written by two steps, without a lock. */
  function Step(job: Job, s: State, t: nat): (s': State)
    requires Shape(job, s) && Enabled(s, t)
    ensures Shape(job, s')
  {
    var th := s.threads[t];
    match th.phase
    case Fetch =>
      if th.i < job.chunks[t].1 then
        var b := job.hashValues[th.i];
        s.(hist := s.hist[b := s.hist[b] - 1],
           threads := s.threads[t := th.(phase := WriteKey(s.hist[b]))],
           claimed := s.claimed[b := s.claimed[b] + [th.i]])
      else
        s.(threads := s.threads[t := th.(phase := Done)], completed := s.completed + 1)
    case WriteKey(temp) =>
      var p := job.End(job.hashValues[th.i]) - temp;
      s.(newR := StoreKey(s.newR, p, job.tuples[th.i].key),
         threads := s.threads[t := th.(phase := WritePayload(temp))])
    case WritePayload(temp) =>
      var p := job.End(job.hashValues[th.i]) - temp;
      s.(newR := StorePayload(s.newR, p, job.tuples[th.i].payload),
         threads := s.threads[t := Thread(th.i + 1, Fetch)])
    case Done => s
  }

  /** A store outside the array would hit other memory; `SlotsInBounds` shows there is none. */
  function StoreKey(newR: seq<Slot>, p: int, key: Word): (r: seq<Slot>)
    ensures |r| == |newR|
  {
    if 0 <= p < |newR| then
      newR[p := newR[p].(tuple := newR[p].tuple.(key := key), keyWrites := newR[p].keyWrites + 1)]
    else newR
  }

  function StorePayload(newR: seq<Slot>, p: int, payload: nat): (r: seq<Slot>)
    ensures |r| == |newR|
  {
    if 0 <= p < |newR| then
      newR[p := newR[p].(tuple := newR[p].tuple.(payload := payload), payloadWrites := newR[p].payloadWrites + 1)]
    else newR
  }

  /** An interleaving is the sequence of the threads that take the next step. A thread that is
      done takes none. */
  function Run(job: Job, s: State, schedule: seq<nat>): (s': State)
    requires Shape(job, s)
    ensures Shape(job, s')
    decreases |schedule|
  {
    if schedule == [] then s
    else Run(job, if Enabled(s, schedule[0]) then Step(job, s, schedule[0]) else s, schedule[1..])
  }

  /* ----- the invariant ----- */

  /** How far the tuple of element `e` has been written: not at all, its key, or both halves. */
  ghost function Stage(job: Job, s: State, e: nat): nat
    requires job.WellFormed() && Shape(job, s) && e < |job.tuples|
  {
    var th := s.threads[job.Owner(e)];
    if e < th.i then 2 else if e == th.i && th.phase.WritePayload? then 1 else 0
  }

  ghost predicate Taken(job: Job, s: State, e: nat)
    requires job.WellFormed() && Shape(job, s) && e < |job.tuples|
  {
    var th := s.threads[job.Owner(e)];
    e < th.i || (e == th.i && th.Writing())
  }

  /** The slot holds as much of the tuple as the stage says, written once. */
  predicate SlotOk(slot: Slot, x: Tuple, stage: nat) {
    && slot.keyWrites == (if stage >= 1 then 1 else 0)
    && slot.payloadWrites == (if stage >= 2 then 1 else 0)
    && (stage >= 1 ==> slot.tuple.key == x.key)
    && (stage >= 2 ==> slot.tuple.payload == x.payload)
  }

  /** Bucket `b`: its counter, the elements that have taken its slots, and those slots. */
  ghost predicate BucketInv(job: Job, s: State, b: nat)
    requires job.WellFormed() && Shape(job, s) && b < job.buckets
  {
    var claims, start := s.claimed[b], PrefixCount(job.tuples, job.buckets, b);
    && s.hist[b] == Count(job.tuples, job.buckets, b) - |claims|
    && NoDuplicates(claims)
    && (forall k :: 0 <= k < |claims| ==>
          claims[k] < |job.tuples| && job.hashValues[claims[k]] == b && Taken(job, s, claims[k]))
    && |claims| <= Count(job.tuples, job.buckets, b)
    && start + Count(job.tuples, job.buckets, b) == job.End(b) <= |job.tuples|
    && (forall k :: 0 <= k < |claims| ==>
          SlotOk(s.newR[start + k], job.tuples[claims[k]], Stage(job, s, claims[k])))
    && (forall p :: start + |claims| <= p < job.End(b) ==> s.newR[p].keyWrites == s.newR[p].payloadWrites == 0)
  }

  /** Thread `t`: within its chunk, and while writing, owner of the slot it computed. */
  ghost predicate ThreadInv(job: Job, s: State, t: nat)
    requires job.WellFormed() && Shape(job, s) && t < |job.chunks|
  {
    var th := s.threads[t];
    && job.chunks[t].0 <= th.i
    && (th.phase.Done? ==> th.i == job.chunks[t].1)
    && (th.Writing() ==>
          var b := job.hashValues[th.i];
          var k := Count(job.tuples, job.buckets, b) - th.phase.temp;
          0 <= k < |s.claimed[b]| && s.claimed[b][k] == th.i)
  }

  ghost predicate Inv(job: Job, s: State)
    requires job.WellFormed()
  {
    && Shape(job, s)
    && (forall b :: 0 <= b < job.buckets ==> BucketInv(job, s, b))
    && (forall t :: 0 <= t < |job.chunks| ==> ThreadInv(job, s, t))
    && (forall e :: 0 <= e < |job.tuples| && Taken(job, s, e) ==> e in s.claimed[job.hashValues[e]])
    && s.completed == DoneCount(s.threads)
  }

  function DoneCount(threads: seq<Thread>): (n: nat)
    ensures n <= |threads|
    ensures n == |threads| <==> forall t :: 0 <= t < |threads| ==> threads[t].phase.Done?
  {
    if threads == [] then 0
    else DoneCount(threads[..|threads| - 1]) + if threads[|threads| - 1].phase.Done? then 1 else 0
  }

  lemma {:induction false} DoneCountUpdate(threads: seq<Thread>, t: nat, th: Thread)
    requires t < |threads|
    ensures DoneCount(threads[t := th]) == DoneCount(threads)
              + (if th.phase.Done? then 1 else 0) - (if threads[t].phase.Done? then 1 else 0)
  {
    var n := |threads| - 1;
    if t < n {
      assert threads[t := th][..n] == threads[..n][t := th];
      DoneCountUpdate(threads[..n], t, th);
    } else {
      assert threads[t := th][..n] == threads[..n];
    }
  }

  /* ----- room in the bucket ----- */

  /** The positions below `n` with hash value `b`. */
  ghost function PosSet(job: Job, b: nat, n: nat): (r: set<nat>)
    requires n <= |job.hashValues|
    ensures forall e :: e in r <==> 0 <= e < n && job.hashValues[e] == b
  {
    if n == 0 then {} else PosSet(job, b, n - 1) + if job.hashValues[n - 1] == b then {n - 1} else {}
  }

  lemma {:induction false} PosSetSize(job: Job, b: nat, n: nat)
    requires job.WellFormed() && n <= |job.tuples|
    ensures |PosSet(job, b, n)| == Count(job.tuples[..n], job.buckets, b)
  {
    hide *;
    if n == 0 {
      NoPosition(job, b);
    } else {
      PosSetSize(job, b, n - 1);
      NextPosition(job, b, n - 1);
      CountSnoc(job.tuples[..n - 1], job.tuples[n - 1], job.buckets, b);
      assert job.tuples[..n] == job.tuples[..n - 1] + [job.tuples[n - 1]];
    }
  }

  lemma NoPosition(job: Job, b: nat)
    requires job.WellFormed()
    ensures PosSet(job, b, 0) == {} && Count(job.tuples[..0], job.buckets, b) == 0
  {
    assert job.tuples[..0] == [];
  }

  lemma NextPosition(job: Job, b: nat, n: nat)
    requires job.WellFormed() && n < |job.tuples|
    ensures job.buckets > 0
    ensures |PosSet(job, b, n + 1)|
         == |PosSet(job, b, n)| + (if Hash1(job.tuples[n].key, job.buckets) == b then 1 else 0)
  {
  }

  /** Distinct elements of a bucket are at most its count, and all of it when there are as many. */
  lemma ClaimsFit(job: Job, claims: seq<nat>, b: nat)
    requires job.WellFormed() && NoDuplicates(claims)
    requires forall k :: 0 <= k < |claims| ==> claims[k] < |job.tuples| && job.hashValues[claims[k]] == b
    ensures |claims| <= Count(job.tuples, job.buckets, b)
    ensures |claims| == Count(job.tuples, job.buckets, b)
       <==> forall e :: 0 <= e < |job.tuples| && job.hashValues[e] == b ==> e in claims
  {
    hide Count, PosSet, NoDuplicates;
    var all, hit := PosSet(job, b, |job.tuples|), set e | e in claims;
    PosSetSize(job, b, |job.tuples|);
    assert job.tuples[..|job.tuples|] == job.tuples;
    DistinctLength(claims);
    SubsetSize(hit, all);
    if forall e :: 0 <= e < |job.tuples| && job.hashValues[e] == b ==> e in claims {
      assert hit == all;
    }
  }

  /** Segments of different buckets do not meet. */
  lemma SegmentsApart(job: Job, b: nat, c: nat)
    requires job.WellFormed() && b < c < job.buckets
    ensures job.End(b) <= PrefixCount(job.tuples, job.buckets, c)
    ensures job.End(c) <= |job.tuples|
  {
    hide PrefixCount, Count, Job.End;
    PrefixCountMonotone(job.tuples, job.buckets, b + 1, c);
    SegmentEnd(job, b);
    SegmentEnd(job, c);
  }

  lemma SegmentEnd(job: Job, b: nat)
    requires job.WellFormed() && b < job.buckets
    ensures PrefixCount(job.tuples, job.buckets, b) + Count(job.tuples, job.buckets, b)
         == PrefixCount(job.tuples, job.buckets, b + 1) == job.End(b) <= |job.tuples|
  {
    HistogramTotal(job.tuples, job.buckets);
    PrefixCountMonotone(job.tuples, job.buckets, b + 1, job.buckets);
  }

  /* ----- each step keeps the invariant ----- */

  lemma InitInv(job: Job, s: State)
    requires job.WellFormed() && Init(job, s)
    ensures Inv(job, s)
  {
    hide Count, PrefixCount;
    forall b | 0 <= b < job.buckets
      ensures BucketInv(job, s, b)
    {
      SegmentEnd(job, b);
    }
    NoneDone(s.threads);
  }

  lemma {:induction false} NoneDone(threads: seq<Thread>)
    requires forall t :: 0 <= t < |threads| ==> !threads[t].phase.Done?
    ensures DoneCount(threads) == 0
  {
    if threads != [] {
      NoneDone(threads[..|threads| - 1]);
    }
  }

  /** A thread about to take a slot finds its bucket's counter above zero. */
  lemma RoomLeft(job: Job, s: State, t: nat)
    requires job.WellFormed() && Inv(job, s) && Enabled(s, t)
    requires s.threads[t].phase.Fetch? && s.threads[t].i < job.chunks[t].1
    ensures job.InChunk(t, s.threads[t].i)
    ensures var b := job.hashValues[s.threads[t].i];
      && s.hist[b] > 0 && s.threads[t].i !in s.claimed[b] && |s.claimed[b]| < Count(job.tuples, job.buckets, b)
  {
    hide Count, PrefixCount, SlotOk, Job.End, Stage;
    var i := s.threads[t].i;
    assert ThreadInv(job, s, t);
    assert BucketInv(job, s, job.hashValues[i]);
    ClaimsFit(job, s.claimed[job.hashValues[i]], job.hashValues[i]);
  }

  /** Taking a slot: its element is taken but not yet written. */
  lemma StageAfterFetch(job: Job, s: State, t: nat)
    requires job.WellFormed() && Shape(job, s) && Enabled(s, t)
    requires s.threads[t].phase.Fetch? && job.InChunk(t, s.threads[t].i)
    ensures var s' := Step(job, s, t);
      && Stage(job, s', s.threads[t].i) == 0
      && (forall e :: 0 <= e < |job.tuples| ==> Stage(job, s', e) == Stage(job, s, e))
      && (forall e :: 0 <= e < |job.tuples| ==> (Taken(job, s', e) <==> Taken(job, s, e) || e == s.threads[t].i))
  {
  }

  lemma FetchKeepsBuckets(job: Job, s: State, t: nat)
    requires job.WellFormed() && Inv(job, s) && Enabled(s, t)
    requires s.threads[t].phase.Fetch? && s.threads[t].i < job.chunks[t].1
    ensures forall b :: 0 <= b < job.buckets ==> BucketInv(job, Step(job, s, t), b)
  {
    var s', i := Step(job, s, t), s.threads[t].i;
    RoomLeft(job, s, t);
    StageAfterFetch(job, s, t);
    hide Count, PrefixCount, SlotOk, Job.End, Stage, Taken, ThreadInv, NoDuplicates;
    forall b | 0 <= b < job.buckets
      ensures BucketInv(job, s', b)
    {
      assert BucketInv(job, s, b);
      if b == job.hashValues[i] {
        ClaimKeepsBucket(job, s, s', b, i);
      }
    }
  }

  /** One more claim in a bucket leaves a thread that has not moved as it was. */
  lemma OtherThread(job: Job, s: State, s': State, b: nat, i: nat, u: nat)
    requires job.WellFormed() && Shape(job, s) && Shape(job, s') && u < |job.chunks| && b < job.buckets
    requires ThreadInv(job, s, u) && s'.threads[u] == s.threads[u]
    requires s'.claimed == s.claimed[b := s.claimed[b] + [i]]
    ensures ThreadInv(job, s', u)
  {
    hide Count;
  }

  lemma FetchKeepsThreads(job: Job, s: State, t: nat)
    requires job.WellFormed() && Inv(job, s) && Enabled(s, t)
    requires s.threads[t].phase.Fetch? && s.threads[t].i < job.chunks[t].1
    ensures forall u :: 0 <= u < |job.chunks| ==> ThreadInv(job, Step(job, s, t), u)
  {
    var s', i := Step(job, s, t), s.threads[t].i;
    var b := job.hashValues[i];
    RoomLeft(job, s, t);
    assert s.hist[b] == Count(job.tuples, job.buckets, b) - |s.claimed[b]| by { assert BucketInv(job, s, b); }
    hide Count, BucketInv, Taken;
    assert ThreadInv(job, s', t);
    assert s'.claimed == s.claimed[b := s.claimed[b] + [i]];
    forall u | 0 <= u < |job.chunks|
      ensures ThreadInv(job, s', u)
    {
      assert ThreadInv(job, s, u);
      hide ThreadInv;
      if u != t {
        OtherThread(job, s, s', b, i, u);
      }
    }
  }

  lemma FetchKeepsInv(job: Job, s: State, t: nat)
    requires job.WellFormed() && Inv(job, s) && Enabled(s, t)
    requires s.threads[t].phase.Fetch? && s.threads[t].i < job.chunks[t].1
    ensures Inv(job, Step(job, s, t))
  {
    hide Count, BucketInv, ThreadInv, Stage, Taken;
    RoomLeft(job, s, t);
    StageAfterFetch(job, s, t);
    FetchKeepsBuckets(job, s, t);
    FetchKeepsThreads(job, s, t);
    DoneCountUpdate(s.threads, t, Step(job, s, t).threads[t]);
  }

  /** The bucket whose next slot was taken, still unwritten. */
  lemma ClaimKeepsBucket(job: Job, s: State, s': State, b: nat, i: nat)
    requires job.WellFormed() && Shape(job, s) && Shape(job, s') && b < job.buckets && BucketInv(job, s, b)
    requires i < |job.tuples| && job.hashValues[i] == b && i !in s.claimed[b]
    requires |s.claimed[b]| < Count(job.tuples, job.buckets, b)
    requires s'.hist[b] == s.hist[b] - 1 && s'.claimed[b] == s.claimed[b] + [i] && s'.newR == s.newR
    requires Stage(job, s', i) == 0
    requires forall e :: 0 <= e < |job.tuples| ==>
               Stage(job, s', e) == Stage(job, s, e) && (Taken(job, s', e) <==> Taken(job, s, e) || e == i)
    ensures BucketInv(job, s', b)
  {
    hide Count, PrefixCount, Job.End, Stage, Taken;
  }

  /** Reaching the end of the chunk: one more thread is past the barrier. */
  lemma FinishKeepsInv(job: Job, s: State, t: nat)
    requires job.WellFormed() && Inv(job, s) && Enabled(s, t)
    requires s.threads[t].phase.Fetch? && s.threads[t].i >= job.chunks[t].1
    ensures Inv(job, Step(job, s, t))
  {
    var s' := Step(job, s, t);
    DoneCountUpdate(s.threads, t, s'.threads[t]);
    hide Count, PrefixCount, SlotOk, Job.End, Stage, Taken, BucketInv, ThreadInv, Job.WellFormed;
    forall e: nat | e < |job.tuples|
      ensures Stage(job, s', e) == Stage(job, s, e) && (Taken(job, s', e) <==> Taken(job, s, e))
    {
      StageAfterFinish(job, s, t, e);
    }
    forall b: nat | b < job.buckets
      ensures BucketInv(job, s', b)
    {
      assert BucketInv(job, s, b);
      SameBucket(job, s, s', b);
    }
    forall u: nat | u < |job.chunks|
      ensures ThreadInv(job, s', u)
    {
      ThreadAfterFinish(job, s, t, u);
    }
  }

  lemma StageAfterFinish(job: Job, s: State, t: nat, e: nat)
    requires job.WellFormed() && Shape(job, s) && Enabled(s, t) && e < |job.tuples|
    requires s.threads[t].phase.Fetch? && s.threads[t].i >= job.chunks[t].1
    ensures Shape(job, Step(job, s, t))
    ensures Stage(job, Step(job, s, t), e) == Stage(job, s, e)
    ensures Taken(job, Step(job, s, t), e) <==> Taken(job, s, e)
  {
  }

  /** A bucket that neither its counter, its claims, its slots nor its elements' stages tell from before. */
  lemma SameBucket(job: Job, s: State, s': State, b: nat)
    requires job.WellFormed() && Shape(job, s) && Shape(job, s') && b < job.buckets && BucketInv(job, s, b)
    requires s'.hist == s.hist && s'.newR == s.newR && s'.claimed == s.claimed
    requires forall e: nat :: e < |job.tuples| ==>
               Stage(job, s', e) == Stage(job, s, e) && (Taken(job, s', e) <==> Taken(job, s, e))
    ensures BucketInv(job, s', b)
  {
    hide Count, PrefixCount, SlotOk, Job.End, Stage, Taken, Job.WellFormed;
  }

  lemma ThreadAfterFinish(job: Job, s: State, t: nat, u: nat)
    requires job.WellFormed() && Inv(job, s) && Enabled(s, t) && u < |job.chunks|
    requires s.threads[t].phase.Fetch? && s.threads[t].i >= job.chunks[t].1
    ensures Shape(job, Step(job, s, t)) && ThreadInv(job, Step(job, s, t), u)
  {
    hide Count, BucketInv, Job.WellFormed, Taken;
    assert ThreadInv(job, s, u);
    assert ThreadInv(job, s, t);
  }

  /** The slot a writing thread addresses: inside the array, in its bucket's segment, at its claim. */
  lemma SlotsInBounds(job: Job, s: State, t: nat) returns (b: nat, k: nat, p: nat)
    requires job.WellFormed() && Inv(job, s) && t < |job.chunks| && s.threads[t].Writing()
    ensures b == job.hashValues[s.threads[t].i]
    ensures k < |s.claimed[b]| && s.claimed[b][k] == s.threads[t].i
    ensures p == job.End(b) - s.threads[t].phase.temp == PrefixCount(job.tuples, job.buckets, b) + k
    ensures p < job.End(b) <= |s.newR|
    ensures job.InChunk(t, s.threads[t].i)
  {
    hide Count, PrefixCount, SlotOk, Job.End;
    assert ThreadInv(job, s, t);
    b := job.hashValues[s.threads[t].i];
    assert BucketInv(job, s, b);
    k := Count(job.tuples, job.buckets, b) - s.threads[t].phase.temp;
    p := PrefixCount(job.tuples, job.buckets, b) + k;
  }

  /** A store into a claimed slot leaves the other buckets alone. */
  lemma OtherBucket(job: Job, s: State, s': State, b0: nat, p: nat, b: nat)
    requires job.WellFormed() && Shape(job, s) && Shape(job, s') && b0 < job.buckets && b < job.buckets && b != b0
    requires PrefixCount(job.tuples, job.buckets, b0) <= p < job.End(b0) <= |s.newR|
    requires BucketInv(job, s, b)
    requires s'.hist == s.hist && s'.claimed == s.claimed && |s'.newR| == |s.newR|
    requires forall q :: 0 <= q < |s.newR| && q != p ==> s'.newR[q] == s.newR[q]
    requires forall e :: 0 <= e < |job.tuples| && job.hashValues[e] != b0 ==>
               Stage(job, s', e) == Stage(job, s, e) && (Taken(job, s', e) <==> Taken(job, s, e))
    ensures BucketInv(job, s', b)
  {
    hide Count, PrefixCount, SlotOk, Job.End, Stage, Taken;
    if b < b0 {
      SegmentsApart(job, b, b0);
    } else {
      SegmentsApart(job, b0, b);
    }
  }

  /** A store into the slot of claim `k` brings that slot to its element's new stage. */
  lemma StoreKeepsBucket(job: Job, s: State, s': State, b: nat, k: nat, p: nat)
    requires job.WellFormed() && Shape(job, s) && Shape(job, s') && b < job.buckets && BucketInv(job, s, b)
    requires k < |s.claimed[b]| && p == PrefixCount(job.tuples, job.buckets, b) + k < |s.newR|
    requires s'.hist == s.hist && s'.claimed == s.claimed
    requires forall q :: 0 <= q < |s.newR| && q != p ==> s'.newR[q] == s.newR[q]
    requires SlotOk(s'.newR[p], job.tuples[s.claimed[b][k]], Stage(job, s', s.claimed[b][k]))
    requires forall e :: 0 <= e < |job.tuples| && e != s.claimed[b][k] ==> Stage(job, s', e) == Stage(job, s, e)
    requires forall e :: 0 <= e < |job.tuples| ==> (Taken(job, s', e) <==> Taken(job, s, e))
    ensures BucketInv(job, s', b)
  {
    hide Count, PrefixCount, Job.End, Stage, Taken, SlotOk;
  }

  /** A writing thread's store moves only its own element to the next stage. */
  lemma StageAfterStore(job: Job, s: State, s': State, t: nat)
    requires job.WellFormed() && Shape(job, s) && Shape(job, s') && t < |job.chunks|
    requires s.threads[t].Writing() && job.InChunk(t, s.threads[t].i)
    requires s'.threads == s.threads[t := s'.threads[t]]
    requires s'.threads[t] == (if s.threads[t].phase.WriteKey?
                               then Thread(s.threads[t].i, WritePayload(s.threads[t].phase.temp))
                               else Thread(s.threads[t].i + 1, Fetch))
    ensures Stage(job, s', s.threads[t].i) == Stage(job, s, s.threads[t].i) + 1
         == if s.threads[t].phase.WriteKey? then 1 else 2
    ensures forall e :: 0 <= e < |job.tuples| && e != s.threads[t].i ==> Stage(job, s', e) == Stage(job, s, e)
    ensures forall e :: 0 <= e < |job.tuples| ==> (Taken(job, s', e) <==> Taken(job, s, e))
  {
  }

  /** The slot a thread is about to write has been written just as far as its element. */
  lemma SlotBefore(job: Job, s: State, t: nat, b: nat, k: nat, p: nat)
    requires job.WellFormed() && Inv(job, s) && t < |job.chunks| && s.threads[t].Writing()
    requires b < job.buckets && k < |s.claimed[b]| && s.claimed[b][k] == s.threads[t].i
    requires p == PrefixCount(job.tuples, job.buckets, b) + k < |s.newR|
    requires job.InChunk(t, s.threads[t].i)
    ensures SlotOk(s.newR[p], job.tuples[s.threads[t].i], if s.threads[t].phase.WriteKey? then 0 else 1)
  {
    hide Count, PrefixCount, Job.End, Taken, SlotOk, ThreadInv;
    assert BucketInv(job, s, b);
    assert SlotOk(s.newR[PrefixCount(job.tuples, job.buckets, b) + k], job.tuples[s.claimed[b][k]],
                  Stage(job, s, s.claimed[b][k]));
  }

  /** What a store does: it brings that slot to the next stage and leaves every other slot, the
      counters and the claims as they are. */
  lemma StoreEffect(job: Job, s: State, t: nat, p: nat)
    requires Shape(job, s) && Enabled(s, t) && s.threads[t].Writing()
    requires p == job.End(job.hashValues[s.threads[t].i]) - s.threads[t].phase.temp && p < |s.newR|
    requires SlotOk(s.newR[p], job.tuples[s.threads[t].i], if s.threads[t].phase.WriteKey? then 0 else 1)
    ensures var s' := Step(job, s, t);
      && s'.hist == s.hist && s'.claimed == s.claimed && s'.completed == s.completed
      && s'.threads == s.threads[t := s'.threads[t]]
      && s'.threads[t] == (if s.threads[t].phase.WriteKey?
                           then Thread(s.threads[t].i, WritePayload(s.threads[t].phase.temp))
                           else Thread(s.threads[t].i + 1, Fetch))
      && (forall q :: 0 <= q < |s.newR| && q != p ==> s'.newR[q] == s.newR[q])
      && SlotOk(s'.newR[p], job.tuples[s.threads[t].i], if s.threads[t].phase.WriteKey? then 1 else 2)
  {
  }

  /** After a store all buckets are as they should be. */
  lemma StoreKeepsBuckets(job: Job, s: State, s': State, t: nat, b0: nat, k: nat, p: nat)
    requires job.WellFormed() && Inv(job, s) && Shape(job, s') && t < |job.chunks|
    requires job.InChunk(t, s.threads[t].i)
    requires b0 == job.hashValues[s.threads[t].i] && k < |s.claimed[b0]| && s.claimed[b0][k] == s.threads[t].i
    requires p == PrefixCount(job.tuples, job.buckets, b0) + k < job.End(b0) <= |s.newR|
    requires s'.hist == s.hist && s'.claimed == s.claimed
    requires forall q :: 0 <= q < |s.newR| && q != p ==> s'.newR[q] == s.newR[q]
    requires SlotOk(s'.newR[p], job.tuples[s.threads[t].i], Stage(job, s', s.threads[t].i))
    requires forall e :: 0 <= e < |job.tuples| && e != s.threads[t].i ==> Stage(job, s', e) == Stage(job, s, e)
    requires forall e :: 0 <= e < |job.tuples| ==> (Taken(job, s', e) <==> Taken(job, s, e))
    ensures forall b :: 0 <= b < job.buckets ==> BucketInv(job, s', b)
  {
    hide BucketInv, ThreadInv, Count, PrefixCount, Job.End, Stage, Taken, SlotOk;
    forall b | 0 <= b < job.buckets
      ensures BucketInv(job, s', b)
    {
      assert BucketInv(job, s, b);
      if b == b0 {
        StoreKeepsBucket(job, s, s', b0, k, p);
      } else {
        OtherBucket(job, s, s', b0, p, b);
      }
    }
  }

  /** The store of either half. */
  lemma StoreKeepsInv(job: Job, s: State, t: nat)
    requires job.WellFormed() && Inv(job, s) && Enabled(s, t) && s.threads[t].Writing()
    ensures Inv(job, Step(job, s, t))
  {
    var s' := Step(job, s, t);
    var b, k, p := SlotsInBounds(job, s, t);
    SlotBefore(job, s, t, b, k, p);
    StoreEffect(job, s, t, p);
    StageAfterStore(job, s, s', t);
    hide BucketInv, ThreadInv, Count, PrefixCount, Job.End, Stage, Taken, SlotOk, Step;
    StoreKeepsBuckets(job, s, s', t, b, k, p);
    StoreKeepsThreads(job, s, s', t);
    DoneCountUpdate(s.threads, t, s'.threads[t]);
  }

  /** After a store the thread is still within its chunk, and the others have not moved. */
  lemma StoreKeepsThreads(job: Job, s: State, s': State, t: nat)
    requires job.WellFormed() && Inv(job, s) && Shape(job, s') && t < |job.chunks| && s.threads[t].Writing()
    requires s'.claimed == s.claimed && s'.threads == s.threads[t := s'.threads[t]]
    requires s'.threads[t] == (if s.threads[t].phase.WriteKey?
                               then Thread(s.threads[t].i, WritePayload(s.threads[t].phase.temp))
                               else Thread(s.threads[t].i + 1, Fetch))
    ensures forall u :: 0 <= u < |job.chunks| ==> ThreadInv(job, s', u)
  {
    hide BucketInv, Count, Taken;
    forall u | 0 <= u < |job.chunks|
      ensures ThreadInv(job, s', u)
    {
      assert ThreadInv(job, s, u);
    }
  }

  lemma StepKeepsInv(job: Job, s: State, t: nat)
    requires job.WellFormed() && Inv(job, s) && Enabled(s, t)
    ensures Inv(job, Step(job, s, t))
  {
    match s.threads[t].phase
    case Fetch =>
      if s.threads[t].i < job.chunks[t].1 {
        FetchKeepsInv(job, s, t);
      } else {
        FinishKeepsInv(job, s, t);
      }
    case WriteKey(_) => StoreKeepsInv(job, s, t);
    case WritePayload(_) => StoreKeepsInv(job, s, t);
  }

  /** Every interleaving keeps the invariant. */
  lemma {:induction false} RunKeepsInv(job: Job, s: State, schedule: seq<nat>)
    requires job.WellFormed() && Inv(job, s)
    ensures Inv(job, Run(job, s, schedule))
    decreases |schedule|
  {
    hide BucketInv, ThreadInv, Taken, Step;
    if schedule != [] {
      if Enabled(s, schedule[0]) {
        StepKeepsInv(job, s, schedule[0]);
        RunKeepsInv(job, Step(job, s, schedule[0]), schedule[1..]);
      } else {
        RunKeepsInv(job, s, schedule[1..]);
      }
    }
  }

  /* ----- what every interleaving ends with ----- */

  function Tuples(newR: seq<Slot>): (r: seq<Tuple>)
    ensures |r| == |newR|
  {
    seq(|newR|, p requires 0 <= p < |newR| => newR[p].tuple)
  }

  /** The new relation: a permutation of the input with each bucket in its own segment. */
  ghost predicate Scattered(job: Job, r: seq<Tuple>)
    requires job.WellFormed()
  {
    && multiset(r) == multiset(job.tuples)
    && (forall b, p :: 0 <= b < job.buckets && PrefixCount(job.tuples, job.buckets, b) <= p < job.End(b) && p < |r| ==>
          Hash1(r[p].key, job.buckets) == b)
  }

  /** Past the barrier every element has been written and every counter has come down to zero. */
  lemma AllWritten(job: Job, s: State)
    requires job.WellFormed() && Inv(job, s) && s.completed == |s.threads|
    ensures forall e :: 0 <= e < |job.tuples| ==> Stage(job, s, e) == 2
    ensures forall b :: 0 <= b < job.buckets ==>
              s.hist[b] == 0 && |s.claimed[b]| == Count(job.tuples, job.buckets, b)
  {
    hide Count, PrefixCount, SlotOk, Job.End;
    forall e | 0 <= e < |job.tuples|
      ensures Stage(job, s, e) == 2 && Taken(job, s, e)
    {
      assert ThreadInv(job, s, job.Owner(e));
    }
    hide Stage, Taken, ThreadInv;
    forall b | 0 <= b < job.buckets
      ensures s.hist[b] == 0 && |s.claimed[b]| == Count(job.tuples, job.buckets, b)
    {
      assert BucketInv(job, s, b);
      ClaimsFit(job, s.claimed[b], b);
    }
  }

  /** Distinct elements with hash values from `lo` up to `hi`. */
  ghost predicate ElementsOf(job: Job, at: seq<nat>, lo: nat, hi: nat)
    requires |job.tuples| == |job.hashValues|
  {
    && NoDuplicates(at)
    && forall k :: 0 <= k < |at| ==> at[k] < |job.tuples| && lo <= job.hashValues[at[k]] < hi
  }

  /** A run of slots holds the given elements' tuples, each slot written once. */
  ghost predicate RunHolds(job: Job, newR: seq<Slot>, start: nat, at: seq<nat>)
    requires |job.tuples| == |job.hashValues|
  {
    && start + |at| <= |newR|
    && (forall k :: 0 <= k < |at| ==> at[k] < |job.tuples| && SlotOk(newR[start + k], job.tuples[at[k]], 2))
  }

  /** The segment of bucket `b` holds its claimed elements in the order they were claimed. */
  lemma SegmentHolds(job: Job, s: State, b: nat)
    requires job.WellFormed() && Inv(job, s) && s.completed == |s.threads| && b < job.buckets
    ensures ElementsOf(job, s.claimed[b], b, b + 1)
    ensures RunHolds(job, s.newR, PrefixCount(job.tuples, job.buckets, b), s.claimed[b])
    ensures PrefixCount(job.tuples, job.buckets, b + 1) == job.End(b)
         == PrefixCount(job.tuples, job.buckets, b) + |s.claimed[b]|
  {
    AllWritten(job, s);
    SegmentEnd(job, b);
    assert BucketInv(job, s, b);
    hide Inv, Count, PrefixCount, Job.End, Job.WellFormed, Stage, Taken, SlotOk, ThreadInv;
    BucketWritten(job, s, b);
  }

  /** A bucket whose counter is down to zero and whose elements are all written. */
  lemma BucketWritten(job: Job, s: State, b: nat)
    requires job.WellFormed() && Shape(job, s) && b < job.buckets && BucketInv(job, s, b)
    requires |s.claimed[b]| == Count(job.tuples, job.buckets, b)
    requires forall e: nat :: e < |job.tuples| ==> Stage(job, s, e) == 2
    ensures ElementsOf(job, s.claimed[b], b, b + 1)
    ensures RunHolds(job, s.newR, PrefixCount(job.tuples, job.buckets, b), s.claimed[b])
  {
    hide Count, PrefixCount, Job.End, Stage, Taken, SlotOk;
  }

  /** Up to bucket `b` the new relation is its claims picked from the input, each element once. */
  lemma {:induction false} SegmentsHold(job: Job, s: State, b: nat) returns (at: seq<nat>)
    requires job.WellFormed() && Inv(job, s) && s.completed == |s.threads| && b <= job.buckets
    ensures ElementsOf(job, at, 0, b) && RunHolds(job, s.newR, 0, at)
    ensures |at| == PrefixCount(job.tuples, job.buckets, b)
  {
    hide BucketInv, ThreadInv, Taken, ElementsOf, Count;
    if b == 0 {
      at := [];
      assert ElementsOf(job, at, 0, b) by { NothingElse(job); }
    } else {
      var before := SegmentsHold(job, s, b - 1);
      SegmentHolds(job, s, b - 1);
      at := before + s.claimed[b - 1];
      ElementsJoin(job, s.newR, before, s.claimed[b - 1], b - 1);
    }
  }

  lemma NothingElse(job: Job)
    requires |job.tuples| == |job.hashValues|
    ensures ElementsOf(job, [], 0, 0)
  {
  }

  lemma ElementsJoin(job: Job, newR: seq<Slot>, at: seq<nat>, more: seq<nat>, b: nat)
    requires |job.tuples| == |job.hashValues|
    requires ElementsOf(job, at, 0, b) && ElementsOf(job, more, b, b + 1)
    requires RunHolds(job, newR, 0, at) && RunHolds(job, newR, |at|, more)
    ensures ElementsOf(job, at + more, 0, b + 1) && RunHolds(job, newR, 0, at + more)
  {
    hide SlotOk;
    forall k | 0 <= k < |at + more|
      ensures SlotOk(newR[0 + k], job.tuples[(at + more)[k]], 2)
    {
      if k < |at| {
        assert SlotOk(newR[0 + k], job.tuples[at[k]], 2);
      } else {
        assert SlotOk(newR[|at| + (k - |at|)], job.tuples[more[k - |at|]], 2);
      }
    }
  }

  /** Past the barrier the new relation is complete, each slot written exactly once. */
  lemma ScatterComplete(job: Job, s: State)
    requires job.WellFormed() && Inv(job, s) && s.completed == |s.threads|
    ensures Scattered(job, Tuples(s.newR))
    ensures forall p :: 0 <= p < |s.newR| ==> s.newR[p].keyWrites == s.newR[p].payloadWrites == 1
  {
    hide Count, PrefixCount, Job.End, BucketInv, ThreadInv, Stage, Taken;
    HistogramTotal(job.tuples, job.buckets);
    var at := SegmentsHold(job, s, job.buckets);
    assert Tuples(s.newR) == Pick(job.tuples, at) by {
      forall p | 0 <= p < |s.newR|
        ensures s.newR[p].tuple == job.tuples[at[p]]
      {
        assert SlotOk(s.newR[0 + p], job.tuples[at[p]], 2);
      }
    }
    PickAll(job.tuples, at);
    forall p | 0 <= p < |s.newR|
      ensures s.newR[p].keyWrites == s.newR[p].payloadWrites == 1
    {
      assert SlotOk(s.newR[0 + p], job.tuples[at[p]], 2);
    }
    forall b, p | 0 <= b < job.buckets && PrefixCount(job.tuples, job.buckets, b) <= p < job.End(b)
      ensures p < |s.newR| && Hash1(s.newR[p].tuple.key, job.buckets) == b
    {
      SegmentHolds(job, s, b);
      var start := PrefixCount(job.tuples, job.buckets, b);
      assert SlotOk(s.newR[start + (p - start)], job.tuples[s.claimed[b][p - start]], 2);
    }
  }

  /** The bucket whose segment a slot lies in. */
  lemma {:induction false} WhichSegment(job: Job, p: nat, b: nat) returns (c: nat)
    requires job.WellFormed() && b <= job.buckets && p < PrefixCount(job.tuples, job.buckets, b)
    ensures c < b && PrefixCount(job.tuples, job.buckets, c) <= p < PrefixCount(job.tuples, job.buckets, c + 1)
  {
    hide Count;
    if PrefixCount(job.tuples, job.buckets, b - 1) <= p {
      c := b - 1;
    } else {
      c := WhichSegment(job, p, b - 1);
    }
  }

  /** At no time has a slot been written twice. */
  lemma WrittenOnce(job: Job, s: State, p: nat)
    requires job.WellFormed() && Inv(job, s) && p < |s.newR|
    ensures s.newR[p].keyWrites <= 1 && s.newR[p].payloadWrites <= 1
  {
    HistogramTotal(job.tuples, job.buckets);
    var b := WhichSegment(job, p, job.buckets);
    SegmentEnd(job, b);
    assert Shape(job, s) && BucketInv(job, s, b);
    hide Inv;
    SlotWrittenOnce(job, s, b, p);
  }

  lemma SlotWrittenOnce(job: Job, s: State, b: nat, p: nat)
    requires job.WellFormed() && Shape(job, s) && b < job.buckets && BucketInv(job, s, b)
    requires PrefixCount(job.tuples, job.buckets, b) <= p < job.End(b) && p < |s.newR|
    ensures s.newR[p].keyWrites <= 1 && s.newR[p].payloadWrites <= 1
  {
    hide Count, PrefixCount, Job.End, Stage, Taken;
    var k := p - PrefixCount(job.tuples, job.buckets, b);
    if k < |s.claimed[b]| {
      assert SlotOk(s.newR[PrefixCount(job.tuples, job.buckets, b) + k], job.tuples[s.claimed[b][k]],
                    Stage(job, s, s.claimed[b][k]));
    }
  }

  /** The scatter, under every interleaving of its threads: no slot is ever written twice, and
      once all threads have finished, every slot has been written and the result is the input
      rearranged bucket by bucket. */
  lemma EveryInterleaving(job: Job, s: State, schedule: seq<nat>)
    requires job.WellFormed() && Init(job, s)
    ensures var s' := Run(job, s, schedule);
      && (forall p :: 0 <= p < |s'.newR| ==> s'.newR[p].keyWrites <= 1 && s'.newR[p].payloadWrites <= 1)
      && (s'.completed == |s'.threads| ==>
            && Scattered(job, Tuples(s'.newR))
            && forall p :: 0 <= p < |s'.newR| ==> s'.newR[p].keyWrites == s'.newR[p].payloadWrites == 1)
  {
    hide Scattered;
    InitInv(job, s);
    RunKeepsInv(job, s, schedule);
    var s' := Run(job, s, schedule);
    forall p | 0 <= p < |s'.newR|
      ensures s'.newR[p].keyWrites <= 1 && s'.newR[p].payloadWrites <= 1
    {
      WrittenOnce(job, s', p);
    }
    if s'.completed == |s'.threads| {
      ScatterComplete(job, s');
    }
  }

  /* ----- and every interleaving ends ----- */

  /** The steps a thread still has to take. */
  function ThreadWork(th: Thread, to: nat): nat
    requires th.i <= to && (th.Writing() ==> th.i < to)
  {
    match th.phase
    case Fetch => 3 * (to - th.i) + 1
    case WriteKey(_) => 3 * (to - th.i)
    case WritePayload(_) => 3 * (to - th.i) - 1
    case Done => 0
  }

  function Work(threads: seq<Thread>, chunks: seq<(nat, nat)>): nat
    requires |threads| == |chunks|
    requires forall t :: 0 <= t < |chunks| ==> threads[t].i <= chunks[t].1
    requires forall t :: 0 <= t < |chunks| && threads[t].Writing() ==> threads[t].i < chunks[t].1
  {
    if threads == [] then 0
    else
      var n := |threads| - 1;
      Work(threads[..n], chunks[..n]) + ThreadWork(threads[n], chunks[n].1)
  }

  lemma {:induction false} WorkUpdate(threads: seq<Thread>, chunks: seq<(nat, nat)>, t: nat, th: Thread)
    requires |threads| == |chunks| && t < |threads|
    requires forall t :: 0 <= t < |chunks| ==> threads[t].i <= chunks[t].1
    requires forall t :: 0 <= t < |chunks| && threads[t].Writing() ==> threads[t].i < chunks[t].1
    requires th.i <= chunks[t].1 && (th.Writing() ==> th.i < chunks[t].1)
    ensures Work(threads[t := th], chunks)
         == Work(threads, chunks) - ThreadWork(threads[t], chunks[t].1) + ThreadWork(th, chunks[t].1)
  {
    hide ThreadWork;
    var n := |threads| - 1;
    if t < n {
      assert threads[t := th][..n] == threads[..n][t := th];
      WorkUpdate(threads[..n], chunks[..n], t, th);
    } else {
      assert threads[t := th][..n] == threads[..n];
    }
  }

  /** Until the barrier opens some thread can step, and each step is one less to take: every
      interleaving has the same, finite number of steps. */
  lemma StepsRunOut(job: Job, s: State)
    requires job.WellFormed() && Inv(job, s)
    ensures s.completed < |s.threads| ==> exists t: nat :: Enabled(s, t)
    ensures forall t: nat :: Enabled(s, t) ==>
              Work(Step(job, s, t).threads, job.chunks) == Work(s.threads, job.chunks) - 1
  {
    forall t: nat | Enabled(s, t)
      ensures Work(Step(job, s, t).threads, job.chunks) == Work(s.threads, job.chunks) - 1
    {
      StepWork(job, s, t);
    }
    hide BucketInv, Taken, Work, Step;
    if s.completed < |s.threads| {
      var t :| 0 <= t < |s.threads| && !s.threads[t].phase.Done?;
      assert Enabled(s, t);
    }
  }

  lemma StepWork(job: Job, s: State, t: nat)
    requires job.WellFormed() && Inv(job, s) && Enabled(s, t)
    ensures Work(Step(job, s, t).threads, job.chunks) == Work(s.threads, job.chunks) - 1
  {
    hide BucketInv, Taken, Work;
    assert ThreadInv(job, s, t);
    WorkUpdate(s.threads, job.chunks, t, Step(job, s, t).threads[t]);
  }
}

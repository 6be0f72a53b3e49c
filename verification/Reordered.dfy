/** A relation rearranged so that the tuples of one hash value stand together. */
module Reordered {
  import opened Words
  import opened JoinSpec

  /** The first-level hash: the low bits of the key, `buckets` being a power of two. */
  function Hash1(key: Word, buckets: nat): (h: nat)
    requires buckets > 0
    ensures h < buckets
  {
    key % buckets
  }

  /** `a` and `b` differ by a multiple of `n`. */
  ghost predicate Congruent(a: int, b: int, n: nat) {
    exists k: int :: a == b + k * n
  }

  /** Two keys share a bucket exactly when they are congruent modulo the number of buckets. */
  lemma SameBucket(a: Word, b: Word, buckets: nat)
    requires buckets > 0
    ensures Hash1(a, buckets) == Hash1(b, buckets) <==> Congruent(a, b, buckets)
  {
    assert a == Hash1(a, buckets) + a / buckets * buckets;
    assert b == Hash1(b, buckets) + b / buckets * buckets;
    if Hash1(a, buckets) == Hash1(b, buckets) {
      assert a == b + (a / buckets - b / buckets) * buckets;
    }
    if Congruent(a, b, buckets) {
      var k :| a == b + k * buckets;
      SmallMultiple(Hash1(a, buckets) - Hash1(b, buckets), k + b / buckets - a / buckets, buckets);
    }
  }

  lemma SmallMultiple(d: int, k: int, n: nat)
    requires d == k * n && -1 * n < d < n
    ensures d == 0
  {
    if k > 0 {
      AtLeastOnce(k, n);
    } else if k < 0 {
      assert -d == (-k) * n;
      AtLeastOnce(-k, n);
    }
  }

  lemma AtLeastOnce(k: nat, n: nat)
    requires k > 0
    ensures k * n >= n
  {
    if k > 1 {
      AtLeastOnce(k - 1, n);
    }
  }

  /** A key that is itself a bucket number goes to that bucket. */
  lemma OwnBucket(key: Word, buckets: nat)
    requires key < buckets
    ensures Hash1(key, buckets) == key
  {
  }

  /** With 2^h buckets the hash is the key's low `h` bits. */
  lemma LowBits(key: Word, h: nat, i: nat)
    ensures TestBit(Hash1(key, Pow2(h)), i) <==> i < h && TestBit(key, i)
  {
    ModMask(key, h);
    MaskBit(key, h, i);
  }

  lemma {:induction false} ModMask(key: nat, h: nat)
    ensures key % Pow2(h) == Mask(key, h)
  {
    if h > 0 {
      ModMask(key / 2, h - 1);
      ModTwice(key, Pow2(h - 1));
    }
  }

  lemma ModTwice(x: nat, p: nat)
    requires p > 0
    ensures x % (2 * p) == x % 2 + 2 * (x / 2 % p)
  {
    var q, r := x / 2 / p, x / 2 % p;
    assert x == x % 2 + 2 * (x / 2) && x / 2 == p * q + r;
    Remainder(x, 2 * p, q, x % 2 + 2 * r);
  }

  lemma Remainder(x: nat, n: nat, q: nat, r: nat)
    requires x == n * q + r && r < n
    ensures x % n == r
  {
    SmallMultiple(x % n - r, q - x / n, n);
  }

  /** The tuples of one hash value, in order. */
  function OfBucket(tuples: seq<Tuple>, buckets: nat, h: nat): seq<Tuple>
    requires buckets > 0
  {
    if tuples == [] then []
    else (if Hash1(tuples[0].key, buckets) == h then [tuples[0]] else []) + OfBucket(tuples[1..], buckets, h)
  }

  /** One entry of `psum`: a hash value that occurs and where its tuples start. */
  datatype PSum = PSum(h1Res: nat, offset: nat)

  datatype ReorderedR = ReorderedR(tuples: seq<Tuple>, psum: seq<PSum>) {

    /** Where bucket `w` of the psum array ends. */
    function End(w: nat): nat
      requires w < |psum|
    {
      if w + 1 < |psum| then psum[w + 1].offset else |tuples|
    }

    /** The psum array lists the hash values that occur in increasing order, and its offsets cut
        the tuples into one non-empty run per value. */
    predicate WellFormed(buckets: nat) {
      && buckets > 0
      && (psum == [] <==> tuples == [])
      && (psum != [] ==> psum[0].offset == 0)
      && (forall w {:trigger End(w)} :: 0 <= w < |psum| ==> psum[w].offset < End(w) <= |tuples|)
      && (forall w :: 0 <= w < |psum| ==> psum[w].h1Res < buckets)
      && (forall v, w :: 0 <= v < w < |psum| ==> psum[v].h1Res < psum[w].h1Res)
      && (forall w, p {:trigger End(w), tuples[p]} :: 0 <= w < |psum| && psum[w].offset <= p < End(w) ==>
            Hash1(tuples[p].key, buckets) == psum[w].h1Res)
    }

    /** Position `p` lies in the run of entry `w`. */
    predicate InRun(w: nat, p: nat) {
      w < |psum| && psum[w].offset <= p < End(w) && p < |tuples|
    }

    ghost predicate InSomeRun(p: nat) {
      exists w: nat :: InRun(w, p)
    }

    function Bucket(w: nat): (b: seq<Tuple>)
      requires w < |psum| && psum[w].offset <= End(w) <= |tuples|
    {
      tuples[psum[w].offset..End(w)]
    }
  }

  /** `ror` holds the tuples of `r` grouped into `buckets` buckets. */
  predicate IsReordering(r: seq<Tuple>, buckets: nat, ror: ReorderedR) {
    ror.WellFormed(buckets) && multiset(ror.tuples) == multiset(r)
  }

  /** In the keys' own terms: a run's keys are congruent to its entry, and two keys are congruent
      exactly when they stand in the same run. */
  ghost predicate GroupedByKey(ror: ReorderedR, buckets: nat)
    requires ror.WellFormed(buckets)
  {
    && (forall w: nat, p: nat {:trigger ror.InRun(w, p)} :: ror.InRun(w, p) ==>
          Congruent(ror.tuples[p].key, ror.psum[w].h1Res, buckets))
    && (forall v: nat, w: nat, p: nat, q: nat {:trigger ror.InRun(v, p), ror.InRun(w, q)} ::
          ror.InRun(v, p) && ror.InRun(w, q) ==>
          (Congruent(ror.tuples[p].key, ror.tuples[q].key, buckets) <==> v == w))
    && forall p: nat :: p < |ror.tuples| ==> ror.InSomeRun(p)
  }

  lemma KeysGrouped(ror: ReorderedR, buckets: nat)
    requires ror.WellFormed(buckets)
    ensures GroupedByKey(ror, buckets)
  {
    hide Congruent, Hash1;
    forall w: nat, p: nat | ror.InRun(w, p)
      ensures Congruent(ror.tuples[p].key, ror.psum[w].h1Res, buckets)
    {
      SelfCongruent(ror.tuples[p].key, buckets);
      assert ror.psum[w].offset <= p < ror.End(w);
    }
    forall v: nat, w: nat, p: nat, q: nat | ror.InRun(v, p) && ror.InRun(w, q)
      ensures Congruent(ror.tuples[p].key, ror.tuples[q].key, buckets) <==> v == w
    {
      SameBucket(ror.tuples[p].key, ror.tuples[q].key, buckets);
      assert ror.psum[v].offset <= p < ror.End(v) && ror.psum[w].offset <= q < ror.End(w);
    }
    forall p: nat | p < |ror.tuples|
      ensures ror.InSomeRun(p)
    {
      var w := WhichBucket(ror, buckets, p, |ror.psum| - 1);
      assert ror.InRun(w, p);
    }
  }

  /** A key is congruent to its hash value. */
  lemma SelfCongruent(key: Word, buckets: nat)
    requires buckets > 0
    ensures Congruent(key, Hash1(key, buckets), buckets)
  {
    assert key == Hash1(key, buckets) + key / buckets * buckets;
  }

  lemma {:induction false} OfBucketAppend(a: seq<Tuple>, b: seq<Tuple>, buckets: nat, h: nat)
    requires buckets > 0
    ensures OfBucket(a + b, buckets, h) == OfBucket(a, buckets, h) + OfBucket(b, buckets, h)
  {
    if a == [] {
      assert a + b == b;
    } else {
      assert (a + b)[1..] == a[1..] + b;
      OfBucketAppend(a[1..], b, buckets, h);
      OfBucketHead(a, buckets, h);
      OfBucketHead(a + b, buckets, h);
      hide OfBucket, Hash1;
    }
  }

  lemma OfBucketHead(a: seq<Tuple>, buckets: nat, h: nat)
    requires buckets > 0 && a != []
    ensures OfBucket(a, buckets, h)
         == (if Hash1(a[0].key, buckets) == h then [a[0]] else []) + OfBucket(a[1..], buckets, h)
  {
  }

  lemma {:induction false} OfBucketUniform(a: seq<Tuple>, buckets: nat, h: nat)
    requires buckets > 0
    requires forall i :: 0 <= i < |a| ==> Hash1(a[i].key, buckets) == h
    ensures OfBucket(a, buckets, h) == a
  {
    if a != [] {
      OfBucketUniform(a[1..], buckets, h);
    }
  }

  lemma {:induction false} OfBucketNone(a: seq<Tuple>, buckets: nat, h: nat)
    requires buckets > 0
    requires forall i :: 0 <= i < |a| ==> Hash1(a[i].key, buckets) != h
    ensures OfBucket(a, buckets, h) == []
  {
    if a != [] {
      OfBucketNone(a[1..], buckets, h);
    }
  }

  /** Every position lies in one bucket of the psum array. */
  lemma {:induction false} WhichBucket(ror: ReorderedR, buckets: nat, p: nat, w: nat) returns (v: nat)
    requires ror.WellFormed(buckets) && w < |ror.psum| && p < ror.End(w)
    ensures v <= w && ror.psum[v].offset <= p < ror.End(v)
    decreases w
  {
    if ror.psum[w].offset <= p {
      v := w;
    } else {
      v := WhichBucket(ror, buckets, p, w - 1);
    }
  }

  /** Outside its own bucket a hash value does not occur. */
  lemma NotElsewhere(ror: ReorderedR, buckets: nat, w: nat, p: nat)
    requires ror.WellFormed(buckets) && w < |ror.psum| && p < |ror.tuples|
    requires p < ror.psum[w].offset || ror.End(w) <= p
    ensures Hash1(ror.tuples[p].key, buckets) != ror.psum[w].h1Res
  {
    var v := WhichBucket(ror, buckets, p, |ror.psum| - 1);
  }

  /** A bucket of the psum array is the tuples of its hash value. */
  lemma BucketIsOfBucket(ror: ReorderedR, buckets: nat, w: nat)
    requires ror.WellFormed(buckets) && w < |ror.psum|
    ensures OfBucket(ror.tuples, buckets, ror.psum[w].h1Res) == ror.Bucket(w)
  {
    var h := ror.psum[w].h1Res;
    assert ror.psum[w].offset < ror.End(w);
    var before, run, after := ror.tuples[..ror.psum[w].offset], ror.Bucket(w), ror.tuples[ror.End(w)..];
    forall p | 0 <= p < |ror.tuples| && !(ror.psum[w].offset <= p < ror.End(w))
      ensures Hash1(ror.tuples[p].key, buckets) != h
    {
      NotElsewhere(ror, buckets, w, p);
    }
    assert ror.tuples == before + (run + after);
    hide OfBucket;
    OfBucketMiddle(before, run, after, buckets, h);
  }

  lemma OfBucketMiddle(before: seq<Tuple>, run: seq<Tuple>, after: seq<Tuple>, buckets: nat, h: nat)
    requires buckets > 0
    requires forall i :: 0 <= i < |before| ==> Hash1(before[i].key, buckets) != h
    requires forall i :: 0 <= i < |run| ==> Hash1(run[i].key, buckets) == h
    requires forall i :: 0 <= i < |after| ==> Hash1(after[i].key, buckets) != h
    ensures OfBucket(before + (run + after), buckets, h) == run
  {
    OfBucketNone(before, buckets, h);
    OfBucketUniform(run, buckets, h);
    OfBucketNone(after, buckets, h);
    OfBucketAppend(before, run + after, buckets, h);
    OfBucketAppend(run, after, buckets, h);
  }

  /** A hash value that the psum array does not list has no tuples. */
  lemma UnlistedIsEmpty(ror: ReorderedR, buckets: nat, h: nat)
    requires ror.WellFormed(buckets)
    requires forall w :: 0 <= w < |ror.psum| ==> ror.psum[w].h1Res != h
    ensures OfBucket(ror.tuples, buckets, h) == []
  {
    forall p | 0 <= p < |ror.tuples|
      ensures Hash1(ror.tuples[p].key, buckets) != h
    {
      var v := WhichBucket(ror, buckets, p, |ror.psum| - 1);
    }
    OfBucketNone(ror.tuples, buckets, h);
  }
}

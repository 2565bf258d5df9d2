/** The quality quantiser: raw base-call quality -> quantile bucket. */
module Quality {
  import opened Results

  /** Number of quality values in bin `b` when `size` values are split into
      `quantile` bins: `size / quantile` each, one more in each of the last
      `size % quantile` bins. */
  function BinSize(b: int, size: int, quantile: int): int
    requires 1 <= quantile < size
  {
    size / quantile + (if b >= quantile - size % quantile then 1 else 0)
  }

  /** Rank of the first value of bin `b`: the bins are laid end to end
      from rank 0. */
  function BinStart(b: nat, size: int, quantile: int): int
    requires 1 <= quantile < size
    decreases b
  {
    if b == 0 then 0 else BinStart(b - 1, size, quantile) + BinSize(b - 1, size, quantile)
  }

  /** The search for the bin holding rank `k`, from bin `b` on. */
  function BucketFrom(k: int, b: nat, size: int, quantile: int): int
    requires 1 <= quantile < size && b < quantile && BinStart(b, size, quantile) <= k
    decreases quantile - b
  {
    if b == quantile - 1 || k < BinStart(b + 1, size, quantile) then b
    else BucketFrom(k, b + 1, size, quantile)
  }

  /** Reference definition of the bucket of the `k`-th smallest of `size`
      quality values: itself when there are enough buckets, otherwise the
      bin holding it. */
  function Bucket(k: int, size: int, quantile: int): int
    requires 1 <= quantile
    requires 0 <= k < size
  {
    if quantile >= size then k else BucketFrom(k, 0, size, quantile)
  }

  /** The quotient and remainder the source computes (`avg`, `rem`). */
  lemma Split(size: int, quantile: int)
    requires 1 <= quantile < size
    ensures size == quantile * (size / quantile) + size % quantile
    ensures size / quantile >= 1
    ensures 0 <= size % quantile < quantile
  {
  }

  /** Bin starts in closed form: `b * avg`, plus one for every widened bin
      before `b`. */
  lemma {:induction false} BinStartForm(b: nat, size: int, quantile: int)
    requires 1 <= quantile < size
    ensures var small := quantile - size % quantile;
      BinStart(b, size, quantile) == b * (size / quantile) + (if b > small then b - small else 0)
    decreases b
  {
    if b > 0 {
      BinStartForm(b - 1, size, quantile);
      assert b * (size / quantile) == (b - 1) * (size / quantile) + size / quantile;
    }
  }

  /** The bins cover exactly the `size` values. */
  lemma BinsCover(size: int, quantile: int)
    requires 1 <= quantile < size
    ensures BinStart(quantile, size, quantile) == size
  {
    Split(size, quantile);
    BinStartForm(quantile, size, quantile);
  }

  /** Every bin is non-empty, so later bins start strictly later. */
  lemma {:induction false} BinStartMonotone(a: nat, b: nat, size: int, quantile: int)
    requires 1 <= quantile < size
    requires a <= b
    ensures BinStart(a, size, quantile) + (b - a) <= BinStart(b, size, quantile)
    decreases b - a
  {
    if a < b {
      Split(size, quantile);
      BinStartMonotone(a, b - 1, size, quantile);
    }
  }

  lemma {:induction false} BucketFromFinds(k: int, b: nat, size: int, quantile: int)
    requires 1 <= quantile < size && b < quantile && BinStart(b, size, quantile) <= k < size
    ensures var r := BucketFrom(k, b, size, quantile);
      b <= r < quantile && BinStart(r, size, quantile) <= k < BinStart(r + 1, size, quantile)
    decreases quantile - b
  {
    if b == quantile - 1 {
      BinsCover(size, quantile);
    } else if k >= BinStart(b + 1, size, quantile) {
      BucketFromFinds(k, b + 1, size, quantile);
    }
  }

  lemma {:induction false} BucketFromStops(k: int, b: nat, j: nat, size: int, quantile: int)
    requires 1 <= quantile < size && b <= j < quantile
    requires BinStart(b, size, quantile) <= k
    requires BinStart(j, size, quantile) <= k < BinStart(j + 1, size, quantile)
    ensures BucketFrom(k, b, size, quantile) == j
    decreases j - b
  {
    if b < j {
      BinStartMonotone(b + 1, j, size, quantile);
      BucketFromStops(k, b + 1, j, size, quantile);
    }
  }

  /** Every value of bin `b` has bucket `b`. */
  lemma BucketBins(k: int, b: nat, size: int, quantile: int)
    requires 1 <= quantile < size
    requires b < quantile
    requires BinStart(b, size, quantile) <= k < BinStart(b, size, quantile) + BinSize(b, size, quantile)
    ensures 0 <= k < size
    ensures Bucket(k, size, quantile) == b
  {
    BinsCover(size, quantile);
    BinStartMonotone(0, b, size, quantile);
    BinStartMonotone(b + 1, quantile, size, quantile);
    BucketFromStops(k, 0, b, size, quantile);
  }

  /** Each value lies in the bin named by its bucket. */
  lemma BucketInItsBin(k: int, size: int, quantile: int)
    requires 1 <= quantile < size
    requires 0 <= k < size
    ensures 0 <= Bucket(k, size, quantile) < quantile
    ensures var b := Bucket(k, size, quantile);
      BinStart(b, size, quantile) <= k < BinStart(b, size, quantile) + BinSize(b, size, quantile)
  {
    BucketFromFinds(k, 0, size, quantile);
  }

  /** Buckets stay within [0, min(quantile, size)) and never decrease as the
      quality rises; with enough buckets each value is its own bucket. */
  lemma BucketRangeAndOrder(k: int, k': int, size: int, quantile: int)
    requires 1 <= quantile
    requires 0 <= k <= k' < size
    ensures 0 <= Bucket(k, size, quantile) < (if quantile < size then quantile else size)
    ensures Bucket(k, size, quantile) <= Bucket(k', size, quantile)
    ensures quantile >= size ==> Bucket(k, size, quantile) == k
  {
    if quantile < size {
      BucketInItsBin(k, size, quantile);
      BucketInItsBin(k', size, quantile);
      var b, b' := Bucket(k, size, quantile), Bucket(k', size, quantile);
      if b > b' {
        BinStartMonotone(b' + 1, b, size, quantile);
      }
    }
  }

  /** The top value lands in the highest bucket. */
  lemma TopBucket(size: int, quantile: int)
    requires 1 <= quantile && 1 <= size
    ensures Bucket(size - 1, size, quantile) == (if quantile < size then quantile else size) - 1
  {
    if quantile < size {
      BinsCover(size, quantile);
      Split(size, quantile);
      BucketBins(size - 1, quantile - 1, size, quantile);
    }
  }

  /** `qqMap`: adds an entry for every quality in [minQ, maxQ] to `qq`.
      A negative count for either vector it builds (`size` values, or
      `quantile` bins when there are fewer bins than values) throws; with
      values to place and no bins at all it would divide by zero. */
  method QqMap(qq: map<int, int>, minQ: int, maxQ: int, quantile: int) returns (r: Result<map<int, int>>)
    requires quantile == 0 ==> maxQ < minQ
    ensures r.Err? <==> maxQ - minQ + 1 < 0 || quantile < 0
    ensures r.Err? ==> r.fault == NegativeLength
    ensures r.Ok? ==> forall q :: minQ <= q <= maxQ ==>
      q in r.value && r.value[q] == Bucket(q - minQ, maxQ - minQ + 1, quantile)
    ensures r.Ok? ==> forall q :: q in qq && !(minQ <= q <= maxQ) ==> q in r.value && r.value[q] == qq[q]
    ensures r.Ok? ==> forall q :: q in r.value ==> q in qq || minQ <= q <= maxQ
  {
    var size := maxQ - minQ + 1;
    if size < 0 {
      // the vector of `size` qualities
      return Err(NegativeLength);
    }
    var qArray := seq(size, i => minQ + i);
    var m := qq;
    if quantile >= size {
      var i := 0;
      while i < size
        invariant 0 <= i <= size
        invariant forall q :: minQ <= q < minQ + i ==> q in m && m[q] == q - minQ
        invariant forall q :: q in qq && !(minQ <= q < minQ + i) ==> q in m && m[q] == qq[q]
        invariant forall q :: q in m ==> q in qq || minQ <= q < minQ + i
      {
        m := m[qArray[i] := i];
        i := i + 1;
      }
    } else if quantile < 0 {
      // the vector of `quantile` bin sizes
      return Err(NegativeLength);
    } else {
      var binSize := SpreadRemainder(size, quantile);
      m := FillBins(qq, minQ, size, quantile, binSize);
      assert FilledUpTo(m, qq, minQ, size, size, quantile);
    }
    r := Ok(m);
  }

  /** The bin sizes of `qqMap`: `size / quantile` each, plus one for each of
      the last `size % quantile` bins, handed out from the top bin down. */
  method SpreadRemainder(size: int, quantile: int) returns (binSize: seq<int>)
    requires 1 <= quantile < size
    ensures |binSize| == quantile
    ensures forall b :: 0 <= b < quantile ==> binSize[b] == BinSize(b, size, quantile)
  {
    Split(size, quantile);
    var avg := size / quantile;
    var rem := size - avg * quantile;
    binSize := seq(quantile, _ => avg);
    var idx := 1;
    ghost var rem0 := rem;
    while rem != 0
      invariant 1 <= idx <= rem0 + 1
      invariant rem == rem0 - (idx - 1)
      invariant |binSize| == quantile
      invariant forall b :: 0 <= b < quantile ==>
        binSize[b] == avg + (if b >= quantile - (idx - 1) then 1 else 0)
      decreases rem
    {
      binSize := binSize[quantile - idx := binSize[quantile - idx] + 1];
      rem := rem - 1;
      idx := idx + 1;
    }
  }

  /** The entries `qqMap` has written once the first `n` quality values
      are placed, on top of the map it started from. */
  ghost predicate FilledUpTo(r: map<int, int>, qq: map<int, int>, minQ: int, n: int, size: int, quantile: int)
    requires 1 <= quantile && n <= size
  {
    && (forall q :: minQ <= q < minQ + n ==> q in r && r[q] == Bucket(q - minQ, size, quantile))
    && (forall q :: q in qq && !(minQ <= q < minQ + n) ==> q in r && r[q] == qq[q])
    && (forall q :: q in r ==> q in qq || minQ <= q < minQ + n)
  }

  lemma FillStep(r: map<int, int>, qq: map<int, int>, minQ: int, n: int, size: int, quantile: int)
    requires 1 <= quantile && 0 <= n < size
    requires FilledUpTo(r, qq, minQ, n, size, quantile)
    ensures FilledUpTo(r[minQ + n := Bucket(n, size, quantile)], qq, minQ, n + 1, size, quantile)
  {
  }

  /** The nested fill loop of `qqMap`: bin `i` receives the next
      `binSize[i]` quality values. */
  method FillBins(qq: map<int, int>, minQ: int, size: int, quantile: int, binSize: seq<int>)
    returns (r: map<int, int>)
    requires 1 <= quantile < size
    requires |binSize| == quantile
    requires forall b :: 0 <= b < quantile ==> binSize[b] == BinSize(b, size, quantile)
    ensures FilledUpTo(r, qq, minQ, size, size, quantile)
  {
    BinsCover(size, quantile);
    r := qq;
    var indexQ := 0;
    var i := 0;
    while i < quantile
      invariant 0 <= i <= quantile
      invariant indexQ == BinStart(i, size, quantile) <= size
      invariant FilledUpTo(r, qq, minQ, indexQ, size, quantile)
    {
      var j := 0;
      BinStartMonotone(i + 1, quantile, size, quantile);
      while j < binSize[i]
        invariant 0 <= j <= binSize[i]
        invariant indexQ == BinStart(i, size, quantile) + j <= size
        invariant FilledUpTo(r, qq, minQ, indexQ, size, quantile)
      {
        BucketBins(indexQ, i, size, quantile);
        FillStep(r, qq, minQ, indexQ, size, quantile);
        r := r[minQ + indexQ := i];
        j := j + 1;
        indexQ := indexQ + 1;
      }
      i := i + 1;
    }
  }

  lemma {:induction false} MaxExists(s: set<int>)
    requires exists x :: x in s
    ensures exists k :: k in s && forall j :: j in s ==> j <= k
    decreases |s|
  {
    var x: int :| x in s;
    var rest := s - {x};
    if exists y :: y in rest {
      MaxExists(rest);
      var m :| m in rest && forall j :: j in rest ==> j <= m;
      var k := if x > m then x else m;
      forall j | j in s
        ensures j <= k
      {
        if j != x {
          assert j in rest;
        }
      }
      assert k in s;
    } else {
      forall j | j in s
        ensures j <= x
      {
        assert j !in rest;
      }
    }
  }

  /** A quantiser with at least one entry. */
  predicate NonEmpty(qq: map<int, int>) {
    exists q :: q in qq
  }

  /** The largest quality key of a non-empty map (`qq.rbegin()`). */
  function MaxKey(qq: map<int, int>): (k: int)
    requires NonEmpty(qq)
    ensures k in qq && forall j :: j in qq ==> j <= k
  {
    var x :| x in qq;
    assert x in qq.Keys;
    MaxExists(qq.Keys);
    var k :| k in qq.Keys && forall j :: j in qq.Keys ==> j <= k;
    k
  }

  /** Bucket lookup as the walk does it: a quality missing from the map
      takes the bucket of the largest key. */
  function Lookup(qq: map<int, int>, q: int): (b: int)
    requires NonEmpty(qq)
    ensures q in qq ==> b == qq[q]
    ensures q !in qq ==> b == qq[MaxKey(qq)]
    ensures b in qq.Values
  {
    if q in qq then qq[q] else qq[MaxKey(qq)]
  }

  /** On a freshly built quantiser, any quality outside [minQ, maxQ] gets
      the same bucket as maxQ, which is the highest bucket. */
  lemma LookupFallback(r: map<int, int>, minQ: int, maxQ: int, quantile: int, q: int)
    requires minQ <= maxQ && 1 <= quantile
    requires forall p :: minQ <= p <= maxQ ==>
      p in r && r[p] == Bucket(p - minQ, maxQ - minQ + 1, quantile)
    requires forall p :: p in r ==> minQ <= p <= maxQ
    requires !(minQ <= q <= maxQ)
    ensures NonEmpty(r)
    ensures Lookup(r, q) == Lookup(r, maxQ)
    ensures Lookup(r, maxQ) ==
      (if quantile < maxQ - minQ + 1 then quantile else maxQ - minQ + 1) - 1
  {
    assert maxQ in r;
    assert MaxKey(r) == maxQ;
    TopBucket(maxQ - minQ + 1, quantile);
  }
}

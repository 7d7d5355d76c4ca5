/**
 * Comparable-price lookup over the ITBI transaction dataset: the rows that
 * share a postal code and a 100 m² area bucket are aggregated into their
 * average, minimum and maximum declared value.
 */
module ComparableMarket {

  /** One row of the comparable-transaction dataset. */
  datatype Transaction = Transaction(postalCode: int, bucketStart: int, declaredValue: real)

  /** Average, minimum and maximum declared value of one bucket. */
  datatype Stats = Stats(avg: real, min: real, max: real)

  /** What the lookup answers when no transaction matches. */
  const NoComparables := Stats(0.0, 0.0, 0.0)

  /** Width of an area bucket, in square metres. */
  const BucketWidth := 100

  /** The bucket of a built area: the largest multiple of 100 not above it. */
  function BucketStart(builtArea: int): (b: int)
    ensures b % BucketWidth == 0
    ensures b <= builtArea < b + BucketWidth
  {
    (builtArea / BucketWidth) * BucketWidth
  }

  predicate InBucket(t: Transaction, postalCode: int, bucket: int) {
    t.postalCode == postalCode && t.bucketStart == bucket
  }

  /** The declared values of the rows in the bucket, in dataset order. */
  function Matching(rows: seq<Transaction>, postalCode: int, bucket: int): (vs: seq<real>)
    ensures |vs| <= |rows|
    ensures forall v :: v in vs <==>
      exists i :: 0 <= i < |rows| && InBucket(rows[i], postalCode, bucket) && rows[i].declaredValue == v
  {
    if rows == [] then []
    else
      var rest := Matching(rows[1..], postalCode, bucket);
      assert forall i :: 0 < i < |rows| ==> rows[i] == rows[1..][i - 1];
      if InBucket(rows[0], postalCode, bucket) then [rows[0].declaredValue] + rest else rest
  }

  /** The total of the values, first to last. */
  function Sum(vs: seq<real>): real {
    if vs == [] then 0.0 else vs[0] + Sum(vs[1..])
  }

  function Minimum(vs: seq<real>): (m: real)
    requires vs != []
    ensures m in vs
    ensures forall v :: v in vs ==> m <= v
  {
    if |vs| == 1 then vs[0]
    else
      var rest := Minimum(vs[1..]);
      assert vs == [vs[0]] + vs[1..];
      if vs[0] <= rest then vs[0] else rest
  }

  function Maximum(vs: seq<real>): (m: real)
    requires vs != []
    ensures m in vs
    ensures forall v :: v in vs ==> v <= m
  {
    if |vs| == 1 then vs[0]
    else
      var rest := Maximum(vs[1..]);
      assert vs == [vs[0]] + vs[1..];
      if rest <= vs[0] then vs[0] else rest
  }

  /** The sum of values that all lie in [lo, hi] lies in [n * lo, n * hi]. */
  lemma {:induction false} SumBetween(vs: seq<real>, lo: real, hi: real)
    requires forall v :: v in vs ==> lo <= v <= hi
    ensures (|vs| as real) * lo <= Sum(vs) <= (|vs| as real) * hi
  {
    if vs != [] {
      assert forall v :: v in vs[1..] ==> v in vs;
      SumBetween(vs[1..], lo, hi);
      assert vs[0] in vs;
      OneMoreBetween(|vs[1..]| as real, Sum(vs[1..]), vs[0], lo, hi);
      assert |vs| as real == |vs[1..]| as real + 1.0;
    }
  }

  /** Adding one more value in [lo, hi] to a total of m such values. */
  lemma OneMoreBetween(m: real, total: real, v: real, lo: real, hi: real)
    requires m * lo <= total <= m * hi && lo <= v <= hi
    ensures (m + 1.0) * lo <= v + total <= (m + 1.0) * hi
  {
    assert (m + 1.0) * lo == m * lo + lo;
    assert (m + 1.0) * hi == m * hi + hi;
  }

  lemma QuotientBetween(s: real, n: real, lo: real, hi: real)
    requires n > 0.0 && n * lo <= s <= n * hi
    ensures lo <= s / n <= hi
  {
    assert (s / n) * n == s;
  }

  /** The arithmetic mean lies between the smallest and the largest value. */
  function Mean(vs: seq<real>): (m: real)
    requires vs != []
    ensures m * (|vs| as real) == Sum(vs)
    ensures Minimum(vs) <= m <= Maximum(vs)
  {
    var n := |vs| as real;
    SumBetween(vs, Minimum(vs), Maximum(vs));
    QuotientBetween(Sum(vs), n, Minimum(vs), Maximum(vs));
    Sum(vs) / n
  }

  /**
   * The lookup: average, minimum and maximum of the declared values in the
   * bucket of `builtArea` at `postalCode`, or all zero when the bucket is empty.
   */
  function ItbiPrice(rows: seq<Transaction>, postalCode: int, builtArea: int): (s: Stats)
    ensures Matching(rows, postalCode, BucketStart(builtArea)) == [] ==> s == NoComparables
    ensures var vs := Matching(rows, postalCode, BucketStart(builtArea));
      vs != [] ==>
        && s.min in vs && s.max in vs
        && (forall v :: v in vs ==> s.min <= v <= s.max)
        && s.min <= s.avg <= s.max
        && s.avg == Mean(vs)
    ensures (forall i :: 0 <= i < |rows| ==> rows[i].declaredValue > 0.0) ==>
      (s == NoComparables <==> Matching(rows, postalCode, BucketStart(builtArea)) == [])
  {
    var res := Matching(rows, postalCode, BucketStart(builtArea));
    if res == [] then NoComparables
    else
      var s := Stats(Mean(res), Minimum(res), Maximum(res));
      assert s.min in res;
      s
  }

  /** Filtering distributes over concatenation of datasets. */
  lemma {:induction false} MatchingAppend(a: seq<Transaction>, b: seq<Transaction>, postalCode: int, bucket: int)
    ensures Matching(a + b, postalCode, bucket) == Matching(a, postalCode, bucket) + Matching(b, postalCode, bucket)
  {
    if a == [] {
      assert a + b == b;
    } else {
      assert (a + b)[1..] == a[1..] + b;
      MatchingAppend(a[1..], b, postalCode, bucket);
    }
  }

  /** A row with another postal code or another bucket never changes the lookup. */
  lemma OtherRowsIgnored(a: seq<Transaction>, t: Transaction, b: seq<Transaction>, postalCode: int, builtArea: int)
    requires !InBucket(t, postalCode, BucketStart(builtArea))
    ensures ItbiPrice(a + [t] + b, postalCode, builtArea) == ItbiPrice(a + b, postalCode, builtArea)
  {
    var bucket := BucketStart(builtArea);
    assert Matching([t], postalCode, bucket) == [] by {
      assert [t][1..] == [];
    }
    MatchingAppend(a + [t], b, postalCode, bucket);
    MatchingAppend(a, [t], postalCode, bucket);
    MatchingAppend(a, b, postalCode, bucket);
    assert Matching(a + [t] + b, postalCode, bucket) == Matching(a + b, postalCode, bucket);
  }
}

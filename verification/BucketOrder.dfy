/** Exactly when bucket numbers are ordered like the values, over all 64-bit minima, intervals and upper ends. */
module BucketOrder {
  import opened RangeIndex

  const TWO_63: int := MAX_I64 + 1

  predicate IsI64(x: int) {
    -TWO_63 <= x <= MAX_I64
  }

  /**
    A positive interval keeps the order as long as no bucket number is truncated; past the
    wrap-around of the subtraction it still does if the buckets before it stay below those behind it
    and these do not come down to zero. A negative interval keeps the order over less than two
    intervals, and past the wrap-around in one corner only.
   */
  predicate KeepsOrder(x: Index, hi: int)
    requires x.Valid()
  {
    var d, n := hi - x.min, Abs(x.interval);
    if d <= 0 then true
    else if d <= MAX_I64 then d / n < if x.interval > 0 then TWO_32 else 2
    else if x.interval > 0 then MAX_I64 / n + TWO_63 / n <= TWO_32 && n <= TWO_64 - d
    else n == TWO_63 && d == TWO_63
  }

  ghost predicate Monotone(x: Index, hi: int)
    requires x.Valid()
  {
    forall a, b | a <= b <= hi :: Bucket(x, a) <= Bucket(x, b)
  }

  // ----- Quotients -----

  ghost predicate IsQuotient(q: nat, a: nat, n: nat) {
    n > 0 && q == a / n
  }

  lemma QuotientsOrdered(q: nat, a: nat, r: nat, b: nat, n: nat)
    requires IsQuotient(q, a, n) && IsQuotient(r, b, n) && a <= b
    ensures q <= r
  {
    DivisionMonotone(a, b, n);
  }

  lemma QuotientIsPositive(q: nat, a: nat, n: nat)
    requires IsQuotient(q, a, n)
    ensures q >= 1 <==> a >= n
  {
    QuotientOfMultiple(1, n);
    if a >= n { DivisionMonotone(n, a, n); } else { QuotientUnique(a, n, 0, a); }
  }

  lemma NextIsClose(q: nat, a: nat, r: nat, n: nat)
    requires IsQuotient(q, a, n) && IsQuotient(r, a + 1, n)
    ensures q <= r <= q + 1
  {
    DivisionMonotone(a, a + 1, n);
    if a % n + 1 == n {
      assert a + 1 == (q + 1) * n;
      QuotientOfMultiple(q + 1, n);
    } else {
      QuotientUnique(a + 1, n, q, a % n + 1);
    }
  }

  /** A distance at which the quotient is exactly k. */
  lemma Reach(q: nat, a: nat, n: nat, k: nat) returns (b: nat)
    requires IsQuotient(q, a, n) && 1 <= k <= q
    ensures b <= a && IsQuotient(k, b, n) && b >= 1
  {
    b := k * n;
    QuotientOfMultiple(k, n);
    assert k * n <= q * n;
    assert q * n <= a;
  }

  // ----- Buckets -----

  /** The distance from the minimum after the subtraction may have wrapped, without its sign. */
  function Distance(d: int): nat
    requires 0 < d < TWO_64
  {
    if d <= MAX_I64 then d else TWO_64 - d
  }

  predicate Negative(x: Index, d: int) {
    (d > MAX_I64) != (x.interval < 0)
  }

  function Signed(negative: bool, q: nat): int {
    var i: int := q;
    if negative then -i else i
  }

  lemma BucketAt(x: Index, d: int) returns (q: nat)
    requires x.Valid() && 0 < d < TWO_64
    ensures IsQuotient(q, Distance(d), Abs(x.interval))
    ensures Bucket(x, x.min + d) == Signed(Negative(x, d), q) % TWO_32
  {
    q := Distance(d) / Abs(x.interval);
    assert d > MAX_I64 ==> Wrap64(d) == d - TWO_64;
  }

  lemma Residues(q: nat)
    requires q <= TWO_32
    ensures Signed(false, q) % TWO_32 == if q < TWO_32 then q else 0
    ensures Signed(true, q) % TWO_32 == if 1 <= q < TWO_32 then TWO_32 - q else 0
  {
  }

  /** A truncated bucket number breaks the order. */
  lemma TruncationBreaks(x: Index, hi: int, d: int, q: nat)
    requires x.interval > 0 && 0 < d <= MAX_I64 && x.min + d <= hi && IsQuotient(q, d, x.interval) && q >= TWO_32
    ensures !Monotone(x, hi)
  {
    var top := Reach(q, d, x.interval, TWO_32);
    var below := Reach(q, d, x.interval, TWO_32 - 1);
    var qt := BucketAt(x, top);
    var qb := BucketAt(x, below);
    if top < below { QuotientsOrdered(qt, top, qb, below, x.interval); }
    assert Bucket(x, x.min + top) < Bucket(x, x.min + below);
  }

  /** With a negative interval the third bucket is below the second. */
  lemma ThirdBucketBreaks(x: Index, hi: int, d: int, q: nat)
    requires x.interval < 0 && 0 < d <= MAX_I64 && x.min + d <= hi && IsQuotient(q, d, Abs(x.interval)) && q >= 2
    ensures !Monotone(x, hi)
  {
    var n := Abs(x.interval);
    var second := Reach(q, d, n, 1);
    var third := Reach(q, d, n, 2);
    var qs := BucketAt(x, second);
    var qt := BucketAt(x, third);
    if third < second { QuotientsOrdered(qt, third, qs, second, n); }
    assert Bucket(x, x.min + third) < Bucket(x, x.min + second);
  }

  // ----- Before the wrap-around -----

  lemma BeforeWrapMonotone(x: Index, hi: int, a: int, b: int)
    requires x.Valid() && hi - x.min <= MAX_I64 && KeepsOrder(x, hi) && a <= b <= hi
    ensures Bucket(x, a) <= Bucket(x, b)
  {
    if a > x.min {
      var n, d, e, h := Abs(x.interval), a - x.min, b - x.min, hi - x.min;
      var p := BucketAt(x, d);
      var q := BucketAt(x, e);
      var r := BucketAt(x, h);
      QuotientsOrdered(p, d, q, e, n);
      QuotientsOrdered(q, e, r, h, n);
      assert r < if x.interval > 0 then TWO_32 else 2;
      Residues(p);
      Residues(q);
    }
  }

  lemma BeforeWrap(x: Index, hi: int)
    requires x.Valid() && hi - x.min <= MAX_I64
    ensures Monotone(x, hi) <==> KeepsOrder(x, hi)
  {
    if KeepsOrder(x, hi) {
      forall a, b | a <= b <= hi { BeforeWrapMonotone(x, hi, a, b); }
    } else {
      var q := BucketAt(x, hi - x.min);
      if x.interval > 0 {
        TruncationBreaks(x, hi, hi - x.min, q);
      } else {
        ThirdBucketBreaks(x, hi, hi - x.min, q);
      }
    }
  }

  // ----- Past the wrap-around -----

  /** The buckets on both sides of the wrap-around of the subtraction. */
  lemma AtWrap(x: Index) returns (m: nat, w: nat)
    requires x.Valid() && IsI64(x.interval)
    ensures IsQuotient(m, MAX_I64, Abs(x.interval)) && IsQuotient(w, TWO_63, Abs(x.interval))
    ensures m <= w <= m + 1 && w >= 1 && (m >= 1 <==> Abs(x.interval) < TWO_63)
    ensures Bucket(x, x.min + MAX_I64) == Signed(x.interval < 0, m) % TWO_32
    ensures Bucket(x, x.min + TWO_63) == Signed(x.interval > 0, w) % TWO_32
  {
    var n := Abs(x.interval);
    m := BucketAt(x, MAX_I64);
    w := BucketAt(x, TWO_63);
    NextIsClose(m, MAX_I64, w, n);
    QuotientIsPositive(m, MAX_I64, n);
    QuotientIsPositive(w, TWO_63, n);
  }

  lemma PastWrapBucket(x: Index, hi: int, d: int, m: nat, w: nat) returns (q: nat)
    requires IsI64(x.interval) && x.interval > 0 && MAX_I64 < hi - x.min < TWO_64 && 0 < d <= hi - x.min
    requires IsQuotient(m, MAX_I64, x.interval) && IsQuotient(w, TWO_63, x.interval) && m >= 1
    requires m + w <= TWO_32 && x.interval <= TWO_64 - (hi - x.min)
    ensures IsQuotient(q, Distance(d), x.interval) && q <= if d <= MAX_I64 then m else w
    ensures Bucket(x, x.min + d) == if d <= MAX_I64 then q else TWO_32 - q
  {
    q := BucketAt(x, d);
    if d <= MAX_I64 {
      QuotientsOrdered(q, d, m, MAX_I64, x.interval);
      QuotientIsPositive(w, TWO_63, x.interval);
    } else {
      QuotientsOrdered(q, TWO_64 - d, w, TWO_63, x.interval);
      QuotientIsPositive(q, TWO_64 - d, x.interval);
    }
    Residues(q);
  }

  lemma PastWrapMonotone(x: Index, hi: int, a: int, b: int, m: nat, w: nat)
    requires IsI64(x.interval) && x.interval > 0 && MAX_I64 < hi - x.min < TWO_64 && a <= b <= hi
    requires IsQuotient(m, MAX_I64, x.interval) && IsQuotient(w, TWO_63, x.interval) && m >= 1
    requires m + w <= TWO_32 && x.interval <= TWO_64 - (hi - x.min)
    ensures Bucket(x, a) <= Bucket(x, b)
  {
    if a > x.min {
      var n, d, e := x.interval, a - x.min, b - x.min;
      var p := PastWrapBucket(x, hi, d, m, w);
      var q := PastWrapBucket(x, hi, e, m, w);
      if e <= MAX_I64 {
        QuotientsOrdered(p, d, q, e, n);
      } else if d > MAX_I64 {
        QuotientsOrdered(q, TWO_64 - e, p, TWO_64 - d, n);
      }
    }
  }

  /** The buckets behind the wrap-around come down below those before it. */
  lemma PastWrapBreaks(x: Index, hi: int, m: nat, w: nat)
    requires IsI64(x.interval) && x.interval > 0 && MAX_I64 < hi - x.min < TWO_64 && 1 <= m <= w <= m + 1
    requires Bucket(x, x.min + MAX_I64) == Signed(false, m) % TWO_32
    requires Bucket(x, x.min + TWO_63) == Signed(true, w) % TWO_32
    requires m < TWO_32 && (m + w > TWO_32 || x.interval > TWO_64 - (hi - x.min))
    ensures !Monotone(x, hi)
  {
    Residues(m);
    Residues(w);
    if m + w > TWO_32 {
      assert Bucket(x, x.min + TWO_63) < Bucket(x, x.min + MAX_I64);
    } else {
      LastBucketIsZero(x, hi);
      assert Bucket(x, hi) < Bucket(x, x.min + MAX_I64);
    }
  }

  lemma LastBucketIsZero(x: Index, hi: int)
    requires x.interval > 0 && MAX_I64 < hi - x.min < TWO_64 && x.interval > TWO_64 - (hi - x.min)
    ensures Bucket(x, hi) == 0
  {
    var d := hi - x.min;
    var q := BucketAt(x, d);
    QuotientIsPositive(q, TWO_64 - d, x.interval);
    Residues(q);
    assert x.min + d == hi;
  }

  lemma NegativePastWrap(x: Index, hi: int)
    requires IsI64(x.interval) && x.interval < 0 && MAX_I64 < hi - x.min < TWO_64
    ensures Monotone(x, hi) <==> Abs(x.interval) == TWO_63 && hi - x.min == TWO_63
  {
    var n, d := Abs(x.interval), hi - x.min;
    var m, w := AtWrap(x);
    if m >= 2 {
      ThirdBucketBreaks(x, hi, MAX_I64, m);
    } else if m == 1 {
      assert Bucket(x, x.min + TWO_63) < Bucket(x, x.min + MAX_I64);
    } else if d > TWO_63 {
      var q := BucketAt(x, TWO_63 + 1);
      QuotientIsPositive(q, MAX_I64, n);
      assert Bucket(x, x.min + TWO_63 + 1) < Bucket(x, x.min + TWO_63);
    } else {
      forall a, b | a <= b <= hi
        ensures Bucket(x, a) <= Bucket(x, b)
      {
        if x.min < a < hi {
          var q := BucketAt(x, a - x.min);
          QuotientIsPositive(q, a - x.min, n);
        }
      }
    }
  }

  lemma BucketMonotoneExactly(x: Index, hi: int)
    requires x.Valid() && IsI64(x.min) && IsI64(x.interval) && IsI64(hi)
    ensures Monotone(x, hi) <==> KeepsOrder(x, hi)
  {
    if hi - x.min <= MAX_I64 {
      BeforeWrap(x, hi);
    } else if x.interval < 0 {
      NegativePastWrap(x, hi);
    } else {
      var m, w := AtWrap(x);
      if m + w <= TWO_32 && x.interval <= TWO_64 - (hi - x.min) {
        forall a, b | a <= b <= hi { PastWrapMonotone(x, hi, a, b, m, w); }
      } else if m >= TWO_32 {
        TruncationBreaks(x, hi, MAX_I64, m);
      } else {
        PastWrapBreaks(x, hi, m, w);
      }
    }
  }
}

/** The range index: a column of bucket numbers, and the translation of comparisons to buckets. */
module RangeIndex {
  import opened Basics
  import opened Filter
  import opened Rows
  import opened OptimizeCmp
  import opened Sql

  const MAX_I64: int := 0x7FFF_FFFF_FFFF_FFFF
  const TWO_64: int := 0x1_0000_0000_0000_0000
  const TWO_32: int := 0x1_0000_0000

  /** Two's complement wrap-around of 64-bit signed arithmetic. */
  function Wrap64(x: int): (w: int)
    ensures -MAX_I64 - 1 <= w <= MAX_I64
    ensures -MAX_I64 - 1 <= x <= MAX_I64 ==> w == x
  {
    var m := x % TWO_64;
    if m > MAX_I64 then m - TWO_64 else m
  }

  function Abs(x: int): nat {
    if x < 0 then -x else x
  }

  /** Division rounding toward zero. */
  function TruncDiv(a: int, b: int): int
    requires b != 0
  {
    if (a < 0) == (b < 0) then Abs(a) / Abs(b) else -(Abs(a) / Abs(b))
  }

  /** An index over equal intervals. The source divides by the interval, so it is not zero. */
  datatype Index = Index(min: int, interval: int, indexedColumn: string, indexColumn: string) {
    predicate Valid() {
      interval != 0
    }
  }

  /** The bucket number of a value, truncated to 32 bits. */
  function Bucket(x: Index, value: int): (b: nat)
    requires x.Valid()
    ensures b < TWO_32
  {
    if value <= x.min then 0 else TruncDiv(Wrap64(value - x.min), x.interval) % TWO_32
  }

  /** The interval is positive, and neither the subtraction nor the bucket number wraps for values up to `hi`. */
  predicate Fits(x: Index, hi: int)
    requires x.Valid()
  {
    hi <= x.min || (x.interval > 0 && hi - x.min <= MAX_I64 && (hi - x.min) / x.interval < TWO_32)
  }

  lemma DivisionMonotone(a: int, b: int, n: int)
    requires 0 <= a <= b && n > 0
    ensures a / n <= b / n
  {
    var q, p := a / n, b / n;
    assert q > p ==> q * n >= (p + 1) * n;
  }

  lemma BucketOfFitting(x: Index, hi: int, v: int)
    requires x.Valid() && Fits(x, hi) && v <= hi
    ensures Bucket(x, v) == if v <= x.min then 0 else (v - x.min) / x.interval
  {
    if v > x.min {
      DivisionMonotone(v - x.min, hi - x.min, x.interval);
    }
  }

  lemma BucketMonotone(x: Index, hi: int, a: int, b: int)
    requires x.Valid() && Fits(x, hi) && a <= b <= hi
    ensures Bucket(x, a) <= Bucket(x, b)
  {
    BucketOfFitting(x, hi, a);
    BucketOfFitting(x, hi, b);
    if x.min < a {
      DivisionMonotone(a - x.min, b - x.min, x.interval);
    }
  }

  lemma QuotientOfMultiple(q: int, n: int)
    requires n > 0
    ensures (q * n) / n == q
  {
    QuotientUnique(q * n, n, q, 0);
  }

  // ----- Values of a column -----

  /** The 64-bit integer that is bucketed, for the types the index knows. */
  function AsI64(s: Scalar): Option<int> {
    if !s.Num? || s.raw.None? then None
    else
      match s.kind
      case Decimal(bits, _, _) => if bits == 32 || bits == 64 then s.raw else None
      case Unsigned(bits) => if bits == 64 then Some(s.raw.value / 2) else s.raw
      case _ => s.raw
  }

  function ForValue(x: Index, s: Scalar): Option<nat>
    requires x.Valid()
  {
    match AsI64(s)
    case None => None
    case Some(i) => Some(Bucket(x, i))
  }

  /** The index cell computed on insertion. */
  function StoredCell(x: Index, cell: Scalar): IndexCell
    requires x.Valid()
  {
    match ForValue(x, cell)
    case None => NullCell
    case Some(b) => NumberCell(b)
  }

  /** Types stored as an integer that the index can bucket; wide decimals are not among them. */
  predicate KnownKind(k: Kind) {
    k.Decimal? ==> k.bits == 32 || k.bits == 64
  }

  /** The type of a column: without any value, stored as integers, or anything else. */
  datatype ColumnType = NullType | IntegerType(kind: Kind) | OtherType

  /** The loop over a column that fills the index column. */
  method EvalArray(x: Index, ty: ColumnType, column: seq<Option<int>>) returns (r: Result<seq<IndexCell>>)
    requires x.Valid() && (ty.NullType? ==> forall i | 0 <= i < |column| :: column[i].None?)
    ensures r.Err? <==> ty.OtherType? || (ty.IntegerType? && !KnownKind(ty.kind))
    ensures r.Ok? ==> |r.value| == |column|
    ensures r.Ok? && ty.IntegerType? ==> forall i | 0 <= i < |column| :: r.value[i] == StoredCell(x, Num(ty.kind, column[i]))
    ensures r.Ok? ==> forall i | 0 <= i < |column| :: r.value[i].NullCell? <==> column[i].None?
  {
    if ty.NullType? {
      return Ok(seq(|column|, _ => NullCell));
    }
    if ty.OtherType? || !KnownKind(ty.kind) {
      return Err("unsupported datatype for range index");
    }
    var kind, output := ty.kind, [];
    for n := 0 to |column|
      invariant |output| == n
      invariant forall i | 0 <= i < n :: output[i] == StoredCell(x, Num(kind, column[i])) && (output[i].NullCell? <==> column[i].None?)
    {
      if column[n].Some? {
        var transformed := if kind == Unsigned(64) then column[n].value / 2 else column[n].value;
        output := output + [NumberCell(Bucket(x, transformed))];
      } else {
        output := output + [NullCell];
      }
    }
    r := Ok(output);
  }

  // ----- Support and translation -----

  function IsSupported<E>(x: Index, f: Expr<E>): bool
    requires x.Valid()
  {
    match f
    case Between(c, l, h) => c.column.name == x.indexedColumn && ForValue(x, l).Some? && ForValue(x, h).Some?
    case Compare(c, _, v) => c.column.name == x.indexedColumn && ForValue(x, v).Some?
    case _ => false
  }

  function SupportOf<E>(x: Index): Support<E>
    requires x.Valid()
  {
    Support(true, true, (f: Expr<E>) => IsSupported(x, f))
  }

  function Translate<E>(x: Index, f: Expr<E>): Result<Condition<E>>
    requires x.Valid()
  {
    match f
    case And(l, r) =>
      var a :- Translate(x, l);
      var b :- Translate(x, r);
      Ok(SqlAnd(a, b))
    case Or(l, r) =>
      var a :- Translate(x, l);
      var b :- Translate(x, r);
      Ok(SqlOr(a, b))
    case Between(c, l, h) =>
      if c.column.name != x.indexedColumn then Err("unsupported column")
      else if ForValue(x, l).None? || ForValue(x, h).None? then Err("invalid null value in filter")
      else Ok(BucketBetween(x.indexColumn, ForValue(x, l).value, ForValue(x, h).value))
    case Compare(c, op, v) =>
      if c.column.name != x.indexedColumn then Err("unsupported column")
      else if ForValue(x, v).None? then Err("invalid null value in filter")
      else Ok(BucketCompare(x.indexColumn, op, ForValue(x, v).value))
    case _ => Err("unsupported filter")
  }

  /** The query of the index: comparisons are merged, then translated. */
  function Query<E>(x: Index, f: Expr<E>): Result<Condition<E>>
    requires x.Valid()
  {
    Translate(x, Optimize(f))
  }

  predicate NotFree<E>(f: Expr<E>) {
    match f
    case And(l, r) => NotFree(l) && NotFree(r)
    case Or(l, r) => NotFree(l) && NotFree(r)
    case Not(_) => false
    case _ => true
  }

  /** Accepted trees stay accepted, and free of NOT or not, when their comparisons are merged. */
  lemma {:induction false} OptimizeStaysAccepted<E>(x: Index, f: Expr<E>)
    requires x.Valid() && BuiltFromAccepted(f, SupportOf(x))
    ensures BuiltFromAccepted(Optimize(f), SupportOf(x))
    ensures NotFree(Optimize(f)) == NotFree(f)
  {
    match f
    case And(l, r) =>
      if !Mergeable(l, r) {
        OptimizeStaysAccepted(x, l);
        OptimizeStaysAccepted(x, r);
      }
    case Or(l, r) =>
      OptimizeStaysAccepted(x, l);
      OptimizeStaysAccepted(x, r);
    case _ =>
  }

  lemma {:induction false} TranslatesExactly<E>(x: Index, f: Expr<E>)
    requires x.Valid() && BuiltFromAccepted(f, SupportOf(x))
    ensures Translate(x, f).Ok? <==> NotFree(f)
  {
    match f
    case And(l, r) =>
      TranslatesExactly(x, l);
      TranslatesExactly(x, r);
    case Or(l, r) =>
      TranslatesExactly(x, l);
      TranslatesExactly(x, r);
    case _ =>
  }

  /**
    The index announces support for NOT and then cannot translate it: the query over the supported
    part of any filter fails exactly when that part contains a NOT.
   */
  lemma QueryFailsExactlyOnNot<E>(x: Index, f: Expr<E>)
    requires x.Valid() && Split(f, SupportOf(x)).supported.Some?
    ensures Query(x, Split(f, SupportOf(x)).supported.value).Ok? <==> NotFree(Split(f, SupportOf(x)).supported.value)
  {
    var s := Split(f, SupportOf(x)).supported.value;
    SupportedPartIsAccepted(f, SupportOf(x));
    OptimizeStaysAccepted(x, s);
    TranslatesExactly(x, Optimize(s));
  }

  /** The plain negation of a comparison the index accepts is handed to it whole, and its query fails. */
  lemma NegatedComparisonFails<E>(x: Index, c: ColumnWithCast, op: CmpOp, v: Scalar)
    requires x.Valid() && IsSupported(x, Expr<E>.Compare(c, op, v))
    ensures var f := Expr<E>.Not(Compare(c, op, v));
            Split(f, SupportOf(x)) == Parts(Some(f), None) && Query(x, f).Err?
  {
    var g := Expr<E>.Compare(c, op, v);
    assert Split(g, SupportOf(x)) == Parts(Some(g), None);
  }

  // ----- No matching row is lost -----

  /** The values a column can hold: raw integers of one kind in an interval. */
  datatype Domain = Domain(kind: Kind, lo: int, hi: int) {
    predicate Contains(s: Scalar) {
      s.Num? && s.raw.Some? && SameVariant(s.kind, kind) && SameScale(s.kind, kind) && lo <= s.raw.value <= hi
    }

    /** The index knows the type and its arithmetic does not wrap on the domain. */
    predicate FitsIndex(x: Index)
      requires x.Valid()
    {
      lo <= hi && AsI64(Num(kind, Some(hi))).Some? && Fits(x, AsI64(Num(kind, Some(hi))).value)
    }
  }

  lemma DomainBuckets(x: Index, d: Domain, a: Scalar, b: Scalar)
    requires x.Valid() && d.FitsIndex(x) && d.Contains(a) && d.Contains(b)
    ensures ForValue(x, a).Some? && ForValue(x, b).Some?
    ensures a.raw.value <= b.raw.value ==> ForValue(x, a).value <= ForValue(x, b).value
    ensures Order(a, b) == Some(OrderReals(a.raw.value as real, b.raw.value as real))
  {
    RawOrderIsOrder(a, b);
    var top := AsI64(Num(d.kind, Some(d.hi))).value;
    if a.raw.value <= b.raw.value {
      BucketMonotone(x, top, AsI64(a).value, AsI64(b).value);
    }
  }

  /** A row of the indexed table: its cell is NULL or in the domain, and its index cell was computed from it. */
  ghost predicate Stored<E>(x: Index, d: Domain, row: Row<E>)
    requires x.Valid()
  {
    var cell := row.cell(x.indexedColumn);
    && ((cell.Num? && cell.raw.None?) || d.Contains(cell))
    && row.indexCell(x.indexColumn) == StoredCell(x, cell)
  }

  /** A strict comparison with `v` keeps its rows: the neighbour of `v` on the kept side is in another bucket. */
  predicate Aligned(x: Index, d: Domain, op: CmpOp, v: Scalar)
    requires x.Valid() && d.FitsIndex(x) && d.Contains(v)
  {
    match op
    case Less => v.raw.value == d.lo || ForValue(x, v.(raw := Some(v.raw.value - 1))) != ForValue(x, v)
    case Greater => v.raw.value == d.hi || ForValue(x, v.(raw := Some(v.raw.value + 1))) != ForValue(x, v)
    case _ => true
  }

  /** For types bucketed as they are, a bound is aligned when it starts (or, for >, ends) a bucket past the first. */
  lemma AlignedMeansOnBucketEdge(x: Index, d: Domain, v: Scalar)
    requires x.Valid() && d.FitsIndex(x) && d.Contains(v) && d.kind != Unsigned(64) && d.lo < v.raw.value < d.hi
    ensures Aligned(x, d, Less, v) <==> v.raw.value > x.min && (v.raw.value - x.min) % x.interval == 0
    ensures Aligned(x, d, Greater, v) <==> v.raw.value >= x.min && (v.raw.value + 1 - x.min) % x.interval == 0
  {
    var r := v.raw.value;
    BucketOfFitting(x, d.hi, r - 1);
    BucketOfFitting(x, d.hi, r);
    BucketOfFitting(x, d.hi, r + 1);
    if r > x.min { NextQuotient(r - 1 - x.min, x.interval); }
    if r >= x.min { NextQuotient(r - x.min, x.interval); }
  }

  lemma NextQuotient(a: int, n: int)
    requires a >= 0 && n > 0
    ensures 0 / n == 0
    ensures a / n != (a + 1) / n <==> (a + 1) % n == 0
  {
    var q, m := a / n, a % n;
    assert a == q * n + m;
    if m + 1 == n {
      assert a + 1 == (q + 1) * n;
      QuotientOfMultiple(q + 1, n);
    } else {
      assert (a + 1) / n == q && (a + 1) % n == m + 1 by { QuotientUnique(a + 1, n, q, m + 1); }
    }
  }

  lemma QuotientUnique(a: int, n: int, q: int, m: int)
    requires n > 0 && 0 <= m < n && a == q * n + m
    ensures a / n == q && a % n == m
  {
    var q', m' := a / n, a % n;
    assert a == q' * n + m';
    assert q' < q ==> (q' + 1) * n <= q * n;
    assert q' > q ==> (q + 1) * n <= q' * n;
  }

  /** Every comparison is on the bare column, against a literal of its domain, and no strict one is off a bucket edge. */
  predicate KeepsBuckets<E>(x: Index, d: Domain, f: Expr<E>)
    requires x.Valid() && d.FitsIndex(x)
  {
    match f
    case And(l, r) => KeepsBuckets(x, d, l) && KeepsBuckets(x, d, r)
    case Or(l, r) => KeepsBuckets(x, d, l) && KeepsBuckets(x, d, r)
    case Between(c, l, h) => c.castTo.None? && d.Contains(l) && d.Contains(h)
    case Compare(c, op, v) => c.castTo.None? && d.Contains(v) && Aligned(x, d, op, v)
    case _ => true
  }

  lemma CompareKeepsRow<E>(x: Index, d: Domain, c: ColumnWithCast, op: CmpOp, v: Scalar, row: Row<E>)
    requires x.Valid() && d.FitsIndex(x) && Stored(x, d, row)
    requires c.column.name == x.indexedColumn && c.castTo.None? && d.Contains(v) && Aligned(x, d, op, v)
    requires CompareTruth(op, CellOf(row, c), v) == True
    ensures ForValue(x, v).Some? && CompareBucket(op, row.indexCell(x.indexColumn), ForValue(x, v).value) == True
  {
    var cell := CellOf(row, c);
    DomainBuckets(x, d, cell, v);
    DomainBuckets(x, d, v, cell);
    if op.Less? {
      var w := v.(raw := Some(v.raw.value - 1));
      DomainBuckets(x, d, cell, w);
      DomainBuckets(x, d, w, v);
    } else if op.Greater? {
      var w := v.(raw := Some(v.raw.value + 1));
      DomainBuckets(x, d, w, cell);
      DomainBuckets(x, d, v, w);
    }
  }

  lemma {:induction false} TranslateKeepsRows<E>(x: Index, d: Domain, f: Expr<E>, row: Row<E>)
    requires x.Valid() && d.FitsIndex(x) && Stored(x, d, row)
    requires Translate(x, f).Ok? && KeepsBuckets(x, d, f) && RowTruth(f, row) == True
    ensures EvalSql(Translate(x, f).value, row) == True
  {
    RowTruthUnfolds(f, row);
    match f
    case And(l, r) =>
      TranslateKeepsRows(x, d, l, row);
      TranslateKeepsRows(x, d, r, row);
    case Or(l, r) =>
      if RowTruth(l, row) == True {
        TranslateKeepsRows(x, d, l, row);
      } else {
        TranslateKeepsRows(x, d, r, row);
      }
    case _ =>
      LeafKeepsRows(x, d, f, row);
  }

  lemma LeafKeepsRows<E>(x: Index, d: Domain, f: Expr<E>, row: Row<E>)
    requires x.Valid() && d.FitsIndex(x) && Stored(x, d, row) && !f.And? && !f.Or?
    requires Translate(x, f).Ok? && KeepsBuckets(x, d, f) && RowTruth(f, row) == True
    ensures EvalSql(Translate(x, f).value, row) == True
  {
    RowTruthUnfolds(f, row);
    match f
    case Between(c, low, high) =>
      CompareKeepsRow(x, d, c, GreaterEq, low, row);
      CompareKeepsRow(x, d, c, LessEq, high, row);
    case Compare(c, op, v) =>
      CompareKeepsRow(x, d, c, op, v, row);
    case _ =>
  }

  /** A stored row matching the filter matches the bucket query built from it. */
  lemma QueryKeepsRows<E>(x: Index, d: Domain, f: Expr<E>, row: Row<E>)
    requires x.Valid() && d.FitsIndex(x) && Stored(x, d, row)
    requires Query(x, f).Ok? && KeepsBuckets(x, d, Optimize(f)) && RowTruth(f, row) == True
    ensures EvalSql(Query(x, f).value, row) == True
  {
    OptimizeWeakens(f, row);
    TranslateKeepsRows(x, d, Optimize(f), row);
  }

  /** AND and OR over BETWEEN, =, <= and >= on the bare indexed column, with literals of its domain. */
  predicate NonStrictFilter<E>(x: Index, d: Domain, f: Expr<E>) {
    match f
    case And(l, r) => NonStrictFilter(x, d, l) && NonStrictFilter(x, d, r)
    case Or(l, r) => NonStrictFilter(x, d, l) && NonStrictFilter(x, d, r)
    case Between(c, l, h) => c.column.name == x.indexedColumn && c.castTo.None? && d.Contains(l) && d.Contains(h)
    case Compare(c, op, v) =>
      c.column.name == x.indexedColumn && c.castTo.None? && d.Contains(v) && !op.Less? && !op.Greater?
    case _ => false
  }

  lemma {:induction false} NonStrictOptimizes<E>(x: Index, d: Domain, f: Expr<E>)
    requires x.Valid() && d.FitsIndex(x) && NonStrictFilter(x, d, f)
    ensures KeepsBuckets(x, d, Optimize(f)) && Query(x, f).Ok?
  {
    match f
    case And(l, r) =>
      if Mergeable(l, r) {
        DomainBuckets(x, d, l.value, r.value);
        assert Translate(x, l).Ok? && Translate(x, r).Ok?;
        assert Optimize(f) == Merge(l, r);
      } else {
        NonStrictOptimizes(x, d, l);
        NonStrictOptimizes(x, d, r);
      }
    case Or(l, r) =>
      NonStrictOptimizes(x, d, l);
      NonStrictOptimizes(x, d, r);
    case Between(_, l, h) =>
      DomainBuckets(x, d, l, h);
    case Compare(_, _, v) =>
      DomainBuckets(x, d, v, v);
    case _ =>
  }

  /** Such filters are always translated, and no stored row that matches is lost. */
  lemma NonStrictKeepsRows<E>(x: Index, d: Domain, f: Expr<E>, row: Row<E>)
    requires x.Valid() && d.FitsIndex(x) && Stored(x, d, row) && NonStrictFilter(x, d, f)
    ensures Query(x, f).Ok? && (RowTruth(f, row) == True ==> EvalSql(Query(x, f).value, row) == True)
  {
    NonStrictOptimizes(x, d, f);
    if RowTruth(f, row) == True {
      QueryKeepsRows(x, d, f, row);
    }
  }

  // ----- Ranges -----

  predicate OnIndexed<E>(x: Index, d: Domain, f: Expr<E>) {
    f.Compare? && f.col.column.name == x.indexedColumn && f.col.castTo.None? && d.Contains(f.value)
  }

  /** Of two bounds on one side, whether the tighter one allows equality; of equal ones the left upper and the right lower counts. */
  predicate TighterIsLax(l: CmpOp, a: int, r: CmpOp, b: int) {
    if IsUpperBound(l) then NonStrict(if a <= b then l else r) else NonStrict(if a <= b then r else l)
  }

  /** A lower and an upper bound, strict or not, in either order; or two bounds on one side of which the tighter allows equality. */
  predicate RangePair<E>(x: Index, d: Domain, l: Expr<E>, r: Expr<E>)
    requires Mergeable(l, r)
  {
    && OnIndexed(x, d, l) && OnIndexed(x, d, r)
    && (IsUpperBound(l.op) == IsUpperBound(r.op) ==> TighterIsLax(l.op, l.value.raw.value, r.op, r.value.raw.value))
  }

  /** AND and OR over such pairs, BETWEEN, =, <= and >=. */
  predicate RangeFilter<E>(x: Index, d: Domain, f: Expr<E>) {
    match f
    case And(l, r) => if Mergeable(l, r) then RangePair(x, d, l, r) else RangeFilter(x, d, l) && RangeFilter(x, d, r)
    case Or(l, r) => RangeFilter(x, d, l) && RangeFilter(x, d, r)
    case Between(c, l, h) => c.column.name == x.indexedColumn && c.castTo.None? && d.Contains(l) && d.Contains(h)
    case Compare(_, op, _) => OnIndexed(x, d, f) && !op.Less? && !op.Greater?
    case _ => false
  }

  /** A pair that some row satisfies is merged into comparisons that keep their buckets. */
  lemma PairKeepsBuckets<E>(x: Index, d: Domain, l: Expr<E>, r: Expr<E>, row: Row<E>)
    requires x.Valid() && d.FitsIndex(x) && Stored(x, d, row) && Mergeable(l, r) && RangePair(x, d, l, r)
    requires RowTruth(And(l, r), row) == True
    ensures KeepsBuckets(x, d, Merge(l, r))
  {
    var cell := CellOf(row, l.col);
    MergeOnCell(l, r, row);
    DomainBuckets(x, d, cell, l.value);
    DomainBuckets(x, d, cell, r.value);
  }

  lemma PairTranslates<E>(x: Index, d: Domain, l: Expr<E>, r: Expr<E>)
    requires x.Valid() && d.FitsIndex(x) && Mergeable(l, r) && RangePair(x, d, l, r)
    ensures Translate(x, Merge(l, r)).Ok?
  {
    DomainBuckets(x, d, l.value, r.value);
    assert Translate(x, l).Ok? && Translate(x, r).Ok?;
  }

  lemma AcceptedWhole<E>(x: Index, d: Domain, f: Expr<E>)
    requires x.Valid() && d.FitsIndex(x) && OnIndexed(x, d, f)
    ensures Split(f, SupportOf(x)) == Parts(Some(f), None) && Translate(x, f).Ok?
  {
    DomainBuckets(x, d, f.value, f.value);
  }

  /**
    Such filters are handed to the index whole and always translated, and no stored row that matches
    is lost: a strict bound does no harm beside one on the other side, on or off a bucket edge.
   */
  lemma {:induction false} RangeFiltersKeepRows<E>(x: Index, d: Domain, f: Expr<E>, row: Row<E>)
    requires x.Valid() && d.FitsIndex(x) && Stored(x, d, row) && RangeFilter(x, d, f)
    ensures Split(f, SupportOf(x)) == Parts(Some(f), None)
    ensures Query(x, f).Ok? && (RowTruth(f, row) == True ==> EvalSql(Query(x, f).value, row) == True)
  {
    RowTruthUnfolds(f, row);
    match f
    case And(l, r) =>
      if Mergeable(l, r) {
        AcceptedWhole(x, d, l);
        AcceptedWhole(x, d, r);
        PairTranslates(x, d, l, r);
        if RowTruth(f, row) == True {
          PairKeepsBuckets(x, d, l, r, row);
          QueryKeepsRows(x, d, f, row);
        }
      } else {
        RangeFiltersKeepRows(x, d, l, row);
        RangeFiltersKeepRows(x, d, r, row);
      }
    case Or(l, r) =>
      RangeFiltersKeepRows(x, d, l, row);
      RangeFiltersKeepRows(x, d, r, row);
    case Between(_, l, h) =>
      DomainBuckets(x, d, l, h);
      if RowTruth(f, row) == True { QueryKeepsRows(x, d, f, row); }
    case Compare(_, _, _) =>
      AcceptedWhole(x, d, f);
      if RowTruth(f, row) == True { QueryKeepsRows(x, d, f, row); }
    case _ =>
  }

  /** In particular a lower and an upper bound in either order, strict or not, without any condition on bucket edges. */
  lemma BothBoundsKeepRows<E>(x: Index, d: Domain, c: ColumnWithCast, above: CmpOp, lo: Scalar, below: CmpOp, hi: Scalar, row: Row<E>)
    requires x.Valid() && d.FitsIndex(x) && Stored(x, d, row) && c.column.name == x.indexedColumn && c.castTo.None?
    requires d.Contains(lo) && d.Contains(hi) && (above.Greater? || above.GreaterEq?) && (below.Less? || below.LessEq?)
    ensures var f := Expr<E>.And(Compare(c, above, lo), Compare(c, below, hi));
            Query(x, f).Ok? && (RowTruth(f, row) == True ==> EvalSql(Query(x, f).value, row) == True)
    ensures var f := Expr<E>.And(Compare(c, below, hi), Compare(c, above, lo));
            Query(x, f).Ok? && (RowTruth(f, row) == True ==> EvalSql(Query(x, f).value, row) == True)
  {
    RangeFiltersKeepRows(x, d, Expr<E>.And(Compare(c, above, lo), Compare(c, below, hi)), row);
    RangeFiltersKeepRows(x, d, Expr<E>.And(Compare(c, below, hi), Compare(c, above, lo)), row);
  }

  // ----- Tightness -----

  lemma CloseQuotients(a: int, b: int, n: int)
    requires a >= 0 && b >= 0 && n > 0 && a / n <= b / n
    ensures a < b + n
  {
    var q, p := a / n, b / n;
    assert a < (q + 1) * n && p * n <= b;
    assert (q + 1) * n <= (p + 1) * n;
  }

  /** The bucket query is tight: what it selects misses the comparison by less than one interval, except below the first bucket. */
  lemma BucketsAreTight(x: Index, hi: int, cell: int, v: int)
    requires x.Valid() && Fits(x, hi) && cell <= hi && v <= hi
    ensures Bucket(x, cell) <= Bucket(x, v) ==> cell < (if v > x.min then v else x.min) + Abs(x.interval)
    ensures Bucket(x, cell) >= Bucket(x, v) >= 1 ==> cell > v - Abs(x.interval)
  {
    BucketOfFitting(x, hi, cell);
    BucketOfFitting(x, hi, v);
    if hi > x.min {
      var a, b := if cell > x.min then cell - x.min else 0, if v > x.min then v - x.min else 0;
      assert 0 / x.interval == 0;
      if a / x.interval <= b / x.interval { CloseQuotients(a, b, x.interval); }
      if b / x.interval <= a / x.interval { CloseQuotients(b, a, x.interval); }
    }
  }

  /** 64-bit unsigned values are halved before they are bucketed. */
  function Unit(k: Kind): int {
    if k == Unsigned(64) then 2 else 1
  }

  /** Exactly non-null literals of types that the index knows have a bucket. */
  lemma HasBucketExactly(x: Index, s: Scalar)
    requires x.Valid()
    ensures ForValue(x, s).Some? <==> s.Num? && s.raw.Some? && (s.kind.Decimal? ==> s.kind.bits == 32 || s.kind.bits == 64)
  {
  }

  function Larger(a: int, b: int): int {
    if a > b then a else b
  }

  /** On every type the index knows, equal or ordered buckets mean values ordered up to one interval. */
  lemma ValuesAreTight(x: Index, d: Domain, cell: Scalar, v: Scalar)
    requires x.Valid() && d.FitsIndex(x) && d.Contains(cell) && d.Contains(v)
    ensures ForValue(x, cell).Some? && ForValue(x, v).Some?
    ensures ForValue(x, cell).value <= ForValue(x, v).value ==>
              cell.raw.value < Larger(v.raw.value, Unit(d.kind) * x.min) + Unit(d.kind) * Abs(x.interval)
    ensures ForValue(x, cell).value >= ForValue(x, v).value >= 1 ==>
              cell.raw.value > v.raw.value - Unit(d.kind) * Abs(x.interval)
  {
    var hi := AsI64(Num(d.kind, Some(d.hi))).value;
    BucketsAreTight(x, hi, AsI64(cell).value, AsI64(v).value);
  }

  /** For halved values a bound is aligned when it is the first, or for > the second, of the two values that start, or end, a bucket. */
  lemma AlignedOnUnsigned(x: Index, d: Domain, v: Scalar)
    requires x.Valid() && d.FitsIndex(x) && d.Contains(v) && d.kind == Unsigned(64) && d.lo < v.raw.value < d.hi
    ensures var h := v.raw.value / 2;
            && (Aligned(x, d, Less, v) <==> v.raw.value % 2 == 0 && h > x.min && (h - x.min) % x.interval == 0)
            && (Aligned(x, d, Greater, v) <==> v.raw.value % 2 == 1 && h >= x.min && (h + 1 - x.min) % x.interval == 0)
  {
    var r, top := v.raw.value, d.hi / 2;
    var h := r / 2;
    assert (r - 1) / 2 == (if r % 2 == 0 then h - 1 else h) && (r + 1) / 2 == if r % 2 == 0 then h else h + 1;
    BucketOfFitting(x, top, (r - 1) / 2);
    BucketOfFitting(x, top, h);
    BucketOfFitting(x, top, (r + 1) / 2);
    if h > x.min { NextQuotient(h - 1 - x.min, x.interval); }
    if h >= x.min && r % 2 == 1 { NextQuotient(h - x.min, x.interval); }
  }

  ghost function StoredRow<E>(x: Index, cell: Scalar): Row<E>
    requires x.Valid()
  {
    Row(_ => cell, (_, _, s) => s, _ => Unknown, _ => StoredCell(x, cell))
  }

  /** A lone comparison keeps all stored rows that match it exactly when it is aligned. */
  lemma LoneComparisonExactly<E(!new)>(x: Index, d: Domain, c: ColumnWithCast, op: CmpOp, v: Scalar)
    requires x.Valid() && d.FitsIndex(x) && d.Contains(v)
    requires c.column.name == x.indexedColumn && c.castTo.None?
    ensures Query(x, Expr<E>.Compare(c, op, v)).Ok?
    ensures (forall row: Row<E> | Stored(x, d, row) && RowTruth(Compare(c, op, v), row) == True ::
               EvalSql(Query(x, Compare(c, op, v)).value, row) == True) <==> Aligned(x, d, op, v)
  {
    var f := Expr<E>.Compare(c, op, v);
    DomainBuckets(x, d, v, v);
    if Aligned(x, d, op, v) {
      forall row: Row<E> | Stored(x, d, row) && RowTruth(f, row) == True
        ensures EvalSql(Query(x, f).value, row) == True
      {
        QueryKeepsRows(x, d, f, row);
      }
    } else {
      var cell := v.(raw := Some(if op.Less? then v.raw.value - 1 else v.raw.value + 1));
      var row := StoredRow<E>(x, cell);
      DomainBuckets(x, d, cell, v);
      RowTruthUnfolds(f, row);
      assert Stored(x, d, row) && RowTruth(f, row) == True;
      assert EvalSql(Query(x, f).value, row) != True;
    }
  }
}

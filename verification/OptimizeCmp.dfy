/** Merging two comparisons on one column into one. */
module OptimizeCmp {
  import opened Basics
  import opened Filter
  import opened Rows

  /** The smaller of two literals of one variant, decided on the stored integers; None when it cannot be decided. */
  function Min(a: Scalar, b: Scalar): (m: Option<Scalar>)
    ensures m.Some? ==> m.value == a || m.value == b
    ensures m.Some? <==> Ordered(a, b)
  {
    match (a, b)
    case (Num(ka, Some(x)), Num(kb, Some(y))) =>
      if SameVariant(ka, kb) then Some(if x > y then b else a) else None
    case (Float(ba, Some(x)), Float(bb, Some(y))) =>
      if ba == bb then Some(if x > y then b else a) else None
    case _ => None
  }

  /** Both literals are non-null numbers of one variant. */
  predicate Ordered(a: Scalar, b: Scalar) {
    || (a.Num? && b.Num? && a.raw.Some? && b.raw.Some? && SameVariant(a.kind, b.kind))
    || (a.Float? && b.Float? && a.number.Some? && b.number.Some? && a.bits == b.bits)
  }

  predicate Inequality<E>(f: Expr<E>) {
    f.Compare? && f.op != Equal
  }

  predicate IsUpperBound(op: CmpOp) {
    op.Less? || op.LessEq?
  }

  /** Two inequalities on the same column, casts included. */
  predicate Mergeable<E>(l: Expr<E>, r: Expr<E>) {
    Inequality(l) && Inequality(r) && l.col == r.col
  }

  /** The rewriting of `l AND r` for two mergeable inequalities. */
  function Merge<E>(l: Expr<E>, r: Expr<E>): Expr<E>
    requires Mergeable(l, r)
  {
    var minimum := Min(l.value, r.value);
    if minimum.None? then
      And(l, r)
    else
      var minIsLeft := minimum.value == l.value;
      if IsUpperBound(l.op) && IsUpperBound(r.op) then
        Compare(l.col, if minIsLeft then l.op else r.op, if minIsLeft then l.value else r.value)
      else if !IsUpperBound(l.op) && !IsUpperBound(r.op) then
        Compare(l.col, if minIsLeft then r.op else l.op, if minIsLeft then r.value else l.value)
      else if !IsUpperBound(l.op) && IsUpperBound(r.op) && minIsLeft then
        Between(l.col, l.value, r.value)
      else if IsUpperBound(l.op) && !IsUpperBound(r.op) && !minIsLeft then
        Between(l.col, r.value, l.value)
      else
        And(l, r)
  }

  function Optimize<E>(f: Expr<E>): Expr<E> {
    match f
    case And(l, r) => if Mergeable(l, r) then Merge(l, r) else And(Optimize(l), Optimize(r))
    case Or(l, r) => Or(Optimize(l), Optimize(r))
    case _ => f
  }

  // ----- Only weakening -----

  /** A cell is comparable with both of two ordered literals or with neither. */
  lemma ComparableTogether(cell: Scalar, a: Scalar, b: Scalar)
    requires Ordered(a, b)
    ensures Order(cell, a).Some? <==> Order(cell, b).Some?
  {
  }

  /** The merge of two inequalities, seen as one fact about the cell. */
  ghost function MergedTruth<E>(l: Expr<E>, r: Expr<E>, cell: Scalar): Truth
    requires Mergeable(l, r)
  {
    match Merge(l, r)
    case Compare(_, op, value) => CompareTruth(op, cell, value)
    case Between(_, low, high) => And3(CompareTruth(GreaterEq, cell, low), CompareTruth(LessEq, cell, high))
    case _ => And3(CompareTruth(l.op, cell, l.value), CompareTruth(r.op, cell, r.value))
  }

  lemma MergeOnCell<E>(l: Expr<E>, r: Expr<E>, row: Row<E>)
    requires Mergeable(l, r)
    ensures RowTruth(And(l, r), row)
         == And3(CompareTruth(l.op, CellOf(row, l.col), l.value), CompareTruth(r.op, CellOf(row, l.col), r.value))
    ensures RowTruth(Merge(l, r), row) == MergedTruth(l, r, CellOf(row, l.col))
  {
    RowTruthUnfolds(And(l, r), row);
    RowTruthUnfolds(Merge(l, r), row);
    RowTruthUnfolds(l, row);
    RowTruthUnfolds(r, row);
  }

  lemma MergeWeakens<E>(l: Expr<E>, r: Expr<E>, row: Row<E>)
    requires Mergeable(l, r)
    ensures Leq(RowTruth(And(l, r), row), RowTruth(Merge(l, r), row))
  {
    MergeOnCell(l, r, row);
    if Ordered(l.value, r.value) {
      ComparableTogether(CellOf(row, l.col), l.value, r.value);
    }
  }

  /** Whatever the literals, every row keeps at least its truth value. */
  lemma {:induction false} OptimizeWeakens<E>(f: Expr<E>, row: Row<E>)
    ensures Leq(RowTruth(f, row), RowTruth(Optimize(f), row))
  {
    RowTruthUnfolds(f, row);
    match f
    case And(l, r) =>
      if Mergeable(l, r) {
        MergeWeakens(l, r, row);
      } else {
        OptimizeWeakens(l, row);
        OptimizeWeakens(r, row);
        RowTruthUnfolds(And(Optimize(l), Optimize(r)), row);
      }
    case Or(l, r) =>
      OptimizeWeakens(l, row);
      OptimizeWeakens(r, row);
      RowTruthUnfolds(Or(Optimize(l), Optimize(r)), row);
    case _ =>
  }

  // ----- How much is added -----

  predicate ScalesAgree(a: Scalar, b: Scalar) {
    a.Num? && b.Num? ==> SameScale(a.kind, b.kind)
  }

  /** On literals of one scale the stored integers and the numbers they stand for are ordered alike. */
  lemma RawOrderIsOrder(a: Scalar, b: Scalar)
    requires Ordered(a, b) && ScalesAgree(a, b)
    ensures a.Num? ==> Order(a, b) == Some(OrderReals(a.raw.value as real, b.raw.value as real))
  {
    if a.Num? && a.kind.Decimal? {
      var p := if a.kind.scale >= 0 then 1.0 / Pow10(a.kind.scale) else Pow10(-a.kind.scale);
      ScalingKeepsOrder(a.raw.value as real, b.raw.value as real, p);
    }
  }

  lemma ScalingKeepsOrder(x: real, y: real, p: real)
    requires p > 0.0
    ensures OrderReals(x * p, y * p) == OrderReals(x, y)
  {
    assert (y - x) * p == y * p - x * p;
  }

  /** The cell equals a literal of a comparison in `f`. */
  ghost predicate OnBound<E>(f: Expr<E>, row: Row<E>) {
    match f
    case And(l, r) => OnBound(l, row) || OnBound(r, row)
    case Or(l, r) => OnBound(l, row) || OnBound(r, row)
    case Compare(c, _, value) => Order(CellOf(row, c), value) == Some(Same)
    case _ => false
  }

  /** What a literal is compared by when comparisons merge. */
  ghost function Raw(s: Scalar): real {
    if s.Num? && s.raw.Some? then s.raw.value as real else if s.Float? && s.number.Some? then s.number.value else 0.0
  }

  /** The number a literal stands for. */
  ghost function Value(s: Scalar): real {
    if s.Num? && s.raw.Some? then Magnitude(s.kind, s.raw.value) else Raw(s)
  }

  /** The order of the stored integers does not contradict the order of the numbers. */
  ghost predicate RawOrderKept(a: Scalar, b: Scalar) {
    if Raw(a) <= Raw(b) then Value(a) <= Value(b) else Value(b) <= Value(a)
  }

  lemma OneScaleKeepsOrder(a: Scalar, b: Scalar)
    requires Ordered(a, b) && ScalesAgree(a, b)
    ensures RawOrderKept(a, b)
  {
    RawOrderIsOrder(a, b);
  }

  /** Both inequalities bound the column on one side, and the wrong one is kept. */
  ghost predicate KeepsWrongBound<E>(l: Expr<E>, r: Expr<E>)
    requires Mergeable(l, r)
  {
    Ordered(l.value, r.value) && IsUpperBound(l.op) == IsUpperBound(r.op) && !RawOrderKept(l.value, r.value)
  }

  lemma MergeAddsOnBound<E>(l: Expr<E>, r: Expr<E>, row: Row<E>)
    requires Mergeable(l, r) && !KeepsWrongBound(l, r)
    ensures RowTruth(Merge(l, r), row) == RowTruth(And(l, r), row) || OnBound(And(l, r), row)
  {
    MergeOnCell(l, r, row);
    if Ordered(l.value, r.value) {
      ComparableTogether(CellOf(row, l.col), l.value, r.value);
    }
  }

  // ----- A cell between two decimals -----

  function IntPow10(n: nat): (p: int)
    ensures p > 0
  {
    if n == 0 then 1 else 10 * IntPow10(n - 1)
  }

  lemma {:induction false} IntPow10IsPow10(n: nat)
    ensures IntPow10(n) as real == Pow10(n)
  {
    if n > 0 {
      IntPow10IsPow10(n - 1);
      assert (10 * IntPow10(n - 1)) as real == 10.0 * IntPow10(n - 1) as real;
    }
  }

  lemma {:induction false} Pow10Adds(a: nat, b: nat)
    ensures Product(Pow10(a + b), Pow10(a), Pow10(b))
  {
    if a > 0 {
      Pow10Adds(a - 1, b);
      assert Pow10(a + b) == 10.0 * Pow10(a - 1 + b);
      assert 10.0 * (Pow10(a - 1) * Pow10(b)) == (10.0 * Pow10(a - 1)) * Pow10(b);
    }
  }

  /** The stored integer followed by `more` zeros. */
  lemma Lengthen(raw: int, more: nat) returns (n: int)
    ensures Product(n as real, raw as real, Pow10(more))
  {
    IntPow10IsPow10(more);
    var p := IntPow10(more);
    n := raw * p;
    assert (raw * p) as real == raw as real * p as real;
  }

  lemma Regroup(x: real, p: real, q: real)
    ensures x * (p * q) == (x * p) * q == p * (x * q)
  {
  }

  ghost predicate Product(z: real, x: real, y: real) {
    z == x * y
  }

  lemma RegroupProduct(x: real, p: real, q: real, xp: real, pq: real, z: real)
    requires Product(xp, x, p) && Product(pq, p, q)
    ensures Product(z, xp, q) <==> Product(z, x, pq)
  {
    Regroup(x, p, q);
  }

  lemma FractionTimesPower(k: Kind, raw: int)
    requires k.Decimal? && k.scale >= 0
    ensures Product(raw as real, Magnitude(k, raw), Pow10(k.scale))
  {
    var x, p := raw as real, Pow10(k.scale);
    assert (x / p) * p == x;
  }

  /** A decimal written with more digits. */
  lemma Rescale(k: Kind, raw: int, scale: nat) returns (n: int)
    requires k.Decimal? && k.scale <= scale
    ensures Product(n as real, Magnitude(k, raw), Pow10(scale))
  {
    n := Lengthen(raw, scale - k.scale);
    if k.scale >= 0 {
      FractionTimesPower(k, raw);
      Pow10Adds(k.scale, scale - k.scale);
      RegroupProduct(Magnitude(k, raw), Pow10(k.scale), Pow10(scale - k.scale), raw as real, Pow10(scale), n as real);
    } else {
      Pow10Adds(-k.scale, scale);
      RegroupProduct(raw as real, Pow10(-k.scale), Pow10(scale), Magnitude(k, raw), Pow10(scale - k.scale), n as real);
    }
  }

  lemma ScaledOrder(x: real, y: real, p: real)
    requires p > 0.0
    ensures x < y <==> x * p < y * p
  {
    assert (y - x) * p == y * p - x * p;
  }

  /** One more digit leaves room between two different numbers. */
  lemma OneMoreDigit(a: real, b: real, p: real, low: int, high: int, q: real)
    requires p > 0.0 && q == 10.0 * p && a < b && Product(low as real, a, p) && Product(high as real, b, p)
    ensures a < (10 * low + 1) as real / q < b
  {
    ScaledOrder(a, b, p);
    assert low < high;
    var v := (10 * low + 1) as real / q;
    assert v * q == 10.0 * low as real + 1.0;
    Regroup(a, 10.0, p);
    Regroup(b, 10.0, p);
    assert a * q == 10.0 * low as real && b * q == 10.0 * high as real;
    ScaledOrder(a, v, q);
    ScaledOrder(v, b, q);
  }

  lemma CellBetween(a: Scalar, b: Scalar) returns (cell: Scalar)
    requires Ordered(a, b) && a.Num? && a.kind.Decimal? && Value(a) < Value(b)
    ensures Order(cell, a) == Some(Above) && Order(cell, b) == Some(Below)
  {
    var larger := if a.kind.scale > b.kind.scale then a.kind.scale else b.kind.scale;
    var scale: nat := if larger > 0 then larger else 0;
    var low := Rescale(a.kind, a.raw.value, scale);
    var high := Rescale(b.kind, b.raw.value, scale);
    cell := Num(Decimal(a.kind.bits, a.kind.precision, scale + 1), Some(10 * low + 1));
    OneMoreDigit(Value(a), Value(b), Pow10(scale), low, high, Pow10(scale + 1));
  }

  ghost function RowOf<E>(cell: Scalar): Row<E> {
    Row(_ => cell, (_, _, s) => s, _ => Unknown, _ => NullCell)
  }

  /**
    For literals of any scale: a merge changes nothing but rows on a bound, on every row, exactly
    when it does not keep the wrong one of two bounds on one side.
   */
  lemma MergeAddsOnBoundExactly<E(!new)>(l: Expr<E>, r: Expr<E>)
    requires Mergeable(l, r)
    ensures (forall row: Row<E> :: RowTruth(Merge(l, r), row) == RowTruth(And(l, r), row) || OnBound(And(l, r), row))
            <==> !KeepsWrongBound(l, r)
  {
    if KeepsWrongBound(l, r) {
      var row := WrongBoundAdds(l, r);
    } else {
      forall row: Row<E> { MergeAddsOnBound(l, r, row); }
    }
  }

  /** A row between the bounds is added by keeping the wrong one. */
  lemma WrongBoundAdds<E>(l: Expr<E>, r: Expr<E>) returns (row: Row<E>)
    requires Mergeable(l, r) && KeepsWrongBound(l, r)
    ensures RowTruth(And(l, r), row) == False && RowTruth(Merge(l, r), row) == True && !OnBound(And(l, r), row)
  {
    var cell;
    if Value(l.value) < Value(r.value) {
      cell := CellBetween(l.value, r.value);
    } else {
      cell := CellBetween(r.value, l.value);
    }
    row := RowOf<E>(cell);
    assert CellOf(row, l.col) == cell;
    MergeOnCell(l, r, row);
  }

  /** No merge in the tree keeps the wrong bound. */
  ghost predicate MergesKeepBounds<E>(f: Expr<E>) {
    match f
    case And(l, r) => if Mergeable(l, r) then !KeepsWrongBound(l, r) else MergesKeepBounds(l) && MergesKeepBounds(r)
    case Or(l, r) => MergesKeepBounds(l) && MergesKeepBounds(r)
    case _ => true
  }

  /** A row whose truth value changes has a cell equal to a compared literal. */
  lemma {:induction false} OptimizeAddsOnBound<E>(f: Expr<E>, row: Row<E>)
    requires MergesKeepBounds(f)
    ensures RowTruth(Optimize(f), row) == RowTruth(f, row) || OnBound(f, row)
  {
    RowTruthUnfolds(f, row);
    match f
    case And(l, r) =>
      if Mergeable(l, r) {
        MergeAddsOnBound(l, r, row);
      } else {
        OptimizeAddsOnBound(l, row);
        OptimizeAddsOnBound(r, row);
        RowTruthUnfolds(And(Optimize(l), Optimize(r)), row);
      }
    case Or(l, r) =>
      OptimizeAddsOnBound(l, row);
      OptimizeAddsOnBound(r, row);
      RowTruthUnfolds(Or(Optimize(l), Optimize(r)), row);
    case _ =>
  }

  // ----- When nothing is added -----

  predicate NonStrict(op: CmpOp) {
    op.LessEq? || op.GreaterEq?
  }

  /** The merge keeps the meaning. */
  ghost predicate MergeExact<E>(l: Expr<E>, r: Expr<E>)
    requires Mergeable(l, r)
  {
    var m := Merge(l, r);
    if m.And? || (NonStrict(l.op) && NonStrict(r.op)) then
      !KeepsWrongBound(l, r)
    else if m.Between? then
      Value(m.low) > Value(m.high)  // neither form matches anything
    else
      // of two equal bounds the strict one must win
      !KeepsWrongBound(l, r) && (Value(l.value) == Value(r.value) ==> !NonStrict(m.op))
  }

  lemma MergeExactSuffices<E>(l: Expr<E>, r: Expr<E>, row: Row<E>)
    requires Mergeable(l, r) && MergeExact(l, r)
    ensures RowTruth(Merge(l, r), row) == RowTruth(And(l, r), row)
  {
    MergeOnCell(l, r, row);
    if Ordered(l.value, r.value) {
      ComparableTogether(CellOf(row, l.col), l.value, r.value);
    }
  }

  /** For literals of any scale, a merge keeps the meaning on every row exactly when `MergeExact` says so. */
  lemma MergeExactly<E(!new)>(l: Expr<E>, r: Expr<E>)
    requires Mergeable(l, r)
    ensures (forall row: Row<E> :: RowTruth(Merge(l, r), row) == RowTruth(And(l, r), row)) <==> MergeExact(l, r)
  {
    if MergeExact(l, r) {
      forall row: Row<E> { MergeExactSuffices(l, r, row); }
    } else if KeepsWrongBound(l, r) {
      var row := WrongBoundAdds(l, r);
    } else {
      var bound := if NonStrict(l.op) then r.value else l.value;
      var row := RowOf<E>(bound);
      assert CellOf(row, l.col) == bound;
      MergeOnCell(l, r, row);
      assert RowTruth(Merge(l, r), row) != RowTruth(And(l, r), row);
    }
  }

  ghost predicate MergesExactly<E>(f: Expr<E>) {
    match f
    case And(l, r) => if Mergeable(l, r) then MergeExact(l, r) else MergesExactly(l) && MergesExactly(r)
    case Or(l, r) => MergesExactly(l) && MergesExactly(r)
    case _ => true
  }

  lemma {:induction false} OptimizeExact<E>(f: Expr<E>, row: Row<E>)
    requires MergesExactly(f)
    ensures RowTruth(Optimize(f), row) == RowTruth(f, row)
  {
    RowTruthUnfolds(f, row);
    match f
    case And(l, r) =>
      if Mergeable(l, r) {
        MergeExactSuffices(l, r, row);
      } else {
        OptimizeExact(l, row);
        OptimizeExact(r, row);
        RowTruthUnfolds(And(Optimize(l), Optimize(r)), row);
      }
    case Or(l, r) =>
      OptimizeExact(l, row);
      OptimizeExact(r, row);
      RowTruthUnfolds(Or(Optimize(l), Optimize(r)), row);
    case _ =>
  }

  /**
    Literals of different scales are compared by their stored integers: 1.5 (15, scale 1) counts as
    larger than 2 (2, scale 0), so `c < 1.5 AND c < 2` becomes `c < 2` and gains the cell 1.7,
    which is no bound.
   */
  lemma MixedScalesAddMore<E>(c: ColumnWithCast)
    ensures var l := Expr<E>.Compare(c, Less, Num(Decimal(32, 9, 1), Some(15)));
            var r := Expr<E>.Compare(c, Less, Num(Decimal(32, 9, 0), Some(2)));
            var row := RowOf<E>(Num(Decimal(32, 9, 1), Some(17)));
            && Mergeable(l, r) && KeepsWrongBound(l, r)
            && RowTruth(And(l, r), row) == False && RowTruth(Merge(l, r), row) == True
            && !OnBound(And(l, r), row)
  {
    var l := Expr<E>.Compare(c, Less, Num(Decimal(32, 9, 1), Some(15)));
    var r := Expr<E>.Compare(c, Less, Num(Decimal(32, 9, 0), Some(2)));
    var row := RowOf<E>(Num(Decimal(32, 9, 1), Some(17)));
    MergeOnCell(l, r, row);
    assert Pow10(1) == 10.0;
    assert Magnitude(Decimal(32, 9, 1), 17) == 1.7;
    assert Magnitude(Decimal(32, 9, 1), 15) == 1.5;
    assert Magnitude(Decimal(32, 9, 0), 2) == 2.0;
  }
}

/** What a filter leaf means on a row. */
module Rows {
  import opened Basics
  import opened Filter

  /** Ten to the power `n`. */
  ghost function Pow10(n: nat): (p: real)
    ensures p > 0.0
  {
    if n == 0 then 1.0 else 10.0 * Pow10(n - 1)
  }

  /** The number a raw integer stands for. */
  ghost function Magnitude(k: Kind, raw: int): real {
    if k.Decimal? then
      if k.scale >= 0 then raw as real / Pow10(k.scale) else raw as real * Pow10(-k.scale)
    else
      raw as real
  }

  /** The same variant of the scalar type; precision, scale and time zone are not looked at. */
  predicate SameVariant(a: Kind, b: Kind) {
    match (a, b)
    case (Decimal(x, _, _), Decimal(y, _, _)) => x == y
    case (Timestamp(x, _), Timestamp(y, _)) => x == y
    case _ => a == b
  }

  predicate SameScale(a: Kind, b: Kind) {
    a.Decimal? && b.Decimal? ==> a.scale == b.scale
  }

  datatype Ordering = Below | Same | Above

  ghost function OrderReals(a: real, b: real): Ordering {
    if a < b then Below else if a == b then Same else Above
  }

  function OrderText(a: string, b: string): Ordering {
    if a == [] then
      if b == [] then Same else Below
    else if b == [] then Above
    else if a[0] < b[0] then Below
    else if a[0] > b[0] then Above
    else OrderText(a[1..], b[1..])
  }

  /** Values of one variant are ordered by what they stand for; NULL and mixed types have no order. */
  ghost function Order(a: Scalar, b: Scalar): Option<Ordering> {
    match (a, b)
    case (Num(ka, Some(x)), Num(kb, Some(y))) =>
      if SameVariant(ka, kb) then Some(OrderReals(Magnitude(ka, x), Magnitude(kb, y))) else None
    case (Float(ba, Some(x)), Float(bb, Some(y))) =>
      if ba == bb then Some(OrderReals(x, y)) else None
    case (Text(Some(x)), Text(Some(y))) => Some(OrderText(x, y))
    case _ => None
  }

  function OrderSatisfies(op: CmpOp, r: Ordering): bool {
    match op
    case Equal => r.Same?
    case Less => r.Below?
    case Greater => r.Above?
    case LessEq => !r.Above?
    case GreaterEq => !r.Below?
  }

  ghost function CompareTruth(op: CmpOp, a: Scalar, b: Scalar): Truth {
    match Order(a, b)
    case None => Unknown
    case Some(r) => if OrderSatisfies(op, r) then True else False
  }

  datatype IndexCell = NullCell | NumberCell(n: nat) | HexCell(hex: string)

  /**
    A stored row: its plaintext cells by column name, the cast functions, the truth of the leaves
    that are opaque to the proxy, and the values of its index columns.
   */
  datatype Row<!E> = Row(cell: string -> Scalar, cast: (string, bool, Scalar) -> Scalar,
                         opaqueLeaf: Expr<E> -> Truth, indexCell: string -> IndexCell)

  function CellOf<E>(row: Row<E>, c: ColumnWithCast): Scalar {
    var s := row.cell(c.column.name);
    if c.castTo.None? then s else row.cast(c.castTo.value, c.orNull, s)
  }

  ghost function LeafTruth<E>(row: Row<E>, f: Expr<E>): Truth {
    match f
    case Compare(c, op, value) => CompareTruth(op, CellOf(row, c), value)
    case Between(c, low, high) =>
      And3(CompareTruth(GreaterEq, CellOf(row, c), low), CompareTruth(LessEq, CellOf(row, c), high))
    case InList(One(c), values) =>
      if exists x :: x in values && CompareTruth(Equal, CellOf(row, c), x) == True then True
      else if exists x :: x in values && CompareTruth(Equal, CellOf(row, c), x) == Unknown then Unknown
      else False
    case _ => row.opaqueLeaf(f)
  }

  ghost function RowTruth<E>(f: Expr<E>, row: Row<E>): Truth {
    Eval(f, g => LeafTruth(row, g))
  }

  /** `RowTruth` on connectives, without the valuation. */
  lemma RowTruthUnfolds<E>(f: Expr<E>, row: Row<E>)
    ensures RowTruth(f, row) ==
            match f
            case And(l, r) => And3(RowTruth(l, row), RowTruth(r, row))
            case Or(l, r) => Or3(RowTruth(l, row), RowTruth(r, row))
            case Not(x) => Not3(RowTruth(x, row))
            case _ => LeafTruth(row, f)
  {
  }
}

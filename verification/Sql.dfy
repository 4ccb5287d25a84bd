/** Conditions sent to the server, and their value on a stored row. */
module Sql {
  import opened Basics
  import opened Filter
  import opened Rows

  datatype Condition<E> =
    | SqlAnd(left: Condition<E>, right: Condition<E>)
    | SqlOr(left: Condition<E>, right: Condition<E>)
    | SqlNot(inner: Condition<E>)
    | SqlLeaf(leaf: Expr<E>)
    | BucketCompare(indexColumn: string, op: CmpOp, bucket: nat)
    | BucketBetween(indexColumn: string, low: nat, high: nat)
    | HexIn(indexColumn: string, hexes: set<string>)

  ghost function CompareBucket(op: CmpOp, c: IndexCell, n: nat): Truth {
    if !c.NumberCell? then Unknown
    else if OrderSatisfies(op, OrderReals(c.n as real, n as real)) then True
    else False
  }

  ghost function EvalSql<E>(e: Condition<E>, row: Row<E>): Truth {
    match e
    case SqlAnd(l, r) => And3(EvalSql(l, row), EvalSql(r, row))
    case SqlOr(l, r) => Or3(EvalSql(l, row), EvalSql(r, row))
    case SqlNot(x) => Not3(EvalSql(x, row))
    case SqlLeaf(f) => LeafTruth(row, f)
    case BucketCompare(c, op, n) => CompareBucket(op, row.indexCell(c), n)
    case BucketBetween(c, low, high) =>
      And3(CompareBucket(GreaterEq, row.indexCell(c), low), CompareBucket(LessEq, row.indexCell(c), high))
    case HexIn(c, hexes) =>
      var cell := row.indexCell(c);
      if !cell.HexCell? then Unknown else if cell.hex in hexes then True else False
  }

  /** A filter forwarded as it stands. Full-text matches have no SQL form. */
  function Forward<E>(f: Expr<E>): Result<Condition<E>> {
    match f
    case And(l, r) =>
      var a :- Forward(l);
      var b :- Forward(r);
      Ok(SqlAnd(a, b))
    case Or(l, r) =>
      var a :- Forward(l);
      var b :- Forward(r);
      Ok(SqlOr(a, b))
    case Not(x) =>
      var a :- Forward(x);
      Ok(SqlNot(a))
    case Match(_, _) => Err("not implemented: kw_match")
    case _ => Ok(SqlLeaf(f))
  }

  /** No full-text match occurs in the tree. */
  predicate MatchFree<E>(f: Expr<E>) {
    match f
    case And(l, r) => MatchFree(l) && MatchFree(r)
    case Or(l, r) => MatchFree(l) && MatchFree(r)
    case Not(x) => MatchFree(x)
    case Match(_, _) => false
    case _ => true
  }

  lemma {:induction false} ForwardsExactly<E>(f: Expr<E>)
    ensures Forward(f).Ok? <==> MatchFree(f)
  {
    if f.And? || f.Or? {
      ForwardsExactly(f.left);
      ForwardsExactly(f.right);
    } else if f.Not? {
      ForwardsExactly(f.inner);
    }
  }

  /** Forwarding keeps the truth value on every row. */
  lemma {:induction false} ForwardKeepsMeaning<E>(f: Expr<E>, row: Row<E>)
    requires Forward(f).Ok?
    ensures EvalSql(Forward(f).value, row) == RowTruth(f, row)
  {
    RowTruthUnfolds(f, row);
    match f
    case And(l, r) =>
      ForwardKeepsMeaning(l, row);
      ForwardKeepsMeaning(r, row);
    case Or(l, r) =>
      ForwardKeepsMeaning(l, row);
      ForwardKeepsMeaning(r, row);
    case Not(x) =>
      ForwardKeepsMeaning(x, row);
    case _ =>
  }
}

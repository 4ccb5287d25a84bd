/**
  The filter tree of a WHERE clause, SQL's three truth values, and the split of a tree into a part
  that a backend can evaluate and a remainder.
 */
module Filter {
  import opened Basics

  // ----- SQL truth values -----

  datatype Truth = False | Unknown | True

  function Rank(t: Truth): nat {
    match t
    case False => 0
    case Unknown => 1
    case True => 2
  }

  /** The truth order: False below Unknown below True. */
  predicate Leq(a: Truth, b: Truth) {
    Rank(a) <= Rank(b)
  }

  function And3(a: Truth, b: Truth): Truth {
    if Leq(a, b) then a else b
  }

  function Or3(a: Truth, b: Truth): Truth {
    if Leq(a, b) then b else a
  }

  function Not3(a: Truth): Truth {
    match a
    case False => True
    case Unknown => Unknown
    case True => False
  }

  // ----- The filter tree -----

  datatype CmpOp = Equal | Greater | Less | LessEq | GreaterEq

  datatype TimeUnit = Second | Millisecond | Microsecond | Nanosecond

  /** Types whose values are stored as one integer. Timestamps count from the epoch in UTC, whatever their zone. */
  datatype Kind =
    | Signed(bits: nat)
    | Unsigned(bits: nat)
    | Decimal(bits: nat, precision: nat, scale: int)
    | Date(bits: nat)
    | Time(bits: nat, unit: TimeUnit)
    | Timestamp(unit: TimeUnit, zone: Option<string>)

  /** Literals and cells. An absent payload is a typed NULL. */
  datatype Scalar =
    | Num(kind: Kind, raw: Option<int>)
    | Float(bits: nat, number: Option<real>)
    | Text(text: Option<string>)
    | OtherScalar(typeName: string)

  datatype Column = Column(relation: Option<string>, name: string)

  datatype ColumnWithCast = ColumnWithCast(column: Column, castTo: Option<string>, orNull: bool)

  datatype ColumnOrTuple = One(col: ColumnWithCast) | Tuple(cols: seq<ColumnWithCast>)

  datatype Expr<E> =
    | And(left: Expr<E>, right: Expr<E>)
    | Or(left: Expr<E>, right: Expr<E>)
    | Not(inner: Expr<E>)
    | Compare(col: ColumnWithCast, op: CmpOp, value: Scalar)
    | Between(col: ColumnWithCast, low: Scalar, high: Scalar)
    | InList(target: ColumnOrTuple, values: set<Scalar>)
    | Like(col: ColumnWithCast, pattern: string)
    | Match(columns: seq<Column>, search: string)
    | Other(expr: E)

  predicate IsLeaf<E>(f: Expr<E>) {
    !f.And? && !f.Or? && !f.Not?
  }

  /** A truth value for every leaf. */
  type Valuation<!E> = Expr<E> -> Truth

  function Eval<E>(f: Expr<E>, v: Valuation<E>): Truth {
    match f
    case And(l, r) => And3(Eval(l, v), Eval(r, v))
    case Or(l, r) => Or3(Eval(l, v), Eval(r, v))
    case Not(x) => Not3(Eval(x, v))
    case _ => v(f)
  }

  /** A missing filter restricts nothing. */
  function EvalOption<E>(f: Option<Expr<E>>, v: Valuation<E>): Truth {
    match f
    case None => True
    case Some(g) => Eval(g, v)
  }

  // ----- Splitting -----

  datatype Support<!E> = Support(supportsNot: bool, supportsOr: bool, isSupported: Expr<E> -> bool)

  datatype Parts<E> = Parts(supported: Option<Expr<E>>, unsupported: Option<Expr<E>>) {
    predicate Mixed() {
      supported.Some? && unsupported.Some?
    }
  }

  datatype Connective = Conjunction | Disjunction

  function Join<E>(c: Connective, l: Expr<E>, r: Expr<E>): Expr<E> {
    match c
    case Conjunction => And(l, r)
    case Disjunction => Or(l, r)
  }

  function Recombine<E>(l: Option<Expr<E>>, r: Option<Expr<E>>, c: Connective): Option<Expr<E>> {
    match (l, r)
    case (Some(a), Some(b)) => Some(Join(c, a, b))
    case (Some(a), None) => l
    case (None, _) => r
  }

  function Negate<E>(f: Option<Expr<E>>): Option<Expr<E>> {
    match f
    case None => None
    case Some(g) => Some(Not(g))
  }

  /** The OR case of the split, given the parts of both branches. */
  function SplitOr<E>(l: Parts<E>, r: Parts<E>): Parts<E> {
    if (l.supported.Some? && r.supported.Some? && l.unsupported.None? && r.unsupported.None?)
       || (l.supported.None? && r.supported.None? && l.unsupported.Some? && r.unsupported.Some?)
    then
      Parts(Recombine(l.supported, r.supported, Disjunction),
            Recombine(l.unsupported, r.unsupported, Disjunction))
    else if l.unsupported.None? then
      Parts(Recombine(l.supported, r.supported, Disjunction),
            Recombine(l.supported, r.unsupported, Disjunction))
    else if r.unsupported.None? then
      Parts(Recombine(l.supported, r.supported, Disjunction),
            Recombine(l.unsupported, r.supported, Disjunction))
    else
      Parts(None,
            Recombine(Recombine(l.supported, l.unsupported, Conjunction),
                      Recombine(r.supported, r.unsupported, Conjunction),
                      Disjunction))
  }

  /**
    Splits a tree into a conjunction of a supported and an unsupported tree.
    Something always remains, and a split without an unsupported part forwards the tree unchanged.
   */
  function Split<E>(f: Expr<E>, o: Support<E>): (p: Parts<E>)
    ensures p.supported.Some? || p.unsupported.Some?
    ensures p.unsupported.None? ==> p.supported == Some(f)
  {
    if o.isSupported(f) then
      Parts(Some(f), None)
    else if f.And? then
      var l, r := Split(f.left, o), Split(f.right, o);
      Parts(Recombine(l.supported, r.supported, Conjunction),
            Recombine(l.unsupported, r.unsupported, Conjunction))
    else if f.Or? && o.supportsOr then
      SplitOr(Split(f.left, o), Split(f.right, o))
    else if f.Not? && o.supportsNot then
      var x := Split(f.inner, o);
      Parts(Negate(x.supported), Negate(x.unsupported))
    else
      Parts(None, Some(f))
  }

  // ----- What the supported part is made of -----

  /** `f` is built from accepted trees, joined only by connectives the options allow. */
  predicate BuiltFromAccepted<E>(f: Expr<E>, o: Support<E>) {
    || o.isSupported(f)
    || (f.And? && BuiltFromAccepted(f.left, o) && BuiltFromAccepted(f.right, o))
    || (f.Or? && o.supportsOr && BuiltFromAccepted(f.left, o) && BuiltFromAccepted(f.right, o))
    || (f.Not? && o.supportsNot && BuiltFromAccepted(f.inner, o))
  }

  lemma {:induction false} SupportedPartIsAccepted<E>(f: Expr<E>, o: Support<E>)
    ensures Split(f, o).supported.Some? ==> BuiltFromAccepted(Split(f, o).supported.value, o)
  {
    if o.isSupported(f) {
    } else if f.And? || (f.Or? && o.supportsOr) {
      SupportedPartIsAccepted(f.left, o);
      SupportedPartIsAccepted(f.right, o);
    } else if f.Not? && o.supportsNot {
      SupportedPartIsAccepted(f.inner, o);
    }
  }
}

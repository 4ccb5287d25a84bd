/**
  Which of the two parts of a split bounds the original filter, and when.

  Write S and U for the supported and the unsupported part of the split of `f`. Six bounds are
  closed under the cases of the split. Each is decided from the shape of the tree by `Holds`. When
  it holds the inequality is true of every valuation; when it does not, and no leaf occurs twice,
  some valuation breaks it.
 */
module SplitBounds {
  import opened Basics
  import opened Filter

  datatype Bound =
    | KeepsS           // f <= S
    | WithinS          // S <= f
    | KeepsU           // f <= U
    | WithinU          // U <= f
    | WithinBoth       // S and U <= f
    | CoveredByEither  // f <= S or U

  /** Left side of the inequality; an absent part makes a one-part bound vacuous. */
  function Lower<E>(k: Bound, f: Expr<E>, p: Parts<E>, v: Valuation<E>): Truth {
    match k
    case KeepsS | KeepsU | CoveredByEither => Eval(f, v)
    case WithinS => if p.supported.None? then False else Eval(p.supported.value, v)
    case WithinU => if p.unsupported.None? then False else Eval(p.unsupported.value, v)
    case WithinBoth => And3(EvalOption(p.supported, v), EvalOption(p.unsupported, v))
  }

  /** Right side of the inequality. */
  function Upper<E>(k: Bound, f: Expr<E>, p: Parts<E>, v: Valuation<E>): Truth {
    match k
    case WithinS | WithinU | WithinBoth => Eval(f, v)
    case KeepsS => EvalOption(p.supported, v)
    case KeepsU => EvalOption(p.unsupported, v)
    case CoveredByEither =>
      Or3(if p.supported.None? then False else Eval(p.supported.value, v),
          if p.unsupported.None? then False else Eval(p.unsupported.value, v))
  }

  // ----- Deciding a bound from the shape of the tree -----

  predicate Holds<E>(k: Bound, f: Expr<E>, o: Support<E>)
    decreases f, 1
  {
    if o.isSupported(f) then true
    else if f.And? then HoldsAnd(k, f, o)
    else if f.Or? && o.supportsOr then HoldsOr(k, f, o)
    else if f.Not? && o.supportsNot then Holds(Dual(k), f.inner, o)
    else true
  }

  /** Negation turns each bound into another one. */
  function Dual(k: Bound): Bound {
    match k
    case KeepsS => WithinS
    case WithinS => KeepsS
    case KeepsU => WithinU
    case WithinU => KeepsU
    case WithinBoth => CoveredByEither
    case CoveredByEither => WithinBoth
  }

  predicate HoldsAnd<E>(k: Bound, f: Expr<E>, o: Support<E>)
    requires f.And?
    decreases f, 0
  {
    var l, r := Split(f.left, o), Split(f.right, o);
    match k
    case KeepsS | KeepsU | WithinBoth => Holds(k, f.left, o) && Holds(k, f.right, o)
    case WithinS =>
      || (l.supported.None? && r.supported.None?)
      || (l.supported.Some? && r.supported.Some? && Holds(k, f.left, o) && Holds(k, f.right, o))
    case WithinU =>
      || (l.unsupported.None? && r.unsupported.None?)
      || (l.unsupported.Some? && r.unsupported.Some? && Holds(k, f.left, o) && Holds(k, f.right, o))
    case CoveredByEither =>
      if l.supported.None? && r.supported.None? then
        Holds(KeepsU, f.left, o) && Holds(KeepsU, f.right, o)
      else if l.unsupported.None? && r.unsupported.None? then
        true
      else
        && (l.Mixed() ==> Holds(k, f.left, o))
        && (r.Mixed() ==> Holds(k, f.right, o))
        && (Holds(KeepsS, f.left, o) || Holds(KeepsU, f.right, o))
        && (Holds(KeepsU, f.left, o) || Holds(KeepsS, f.right, o))
  }

  predicate HoldsOr<E>(k: Bound, f: Expr<E>, o: Support<E>)
    requires f.Or?
    decreases f, 0
  {
    var l, r := Split(f.left, o), Split(f.right, o);
    if l.unsupported.None? && r.unsupported.None? then
      true
    else if l.supported.None? && r.supported.None? then
      Holds(OneSided(k), f.left, o) && Holds(OneSided(k), f.right, o)
    else if l.unsupported.None? then
      HoldsOrBeside(k, f.right, r, o)
    else if r.unsupported.None? then
      HoldsOrBeside(k, f.left, l, o)
    else
      match k
      case KeepsS | WithinS => true
      case KeepsU | CoveredByEither =>
        && Holds(KeepsS, f.left, o) && Holds(KeepsU, f.left, o)
        && Holds(KeepsS, f.right, o) && Holds(KeepsU, f.right, o)
      case WithinU | WithinBoth => Holds(WithinBoth, f.left, o) && Holds(WithinBoth, f.right, o)
  }

  /** What a bound amounts to when there is no supported part. */
  function OneSided(k: Bound): Bound {
    match k
    case WithinBoth => WithinU
    case CoveredByEither => KeepsU
    case _ => k
  }

  /** OR of a wholly supported branch with the branch `g`, whose parts are `p`. */
  predicate HoldsOrBeside<E>(k: Bound, g: Expr<E>, p: Parts<E>, o: Support<E>)
    decreases g, 2
  {
    if p.supported.None? then
      match k
      case KeepsS => false  // the supported branch alone is forwarded
      case WithinS | WithinBoth => true
      case KeepsU | CoveredByEither => Holds(KeepsU, g, o)
      case WithinU => Holds(WithinU, g, o)
    else
      Holds(k, g, o)
  }

  // ----- The bounds are true where they hold -----

  ghost predicate Bounded<E>(k: Bound, f: Expr<E>, o: Support<E>, v: Valuation<E>) {
    Holds(k, f, o) ==> Leq(Lower(k, f, Split(f, o), v), Upper(k, f, Split(f, o), v))
  }

  ghost predicate AllBounded<E>(f: Expr<E>, o: Support<E>, v: Valuation<E>) {
    && Bounded(KeepsS, f, o, v) && Bounded(WithinS, f, o, v)
    && Bounded(KeepsU, f, o, v) && Bounded(WithinU, f, o, v)
    && Bounded(WithinBoth, f, o, v) && Bounded(CoveredByEither, f, o, v)
  }

  lemma BoundedAnd<E>(k: Bound, f: Expr<E>, o: Support<E>, v: Valuation<E>)
    requires f.And? && !o.isSupported(f)
    requires AllBounded(f.left, o, v) && AllBounded(f.right, o, v)
    ensures Bounded(k, f, o, v)
  {
    var l, r, p := Split(f.left, o), Split(f.right, o), Split(f, o);
    assert Holds(k, f, o) == HoldsAnd(k, f, o);
    assert EvalOption(p.supported, v) == And3(EvalOption(l.supported, v), EvalOption(r.supported, v));
    assert EvalOption(p.unsupported, v) == And3(EvalOption(l.unsupported, v), EvalOption(r.unsupported, v));
  }

  /** OR of a wholly supported branch of value `s` with the branch `g`. */
  lemma BoundedBeside<E>(k: Bound, f: Expr<E>, q: Parts<E>, s: Truth, g: Expr<E>, o: Support<E>, v: Valuation<E>)
    requires Split(g, o).unsupported.Some? && q.Mixed()
    requires AllBounded(g, o, v)
    requires Eval(f, v) == Or3(s, Eval(g, v))
    requires Eval(q.supported.value, v)
          == if Split(g, o).supported.None? then s else Or3(s, Eval(Split(g, o).supported.value, v))
    requires Eval(q.unsupported.value, v) == Or3(s, Eval(Split(g, o).unsupported.value, v))
    ensures HoldsOrBeside(k, g, Split(g, o), o) ==> Leq(Lower(k, f, q, v), Upper(k, f, q, v))
  {
  }

  /** Neither branch has a supported part. */
  lemma BoundedOrUnsupported<E>(k: Bound, f: Expr<E>, o: Support<E>, v: Valuation<E>)
    requires f.Or? && AllBounded(f.left, o, v) && AllBounded(f.right, o, v)
    requires Split(f.left, o).supported.None? && Split(f.right, o).supported.None?
    requires Holds(OneSided(k), f.left, o) && Holds(OneSided(k), f.right, o)
    ensures var p := SplitOr(Split(f.left, o), Split(f.right, o));
            Leq(Lower(k, f, p, v), Upper(k, f, p, v))
  {
  }

  /** Neither branch is wholly supported and one of them is mixed: nothing is supported. */
  lemma BoundedOrMixed<E>(k: Bound, f: Expr<E>, o: Support<E>, v: Valuation<E>)
    requires f.Or? && AllBounded(f.left, o, v) && AllBounded(f.right, o, v)
    requires Split(f.left, o).unsupported.Some? && Split(f.right, o).unsupported.Some?
    requires Split(f.left, o).supported.Some? || Split(f.right, o).supported.Some?
    requires HoldsOr(k, f, o)
    ensures var p := SplitOr(Split(f.left, o), Split(f.right, o));
            Leq(Lower(k, f, p, v), Upper(k, f, p, v))
  {
    var l, r := Split(f.left, o), Split(f.right, o);
    assert Eval(SplitOr(l, r).unsupported.value, v)
        == Or3(And3(EvalOption(l.supported, v), EvalOption(l.unsupported, v)),
               And3(EvalOption(r.supported, v), EvalOption(r.unsupported, v)));
  }

  lemma BoundedOr<E>(k: Bound, f: Expr<E>, o: Support<E>, v: Valuation<E>)
    requires f.Or? && !o.isSupported(f) && o.supportsOr
    requires AllBounded(f.left, o, v) && AllBounded(f.right, o, v)
    requires HoldsOr(k, f, o)
    ensures var p := SplitOr(Split(f.left, o), Split(f.right, o));
            Leq(Lower(k, f, p, v), Upper(k, f, p, v))
  {
    var l, r := Split(f.left, o), Split(f.right, o);
    if l.unsupported.None? && r.unsupported.None? {
    } else if l.supported.None? && r.supported.None? {
      BoundedOrUnsupported(k, f, o, v);
    } else if l.unsupported.None? {
      BoundedBeside(k, f, SplitOr(l, r), Eval(f.left, v), f.right, o, v);
    } else if r.unsupported.None? {
      BoundedBeside(k, f, SplitOr(l, r), Eval(f.right, v), f.left, o, v);
    } else {
      BoundedOrMixed(k, f, o, v);
    }
  }

  /** On every tree and every valuation, three-valued ones included, a bound that holds is true. */
  lemma {:induction false} BoundsAreTrue<E>(f: Expr<E>, o: Support<E>, v: Valuation<E>)
    ensures AllBounded(f, o, v)
  {
    if o.isSupported(f) {
    } else if f.And? {
      BoundsAreTrue(f.left, o, v);
      BoundsAreTrue(f.right, o, v);
      forall k: Bound { BoundedAnd(k, f, o, v); }
    } else if f.Or? && o.supportsOr {
      BoundsAreTrue(f.left, o, v);
      BoundsAreTrue(f.right, o, v);
      forall k: Bound | HoldsOr(k, f, o)
        ensures Bounded(k, f, o, v)
      {
        BoundedOr(k, f, o, v);
      }
    } else if f.Not? && o.supportsNot {
      BoundsAreTrue(f.inner, o, v);
    }
  }
}

/**
  The bounds of `SplitBounds` are exact: on a tree in which no leaf occurs twice, a bound that does
  not hold is broken by some valuation. From this follow the exact conditions under which the
  supported part is true wherever the tree is, and under which the two parts together mean the tree,
  for leaves that can take any truth values. `SplitRows` carries this over to rows.
 */
module SplitExact {
  import opened Basics
  import opened Filter
  import opened SplitBounds

  ghost function Leaves<E>(f: Expr<E>): set<Expr<E>> {
    match f
    case And(l, r) => Leaves(l) + Leaves(r)
    case Or(l, r) => Leaves(l) + Leaves(r)
    case Not(x) => Leaves(x)
    case _ => {f}
  }

  /** No leaf occurs in two places. */
  ghost predicate ReadOnce<E>(f: Expr<E>) {
    match f
    case And(l, r) => ReadOnce(l) && ReadOnce(r) && Leaves(l) !! Leaves(r)
    case Or(l, r) => ReadOnce(l) && ReadOnce(r) && Leaves(l) !! Leaves(r)
    case Not(x) => ReadOnce(x)
    case _ => true
  }

  // ----- Valuations of disjoint trees can be chosen independently -----

  lemma {:induction false} EvalReadsLeaves<E>(f: Expr<E>, v: Valuation<E>, w: Valuation<E>)
    requires forall x | x in Leaves(f) :: v(x) == w(x)
    ensures Eval(f, v) == Eval(f, w)
  {
    match f
    case And(l, r) =>
      EvalReadsLeaves(l, v, w);
      EvalReadsLeaves(r, v, w);
    case Or(l, r) =>
      EvalReadsLeaves(l, v, w);
      EvalReadsLeaves(r, v, w);
    case Not(x) =>
      EvalReadsLeaves(x, v, w);
    case _ =>
      assert f in Leaves(f);
  }

  ghost function OptionLeaves<E>(f: Option<Expr<E>>): set<Expr<E>> {
    if f.None? then {} else Leaves(f.value)
  }

  lemma RecombineLeaves<E>(l: Option<Expr<E>>, r: Option<Expr<E>>, c: Connective)
    ensures OptionLeaves(Recombine(l, r, c)) == OptionLeaves(l) + OptionLeaves(r)
  {
  }

  lemma {:induction false} PartLeaves<E>(f: Expr<E>, o: Support<E>)
    ensures OptionLeaves(Split(f, o).supported) <= Leaves(f)
    ensures OptionLeaves(Split(f, o).unsupported) <= Leaves(f)
  {
    if o.isSupported(f) {
    } else if f.And? || (f.Or? && o.supportsOr) {
      PartLeaves(f.left, o);
      PartLeaves(f.right, o);
      var l, r := Split(f.left, o), Split(f.right, o);
      forall a: Option<Expr<E>>, b: Option<Expr<E>>, c: Connective { RecombineLeaves(a, b, c); }
    } else if f.Not? && o.supportsNot {
      PartLeaves(f.inner, o);
    }
  }

  ghost predicate SameOn<E>(f: Expr<E>, o: Support<E>, v: Valuation<E>, w: Valuation<E>) {
    && Eval(f, v) == Eval(f, w)
    && EvalOption(Split(f, o).supported, v) == EvalOption(Split(f, o).supported, w)
    && EvalOption(Split(f, o).unsupported, v) == EvalOption(Split(f, o).unsupported, w)
  }

  lemma SameLeavesSame<E>(f: Expr<E>, o: Support<E>, v: Valuation<E>, w: Valuation<E>)
    requires forall x | x in Leaves(f) :: v(x) == w(x)
    ensures SameOn(f, o, v, w)
  {
    PartLeaves(f, o);
    var p := Split(f, o);
    EvalReadsLeaves(f, v, w);
    if p.supported.Some? { EvalReadsLeaves(p.supported.value, v, w); }
    if p.unsupported.Some? { EvalReadsLeaves(p.unsupported.value, v, w); }
  }

  lemma Merge<E>(l: Expr<E>, r: Expr<E>, o: Support<E>, vl: Valuation<E>, vr: Valuation<E>)
    returns (v: Valuation<E>)
    requires Leaves(l) !! Leaves(r)
    ensures SameOn(l, o, v, vl) && SameOn(r, o, v, vr)
  {
    var leftLeaves := Leaves(l);
    v := x => if x in leftLeaves then vl(x) else vr(x);
    SameLeavesSame(l, o, v, vl);
    SameLeavesSame(r, o, v, vr);
  }

  /** The tree and both its parts take the value `t`. */
  ghost predicate Uniformly<E>(f: Expr<E>, o: Support<E>, v: Valuation<E>, t: Truth) {
    && Eval(f, v) == t
    && (Split(f, o).supported.Some? ==> Eval(Split(f, o).supported.value, v) == t)
    && (Split(f, o).unsupported.Some? ==> Eval(Split(f, o).unsupported.value, v) == t)
  }

  /** Parts keep the polarity of every leaf, so one valuation settles the tree and both parts. */
  lemma {:induction false} Uniform<E>(f: Expr<E>, o: Support<E>, t: Truth) returns (v: Valuation<E>)
    requires ReadOnce(f)
    ensures Uniformly(f, o, v, t)
  {
    match f
    case And(l, r) =>
      var vl := Uniform(l, o, t);
      var vr := Uniform(r, o, t);
      v := Merge(l, r, o, vl, vr);
    case Or(l, r) =>
      var vl := Uniform(l, o, t);
      var vr := Uniform(r, o, t);
      v := Merge(l, r, o, vl, vr);
    case Not(x) =>
      v := Uniform(x, o, Not3(t));
    case _ =>
      v := x => t;
  }

  // ----- A bound that does not hold is broken -----

  ghost predicate Broken<E>(k: Bound, f: Expr<E>, o: Support<E>, v: Valuation<E>) {
    Lower(k, f, Split(f, o), v) == True && Upper(k, f, Split(f, o), v) == False
  }

  lemma {:induction false} Refute<E>(k: Bound, f: Expr<E>, o: Support<E>) returns (v: Valuation<E>)
    requires ReadOnce(f) && !Holds(k, f, o)
    ensures Broken(k, f, o, v)
    decreases f, 1
  {
    if f.And? {
      v := RefuteAnd(k, f, o);
    } else if f.Or? {
      v := RefuteOr(k, f, o);
    } else {
      v := Refute(Dual(k), f.inner, o);
    }
  }

  /** Breaks a bound of `g` while the disjoint tree `h` and its parts stay at `t`. */
  lemma {:induction false} RefuteBeside<E>(k: Bound, g: Expr<E>, h: Expr<E>, o: Support<E>, t: Truth)
    returns (v: Valuation<E>)
    requires ReadOnce(g) && ReadOnce(h) && Leaves(g) !! Leaves(h) && !Holds(k, g, o)
    ensures Broken(k, g, o, v) && Uniformly(h, o, v, t)
    decreases g, 2
  {
    var vg := Refute(k, g, o);
    var vh := Uniform(h, o, t);
    v := Merge(g, h, o, vg, vh);
  }

  lemma UniformBeside<E>(g: Expr<E>, t: Truth, h: Expr<E>, u: Truth, o: Support<E>) returns (v: Valuation<E>)
    requires ReadOnce(g) && ReadOnce(h) && Leaves(g) !! Leaves(h)
    ensures Uniformly(g, o, v, t) && Uniformly(h, o, v, u)
  {
    var vg := Uniform(g, o, t);
    var vh := Uniform(h, o, u);
    v := Merge(g, h, o, vg, vh);
  }

  lemma {:induction false} RefuteAnd<E>(k: Bound, f: Expr<E>, o: Support<E>) returns (v: Valuation<E>)
    requires f.And? && ReadOnce(f) && !Holds(k, f, o)
    ensures Broken(k, f, o, v)
    decreases f, 0
  {
    var l, r := Split(f.left, o), Split(f.right, o);
    match k
    case KeepsS | KeepsU | WithinBoth =>
      if !Holds(k, f.left, o) {
        v := RefuteBeside(k, f.left, f.right, o, True);
      } else {
        v := RefuteBeside(k, f.right, f.left, o, True);
      }
    case WithinS =>
      if l.supported.None? {
        v := UniformBeside(f.left, False, f.right, True, o);
      } else if r.supported.None? {
        v := UniformBeside(f.left, True, f.right, False, o);
      } else if !Holds(k, f.left, o) {
        v := RefuteBeside(k, f.left, f.right, o, True);
      } else {
        v := RefuteBeside(k, f.right, f.left, o, True);
      }
    case WithinU =>
      if l.unsupported.None? {
        v := UniformBeside(f.left, False, f.right, True, o);
      } else if r.unsupported.None? {
        v := UniformBeside(f.left, True, f.right, False, o);
      } else if !Holds(k, f.left, o) {
        v := RefuteBeside(k, f.left, f.right, o, True);
      } else {
        v := RefuteBeside(k, f.right, f.left, o, True);
      }
    case CoveredByEither =>
      v := RefuteAndCovered(f, o);
  }

  lemma {:induction false} RefuteAndCovered<E>(f: Expr<E>, o: Support<E>) returns (v: Valuation<E>)
    requires f.And? && ReadOnce(f) && !o.isSupported(f) && !HoldsAnd(CoveredByEither, f, o)
    ensures Broken(CoveredByEither, f, o, v)
    decreases f, 0, 0
  {
    var l, r := Split(f.left, o), Split(f.right, o);
    var k := if l.supported.None? && r.supported.None? then KeepsU else CoveredByEither;
    if !Holds(k, f.left, o) && (k == KeepsU || l.Mixed()) {
      v := RefuteBeside(k, f.left, f.right, o, True);
    } else if !Holds(k, f.right, o) && (k == KeepsU || r.Mixed()) {
      v := RefuteBeside(k, f.right, f.left, o, True);
    } else {
      var kl, kr := KeepsS, KeepsU;
      if Holds(KeepsS, f.left, o) || Holds(KeepsU, f.right, o) {
        kl, kr := KeepsU, KeepsS;
      }
      var vl := Refute(kl, f.left, o);
      var vr := Refute(kr, f.right, o);
      v := Merge(f.left, f.right, o, vl, vr);
    }
  }

  lemma {:induction false} RefuteOr<E>(k: Bound, f: Expr<E>, o: Support<E>) returns (v: Valuation<E>)
    requires f.Or? && ReadOnce(f) && !Holds(k, f, o)
    ensures Broken(k, f, o, v)
    decreases f, 0
  {
    var l, r := Split(f.left, o), Split(f.right, o);
    if l.supported.None? && r.supported.None? {
      if !Holds(OneSided(k), f.left, o) {
        v := RefuteBeside(OneSided(k), f.left, f.right, o, False);
      } else {
        v := RefuteBeside(OneSided(k), f.right, f.left, o, False);
      }
    } else if l.unsupported.None? {
      v := RefuteOrBeside(k, f.right, f.left, o);
    } else if r.unsupported.None? {
      v := RefuteOrBeside(k, f.left, f.right, o);
    } else {
      v := RefuteOrMixed(k, f, o);
    }
  }

  /** The branch `h` is wholly supported, the branch `g` is not. */
  lemma {:induction false} RefuteOrBeside<E>(k: Bound, g: Expr<E>, h: Expr<E>, o: Support<E>)
    returns (v: Valuation<E>)
    requires ReadOnce(g) && ReadOnce(h) && Leaves(g) !! Leaves(h)
    requires Split(g, o).unsupported.Some?
    requires !HoldsOrBeside(k, g, Split(g, o), o)
    ensures if k == KeepsS && Split(g, o).supported.None?
            then Uniformly(h, o, v, False) && Uniformly(g, o, v, True)
            else Uniformly(h, o, v, False) && Broken(if Split(g, o).supported.None? then OneSided(k) else k, g, o, v)
    decreases g, 3
  {
    if Split(g, o).supported.None? {
      if k == KeepsS {
        v := UniformBeside(h, False, g, True, o);
      } else {
        v := RefuteBeside(OneSided(k), g, h, o, False);
      }
    } else {
      v := RefuteBeside(k, g, h, o, False);
    }
  }

  /** Neither branch is wholly supported and one of them is mixed. */
  lemma {:induction false} RefuteOrMixed<E>(k: Bound, f: Expr<E>, o: Support<E>) returns (v: Valuation<E>)
    requires f.Or? && ReadOnce(f) && !Holds(k, f, o)
    requires Split(f.left, o).unsupported.Some? && Split(f.right, o).unsupported.Some?
    requires Split(f.left, o).supported.Some? || Split(f.right, o).supported.Some?
    ensures Broken(k, f, o, v)
    decreases f, 0, 0
  {
    var kl := if k.WithinU? || k.WithinBoth? then WithinBoth else if !Holds(KeepsS, f.left, o) then KeepsS else KeepsU;
    var kr := if k.WithinU? || k.WithinBoth? then WithinBoth else if !Holds(KeepsS, f.right, o) then KeepsS else KeepsU;
    assert Holds(k, f, o) == HoldsOr(k, f, o);
    if !Holds(kl, f.left, o) {
      v := RefuteBeside(kl, f.left, f.right, o, False);
    } else {
      v := RefuteBeside(kr, f.right, f.left, o, False);
    }
    var l, r, p := Split(f.left, o), Split(f.right, o), Split(f, o);
    assert p == SplitOr(l, r);
    assert Eval(p.unsupported.value, v)
        == Or3(And3(EvalOption(l.supported, v), EvalOption(l.unsupported, v)),
               And3(EvalOption(r.supported, v), EvalOption(r.unsupported, v)));
  }

  // ----- The exact conditions -----

  ghost predicate KeepsTrue<E(!new)>(f: Expr<E>, o: Support<E>) {
    forall v: Valuation<E> | Eval(f, v) == True :: EvalOption(Split(f, o).supported, v) == True
  }

  ghost predicate KeepsMeaning<E(!new)>(f: Expr<E>, o: Support<E>) {
    forall v: Valuation<E> ::
      And3(EvalOption(Split(f, o).supported, v), EvalOption(Split(f, o).unsupported, v)) == Eval(f, v)
  }

  /** The stated contract, of valuations: the supported part is true wherever the tree is. */
  lemma SupersetExactly<E(!new)>(f: Expr<E>, o: Support<E>)
    ensures Holds(KeepsS, f, o) ==> KeepsTrue(f, o)
    ensures ReadOnce(f) ==> (KeepsTrue(f, o) <==> Holds(KeepsS, f, o))
  {
    if Holds(KeepsS, f, o) {
      forall v: Valuation<E> | Eval(f, v) == True
        ensures EvalOption(Split(f, o).supported, v) == True
      {
        BoundsAreTrue(f, o, v);
      }
    } else if ReadOnce(f) {
      var v := Refute(KeepsS, f, o);
      assert Eval(f, v) == True;
    }
  }

  predicate MeaningKept<E>(f: Expr<E>, o: Support<E>) {
    Holds(KeepsS, f, o) && Holds(KeepsU, f, o) && Holds(WithinBoth, f, o)
  }

  /** Supported AND unsupported has the truth value of the tree, Unknown included. */
  lemma MeaningExactly<E(!new)>(f: Expr<E>, o: Support<E>)
    ensures MeaningKept(f, o) ==> KeepsMeaning(f, o)
    ensures ReadOnce(f) ==> (KeepsMeaning(f, o) <==> MeaningKept(f, o))
  {
    if MeaningKept(f, o) {
      forall v: Valuation<E>
        ensures And3(EvalOption(Split(f, o).supported, v), EvalOption(Split(f, o).unsupported, v)) == Eval(f, v)
      {
        BoundsAreTrue(f, o, v);
      }
    } else if ReadOnce(f) {
      var k := if !Holds(KeepsS, f, o) then KeepsS else if !Holds(KeepsU, f, o) then KeepsU else WithinBoth;
      var v := Refute(k, f, o);
      assert And3(EvalOption(Split(f, o).supported, v), EvalOption(Split(f, o).unsupported, v)) != Eval(f, v);
    }
  }

  // ----- Shapes -----

  /** No OR joins a wholly supported with a wholly unsupported branch; no supported NOT covers a mixed tree. */
  predicate SplitSafe<E>(f: Expr<E>, o: Support<E>) {
    if o.isSupported(f) then true
    else if f.And? then SplitSafe(f.left, o) && SplitSafe(f.right, o)
    else if f.Or? && o.supportsOr then
      var l, r := Split(f.left, o), Split(f.right, o);
      && SplitSafe(f.left, o) && SplitSafe(f.right, o)
      && (l.unsupported.None? ==> r.supported.Some?)
      && (r.unsupported.None? ==> l.supported.Some?)
    else if f.Not? && o.supportsNot then SplitSafe(f.inner, o) && !Split(f.inner, o).Mixed()
    else true
  }

  /** What a safe shape guarantees: the meaning is kept, and every bound holds of a one-sided split. */
  ghost predicate Guaranteed<E>(f: Expr<E>, o: Support<E>) {
    && MeaningKept(f, o)
    && (!Split(f, o).Mixed() ==>
          Holds(WithinS, f, o) && Holds(WithinU, f, o) && Holds(CoveredByEither, f, o))
  }

  lemma SafeOr<E>(k: Bound, f: Expr<E>, o: Support<E>)
    requires f.Or? && o.supportsOr && SplitSafe(f, o) && !o.isSupported(f)
    requires Guaranteed(f.left, o) && Guaranteed(f.right, o)
    requires k.KeepsS? || k.KeepsU? || k.WithinBoth? || !Split(f, o).Mixed()
    ensures HoldsOr(k, f, o)
  {
    var l, r := Split(f.left, o), Split(f.right, o);
    assert Split(f, o) == SplitOr(l, r);
  }

  lemma {:induction false} SafeShapesKeepMeaning<E>(f: Expr<E>, o: Support<E>)
    requires SplitSafe(f, o)
    ensures Guaranteed(f, o)
  {
    if o.isSupported(f) {
    } else if f.And? {
      SafeShapesKeepMeaning(f.left, o);
      SafeShapesKeepMeaning(f.right, o);
      assert forall k: Bound :: Holds(k, f, o) == HoldsAnd(k, f, o);
    } else if f.Or? && o.supportsOr {
      SafeShapesKeepMeaning(f.left, o);
      SafeShapesKeepMeaning(f.right, o);
      forall k: Bound | k.KeepsS? || k.KeepsU? || k.WithinBoth? || !Split(f, o).Mixed()
        ensures Holds(k, f, o)
      {
        SafeOr(k, f, o);
      }
    } else if f.Not? && o.supportsNot {
      SafeShapesKeepMeaning(f.inner, o);
    }
  }

  /** One of the two is wholly supported, the other wholly unsupported. */
  predicate OneOfEach<E>(f: Expr<E>, g: Expr<E>, o: Support<E>) {
    var l, r := Split(f, o), Split(g, o);
    (l.unsupported.None? && r.supported.None?) || (l.supported.None? && r.unsupported.None?)
  }

  function SupportedOne<E>(f: Expr<E>, g: Expr<E>, o: Support<E>): Expr<E> {
    if Split(f, o).unsupported.None? then f else g
  }

  /** An OR of a wholly supported and a wholly unsupported branch breaks the contract. */
  lemma OrOfBothKindsIsUnsafe<E(!new)>(f: Expr<E>, o: Support<E>)
    requires f.Or? && ReadOnce(f) && o.supportsOr && !o.isSupported(f)
    requires OneOfEach(f.left, f.right, o)
    ensures Split(f, o).supported == Some(SupportedOne(f.left, f.right, o))
    ensures !KeepsTrue(f, o)
  {
    assert !HoldsOr(KeepsS, f, o);
    SupersetExactly(f, o);
  }

  /** NOT of (supported AND unsupported) breaks the contract. */
  lemma NotOverMixedIsUnsafe<E(!new)>(f: Expr<E>, o: Support<E>)
    requires f.Not? && f.inner.And? && ReadOnce(f) && o.supportsNot
    requires !o.isSupported(f) && !o.isSupported(f.inner)
    requires OneOfEach(f.inner.left, f.inner.right, o)
    ensures Split(f, o).supported == Some(Not(SupportedOne(f.inner.left, f.inner.right, o)))
    ensures !KeepsTrue(f, o)
  {
    assert !HoldsAnd(WithinS, f.inner, o);
    SupersetExactly(f, o);
  }

  /** Two unsafe shapes can cancel: NOT (supported OR unsupported) keeps its meaning. */
  lemma NotOverUnsafeOrKeepsMeaning<E(!new)>(f: Expr<E>, o: Support<E>)
    requires f.Not? && f.inner.Or? && o.supportsNot && o.supportsOr
    requires !o.isSupported(f) && !o.isSupported(f.inner)
    requires Split(f.inner.left, o).unsupported.None?
    requires IsLeaf(f.inner.right) && !o.isSupported(f.inner.right)
    ensures !SplitSafe(f, o) && KeepsMeaning(f, o)
  {
    var g := f.inner;
    assert Holds(WithinS, g, o) == HoldsOr(WithinS, g, o);
    assert Holds(WithinU, g, o) == HoldsOr(WithinU, g, o);
    assert Holds(CoveredByEither, g, o) == HoldsOr(CoveredByEither, g, o);
    assert Holds(WithinU, g.right, o) && Holds(KeepsU, g.right, o);
    MeaningExactly(f, o);
  }
}

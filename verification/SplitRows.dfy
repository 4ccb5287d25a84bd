/** What the split does to rows: the exact conditions of `SplitExact` hold of rows whose leaves do not depend on each other. */
module SplitRows {
  import opened Basics
  import opened Filter
  import opened SplitBounds
  import opened SplitExact
  import opened Rows
  import opened OptimizeCmp

  ghost function OptionTruth<E>(f: Option<Expr<E>>, row: Row<E>): Truth {
    if f.None? then True else RowTruth(f.value, row)
  }

  /** The supported part returns a superset of the matching rows. */
  ghost predicate KeepsRows<E(!new)>(f: Expr<E>, o: Support<E>) {
    forall row: Row<E> | RowTruth(f, row) == True :: OptionTruth(Split(f, o).supported, row) == True
  }

  /** On every row both parts together have the truth value of the tree. */
  ghost predicate KeepsRowTruth<E(!new)>(f: Expr<E>, o: Support<E>) {
    forall row: Row<E> :: And3(OptionTruth(Split(f, o).supported, row), OptionTruth(Split(f, o).unsupported, row)) == RowTruth(f, row)
  }

  // ----- Every row is a valuation -----

  ghost function ValuationOf<E>(row: Row<E>): Valuation<E> {
    g => LeafTruth(row, g)
  }

  lemma BoundKeepsRows<E(!new)>(f: Expr<E>, o: Support<E>)
    requires Holds(KeepsS, f, o)
    ensures KeepsRows(f, o)
  {
    SupersetExactly(f, o);
    forall row: Row<E> | RowTruth(f, row) == True
      ensures OptionTruth(Split(f, o).supported, row) == True
    {
      assert Eval(f, ValuationOf(row)) == True;
    }
  }

  lemma BoundsKeepRowTruth<E(!new)>(f: Expr<E>, o: Support<E>)
    requires MeaningKept(f, o)
    ensures KeepsRowTruth(f, o)
  {
    forall row: Row<E>
      ensures And3(OptionTruth(Split(f, o).supported, row), OptionTruth(Split(f, o).unsupported, row)) == RowTruth(f, row)
    {
      BoundsAreTrue(f, o, ValuationOf(row));
    }
  }

  // ----- A definite valuation is a row, if leaves are independent -----

  /** The leaf is about the cell of one column. */
  predicate OnColumn<E>(x: Expr<E>) {
    x.Compare? || x.Between? || (x.InList? && x.target.One?)
  }

  function ColumnOf<E>(x: Expr<E>): ColumnWithCast
    requires OnColumn(x)
  {
    if x.InList? then x.target.col else x.col
  }

  ghost function LeafOn<E>(x: Expr<E>, cell: Scalar): Truth {
    LeafTruth(RowOf<E>(cell), x)
  }

  /** Some cell makes the leaf take the value `t`. */
  ghost predicate CanBe<E>(x: Expr<E>, t: Truth) {
    exists cell: Scalar :: LeafOn(x, cell) == t
  }

  /** A leaf on a column is on it alone, without a cast, and can be true and can be false. */
  ghost predicate FreeLeaf<E>(x: Expr<E>) {
    OnColumn(x) ==> ColumnOf(x).castTo.None? && CanBe(x, True) && CanBe(x, False)
  }

  ghost predicate SameColumn<E>(x: Expr<E>, y: Expr<E>) {
    OnColumn(x) && OnColumn(y) && ColumnOf(x).column.name == ColumnOf(y).column.name
  }

  /** Leaves are opaque to the proxy or sit on columns of their own. */
  ghost predicate Independent<E>(f: Expr<E>) {
    && (forall x | x in Leaves(f) :: FreeLeaf(x))
    && (forall x, y | x in Leaves(f) && y in Leaves(f) && SameColumn(x, y) :: x == y)
  }

  ghost function Settle<E>(v: Valuation<E>): Valuation<E> {
    x => if v(x) == Unknown then True else v(x)
  }

  /** What is known stays when unknown leaves become known. */
  lemma {:induction false} SettleKeeps<E>(f: Expr<E>, v: Valuation<E>)
    ensures Eval(f, v) != Unknown ==> Eval(f, Settle(v)) == Eval(f, v)
  {
    if f.And? || f.Or? {
      SettleKeeps(f.left, v);
      SettleKeeps(f.right, v);
    } else if f.Not? {
      SettleKeeps(f.inner, v);
    }
  }

  /** The cell of a column in the row that realises `v` on the leaves. */
  ghost function CellFor<E>(leaves: set<Expr<E>>, v: Valuation<E>, name: string): Scalar {
    if exists x :: x in leaves && OnColumn(x) && ColumnOf(x).column.name == name && CanBe(x, v(x)) then
      var x :| x in leaves && OnColumn(x) && ColumnOf(x).column.name == name && CanBe(x, v(x));
      var cell: Scalar :| LeafOn(x, cell) == v(x);
      cell
    else Text(None)
  }

  ghost function Realise<E>(leaves: set<Expr<E>>, v: Valuation<E>): Row<E> {
    Row(name => CellFor(leaves, v, name), (_, _, s) => s, v, _ => NullCell)
  }

  lemma LeafReadsCell<E>(x: Expr<E>, row: Row<E>)
    requires OnColumn(x) && ColumnOf(x).castTo.None?
    ensures LeafTruth(row, x) == LeafOn(x, row.cell(ColumnOf(x).column.name))
  {
  }

  lemma RealisesLeaf<E>(f: Expr<E>, v: Valuation<E>, x: Expr<E>)
    requires Independent(f) && x in Leaves(f) && v(x) != Unknown && IsLeaf(x)
    ensures LeafTruth(Realise(Leaves(f), v), x) == v(x)
  {
    assert FreeLeaf(x);
    if OnColumn(x) {
      var name := ColumnOf(x).column.name;
      LeafReadsCell(x, Realise(Leaves(f), v));
      assert CanBe(x, v(x));
      assert forall y | y in Leaves(f) && OnColumn(y) && ColumnOf(y).column.name == name :: SameColumn(x, y);
    }
  }

  lemma {:induction false} LeavesAreLeaves<E>(f: Expr<E>, x: Expr<E>)
    requires x in Leaves(f)
    ensures IsLeaf(x)
  {
    if f.And? || f.Or? {
      if x in Leaves(f.left) { LeavesAreLeaves(f.left, x); } else { LeavesAreLeaves(f.right, x); }
    } else if f.Not? {
      LeavesAreLeaves(f.inner, x);
    }
  }

  /** On `g`, whose leaves are among those of `f`, the row has the value of the valuation. */
  lemma RealisesTree<E>(f: Expr<E>, v: Valuation<E>, g: Expr<E>)
    requires Independent(f) && Leaves(g) <= Leaves(f) && forall x | x in Leaves(f) :: v(x) != Unknown
    ensures RowTruth(g, Realise(Leaves(f), v)) == Eval(g, v)
  {
    var row := Realise(Leaves(f), v);
    forall x | x in Leaves(g)
      ensures ValuationOf(row)(x) == v(x)
    {
      LeavesAreLeaves(f, x);
      RealisesLeaf(f, v, x);
    }
    EvalReadsLeaves(g, ValuationOf(row), v);
  }

  /** A row for a valuation that gives the tree and one of its parts definite values. */
  lemma RowFor<E>(f: Expr<E>, o: Support<E>, v: Valuation<E>) returns (row: Row<E>)
    requires Independent(f)
    ensures Eval(f, v) != Unknown ==> RowTruth(f, row) == Eval(f, v)
    ensures var part := Split(f, o).supported;
            part.Some? && Eval(part.value, v) != Unknown ==> RowTruth(part.value, row) == Eval(part.value, v)
    ensures var part := Split(f, o).unsupported;
            part.Some? && Eval(part.value, v) != Unknown ==> RowTruth(part.value, row) == Eval(part.value, v)
  {
    var w, p := Settle(v), Split(f, o);
    row := Realise(Leaves(f), w);
    PartLeaves(f, o);
    SettleKeeps(f, v);
    RealisesTree(f, w, f);
    if p.supported.Some? {
      SettleKeeps(p.supported.value, v);
      RealisesTree(f, w, p.supported.value);
    }
    if p.unsupported.Some? {
      SettleKeeps(p.unsupported.value, v);
      RealisesTree(f, w, p.unsupported.value);
    }
  }

  // ----- The exact conditions on rows -----

  /** On independent leaves the supported part keeps every matching row exactly when the shape allows it. */
  lemma RowsKeptExactly<E(!new)>(f: Expr<E>, o: Support<E>)
    requires ReadOnce(f) && Independent(f)
    ensures KeepsRows(f, o) <==> Holds(KeepsS, f, o)
  {
    if Holds(KeepsS, f, o) {
      BoundKeepsRows(f, o);
    } else {
      var v := Refute(KeepsS, f, o);
      var row := RowFor(f, o, v);
      assert RowTruth(f, row) == True && OptionTruth(Split(f, o).supported, row) == False;
    }
  }

  /** On independent leaves the parts together mean the tree on every row exactly when the shape allows it. */
  lemma RowTruthKeptExactly<E(!new)>(f: Expr<E>, o: Support<E>)
    requires ReadOnce(f) && Independent(f)
    ensures KeepsRowTruth(f, o) <==> MeaningKept(f, o)
  {
    if MeaningKept(f, o) {
      BoundsKeepRowTruth(f, o);
    } else {
      var k := if !Holds(KeepsS, f, o) then KeepsS else if !Holds(KeepsU, f, o) then KeepsU else WithinBoth;
      var v := Refute(k, f, o);
      var row := RowFor(f, o, v);
      assert And3(OptionTruth(Split(f, o).supported, row), OptionTruth(Split(f, o).unsupported, row)) != RowTruth(f, row);
    }
  }

  /** An OR of a wholly supported and a wholly unsupported branch with independent leaves loses rows. */
  lemma OrOfBothKindsLosesRows<E(!new)>(f: Expr<E>, o: Support<E>)
    requires f.Or? && ReadOnce(f) && Independent(f) && o.supportsOr && !o.isSupported(f) && OneOfEach(f.left, f.right, o)
    ensures !KeepsRows(f, o)
  {
    assert !HoldsOr(KeepsS, f, o);
    RowsKeptExactly(f, o);
  }

  /** A NOT over (supported AND unsupported) with independent leaves loses rows. */
  lemma NotOverMixedLosesRows<E(!new)>(f: Expr<E>, o: Support<E>)
    requires f.Not? && f.inner.And? && ReadOnce(f) && Independent(f) && o.supportsNot
    requires !o.isSupported(f) && !o.isSupported(f.inner) && OneOfEach(f.inner.left, f.inner.right, o)
    ensures !KeepsRows(f, o)
  {
    assert !HoldsAnd(WithinS, f.inner, o);
    RowsKeptExactly(f, o);
  }

  // ----- Comparisons are free leaves -----

  lemma ComparisonIsFree<E>(c: ColumnWithCast, op: CmpOp, k: Kind, n: int)
    requires c.castTo.None?
    ensures FreeLeaf(Expr<E>.Compare(c, op, Num(k, Some(n))))
  {
    var x := Expr<E>.Compare(c, op, Num(k, Some(n)));
    var below, same, above := Num(k, Some(n - 1)), Num(k, Some(n)), Num(k, Some(n + 1));
    RawOrderIsOrder(below, same);
    RawOrderIsOrder(same, same);
    RawOrderIsOrder(above, same);
    assert LeafOn(x, below) == CompareTruth(op, below, same);
    assert LeafOn(x, same) == CompareTruth(op, same, same);
    assert LeafOn(x, above) == CompareTruth(op, above, same);
  }

  // ----- Lost rows -----

  function NameOf(name: string): ColumnWithCast {
    ColumnWithCast(Column(None, name), None, false)
  }

  function EqualsNumber<E>(name: string, n: int): Expr<E> {
    Compare(NameOf(name), Equal, Num(Signed(64), Some(n)))
  }

  /** Only leaves on the column `a` are supported. */
  function OnlyA<E>(): Support<E> {
    Support(true, true, (f: Expr<E>) => f.Compare? && f.col.column.name == "a")
  }

  ghost function TwoCells<E>(a: int, b: int): Row<E> {
    Row(name => Num(Signed(64), Some(if name == "a" then a else b)), (_, _, s) => s, _ => Unknown, _ => NullCell)
  }

  lemma NumberTruth<E>(name: string, n: int, a: int, b: int)
    ensures RowTruth(EqualsNumber<E>(name, n), TwoCells(a, b)) == if (if name == "a" then a else b) == n then True else False
  {
    RowTruthUnfolds(EqualsNumber<E>(name, n), TwoCells(a, b));
  }

  /** `a = 1 OR b = 2` forwards `a = 1` and loses the row with a = 0 and b = 2. */
  lemma OrLosesThisRow<E>()
    ensures var f, row := Expr<E>.Or(EqualsNumber("a", 1), EqualsNumber("b", 2)), TwoCells<E>(0, 2);
            && Split(f, OnlyA()).supported == Some(EqualsNumber("a", 1))
            && RowTruth(f, row) == True && RowTruth(EqualsNumber("a", 1), row) == False
  {
    var l, r := EqualsNumber<E>("a", 1), EqualsNumber<E>("b", 2);
    NumberTruth<E>("a", 1, 0, 2);
    NumberTruth<E>("b", 2, 0, 2);
    RowTruthUnfolds(Or(l, r), TwoCells<E>(0, 2));
    assert Split(l, OnlyA()) == Parts(Some(l), None) && Split(r, OnlyA()) == Parts(None, Some(r));
  }

  /** `NOT (a = 1 AND b = 2)` forwards `NOT a = 1` and loses the row with a = 1 and b = 0. */
  lemma NotLosesThisRow<E>()
    ensures var f, row := Expr<E>.Not(And(EqualsNumber("a", 1), EqualsNumber("b", 2))), TwoCells<E>(1, 0);
            && Split(f, OnlyA()).supported == Some(Not(EqualsNumber("a", 1)))
            && RowTruth(f, row) == True && RowTruth(Not(EqualsNumber("a", 1)), row) == False
  {
    var l, r, row := EqualsNumber<E>("a", 1), EqualsNumber<E>("b", 2), TwoCells<E>(1, 0);
    NumberTruth<E>("a", 1, 1, 0);
    NumberTruth<E>("b", 2, 1, 0);
    RowTruthUnfolds(And(l, r), row);
    RowTruthUnfolds(Not(And(l, r)), row);
    RowTruthUnfolds(Not(l), row);
    assert Split(l, OnlyA()) == Parts(Some(l), None) && Split(r, OnlyA()) == Parts(None, Some(r));
    assert Split(And(l, r), OnlyA()) == Parts(Some(l), Some(r));
  }

  // ----- Dependent leaves -----

  function LessThan<E>(n: int): Expr<E> {
    Compare(NameOf("c"), Less, Num(Signed(64), Some(n)))
  }

  function OnlyFive<E>(): Support<E> {
    Support(true, true, (f: Expr<E>) => f.Compare? && f.value == Num(Signed(64), Some(5)))
  }

  /** Leaves on one column can hide an unsafe shape: `c < 5 OR c < 3` forwards `c < 5` and loses no row. */
  lemma DependentLeavesLoseNothing<E(!new)>()
    ensures var f := Expr<E>.Or(LessThan(5), LessThan(3));
            && ReadOnce(f) && !Holds(KeepsS, f, OnlyFive()) && !Independent(f)
            && KeepsRows(f, OnlyFive())
  {
    var l, r := LessThan<E>(5), LessThan<E>(3);
    var f := Expr<E>.Or(l, r);
    assert Split(l, OnlyFive()) == Parts(Some(l), None) && Split(r, OnlyFive()) == Parts(None, Some(r));
    assert Split(f, OnlyFive()) == SplitOr(Split(l, OnlyFive()), Split(r, OnlyFive()));
    assert Holds(KeepsS, f, OnlyFive()) == HoldsOr(KeepsS, f, OnlyFive());
    assert l in Leaves(f) && r in Leaves(f) && SameColumn(l, r) && l != r;
    forall row: Row<E> | RowTruth(f, row) == True
      ensures RowTruth(l, row) == True
    {
      RowTruthUnfolds(f, row);
      RowTruthUnfolds(l, row);
      RowTruthUnfolds(r, row);
    }
  }
}

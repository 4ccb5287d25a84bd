/** The blind index: a column of keyed identifiers, and the translation of equalities to identifiers. */
module BlindIndex {
  import opened Basics
  import opened Filter
  import opened Rows
  import opened Sql

  /**
    `display` prints a literal of a query; `encode` gives the bytes of a cell that is inserted, None
    for NULL; `identify` is the keyed identifier, in hexadecimal, of a byte string.
   */
  datatype Index = Index(indexedColumn: string, indexColumn: string,
                         display: Scalar -> string, encode: Scalar -> Option<string>, identify: string -> string)
  {
    /** Text prints and is encoded as itself; a NULL prints as a word. */
    ghost predicate Valid() {
      && (forall s: string :: display(Text(Some(s))) == s && encode(Text(Some(s))) == Some(s))
      && display(Text(None)) == "NULL" && encode(Text(None)) == None
    }
  }

  /** The index cell computed on insertion. */
  function StoredCell(x: Index, cell: Scalar): IndexCell {
    match x.encode(cell)
    case None => NullCell
    case Some(bytes) => HexCell(x.identify(bytes))
  }

  function IsSupported<E>(x: Index, f: Expr<E>): bool {
    match f
    case Compare(c, Equal, _) => c.column.name == x.indexedColumn
    case InList(One(c), _) => c.column.name == x.indexedColumn
    case _ => false
  }

  function SupportOf<E>(x: Index): Support<E> {
    Support(false, true, (f: Expr<E>) => IsSupported(x, f))
  }

  function BlindValue(x: Index, s: Scalar): string {
    x.identify(x.display(s))
  }

  function Query<E>(x: Index, f: Expr<E>): Result<Condition<E>> {
    match f
    case And(l, r) =>
      var a :- Query(x, l);
      var b :- Query(x, r);
      Ok(SqlAnd(a, b))
    case Or(l, r) =>
      var a :- Query(x, l);
      var b :- Query(x, r);
      Ok(SqlOr(a, b))
    case InList(One(c), values) =>
      if c.column.name != x.indexedColumn then Err("unsupported column")
      else Ok(HexIn(x.indexColumn, set s | s in values :: BlindValue(x, s)))
    case Compare(c, Equal, value) =>
      if c.column.name != x.indexedColumn then Err("unsupported column")
      else Ok(HexIn(x.indexColumn, {BlindValue(x, value)}))
    case _ => Err("unsupported filter")
  }

  lemma {:induction false} AcceptedTranslates<E>(x: Index, f: Expr<E>)
    requires BuiltFromAccepted(f, SupportOf(x))
    ensures Query(x, f).Ok?
  {
    match f
    case And(l, r) =>
      AcceptedTranslates(x, l);
      AcceptedTranslates(x, r);
    case Or(l, r) =>
      AcceptedTranslates(x, l);
      AcceptedTranslates(x, r);
    case _ =>
  }

  /** The query over the supported part of any filter succeeds. */
  lemma QueryNeverFails<E>(x: Index, f: Expr<E>)
    requires Split(f, SupportOf(x)).supported.Some?
    ensures Query(x, Split(f, SupportOf(x)).supported.value).Ok?
  {
    SupportedPartIsAccepted(f, SupportOf(x));
    AcceptedTranslates(x, Split(f, SupportOf(x)).supported.value);
  }

  /** AND and OR over equalities and IN lists on the indexed column. */
  predicate EqualityTree<E>(x: Index, f: Expr<E>) {
    match f
    case And(l, r) => EqualityTree(x, l) && EqualityTree(x, r)
    case Or(l, r) => EqualityTree(x, l) && EqualityTree(x, r)
    case Compare(c, op, _) => op.Equal? && c.column.name == x.indexedColumn
    case InList(target, _) => target.One? && target.col.column.name == x.indexedColumn
    case _ => false
  }

  /** Exactly the leaves of such trees are accepted. */
  lemma AcceptsLeavesExactly<E>(x: Index, f: Expr<E>)
    requires IsLeaf(f)
    ensures IsSupported(x, f) <==> EqualityTree(x, f)
  {
  }

  /** Such trees are handed to the index whole. */
  lemma {:induction false} EqualityTreesAreHandedWhole<E>(x: Index, f: Expr<E>)
    requires EqualityTree(x, f)
    ensures Split(f, SupportOf(x)) == Parts(Some(f), None) && Query(x, f).Ok?
  {
    if f.And? || f.Or? {
      EqualityTreesAreHandedWhole(x, f.left);
      EqualityTreesAreHandedWhole(x, f.right);
    } else {
      AcceptsLeavesExactly(x, f);
    }
  }

  /** A lone IN list becomes a test of the index column against the identifiers of its literals. */
  lemma InListIsSent<E>(x: Index, c: ColumnWithCast, values: set<Scalar>)
    requires c.column.name == x.indexedColumn
    ensures Split(Expr<E>.InList(One(c), values), SupportOf(x)) == Parts(Some(InList(One(c), values)), None)
    ensures Query(x, Expr<E>.InList(One(c), values)) == Ok(HexIn(x.indexColumn, set s | s in values :: x.identify(x.display(s))))
  {
    EqualityTreesAreHandedWhole(x, Expr<E>.InList(One(c), values));
    assert (set s | s in values :: BlindValue(x, s)) == set s | s in values :: x.identify(x.display(s));
  }

  /** A row whose index cell was computed from its cell. */
  ghost predicate Stored<E>(x: Index, row: Row<E>) {
    row.indexCell(x.indexColumn) == StoredCell(x, row.cell(x.indexedColumn))
  }

  predicate Uncast<E>(f: Expr<E>) {
    match f
    case And(l, r) => Uncast(l) && Uncast(r)
    case Or(l, r) => Uncast(l) && Uncast(r)
    case Compare(c, _, _) => c.castTo.None?
    case InList(One(c), _) => c.castTo.None?
    case _ => true
  }

  // ----- What a query selects -----

  /** The query for the literal `s` selects rows holding `cell`. */
  predicate Selects(x: Index, cell: Scalar, s: Scalar) {
    x.encode(cell).Some? && BlindValue(x, s) == x.identify(x.encode(cell).value)
  }

  ghost predicate Equals(cell: Scalar, s: Scalar) {
    CompareTruth(Equal, cell, s) == True
  }

  /** A literal equal to the cell whose query misses it, or a literal different from it whose query selects it. */
  ghost predicate Lost(x: Index, cell: Scalar, s: Scalar) {
    Equals(cell, s) && !Selects(x, cell, s)
  }

  ghost predicate Collides(x: Index, cell: Scalar, s: Scalar) {
    Selects(x, cell, s) && !Equals(cell, s)
  }

  /** No literal of `f` that equals the cell is lost on it. */
  ghost predicate NoneLost<E>(x: Index, f: Expr<E>, cell: Scalar) {
    match f
    case And(l, r) => NoneLost(x, l, cell) && NoneLost(x, r, cell)
    case Or(l, r) => NoneLost(x, l, cell) && NoneLost(x, r, cell)
    case Compare(_, _, v) => !Lost(x, cell, v)
    case InList(_, values) => forall v | v in values :: !Lost(x, cell, v)
    case _ => true
  }

  /** No literal of `f` that differs from the cell collides with it. */
  ghost predicate NoCollision<E>(x: Index, f: Expr<E>, cell: Scalar) {
    match f
    case And(l, r) => NoCollision(x, l, cell) && NoCollision(x, r, cell)
    case Or(l, r) => NoCollision(x, l, cell) && NoCollision(x, r, cell)
    case Compare(_, _, v) => !Collides(x, cell, v)
    case InList(_, values) => forall v | v in values :: !Collides(x, cell, v)
    case _ => true
  }

  /** What the query of a leaf selects. */
  lemma LeafSelects<E>(x: Index, f: Expr<E>, row: Row<E>)
    requires Stored(x, row) && Uncast(f) && Query(x, f).Ok? && IsLeaf(f)
    ensures f.Compare? || (f.InList? && f.target.One?)
    ensures var cell := row.cell(x.indexedColumn);
            if f.Compare? then
              && (EvalSql(Query(x, f).value, row) == True <==> Selects(x, cell, f.value))
              && (RowTruth(f, row) == True <==> Equals(cell, f.value))
            else
              && (EvalSql(Query(x, f).value, row) == True <==> exists v :: v in f.values && Selects(x, cell, v))
              && (RowTruth(f, row) == True <==> exists v :: v in f.values && Equals(cell, v))
  {
    RowTruthUnfolds(f, row);
    var cell := row.cell(x.indexedColumn);
    if f.InList? {
      var hexes := Query(x, f).value.hexes;
      assert hexes == set s | s in f.values :: BlindValue(x, s);
      assert forall v | v in f.values :: BlindValue(x, v) in hexes;
    }
  }

  /** A stored row matching the filter matches the translated query, if no literal is lost on it. */
  lemma {:induction false} QueryKeepsRows<E>(x: Index, f: Expr<E>, row: Row<E>)
    requires Stored(x, row) && Uncast(f) && Query(x, f).Ok? && NoneLost(x, f, row.cell(x.indexedColumn))
    ensures RowTruth(f, row) == True ==> EvalSql(Query(x, f).value, row) == True
  {
    RowTruthUnfolds(f, row);
    if f.And? || f.Or? {
      QueryKeepsRows(x, f.left, row);
      QueryKeepsRows(x, f.right, row);
    } else {
      LeafSelects(x, f, row);
    }
  }

  /** If moreover none collides with its cell, the query selects a stored row exactly when the filter does. */
  lemma {:induction false} QueryExactWithoutCollisions<E>(x: Index, f: Expr<E>, row: Row<E>)
    requires Stored(x, row) && Uncast(f) && Query(x, f).Ok?
    requires NoneLost(x, f, row.cell(x.indexedColumn)) && NoCollision(x, f, row.cell(x.indexedColumn))
    ensures EvalSql(Query(x, f).value, row) == True <==> RowTruth(f, row) == True
  {
    RowTruthUnfolds(f, row);
    if f.And? || f.Or? {
      QueryExactWithoutCollisions(x, f.left, row);
      QueryExactWithoutCollisions(x, f.right, row);
    } else {
      LeafSelects(x, f, row);
    }
  }

  // ----- When that is the case -----

  lemma {:induction false} SameTextIsEqual(a: string, b: string)
    ensures OrderText(a, b) == Same <==> a == b
  {
    if a != [] && b != [] && a[0] == b[0] {
      SameTextIsEqual(a[1..], b[1..]);
      assert a == [a[0]] + a[1..] && b == [b[0]] + b[1..];
    }
  }

  /** A stored text cell equals a literal only if that literal is the same text. */
  lemma EqualTextCell(cell: Scalar, s: Scalar)
    requires cell.Text?
    ensures Equals(cell, s) <==> cell.text.Some? && cell == s
  {
    if cell.text.Some? && s.Text? && s.text.Some? {
      SameTextIsEqual(cell.text.value, s.text.value);
    }
  }

  /** On a text column nothing is ever lost. */
  lemma {:induction false} TextIsNeverLost<E>(x: Index, f: Expr<E>, cell: Scalar)
    requires x.Valid() && cell.Text?
    ensures NoneLost(x, f, cell)
  {
    forall v: Scalar { EqualTextCell(cell, v); }
    if f.And? || f.Or? {
      TextIsNeverLost(x, f.left, cell);
      TextIsNeverLost(x, f.right, cell);
    }
  }

  /** On any type, an equality keeps a matching row exactly when the printed literal and the stored bytes have one identifier. */
  lemma LoneEqualityKeepsExactly<E>(x: Index, c: ColumnWithCast, v: Scalar, row: Row<E>)
    requires Stored(x, row) && c.column.name == x.indexedColumn && c.castTo.None?
    requires Equals(row.cell(x.indexedColumn), v)
    ensures var f := Expr<E>.Compare(c, Equal, v); Query(x, f).Ok? && RowTruth(f, row) == True
    ensures EvalSql(Query(x, Expr<E>.Compare(c, Equal, v)).value, row) == True <==> Selects(x, row.cell(x.indexedColumn), v)
  {
    LeafSelects(x, Expr<E>.Compare(c, Equal, v), row);
  }

  ghost function StoredRow<E>(x: Index, cell: Scalar): Row<E> {
    Row(_ => cell, (_, _, s) => s, _ => Unknown, _ => StoredCell(x, cell))
  }

  /** With this key an equality with `v` keeps the row holding `cell`. */
  ghost predicate KeptUnder<E>(x: Index, key: string -> string, c: ColumnWithCast, v: Scalar, cell: Scalar) {
    var y, f := x.(identify := key), Expr<E>.Compare(c, Equal, v);
    Query(y, f).Ok? && EvalSql(Query(y, f).value, StoredRow(y, cell)) == True
  }

  /** A matching row is kept whatever the key exactly when the printed literal is what was inserted. */
  lemma KeptUnderEveryKeyExactly<E>(x: Index, c: ColumnWithCast, v: Scalar, cell: Scalar)
    requires c.column.name == x.indexedColumn && c.castTo.None? && Equals(cell, v)
    ensures (forall key: string -> string :: KeptUnder<E>(x, key, c, v, cell)) <==> x.encode(cell) == Some(x.display(v))
  {
    var f := Expr<E>.Compare(c, Equal, v);
    forall key: string -> string
      ensures KeptUnder<E>(x, key, c, v, cell) <==> Selects(x.(identify := key), cell, v)
    {
      LeafSelects(x.(identify := key), f, StoredRow<E>(x.(identify := key), cell));
    }
    var plain: string -> string := s => s;
    assert KeptUnder<E>(x, plain, c, v, cell) <==> x.encode(cell) == Some(x.display(v));
  }

  /** On a text column, an equality selects a row that does not match exactly when another text has the identifier of the literal. */
  lemma LoneEqualityAddsExactly<E>(x: Index, c: ColumnWithCast, v: Scalar, row: Row<E>)
    requires x.Valid() && Stored(x, row) && c.column.name == x.indexedColumn && c.castTo.None?
    requires row.cell(x.indexedColumn).Text?
    ensures var f, cell := Expr<E>.Compare(c, Equal, v), row.cell(x.indexedColumn);
            && Query(x, f).Ok?
            && (EvalSql(Query(x, f).value, row) == True && RowTruth(f, row) != True
                <==> cell.text.Some? && cell != v && x.identify(x.display(v)) == x.identify(cell.text.value))
  {
    LeafSelects(x, Expr<E>.Compare(c, Equal, v), row);
    EqualTextCell(row.cell(x.indexedColumn), v);
  }

  /** A NULL literal is looked up as the text NULL: no row equals it, yet rows holding that word are selected. */
  lemma NullLiteralSelectsTheWord<E>(x: Index, c: ColumnWithCast, row: Row<E>)
    requires x.Valid() && Stored(x, row) && c.column.name == x.indexedColumn && c.castTo.None?
    requires row.cell(x.indexedColumn) == Text(Some("NULL"))
    ensures var f := Expr<E>.Compare(c, Equal, Text(None));
            Query(x, f).Ok? && EvalSql(Query(x, f).value, row) == True && RowTruth(f, row) == Unknown
  {
    RowTruthUnfolds(Expr<E>.Compare(c, Equal, Text(None)), row);
  }

  /** The bytes of a 32-bit integer as it is inserted, least significant first. */
  function LittleEndian(n: nat): string
    requires n < 0x1_0000_0000
  {
    [(n % 0x100) as char, (n / 0x100 % 0x100) as char, (n / 0x1_0000 % 0x100) as char, (n / 0x100_0000) as char]
  }

  /**
    A number prints as its digits but is inserted as its bytes, so a row holding 5 is lost by the
    query for 5 unless "5" and the four bytes happen to have one identifier.
   */
  lemma IntegersAreLost<E>(x: Index, c: ColumnWithCast, row: Row<E>)
    requires Stored(x, row) && c.column.name == x.indexedColumn && c.castTo.None?
    requires row.cell(x.indexedColumn) == Num(Signed(32), Some(5))
    requires x.display(Num(Signed(32), Some(5))) == "5" && x.encode(Num(Signed(32), Some(5))) == Some(LittleEndian(5))
    ensures var f := Expr<E>.Compare(c, Equal, Num(Signed(32), Some(5)));
            && Query(x, f).Ok? && RowTruth(f, row) == True
            && "5" != LittleEndian(5)
            && (EvalSql(Query(x, f).value, row) == True <==> x.identify("5") == x.identify(LittleEndian(5)))
  {
    LoneEqualityKeepsExactly(x, c, Num(Signed(32), Some(5)), row);
  }
}

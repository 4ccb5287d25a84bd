/**
  The projections an INSERT or UPDATE puts in front of its sinks. A first layer encrypts the columns
  no index needs; a second one encrypts the others and computes the index columns.
 */
module WritePipeline {
  import opened Basics
  import opened LengthPrefixed

  /** A cell by its binary form; `encoded` tells whether it already has the binary type. */
  datatype Value = Null | Cell(binary: Bytes, encoded: bool)

  type Record = seq<Value>

  /** Encryption under the key of a column, with associated data: one choice of the random nonces. */
  type Sealer = (string, Bytes, Bytes) -> Bytes

  datatype Expr =
    | Column(index: nat)
    | ToBinary(inner: Expr)
    | Encrypt(inner: Expr, aad: seq<nat>, typeName: Bytes, key: string)
    | Computed(columns: seq<nat>, compute: seq<Value> -> Value)

  function At(row: Record, i: nat): Value {
    if i < |row| then row[i] else Null
  }

  function BinaryOf(v: Value): Bytes {
    if v.Null? then [] else v.binary
  }

  function Pick(row: Record, columns: seq<nat>): (r: seq<Value>)
    ensures |r| == |columns|
  {
    seq(|columns|, i requires 0 <= i < |columns| => At(row, columns[i]))
  }

  function AadValues(row: Record, columns: seq<nat>): (r: seq<Bytes>)
    ensures |r| == |columns|
  {
    seq(|columns|, i requires 0 <= i < |columns| => BinaryOf(At(row, columns[i])))
  }

  function Encrypted(v: Value, aad: Bytes, key: string, seal: Sealer): Value {
    if v.Null? then Null else Cell(seal(key, aad, v.binary), true)
  }

  function Eval(e: Expr, row: Record, seal: Sealer): Value {
    match e
    case Column(i) => At(row, i)
    case ToBinary(x) =>
      var v := Eval(x, row, seal);
      if v.Null? then Null else Cell(v.binary, true)
    case Encrypt(x, aad, typeName, key) =>
      Encrypted(Eval(x, row, seal), EncodeAad(typeName, AadValues(row, aad)), key, seal)
    case Computed(columns, compute) => compute(Pick(row, columns))
  }

  /** One output row of a projection. */
  function Project(es: seq<Expr>, row: Record, seal: Sealer): (r: Record)
    ensures |r| == |es|
  {
    seq(|es|, i requires 0 <= i < |es| => Eval(es[i], row, seal))
  }

  // ----- The plan -----

  datatype ColumnMeta = ColumnMeta(typeName: Bytes, key: string)

  /** An index adds columns to the row, or feeds a sink of its own. */
  datatype IndexPlan =
    | AddColumns(tracked: set<string>, exprs: seq<Expr>)
    | IndexSink(tracked: set<string>, inputs: seq<Expr>)
  {
    function Exprs(): seq<Expr> {
      if AddColumns? then exprs else inputs
    }
  }

  const DUPLICATE_PREFIX := "__pr_dup__"
  const FILTER_PREFIX := "__pr_flt__"

  function Strip(name: string): string {
    if DUPLICATE_PREFIX <= name then name[|DUPLICATE_PREFIX|..] else name
  }

  /** Encryption metadata by column name, the columns bound as associated data, and the indices. */
  datatype Table = Table(meta: map<string, ColumnMeta>, aad: seq<nat>, indices: seq<IndexPlan>) {
    function MetaOf(name: string): Option<ColumnMeta> {
      if Strip(name) in meta then Some(meta[Strip(name)]) else None
    }
  }

  function Tracked(indices: seq<IndexPlan>): set<string> {
    if indices == [] then {} else Tracked(indices[..|indices| - 1]) + indices[|indices| - 1].tracked
  }

  /** Columns added to the row, in the order of the indices. */
  function Added(indices: seq<IndexPlan>): seq<Expr> {
    if indices == [] then []
    else
      var x := indices[|indices| - 1];
      Added(indices[..|indices| - 1]) + if x.AddColumns? then x.exprs else []
  }

  /** The inputs of each index sink, in the order of the indices. */
  function SinkInputs(indices: seq<IndexPlan>): seq<seq<Expr>> {
    if indices == [] then []
    else
      var x := indices[|indices| - 1];
      SinkInputs(indices[..|indices| - 1]) + if x.IndexSink? then [x.inputs] else []
  }

  function Flatten<T>(ss: seq<seq<T>>): seq<T> {
    if ss == [] then [] else Flatten(ss[..|ss| - 1]) + ss[|ss| - 1]
  }

  function EncryptColumn(i: nat, t: Table, m: ColumnMeta): Expr {
    Encrypt(ToBinary(Column(i)), t.aad, m.typeName, m.key)
  }

  lemma EncryptColumnEval(i: nat, t: Table, m: ColumnMeta, row: Record, seal: Sealer)
    ensures Eval(EncryptColumn(i, t, m), row, seal)
         == Encrypted(At(row, i), EncodeAad(m.typeName, AadValues(row, t.aad)), m.key, seal)
  {
    var v := Eval(ToBinary(Column(i)), row, seal);
    assert Eval(Column(i), row, seal) == At(row, i);
    assert v == if At(row, i).Null? then Null else Cell(At(row, i).binary, true);
  }

  /** The first layer encrypts this column: it is encrypted and no index asked for it in clear. */
  predicate FirstLayerEncrypts(t: Table, schema: seq<string>, i: nat) {
    i < |schema| && t.MetaOf(schema[i]).Some? && schema[i] !in Tracked(t.indices)
  }

  predicate SecondLayerEncrypts(t: Table, schema: seq<string>, i: nat) {
    i < |schema| && t.MetaOf(schema[i]).Some? && schema[i] in Tracked(t.indices)
  }

  function FirstLayer(t: Table, schema: seq<string>): (es: seq<Expr>)
    ensures |es| == |schema|
  {
    seq(|schema|, i requires 0 <= i < |schema| =>
      if FirstLayerEncrypts(t, schema, i) then EncryptColumn(i, t, t.MetaOf(schema[i]).value) else Column(i))
  }

  function SecondLayerBase(t: Table, schema: seq<string>): (es: seq<Expr>)
    ensures |es| == |schema|
  {
    seq(|schema|, i requires 0 <= i < |schema| =>
      if SecondLayerEncrypts(t, schema, i) then EncryptColumn(i, t, t.MetaOf(schema[i]).value) else Column(i))
  }

  /** The layers to apply in order, how many columns go to the table, and the inputs of the index sinks. */
  datatype Projection = Projection(layers: seq<seq<Expr>>, keep: nat, sinks: seq<seq<Expr>>)

  function ProjectInsertUpdate(t: Table, schema: seq<string>): Projection {
    var first, added, sinks := FirstLayer(t, schema), Added(t.indices), SinkInputs(t.indices);
    if Tracked(t.indices) == {} && added == [] && sinks == [] then
      Projection([first], |schema|, sinks)
    else
      Projection([first, SecondLayerBase(t, schema) + added + Flatten(sinks)], |schema| + |added|, sinks)
  }

  function Apply(layers: seq<seq<Expr>>, row: Record, seal: Sealer): Record {
    if layers == [] then row else Project(layers[|layers| - 1], Apply(layers[..|layers| - 1], row, seal), seal)
  }

  // ----- What is written -----

  /** The column as it must be stored: encrypted once, under the associated data of the plaintext row, or unchanged. */
  function StoredColumn(t: Table, schema: seq<string>, row: Record, seal: Sealer, i: nat): Value
    requires i < |schema|
  {
    var m := t.MetaOf(schema[i]);
    if m.None? then At(row, i)
    else Encrypted(At(row, i), EncodeAad(m.value.typeName, AadValues(row, t.aad)), m.value.key, seal)
  }

  function StoredBase(t: Table, schema: seq<string>, row: Record, seal: Sealer): (r: Record)
    ensures |r| == |schema|
  {
    seq(|schema|, i requires 0 <= i < |schema| => StoredColumn(t, schema, row, seal, i))
  }

  /** The columns that an expression reads. */
  function Reads(e: Expr): set<nat> {
    match e
    case Column(i) => {i}
    case ToBinary(x) => Reads(x)
    case Encrypt(x, aad, _, _) => Reads(x) + set c | c in aad
    case Computed(columns, _) => set c | c in columns
  }

  /** The columns bound as associated data are left alone by the first layer. */
  predicate AadInClear(t: Table, schema: seq<string>) {
    forall c | c in t.aad :: c < |schema| && !FirstLayerEncrypts(t, schema, c)
  }

  /** The second layer encrypts nothing, or binds what the first layer left alone. */
  predicate BindsPlaintext(t: Table, schema: seq<string>) {
    AadInClear(t, schema) || forall i | 0 <= i < |schema| :: !SecondLayerEncrypts(t, schema, i)
  }

  // ----- Indices are given what they asked for -----

  /** An index reads the columns it tracks, and otherwise only columns that are not encrypted. */
  predicate ReadsOwn(t: Table, schema: seq<string>, x: IndexPlan) {
    forall i | 0 <= i < |x.Exprs()| :: ReadsTracked(t, schema, x.tracked, x.Exprs()[i])
  }

  predicate ReadsTracked(t: Table, schema: seq<string>, tracked: set<string>, e: Expr) {
    forall c | c in Reads(e) :: c < |schema| && (schema[c] in tracked || t.MetaOf(schema[c]).None?)
  }

  predicate AllReadOwn(t: Table, schema: seq<string>, indices: seq<IndexPlan>) {
    forall i | 0 <= i < |indices| :: ReadsOwn(t, schema, indices[i])
  }

  /** The expressions read nothing that the first layer encrypts. */
  predicate IndicesReadClear(t: Table, schema: seq<string>, es: seq<Expr>) {
    forall i | 0 <= i < |es| :: ReadsClear(t, schema, es[i])
  }

  predicate ReadsClear(t: Table, schema: seq<string>, e: Expr) {
    forall c | c in Reads(e) :: c < |schema| && !FirstLayerEncrypts(t, schema, c)
  }

  lemma OwnIsClear(t: Table, schema: seq<string>, x: IndexPlan)
    requires ReadsOwn(t, schema, x) && x.tracked <= Tracked(t.indices)
    ensures IndicesReadClear(t, schema, x.Exprs())
  {
    forall i | 0 <= i < |x.Exprs()|
      ensures ReadsClear(t, schema, x.Exprs()[i])
    {
      assert ReadsTracked(t, schema, x.tracked, x.Exprs()[i]);
    }
  }

  /** Of any first indices, what they add and what they feed their sinks reads only clear columns. */
  lemma {:induction false} RequestsAreMet(t: Table, schema: seq<string>, indices: seq<IndexPlan>)
    requires AllReadOwn(t, schema, indices) && Tracked(indices) <= Tracked(t.indices)
    ensures IndicesReadClear(t, schema, Added(indices)) && IndicesReadClear(t, schema, Flatten(SinkInputs(indices)))
  {
    if indices != [] {
      var x, init := indices[|indices| - 1], indices[..|indices| - 1];
      RequestsAreMet(t, schema, init);
      OwnIsClear(t, schema, x);
      if x.IndexSink? {
        assert SinkInputs(indices)[..|SinkInputs(indices)| - 1] == SinkInputs(init);
        assert Flatten(SinkInputs(indices)) == Flatten(SinkInputs(init)) + x.inputs;
      } else {
        assert SinkInputs(indices) == SinkInputs(init);
      }
    }
  }

  function Position(schema: seq<string>, name: string): (r: Option<nat>)
    ensures r.Some? ==> r.value < |schema| && schema[r.value] == name
    ensures r.None? ==> name !in schema
  {
    if schema == [] then None
    else if schema[0] == name then Some(0)
    else
      var r := Position(schema[1..], name);
      if r.None? then None else Some(r.value + 1)
  }

  /** The plan of a blind or a range index: one column computed from the indexed one, if that is written at all. */
  function ColumnarIndex(column: string, schema: seq<string>, compute: seq<Value> -> Value): IndexPlan {
    var p := Position(schema, column);
    AddColumns({column}, if p.None? then [] else [Computed([p.value], compute)])
  }

  lemma ColumnarReadsOwn(t: Table, column: string, schema: seq<string>, compute: seq<Value> -> Value)
    ensures ReadsOwn(t, schema, ColumnarIndex(column, schema, compute))
  {
    var x := ColumnarIndex(column, schema, compute);
    if x.exprs != [] {
      assert Reads(x.exprs[0]) == {Position(schema, column).value};
    }
  }

  /** An update binds the key columns under their filter names, which no encrypted column has. */
  lemma UpdatesBindInClear(t: Table, schema: seq<string>)
    requires forall c | c in t.aad :: c < |schema| && FILTER_PREFIX <= schema[c]
    requires forall name | name in t.meta :: !(FILTER_PREFIX <= name)
    ensures AadInClear(t, schema)
  {
    forall c | c in t.aad
      ensures !FirstLayerEncrypts(t, schema, c)
    {
      assert schema[c][5] == FILTER_PREFIX[5];
      assert DUPLICATE_PREFIX[5] != FILTER_PREFIX[5];
      assert Strip(schema[c]) == schema[c];
    }
  }

  lemma {:induction false} EvalReads(e: Expr, row: Record, other: Record, seal: Sealer)
    requires forall c | c in Reads(e) :: At(row, c) == At(other, c)
    ensures Eval(e, row, seal) == Eval(e, other, seal)
  {
    match e
    case Column(i) =>
    case ToBinary(x) => EvalReads(x, row, other, seal);
    case Encrypt(x, aad, _, _) =>
      EvalReads(x, row, other, seal);
      assert forall i | 0 <= i < |aad| :: aad[i] in aad;
      assert AadValues(row, aad) == AadValues(other, aad);
    case Computed(columns, _) =>
      assert forall i | 0 <= i < |columns| :: columns[i] in columns;
      assert Pick(row, columns) == Pick(other, columns);
  }

  lemma FirstLayerLeavesClear(t: Table, schema: seq<string>, row: Record, seal: Sealer, c: nat)
    requires |row| == |schema| && c < |schema| && !FirstLayerEncrypts(t, schema, c)
    ensures Project(FirstLayer(t, schema), row, seal)[c] == row[c]
  {
  }

  lemma AadUnchanged(t: Table, schema: seq<string>, row: Record, seal: Sealer)
    requires |row| == |schema| && AadInClear(t, schema)
    ensures AadValues(Project(FirstLayer(t, schema), row, seal), t.aad) == AadValues(row, t.aad)
  {
    var mid := Project(FirstLayer(t, schema), row, seal);
    forall i | 0 <= i < |t.aad|
      ensures At(mid, t.aad[i]) == At(row, t.aad[i])
    {
      assert t.aad[i] in t.aad;
      FirstLayerLeavesClear(t, schema, row, seal, t.aad[i]);
    }
  }

  lemma BaseStored(t: Table, schema: seq<string>, row: Record, seal: Sealer, i: nat)
    requires |row| == |schema| && BindsPlaintext(t, schema) && i < |schema|
    ensures Eval(SecondLayerBase(t, schema)[i], Project(FirstLayer(t, schema), row, seal), seal)
         == StoredColumn(t, schema, row, seal, i)
  {
    var mid := Project(FirstLayer(t, schema), row, seal);
    if FirstLayerEncrypts(t, schema, i) {
      EncryptColumnEval(i, t, t.MetaOf(schema[i]).value, row, seal);
    } else {
      FirstLayerLeavesClear(t, schema, row, seal, i);
      if SecondLayerEncrypts(t, schema, i) {
        AadUnchanged(t, schema, row, seal);
        EncryptColumnEval(i, t, t.MetaOf(schema[i]).value, mid, seal);
      }
    }
  }

  lemma ProjectAppends(a: seq<Expr>, b: seq<Expr>, row: Record, seal: Sealer)
    ensures Project(a + b, row, seal) == Project(a, row, seal) + Project(b, row, seal)
  {
  }

  lemma ClearExpressions(t: Table, schema: seq<string>, es: seq<Expr>, row: Record, seal: Sealer)
    requires |row| == |schema| && IndicesReadClear(t, schema, es)
    ensures Project(es, Project(FirstLayer(t, schema), row, seal), seal) == Project(es, row, seal)
  {
    var mid := Project(FirstLayer(t, schema), row, seal);
    forall i | 0 <= i < |es|
      ensures Eval(es[i], mid, seal) == Eval(es[i], row, seal)
    {
      assert ReadsClear(t, schema, es[i]);
      forall c | c in Reads(es[i])
        ensures At(mid, c) == At(row, c)
      {
        FirstLayerLeavesClear(t, schema, row, seal, c);
      }
      EvalReads(es[i], mid, row, seal);
    }
  }

  /** With nothing tracked, the first layer alone stores the row. */
  lemma OneLayerStores(t: Table, schema: seq<string>, row: Record, seal: Sealer)
    requires |row| == |schema| && Tracked(t.indices) == {}
    ensures Project(FirstLayer(t, schema), row, seal) == StoredBase(t, schema, row, seal)
  {
    forall i | 0 <= i < |schema|
      ensures Project(FirstLayer(t, schema), row, seal)[i] == StoredColumn(t, schema, row, seal, i)
    {
      if FirstLayerEncrypts(t, schema, i) {
        EncryptColumnEval(i, t, t.MetaOf(schema[i]).value, row, seal);
      }
    }
  }

  lemma TwoLayersStore(t: Table, schema: seq<string>, row: Record, seal: Sealer)
    requires |row| == |schema| && BindsPlaintext(t, schema)
    ensures Project(SecondLayerBase(t, schema), Project(FirstLayer(t, schema), row, seal), seal) == StoredBase(t, schema, row, seal)
  {
    forall i | 0 <= i < |schema|
      ensures Project(SecondLayerBase(t, schema), Project(FirstLayer(t, schema), row, seal), seal)[i] == StoredColumn(t, schema, row, seal, i)
    {
      BaseStored(t, schema, row, seal, i);
    }
  }

  lemma ApplyOne(a: seq<Expr>, row: Record, seal: Sealer)
    ensures Apply([a], row, seal) == Project(a, row, seal)
  {
    assert [a][..0] == [];
  }

  lemma ApplyTwo(a: seq<Expr>, b: seq<Expr>, row: Record, seal: Sealer)
    ensures Apply([a, b], row, seal) == Project(b, Project(a, row, seal), seal)
  {
    assert [a, b][..1] == [a];
    ApplyOne(a, row, seal);
  }

  /**
    For every schema, set of indices that read what they track, and row: each encrypted column is
    encrypted exactly once, all under the associated data of the plaintext row; the other columns are
    unchanged; and every index column and every sink input is computed from the plaintext row.
   */
  lemma WritesEncryptOnce(t: Table, schema: seq<string>, row: Record, seal: Sealer)
    requires |row| == |schema| && BindsPlaintext(t, schema) && AllReadOwn(t, schema, t.indices)
    ensures var p := ProjectInsertUpdate(t, schema);
            && Apply(p.layers, row, seal)
               == StoredBase(t, schema, row, seal) + Project(Added(t.indices), row, seal) + Project(Flatten(p.sinks), row, seal)
            && p.keep == |schema| + |Added(t.indices)|
  {
    RequestsAreMet(t, schema, t.indices);
    var p := ProjectInsertUpdate(t, schema);
    var first, base, added, inputs := FirstLayer(t, schema), SecondLayerBase(t, schema), Added(t.indices), Flatten(SinkInputs(t.indices));
    if |p.layers| == 1 {
      ApplyOne(first, row, seal);
      OneLayerStores(t, schema, row, seal);
      assert inputs == [];
    } else {
      var mid := Project(first, row, seal);
      ApplyTwo(first, base + added + inputs, row, seal);
      ProjectAppends(base + added, inputs, mid, seal);
      ProjectAppends(base, added, mid, seal);
      ClearExpressions(t, schema, added, row, seal);
      ClearExpressions(t, schema, inputs, row, seal);
      TwoLayersStore(t, schema, row, seal);
    }
  }

  /** The column is named after an encrypted one, as it is or as the value to be set on a duplicate key. */
  predicate NamedAfter(column: string, name: string) {
    (column == name && !("__pr_dup__" <= name)) || column == "__pr_dup__" + name
  }

  lemma NamedAfterMeans(t: Table, column: string)
    ensures forall name | name in t.meta && NamedAfter(column, name) :: t.MetaOf(column) == Some(t.meta[name])
    ensures (forall name | name in t.meta :: !NamedAfter(column, name)) ==> t.MetaOf(column).None?
  {
    if "__pr_dup__" <= column {
      var rest := column[|"__pr_dup__"|..];
      assert column == "__pr_dup__" + rest;
      forall name | NamedAfter(column, name)
        ensures name == rest
      {
        assert ("__pr_dup__" + name)[|"__pr_dup__"|..] == name;
      }
    }
  }

  /** Which columns are encrypted, with which key and type: those named after an encrypted one. */
  lemma EncryptsByName(t: Table, schema: seq<string>, row: Record, seal: Sealer, i: nat)
    requires |row| == |schema| && BindsPlaintext(t, schema) && AllReadOwn(t, schema, t.indices) && i < |schema|
    ensures i < |Apply(ProjectInsertUpdate(t, schema).layers, row, seal)|
    ensures forall name | name in t.meta && NamedAfter(schema[i], name) ::
              Apply(ProjectInsertUpdate(t, schema).layers, row, seal)[i]
              == if row[i].Null? then Null
                 else Cell(seal(t.meta[name].key, EncodeAad(t.meta[name].typeName, AadValues(row, t.aad)), row[i].binary), true)
    ensures (forall name | name in t.meta :: !NamedAfter(schema[i], name)) ==>
              Apply(ProjectInsertUpdate(t, schema).layers, row, seal)[i] == row[i]
  {
    WritesEncryptOnce(t, schema, row, seal);
    NamedAfterMeans(t, schema[i]);
    assert Apply(ProjectInsertUpdate(t, schema).layers, row, seal)[i] == StoredColumn(t, schema, row, seal, i);
  }

  // ----- Index columns come in order -----

  /** Columns added by indices come index by index. */
  lemma {:induction false} AddedInOrder(first: seq<IndexPlan>, more: seq<IndexPlan>)
    ensures Added(first + more) == Added(first) + Added(more)
    decreases |more|
  {
    if more == [] {
      assert first + more == first;
    } else {
      var n := |more| - 1;
      var all := first + more;
      assert all[..|all| - 1] == first + more[..n] && all[|all| - 1] == more[n];
      AddedInOrder(first, more[..n]);
    }
  }

  /** The inputs of index sinks come index by index. */
  lemma {:induction false} SinkInputsInOrder(first: seq<IndexPlan>, more: seq<IndexPlan>)
    ensures SinkInputs(first + more) == SinkInputs(first) + SinkInputs(more)
    decreases |more|
  {
    if more == [] {
      assert first + more == first;
    } else {
      var n := |more| - 1;
      var all := first + more;
      assert all[..|all| - 1] == first + more[..n] && all[|all| - 1] == more[n];
      SinkInputsInOrder(first, more[..n]);
    }
  }

  /** Every index tracks its columns. */
  lemma {:induction false} TrackedInOrder(first: seq<IndexPlan>, more: seq<IndexPlan>)
    ensures Tracked(first + more) == Tracked(first) + Tracked(more)
    decreases |more|
  {
    if more == [] {
      assert first + more == first;
    } else {
      var n := |more| - 1;
      var all := first + more;
      assert all[..|all| - 1] == first + more[..n] && all[|all| - 1] == more[n];
      TrackedInOrder(first, more[..n]);
    }
  }

  lemma OneIndex(x: IndexPlan)
    ensures Added([x]) == if x.AddColumns? then x.exprs else []
    ensures SinkInputs([x]) == if x.IndexSink? then [x.inputs] else []
    ensures Tracked([x]) == x.tracked
  {
    assert [x][..0] == [];
  }

  /** A blind or range index on a written column adds one column, computed from the plaintext; on any other column it adds none. */
  lemma IndexColumnIsComputed(t: Table, schema: seq<string>, row: Record, seal: Sealer, k: nat, column: string, compute: seq<Value> -> Value)
    requires |row| == |schema| && BindsPlaintext(t, schema) && AllReadOwn(t, schema, t.indices)
    requires k < |t.indices| && t.indices[k] == ColumnarIndex(column, schema, compute)
    ensures var written, before := Apply(ProjectInsertUpdate(t, schema).layers, row, seal), |schema| + |Added(t.indices[..k])|;
            && (column in schema ==>
                  && before < ProjectInsertUpdate(t, schema).keep <= |written|
                  && exists p :: 0 <= p < |schema| && schema[p] == column && written[before] == compute([row[p]]))
            && (column !in schema ==> Added(t.indices[..k + 1]) == Added(t.indices[..k]))
  {
    var p := Position(schema, column);
    AddedAt(t.indices, k);
    if p.Some? {
      var n := |Added(t.indices[..k])|;
      AddedIsWritten(t, schema, row, seal, n);
      assert Added(t.indices)[n] == Computed([p.value], compute);
      assert Pick(row, [p.value]) == [row[p.value]];
    }
  }

  lemma AddedAt(indices: seq<IndexPlan>, k: nat)
    requires k < |indices| && indices[k].AddColumns?
    ensures Added(indices[..k + 1]) == Added(indices[..k]) + indices[k].exprs
    ensures Added(indices[..k + 1]) <= Added(indices)
  {
    assert indices[..k + 1][..k] == indices[..k] && indices == indices[..k + 1] + indices[k + 1..];
    AddedInOrder(indices[..k + 1], indices[k + 1..]);
  }

  /** The added columns follow those of the schema, and are computed from the plaintext row. */
  lemma AddedIsWritten(t: Table, schema: seq<string>, row: Record, seal: Sealer, n: nat)
    requires |row| == |schema| && BindsPlaintext(t, schema) && AllReadOwn(t, schema, t.indices) && n < |Added(t.indices)|
    ensures var written, keep := Apply(ProjectInsertUpdate(t, schema).layers, row, seal), ProjectInsertUpdate(t, schema).keep;
            |schema| + n < keep <= |written| && written[|schema| + n] == Eval(Added(t.indices)[n], row, seal)
  {
    WritesEncryptOnce(t, schema, row, seal);
    assert Project(Added(t.indices), row, seal)[n] == Eval(Added(t.indices)[n], row, seal);
  }

  /** A NULL among the bound columns counts as an empty value. */
  lemma NullBindsAsEmpty(row: Record, i: nat, columns: seq<nat>, encoded: bool)
    requires i < |row|
    ensures AadValues(row[i := Null], columns) == AadValues(row[i := Cell([], encoded)], columns)
  {
    var without, empty := row[i := Null], row[i := Cell([], encoded)];
    assert forall c: nat :: BinaryOf(At(without, c)) == BinaryOf(At(empty, c));
    assert forall j | 0 <= j < |columns| :: AadValues(without, columns)[j] == AadValues(empty, columns)[j];
  }

  /** Ciphertexts are longer than their plaintexts by a fixed number of bytes. */
  ghost predicate Lengthens(seal: Sealer, overhead: nat) {
    0 < overhead < TWO_64 && forall k: string, a: Bytes, m: Bytes :: |seal(k, a, m)| == |m| + overhead
  }

  /** A row of empty cells. */
  function EmptyCells(n: nat): Record {
    seq(n, _ => Cell([], true))
  }

  lemma FirstLayerLengths(t: Table, schema: seq<string>, seal: Sealer, overhead: nat, c: nat)
    requires Lengthens(seal, overhead) && c < |schema|
    ensures |BinaryOf(Project(FirstLayer(t, schema), EmptyCells(|schema|), seal)[c])|
         == if FirstLayerEncrypts(t, schema, c) then overhead else 0
  {
    var row := EmptyCells(|schema|);
    if FirstLayerEncrypts(t, schema, c) {
      EncryptColumnEval(c, t, t.MetaOf(schema[c]).value, row, seal);
    } else {
      FirstLayerLeavesClear(t, schema, row, seal, c);
    }
  }

  /** The second layer computes the same associated data for this row as the first. */
  ghost predicate SameAad(t: Table, schema: seq<string>, seal: Sealer, typeName: Bytes, row: Record) {
    EncodeAad(typeName, AadValues(Project(FirstLayer(t, schema), row, seal), t.aad)) == EncodeAad(typeName, AadValues(row, t.aad))
  }

  /** When a bound column was encrypted before, the row of empty cells gets other associated data. */
  lemma EncryptedAadDiffers(t: Table, schema: seq<string>, seal: Sealer, overhead: nat, typeName: Bytes, i: nat)
    requires Lengthens(seal, overhead) && Addressable(typeName)
    requires forall j | 0 <= j < |t.aad| :: t.aad[j] < |schema|
    requires i < |t.aad| && FirstLayerEncrypts(t, schema, t.aad[i])
    ensures !SameAad(t, schema, seal, typeName, EmptyCells(|schema|))
  {
    var row := EmptyCells(|schema|);
    var mid := Project(FirstLayer(t, schema), row, seal);
    var before, after := AadValues(row, t.aad), AadValues(mid, t.aad);
    forall j | 0 <= j < |t.aad|
      ensures |before[j]| == 0 && |after[j]| == if FirstLayerEncrypts(t, schema, t.aad[j]) then overhead else 0
    {
      FirstLayerLengths(t, schema, seal, overhead, t.aad[j]);
    }
    AadInjective(typeName, after, typeName, before);
    assert after[i] != before[i];
  }

  /** The second layer binds the same values as the first, on every row, exactly when no bound column was encrypted before. */
  lemma AadUnchangedExactly(t: Table, schema: seq<string>, seal: Sealer, overhead: nat, typeName: Bytes)
    requires Lengthens(seal, overhead) && Addressable(typeName)
    requires forall j | 0 <= j < |t.aad| :: t.aad[j] < |schema|
    ensures (forall row: Record | |row| == |schema| :: SameAad(t, schema, seal, typeName, row)) <==> AadInClear(t, schema)
  {
    if AadInClear(t, schema) {
      forall row: Record | |row| == |schema|
        ensures SameAad(t, schema, seal, typeName, row)
      {
        AadUnchanged(t, schema, row, seal);
      }
    } else {
      var c :| c in t.aad && FirstLayerEncrypts(t, schema, c);
      var i :| 0 <= i < |t.aad| && t.aad[i] == c;
      EncryptedAadDiffers(t, schema, seal, overhead, typeName, i);
      assert |EmptyCells(|schema|)| == |schema|;
    }
  }
}

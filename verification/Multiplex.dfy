/** One sink that cuts its batches into the pieces of several sinks. */
module Multiplex {
  import opened Basics
  import WritePipeline

  /** The columns a sink expects. */
  datatype Sink = Sink(fields: seq<string>)

  datatype DmlResult = DmlResult(rows: nat, lastInsertId: Option<nat>)

  /** Where the columns of sink `pos` start. */
  function Offset(sinks: seq<Sink>, pos: nat): nat
    requires pos <= |sinks|
  {
    if pos == 0 then 0 else Offset(sinks, pos - 1) + |sinks[pos - 1].fields|
  }

  lemma {:induction false} OffsetsIncrease(sinks: seq<Sink>, a: nat, b: nat)
    requires a <= b <= |sinks|
    ensures Offset(sinks, a) <= Offset(sinks, b)
  {
    if a < b {
      OffsetsIncrease(sinks, a, b - 1);
    }
  }

  function Width(sinks: seq<Sink>): nat {
    Offset(sinks, |sinks|)
  }

  /** The columns of sink `pos` in a batch. */
  function Piece<C>(sinks: seq<Sink>, pos: nat, batch: seq<C>): seq<C>
    requires pos < |sinks| && Width(sinks) <= |batch|
  {
    OffsetsIncrease(sinks, pos + 1, |sinks|);
    batch[Offset(sinks, pos)..Offset(sinks, pos + 1)]
  }

  ghost predicate IsPiece<C>(sinks: seq<Sink>, pos: nat, batch: seq<C>, piece: seq<C>)
    requires pos < |sinks|
  {
    && Offset(sinks, pos) <= Offset(sinks, pos + 1) <= |batch|
    && piece == batch[Offset(sinks, pos)..Offset(sinks, pos + 1)]
  }

  /** The columns are valid for the fields; `suits` says which column is valid for which field. */
  predicate AllSuit<C>(fields: seq<string>, columns: seq<C>, suits: (string, C) -> bool) {
    |fields| == |columns| && forall i | 0 <= i < |fields| :: suits(fields[i], columns[i])
  }

  ghost predicate BatchSuits<C(!new)>(sinks: seq<Sink>, batch: seq<C>, suits: (string, C) -> bool) {
    Width(sinks) <= |batch| && forall pos | 0 <= pos < |sinks| :: AllSuit(sinks[pos].fields, Piece(sinks, pos, batch), suits)
  }

  /** Takes n columns off the front, one by one; None when there are fewer. */
  method TakeColumns<C>(columns: seq<C>, n: nat) returns (r: Option<seq<C>>)
    ensures r.Some? <==> n <= |columns|
    ensures r.Some? ==> r.value == columns[..n]
  {
    var rest, taken: seq<C> := columns, [];
    for i := 0 to n
      invariant i <= |columns| && taken == columns[..i] && rest == columns[i..]
    {
      if rest == [] {
        return None;
      }
      taken := taken + [rest[0]];
      rest := rest[1..];
    }
    r := Some(taken);
  }

  function AppendEach<T>(lists: seq<seq<T>>, items: seq<T>): (r: seq<seq<T>>)
    requires |lists| == |items|
    ensures |r| == |lists| && forall i | 0 <= i < |r| :: r[i] == lists[i] + [items[i]]
  {
    seq(|lists|, i requires 0 <= i < |lists| => lists[i] + [items[i]])
  }

  class MultiplexSink {
    var schema: seq<string>
    var sinks: seq<Sink>

    constructor ()
      ensures schema == [] && sinks == []
    {
      schema, sinks := [], [];
    }

    ghost predicate Valid()
      reads this
    {
      schema == WritePipeline.Flatten(FieldsOf(sinks))
    }

    method AddSink(sink: Sink)
      requires Valid()
      modifies this
      ensures Valid() && sinks == old(sinks) + [sink]
    {
      schema := schema + sink.fields;
      sinks := sinks + [sink];
      assert FieldsOf(sinks)[..|sinks| - 1] == FieldsOf(old(sinks));
    }

    /** The pieces of one batch, taken off its front sink by sink; None when it is too narrow or a column is invalid. */
    method SplitBatch<C(!new)>(batch: seq<C>, suits: (string, C) -> bool) returns (r: Option<seq<seq<C>>>)
      ensures r.Some? <==> BatchSuits(sinks, batch, suits)
      ensures r.Some? ==> r.value == Pieces(sinks, batch)
    {
      var rest, pieces := batch, [];
      for pos := 0 to |sinks|
        invariant Offset(sinks, pos) <= |batch| && rest == batch[Offset(sinks, pos)..]
        invariant |pieces| == pos
        invariant forall q | 0 <= q < pos :: GoodPiece(sinks, q, batch, pieces[q], suits)
      {
        var taken := TakeColumns(rest, |sinks[pos].fields|);
        if taken.None? || !AllSuit(sinks[pos].fields, taken.value, suits) {
          NoGoodPiece(sinks, pos, batch, suits);
          return None;
        }
        rest := rest[|taken.value|..];
        assert GoodPiece(sinks, pos, batch, taken.value, suits);
        pieces := pieces + [taken.value];
      }
      GoodPieces(sinks, batch, pieces, suits);
      r := Some(pieces);
    }

    /** For each sink, its pieces of all batches in order. */
    method SplitBatches<C(!new)>(data: seq<seq<C>>, suits: (string, C) -> bool) returns (r: Option<seq<seq<seq<C>>>>)
      ensures r.Some? <==> forall b | 0 <= b < |data| :: BatchSuits(sinks, data[b], suits)
      ensures r.Some? ==> |r.value| == |sinks| && forall pos | 0 <= pos < |sinks| :: PiecesOf(sinks, pos, data, r.value[pos])
    {
      var split: seq<seq<seq<C>>> := seq(|sinks|, _ => []);
      for b := 0 to |data|
        invariant forall i | 0 <= i < b :: BatchSuits(sinks, data[i], suits)
        invariant AllPiecesOf(sinks, data[..b], split)
      {
        var pieces := SplitBatch(data[b], suits);
        if pieces.None? {
          return None;
        }
        PiecesGrow(sinks, data, b, split);
        split := AppendEach(split, pieces.value);
      }
      assert data[..|data|] == data;
      r := Some(split);
    }
  }

  /** The columns of sink `pos`, all valid. */
  ghost predicate GoodPiece<C(!new)>(sinks: seq<Sink>, pos: nat, batch: seq<C>, piece: seq<C>, suits: (string, C) -> bool)
    requires pos < |sinks|
  {
    IsPiece(sinks, pos, batch, piece) && AllSuit(sinks[pos].fields, piece, suits)
  }

  lemma NoGoodPiece<C(!new)>(sinks: seq<Sink>, pos: nat, batch: seq<C>, suits: (string, C) -> bool)
    requires pos < |sinks| && Offset(sinks, pos) <= |batch|
    requires Offset(sinks, pos + 1) <= |batch| ==>
               !AllSuit(sinks[pos].fields, batch[Offset(sinks, pos)..][..|sinks[pos].fields|], suits)
    ensures !BatchSuits(sinks, batch, suits)
  {
    OffsetsIncrease(sinks, pos + 1, |sinks|);
    if Width(sinks) <= |batch| {
      assert Piece(sinks, pos, batch) == batch[Offset(sinks, pos)..][..|sinks[pos].fields|];
    }
  }

  lemma GoodPieces<C(!new)>(sinks: seq<Sink>, batch: seq<C>, pieces: seq<seq<C>>, suits: (string, C) -> bool)
    requires |pieces| == |sinks| && Width(sinks) <= |batch|
    requires forall q | 0 <= q < |sinks| :: GoodPiece(sinks, q, batch, pieces[q], suits)
    ensures BatchSuits(sinks, batch, suits) && pieces == Pieces(sinks, batch)
  {
    forall q | 0 <= q < |sinks|
      ensures pieces[q] == Piece(sinks, q, batch) && AllSuit(sinks[q].fields, Piece(sinks, q, batch), suits)
    {
      assert GoodPiece(sinks, q, batch, pieces[q], suits);
    }
  }

  ghost predicate AllPiecesOf<C>(sinks: seq<Sink>, data: seq<seq<C>>, split: seq<seq<seq<C>>>) {
    |split| == |sinks| && forall pos | 0 <= pos < |sinks| :: PiecesOf(sinks, pos, data, split[pos])
  }

  lemma PiecesGrow<C>(sinks: seq<Sink>, data: seq<seq<C>>, b: nat, split: seq<seq<seq<C>>>)
    requires b < |data| && Width(sinks) <= |data[b]| && AllPiecesOf(sinks, data[..b], split)
    ensures AllPiecesOf(sinks, data[..b + 1], AppendEach(split, Pieces(sinks, data[b])))
  {
    forall pos | 0 <= pos < |sinks|
      ensures PiecesOf(sinks, pos, data[..b + 1], split[pos] + [Piece(sinks, pos, data[b])])
    {
      assert PiecesOf(sinks, pos, data[..b], split[pos]);
      assert forall i | 0 <= i < b :: data[..b][i] == data[i];
    }
  }

  function FieldsOf(sinks: seq<Sink>): (r: seq<seq<string>>)
    ensures |r| == |sinks|
  {
    seq(|sinks|, i requires 0 <= i < |sinks| => sinks[i].fields)
  }

  ghost predicate PiecesOf<C>(sinks: seq<Sink>, pos: nat, data: seq<seq<C>>, pieces: seq<seq<C>>)
    requires pos < |sinks|
  {
    |pieces| == |data| && forall b | 0 <= b < |data| :: Width(sinks) <= |data[b]| && pieces[b] == Piece(sinks, pos, data[b])
  }

  // ----- Nothing is lost, everything lines up -----

  function Pieces<C>(sinks: seq<Sink>, batch: seq<C>): (r: seq<seq<C>>)
    requires Width(sinks) <= |batch|
    ensures |r| == |sinks|
  {
    seq(|sinks|, pos requires 0 <= pos < |sinks| => Piece(sinks, pos, batch))
  }

  lemma {:induction false} PiecesUpTo<C>(sinks: seq<Sink>, batch: seq<C>, n: nat)
    requires Width(sinks) <= |batch| && n <= |sinks|
    ensures Offset(sinks, n) <= |batch|
    ensures WritePipeline.Flatten(Pieces(sinks, batch)[..n]) == batch[..Offset(sinks, n)]
  {
    OffsetsIncrease(sinks, n, |sinks|);
    if n > 0 {
      PiecesUpTo(sinks, batch, n - 1);
      assert Pieces(sinks, batch)[..n][..n - 1] == Pieces(sinks, batch)[..n - 1];
    }
  }

  /** The pieces put back together are the batch: no column is dropped, repeated or moved. */
  lemma PiecesRebuild<C>(sinks: seq<Sink>, batch: seq<C>)
    requires Width(sinks) == |batch|
    ensures WritePipeline.Flatten(Pieces(sinks, batch)) == batch
  {
    PiecesUpTo(sinks, batch, |sinks|);
    assert Pieces(sinks, batch)[..|sinks|] == Pieces(sinks, batch);
  }

  /** Cutting a concatenation at the widths of its parts gives the parts back. */
  lemma {:induction false} PiecesOfParts<C>(sinks: seq<Sink>, parts: seq<seq<C>>, n: nat)
    requires |parts| == |sinks| && n <= |sinks|
    requires forall i | 0 <= i < |sinks| :: |parts[i]| == |sinks[i].fields|
    ensures |WritePipeline.Flatten(parts[..n])| == Offset(sinks, n)
    ensures WritePipeline.Flatten(parts[..n]) <= WritePipeline.Flatten(parts)
    decreases |sinks|, n
  {
    if n > 0 {
      PiecesOfParts(sinks, parts, n - 1);
      assert parts[..n][..n - 1] == parts[..n - 1];
    }
    FlattenPrefix(parts, n);
  }

  lemma {:induction false} FlattenPrefix<C>(parts: seq<seq<C>>, n: nat)
    requires n <= |parts|
    ensures WritePipeline.Flatten(parts[..n]) <= WritePipeline.Flatten(parts)
  {
    if n == |parts| {
      assert parts[..n] == parts;
    } else {
      assert parts[..|parts| - 1][..n] == parts[..n];
      FlattenPrefix(parts[..|parts| - 1], n);
    }
  }

  lemma PieceIsPart<C>(sinks: seq<Sink>, parts: seq<seq<C>>, pos: nat)
    requires |parts| == |sinks| && pos < |sinks|
    requires forall i | 0 <= i < |sinks| :: |parts[i]| == |sinks[i].fields|
    ensures Width(sinks) == |WritePipeline.Flatten(parts)|
    ensures Piece(sinks, pos, WritePipeline.Flatten(parts)) == parts[pos]
  {
    PiecesOfParts(sinks, parts, pos);
    PiecesOfParts(sinks, parts, pos + 1);
    PiecesOfParts(sinks, parts, |sinks|);
    assert parts[..|sinks|] == parts;
    assert parts[..pos + 1][..pos] == parts[..pos];
  }

  /** The main sink followed by the index sinks; null when the main sink is alone and needs no multiplexing. */
  method ChainSink(main: Sink, more: seq<Sink>) returns (m: MultiplexSink?)
    ensures m == null <==> more == []
    ensures m != null ==> fresh(m) && m.Valid() && m.sinks == [main] + more
  {
    if more == [] {
      return null;
    }
    var acc := new MultiplexSink();
    assert acc.schema == WritePipeline.Flatten(FieldsOf([]));
    acc.AddSink(main);
    for i := 0 to |more|
      invariant fresh(acc) && acc.Valid() && acc.sinks == [main] + more[..i]
    {
      acc.AddSink(more[i]);
      assert more[..i + 1] == more[..i] + [more[i]];
    }
    assert more[..|more|] == more;
    m := acc;
  }

  /** The parts of a projected row: what the table gets, then the input of each index sink. */
  ghost function RowParts(t: WritePipeline.Table, schema: seq<string>, row: WritePipeline.Record, seal: WritePipeline.Sealer)
    : (parts: seq<WritePipeline.Record>)
    ensures |parts| == 1 + |WritePipeline.SinkInputs(t.indices)|
  {
    var inputs := WritePipeline.SinkInputs(t.indices);
    [WritePipeline.StoredBase(t, schema, row, seal) + WritePipeline.Project(WritePipeline.Added(t.indices), row, seal)]
    + seq(|inputs|, k requires 0 <= k < |inputs| => WritePipeline.Project(inputs[k], row, seal))
  }

  lemma {:induction false} ProjectFlattens(inputs: seq<seq<WritePipeline.Expr>>, row: WritePipeline.Record, seal: WritePipeline.Sealer)
    ensures WritePipeline.Project(WritePipeline.Flatten(inputs), row, seal)
         == WritePipeline.Flatten(seq(|inputs|, k requires 0 <= k < |inputs| => WritePipeline.Project(inputs[k], row, seal)))
  {
    var rows := seq(|inputs|, k requires 0 <= k < |inputs| => WritePipeline.Project(inputs[k], row, seal));
    if inputs != [] {
      var last := |inputs| - 1;
      var init := inputs[..last];
      ProjectFlattens(init, row, seal);
      assert rows[..last] == seq(|init|, k requires 0 <= k < |init| => WritePipeline.Project(init[k], row, seal));
      WritePipeline.ProjectAppends(WritePipeline.Flatten(init), inputs[last], row, seal);
    }
  }

  lemma {:induction false} FlattenCons<C>(head: seq<C>, parts: seq<seq<C>>)
    ensures WritePipeline.Flatten([head] + parts) == head + WritePipeline.Flatten(parts)
  {
    var all := [head] + parts;
    if parts == [] {
      assert all[..0] == [] && all[0] == head;
      assert WritePipeline.Flatten(all) == WritePipeline.Flatten(all[..0]) + head;
    } else {
      var last := |parts| - 1;
      assert all[..last + 1] == [head] + parts[..last];
      FlattenCons(head, parts[..last]);
    }
  }

  /** The projected row is its parts one after the other. */
  lemma PartsOfRow(t: WritePipeline.Table, schema: seq<string>, row: WritePipeline.Record, seal: WritePipeline.Sealer)
    requires |row| == |schema| && WritePipeline.BindsPlaintext(t, schema) && WritePipeline.AllReadOwn(t, schema, t.indices)
    ensures WritePipeline.Apply(WritePipeline.ProjectInsertUpdate(t, schema).layers, row, seal)
         == WritePipeline.Flatten(RowParts(t, schema, row, seal))
  {
    var inputs, parts := WritePipeline.SinkInputs(t.indices), RowParts(t, schema, row, seal);
    WritePipeline.WritesEncryptOnce(t, schema, row, seal);
    ProjectFlattens(inputs, row, seal);
    var rest := seq(|inputs|, k requires 0 <= k < |inputs| => WritePipeline.Project(inputs[k], row, seal));
    FlattenCons(parts[0], rest);
    assert parts == [parts[0]] + rest;
  }

  /**
    From plaintext to sinks: the table sink receives the row with every encrypted column encrypted
    once and its index columns, and each index sink receives exactly its own inputs, computed from
    the plaintext row.
   */
  lemma SinksReceiveTheirParts(t: WritePipeline.Table, schema: seq<string>, row: WritePipeline.Record,
                               seal: WritePipeline.Sealer, main: Sink, more: seq<Sink>, pos: nat)
    requires |row| == |schema| && WritePipeline.BindsPlaintext(t, schema) && WritePipeline.AllReadOwn(t, schema, t.indices)
    requires |main.fields| == WritePipeline.ProjectInsertUpdate(t, schema).keep
    requires |more| == |WritePipeline.SinkInputs(t.indices)| && pos <= |more|
    requires forall k | 0 <= k < |more| :: |more[k].fields| == |WritePipeline.SinkInputs(t.indices)[k]|
    ensures var out := WritePipeline.Apply(WritePipeline.ProjectInsertUpdate(t, schema).layers, row, seal);
            && Width([main] + more) == |out|
            && Piece([main] + more, pos, out) == RowParts(t, schema, row, seal)[pos]
  {
    PartsOfRow(t, schema, row, seal);
    var parts, sinks := RowParts(t, schema, row, seal), [main] + more;
    assert forall i | 0 <= i < |sinks| :: |parts[i]| == |sinks[i].fields|;
    PieceIsPart(sinks, parts, pos);
  }

  // ----- Results -----

  /** The largest row count, and the first reported id. */
  ghost predicate Combines(results: seq<DmlResult>, r: DmlResult) {
    && (forall i | 0 <= i < |results| :: results[i].rows <= r.rows)
    && (r.rows == 0 || exists i | 0 <= i < |results| :: results[i].rows == r.rows)
    && (r.lastInsertId.None? <==> forall i | 0 <= i < |results| :: results[i].lastInsertId.None?)
    && (r.lastInsertId.Some? ==>
          exists i | 0 <= i < |results| :: results[i].lastInsertId == r.lastInsertId
                                           && forall j | 0 <= j < i :: results[j].lastInsertId.None?)
  }

  /** Sinks run in order; the first failure ends the run. */
  method CombineResults(results: seq<Result<DmlResult>>) returns (r: Result<DmlResult>)
    ensures r.Err? <==> exists i | 0 <= i < |results| :: results[i].Err?
    ensures r.Ok? ==> Combines(seq(|results|, i requires 0 <= i < |results| && results[i].Ok? => results[i].value), r.value)
  {
    var acc := DmlResult(0, None);
    ghost var done: seq<DmlResult> := [];
    for n := 0 to |results|
      invariant |done| == n && forall i | 0 <= i < n :: results[i].Ok? && done[i] == results[i].value
      invariant Combines(done, acc)
    {
      if results[n].Err? {
        return Err(results[n].error);
      }
      var x := results[n].value;
      ghost var next := done + [x];
      var rows := if acc.rows >= x.rows then acc.rows else x.rows;
      var id := if acc.lastInsertId.Some? then acc.lastInsertId else x.lastInsertId;
      assert forall i | 0 <= i < n :: next[i] == done[i];
      assert next[n] == x;
      acc := DmlResult(rows, id);
      done := next;
    }
    r := Ok(acc);
    assert done == seq(|results|, i requires 0 <= i < |results| && results[i].Ok? => results[i].value);
  }
}

/** The length-prefixed encodings behind the associated data of a ciphertext and behind row identifiers. */
module LengthPrefixed {
  import opened Basics

  type Byte = b: int | 0 <= b < 256
  type Bytes = seq<Byte>

  const TWO_64: int := 0x1_0000_0000_0000_0000
  const MAX_I32: int := 0x7FFF_FFFF

  // ----- Lengths as eight big-endian bytes -----

  function BigEndian(n: nat, width: nat): (b: Bytes)
    ensures |b| == width
  {
    if width == 0 then [] else BigEndian(n / 256, width - 1) + [n % 256]
  }

  function FromBigEndian(b: Bytes): nat {
    if b == [] then 0 else 256 * FromBigEndian(b[..|b| - 1]) + b[|b| - 1]
  }

  ghost function Pow256(k: nat): nat {
    if k == 0 then 1 else 256 * Pow256(k - 1)
  }

  lemma {:induction false} BigEndianRoundTrip(n: nat, width: nat)
    requires n < Pow256(width)
    ensures FromBigEndian(BigEndian(n, width)) == n
  {
    if width > 0 {
      BigEndianRoundTrip(n / 256, width - 1);
      assert BigEndian(n, width)[..width - 1] == BigEndian(n / 256, width - 1);
    }
  }

  lemma EightBytes()
    ensures Pow256(8) == TWO_64
  {
    assert Pow256(2) == 0x1_0000;
    assert Pow256(4) == 0x1_0000_0000;
    assert Pow256(6) == 0x1_0000_0000_0000;
  }

  // ----- Values -----

  /** The length of a value as a machine word. */
  function Length(v: Bytes): (b: Bytes)
    ensures |b| == 8
  {
    BigEndian(|v|, 8)
  }

  function EncodeValue(v: Bytes): Bytes {
    Length(v) + v
  }

  function EncodeValues(vs: seq<Bytes>): Bytes {
    if vs == [] then [] else EncodeValues(vs[..|vs| - 1]) + EncodeValue(vs[|vs| - 1])
  }

  /** Lengths are machine words. */
  predicate Addressable(v: Bytes) {
    |v| < TWO_64
  }

  predicate AllAddressable(vs: seq<Bytes>) {
    forall i | 0 <= i < |vs| :: Addressable(vs[i])
  }

  lemma ValueIsPrefixFree(v: Bytes, w: Bytes, x: Bytes, y: Bytes)
    requires Addressable(v) && Addressable(w)
    requires EncodeValue(v) + x == EncodeValue(w) + y
    ensures v == w && x == y
  {
    var a, b := EncodeValue(v) + x, EncodeValue(w) + y;
    assert a[..8] == Length(v) && b[..8] == Length(w);
    EightBytes();
    BigEndianRoundTrip(|v|, 8);
    BigEndianRoundTrip(|w|, 8);
    assert a[8..8 + |v|] == v && b[8..8 + |w|] == w;
    assert a[8 + |v|..] == x && b[8 + |w|..] == y;
  }

  lemma {:induction false} EncodeValuesCons(v: Bytes, vs: seq<Bytes>)
    ensures EncodeValues([v] + vs) == EncodeValue(v) + EncodeValues(vs)
  {
    var all := [v] + vs;
    var e, init := EncodeValue(all[|all| - 1]), all[..|all| - 1];
    assert EncodeValues(all) == EncodeValues(init) + e;
    if vs == [] {
      assert init == [] && all[|all| - 1] == v;
    } else {
      var rest := vs[..|vs| - 1];
      assert init == [v] + rest;
      EncodeValuesCons(v, rest);
      assert EncodeValues(vs) == EncodeValues(rest) + e;
    }
  }

  /** A list of values can be read back from its encoding without knowing how many there are. */
  lemma {:induction false} ValuesInjective(vs: seq<Bytes>, ws: seq<Bytes>)
    requires AllAddressable(vs) && AllAddressable(ws)
    requires EncodeValues(vs) == EncodeValues(ws)
    ensures vs == ws
    decreases |vs|
  {
    if vs != [] { EncodeValuesCons(vs[0], vs[1..]); assert vs == [vs[0]] + vs[1..]; }
    if ws != [] { EncodeValuesCons(ws[0], ws[1..]); assert ws == [ws[0]] + ws[1..]; }
    if vs != [] && ws != [] {
      ValueIsPrefixFree(vs[0], ws[0], EncodeValues(vs[1..]), EncodeValues(ws[1..]));
      ValuesInjective(vs[1..], ws[1..]);
    }
  }

  // ----- Keys -----

  /** The input of the keyed identifier; the count is cut to one byte. */
  function EncodeRowId(values: seq<Bytes>): Bytes {
    [|values| % 256] + EncodeValues(values)
  }

  /** Although the count is cut, keys of any number of columns have different encodings. */
  lemma RowIdInjective(vs: seq<Bytes>, ws: seq<Bytes>)
    requires AllAddressable(vs) && AllAddressable(ws)
    ensures EncodeRowId(vs) == EncodeRowId(ws) <==> vs == ws
  {
    if EncodeRowId(vs) == EncodeRowId(ws) {
      assert EncodeRowId(vs)[1..] == EncodeValues(vs) && EncodeRowId(ws)[1..] == EncodeValues(ws);
      ValuesInjective(vs, ws);
    }
  }

  // ----- Associated data -----

  function AadBase(typeName: Bytes, columns: nat): Bytes {
    EncodeValue(typeName) + [columns % 256]
  }

  /** The associated data of one row: the column type, the number of bound values, the values. */
  function EncodeAad(typeName: Bytes, values: seq<Bytes>): Bytes {
    AadBase(typeName, |values|) + EncodeValues(values)
  }

  lemma AadLayout(t: Bytes, vs: seq<Bytes>)
    ensures EncodeAad(t, vs) == EncodeValue(t) + EncodeRowId(vs)
  {
  }

  /** Equal associated data means equal type and equal bound values, however many values there are. */
  lemma AadInjective(t: Bytes, vs: seq<Bytes>, u: Bytes, ws: seq<Bytes>)
    requires Addressable(t) && Addressable(u) && AllAddressable(vs) && AllAddressable(ws)
    ensures EncodeAad(t, vs) == EncodeAad(u, ws) <==> t == u && vs == ws
  {
    if EncodeAad(t, vs) == EncodeAad(u, ws) {
      AadLayout(t, vs);
      AadLayout(u, ws);
      ValueIsPrefixFree(t, u, EncodeRowId(vs), EncodeRowId(ws));
      RowIdInjective(vs, ws);
    }
  }

  // ----- Reading encodings back -----

  /** Eight bytes of length, most significant first, then as many bytes. */
  function ReadValue(b: Bytes): Option<(Bytes, Bytes)> {
    if |b| < 8 then None
    else
      var n := FromBigEndian(b[..8]);
      if |b| - 8 < n then None else Some((b[8..8 + n], b[8 + n..]))
  }

  /** Exactly n values. */
  function ReadValues(b: Bytes, n: nat): Option<seq<Bytes>> {
    if n == 0 then if b == [] then Some([]) else None
    else
      match ReadValue(b)
      case None => None
      case Some((v, rest)) =>
        match ReadValues(rest, n - 1)
        case None => None
        case Some(vs) => Some([v] + vs)
  }

  /** A byte that counts the values, then the values. */
  function ReadRowId(b: Bytes): Option<seq<Bytes>> {
    if b == [] then None else ReadValues(b[1..], b[0])
  }

  /** The type, then as for a key. */
  function ReadAad(b: Bytes): Option<(Bytes, seq<Bytes>)> {
    match ReadValue(b)
    case None => None
    case Some((t, rest)) =>
      match ReadRowId(rest)
      case None => None
      case Some(vs) => Some((t, vs))
  }

  lemma ReadsValue(v: Bytes, rest: Bytes)
    requires Addressable(v)
    ensures ReadValue(EncodeValue(v) + rest) == Some((v, rest))
  {
    var b := EncodeValue(v) + rest;
    assert b[..8] == Length(v);
    EightBytes();
    BigEndianRoundTrip(|v|, 8);
    assert b[8..8 + |v|] == v && b[8 + |v|..] == rest;
  }

  lemma {:induction false} ReadsValues(vs: seq<Bytes>)
    requires AllAddressable(vs)
    ensures ReadValues(EncodeValues(vs), |vs|) == Some(vs)
    decreases |vs|
  {
    if vs != [] {
      assert vs == [vs[0]] + vs[1..];
      EncodeValuesCons(vs[0], vs[1..]);
      ReadsValue(vs[0], EncodeValues(vs[1..]));
      ReadsValues(vs[1..]);
    }
  }

  /** Up to 255 values the key is read back from its encoding. */
  lemma ReadsRowId(vs: seq<Bytes>)
    requires AllAddressable(vs) && |vs| < 256
    ensures ReadRowId(EncodeRowId(vs)) == Some(vs)
  {
    ReadsValues(vs);
    CountThenValues(|vs|, EncodeValues(vs), EncodeRowId(vs), Some(vs));
  }

  lemma CountThenValues(n: nat, values: Bytes, b: Bytes, r: Option<seq<Bytes>>)
    requires n < 256 && b == [n] + values && ReadValues(values, n) == r
    ensures ReadRowId(b) == r
  {
    assert b[1..] == values;
  }

  /** Up to 255 values type and values are read back from the associated data. */
  lemma ReadsAad(t: Bytes, vs: seq<Bytes>)
    requires Addressable(t) && AllAddressable(vs) && |vs| < 256
    ensures ReadAad(EncodeAad(t, vs)) == Some((t, vs))
  {
    AadLayout(t, vs);
    ReadsValue(t, EncodeRowId(vs));
    ReadsRowId(vs);
  }

  // ----- Arrays -----

  /** One scalar for all rows, or one value a row: row i is the slice between offsets i and i + 1. */
  datatype Aad = Scalar(bytes: Bytes) | Array(offsets: seq<nat>, data: Bytes)

  ghost predicate SliceIs(a: Aad, i: nat, expected: Bytes)
    requires a.Array?
  {
    && i + 1 < |a.offsets|
    && a.offsets[i] <= a.offsets[i + 1] <= |a.data|
    && a.data[a.offsets[i]..a.offsets[i + 1]] == expected
  }

  function RowOf(columns: seq<seq<Bytes>>, row: nat): (r: seq<Bytes>)
    requires forall c | 0 <= c < |columns| :: row < |columns[c]|
    ensures |r| == |columns|
  {
    seq(|columns|, c requires 0 <= c < |columns| => columns[c][row])
  }

  /** Slice i of the buffer is the encoding of row i. */
  ghost predicate SlicesAre(a: Aad, typeName: Bytes, columns: seq<seq<Bytes>>, rows: nat)
    requires a.Array?
    requires forall c | 0 <= c < |columns| :: rows <= |columns[c]|
  {
    && |a.offsets| == rows + 1 && a.offsets[0] == 0 && a.offsets[rows] == |a.data|
    && forall i | 0 <= i < rows :: SliceIs(a, i, EncodeAad(typeName, RowOf(columns, i)))
  }

  /** The size of the buffer. Offsets are 32-bit integers, so it is limited. */
  function TotalAad(typeName: Bytes, columns: seq<seq<Bytes>>, rows: nat): nat
    requires forall c | 0 <= c < |columns| :: rows <= |columns[c]|
  {
    if rows == 0 then 0 else TotalAad(typeName, columns, rows - 1) + |EncodeAad(typeName, RowOf(columns, rows - 1))|
  }

  /** Appends the length-prefixed values of one row. */
  method AppendRow(buffer: Bytes, columns: seq<seq<Bytes>>, row: nat) returns (output: Bytes)
    requires forall c | 0 <= c < |columns| :: row < |columns[c]|
    ensures output == buffer + EncodeValues(RowOf(columns, row))
  {
    output := buffer;
    ghost var values := RowOf(columns, row);
    for c := 0 to |columns|
      invariant output == buffer + EncodeValues(values[..c])
    {
      var v := columns[c][row];
      assert values[..c + 1][..c] == values[..c];
      output := output + Length(v);
      output := output + v;
    }
    assert values[..|columns|] == values;
  }

  method EvaluateAad(typeName: Bytes, rows: nat, columns: seq<seq<Bytes>>) returns (r: Result<Aad>)
    requires forall c | 0 <= c < |columns| :: |columns[c]| == rows
    ensures r.Err? <==> |columns| > 255 || (columns != [] && TotalAad(typeName, columns, rows) > MAX_I32)
    ensures r.Ok? && columns == [] ==> r.value == Scalar(EncodeAad(typeName, []))
    ensures r.Ok? && columns != [] ==> r.value.Array? && SlicesAre(r.value, typeName, columns, rows)
  {
    if |columns| > 255 {
      return Err("too many values used for AAD computation");
    }
    var base := Length(typeName) + typeName + [|columns|];
    assert base == AadBase(typeName, |columns|);
    if columns == [] {
      assert base + EncodeValues([]) == base;
      return Ok(Scalar(base));
    }
    var output: Bytes, offsets: seq<nat>, offset := [], [0], 0;
    for index := 0 to rows
      invariant SlicesAre(Array(offsets, output), typeName, columns, index)
      invariant offset == |output| == TotalAad(typeName, columns, index)
    {
      output := AppendAad(base, typeName, output, offsets, columns, index);
      offsets := offsets + [offset + (|output| - offset)];
      offset := |output|;
    }
    if offset > MAX_I32 {
      return Err("overflow");
    }
    r := Ok(Array(offsets, output));
  }

  /** One turn of the loop: appends the encoding of a row. */
  method AppendAad(base: Bytes, ghost typeName: Bytes, buffer: Bytes, ghost offsets: seq<nat>, columns: seq<seq<Bytes>>, row: nat)
    returns (output: Bytes)
    requires forall c | 0 <= c < |columns| :: row < |columns[c]|
    requires base == AadBase(typeName, |columns|) && SlicesAre(Array(offsets, buffer), typeName, columns, row)
    ensures output == buffer + EncodeAad(typeName, RowOf(columns, row))
    ensures SlicesAre(Array(offsets + [|output|], output), typeName, columns, row + 1)
  {
    output := AppendRow(buffer + base, columns, row);
    BaseAndValues(buffer, base, typeName, RowOf(columns, row), output);
    SlicesGrow(Array(offsets, buffer), typeName, columns, row, output);
  }

  lemma BaseAndValues(before: Bytes, base: Bytes, typeName: Bytes, values: seq<Bytes>, after: Bytes)
    requires base == AadBase(typeName, |values|) && after == (before + base) + EncodeValues(values)
    ensures after == before + EncodeAad(typeName, values)
  {
  }

  lemma SlicesGrow(a: Aad, typeName: Bytes, columns: seq<seq<Bytes>>, rows: nat, output: Bytes)
    requires a.Array?
    requires forall c | 0 <= c < |columns| :: rows < |columns[c]|
    requires SlicesAre(a, typeName, columns, rows)
    requires output == a.data + EncodeAad(typeName, RowOf(columns, rows))
    ensures SlicesAre(Array(a.offsets + [|output|], output), typeName, columns, rows + 1)
  {
    var b := Array(a.offsets + [|output|], output);
    forall i | 0 <= i < rows + 1
      ensures SliceIs(b, i, EncodeAad(typeName, RowOf(columns, i)))
    {
      if i < rows {
        assert SliceIs(a, i, EncodeAad(typeName, RowOf(columns, i)));
        assert output[b.offsets[i]..b.offsets[i + 1]] == a.data[a.offsets[i]..a.offsets[i + 1]];
      }
    }
  }

  // ----- Row identifiers -----

  /** One buffer is reused for all rows; `expand` is the keyed identifier of a byte string. */
  method ComputeRowIds(columns: seq<seq<Bytes>>, rows: nat, expand: Bytes -> Bytes) returns (ids: seq<Bytes>)
    requires forall c | 0 <= c < |columns| :: |columns[c]| == rows
    ensures |ids| == rows
    ensures forall i | 0 <= i < rows :: ids[i] == expand(EncodeRowId(RowOf(columns, i)))
  {
    ids := [];
    var buffer: Bytes := [];
    for i := 0 to rows
      invariant |ids| == i && buffer == []
      invariant forall j | 0 <= j < i :: ids[j] == expand(EncodeRowId(RowOf(columns, j)))
    {
      buffer := buffer + [|columns| % 256];
      buffer := AppendRow(buffer, columns, i);
      assert buffer == EncodeRowId(RowOf(columns, i));
      ids := ids + [expand(buffer)];
      buffer := [];
    }
  }
}

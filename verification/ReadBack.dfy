/**
  Reading back what was written. A ciphertext is bound to the key columns as they are named when it
  is written: an insert binds the key that is inserted, an update the key that the row had before,
  under its filter name. On reading, the key columns of the stored row are bound.
 */
module ReadBack {
  import opened Basics
  import opened LengthPrefixed
  import opened WritePipeline

  /** Decryption under the key of a column, with associated data. */
  type Opener = (string, Bytes, Bytes) -> Option<Bytes>

  /** What was sealed is opened with the same associated data, and not with any other in use. */
  ghost predicate Opens(seal: Sealer, open: Opener, used: set<Bytes>) {
    && (forall k: string, a: Bytes, m: Bytes :: open(k, a, seal(k, a, m)) == Some(m))
    && (forall k: string, a: Bytes, b: Bytes, m: Bytes :: a in used && b in used && a != b ==> open(k, b, seal(k, a, m)) == None)
  }

  function Tag(special: Bytes, a: Bytes): Byte {
    if a == special then 1 else 0
  }

  /** Such a pair exists for any two associated data: a tag tells the first from all others. */
  lemma OpensCanBeMet(a: Bytes, b: Bytes) returns (seal: Sealer, open: Opener)
    ensures Opens(seal, open, {a, b}) && Lengthens(seal, 1)
  {
    seal := (k: string, x: Bytes, m: Bytes) => [Tag(a, x)] + m;
    open := (k: string, x: Bytes, s: Bytes) => if s != [] && s[0] == Tag(a, x) then Some(s[1..]) else None;
    forall k: string, x: Bytes, m: Bytes
      ensures open(k, x, seal(k, x, m)) == Some(m)
    {
      assert ([Tag(a, x)] + m)[1..] == m;
    }
  }

  /** Column j of the associated data is the key column j under the prefix. */
  predicate BindsKeys(t: Table, schema: seq<string>, keys: seq<string>, prefix: string) {
    |t.aad| == |keys| && forall j | 0 <= j < |keys| :: Position(schema, prefix + keys[j]) == Some(t.aad[j])
  }

  /** A key column of the stored row: as written, or, if it is not among the written columns, as it was. */
  function KeyAfter(schema: seq<string>, row: Record, written: Record, key: string, bound: nat): Value {
    var p := Position(schema, key);
    if p.Some? then At(written, p.value) else At(row, bound)
  }

  function KeysAfter(t: Table, schema: seq<string>, keys: seq<string>, row: Record, written: Record): (r: seq<Bytes>)
    requires |t.aad| == |keys|
    ensures |r| == |keys|
  {
    seq(|keys|, j requires 0 <= j < |keys| => BinaryOf(KeyAfter(schema, row, written, keys[j], t.aad[j])))
  }

  function Written(t: Table, schema: seq<string>, row: Record, seal: Sealer): Record {
    Apply(ProjectInsertUpdate(t, schema).layers, row, seal)
  }

  /** What reading column i of the stored row gives. */
  function ReadColumn(t: Table, schema: seq<string>, keys: seq<string>, row: Record, seal: Sealer, open: Opener, i: nat): Option<Bytes>
    requires |t.aad| == |keys| && i < |schema| && t.MetaOf(schema[i]).Some?
  {
    var written, m := Written(t, schema, row, seal), t.MetaOf(schema[i]).value;
    var cell := At(written, i);
    if cell.Null? then None else open(m.key, EncodeAad(m.typeName, KeysAfter(t, schema, keys, row, written)), cell.binary)
  }

  /** The associated data used for column i on writing and on reading. */
  function AadsInUse(t: Table, schema: seq<string>, keys: seq<string>, row: Record, seal: Sealer, i: nat): set<Bytes>
    requires |t.aad| == |keys| && i < |schema| && t.MetaOf(schema[i]).Some?
  {
    var ty := t.MetaOf(schema[i]).value.typeName;
    {EncodeAad(ty, AadValues(row, t.aad)), EncodeAad(ty, KeysAfter(t, schema, keys, row, Written(t, schema, row, seal)))}
  }

  /** The row can be written as intended, the column is encrypted and not NULL, and all lengths are machine words. */
  ghost predicate Writable(t: Table, schema: seq<string>, keys: seq<string>, row: Record, seal: Sealer, i: nat) {
    && |row| == |schema| && BindsPlaintext(t, schema) && AllReadOwn(t, schema, t.indices) && |t.aad| == |keys|
    && i < |schema| && t.MetaOf(schema[i]).Some? && row[i].Cell? && Addressable(t.MetaOf(schema[i]).value.typeName)
    && AllAddressable(AadValues(row, t.aad))
    && AllAddressable(KeysAfter(t, schema, keys, row, Written(t, schema, row, seal)))
  }

  lemma WrittenColumn(t: Table, schema: seq<string>, row: Record, seal: Sealer, i: nat)
    requires |row| == |schema| && BindsPlaintext(t, schema) && AllReadOwn(t, schema, t.indices) && i < |schema|
    ensures At(Written(t, schema, row, seal), i) == StoredColumn(t, schema, row, seal, i)
  {
    WritesEncryptOnce(t, schema, row, seal);
  }

  /** An encrypted value is read back exactly when the key columns of the stored row are those that were bound. */
  lemma ReadsBackExactly(t: Table, schema: seq<string>, keys: seq<string>, row: Record, seal: Sealer, open: Opener, i: nat)
    requires Writable(t, schema, keys, row, seal, i) && Opens(seal, open, AadsInUse(t, schema, keys, row, seal, i))
    ensures ReadColumn(t, schema, keys, row, seal, open, i) == Some(row[i].binary)
            <==> KeysAfter(t, schema, keys, row, Written(t, schema, row, seal)) == AadValues(row, t.aad)
  {
    WrittenColumn(t, schema, row, seal, i);
    var m := t.MetaOf(schema[i]).value;
    AadInjective(m.typeName, KeysAfter(t, schema, keys, row, Written(t, schema, row, seal)), m.typeName, AadValues(row, t.aad));
  }

  // ----- Updates -----

  /** The update leaves the key as it was: each key column is not written, or written with its old value. */
  predicate KeyUnchanged(t: Table, schema: seq<string>, keys: seq<string>, row: Record)
    requires |t.aad| == |keys|
  {
    forall j | 0 <= j < |keys| ::
      var p := Position(schema, keys[j]);
      p.Some? ==> BinaryOf(At(row, p.value)) == BinaryOf(At(row, t.aad[j]))
  }

  /** Key columns are not encrypted. */
  predicate KeysInClear(t: Table, keys: seq<string>) {
    forall j | 0 <= j < |keys| :: t.MetaOf(keys[j]).None?
  }

  lemma ClearKeyIsWritten(t: Table, schema: seq<string>, row: Record, seal: Sealer, key: string)
    requires |row| == |schema| && BindsPlaintext(t, schema) && AllReadOwn(t, schema, t.indices) && t.MetaOf(key).None?
    ensures var p := Position(schema, key); p.Some? ==> At(Written(t, schema, row, seal), p.value) == At(row, p.value)
  {
    var p := Position(schema, key);
    if p.Some? { WrittenColumn(t, schema, row, seal, p.value); }
  }

  /** After an update, with clear keys, an encrypted value is read back exactly when the update leaves the key unchanged. */
  lemma UpdateReadsBackExactly(t: Table, schema: seq<string>, keys: seq<string>, row: Record, seal: Sealer, open: Opener, i: nat)
    requires Writable(t, schema, keys, row, seal, i) && Opens(seal, open, AadsInUse(t, schema, keys, row, seal, i))
    requires BindsKeys(t, schema, keys, FILTER_PREFIX) && KeysInClear(t, keys)
    ensures ReadColumn(t, schema, keys, row, seal, open, i) == Some(row[i].binary) <==> KeyUnchanged(t, schema, keys, row)
  {
    ReadsBackExactly(t, schema, keys, row, seal, open, i);
    var after, bound := KeysAfter(t, schema, keys, row, Written(t, schema, row, seal)), AadValues(row, t.aad);
    forall j | 0 <= j < |keys|
      ensures var p := Position(schema, keys[j]);
              after[j] == bound[j] <==> (p.Some? ==> BinaryOf(At(row, p.value)) == BinaryOf(At(row, t.aad[j])))
    {
      ClearKeyIsWritten(t, schema, row, seal, keys[j]);
    }
    if after == bound {
      assert forall j | 0 <= j < |keys| :: after[j] == bound[j];
    }
  }

  // ----- Inserts -----

  /** After an insert of a key without NULLs, an encrypted value is read back exactly when no key column is itself encrypted. */
  lemma InsertReadsBackExactly(t: Table, schema: seq<string>, keys: seq<string>, row: Record, seal: Sealer, open: Opener, overhead: nat, i: nat)
    requires Writable(t, schema, keys, row, seal, i) && Opens(seal, open, AadsInUse(t, schema, keys, row, seal, i))
    requires BindsKeys(t, schema, keys, "") && Lengthens(seal, overhead)
    requires forall j | 0 <= j < |keys| :: At(row, t.aad[j]).Cell?
    ensures ReadColumn(t, schema, keys, row, seal, open, i) == Some(row[i].binary) <==> KeysInClear(t, keys)
  {
    ReadsBackExactly(t, schema, keys, row, seal, open, i);
    var after, bound := KeysAfter(t, schema, keys, row, Written(t, schema, row, seal)), AadValues(row, t.aad);
    forall j | 0 <= j < |keys|
      ensures after[j] == bound[j] <==> t.MetaOf(keys[j]).None?
    {
      assert "" + keys[j] == keys[j];
      WrittenColumn(t, schema, row, seal, t.aad[j]);
    }
    if after == bound {
      assert forall j | 0 <= j < |keys| :: after[j] == bound[j];
    }
  }
}

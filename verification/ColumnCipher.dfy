/** Encrypting a binary column value by value, and decrypting it into one preallocated buffer. */
module ColumnCipher {
  import opened Basics
  import opened LengthPrefixed

  /**
    An AEAD in the sense of sections 2.1 and 2.2 of RFC 5116, with the tag kept apart from the body.
    Arguments are the nonce, the associated data and the message (or body and tag).
   */
  datatype Cipher = Cipher(nonceSize: nat, tagSize: nat, tagFirst: bool,
                           seal: (Bytes, Bytes, Bytes) -> (Bytes, Bytes),
                           open: (Bytes, Bytes, Bytes, Bytes) -> Option<Bytes>)

  /** Decryption inverts encryption and accepts nothing else. */
  ghost predicate Ideal(c: Cipher) {
    && (forall n: Bytes, a: Bytes, m: Bytes ::
          && |c.seal(n, a, m).0| == |m| && |c.seal(n, a, m).1| == c.tagSize
          && c.open(n, a, c.seal(n, a, m).0, c.seal(n, a, m).1) == Some(m))
    && (forall n: Bytes, a: Bytes, b: Bytes, t: Bytes ::
          c.open(n, a, b, t).Some? ==> c.seal(n, a, c.open(n, a, b, t).value) == (b, t))
  }

  /**
    Among the associated data in use no ciphertext is valid under two. Tags are short, so this cannot
    be asked of all byte strings.
   */
  ghost predicate BindingOn(c: Cipher, used: set<Bytes>) {
    forall n: Bytes, a: Bytes, m: Bytes, b: Bytes, k: Bytes ::
      a in used && b in used && c.seal(n, a, m) == c.seal(n, b, k) ==> a == b
  }

  /** What is assumed of ciphers can be met: here the tag tells `special` from all other associated data. */
  function Telling(special: Bytes, nonceSize: nat, tagFirst: bool): Cipher {
    Cipher(nonceSize, 1, tagFirst,
           (n: Bytes, a: Bytes, m: Bytes) => (m, TellingTag(special, a)),
           (n: Bytes, a: Bytes, b: Bytes, t: Bytes) => if t == TellingTag(special, a) then Some(b) else None)
  }

  function TellingTag(special: Bytes, a: Bytes): Bytes {
    [if a == special then 1 else 0]
  }

  lemma TellingIsIdealAndBinding(a: Bytes, b: Bytes, nonceSize: nat, tagFirst: bool)
    ensures Ideal(Telling(a, nonceSize, tagFirst)) && BindingOn(Telling(a, nonceSize, tagFirst), {a, b})
  {
    var c := Telling(a, nonceSize, tagFirst);
    forall n: Bytes, x: Bytes, m: Bytes, y: Bytes, k: Bytes | x in {a, b} && y in {a, b} && c.seal(n, x, m) == c.seal(n, y, k)
      ensures x == y
    {
      assert TellingTag(a, x)[0] == TellingTag(a, y)[0];
    }
  }

  // ----- One value -----

  /** Body and tag in the order of the cipher, then the nonce. */
  function Encrypt(c: Cipher, nonce: Bytes, message: Bytes, aad: Bytes): Bytes {
    var (body, tag) := c.seal(nonce, aad, message);
    (if c.tagFirst then tag + body else body + tag) + nonce
  }

  /** The plaintext of a stored value, if it is long enough and authentic. */
  function Decrypt(c: Cipher, stored: Bytes, aad: Bytes): Option<Bytes> {
    if |stored| < c.nonceSize + c.tagSize then None
    else
      var sealed, nonce := stored[..|stored| - c.nonceSize], stored[|stored| - c.nonceSize..];
      var body := if c.tagFirst then sealed[c.tagSize..] else sealed[..|sealed| - c.tagSize];
      var tag := if c.tagFirst then sealed[..c.tagSize] else sealed[|sealed| - c.tagSize..];
      c.open(nonce, aad, body, tag)
  }

  /** The layout of a stored value: the nonce comes last, the tag at its end of the rest. */
  lemma StoredLayout(c: Cipher, nonce: Bytes, message: Bytes, aad: Bytes)
    requires Ideal(c) && |nonce| == c.nonceSize
    ensures var stored, n := Encrypt(c, nonce, message, aad), |message| + c.tagSize;
            && |stored| == n + c.nonceSize && stored[n..] == nonce
            && (c.tagFirst ==> stored[..c.tagSize] == c.seal(nonce, aad, message).1 && stored[c.tagSize..n] == c.seal(nonce, aad, message).0)
            && (!c.tagFirst ==> stored[..|message|] == c.seal(nonce, aad, message).0 && stored[|message|..n] == c.seal(nonce, aad, message).1)
  {
  }

  lemma DecryptInvertsEncrypt(c: Cipher, nonce: Bytes, message: Bytes, aad: Bytes)
    requires Ideal(c) && |nonce| == c.nonceSize
    ensures Decrypt(c, Encrypt(c, nonce, message, aad), aad) == Some(message)
    ensures |Encrypt(c, nonce, message, aad)| == |message| + c.nonceSize + c.tagSize
  {
    var (body, tag) := c.seal(nonce, aad, message);
    var stored := Encrypt(c, nonce, message, aad);
    var sealed := stored[..|stored| - c.nonceSize];
    assert stored[|stored| - c.nonceSize..] == nonce;
    assert sealed == if c.tagFirst then tag + body else body + tag;
    if c.tagFirst {
      assert sealed[c.tagSize..] == body && sealed[..c.tagSize] == tag;
    } else {
      assert sealed[..|sealed| - c.tagSize] == body && sealed[|sealed| - c.tagSize..] == tag;
    }
  }

  /** Whatever decrypts was encrypted with the same associated data. */
  lemma DecryptOnlyAuthentic(c: Cipher, stored: Bytes, aad: Bytes) returns (nonce: Bytes)
    requires Ideal(c) && Decrypt(c, stored, aad).Some?
    ensures |nonce| == c.nonceSize && stored == Encrypt(c, nonce, Decrypt(c, stored, aad).value, aad)
    ensures |Decrypt(c, stored, aad).value| + c.nonceSize + c.tagSize == |stored|
  {
    nonce := stored[|stored| - c.nonceSize..];
    var sealed := stored[..|stored| - c.nonceSize];
    var body := if c.tagFirst then sealed[c.tagSize..] else sealed[..|sealed| - c.tagSize];
    var tag := if c.tagFirst then sealed[..c.tagSize] else sealed[|sealed| - c.tagSize..];
    var m := Decrypt(c, stored, aad).value;
    assert c.open(nonce, aad, body, tag) == Some(m);
    assert c.seal(nonce, aad, m) == (body, tag) && |c.seal(nonce, aad, m).0| == |m|;
    assert sealed == if c.tagFirst then tag + body else body + tag;
    assert stored == sealed + nonce;
  }

  // ----- Columns -----

  type Column = seq<Option<Bytes>>

  datatype AadSource = PerRow(values: Column) | Broadcast(value: Bytes) | NotBinary {
    /** The rows that are paired with associated data: the shorter of the two ends the pairing. */
    function Rows(n: nat): (r: nat)
      ensures r <= n && (PerRow? ==> r <= |values|)
    {
      if PerRow? && |values| < n then |values| else n
    }

    function At(i: nat): Option<Bytes>
      requires PerRow? ==> i < |values|
    {
      match this
      case PerRow(vs) => vs[i]
      case Broadcast(v) => Some(v)
      case NotBinary => None
    }
  }

  function Shorter(a: Column, b: Column): (n: nat)
    ensures n <= |a| && n <= |b|
  {
    if |a| < |b| then |a| else |b|
  }

  /** Row i is encrypted: it has a value and associated data, and encryption did not fail, for which no nonce stands. */
  predicate Sealed(column: Column, aads: Column, nonces: nat -> Option<Bytes>, i: nat)
    requires i < |column| && i < |aads|
  {
    column[i].Some? && aads[i].Some? && nonces(i).Some?
  }

  /** Any other row becomes NULL. */
  function EncryptArray(c: Cipher, column: Column, aads: Column, nonces: nat -> Option<Bytes>): (r: Column)
    ensures |r| == Shorter(column, aads)
  {
    seq(Shorter(column, aads), i requires 0 <= i < |column| && i < |aads| =>
      if Sealed(column, aads, nonces, i) then Some(Encrypt(c, nonces(i).value, column[i].value, aads[i].value)) else None)
  }

  /** Offsets, validity and bytes of a column. */
  datatype BinaryArray = BinaryArray(offsets: seq<nat>, valid: seq<bool>, data: Bytes) {
    ghost predicate WellFormed() {
      && |offsets| == |valid| + 1
      && offsets[|valid|] == |data|
      && forall i, j | 0 <= i <= j < |offsets| :: offsets[i] <= offsets[j]
    }

    ghost function View(): (r: Column)
      requires WellFormed()
      ensures |r| == |valid|
    {
      seq(|valid|, i requires 0 <= i < |valid| => if valid[i] then Some(data[offsets[i]..offsets[i + 1]]) else None)
    }
  }

  predicate RowReadable(c: Cipher, column: Column, aad: AadSource, i: nat)
    requires i < aad.Rows(|column|)
  {
    column[i].None? || (aad.At(i).Some? && Decrypt(c, column[i].value, aad.At(i).value).Some?)
  }

  ghost predicate Readable(c: Cipher, column: Column, aad: AadSource) {
    !aad.NotBinary? && forall i | 0 <= i < aad.Rows(|column|) :: RowReadable(c, column, aad, i)
  }

  /** What decrypting row i gives. */
  function PlainRow(c: Cipher, column: Column, aad: AadSource, i: nat): Option<Bytes>
    requires i < aad.Rows(|column|)
  {
    if column[i].None? || aad.At(i).None? then None else Decrypt(c, column[i].value, aad.At(i).value)
  }

  ghost function Plain(c: Cipher, column: Column, aad: AadSource): (r: Column)
    ensures |r| == aad.Rows(|column|)
  {
    seq(aad.Rows(|column|), i requires 0 <= i < aad.Rows(|column|) => PlainRow(c, column, aad, i))
  }

  function Entries(column: Column): nat {
    if column == [] then 0
    else Entries(column[..|column| - 1]) + if column[|column| - 1].Some? then 1 else 0
  }

  function TotalSize(column: Column): nat {
    if column == [] then 0
    else TotalSize(column[..|column| - 1]) + if column[|column| - 1].Some? then |column[|column| - 1].value| else 0
  }

  /** Plaintext bytes of the first n rows, counting the overhead of every stored value. */
  function PlainSize(c: Cipher, column: Column, n: nat): int
    requires n <= |column|
  {
    TotalSize(column[..n]) - Entries(column[..n]) * (c.nonceSize + c.tagSize)
  }

  lemma PlainSizeStep(c: Cipher, column: Column, n: nat)
    requires n < |column|
    ensures PlainSize(c, column, n + 1) == PlainSize(c, column, n)
          + if column[n].Some? then |column[n].value| - (c.nonceSize + c.tagSize) else 0
  {
    assert column[..n + 1][..n] == column[..n];
    var overhead := c.nonceSize + c.tagSize;
    assert (Entries(column[..n]) + 1) * overhead == Entries(column[..n]) * overhead + overhead;
  }

  /** Long enough values: the plaintext of the first n rows fits beside that of the rest. */
  lemma {:induction false} PlainSizeGrows(c: Cipher, column: Column, n: nat, m: nat)
    requires n <= m <= |column|
    requires forall i | n <= i < m :: column[i].Some? ==> |column[i].value| >= c.nonceSize + c.tagSize
    ensures PlainSize(c, column, n) <= PlainSize(c, column, m)
  {
    if n < m {
      PlainSizeGrows(c, column, n, m - 1);
      PlainSizeStep(c, column, m - 1);
    }
  }

  /** Decrypts one value into `output` from position `at` on. */
  method DecryptToSlice(c: Cipher, output: array<Byte>, at: nat, stored: Bytes, aad: Bytes) returns (r: Result<nat>)
    requires Ideal(c) && at <= output.Length
    modifies output
    ensures r.Ok? <==> Decrypt(c, stored, aad).Some? && |Decrypt(c, stored, aad).value| <= output.Length - at
    ensures r.Ok? ==> r.value == |Decrypt(c, stored, aad).value| <= output.Length - at
    ensures r.Ok? ==> output[at..at + r.value] == Decrypt(c, stored, aad).value
    ensures output[..at] == old(output[..at])
  {
    if |stored| < c.nonceSize {
      return Err("cipher error");
    }
    if |stored| - c.nonceSize < c.tagSize {
      return Err("tag length mismatch");
    }
    var plain := Decrypt(c, stored, aad);
    if plain.None? {
      return Err("cipher error");
    }
    if |plain.value| > output.Length - at {
      return Err("invalid output buffer size");
    }
    for k := 0 to |plain.value|
      invariant output[at..at + k] == plain.value[..k]
      invariant output[..at] == old(output[..at])
    {
      output[at + k] := plain.value[k];
      assert output[at..at + k + 1] == output[at..at + k] + [plain.value[k]];
    }
    assert plain.value[..|plain.value|] == plain.value;
    return Ok(|plain.value|);
  }

  lemma ViewGrows(a: BinaryArray, b: BinaryArray, value: Option<Bytes>)
    requires a.WellFormed() && b.valid == a.valid + [value.Some?]
    requires b.data == a.data + (if value.Some? then value.value else [])
    requires b.offsets == a.offsets + [|b.data|]
    ensures b.WellFormed() && b.View() == a.View() + [value]
  {
    var n := |a.valid|;
    forall i | 0 <= i < n
      ensures b.View()[i] == a.View()[i]
    {
      SliceStays(a, b, i);
    }
    assert b.offsets[n] == |a.data| && b.offsets[n + 1] == |b.data|;
    if value.Some? {
      assert b.data[|a.data|..|b.data|] == value.value;
    }
  }

  lemma SliceStays(a: BinaryArray, b: BinaryArray, i: nat)
    requires a.WellFormed() && i < |a.valid| && a.data <= b.data && a.offsets <= b.offsets
    ensures b.offsets[i] == a.offsets[i] <= b.offsets[i + 1] == a.offsets[i + 1] <= |a.data|
    ensures b.data[b.offsets[i]..b.offsets[i + 1]] == a.data[a.offsets[i]..a.offsets[i + 1]]
  {
  }

  /** The first n rows have been decrypted into `a`. */
  ghost predicate Built(c: Cipher, column: Column, aad: AadSource, n: nat, a: BinaryArray)
    requires n <= aad.Rows(|column|)
  {
    && a.WellFormed() && |a.valid| == n && |a.data| == PlainSize(c, column, n)
    && (forall j | 0 <= j < n :: RowReadable(c, column, aad, j))
    && (forall j | 0 <= j < n :: a.View()[j] == PlainRow(c, column, aad, j))
  }

  lemma BuiltGrows(c: Cipher, column: Column, aad: AadSource, n: nat, a: BinaryArray, b: BinaryArray)
    requires Ideal(c) && n < aad.Rows(|column|) && Built(c, column, aad, n, a)
    requires RowReadable(c, column, aad, n)
    requires b.valid == a.valid + [column[n].Some?]
    requires b.data == a.data + (if column[n].Some? then PlainRow(c, column, aad, n).value else [])
    requires b.offsets == a.offsets + [|b.data|]
    ensures Built(c, column, aad, n + 1, b)
  {
    ViewGrows(a, b, PlainRow(c, column, aad, n));
    PlainSizeStep(c, column, n);
    if column[n].Some? {
      var nonce := DecryptOnlyAuthentic(c, column[n].value, aad.At(n).value);
    }
  }

  /** What one row adds to the plaintext. */
  function RowBytes(c: Cipher, value: Option<Bytes>, aad: Option<Bytes>): Option<Bytes> {
    if value.None? then Some([]) else if aad.None? then None else Decrypt(c, value.value, aad.value)
  }

  lemma {:induction false} ReadableIsLong(c: Cipher, column: Column, aad: AadSource, n: nat)
    requires n <= aad.Rows(|column|) && Readable(c, column, aad)
    ensures 0 <= PlainSize(c, column, n) <= PlainSize(c, column, aad.Rows(|column|))
  {
    forall i | 0 <= i < aad.Rows(|column|) && column[i].Some?
      ensures |column[i].value| >= c.nonceSize + c.tagSize
    {
      assert RowReadable(c, column, aad, i);
    }
    PlainSizeGrows(c, column, 0, n);
    PlainSizeGrows(c, column, n, aad.Rows(|column|));
  }

  /** In a readable column the plaintext of the rows up to n, n included, is part of the whole. */
  lemma RoomForRow(c: Cipher, column: Column, aad: AadSource, n: nat)
    requires Ideal(c) && n < aad.Rows(|column|) && Readable(c, column, aad)
    ensures RowBytes(c, column[n], aad.At(n)).Some?
    ensures PlainSize(c, column, n) + |RowBytes(c, column[n], aad.At(n)).value| <= PlainSize(c, column, aad.Rows(|column|))
  {
    assert RowReadable(c, column, aad, n);
    if column[n].Some? {
      var nonce := DecryptOnlyAuthentic(c, column[n].value, aad.At(n).value);
    }
    PlainSizeStep(c, column, n);
    ReadableIsLong(c, column, aad, n + 1);
  }

  function Overhead(c: Cipher, column: Column): nat {
    Entries(column) * (c.nonceSize + c.tagSize)
  }

  /** The buffer, sized by `memory` less the overhead of all values, holds the plaintext of the paired rows. */
  predicate BufferHolds(c: Cipher, column: Column, memory: nat, aad: AadSource) {
    Overhead(c, column) <= memory && PlainSize(c, column, aad.Rows(|column|)) <= memory - Overhead(c, column)
  }

  /** If every row is paired, a readable column always fits. */
  lemma ReadableFits(c: Cipher, column: Column, memory: nat, aad: AadSource)
    requires Readable(c, column, aad) && aad.Rows(|column|) == |column| && memory >= TotalSize(column)
    ensures BufferHolds(c, column, memory, aad)
  {
    assert column[..|column|] == column;
    ReadableIsLong(c, column, aad, |column|);
  }

  /** One turn of the loop: decrypts a value behind what was written; a NULL writes nothing. */
  method DecryptRow(c: Cipher, output: array<Byte>, written: nat, value: Option<Bytes>, aad: Option<Bytes>)
    returns (r: Result<nat>)
    requires Ideal(c) && written <= output.Length
    modifies output
    ensures r.Ok? <==> RowBytes(c, value, aad).Some? && written + |RowBytes(c, value, aad).value| <= output.Length
    ensures r.Ok? ==> r.value == written + |RowBytes(c, value, aad).value| <= output.Length
                      && output[..r.value] == old(output[..written]) + RowBytes(c, value, aad).value
  {
    if value.None? {
      return Ok(written);
    }
    if aad.None? {
      return Err("null AAD encountered in row");
    }
    var n := DecryptToSlice(c, output, written, value.value, aad.value);
    if n.Err? {
      return Err("could not decrypt value");
    }
    assert output[..written + n.value] == output[..written] + output[written..written + n.value];
    return Ok(written + n.value);
  }

  /**
    Decrypts a column into one buffer, sized from the memory of the encrypted column. It succeeds
    exactly when every paired value can be decrypted and the buffer holds their plaintexts; if all
    rows are paired the second always holds.
   */
  method DecryptArray(c: Cipher, column: Column, memory: nat, aad: AadSource) returns (r: Result<BinaryArray>)
    requires Ideal(c)
    ensures r.Ok? <==> Readable(c, column, aad) && BufferHolds(c, column, memory, aad)
    ensures r.Ok? ==> r.value.WellFormed() && r.value.View() == Plain(c, column, aad)
  {
    if memory < Overhead(c, column) {
      return Err("attempt to subtract with overflow");
    }
    var buffer := new Byte[memory - Overhead(c, column)](_ => 0);
    if aad.NotBinary? {
      return Err("invalid aad type");
    }
    var rows := aad.Rows(|column|);
    var offsets: seq<nat>, valid: seq<bool>, written := [0], [], 0;
    for i := 0 to rows
      invariant written <= buffer.Length
      invariant Built(c, column, aad, i, BinaryArray(offsets, valid, buffer[..written]))
    {
      ghost var before := BinaryArray(offsets, valid, buffer[..written]);
      var next := DecryptRow(c, buffer, written, column[i], aad.At(i));
      if next.Err? {
        if Readable(c, column, aad) { RoomForRow(c, column, aad, i); }
        return Err(next.error);
      }
      valid := valid + [column[i].Some?];
      written := next.value;
      offsets := offsets + [written];
      BuiltGrows(c, column, aad, i, before, BinaryArray(offsets, valid, buffer[..written]));
    }
    r := Ok(BinaryArray(offsets, valid, buffer[..written]));
  }

  // ----- Round trip and authenticity -----

  /** `aad` gives every row the associated data it was encrypted with. */
  ghost predicate SameAad(aad: AadSource, aads: Column, rows: nat)
    requires rows <= |aads|
  {
    && !aad.NotBinary? && aad.Rows(rows) == rows
    && forall i | 0 <= i < rows :: aads[i].Some? ==> aad.At(i) == aads[i]
  }

  ghost predicate NoncesFit(c: Cipher, nonces: nat -> Option<Bytes>) {
    forall i: nat :: nonces(i).Some? ==> |nonces(i).value| == c.nonceSize
  }

  /**
    Encrypting and decrypting with the same associated data, per row or broadcast, never fails, the
    buffer included, and gives every row back that was encrypted; the others come back as NULL.
   */
  lemma RoundTrip(c: Cipher, column: Column, aads: Column, aad: AadSource, nonces: nat -> Option<Bytes>)
    requires Ideal(c) && NoncesFit(c, nonces) && SameAad(aad, aads, Shorter(column, aads))
    ensures Readable(c, EncryptArray(c, column, aads, nonces), aad)
    ensures forall memory: nat | memory >= TotalSize(EncryptArray(c, column, aads, nonces)) ::
              BufferHolds(c, EncryptArray(c, column, aads, nonces), memory, aad)
    ensures |Plain(c, EncryptArray(c, column, aads, nonces), aad)| == Shorter(column, aads)
    ensures forall i | 0 <= i < Shorter(column, aads) ::
              Plain(c, EncryptArray(c, column, aads, nonces), aad)[i] == if Sealed(column, aads, nonces, i) then column[i] else None
  {
    var stored := EncryptArray(c, column, aads, nonces);
    forall i | 0 <= i < |stored|
      ensures RowReadable(c, stored, aad, i)
      ensures PlainRow(c, stored, aad, i) == if Sealed(column, aads, nonces, i) then column[i] else None
    {
      if Sealed(column, aads, nonces, i) {
        DecryptInvertsEncrypt(c, nonces(i).value, column[i].value, aads[i].value);
      }
    }
    forall memory: nat | memory >= TotalSize(stored) { ReadableFits(c, stored, memory, aad); }
  }

  /** The column comes back as it was exactly when none of its values was left unencrypted. */
  lemma RoundTripExactly(c: Cipher, column: Column, aads: Column, aad: AadSource, nonces: nat -> Option<Bytes>)
    requires Ideal(c) && NoncesFit(c, nonces) && |aads| == |column| && SameAad(aad, aads, |column|)
    ensures Plain(c, EncryptArray(c, column, aads, nonces), aad) == column
            <==> forall i | 0 <= i < |column| :: column[i].Some? ==> Sealed(column, aads, nonces, i)
  {
    RoundTrip(c, column, aads, aad, nonces);
    var back := Plain(c, EncryptArray(c, column, aads, nonces), aad);
    if back == column {
      forall i | 0 <= i < |column| && column[i].Some?
        ensures Sealed(column, aads, nonces, i)
      {
        assert back[i] == column[i];
      }
    }
  }

  /** A value is accepted under other associated data exactly when some message has the same ciphertext there. */
  lemma AcceptedElsewhereExactly(c: Cipher, nonce: Bytes, message: Bytes, aad: Bytes, other: Bytes)
    requires Ideal(c) && |nonce| == c.nonceSize
    ensures Decrypt(c, Encrypt(c, nonce, message, aad), other).Some?
            <==> exists k: Bytes :: c.seal(nonce, other, k) == c.seal(nonce, aad, message)
  {
    var stored := Encrypt(c, nonce, message, aad);
    if Decrypt(c, stored, other).Some? {
      var k := Decrypt(c, stored, other).value;
      var n := DecryptOnlyAuthentic(c, stored, other);
      EncryptInjective(c, nonce, message, aad, n, k, other);
      assert c.seal(nonce, other, k) == c.seal(nonce, aad, message);
    }
    if k: Bytes :| c.seal(nonce, other, k) == c.seal(nonce, aad, message) {
      assert Encrypt(c, nonce, k, other) == stored;
      DecryptInvertsEncrypt(c, nonce, k, other);
    }
  }

  /** With a cipher binding on the associated data in use, a value moved under another one makes the column unreadable. */
  lemma MovedValueIsRejected(c: Cipher, column: Column, aads: Column, aad: AadSource, nonces: nat -> Option<Bytes>,
                             used: set<Bytes>, i: nat)
    requires Ideal(c) && BindingOn(c, used) && NoncesFit(c, nonces)
    requires i < Shorter(column, aads) && i < aad.Rows(Shorter(column, aads)) && Sealed(column, aads, nonces, i)
    requires aads[i].value in used && (aad.At(i).Some? ==> aad.At(i).value in used) && aad.At(i) != aads[i]
    ensures !Readable(c, EncryptArray(c, column, aads, nonces), aad)
  {
    var stored := EncryptArray(c, column, aads, nonces);
    if aad.At(i).Some? {
      AcceptedElsewhereExactly(c, nonces(i).value, column[i].value, aads[i].value, aad.At(i).value);
    }
    assert !RowReadable(c, stored, aad, i);
  }

  lemma EncryptInjective(c: Cipher, n: Bytes, m: Bytes, a: Bytes, o: Bytes, k: Bytes, b: Bytes)
    requires Ideal(c) && |n| == |o| == c.nonceSize
    requires Encrypt(c, n, m, a) == Encrypt(c, o, k, b)
    ensures n == o && c.seal(n, a, m) == c.seal(o, b, k)
  {
    var (x, t) := c.seal(n, a, m);
    var (y, u) := c.seal(o, b, k);
    var s := Encrypt(c, n, m, a);
    assert s[|s| - c.nonceSize..] == n == o;
    var sealed := s[..|s| - c.nonceSize];
    if c.tagFirst {
      assert sealed == t + x == u + y;
      assert sealed[..c.tagSize] == t == u && sealed[c.tagSize..] == x == y;
    } else {
      assert sealed == x + t == y + u;
      assert sealed[|x|..] == t == u && sealed[..|x|] == x == y;
    }
  }
}

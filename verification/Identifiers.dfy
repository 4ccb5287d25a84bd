/** Keyed identifiers of a given number of bits, used as blind index values. */
module Identifiers {
  import opened LengthPrefixed

  ghost function Pow2(n: nat): (p: nat)
    ensures p > 0
  {
    if n == 0 then 1 else 2 * Pow2(n - 1)
  }

  lemma {:induction false} LeadingByteBounds(b: Bytes, lead: nat)
    requires b != [] && b[0] < lead
    ensures FromBigEndian(b) < lead * Pow256(|b| - 1)
  {
    if |b| > 1 {
      var n := |b| - 1;
      LeadingByteBounds(b[..n], lead);
      assert FromBigEndian(b) == 256 * FromBigEndian(b[..n]) + b[n];
      assert FromBigEndian(b[..n]) + 1 <= lead * Pow256(n - 1);
      assert 256 * (lead * Pow256(n - 1)) == lead * Pow256(n);
    } else {
      assert b[..0] == [];
      assert FromBigEndian(b) == 256 * FromBigEndian(b[..0]) + b[0];
    }
  }

  lemma Pow2Byte(m: nat)
    ensures Pow2(m + 8) == 256 * Pow2(m)
  {
    assert Pow2(m + 2) == 4 * Pow2(m);
    assert Pow2(m + 4) == 4 * Pow2(m + 2);
    assert Pow2(m + 6) == 4 * Pow2(m + 4);
    assert Pow2(m + 8) == 4 * Pow2(m + 6);
  }

  lemma Commute(a: nat, b: nat, c: nat)
    ensures a * (b * c) == b * (a * c)
  {
  }

  lemma {:induction false} Pow2OfBytes(n: nat, r: nat)
    ensures Pow2(8 * n + r) == Pow2(r) * Pow256(n)
  {
    if n == 0 {
      assert Pow256(0) == 1;
    } else {
      Pow2OfBytes(n - 1, r);
      Pow2Byte(8 * (n - 1) + r);
      Commute(Pow2(r), 256, Pow256(n - 1));
    }
  }

  /**
    `expand` fills any number of bytes from the data. The identifier has as few bytes as the bits
    need, and as a big-endian number it has no more bits than asked for.
   */
  method OpaqueIdentifier(expand: (Bytes, nat) -> Bytes, data: Bytes, bits: nat) returns (output: array<Byte>)
    requires forall d: Bytes, n: nat :: |expand(d, n)| == n
    ensures fresh(output) && output.Length == (bits + 7) / 8
    ensures FromBigEndian(output[..]) < Pow2(bits)
    ensures bits > 0 ==> output[1..] == expand(data, (bits + 7) / 8)[1..]
    ensures bits % 8 > 0 ==> output[0] == expand(data, (bits + 7) / 8)[0] / Pow2(8 - bits % 8)
    ensures bits % 8 == 0 ==> output[..] == expand(data, (bits + 7) / 8)
  {
    var bytes := (bits + 7) / 8;
    var filled := expand(data, bytes);
    output := new Byte[bytes](i requires 0 <= i < |filled| => filled[i]);
    assert output[..] == filled;
    var lastByteBits := bits % 8;
    if lastByteBits > 0 {
      output[0] := ShiftRight(output[0], 8 - lastByteBits);
      assert bits == 8 * (bytes - 1) + lastByteBits;
      Pow2OfBytes(bytes - 1, lastByteBits);
      LeadingByteBounds(output[..], Pow2(lastByteBits));
    } else if bits > 0 {
      assert bits == 8 * bytes;
      Pow2OfBytes(bytes - 1, 8);
      assert Pow2(8) == 256 by {
        assert Pow2(2) == 4;
        assert Pow2(4) == 16;
        assert Pow2(6) == 64;
      }
      LeadingByteBounds(output[..], 256);
    }
  }

  /** A byte shifted right by n places. */
  function ShiftRight(b: Byte, n: nat): (r: Byte)
    requires 1 <= n <= 7
    ensures r == b / Pow2(n) && r < Pow2(8 - n)
  {
    SmallPowers();
    if n == 1 then b / 2 else if n == 2 then b / 4 else if n == 3 then b / 8 else if n == 4 then b / 16
    else if n == 5 then b / 32 else if n == 6 then b / 64 else b / 128
  }

  lemma SmallPowers()
    ensures Pow2(1) == 2 && Pow2(2) == 4 && Pow2(3) == 8 && Pow2(4) == 16 && Pow2(5) == 32 && Pow2(6) == 64 && Pow2(7) == 128
  {
    assert Pow2(1) == 2 && Pow2(2) == 4 && Pow2(3) == 8;
    assert Pow2(4) == 16 && Pow2(5) == 32;
    assert Pow2(6) == 64 && Pow2(7) == 128;
  }
}

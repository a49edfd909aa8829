/** The bytes under the bits, for a cursor that stands on a byte. */
module ByteCodes {
  import opened Words
  import opened BitCodes
  import opened BitStream

  /** Past the end every byte reads as 0. */
  function ByteAt(data: seq<byte>, p: nat): byte {
    if p < |data| then data[p] else 0
  }

  function Word16(data: seq<byte>, p: nat): (w: nat)
    ensures w < 65536
  {
    256 * ByteAt(data, p) + ByteAt(data, p + 1)
  }

  function Word24(data: seq<byte>, p: nat): nat {
    256 * Word16(data, p) + ByteAt(data, p + 2)
  }

  lemma ByteIs(data: seq<byte>, p: nat)
    ensures UAt(BitsOf(data), 8 * p, 8) == ByteAt(data, p)
  {
    if p < |data| {
      WholeByte(data, p);
    } else {
      AllZero(BitsOf(data), 8 * p, 8);
    }
  }

  lemma {:induction false} AllZero(bits: seq<bit>, k: nat, n: nat)
    requires k >= |bits|
    ensures UAt(bits, k, n) == 0
  {
    if n > 0 {
      AllZero(bits, k, n - 1);
    }
  }

  lemma {:induction false} UAtSplit(bits: seq<bit>, k: nat, m: nat, n: nat)
    ensures UAt(bits, k, m + n) == Shl(UAt(bits, k, m), n) + UAt(bits, k + m, n)
  {
    if n > 0 {
      UAtSplit(bits, k, m, n - 1);
    }
  }

  lemma OctetAbove(bits: seq<bit>, k: nat, m: nat)
    ensures UAt(bits, k, m + 8) == 256 * UAt(bits, k, m) + UAt(bits, k + m, 8)
  {
    hide UAt, Shl, Pow2;
    PowEight();
    UAtSplit(bits, k, m, 8);
    ShlIsProduct(UAt(bits, k, m), 8);
  }

  lemma WordsAre(data: seq<byte>, p: nat)
    ensures UAt(BitsOf(data), 8 * p, 16) == Word16(data, p)
    ensures UAt(BitsOf(data), 8 * p, 24) == Word24(data, p)
  {
    hide UAt, BitsOf, ByteAt;
    OctetAbove(BitsOf(data), 8 * p, 8);
    OctetAbove(BitsOf(data), 8 * p, 16);
    ByteIs(data, p);
    ByteIs(data, p + 1);
    ByteIs(data, p + 2);
    assert 8 * p + 8 == 8 * (p + 1) && 8 * p + 16 == 8 * (p + 2);
  }

  /** Byte strings with the same bits are the same. */
  lemma SameBits(a: seq<byte>, b: seq<byte>)
    requires |a| == |b| && BitsOf(a) == BitsOf(b)
    ensures a == b
  {
    forall p | 0 <= p < |a| ensures a[p] == b[p] {
      WholeByte(a, p);
      WholeByte(b, p);
    }
  }

  /** A write that overlays the bits of some bytes stores those bytes. */
  lemma BytesWritten(before: seq<byte>, after: seq<byte>, p: nat, source: seq<byte>)
    requires |after| == |before| && BitsOf(after) == Overlay(BitsOf(before), 8 * p, BitsOf(source))
    ensures after == Stored(before, p, source)
  {
    hide BitsOf, Overlay;
    StoredBits(before, p, source);
    SameBits(after, Stored(before, p, source));
  }

  lemma StoredTwice(data: seq<byte>, p: nat, a: seq<byte>, b: seq<byte>)
    ensures Stored(Stored(data, p, a), p + |a|, b) == Stored(data, p, a + b)
  {
  }

  lemma {:induction false} ShrAdd(v: nat, m: nat, j: nat)
    ensures Shr(v, j + m) == Shr(Shr(v, m), j)
  {
    if j > 0 {
      ShrAdd(v, m, j - 1);
    }
  }

  lemma TestHigh(v: nat, j: nat)
    ensures TestBit(v, j + 8) == TestBit(v / 256, j)
  {
    hide Shr, Shl, Pow2;
    PowEight();
    ShrShl(v, 8);
    ShrAdd(v, 8, j);
  }

  function Octet(v: nat): seq<byte> {
    [v % 256]
  }

  function Octets(n: nat, v: nat): (r: seq<byte>)
    ensures |r| == n
  {
    if n == 0 then [] else Octets(n - 1, v / 256) + Octet(v)
  }

  /** A whole number of octets written as a number is those octets, high one first. */
  lemma {:induction false} OctetCode(n: nat, v: nat)
    ensures UCode(8 * n, v) == BitsOf(Octets(n, v))
  {
    hide TestBit;
    if n > 0 {
      OctetCode(n - 1, v / 256);
      forall i | 0 <= i < 8 * n ensures UCode(8 * n, v)[i] == BitsOf(Octets(n, v))[i] {
        if i < 8 * n - 8 {
          TestHigh(v, 8 * n - 9 - i);
          assert UCode(8 * n - 8, v / 256)[i] == BitsOf(Octets(n - 1, v / 256))[i];
        } else {
          LowBits(v, 8 * n - 1 - i);
        }
      }
    }
  }

  // ----- Reading and writing on byte boundaries

  /** The cursor moved past `bytes`, which it stored. */
  twostate predicate Wrote(b: BitCursor, bytes: seq<byte>)
    reads b, b.data
  {
    && b.bitsLeft == 8 && b.data == old(b.data) && b.p == old(b.p) + |bytes|
    && b.data[..] == Stored(old(b.data[..]), old(b.p), bytes)
  }

  method PutByte(b: BitCursor, v: uint32)
    requires b.bitsLeft == 8
    modifies b`p, b`bitsLeft, b.data
    ensures Wrote(b, Octets(1, v))
  {
    hide BitsOf, UCode, Octets, Overlay;
    b.WriteU8(v);
    OctetCode(1, v);
    BytesWritten(old(b.data[..]), b.data[..], old(b.p), Octets(1, v));
  }

  method PutWord(b: BitCursor, n: nat, v: uint32)
    requires b.bitsLeft == 8 && n <= 4
    modifies b`p, b`bitsLeft, b.data
    ensures Wrote(b, Octets(n, v))
  {
    hide BitsOf, UCode, Octets, Overlay;
    b.WriteU(8 * n, v);
    OctetCode(n, v);
    BytesWritten(old(b.data[..]), b.data[..], old(b.p), Octets(n, v));
  }

  method PutBytes(b: BitCursor, s: seq<byte>)
    requires b.bitsLeft == 8
    modifies b`p, b`bitsLeft, b.data
    ensures Wrote(b, s)
  {
    hide BitsOf, Overlay;
    var _ := b.WriteBytes(s, |s|);
    assert s[..|s|] == s;
    BytesWritten(old(b.data[..]), b.data[..], old(b.p), s);
  }

  method GetByte(b: BitCursor) returns (v: byte)
    requires b.bitsLeft == 8
    modifies b`p, b`bitsLeft
    ensures b.bitsLeft == 8 && b.p == old(b.p) + 1 && v == ByteAt(b.data[..], old(b.p))
  {
    hide UAt, BitsOf;
    ByteIs(b.data[..], b.p);
    v := b.ReadU8();
  }
}

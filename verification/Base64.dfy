/** Base 64 text (sections 3.5 and 4 of RFC 4648). */
module Base64 {
  import opened Words
  import opened BitCodes
  import opened ByteCodes

  const PAD: byte := 61

  /** `n` characters counted up from `first`. */
  function Upwards(first: nat, n: nat): (r: seq<byte>)
    requires first + n <= 256
    ensures |r| == n && forall i :: 0 <= i < n ==> r[i] == first + i
  {
    seq<byte>(n, i requires 0 <= i < n => first + i)
  }

  // A to Z, a to z, 0 to 9, plus and slash.
  const BASE64_CHARS: seq<byte> := Upwards(65, 26) + Upwards(97, 26) + Upwards(48, 10) + [43, 47]

  function EncodeChar(c: nat): byte
    requires c < 64
  {
    BASE64_CHARS[c]
  }

  /** The value of a symbol, 64 for the pad, and 0 for anything else. */
  function DecodeChar(c: byte): (v: nat)
    ensures v <= 64 && (v == 64 <==> c == PAD)
  {
    if 65 <= c <= 90 then c - 65
    else if 97 <= c <= 122 then c - 97 + 26
    else if 48 <= c <= 57 then c - 48 + 52
    else if c == 43 then 62
    else if c == 47 then 63
    else if c == PAD then 64
    else 0
  }

  lemma SymbolValue(c: nat)
    requires c < 64
    ensures DecodeChar(EncodeChar(c)) == c && EncodeChar(c) != PAD
  {
  }

  /** The alphabet of table 1 of RFC 4648, and `=` as its pad; every other byte decodes as 0. */
  lemma Alphabet(c: nat, b: byte)
    ensures c < 26 ==> EncodeChar(c) == 65 + c && DecodeChar(65 + c) == c
    ensures 26 <= c < 52 ==> EncodeChar(c) == 97 + (c - 26) && DecodeChar(97 + (c - 26)) == c
    ensures 52 <= c < 62 ==> EncodeChar(c) == 48 + (c - 52) && DecodeChar(48 + (c - 52)) == c
    ensures EncodeChar(62) == 43 && EncodeChar(63) == 47 && DecodeChar(43) == 62 && DecodeChar(47) == 63
    ensures PAD == 61 && DecodeChar(61) == 64
    ensures !(65 <= b <= 90 || 97 <= b <= 122 || 48 <= b <= 57 || b in {43, 47, 61}) ==> DecodeChar(b) == 0
  {
  }

  predicate IsSymbol(c: byte) {
    DecodeChar(c) < 64 && EncodeChar(DecodeChar(c)) == c
  }

  // ----- Groups: three bytes are four symbols

  type sextet = n: nat | n < 64

  type word24 = n: nat | n < 0x100_0000

  /** The number in three bytes, high byte first. */
  function Number(a: byte, b: byte, c: byte): word24 {
    var high: int, middle: int, low: int := a, b, c;
    256 * (256 * high + middle) + low
  }

  /** The number in four sextets. */
  function Number6(a: sextet, b: sextet, c: sextet, d: sextet): word24 {
    var a6: int, b6: int, c6: int, d6: int := a, b, c, d;
    64 * (64 * (64 * a6 + b6) + c6) + d6
  }

  function Sextets(v: word24): (r: seq<sextet>)
    ensures |r| == 4 && Number6(r[0], r[1], r[2], r[3]) == v
  {
    [v / 64 / 64 / 64, v / 64 / 64 % 64, v / 64 % 64, v % 64]
  }

  function Bytes(v: word24): (r: seq<byte>)
    ensures |r| == 3 && Number(r[0], r[1], r[2]) == v
  {
    [v / 256 / 256, v / 256 % 256, v % 256]
  }

  /** The four symbols of a group. */
  function Group(v: word24): (r: seq<byte>)
    ensures |r| == 4
  {
    var s := Sextets(v);
    [EncodeChar(s[0]), EncodeChar(s[1]), EncodeChar(s[2]), EncodeChar(s[3])]
  }

  function EncodedSize(data: seq<byte>): nat {
    (|data| + 2) / 3 * 4
  }

  function Groups(n: nat): nat {
    if n == 0 then 0 else if n <= 3 then 1 else 1 + Groups(n - 3)
  }

  lemma {:induction false} GroupCount(n: nat)
    ensures Groups(n) == (n + 2) / 3
  {
    if n > 3 {
      GroupCount(n - 3);
    }
  }

  /** The block of a last one or two bytes. */
  function Rest(data: seq<byte>, i: nat): (r: seq<byte>)
    requires i < |data| < i + 3
    ensures |r| == 4
  {
    if |data| == i + 1 then Group(Number(data[i], 0, 0))[..2] + [PAD, PAD]
    else Group(Number(data[i], data[i + 1], 0))[..3] + [PAD]
  }

  /** The text of some bytes: a last group of one or two bytes is filled up with zero bits, and pads follow it. */
  function Encoded(data: seq<byte>): (text: seq<byte>)
    ensures |text| == 4 * Groups(|data|)
  {
    if data == [] then []
    else if |data| < 3 then Rest(data, 0)
    else Group(Number(data[0], data[1], data[2])) + Encoded(data[3..])
  }

  lemma LowPart(x: nat, d: nat)
    ensures d < 64 ==> (64 * x + d) / 64 == x && (64 * x + d) % 64 == d
    ensures d < 256 ==> (256 * x + d) / 256 == x && (256 * x + d) % 256 == d
  {
  }

  lemma BytesOfNumber(a: byte, b: byte, c: byte)
    ensures Bytes(Number(a, b, c)) == [a, b, c]
  {
    LowPart(a, b);
    LowPart(256 * (a as int) + b, c);
  }

  lemma SextetsOfNumber(a: sextet, b: sextet, c: sextet, d: sextet)
    ensures Sextets(Number6(a, b, c, d)) == [a, b, c, d]
  {
    LowPart(a, b);
    LowPart(64 * (a as int) + b, c);
    LowPart(64 * (64 * (a as int) + b) + c, d);
  }

  // ----- Decoding

  /** The three bytes a block of symbol values makes, in 8-bit arithmetic; only the first can lose its high bits. */
  function First(a: nat, b: nat): byte {
    (4 * a + b / 16) % 256
  }

  function Second(b: nat, c: nat): byte {
    (b % 16 * 16 + c / 4) % 256
  }

  function Third(c: nat, d: nat): byte {
    (c % 4 * 64 + d) % 256
  }

  /** The bytes of one block of symbols. */
  function Block(a: nat, b: nat, c: nat, d: nat): (r: seq<byte>)
    ensures 1 <= |r| <= 3 && (c != 64 && d != 64 ==> |r| == 3)
  {
    if c == 64 then [First(a, b)]
    else if d == 64 then [First(a, b), Second(b, c)]
    else [First(a, b), Second(b, c), Third(c, d)]
  }

  /** The bytes of a text; a pad in the third or fourth place of a block ends it, wherever the block stands. */
  function Decoded(text: seq<byte>): (data: seq<byte>)
    requires |text| % 4 == 0
    ensures |data| <= |text| / 4 * 3
  {
    if text == [] then [] else
      var a, b, c, d := DecodeChar(text[0]), DecodeChar(text[1]), DecodeChar(text[2]), DecodeChar(text[3]);
      Block(a, b, c, d) + if c == 64 || d == 64 then [] else Decoded(text[4..])
  }

  /** Whole blocks without a pad in their third or fourth place. */
  predicate Unpadded(text: seq<byte>)
    requires |text| % 4 == 0
  {
    text == [] || (text[2] != 61 && text[3] != 61 && Unpadded(text[4..]))
  }

  /** One block of a text and the rest. */
  lemma OneBlock(text: seq<byte>, rest: seq<byte>)
    requires |text| == 4 && |rest| % 4 == 0
    ensures |text + rest| % 4 == 0
    ensures var more := if text[2] == 61 || text[3] == 61 then [] else Decoded(rest);
      Decoded(text + rest) == Decoded(text) + more
    ensures |Decoded(text)| == if text[2] == 61 then 1 else if text[3] == 61 then 2 else 3
  {
    hide First, Second, Third, DecodeChar;
    assert (text + rest)[4..] == rest && text[4..] == [];
    assert forall k :: 0 <= k < 4 ==> (text + rest)[k] == text[k];
    NoText();
  }

  lemma NoText()
    ensures Decoded([]) == [] && Unpadded([])
  {
  }

  /** The first pad in the third or fourth place of a block ends the data there; what follows is not looked at. */
  lemma {:induction false} PadEnds(head: seq<byte>, block: seq<byte>, tail: seq<byte>)
    requires |head| % 4 == 0 && Unpadded(head) && |block| == 4 && |tail| % 4 == 0
    requires block[2] == 61 || block[3] == 61
    ensures |head + block + tail| % 4 == 0 && |head + block| % 4 == 0
    ensures Decoded(head + block + tail) == Decoded(head + block)
    ensures |Decoded(head + block)| == |head| / 4 * 3 + if block[2] == 61 then 1 else 2
  {
    hide Decoded;
    if head == [] {
      assert head + block + tail == block + tail && head + block == block;
      OneBlock(block, tail);
    } else {
      var first, more := head[..4], head[4..];
      PadEnds(more, block, tail);
      assert head + block + tail == first + (more + block + tail);
      assert head + block == first + (more + block);
      OneBlock(first, more + block + tail);
      OneBlock(first, more + block);
    }
  }

  /** A pad in the first or second place of a block counts as 64, and only its bits that fit are kept. */
  lemma MisplacedPad(a: sextet, b: sextet, c: sextet)
    ensures First(64, b) == b / 16 && First(a, 64) == (4 * (a as int) + 4) % 256 && Second(64, c) == c / 4
  {
  }

  lemma FirstWhole(a: sextet, b: sextet)
    ensures First(a, b) == 4 * (a as int) + b / 16
  {
  }

  lemma SecondWhole(b: sextet, c: sextet)
    ensures Second(b, c) == b % 16 * 16 + c / 4
  {
  }

  lemma ThirdWhole(c: sextet, d: sextet)
    ensures Third(c, d) == c % 4 * 64 + d
  {
  }

  lemma FourAsThree(a: sextet, b: sextet, c: sextet, d: sextet)
    ensures var a6: int, b6: int, c6: int, d6: int := a, b, c, d;
      Number6(a, b, c, d) == Number(4 * a6 + b6 / 16, b6 % 16 * 16 + c6 / 4, c6 % 4 * 64 + d6)
  {
  }

  lemma BlockBytes(a: sextet, b: sextet, c: sextet, d: sextet)
    ensures [First(a, b), Second(b, c), Third(c, d)] == Bytes(Number6(a, b, c, d))
  {
    hide First, Second, Third, Bytes, Number, Number6;
    FirstWhole(a, b);
    SecondWhole(b, c);
    ThirdWhole(c, d);
    FourAsThree(a, b, c, d);
    BytesOfNumber(First(a, b), Second(b, c), Third(c, d));
  }

  lemma GroupValues(v: word24)
    ensures forall k :: 0 <= k < 4 ==> DecodeChar(Group(v)[k]) == Sextets(v)[k]
  {
    hide EncodeChar, DecodeChar, Sextets;
    var s := Sextets(v);
    SymbolValue(s[0]);
    SymbolValue(s[1]);
    SymbolValue(s[2]);
    SymbolValue(s[3]);
  }

  lemma GroupBytes(v: word24)
    ensures var s := Sextets(v); [First(s[0], s[1]), Second(s[1], s[2]), Third(s[2], s[3])] == Bytes(v)
  {
    hide Sextets, First, Second, Third, Bytes;
    var s := Sextets(v);
    BlockBytes(s[0], s[1], s[2], s[3]);
  }

  /** A whole group decodes to its three bytes. */
  lemma {:induction false} GroupDecodes(v: word24, rest: seq<byte>)
    requires |rest| % 4 == 0
    ensures |Group(v) + rest| % 4 == 0 && Decoded(Group(v) + rest) == Bytes(v) + Decoded(rest)
  {
    hide Group, Sextets, First, Second, Third, DecodeChar, Bytes;
    GroupValues(v);
    GroupBytes(v);
    assert (Group(v) + rest)[4..] == rest;
  }

  /** A padded block decodes to its one or two bytes. */
  lemma {:induction false} RestDecodes(data: seq<byte>)
    requires 0 < |data| < 3
    ensures Decoded(Rest(data, 0)) == data
  {
    hide Group, Sextets, First, Second, Third, DecodeChar, Number, Bytes;
    var a, b := data[0], if |data| == 1 then 0 else data[1];
    GroupValues(Number(a, b, 0));
    GroupBytes(Number(a, b, 0));
    BytesOfNumber(a, b, 0);
    PadValue();
  }

  lemma PadValue()
    ensures DecodeChar(PAD) == 64
  {
  }

  /** Decoding what was encoded gives back the bytes. */
  lemma {:induction false} DecodedEncoded(data: seq<byte>)
    ensures |Encoded(data)| % 4 == 0 && Decoded(Encoded(data)) == data
  {
    hide Decoded, Group, Rest, Number, Bytes;
    if data == [] {
      NothingDecodes();
    } else if |data| < 3 {
      RestDecodes(data);
    } else {
      DecodedEncoded(data[3..]);
      GroupDecodes(Number(data[0], data[1], data[2]), Encoded(data[3..]));
      BytesOfNumber(data[0], data[1], data[2]);
      assert data == [data[0], data[1], data[2]] + data[3..];
    }
  }

  lemma NothingDecodes()
    ensures Decoded([]) == []
  {
  }

  /** Blocks of four symbols, the last perhaps padded, with no bits set beyond the last byte. */
  predicate Canonical(text: seq<byte>)
    requires |text| % 4 == 0
  {
    if text == [] then true
    else if !IsSymbol(text[0]) || !IsSymbol(text[1]) then false
    else if text[2] == PAD then |text| == 4 && text[3] == PAD && DecodeChar(text[1]) % 16 == 0
    else if !IsSymbol(text[2]) then false
    else if text[3] == PAD then |text| == 4 && DecodeChar(text[2]) % 4 == 0
    else IsSymbol(text[3]) && Canonical(text[4..])
  }

  lemma GroupOfSymbols(a: byte, b: byte, c: byte, d: byte)
    requires IsSymbol(a) && IsSymbol(b) && IsSymbol(c) && IsSymbol(d)
    ensures Group(Number6(DecodeChar(a), DecodeChar(b), DecodeChar(c), DecodeChar(d))) == [a, b, c, d]
  {
    hide DecodeChar, EncodeChar, Sextets, Number6;
    SextetsOfNumber(DecodeChar(a), DecodeChar(b), DecodeChar(c), DecodeChar(d));
  }

  /** A block of symbols decodes to three bytes that encode to it. */
  lemma BlockRoundTrip(a: byte, b: byte, c: byte, d: byte)
    requires IsSymbol(a) && IsSymbol(b) && IsSymbol(c) && IsSymbol(d)
    ensures var s, t, u, v := DecodeChar(a), DecodeChar(b), DecodeChar(c), DecodeChar(d);
      Group(Number(First(s, t), Second(t, u), Third(u, v))) == [a, b, c, d]
  {
    hide DecodeChar, EncodeChar, Group, First, Second, Third, Number, Bytes;
    GroupOfSymbols(a, b, c, d);
    BlockBytes(DecodeChar(a), DecodeChar(b), DecodeChar(c), DecodeChar(d));
  }

  lemma ZeroSymbol()
    ensures IsSymbol(65) && DecodeChar(65) == 0
  {
  }

  lemma NothingBeyond(b: nat, c: nat)
    ensures b < 64 && b % 16 == 0 ==> Second(b, 0) == 0
    ensures c < 64 && c % 4 == 0 ==> Third(c, 0) == 0
    ensures Third(0, 0) == 0
  {
  }

  /** Encoding what was decoded gives back a canonical text. */
  lemma {:induction false} EncodedDecoded(text: seq<byte>)
    requires |text| % 4 == 0 && Canonical(text)
    ensures Encoded(Decoded(text)) == text
  {
    hide Group, First, Second, Third, DecodeChar, IsSymbol, Number;
    if text != [] {
      PadIsNoSymbol(text[2]);
      PadIsNoSymbol(text[3]);
      ZeroSymbol();
      if text[2] == PAD {
        NothingBeyond(DecodeChar(text[1]), 0);
        BlockRoundTrip(text[0], text[1], 65, 65);
      } else if text[3] == PAD {
        NothingBeyond(0, DecodeChar(text[2]));
        BlockRoundTrip(text[0], text[1], text[2], 65);
      } else {
        BlockRoundTrip(text[0], text[1], text[2], text[3]);
        EncodedDecoded(text[4..]);
        assert Decoded(text)[3..] == Decoded(text[4..]);
      }
    }
  }

  lemma PadIsNoSymbol(c: byte)
    ensures IsSymbol(c) ==> DecodeChar(c) < 64
    ensures DecodeChar(c) == 64 <==> c == PAD
  {
  }

  lemma GroupIsSymbols(v: word24)
    ensures forall k :: 0 <= k < 4 ==> IsSymbol(Group(v)[k]) && Group(v)[k] != PAD
  {
    hide EncodeChar, DecodeChar, Sextets;
    var s := Sextets(v);
    SymbolValue(s[0]);
    SymbolValue(s[1]);
    SymbolValue(s[2]);
    SymbolValue(s[3]);
  }

  lemma Regrouped(a: byte, b: byte, c: byte)
    ensures var a8: int, b8: int, c8: int := a, b, c;
      Number(a, b, c) == Number6(a8 / 4, a8 % 4 * 16 + b8 / 16, b8 % 16 * 4 + c8 / 64, c8 % 64)
  {
  }

  /** The sextets of a group, byte by byte. */
  lemma GroupParts(a: byte, b: byte, c: byte)
    ensures var a8: int, b8: int, c8: int := a, b, c;
      Sextets(Number(a, b, c)) == [a8 / 4, a8 % 4 * 16 + b8 / 16, b8 % 16 * 4 + c8 / 64, c8 % 64]
  {
    hide Sextets, Number, Number6;
    var a8: int, b8: int, c8: int := a, b, c;
    Regrouped(a, b, c);
    SextetsOfNumber(a8 / 4, a8 % 4 * 16 + b8 / 16, b8 % 16 * 4 + c8 / 64, c8 % 64);
  }

  lemma LastBits(a: byte, b: byte)
    ensures Sextets(Number(a, 0, 0))[1] % 16 == 0 && Sextets(Number(a, b, 0))[2] % 4 == 0
  {
    hide Sextets, Number;
    GroupParts(a, 0, 0);
    GroupParts(a, b, 0);
  }

  lemma {:induction false} EncodedIsCanonical(data: seq<byte>)
    ensures |Encoded(data)| % 4 == 0 && Canonical(Encoded(data))
  {
    hide Group, Sextets, DecodeChar, IsSymbol, Number;
    if data != [] {
      var n := |data|;
      var a, b, c := data[0], if n == 1 then 0 else data[1], if n <= 2 then 0 else data[2];
      GroupIsSymbols(Number(a, b, c));
      GroupValues(Number(a, b, c));
      LastBits(a, b);
      if n >= 3 {
        EncodedIsCanonical(data[3..]);
        assert Encoded(data)[4..] == Encoded(data[3..]);
      }
    }
  }

  /** Encoding inverts decoding on the canonical texts and on no others. */
  lemma {:induction false} EncodeInvertsExactly(text: seq<byte>)
    requires |text| % 4 == 0
    ensures Encoded(Decoded(text)) == text <==> Canonical(text)
  {
    hide Encoded, Decoded, Canonical;
    EncodedIsCanonical(Decoded(text));
    if Canonical(text) {
      EncodedDecoded(text);
    }
  }

  /** The last symbol of "QR==" has bits set beyond the byte it ends, and encoding that byte does not set them. */
  lemma UnusedBitsAreLost()
    ensures var text := [81, 82, PAD, PAD];
      !Canonical(text) && Decoded(text) == [65] && Encoded(Decoded(text)) != text
  {
    hide Encoded;
    var text: seq<byte> := [81, 82, PAD, PAD];
    EncodeInvertsExactly(text);
  }

  // ----- The bits of a text, as section 4 of RFC 4648 has them

  /** Six bits for every symbol that is not a pad. */
  function Kept(c: byte): seq<bit> {
    if c == PAD then [] else UCode(6, DecodeChar(c))
  }

  function SymbolBits(text: seq<byte>): seq<bit> {
    if text == [] then [] else Kept(text[0]) + SymbolBits(text[1..])
  }

  /** The bits beyond the last byte in the last block that has any. */
  function SpareBits(n: nat): (z: seq<bit>)
    ensures forall i :: 0 <= i < |z| ==> z[i] == 0
  {
    if n % 3 == 1 then [0, 0, 0, 0] else if n % 3 == 2 then [0, 0] else []
  }

  lemma JoinSix(n: nat, x: nat, y: sextet)
    ensures UCode(n + 6, 64 * x + y) == UCode(n, x) + UCode(6, y)
  {
    hide UCode, Shl, Pow2;
    PowSix();
    ShlIsProduct(x, 6);
    CodeJoined(n, x, 6, y);
  }

  lemma PowSix()
    ensures Pow2(6) == 64
  {
  }

  lemma SextetBits(v: word24)
    ensures var s := Sextets(v); UCode(24, v) == UCode(6, s[0]) + UCode(6, s[1]) + UCode(6, s[2]) + UCode(6, s[3])
  {
    hide UCode, Sextets;
    var s := Sextets(v);
    var a: int, b: int, c: int := s[0], s[1], s[2];
    JoinSix(6, a, s[1]);
    JoinSix(12, 64 * a + b, s[2]);
    JoinSix(18, 64 * (64 * a + b) + c, s[3]);
  }

  lemma ByteBits(a: byte, b: byte, c: byte)
    ensures UCode(24, Number(a, b, c)) == BitsOf([a]) + BitsOf([b]) + BitsOf([c])
  {
    hide UCode, BitsOf;
    OctetCode(3, Number(a, b, c));
    OctetsOfNumber(a, b, c);
    assert [a, b, c] == [a] + [b] + [c];
    BitsConcat([a] + [b], [c]);
    BitsConcat([a], [b]);
  }

  lemma OctetsOfNumber(a: byte, b: byte, c: byte)
    ensures Octets(3, Number(a, b, c)) == [a, b, c]
  {
    LowPart(a, b);
    LowPart(256 * (a as int) + b, c);
    assert Octets(0, 0) == [];
    assert Octets(1, a) == [a];
    assert Octets(2, 256 * (a as int) + b) == [a, b];
  }

  lemma ZeroByteBits()
    ensures BitsOf([0]) == [0, 0, 0, 0, 0, 0, 0, 0]
  {
    forall j | 0 <= j < 8 ensures TestBit(0, j) == 0 {
      ShrZero(j);
    }
  }

  lemma SymbolStep(c: byte, rest: seq<byte>)
    ensures SymbolBits([c] + rest) == Kept(c) + SymbolBits(rest)
  {
    hide Kept;
    assert ([c] + rest)[1..] == rest;
  }

  lemma FourSymbols(a: byte, b: byte, c: byte, d: byte, rest: seq<byte>)
    ensures SymbolBits([a, b, c, d] + rest) == Kept(a) + Kept(b) + Kept(c) + Kept(d) + SymbolBits(rest)
  {
    hide Kept, SymbolBits;
    assert [a, b, c, d] + rest == [a] + ([b] + ([c] + ([d] + rest)));
    SymbolStep(a, [b] + ([c] + ([d] + rest)));
    SymbolStep(b, [c] + ([d] + rest));
    SymbolStep(c, [d] + rest);
    SymbolStep(d, rest);
    var x, y, z, w, r := Kept(a), Kept(b), Kept(c), Kept(d), SymbolBits(rest);
    assert x + y + z + w + r == x + (y + (z + (w + r)));
  }

  /** A whole group carries its three bytes. */
  lemma GroupBits(a: byte, b: byte, c: byte, rest: seq<byte>)
    ensures SymbolBits(Group(Number(a, b, c)) + rest)
      == BitsOf([a]) + BitsOf([b]) + BitsOf([c]) + SymbolBits(rest)
  {
    hide Group, Sextets, DecodeChar, Number, UCode, BitsOf, SymbolBits;
    var v := Number(a, b, c);
    var g := Group(v);
    GroupIsSymbols(v);
    GroupValues(v);
    SextetBits(v);
    ByteBits(a, b, c);
    assert g == [g[0], g[1], g[2], g[3]];
    FourSymbols(g[0], g[1], g[2], g[3], rest);
  }

  /** A padded block carries its one or two bytes and the spare bits. */
  lemma RestBits(data: seq<byte>)
    requires 0 < |data| < 3
    ensures SymbolBits(Rest(data, 0)) == BitsOf(data) + SpareBits(|data|)
  {
    hide Group, Sextets, DecodeChar, Number, UCode, BitsOf, SymbolBits;
    var a, b := data[0], if |data| == 1 then 0 else data[1];
    var v := Number(a, b, 0);
    var g, r := Group(v), Rest(data, 0);
    GroupIsSymbols(v);
    GroupValues(v);
    SextetBits(v);
    ByteBits(a, b, 0);
    ZeroByteBits();
    NoBytes();
    assert r == [r[0], r[1], r[2], r[3]] + [];
    FourSymbols(r[0], r[1], r[2], r[3], []);
    if |data| == 1 {
      assert data == [a];
      assert Kept(g[0]) + Kept(g[1]) == UCode(24, v)[..12] == BitsOf([a]) + [0, 0, 0, 0];
    } else {
      assert data == [a] + [b];
      BitsConcat([a], [b]);
      assert Kept(g[0]) + Kept(g[1]) + Kept(g[2]) == UCode(24, v)[..18] == BitsOf([a]) + BitsOf([b]) + [0, 0];
    }
  }

  /** The symbols of a text carry the bits of its bytes in order, followed by as few zeros as fill the last symbol. */
  lemma {:induction false} EncodedBits(data: seq<byte>)
    ensures SymbolBits(Encoded(data)) == BitsOf(data) + SpareBits(|data|)
  {
    hide Group, Rest, Number, BitsOf, SymbolBits;
    if data == [] {
      NoBytes();
    } else if |data| < 3 {
      RestBits(data);
    } else {
      var a, b, c, rest := data[0], data[1], data[2], data[3..];
      EncodedBits(rest);
      GroupBits(a, b, c, Encoded(rest));
      assert data == [a] + [b] + [c] + rest;
      BitsConcat([a] + [b] + [c], rest);
      BitsConcat([a] + [b], [c]);
      BitsConcat([a], [b]);
    }
  }

  lemma NoBytes()
    ensures BitsOf([]) == [] && SymbolBits([]) == []
  {
  }

  // ----- Sizes

  method DecodedSize(text: seq<byte>) returns (size: nat)
    requires |text| >= 2
    ensures size == (|text| + 3) / 4 * 3
      - (if text[|text| - 1] == PAD then 1 else 0) - (if text[|text| - 2] == PAD then 1 else 0)
    ensures |text| % 4 == 0 ==> |Decoded(text)| <= size
    ensures |text| % 4 == 0 ==> (|Decoded(text)| == size <==> PadsAtEnd(text))
    ensures |text| % 4 == 0 && Canonical(text) ==> |Decoded(text)| == size
  {
    hide Decoded, PadsAtEnd, Canonical;
    size := (|text| + 3) / 4 * 3;
    if text[|text| - 1] == PAD {
      size := size - 1;
    }
    if text[|text| - 2] == PAD {
      size := size - 1;
    }
    if |text| % 4 == 0 {
      SizeExactly(text);
      if Canonical(text) {
        CanonicalPads(text);
      }
    }
  }

  /** Only the last block is cut short by pads, and not by one in the third place alone. */
  predicate PadsAtEnd(text: seq<byte>)
    requires |text| % 4 == 0 && text != []
  {
    if |text| == 4 then text[2] == PAD ==> text[3] == PAD
    else text[2] != PAD && text[3] != PAD && PadsAtEnd(text[4..])
  }

  function TextSize(text: seq<byte>): int
    requires |text| >= 2
  {
    |text| / 4 * 3 - (if text[|text| - 1] == PAD then 1 else 0) - (if text[|text| - 2] == PAD then 1 else 0)
  }

  /** The bytes of the first block, and of the others unless a pad ends it. */
  lemma BlockLength(text: seq<byte>)
    requires |text| % 4 == 0 && text != []
    ensures |Decoded(text)| ==
      if text[2] == PAD then 1 else if text[3] == PAD then 2 else 3 + |Decoded(text[4..])|
  {
    hide First, Second, Third;
  }

  lemma TailSize(text: seq<byte>)
    requires |text| % 4 == 0 && |text| > 4
    ensures TextSize(text) == 3 + TextSize(text[4..]) && TextSize(text[4..]) >= 1
  {
  }

  lemma {:induction false} SizeExactly(text: seq<byte>)
    requires |text| % 4 == 0 && text != []
    ensures |Decoded(text)| <= TextSize(text)
    ensures |Decoded(text)| == TextSize(text) <==> PadsAtEnd(text)
  {
    hide Decoded, TextSize;
    BlockLength(text);
    if |text| == 4 {
      LastBlock(text);
    } else {
      TailSize(text);
      SizeExactly(text[4..]);
    }
  }

  lemma LastBlock(text: seq<byte>)
    requires |text| == 4
    ensures TextSize(text) == 3 - (if text[3] == PAD then 1 else 0) - (if text[2] == PAD then 1 else 0)
    ensures Decoded(text[4..]) == []
  {
  }

  lemma {:induction false} CanonicalPads(text: seq<byte>)
    requires |text| % 4 == 0 && text != [] && Canonical(text)
    ensures PadsAtEnd(text)
  {
    PadIsNoSymbol(text[2]);
    PadIsNoSymbol(text[3]);
    if |text| > 4 {
      CanonicalPads(text[4..]);
    }
  }

  // ----- The loops

  lemma ShiftRight(x: nat)
    ensures Shr(x, 2) == x / 4 && Shr(x, 4) == x / 16 && Shr(x, 6) == x / 64
  {
    ShrShl(x, 2);
    ShrShl(x, 4);
    ShrShl(x, 6);
  }

  lemma MaskShift(x: nat)
    ensures Shl(x, 2) == 4 * x && Shl(And(x, 0x3), 4) == x % 4 * 16 && Shl(And(x, 0x3), 6) == x % 4 * 64
    ensures Shl(And(x, 0xF), 2) == x % 16 * 4 && Shl(And(x, 0xF), 4) == x % 16 * 16
    ensures And(x, 0x3F) == x % 64
  {
    hide And;
    MaskIsMod(x, 2);
    MaskIsMod(x, 4);
    MaskIsMod(x, 6);
    ShlIsProduct(x, 2);
    ShlIsProduct(x % 4, 4);
    ShlIsProduct(x % 4, 6);
    ShlIsProduct(x % 16, 2);
    ShlIsProduct(x % 16, 4);
  }

  /** What the source computes of one group. */
  lemma GroupByShifts(a: byte, b: byte, c: byte)
    ensures Sextets(Number(a, b, c))
      == [Shr(a, 2), Shl(And(a, 0x3), 4) + Shr(b, 4), Shl(And(b, 0xF), 2) + Shr(c, 6), And(c, 0x3F)]
  {
    hide Shr, Shl, And, Sextets, Number;
    GroupParts(a, b, c);
    ShiftRight(a);
    ShiftRight(b);
    ShiftRight(c);
    MaskShift(a);
    MaskShift(b);
    MaskShift(c);
  }

  lemma FirstByShifts(a: nat, b: nat)
    ensures First(a, b) == (Shl(a, 2) + Shr(b, 4)) % 256
  {
    hide Shr, Shl, And;
    MaskShift(a);
    ShiftRight(b);
  }

  lemma SecondByShifts(b: nat, c: nat)
    ensures Second(b, c) == (Shl(And(b, 0xF), 4) + Shr(c, 2)) % 256
  {
    hide Shr, Shl, And;
    MaskShift(b);
    ShiftRight(c);
  }

  lemma ThirdByShifts(c: nat, d: nat)
    ensures Third(c, d) == (Shl(And(c, 0x3), 6) + d) % 256
  {
    hide Shr, Shl, And;
    MaskShift(c);
  }

  lemma SizeIs(data: seq<byte>)
    ensures |Encoded(data)| == EncodedSize(data)
  {
    hide Encoded;
    GroupCount(|data|);
  }

  lemma WholeGroups(data: seq<byte>, g: nat)
    requires |data| == 3 * g
    ensures |Encoded(data)| == 4 * g
  {
    hide Encoded;
    GroupCount(|data|);
  }

  lemma EncodedStep(data: seq<byte>)
    ensures |data| >= 3 ==> Encoded(data) == Group(Number(data[0], data[1], data[2])) + Encoded(data[3..])
    ensures 0 < |data| < 3 ==> Encoded(data) == Rest(data, 0)
  {
    hide Group, Number, Rest;
  }

  lemma {:induction false} EncodedAt(data: seq<byte>, g: nat)
    requires 3 * g + 3 <= |data|
    ensures 4 * g + 4 <= |Encoded(data)|
    ensures Encoded(data)[..4 * g + 4]
      == Encoded(data)[..4 * g] + Group(Number(data[3 * g], data[3 * g + 1], data[3 * g + 2]))
  {
    hide Encoded, Group, Groups, Number;
    EncodedStep(data);
    if g > 0 {
      EncodedAt(data[3..], g - 1);
      var first := Group(Number(data[0], data[1], data[2]));
      assert Encoded(data)[..4 * g + 4] == first + Encoded(data[3..])[..4 * (g - 1) + 4];
      assert Encoded(data)[..4 * g] == first + Encoded(data[3..])[..4 * (g - 1)];
    }
  }

  lemma RestOfTail(data: seq<byte>, i: nat)
    requires 3 <= i < |data| < i + 3
    ensures Rest(data, i) == Rest(data[3..], i - 3)
  {
  }

  lemma {:induction false} EncodedEnd(data: seq<byte>, g: nat)
    requires 3 * g < |data| < 3 * g + 3
    ensures |Encoded(data)| == 4 * g + 4
    ensures Encoded(data) == Encoded(data)[..4 * g] + Rest(data, 3 * g)
  {
    hide Encoded, Group, Groups, Number, Rest;
    EncodedStep(data);
    if g > 0 {
      EncodedEnd(data[3..], g - 1);
      var first := Group(Number(data[0], data[1], data[2]));
      RestOfTail(data, 3 * g);
      assert Encoded(data)[..4 * g] == first + Encoded(data[3..])[..4 * (g - 1)];
    }
  }

  method Encode(data: seq<byte>, encoded: array<byte>) returns (j: nat)
    requires encoded.Length >= EncodedSize(data)
    modifies encoded
    ensures j == EncodedSize(data) && encoded[..j] == Encoded(data) && encoded[j..] == old(encoded[j..])
  {
    hide Encoded, EncodedSize, Group, Groups, Number, Rest;
    SizeIs(data);
    var i, size := 0, |data|;
    var size1 := size - size % 3;
    j := 0;
    ghost var g, groups := 0, size / 3;
    while i < size1
      invariant i == 3 * g && g <= groups && j == 4 * g <= EncodedSize(data)
      invariant encoded[..j] == Encoded(data)[..j] && encoded[j..] == old(encoded[j..])
    {
      EncodedAt(data, g);
      EncodeGroup(data, i, encoded, j);
      i, j, g := i + 3, j + 4, g + 1;
    }
    if size % 3 != 0 {
      EncodedEnd(data, g);
      EncodeRest(data, i, encoded, j);
      j := j + 4;
    } else {
      WholeGroups(data, g);
    }
  }

  /** Three bytes. */
  method EncodeGroup(data: seq<byte>, i: nat, encoded: array<byte>, j: nat)
    requires i + 3 <= |data| && j + 4 <= encoded.Length
    modifies encoded
    ensures encoded[..j + 4] == old(encoded[..j]) + Group(Number(data[i], data[i + 1], data[i + 2]))
    ensures encoded[j + 4..] == old(encoded[j + 4..])
  {
    hide Shr, Shl, And, EncodeChar, Sextets, Number;
    GroupByShifts(data[i], data[i + 1], data[i + 2]);
    encoded[j] := EncodeChar(Shr(data[i], 2));
    encoded[j + 1] := EncodeChar(Shl(And(data[i], 0x3), 4) + Shr(data[i + 1], 4));
    encoded[j + 2] := EncodeChar(Shl(And(data[i + 1], 0xF), 2) + Shr(data[i + 2], 6));
    encoded[j + 3] := EncodeChar(And(data[i + 2], 0x3F));
  }

  /** The last one or two bytes. */
  method EncodeRest(data: seq<byte>, i: nat, encoded: array<byte>, j: nat)
    requires i < |data| < i + 3 && |data| % 3 == |data| - i && j + 4 <= encoded.Length
    modifies encoded
    ensures encoded[..j + 4] == old(encoded[..j]) + Rest(data, i) && encoded[j + 4..] == old(encoded[j + 4..])
  {
    hide Shr, Shl, And, EncodeChar, Sextets, Number;
    ZeroBits();
    if |data| % 3 == 1 {
      GroupByShifts(data[i], 0, 0);
      encoded[j] := EncodeChar(Shr(data[i], 2));
      encoded[j + 1] := EncodeChar(Shl(And(data[i], 0x3), 4));
      encoded[j + 2], encoded[j + 3] := PAD, PAD;
    } else {
      GroupByShifts(data[i], data[i + 1], 0);
      encoded[j] := EncodeChar(Shr(data[i], 2));
      encoded[j + 1] := EncodeChar(Shl(And(data[i], 0x3), 4) + Shr(data[i + 1], 4));
      encoded[j + 2] := EncodeChar(Shl(And(data[i + 1], 0xF), 2));
      encoded[j + 3] := PAD;
    }
  }

  lemma ZeroBits()
    ensures Shr(0, 4) == 0 && Shr(0, 6) == 0
  {
    ShiftRight(0);
  }

  method DecodeBlock(a: nat, b: nat, c: nat, d: nat, data: array<byte>, j: nat) returns (k: nat)
    requires j + |Block(a, b, c, d)| <= data.Length
    modifies data
    ensures k == j + |Block(a, b, c, d)| && data[..k] == old(data[..j]) + Block(a, b, c, d)
  {
    hide Shr, Shl, And, First, Second, Third;
    FirstByShifts(a, b);
    SecondByShifts(b, c);
    ThirdByShifts(c, d);
    data[j] := (Shl(a, 2) + Shr(b, 4)) % 256;
    if c == 64 {
      return j + 1;
    }
    data[j + 1] := (Shl(And(b, 0xF), 4) + Shr(c, 2)) % 256;
    if d == 64 {
      return j + 2;
    }
    data[j + 2] := (Shl(And(c, 0x3), 6) + d) % 256;
    return j + 3;
  }

  /** Needs room only for the bytes it writes, which `DecodedSize` bounds. */
  method Decode(text: seq<byte>, data: array<byte>) returns (n: int)
    requires |text| % 4 == 0 ==> |Decoded(text)| <= data.Length
    modifies data
    ensures |text| % 4 != 0 ==> n == -1 && data[..] == old(data[..])
    ensures |text| % 4 == 0 ==> n == |Decoded(text)| && data[..n] == Decoded(text)
  {
    hide DecodeChar, Decoded, DecodedFrom, Block;
    if |text| % 4 != 0 {
      return -1;
    }
    var i, j := 0, 0;
    ghost var g, blocks, out := 0, |text| / 4, Decoded(text);
    DecodedTail(text, 0);
    while i < |text|
      invariant i == 4 * g && g <= blocks && 0 <= j <= |out|
      invariant out == data[..j] + DecodedFrom(text, g)
    {
      var a, b, c, d := DecodeChar(text[i]), DecodeChar(text[i + 1]), DecodeChar(text[i + 2]), DecodeChar(text[i + 3]);
      DecodedTail(text, g);
      j := DecodeOnto(a, b, c, d, data, j, out, if c == 64 || d == 64 then [] else DecodedFrom(text, g + 1));
      if c == 64 || d == 64 {
        return j;
      }
      i, g := i + 4, g + 1;
    }
    DecodedTail(text, g);
    n := j;
  }

  /** A block in front of the rest of the output. */
  method DecodeOnto(a: nat, b: nat, c: nat, d: nat, data: array<byte>, j: nat,
                    ghost out: seq<byte>, ghost rest: seq<byte>)
    returns (k: nat)
    requires j <= |out| <= data.Length && out == data[..j] + (Block(a, b, c, d) + rest)
    modifies data
    ensures k <= |out| && out == data[..k] + rest
    ensures rest == [] ==> k == |out| && data[..k] == out
  {
    hide Block;
    Joined(data[..j], Block(a, b, c, d), rest);
    k := DecodeBlock(a, b, c, d, data, j);
  }

  lemma Joined(a: seq<byte>, b: seq<byte>, c: seq<byte>)
    ensures a + (b + c) == a + b + c && |a + (b + c)| == |a| + |b| + |c|
    ensures a + b + [] == a + b
  {
  }

  /** Decoding a text into a buffer of the size computed for it. */
  method DecodeAll(text: seq<byte>) returns (n: int, data: array<byte>)
    requires |text| >= 2
    ensures |text| % 4 != 0 ==> n == -1
    ensures |text| % 4 == 0 ==> n == |Decoded(text)| <= data.Length && data[..n] == Decoded(text)
  {
    hide Decoded;
    var size := DecodedSize(text);
    data := new byte[size];
    n := Decode(text, data);
  }

  /** The bytes of the blocks from block `g` on. */
  ghost function DecodedFrom(text: seq<byte>, g: nat): seq<byte>
    requires |text| % 4 == 0 && 4 * g <= |text|
  {
    Decoded(text[4 * g..])
  }

  lemma {:induction false} DecodedTail(text: seq<byte>, g: nat)
    requires |text| % 4 == 0 && 4 * g <= |text|
    ensures DecodedFrom(text, 0) == Decoded(text)
    ensures 4 * g == |text| ==> DecodedFrom(text, g) == []
    ensures 4 * g < |text| ==> 4 * g + 4 <= |text|
    ensures 4 * g < |text| ==> (
      var c, d := DecodeChar(text[4 * g + 2]), DecodeChar(text[4 * g + 3]);
      DecodedFrom(text, g) == Block(DecodeChar(text[4 * g]), DecodeChar(text[4 * g + 1]), c, d)
        + if c == 64 || d == 64 then [] else DecodedFrom(text, g + 1))
  {
    hide DecodeChar, Block;
    assert text[0..] == text;
    if 4 * g < |text| {
      assert text[4 * g..][4..] == text[4 * g + 4..];
    }
  }
}

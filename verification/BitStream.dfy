/** The bit cursor over a byte buffer. */
module BitStream {
  import opened Words
  import opened BitCodes

  function Fill(n: nat, x: nat): (s: seq<nat>)
    ensures |s| == n && forall i :: 0 <= i < n ==> s[i] == x
  {
    seq(n, _ => x)
  }

  /** The bit lengths of 0 to 255, except that 0 has length 1. */
  const LEN_TABLE: seq<nat> :=
    [1, 1] + Fill(2, 2) + Fill(4, 3) + Fill(8, 4) + Fill(16, 5) + Fill(32, 6) + Fill(64, 7) + Fill(128, 8)

  lemma TableEntry(v: nat)
    requires 0 < v < 256
    ensures |LEN_TABLE| == 256 && LEN_TABLE[v] == BitLength(v)
  {
  }

  /** Bits shifted out count towards the length. */
  lemma {:induction false} LengthOfShifted(v: nat, k: nat)
    requires Shr(v, k) > 0
    ensures BitLength(v) == k + BitLength(Shr(v, k))
  {
    if k > 0 {
      LengthOfShifted(v, k - 1);
    }
  }

  /** The table lookup of `bs_write_ue` gives the true bit length of every word. */
  method TableLength(v: uint32) returns (len: nat)
    requires v > 0
    ensures len == BitLength(v)
  {
    hide LEN_TABLE, BitLength;
    var k := if v >= 0x1000000 then 24 else if v >= 0x10000 then 16 else if v >= 0x100 then 8 else 0;
    ByteOf(v, k);
    TableEntry(Shr(v, k));
    LengthOfShifted(v, k);
    len := k + LEN_TABLE[Shr(v, k)];
  }

  lemma ByteOf(v: uint32, k: nat)
    requires v > 0
    requires k == if v >= 0x1000000 then 24 else if v >= 0x10000 then 16 else if v >= 0x100 then 8 else 0
    ensures 0 < Shr(v, k) < 256
  {
    hide Shr;
    if k == 24 {
      HighByte(v);
    } else if k == 16 {
      ThirdByte(v);
    } else if k == 8 {
      SecondByte(v);
    } else {
      ShrStart(v);
    }
  }

  lemma HighByte(v: uint32)
    ensures Shr(v, 24) == v / 0x1000000
  {
    hide Shr, Shl, Pow2;
    ShrShl(v, 24);
    PowerOfK();
  }

  lemma ThirdByte(v: uint32)
    ensures Shr(v, 16) == v / 0x10000
  {
    hide Shr, Shl, Pow2;
    ShrShl(v, 16);
    PowerOfK();
  }

  lemma SecondByte(v: uint32)
    ensures Shr(v, 8) == v / 0x100
  {
    hide Shr, Shl, Pow2;
    ShrShl(v, 8);
    PowerOfK();
  }

  lemma PowerOfK()
    ensures Pow2(0) == 1 && Pow2(8) == 0x100 && Pow2(16) == 0x10000 && Pow2(24) == 0x1000000
  {
    assert Pow2(8) == 256;
    assert Pow2(16) == 65536;
  }

  /** Or-ing one more bit in below the bits read so far. */
  lemma NextBit(r: nat, x: bit, m: nat)
    ensures Or(Shl(r, m + 1), Shl(x, m)) == Shl(2 * r + x, m)
  {
    ShlDouble(r, m);
    OrSplit(m, 2 * r, 0, x, 0);
    OrStep(2 * r, x);
    OrZero(r);
    OrZero(0);
  }

  lemma {:induction false} ShlDouble(r: nat, m: nat)
    ensures Shl(r, m + 1) == Shl(2 * r, m)
  {
    if m > 0 {
      ShlDouble(r, m - 1);
    }
  }

  /** A code grows by one bit at a time. */
  lemma CodePrefix(bits: seq<bit>, k: nat, n: nat, v: nat, i: nat)
    requires i < n
    ensures Overlay(Overlay(bits, k, UCode(n, v)[..i]), k + i, [TestBit(v, n - 1 - i)])
      == Overlay(bits, k, UCode(n, v)[..i + 1])
  {
    OverlayTwice(bits, k, UCode(n, v)[..i], [TestBit(v, n - 1 - i)]);
    assert UCode(n, v)[..i] + [TestBit(v, n - 1 - i)] == UCode(n, v)[..i + 1];
  }

  /** One byte is its eight bits. */
  lemma {:induction false} WholeByte(data: seq<byte>, p: nat)
    requires p < |data|
    ensures UAt(BitsOf(data), 8 * p, 8) == data[p]
  {
    hide TestBit, UAt, Pow2;
    var bits := BitsOf(data);
    forall i | 0 <= i < 8 ensures bits[8 * p..8 * p + 8][i] == UCode(8, data[p])[i] {
      BitOfByte(data, p, 7 - i);
    }
    PowEight();
    URoundTrip(bits, 8 * p, 8, data[p]);
  }

  /** Storing a byte writes its eight bits. */
  lemma StoredByte(data: seq<byte>, p: nat, v: nat)
    requires p < |data|
    ensures BitsOf(data[p := v % 256]) == Overlay(BitsOf(data), 8 * p, UCode(8, v))
  {
    hide TestBit;
    forall k | 0 <= k < 8 * |data|
      ensures BitsOf(data[p := v % 256])[k] == Overlay(BitsOf(data), 8 * p, UCode(8, v))[k]
    {
      if k / 8 == p {
        LowBits(v, 7 - k % 8);
      }
    }
  }

  lemma LowBits(v: nat, j: nat)
    requires j < 8
    ensures TestBit(v % 256, j) == TestBit(v, j)
  {
    TestLow(v, 8, j);
    PowEight();
  }

  lemma {:induction false} TestLow(v: nat, n: nat, j: nat)
    requires j < n
    ensures TestBit(v % Pow2(n), j) == TestBit(v, j)
  {
    HalfRemainder(v, Pow2(n - 1));
    if j > 0 {
      ShrTail(v, j - 1);
      ShrTail(v % Pow2(n), j - 1);
      TestLow(v / 2, n - 1, j - 1);
    }
  }

  lemma HalfRemainder(v: nat, m: nat)
    requires m > 0
    ensures v % (2 * m) / 2 == v / 2 % m && v % (2 * m) % 2 == v % 2
  {
    DivMod(v / 2, m);
    var q := v / 2 / m;
    assert q * (2 * m) == 2 * (q * m);
    Quotient(v, 2 * m, q);
  }

  class BitCursor {
    var data: array<byte>
    var p: nat
    var bitsLeft: nat

    ghost predicate Valid()
      reads this
    {
      1 <= bitsLeft <= 8
    }

    ghost function Bits(): seq<bit>
      reads this, data
    {
      BitsOf(data[..])
    }

    /** The place of the next bit. */
    ghost function Place(): nat
      requires Valid()
      reads this
    {
      8 * p + 8 - bitsLeft
    }

    constructor (data: array<byte>)
      ensures Valid() && this.data == data && Place() == 0
    {
      this.data := data;
      p := 0;
      bitsLeft := 8;
    }

    /** A second cursor on the same buffer. */
    constructor Clone(b: BitCursor)
      requires b.Valid()
      ensures Valid() && data == b.data && Place() == b.Place()
    {
      data := b.data;
      p := b.p;
      bitsLeft := b.bitsLeft;
    }

    predicate Eof()
      reads this
    {
      p >= data.Length
    }

    function BytesLeft(): int
      reads this
    {
      data.Length - p
    }

    method ReadU1() returns (r: bit)
      requires Valid()
      modifies this`p, this`bitsLeft
      ensures Valid() && Place() == old(Place()) + 1
      ensures r == BitAt(Bits(), old(Place()))
    {
      hide And, Shr;
      r := 0;
      bitsLeft := bitsLeft - 1;
      if !Eof() {
        AndOne(Shr(data[p], bitsLeft));
        BitOfByte(data[..], p, bitsLeft);
        r := And(Shr(data[p], bitsLeft), 1);
      }
      if bitsLeft == 0 {
        p := p + 1;
        bitsLeft := 8;
      }
    }

    method ReadU(n: nat) returns (r: uint32)
      requires Valid() && n <= 32
      modifies this`p, this`bitsLeft
      ensures Valid() && Place() == old(Place()) + n
      ensures r == UAt(Bits(), old(Place()), n)
    {
      hide UAt, BitAt, BitsOf, Shl, Or, Pow2;
      ghost var k := Place();
      var sum: nat := 0;
      NoBits(k, n);
      for i := 0 to n
        invariant Valid() && Place() == k + i
        invariant sum == Shl(UAt(Bits(), k, i), n - i)
      {
        var x := ReadU1();
        NextBit(UAt(Bits(), k, i), x, n - i - 1);
        UAtNext(Bits(), k, i);
        sum := Or(sum, Shl(x, n - i - 1));
      }
      NoShift(UAt(Bits(), k, n));
      FitsWord(n);
      r := sum;
    }

    method WriteU1(v: nat)
      requires Valid()
      modifies this`p, this`bitsLeft, data
      ensures Valid() && Place() == old(Place()) + 1
      ensures Bits() == Overlay(old(Bits()), old(Place()), [v % 2])
    {
      hide And, Or, Shl, Hole, BitsOf;
      bitsLeft := bitsLeft - 1;
      if !Eof() {
        AndOne(v);
        PatchedFits(data[p], bitsLeft, And(v, 1));
        PatchedBits(data[..], p, bitsLeft, And(v, 1));
        var cleared := And(data[p], Hole(8, bitsLeft));
        ghost var after := data[..][p := Or(cleared, Shl(And(v, 1), bitsLeft))];
        data[p] := Or(cleared, Shl(And(v, 1), bitsLeft));
        assert data[..] == after;
      } else {
        assert Overlay(Bits(), 8 * p + 7 - bitsLeft, [v % 2]) == Bits();
      }
      if bitsLeft == 0 {
        p := p + 1;
        bitsLeft := 8;
      }
    }

    method WriteU(n: nat, v: uint32)
      requires Valid() && n <= 32
      modifies this`p, this`bitsLeft, data
      ensures Valid() && Place() == old(Place()) + n
      ensures Bits() == Overlay(old(Bits()), old(Place()), UCode(n, v))
    {
      hide Shr, And, BitsOf, UCode;
      ghost var before, k := Bits(), Place();
      OverlayNothing(before, k);
      for i := 0 to n
        invariant Valid() && Place() == k + i && data == old(data)
        invariant Bits() == Overlay(before, k, UCode(n, v)[..i])
      {
        AndOne(Shr(v, n - i - 1));
        WriteU1(And(Shr(v, n - i - 1), 1));
        CodePrefix(before, k, n, v, i);
      }
      assert UCode(n, v)[..n] == UCode(n, v);
    }

    /** Whole bytes are read directly when the cursor is on one. */
    method ReadU8() returns (r: uint32)
      requires Valid()
      modifies this`p, this`bitsLeft
      ensures Valid() && Place() == old(Place()) + 8
      ensures r == UAt(Bits(), old(Place()), 8)
    {
      if bitsLeft == 8 && !Eof() {
        hide UAt, BitsOf;
        WholeByte(data[..], p);
        r := data[p];
        p := p + 1;
      } else {
        r := ReadU(8);
      }
    }

    /** Whole bytes are written directly when the cursor is on one. */
    method WriteU8(v: uint32)
      requires Valid()
      modifies this`p, this`bitsLeft, data
      ensures Valid() && Place() == old(Place()) + 8
      ensures Bits() == Overlay(old(Bits()), old(Place()), UCode(8, v))
    {
      hide BitsOf, UCode;
      if bitsLeft == 8 && !Eof() {
        StoredByte(data[..], p, v);
        ghost var after := data[..][p := v % 256];
        data[p] := v % 256;
        assert data[..] == after;
        p := p + 1;
      } else {
        WriteU(8, v);
      }
    }

    /** `n` bits ahead; the cursor is put back. */
    method ReadRu(n: nat) returns (r: uint32)
      requires Valid() && n <= 32
      modifies this`p, this`bitsLeft
      ensures Valid() && p == old(p) && bitsLeft == old(bitsLeft)
      ensures r == UAt(Bits(), Place(), n)
    {
      var byteBefore, leftBefore := p, bitsLeft;
      r := ReadU(n);
      p := byteBefore;
      bitsLeft := leftBefore;
    }

    /** `n` bits ahead, through a second cursor. */
    method NextBits(n: nat) returns (r: uint32)
      requires Valid() && n <= 32
      ensures r == UAt(Bits(), Place(), n)
    {
      var ahead := new BitCursor.Clone(this);
      r := ahead.ReadU(n);
    }

    /** The shift by the number of zeros is defined for fewer than 31 of them. */
    method ReadUe() returns (r: nat)
      requires Valid() && ZeroRun(Bits(), Place(), 0) < 31
      modifies this`p, this`bitsLeft
      ensures Valid() && (r, Place()) == UeAt(Bits(), old(Place()))
    {
      hide BitsOf, UAt, BitAt, ZeroRun, Shl, Pow2;
      ghost var bits, k := Bits(), Place();
      var i := 0;
      var x := ReadU1();
      while x == 0 && i < 32 && !Eof()
        invariant Valid() && Place() == k + i + 1 && i <= 32
        invariant x == BitAt(bits, k + i) && ZeroRun(bits, k, 0) == ZeroRun(bits, k + i, i)
        decreases 32 - i
      {
        ZeroRunNext(bits, k + i, i);
        i := i + 1;
        x := ReadU1();
      }
      ZeroRunNext(bits, k + i, i);
      r := ReadU(i);
      ShlOne(i);
      r := r + Shl(1, i) - 1;
    }

    method ReadSe() returns (r: int)
      requires Valid() && ZeroRun(Bits(), Place(), 0) < 31
      modifies this`p, this`bitsLeft
      ensures Valid()
      ensures var (number, next) := UeAt(Bits(), old(Place())); r == SeValue(number) && Place() == next
    {
      hide UeAt, And;
      r := ReadUe();
      AndOne(r);
      if And(r, 1) != 0 {
        r := (r + 1) / 2;
      } else {
        r := -(r / 2);
      }
    }

    method WriteUe(v: uint32)
      requires Valid() && v <= 65534
      modifies this`p, this`bitsLeft, data
      ensures Valid() && Place() == old(Place()) + |UeCode(v)|
      ensures Bits() == Overlay(old(Bits()), old(Place()), UeCode(v))
    {
      hide BitsOf, UeCode, UCode, Overlay, Pow2, BitLength;
      if v == 0 {
        CodeOfZero();
        WriteU1(1);
      } else {
        var len := TableLength(v + 1);
        ShortCode(v);
        WideCode(v);
        WriteU(2 * len - 1, v + 1);
      }
    }

    method WriteSe(v: int)
      requires Valid() && -32767 <= v <= 32767
      modifies this`p, this`bitsLeft, data
      ensures Valid() && Place() == old(Place()) + |UeCode(SeNumber(v))|
      ensures Bits() == Overlay(old(Bits()), old(Place()), UeCode(SeNumber(v)))
    {
      if v <= 0 {
        WriteUe(-v * 2);
      } else {
        WriteUe(v * 2 - 1);
      }
    }

    /** Copies whole bytes from the byte the cursor is in, as many of `len` as there are. */
    method ReadBytes(dest: array<byte>, len: int) returns (n: nat)
      requires Valid() && len <= dest.Length && dest != data
      modifies this`p, dest
      ensures Valid() && n == Clamp(len, data.Length - old(p)) && p == old(p) + Clamp(len, len)
      ensures n > 0 ==> dest[..n] == data[old(p)..old(p) + n]
      ensures dest[n..] == old(dest[n..])
    {
      n := Clamp(len, data.Length - p);
      forall i | 0 <= i < n {
        dest[i] := data[p + i];
      }
      p := p + Clamp(len, len);
    }

    /** Stores whole bytes from the byte the cursor is in, as many of `len` as fit. */
    method WriteBytes(source: seq<byte>, len: int) returns (n: nat)
      requires Valid() && len <= |source|
      modifies this`p, data
      ensures Valid() && n == Clamp(len, data.Length - old(p)) && p == old(p) + Clamp(len, len)
      ensures Bits() == Overlay(old(Bits()), 8 * old(p), BitsOf(source[..Clamp(len, len)]))
    {
      ghost var before := data[..];
      n := Clamp(len, data.Length - p);
      forall i | 0 <= i < n {
        data[p + i] := source[i];
      }
      StoredBits(before, p, source[..Clamp(len, len)]);
      assert data[..] == Stored(before, p, source[..Clamp(len, len)]);
      p := p + Clamp(len, len);
    }

    /** Reads `count` bytes into a text of `size`, unless it or the buffer is too short. */
    method ReadString(count: int, text: array<byte>, size: nat) returns (r: int)
      requires Valid() && size <= text.Length && text != data
      modifies this`p, this`bitsLeft, text
      ensures Valid()
      ensures r == if count > size - 1 || old(BytesLeft()) < count then -1 else count
      ensures Place() == old(Place()) + if r < 0 then 0 else 8 * r
      ensures forall i :: 0 <= i < r ==> text[i] == UAt(Bits(), old(Place()) + 8 * i, 8)
      ensures forall i :: 0 <= i < text.Length && i >= r ==> text[i] == old(text[i])
    {
      hide UAt, BitsOf;
      if count > size - 1 || BytesLeft() < count {
        return -1;
      }
      ghost var k, bits := Place(), Bits();
      var i := 0;
      while i < count
        invariant 0 <= i && (count >= 0 ==> i <= count) && Valid() && Place() == k + 8 * i && Bits() == bits
        invariant count < 0 ==> i == 0
        invariant forall j :: 0 <= j < i ==> text[j] == UAt(bits, k + 8 * j, 8)
        invariant forall j :: i <= j < text.Length ==> text[j] == old(text[j])
      {
        var c := ReadU8();
        ByteFits(bits, k + 8 * i);
        text[i] := c;
        i := i + 1;
      }
      return count;
    }
  }

  /** `n`, but no more than `most` and no less than 0. */
  function Clamp(n: int, most: int): nat {
    if n < 0 || most < 0 then 0 else if n < most then n else most
  }

  lemma ByteFits(bits: seq<bit>, k: nat)
    ensures UAt(bits, k, 8) < 256
  {
    PowEight();
  }

  lemma CodeOfZero()
    ensures UeCode(0) == [1]
  {
    assert BitLength(1) == 1;
  }

  /** `data` with `source` written over it from byte `p`; what falls past the end is lost. */
  function Stored(data: seq<byte>, p: nat, source: seq<byte>): (r: seq<byte>)
    ensures |r| == |data|
    ensures forall i :: 0 <= i < |data| ==> r[i] == if p <= i < p + |source| then source[i - p] else data[i]
  {
    seq(|data|, i requires 0 <= i < |data| => if p <= i < p + |source| then source[i - p] else data[i])
  }

  /** Storing bytes writes their bits. */
  lemma StoredBits(data: seq<byte>, p: nat, source: seq<byte>)
    ensures BitsOf(Stored(data, p, source)) == Overlay(BitsOf(data), 8 * p, BitsOf(source))
  {
    hide TestBit;
    var a, b := BitsOf(Stored(data, p, source)), Overlay(BitsOf(data), 8 * p, BitsOf(source));
    forall k | 0 <= k < 8 * |data| ensures a[k] == b[k] {
      if p <= k / 8 {
        EightsApart(k, p);
      }
    }
  }

  lemma NoBits(k: nat, n: nat)
    ensures forall bits :: Shl(UAt(bits, k, 0), n) == 0
  {
    ShlZero(n);
  }

  lemma UAtNext(bits: seq<bit>, k: nat, i: nat)
    ensures UAt(bits, k, i + 1) == 2 * UAt(bits, k, i) + BitAt(bits, k + i)
  {
  }

  lemma NoShift(x: nat)
    ensures Shl(x, 0) == x
  {
  }

  lemma FitsWord(n: nat)
    requires n <= 32
    ensures Pow2(n) <= TWO_TO_THE_32
  {
    Pow2Values();
    PowMonotone(n, 32);
  }

  // ----- Sequences of elements

  method WriteElement(b: BitCursor, e: Element)
    requires b.Valid() && Writable(e)
    modifies b`p, b`bitsLeft, b.data
    ensures b.Valid() && b.Place() == old(b.Place()) + |Code(e)|
    ensures b.Bits() == Overlay(old(b.Bits()), old(b.Place()), Code(e))
  {
    hide BitsOf, Overlay, UCode, UeCode, Pow2;
    match e
    case U(n, v) =>
      FitsWord(n);
      b.WriteU(n, v);
    case U8(v) => b.WriteU8(v);
    case Ue(v) => b.WriteUe(v);
    case Se(i) => b.WriteSe(i);
  }

  method ReadElement(b: BitCursor, kind: Kind) returns (v: int)
    requires b.Valid() && Defined(b.Bits(), b.Place(), kind)
    modifies b`p, b`bitsLeft
    ensures b.Valid() && (v, b.Place()) == ReadAt(b.Bits(), old(b.Place()), kind)
  {
    hide BitsOf, UAt, UeAt, ZeroRun;
    match kind
    case UKind(n) => v := b.ReadU(n);
    case U8Kind => v := b.ReadU8();
    case UeKind => v := b.ReadUe();
    case SeKind => v := b.ReadSe();
  }

  method WriteAll(b: BitCursor, es: seq<Element>)
    requires b.Valid() && forall e :: e in es ==> Writable(e)
    modifies b`p, b`bitsLeft, b.data
    ensures b.Valid() && b.Place() == old(b.Place()) + |Codes(es)|
    ensures b.Bits() == Overlay(old(b.Bits()), old(b.Place()), Codes(es))
  {
    hide BitsOf, Overlay, Code, Writable;
    if es == [] {
      OverlayNothing(b.Bits(), b.Place());
    } else {
      WriteElement(b, es[0]);
      WriteAll(b, es[1..]);
      OverlayTwice(old(b.Bits()), old(b.Place()), Code(es[0]), Codes(es[1..]));
    }
  }

  method ReadAll(b: BitCursor, kinds: seq<Kind>) returns (values: seq<int>)
    requires b.Valid() && AllDefined(b.Bits(), b.Place(), kinds)
    modifies b`p, b`bitsLeft
    ensures b.Valid() && (values, b.Place()) == ReadAllAt(b.Bits(), old(b.Place()), kinds)
  {
    hide BitsOf, ReadAt, Defined;
    if kinds == [] {
      values := [];
    } else {
      var v := ReadElement(b, kinds[0]);
      var rest := ReadAll(b, kinds[1..]);
      values := [v] + rest;
    }
  }

  /** Elements written from any bit where they fit are read by a second cursor from that bit. */
  method WriteThenRead(b: BitCursor, es: seq<Element>) returns (values: seq<int>, reader: BitCursor)
    requires b.Valid() && (forall e :: e in es ==> Writable(e)) && b.Place() + |Codes(es)| <= 8 * b.data.Length
    modifies b`p, b`bitsLeft, b.data
    ensures b.Valid() && reader.Valid() && fresh(reader) && reader.data == b.data
    ensures values == Values(es) && reader.Place() == b.Place() == old(b.Place()) + |Codes(es)|
    ensures b.Bits() == Overlay(old(b.Bits()), old(b.Place()), Codes(es))
  {
    hide BitsOf, Overlay, Codes, Writable, AllDefined, ReadAllAt;
    reader := new BitCursor.Clone(b);
    WriteAll(b, es);
    OverlayHolds(old(b.Bits()), old(b.Place()), Codes(es));
    ElementsAreDefined(b.Bits(), old(b.Place()), es);
    RoundTrip(old(b.Bits()), old(b.Place()), es);
    values := ReadAll(reader, Kinds(es));
  }
}

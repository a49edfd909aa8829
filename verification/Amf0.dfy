/** AMF0 objects of named strings, numbers and booleans (sections 2.2 to 2.5 and 2.11 of the AMF0 specification). */
module Amf0 {
  import opened Words
  import opened BitCodes
  import opened BitStream
  import opened ByteCodes

  const AMF_NUMBER: nat := 0
  const AMF_BOOLEAN: nat := 1
  const AMF_STRING: nat := 2
  const AMF_OBJECT: nat := 3
  const AMF_OBJECT_END: nat := 9

  // The types whose payloads this model does not read: object, null, ECMA array, strict array, date, long string.
  const OUTSIDE: set<nat> := {3, 5, 8, 10, 11, 12}

  // ----- What is written

  /** A double is its eight bytes in memory, low byte first. */
  type double = s: seq<byte> | |s| == 8 witness [0, 0, 0, 0, 0, 0, 0, 0]

  datatype Value = Number(raw: double) | Boolean(b: byte) | Text(s: seq<byte>)

  datatype Member = Member(name: seq<byte>, value: Value)

  function Flag(b: byte): byte {
    if b == 0 then 0 else 1
  }

  function Backwards(raw: double): (r: double)
    ensures forall i :: 0 <= i < 8 ==> r[i] == raw[7 - i]
  {
    [raw[7], raw[6], raw[5], raw[4], raw[3], raw[2], raw[1], raw[0]]
  }

  function ValueBytes(v: Value): seq<byte> {
    match v
    case Number(raw) => Octets(1, AMF_NUMBER) + Backwards(raw)
    case Boolean(b) => Octets(1, AMF_BOOLEAN) + [Flag(b)]
    case Text(s) => Octets(1, AMF_STRING) + Octets(2, |s|) + s
  }

  function MemberBytes(m: Member): seq<byte> {
    Octets(2, |m.name|) + m.name + ValueBytes(m.value)
  }

  function MembersBytes(ms: seq<Member>): seq<byte> {
    if ms == [] then [] else MemberBytes(ms[0]) + MembersBytes(ms[1..])
  }

  lemma OneOctet(v: byte)
    ensures Octets(1, v) == [v]
  {
    assert Octets(0, 0) == [];
  }

  lemma TwoOctets(n: nat)
    ensures Octets(2, n) == [n / 256 % 256, n % 256]
  {
    assert Octets(0, n / 256 / 256) == [];
    assert Octets(1, n / 256) == [n / 256 % 256];
  }

  /**
   * The bytes on the wire: type 0 and the double high byte first, type 1 and 0 or 1, type 2 with a 16-bit length and
   * the text.
   */
  lemma WireFormat(raw: double, flag: byte, s: seq<byte>)
    ensures ValueBytes(Number(raw)) == [0, raw[7], raw[6], raw[5], raw[4], raw[3], raw[2], raw[1], raw[0]]
    ensures ValueBytes(Boolean(flag)) == if flag == 0 then [1, 0] else [1, 1]
    ensures ValueBytes(Text(s)) == [2, |s| / 256 % 256, |s| % 256] + s
  {
    hide Octets;
    OneOctet(0);
    OneOctet(1);
    OneOctet(2);
    TwoOctets(|s|);
  }

  /** Before each member come the 16-bit length of its name and the name. */
  lemma MemberFormat(m: Member)
    ensures MemberBytes(m) == [|m.name| / 256 % 256, |m.name| % 256] + m.name + ValueBytes(m.value)
  {
    hide Octets, ValueBytes;
    TwoOctets(|m.name|);
  }

  method WriteObject(b: BitCursor)
    requires b.bitsLeft == 8
    modifies b`p, b`bitsLeft, b.data
    ensures Wrote(b, Octets(1, AMF_OBJECT)) && Wrote(b, [3])
  {
    PutByte(b, AMF_OBJECT);
    OneOctet(3);
  }

  method WriteObjectEnd(b: BitCursor)
    requires b.bitsLeft == 8
    modifies b`p, b`bitsLeft, b.data
    ensures Wrote(b, [0, 0, 9])
  {
    PutWord(b, 3, AMF_OBJECT_END);
    EndMarker();
  }

  lemma EndMarker()
    ensures Octets(3, AMF_OBJECT_END) == [0, 0, AMF_OBJECT_END]
  {
    assert Octets(0, 0) == [];
    assert Octets(1, 0) == [0];
    assert Octets(2, 0) == [0, 0];
  }

  method WriteBoolean(b: BitCursor, value: byte)
    requires b.bitsLeft == 8
    modifies b`p, b`bitsLeft, b.data
    ensures Wrote(b, ValueBytes(Boolean(value)))
    ensures Wrote(b, [1, if value == 0 then 0 else 1])
  {
    hide Octets;
    PutByte(b, AMF_BOOLEAN);
    PutByte(b, Flag(value));
    OneOctet(Flag(value));
    StoredTwice(old(b.data[..]), old(b.p), Octets(1, AMF_BOOLEAN), [Flag(value)]);
    OneOctet(1);
  }

  lemma DoubleInPieces(value: double)
    ensures ValueBytes(Number(value)) == Octets(1, AMF_NUMBER)
      + [value[7]] + [value[6]] + [value[5]] + [value[4]] + [value[3]] + [value[2]] + [value[1]] + [value[0]]
  {
    hide Octets;
  }

  method WriteDouble(b: BitCursor, value: double)
    requires b.bitsLeft == 8
    modifies b`p, b`bitsLeft, b.data
    ensures Wrote(b, ValueBytes(Number(value)))
    ensures Wrote(b, [0, value[7], value[6], value[5], value[4], value[3], value[2], value[1], value[0]])
  {
    hide Octets, Stored, ValueBytes;
    ghost var before, at := b.data[..], b.p;
    PutByte(b, AMF_NUMBER);
    ghost var done := Octets(1, AMF_NUMBER);
    done := PutNext(b, value[7], before, at, done);
    done := PutNext(b, value[6], before, at, done);
    done := PutNext(b, value[5], before, at, done);
    done := PutNext(b, value[4], before, at, done);
    done := PutNext(b, value[3], before, at, done);
    done := PutNext(b, value[2], before, at, done);
    done := PutNext(b, value[1], before, at, done);
    done := PutNext(b, value[0], before, at, done);
    DoubleInPieces(value);
    WireFormat(value, 0, []);
  }

  /** One more byte behind those in `done`, which were stored from byte `at`. */
  method PutNext(b: BitCursor, v: byte, ghost before: seq<byte>, ghost at: nat, ghost done: seq<byte>)
    returns (ghost more: seq<byte>)
    requires b.bitsLeft == 8 && b.p == at + |done| && b.data[..] == Stored(before, at, done)
    modifies b`p, b`bitsLeft, b.data
    ensures more == done + [v]
    ensures b.bitsLeft == 8 && b.p == at + |more| && b.data[..] == Stored(before, at, more)
  {
    hide Octets, Stored;
    PutByte(b, v);
    OneOctet(v);
    StoredTwice(before, at, done, [v]);
    more := done + [v];
  }

  method WriteString(b: BitCursor, value: seq<byte>)
    requires b.bitsLeft == 8 && |value| <= INT_MAX
    modifies b`p, b`bitsLeft, b.data
    ensures Wrote(b, ValueBytes(Text(value)))
    ensures Wrote(b, [2, |value| / 256 % 256, |value| % 256] + value)
  {
    hide Octets, Stored, ValueBytes;
    PutByte(b, AMF_STRING);
    PutWord(b, 2, |value|);
    StoredTwice(old(b.data[..]), old(b.p), Octets(1, AMF_STRING), Octets(2, |value|));
    PutBytes(b, value);
    StoredTwice(old(b.data[..]), old(b.p), Octets(1, AMF_STRING) + Octets(2, |value|), value);
    TextInPieces(value);
    WireFormat([0, 0, 0, 0, 0, 0, 0, 0], 0, value);
  }

  lemma TextInPieces(value: seq<byte>)
    ensures ValueBytes(Text(value)) == Octets(1, AMF_STRING) + Octets(2, |value|) + value
  {
    hide Octets;
  }

  /** The length and the bytes of a name. */
  method WriteName(b: BitCursor, name: seq<byte>)
    requires b.bitsLeft == 8 && |name| <= INT_MAX
    modifies b`p, b`bitsLeft, b.data
    ensures Wrote(b, Octets(2, |name|) + name)
  {
    hide Octets, Stored;
    PutWord(b, 2, |name|);
    PutBytes(b, name);
    StoredTwice(old(b.data[..]), old(b.p), Octets(2, |name|), name);
  }

  method WriteNamedString(b: BitCursor, name: seq<byte>, value: seq<byte>)
    requires b.bitsLeft == 8 && |name| <= INT_MAX && |value| <= INT_MAX
    modifies b`p, b`bitsLeft, b.data
    ensures Wrote(b, MemberBytes(Member(name, Text(value))))
  {
    hide Octets, Stored, ValueBytes;
    WriteName(b, name);
    WriteString(b, value);
    StoredTwice(old(b.data[..]), old(b.p), Octets(2, |name|) + name, ValueBytes(Text(value)));
  }

  method WriteNamedDouble(b: BitCursor, name: seq<byte>, value: double)
    requires b.bitsLeft == 8 && |name| <= INT_MAX
    modifies b`p, b`bitsLeft, b.data
    ensures Wrote(b, MemberBytes(Member(name, Number(value))))
  {
    hide Octets, Stored, ValueBytes;
    WriteName(b, name);
    WriteDouble(b, value);
    StoredTwice(old(b.data[..]), old(b.p), Octets(2, |name|) + name, ValueBytes(Number(value)));
  }

  method WriteNamedBoolean(b: BitCursor, name: seq<byte>, value: byte)
    requires b.bitsLeft == 8 && |name| <= INT_MAX
    modifies b`p, b`bitsLeft, b.data
    ensures Wrote(b, MemberBytes(Member(name, Boolean(value))))
  {
    hide Octets, Stored, ValueBytes;
    WriteName(b, name);
    WriteBoolean(b, value);
    StoredTwice(old(b.data[..]), old(b.p), Octets(2, |name|) + name, ValueBytes(Boolean(value)));
  }

  // ----- What is read

  /** An entry of the reader's table: a name, where its value goes and how much a string may take there. */
  datatype Item = Item(name: seq<byte>, value: array<byte>, size: nat)

  /** An entry with what its storage holds. */
  datatype Slot = Slot(name: seq<byte>, storage: seq<byte>, size: nat)

  /** The first bytes of some storage replaced. */
  function Over(storage: seq<byte>, value: seq<byte>): (r: seq<byte>)
    requires |value| <= |storage|
    ensures |r| == |storage|
  {
    value + storage[|value|..]
  }

  function ByteRange(data: seq<byte>, p: nat, n: nat): (r: seq<byte>)
    ensures |r| == n && forall i :: 0 <= i < n ==> r[i] == ByteAt(data, p + i)
  {
    seq<byte>(n, i requires 0 <= i < n => ByteAt(data, p + i))
  }

  /** An `int` compared with an unsigned word is itself read as one. */
  function Unsigned(x: int): uint32 {
    x % TWO_TO_THE_32
  }

  /**
   * Reading a string for storage of `size`: the length reported, or -1; how many bytes are stored; and where the
   * cursor ends. Whether the bytes are there is first asked of an unsigned number, then of a signed one.
   */
  function StringFrom(data: seq<byte>, p: nat, size: nat): (r: (int, nat, nat))
    ensures r.1 == 0 || r.1 == r.0 < size
    ensures r.2 == p + 2 + r.1 && -1 <= r.0 < 65536
  {
    var n, left := Word16(data, p), |data| - (p + 2);
    if Unsigned(left) < n then (-1, 0, p + 2)
    else if n == 0 || n > size - 1 || left < n then (n, 0, p + 2)
    else (n, n, p + 2 + n)
  }

  /**
   * A counted string: -1 when fewer bytes are left than it counts, read whole when it leaves a byte to spare, and
   * otherwise left where it is. A length cut off by the end reads its missing bytes as 0 and is never -1.
   */
  lemma StringFromMeans(data: seq<byte>, p: nat, size: nat)
    requires |data| <= INT_MAX && p <= INT_MAX
    ensures p + 2 <= |data| ==>
      var high: nat := data[p];
      var n := 256 * high + data[p + 1];
      StringFrom(data, p, size)
      == if |data| - (p + 2) < n then (-1, 0, p + 2) else if n < size then (n, n, p + 2 + n) else (n, 0, p + 2)
    ensures p + 2 > |data| ==>
      var high: nat := if p < |data| then data[p] else 0;
      StringFrom(data, p, size) == (256 * high, 0, p + 2)
  {
    var left := |data| - (p + 2);
    if left >= 0 {
      SmallMod(left, TWO_TO_THE_32);
    } else {
      Wrapped(left);
    }
  }

  lemma Wrapped(left: int)
    requires -INT_MAX - 2 <= left < 0
    ensures Unsigned(left) >= 65536
  {
    assert (left + TWO_TO_THE_32) % TWO_TO_THE_32 == left + TWO_TO_THE_32;
  }

  datatype Outcome<T> = Outside | Read(value: T, next: nat)

  /** Reading one value into storage, unless it is of a type outside this model or the storage is too small. */
  function ItemFrom(data: seq<byte>, p: nat, slot: Slot): (r: Outcome<Slot>)
    ensures r.Read? ==> p <= r.next && r.value.name == slot.name && |r.value.storage| == |slot.storage|
  {
    if |data| - p <= 1 then Read(slot, p)
    else if data[p] in OUTSIDE || slot.size > |slot.storage| || |slot.storage| < 8 then Outside
    else if data[p] == AMF_BOOLEAN then
      Read(slot.(storage := Over(slot.storage, [ByteAt(data, p + 1)])), p + 2)
    else if data[p] == AMF_NUMBER then
      Read(slot.(storage := Over(slot.storage, Backwards(ByteRange(data, p + 1, 8)))), p + 9)
    else if data[p] == AMF_STRING then
      var (_, n, next) := StringFrom(data, p + 1, slot.size);
      Read(slot.(storage := Over(slot.storage, ByteRange(data, p + 3, n))), next)
    else Read(slot, p + 1)
  }

  /** The types by their bytes: 0 is a number, 1 a boolean, 2 a string; every other type of the model is passed over. */
  lemma ItemFromMeans(data: seq<byte>, p: nat, slot: Slot)
    requires p + 1 < |data| && data[p] !in {3, 5, 8, 10, 11, 12} && slot.size <= |slot.storage| && 8 <= |slot.storage|
    ensures ItemFrom(data, p, slot).Read?
    ensures var (next, now, was) := (ItemFrom(data, p, slot).next, ItemFrom(data, p, slot).value.storage, slot.storage);
      match data[p]
      case 0 =>
        && next == p + 9 && now[8..] == was[8..]
        && forall i :: 0 <= i < 8 ==> now[i] == if p + 8 - i < |data| then data[p + 8 - i] else 0
      case 1 => next == p + 2 && now == was[0 := data[p + 1]]
      case 2 =>
        var (_, n, end) := StringFrom(data, p + 1, slot.size);
        next == end && now[n..] == was[n..] && forall i :: 0 <= i < n ==> now[i] == ByteAt(data, p + 3 + i)
      case _ => next == p + 1 && now == was
  {
    hide StringFrom;
  }

  /** The first entry with a name. */
  function Find(slots: seq<Slot>, name: seq<byte>): (i: nat)
    ensures i <= |slots|
    ensures forall j :: 0 <= j < i ==> slots[j].name != name
    ensures i < |slots| ==> slots[i].name == name
  {
    if slots == [] || slots[0].name == name then 0 else 1 + Find(slots[1..], name)
  }

  /** Reading one name and its value; with it, whether the loop ends there. Names are read into 64 bytes. */
  function MemberFrom(data: seq<byte>, p: nat, slots: seq<Slot>): (r: Outcome<(seq<Slot>, bool)>)
    ensures r.Read? ==> p < r.next && |r.value.0| == |slots|
  {
    var (len, n, q) := StringFrom(data, p, 64);
    var name := ByteRange(data, p + 2, n);
    if len < 0 || n == 0 || name[0] == 0 then Read((slots, true), q) else
      var i := Find(slots, name);
      if i == |slots| then Read((slots, true), q) else
        match ItemFrom(data, q, slots[i])
        case Outside => Outside
        case Read(slot, next) => Read((slots[i := slot], Word24(data, next) == AMF_OBJECT_END), next)
  }

  function ObjectFrom(data: seq<byte>, p: nat, slots: seq<Slot>): (r: Outcome<seq<Slot>>)
    ensures r.Read? ==> |r.value| == |slots|
    decreases |data| - p
  {
    if p >= |data| then Read(slots, p) else
      match MemberFrom(data, p, slots)
      case Outside => Outside
      case Read((after, last), next) => if last then Read(after, next) else ObjectFrom(data, next, after)
  }

  function SlotOf(item: Item): Slot
    reads item.value
  {
    Slot(item.name, item.value[..], item.size)
  }

  function Storage(items: seq<Item>): set<array<byte>> {
    set i | 0 <= i < |items| :: items[i].value
  }

  function Slots(items: seq<Item>): (r: seq<Slot>)
    reads Storage(items)
    ensures |r| == |items| && forall i :: 0 <= i < |items| ==> r[i] == SlotOf(items[i])
  {
    seq(|items|, i requires 0 <= i < |items| reads Storage(items) => SlotOf(items[i]))
  }

  /** The eight bytes of a double as they come. */
  method GetDouble(b: BitCursor) returns (wire: double)
    requires b.bitsLeft == 8
    modifies b`p, b`bitsLeft
    ensures b.bitsLeft == 8 && b.p == old(b.p) + 8 && wire == ByteRange(b.data[..], old(b.p), 8)
  {
    hide ByteAt;
    var v7 := GetByte(b);
    var v6 := GetByte(b);
    var v5 := GetByte(b);
    var v4 := GetByte(b);
    var v3 := GetByte(b);
    var v2 := GetByte(b);
    var v1 := GetByte(b);
    var v0 := GetByte(b);
    wire := [v7, v6, v5, v4, v3, v2, v1, v0];
  }

  method ReadDouble(b: BitCursor, value: array<byte>)
    requires b.bitsLeft == 8 && value.Length >= 8 && value != b.data
    modifies b`p, b`bitsLeft, value
    ensures b.bitsLeft == 8 && b.p == old(b.p) + 8
    ensures value[..] == Over(old(value[..]), Backwards(ByteRange(b.data[..], old(b.p), 8)))
  {
    var wire := GetDouble(b);
    forall i | 0 <= i < 8 {
      value[i] := wire[7 - i];
    }
  }

  /** `bs_read_string` on a byte boundary. */
  method ReadText(b: BitCursor, count: nat, text: array<byte>, size: nat)
    requires b.bitsLeft == 8 && size <= text.Length && text != b.data
    modifies b`p, b`bitsLeft, text
    ensures b.bitsLeft == 8
    ensures var n := if count > size - 1 || |b.data[..]| - old(b.p) < count then 0 else count;
      b.p == old(b.p) + n && text[..] == Over(old(text[..]), ByteRange(b.data[..], old(b.p), n))
  {
    hide UAt, BitsOf, ByteAt;
    ghost var data, p := b.data[..], b.p;
    var r := b.ReadString(count, text, size);
    forall i | 0 <= i < r ensures text[i] == ByteAt(data, p + i) {
      ByteIs(data, p + i);
      assert 8 * p + 8 * i == 8 * (p + i);
    }
  }

  method ReadString(b: BitCursor, text: array<byte>, size: nat) returns (len: int)
    requires b.bitsLeft == 8 && size <= text.Length && text != b.data
    modifies b`p, b`bitsLeft, text
    ensures b.bitsLeft == 8
    ensures var (length, n, next) := StringFrom(b.data[..], old(b.p), size);
      len == length && b.p == next && text[..] == Over(old(text[..]), ByteRange(b.data[..], old(b.p) + 2, n))
  {
    hide UAt, BitsOf, Word16, ByteAt, Unsigned;
    WordsAre(b.data[..], b.p);
    var count := b.ReadU(16);
    if Unsigned(b.BytesLeft()) < count {
      return -1;
    }
    if count != 0 {
      ReadText(b, count, text, size);
    }
    return count;
  }

  method FindObjectItem(items: seq<Item>, text: array<byte>, len: nat) returns (i: nat)
    requires len <= text.Length
    ensures i == Find(Slots(items), text[..len])
  {
    i := 0;
    while i < |items|
      invariant i <= |items| && Find(Slots(items), text[..len]) == i + Find(Slots(items)[i..], text[..len])
    {
      if |items[i].name| == len && items[i].name == text[..len] {
        return;
      }
      assert Slots(items)[i..][1..] == Slots(items)[i + 1..];
      i := i + 1;
    }
  }

  method ReadObjectItem(b: BitCursor, item: Item)
    requires b.bitsLeft == 8 && item.value != b.data
    requires ItemFrom(b.data[..], b.p, SlotOf(item)).Read?
    modifies b`p, b`bitsLeft, item.value
    ensures b.bitsLeft == 8
    ensures ItemFrom(b.data[..], old(b.p), old(SlotOf(item))) == Read(SlotOf(item), b.p)
  {
    hide StringFrom;
    if b.BytesLeft() <= 1 {
      return;
    }
    var kind := GetByte(b);
    if kind == AMF_BOOLEAN {
      item.value[0] := GetByte(b);
      assert item.value[..] == Over(old(item.value[..]), [ByteAt(b.data[..], old(b.p) + 1)]);
    } else if kind == AMF_NUMBER {
      ReadDouble(b, item.value);
    } else if kind == AMF_STRING {
      var _ := ReadString(b, item.value, item.size);
    }
  }

  /** The items' storage is apart from the buffer and from each other. */
  ghost predicate Apart(items: seq<Item>, b: BitCursor)
    reads b
  {
    && (forall i :: 0 <= i < |items| ==> items[i].value != b.data)
    && (forall i, j :: 0 <= i < j < |items| ==> items[i].value != items[j].value)
  }

  /** Reads a value into one entry of the table. */
  method ReadInto(b: BitCursor, items: seq<Item>, i: nat)
    requires b.bitsLeft == 8 && Apart(items, b) && i < |items|
    requires ItemFrom(b.data[..], b.p, Slots(items)[i]).Read?
    modifies b`p, b`bitsLeft, Storage(items)
    ensures b.bitsLeft == 8 && b.data[..] == old(b.data[..])
    ensures ItemFrom(b.data[..], old(b.p), old(Slots(items))[i]) == Read(Slots(items)[i], b.p)
    ensures Slots(items) == old(Slots(items))[i := Slots(items)[i]]
  {
    hide ItemFrom;
    ReadObjectItem(b, items[i]);
  }

  lemma MemberCases(data: seq<byte>, p: nat, slots: seq<Slot>)
    requires MemberFrom(data, p, slots).Read?
    ensures var (len, n, q) := StringFrom(data, p, 64);
      var name := ByteRange(data, p + 2, n);
      var i := Find(slots, name);
      if len < 0 || n == 0 || name[0] == 0 || i == |slots| then MemberFrom(data, p, slots) == Read((slots, true), q)
      else
        var r := ItemFrom(data, q, slots[i]);
        && r.Read?
        && MemberFrom(data, p, slots) == Read((slots[i := r.value], Word24(data, r.next) == AMF_OBJECT_END), r.next)
  {
    hide StringFrom, ItemFrom, Find, Word24;
  }

  /** Reads the name of a member; a name that cannot be read, or is too long, is left empty. */
  method ReadName(b: BitCursor) returns (text: array<byte>, len: int)
    requires b.bitsLeft == 8
    modifies b`p, b`bitsLeft
    ensures b.bitsLeft == 8 && fresh(text) && text.Length == 64
    ensures var (length, n, next) := StringFrom(b.data[..], old(b.p), 64);
      && len == length && b.p == next && text[..n] == ByteRange(b.data[..], old(b.p) + 2, n)
      && (n == 0 ==> text[0] == 0)
  {
    hide StringFrom;
    text := new byte[64](_ => 0);
    len := ReadString(b, text, 64);
  }

  /** One turn of the object loop: a name and its value, and whether the loop ends there. */
  method ReadMember(b: BitCursor, items: seq<Item>) returns (last: bool)
    requires b.bitsLeft == 8 && Apart(items, b)
    requires MemberFrom(b.data[..], b.p, Slots(items)).Read?
    modifies b`p, b`bitsLeft, Storage(items)
    ensures b.bitsLeft == 8 && b.data[..] == old(b.data[..])
    ensures MemberFrom(b.data[..], old(b.p), old(Slots(items))) == Read((Slots(items), last), b.p)
  {
    hide StringFrom, ItemFrom, Find, Word24, UAt, BitsOf, SlotOf, MemberFrom, ByteAt;
    MemberCases(b.data[..], b.p, Slots(items));
    var text, len := ReadName(b);
    if len < 0 || text[0] == 0 {
      return true;
    }
    var i := FindObjectItem(items, text, len);
    if i == |items| {
      return true;
    }
    ReadInto(b, items, i);
    WordsAre(b.data[..], b.p);
    var ahead := b.ReadRu(24);
    return ahead == AMF_OBJECT_END;
  }

  method ReadObject(b: BitCursor, items: seq<Item>) returns (left: int)
    requires b.bitsLeft == 8 && Apart(items, b)
    requires ObjectFrom(b.data[..], b.p, Slots(items)).Read?
    modifies b`p, b`bitsLeft, Storage(items)
    ensures b.bitsLeft == 8
    ensures ObjectFrom(b.data[..], old(b.p), old(Slots(items))) == Read(Slots(items), b.p)
    ensures left == b.BytesLeft()
  {
    hide MemberFrom;
    ghost var data := b.data[..];
    while !b.Eof()
      invariant b.bitsLeft == 8 && b.data[..] == data
      invariant ObjectFrom(data, old(b.p), old(Slots(items))) == ObjectFrom(data, b.p, Slots(items))
      decreases |data| - b.p
    {
      var last := ReadMember(b, items);
      if last {
        break;
      }
    }
    left := b.BytesLeft();
  }
}

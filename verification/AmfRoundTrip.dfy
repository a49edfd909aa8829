/** Reading back an AMF0 object that was written. */
module AmfRoundTrip {
  import opened Words
  import opened Amf0
  import opened BitStream
  import opened ByteCodes

  ghost predicate Holds(data: seq<byte>, p: nat, bytes: seq<byte>) {
    p + |bytes| <= |data| && data[p..p + |bytes|] == bytes
  }

  /** What the reader leaves in an item's storage for a value. */
  function InMemory(v: Value): seq<byte> {
    match v
    case Number(raw) => raw
    case Boolean(b) => [if b == 0 then 0 else 1]
    case Text(s) => s
  }

  predicate GoodMember(m: Member) {
    && 1 <= |m.name| <= 63 && 0 !in m.name
    && (m.value.Text? ==> |m.value.s| <= 65535)
  }

  /** The storage takes a double, and a string with a byte to spare. */
  predicate Takes(slot: Slot, v: Value) {
    && slot.size <= |slot.storage| && 8 <= |slot.storage|
    && (v.Text? && v.s != [] ==> |v.s| < slot.size)
  }

  function Assigned(slot: Slot, v: Value): (r: Slot)
    requires Takes(slot, v)
    ensures r.name == slot.name && r.size == slot.size && |r.storage| == |slot.storage|
  {
    slot.(storage := Over(slot.storage, InMemory(v)))
  }

  lemma {:induction false} OctetsOf(n: nat)
    requires n < 65536
    ensures Octets(2, n) == [n / 256, n % 256] && Octets(1, n) == [n % 256]
  {
    assert Octets(0, n / 256) == [];
    assert Octets(0, n / 65536) == [];
    assert Octets(1, n / 256) == [n / 256 % 256];
  }

  lemma {:induction false} HeldByte(data: seq<byte>, p: nat, bytes: seq<byte>, i: nat)
    requires Holds(data, p, bytes) && i < |bytes|
    ensures ByteAt(data, p + i) == data[p + i] == bytes[i]
  {
    assert data[p..p + |bytes|][i] == bytes[i];
  }

  lemma {:induction false} HeldParts(data: seq<byte>, p: nat, a: seq<byte>, b: seq<byte>)
    requires Holds(data, p, a + b)
    ensures Holds(data, p, a) && Holds(data, p + |a|, b)
  {
    assert (a + b)[..|a|] == a && (a + b)[|a|..] == b;
    assert data[p..p + |a| + |b|][..|a|] == data[p..p + |a|];
    assert data[p..p + |a| + |b|][|a|..] == data[p + |a|..p + |a| + |b|];
  }

  lemma {:induction false} HoldsWithin(data: seq<byte>, p: nat, bytes: seq<byte>)
    requires Holds(data, p, bytes)
    ensures p + |bytes| <= |data|
  {
  }

  lemma {:induction false} RangeHeld(data: seq<byte>, p: nat, bytes: seq<byte>)
    requires Holds(data, p, bytes)
    ensures ByteRange(data, p, |bytes|) == bytes
  {
    forall i | 0 <= i < |bytes| ensures ByteAt(data, p + i) == bytes[i] {
      HeldByte(data, p, bytes, i);
    }
  }

  /** A counted string is read whole when the storage takes it. */
  lemma {:induction false} StringReads(data: seq<byte>, p: nat, s: seq<byte>, size: nat)
    requires Holds(data, p, Octets(2, |s|) + s) && |data| <= INT_MAX
    requires |s| <= 65535 && (s != [] ==> |s| < size)
    ensures StringFrom(data, p, size) == (|s|, |s|, p + 2 + |s|)
    ensures ByteRange(data, p + 2, |s|) == s
  {
    hide ByteAt, ByteRange, Octets, Word16, Holds;
    HeldParts(data, p, Octets(2, |s|), s);
    HoldsWithin(data, p + 2, s);
    RangeHeld(data, p + 2, s);
    LengthReads(data, p, |s|);
    SmallMod(|data| - (p + 2), TWO_TO_THE_32);
  }

  lemma {:induction false} LengthReads(data: seq<byte>, p: nat, n: nat)
    requires n <= 65535 && Holds(data, p, Octets(2, n))
    ensures Word16(data, p) == n
  {
    OctetsOf(n);
    HeldByte(data, p, Octets(2, n), 0);
    HeldByte(data, p, Octets(2, n), 1);
  }

  lemma {:induction false} NumberReads(data: seq<byte>, p: nat, slot: Slot, raw: double)
    requires Holds(data, p, ValueBytes(Number(raw))) && Takes(slot, Number(raw))
    ensures ItemFrom(data, p, slot) == Read(Assigned(slot, Number(raw)), p + 9)
  {
    hide Over, Octets, Backwards, ByteRange, StringFrom;
    OctetsOf(AMF_NUMBER);
    HeldByte(data, p, ValueBytes(Number(raw)), 0);
    HeldParts(data, p, [AMF_NUMBER], Backwards(raw));
    RangeHeld(data, p + 1, Backwards(raw));
    TwiceBackwards(raw);
  }

  lemma {:induction false} BooleanReads(data: seq<byte>, p: nat, slot: Slot, b: byte)
    requires Holds(data, p, ValueBytes(Boolean(b))) && Takes(slot, Boolean(b))
    ensures ItemFrom(data, p, slot) == Read(Assigned(slot, Boolean(b)), p + 2)
  {
    hide Over, Octets, ByteRange, StringFrom;
    OctetsOf(AMF_BOOLEAN);
    HeldByte(data, p, ValueBytes(Boolean(b)), 0);
    HeldByte(data, p, ValueBytes(Boolean(b)), 1);
  }

  /** Behind a string type byte a string is read. */
  lemma {:induction false} StringItem(data: seq<byte>, p: nat, slot: Slot)
    requires |data| - p > 1 && data[p] == AMF_STRING && slot.size <= |slot.storage| && 8 <= |slot.storage|
    ensures var (_, n, next) := StringFrom(data, p + 1, slot.size);
      ItemFrom(data, p, slot) == Read(slot.(storage := Over(slot.storage, ByteRange(data, p + 3, n))), next)
  {
    hide Over, ByteRange, StringFrom, ByteAt, Backwards;
  }

  lemma {:induction false} TextBytes(s: seq<byte>)
    ensures ValueBytes(Text(s)) == [AMF_STRING] + (Octets(2, |s|) + s)
  {
    OctetsOf(AMF_STRING);
  }

  lemma {:induction false} TextReads(data: seq<byte>, p: nat, slot: Slot, s: seq<byte>)
    requires Holds(data, p, ValueBytes(Text(s))) && Takes(slot, Text(s)) && |s| <= 65535 && |data| <= INT_MAX
    ensures ItemFrom(data, p, slot) == Read(Assigned(slot, Text(s)), p + 3 + |s|)
  {
    hide Over, Octets, ByteRange, StringFrom, ItemFrom, ByteAt, Holds, ValueBytes;
    TextBytes(s);
    HoldsWithin(data, p, ValueBytes(Text(s)));
    HeldByte(data, p, ValueBytes(Text(s)), 0);
    HeldParts(data, p, [AMF_STRING], Octets(2, |s|) + s);
    StringReads(data, p + 1, s, slot.size);
    StringItem(data, p, slot);
  }

  lemma {:induction false} ItemReads(data: seq<byte>, p: nat, slot: Slot, v: Value)
    requires Holds(data, p, ValueBytes(v))
    requires |data| <= INT_MAX
    requires Takes(slot, v)
    requires v.Text? ==> |v.s| <= 65535
    ensures ItemFrom(data, p, slot) == Read(Assigned(slot, v), p + |ValueBytes(v)|)
  {
    hide ItemFrom, Takes, Holds, Assigned;
    match v
    case Number(raw) => NumberReads(data, p, slot, raw);
    case Boolean(b) => BooleanReads(data, p, slot, b);
    case Text(s) => TextReads(data, p, slot, s);
  }

  lemma {:induction false} TwiceBackwards(raw: double)
    ensures Backwards(Backwards(raw)) == raw
  {
  }

  lemma {:induction false} MemberParts(data: seq<byte>, p: nat, m: Member)
    requires Holds(data, p, MemberBytes(m))
    ensures Holds(data, p, Octets(2, |m.name|) + m.name)
    ensures Holds(data, p + 2 + |m.name|, ValueBytes(m.value))
    ensures |MemberBytes(m)| == 2 + |m.name| + |ValueBytes(m.value)|
  {
    hide Holds, ValueBytes, Octets;
    HeldParts(data, p, Octets(2, |m.name|) + m.name, ValueBytes(m.value));
  }

  /** Once its name is read, a member is the value in the entry of that name. */
  lemma {:induction false} NamedMember(data: seq<byte>, p: nat, slots: seq<Slot>, name: seq<byte>)
    requires name != [] && name[0] != 0
    requires StringFrom(data, p, 64) == (|name|, |name|, p + 2 + |name|) && ByteRange(data, p + 2, |name|) == name
    ensures var i := Find(slots, name);
      MemberFrom(data, p, slots) == if i == |slots| then Read((slots, true), p + 2 + |name|) else
        match ItemFrom(data, p + 2 + |name|, slots[i])
        case Outside => Outside
        case Read(slot, next) => Read((slots[i := slot], Word24(data, next) == AMF_OBJECT_END), next)
  {
    hide StringFrom, ItemFrom, Find, Word24, ByteRange;
  }

  lemma {:induction false} MemberReads(data: seq<byte>, p: nat, slots: seq<Slot>, m: Member)
    requires Holds(data, p, MemberBytes(m)) && |data| <= INT_MAX && GoodMember(m)
    requires Find(slots, m.name) < |slots| ==> Takes(slots[Find(slots, m.name)], m.value)
    ensures var i, next := Find(slots, m.name), p + |MemberBytes(m)|;
      MemberFrom(data, p, slots)
      == if i == |slots| then Read((slots, true), p + 2 + |m.name|)
         else Read((slots[i := Assigned(slots[i], m.value)], Word24(data, next) == AMF_OBJECT_END), next)
  {
    hide StringFrom, ItemFrom, MemberFrom, MemberBytes, Find, Word24, ValueBytes, Assigned, Takes, Holds;
    hide ByteRange, ByteAt, Octets;
    MemberParts(data, p, m);
    var i := Find(slots, m.name);
    if i < |slots| {
      ItemReads(data, p + 2 + |m.name|, slots[i], m.value);
    }
    StringReads(data, p, m.name, 64);
    NamedMember(data, p, slots, m.name);
  }

  /**
   * The object loop ends at a name that is empty, is cut off by the end of the bytes, does not fit its 64 bytes or
   * starts with a zero, and no entry is touched.
   */
  lemma {:induction false} NoNameEnds(data: seq<byte>, p: nat, slots: seq<Slot>)
    requires p + 2 <= |data| <= INT_MAX
    ensures var high: nat := data[p];
      var n, left := 256 * high + data[p + 1], |data| - (p + 2);
      (left < n || n == 0 || n >= 64 || data[p + 2] == 0) ==>
        MemberFrom(data, p, slots) == Read((slots, true), if left < n || n >= 64 then p + 2 else p + 2 + n)
  {
    hide StringFrom, ItemFrom, Find, Word24;
    StringFromMeans(data, p, 64);
  }

  /** A member does not start with the end marker: its name has a length. */
  lemma {:induction false} MemberIsNoEnd(data: seq<byte>, p: nat, m: Member)
    requires Holds(data, p, MemberBytes(m)) && GoodMember(m)
    ensures Word24(data, p) != AMF_OBJECT_END
  {
    HeldParts(data, p, Octets(2, |m.name|) + m.name, ValueBytes(m.value));
    HeldParts(data, p, Octets(2, |m.name|), m.name);
    LengthReads(data, p, |m.name|);
  }

  lemma {:induction false} EndIsRead(data: seq<byte>, p: nat)
    requires Holds(data, p, [0, 0, AMF_OBJECT_END])
    ensures Word24(data, p) == AMF_OBJECT_END
  {
    HeldByte(data, p, [0, 0, AMF_OBJECT_END], 0);
    HeldByte(data, p, [0, 0, AMF_OBJECT_END], 1);
    HeldByte(data, p, [0, 0, AMF_OBJECT_END], 2);
  }

  /** The table after an object, and where the reader stops: at the end marker or behind the first unknown name. */
  function Filled(slots: seq<Slot>, p: nat, ms: seq<Member>): (seq<Slot>, nat)
    requires Ready(slots, ms)
    decreases |ms|
  {
    if ms == [] then (slots, p) else
      var i := Find(slots, ms[0].name);
      if i == |slots| then (slots, p + 2 + |ms[0].name|) else
        assert ReadyFor(slots, ms[0]);
        var after := slots[i := Assigned(slots[i], ms[0].value)];
        StillReady(slots, i, after[i], ms);
        Filled(after, p + |MemberBytes(ms[0])|, ms[1..])
  }

  /** Every member has a proper name, and the entry of that name, if any, takes its value. */
  ghost predicate Ready(slots: seq<Slot>, ms: seq<Member>) {
    forall m :: m in ms ==> ReadyFor(slots, m)
  }

  ghost predicate ReadyFor(slots: seq<Slot>, m: Member) {
    GoodMember(m) && (Find(slots, m.name) < |slots| ==> Takes(slots[Find(slots, m.name)], m.value))
  }

  lemma {:induction false} SameFind(slots: seq<Slot>, i: nat, slot: Slot, name: seq<byte>)
    requires i < |slots| && slot.name == slots[i].name
    ensures Find(slots[i := slot], name) == Find(slots, name)
  {
    hide Find;
    var after := slots[i := slot];
    assert forall j :: 0 <= j < |slots| ==> after[j].name == slots[j].name;
  }

  lemma {:induction false} StillReady(slots: seq<Slot>, i: nat, slot: Slot, ms: seq<Member>)
    requires Ready(slots, ms) && ms != [] && i < |slots|
    requires slot.name == slots[i].name && slot.size == slots[i].size && |slot.storage| == |slots[i].storage|
    ensures Ready(slots[i := slot], ms[1..])
  {
    forall m | m in ms[1..] ensures ReadyFor(slots[i := slot], m) {
      assert ReadyFor(slots, m);
      SameFind(slots, i, slot, m.name);
    }
  }

  lemma {:induction false} ObjectReads(data: seq<byte>, p: nat, ms: seq<Member>, slots: seq<Slot>)
    requires ms != [] && Ready(slots, ms) && |data| <= INT_MAX
    requires Holds(data, p, MembersBytes(ms) + [0, 0, AMF_OBJECT_END])
    ensures ObjectFrom(data, p, slots) == Read(Filled(slots, p, ms).0, Filled(slots, p, ms).1)
    decreases |ms|
  {
    hide MemberFrom, MemberBytes, Word24, Find, Assigned;
    var m, i, end := ms[0], Find(slots, ms[0].name), [0, 0, AMF_OBJECT_END];
    assert ReadyFor(slots, m);
    assert MembersBytes(ms) + end == MemberBytes(m) + (MembersBytes(ms[1..]) + end);
    HeldParts(data, p, MemberBytes(m), MembersBytes(ms[1..]) + end);
    MemberReads(data, p, slots, m);
    MemberSize(m);
    if i < |slots| {
      var next, after := p + |MemberBytes(m)|, slots[i := Assigned(slots[i], m.value)];
      StillReady(slots, i, after[i], ms);
      if |ms| == 1 {
        assert MembersBytes(ms[1..]) + end == end;
        EndIsRead(data, next);
      } else {
        assert MembersBytes(ms[1..]) + end == MemberBytes(ms[1]) + (MembersBytes(ms[2..]) + end) by {
          assert ms[1..][1..] == ms[2..];
        }
        HeldParts(data, next, MemberBytes(ms[1]), MembersBytes(ms[2..]) + end);
        assert ReadyFor(slots, ms[1]);
        MemberIsNoEnd(data, next, ms[1]);
        ObjectReads(data, next, ms[1..], after);
      }
    }
  }

  lemma {:induction false} MemberSize(m: Member)
    ensures |MemberBytes(m)| > 0
  {
  }

  /** Every name is in the table. */
  ghost predicate Known(slots: seq<Slot>, ms: seq<Member>) {
    forall m :: m in ms ==> Find(slots, m.name) < |slots|
  }

  ghost predicate Distinct(ms: seq<Member>) {
    forall j, k :: 0 <= j < k < |ms| ==> ms[j].name != ms[k].name
  }

  /** All names known: each member's entry has its value, the other entries are as they were. */
  lemma {:induction false} FilledMeans(slots: seq<Slot>, p: nat, ms: seq<Member>)
    requires Ready(slots, ms) && Distinct(ms)
    requires Known(slots, ms)
    ensures var (after, end) := Filled(slots, p, ms);
      && |after| == |slots| && end == p + |MembersBytes(ms)|
      && (forall m :: m in ms ==> after[Find(slots, m.name)] == Assigned(slots[Find(slots, m.name)], m.value))
      && (forall i :: 0 <= i < |slots| && (forall m :: m in ms ==> i != Find(slots, m.name)) ==> after[i] == slots[i])
    decreases |ms|
  {
    hide MemberBytes, Find, Assigned, Takes, GoodMember;
    if ms != [] {
      var i, rest := Find(slots, ms[0].name), ms[1..];
      assert ReadyFor(slots, ms[0]);
      var next := slots[i := Assigned(slots[i], ms[0].value)];
      StillReady(slots, i, next[i], ms);
      forall m | m in rest ensures Find(next, m.name) == Find(slots, m.name) != i {
        SameFind(slots, i, next[i], m.name);
      }
      FilledMeans(next, p + |MemberBytes(ms[0])|, rest);
    }
  }

  /**
   * A non-empty object written where it fits and read from behind its type byte: with every name in the table, each
   * entry gets the value of its name in whatever order the table lists them, other entries are untouched, and the
   * reader stops at the end marker.
   */
  lemma {:induction false} ObjectRoundTrip(before: seq<byte>, p: nat, ms: seq<Member>, slots: seq<Slot>)
    requires ms != [] && Ready(slots, ms) && Distinct(ms)
    requires Known(slots, ms)
    requires p + 1 + |MembersBytes(ms)| + 3 <= |before| <= INT_MAX
    ensures var data := Stored(before, p, Octets(1, AMF_OBJECT) + MembersBytes(ms) + [0, 0, AMF_OBJECT_END]);
      var r := ObjectFrom(data, p + 1, slots);
      && r.Read? && r.next == p + 1 + |MembersBytes(ms)| && Holds(data, r.next, [0, 0, AMF_OBJECT_END])
      && (forall m :: m in ms ==> r.value[Find(slots, m.name)] == Assigned(slots[Find(slots, m.name)], m.value))
      && (forall i :: 0 <= i < |slots| && (forall m :: m in ms ==> i != Find(slots, m.name)) ==> r.value[i] == slots[i])
  {
    hide ObjectFrom, Find, Assigned, MembersBytes, Takes, GoodMember, Octets, Ready;
    var rest := MembersBytes(ms) + [0, 0, AMF_OBJECT_END];
    var whole := Octets(1, AMF_OBJECT) + MembersBytes(ms) + [0, 0, AMF_OBJECT_END];
    assert whole == Octets(1, AMF_OBJECT) + rest;
    var data := Stored(before, p, whole);
    assert Holds(data, p, Octets(1, AMF_OBJECT) + rest);
    HeldParts(data, p, Octets(1, AMF_OBJECT), rest);
    HeldParts(data, p + 1, MembersBytes(ms), [0, 0, AMF_OBJECT_END]);
    ObjectReads(data, p + 1, ms, slots);
    FilledMeans(slots, p + 1, ms);
  }

  /** After the same round trip, the entry of a boolean starts with 0 if the value written was 0, and with 1 otherwise. */
  lemma BooleanKept(before: seq<byte>, p: nat, ms: seq<Member>, slots: seq<Slot>, m: Member)
    requires ms != [] && Ready(slots, ms) && Distinct(ms) && Known(slots, ms)
    requires p + 1 + |MembersBytes(ms)| + 3 <= |before| <= INT_MAX && m in ms && m.value.Boolean?
    ensures var r := ObjectFrom(
        Stored(before, p, Octets(1, AMF_OBJECT) + MembersBytes(ms) + [0, 0, AMF_OBJECT_END]), p + 1, slots);
      var i := Find(slots, m.name);
      && r.Read? && i < |r.value| && r.value[i].storage != []
      && r.value[i].storage[0] == (if m.value.b == 0 then 0 else 1)
      && r.value[i].storage[1..] == slots[i].storage[1..]
  {
    hide ObjectFrom, MembersBytes, Octets, Find;
    assert ReadyFor(slots, m);
    ObjectRoundTrip(before, p, ms, slots);
  }

  // ----- Writing an object and reading it

  method WriteMember(b: BitCursor, m: Member)
    requires b.bitsLeft == 8 && GoodMember(m)
    modifies b`p, b`bitsLeft, b.data
    ensures Wrote(b, MemberBytes(m))
  {
    hide MemberBytes, Stored;
    match m.value
    case Number(raw) => WriteNamedDouble(b, m.name, raw);
    case Boolean(v) => WriteNamedBoolean(b, m.name, v);
    case Text(s) => WriteNamedString(b, m.name, s);
  }

  method WriteMembers(b: BitCursor, ms: seq<Member>)
    requires b.bitsLeft == 8 && forall m :: m in ms ==> GoodMember(m)
    modifies b`p, b`bitsLeft, b.data
    ensures Wrote(b, MembersBytes(ms))
    decreases |ms|
  {
    hide MemberBytes, Stored, GoodMember;
    if ms == [] {
      StoredNothing(b.data[..], b.p);
    } else {
      WriteMember(b, ms[0]);
      WriteMembers(b, ms[1..]);
      StoredTwice(old(b.data[..]), old(b.p), MemberBytes(ms[0]), MembersBytes(ms[1..]));
    }
  }

  lemma StoredNothing(data: seq<byte>, p: nat)
    ensures Stored(data, p, []) == data
  {
  }

  /** An object with its members, from its type byte to its end marker. */
  method WriteFlatObject(b: BitCursor, ms: seq<Member>)
    requires b.bitsLeft == 8 && forall m :: m in ms ==> GoodMember(m)
    modifies b`p, b`bitsLeft, b.data
    ensures Wrote(b, Octets(1, AMF_OBJECT) + MembersBytes(ms) + [0, 0, AMF_OBJECT_END])
  {
    hide MembersBytes, Stored, Octets, GoodMember;
    ghost var before, p := b.data[..], b.p;
    WriteObject(b);
    WriteMembers(b, ms);
    StoredTwice(before, p, Octets(1, AMF_OBJECT), MembersBytes(ms));
    WriteObjectEnd(b);
    StoredTwice(before, p, Octets(1, AMF_OBJECT) + MembersBytes(ms), [0, 0, AMF_OBJECT_END]);
  }

  /** The entries of the members have their values, the other entries are as they were. */
  ghost predicate FilledIn(before: seq<Slot>, after: seq<Slot>, ms: seq<Member>)
    requires |after| == |before| && Ready(before, ms) && Known(before, ms)
  {
    && (forall m :: m in ms ==> after[Find(before, m.name)] == Assigned(before[Find(before, m.name)], m.value))
    && (forall i :: 0 <= i < |before| && (forall m :: m in ms ==> i != Find(before, m.name)) ==> after[i] == before[i])
  }

  /** A non-empty object written where it fits is read by a second cursor from the byte it starts at. */
  method WriteThenRead(b: BitCursor, ms: seq<Member>, items: seq<Item>) returns (kind: byte, reader: BitCursor)
    requires b.bitsLeft == 8 && Apart(items, b)
    requires ms != [] && Ready(Slots(items), ms) && Distinct(ms)
    requires Known(Slots(items), ms)
    requires b.p + 1 + |MembersBytes(ms)| + 3 <= b.data.Length <= INT_MAX
    modifies b`p, b`bitsLeft, b.data, Storage(items)
    ensures kind == AMF_OBJECT && fresh(reader) && reader.data == b.data
    ensures Wrote(b, Octets(1, AMF_OBJECT) + MembersBytes(ms) + [0, 0, AMF_OBJECT_END])
    ensures reader.bitsLeft == 8 && reader.p + 3 == b.p
    ensures FilledIn(old(Slots(items)), Slots(items), ms)
  {
    hide MembersBytes, Octets, Stored, ObjectFrom, Find, Assigned, GoodMember, Takes, SlotOf;
    ghost var before, p, slots := b.data[..], b.p, Slots(items);
    MembersAreGood(slots, ms);
    reader := new BitCursor.Clone(b);
    WriteFlatObject(b, ms);
    TypeByte(before, p, ms);
    ObjectRoundTrip(before, p, ms, slots);
    assert Slots(items) == slots;
    kind := GetByte(reader);
    var _ := ReadObject(reader, items);
  }

  lemma MembersAreGood(slots: seq<Slot>, ms: seq<Member>)
    requires Ready(slots, ms)
    ensures forall m :: m in ms ==> GoodMember(m)
  {
    forall m | m in ms ensures GoodMember(m) {
      assert ReadyFor(slots, m);
    }
  }

  lemma TypeByte(before: seq<byte>, p: nat, ms: seq<Member>)
    requires p + 1 + |MembersBytes(ms)| + 3 <= |before|
    ensures var whole := Octets(1, AMF_OBJECT) + MembersBytes(ms) + [0, 0, AMF_OBJECT_END];
      ByteAt(Stored(before, p, whole), p) == AMF_OBJECT
  {
    OctetsOf(AMF_OBJECT);
  }
}

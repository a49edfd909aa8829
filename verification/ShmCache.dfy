/** The record cache: variable-length records in a byte ring, the oldest dropped when space is short. */
module ShmCache {
  import opened Words

  const HEADER: nat := 8

  type record = b: seq<byte> | |b| > HEADER witness [0, 0, 0, 0, 0, 0, 0, 0, 0]

  // ----- Places on the ring: position `size` and position 0 name the same place

  /** The write position after `n` bytes from position `p`. */
  function End(p: nat, n: nat, size: nat): (e: nat)
    requires p <= size && n <= size
    ensures e <= size
  {
    if n <= size - p then p + n else n - (size - p)
  }

  /** The cell of byte `i` from position `p`. */
  function Cell(p: nat, i: nat, size: nat): (c: nat)
    requires p <= size && i < size
    ensures c < size
  {
    if p + i < size then p + i else p + i - size
  }

  function Slice(memory: seq<byte>, p: nat, n: nat): (r: seq<byte>)
    requires p <= |memory| && n <= |memory|
    ensures |r| == n && forall i :: 0 <= i < n ==> r[i] == memory[Cell(p, i, |memory|)]
  {
    seq(n, i requires 0 <= i < n => memory[Cell(p, i, |memory|)])
  }

  lemma EndOfEnd(p: nat, a: nat, b: nat, size: nat)
    requires p <= size && a + b <= size
    ensures End(End(p, a, size), b, size) == End(p, a + b, size)
  {
  }

  // ----- Records

  datatype Region = Region(start: nat, end: nat, size: nat)

  function Total(regions: seq<Region>): nat {
    if regions == [] then 0 else regions[0].size + Total(regions[1..])
  }

  function ByteTotal(records: seq<record>): nat {
    if records == [] then 0 else |records[0]| + ByteTotal(records[1..])
  }

  /** The regions follow each other around the ring from `p` to `q`. */
  ghost predicate Chain(regions: seq<Region>, p: nat, q: nat, size: nat) {
    && p <= size && q <= size
    && if regions == [] then p == q else
         && regions[0].start == p
         && HEADER < regions[0].size <= size
         && regions[0].end == End(p, regions[0].size, size)
         && Chain(regions[1..], regions[0].end, q, size)
  }

  /** The records held in the regions, oldest first. */
  ghost function Held(regions: seq<Region>, memory: seq<byte>, p: nat, q: nat): (r: seq<record>)
    requires Chain(regions, p, q, |memory|)
    ensures |r| == |regions| && ByteTotal(r) == Total(regions)
  {
    if regions == [] then []
    else [Slice(memory, p, regions[0].size)] + Held(regions[1..], memory, regions[0].end, q)
  }

  /** The regions take up the ring from `p` to `q`, so the rest of it is free. */
  lemma {:induction false} ChainLength(regions: seq<Region>, p: nat, q: nat, size: nat)
    requires Chain(regions, p, q, size) && Total(regions) <= size
    ensures q == End(p, Total(regions), size)
    ensures Total(regions) == 0 <==> regions == []
  {
    if regions != [] {
      ChainLength(regions[1..], regions[0].end, q, size);
      EndOfEnd(p, regions[0].size, Total(regions[1..]), size);
    }
  }

  lemma {:induction false} ChainAppend(regions: seq<Region>, p: nat, q: nat, size: nat, r: Region)
    requires Chain(regions, p, q, size)
    requires r.start == q && HEADER < r.size <= size && r.end == End(q, r.size, size)
    ensures Chain(regions + [r], p, r.end, size) && Total(regions + [r]) == Total(regions) + r.size
  {
    if regions == [] {
      assert [r][1..] == [];
    } else {
      ChainAppend(regions[1..], regions[0].end, q, size, r);
      assert (regions + [r])[1..] == regions[1..] + [r];
    }
  }

  /** Only the `n` bytes from position `q` on differ. */
  ghost predicate WrittenAt(before: seq<byte>, after: seq<byte>, q: nat, n: nat) {
    && |before| == |after| && q <= |before| && n <= |before|
    && forall j :: n <= j < |before| ==> after[Cell(q, j, |before|)] == before[Cell(q, j, |before|)]
  }

  /** A write into the free part of the ring leaves every held record as it was. */
  lemma {:induction false} HeldUntouched(regions: seq<Region>, before: seq<byte>, after: seq<byte>, p: nat, q: nat, n: nat)
    requires Chain(regions, p, q, |before|) && Total(regions) + n <= |before|
    requires WrittenAt(before, after, q, n)
    ensures Held(regions, after, p, q) == Held(regions, before, p, q)
  {
    if regions != [] {
      var size := |before|;
      HeldUntouched(regions[1..], before, after, regions[0].end, q, n);
      ChainLength(regions, p, q, size);
      var t := Total(regions);
      forall i | 0 <= i < regions[0].size ensures after[Cell(p, i, size)] == before[Cell(p, i, size)] {
        assert Cell(p, i, size) == Cell(q, size - t + i, size);
      }
      assert Slice(after, p, regions[0].size) == Slice(before, p, regions[0].size);
    }
  }

  lemma {:induction false} HeldAppend(regions: seq<Region>, memory: seq<byte>, p: nat, q: nat, r: Region)
    requires Chain(regions, p, q, |memory|)
    requires r.start == q && HEADER < r.size <= |memory| && r.end == End(q, r.size, |memory|)
    ensures Chain(regions + [r], p, r.end, |memory|)
    ensures Held(regions + [r], memory, p, r.end) == Held(regions, memory, p, q) + [Slice(memory, q, r.size)]
  {
    ChainAppend(regions, p, q, |memory|, r);
    if regions == [] {
      assert [r][1..] == [];
    } else {
      HeldAppend(regions[1..], memory, regions[0].end, q, r);
      assert (regions + [r])[1..] == regions[1..] + [r];
    }
  }

  // ----- Dropping the oldest

  /** How many of the oldest records a put of `n` bytes drops: the fewest that make it fit. */
  function Dropped(records: seq<record>, n: nat, size: nat): (k: nat)
    requires n <= size
    ensures k <= |records| && ByteTotal(records[k..]) + n <= size
    ensures forall j :: 0 <= j < k ==> ByteTotal(records[j..]) + n > size
  {
    if ByteTotal(records) + n <= size then
      assert records[0..] == records;
      0
    else
      var k := Dropped(records[1..], n, size);
      assert records[1..][k..] == records[k + 1..];
      assert forall j :: 0 < j < k + 1 ==> records[j..] == records[1..][j - 1..];
      k + 1
  }

  lemma DroppedFirst(records: seq<record>, n: nat, size: nat)
    requires n <= size && ByteTotal(records) + n > size
    ensures Dropped(records, n, size) == Dropped(records[1..], n, size) + 1
    ensures records[Dropped(records, n, size)..] == records[1..][Dropped(records[1..], n, size)..]
  {
  }

  /** The records after a put. */
  function AfterPut(records: seq<record>, data: record, size: nat): seq<record> {
    if |data| > size then [] else records[Dropped(records, |data|, size)..] + [data]
  }

  lemma PutFits(records: seq<record>, data: record, size: nat)
    requires ByteTotal(records) + |data| <= size
    ensures AfterPut(records, data, size) == records + [data]
  {
    assert records[0..] == records;
  }

  lemma PutDropsOne(records: seq<record>, data: record, size: nat)
    requires records != [] && ByteTotal(records) + |data| > size
    ensures AfterPut(records, data, size) == AfterPut(records[1..], data, size)
  {
    if |data| <= size {
      DroppedFirst(records, |data|, size);
    }
  }

  class Cache {
    var memory: array<byte>
    var size: nat
    var readIndex: nat
    var writeIndex: nat
    var regions: seq<Region>

    ghost predicate Valid()
      reads this
    {
      && memory.Length == size <= INT_MAX
      && Chain(regions, readIndex, writeIndex, size)
      && Total(regions) <= size
    }

    /** The stored records, oldest first. */
    ghost function Contents(): (r: seq<record>)
      requires Valid()
      reads this, memory
      ensures |r| == |regions| && ByteTotal(r) == Total(regions) <= size
    {
      Held(regions, memory[..], readIndex, writeIndex)
    }

    constructor (size: nat)
      requires size <= INT_MAX
      ensures Valid() && fresh(memory) && this.size == size && Contents() == []
    {
      memory := new byte[size](_ => 0);
      this.size := size;
      readIndex := 0;
      writeIndex := 0;
      regions := [];
    }

    /** The room left for one more record. */
    method GetDistance() returns (room: nat)
      requires Valid()
      ensures room == size - ByteTotal(Contents())
    {
      ChainLength(regions, readIndex, writeIndex, size);
      if regions == [] {
        return size;
      }
      if readIndex > writeIndex {
        return readIndex - writeIndex;
      } else if readIndex < writeIndex {
        return size - writeIndex + readIndex;
      }
      return 0;
    }

    /** Drops the oldest records as needed and stores `data` behind the rest. */
    method PutRecord(data: record) returns (ok: bool)
      requires Valid() && |data| <= INT_MAX
      modifies this, memory
      ensures Valid() && memory == old(memory) && size == old(size)
      ensures ok == (|data| <= size)
      ensures Contents() == AfterPut(old(Contents()), data, size)
      ensures regions == [] ==> readIndex == writeIndex
      decreases |regions|
    {
      hide Held, Dropped, AfterPut;
      var room := GetDistance();
      if room >= |data| {
        PutFits(Contents(), data, size);
        Store(data);
        return true;
      }
      if regions == [] {
        NothingFits(data, size);
        return false;
      }
      PutDropsOne(Contents(), data, size);
      Drop();
      ok := PutRecord(data);
    }

    /** Puts a type and a payload, `n` bytes of `data`, behind a header. */
    method Put(data: seq<byte>, n: int, kind: int) returns (ok: bool)
      requires Valid() && n <= |data| && n <= INT_MAX - HEADER
      modifies this, memory
      ensures Valid() && memory == old(memory) && size == old(size)
      ensures ok == (0 < n <= size - HEADER)
      ensures n <= 0 ==> Contents() == old(Contents())
      ensures n > 0 ==> Contents() == AfterPut(old(Contents()), Encode(kind, data[..n]), size)
    {
      if n <= 0 {
        return false;
      }
      ok := PutRecord(Encode(kind, data[..n]));
    }

    /** Takes the oldest record off the list. */
    method Drop()
      requires Valid() && regions != []
      modifies this`readIndex, this`regions
      ensures Valid() && Contents() == old(Contents())[1..]
      ensures regions == old(regions)[1..]
    {
      readIndex := regions[0].end;
      regions := regions[1..];
    }

    /** Copies `data` to the write position and enlists its region. */
    method Store(data: record)
      requires Valid() && ByteTotal(Contents()) + |data| <= size
      modifies this`writeIndex, this`regions, memory
      ensures Valid() && Contents() == old(Contents()) + [data]
    {
      hide Held, Chain, End, Slice;
      ghost var before := memory[..];
      var start := writeIndex;
      ChainLength(regions, readIndex, start, size);
      var end := Copy(data);
      var region := Region(start, end, |data|);
      HeldUntouched(regions, before, memory[..], readIndex, start, |data|);
      HeldAppend(regions, memory[..], readIndex, start, region);
      ChainAppend(regions, readIndex, start, size, region);
      writeIndex := end;
      regions := regions + [region];
    }

    /** The two `memcpy` calls of a put: up to the end of the memory, then from its start. */
    method Copy(data: record) returns (end: nat)
      requires writeIndex <= size == memory.Length && |data| <= size
      modifies memory
      ensures end == End(writeIndex, |data|, size)
      ensures WrittenAt(old(memory[..]), memory[..], writeIndex, |data|)
      ensures Slice(memory[..], writeIndex, |data|) == data
    {
      var writeLen := if |data| < size - writeIndex then |data| else size - writeIndex;
      var leftOver := |data| - writeLen;
      forall i | 0 <= i < writeLen {
        memory[writeIndex + i] := data[i];
      }
      forall i | 0 <= i < leftOver {
        memory[i] := data[writeLen + i];
      }
      end := if leftOver > 0 then leftOver else writeIndex + |data|;
      assert Slice(memory[..], writeIndex, |data|) == data;
    }

    /** Hands out the oldest record. */
    method GetRecord() returns (r: array?<byte>)
      requires Valid()
      requires regions != [] ==> Readable(regions[0], size)
      modifies this`readIndex, this`regions
      ensures Valid()
      ensures old(Contents()) == [] ==> r == null && Contents() == []
      ensures old(Contents()) != [] ==> r != null && fresh(r) && r[..] == old(Contents())[0]
      ensures old(Contents()) != [] ==> Contents() == old(Contents())[1..]
      ensures regions == [] ==> readIndex == writeIndex
    {
      if regions == [] {
        return null;
      }
      var b := CopyOut(regions[0]);
      Drop();
      return b;
    }

    /** The copies of a get, in two parts when the record wraps around the ring. */
    method CopyOut(region: Region) returns (b: array<byte>)
      requires memory.Length == size && region.start <= size && HEADER < region.size <= size
      requires region.end == End(region.start, region.size, size) && Readable(region, size)
      ensures fresh(b) && b[..] == Slice(memory[..], region.start, region.size)
    {
      b := new byte[region.size](_ => 0);
      if region.start > region.end {
        var first := size - region.start;
        forall i | 0 <= i < first {
          b[i] := memory[region.start + i];
        }
        forall i | 0 <= i < region.end {
          b[first + i] := memory[i];
        }
      } else {
        forall i | 0 <= i < region.size {
          b[i] := memory[region.start + i];
        }
      }
    }
  }

  lemma NothingFits(data: record, size: nat)
    requires |data| > size
    ensures AfterPut([], data, size) == []
  {
  }

  // ----- Reading a record back

  /** A record that fills the whole cache can be read back only from offset 0. */
  predicate Readable(r: Region, size: nat) {
    r.size < size || r.start == 0
  }

  /** Whether the copies of a get stay inside the memory. */
  predicate Inside(memory: seq<byte>, r: Region) {
    if r.start > r.end then r.start <= |memory| else r.start + r.size <= |memory|
  }

  /** What a get copies out of a region. */
  function ReadBack(memory: seq<byte>, r: Region): seq<byte>
    requires Inside(memory, r)
  {
    if r.start > r.end then memory[r.start..] + memory[..r.end] else memory[r.start..r.start + r.size]
  }

  /**
   * A get copies the bytes that were put exactly when the record is smaller than the cache or was stored at
   * offset 0: anywhere else a full-size record ends where it starts.
   */
  lemma ReadBackExactly(memory: seq<byte>, r: Region)
    requires r.start <= |memory| && HEADER < r.size <= |memory| && r.end == End(r.start, r.size, |memory|)
    ensures Inside(memory, r) && ReadBack(memory, r) == Slice(memory, r.start, r.size) <==> Readable(r, |memory|)
  {
    var slice := Slice(memory, r.start, r.size);
    if r.start > r.end {
      assert memory[r.start..] + memory[..r.end] == slice;
    } else if r.start + r.size <= |memory| {
      assert memory[r.start..r.start + r.size] == slice;
    }
  }

  /** In a cache of 20 bytes with both indices at 10, a record of 20 bytes ends at 10 and a get reads up to byte 30. */
  lemma FullRecordIsMisread(memory: seq<byte>)
    requires |memory| == 20
    ensures var r := Region(10, End(10, 20, 20), 20);
      && Chain([r], 10, r.end, 20) && Total([r]) <= 20
      && r.end == 10 && !Inside(memory, r) && !Readable(r, 20)
  {
    var r := Region(10, 10, 20);
    assert [r][1..] == [];
  }

  // ----- The header in front of a payload

  /** The four bytes of an `int`, low byte first. */
  function IntBytes(v: int): (b: seq<byte>)
    ensures |b| == 4
  {
    var u := v % TWO_TO_THE_32;
    [u % 256, u / 256 % 256, u / 256 / 256 % 256, u / 256 / 256 / 256]
  }

  function IntOf(b: seq<byte>): int
    requires |b| == 4
  {
    var low: int, second: int, third: int, high: int := b[0], b[1], b[2], b[3];
    var u := low + 256 * (second + 256 * (third + 256 * high));
    if u > INT_MAX then u - TWO_TO_THE_32 else u
  }

  /** A `cache_buffer`: type, payload size and payload. */
  function Encode(kind: int, payload: seq<byte>): (r: record)
    requires payload != []
    ensures |r| == HEADER + |payload|
  {
    IntBytes(kind) + IntBytes(|payload|) + payload
  }

  lemma IntRoundTrip(v: int)
    requires -INT_MAX - 1 <= v <= INT_MAX
    ensures IntOf(IntBytes(v)) == v
  {
    var u := v % TWO_TO_THE_32;
    LowByte(u);
    LowByte(u / 256);
    LowByte(u / 256 / 256);
    Wrapped(v);
  }

  lemma LowByte(u: nat)
    ensures u % 256 + 256 * (u / 256) == u
  {
  }

  lemma Wrapped(v: int)
    requires -INT_MAX - 1 <= v <= INT_MAX
    ensures v % TWO_TO_THE_32 == if v < 0 then v + TWO_TO_THE_32 else v
  {
  }

  /** Type, size and payload can be read back from a stored record. */
  lemma HeaderRoundTrip(kind: int, payload: seq<byte>)
    requires -INT_MAX - 1 <= kind <= INT_MAX && 0 < |payload| <= INT_MAX
    ensures var r := Encode(kind, payload);
      && IntOf(r[..4]) == kind && IntOf(r[4..8]) == |payload|
      && r[HEADER..] == payload
  {
    hide IntBytes, IntOf;
    IntRoundTrip(kind);
    IntRoundTrip(|payload|);
    var r := Encode(kind, payload);
    assert r[..4] == IntBytes(kind) && r[4..8] == IntBytes(|payload|);
  }

  // ----- Whole runs

  datatype Call = Put(data: record) | Get

  /**
   * A run so far: the records accepted, those still stored, which accepted record each get handed out, and the
   * number of accepted records that a get or a failed put has put out of reach.
   */
  datatype History = History(puts: seq<record>, queue: seq<record>, got: seq<nat>, floor: nat)

  function Do(h: History, call: Call, size: nat): History
    requires |h.queue| <= |h.puts|
  {
    match call
    case Put(data) =>
      if |data| > size then h.(queue := [], floor := |h.puts|)
      else h.(puts := h.puts + [data], queue := AfterPut(h.queue, data, size))
    case Get =>
      var oldest := |h.puts| - |h.queue|;
      if h.queue == [] then h
      else h.(queue := h.queue[1..], got := h.got + [oldest], floor := oldest + 1)
  }

  /**
   * The store is the longest run of the latest records that fits, short of those out of reach; and gets hand out
   * accepted records in put order, each at most once.
   */
  ghost predicate Orderly(h: History, size: nat) {
    && |h.queue| <= |h.puts| && h.queue == h.puts[|h.puts| - |h.queue|..]
    && ByteTotal(h.queue) <= size
    && h.floor <= |h.puts| - |h.queue|
    && (forall j :: h.floor <= j < |h.puts| - |h.queue| ==> ByteTotal(h.puts[j..]) > size)
    && (forall i :: 0 <= i < |h.got| ==> h.got[i] < h.floor)
    && (forall i, j :: 0 <= i < j < |h.got| ==> h.got[i] < h.got[j])
  }

  lemma {:induction false} TotalAppend(records: seq<record>, data: record)
    ensures ByteTotal(records + [data]) == ByteTotal(records) + |data|
  {
    if records == [] {
      assert [data][1..] == [];
    } else {
      TotalAppend(records[1..], data);
      assert (records + [data])[1..] == records[1..] + [data];
    }
  }

  lemma PutKeepsOrder(h: History, data: record, size: nat)
    requires Orderly(h, size) && |data| <= size
    ensures Orderly(Do(h, Put(data), size), size)
  {
    hide ByteTotal;
    var k, n := Dropped(h.queue, |data|, size), |h.puts| - |h.queue|;
    var puts := h.puts + [data];
    assert h.queue[k..] == h.puts[n + k..];
    assert puts[n + k..] == h.queue[k..] + [data];
    TotalAppend(h.queue[k..], data);
    forall j | h.floor <= j < n + k ensures ByteTotal(puts[j..]) > size {
      TotalAppend(h.puts[j..], data);
      assert puts[j..] == h.puts[j..] + [data];
      if j >= n {
        assert h.puts[j..] == h.queue[j - n..];
      }
    }
  }

  lemma GetKeepsOrder(h: History, size: nat)
    requires Orderly(h, size)
    ensures Orderly(Do(h, Get, size), size)
  {
  }

  lemma PutAfter(h: History, data: record, size: nat)
    requires Orderly(h, size)
    ensures Orderly(Do(h, Put(data), size), size) && Do(h, Put(data), size).queue == AfterPut(h.queue, data, size)
  {
    hide ByteTotal;
    if |data| <= size {
      PutKeepsOrder(h, data, size);
    } else {
      TotalOfNone();
    }
  }

  lemma TotalOfNone()
    ensures ByteTotal([]) == 0
  {
  }

  ghost predicate Runs(hs: seq<History>, calls: seq<Call>, size: nat) {
    && |hs| == |calls| + 1 && hs[0] == History([], [], [], 0)
    && forall i :: 0 <= i < |calls| ==> |hs[i].queue| <= |hs[i].puts| && hs[i + 1] == Do(hs[i], calls[i], size)
  }

  /** Over every run of puts and gets. */
  lemma {:induction false} RunIsOrderly(hs: seq<History>, calls: seq<Call>, size: nat, i: nat)
    requires Runs(hs, calls, size) && i < |hs|
    ensures Orderly(hs[i], size)
    ensures hs[i].queue != [] ==> hs[i].queue[0] == hs[i].puts[|hs[i].puts| - |hs[i].queue|]
  {
    hide Orderly, Do;
    if i == 0 {
      NothingIsOrderly(size);
    } else {
      RunIsOrderly(hs, calls, size, i - 1);
      match calls[i - 1]
      case Put(data) => PutAfter(hs[i - 1], data, size);
      case Get => GetKeepsOrder(hs[i - 1], size);
    }
    OldestStored(hs[i], size);
  }

  lemma NothingIsOrderly(size: nat)
    ensures Orderly(History([], [], [], 0), size)
  {
  }

  lemma OldestStored(h: History, size: nat)
    requires Orderly(h, size)
    ensures |h.queue| <= |h.puts| && (h.queue != [] ==> h.queue[0] == h.puts[|h.puts| - |h.queue|])
  {
  }

  lemma RunExtends(hs: seq<History>, calls: seq<Call>, size: nat, k: nat)
    requires k < |calls| && Runs(hs, calls[..k], size) && |hs[k].queue| <= |hs[k].puts|
    ensures Runs(hs + [Do(hs[k], calls[k], size)], calls[..k + 1], size)
  {
    hide Do;
    var after := hs + [Do(hs[k], calls[k], size)];
    forall i | 0 <= i < k + 1 ensures after[i + 1] == Do(after[i], calls[..k + 1][i], size) {
      if i < k {
        assert calls[..k][i] == calls[i];
        assert hs[i + 1] == Do(hs[i], calls[..k][i], size);
      }
    }
  }

  /** The records accepted are smaller than the cache, and each output is the accepted record its get chose. */
  ghost predicate HandedOut(h: History, outputs: seq<seq<byte>>, size: nat) {
    && (forall r :: r in h.puts ==> |r| < size)
    && |outputs| == |h.got|
    && forall i :: 0 <= i < |outputs| ==> h.got[i] < |h.puts| && outputs[i] == h.puts[h.got[i]]
  }

  lemma OldestIsReadable(h: History, outputs: seq<seq<byte>>, size: nat)
    requires Orderly(h, size) && HandedOut(h, outputs, size) && h.queue != []
    ensures |h.queue[0]| < size
  {
    hide ByteTotal;
    assert h.queue[0] in h.puts;
  }

  lemma PutHandsOut(h: History, data: record, outputs: seq<seq<byte>>, size: nat)
    requires Orderly(h, size) && HandedOut(h, outputs, size) && |data| != size
    ensures HandedOut(Do(h, Put(data), size), outputs, size)
  {
    hide ByteTotal, AfterPut;
  }

  lemma GetHandsOut(h: History, outputs: seq<seq<byte>>, size: nat)
    requires Orderly(h, size) && HandedOut(h, outputs, size)
    ensures HandedOut(Do(h, Get, size), if h.queue == [] then outputs else outputs + [h.queue[0]], size)
  {
    hide ByteTotal;
  }

  lemma FirstHeld(regions: seq<Region>, memory: seq<byte>, p: nat, q: nat)
    requires Chain(regions, p, q, |memory|) && regions != []
    ensures |Held(regions, memory, p, q)[0]| == regions[0].size
  {
  }

  /**
   * Puts and gets on a cache in any order, with no record of exactly the cache's size: the outputs are the accepted
   * records the history says, byte for byte, and the cache holds what the history holds.
   */
  method Perform(cache: Cache, calls: seq<Call>) returns (outputs: seq<seq<byte>>, ghost hs: seq<History>)
    requires cache.Valid() && cache.Contents() == []
    requires forall c :: c in calls && c.Put? ==> |c.data| != cache.size && |c.data| <= INT_MAX
    modifies cache, cache.memory
    ensures cache.Valid() && cache.memory == old(cache.memory) && cache.size == old(cache.size)
    ensures Runs(hs, calls, cache.size) && Orderly(hs[|calls|], cache.size)
    ensures cache.Contents() == hs[|calls|].queue && HandedOut(hs[|calls|], outputs, cache.size)
  {
    hide Do, Orderly, HandedOut, AfterPut, Runs;
    outputs, hs := [], [History([], [], [], 0)];
    var k := 0;
    RunStarts(calls, cache.size);
    while k < |calls|
      invariant k <= |calls| && |hs| == k + 1 && cache.Valid()
      invariant cache.memory == old(cache.memory) && cache.size == old(cache.size)
      invariant Runs(hs, calls[..k], cache.size) && Orderly(hs[k], cache.size)
      invariant cache.Contents() == hs[k].queue && HandedOut(hs[k], outputs, cache.size)
    {
      OldestStored(hs[k], cache.size);
      var output := PerformOne(cache, calls[k], hs[k], outputs);
      RunExtends(hs, calls, cache.size, k);
      hs := hs + [Do(hs[k], calls[k], cache.size)];
      outputs := outputs + output;
      k := k + 1;
    }
    assert calls[..k] == calls;
  }

  lemma RunStarts(calls: seq<Call>, size: nat)
    ensures var h := History([], [], [], 0);
      Runs([h], calls[..0], size) && Orderly(h, size) && HandedOut(h, [], size)
  {
  }

  /** One call; a get that finds a record outputs it. */
  method PerformOne(cache: Cache, call: Call, ghost h: History, ghost outputs: seq<seq<byte>>)
    returns (output: seq<seq<byte>>)
    requires cache.Valid() && Orderly(h, cache.size) && HandedOut(h, outputs, cache.size)
    requires cache.Contents() == h.queue && |h.queue| <= |h.puts|
    requires call.Put? ==> |call.data| != cache.size && |call.data| <= INT_MAX
    modifies cache, cache.memory
    ensures cache.Valid() && cache.memory == old(cache.memory) && cache.size == old(cache.size)
    ensures var after := Do(h, call, cache.size);
      && cache.Contents() == after.queue && Orderly(after, cache.size)
      && HandedOut(after, outputs + output, cache.size)
  {
    hide Orderly, HandedOut, AfterPut, Held;
    output := [];
    assert outputs + output == outputs;
    match call
    case Put(data) =>
      PutAfter(h, data, cache.size);
      PutHandsOut(h, data, outputs, cache.size);
      var _ := cache.PutRecord(data);
    case Get =>
      if h.queue != [] {
        OldestIsReadable(h, outputs, cache.size);
        FirstHeld(cache.regions, cache.memory[..], cache.readIndex, cache.writeIndex);
      }
      GetKeepsOrder(h, cache.size);
      GetHandsOut(h, outputs, cache.size);
      var r := cache.GetRecord();
      if r != null {
        output := [r[..]];
      }
  }
}

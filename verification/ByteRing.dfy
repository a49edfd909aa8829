/** The byte ring: two free-running 32-bit counters masked by a power-of-two size. */
module ByteRing {
  import opened Words

  // ----- Powers of two

  predicate IsPowerOf2(x: nat) {
    x != 0 && And(x, x - 1) == 0
  }

  lemma {:induction false} AndSelf(x: nat)
    ensures And(x, x) == x
  {
    if x > 0 {
      AndSelf(x / 2);
    }
  }

  /** The bit test accepts every power of two. */
  lemma {:induction false} PowerPasses(k: nat)
    ensures IsPowerOf2(Pow2(k))
  {
    if k > 0 {
      PowerPasses(k - 1);
      AndStep(Pow2(k), Pow2(k) - 1);
    }
  }

  /** The bit test accepts nothing else. */
  lemma {:induction false} PowerMeans(x: nat) returns (k: nat)
    requires IsPowerOf2(x)
    ensures x == Pow2(k)
  {
    AndStep(x, x - 1);
    if x % 2 == 1 {
      AndSelf(x / 2);
      k := 0;
    } else {
      var i := PowerMeans(x / 2);
      k := i + 1;
    }
  }

  /** Shifts `x` down to zero, counting. */
  method BitLength(x: uint32) returns (i: nat)
    requires x > 0
    ensures i > 0 && Pow2(i - 1) <= x < Pow2(i)
  {
    hide Shr, Pow2;
    var rest := x;
    i := 0;
    ShrStart(x);
    while rest != 0
      invariant rest == Shr(x, i)
      invariant i > 0 ==> Pow2(i - 1) <= x
      decreases rest
    {
      ShrBounds(x, i);
      ShrNext(x, i);
      rest := rest / 2;
      i := i + 1;
    }
    ShrBounds(x, i);
  }

  /**
   * The size rounding of `createCircularBuffer`: up to the next power of two, except that 0 becomes 4.
   * Beyond 2^31 the source would shift by the word width.
   */
  method RoundSize(size: uint32) returns (rounded: uint32)
    requires size <= 0x8000_0000
    ensures IsPowerOf2(rounded)
    ensures IsPowerOf2(size) ==> rounded == size
    ensures size == 0 ==> rounded == 4
    ensures size > 0 && !IsPowerOf2(size) ==> rounded / 2 < size < rounded
  {
    hide IsPowerOf2, Shl;
    ZeroIsNoPower();
    rounded := size;
    if !IsPowerOf2(size) {
      if rounded < 2 {
        rounded := 2;
      }
      var i := BitLength(rounded);
      RoundedUp(size, rounded, i);
      rounded := Shl(1, i);
    }
  }

  lemma ZeroIsNoPower()
    ensures !IsPowerOf2(0)
  {
  }

  lemma RoundedUp(size: uint32, target: nat, i: nat)
    requires size <= 0x8000_0000 && !IsPowerOf2(size) && target == (if size < 2 then 2 else size)
    requires i > 0 && Pow2(i - 1) <= target < Pow2(i)
    ensures Shl(1, i) == Pow2(i) < TWO_TO_THE_32 && IsPowerOf2(Pow2(i))
    ensures if size == 0 then Pow2(i) == 4 else Pow2(i) / 2 < size < Pow2(i)
  {
    hide IsPowerOf2;
    ShlOne(i);
    PowerPasses(i);
    PowerPasses(i - 1);
    PowerPasses(0);
    PowerPasses(31);
    Pow2Values();
    PowMonotone(31, i - 1);
    assert Pow2(i) == 2 * Pow2(i - 1);
    assert size != 1 && size != Pow2(i - 1) && size != Pow2(31);
    PowMonotone(31, i);
  }

  // ----- Masked counters

  /** The cell `i` places after cell `h`, around the ring. */
  function Around(h: nat, i: nat, size: nat): (c: nat)
    requires h < size && i <= size
    ensures c < size
  {
    if h + i < size then h + i else h + i - size
  }

  lemma {:induction false} PowDivides(k: nat, n: nat)
    requires k <= n
    ensures Pow2(n) == Pow2(n - k) * Pow2(k)
    decreases n - k
  {
    if k < n {
      PowDivides(k, n - 1);
      assert Pow2(n - k) == 2 * Pow2(n - 1 - k);
    }
  }

  /** A counter that wrapped at 2^32 still masks to the same cell, because the size divides 2^32. */
  lemma WrappedMask(x: nat, k: nat)
    requires k <= 32
    ensures And(x % TWO_TO_THE_32, Pow2(k) - 1) == x % Pow2(k)
  {
    Pow2Values();
    var m, c, q := Pow2(k), Pow2(32 - k), x / TWO_TO_THE_32;
    PowDivides(k, 32);
    MaskIsMod(x % TWO_TO_THE_32, k);
    DivMod(x, TWO_TO_THE_32);
    ModPlusMultiple(x % TWO_TO_THE_32, q * c, m);
    assert q * TWO_TO_THE_32 == q * c * m by { Rearrange(q, c, m); }
  }

  lemma Rearrange(q: nat, c: nat, m: nat)
    ensures q * (c * m) == q * c * m
  {
  }

  lemma ModPlusMultiple(r: nat, q: nat, m: nat)
    requires m > 0
    ensures (r + q * m) % m == r % m
  {
    DivMod(r, m);
    assert (r / m + q) * m == (r / m) * m + q * m;
    Quotient(r + q * m, m, r / m + q);
  }

  /** The masked counter is a cell, and masking with `size - 1` is the remainder modulo the size. */
  lemma MaskedCell(x: uint32, k: nat)
    ensures And(x, Pow2(k) - 1) == x % Pow2(k) < Pow2(k)
  {
    MaskIsMod(x, k);
  }

  /** Stepping a counter `i` places, overflow included, steps its cell around the ring. */
  lemma CounterStep(x: uint32, i: nat, k: nat)
    requires k <= 32 && i <= Pow2(k)
    ensures And(x, Pow2(k) - 1) < Pow2(k)
    ensures And((x + i) % TWO_TO_THE_32, Pow2(k) - 1) == Around(And(x, Pow2(k) - 1), i, Pow2(k))
  {
    hide And, Pow2;
    MaskedCell(x, k);
    WrappedMask(x + i, k);
    AroundIsMod(x, i, Pow2(k));
  }

  lemma AroundIsMod(x: nat, i: nat, m: nat)
    requires m > 0 && i <= m
    ensures (x + i) % m == Around(x % m, i, m)
  {
    DivMod(x, m);
    RemainderStep(x, x / m, x % m, i, m);
  }

  lemma RemainderStep(x: nat, q: nat, r: nat, i: nat, m: nat)
    requires r < m && x == q * m + r && i <= m
    ensures (x + i) % m == Around(r, i, m)
  {
    if r + i < m {
      Quotient(x + i, m, q);
    } else {
      NextMultiple(q, m);
      Quotient(x + i, m, q + 1);
    }
  }

  function Min(a: nat, b: nat): nat {
    if a < b then a else b
  }

  /** `a - b` in 32-bit arithmetic. */
  function Difference(a: int, b: int): uint32 {
    (a - b) % TWO_TO_THE_32
  }

  /** The `n` bytes from cell `h` on, around the ring. */
  ghost function Stored(cells: seq<byte>, h: nat, n: nat): (r: seq<byte>)
    requires h < |cells| && n <= |cells|
    ensures |r| == n && forall i :: 0 <= i < n ==> r[i] == cells[Around(h, i, |cells|)]
  {
    seq(n, i requires 0 <= i < n => cells[Around(h, i, |cells|)])
  }

  class CircularBuffer {
    var buffer: array<byte>
    var size: uint32
    var input: uint32
    var output: uint32
    ghost var log: nat

    ghost predicate Valid()
      reads this
    {
      && log <= 31 && size == Pow2(log) == buffer.Length
      && Length() <= size
    }

    /** How many bytes are stored. */
    ghost function Length(): uint32
      reads this
    {
      Difference(input, output)
    }

    /** The stored bytes, oldest first. */
    ghost function Contents(): (r: seq<byte>)
      requires Valid()
      reads this, buffer
      ensures |r| == Length()
    {
      MaskedCell(output, log);
      Stored(buffer[..], And(output, size - 1), Length())
    }

    /** The state the source sets up, for a requested size. */
    constructor (requested: uint32)
      requires requested <= 0x8000_0000
      ensures Valid() && fresh(buffer) && Contents() == []
      ensures requested > 0 ==> requested <= size && size / 2 < requested
      ensures requested == 0 ==> size == 4
    {
      var rounded := RoundSize(requested);
      PowerBelow(rounded);
      ghost var k := PowerMeans(rounded);
      PowMonotone(31, k);
      Pow2Values();
      size := rounded;
      buffer := new byte[rounded];
      input := 0;
      output := 0;
      log := k;
      new;
    }

    method GetCircularBufferSize() returns (n: uint32)
      requires Valid()
      ensures n == |Contents()|
    {
      n := Difference(input, output);
    }

    /** Appends the longest prefix of `data` that fits. */
    method Write(data: seq<byte>) returns (written: uint32)
      requires Valid() && |data| < TWO_TO_THE_32
      modifies this`input, buffer
      ensures Valid() && written == Min(|data|, size - |old(Contents())|)
      ensures Contents() == old(Contents()) + data[..written]
    {
      hide And, Pow2, Difference, Stored;
      ghost var cells, h, len := buffer[..], And(output, size - 1), Length();
      CounterStep(output, len, log);
      Distance(output, input);
      SpaceLeft(input, output, size);
      written := Min(|data|, Difference(Difference(size, input) + output, 0));
      Stretched(input, output, written);
      CopyIn(And(input, size - 1), data[..written]);
      input := (input + written) % TWO_TO_THE_32;
      AppendStored(cells, buffer[..], h, len, data[..written]);
    }

    /** The two `memcpy` calls of a write: up to the end of the ring, then from its start. */
    method CopyIn(at: nat, data: seq<byte>)
      requires at < buffer.Length == size && |data| <= size
      modifies buffer
      ensures forall i :: 0 <= i < |data| ==> buffer[Around(at, i, size)] == data[i]
      ensures forall i :: |data| <= i < size ==> buffer[Around(at, i, size)] == old(buffer[Around(at, i, size)])
    {
      var first := Min(|data|, size - at);
      forall i | 0 <= i < first {
        buffer[at + i] := data[i];
      }
      forall i | 0 <= i < |data| - first {
        buffer[i] := data[first + i];
      }
    }

    /** Moves the oldest bytes, at most `n`, to `dest`. */
    method Read(dest: array<byte>, n: uint32) returns (count: uint32)
      requires Valid() && n <= dest.Length && dest != buffer
      modifies this`input, this`output, dest
      ensures Valid() && count == Min(n, |old(Contents())|)
      ensures dest[..count] == old(Contents())[..count]
      ensures dest[count..] == old(dest[count..])
      ensures Contents() == old(Contents())[count..]
    {
      hide And, Pow2, Difference, Stored;
      MaskedCell(output, log);
      count := Min(n, Difference(input, output));
      CopyOut(dest, And(output, size - 1), count);
      TakeStored(buffer[..], And(output, size - 1), Length(), count);
      Advance(count);
    }

    /** Moves the read counter; an empty ring starts over at 0. */
    method Advance(count: nat)
      requires Valid() && count <= Length()
      modifies this`input, this`output
      ensures Valid() && Contents() == old(Contents())[count..]
    {
      hide And, Pow2, Difference, Stored;
      ghost var h, len := And(output, size - 1), Length();
      MaskedCell(output, log);
      CounterStep(output, count, log);
      TakeStored(buffer[..], h, len, count);
      Shortened(input, output, count);
      output := (output + count) % TWO_TO_THE_32;
      if input == output {
        input, output := 0, 0;
        Emptied();
        MaskedCell(0, log);
      }
    }

    /** The two `memcpy` calls of a read. */
    method CopyOut(dest: array<byte>, at: nat, n: nat)
      requires at < buffer.Length == size && n <= size && n <= dest.Length && dest != buffer
      modifies dest
      ensures dest[..n] == Stored(buffer[..], at, n) && dest[n..] == old(dest[n..])
    {
      var first := Min(n, size - at);
      forall i | 0 <= i < first {
        dest[i] := buffer[at + i];
      }
      forall i | 0 <= i < n - first {
        dest[first + i] := buffer[i];
      }
    }
  }

  /** Writing behind the stored bytes appends. */
  lemma AppendStored(cells: seq<byte>, after: seq<byte>, h: nat, n: nat, data: seq<byte>)
    requires |cells| == |after| && h < |cells| && n + |data| <= |cells|
    requires var p := Around(h, n, |cells|);
      && (forall i :: 0 <= i < |data| ==> after[Around(p, i, |cells|)] == data[i])
      && (forall i :: |data| <= i < |cells| ==> after[Around(p, i, |cells|)] == cells[Around(p, i, |cells|)])
    ensures Stored(after, h, n + |data|) == Stored(cells, h, n) + data
  {
    var p, size := Around(h, n, |cells|), |cells|;
    forall i | 0 <= i < n + |data| ensures Stored(after, h, n + |data|)[i] == (Stored(cells, h, n) + data)[i] {
      if i < n {
        assert Around(h, i, size) == Around(p, size - n + i, size);
      } else {
        assert Around(h, i, size) == Around(p, i - n, size);
      }
    }
  }

  /** Moving the start past `count` bytes splits them off. */
  lemma TakeStored(cells: seq<byte>, h: nat, n: nat, count: nat)
    requires h < |cells| && count <= n <= |cells|
    ensures Stored(cells, h, count) == Stored(cells, h, n)[..count]
    ensures Stored(cells, Around(h, count, |cells|), n - count) == Stored(cells, h, n)[count..]
  {
  }

  // ----- 32-bit differences

  lemma Distance(output: uint32, input: uint32)
    ensures (output + Difference(input, output)) % TWO_TO_THE_32 == input
  {
  }

  /** `size - in + out` is the free space. */
  lemma SpaceLeft(input: uint32, output: uint32, size: uint32)
    requires Difference(input, output) <= size
    ensures Difference(Difference(size, input) + output, 0) == size - Difference(input, output)
  {
  }

  lemma Stretched(input: uint32, output: uint32, n: nat)
    requires Difference(input, output) + n < TWO_TO_THE_32
    ensures Difference((input + n) % TWO_TO_THE_32, output) == Difference(input, output) + n
  {
  }

  lemma Shortened(input: uint32, output: uint32, n: nat)
    requires n <= Difference(input, output)
    ensures Difference(input, (output + n) % TWO_TO_THE_32) == Difference(input, output) - n
    ensures n == Difference(input, output) <==> input == (output + n) % TWO_TO_THE_32
  {
  }

  lemma Emptied()
    ensures Difference(0, 0) == 0
  {
  }

  lemma PowerBelow(x: uint32)
    ensures IsPowerOf2(x) ==> x <= 0x8000_0000
  {
    if IsPowerOf2(x) {
      var k := PowerMeans(x);
      Pow2Values();
      PowMonotone(31, k);
      PowMonotone(k, 31);
      if k > 31 {
        PowMonotone(32, k);
      }
    }
  }
}

/** Bits of a byte string, and the fixed-length and Exp-Golomb codes written over them. */
module BitCodes {
  import opened Words

  type bit = n: nat | n < 2

  /** Bit `j` of a word, counted from the low end. */
  function TestBit(x: nat, j: nat): bit {
    Shr(x, j) % 2
  }

  /** The bits of a byte string, the high bit of each byte first. */
  function BitsOf(data: seq<byte>): (b: seq<bit>)
    ensures |b| == 8 * |data|
  {
    seq(8 * |data|, k requires 0 <= k < 8 * |data| => TestBit(data[k / 8], 7 - k % 8))
  }

  lemma BitOfByte(data: seq<byte>, p: nat, j: nat)
    requires p < |data| && j < 8
    ensures BitsOf(data)[8 * p + 7 - j] == TestBit(data[p], j)
  {
    assert (8 * p + 7 - j) / 8 == p && (8 * p + 7 - j) % 8 == 7 - j;
  }

  /** Past the end every bit reads as 0. */
  function BitAt(bits: seq<bit>, k: nat): bit {
    if k < |bits| then bits[k] else 0
  }

  /** `bits` with `code` written over it from place `k`; what falls past the end is lost. */
  function Overlay(bits: seq<bit>, k: nat, code: seq<bit>): (r: seq<bit>)
    ensures |r| == |bits|
    ensures forall j :: 0 <= j < |bits| ==> r[j] == if k <= j < k + |code| then code[j - k] else bits[j]
  {
    seq(|bits|, j requires 0 <= j < |bits| => if k <= j < k + |code| then code[j - k] else bits[j])
  }

  lemma OverlayNothing(bits: seq<bit>, k: nat)
    ensures Overlay(bits, k, []) == bits
  {
  }

  lemma OverlayTwice(bits: seq<bit>, k: nat, a: seq<bit>, b: seq<bit>)
    ensures Overlay(Overlay(bits, k, a), k + |a|, b) == Overlay(bits, k, a + b)
  {
  }

  lemma OverlayHolds(bits: seq<bit>, k: nat, code: seq<bit>)
    requires k + |code| <= |bits|
    ensures Overlay(bits, k, code)[k..k + |code|] == code
  {
  }

  // ----- Single bits of words

  lemma {:induction false} ShrTail(x: nat, j: nat)
    ensures Shr(x, j + 1) == Shr(x / 2, j)
  {
    if j > 0 {
      ShrTail(x, j - 1);
    }
  }

  lemma {:induction false} TestAnd(x: nat, y: nat, j: nat)
    ensures TestBit(And(x, y), j) == if TestBit(x, j) == 1 && TestBit(y, j) == 1 then 1 else 0
  {
    AndStep(x, y);
    if j > 0 {
      TestAnd(x / 2, y / 2, j - 1);
      ShrTail(And(x, y), j - 1);
      ShrTail(x, j - 1);
      ShrTail(y, j - 1);
    }
  }

  lemma {:induction false} TestOr(x: nat, y: nat, j: nat)
    ensures TestBit(Or(x, y), j) == if TestBit(x, j) == 1 || TestBit(y, j) == 1 then 1 else 0
  {
    OrStep(x, y);
    if j > 0 {
      TestOr(x / 2, y / 2, j - 1);
      ShrTail(Or(x, y), j - 1);
      ShrTail(x, j - 1);
      ShrTail(y, j - 1);
    }
  }

  lemma {:induction false} TestShl(v: bit, b: nat, j: nat)
    ensures TestBit(Shl(v, b), j) == if j == b then v else 0
  {
    if j > 0 && b > 0 {
      TestShl(v, b - 1, j - 1);
      ShrTail(Shl(v, b), j - 1);
    } else if j > 0 {
      ShrTail(v, j - 1);
      ShrZero(j - 1);
    }
  }

  lemma {:induction false} ShrZero(j: nat)
    ensures Shr(0, j) == 0
  {
    if j > 0 {
      ShrZero(j - 1);
    }
  }

  /** The mask `~(1 << b)` on `n` bits. */
  function Hole(n: nat, b: nat): nat
    requires b < n
  {
    HoleFits(n, b);
    Pow2(n) - 1 - Shl(1, b)
  }

  lemma HoleFits(n: nat, b: nat)
    requires b < n
    ensures Shl(1, b) < Pow2(n)
  {
    ShlOne(b);
    PowMonotone(b, n);
  }

  lemma {:induction false} TestOnes(n: nat, j: nat)
    requires j < n
    ensures TestBit(Pow2(n) - 1, j) == 1
  {
    if j > 0 {
      TestOnes(n - 1, j - 1);
      ShrTail(Pow2(n) - 1, j - 1);
    }
  }

  lemma {:induction false} TestHole(n: nat, b: nat, j: nat)
    requires b < n && j < n
    ensures TestBit(Hole(n, b), j) == if j == b then 0 else 1
  {
    if b == 0 {
      assert Hole(n, b) / 2 == Pow2(n - 1) - 1;
      if j > 0 {
        ShrTail(Hole(n, b), j - 1);
        TestOnes(n - 1, j - 1);
      }
    } else {
      assert Hole(n, b) / 2 == Hole(n - 1, b - 1);
      if j > 0 {
        ShrTail(Hole(n, b), j - 1);
        TestHole(n - 1, b - 1, j - 1);
      }
    }
  }

  lemma {:induction false} AndBound(x: nat, y: nat)
    ensures And(x, y) <= x
  {
    if x > 0 || y > 0 {
      AndStep(x, y);
      AndBound(x / 2, y / 2);
    }
  }

  lemma {:induction false} OrBound(x: nat, y: nat, n: nat)
    requires x < Pow2(n) && y < Pow2(n)
    ensures Or(x, y) < Pow2(n)
  {
    if n > 0 {
      OrStep(x, y);
      OrBound(x / 2, y / 2, n - 1);
    }
  }

  /** `x & 1` */
  lemma AndOne(x: nat)
    ensures And(x, 1) == x % 2
  {
    AndStep(x, 1);
    AndZero(x / 2);
  }

  /** A byte with bit `b` cleared and `v` or-ed in there. */
  function Patched(x: byte, b: nat, v: bit): byte
    requires b < 8
  {
    PatchedFits(x, b, v);
    Or(And(x, Hole(8, b)), Shl(v, b))
  }

  lemma PatchedFits(x: byte, b: nat, v: bit)
    requires b < 8
    ensures Or(And(x, Hole(8, b)), Shl(v, b)) < 256
  {
    AndBound(x, Hole(8, b));
    HoleFits(8, b);
    ShlZero(b);
    PowEight();
    OrBound(And(x, Hole(8, b)), Shl(v, b), 8);
  }

  /** Patching replaces that bit alone. */
  lemma PatchedBit(x: byte, b: nat, v: bit, j: nat)
    requires b < 8 && j < 8
    ensures TestBit(Patched(x, b, v), j) == if j == b then v else TestBit(x, j)
  {
    hide And, Or, Shl, Shr, Hole;
    TestOr(And(x, Hole(8, b)), Shl(v, b), j);
    TestAnd(x, Hole(8, b), j);
    TestHole(8, b, j);
    TestShl(v, b, j);
  }

  /** Patching one byte overlays one bit of the string. */
  lemma PatchedBits(data: seq<byte>, p: nat, b: nat, v: bit)
    requires p < |data| && b < 8
    ensures BitsOf(data[p := Patched(data[p], b, v)]) == Overlay(BitsOf(data), 8 * p + 7 - b, [v])
  {
    hide Patched, TestBit;
    var after := data[p := Patched(data[p], b, v)];
    forall k | 0 <= k < 8 * |data| ensures BitsOf(after)[k] == Overlay(BitsOf(data), 8 * p + 7 - b, [v])[k] {
      if k / 8 == p {
        PatchedBit(data[p], b, v, 7 - k % 8);
      }
    }
  }

  // ----- u(n): fixed-length numbers, high bit first

  function UCode(n: nat, v: nat): (c: seq<bit>)
    ensures |c| == n
  {
    seq(n, i requires 0 <= i < n => TestBit(v, n - 1 - i))
  }

  /** The number in the `n` bits from place `k`. */
  function UAt(bits: seq<bit>, k: nat, n: nat): (r: nat)
    ensures r < Pow2(n)
  {
    if n == 0 then 0 else 2 * UAt(bits, k, n - 1) + BitAt(bits, k + n - 1)
  }

  lemma {:induction false} UAtHigh(bits: seq<bit>, k: nat, n: nat, v: nat, i: nat)
    requires i <= n && v < Pow2(n) && k + n <= |bits| && bits[k..k + n] == UCode(n, v)
    ensures UAt(bits, k, i) == Shr(v, n - i)
  {
    hide Shr;
    if i == 0 {
      ShrBounds(v, n);
    } else {
      UAtHigh(bits, k, n, v, i - 1);
      ShrNext(v, n - i);
      assert bits[k + i - 1] == bits[k..k + n][i - 1] == TestBit(v, n - i);
    }
  }

  lemma URoundTrip(bits: seq<bit>, k: nat, n: nat, v: nat)
    requires v < Pow2(n) && k + n <= |bits| && bits[k..k + n] == UCode(n, v)
    ensures UAt(bits, k, n) == v
  {
    UAtHigh(bits, k, n, v, n);
  }

  /** Below place `m` a joined word has the bits of its low part, from there on those of its high part. */
  lemma {:induction false} TestJoined(x: nat, m: nat, y: nat, j: nat)
    requires y < Pow2(m)
    ensures TestBit(Shl(x, m) + y, j) == if j < m then TestBit(y, j) else TestBit(x, j - m)
  {
    if m > 0 {
      assert (Shl(x, m) + y) / 2 == Shl(x, m - 1) + y / 2;
      if j > 0 {
        TestJoined(x, m - 1, y / 2, j - 1);
        ShrTail(Shl(x, m) + y, j - 1);
        ShrTail(y, j - 1);
      }
    }
  }

  /** The code of a joined word is the codes of its parts. */
  lemma CodeJoined(n: nat, x: nat, m: nat, y: nat)
    requires y < Pow2(m)
    ensures UCode(n + m, Shl(x, m) + y) == UCode(n, x) + UCode(m, y)
  {
    hide TestBit, Shl, Pow2;
    forall i | 0 <= i < n + m ensures UCode(n + m, Shl(x, m) + y)[i] == (UCode(n, x) + UCode(m, y))[i] {
      TestJoined(x, m, y, n + m - 1 - i);
    }
  }

  lemma BitsConcat(a: seq<byte>, b: seq<byte>)
    ensures BitsOf(a + b) == BitsOf(a) + BitsOf(b)
  {
    hide TestBit;
    forall k | 8 * |a| <= k < 8 * |a + b| ensures BitsOf(a + b)[k] == BitsOf(b)[k - 8 * |a|] {
      EightsApart(k, |a|);
    }
  }

  lemma EightsApart(k: nat, p: nat)
    requires p <= k / 8
    ensures 8 * p <= k && (k - 8 * p) / 8 == k / 8 - p && (k - 8 * p) % 8 == k % 8
  {
  }

  // ----- ue(v): clause 9.1 of ITU-T H.264

  function BitLength(x: nat): (n: nat)
    ensures if x == 0 then n == 0 else n > 0 && Pow2(n - 1) <= x < Pow2(n)
  {
    if x == 0 then 0 else 1 + BitLength(x / 2)
  }

  /** A prefix of zeros, a one, and as many bits as there were zeros. */
  function UeCode(v: nat): (c: seq<bit>)
    ensures |c| == 2 * BitLength(v + 1) - 1
  {
    var zeros := BitLength(v + 1) - 1;
    seq(zeros, _ => 0) + [1] + UCode(zeros, v + 1 - Pow2(zeros))
  }

  /** How many zeros the reader counts, from `i` up, before the first one, the 32nd zero or the end. */
  function ZeroRun(bits: seq<bit>, k: nat, i: nat): (run: nat)
    requires i <= 32
    ensures i <= run <= 32
    decreases 32 - i
  {
    if BitAt(bits, k) == 0 && i < 32 && k + 1 < |bits| then ZeroRun(bits, k + 1, i + 1) else i
  }

  /** The count stops at the first one, at 32 zeros, or on the last bit; before that there are only zeros. */
  lemma {:induction false} ZeroRunMeans(bits: seq<bit>, k: nat, i: nat)
    requires i <= 32
    ensures var zeros := ZeroRun(bits, k, i) - i;
      && (zeros > 0 ==> k + zeros < |bits|)
      && (forall j :: k <= j < k + zeros ==> bits[j] == 0)
      && (i + zeros == 32 || BitAt(bits, k + zeros) == 1 || k + zeros + 1 >= |bits|)
    decreases 32 - i
  {
    hide ZeroRun;
    ZeroRunNext(bits, k, i);
    if BitAt(bits, k) == 0 && i < 32 && k + 1 < |bits| {
      ZeroRunMeans(bits, k + 1, i + 1);
    }
  }

  lemma ZeroRunNext(bits: seq<bit>, k: nat, i: nat)
    requires i <= 32
    ensures ZeroRun(bits, k, i)
      == if BitAt(bits, k) == 0 && i < 32 && k + 1 < |bits| then ZeroRun(bits, k + 1, i + 1) else i
  {
  }

  /** The number the reader makes of the bits from place `k`, and the place after it. */
  function UeAt(bits: seq<bit>, k: nat): (nat, nat) {
    var run := ZeroRun(bits, k, 0);
    (UAt(bits, k + run + 1, run) + Pow2(run) - 1, k + 2 * run + 1)
  }

  /** Writing `x` on twice its bit length less one bit is its Exp-Golomb code. */
  lemma WideCode(v: nat)
    ensures UCode(2 * BitLength(v + 1) - 1, v + 1) == UeCode(v)
  {
    hide Shr, Pow2, BitLength;
    var x, len := v + 1, BitLength(v + 1);
    var n := 2 * len - 1;
    forall i | 0 <= i < n ensures UCode(n, x)[i] == UeCode(v)[i] {
      if i < len - 1 {
        HighBitsClear(x, len, n - 1 - i);
      } else if i == len - 1 {
        PowTwice(len - 1);
        TopBit(x, len - 1);
      } else {
        BelowTop(x, len - 1, n - 1 - i);
      }
    }
  }

  lemma HighBitsClear(x: nat, n: nat, j: nat)
    requires x < Pow2(n) && n <= j
    ensures TestBit(x, j) == 0
  {
    hide Shr;
    PowMonotone(n, j);
    ShrBounds(x, j);
    ShrShl(x, j);
    ShrSmall(x, j);
  }

  lemma {:induction false} ShrSmall(x: nat, j: nat)
    requires x < Pow2(j)
    ensures Shr(x, j) == 0
  {
    if j > 0 {
      ShrTail(x, j - 1);
      ShrSmall(x / 2, j - 1);
    }
  }

  lemma {:induction false} TopBit(x: nat, n: nat)
    requires Pow2(n) <= x < 2 * Pow2(n)
    ensures TestBit(x, n) == 1
  {
    if n > 0 {
      ShrTail(x, n - 1);
      TopBit(x / 2, n - 1);
    }
  }

  lemma {:induction false} BelowTop(x: nat, n: nat, j: nat)
    requires j < n && x >= Pow2(n)
    ensures TestBit(x, j) == TestBit(x - Pow2(n), j)
  {
    if j > 0 {
      ShrTail(x, j - 1);
      ShrTail(x - Pow2(n), j - 1);
      assert (x - Pow2(n)) / 2 == x / 2 - Pow2(n - 1);
      BelowTop(x / 2, n - 1, j - 1);
    }
  }

  lemma {:induction false} ZeroRunStops(bits: seq<bit>, k: nat, i: nat, zeros: nat)
    requires i + zeros <= 32 && k + zeros < |bits|
    requires forall j :: k <= j < k + zeros ==> bits[j] == 0
    requires bits[k + zeros] == 1
    ensures ZeroRun(bits, k, i) == i + zeros
    decreases zeros
  {
    if zeros > 0 {
      ZeroRunStops(bits, k + 1, i + 1, zeros - 1);
    }
  }

  /** The reader counts the zeros of a code and stops at its one. */
  lemma UeZeros(bits: seq<bit>, k: nat, v: nat)
    requires BitLength(v + 1) <= 33
    requires k + |UeCode(v)| <= |bits| && bits[k..k + |UeCode(v)|] == UeCode(v)
    ensures ZeroRun(bits, k, 0) == BitLength(v + 1) - 1
  {
    hide BitLength, UCode, Pow2, ZeroRun;
    var zeros, code := BitLength(v + 1) - 1, UeCode(v);
    var slice := bits[k..k + |code|];
    forall j | k <= j < k + zeros ensures bits[j] == 0 {
      assert bits[j] == slice[j - k];
    }
    assert bits[k + zeros] == slice[zeros] == 1;
    ZeroRunStops(bits, k, 0, zeros);
  }

  lemma UeRoundTrip(bits: seq<bit>, k: nat, v: nat)
    requires BitLength(v + 1) <= 33
    requires k + |UeCode(v)| <= |bits| && bits[k..k + |UeCode(v)|] == UeCode(v)
    ensures UeAt(bits, k) == (v, k + |UeCode(v)|)
  {
    hide BitLength, UCode, Pow2, UAt, ZeroRun;
    var zeros := BitLength(v + 1) - 1;
    var slice := bits[k..k + |UeCode(v)|];
    UeZeros(bits, k, v);
    assert bits[k + zeros + 1..k + zeros + 1 + zeros] == slice[zeros + 1..] == UCode(zeros, v + 1 - Pow2(zeros));
    PowTwice(zeros);
    URoundTrip(bits, k + zeros + 1, zeros, v + 1 - Pow2(zeros));
  }

  lemma PowEight()
    ensures Pow2(8) == 256
  {
  }

  lemma PowTwice(n: nat)
    ensures Pow2(n + 1) == 2 * Pow2(n)
  {
  }

  // ----- se(v): clause 9.1.1 of ITU-T H.264

  /** Positive numbers take the odd codes, the others the even ones. */
  function SeNumber(v: int): nat {
    if v <= 0 then -v * 2 else v * 2 - 1
  }

  function SeValue(r: nat): int {
    if r % 2 == 1 then (r + 1) / 2 else -(r / 2)
  }

  /** The numbers 0, 1, -1, 2, -2 and so on take the codes 0, 1, 2, 3, 4 and so on, both ways. */
  lemma SeTable(n: int)
    requires n > 0
    ensures SeNumber(0) == 0 && SeNumber(n) == 2 * n - 1 && SeNumber(-n) == 2 * n
    ensures SeValue(0) == 0 && SeValue(2 * n - 1) == n && SeValue(2 * n) == -n
  {
  }

  // ----- Sequences of elements

  datatype Element = U(n: nat, v: nat) | U8(v: nat) | Ue(v: nat) | Se(i: int)

  datatype Kind = UKind(n: nat) | U8Kind | UeKind | SeKind

  /** What the writer may be given. */
  predicate Writable(e: Element) {
    match e
    case U(n, v) => n <= 32 && v < Pow2(n)
    case U8(v) => v < 256
    case Ue(v) => v <= 65534
    case Se(i) => -32767 <= i <= 32767
  }

  function KindOf(e: Element): Kind {
    match e
    case U(n, _) => UKind(n)
    case U8(_) => U8Kind
    case Ue(_) => UeKind
    case Se(_) => SeKind
  }

  function ValueOf(e: Element): int {
    match e
    case U(_, v) => v
    case U8(v) => v
    case Ue(v) => v
    case Se(i) => i
  }

  function Code(e: Element): seq<bit> {
    match e
    case U(n, v) => UCode(n, v)
    case U8(v) => UCode(8, v)
    case Ue(v) => UeCode(v)
    case Se(i) => UeCode(SeNumber(i))
  }

  function Codes(es: seq<Element>): seq<bit> {
    if es == [] then [] else Code(es[0]) + Codes(es[1..])
  }

  /** The value of one element and the place after it. */
  function ReadAt(bits: seq<bit>, k: nat, kind: Kind): (int, nat) {
    match kind
    case UKind(n) => (UAt(bits, k, n), k + n)
    case U8Kind => (UAt(bits, k, 8), k + 8)
    case UeKind => UeAt(bits, k)
    case SeKind => var (r, next) := UeAt(bits, k); (SeValue(r), next)
  }

  function ReadAllAt(bits: seq<bit>, k: nat, kinds: seq<Kind>): (seq<int>, nat)
    decreases |kinds|
  {
    if kinds == [] then ([], k) else
      var (v, next) := ReadAt(bits, k, kinds[0]);
      var (rest, end) := ReadAllAt(bits, next, kinds[1..]);
      ([v] + rest, end)
  }

  function Kinds(es: seq<Element>): (r: seq<Kind>)
    ensures |r| == |es|
  {
    if es == [] then [] else [KindOf(es[0])] + Kinds(es[1..])
  }

  function Values(es: seq<Element>): seq<int> {
    if es == [] then [] else [ValueOf(es[0])] + Values(es[1..])
  }

  lemma PowSixteen()
    ensures Pow2(16) == 65536
  {
    assert Pow2(8) == 256;
  }

  /** Up to 65534, and no further, a code fits the 32 bits one write can take. */
  lemma ShortCode(v: nat)
    ensures v <= 65534 <==> |UeCode(v)| <= 32
  {
    hide Pow2, BitLength, UeCode;
    PowSixteen();
    PowMonotone(16, BitLength(v + 1) - 1);
    PowMonotone(BitLength(v + 1), 16);
  }

  lemma ElementRoundTrip(bits: seq<bit>, k: nat, e: Element)
    requires Writable(e) && k + |Code(e)| <= |bits| && bits[k..k + |Code(e)|] == Code(e)
    ensures ReadAt(bits, k, KindOf(e)) == (ValueOf(e), k + |Code(e)|)
  {
    hide UeAt, UAt, BitLength, UCode, UeCode, Pow2;
    match e
    case U(n, v) => URoundTrip(bits, k, n, v);
    case U8(v) =>
      PowEight();
      URoundTrip(bits, k, 8, v);
    case Ue(v) =>
      ShortCode(v);
      UeRoundTrip(bits, k, v);
    case Se(i) =>
      ShortCode(SeNumber(i));
      UeRoundTrip(bits, k, SeNumber(i));
  }

  lemma {:induction false} ReadsBack(bits: seq<bit>, k: nat, es: seq<Element>)
    requires (forall e :: e in es ==> Writable(e))
    requires k + |Codes(es)| <= |bits| && bits[k..k + |Codes(es)|] == Codes(es)
    ensures ReadAllAt(bits, k, Kinds(es)) == (Values(es), k + |Codes(es)|)
    decreases |es|
  {
    hide Code, ReadAt, Writable, KindOf, ValueOf;
    if es != [] {
      var code, rest := Code(es[0]), Codes(es[1..]);
      var slice := bits[k..k + |Codes(es)|];
      assert bits[k..k + |code|] == slice[..|code|] == code;
      assert bits[k + |code|..k + |code| + |rest|] == slice[|code|..] == rest;
      ElementRoundTrip(bits, k, es[0]);
      ReadsBack(bits, k + |code|, es[1..]);
    }
  }

  /** Elements written anywhere they fit read back as the same values, and the reader ends where the writer did. */
  lemma RoundTrip(bits: seq<bit>, k: nat, es: seq<Element>)
    requires (forall e :: e in es ==> Writable(e)) && k + |Codes(es)| <= |bits|
    ensures ReadAllAt(Overlay(bits, k, Codes(es)), k, Kinds(es)) == (Values(es), k + |Codes(es)|)
  {
    OverlayHolds(bits, k, Codes(es));
    ReadsBack(Overlay(bits, k, Codes(es)), k, es);
  }

  // ----- What the reader can be asked

  /** A number of at most 32 bits, or a code with so few zeros in front that the reader's shift is defined. */
  ghost predicate Defined(bits: seq<bit>, k: nat, kind: Kind) {
    match kind
    case UKind(n) => n <= 32
    case U8Kind => true
    case UeKind => ZeroRun(bits, k, 0) < 31
    case SeKind => ZeroRun(bits, k, 0) < 31
  }

  ghost predicate AllDefined(bits: seq<bit>, k: nat, kinds: seq<Kind>)
    decreases |kinds|
  {
    kinds != [] ==> Defined(bits, k, kinds[0]) && AllDefined(bits, ReadAt(bits, k, kinds[0]).1, kinds[1..])
  }

  lemma ElementIsDefined(bits: seq<bit>, k: nat, e: Element)
    requires Writable(e) && k + |Code(e)| <= |bits| && bits[k..k + |Code(e)|] == Code(e)
    ensures Defined(bits, k, KindOf(e))
  {
    hide BitLength, UCode, UeCode, Pow2, ZeroRun;
    match e
    case U(_, _) =>
    case U8(_) =>
    case Ue(v) =>
      ShortCode(v);
      UeZeros(bits, k, v);
    case Se(i) =>
      ShortCode(SeNumber(i));
      UeZeros(bits, k, SeNumber(i));
  }

  lemma {:induction false} ElementsAreDefined(bits: seq<bit>, k: nat, es: seq<Element>)
    requires (forall e :: e in es ==> Writable(e))
    requires k + |Codes(es)| <= |bits| && bits[k..k + |Codes(es)|] == Codes(es)
    ensures AllDefined(bits, k, Kinds(es))
    decreases |es|
  {
    hide Code, ReadAt, Writable, KindOf, ValueOf, Defined;
    if es != [] {
      var code, rest := Code(es[0]), Codes(es[1..]);
      var slice := bits[k..k + |Codes(es)|];
      assert bits[k..k + |code|] == slice[..|code|] == code;
      assert bits[k + |code|..k + |code| + |rest|] == slice[|code|..] == rest;
      ElementIsDefined(bits, k, es[0]);
      ElementRoundTrip(bits, k, es[0]);
      ElementsAreDefined(bits, k + |code|, es[1..]);
    }
  }
}

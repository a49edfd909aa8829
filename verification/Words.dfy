/** Operations on unsigned machine words, defined on the binary digits of natural numbers. */
module Words {

  const TWO_TO_THE_32: nat := 0x1_0000_0000

  const INT_MAX: int := 0x7fff_ffff

  type byte = n: nat | n < 256

  type uint32 = n: nat | n < TWO_TO_THE_32

  function Pow2(k: nat): (p: nat)
    ensures p >= 1
  {
    if k == 0 then 1 else 2 * Pow2(k - 1)
  }

  /** `x & y` */
  function And(x: nat, y: nat): nat
    decreases x + y
  {
    if x == 0 && y == 0 then 0 else 2 * And(x / 2, y / 2) + (if x % 2 == 1 && y % 2 == 1 then 1 else 0)
  }

  /** `x | y` */
  function Or(x: nat, y: nat): nat
    decreases x + y
  {
    if x == 0 && y == 0 then 0 else 2 * Or(x / 2, y / 2) + (if x % 2 == 1 || y % 2 == 1 then 1 else 0)
  }

  /** `x << k`, before truncation to the word */
  function Shl(x: nat, k: nat): nat {
    if k == 0 then x else 2 * Shl(x, k - 1)
  }

  /** `x >> k` */
  function Shr(x: nat, k: nat): nat {
    if k == 0 then x else Shr(x, k - 1) / 2
  }

  lemma {:induction false} ShlIsProduct(x: nat, k: nat)
    ensures Shl(x, k) == x * Pow2(k)
  {
    if k > 0 {
      ShlIsProduct(x, k - 1);
      DoubleOut(x, Pow2(k - 1));
    }
  }

  lemma DoubleOut(x: nat, p: nat)
    ensures x * (2 * p) == 2 * (x * p)
  {
  }

  /** Every word is its high part shifted plus its low `k` bits. */
  lemma {:induction false} ShrShl(x: nat, k: nat)
    ensures Shl(Shr(x, k), k) <= x < Shl(Shr(x, k), k) + Pow2(k)
    ensures Shr(x, k) == x / Pow2(k)
    ensures x - Shl(Shr(x, k), k) == x % Pow2(k)
  {
    if k > 0 {
      ShrShl(x, k - 1);
      ShlSum(Shr(x, k), Shr(x, k), k - 1);
      ShlMono(Shr(x, k) + Shr(x, k), Shr(x, k - 1), k - 1);
    }
    ShlIsProduct(Shr(x, k), k);
    Quotient(x, Pow2(k), Shr(x, k));
  }

  lemma {:induction false} ShlSum(x: nat, y: nat, k: nat)
    ensures Shl(x + y, k) == Shl(x, k) + Shl(y, k)
  {
    if k > 0 {
      ShlSum(x, y, k - 1);
    }
  }

  lemma {:induction false} ShlMono(x: nat, y: nat, k: nat)
    requires x <= y <= x + 1
    ensures Shl(x, k) <= Shl(y, k) <= Shl(x, k) + Pow2(k)
  {
    if k > 0 {
      ShlMono(x, y, k - 1);
    }
  }

  lemma Quotient(x: nat, m: nat, q: nat)
    requires m > 0 && q * m <= x < q * m + m
    ensures x / m == q && x % m == x - q * m
  {
    var d := x / m - q;
    assert d * m == (x / m) * m - q * m;
    MultipleBounds(d, m);
  }

  lemma MultipleBounds(d: int, m: int)
    requires m > 0
    ensures d >= 1 ==> d * m >= m
    ensures d <= -1 ==> d * m <= -m
  {
  }

  /** Counting up by one wraps at the modulus. */
  lemma ModSuccessor(a: nat, m: nat)
    requires m > 0
    ensures (a + 1) % m == if a % m + 1 == m then 0 else a % m + 1
  {
    var q, r := a / m, a % m;
    DivMod(a, m);
    NextMultiple(q, m);
    Quotient(a + 1, m, if r + 1 == m then q + 1 else q);
  }

  /** Stepping a wrapped index is wrapping the stepped index. */
  lemma ModStep(a: nat, m: nat)
    requires m > 0
    ensures (a % m + 1) % m == (a + 1) % m
  {
    ModSuccessor(a, m);
    SmallMod(a % m, m);
    ModSuccessor(a % m, m);
  }

  lemma SmallMod(r: nat, m: nat)
    requires r < m
    ensures r % m == r
  {
  }

  lemma DivMod(a: nat, m: nat)
    requires m > 0
    ensures a == (a / m) * m + a % m
  {
  }

  lemma NextMultiple(q: nat, m: nat)
    ensures (q + 1) * m == q * m + m
  {
  }

  /** Numbers less than the modulus apart have different remainders. */
  lemma ModApart(i: nat, j: nat, m: nat)
    requires m > 0 && i < j < i + m
    ensures i % m != j % m
  {
    DivMod(i, m);
    DivMod(j, m);
    var d := j / m - i / m;
    assert d * m == (j / m) * m - (i / m) * m;
    MultipleBounds(d, m);
  }

  lemma AndStep(x: nat, y: nat)
    ensures And(x, y) == 2 * And(x / 2, y / 2) + (if x % 2 == 1 && y % 2 == 1 then 1 else 0)
  {
  }

  lemma OrStep(x: nat, y: nat)
    ensures Or(x, y) == 2 * Or(x / 2, y / 2) + (if x % 2 == 1 || y % 2 == 1 then 1 else 0)
  {
  }

  /** Halving a word halves its low part and shifts its high part one place less. */
  lemma Halved(a: nat, b: nat, k: nat)
    requires k > 0 && b < Pow2(k)
    ensures (Shl(a, k) + b) / 2 == Shl(a, k - 1) + b / 2 && (Shl(a, k) + b) % 2 == b % 2
    ensures b / 2 < Pow2(k - 1)
  {
    var half := Shl(a, k - 1);
    assert Shl(a, k) == 2 * half;
  }

  lemma ShlStep(x: nat, k: nat)
    ensures Shl(x, 0) == x && Shl(x, k + 1) == 2 * Shl(x, k)
  {
  }

  lemma OnlyZero(b: nat)
    requires b < Pow2(0)
    ensures b == 0 && And(0, 0) == 0 && Or(0, 0) == 0
  {
  }

  /** Splitting both operands at bit `k` splits the conjunction there. */
  lemma {:induction false} AndSplit(k: nat, a: nat, b: nat, c: nat, d: nat)
    requires b < Pow2(k) && d < Pow2(k)
    ensures And(Shl(a, k) + b, Shl(c, k) + d) == Shl(And(a, c), k) + And(b, d)
  {
    hide And, Shl, Pow2;
    if k == 0 {
      OnlyZero(b);
      OnlyZero(d);
      ShlStep(a, 0);
      ShlStep(c, 0);
      ShlStep(And(a, c), 0);
    } else {
      Halved(a, b, k);
      Halved(c, d, k);
      AndSplit(k - 1, a, b / 2, c, d / 2);
      AndStep(Shl(a, k) + b, Shl(c, k) + d);
      AndStep(b, d);
      ShlStep(And(a, c), k - 1);
    }
  }

  /** Splitting both operands at bit `k` splits the disjunction there. */
  lemma {:induction false} OrSplit(k: nat, a: nat, b: nat, c: nat, d: nat)
    requires b < Pow2(k) && d < Pow2(k)
    ensures Or(Shl(a, k) + b, Shl(c, k) + d) == Shl(Or(a, c), k) + Or(b, d)
  {
    hide Or, Shl, Pow2;
    if k == 0 {
      OnlyZero(b);
      OnlyZero(d);
      ShlStep(a, 0);
      ShlStep(c, 0);
      ShlStep(Or(a, c), 0);
    } else {
      Halved(a, b, k);
      Halved(c, d, k);
      OrSplit(k - 1, a, b / 2, c, d / 2);
      OrStep(Shl(a, k) + b, Shl(c, k) + d);
      OrStep(b, d);
      ShlStep(Or(a, c), k - 1);
    }
  }

  lemma {:induction false} AndZero(x: nat)
    ensures And(x, 0) == 0 && And(0, x) == 0
  {
    if x > 0 {
      AndZero(x / 2);
    }
  }

  lemma {:induction false} OrZero(x: nat)
    ensures Or(x, 0) == x && Or(0, x) == x
  {
    if x > 0 {
      OrZero(x / 2);
    }
  }

  /** Masking with `2^k - 1` keeps the low `k` bits. */
  lemma {:induction false} LowMask(k: nat, b: nat)
    requires b < Pow2(k)
    ensures And(b, Pow2(k) - 1) == b
  {
    if k > 0 {
      LowMask(k - 1, b / 2);
      AndStep(b, Pow2(k) - 1);
    }
  }

  lemma {:induction false} ShlZero(k: nat)
    ensures Shl(0, k) == 0
  {
    if k > 0 {
      ShlZero(k - 1);
    }
  }

  /** Masking with `2^k - 1` is the remainder modulo `2^k`. */
  lemma MaskIsMod(x: nat, k: nat)
    ensures And(x, Pow2(k) - 1) == x % Pow2(k)
  {
    ShrShl(x, k);
    AndSplit(k, Shr(x, k), x % Pow2(k), 0, Pow2(k) - 1);
    AndZero(Shr(x, k));
    ShlZero(k);
    LowMask(k, x % Pow2(k));
  }

  /** Or-ing a number below `2^k` into one whose low `k` bits are clear is addition. */
  lemma OrIsSum(a: nat, k: nat, d: nat)
    requires d < Pow2(k)
    ensures Or(Shl(a, k), d) == Shl(a, k) + d && Or(d, Shl(a, k)) == Shl(a, k) + d
  {
    hide Or, Shl, Pow2;
    OrSplit(k, a, 0, 0, d);
    OrSplit(k, 0, d, a, 0);
    OrZero(a);
    OrZero(d);
    ShlZero(k);
  }

  lemma ShrBounds(x: nat, k: nat)
    ensures if Shr(x, k) == 0 then x < Pow2(k) else x >= Pow2(k)
  {
    ShrShl(x, k);
    ShlIsProduct(Shr(x, k), k);
    AtLeastOne(Shr(x, k), Pow2(k));
  }

  lemma AtLeastOne(q: nat, m: nat)
    ensures q >= 1 ==> q * m >= m
  {
  }

  lemma {:induction false} ShlOne(k: nat)
    ensures Shl(1, k) == Pow2(k)
  {
    if k > 0 {
      ShlOne(k - 1);
    }
  }

  lemma Pow2Values()
    ensures Pow2(31) == 0x8000_0000 && Pow2(32) == TWO_TO_THE_32
  {
    assert Pow2(8) == 256;
    assert Pow2(16) == 65536;
    assert Pow2(24) == 16777216;
  }

  lemma ShrStart(x: nat)
    ensures Shr(x, 0) == x
  {
  }

  lemma ShrNext(x: nat, i: nat)
    ensures Shr(x, i + 1) == Shr(x, i) / 2
  {
  }

  lemma {:induction false} PowMonotone(i: nat, j: nat)
    ensures i < j ==> Pow2(i) < Pow2(j)
  {
    if i < j - 1 {
      PowMonotone(i, j - 1);
    }
  }
}

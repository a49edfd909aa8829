/** The numbers the parser accepts, and no others. */
module JsonNumerals {
  import opened JsonTree
  import opened JsonStrings
  import opened JsonGrammar
  import opened JsonRoundTrip

  // ----- Numerals and what they stand for

  predicate AllDigits(s: bytes) {
    forall i :: 0 <= i < |s| ==> 48 <= s[i] <= 57
  }

  /** The number of decimal digits, each worth its place. */
  function Count(s: bytes): int {
    if s == [] then 0
    else
      var first: int := s[0];
      (first - 48) * Power10(|s| - 1) + Count(s[1..])
  }

  /** `10^e` */
  function TenTo(e: int): real {
    if e >= 0 then Power10(e) as real else 1.0 / PositivePower(-e)
  }

  function PositivePower(k: nat): (p: real)
    ensures p > 0.0
  {
    Power10Positive(k);
    Power10(k) as real
  }

  lemma {:induction false} Power10Positive(k: nat)
    ensures Power10(k) >= 1
  {
    if k > 0 {
      Power10Positive(k - 1);
    }
  }

  datatype Sign = NoSign | Minus | Plus
  {
    function Text(): bytes {
      match this
      case NoSign => []
      case Minus => [45]
      case Plus => [43]
    }
  }

  datatype Power = NoPower | Power(marker: byte, sign: Sign, digits: bytes)
  {
    predicate Valid() {
      Power? ==> (marker == 101 || marker == 69) && AllDigits(digits) && digits != []
    }

    function Text(): bytes {
      if NoPower? then [] else [marker] + sign.Text() + digits
    }

    function Value(): int {
      if NoPower? then 0 else if sign.Minus? then -Count(digits) else Count(digits)
    }
  }

  /** A sign, digits, a point and digits, and a power of ten; all but one digit may be missing. */
  datatype Numeral = Numeral(sign: Sign, whole: bytes, point: bool, fraction: bytes, power: Power)
  {
    predicate Valid() {
      && AllDigits(whole) && AllDigits(fraction) && whole + fraction != [] && (!point ==> fraction == [])
      && power.Valid()
    }

    function PointText(): bytes {
      if point then [46] + fraction else []
    }

    function Text(): bytes {
      sign.Text() + whole + PointText() + power.Text()
    }

    /** The value without the power of ten. */
    function Mantissa(): real {
      var digits := Count(whole + fraction) as real * TenTo(-|fraction|);
      if sign.Minus? then -digits else digits
    }

    function Value(): real {
      Mantissa() * TenTo(power.Value())
    }
  }

  // ----- The arithmetic of the grammar

  lemma {:induction false} CountLast(s: bytes, d: byte)
    ensures Count(s + [d]) == Count(s) * 10 + (d as int - 48)
  {
    var t := s + [d];
    if s == [] {
      assert t[1..] == [] && Power10(0) == 1;
    } else {
      CountLast(s[1..], d);
      assert t[1..] == s[1..] + [d] && t[0] == s[0];
      assert Power10(|s|) == 10 * Power10(|s| - 1);
      TimesTen(s[0] as int - 48, Power10(|s| - 1));
    }
  }

  lemma TimesTen(a: int, p: int)
    ensures a * (10 * p) == (a * p) * 10
  {
  }

  lemma {:induction false} CountIsDigitsValue(s: bytes)
    ensures Count(s) == DigitsValue(s)
  {
    if s != [] {
      CountIsDigitsValue(s[..|s| - 1]);
      CountLast(s[..|s| - 1], s[|s| - 1]);
      assert s == s[..|s| - 1] + [s[|s| - 1]];
    }
  }

  lemma {:induction false} ScaleIsProduct(x: real, e: int)
    ensures Scale(x, e) == x * TenTo(e)
    decreases if e < 0 then -e else e
  {
    if e > 0 {
      ScaleIsProduct(x, e - 1);
      TenStep(e - 1);
      Regroup(x, TenTo(e - 1));
    } else if e < 0 {
      ScaleIsProduct(x, e + 1);
      TenStep(e);
      Regroup(x, TenTo(e));
    } else {
      assert TenTo(0) == 1.0;
    }
  }

  lemma Regroup(x: real, t: real)
    ensures x * (t * 10.0) == (x * t) * 10.0
  {
  }

  lemma TenStep(e: int)
    ensures TenTo(e + 1) == TenTo(e) * 10.0
  {
    if e >= 0 {
      assert Power10(e + 1) == 10 * Power10(e);
    } else {
      var p := PositivePower(-e - 1);
      assert Power10(-e) == 10 * Power10(-e - 1);
      assert PositivePower(-e) == 10.0 * p;
      Inverse(p);
      if e == -1 {
        assert Power10(0) == 1;
      }
    }
  }

  lemma Inverse(p: real)
    requires p > 0.0
    ensures 1.0 / (10.0 * p) * 10.0 == 1.0 / p
  {
  }

  // ----- `strtod` reads the longest numeral

  /** Where the parts of a numeral end, from the start of its text. */
  function AfterSign(m: Numeral): nat {
    |m.sign.Text()|
  }

  function AfterWhole(m: Numeral): nat {
    AfterSign(m) + |m.whole|
  }

  function AfterFraction(m: Numeral): nat {
    if m.point then AfterWhole(m) + 1 + |m.fraction| else AfterWhole(m)
  }

  /** The parts of a numeral whose text starts `s`. */
  lemma Parts(s: bytes, m: Numeral)
    requires At(s, 0, m.Text())
    ensures AfterFraction(m) <= |m.Text()| <= |s|
    ensures At(s, 0, m.sign.Text()) && At(s, AfterSign(m), m.whole)
    ensures m.point ==> s[AfterWhole(m)] == 46 && At(s, AfterWhole(m) + 1, m.fraction)
    ensures At(s, AfterFraction(m), m.power.Text()) && |m.Text()| == AfterFraction(m) + |m.power.Text()|
  {
    hide At, Power.Text, Sign.Text;
    AtSplit(s, 0, m.sign.Text() + m.whole + m.PointText(), m.power.Text());
    AtSplit(s, 0, m.sign.Text() + m.whole, m.PointText());
    AtSplit(s, 0, m.sign.Text(), m.whole);
    if m.point {
      AtSplit(s, AfterWhole(m), [46], m.fraction);
      AtByte(s, AfterWhole(m), 46);
    }
    AtInside(s, 0, m.Text());
  }

  /** The parts of a power of ten at `p`. */
  lemma PowerParts(s: bytes, p: nat, w: Power)
    requires At(s, p, w.Text()) && w.Power?
    ensures var k := p + 1 + |w.sign.Text()|;
      && k + |w.digits| == p + |w.Text()| <= |s| && s[p] == w.marker
      && At(s, p + 1, w.sign.Text()) && At(s, k, w.digits)
  {
    AtThree(s, p, [w.marker], w.sign.Text(), w.digits);
    AtByte(s, p, w.marker);
    AtInside(s, p, w.Text());
  }

  /** A sign and at least one byte that is no sign. */
  lemma SignAt(s: bytes, p: nat, sign: Sign)
    requires At(s, p, sign.Text()) && p + |sign.Text()| < |s|
    requires s[p + |sign.Text()|] != 45 && s[p + |sign.Text()|] != 43
    ensures |sign.Text()| == (if s[p] == 45 || s[p] == 43 then 1 else 0)
    ensures sign.Minus? <==> s[p] == 45
  {
    if !sign.NoSign? {
      AtIndex(s, p, sign.Text(), 0);
    }
  }

  /** Scanning digits from `p` goes past `d`, and stops behind it unless another digit follows. */
  lemma DigitsAt(s: bytes, p: nat, d: bytes)
    requires At(s, p, d) && AllDigits(d)
    ensures p + |d| <= |s| && forall k :: p <= k < p + |d| ==> 48 <= s[k] <= 57
    ensures DigitsEnd(s, p) >= p + |d|
    ensures (p + |d| == |s| || !(48 <= s[p + |d|] <= 57)) ==> DigitsEnd(s, p) == p + |d|
  {
    hide DigitsEnd;
    forall k | p <= k < p + |d| ensures 48 <= s[k] <= 57 {
      AtIndex(s, p, d, k - p);
    }
    var e := DigitsEnd(s, p);
    assert e < |s| ==> !IsDigit(s[e]);
    assert p + |d| < e ==> IsDigit(s[p + |d|]);
  }

  /** The byte behind the digits of the mantissa, if the numeral goes on there. */
  predicate GoesOn(m: Numeral, b: byte) {
    (m.power.Power? && b == m.power.marker) || b == 46
  }

  /** Reading the sign and the digits before the point. */
  lemma WholeReads(s: bytes, m: Numeral)
    requires m.Valid() && At(s, 0, m.Text())
    ensures AfterSign(m) == if s != [] && (s[0] == MINUS || s[0] == PLUS) then 1 else 0
    ensures AfterSign(m) == 1 ==> (m.sign.Minus? <==> s[0] == MINUS)
    ensures AfterSign(m) == 0 ==> m.sign.NoSign?
    ensures AfterWhole(m) <= |s| && At(s, AfterSign(m), m.whole)
    ensures DigitsEnd(s, AfterSign(m)) >= AfterWhole(m)
    ensures m.point || m.power.Power? || |s| == |m.Text()| ==> DigitsEnd(s, AfterSign(m)) == AfterWhole(m)
  {
    hide DigitsEnd, At;
    Parts(s, m);
    DigitsAt(s, AfterSign(m), m.whole);
    if m.power.Power? {
      PowerParts(s, AfterFraction(m), m.power);
    }
    assert AfterSign(m) < |s|;
    SignAt(s, 0, m.sign);
  }

  /** Reading the point and the digits behind it. */
  lemma FractionReads(s: bytes, m: Numeral)
    requires m.Valid() && At(s, 0, m.Text())
    ensures AfterWhole(m) <= AfterFraction(m) <= |m.Text()| <= |s|
    ensures m.point ==> s[AfterWhole(m)] == POINT && At(s, AfterWhole(m) + 1, m.fraction)
    ensures m.point ==> DigitsEnd(s, AfterWhole(m) + 1) >= AfterFraction(m)
    ensures m.point && (m.power.Power? || |s| == |m.Text()|) ==> DigitsEnd(s, AfterWhole(m) + 1) == AfterFraction(m)
    ensures !m.point && AfterWhole(m) < |s| && (m.power.Power? || |s| == |m.Text()|) ==> s[AfterWhole(m)] != POINT
  {
    hide DigitsEnd, At;
    Parts(s, m);
    if m.point {
      DigitsAt(s, AfterWhole(m) + 1, m.fraction);
    }
    if m.power.Power? {
      PowerParts(s, AfterFraction(m), m.power);
    }
  }

  /** Reading the power of ten that starts at `j`. */
  lemma PowerReads(s: bytes, j: nat, w: Power)
    requires w.Power? && w.Valid() && At(s, j, w.Text())
    ensures j + 1 < j + |w.Text()| <= |s| && (s[j] == LOWER_E || s[j] == UPPER_E)
    ensures var k := if s[j + 1] == MINUS || s[j + 1] == PLUS then j + 2 else j + 1;
      && k + |w.digits| == j + |w.Text()| && At(s, k, w.digits) && DigitsEnd(s, k) >= j + |w.Text()|
      && (|s| == j + |w.Text()| ==> DigitsEnd(s, k) == |s|)
    ensures w.sign.Minus? <==> s[j + 1] == MINUS
  {
    hide DigitsEnd, At, Power.Text;
    PowerParts(s, j, w);
    var k := j + 1 + |w.sign.Text()|;
    DigitsAt(s, k, w.digits);
    SignAt(s, j + 1, w.sign);
  }

  lemma NoPowerText(m: Numeral)
    requires m.power.NoPower?
    ensures |m.Text()| == AfterFraction(m)
  {
  }

  lemma MantissaGoesOn(s: bytes, m: Numeral)
    requires m.Valid() && At(s, 0, m.Text())
    ensures 0 < AfterFraction(m) <= MantissaOf(s).1
    ensures m.power.Power? ==> AfterFraction(m) == MantissaOf(s).1
  {
    hide DigitsEnd, At, DigitsValue, Scale, Numeral.Text;
    WholeReads(s, m);
    FractionReads(s, m);
  }

  /** A numeral at the start of a text is not longer than what `strtod` consumes. */
  lemma NotLonger(s: bytes, m: Numeral)
    requires m.Valid() && At(s, 0, m.Text())
    ensures Strtod(s).1 >= |m.Text()|
  {
    hide DigitsEnd, At, DigitsValue, Scale, MantissaOf, Numeral.Text, Power.Text;
    MantissaGoesOn(s, m);
    if m.power.Power? {
      Parts(s, m);
      PowerReads(s, AfterFraction(m), m.power);
    } else {
      NoPowerText(m);
    }
  }

  lemma AtSlice(s: bytes, p: nat, t: bytes)
    requires At(s, p, t)
    ensures p + |t| <= |s| && s[p..p + |t|] == t
  {
  }

  /** The mantissa as `strtod` computes it. */
  lemma MantissaReads(m: Numeral, whole: bytes, fraction: bytes)
    requires whole == m.whole && fraction == m.fraction
    ensures Signed(m.sign.Minus?, Scale(DigitsValue(whole + fraction) as real, -|fraction|)) == m.Mantissa()
  {
    hide Scale, DigitsValue, Count, TenTo;
    CountIsDigitsValue(m.whole + m.fraction);
    ScaleIsProduct(Count(m.whole + m.fraction) as real, -|m.fraction|);
  }

  lemma ReadsMantissa(m: Numeral)
    requires m.Valid()
    ensures MantissaOf(m.Text()) == (m.Mantissa(), AfterFraction(m))
    ensures AfterFraction(m) > 0
  {
    hide DigitsEnd, At, DigitsValue, Scale, TenTo, Count, Numeral.Mantissa, Numeral.Text;
    var s := m.Text();
    AtWhole(s);
    WholeReads(s, m);
    FractionReads(s, m);
    AtSlice(s, AfterSign(m), m.whole);
    var sign, i, j := AfterSign(m), AfterWhole(m), AfterFraction(m);
    var fraction := if m.point then s[i + 1..j] else [];
    if m.point {
      AtSlice(s, i + 1, m.fraction);
    }
    MantissaReads(m, s[sign..i], fraction);
  }

  /** `strtod` on exactly a numeral reads its value. */
  lemma ReadsValue(m: Numeral)
    requires m.Valid()
    ensures Strtod(m.Text()) == (m.Value(), |m.Text()|)
  {
    hide DigitsEnd, At, DigitsValue, Scale, TenTo, Count, MantissaOf, Numeral.Mantissa, Numeral.Value, Numeral.Text;
    hide Power.Text, Sign.Text, AfterFraction;
    var s := m.Text();
    AtWhole(s);
    ReadsMantissa(m);
    Parts(s, m);
    ScaleSigned(m);
    if m.power.NoPower? {
      NoPowerText(m);
    } else {
      PowerReads(s, AfterFraction(m), m.power);
      CountIsDigitsValue(m.power.digits);
      AtSlice(s, |s| - |m.power.digits|, m.power.digits);
    }
  }

  lemma AtWhole(s: bytes)
    ensures At(s, 0, s)
  {
    assert s[0..|s|] == s;
  }

  lemma ScaleSigned(m: Numeral)
    ensures Scale(m.Mantissa(), m.power.Value()) == m.Value()
    ensures m.power.NoPower? ==> m.Mantissa() == m.Value()
  {
    hide Scale, Count, Numeral.Mantissa;
    ScaleIsProduct(m.Mantissa(), m.power.Value());
    assert TenTo(0) == 1.0;
  }

  function SignOf(b: byte): Sign {
    if b == 45 then Minus else if b == 43 then Plus else NoSign
  }

  /** Two adjacent stretches of `s` around an optional point. */
  lemma MantissaText(s: bytes, m: Numeral)
    requires m.power.NoPower? && |s| > 0 && m.sign == SignOf(s[0])
    requires AfterFraction(m) <= |s| && m.whole == s[AfterSign(m)..AfterWhole(m)]
    requires m.point ==> s[AfterWhole(m)] == 46 && m.fraction == s[AfterWhole(m) + 1..AfterFraction(m)]
    requires !m.point ==> m.fraction == []
    ensures At(s, 0, m.Text()) && |m.Text()| == AfterFraction(m)
  {
    var a, i, j := AfterSign(m), AfterWhole(m), AfterFraction(m);
    assert s[..i] == m.sign.Text() + m.whole;
    assert s[i..j] == m.PointText();
    assert s[0..j] == s[..i] + s[i..j];
  }

  lemma DigitSlice(s: bytes, i: nat)
    requires i <= |s|
    ensures AllDigits(s[i..DigitsEnd(s, i)])
  {
    hide DigitsEnd;
  }

  lemma NoDigits()
    ensures AllDigits([])
  {
  }

  /** The parts of the text the mantissa was read from. */
  lemma MantissaCases(s: bytes) returns (m: Numeral)
    requires MantissaOf(s).1 > 0
    ensures m.power.NoPower? && |s| > 0 && m.sign == SignOf(s[0])
    ensures AfterFraction(m) <= |s| && m.whole == s[AfterSign(m)..AfterWhole(m)]
    ensures m.point ==> s[AfterWhole(m)] == 46 && m.fraction == s[AfterWhole(m) + 1..AfterFraction(m)]
    ensures !m.point ==> m.fraction == []
    ensures AllDigits(m.whole) && AllDigits(m.fraction) && (m.whole != [] || m.fraction != [])
    ensures MantissaOf(s)
      == (Signed(m.sign.Minus?, Scale(DigitsValue(m.whole + m.fraction) as real, -|m.fraction|)), AfterFraction(m))
  {
    hide DigitsEnd, DigitsValue, Scale, AllDigits;
    var sign := SignOf(s[0]);
    var a := |sign.Text()|;
    var i := DigitsEnd(s, a);
    DigitSlice(s, a);
    if i < |s| && s[i] == POINT {
      DigitSlice(s, i + 1);
      m := Numeral(sign, s[a..i], true, s[i + 1..DigitsEnd(s, i + 1)], NoPower);
    } else {
      NoDigits();
      m := Numeral(sign, s[a..i], false, [], NoPower);
    }
  }

  /** The numeral without a power that the mantissa was read from. */
  lemma MantissaFound(s: bytes) returns (m: Numeral)
    requires MantissaOf(s).1 > 0
    ensures m.Valid() && m.power.NoPower?
    ensures At(s, 0, m.Text()) && |m.Text()| == MantissaOf(s).1 && m.Mantissa() == MantissaOf(s).0
  {
    hide MantissaOf, DigitsValue, Scale, Numeral.Mantissa, Numeral.Text, At, AllDigits;
    m := MantissaCases(s);
    MantissaReads(m, m.whole, m.fraction);
    MantissaText(s, m);
  }

  /** Behind the mantissa `strtod` reads a power of ten, or nothing. */
  lemma PowerCases(s: bytes)
    ensures var (number, j) := MantissaOf(s);
      if Strtod(s).1 <= j then Strtod(s) == (number, j)
      else
        && 0 < j && j + 1 < |s| && (s[j] == 101 || s[j] == 69)
        && var sign := SignOf(s[j + 1]);
           var k := j + 1 + |sign.Text()|;
           && k < Strtod(s).1 == DigitsEnd(s, k) <= |s|
           && var exponent := DigitsValue(s[k..Strtod(s).1]);
              Strtod(s).0 == Scale(number, if sign.Minus? then -exponent else exponent)
  {
    hide DigitsEnd, DigitsValue, Scale, MantissaOf;
  }

  /** The numeral that `strtod` has read. */
  lemma NumeralFound(s: bytes) returns (m: Numeral)
    requires Strtod(s).1 > 0
    ensures m.Valid() && At(s, 0, m.Text()) && Strtod(s) == (m.Value(), |m.Text()|)
  {
    hide DigitsEnd, DigitsValue, Scale, Numeral.Mantissa, Numeral.Value, Count, MantissaOf, At, Numeral.Text, Strtod;
    hide Numeral.Valid;
    PowerCases(s);
    m := MantissaFound(s);
    var j, e := MantissaOf(s).1, Strtod(s).1;
    if e > j {
      var sign := SignOf(s[j + 1]);
      var k := j + 1 + |sign.Text()|;
      var power := Power(s[j], sign, s[k..e]);
      CountIsDigitsValue(s[k..e]);
      PowerAt(s, j, power, e);
      WithPower(s, m, power);
      m := m.(power := power);
    }
    ScaleSigned(m);
  }

  lemma PowerAt(s: bytes, j: nat, power: Power, e: nat)
    requires power.Power? && j + 1 < e <= |s| && power.marker == s[j] && power.sign == SignOf(s[j + 1])
    requires var k := j + 1 + |power.sign.Text()|; k <= e && power.digits == s[k..e]
    ensures At(s, j, power.Text()) && j + |power.Text()| == e
  {
    assert s[j..e] == [s[j]] + power.sign.Text() + power.digits;
  }

  lemma WithPower(s: bytes, m: Numeral, power: Power)
    requires m.Valid() && power.Valid() && m.power.NoPower? && At(s, 0, m.Text()) && At(s, |m.Text()|, power.Text())
    ensures At(s, 0, m.(power := power).Text()) && |m.(power := power).Text()| == |m.Text()| + |power.Text()|
    ensures m.(power := power).Valid() && m.(power := power).Mantissa() == m.Mantissa()
  {
    AtSplit(s, 0, m.Text(), power.Text());
    assert m.(power := power).Text() == m.Text() + power.Text();
  }

  // ----- Numbers

  /** `m` stands at `o`, at most 63 bytes long, and no longer numeral of at most 63 bytes does. */
  ghost predicate Longest(c: bytes, o: nat, m: Numeral) {
    && m.Valid() && At(c, o, m.Text()) && |m.Text()| <= 63
    && forall l: Numeral :: l.Valid() && At(c, o, l.Text()) && |l.Text()| <= 63 ==> |l.Text()| <= |m.Text()|
  }

  lemma {:induction false} CopiesAtLeast(c: bytes, o: nat, i: nat, n: nat)
    requires i <= n <= 63 && o + n <= |c| && forall k :: o + i <= k < o + n ==> IsNumberByte(c[k])
    ensures CopyLength(c, o, i) >= n
    decreases n - i
  {
    if i < n {
      CopiesAtLeast(c, o, i + 1, n);
    }
  }

  lemma NumeralBytes(m: Numeral)
    requires m.Valid()
    ensures forall i :: 0 <= i < |m.Text()| ==> IsNumberByte(m.Text()[i])
  {
    assert forall b: byte :: 48 <= b <= 57 ==> IsNumberByte(b);
  }

  /** The numerals that stand at `o` are those at the start of what is copied. */
  lemma InWindow(c: bytes, o: nat, m: Numeral)
    requires o <= |c| && m.Valid()
    ensures At(c, o, m.Text()) && |m.Text()| <= 63 <==> At(c[o..o + CopyLength(c, o, 0)], 0, m.Text())
  {
    hide CopyLength, Numeral.Text, IsNumberByte, Numeral.Valid;
    var n, t := CopyLength(c, o, 0), m.Text();
    var w := c[o..o + n];
    if At(c, o, t) && |t| <= 63 {
      NumeralBytes(m);
      forall k | o <= k < o + |t| ensures IsNumberByte(c[k]) {
        AtIndex(c, o, t, k - o);
      }
      CopiesAtLeast(c, o, 0, |t|);
      assert w[..|t|] == c[o..o + |t|];
    }
    if At(w, 0, t) {
      assert w[..|t|] == c[o..o + |t|];
    }
  }

  /** Whatever longest numeral stands at `o` is read. */
  lemma NumberAccepted(c: bytes, o: nat, m: Numeral)
    requires o <= |c| && Longest(c, o, m)
    ensures NumberAt(c, o) == Done(Number(m.Value()), o + |m.Text()|)
  {
    hide CopyLength, Strtod, At, Numeral.Text, Numeral.Valid, Numeral.Value;
    var w := c[o..o + CopyLength(c, o, 0)];
    InWindow(c, o, m);
    NotLonger(w, m);
    NotEmpty(m);
    var l := NumeralFound(w);
    InWindow(c, o, l);
    AtSlice(w, 0, m.Text());
    AtSlice(w, 0, l.Text());
    ReadsValue(m);
    ReadsValue(l);
    NumberFrom(c, o, CopyLength(c, o, 0));
  }

  lemma NotEmpty(m: Numeral)
    requires m.Valid()
    ensures m.Text() != []
  {
  }

  /** Every number read is the longest numeral at its place. */
  lemma NumberFound(c: bytes, o: nat) returns (m: Numeral)
    requires o <= |c| && NumberAt(c, o).Done?
    ensures Longest(c, o, m) && NumberAt(c, o) == Done(Number(m.Value()), o + |m.Text()|)
  {
    hide CopyLength, Strtod, At, Numeral.Text, Numeral.Valid, Numeral.Value;
    var w := c[o..o + CopyLength(c, o, 0)];
    NumberFrom(c, o, CopyLength(c, o, 0));
    m := NumeralFound(w);
    InWindow(c, o, m);
    forall l: Numeral | l.Valid() && At(c, o, l.Text()) && |l.Text()| <= 63 ensures |l.Text()| <= |m.Text()| {
      InWindow(c, o, l);
      NotLonger(w, l);
    }
  }

  /** A number `x` is read from `o` to `e` exactly when the longest numeral of at most 63 bytes at `o` is worth `x`. */
  lemma NumberIff(c: bytes, o: nat, x: real, e: nat)
    requires o <= |c|
    ensures NumberAt(c, o) == Done(Number(x), e)
      <==> exists m: Numeral :: Longest(c, o, m) && m.Value() == x && o + |m.Text()| == e
  {
    hide NumberAt, Longest, Numeral.Text, Numeral.Value;
    if NumberAt(c, o) == Done(Number(x), e) {
      var m := NumberFound(c, o);
    }
    forall m: Numeral | Longest(c, o, m) ensures NumberAt(c, o) == Done(Number(m.Value()), o + |m.Text()|) {
      NumberAccepted(c, o, m);
    }
  }
}

/** String literals of JSON text: how they are escaped, sized and unescaped. */
module JsonStrings {
  import opened JsonTree

  datatype Option<+T> = None | Some(value: T)

  // ----- Escaping, as the printer does it

  function HexDigit(n: nat): (b: byte)
    requires n < 16
  {
    if n < 10 then ZERO + n else LOWER_A + (n - 10)
  }

  function EscapeByte(b: byte): bytes {
    if b == QUOTE || b == BACKSLASH then [BACKSLASH, b]
    else if b == BACKSPACE then [BACKSLASH, LOWER_B]
    else if b == FORM_FEED then [BACKSLASH, LOWER_F]
    else if b == LINE_FEED then [BACKSLASH, LOWER_N]
    else if b == RETURN then [BACKSLASH, LOWER_R]
    else if b == TAB then [BACKSLASH, LOWER_T]
    else if b < 32 then [BACKSLASH, LOWER_U, ZERO, ZERO, HexDigit(b / 16), HexDigit(b % 16)]
    else [b]
  }

  function Escape(s: bytes): bytes {
    if s == [] then [] else EscapeByte(s[0]) + Escape(s[1..])
  }

  function Quoted(s: bytes): bytes {
    [QUOTE] + Escape(s) + [QUOTE]
  }

  // ----- Unescaping, as the parser does it

  predicate IsHexDigit(b: byte) {
    ZERO <= b <= NINE || UPPER_A <= b <= UPPER_F || LOWER_A <= b <= LOWER_F
  }

  function HexValue(b: byte): (v: nat)
    requires IsHexDigit(b)
    ensures v < 16
  {
    if b <= NINE then b - ZERO else if b <= UPPER_F then 10 + (b - UPPER_A) else 10 + (b - LOWER_A)
  }

  /** The number of four hexadecimal digits, and 0 when one of them is not a digit. */
  function Hex4(c: bytes, i: nat): (h: nat)
    requires i + 4 <= |c|
    ensures h < 0x1_0000
  {
    if IsHexDigit(c[i]) && IsHexDigit(c[i + 1]) && IsHexDigit(c[i + 2]) && IsHexDigit(c[i + 3]) then
      HexValue(c[i]) * 4096 + HexValue(c[i + 1]) * 256 + HexValue(c[i + 2]) * 16 + HexValue(c[i + 3])
    else 0
  }

  function UpperDigit(n: nat): int
    requires n < 16
  {
    "0123456789ABCDEF"[n] as int
  }

  function LowerDigit(n: nat): int
    requires n < 16
  {
    "0123456789abcdef"[n] as int
  }

  /** Byte `d` is digit number `n`, in upper or lower case. */
  predicate Spelt(d: byte, n: nat) {
    n < 16 && (d == UpperDigit(n) || d == LowerDigit(n))
  }

  lemma DigitTables(n: nat)
    requires n < 16
    ensures UpperDigit(n) == if n < 10 then 48 + n else 55 + n
    ensures LowerDigit(n) == if n < 10 then 48 + n else 87 + n
  {
    assert UpperDigit(0) == 48 && UpperDigit(1) == 49 && UpperDigit(2) == 50 && UpperDigit(3) == 51;
    assert UpperDigit(4) == 52 && UpperDigit(5) == 53 && UpperDigit(6) == 54 && UpperDigit(7) == 55;
    assert UpperDigit(8) == 56 && UpperDigit(9) == 57 && UpperDigit(10) == 65 && UpperDigit(11) == 66;
    assert UpperDigit(12) == 67 && UpperDigit(13) == 68 && UpperDigit(14) == 69 && UpperDigit(15) == 70;
    assert LowerDigit(0) == 48 && LowerDigit(1) == 49 && LowerDigit(2) == 50 && LowerDigit(3) == 51;
    assert LowerDigit(4) == 52 && LowerDigit(5) == 53 && LowerDigit(6) == 54 && LowerDigit(7) == 55;
    assert LowerDigit(8) == 56 && LowerDigit(9) == 57 && LowerDigit(10) == 97 && LowerDigit(11) == 98;
    assert LowerDigit(12) == 99 && LowerDigit(13) == 100 && LowerDigit(14) == 101 && LowerDigit(15) == 102;
  }

  /** The digits are those of the two tables and no other bytes, and each is worth its place. */
  lemma HexDigits(d: byte)
    ensures IsHexDigit(d) <==> exists n :: Spelt(d, n)
    ensures forall n :: Spelt(d, n) ==> IsHexDigit(d) && HexValue(d) == n
  {
    hide UpperDigit, LowerDigit;
    forall n: nat | n < 16
      ensures UpperDigit(n) == (if n < 10 then 48 + n else 55 + n)
      ensures LowerDigit(n) == (if n < 10 then 48 + n else 87 + n)
    {
      DigitTables(n);
    }
    if IsHexDigit(d) {
      assert Spelt(d, HexValue(d));
    }
  }

  /** Four digits of the tables are worth their number in base 16; four bytes of which one is not a digit, 0. */
  lemma Hex4Means(c: bytes, i: nat, n0: nat, n1: nat, n2: nat, n3: nat)
    requires i + 4 <= |c|
    ensures Spelt(c[i], n0) && Spelt(c[i + 1], n1) && Spelt(c[i + 2], n2) && Spelt(c[i + 3], n3) ==>
      Hex4(c, i) == ((n0 * 16 + n1) * 16 + n2) * 16 + n3
    ensures (exists k :: i <= k < i + 4 && forall n :: !Spelt(c[k], n)) ==> Hex4(c, i) == 0
  {
    hide Spelt, HexValue, IsHexDigit;
    HexDigits(c[i]);
    HexDigits(c[i + 1]);
    HexDigits(c[i + 2]);
    HexDigits(c[i + 3]);
  }

  /** The UTF-8 form of a code point, section 3 of RFC 3629. */
  function Utf8(cp: nat): (r: bytes)
    requires cp <= 0x10_FFFF
  {
    if cp < 0x80 then [cp]
    else if cp < 0x800 then [0xC0 + cp / 64, 0x80 + cp % 64]
    else if cp < 0x1_0000 then [0xE0 + cp / 64 / 64, 0x80 + cp / 64 % 64, 0x80 + cp % 64]
    else [0xF0 + cp / 64 / 64 / 64, 0x80 + cp / 64 / 64 % 64, 0x80 + cp / 64 % 64, 0x80 + cp % 64]
  }

  predicate IsHigh(u: nat) {
    0xD800 <= u <= 0xDBFF
  }

  predicate IsLow(u: nat) {
    0xDC00 <= u <= 0xDFFF
  }

  function Combine(high: nat, low: nat): (cp: nat)
    requires IsHigh(high) && IsLow(low)
    ensures 0x1_0000 <= cp <= 0x10_FFFF
  {
    0x1_0000 + (high - 0xD800) * 0x400 + (low - 0xDC00)
  }

  datatype Literal = Bad | Literal(codepoint: nat, length: nat)

  /** A `\uXXXX` escape, or a surrogate pair of them, at `p`; the text of the string ends at `e`. */
  function Utf16Literal(c: bytes, p: nat, e: nat): (l: Literal)
    requires p <= e <= |c|
    ensures l.Literal? ==> l.codepoint <= 0x10_FFFF && (l.length == 6 || l.length == 12) && p + l.length <= e
    ensures l.Literal? ==> |Utf8(l.codepoint)| <= if l.length == 6 then 3 else 4
  {
    if e - p < 6 then Bad
    else
      var first := Hex4(c, p + 2);
      if IsLow(first) then Bad
      else if IsHigh(first) then
        if e - (p + 6) < 6 || c[p + 6] != BACKSLASH || c[p + 7] != LOWER_U then Bad
        else
          var second := Hex4(c, p + 8);
          if IsLow(second) then Literal(Combine(first, second), 12) else Bad
      else Literal(first, 6)
  }

  /** Where the sizing pass from `i` meets the closing quote. */
  function StringEnd(c: bytes, i: nat): (e: Option<nat>)
    requires i <= |c|
    ensures e.Some? ==> i <= e.value < |c| && c[e.value] == QUOTE
    decreases |c| - i
  {
    if i == |c| then None
    else if c[i] == QUOTE then Some(i)
    else if c[i] != BACKSLASH then StringEnd(c, i + 1)
    else if i + 1 == |c| then None
    else StringEnd(c, i + 2)
  }

  function Unshort(letter: byte): Option<byte> {
    if letter == LOWER_B then Some(BACKSPACE)
    else if letter == LOWER_F then Some(FORM_FEED)
    else if letter == LOWER_N then Some(LINE_FEED)
    else if letter == LOWER_R then Some(RETURN)
    else if letter == LOWER_T then Some(TAB)
    else if letter == QUOTE || letter == BACKSLASH || letter == SLASH then Some(letter)
    else None
  }

  const SHORT_LETTERS := "\"\\/bfnrt"
  const SHORT_BYTES := [34, 92, 47, 8, 12, 10, 13, 9]

  /** The letters behind a backslash and the bytes they stand for; no other byte but `u` may stand there. */
  lemma ShortEscapes(letter: byte)
    ensures |SHORT_LETTERS| == |SHORT_BYTES| == 8
    ensures forall i :: 0 <= i < 8 && letter == SHORT_LETTERS[i] as int ==> Unshort(letter) == Some(SHORT_BYTES[i])
    ensures (forall i :: 0 <= i < 8 ==> letter != SHORT_LETTERS[i] as int) ==> Unshort(letter).None?
  {
    assert SHORT_LETTERS[0] as int == 34 && SHORT_LETTERS[1] as int == 92 && SHORT_LETTERS[2] as int == 47;
    assert SHORT_LETTERS[3] as int == 98 && SHORT_LETTERS[4] as int == 102 && SHORT_LETTERS[5] as int == 110;
    assert SHORT_LETTERS[6] as int == 114 && SHORT_LETTERS[7] as int == 116;
  }

  function Prepend(a: bytes, rest: Option<bytes>): (r: Option<bytes>)
    ensures r.Some? <==> rest.Some?
  {
    if rest.Some? then Some(a + rest.value) else None
  }

  /** What the unescaping pass from `p` writes, for a string whose closing quote is at `e`. */
  function Unescape(c: bytes, p: nat, e: nat): Option<bytes>
    requires p <= e + 1 && e < |c|
    decreases e + 1 - p
  {
    if p >= e then Some([])
    else if c[p] != BACKSLASH then Prepend([c[p]], Unescape(c, p + 1, e))
    else if c[p + 1] == LOWER_U then
      var l := Utf16Literal(c, p, e);
      if l.Bad? then None else Prepend(Utf8(l.codepoint), Unescape(c, p + l.length, e))
    else
      var s := Unshort(c[p + 1]);
      if s.None? then None else Prepend([s.value], Unescape(c, p + 2, e))
  }

  /** The C string at the start of a buffer: the bytes before its first zero. */
  function CString(s: bytes): (r: cstring)
    ensures |r| <= |s| && r == s[..|r|]
    ensures |r| < |s| ==> s[|r|] == 0
  {
    if s == [] || s[0] == 0 then [] else [s[0]] + CString(s[1..])
  }

  lemma {:induction false} CStringOfCString(s: cstring)
    ensures CString(s) == s
  {
    if s != [] {
      assert s[0] in s;
      assert 0 !in s[1..];
      CStringOfCString(s[1..]);
    }
  }

  datatype Parsed<+T> = Fail | Done(value: T, offset: nat)

  /** The string literal at `o`: the C string it denotes and the offset after its closing quote. */
  function StringAt(c: bytes, o: nat): (r: Parsed<cstring>)
    requires o < |c|
    ensures r.Done? ==> o < r.offset <= |c|
  {
    if c[o] != QUOTE then Fail
    else
      var e := StringEnd(c, o + 1);
      if e.None? then Fail
      else
        var s := Unescape(c, o + 1, e.value);
        if s.None? then Fail else Done(CString(s.value), e.value + 1)
  }

  // ----- The pieces of a string literal

  type rawbyte = b: byte | b != BACKSLASH witness 32
  type shortletter = b: byte | Unshort(b).Some? witness 98

  // A literal as the unescaping pass reads it: the four bytes of a `\u` escape may be any.
  datatype Piece =
    | Raw(b: rawbyte)
    | Short(letter: shortletter)
    | Hex(d0: byte, d1: byte, d2: byte, d3: byte)
  {
    function Text(): bytes {
      match this
      case Raw(b) => [b]
      case Short(letter) => [BACKSLASH, letter]
      case Hex(d0, d1, d2, d3) => [BACKSLASH, LOWER_U, d0, d1, d2, d3]
    }

    /** The UTF-16 code unit of a `\uXXXX` escape. */
    function Unit(): (u: nat)
      requires Hex?
      ensures u < 0x1_0000
    {
      Hex4([d0, d1, d2, d3], 0)
    }

    /** A piece of the grammar of section 7 of RFC 8259, control characters apart. */
    predicate Proper() {
      match this
      case Raw(b) => b != QUOTE
      case Short(_) => true
      case Hex(d0, d1, d2, d3) => IsHexDigit(d0) && IsHexDigit(d1) && IsHexDigit(d2) && IsHexDigit(d3)
    }

    predicate HighUnit() {
      Hex? && IsHigh(Unit())
    }

    predicate LowUnit() {
      Hex? && IsLow(Unit())
    }
  }

  function TextOf(ps: seq<Piece>): bytes {
    if ps == [] then [] else ps[0].Text() + TextOf(ps[1..])
  }

  predicate AllProper(ps: seq<Piece>) {
    ps == [] || (ps[0].Proper() && AllProper(ps[1..]))
  }

  /** The bytes a sequence of pieces denotes; surrogates must come in pairs. */
  function Meaning(ps: seq<Piece>): Option<bytes> {
    if ps == [] then Some([])
    else if ps[0].Raw? then Prepend([ps[0].b], Meaning(ps[1..]))
    else if ps[0].Short? then Prepend([Unshort(ps[0].letter).value], Meaning(ps[1..]))
    else if ps[0].LowUnit() then None
    else if !ps[0].HighUnit() then Prepend(Utf8(ps[0].Unit()), Meaning(ps[1..]))
    else if |ps| > 1 && ps[1].LowUnit() then
      Prepend(Utf8(Combine(ps[0].Unit(), ps[1].Unit())), Meaning(ps[2..]))
    else None
  }

  /** Every high surrogate is followed by a low one and every low one follows a high one. */
  ghost predicate Paired(ps: seq<Piece>) {
    && (forall i {:trigger ps[i]} :: 0 <= i < |ps| && ps[i].HighUnit() ==> i + 1 < |ps| && ps[i + 1].LowUnit())
    && (forall i {:trigger ps[i]} :: 0 <= i < |ps| && ps[i].LowUnit() ==> i > 0 && ps[i - 1].HighUnit())
  }

  lemma {:induction false} MeaningIffPaired(ps: seq<Piece>)
    ensures Meaning(ps).Some? <==> Paired(ps)
  {
    if ps != [] && !ps[0].LowUnit() {
      if ps[0].HighUnit() {
        if |ps| > 1 && ps[1].LowUnit() {
          MeaningIffPaired(ps[2..]);
          PairedDrop(ps, 2);
        }
      } else {
        MeaningIffPaired(ps[1..]);
        PairedDrop(ps, 1);
      }
    }
  }

  lemma PairedDrop(ps: seq<Piece>, n: nat)
    requires 1 <= n <= 2 && n <= |ps|
    requires if n == 1 then !ps[0].HighUnit() && !ps[0].LowUnit() else ps[0].HighUnit() && ps[1].LowUnit()
    ensures Paired(ps) <==> Paired(ps[n..])
  {
    hide Hex4;
    var qs := ps[n..];
    assert forall i :: 0 <= i < |qs| ==> qs[i] == ps[i + n];
    if Paired(ps) {
      forall i | 0 <= i < |qs| && qs[i].LowUnit()
        ensures i > 0 && qs[i - 1].HighUnit()
      {
        assert ps[i + n].LowUnit();
      }
    }
    if Paired(qs) {
      forall i | 0 <= i < |ps| && ps[i].HighUnit()
        ensures i + 1 < |ps| && ps[i + 1].LowUnit()
      {
        if i >= n { assert qs[i - n].HighUnit(); }
      }
      forall i | 0 <= i < |ps| && ps[i].LowUnit()
        ensures i > 0 && ps[i - 1].HighUnit()
      {
        if i >= n { assert qs[i - n].LowUnit(); }
      }
    }
  }

  // ----- The parser reads exactly that grammar

  /** Text `t` stands in `c` at offset `p`. */
  ghost predicate At(c: bytes, p: nat, t: bytes) {
    p + |t| <= |c| && c[p..p + |t|] == t
  }

  lemma AtSplit(c: bytes, p: nat, a: bytes, b: bytes)
    ensures At(c, p, a + b) <==> At(c, p, a) && At(c, p + |a|, b)
  {
    if At(c, p, a + b) {
      assert c[p..p + |a|] == (a + b)[..|a|];
      assert c[p + |a|..p + |a| + |b|] == (a + b)[|a|..];
    }
    if At(c, p, a) && At(c, p + |a|, b) {
      assert c[p..p + |a + b|] == c[p..p + |a|] + c[p + |a|..p + |a| + |b|];
    }
  }

  lemma AtIndex(c: bytes, p: nat, t: bytes, i: nat)
    requires At(c, p, t) && i < |t|
    ensures c[p + i] == t[i]
  {
    assert c[p..p + |t|][i] == c[p + i];
  }

  lemma PieceAt(c: bytes, p: nat, ps: seq<Piece>)
    requires ps != [] && At(c, p, TextOf(ps))
    ensures var t := ps[0].Text();
      && p + |t| <= |c|
      && At(c, p + |t|, TextOf(ps[1..]))
      && (forall i :: 0 <= i < |t| ==> c[p + i] == t[i])
  {
    var t := ps[0].Text();
    AtSplit(c, p, t, TextOf(ps[1..]));
    forall i | 0 <= i < |t| ensures c[p + i] == t[i] {
      AtIndex(c, p, t, i);
    }
  }

  lemma HexAt(c: bytes, p: nat, ps: seq<Piece>)
    requires ps != [] && ps[0].Hex? && At(c, p, TextOf(ps))
    ensures p + 6 <= |c| && c[p] == BACKSLASH && c[p + 1] == LOWER_U
    ensures ps[0].Proper() ==> forall i :: p + 2 <= i < p + 6 ==> c[i] != QUOTE && c[i] != BACKSLASH
    ensures Hex4(c, p + 2) == ps[0].Unit()
  {
    PieceAt(c, p, ps);
    var t := ps[0].Text();
    assert c[p + 1] == t[1] && c[p + 2] == t[2] && c[p + 3] == t[3] && c[p + 4] == t[4] && c[p + 5] == t[5];
  }

  lemma EndPastPiece(c: bytes, p: nat, ps: seq<Piece>)
    requires ps != [] && At(c, p, TextOf(ps)) && ps[0].Proper()
    ensures p + |ps[0].Text()| <= |c| && StringEnd(c, p) == StringEnd(c, p + |ps[0].Text()|)
  {
    if ps[0].Hex? {
      HexAt(c, p, ps);
      StringEndStep(c, p + 2);
      StringEndStep(c, p + 3);
      StringEndStep(c, p + 4);
      StringEndStep(c, p + 5);
    } else {
      PieceAt(c, p, ps);
    }
  }

  lemma StringEndStep(c: bytes, i: nat)
    requires i < |c| && c[i] != QUOTE && c[i] != BACKSLASH
    ensures StringEnd(c, i) == StringEnd(c, i + 1)
  {
  }

  lemma {:induction false} EndOfPieces(c: bytes, p: nat, ps: seq<Piece>)
    requires At(c, p, TextOf(ps)) && p + |TextOf(ps)| < |c| && c[p + |TextOf(ps)|] == QUOTE && AllProper(ps)
    ensures StringEnd(c, p) == Some(p + |TextOf(ps)|)
    decreases |ps|
  {
    if ps != [] {
      AtSplit(c, p, ps[0].Text(), TextOf(ps[1..]));
      EndPastPiece(c, p, ps);
      EndOfPieces(c, p + |ps[0].Text()|, ps[1..]);
    }
  }

  /** What a piece other than a high surrogate adds. */
  function Single(piece: Piece): bytes
    requires !piece.HighUnit()
  {
    match piece
    case Raw(b) => [b]
    case Short(letter) => [Unshort(letter).value]
    case Hex(_, _, _, _) => Utf8(piece.Unit())
  }

  /** Reading pieces from `p` stops at `e`, or one byte behind it with an escape that takes in the byte at `e`. */
  predicate Reaches(ps: seq<Piece>, p: nat, e: nat) {
    var end := p + |TextOf(ps)|;
    end == e || (end == e + 1 && (ps == [] || ps[|ps| - 1] == Short(QUOTE)))
  }

  lemma {:induction false} ReachesOn(ps: seq<Piece>, p: nat, e: nat)
    requires ps != [] && Reaches(ps, p, e)
    ensures var n := |ps[0].Text()|; p < e && p + n <= e + 1 && Reaches(ps[1..], p + n, e)
    ensures ps[0].Hex? ==> p + 6 <= e
  {
    if |ps| > 1 {
      assert ps[1..][|ps| - 2] == ps[|ps| - 1];
      LastText(ps[1..]);
    }
  }

  lemma {:induction false} LastText(ps: seq<Piece>)
    requires ps != []
    ensures |TextOf(ps)| >= |ps[|ps| - 1].Text()|
  {
    if |ps| > 1 {
      LastText(ps[1..]);
    }
  }

  lemma UnescapePastPiece(c: bytes, p: nat, ps: seq<Piece>, e: nat)
    requires ps != [] && !ps[0].HighUnit()
    requires At(c, p, TextOf(ps)) && Reaches(ps, p, e) && e < |c|
    ensures p + |ps[0].Text()| <= e + 1
    ensures Unescape(c, p, e) ==
      if ps[0].LowUnit() then None else Prepend(Single(ps[0]), Unescape(c, p + |ps[0].Text()|, e))
  {
    hide TextOf, At, Reaches, Hex4;
    ReachesOn(ps, p, e);
    if ps[0].Hex? {
      HexAt(c, p, ps);
      HexStep(c, p, e);
    } else {
      PieceAt(c, p, ps);
      var t := ps[0].Text();
      assert c[p + 0] == t[0] && (ps[0].Short? ==> c[p + 1] == t[1]);
    }
  }

  /** Reading an escape other than a high surrogate. */
  lemma HexStep(c: bytes, p: nat, e: nat)
    requires p + 6 <= e < |c| && c[p] == BACKSLASH && c[p + 1] == LOWER_U && !IsHigh(Hex4(c, p + 2))
    ensures Unescape(c, p, e) ==
      if IsLow(Hex4(c, p + 2)) then None else Prepend(Utf8(Hex4(c, p + 2)), Unescape(c, p + 6, e))
  {
    hide Hex4, Utf8;
  }

  lemma NothingLeft(p: nat, e: nat)
    requires Reaches([], p, e)
    ensures e <= p <= e + 1
  {
  }

  lemma {:induction false} UnescapePieces(c: bytes, p: nat, ps: seq<Piece>, e: nat)
    requires At(c, p, TextOf(ps)) && Reaches(ps, p, e) && e < |c| && c[e] == QUOTE
    ensures p <= e + 1 && Unescape(c, p, e) == Meaning(ps)
    decreases |ps|
  {
    hide Reaches, At, TextOf;
    if ps == [] {
      NothingLeft(p, e);
    } else if ps[0].HighUnit() {
      HexAt(c, p, ps);
      PairAt(c, p, ps, e);
      ReachesOn(ps, p, e);
      if |ps| > 1 && ps[1].LowUnit() {
        UnescapePieces(c, p + 12, ps[2..], e);
      }
    } else {
      ReachesOn(ps, p, e);
      PieceAt(c, p, ps);
      UnescapePastPiece(c, p, ps, e);
      UnescapePieces(c, p + |ps[0].Text()|, ps[1..], e);
    }
  }

  lemma NoEscape(c: bytes, p: nat, ps: seq<Piece>)
    requires ps != [] && At(c, p, TextOf(ps)) && !ps[0].Hex?
    ensures p < |c| && (c[p] == BACKSLASH ==> p + 1 < |c| && c[p + 1] != LOWER_U)
  {
    PieceAt(c, p, ps);
    var t := ps[0].Text();
    assert c[p + 0] == t[0];
    assert |t| == 2 ==> c[p + 1] == t[1];
  }

  /** What the parser sees after a high surrogate. */
  lemma PairAt(c: bytes, p: nat, ps: seq<Piece>, e: nat)
    requires At(c, p, TextOf(ps)) && Reaches(ps, p, e) && e < |c| && c[e] == QUOTE
    requires ps != [] && ps[0].HighUnit() && Hex4(c, p + 2) == ps[0].Unit()
    ensures p <= e
    ensures Utf16Literal(c, p, e) ==
      if |ps| > 1 && ps[1].LowUnit() then Literal(Combine(ps[0].Unit(), ps[1].Unit()), 12) else Bad
    ensures |ps| > 1 && ps[1].LowUnit() ==>
      Reaches(ps[2..], p + 12, e) && At(c, p + 12, TextOf(ps[2..]))
  {
    hide Hex4, TextOf, At, Reaches;
    ReachesOn(ps, p, e);
    PieceAt(c, p, ps);
    var rest := ps[1..];
    if rest == [] {
      NothingLeft(p + 6, e);
    } else {
      PieceAt(c, p + 6, rest);
      ReachesOn(rest, p + 6, e);
      if rest[0].Hex? {
        HexAt(c, p + 6, rest);
      } else {
        NoEscape(c, p + 6, rest);
      }
      assert rest[1..] == ps[2..];
    }
  }

  /** Every literal of proper pieces is accepted exactly when its surrogates are paired, and read as its meaning. */
  lemma StringLiteral(c: bytes, o: nat, ps: seq<Piece>)
    requires At(c, o, [QUOTE] + TextOf(ps) + [QUOTE]) && AllProper(ps)
    ensures StringAt(c, o).Done? <==> Paired(ps)
    ensures Paired(ps) ==> Meaning(ps).Some? && StringAt(c, o).Done?
    ensures Paired(ps) ==> StringAt(c, o) == Done(CString(Meaning(ps).value), o + |TextOf(ps)| + 2)
  {
    hide TextOf, Meaning, Paired, StringEnd, Unescape, CString;
    AtSplit(c, o, [QUOTE] + TextOf(ps), [QUOTE]);
    AtSplit(c, o, [QUOTE], TextOf(ps));
    AtIndex(c, o, [QUOTE], 0);
    AtIndex(c, o + 1 + |TextOf(ps)|, [QUOTE], 0);
    EndOfPieces(c, o + 1, ps);
    UnescapePieces(c, o + 1, ps, o + 1 + |TextOf(ps)|);
    MeaningIffPaired(ps);
  }

  // ----- Unicode text

  // A Unicode scalar value: a code point that is not a surrogate.
  type scalar = n: nat | n <= 0x10_FFFF && !IsHigh(n) && !IsLow(n)

  function Utf8Of(ss: seq<scalar>): bytes {
    if ss == [] then [] else Utf8(ss[0]) + Utf8Of(ss[1..])
  }

  function HighOf(cp: nat): nat
    requires cp >= 0x1_0000
  {
    0xD800 + (cp - 0x1_0000) / 0x400
  }

  function LowOf(cp: nat): nat
    requires cp >= 0x1_0000
  {
    0xDC00 + (cp - 0x1_0000) % 0x400
  }

  /** `piece` is `\uXXXX` with the four digits of `u`, each in upper or lower case. */
  predicate EscapeOf(piece: Piece, u: nat) {
    && piece.Hex? && u < 0x1_0000
    && Spelt(piece.d0, u / 4096) && Spelt(piece.d1, u / 256 % 16)
    && Spelt(piece.d2, u / 16 % 16) && Spelt(piece.d3, u % 16)
  }

  lemma Base16(u: nat)
    requires u < 0x1_0000
    ensures ((u / 4096 * 16 + u / 256 % 16) * 16 + u / 16 % 16) * 16 + u % 16 == u
  {
    assert u / 4096 == u / 256 / 16 && u / 256 == u / 16 / 16;
  }

  lemma EscapeMeans(piece: Piece, u: nat)
    requires EscapeOf(piece, u)
    ensures piece.Hex? && piece.Unit() == u && piece.Proper()
  {
    hide Hex4, Spelt, IsHexDigit, HexValue;
    var n0, n1, n2, n3 := u / 4096, u / 256 % 16, u / 16 % 16, u % 16;
    Base16(u);
    Hex4Means([piece.d0, piece.d1, piece.d2, piece.d3], 0, n0, n1, n2, n3);
    HexDigits(piece.d0);
    HexDigits(piece.d1);
    HexDigits(piece.d2);
    HexDigits(piece.d3);
  }

  /** `ps` spells `ss`, each value as one `\uXXXX` or as a surrogate pair of them. */
  ghost predicate Spells(ps: seq<Piece>, ss: seq<scalar>) {
    if ss == [] then ps == []
    else if ss[0] < 0x1_0000 then
      && ps != [] && EscapeOf(ps[0], ss[0]) && Spells(ps[1..], ss[1..])
    else
      && |ps| > 1 && EscapeOf(ps[0], HighOf(ss[0])) && EscapeOf(ps[1], LowOf(ss[0])) && Spells(ps[2..], ss[1..])
  }

  /** Escaped Unicode text means its UTF-8 form. */
  lemma {:induction false} EscapedUnicode(ps: seq<Piece>, ss: seq<scalar>)
    requires Spells(ps, ss)
    ensures Meaning(ps) == Some(Utf8Of(ss)) && AllProper(ps)
    decreases ss
  {
    hide EscapeOf;
    if ss != [] {
      if ss[0] < 0x1_0000 {
        EscapeMeans(ps[0], ss[0]);
        EscapedUnicode(ps[1..], ss[1..]);
      } else {
        EscapeMeans(ps[0], HighOf(ss[0]));
        EscapeMeans(ps[1], LowOf(ss[0]));
        EscapedUnicode(ps[2..], ss[1..]);
      }
    }
  }

  function Join(high: nat, b: byte): nat {
    high * 64 + b % 64
  }

  /** The code point a UTF-8 sequence stands for, read off its payload bits (section 3 of RFC 3629). */
  function FromUtf8(t: bytes): nat {
    match |t|
    case 1 => t[0]
    case 2 => Join(t[0] % 32, t[1])
    case 3 => Join(Join(t[0] % 16, t[1]), t[2])
    case 4 => Join(Join(Join(t[0] % 8, t[1]), t[2]), t[3])
    case _ => 0
  }

  /** UTF-8 keeps the code point. */
  lemma Utf8Inverse(cp: nat)
    requires cp <= 0x10_FFFF
    ensures FromUtf8(Utf8(cp)) == cp
  {
    JoinBack(cp);
    JoinBack(cp / 64);
    JoinBack(cp / 64 / 64);
    if cp < 0x80 {
    } else if cp < 0x800 {
      assert (0xC0 + cp / 64) % 32 == cp / 64;
    } else if cp < 0x1_0000 {
      assert (0xE0 + cp / 64 / 64) % 16 == cp / 64 / 64;
    } else {
      assert (0xF0 + cp / 64 / 64 / 64) % 8 == cp / 64 / 64 / 64;
    }
  }

  lemma JoinBack(cp: nat)
    ensures Join(cp / 64, 0x80 + cp % 64) == cp
  {
  }

  /** The shortest form: the first byte alone announces the length, and only continuation bytes follow it. */
  lemma Utf8Shape(cp: nat)
    requires cp <= 0x10_FFFF
    ensures var t := Utf8(cp);
      && |t| == (if t[0] < 0x80 then 1 else if t[0] < 0xE0 then 2 else if t[0] < 0xF0 then 3 else 4)
      && |t| == (if cp < 0x80 then 1 else if cp < 0x800 then 2 else if cp < 0x1_0000 then 3 else 4)
      && (|t| > 1 ==> 0xC0 <= t[0])
      && (forall i :: 1 <= i < |t| ==> 0x80 <= t[i] < 0xC0)
  {
  }

  /** What the printer writes for each byte: a short escape, `\u00` and two lower-case digits, or the byte. */
  lemma EscapeTable(b: byte)
    ensures EscapeByte(b)
      == match b
         case 34 => [92, 34]
         case 92 => [92, 92]
         case 8 => [92, 98]
         case 12 => [92, 102]
         case 10 => [92, 110]
         case 13 => [92, 114]
         case 9 => [92, 116]
         case _ => if b < 32 then [92, 117, 48, 48, LowerDigit(b / 16), LowerDigit(b % 16)] else [b]
  {
    DigitTables(b / 16);
    DigitTables(b % 16);
  }

  // ----- Escaping is undone by unescaping

  function PieceOf(b: byte): (r: Piece) {
    if b == QUOTE || b == BACKSLASH then Short(b)
    else if b == BACKSPACE then Short(LOWER_B)
    else if b == FORM_FEED then Short(LOWER_F)
    else if b == LINE_FEED then Short(LOWER_N)
    else if b == RETURN then Short(LOWER_R)
    else if b == TAB then Short(LOWER_T)
    else if b < 32 then Hex(ZERO, ZERO, HexDigit(b / 16), HexDigit(b % 16))
    else Raw(b)
  }

  function PiecesOf(s: bytes): seq<Piece> {
    if s == [] then [] else [PieceOf(s[0])] + PiecesOf(s[1..])
  }

  lemma PieceOfByte(b: byte)
    ensures PieceOf(b).Text() == EscapeByte(b)
    ensures Meaning([PieceOf(b)]) == Some([b])
    ensures !PieceOf(b).LowUnit() && !PieceOf(b).HighUnit() && PieceOf(b).Proper()
  {
    if PieceOf(b).Hex? {
      assert PieceOf(b).Unit() == b;
      assert Utf8(b) == [b];
    }
    assert [PieceOf(b)][1..] == [] && [b] + [] == [b];
  }

  lemma {:induction false} EscapeIsText(s: bytes)
    ensures TextOf(PiecesOf(s)) == Escape(s)
    ensures Meaning(PiecesOf(s)) == Some(s) && AllProper(PiecesOf(s))
  {
    if s != [] {
      EscapeIsText(s[1..]);
      PieceOfByte(s[0]);
      var ps := PiecesOf(s);
      assert ps[0] == PieceOf(s[0]) && ps[1..] == PiecesOf(s[1..]);
      assert [ps[0]][1..] == [];
      assert s == [s[0]] + s[1..];
    }
  }

  /** Reading back what was escaped gives the string, whatever bytes it holds. */
  lemma QuotedInverse(c: bytes, o: nat, s: cstring)
    requires At(c, o, Quoted(s))
    ensures StringAt(c, o) == Done(s, o + |Quoted(s)|)
  {
    EscapeIsText(s);
    MeaningIffPaired(PiecesOf(s));
    StringLiteral(c, o, PiecesOf(s));
    CStringOfCString(s);
  }
}

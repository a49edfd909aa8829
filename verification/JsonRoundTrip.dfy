/** Reading a printed tree gives the tree back. */
module JsonRoundTrip {
  import opened JsonTree
  import opened JsonStrings
  import opened JsonRender
  import opened JsonGrammar

  // ----- Numbers

  lemma {:induction false} DigitsAreDigits(n: nat)
    ensures forall i :: 0 <= i < |Digits(n)| ==> IsDigit(Digits(n)[i])
    ensures DigitsValue(Digits(n)) == n
  {
    if n >= 10 {
      DigitsAreDigits(n / 10);
      var s := Digits(n);
      assert s[..|s| - 1] == Digits(n / 10);
    } else {
      assert Digits(n)[..0] == [];
    }
  }

  lemma {:induction false} DigitsLength(n: nat, k: nat)
    requires n < Power10(k) && k > 0
    ensures |Digits(n)| <= k
  {
    if n >= 10 {
      DigitsLength(n / 10, k - 1);
    }
  }

  function Power10(k: nat): nat {
    if k == 0 then 1 else 10 * Power10(k - 1)
  }

  lemma {:induction false} DigitsEndIs(s: bytes, i: nat, e: nat)
    requires i <= e <= |s| && (forall k :: i <= k < e ==> IsDigit(s[k])) && (e < |s| ==> !IsDigit(s[e]))
    ensures DigitsEnd(s, i) == e
    decreases e - i
  {
    if i < e {
      DigitsEndIs(s, i + 1, e);
    }
  }

  /** `strtod` on an optional minus sign and digits reads all of them. */
  lemma StrtodOfDigits(s: bytes, negative: bool)
    requires |s| > (if negative then 1 else 0) && (negative ==> s[0] == MINUS)
    requires forall k :: (if negative then 1 else 0) <= k < |s| ==> IsDigit(s[k])
    ensures Strtod(s) == (Signed(negative, DigitsValue(s[if negative then 1 else 0..]) as real), |s|)
  {
    hide DigitsEnd, DigitsValue;
    var sign := if negative then 1 else 0;
    assert IsDigit(s[sign]);
    DigitsEndIs(s, sign, |s|);
    assert s[sign..|s|] + [] == s[sign..];
  }

  /** `strtod` inverts `%d`. */
  lemma StrtodOfDecimal(n: int)
    ensures Strtod(Decimal(n)) == (n as real, |Decimal(n)|)
  {
    hide Strtod, Digits, DigitsValue;
    var m := if n < 0 then -n else n;
    var s := Decimal(n);
    var sign := if n < 0 then 1 else 0;
    DigitsAreDigits(m);
    assert s[sign..] == Digits(m);
    forall k | sign <= k < |s| ensures IsDigit(s[k]) {
      assert s[k] == Digits(m)[k - sign];
    }
    StrtodOfDigits(s, n < 0);
  }

  /** A minus sign for negative numbers alone, then digits, the first of which is 0 for the number 0 alone. */
  lemma DecimalShape(n: int)
    ensures var s := Decimal(n);
      var k := if n < 0 then 1 else 0;
      && (n < 0 <==> s[0] == 45) && k < |s|
      && (forall i :: k <= i < |s| ==> 48 <= s[i] <= 57)
      && (s[k] == 48 <==> n == 0) && (n == 0 ==> |s| == 1)
  {
    var m := if n < 0 then -n else n;
    DigitsAreDigits(m);
    DigitsStart(m);
  }

  lemma {:induction false} DigitsStart(n: nat)
    ensures Digits(n)[0] == 48 <==> n == 0
  {
    if n >= 10 {
      DigitsStart(n / 10);
    }
  }

  lemma DecimalLength(n: int)
    requires INT_MIN <= n <= INT_MAX
    ensures |Decimal(n)| <= 11
    ensures forall i :: 0 <= i < |Decimal(n)| ==> IsNumberByte(Decimal(n)[i])
    ensures Decimal(n)[0] == MINUS || IsDigit(Decimal(n)[0])
  {
    var m := if n < 0 then -n else n;
    assert Power10(2) == 100 && Power10(4) == 10000 && Power10(6) == 1000000;
    assert Power10(8) == 100000000 && Power10(10) == 10000000000;
    DigitsLength(m, 10);
    DigitsAreDigits(m);
  }

  lemma {:induction false} CopyStopsAt(c: bytes, o: nat, i: nat, n: nat)
    requires i <= n <= 63 && o + n <= |c|
    requires forall k :: o + i <= k < o + n ==> IsNumberByte(c[k])
    requires o + n < |c| ==> !IsNumberByte(c[o + n])
    ensures CopyLength(c, o, i) == n
    decreases n - i
  {
    if i < n {
      CopyStopsAt(c, o, i + 1, n);
    }
  }

  /** No number byte follows offset `o`. */
  ghost predicate NumberStops(c: bytes, o: nat) {
    o < |c| ==> !IsNumberByte(c[o])
  }

  lemma NumberReadBack(c: bytes, o: nat, d: real)
    requires IsInt32(d) && At(c, o, Decimal(d.Floor)) && NumberStops(c, o + |Decimal(d.Floor)|)
    ensures NumberAt(c, o) == Done(Number(d), o + |Decimal(d.Floor)|)
  {
    hide Strtod, CopyLength, NumberAt, Decimal;
    var s := Decimal(d.Floor);
    DecimalLength(d.Floor);
    StrtodOfDecimal(d.Floor);
    forall k | o <= k < o + |s| ensures IsNumberByte(c[k]) {
      AtIndex(c, o, s, k - o);
    }
    CopyStopsAt(c, o, 0, |s|);
    NumberFrom(c, o, |s|);
  }

  // ----- Whitespace

  /** Only blanks from `a` up to the non-blank byte at `b`. */
  ghost predicate BlanksTo(c: bytes, a: nat, b: nat) {
    a <= b < |c| && c[b] > 32 && forall i :: a <= i < b ==> c[i] <= 32
  }

  lemma {:induction false} SkipTo(c: bytes, a: nat, b: nat)
    requires BlanksTo(c, a, b)
    ensures BlanksEnd(c, a) == b && SkipBlanks(c, a) == b
    decreases b - a
  {
    if a < b {
      SkipTo(c, a + 1, b);
    }
  }

  // ----- Values

  lemma RenderStart(v: Json, format: bool, depth: nat)
    requires IntegerNumbers(v)
    ensures var r := Render(v, format, depth);
      && r != [] && r[0] > 32 && r[0] != RIGHT_BRACKET
      && (v.Number? ==> r[0] == MINUS || IsDigit(r[0]))
  {
    if v.Number? {
      DecimalLength(v.d.Floor);
    }
  }

  lemma AtThree(c: bytes, p: nat, a: bytes, b: bytes, d: bytes)
    ensures At(c, p, a + b + d) <==> At(c, p, a) && At(c, p + |a|, b) && At(c, p + |a| + |b|, d)
  {
    AtSplit(c, p, a + b, d);
    AtSplit(c, p, a, b);
  }

  lemma AtByte(c: bytes, p: nat, b: byte)
    ensures At(c, p, [b]) <==> p < |c| && c[p] == b
  {
    if p < |c| {
      assert c[p..p + 1] == [c[p]];
    }
  }

  /** The verdict on a printed value read with `depth` containers open. */
  function Verdict<T>(fits: bool, value: T, offset: nat): Parsed<T> {
    if fits then Done(value, offset) else Fail
  }

  lemma {:induction false} ValueReadBack(c: bytes, o: nat, v: Json, format: bool, indent: nat, depth: nat)
    requires IntegerNumbers(v) && At(c, o, Render(v, format, indent))
    requires NumberStops(c, o + |Render(v, format, indent)|) && depth <= NESTING_LIMIT
    ensures ValueAt(c, o, depth)
      == Verdict(depth + Nesting(v) <= NESTING_LIMIT, v, o + |Render(v, format, indent)|)
    decreases v, 2
  {
    hide StringAt, NumberAt, ArrayAt, ObjectAt, RenderItems, RenderMembers, Decimal, NestingOfItems, NestingOfMembers;
    var r := Render(v, format, indent);
    RenderStart(v, format, indent);
    AtIndex(c, o, r, 0);
    assert StartsWith(c, o, NULL_TEXT) ==> c[o] == NULL_TEXT[0];
    assert StartsWith(c, o, TRUE_TEXT) ==> c[o] == TRUE_TEXT[0];
    assert StartsWith(c, o, FALSE_TEXT) ==> c[o] == FALSE_TEXT[0];
    match v {
      case Null =>
      case False =>
      case True =>
      case Number(d) => NumberReadBack(c, o, d);
      case String(s) => QuotedInverse(c, o, s);
      case Array(items) => ArrayReadBack(c, o, items, format, indent, depth);
      case Object(members) => ObjectReadBack(c, o, members, format, indent, depth);
    }
  }

  lemma {:induction false} ArrayReadBack(
      c: bytes, o: nat, items: seq<Json>, format: bool, indent: nat, depth: nat)
    requires IntegerItems(items) && At(c, o, Render(Array(items), format, indent)) && depth <= NESTING_LIMIT
    ensures ArrayAt(c, o, depth) == Verdict(
      depth + 1 + NestingOfItems(items) <= NESTING_LIMIT, Array(items), o + |Render(Array(items), format, indent)|)
    decreases items, 3
  {
    hide IntegerItems, RenderItems, ItemsAt, NestingOfItems, BlanksEnd, At;
    var text := RenderItems(items, format, indent + 1);
    AtThree(c, o, [LEFT_BRACKET], text, [RIGHT_BRACKET]);
    AtByte(c, o + 1 + |text|, RIGHT_BRACKET);
    if items == [] {
      NoItems(format, indent + 1);
      SkipTo(c, o + 1, o + 1);
    } else {
      ItemsStart(c, o + 1, items, format, indent + 1);
      SkipTo(c, o + 1, o + 1);
      if depth < NESTING_LIMIT {
        ItemsReadBack(c, o + 1, o + 1, items, format, indent + 1, depth + 1);
      }
    }
  }

  lemma NoItems(format: bool, indent: nat)
    ensures RenderItems([], format, indent) == [] && NestingOfItems([]) == 0
  {
  }

  lemma ItemsStart(c: bytes, p: nat, items: seq<Json>, format: bool, depth: nat)
    requires IntegerItems(items) && items != [] && At(c, p, RenderItems(items, format, depth))
    ensures p < |c| && c[p] > 32 && c[p] != RIGHT_BRACKET
  {
    RenderStart(items[0], format, depth);
    AtIndex(c, p, RenderItems(items, format, depth), 0);
  }

  /** Reading the last item of an array. */
  lemma {:induction false} LastItem(c: bytes, o: nat, p: nat, e: nat, depth: nat)
    requires BlanksTo(c, o, p) && e < |c| && c[e] == RIGHT_BRACKET
    requires ValueAt(c, p, depth).Done? ==> ValueAt(c, p, depth).offset == e
    ensures var item := ValueAt(c, p, depth);
      ItemsAt(c, o, depth) == Verdict(item.Done?, [if item.Done? then item.value else Null], e + 1)
  {
    hide ValueAt, BlanksEnd;
    SkipTo(c, o, p);
    SkipTo(c, e, e);
  }

  /** Reading an item that a comma follows. */
  lemma {:induction false} InnerItem(c: bytes, o: nat, p: nat, e: nat, depth: nat)
    requires BlanksTo(c, o, p) && e < |c| && c[e] == COMMA
    requires ValueAt(c, p, depth).Done? ==> ValueAt(c, p, depth).offset == e
    ensures var item, rest := ValueAt(c, p, depth), ItemsAt(c, e + 1, depth);
      ItemsAt(c, o, depth)
      == if item.Done? && rest.Done? then Done([item.value] + rest.value, rest.offset) else Fail
  {
    hide ValueAt, BlanksEnd;
    SkipTo(c, o, p);
    SkipTo(c, e, e);
  }

  /** Where the parts of two or more printed items stand. */
  lemma ItemsParts(c: bytes, p: nat, items: seq<Json>, format: bool, indent: nat) returns (e: nat, next: nat)
    requires IntegerItems(items) && |items| > 1 && At(c, p, RenderItems(items, format, indent))
    ensures IntegerNumbers(items[0]) && IntegerItems(items[1..])
    ensures e == p + |Render(items[0], format, indent)| && At(c, p, Render(items[0], format, indent))
    ensures e < next < |c| && c[e] == COMMA && BlanksTo(c, e + 1, next)
    ensures At(c, next, RenderItems(items[1..], format, indent))
    ensures next + |RenderItems(items[1..], format, indent)| == p + |RenderItems(items, format, indent)|
  {
    hide At, Render, IntegerNumbers;
    var first, rest := Render(items[0], format, indent), RenderItems(items[1..], format, indent);
    var gap := [COMMA] + Layout(format, [SPACE]);
    e, next := p + |first|, p + |first| + |gap|;
    AtSplit(c, p, first, gap + rest);
    AtSplit(c, e, gap, rest);
    ItemsStart(c, next, items[1..], format, indent);
    AtIndex(c, e, gap, 0);
    if format {
      AtIndex(c, e, gap, 1);
    }
  }

  lemma SingleItem(items: seq<Json>, format: bool, indent: nat)
    requires IntegerItems(items) && |items| == 1
    ensures items == [items[0]] && IntegerNumbers(items[0])
    ensures RenderItems(items, format, indent) == Render(items[0], format, indent)
    ensures NestingOfItems(items) == Nesting(items[0])
  {
    assert items[1..] == [];
  }

  lemma {:induction false} ItemsReadBack(
      c: bytes, o: nat, p: nat, items: seq<Json>, format: bool, indent: nat, depth: nat)
    requires IntegerItems(items) && items != [] && BlanksTo(c, o, p)
    requires At(c, p, RenderItems(items, format, indent)) && depth <= NESTING_LIMIT
    requires var e := p + |RenderItems(items, format, indent)|; e < |c| && c[e] == RIGHT_BRACKET
    ensures ItemsAt(c, o, depth) == Verdict(
      depth + NestingOfItems(items) <= NESTING_LIMIT, items, p + |RenderItems(items, format, indent)| + 1)
    decreases items, 1
  {
    hide Render, RenderItems, ValueAt, ItemsAt, Nesting, BlanksTo;
    if |items| == 1 {
      var e := p + |RenderItems(items, format, indent)|;
      SingleItem(items, format, indent);
      ValueReadBack(c, p, items[0], format, indent, depth);
      LastItem(c, o, p, e, depth);
    } else {
      var e, next := ItemsParts(c, p, items, format, indent);
      ValueReadBack(c, p, items[0], format, indent, depth);
      InnerItem(c, o, p, e, depth);
      ItemsReadBack(c, e + 1, next, items[1..], format, indent, depth);
      assert items == [items[0]] + items[1..];
    }
  }

  /** Only blanks from `a` to `b`. */
  ghost predicate Blank(c: bytes, a: nat, b: nat) {
    a <= b <= |c| && forall i :: a <= i < b ==> c[i] <= 32
  }

  lemma BlankText(c: bytes, p: nat, t: bytes)
    requires At(c, p, t) && forall i :: 0 <= i < |t| ==> t[i] <= 32
    ensures Blank(c, p, p + |t|)
  {
    forall i | p <= i < p + |t| ensures c[i] <= 32 {
      AtIndex(c, p, t, i - p);
    }
  }

  lemma QuoteFirst(c: bytes, q: nat, s: cstring)
    requires At(c, q, Quoted(s))
    ensures q < |c| && c[q] == QUOTE
  {
    AtThree(c, q, [QUOTE], Escape(s), [QUOTE]);
    AtByte(c, q, QUOTE);
  }

  /** Reading one member whose opening quote is at `q`. */
  lemma MemberReadBack(c: bytes, o: nat, q: nat, m: Member, format: bool, indent: nat, depth: nat)
    requires IntegerNumbers(m.value) && At(c, q, RenderMember(m, format, indent)) && Blank(c, o, q)
    requires NumberStops(c, q + |RenderMember(m, format, indent)|) && depth <= NESTING_LIMIT
    ensures MemberAt(c, o, depth)
      == Verdict(depth + Nesting(m.value) <= NESTING_LIMIT, m, q + |RenderMember(m, format, indent)|)
    decreases m, 3
  {
    hide At, Render, RenderMember, Nesting, ValueAt, MemberAt, Quoted, IntegerNumbers;
    var colon, v := MemberParts(c, q, m, format, indent);
    QuoteFirst(c, q, m.key);
    QuotedInverse(c, q, m.key);
    ValueReadBack(c, v, m.value, format, indent, depth);
    MemberSteps(c, o, q, colon, v, m.key, depth);
  }

  /** Where the parts of a printed member stand: its colon and the start of its value. */
  lemma MemberParts(c: bytes, q: nat, m: Member, format: bool, indent: nat) returns (colon: nat, v: nat)
    requires IntegerNumbers(m.value) && At(c, q, RenderMember(m, format, indent))
    ensures At(c, q, Quoted(m.key)) && colon == q + |Quoted(m.key)|
    ensures colon < |c| && c[colon] == COLON && BlanksTo(c, colon + 1, v)
    ensures At(c, v, Render(m.value, format, indent))
    ensures v + |Render(m.value, format, indent)| == q + |RenderMember(m, format, indent)|
  {
    hide At, Render, Nesting, Quoted, IntegerNumbers;
    var key, value := Quoted(m.key), Render(m.value, format, indent);
    colon, v := q + |key|, q + |key| + 1 + |Layout(format, [TAB])|;
    AtThree(c, q, key, [COLON] + Layout(format, [TAB]), value);
    AtSplit(c, colon, [COLON], Layout(format, [TAB]));
    AtByte(c, colon, COLON);
    RenderStart(m.value, format, indent);
    AtIndex(c, v, value, 0);
    BlankText(c, colon + 1, Layout(format, [TAB]));
    AtInside(c, v, value);
  }

  lemma AtInside(c: bytes, p: nat, t: bytes)
    requires At(c, p, t)
    ensures p + |t| <= |c|
  {
  }

  /** Reading a member, part by part. */
  lemma MemberSteps(c: bytes, o: nat, q: nat, colon: nat, v: nat, key: cstring, depth: nat)
    requires Blank(c, o, q) && q < |c| && c[q] == QUOTE && StringAt(c, q) == Done(key, colon)
    requires colon < |c| && c[colon] == COLON && BlanksTo(c, colon + 1, v)
    ensures var value := ValueAt(c, v, depth);
      MemberAt(c, o, depth) == if value.Done? then Done(Member(key, value.value), value.offset) else Fail
  {
    hide ValueAt, StringAt;
    SkipTo(c, o, q);
    SkipTo(c, colon, colon);
    SkipTo(c, colon + 1, v);
  }

  /** Where the parts of printed members stand: the first opening quote, and the end of the first member. */
  lemma MembersParts(c: bytes, p: nat, members: seq<Member>, format: bool, indent: nat) returns (q: nat, f: nat)
    requires IntegerMembers(members) && members != [] && At(c, p, RenderMembers(members, format, indent))
    ensures IntegerNumbers(members[0].value) && IntegerMembers(members[1..])
    ensures Blank(c, p, q) && At(c, q, RenderMember(members[0], format, indent))
    ensures f == q + |RenderMember(members[0], format, indent)|
    ensures var next := f + |AfterMember(|members| == 1, format)|;
      && At(c, f, AfterMember(|members| == 1, format))
      && At(c, next, RenderMembers(members[1..], format, indent))
      && next + |RenderMembers(members[1..], format, indent)| == p + |RenderMembers(members, format, indent)|
  {
    hide At, Quoted, Render, Nesting, ValueAt, IntegerNumbers, RenderMember;
    var tabs, body := Layout(format, Tabs(indent)), RenderMember(members[0], format, indent);
    var after, rest := AfterMember(|members| == 1, format), RenderMembers(members[1..], format, indent);
    q, f := p + |tabs|, p + |tabs| + |body|;
    AtThree(c, p, tabs, body, after + rest);
    AtSplit(c, f, after, rest);
    BlankText(c, p, tabs);
  }

  /** What follows a member: a comma and blanks, or blanks only. */
  lemma AfterMemberAt(c: bytes, f: nat, last: bool, format: bool)
    requires At(c, f, AfterMember(last, format))
    ensures var next := f + |AfterMember(last, format)|;
      if last then Blank(c, f, next) else f < |c| && c[f] == COMMA && Blank(c, f + 1, next)
  {
    var after := AfterMember(last, format);
    if last {
      BlankText(c, f, after);
    } else {
      AtSplit(c, f, [COMMA], Layout(format, [LINE_FEED]));
      AtByte(c, f, COMMA);
      BlankText(c, f + 1, Layout(format, [LINE_FEED]));
    }
  }

  /** Reading the last member of an object. */
  lemma LastMember(c: bytes, o: nat, e: nat, z: nat, depth: nat)
    requires o <= |c| && BlanksTo(c, e, z) && c[z] == RIGHT_BRACE
    requires MemberAt(c, o, depth).Done? ==> MemberAt(c, o, depth).offset == e
    ensures var m := MemberAt(c, o, depth);
      MembersAt(c, o, depth) == if m.Done? then Done([m.value], z + 1) else Fail
  {
    hide MemberAt;
    SkipTo(c, e, z);
  }

  /** Reading a member that a comma follows. */
  lemma InnerMember(c: bytes, o: nat, e: nat, depth: nat)
    requires o <= |c| && e < |c| && c[e] == COMMA
    requires MemberAt(c, o, depth).Done? ==> MemberAt(c, o, depth).offset == e
    ensures var m, rest := MemberAt(c, o, depth), MembersAt(c, e + 1, depth);
      MembersAt(c, o, depth)
      == if m.Done? && rest.Done? then Done([m.value] + rest.value, rest.offset) else Fail
  {
    hide MemberAt;
    SkipTo(c, e, e);
  }

  lemma BlankStops(c: bytes, a: nat, b: nat, z: nat)
    requires Blank(c, a, b) && BlanksTo(c, b, z) && c[z] == RIGHT_BRACE
    ensures BlanksTo(c, a, z) && NumberStops(c, a)
  {
  }

  lemma {:induction false} MembersReadBack(
      c: bytes, o: nat, p: nat, z: nat, members: seq<Member>, format: bool, indent: nat, depth: nat)
    requires IntegerMembers(members) && members != [] && Blank(c, o, p)
    requires At(c, p, RenderMembers(members, format, indent)) && depth <= NESTING_LIMIT
    requires BlanksTo(c, p + |RenderMembers(members, format, indent)|, z) && c[z] == RIGHT_BRACE
    ensures MembersAt(c, o, depth)
      == Verdict(depth + NestingOfMembers(members) <= NESTING_LIMIT, members, z + 1)
    decreases members, 1
  {
    hide At, AfterMember, Render, RenderMember, RenderMembers, Nesting, ValueAt, MemberAt, MembersAt, IntegerNumbers;
    var q, f := MembersParts(c, p, members, format, indent);
    var last := |members| == 1;
    AfterMemberAt(c, f, last, format);
    assert members == [members[0]] + members[1..];
    if last {
      assert members[1..] == [] && members == [members[0]];
      NoMembers(format, indent);
      BlankStops(c, f, p + |RenderMembers(members, format, indent)|, z);
      MemberReadBack(c, o, q, members[0], format, indent, depth);
      LastMember(c, o, f, z, depth);
    } else {
      MemberReadBack(c, o, q, members[0], format, indent, depth);
      InnerMember(c, o, f, depth);
      MembersReadBack(c, f + 1, f + |AfterMember(last, format)|, z, members[1..], format, indent, depth);
    }
  }

  lemma NoMembers(format: bool, indent: nat)
    ensures RenderMembers([], format, indent) == [] && NestingOfMembers([]) == 0
  {
  }

  lemma {:induction false} ObjectReadBack(
      c: bytes, o: nat, members: seq<Member>, format: bool, indent: nat, depth: nat)
    requires IntegerMembers(members) && At(c, o, Render(Object(members), format, indent)) && depth <= NESTING_LIMIT
    ensures ObjectAt(c, o, depth) == Verdict(
      depth + 1 + NestingOfMembers(members) <= NESTING_LIMIT, Object(members),
      o + |Render(Object(members), format, indent)|)
    decreases members, 4
  {
    hide At, Render, RenderMembers, IntegerMembers, NestingOfMembers, MembersAt, BlanksEnd, SkipBlanks;
    var p, z := ObjectParts(c, o, members, format, indent);
    if members == [] {
      NoMembers(format, indent + 1);
      SkipTo(c, o + 1, z);
    } else {
      var q, f := MembersParts(c, p, members, format, indent + 1);
      FirstMember(c, q, members[0], format, indent + 1);
      SkipTo(c, o + 1, q);
      if depth < NESTING_LIMIT {
        MembersFrom(c, o + 1, q, depth + 1);
        MembersReadBack(c, o + 1, p, z, members, format, indent + 1, depth + 1);
      }
    }
  }

  /** Where the parts of a printed object stand: its first member and its closing brace. */
  lemma ObjectParts(c: bytes, o: nat, members: seq<Member>, format: bool, indent: nat) returns (p: nat, z: nat)
    requires IntegerMembers(members) && At(c, o, Render(Object(members), format, indent))
    ensures o < p <= |c| && Blank(c, o + 1, p) && At(c, p, RenderMembers(members, format, indent + 1))
    ensures BlanksTo(c, p + |RenderMembers(members, format, indent + 1)|, z)
    ensures c[z] == RIGHT_BRACE && z + 1 == o + |Render(Object(members), format, indent)|
  {
    hide At, RenderMembers, IntegerMembers;
    var open, text := [LEFT_BRACE] + Layout(format, [LINE_FEED]), RenderMembers(members, format, indent + 1);
    var close := Layout(format, Tabs(indent));
    p := o + |open|;
    z := p + |text| + |close|;
    AtThree(c, o, open + text, close, [RIGHT_BRACE]);
    AtSplit(c, o, open, text);
    AtSplit(c, o, [LEFT_BRACE], Layout(format, [LINE_FEED]));
    AtByte(c, z, RIGHT_BRACE);
    BlankText(c, o + 1, Layout(format, [LINE_FEED]));
    BlankText(c, p + |text|, close);
  }

  lemma FirstMember(c: bytes, q: nat, m: Member, format: bool, indent: nat)
    requires IntegerNumbers(m.value) && At(c, q, RenderMember(m, format, indent))
    ensures q < |c| && c[q] == QUOTE
  {
    hide Render, Quoted;
    AtThree(c, q, Quoted(m.key), [COLON] + Layout(format, [TAB]), Render(m.value, format, indent));
    QuoteFirst(c, q, m.key);
  }

  /** Blanks before the first member do not matter. */
  lemma MembersFrom(c: bytes, o: nat, q: nat, depth: nat)
    requires BlanksTo(c, o, q)
    ensures MembersAt(c, o, depth) == MembersAt(c, q, depth)
  {
    hide MemberAt;
    MemberFrom(c, o, q, depth);
  }

  lemma MemberFrom(c: bytes, o: nat, q: nat, depth: nat)
    requires BlanksTo(c, o, q)
    ensures MemberAt(c, o, depth) == MemberAt(c, q, depth)
  {
    hide ValueAt, StringAt;
    SkipTo(c, o, q);
    SkipTo(c, q, q);
  }

  // ----- Documents

  /**
   * Reading what was printed, formatted or not, gives the same tree exactly when its containers
   * nest at most as deep as the limit; otherwise the text is rejected.
   */
  lemma RoundTrip(v: Json, format: bool, terminated: bool)
    requires IntegerNumbers(v)
    ensures var text := Render(v, format, 0);
      Document(text + [0], terminated) == Verdict(Nesting(v) <= NESTING_LIMIT, v, |text|)
  {
    hide Render, Nesting, ValueAt, IntegerNumbers;
    var text := Render(v, format, 0);
    var c := text + [0];
    assert c[..|text|] == text;
    RenderStart(v, format, 0);
    TextStart(v, format, 0);
    assert c[0] == text[0];
    assert AfterMark(c) == 0;
    SkipTo(c, 0, 0);
    ValueReadBack(c, 0, v, format, 0, 0);
    assert BlanksEnd(c, |text|) == |text| + 1;
  }

  /** Printed text is not mistaken for a byte order mark. */
  lemma TextStart(v: Json, format: bool, depth: nat)
    requires IntegerNumbers(v)
    ensures Render(v, format, depth) != [] && Render(v, format, depth)[0] < 128
  {
    if v.Number? {
      DecimalLength(v.d.Floor);
    }
  }
}

/** Removing blanks and comments from JSON text in place. */
module JsonMinify {
  import opened JsonTree
  import opened JsonStrings
  import opened JsonRender

  predicate IsBlank(b: byte) {
    b == SPACE || b == TAB || b == RETURN || b == LINE_FEED
  }

  /** How much of `t`, the text after `//`, belongs to the comment. */
  function LineComment(t: bytes): (n: nat)
    ensures n <= |t|
  {
    if t == [] then 0 else if t[0] == LINE_FEED then 1 else 1 + LineComment(t[1..])
  }

  function BlockComment(t: bytes): (n: nat)
    ensures n <= |t|
  {
    if t == [] then 0
    else if t[0] == STAR && |t| > 1 && t[1] == SLASH then 2
    else 1 + BlockComment(t[1..])
  }

  /** How much of `t`, the text after an opening quote, belongs to the string, its closing quote included. */
  function StringRest(t: bytes): (n: nat)
    ensures n <= |t|
  {
    if t == [] then 0
    else if t[0] == QUOTE then 1
    else if t[0] == BACKSLASH && |t| > 1 && t[1] == QUOTE then 2 + StringRest(t[2..])
    else 1 + StringRest(t[1..])
  }

  function Minified(t: bytes): (r: bytes)
    ensures |r| <= |t|
  {
    if t == [] then []
    else if IsBlank(t[0]) then Minified(t[1..])
    else if t[0] == SLASH then
      if |t| > 1 && t[1] == SLASH then Minified(t[2..][LineComment(t[2..])..])
      else if |t| > 1 && t[1] == STAR then Minified(t[2..][BlockComment(t[2..])..])
      else Minified(t[1..])
    else if t[0] == QUOTE then
      var n := StringRest(t[1..]);
      t[..1 + n] + Minified(t[1 + n..])
    else [t[0]] + Minified(t[1..])
  }

  lemma {:induction false} MinifiedSlash(t: bytes)
    requires t != [] && t[0] == SLASH
    ensures Minified(t) ==
      if |t| > 1 && t[1] == SLASH then Minified(t[2..][LineComment(t[2..])..])
      else if |t| > 1 && t[1] == STAR then Minified(t[2..][BlockComment(t[2..])..])
      else Minified(t[1..])
  {
    hide LineComment, BlockComment, StringRest;
  }

  lemma {:induction false} MinifiedByte(t: bytes)
    requires t != [] && t[0] != SLASH && t[0] != QUOTE
    ensures Minified(t) == (if IsBlank(t[0]) then [] else [t[0]]) + Minified(t[1..])
  {
    hide LineComment, BlockComment, StringRest;
  }

  // ----- A second pass changes nothing

  /** A token is scanned the same whatever follows it, unless it ran to the end of the text. */
  lemma {:induction false} StringRestAlone(t: bytes, x: bytes)
    requires StringRest(t) < |t| || x == []
    ensures StringRest(t[..StringRest(t)] + x) == StringRest(t)
  {
    hide StringRest;
    var n := StringRest(t);
    var u := t[..n] + x;
    StringRestStep(t);
    StringRestStep(u);
    if n == |t| {
      assert u == t;
    } else if t[0] == BACKSLASH && |t| > 1 && t[1] == QUOTE {
      StringRestAlone(t[2..], x);
      assert u[2..] == t[2..][..n - 2] + x;
    } else if t[0] != QUOTE {
      StringRestAlone(t[1..], x);
      assert u[1..] == t[1..][..n - 1] + x;
      StringRestStep(t[1..]);
    }
  }

  lemma StringRestStep(t: bytes)
    ensures StringRest(t) ==
      if t == [] then 0
      else if t[0] == QUOTE then 1
      else if t[0] == BACKSLASH && |t| > 1 && t[1] == QUOTE then 2 + StringRest(t[2..])
      else 1 + StringRest(t[1..])
  {
  }

  /** A string in front is kept by a second minify as well. */
  lemma {:induction false} TokenTwice(t: bytes)
    requires t != [] && t[0] == QUOTE
    requires var rest := Minified(t[1 + StringRest(t[1..])..]); Minified(rest) == rest
    ensures Minified(Minified(t)) == Minified(t)
  {
    hide Minified, StringRest;
    var n, r := StringRest(t[1..]), Minified(t);
    var rest := Minified(t[1 + n..]);
    MinifyToken(t);
    StringRestAlone(t[1..], rest);
    assert r[1..] == t[1..][..n] + rest;
    assert r[..1 + n] == t[..1 + n] && r[1 + n..] == rest;
    MinifyToken(r);
  }

  lemma {:induction false} Idempotent(t: bytes)
    ensures Minified(Minified(t)) == Minified(t)
    decreases |t|
  {
    hide LineComment, BlockComment, StringRest;
    var r := Minified(t);
    if t == [] {
    } else if IsBlank(t[0]) {
      Idempotent(t[1..]);
    } else if t[0] == SLASH {
      if |t| > 1 && t[1] == SLASH {
        Idempotent(t[2..][LineComment(t[2..])..]);
      } else if |t| > 1 && t[1] == STAR {
        Idempotent(t[2..][BlockComment(t[2..])..]);
      } else {
        Idempotent(t[1..]);
      }
    } else if t[0] == QUOTE {
      Idempotent(t[1 + StringRest(t[1..])..]);
      TokenTwice(t);
    } else {
      Idempotent(t[1..]);
      assert r[1..] == Minified(t[1..]);
    }
  }

  // ----- Minifying formatted text

  predicate EndsInBackslash(s: bytes) {
    s != [] && s[|s| - 1] == BACKSLASH
  }

  /** No string and no name in the tree ends in a backslash. */
  predicate Tidy(v: Json)
    decreases v, 1
  {
    match v
    case String(s) => !EndsInBackslash(s)
    case Array(items) => TidyItems(items)
    case Object(members) => TidyMembers(members)
    case _ => true
  }

  predicate TidyItems(items: seq<Json>)
    decreases items, 0
  {
    items == [] || (Tidy(items[0]) && TidyItems(items[1..]))
  }

  predicate TidyMembers(members: seq<Member>)
    decreases members, 0
  {
    members == [] || (!EndsInBackslash(members[0].key) && Tidy(members[0].value) && TidyMembers(members[1..]))
  }

  /**
   * No string and no name ends in a backslash, except perhaps a string that only closing brackets of
   * arrays follow to the end of the document.
   */
  predicate TidyButLast(v: Json)
    decreases v, 1
  {
    match v
    case String(_) => true
    case Array(items) => TidyButLastItem(items)
    case _ => Tidy(v)
  }

  predicate TidyButLastItem(items: seq<Json>)
    decreases items, 0
  {
    if items == [] then true
    else if |items| == 1 then TidyButLast(items[0])
    else Tidy(items[0]) && TidyButLastItem(items[1..])
  }

  // The bytes that are copied one at a time.
  ghost predicate Plain(s: bytes) {
    forall i :: 0 <= i < |s| ==> !IsBlank(s[i]) && s[i] != SLASH && s[i] != QUOTE
  }

  lemma {:induction false} PlainText(s: bytes, x: bytes)
    requires Plain(s)
    ensures Minified(s + x) == s + Minified(x)
  {
    hide Minified, IsBlank;
    if s == [] {
      assert s + x == x;
    } else {
      PlainText(s[1..], x);
      assert (s + x)[1..] == s[1..] + x;
      MinifiedByte(s + x);
      assert s + Minified(x) == [s[0]] + (s[1..] + Minified(x));
    }
  }

  lemma {:induction false} BlankText(s: bytes, x: bytes)
    requires forall i :: 0 <= i < |s| ==> IsBlank(s[i])
    ensures Minified(s + x) == Minified(x)
  {
    hide Minified;
    if s == [] {
      assert s + x == x;
    } else {
      BlankText(s[1..], x);
      assert (s + x)[1..] == s[1..] + x;
      MinifiedByte(s + x);
    }
  }

  /** Scanning past one escaped byte; an escaped backslash takes a quote behind it for an escaped quote. */
  lemma PastEscaped(b: byte, z: bytes)
    requires b != 0 && z != []
    ensures StringRest(EscapeByte(b) + z) ==
      if b == BACKSLASH && z[0] == QUOTE then 3 + StringRest(z[1..]) else |EscapeByte(b)| + StringRest(z)
  {
    var t := EscapeByte(b);
    EscapedForm(b);
    hide EscapeByte, StringRest;
    if |t| == 1 {
      LettersRun(t, z);
    } else if b == QUOTE {
      PastQuote(z);
    } else if b == BACKSLASH {
      PastBackslash(z);
    } else {
      PastLetters(t[1..], z);
      assert [BACKSLASH] + t[1..] == t;
      LettersRun(t[1..], z);
    }
  }

  lemma EscapedForm(b: byte)
    ensures var t := EscapeByte(b);
      && (b == QUOTE || b == BACKSLASH ==> t == [BACKSLASH, b])
      && (b != QUOTE && b != BACKSLASH ==>
        && t != [] && (|t| == 1 ==> t == [b]) && (|t| > 1 ==> t[0] == BACKSLASH)
        && (forall i :: 1 <= i < |t| ==> t[i] != QUOTE && t[i] != BACKSLASH))
  {
  }

  lemma PastLetters(t: bytes, z: bytes)
    requires t != [] && t[0] != QUOTE
    ensures StringRest([BACKSLASH] + t + z) == 1 + StringRest(t + z)
  {
    assert ([BACKSLASH] + t + z)[1..] == t + z;
  }

  lemma PastQuote(z: bytes)
    ensures StringRest([BACKSLASH, QUOTE] + z) == 2 + StringRest(z)
  {
    assert ([BACKSLASH, QUOTE] + z)[2..] == z;
  }

  lemma PastBackslash(z: bytes)
    requires z != []
    ensures StringRest([BACKSLASH, BACKSLASH] + z) ==
      if z[0] == QUOTE then 3 + StringRest(z[1..]) else 2 + StringRest(z)
  {
    var u := [BACKSLASH, BACKSLASH] + z;
    assert u[1..] == [BACKSLASH] + z;
    assert u[1..][1..] == z && u[1..][2..] == z[1..];
  }

  /** Neither quotes nor backslashes: scanned byte by byte. */
  lemma {:induction false} LettersRun(t: bytes, z: bytes)
    requires forall i :: 0 <= i < |t| ==> t[i] != QUOTE && t[i] != BACKSLASH
    ensures StringRest(t + z) == |t| + StringRest(z)
  {
    if t == [] {
      assert t + z == z;
    } else {
      LettersRun(t[1..], z);
      assert (t + z)[1..] == t[1..] + z;
    }
  }

  lemma EscapedStart(s: bytes)
    requires s != []
    ensures Escape(s) != [] && Escape(s)[0] != QUOTE
  {
  }

  /** The scan of a printed string: it overruns the closing quote exactly when the string ends in a backslash. */
  lemma {:induction false} StringScan(s: cstring, x: bytes)
    ensures StringRest(Escape(s) + [QUOTE] + x)
      == |Escape(s)| + 1 + if EndsInBackslash(s) then StringRest(x) else 0
  {
    if s == [] {
      assert (Escape(s) + [QUOTE] + x)[0] == QUOTE;
    } else {
      hide StringRest, EscapeByte, Escape, EndsInBackslash;
      var z := Escape(s[1..]) + [QUOTE] + x;
      ScanParts(s, x);
      StringScan(s[1..], x);
      PastEscaped(s[0], z);
      if |s| == 1 {
        assert z[1..] == x;
      }
    }
  }

  lemma EscapeStep(s: cstring)
    requires s != []
    ensures Escape(s) == EscapeByte(s[0]) + Escape(s[1..]) && Escape([]) == []
    ensures 0 !in s[1..] && s[0] != 0
  {
    hide EscapeByte;
    assert s[0] in s;
  }

  lemma LastByteStep(s: bytes)
    requires s != []
    ensures EndsInBackslash(s) == if |s| == 1 then s[0] == BACKSLASH else EndsInBackslash(s[1..])
    ensures !EndsInBackslash([])
  {
  }

  lemma BackslashForm(b: byte)
    ensures b == BACKSLASH ==> |EscapeByte(b)| == 2
  {
  }

  /** A string scan splits into the form of the first byte and the scan of the others. */
  lemma {:induction false} ScanParts(s: cstring, x: bytes)
    requires s != []
    ensures 0 !in s[1..] && s[0] != 0
    ensures Escape(s) == EscapeByte(s[0]) + Escape(s[1..])
    ensures var z := Escape(s[1..]) + [QUOTE] + x;
      && Escape(s) + [QUOTE] + x == EscapeByte(s[0]) + z && z != []
      && (|s| == 1 ==> z == [QUOTE] + x && Escape(s[1..]) == [])
      && (|s| > 1 ==> z[0] != QUOTE)
    ensures EndsInBackslash(s) == if |s| == 1 then s[0] == BACKSLASH else EndsInBackslash(s[1..])
    ensures |s| == 1 ==> !EndsInBackslash(s[1..])
    ensures s[0] == BACKSLASH ==> |EscapeByte(s[0])| == 2
  {
    hide EscapeByte, Escape, EndsInBackslash;
    EscapeStep(s);
    LastByteStep(s);
    BackslashForm(s[0]);
    Fourfold(EscapeByte(s[0]), Escape(s[1..]), [QUOTE], x);
    if |s| == 1 {
      assert s[1..] == [];
      assert [] + [QUOTE] + x == [QUOTE] + x;
    } else {
      EscapedStart(s[1..]);
      assert (Escape(s[1..]) + [QUOTE] + x)[0] == Escape(s[1..])[0];
    }
  }

  lemma Fourfold(a: bytes, b: bytes, c: bytes, d: bytes)
    ensures a + b + c + d == a + (b + c + d)
  {
  }

  lemma MinifyToken(t: bytes)
    requires t != [] && t[0] == QUOTE
    ensures var n := 1 + StringRest(t[1..]); Minified(t) == t[..n] + Minified(t[n..])
  {
  }

  /** What becomes of a printed string and the text after it. */
  lemma MinifyQuoted(s: cstring, x: bytes)
    ensures var n := if EndsInBackslash(s) then StringRest(x) else 0;
      Minified(Quoted(s) + x) == Quoted(s) + x[..n] + Minified(x[n..])
  {
    hide Minified, StringRest, Escape;
    StringScan(s, x);
    var n := if EndsInBackslash(s) then StringRest(x) else 0;
    var t := Quoted(s) + x;
    MinifyToken(t);
    assert t[1..] == Escape(s) + [QUOTE] + x;
    assert t[..|Quoted(s)| + n] == Quoted(s) + x[..n] && t[|Quoted(s)| + n..] == x[n..];
  }

  lemma Assoc(a: bytes, b: bytes, c: bytes)
    ensures a + b + c == a + (b + c)
  {
  }

  lemma PlainDecimal(n: int)
    ensures Plain(Decimal(n))
  {
    PlainDigits(if n < 0 then -n else n);
  }

  lemma {:induction false} PlainDigits(n: nat)
    ensures Plain(Digits(n))
  {
    if n >= 10 {
      PlainDigits(n / 10);
    }
  }

  /** Minifying the print of a tidy tree, formatted or not, gives its unformatted print, whatever follows. */
  lemma {:induction false} MinifyValue(v: Json, format: bool, depth: nat, x: bytes)
    requires IntegerNumbers(v) && Tidy(v)
    ensures Minified(Render(v, format, depth) + x) == Render(v, false, depth) + Minified(x)
    decreases v, 2
  {
    hide Minified, Escape, RenderItems, RenderMembers, Decimal;
    match v {
      case Null => PlainText(NULL_TEXT, x);
      case False => PlainText(FALSE_TEXT, x);
      case True => PlainText(TRUE_TEXT, x);
      case Number(d) =>
        PlainDecimal(d.Floor);
        PlainText(Decimal(d.Floor), x);
      case String(s) =>
        MinifyQuoted(s, x);
        assert Quoted(s) + x[..0] == Quoted(s) && x[0..] == x;
      case Array(items) => MinifyArray(items, format, depth, x);
      case Object(members) => MinifyObject(members, format, depth, x);
    }
  }

  // How printed text splits in front of more text.

  lemma NoLayout(s: bytes, x: bytes)
    ensures Layout(false, s) + x == x
  {
  }

  lemma ArrayShape(items: seq<Json>, format: bool, depth: nat, x: bytes)
    requires IntegerItems(items)
    ensures IntegerNumbers(Array(items)) && Render(Array(items), format, depth) + x
      == [LEFT_BRACKET] + (RenderItems(items, format, depth + 1) + ([RIGHT_BRACKET] + x))
  {
    hide RenderItems;
  }

  lemma ItemsShape(items: seq<Json>, format: bool, depth: nat, x: bytes)
    requires IntegerItems(items) && |items| > 1
    ensures IntegerNumbers(items[0]) && IntegerItems(items[1..])
    ensures RenderItems(items, format, depth) + x
      == Render(items[0], format, depth)
       + ([COMMA] + (Layout(format, [SPACE]) + (RenderItems(items[1..], format, depth) + x)))
  {
    hide Render;
    var space, rest := Layout(format, [SPACE]), RenderItems(items[1..], format, depth);
    assert [COMMA] + space + rest + x == [COMMA] + (space + (rest + x));
    Assoc(Render(items[0], format, depth), [COMMA] + space + rest, x);
  }

  lemma MemberShape(m: Member, format: bool, depth: nat, x: bytes)
    requires IntegerNumbers(m.value)
    ensures RenderMember(m, format, depth) + x
      == Quoted(m.key) + ([COLON] + (Layout(format, [TAB]) + (Render(m.value, format, depth) + x)))
  {
    hide Render, Quoted;
  }

  function Separator(last: bool): bytes {
    if last then [] else [COMMA]
  }

  lemma MembersShape(members: seq<Member>, format: bool, depth: nat, x: bytes)
    requires IntegerMembers(members) && members != []
    ensures IntegerNumbers(members[0].value) && IntegerMembers(members[1..])
    ensures RenderMembers(members, format, depth) + x
      == Layout(format, Tabs(depth)) + (RenderMember(members[0], format, depth) + (Separator(|members| == 1)
       + (Layout(format, [LINE_FEED]) + (RenderMembers(members[1..], format, depth) + x))))
  {
    hide Render, RenderMember, IntegerNumbers, Tabs;
    Parts(Layout(format, Tabs(depth)), RenderMember(members[0], format, depth), Separator(|members| == 1),
      Layout(format, [LINE_FEED]), RenderMembers(members[1..], format, depth), x);
  }

  lemma Parts(a: bytes, b: bytes, c: bytes, d: bytes, e: bytes, x: bytes)
    ensures a + b + (c + d + e) + x == a + (b + (c + (d + (e + x))))
  {
    assert c + d + e + x == c + (d + (e + x));
    Assoc(a + b, c + d + e, x);
    Assoc(a, b, c + d + e + x);
  }

  lemma ObjectShape(members: seq<Member>, format: bool, depth: nat, x: bytes)
    requires IntegerMembers(members)
    ensures IntegerNumbers(Object(members)) && Render(Object(members), format, depth) + x
      == [LEFT_BRACE] + (Layout(format, [LINE_FEED])
       + (RenderMembers(members, format, depth + 1) + (Layout(format, Tabs(depth)) + ([RIGHT_BRACE] + x))))
  {
    hide RenderMembers, Tabs;
  }

  lemma {:induction false} MinifyArray(items: seq<Json>, format: bool, depth: nat, x: bytes)
    requires IntegerItems(items) && TidyItems(items)
    ensures Minified(Render(Array(items), format, depth) + x) == Render(Array(items), false, depth) + Minified(x)
    decreases items, 1
  {
    hide Minified, RenderItems, IntegerItems, TidyItems, Render;
    var close := [RIGHT_BRACKET];
    ArrayShape(items, format, depth, x);
    ArrayShape(items, false, depth, Minified(x));
    PlainText([LEFT_BRACKET], RenderItems(items, format, depth + 1) + (close + x));
    MinifyItems(items, format, depth + 1, close + x);
    PlainText(close, x);
  }

  lemma {:induction false} MinifyItems(items: seq<Json>, format: bool, depth: nat, x: bytes)
    requires IntegerItems(items) && TidyItems(items)
    ensures Minified(RenderItems(items, format, depth) + x) == RenderItems(items, false, depth) + Minified(x)
    decreases items, 0
  {
    hide Minified, Render, IntegerNumbers, Tidy;
    if items == [] {
      assert RenderItems(items, format, depth) + x == x;
    } else if |items| == 1 {
      MinifyValue(items[0], format, depth, x);
    } else {
      var rest, space := RenderItems(items[1..], format, depth), Layout(format, [SPACE]);
      ItemsShape(items, format, depth, x);
      ItemsShape(items, false, depth, Minified(x));
      MinifyValue(items[0], format, depth, [COMMA] + (space + (rest + x)));
      PlainText([COMMA], space + (rest + x));
      BlankText(space, rest + x);
      MinifyItems(items[1..], format, depth, x);
      NoLayout([SPACE], RenderItems(items[1..], false, depth) + Minified(x));
    }
  }

  lemma {:induction false} MinifyMember(m: Member, format: bool, depth: nat, x: bytes)
    requires IntegerNumbers(m.value) && !EndsInBackslash(m.key) && Tidy(m.value)
    ensures Minified(RenderMember(m, format, depth) + x) == RenderMember(m, false, depth) + Minified(x)
    decreases m, 3
  {
    hide Minified, Render, RenderMember, IntegerNumbers, Tidy, Quoted;
    var key, value, tab := Quoted(m.key), Render(m.value, format, depth), Layout(format, [TAB]);
    var y := [COLON] + (tab + (value + x));
    MemberShape(m, format, depth, x);
    MemberShape(m, false, depth, Minified(x));
    MinifyQuoted(m.key, y);
    assert key + y[..0] == key && y[0..] == y;
    PlainText([COLON], tab + (value + x));
    BlankText(tab, value + x);
    MinifyValue(m.value, format, depth, x);
    NoLayout([TAB], Render(m.value, false, depth) + Minified(x));
  }

  lemma {:induction false} MinifyMembers(members: seq<Member>, format: bool, depth: nat, x: bytes)
    requires IntegerMembers(members) && TidyMembers(members)
    ensures Minified(RenderMembers(members, format, depth) + x) == RenderMembers(members, false, depth) + Minified(x)
    decreases members, 0
  {
    hide Minified, Render, RenderMember, IntegerNumbers, Tidy, Tabs;
    if members == [] {
      assert RenderMembers(members, format, depth) + x == x;
    } else {
      hide RenderMembers;
      var rest, first := RenderMembers(members[1..], format, depth), RenderMember(members[0], format, depth);
      var tabs, line := Layout(format, Tabs(depth)), Layout(format, [LINE_FEED]);
      var comma, flat := Separator(|members| == 1), RenderMembers(members[1..], false, depth) + Minified(x);
      MembersShape(members, format, depth, x);
      MembersShape(members, false, depth, Minified(x));
      BlankText(tabs, first + (comma + (line + (rest + x))));
      MinifyMember(members[0], format, depth, comma + (line + (rest + x)));
      PlainText(comma, line + (rest + x));
      BlankText(line, rest + x);
      MinifyMembers(members[1..], format, depth, x);
      NoLayout([LINE_FEED], flat);
      NoLayout(Tabs(depth), RenderMember(members[0], false, depth) + (comma + flat));
    }
  }

  lemma {:induction false} MinifyObject(members: seq<Member>, format: bool, depth: nat, x: bytes)
    requires IntegerMembers(members) && TidyMembers(members)
    ensures Minified(Render(Object(members), format, depth) + x) == Render(Object(members), false, depth) + Minified(x)
    decreases members, 1
  {
    hide Minified, Render, RenderMembers, IntegerMembers, TidyMembers, Tabs;
    var text, flat := RenderMembers(members, format, depth + 1), RenderMembers(members, false, depth + 1);
    var line, tabs, close := Layout(format, [LINE_FEED]), Layout(format, Tabs(depth)), [RIGHT_BRACE];
    ObjectShape(members, format, depth, x);
    ObjectShape(members, false, depth, Minified(x));
    PlainText([LEFT_BRACE], line + (text + (tabs + (close + x))));
    BlankText(line, text + (tabs + (close + x)));
    MinifyMembers(members, format, depth + 1, tabs + (close + x));
    BlankText(tabs, close + x);
    PlainText(close, x);
    NoLayout(Tabs(depth), close + Minified(x));
    NoLayout([LINE_FEED], flat + (close + Minified(x)));
  }

  // ----- What goes wrong after a string that ends in a backslash

  /** The texts agree up to `k` without a quote; then the first has a blank where the second has none. */
  ghost predicate Gap(a: bytes, b: bytes, k: nat) {
    && Diverge(a, b, k)
    && forall i :: 0 <= i < k ==> a[i] != QUOTE
  }

  ghost predicate Diverge(a: bytes, b: bytes, k: nat) {
    && k < |a| && k < |b| && a[..k] == b[..k]
    && IsBlank(a[k]) && b[k] > 32
  }

  lemma DivergeAfter(p: bytes, a: bytes, b: bytes, k: nat)
    requires Diverge(a, b, k)
    ensures Diverge(p + a, p + b, |p| + k)
  {
    assert (p + a)[..|p| + k] == p + a[..k] && (p + b)[..|p| + k] == p + b[..k];
  }

  lemma GapAfter(p: bytes, a: bytes, b: bytes, k: nat)
    requires Gap(a, b, k) && forall i :: 0 <= i < |p| ==> p[i] != QUOTE
    ensures Gap(p + a, p + b, |p| + k)
  {
    DivergeAfter(p, a, b, k);
    forall i | 0 <= i < |p| + k ensures (p + a)[i] != QUOTE {
      if i >= |p| {
        assert (p + a)[i] == a[i - |p|];
      }
    }
  }

  lemma {:induction false} ScanReaches(t: bytes, k: nat)
    requires k <= |t| && forall i :: 0 <= i < k ==> t[i] != QUOTE
    ensures StringRest(t) >= k
  {
    if k > 0 {
      if t[0] == BACKSLASH && |t| > 1 && t[1] == QUOTE {
      } else {
        ScanReaches(t[1..], k - 1);
      }
    }
  }

  /** The blank of a gap survives behind a string that ends in a backslash. */
  lemma UntidyString(s: cstring, a: bytes, b: bytes, k: nat)
    requires EndsInBackslash(s) && Gap(a, b, k)
    ensures Diverge(Minified(Quoted(s) + a), Quoted(s) + b, |Quoted(s)| + k)
  {
    hide Minified, StringRest, Quoted;
    MinifyQuoted(s, a);
    ScanReaches(a, k + 1);
    var n := StringRest(a);
    assert a[..n][..k] == a[..k];
    assert Diverge(a[..n] + Minified(a[n..]), b, k);
    DivergeAfter(Quoted(s), a[..n] + Minified(a[n..]), b, k);
    Assoc(Quoted(s), a[..n], Minified(a[n..]));
  }

  lemma {:induction false} UntidyValue(v: Json, depth: nat, a: bytes, b: bytes, k: nat) returns (j: nat)
    requires IntegerNumbers(v) && !Tidy(v) && Gap(a, b, k)
    ensures Diverge(Minified(Render(v, true, depth) + a), Render(v, false, depth) + b, j)
    decreases v, 2
  {
    hide Minified, Diverge, Gap, RenderItems, RenderMembers, Quoted;
    match v {
      case String(s) =>
        UntidyString(s, a, b, k);
        j := |Quoted(s)| + k;
      case Array(items) =>
        GapAfter([RIGHT_BRACKET], a, b, k);
        var i := UntidyItems(items, depth + 1, [RIGHT_BRACKET] + a, [RIGHT_BRACKET] + b, 1 + k);
        ArrayShape(items, true, depth, a);
        ArrayShape(items, false, depth, b);
        PlainText([LEFT_BRACKET], RenderItems(items, true, depth + 1) + ([RIGHT_BRACKET] + a));
        DivergeAfter([LEFT_BRACKET], Minified(RenderItems(items, true, depth + 1) + ([RIGHT_BRACKET] + a)),
          RenderItems(items, false, depth + 1) + ([RIGHT_BRACKET] + b), i);
        j := 1 + i;
      case Object(members) =>
        j := UntidyObject(members, depth, a, b);
    }
  }

  lemma FirstOfItems(items: seq<Json>, format: bool, depth: nat)
    requires IntegerItems(items) && items != []
    ensures var r := RenderItems(items, format, depth); r != [] && r[0] > 32
  {
    FirstOfValue(items[0], format, depth);
  }

  lemma FirstOfValue(v: Json, format: bool, depth: nat)
    requires IntegerNumbers(v)
    ensures var r := Render(v, format, depth); r != [] && r[0] > 32
  {
    if v.Number? {
      FirstDigit(if v.d.Floor < 0 then -v.d.Floor else v.d.Floor);
    }
  }

  lemma {:induction false} FirstDigit(n: nat)
    ensures Digits(n)[0] >= ZERO
  {
    if n >= 10 {
      FirstDigit(n / 10);
    }
  }

  lemma {:induction false} UntidyItems(items: seq<Json>, depth: nat, a: bytes, b: bytes, k: nat) returns (j: nat)
    requires IntegerItems(items) && !TidyItems(items) && Gap(a, b, k)
    ensures Diverge(Minified(RenderItems(items, true, depth) + a), RenderItems(items, false, depth) + b, j)
    decreases items, 0
  {
    hide Minified, Diverge, Gap, Render, IntegerNumbers;
    if |items| == 1 {
      assert TidyItems(items[1..]);
      j := UntidyValue(items[0], depth, a, b, k);
    } else if !Tidy(items[0]) {
      j := UntidyInner(items, depth, a, b);
    } else {
      var i := UntidyItems(items[1..], depth, a, b, k);
      j := DivergeLater(items, depth, a, b, i);
    }
  }

  /** An untidy item that another one follows. */
  lemma {:induction false} UntidyInner(items: seq<Json>, depth: nat, a: bytes, b: bytes) returns (j: nat)
    requires IntegerItems(items) && |items| > 1 && !Tidy(items[0])
    ensures Diverge(Minified(RenderItems(items, true, depth) + a), RenderItems(items, false, depth) + b, j)
    decreases items, 0, 0
  {
    hide Minified, Render, RenderItems, IntegerNumbers;
    var rest, flat := RenderItems(items[1..], true, depth) + a, RenderItems(items[1..], false, depth) + b;
    ItemsShape(items, true, depth, a);
    ItemsShape(items, false, depth, b);
    NoLayout([SPACE], flat);
    FirstOfItems(items[1..], false, depth);
    assert Gap([SPACE] + rest, flat, 0);
    GapAfter([COMMA], [SPACE] + rest, flat, 0);
    j := UntidyValue(items[0], depth, [COMMA] + ([SPACE] + rest), [COMMA] + flat, 1);
  }

  /** A tidy first item only shifts a divergence in the others. */
  lemma DivergeLater(items: seq<Json>, depth: nat, a: bytes, b: bytes, i: nat) returns (j: nat)
    requires IntegerItems(items) && |items| > 1 && Tidy(items[0])
    requires Diverge(Minified(RenderItems(items[1..], true, depth) + a), RenderItems(items[1..], false, depth) + b, i)
    ensures Diverge(Minified(RenderItems(items, true, depth) + a), RenderItems(items, false, depth) + b, j)
  {
    hide Minified, Diverge, Render, RenderItems, IntegerNumbers;
    var rest, flat := RenderItems(items[1..], true, depth) + a, RenderItems(items[1..], false, depth) + b;
    var head := Render(items[0], false, depth);
    ItemsShape(items, true, depth, a);
    ItemsShape(items, false, depth, b);
    NoLayout([SPACE], flat);
    MinifyValue(items[0], true, depth, [COMMA] + ([SPACE] + rest));
    PlainText([COMMA], [SPACE] + rest);
    BlankText([SPACE], rest);
    DivergeAfter([COMMA], Minified(rest), flat, i);
    DivergeAfter(head, [COMMA] + Minified(rest), [COMMA] + flat, 1 + i);
    j := |head| + 1 + i;
  }

  lemma {:induction false} UntidyObject(members: seq<Member>, depth: nat, a: bytes, b: bytes) returns (j: nat)
    requires IntegerMembers(members) && !TidyMembers(members)
    ensures Diverge(Minified(Render(Object(members), true, depth) + a), Render(Object(members), false, depth) + b, j)
    decreases members, 1
  {
    hide Minified, Diverge, Gap, RenderMembers, TidyMembers, Tabs, Render;
    var close := Tabs(depth) + ([RIGHT_BRACE] + a);
    var text, flat := RenderMembers(members, true, depth + 1), RenderMembers(members, false, depth + 1);
    ObjectShape(members, true, depth, a);
    ObjectShape(members, false, depth, b);
    NoLayout(Tabs(depth), [RIGHT_BRACE] + b);
    NoLayout([LINE_FEED], flat + ([RIGHT_BRACE] + b));
    var i := UntidyMembers(members, depth + 1, close, [RIGHT_BRACE] + b);
    PlainText([LEFT_BRACE], [LINE_FEED] + (text + close));
    BlankText([LINE_FEED], text + close);
    DivergeAfter([LEFT_BRACE], Minified(text + close), flat + ([RIGHT_BRACE] + b), i);
    j := 1 + i;
  }

  lemma {:induction false} UntidyMembers(members: seq<Member>, depth: nat, a: bytes, b: bytes) returns (j: nat)
    requires IntegerMembers(members) && !TidyMembers(members) && b != [] && b[0] > 32
    ensures Diverge(Minified(RenderMembers(members, true, depth) + a), RenderMembers(members, false, depth) + b, j)
    decreases members, 0
  {
    hide Minified, Diverge, Gap, RenderMembers, RenderMember, IntegerNumbers, Tabs, Tidy;
    var m, comma := members[0], Separator(|members| == 1);
    var rest, flat := RenderMembers(members[1..], true, depth) + a, RenderMembers(members[1..], false, depth) + b;
    MembersShape(members, true, depth, a);
    MembersShape(members, false, depth, b);
    NoLayout([LINE_FEED], flat);
    NoLayout(Tabs(depth), RenderMember(m, false, depth) + (comma + flat));
    BlankText(Tabs(depth), RenderMember(m, true, depth) + (comma + ([LINE_FEED] + rest)));
    if EndsInBackslash(m.key) || !Tidy(m.value) {
      FirstOfMembers(members[1..], depth, b);
      LineGap(rest, flat);
      GapAfter(comma, [LINE_FEED] + rest, flat, 0);
      j := UntidyMember(m, depth, comma + ([LINE_FEED] + rest), comma + flat, |comma|);
    } else {
      var i := UntidyMembers(members[1..], depth, a, b);
      MinifyMember(m, true, depth, comma + ([LINE_FEED] + rest));
      PlainText(comma, [LINE_FEED] + rest);
      BlankText([LINE_FEED], rest);
      DivergeAfter(comma, Minified(rest), flat, i);
      DivergeAfter(RenderMember(m, false, depth), comma + Minified(rest), comma + flat, |comma| + i);
      j := |RenderMember(m, false, depth)| + |comma| + i;
    }
  }

  lemma FirstOfMembers(members: seq<Member>, depth: nat, b: bytes)
    requires IntegerMembers(members) && b != [] && b[0] > 32
    ensures var r := RenderMembers(members, false, depth) + b; r[0] > 32
  {
  }

  lemma LineGap(rest: bytes, flat: bytes)
    requires flat != [] && flat[0] > 32
    ensures Gap([LINE_FEED] + rest, flat, 0)
  {
  }

  lemma {:induction false} UntidyMember(m: Member, depth: nat, a: bytes, b: bytes, k: nat) returns (j: nat)
    requires IntegerNumbers(m.value) && (EndsInBackslash(m.key) || !Tidy(m.value)) && Gap(a, b, k)
    ensures Diverge(Minified(RenderMember(m, true, depth) + a), RenderMember(m, false, depth) + b, j)
    decreases m, 3
  {
    hide Minified, Diverge, Render, RenderMember, Quoted, IntegerNumbers, Tidy;
    var key, value, flat := Quoted(m.key), Render(m.value, true, depth) + a, Render(m.value, false, depth) + b;
    MemberShape(m, true, depth, a);
    MemberShape(m, false, depth, b);
    NoLayout([TAB], flat);
    if EndsInBackslash(m.key) {
      FirstOfValue(m.value, false, depth);
      TabGap(value, flat);
      GapAfter([COLON], [TAB] + value, flat, 0);
      UntidyString(m.key, [COLON] + ([TAB] + value), [COLON] + flat, 1);
      j := |key| + 1;
    } else {
      var y := [COLON] + ([TAB] + value);
      var i := UntidyValue(m.value, depth, a, b, k);
      MinifyQuoted(m.key, y);
      assert key + y[..0] == key && y[0..] == y;
      PlainText([COLON], [TAB] + value);
      BlankText([TAB], value);
      DivergeAfter([COLON], Minified(value), flat, i);
      DivergeAfter(key, [COLON] + Minified(value), [COLON] + flat, 1 + i);
      j := |key| + 1 + i;
    }
  }

  lemma TabGap(value: bytes, flat: bytes)
    requires flat != [] && flat[0] > 32
    ensures Gap([TAB] + value, flat, 0)
  {
  }

  // ----- Exactly when minifying the formatted print gives the unformatted one

  ghost predicate Brackets(x: bytes) {
    forall i :: 0 <= i < |x| ==> x[i] == RIGHT_BRACKET
  }

  lemma MinifyBrackets(x: bytes)
    requires Brackets(x)
    ensures Minified(x) == x
  {
    PlainText(x, []);
    assert x + [] == x;
  }

  lemma {:induction false} EndTidy(v: Json, depth: nat, x: bytes)
    requires IntegerNumbers(v) && TidyButLast(v) && Brackets(x)
    ensures Minified(Render(v, true, depth) + x) == Render(v, false, depth) + x
    decreases v, 1
  {
    hide Minified, RenderItems, RenderMembers, Quoted, TidyMembers;
    MinifyBrackets(x);
    match v {
      case String(s) =>
        MinifyQuoted(s, x);
        if EndsInBackslash(s) {
          ScanReaches(x, |x|);
          MinifyBrackets([]);
          assert x[..|x|] == x && x[|x|..] == [];
        } else {
          assert Quoted(s) + x[..0] == Quoted(s) && x[0..] == x;
        }
      case Array(items) =>
        var close := [RIGHT_BRACKET] + x;
        EndTidyItems(items, depth + 1, close);
        ArrayShape(items, true, depth, x);
        ArrayShape(items, false, depth, x);
        PlainText([LEFT_BRACKET], RenderItems(items, true, depth + 1) + close);
      case _ =>
        MinifyValue(v, true, depth, x);
    }
  }

  lemma {:induction false} EndTidyItems(items: seq<Json>, depth: nat, x: bytes)
    requires IntegerItems(items) && TidyButLastItem(items) && Brackets(x)
    ensures Minified(RenderItems(items, true, depth) + x) == RenderItems(items, false, depth) + x
    decreases items, 0
  {
    hide Minified, Render, TidyButLast, Tidy, IntegerNumbers;
    if items == [] {
      MinifyBrackets(x);
      assert RenderItems(items, true, depth) + x == x && RenderItems(items, false, depth) + x == x;
    } else if |items| == 1 {
      EndTidy(items[0], depth, x);
    } else {
      var rest, flat := RenderItems(items[1..], true, depth) + x, RenderItems(items[1..], false, depth) + x;
      ItemsShape(items, true, depth, x);
      ItemsShape(items, false, depth, x);
      NoLayout([SPACE], flat);
      MinifyValue(items[0], true, depth, [COMMA] + ([SPACE] + rest));
      PlainText([COMMA], [SPACE] + rest);
      BlankText([SPACE], rest);
      EndTidyItems(items[1..], depth, x);
    }
  }

  lemma {:induction false} EndUntidy(v: Json, depth: nat, x: bytes) returns (j: nat)
    requires IntegerNumbers(v) && !TidyButLast(v) && Brackets(x)
    ensures Diverge(Minified(Render(v, true, depth) + x), Render(v, false, depth) + x, j)
    decreases v, 1
  {
    hide Minified, Diverge, RenderItems, RenderMembers, TidyMembers;
    match v {
      case Array(items) =>
        var close := [RIGHT_BRACKET] + x;
        var i := EndUntidyItems(items, depth + 1, close);
        ArrayShape(items, true, depth, x);
        ArrayShape(items, false, depth, x);
        PlainText([LEFT_BRACKET], RenderItems(items, true, depth + 1) + close);
        DivergeAfter([LEFT_BRACKET], Minified(RenderItems(items, true, depth + 1) + close),
          RenderItems(items, false, depth + 1) + close, i);
        j := 1 + i;
      case Object(members) =>
        j := UntidyObject(members, depth, x, x);
    }
  }

  lemma {:induction false} EndUntidyItems(items: seq<Json>, depth: nat, x: bytes) returns (j: nat)
    requires IntegerItems(items) && !TidyButLastItem(items) && Brackets(x)
    ensures Diverge(Minified(RenderItems(items, true, depth) + x), RenderItems(items, false, depth) + x, j)
    decreases items, 0
  {
    hide Minified, Diverge, Render, TidyButLast, Tidy, IntegerNumbers;
    if |items| == 1 {
      j := EndUntidy(items[0], depth, x);
    } else if !Tidy(items[0]) {
      j := UntidyInner(items, depth, x, x);
    } else {
      var i := EndUntidyItems(items[1..], depth, x);
      j := DivergeLater(items, depth, x, x, i);
    }
  }

  /**
   * Minifying the formatted print of a tree gives its unformatted print exactly when no string and no
   * name ends in a backslash, but for a string at the very end of the document.
   */
  lemma MinifyFormatted(v: Json, depth: nat)
    requires IntegerNumbers(v)
    ensures Minified(Render(v, true, depth)) == Render(v, false, depth) <==> TidyButLast(v)
  {
    hide Minified, Render, TidyButLast, IntegerNumbers;
    assert Render(v, true, depth) + [] == Render(v, true, depth);
    assert Render(v, false, depth) + [] == Render(v, false, depth);
    if TidyButLast(v) {
      EndTidy(v, depth, []);
    } else {
      var j := EndUntidy(v, depth, []);
    }
  }

  /** A tidy tree meets the condition. */
  lemma {:induction false} TidyIsEnough(v: Json)
    requires Tidy(v)
    ensures TidyButLast(v)
    decreases v, 1
  {
    if v.Array? {
      TidyItemsAreEnough(v.items);
    }
  }

  lemma {:induction false} TidyItemsAreEnough(items: seq<Json>)
    requires TidyItems(items)
    ensures TidyButLastItem(items)
    decreases items, 0
  {
    if |items| == 1 {
      TidyIsEnough(items[0]);
    } else if items != [] {
      TidyItemsAreEnough(items[1..]);
    }
  }

  /** An input that fails: an array of a backslash and a number keeps its blank. */
  lemma BackslashKeepsBlank()
    ensures var v := Array([String([BACKSLASH]), Number(1.0)]);
      IntegerNumbers(v) && !TidyButLast(v) && Minified(Render(v, true, 0)) != Render(v, false, 0)
  {
    var v := Array([String([BACKSLASH]), Number(1.0)]);
    assert v.items[1..] == [Number(1.0)] && v.items[1..][1..] == [];
    assert (1.0).Floor == 1 && IntegerNumbers(v.items[0]) && IntegerNumbers(v.items[1]);
    assert IntegerItems(v.items[1..][1..]) && IntegerItems(v.items[1..]) && IntegerItems(v.items);
    MinifyFormatted(v, 0);
  }

  // ----- In place

  /** A C string of `n` bytes stands in `json` from `start`. */
  ghost predicate Terminated(json: array<byte>, start: nat, n: nat)
    reads json
  {
    start <= n < json.Length && json[n] == 0 && forall i :: start <= i < n ==> json[i] != 0
  }

  /** Moves past a `//` comment. */
  method SkipOneLineComment(json: array<byte>, start: nat, ghost n: nat) returns (p: nat)
    requires Terminated(json, start, n) && start + 2 <= n
    ensures p == start + 2 + LineComment(json[start + 2..n])
  {
    p := start + 2;
    while json[p] != 0
      invariant start + 2 <= p <= n
      invariant p - start - 2 + LineComment(json[p..n]) == LineComment(json[start + 2..n])
      decreases n - p
    {
      assert json[p..n][1..] == json[p + 1..n];
      if json[p] == LINE_FEED {
        return p + 1;
      }
      p := p + 1;
    }
  }

  /** Moves past a block comment. */
  method SkipMultiLineComment(json: array<byte>, start: nat, ghost n: nat) returns (p: nat)
    requires Terminated(json, start, n) && start + 2 <= n
    ensures p == start + 2 + BlockComment(json[start + 2..n])
  {
    p := start + 2;
    while json[p] != 0
      invariant start + 2 <= p <= n
      invariant p - start - 2 + BlockComment(json[p..n]) == BlockComment(json[start + 2..n])
      decreases n - p
    {
      assert json[p..n][1..] == json[p + 1..n];
      if json[p] == STAR && json[p + 1] == SLASH {
        return p + 2;
      }
      p := p + 1;
    }
  }

  /** `StringRest` of the text between two positions. */
  ghost function Rest(text: bytes, p: nat, n: nat): nat
    requires p <= n <= |text|
  {
    StringRest(text[p..n])
  }

  lemma RestAt(text: bytes, p: nat, n: nat)
    requires p <= n <= |text|
    ensures Rest(text, p, n) ==
      if p == n then 0
      else if text[p] == QUOTE then 1
      else if text[p] == BACKSLASH && p + 1 < n && text[p + 1] == QUOTE then 2 + Rest(text, p + 2, n)
      else 1 + Rest(text, p + 1, n)
  {
    if p < n {
      assert text[p..n][1..] == text[p + 1..n];
      if p + 1 < n {
        assert text[p..n][2..] == text[p + 2..n];
      }
    }
  }

  /** Copies a byte of a string, or a quote and the backslash in front of it, and says whether the string ends. */
  method MoveNext(json: array<byte>, p: nat, o: nat, ghost text: bytes, ghost into: nat, ghost start: nat, ghost n: nat)
    returns (q: nat, closed: bool)
    requires Moved(text, json[..], into, start, p) && p < n < |text| && o == into + (p - start)
    requires text[n] == 0 && json[p] == text[p]
    modifies json
    ensures p < q <= n && Moved(text, json[..], into, start, q) && q < json.Length && json[q] == text[q]
    ensures Rest(text, p, n) == (q - p) + if closed then 0 else Rest(text, q, n)
  {
    hide Rest, Moved;
    RestAt(text, p, n);
    MoveByte(json, p, o, text, into, start, n);
    q, closed := p + 1, false;
    if json[p] == QUOTE {
      closed := true;
    } else if json[p] == BACKSLASH && json[p + 1] == QUOTE {
      MoveByte(json, p + 1, o + 1, text, into, start, n);
      q := p + 2;
    }
  }

  /** Copies a string token down to `into`, which the read position never lags behind. */
  method MinifyString(json: array<byte>, start: nat, into: nat, ghost n: nat) returns (p: nat, o: nat)
    requires Terminated(json, start, n) && into <= start < n
    modifies json
    ensures p == start + 1 + Rest(old(json[..]), start + 1, n) <= n && o == into + (p - start)
    ensures Moved(old(json[..]), json[..], into, start, p)
  {
    hide Rest, Moved;
    ghost var text := json[..];
    MovedFirst(text, into, start);
    p, o := start, into;
    MoveByte(json, p, o, text, into, start, n);
    p, o := p + 1, o + 1;
    while json[p] != 0
      invariant start < p <= n && o - into == p - start
      invariant p - start - 1 + Rest(text, p, n) == Rest(text, start + 1, n)
      invariant Moved(text, json[..], into, start, p) && json[p] == text[p]
      decreases n - p
    {
      var q, closed := MoveNext(json, p, o, text, into, start, n);
      p, o := q, o + (q - p);
      if closed {
        return;
      }
    }
    RestAt(text, n, n);
  }

  /** Copies the byte at `p` down to `o`. */
  method MoveByte(json: array<byte>, p: nat, o: nat, ghost text: bytes, ghost into: nat, ghost start: nat, ghost n: nat)
    requires Moved(text, json[..], into, start, p) && p < n < |text| && o == into + (p - start)
    modifies json
    ensures Moved(text, json[..], into, start, p + 1)
    ensures p + 1 < json.Length && json[p] == text[p] && json[p + 1] == text[p + 1]
    ensures p + 1 < n ==> p + 2 < json.Length && json[p + 2] == text[p + 2]
  {
    json[o] := json[p];
  }

  /** The bytes of `text` from `start` to `p` were moved down to `into`; those not yet overwritten stand. */
  ghost predicate Moved(text: bytes, now: bytes, into: nat, start: nat, p: nat) {
    && into <= start <= p <= |text| == |now|
    && (forall i :: 0 <= i < into ==> now[i] == text[i])
    && (forall i :: into <= i < into + (p - start) ==> now[i] == text[i - into + start])
    && (forall i :: p <= i < |text| ==> now[i] == text[i])
  }

  lemma MovedFirst(text: bytes, into: nat, start: nat)
    requires into <= start <= |text|
    ensures Moved(text, text, into, start, start)
  {
  }

  /** What a turn of the minifier does to the text still to be read, which ends at `n`. */
  ghost function Left(text: bytes, p: nat, n: nat): bytes
    requires p <= n <= |text|
  {
    Minified(text[p..n])
  }

  lemma LeftAtStart(text: bytes, n: nat)
    requires n <= |text|
    ensures Left(text, 0, n) == Minified(text[..n])
  {
  }

  lemma Drop(text: bytes, p: nat, k: nat, n: nat)
    requires p + k <= n <= |text|
    ensures text[p..n][k..] == text[p + k..n]
  {
  }

  lemma LeftPlain(text: bytes, p: nat, n: nat)
    requires p < n <= |text| && text[p] != SLASH && text[p] != QUOTE
    ensures Left(text, p, n) == (if IsBlank(text[p]) then [] else [text[p]]) + Left(text, p + 1, n)
  {
    Drop(text, p, 1, n);
    assert [] + Left(text, p + 1, n) == Left(text, p + 1, n);
  }

  lemma {:induction false} LeftSlash(text: bytes, p: nat, n: nat)
    requires p < n <= |text| && text[p] == SLASH
    ensures Left(text, p, n) ==
      if p + 1 < n && text[p + 1] == SLASH then Left(text, p + 2 + LineComment(text[p + 2..n]), n)
      else if p + 1 < n && text[p + 1] == STAR then Left(text, p + 2 + BlockComment(text[p + 2..n]), n)
      else Left(text, p + 1, n)
  {
    hide Minified, LineComment, BlockComment;
    MinifiedSlash(text[p..n]);
    Drop(text, p, 1, n);
    if p + 1 < n && (text[p + 1] == SLASH || text[p + 1] == STAR) {
      Drop(text, p, 2, n);
      var rest := text[p + 2..n];
      Drop(text, p + 2, if text[p + 1] == SLASH then LineComment(rest) else BlockComment(rest), n);
    }
  }

  lemma LeftQuote(text: bytes, p: nat, n: nat)
    requires p < n <= |text| && text[p] == QUOTE
    ensures var e := p + 1 + Rest(text, p + 1, n); e <= n && Left(text, p, n) == text[p..e] + Left(text, e, n)
  {
    hide StringRest;
    Drop(text, p, 1, n);
    var k := 1 + StringRest(text[p..n][1..]);
    Drop(text, p, k, n);
    assert text[p..n][..k] == text[p..p + k];
  }

  /** The minified text so far stands at the front; from the read position on nothing has changed. */
  ghost predicate Front(text: bytes, now: bytes, done: bytes, p: nat) {
    && |done| <= p <= |text| == |now|
    && now[..|done|] == done && now[p..] == text[p..]
  }

  lemma FrontMoved(text: bytes, now: bytes, after: bytes, done: bytes, p: nat, e: nat)
    requires Front(text, now, done, p) && Moved(now, after, |done|, p, e)
    ensures Front(text, after, done + text[p..e], e)
  {
    forall i | 0 <= i < |done| + (e - p) ensures after[i] == (done + text[p..e])[i] {
      if i < |done| {
        assert after[i] == now[i] == done[i];
      } else {
        var k := i - |done|;
        assert after[i] == now[p + k] == now[p..][k] == text[p..][k] == text[p + k] == text[p..e][k];
      }
    }
    forall i | e <= i < |text| ensures after[i] == text[i] {
      assert now[i] == now[p..][i - p] == text[p..][i - p];
    }
  }

  lemma FrontByte(text: bytes, now: bytes, done: bytes, p: nat)
    requires Front(text, now, done, p) && p < |text|
    ensures Front(text, now, done, p + 1)
    ensures Front(text, now[|done| := text[p]], done + [text[p]], p + 1)
  {
    assert now[p + 1..] == now[p..][1..] && text[p + 1..] == text[p..][1..];
  }

  lemma FrontSame(text: bytes, now: bytes, done: bytes, p: nat, e: nat, n: nat)
    requires Front(text, now, done, p) && p <= e <= n < |text|
    ensures Front(text, now, done, e) && now[e] == text[e] && now[e + 1..n + 1] == text[e + 1..n + 1]
    ensures now[e..n + 1] == text[e..n + 1] && now[n + 1..] == text[n + 1..]
  {
    assert forall i :: p <= i < |text| ==> now[i] == now[p..][i - p] && text[i] == text[p..][i - p];
  }

  /** The text up to `p` is minified to `done` in front, what is left is as it was, and nothing is lost. */
  ghost predicate Stage(text: bytes, now: bytes, done: bytes, p: nat, n: nat) {
    && Front(text, now, done, p) && p <= n < |text| && done + Left(text, p, n) == Left(text, 0, n)
    && text[n] == 0 && forall i :: 0 <= i < n ==> text[i] != 0
  }

  lemma StageStarts(text: bytes, n: nat)
    requires n < |text| && text[n] == 0 && forall i :: 0 <= i < n ==> text[i] != 0
    ensures Stage(text, text, [], 0, n)
  {
    hide Left;
    FrontStart(text);
    assert [] + Left(text, 0, n) == Left(text, 0, n);
  }

  lemma StageTerminated(text: bytes, json: array<byte>, done: bytes, p: nat, n: nat)
    requires Stage(text, json[..], done, p, n)
    ensures Terminated(json, p, n) && |done| <= p <= n < |text| == json.Length && json[p] == text[p]
    ensures json[p] == 0 ==> p == n
  {
    hide Left;
    assert forall i :: p <= i <= n ==> json[..][i] == json[..][p..][i - p] && text[i] == text[p..][i - p];
  }

  /** A blank or a comment is dropped. */
  lemma StageDrops(text: bytes, now: bytes, done: bytes, p: nat, q: nat, n: nat)
    requires Stage(text, now, done, p, n) && p <= q <= n && Left(text, p, n) == Left(text, q, n)
    ensures Stage(text, now, done, q, n)
  {
    hide Left, Front;
    FrontSame(text, now, done, p, q, n);
  }

  /** A string or any other byte is kept. */
  lemma StageKeeps(text: bytes, now: bytes, after: bytes, done: bytes, p: nat, q: nat, n: nat)
    requires Stage(text, now, done, p, n) && p <= q <= n && Left(text, p, n) == text[p..q] + Left(text, q, n)
    requires Front(text, after, done + text[p..q], q)
    ensures Stage(text, after, done + text[p..q], q, n)
  {
    hide Left, Front;
    Assoc(done, text[p..q], Left(text, q, n));
  }

  method KeepString(json: array<byte>, p: nat, ghost text: bytes, ghost done: bytes, ghost n: nat, into: nat)
    returns (q: nat, o: nat)
    requires Stage(text, json[..], done, p, n) && p < n && json[p] == QUOTE == text[p] && into == |done|
    modifies json
    ensures p < q <= n && o == into + (q - p) && Stage(text, json[..], done + text[p..q], q, n)
  {
    hide Left, Front, Rest, Moved, Stage;
    StageTerminated(text, json, done, p, n);
    StageFront(text, json[..], done, p, n);
    FrontSame(text, json[..], done, p, p, n);
    LeftQuote(text, p, n);
    RestSame(text, json[..], p, n);
    ghost var now := json[..];
    q, o := MinifyString(json, p, into, n);
    FrontMoved(text, now, json[..], done, p, q);
    StageKeeps(text, now, json[..], done, p, q, n);
  }

  lemma StageFront(text: bytes, now: bytes, done: bytes, p: nat, n: nat)
    requires Stage(text, now, done, p, n)
    ensures Front(text, now, done, p) && |text| == |now|
  {
  }

  method KeepByte(json: array<byte>, p: nat, ghost text: bytes, ghost done: bytes, ghost n: nat, into: nat)
    requires Stage(text, json[..], done, p, n) && p < n < json.Length && json[p] == text[p] && into == |done| <= p
    requires text[p] != SLASH && text[p] != QUOTE && !IsBlank(text[p])
    modifies json
    ensures Stage(text, json[..], done + [text[p]], p + 1, n)
  {
    hide Left, Front, Stage;
    StageFront(text, json[..], done, p, n);
    LeftPlain(text, p, n);
    FrontByte(text, json[..], done, p);
    ghost var now := json[..];
    json[into] := json[p];
    assert json[..] == now[|done| := text[p]];
    assert [text[p]] == text[p..p + 1];
    StageKeeps(text, now, json[..], done, p, p + 1, n);
  }

  /** Minifies the C string in `json`; the write position never passes the read position. */
  method Minify(json: array<byte>, ghost n: nat)
    requires Terminated(json, 0, n)
    modifies json
    ensures var r := Minified(old(json[..n])); |r| <= n && json[..|r| + 1] == r + [0]
    ensures json[n + 1..] == old(json[n + 1..])
  {
    hide Minified, Left, Front, Stage, LineComment, BlockComment;
    ghost var text := json[..];
    var p, into := 0, 0;
    ghost var done: bytes := [];
    StageStarts(text, n);
    StageTerminated(text, json, done, p, n);
    while json[p] != 0
      invariant 0 <= p <= n && into == |done| <= p
      invariant Stage(text, json[..], done, p, n) && Terminated(json, p, n)
      decreases n - p
    {
      StageTerminated(text, json, done, p, n);
      ghost var start := p;
      if IsBlank(json[p]) {
        LeftPlain(text, p, n);
        NothingKept(Left(text, p + 1, n));
        p := p + 1;
        StageDrops(text, json[..], done, start, p, n);
      } else if json[p] == SLASH {
        p := DropSlash(json, p, text, done, n);
      } else if json[p] == QUOTE {
        p, into := KeepString(json, p, text, done, n, into);
        done := done + text[start..p];
      } else {
        KeepByte(json, p, text, done, n, into);
        p, into := p + 1, into + 1;
        done := done + [text[start]];
      }
      StageTerminated(text, json, done, p, n);
    }
    StageTerminated(text, json, done, p, n);
    StageEnds(text, json[..], done, n);
    json[into] := 0;
  }

  lemma NothingKept(rest: bytes)
    ensures [] + rest == rest
  {
  }

  lemma StageEnds(text: bytes, now: bytes, done: bytes, n: nat)
    requires Stage(text, now, done, n, n)
    ensures done == Minified(text[..n]) && now[..|done|] == done && now[n + 1..] == text[n + 1..]
  {
    hide Left, Minified, Front;
    LeftAtStart(text, n);
    LeftEnd(text, n);
    FrontEnd(text, now, done, n);
    assert done + [] == done;
  }

  /** A comment, or a slash by itself. */
  method DropSlash(json: array<byte>, p: nat, ghost text: bytes, ghost done: bytes, ghost n: nat) returns (q: nat)
    requires Stage(text, json[..], done, p, n) && p < n && json[p] == SLASH == text[p]
    ensures p < q <= n && Stage(text, json[..], done, q, n)
  {
    hide Left, Front, Stage, LineComment, BlockComment;
    StageTerminated(text, json, done, p, n);
    StageFront(text, json[..], done, p, n);
    FrontSame(text, json[..], done, p, p, n);
    LeftSlash(text, p, n);
    q := SkipSlash(json, p, text, n);
    StageDrops(text, json[..], done, p, q, n);
  }

  lemma FrontStart(text: bytes)
    ensures Front(text, text, [], 0)
  {
  }

  lemma FrontEnd(text: bytes, now: bytes, done: bytes, n: nat)
    requires Front(text, now, done, n) && n < |text|
    ensures now[..|done|] == done && now[n + 1..] == text[n + 1..]
  {
    assert now[n + 1..] == now[n..][1..] && text[n + 1..] == text[n..][1..];
  }

  lemma LeftEnd(text: bytes, n: nat)
    requires n <= |text|
    ensures Left(text, n, n) == []
  {
  }

  lemma RestSame(text: bytes, now: bytes, p: nat, n: nat)
    requires p < n < |text| == |now| && now[p + 1..n + 1] == text[p + 1..n + 1]
    ensures Rest(now, p + 1, n) == Rest(text, p + 1, n)
  {
    assert now[p + 1..n] == now[p + 1..n + 1][..n - p - 1] && text[p + 1..n] == text[p + 1..n + 1][..n - p - 1];
  }

  lemma SubSlice(t: bytes, a: nat, b: nat, c: nat, d: nat)
    requires a <= b <= |t| && c <= d <= b - a
    ensures t[a..b][c..d] == t[a + c..a + d]
  {
    forall i | 0 <= i < d - c ensures t[a..b][c..d][i] == t[a + c..a + d][i] {
      assert t[a..b][c + i] == t[a + (c + i)];
    }
  }

  /** A slash starts a comment, or is dropped on its own. */
  method SkipSlash(json: array<byte>, start: nat, ghost text: bytes, ghost n: nat) returns (p: nat)
    requires Terminated(json, start, n) && start < n < |text| == json.Length && json[start] == SLASH
    requires json[start..n + 1] == text[start..n + 1]
    ensures start < p <= n
    ensures p ==
      if start + 1 < n && text[start + 1] == SLASH then start + 2 + LineComment(text[start + 2..n])
      else if start + 1 < n && text[start + 1] == STAR then start + 2 + BlockComment(text[start + 2..n])
      else start + 1
  {
    hide LineComment, BlockComment;
    assert json[start + 1] == json[start..n + 1][1] == text[start + 1];
    if start + 2 <= n {
      SubSlice(json[..], start, n + 1, 2, n - start);
      SubSlice(text, start, n + 1, 2, n - start);
      assert json[..][start..n + 1] == json[start..n + 1] && json[..][start + 2..n] == json[start + 2..n];
    }
    if json[start + 1] == SLASH {
      p := SkipOneLineComment(json, start, n);
    } else if json[start + 1] == STAR {
      p := SkipMultiLineComment(json, start, n);
    } else {
      p := start + 1;
    }
  }
}

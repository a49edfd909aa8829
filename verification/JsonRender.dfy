/** The text of a tree: what the printer writes, as a function. */
module JsonRender {
  import opened JsonTree
  import opened JsonStrings

  function Digits(n: nat): (s: bytes)
    ensures s != []
  {
    if n < 10 then [ZERO + n] else Digits(n / 10) + [ZERO + n % 10]
  }

  /** What `%d` prints. */
  function Decimal(n: int): (s: bytes)
    ensures s != []
  {
    if n < 0 then [MINUS] + Digits(-n) else Digits(n)
  }

  function Tabs(n: nat): (s: bytes)
    ensures |s| == n
    ensures forall i :: 0 <= i < n ==> s[i] == TAB
  {
    seq(n, _ => TAB)
  }

  /** The layout bytes of formatted text, and nothing otherwise. */
  function Layout(format: bool, s: bytes): bytes {
    if format then s else []
  }

  /** The text of `v`, `depth` containers deep. */
  function Render(v: Json, format: bool, depth: nat): bytes
    requires IntegerNumbers(v)
    decreases v, 1
  {
    match v
    case Null => NULL_TEXT
    case False => FALSE_TEXT
    case True => TRUE_TEXT
    case Number(d) => Decimal(d.Floor)
    case String(s) => Quoted(s)
    case Array(items) => [LEFT_BRACKET] + RenderItems(items, format, depth + 1) + [RIGHT_BRACKET]
    case Object(members) =>
      [LEFT_BRACE] + Layout(format, [LINE_FEED])
      + RenderMembers(members, format, depth + 1)
      + Layout(format, Tabs(depth)) + [RIGHT_BRACE]
  }

  function RenderItems(items: seq<Json>, format: bool, depth: nat): bytes
    requires IntegerItems(items)
    decreases items, 0
  {
    if items == [] then []
    else if |items| == 1 then Render(items[0], format, depth)
    else
      Render(items[0], format, depth) + ([COMMA] + Layout(format, [SPACE]) + RenderItems(items[1..], format, depth))
  }

  /** A member without its indentation. */
  function RenderMember(m: Member, format: bool, depth: nat): bytes
    requires IntegerNumbers(m.value)
    decreases m, 2
  {
    Quoted(m.key) + ([COLON] + Layout(format, [TAB])) + Render(m.value, format, depth)
  }

  /** What separates a member from the next one, or ends the last one's line. */
  function AfterMember(last: bool, format: bool): bytes {
    (if last then [] else [COMMA]) + Layout(format, [LINE_FEED])
  }

  function RenderMembers(members: seq<Member>, format: bool, depth: nat): bytes
    requires IntegerMembers(members)
    decreases members, 0
  {
    if members == [] then []
    else
      Layout(format, Tabs(depth)) + RenderMember(members[0], format, depth)
      + (AfterMember(|members| == 1, format) + RenderMembers(members[1..], format, depth))
  }

  // ----- The layout in plain bytes

  function Join(parts: seq<bytes>, separator: bytes): bytes {
    if parts == [] then []
    else if |parts| == 1 then parts[0]
    else parts[0] + (separator + Join(parts[1..], separator))
  }

  function ItemTexts(items: seq<Json>, format: bool, depth: nat): seq<bytes>
    requires IntegerItems(items)
  {
    if items == [] then [] else [Render(items[0], format, depth)] + ItemTexts(items[1..], format, depth)
  }

  /** A member's line: `depth` tabs, the name, a colon (58), a tab (9) and the value; or without tabs. */
  function MemberLine(m: Member, format: bool, depth: nat): bytes
    requires IntegerNumbers(m.value)
  {
    if format then seq(depth, _ => 9) + Quoted(m.key) + [58, 9] + Render(m.value, true, depth)
    else Quoted(m.key) + [58] + Render(m.value, false, depth)
  }

  function MemberLines(members: seq<Member>, format: bool, depth: nat): seq<bytes>
    requires IntegerMembers(members)
  {
    if members == [] then []
    else [MemberLine(members[0], format, depth)] + MemberLines(members[1..], format, depth)
  }

  lemma {:induction false} ItemsJoined(items: seq<Json>, format: bool, depth: nat)
    requires IntegerItems(items)
    ensures RenderItems(items, format, depth)
      == Join(ItemTexts(items, format, depth), if format then [44, 32] else [44])
    ensures |ItemTexts(items, format, depth)| == |items|
  {
    hide Render, IntegerNumbers;
    if items != [] {
      ItemsJoined(items[1..], format, depth);
      var parts := ItemTexts(items, format, depth);
      assert parts[1..] == ItemTexts(items[1..], format, depth);
    }
  }

  lemma MemberLineIs(m: Member, format: bool, depth: nat)
    requires IntegerNumbers(m.value)
    ensures Layout(format, Tabs(depth)) + RenderMember(m, format, depth) == MemberLine(m, format, depth)
  {
    hide Render, Quoted, IntegerNumbers;
  }

  lemma {:induction false} MembersJoined(members: seq<Member>, format: bool, depth: nat)
    requires IntegerMembers(members) && members != []
    ensures RenderMembers(members, format, depth)
      == Join(MemberLines(members, format, depth), if format then [44, 10] else [44]) + (if format then [10] else [])
    ensures |MemberLines(members, format, depth)| == |members|
  {
    hide Render, IntegerNumbers, RenderMember, MemberLine, Tabs;
    MemberLineIs(members[0], format, depth);
    var line, rest := MemberLine(members[0], format, depth), members[1..];
    var lines, more := MemberLines(members, format, depth), MemberLines(rest, format, depth);
    assert lines[1..] == more;
    assert RenderMembers(members, format, depth)
      == line + (AfterMember(|members| == 1, format) + RenderMembers(rest, format, depth));
    if |members| > 1 {
      MembersJoined(rest, format, depth);
      var comma, end := if format then [44, 10] else [44], if format then [10] else [];
      assert AfterMember(false, format) == comma;
      assert line + (comma + (Join(more, comma) + end)) == line + (comma + Join(more, comma)) + end;
    }
  }

  /**
   * Formatted: items are separated by a comma and a space; members stand on a line each, one tab deeper than their
   * object, separated by a comma and a line feed, and the closing brace on a line of its own. Unformatted: commas
   * alone.
   */
  lemma LayoutBytes(items: seq<Json>, members: seq<Member>, depth: nat)
    requires IntegerItems(items) && IntegerMembers(members)
    ensures Render(Array(items), true, depth) == [91] + Join(ItemTexts(items, true, depth + 1), [44, 32]) + [93]
    ensures Render(Array(items), false, depth) == [91] + Join(ItemTexts(items, false, depth + 1), [44]) + [93]
    ensures Render(Object(members), true, depth)
      == [123, 10] + (if members == [] then [] else Join(MemberLines(members, true, depth + 1), [44, 10]) + [10])
         + seq(depth, _ => 9) + [125]
    ensures Render(Object(members), false, depth) == [123] + Join(MemberLines(members, false, depth + 1), [44]) + [125]
  {
    hide Join, ItemTexts, MemberLines, RenderItems, RenderMembers, IntegerItems, IntegerMembers;
    ItemsJoined(items, true, depth + 1);
    ItemsJoined(items, false, depth + 1);
    if members == [] {
      NoLines(depth + 1);
    } else {
      MembersJoined(members, true, depth + 1);
      MembersJoined(members, false, depth + 1);
    }
    assert Tabs(depth) == seq(depth, _ => 9);
  }

  lemma NoLines(depth: nat)
    ensures forall format :: RenderMembers([], format, depth) == [] && Join(MemberLines([], format, depth), [44]) == []
  {
  }
}

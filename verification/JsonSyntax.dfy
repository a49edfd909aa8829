/** The texts the parser accepts, and no others. */
module JsonSyntax {
  import opened JsonTree
  import opened JsonStrings
  import opened JsonLiterals
  import opened JsonGrammar
  import opened JsonRoundTrip
  import opened JsonNumerals

  // ----- Concrete syntax: texts with their blanks

  datatype Text =
    | NullText
    | FalseText
    | TrueText
    | NumberText(numeral: Numeral)
    | LiteralText(literal: StringText)
    | ArrayText(gap: bytes, items: seq<ItemText>)       // `gap` between the brackets of an empty array
    | ObjectText(space: bytes, members: seq<MemberText>)  // `space` between the braces of an empty object

  datatype ItemText = ItemText(before: bytes, value: Text, after: bytes)

  datatype MemberText = MemberText(
    before: bytes, name: StringText, afterName: bytes, beforeValue: bytes, value: Text, after: bytes)

  /** The bytes of a text: `null`, `false`, `true`, `[`, `]`, `{` and `}`, commas and colons by their codes. */
  function BytesOf(t: Text): bytes
    decreases t, 1
  {
    match t
    case NullText => [110, 117, 108, 108]
    case FalseText => [102, 97, 108, 115, 101]
    case TrueText => [116, 114, 117, 101]
    case NumberText(numeral) => numeral.Text()
    case LiteralText(literal) => literal.Text()
    case ArrayText(gap, items) => [91] + (if items == [] then gap else ItemsBytes(items)) + [93]
    case ObjectText(space, members) => [123] + (if members == [] then space else MembersBytes(members)) + [125]
  }

  function ItemsBytes(items: seq<ItemText>): bytes
    decreases items, 0
  {
    if items == [] then []
    else
      items[0].before + BytesOf(items[0].value) + items[0].after
      + (if |items| == 1 then [] else [44] + ItemsBytes(items[1..]))
  }

  /** A member up to its colon. */
  function NameBytes(m: MemberText): bytes {
    m.before + m.name.Text() + m.afterName + [58]
  }

  function MembersBytes(members: seq<MemberText>): bytes
    decreases members, 0
  {
    if members == [] then []
    else
      NameBytes(members[0]) + (members[0].beforeValue + BytesOf(members[0].value) + members[0].after)
      + (if |members| == 1 then [] else [44] + MembersBytes(members[1..]))
  }

  /** Blanks are the bytes up to 32. */
  predicate AllBlank(s: bytes) {
    forall i :: 0 <= i < |s| ==> s[i] <= 32
  }

  /** Numbers are numerals of at most 63 bytes, strings valid literals, and all else between tokens is blank. */
  ghost predicate Valid(t: Text)
    decreases t, 1
  {
    match t
    case NumberText(numeral) => numeral.Valid() && |numeral.Text()| <= 63 && StartsNumber(numeral)
    case LiteralText(literal) => literal.Valid()
    case ArrayText(gap, items) => AllBlank(gap) && ItemsValid(items)
    case ObjectText(space, members) => AllBlank(space) && MembersValid(members)
    case _ => true
  }

  /** A number starts with a digit or a minus sign. */
  predicate StartsNumber(m: Numeral) {
    m.sign.Minus? || (m.sign.NoSign? && m.whole != [])
  }

  ghost predicate ItemsValid(items: seq<ItemText>)
    decreases items, 0
  {
    items == []
    || (AllBlank(items[0].before) && AllBlank(items[0].after) && Valid(items[0].value) && ItemsValid(items[1..]))
  }

  ghost predicate MembersValid(members: seq<MemberText>)
    decreases members, 0
  {
    members == []
    || (&& AllBlank(members[0].before) && members[0].name.Valid() && AllBlank(members[0].afterName)
        && AllBlank(members[0].beforeValue) && Valid(members[0].value) && AllBlank(members[0].after)
        && MembersValid(members[1..]))
  }

  /** The tree a text stands for. */
  function TreeOf(t: Text): Json
    decreases t, 1
  {
    match t
    case NullText => Null
    case FalseText => False
    case TrueText => True
    case NumberText(numeral) => Number(numeral.Value())
    case LiteralText(literal) => String(literal.Value())
    case ArrayText(_, items) => Array(TreesOf(items))
    case ObjectText(_, members) => Object(MembersOf(members))
  }

  function TreesOf(items: seq<ItemText>): seq<Json>
    decreases items, 0
  {
    if items == [] then [] else [TreeOf(items[0].value)] + TreesOf(items[1..])
  }

  function MembersOf(members: seq<MemberText>): seq<Member>
    decreases members, 0
  {
    if members == [] then []
    else [Member(members[0].name.Value(), TreeOf(members[0].value))] + MembersOf(members[1..])
  }

  /** `t` stands at `o`; a number is not part of a longer one. */
  ghost predicate Stands(c: bytes, o: nat, t: Text) {
    Valid(t) && At(c, o, BytesOf(t)) && (t.NumberText? ==> Longest(c, o, t.numeral))
  }

  /** The containers of `t` nest within the limit when `depth` are open around it. */
  predicate Fits(t: Text, depth: nat) {
    Nesting(TreeOf(t)) == 0 || depth + Nesting(TreeOf(t)) <= 1000
  }

  // ----- Every such text is accepted

  lemma NumeralStart(m: Numeral)
    requires m.Valid() && StartsNumber(m)
    ensures m.Text() != [] && (m.Text()[0] == 45 || 48 <= m.Text()[0] <= 57)
  {
  }

  /** The first byte tells the kind of a text, and is never a blank or a closing bracket. */
  lemma FirstByte(t: Text)
    requires Valid(t)
    ensures BytesOf(t) != []
    ensures BytesOf(t)[0] == (match t
                              case NullText => 110
                              case FalseText => 102
                              case TrueText => 116
                              case NumberText(m) => BytesOf(t)[0]
                              case LiteralText(_) => 34
                              case ArrayText(_, _) => 91
                              case ObjectText(_, _) => 123)
    ensures t.NumberText? ==> BytesOf(t)[0] == 45 || 48 <= BytesOf(t)[0] <= 57
  {
    if t.NumberText? {
      NumeralStart(t.numeral);
    }
  }

  /** A numeral behind which no number byte stands is not part of a longer one. */
  lemma NumeralEnds(c: bytes, o: nat, m: Numeral)
    requires m.Valid() && |m.Text()| <= 63 && At(c, o, m.Text())
    requires o + |m.Text()| < |c| && !IsNumberByte(c[o + |m.Text()|])
    ensures Longest(c, o, m)
  {
    hide Numeral.Text, At, IsNumberByte;
    forall l: Numeral | l.Valid() && At(c, o, l.Text()) && |l.Text()| <= 63 ensures |l.Text()| <= |m.Text()| {
      if |l.Text()| > |m.Text()| {
        NumeralBytes(l);
        AtIndex(c, o, l.Text(), |m.Text()|);
      }
    }
  }

  lemma StandsBefore(c: bytes, o: nat, t: Text)
    requires Valid(t) && At(c, o, BytesOf(t))
    requires o + |BytesOf(t)| < |c| && !IsNumberByte(c[o + |BytesOf(t)|])
    ensures Stands(c, o, t)
  {
    hide At, IsNumberByte, Numeral.Text;
    if t.NumberText? {
      NumeralEnds(c, o, t.numeral);
    }
  }

  /** Blanks and then a value. */
  lemma ValueBehind(c: bytes, o: nat, blanks: bytes, t: Text)
    requires AllBlank(blanks) && At(c, o, blanks) && Valid(t) && At(c, o + |blanks|, BytesOf(t))
    ensures BlanksTo(c, o, o + |blanks|) && c[o + |blanks|] == BytesOf(t)[0]
  {
    FirstByte(t);
    BlankText(c, o, blanks);
    AtIndex(c, o + |blanks|, BytesOf(t), 0);
  }

  /** A value between blanks, with `rest` behind them: the value from `p` to `e`, and the separator at `z`. */
  lemma ValuePlaces(c: bytes, o: nat, before: bytes, t: Text, after: bytes, rest: bytes)
      returns (p: nat, e: nat, z: nat)
    requires AllBlank(before) && AllBlank(after) && Valid(t) && rest != [] && rest[0] in {44, 93, 125}
    requires At(c, o, before + BytesOf(t) + after + rest)
    ensures BlanksTo(c, o, p) && Stands(c, p, t) && e == p + |BytesOf(t)| && c[p] == BytesOf(t)[0]
    ensures BlanksTo(c, e, z) && c[z] == rest[0] && At(c, z, rest) && z == o + |before + BytesOf(t) + after|
  {
    hide At, BytesOf, IsNumberByte, Valid;
    p, e := o + |before|, o + |before| + |BytesOf(t)|;
    z := e + |after|;
    AtSplit(c, o, before + BytesOf(t) + after, rest);
    AtThree(c, o, before, BytesOf(t), after);
    ValueBehind(c, o, before, t);
    AtIndex(c, z, rest, 0);
    AtInside(c, z, rest);
    BlankText(c, e, after);
    BlankNumber(c, e, z);
    StandsBefore(c, p, t);
  }

  /** Where the first of some items stands: its value from `p` to `e`, and the comma or bracket behind it at `z`. */
  lemma ItemPlaces(c: bytes, o: nat, items: seq<ItemText>) returns (p: nat, e: nat, z: nat)
    requires items != [] && ItemsValid(items) && At(c, o, ItemsBytes(items) + [93])
    ensures BlanksTo(c, o, p) && Stands(c, p, items[0].value) && e == p + |BytesOf(items[0].value)|
    ensures c[p] == BytesOf(items[0].value)[0] && BlanksTo(c, e, z)
    ensures |items| == 1 ==> c[z] == 93 && z == o + |ItemsBytes(items)|
    ensures |items| > 1 ==> c[z] == 44 && At(c, z + 1, ItemsBytes(items[1..]) + [93])
    ensures |items| > 1 ==> z + 1 + |ItemsBytes(items[1..])| == o + |ItemsBytes(items)|
  {
    hide At, BytesOf, Stands;
    var i := items[0];
    var rest := if |items| == 1 then [93] else [44] + (ItemsBytes(items[1..]) + [93]);
    assert ItemsBytes(items) + [93] == i.before + BytesOf(i.value) + i.after + rest;
    p, e, z := ValuePlaces(c, o, i.before, i.value, i.after, rest);
    if |items| > 1 {
      AtSplit(c, z, [44], ItemsBytes(items[1..]) + [93]);
    }
  }

  /** Blanks and a separator end a number. */
  lemma BlankNumber(c: bytes, e: nat, z: nat)
    requires Blank(c, e, z) && z < |c| && c[z] in {44, 93, 125}
    ensures BlanksTo(c, e, z) && !IsNumberByte(c[e])
  {
  }

  lemma FitsInside(first: nat, rest: nat, depth: nat)
    ensures depth + Max(first, rest) <= 1000 <==> depth + first <= 1000 && depth + rest <= 1000
  {
  }

  /** Blanks before the first item do not matter. */
  lemma ItemsFrom(c: bytes, o: nat, p: nat, depth: nat)
    requires BlanksTo(c, o, p)
    ensures ItemsAt(c, o, depth) == ItemsAt(c, p, depth)
  {
    hide ValueAt;
    SkipTo(c, o, p);
    SkipTo(c, p, p);
  }

  /** Reading one item and what follows it. */
  lemma ItemStep(c: bytes, o: nat, p: nat, z: nat, depth: nat)
    requires BlanksTo(c, o, p) && z < |c| && (c[z] == COMMA || c[z] == RIGHT_BRACKET)
    requires ValueAt(c, p, depth).Done? ==> BlanksTo(c, ValueAt(c, p, depth).offset, z)
    ensures var item := ValueAt(c, p, depth);
      ItemsAt(c, o, depth)
      == if item.Fail? then Fail
         else if c[z] == RIGHT_BRACKET then Done([item.value], z + 1)
         else
           var rest := ItemsAt(c, z + 1, depth);
           if rest.Fail? then Fail else Done([item.value] + rest.value, rest.offset)
  {
    hide ValueAt, BlanksEnd;
    SkipTo(c, o, p);
    if ValueAt(c, p, depth).Done? {
      SkipTo(c, ValueAt(c, p, depth).offset, z);
    }
  }

  lemma {:induction false} ItemsAccepted(c: bytes, o: nat, items: seq<ItemText>, depth: nat)
    requires items != [] && ItemsValid(items) && At(c, o, ItemsBytes(items) + [93]) && depth <= 1000
    ensures o + |ItemsBytes(items)| < |c|
    ensures ItemsAt(c, o, depth)
      == Verdict(depth + NestingOfItems(TreesOf(items)) <= 1000, TreesOf(items), o + |ItemsBytes(items)| + 1)
    decreases items, 1
  {
    hide At, BytesOf, ItemsBytes, ItemsValid, ItemsAt, ValueAt, TreeOf, TreesOf, Nesting, NestingOfItems, Stands;
    AtInside(c, o, ItemsBytes(items) + [93]);
    var p, e, z := ItemPlaces(c, o, items);
    Accepted(c, p, items[0].value, depth);
    ItemStep(c, o, p, z, depth);
    TreesSplit(items);
    if |items| > 1 {
      ItemsTail(items);
      ItemsAccepted(c, z + 1, items[1..], depth);
    }
  }

  lemma ItemsTail(items: seq<ItemText>)
    requires ItemsValid(items) && items != []
    ensures ItemsValid(items[1..])
  {
  }

  lemma TreesSplit(items: seq<ItemText>)
    requires items != []
    ensures TreesOf(items) == [TreeOf(items[0].value)] + TreesOf(items[1..])
    ensures NestingOfItems(TreesOf(items)) == Max(Nesting(TreeOf(items[0].value)), NestingOfItems(TreesOf(items[1..])))
    ensures |items| == 1 ==> TreesOf(items) == [TreeOf(items[0].value)] && NestingOfItems(TreesOf(items[1..])) == 0
  {
    assert TreesOf(items)[1..] == TreesOf(items[1..]);
  }

  lemma ArrayBytes(gap: bytes, items: seq<ItemText>)
    ensures BytesOf(ArrayText(gap, items))
      == if items == [] then [91] + gap + [93] else [91] + (ItemsBytes(items) + [93])
    ensures AllBlank([]) && ItemsValid([])
  {
  }

  lemma ObjectBytes(space: bytes, members: seq<MemberText>)
    ensures BytesOf(ObjectText(space, members))
      == if members == [] then [123] + space + [125] else [123] + (MembersBytes(members) + [125])
    ensures AllBlank([]) && MembersValid([])
  {
  }

  lemma EmptyArray(c: bytes, o: nat, z: nat, depth: nat)
    requires BlanksTo(c, o + 1, z) && c[z] == 93
    ensures ArrayAt(c, o, depth) == Verdict(depth < 1000, Array([]), z + 1)
  {
    hide ItemsAt, BlanksEnd;
    SkipTo(c, o + 1, z);
  }

  lemma StartedArray(c: bytes, o: nat, p: nat, depth: nat)
    requires BlanksTo(c, o + 1, p) && c[p] != 93
    ensures var items := ItemsAt(c, o + 1, depth + 1);
      ArrayAt(c, o, depth) == if depth < 1000 && items.Done? then Done(Array(items.value), items.offset) else Fail
  {
    hide ItemsAt, BlanksEnd;
    SkipTo(c, o + 1, p);
    ItemsFrom(c, o + 1, p, depth + 1);
  }

  lemma {:induction false} ArrayAccepted(c: bytes, o: nat, gap: bytes, items: seq<ItemText>, depth: nat)
    requires AllBlank(gap) && ItemsValid(items) && At(c, o, BytesOf(ArrayText(gap, items)))
    ensures o < |c| && ArrayAt(c, o, depth) == Verdict(
      depth + 1 + NestingOfItems(TreesOf(items)) <= 1000, Array(TreesOf(items)),
      o + |BytesOf(ArrayText(gap, items))|)
    decreases items, 2
  {
    hide At, BytesOf, ItemsBytes, ItemsValid, ItemsAt, TreesOf, NestingOfItems, BlanksEnd, ArrayAt, SkipBlanks;
    ArrayBytes(gap, items);
    if items == [] {
      NoTrees();
      AtThree(c, o, [91], gap, [93]);
      AtByte(c, o + 1 + |gap|, 93);
      BlankText(c, o + 1, gap);
      EmptyArray(c, o, o + 1 + |gap|, depth);
    } else {
      AtSplit(c, o, [91], ItemsBytes(items) + [93]);
      var p, e, z := ItemPlaces(c, o + 1, items);
      FirstByte(items[0].value);
      StartedArray(c, o, p, depth);
      if depth < 1000 {
        ItemsAccepted(c, o + 1, items, depth + 1);
      }
    }
  }

  lemma NoTrees()
    ensures TreesOf([]) == [] && NestingOfItems([]) == 0
  {
  }

  /** A name behind its blanks, and its colon. */
  lemma NamePlaces(c: bytes, o: nat, m: MemberText) returns (q: nat, k: nat)
    requires AllBlank(m.before) && m.name.Valid() && AllBlank(m.afterName) && At(c, o, NameBytes(m))
    ensures BlanksTo(c, o, q) && c[q] == QUOTE && StringAt(c, q) == Done(m.name.Value(), q + |m.name.Text()|)
    ensures BlanksTo(c, q + |m.name.Text()|, k) && c[k] == COLON && k + 1 == o + |NameBytes(m)|
  {
    hide At, StringText.Text, StringAt, StringText.Value, StringText.Valid;
    q := o + |m.before|;
    k := q + |m.name.Text()| + |m.afterName|;
    AtSplit(c, o, m.before + m.name.Text() + m.afterName, [58]);
    AtThree(c, o, m.before, m.name.Text(), m.afterName);
    AtByte(c, k, 58);
    BlankText(c, o, m.before);
    BlankText(c, q + |m.name.Text()|, m.afterName);
    StringTextAt(c, q, m.name);
    StringAccepted(c, q, m.name);
  }

  /** Where the first of some members stands: name from `q`, colon at `k`, value from `p` to `e`, separator at `z`. */
  lemma MemberPlaces(c: bytes, o: nat, members: seq<MemberText>)
      returns (q: nat, k: nat, p: nat, e: nat, z: nat)
    requires members != [] && MembersValid(members) && At(c, o, MembersBytes(members) + [125])
    ensures BlanksTo(c, o, q) && c[q] == QUOTE
    ensures StringAt(c, q) == Done(members[0].name.Value(), q + |members[0].name.Text()|)
    ensures BlanksTo(c, q + |members[0].name.Text()|, k) && c[k] == COLON && BlanksTo(c, k + 1, p)
    ensures Stands(c, p, members[0].value) && e == p + |BytesOf(members[0].value)| && BlanksTo(c, e, z)
    ensures |members| == 1 ==> c[z] == 125 && z == o + |MembersBytes(members)|
    ensures |members| > 1 ==> c[z] == 44 && At(c, z + 1, MembersBytes(members[1..]) + [125])
    ensures |members| > 1 ==> z + 1 + |MembersBytes(members[1..])| == o + |MembersBytes(members)|
  {
    hide At, BytesOf, NameBytes, Stands, StringText.Text, StringAt, StringText.Value, StringText.Valid;
    var m := members[0];
    var rest := if |members| == 1 then [125] else [44] + (MembersBytes(members[1..]) + [125]);
    var body := m.beforeValue + BytesOf(m.value) + m.after + rest;
    assert MembersBytes(members) + [125] == NameBytes(m) + body;
    AtSplit(c, o, NameBytes(m), body);
    q, k := NamePlaces(c, o, m);
    p, e, z := ValuePlaces(c, k + 1, m.beforeValue, m.value, m.after, rest);
    if |members| > 1 {
      AtSplit(c, z, [44], MembersBytes(members[1..]) + [125]);
    }
  }

  /** What follows a member that has been read. */
  lemma MemberNext(c: bytes, o: nat, z: nat, depth: nat)
    requires o <= |c| && z < |c| && (c[z] == COMMA || c[z] == RIGHT_BRACE)
    requires MemberAt(c, o, depth).Done? ==> BlanksTo(c, MemberAt(c, o, depth).offset, z)
    ensures var m := MemberAt(c, o, depth);
      MembersAt(c, o, depth)
      == if m.Fail? then Fail
         else if c[z] == RIGHT_BRACE then Done([m.value], z + 1)
         else
           var rest := MembersAt(c, z + 1, depth);
           if rest.Fail? then Fail else Done([m.value] + rest.value, rest.offset)
  {
    hide MemberAt, BlanksEnd;
    if MemberAt(c, o, depth).Done? {
      SkipTo(c, MemberAt(c, o, depth).offset, z);
    }
  }

  /** Reading a member whose name and colon stand where the grammar has them. */
  lemma MemberReads(c: bytes, o: nat, q: nat, key: cstring, n: nat, k: nat, p: nat, depth: nat)
    requires BlanksTo(c, o, q) && c[q] == QUOTE && StringAt(c, q) == Done(key, n)
    requires BlanksTo(c, n, k) && c[k] == COLON && BlanksTo(c, k + 1, p)
    ensures var value := ValueAt(c, p, depth);
      MemberAt(c, o, depth) == if value.Done? then Done(Member(key, value.value), value.offset) else Fail
  {
    hide ValueAt, StringAt, BlanksEnd;
    SkipTo(c, o, q);
    SkipTo(c, n, k);
    SkipTo(c, k + 1, p);
  }

  lemma MembersTail(members: seq<MemberText>)
    requires MembersValid(members) && members != []
    ensures MembersValid(members[1..])
  {
  }

  lemma MembersSplit(members: seq<MemberText>)
    requires members != []
    ensures MembersOf(members)
      == [Member(members[0].name.Value(), TreeOf(members[0].value))] + MembersOf(members[1..])
    ensures NestingOfMembers(MembersOf(members))
      == Max(Nesting(TreeOf(members[0].value)), NestingOfMembers(MembersOf(members[1..])))
    ensures |members| == 1 ==> MembersOf(members) == [Member(members[0].name.Value(), TreeOf(members[0].value))]
    ensures |members| == 1 ==> NestingOfMembers(MembersOf(members[1..])) == 0
  {
    hide StringText.Value;
    assert MembersOf(members)[1..] == MembersOf(members[1..]);
  }

  lemma {:induction false} MembersAccepted(c: bytes, o: nat, members: seq<MemberText>, depth: nat)
    requires members != [] && MembersValid(members) && At(c, o, MembersBytes(members) + [125]) && depth <= 1000
    ensures o + |MembersBytes(members)| < |c|
    ensures MembersAt(c, o, depth)
      == Verdict(depth + NestingOfMembers(MembersOf(members)) <= 1000, MembersOf(members),
                 o + |MembersBytes(members)| + 1)
    decreases members, 1
  {
    hide At, BytesOf, MembersBytes, MembersValid, MembersAt, MemberAt, ValueAt, TreeOf, MembersOf, Nesting;
    hide NestingOfMembers, Stands, StringAt, StringText.Value, StringText.Text;
    AtInside(c, o, MembersBytes(members) + [125]);
    var q, k, p, e, z := MemberPlaces(c, o, members);
    Accepted(c, p, members[0].value, depth);
    MemberReads(c, o, q, members[0].name.Value(), q + |members[0].name.Text()|, k, p, depth);
    MemberNext(c, o, z, depth);
    MembersSplit(members);
    if |members| > 1 {
      MembersTail(members);
      MembersAccepted(c, z + 1, members[1..], depth);
    }
  }

  lemma EmptyObject(c: bytes, o: nat, z: nat, depth: nat)
    requires BlanksTo(c, o + 1, z) && c[z] == 125
    ensures ObjectAt(c, o, depth) == Verdict(depth < 1000, Object([]), z + 1)
  {
    hide MembersAt, BlanksEnd;
    SkipTo(c, o + 1, z);
  }

  lemma StartedObject(c: bytes, o: nat, q: nat, depth: nat)
    requires BlanksTo(c, o + 1, q) && c[q] != 125
    ensures var members := MembersAt(c, o + 1, depth + 1);
      ObjectAt(c, o, depth)
      == if depth < 1000 && members.Done? then Done(Object(members.value), members.offset) else Fail
  {
    hide MembersAt, BlanksEnd;
    SkipTo(c, o + 1, q);
    MembersFrom(c, o + 1, q, depth + 1);
  }

  lemma {:induction false} ObjectAccepted(c: bytes, o: nat, space: bytes, members: seq<MemberText>, depth: nat)
    requires AllBlank(space) && MembersValid(members) && At(c, o, BytesOf(ObjectText(space, members)))
    ensures o < |c| && ObjectAt(c, o, depth) == Verdict(
      depth + 1 + NestingOfMembers(MembersOf(members)) <= 1000, Object(MembersOf(members)),
      o + |BytesOf(ObjectText(space, members))|)
    decreases members, 2
  {
    hide At, BytesOf, MembersBytes, MembersValid, MembersAt, MembersOf, NestingOfMembers, BlanksEnd, StringAt;
    hide StringText.Value, StringText.Text, ObjectAt, SkipBlanks;
    ObjectBytes(space, members);
    if members == [] {
      NoMemberTrees();
      AtThree(c, o, [123], space, [125]);
      AtByte(c, o + 1 + |space|, 125);
      BlankText(c, o + 1, space);
      EmptyObject(c, o, o + 1 + |space|, depth);
    } else {
      AtSplit(c, o, [123], MembersBytes(members) + [125]);
      var q, k, p, e, z := MemberPlaces(c, o + 1, members);
      StartedObject(c, o, q, depth);
      if depth < 1000 {
        MembersAccepted(c, o + 1, members, depth + 1);
      }
    }
  }

  lemma NoMemberTrees()
    ensures MembersOf([]) == [] && NestingOfMembers([]) == 0
  {
  }

  /** Every text that stands at `o` is read, with its tree, when it fits within the limit; otherwise it is rejected. */
  lemma {:induction false} Accepted(c: bytes, o: nat, t: Text, depth: nat)
    requires Stands(c, o, t)
    ensures o < |c| && ValueAt(c, o, depth) == Verdict(Fits(t, depth), TreeOf(t), o + |BytesOf(t)|)
    decreases t, 3
  {
    hide StringAt, NumberAt, ArrayAt, ObjectAt, ItemsBytes, MembersBytes, TreesOf, MembersOf;
    hide NestingOfItems, NestingOfMembers, StringText.Value, StringText.Text, StringText.Valid;
    hide Numeral.Value, Numeral.Text, Numeral.Valid;
    FirstByte(t);
    AtIndex(c, o, BytesOf(t), 0);
    AtInside(c, o, BytesOf(t));
    assert StartsWith(c, o, NULL_TEXT) ==> c[o] == NULL_TEXT[0];
    assert StartsWith(c, o, TRUE_TEXT) ==> c[o] == TRUE_TEXT[0];
    assert StartsWith(c, o, FALSE_TEXT) ==> c[o] == FALSE_TEXT[0];
    match t {
      case NullText =>
      case FalseText =>
      case TrueText =>
      case NumberText(m) => NumberAccepted(c, o, m);
      case LiteralText(l) => StringAccepted(c, o, l);
      case ArrayText(gap, items) => ArrayAccepted(c, o, gap, items, depth);
      case ObjectText(space, members) => ObjectAccepted(c, o, space, members, depth);
    }
  }

  // ----- Everything accepted is such a text

  /** Skipping blanks stops in front of `e`, where the text goes on. */
  lemma BlanksFound(c: bytes, o: nat) returns (blanks: bytes)
    requires o <= |c| && SkipBlanks(c, o) < |c| && c[SkipBlanks(c, o)] > 32
    ensures AllBlank(blanks) && At(c, o, blanks) && o + |blanks| == SkipBlanks(c, o)
    ensures BlanksTo(c, o, SkipBlanks(c, o))
  {
    var e := SkipBlanks(c, o);
    SkippedBlank(c, o);
    blanks := c[o..e];
  }

  lemma {:induction false} SkippedBlank(c: bytes, o: nat)
    requires o <= |c|
    ensures forall i :: o <= i < BlanksEnd(c, o) ==> c[i] <= 32
    decreases |c| - o
  {
    if o < |c| && c[o] <= 32 {
      SkippedBlank(c, o + 1);
    }
  }

  /** Nothing starts with a blank or behind the end. */
  lemma ValueStart(c: bytes, o: nat, depth: nat)
    requires o <= |c| && ValueAt(c, o, depth).Done?
    ensures o < |c| && c[o] > 32
  {
    hide StringAt, NumberAt, ArrayAt, ObjectAt;
    assert StartsWith(c, o, NULL_TEXT) ==> c[o] == NULL_TEXT[0];
    assert StartsWith(c, o, TRUE_TEXT) ==> c[o] == TRUE_TEXT[0];
    assert StartsWith(c, o, FALSE_TEXT) ==> c[o] == FALSE_TEXT[0];
  }

  /** Blanks, a value and blanks. */
  lemma ItemFound(c: bytes, o: nat, depth: nat, before: bytes, t: Text, after: bytes) returns (z: nat)
    requires At(c, o, before) && Stands(c, o + |before|, t) && At(c, o + |before| + |BytesOf(t)|, after)
    ensures z == o + |before| + |BytesOf(t)| + |after| && At(c, o, before + BytesOf(t) + after)
  {
    hide At, BytesOf, Valid;
    z := o + |before| + |BytesOf(t)| + |after|;
    AtThree(c, o, before, BytesOf(t), after);
  }

  lemma ItemsJoined(c: bytes, o: nat, i: ItemText, rest: seq<ItemText>, z: nat)
    requires At(c, o, i.before + BytesOf(i.value) + i.after) && z == o + |i.before + BytesOf(i.value) + i.after| < |c|
    requires if rest == [] then c[z] == 93 else c[z] == 44 && At(c, z + 1, ItemsBytes(rest) + [93])
    ensures At(c, o, ItemsBytes([i] + rest) + [93])
    ensures |ItemsBytes([i] + rest)| == if rest == [] then z - o else z - o + 1 + |ItemsBytes(rest)|
  {
    hide At, BytesOf;
    var body := i.before + BytesOf(i.value) + i.after;
    assert ([i] + rest)[1..] == rest;
    if rest == [] {
      AtByte(c, z, 93);
      AtSplit(c, o, body, [93]);
      assert ItemsBytes([i] + rest) + [93] == body + [93];
    } else {
      AtByte(c, z, 44);
      AtSplit(c, z, [44], ItemsBytes(rest) + [93]);
      AtSplit(c, o, body, [44] + (ItemsBytes(rest) + [93]));
      assert ItemsBytes([i] + rest) + [93] == body + ([44] + (ItemsBytes(rest) + [93]));
    }
  }

  /** What the reading of items met, from the offset `o`. */
  lemma ItemsCases(c: bytes, o: nat, depth: nat)
    requires o <= |c| && ItemsAt(c, o, depth).Done?
    ensures var p := SkipBlanks(c, o);
      && ValueAt(c, p, depth).Done?
      && var e := ValueAt(c, p, depth).offset;
         var z := SkipBlanks(c, e);
         z < |c| && (c[z] == 93 || (c[z] == 44 && ItemsAt(c, z + 1, depth).Done?))
  {
    hide ValueAt, SkipBlanks;
  }

  lemma {:induction false} ItemsFound(c: bytes, o: nat, depth: nat) returns (items: seq<ItemText>)
    requires o <= |c| && ItemsAt(c, o, depth).Done?
    ensures items != [] && ItemsValid(items) && At(c, o, ItemsBytes(items) + [93])
    decreases |c| - o, 3
  {
    hide At, BytesOf, ItemsAt, ValueAt, SkipBlanks, BlanksEnd, TreeOf, Nesting, ItemsBytes, AllBlank;
    ItemsCases(c, o, depth);
    var p := SkipBlanks(c, o);
    ValueStart(c, p, depth);
    var before := BlanksFound(c, o);
    var t := Found(c, p, depth);
    Accepted(c, p, t, depth);
    var e := p + |BytesOf(t)|;
    var z := SkipBlanks(c, e);
    var after := BlanksFound(c, e);
    var i := ItemText(before, t, after);
    var z' := ItemFound(c, o, depth, before, t, after);
    var rest: seq<ItemText> := [];
    if c[z] == 44 {
      rest := ItemsFound(c, z + 1, depth);
    }
    items := [i] + rest;
    assert items[1..] == rest;
    ItemsJoined(c, o, i, rest, z);
  }

  /** What the reading of an array met. */
  lemma ArrayCases(c: bytes, o: nat, depth: nat)
    requires o < |c| && ArrayAt(c, o, depth).Done?
    ensures var start := SkipBlanks(c, o + 1);
      start < |c| && depth < 1000 && (c[start] == 93 || ItemsAt(c, start, depth + 1).Done?)
  {
    hide ItemsAt, SkipBlanks;
  }

  lemma EmptyArrayStands(c: bytes, o: nat, gap: bytes)
    requires o < |c| && c[o] == 91 && AllBlank(gap) && At(c, o + 1, gap)
    requires o + 1 + |gap| < |c| && c[o + 1 + |gap|] == 93
    ensures Stands(c, o, ArrayText(gap, []))
  {
    hide At, AllBlank, BytesOf;
    AtByte(c, o, 91);
    AtByte(c, o + 1 + |gap|, 93);
    AtThree(c, o, [91], gap, [93]);
    ArrayBytes(gap, []);
  }

  lemma ArrayStands(c: bytes, o: nat, items: seq<ItemText>)
    requires o < |c| && c[o] == 91 && items != [] && ItemsValid(items) && At(c, o + 1, ItemsBytes(items) + [93])
    ensures Stands(c, o, ArrayText([], items))
  {
    hide At, ItemsValid, ItemsBytes, BytesOf;
    AtByte(c, o, 91);
    AtSplit(c, o, [91], ItemsBytes(items) + [93]);
    ArrayBytes([], items);
  }

  lemma {:induction false} ArrayFound(c: bytes, o: nat, depth: nat) returns (t: Text)
    requires o < |c| && c[o] == 91 && ArrayAt(c, o, depth).Done?
    ensures Stands(c, o, t)
    decreases |c| - o, 1
  {
    hide At, ArrayAt, ItemsAt, SkipBlanks, BlanksEnd, ItemsBytes, ItemsValid, AllBlank, Stands;
    ArrayCases(c, o, depth);
    var start := SkipBlanks(c, o + 1);
    if c[start] == 93 {
      var gap := BlanksFound(c, o + 1);
      t := ArrayText(gap, []);
      EmptyArrayStands(c, o, gap);
    } else {
      ItemsBehindBlanks(c, o + 1, depth + 1);
      var items := ItemsFound(c, o + 1, depth + 1);
      t := ArrayText([], items);
      ArrayStands(c, o, items);
    }
  }

  /** Items that are read behind blanks are read with them. */
  lemma ItemsBehindBlanks(c: bytes, o: nat, depth: nat)
    requires o <= |c| && SkipBlanks(c, o) < |c| && ItemsAt(c, SkipBlanks(c, o), depth).Done?
    ensures ItemsAt(c, o, depth).Done?
  {
    hide ItemsAt, ValueAt, SkipBlanks;
    var p := SkipBlanks(c, o);
    ItemsCases(c, p, depth);
    ValueStart(c, SkipBlanks(c, p), depth);
    StartsAt(c, o);
    var blanks := BlanksFound(c, o);
    ItemsFrom(c, o, p, depth);
  }

  /** When something other than a blank stands behind the blanks that are skipped, skipping does not stop before it. */
  lemma StartsAt(c: bytes, o: nat)
    requires o <= |c| && SkipBlanks(c, o) < |c| && SkipBlanks(c, SkipBlanks(c, o)) < |c|
    requires c[SkipBlanks(c, SkipBlanks(c, o))] > 32
    ensures c[SkipBlanks(c, o)] > 32
  {
    var e := BlanksEnd(c, o);
    if e == |c| {
      SkippedBlank(c, o);
      SkippedBlank(c, SkipBlanks(c, o));
    } else {
      EndsNonBlank(c, o);
    }
  }

  lemma {:induction false} EndsNonBlank(c: bytes, o: nat)
    requires o <= |c| && BlanksEnd(c, o) < |c|
    ensures c[BlanksEnd(c, o)] > 32
    decreases |c| - o
  {
    if c[o] <= 32 {
      EndsNonBlank(c, o + 1);
    }
  }

  /** What the reading of one member met, from the offset `o`. */
  lemma MemberCases(c: bytes, o: nat, depth: nat)
    requires o <= |c| && MemberAt(c, o, depth).Done?
    ensures var q := SkipBlanks(c, o);
      && q < |c| && StringAt(c, q).Done?
      && var k := SkipBlanks(c, StringAt(c, q).offset);
         && k < |c| && c[k] == COLON && ValueAt(c, SkipBlanks(c, k + 1), depth).Done?
         && MemberAt(c, o, depth).offset == ValueAt(c, SkipBlanks(c, k + 1), depth).offset
  {
    hide ValueAt, StringAt, BlanksEnd;
  }

  /** What the reading of members met, from the offset `o`. */
  lemma MembersCases(c: bytes, o: nat, depth: nat)
    requires o <= |c| && MembersAt(c, o, depth).Done?
    ensures MemberAt(c, o, depth).Done?
    ensures var z := SkipBlanks(c, MemberAt(c, o, depth).offset);
      z < |c| && (c[z] == 125 || (c[z] == 44 && MembersAt(c, z + 1, depth).Done?))
  {
    hide MemberAt, SkipBlanks;
  }

  lemma StringStart(c: bytes, q: nat)
    requires q < |c| && StringAt(c, q).Done?
    ensures c[q] == 34
  {
  }

  /** The name of a member up to the offset `k` behind its colon, and its value at `p`. */
  lemma NameFound(c: bytes, o: nat, depth: nat)
      returns (before: bytes, name: StringText, afterName: bytes, k: nat, p: nat)
    requires o <= |c| && MemberAt(c, o, depth).Done?
    ensures AllBlank(before) && name.Valid() && AllBlank(afterName)
    ensures o < k <= |c| && p == SkipBlanks(c, k) && ValueAt(c, p, depth).Done?
    ensures MemberAt(c, o, depth).offset == ValueAt(c, p, depth).offset
    ensures At(c, o, before + name.Text() + afterName + [58])
    ensures k == o + |before + name.Text() + afterName + [58]|
  {
    hide At, MemberAt, ValueAt, SkipBlanks, BlanksEnd, StringAt, StringText.Text, StringText.Valid, AllBlank;
    MemberCases(c, o, depth);
    var q := SkipBlanks(c, o);
    StringStart(c, q);
    before := BlanksFound(c, o);
    name := StringFound(c, q);
    var colon := SkipBlanks(c, q + |name.Text()|);
    afterName := BlanksFound(c, q + |name.Text()|);
    k, p := colon + 1, SkipBlanks(c, colon + 1);
    AtByte(c, colon, 58);
    AtThree(c, o, before, name.Text(), afterName);
    AtSplit(c, o, before + name.Text() + afterName, [58]);
  }

  lemma MembersJoined(c: bytes, o: nat, m: MemberText, rest: seq<MemberText>, k: nat, z: nat)
    requires At(c, o, NameBytes(m)) && k == o + |NameBytes(m)|
    requires At(c, k, m.beforeValue + BytesOf(m.value) + m.after)
    requires z == k + |m.beforeValue + BytesOf(m.value) + m.after| < |c|
    requires if rest == [] then c[z] == 125 else c[z] == 44 && At(c, z + 1, MembersBytes(rest) + [125])
    ensures At(c, o, MembersBytes([m] + rest) + [125])
  {
    hide At, BytesOf, NameBytes;
    var body := m.beforeValue + BytesOf(m.value) + m.after;
    var end := if rest == [] then [125] else [44] + (MembersBytes(rest) + [125]);
    assert ([m] + rest)[1..] == rest;
    if rest == [] {
      AtByte(c, z, 125);
    } else {
      AtByte(c, z, 44);
      AtSplit(c, z, [44], MembersBytes(rest) + [125]);
    }
    AtThree(c, o, NameBytes(m), body, end);
    assert MembersBytes([m] + rest) + [125] == NameBytes(m) + body + end;
  }

  lemma {:induction false} MembersFound(c: bytes, o: nat, depth: nat) returns (members: seq<MemberText>)
    requires o <= |c| && MembersAt(c, o, depth).Done?
    ensures members != [] && MembersValid(members) && At(c, o, MembersBytes(members) + [125])
    decreases |c| - o, 3
  {
    hide At, BytesOf, MembersAt, MemberAt, ValueAt, SkipBlanks, BlanksEnd, TreeOf, Nesting, MembersBytes, AllBlank;
    hide StringText.Text, StringText.Valid;
    MembersCases(c, o, depth);
    var before, name, afterName, k, p := NameFound(c, o, depth);
    ValueStart(c, p, depth);
    var beforeValue := BlanksFound(c, k);
    var t := Found(c, p, depth);
    Accepted(c, p, t, depth);
    var e := p + |BytesOf(t)|;
    var z := SkipBlanks(c, e);
    var after := BlanksFound(c, e);
    var m := MemberText(before, name, afterName, beforeValue, t, after);
    var z' := ItemFound(c, k, depth, beforeValue, t, after);
    var rest: seq<MemberText> := [];
    if c[z] == 44 {
      rest := MembersFound(c, z + 1, depth);
    }
    members := [m] + rest;
    assert members[1..] == rest;
    MembersJoined(c, o, m, rest, k, z);
  }

  /** What the reading of an object met. */
  lemma ObjectCases(c: bytes, o: nat, depth: nat)
    requires o < |c| && ObjectAt(c, o, depth).Done?
    ensures var start := SkipBlanks(c, o + 1);
      start < |c| && depth < 1000 && (c[start] == 125 || MembersAt(c, start, depth + 1).Done?)
  {
    hide MembersAt, SkipBlanks;
  }

  /** Members that are read behind blanks are read with them. */
  lemma MembersBehindBlanks(c: bytes, o: nat, depth: nat)
    requires o <= |c| && SkipBlanks(c, o) < |c| && MembersAt(c, SkipBlanks(c, o), depth).Done?
    ensures MembersAt(c, o, depth).Done?
  {
    hide MembersAt, MemberAt, ValueAt, StringAt, SkipBlanks;
    var p := SkipBlanks(c, o);
    MembersCases(c, p, depth);
    MemberCases(c, p, depth);
    StringStart(c, SkipBlanks(c, p));
    StartsAt(c, o);
    var blanks := BlanksFound(c, o);
    MembersFrom(c, o, p, depth);
  }

  lemma EmptyObjectStands(c: bytes, o: nat, space: bytes)
    requires o < |c| && c[o] == 123 && AllBlank(space) && At(c, o + 1, space)
    requires o + 1 + |space| < |c| && c[o + 1 + |space|] == 125
    ensures Stands(c, o, ObjectText(space, []))
  {
    hide At, AllBlank, BytesOf;
    AtByte(c, o, 123);
    AtByte(c, o + 1 + |space|, 125);
    AtThree(c, o, [123], space, [125]);
    ObjectBytes(space, []);
  }

  lemma ObjectStands(c: bytes, o: nat, members: seq<MemberText>)
    requires o < |c| && c[o] == 123 && members != [] && MembersValid(members)
    requires At(c, o + 1, MembersBytes(members) + [125])
    ensures Stands(c, o, ObjectText([], members))
  {
    hide At, MembersValid, MembersBytes, BytesOf;
    AtByte(c, o, 123);
    AtSplit(c, o, [123], MembersBytes(members) + [125]);
    ObjectBytes([], members);
  }

  lemma {:induction false} ObjectFound(c: bytes, o: nat, depth: nat) returns (t: Text)
    requires o < |c| && c[o] == 123 && ObjectAt(c, o, depth).Done?
    ensures Stands(c, o, t)
    decreases |c| - o, 1
  {
    hide At, ObjectAt, MembersAt, SkipBlanks, BlanksEnd, MembersBytes, MembersValid, AllBlank, Stands;
    ObjectCases(c, o, depth);
    var start := SkipBlanks(c, o + 1);
    if c[start] == 125 {
      var space := BlanksFound(c, o + 1);
      t := ObjectText(space, []);
      EmptyObjectStands(c, o, space);
    } else {
      MembersBehindBlanks(c, o + 1, depth + 1);
      var members := MembersFound(c, o + 1, depth + 1);
      t := ObjectText([], members);
      ObjectStands(c, o, members);
    }
  }

  /** The kinds of value by their first byte. */
  lemma ValueCases(c: bytes, o: nat, depth: nat)
    requires o <= |c| && ValueAt(c, o, depth).Done?
    ensures o < |c|
    ensures
      || At(c, o, [110, 117, 108, 108]) || At(c, o, [102, 97, 108, 115, 101]) || At(c, o, [116, 114, 117, 101])
      || (c[o] == 34 && StringAt(c, o).Done?)
      || ((c[o] == 45 || 48 <= c[o] <= 57) && NumberAt(c, o).Done?)
      || (c[o] == 91 && ArrayAt(c, o, depth).Done?)
      || (c[o] == 123 && ObjectAt(c, o, depth).Done?)
  {
    hide StringAt, NumberAt, ArrayAt, ObjectAt;
  }

  lemma NumberStarts(c: bytes, o: nat, m: Numeral)
    requires m.Valid() && At(c, o, m.Text()) && o < |c| && (c[o] == 45 || 48 <= c[o] <= 57)
    ensures StartsNumber(m)
  {
    NotEmpty(m);
    AtIndex(c, o, m.Text(), 0);
  }

  /** Everything that is read at `o` is a text that stands there. */
  lemma {:induction false} Found(c: bytes, o: nat, depth: nat) returns (t: Text)
    requires o <= |c| && ValueAt(c, o, depth).Done?
    ensures Stands(c, o, t)
    decreases |c| - o, 2
  {
    hide ValueAt, StringAt, NumberAt, ArrayAt, ObjectAt, At, StringText.Text, StringText.Valid;
    hide Numeral.Text, Numeral.Valid;
    ValueCases(c, o, depth);
    if At(c, o, [110, 117, 108, 108]) {
      t := NullText;
    } else if At(c, o, [102, 97, 108, 115, 101]) {
      t := FalseText;
    } else if At(c, o, [116, 114, 117, 101]) {
      t := TrueText;
    } else if c[o] == 34 {
      var l := StringFound(c, o);
      t := LiteralText(l);
    } else if c[o] == 91 {
      t := ArrayFound(c, o, depth);
    } else if c[o] == 123 {
      t := ObjectFound(c, o, depth);
    } else {
      var m := NumberFound(c, o);
      NumberStarts(c, o, m);
      t := NumberText(m);
    }
  }

  // ----- The parser's language

  /**
   * A value is read from `o` to `e`, with `depth` containers open, exactly when a text of that value stands there
   * whose containers nest within the limit.
   */
  lemma ValueIff(c: bytes, o: nat, depth: nat, v: Json, e: nat)
    requires o <= |c|
    ensures ValueAt(c, o, depth) == Done(v, e)
      <==> exists t: Text :: Stands(c, o, t) && Fits(t, depth) && TreeOf(t) == v && o + |BytesOf(t)| == e
  {
    hide ValueAt, Stands, Fits, TreeOf, BytesOf;
    if ValueAt(c, o, depth) == Done(v, e) {
      var t := Found(c, o, depth);
      Accepted(c, o, t, depth);
    }
    forall t: Text | Stands(c, o, t)
      ensures ValueAt(c, o, depth) == Verdict(Fits(t, depth), TreeOf(t), o + |BytesOf(t)|)
    {
      Accepted(c, o, t, depth);
    }
  }

  // ----- Whole documents

  /** The UTF-8 byte order mark is passed over in a text of at least five bytes. */
  function MarkLength(c: bytes): nat {
    if |c| >= 5 && c[0] == 0xEF && c[1] == 0xBB && c[2] == 0xBF then 3 else 0
  }

  /** A document: a mark or none, blanks, and a text. */
  ghost predicate Opens(c: bytes, blanks: bytes, t: Text) {
    AllBlank(blanks) && At(c, MarkLength(c), blanks) && Stands(c, MarkLength(c) + |blanks|, t)
  }

  /** Where the text ends. */
  function EndOf(c: bytes, blanks: bytes, t: Text): nat {
    MarkLength(c) + |blanks| + |BytesOf(t)|
  }

  lemma MarkIs(c: bytes)
    ensures AfterMark(c) == MarkLength(c)
  {
    if |c| >= 5 {
      assert c[..3] == [c[0], c[1], c[2]];
    }
  }

  lemma OpensAccepted(c: bytes, blanks: bytes, t: Text)
    requires Opens(c, blanks, t)
    ensures Document(c, false) == Verdict(Nesting(TreeOf(t)) <= 1000, TreeOf(t), EndOf(c, blanks, t))
  {
    hide ValueAt, At, AfterMark, MarkLength, TreeOf, BytesOf, SkipBlanks, Nesting, Valid;
    var m := MarkLength(c);
    MarkIs(c);
    AtInside(c, m, blanks);
    ValueBehind(c, m, blanks, t);
    SkipTo(c, m, m + |blanks|);
    Accepted(c, m + |blanks|, t, 0);
  }

  lemma OpensFound(c: bytes) returns (blanks: bytes, t: Text)
    requires Document(c, false).Done?
    ensures Opens(c, blanks, t)
  {
    hide ValueAt, At, AfterMark, MarkLength, SkipBlanks;
    MarkIs(c);
    var o := SkipBlanks(c, MarkLength(c));
    ValueStart(c, o, 0);
    blanks := BlanksFound(c, MarkLength(c));
    t := Found(c, o, 0);
  }

  /** A document is read to `e` exactly when a text that nests at most 1000 deep stands behind its mark and blanks. */
  lemma DocumentIff(c: bytes, v: Json, e: nat)
    ensures Document(c, false) == Done(v, e)
      <==> exists blanks: bytes, t: Text ::
             Opens(c, blanks, t) && Nesting(TreeOf(t)) <= 1000 && TreeOf(t) == v && EndOf(c, blanks, t) == e
  {
    hide Document, Opens, TreeOf, EndOf, Nesting;
    if Document(c, false) == Done(v, e) {
      var blanks, t := OpensFound(c);
      OpensAccepted(c, blanks, t);
    }
    forall blanks: bytes, t: Text | Opens(c, blanks, t)
      ensures Document(c, false) == Verdict(Nesting(TreeOf(t)) <= 1000, TreeOf(t), EndOf(c, blanks, t))
    {
      OpensAccepted(c, blanks, t);
    }
  }

  /** Only blanks from `e` on, and a zero at the very end. */
  predicate Terminated(c: bytes, e: nat) {
    e < |c| && c[|c| - 1] == 0 && forall i :: e <= i < |c| ==> c[i] <= 32
  }

  /** With a terminator required, the same texts are read when only blanks follow them up to a zero at the end. */
  lemma TerminatedIff(c: bytes, v: Json, e: nat)
    ensures Document(c, true) == Done(v, e)
      <==> exists q: nat :: Document(c, false) == Done(v, q) && Terminated(c, q) && e == |c| - 1
  {
    hide ValueAt, BlanksEnd;
    if Document(c, false).Done? {
      var q := Document(c, false).offset;
      assert Document(c, true)
        == (var z := SkipBlanks(c, q);
            if z == |c| || c[z] != 0 then Fail else Done(Document(c, false).value, z));
      ZeroBehind(c, q);
    }
  }

  lemma ZeroBehind(c: bytes, q: nat)
    requires q <= |c|
    ensures SkipBlanks(c, q) < |c| && c[SkipBlanks(c, q)] == 0 <==> Terminated(c, q)
    ensures Terminated(c, q) ==> SkipBlanks(c, q) == |c| - 1
  {
    SkippedBlank(c, q);
    if BlanksEnd(c, q) < |c| {
      EndsNonBlank(c, q);
    }
  }
}

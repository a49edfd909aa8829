/** Printing a tree into a growable or a fixed buffer. */
module JsonPrinter {
  import opened JsonTree
  import opened JsonStrings
  import opened JsonRender

  // ----- Printed text holds no terminator

  ghost predicate NoZero(s: bytes) {
    forall i :: 0 <= i < |s| ==> s[i] != 0
  }

  lemma {:induction false} DigitsNoZero(n: nat)
    ensures NoZero(Digits(n))
  {
    if n >= 10 {
      DigitsNoZero(n / 10);
    }
  }

  lemma {:induction false} EscapeNoZero(s: bytes)
    requires 0 !in s
    ensures NoZero(Escape(s)) && |Escape(s)| >= |s|
  {
    if s != [] {
      assert s[0] in s;
      assert NoZero(EscapeByte(s[0]));
      EscapeNoZero(s[1..]);
    }
  }

  lemma {:induction false} RenderNoZero(v: Json, format: bool, depth: nat)
    requires IntegerNumbers(v)
    ensures NoZero(Render(v, format, depth)) && |Render(v, format, depth)| >= 1
    decreases v, 1
  {
    hide Digits, Escape, RenderItems, RenderMembers;
    match v {
      case Null =>
      case True =>
      case False =>
      case Number(d) => DigitsNoZero(if d.Floor < 0 then -d.Floor else d.Floor);
      case String(s) => EscapeNoZero(s);
      case Array(items) => RenderItemsNoZero(items, format, depth + 1);
      case Object(members) => RenderMembersNoZero(members, format, depth + 1);
    }
  }

  lemma {:induction false} RenderItemsNoZero(items: seq<Json>, format: bool, depth: nat)
    requires IntegerItems(items)
    ensures NoZero(RenderItems(items, format, depth))
    decreases items, 0
  {
    hide Render;
    if items != [] {
      RenderNoZero(items[0], format, depth);
      RenderItemsNoZero(items[1..], format, depth);
    }
  }

  lemma {:induction false} RenderMembersNoZero(members: seq<Member>, format: bool, depth: nat)
    requires IntegerMembers(members)
    ensures NoZero(RenderMembers(members, format, depth))
    decreases members, 0
  {
    hide Render, RenderMember;
    if members != [] {
      RenderMemberNoZero(members[0], format, depth);
      RenderMembersNoZero(members[1..], format, depth);
    }
  }

  lemma {:induction false} RenderMemberNoZero(m: Member, format: bool, depth: nat)
    requires IntegerNumbers(m.value)
    ensures NoZero(RenderMember(m, format, depth))
    decreases m, 2
  {
    hide Render, Escape;
    EscapeNoZero(m.key);
    RenderNoZero(m.value, format, depth);
  }

  /** What escaping adds to the length of a string, as the printer counts it. */
  function EscapeCharacters(b: byte): nat {
    if b == QUOTE || b == BACKSLASH || b == BACKSPACE || b == FORM_FEED || b == LINE_FEED || b == RETURN || b == TAB
    then 1
    else if b < 32 then 5
    else 0
  }

  lemma {:induction false} NothingEscaped(s: bytes)
    requires |Escape(s)| == |s| && 0 !in s
    ensures Escape(s) == s
  {
    if s != [] {
      assert s[0] in s;
      EscapeNoZero(s[1..]);
      NothingEscaped(s[1..]);
    }
  }

  lemma QuotedParts(before: bytes, s: bytes)
    ensures before + [QUOTE] + Escape(s) + [QUOTE] == before + Quoted(s)
    ensures |Quoted(s)| == |Escape(s)| + 2
  {
    hide Escape;
  }

  lemma ArrayText(items: seq<Json>, format: bool, depth: nat)
    requires IntegerItems(items)
    ensures IntegerNumbers(Array(items))
    ensures Render(Array(items), format, depth)
      == [LEFT_BRACKET] + RenderItems(items, format, depth + 1) + [RIGHT_BRACKET]
  {
  }

  /** An item and the separator after it. */
  function ItemText(v: Json, last: bool, format: bool, depth: nat): bytes
    requires IntegerNumbers(v)
  {
    Render(v, format, depth) + if last then [] else [COMMA] + Layout(format, [SPACE])
  }

  /** The text of the items from `i` on: the item, a separator unless it is the last, and the rest. */
  lemma ItemsTail(items: seq<Json>, i: nat, format: bool, depth: nat)
    requires i < |items| && IntegerItems(items[i..])
    ensures IntegerNumbers(items[i]) && IntegerItems(items[i + 1..])
    ensures RenderItems(items[i..], format, depth)
      == ItemText(items[i], i + 1 == |items|, format, depth) + RenderItems(items[i + 1..], format, depth)
  {
    hide Render;
    assert items[i..][1..] == items[i + 1..];
  }

  lemma NoItemsText(items: seq<Json>, format: bool, depth: nat)
    requires items == []
    ensures RenderItems(items, format, depth) == []
  {
  }

  lemma ObjectText(members: seq<Member>, format: bool, depth: nat)
    requires IntegerMembers(members)
    ensures IntegerNumbers(Object(members))
    ensures Render(Object(members), format, depth)
      == [LEFT_BRACE] + Layout(format, [LINE_FEED]) + RenderMembers(members, format, depth + 1)
       + (Layout(format, Tabs(depth)) + [RIGHT_BRACE])
  {
    hide RenderMembers;
    var open := [LEFT_BRACE] + Layout(format, [LINE_FEED]) + RenderMembers(members, format, depth + 1);
    assert open + Layout(format, Tabs(depth)) + [RIGHT_BRACE] == open + (Layout(format, Tabs(depth)) + [RIGHT_BRACE]);
  }

  /** A member with its indentation and what follows it on its line. */
  function MemberText(m: Member, last: bool, format: bool, depth: nat): bytes
    requires IntegerNumbers(m.value)
  {
    Layout(format, Tabs(depth)) + RenderMember(m, format, depth) + AfterMember(last, format)
  }

  function NameText(name: cstring, format: bool, depth: nat): bytes {
    Layout(format, Tabs(depth)) + Quoted(name) + ([COLON] + Layout(format, [TAB]))
  }

  lemma MemberParts(m: Member, last: bool, format: bool, depth: nat)
    requires IntegerNumbers(m.value)
    ensures MemberText(m, last, format, depth)
      == NameText(m.key, format, depth) + Render(m.value, format, depth) + AfterMember(last, format)
  {
    hide Render, Quoted;
    var tabs, name, colon := Layout(format, Tabs(depth)), Quoted(m.key), [COLON] + Layout(format, [TAB]);
    assert tabs + (name + colon + Render(m.value, format, depth)) == tabs + name + colon + Render(m.value, format, depth);
  }

  lemma MembersTail(members: seq<Member>, i: nat, format: bool, depth: nat)
    requires i < |members| && IntegerMembers(members[i..])
    ensures IntegerNumbers(members[i].value) && IntegerMembers(members[i + 1..])
    ensures RenderMembers(members[i..], format, depth)
      == MemberText(members[i], i + 1 == |members|, format, depth) + RenderMembers(members[i + 1..], format, depth)
  {
    hide Render, RenderMember;
    assert members[i..][1..] == members[i + 1..];
    var before := Layout(format, Tabs(depth)) + RenderMember(members[i], format, depth);
    var after, rest := AfterMember(i + 1 == |members|, format), RenderMembers(members[i + 1..], format, depth);
    assert before + (after + rest) == before + after + rest;
  }

  lemma NoMembersText(members: seq<Member>, format: bool, depth: nat)
    requires members == []
    ensures RenderMembers(members, format, depth) == []
  {
  }

  lemma Regroup(a: bytes, b: bytes, c: bytes)
    ensures a + (b + c) == a + b + c
  {
  }

  /** Text that follows what was there holds no terminator when the printed part has none. */
  lemma StepOver(all: bytes, before: bytes, text: bytes)
    requires all == before + text && NoZero(text)
    ensures forall k :: |before| <= k < |all| ==> all[k] != 0
  {
  }

  class PrintBuffer {
    var buffer: array<byte>
    var length: nat
    var offset: nat
    var depth: nat
    var noalloc: bool
    var format: bool

    ghost predicate Valid()
      reads this
    {
      && buffer.Length == length <= INT_MAX
      && (if length == 0 then offset == 0 else offset < length)
    }

    constructor (buffer: array<byte>, noalloc: bool, format: bool)
      requires buffer.Length <= INT_MAX
      ensures Valid() && this.buffer == buffer && this.noalloc == noalloc && this.format == format
      ensures offset == 0 && depth == 0
    {
      this.buffer, this.length, this.offset, this.depth := buffer, buffer.Length, 0, 0;
      this.noalloc, this.format := noalloc, format;
    }

    /** The bytes the buffer may ever hold. */
    ghost function Capacity(): nat
      reads this
    {
      if noalloc then length else INT_MAX
    }

    /** Only the buffer was replaced by a larger one, if that. */
    twostate predicate Grown()
      reads this
    {
      && Valid()
      && noalloc == old(noalloc) && format == old(format)
      && (buffer == old(buffer) || (!noalloc && fresh(buffer)))
      && Capacity() == old(Capacity())
    }

    /** `text` was printed after what the buffer held, terminated, and the offset lies inside it. */
    twostate predicate Printed(text: bytes)
      reads this, buffer
      requires old(Valid())
    {
      var e := old(offset) + |text|;
      && Grown() && depth == old(depth)
      && e + 1 < length
      && buffer[..e] == old(buffer[..offset]) + text
      && buffer[e] == 0
      && old(offset) <= offset <= e
    }

    /** `text` was printed after what the buffer held and the offset moved past it. */
    twostate predicate Appended(text: bytes)
      reads this, buffer
      requires old(Valid())
    {
      && Grown() && depth == old(depth) && offset == old(offset) + |text|
      && buffer[..offset] == old(buffer[..offset]) + text
    }

    /** As `Appended`, with one more container open. */
    twostate predicate Deeper(text: bytes)
      reads this, buffer
      requires old(Valid())
    {
      && Grown() && depth == old(depth) + 1 && offset == old(offset) + |text|
      && buffer[..offset] == old(buffer[..offset]) + text
    }

    /** `text` was printed and terminated at the offset, and one container is closed. */
    twostate predicate Closed(text: bytes)
      reads this, buffer
      requires old(Valid())
    {
      var e := old(offset) + |text|;
      && Grown() && depth == old(depth) - 1 && offset == old(offset)
      && e + 1 < length && buffer[..e] == old(buffer[..offset]) + text && buffer[e] == 0
    }

    /** Makes room for `needed` more bytes and a terminator. */
    method Ensure(needed: nat) returns (ok: bool)
      requires Valid()
      modifies this`buffer, this`length
      ensures Grown()
      ensures ok == (offset + needed + 1 <= Capacity())
      ensures ok ==> offset + needed + 1 <= length
      ensures buffer[..offset] == old(buffer[..offset])
    {
      if length > 0 && offset >= length {
        return false;
      }
      if needed > INT_MAX {
        return false;
      }
      var total := needed + offset + 1;
      if total <= length {
        return true;
      }
      if noalloc {
        return false;
      }
      var newsize: nat;
      if total > INT_MAX / 2 {
        if total <= INT_MAX {
          newsize := INT_MAX;
        } else {
          return false;
        }
      } else {
        newsize := total * 2;
      }
      var newbuffer := new byte[newsize];
      forall i | 0 <= i < length {
        newbuffer[i] := buffer[i];
      }
      length := newsize;
      buffer := newbuffer;
      return true;
    }

    /** Moves the offset to the terminator of the text in front of it. */
    method UpdateOffset(ghost e: nat)
      requires Valid() && offset <= e < length && buffer[e] == 0
      requires forall i :: offset <= i < e ==> buffer[i] != 0
      modifies this`offset
      ensures Valid() && offset == e
    {
      var n := 0;
      while buffer[offset + n] != 0
        invariant offset == old(offset) && offset + n <= e
        decreases e - (offset + n)
      {
        n := n + 1;
      }
      offset := offset + n;
    }

    method PrintText(text: bytes) returns (ok: bool)
      requires Valid()
      modifies this, buffer
      ensures Grown() && ok == (old(offset) + |text| + 2 <= Capacity())
      ensures ok ==> Printed(text) && offset == old(offset)
    {
      ok := Ensure(|text| + 1);
      if ok {
        WriteText(text, offset, old(buffer[..offset]));
        buffer[offset + |text|] := 0;
      }
    }

    method PrintNumber(d: real) returns (ok: bool)
      requires Valid() && IsInt32(d)
      modifies this, buffer
      ensures Grown() && ok == (old(offset) + |Decimal(d.Floor)| + 2 <= Capacity())
      ensures ok ==> Printed(Decimal(d.Floor))
    {
      var digits := Decimal(d.Floor);
      ok := PrintText(digits);
      if ok {
        offset := offset + |digits|;
      }
    }

    /** Writes the escaped form of one byte at `p`. */
    method WriteEscaped(b: byte, p: nat) returns (q: nat)
      requires b != 0 && p + |EscapeByte(b)| < buffer.Length
      modifies buffer
      ensures q == p + |EscapeByte(b)| && buffer[p..q] == EscapeByte(b)
      ensures buffer[..p] == old(buffer[..p])
    {
      hide EscapeByte;
      EscapeForm(b);
      if b > 31 && b != QUOTE && b != BACKSLASH {
        buffer[p] := b;
        q := p + 1;
      } else {
        buffer[p] := BACKSLASH;
        ghost var before := buffer[..p + 1];
        q := WriteEscapeLetter(b, p + 1);
        assert buffer[..p + 1] == before;
        assert buffer[p..q] == [buffer[p]] + buffer[p + 1..q];
      }
    }

    /** What follows the backslash of an escape. */
    method WriteEscapeLetter(b: byte, p: nat) returns (q: nat)
      requires 0 < p && 0 < b && (b <= 31 || b == QUOTE || b == BACKSLASH)
      requires p - 1 + |EscapeByte(b)| < buffer.Length
      modifies buffer
      ensures q == p - 1 + |EscapeByte(b)| && buffer[p..q] == EscapeByte(b)[1..]
      ensures buffer[..p] == old(buffer[..p])
    {
      q := p;
      match b {
        case 92 => buffer[q] := BACKSLASH;
        case 34 => buffer[q] := QUOTE;
        case 8 => buffer[q] := LOWER_B;
        case 12 => buffer[q] := LOWER_F;
        case 10 => buffer[q] := LOWER_N;
        case 13 => buffer[q] := LOWER_R;
        case 9 => buffer[q] := LOWER_T;
        case _ =>
          // sprintf of "u%04x" also writes a terminator
          buffer[q], buffer[q + 1], buffer[q + 2] := LOWER_U, ZERO, ZERO;
          buffer[q + 3], buffer[q + 4], buffer[q + 5] := HexDigit(b / 16), HexDigit(b % 16), 0;
          q := q + 4;
      }
      q := q + 1;
    }

    method PrintStringPtr(input: cstring) returns (ok: bool)
      requires Valid()
      modifies this, buffer
      ensures Grown() && ok == (old(offset) + |Quoted(input)| + 2 <= Capacity())
      ensures ok ==> Printed(Quoted(input))
    {
      hide Escape, Quoted;
      var escapeCharacters := CountEscapes(input);
      QuotedParts([], input);
      ok := Ensure(|input| + escapeCharacters + 3);
      if ok {
        WriteQuoted(input, escapeCharacters, offset);
      }
    }

    method WriteQuoted(input: cstring, escapeCharacters: nat, p: nat)
      requires p + |Quoted(input)| < buffer.Length && |input| + escapeCharacters == |Escape(input)|
      modifies buffer
      ensures var e := p + |Quoted(input)|; buffer[..e] == old(buffer[..p]) + Quoted(input) && buffer[e] == 0
    {
      hide Escape, Quoted;
      QuotedParts(buffer[..p], input);
      var e := p + 1 + |input| + escapeCharacters;
      PutByte(p, QUOTE);
      WriteContents(input, escapeCharacters, p + 1);
      PutByte(e, QUOTE);
      PutTerminator(e + 1);
    }

    method WriteContents(input: cstring, escapeCharacters: nat, p: nat)
      requires p + |Escape(input)| < buffer.Length && |input| + escapeCharacters == |Escape(input)|
      modifies buffer
      ensures buffer[..p + |Escape(input)|] == old(buffer[..p]) + Escape(input)
    {
      if escapeCharacters == 0 {
        NothingEscaped(input);
        WriteText(input, p, buffer[..p]);
      } else {
        WriteAll(input, p, buffer[..p]);
      }
    }

    /** The first pass of the string printer. */
    method CountEscapes(input: cstring) returns (escapeCharacters: nat)
      ensures |input| + escapeCharacters == |Escape(input)|
    {
      hide EscapeByte;
      escapeCharacters := 0;
      for i := 0 to |input|
        invariant i + escapeCharacters + |Escape(input[i..])| == |Escape(input)|
      {
        EscapeTail(input, i);
        escapeCharacters := escapeCharacters + EscapeCharacters(input[i]);
      }
    }

    method PutByte(e: nat, b: byte)
      requires e < buffer.Length
      modifies buffer
      ensures buffer[..e + 1] == old(buffer[..e]) + [b]
    {
      buffer[e] := b;
    }

    method PutTerminator(e: nat)
      requires e < buffer.Length
      modifies buffer
      ensures buffer[..e] == old(buffer[..e]) && buffer[e] == 0
    {
      buffer[e] := 0;
    }

    method WriteText(text: bytes, start: nat, ghost before: bytes)
      requires start + |text| <= buffer.Length && buffer[..start] == before
      modifies buffer
      ensures buffer[..start + |text|] == before + text
    {
      for i := 0 to |text|
        invariant buffer[..start + i] == before + text[..i]
      {
        buffer[start + i] := text[i];
      }
      assert text[..|text|] == text;
    }

    /** The copying loop of the printer for a string that needs escapes. */
    method WriteAll(input: cstring, start: nat, ghost before: bytes)
      requires start + |Escape(input)| < buffer.Length && buffer[..start] == before
      modifies buffer
      ensures buffer[..start + |Escape(input)|] == before + Escape(input)
    {
      hide EscapeByte;
      var p := start;
      assert input[0..] == input;
      for i := 0 to |input|
        invariant start <= p && p + |Escape(input[i..])| == start + |Escape(input)|
        invariant buffer[..p] + Escape(input[i..]) == before + Escape(input)
      {
        EscapeTail(input, i);
        assert input[i] in input;
        ghost var held, q := buffer[..p], p;
        p := WriteEscaped(input[i], p);
        assert buffer[..p] == held + EscapeByte(input[i]);
      }
      assert input[|input|..] == [];
    }

    /** Prints a value at the offset; succeeds exactly when two bytes fit after its text. */
    method PrintValue(v: Json) returns (ok: bool)
      requires Valid() && IntegerNumbers(v)
      modifies this, buffer
      ensures Grown() && ok == (old(offset) + |Render(v, old(format), old(depth))| + 2 <= Capacity())
      ensures ok ==> Printed(Render(v, old(format), old(depth)))
      decreases v, 1
    {
      hide RenderItems, RenderMembers, Decimal, Quoted;
      match v {
        case Null => ok := PrintText(NULL_TEXT);
        case False => ok := PrintText(FALSE_TEXT);
        case True => ok := PrintText(TRUE_TEXT);
        case Number(d) => ok := PrintNumber(d);
        case String(s) => ok := PrintStringPtr(s);
        case Array(items) => ok := PrintArray(items);
        case Object(members) => ok := PrintObject(members);
      }
    }

    /** Prints a value and moves past it. */
    method AppendValue(v: Json) returns (ok: bool)
      requires Valid() && IntegerNumbers(v)
      modifies this, buffer
      ensures Grown() && ok == (old(offset) + |Render(v, old(format), old(depth))| + 2 <= Capacity())
      ensures ok ==> Appended(Render(v, old(format), old(depth)))
      decreases v, 2
    {
      hide Render, IntegerNumbers;
      ghost var text, start, before := Render(v, format, depth), offset, buffer[..offset];
      RenderNoZero(v, format, depth);
      ok := PrintValue(v);
      if ok {
        StepOver(buffer[..start + |text|], before, text);
        UpdateOffset(start + |text|);
      }
    }

    /** Prints a name and moves past it. */
    method AppendName(name: cstring) returns (ok: bool)
      requires Valid()
      modifies this, buffer
      ensures Grown() && ok == (old(offset) + |Quoted(name)| + 2 <= Capacity())
      ensures ok ==> Appended(Quoted(name))
    {
      hide Escape;
      ghost var text, start, before := Quoted(name), offset, buffer[..offset];
      EscapeNoZero(name);
      ok := PrintStringPtr(name);
      if ok {
        StepOver(buffer[..start + |text|], before, text);
        UpdateOffset(start + |text|);
      }
    }

    /** Makes room for `text` and `spare` more bytes, writes it and moves past it. */
    method Append(text: bytes, spare: nat, terminate: bool) returns (ok: bool)
      requires Valid()
      modifies this, buffer
      ensures Grown() && ok == (old(offset) + |text| + spare + 1 <= Capacity())
      ensures ok ==> Appended(text) && offset + spare < length && (terminate ==> buffer[offset] == 0)
    {
      ok := Ensure(|text| + spare);
      if ok {
        WriteText(text, offset, buffer[..offset]);
        if terminate {
          PutTerminator(offset + |text|);
        }
        offset := offset + |text|;
      }
    }

    /** One turn of the array loop: the value, then a separator unless it is the last. */
    method PrintItem(v: Json, last: bool) returns (ok: bool)
      requires Valid() && IntegerNumbers(v)
      modifies this, buffer
      ensures Grown() && ok == (old(offset) + |ItemText(v, last, old(format), old(depth))| + 2 <= Capacity())
      ensures ok ==> Appended(ItemText(v, last, old(format), old(depth)))
      decreases v, 3
    {
      hide Render, IntegerNumbers;
      ok := AppendValue(v);
      if ok && !last {
        ok := Append([COMMA] + if format then [SPACE] else [], 1, true);
      }
    }

    method PrintArray(items: seq<Json>) returns (ok: bool)
      requires Valid() && IntegerItems(items)
      modifies this, buffer
      ensures Grown() && ok == (old(offset) + |Render(Array(items), old(format), old(depth))| + 2 <= Capacity())
      ensures ok ==> Printed(Render(Array(items), old(format), old(depth)))
      decreases items, 2
    {
      hide Render, RenderItems, IntegerItems;
      ArrayText(items, format, depth);
      ghost var text := [LEFT_BRACKET] + RenderItems(items, format, depth + 1);
      Regroup(buffer[..offset], text, [RIGHT_BRACKET]);
      ok := OpenArray(items);
      if ok {
        ok := PrintText([RIGHT_BRACKET]);
        if ok {
          depth := depth - 1;
        }
      }
    }

    /** The bracket and the items, one level deeper. */
    method OpenArray(items: seq<Json>) returns (ok: bool)
      requires Valid() && IntegerItems(items)
      modifies this, buffer
      ensures Grown()
      ensures var text := [LEFT_BRACKET] + RenderItems(items, old(format), old(depth) + 1);
        if ok then Deeper(text) else old(offset) + |text| + 2 > Capacity()
      decreases items, 1
    {
      hide Render, RenderItems, IntegerItems;
      Regroup(buffer[..offset], [LEFT_BRACKET], RenderItems(items, format, depth + 1));
      ok := Append([LEFT_BRACKET], 0, false);
      if ok {
        depth := depth + 1;
        ok := PrintItems(items);
      }
    }

    /** The array loop. */
    method PrintItems(items: seq<Json>) returns (ok: bool)
      requires Valid() && IntegerItems(items)
      modifies this, buffer
      ensures Grown()
      ensures ok ==> Appended(RenderItems(items, old(format), old(depth)))
      ensures !ok ==> old(offset) + |RenderItems(items, old(format), old(depth))| + 2 > Capacity()
      decreases items, 0
    {
      hide Render, RenderItems, IntegerNumbers, IntegerItems, ItemText;
      ghost var whole, base, done := RenderItems(items, format, depth), buffer[..offset], [];
      var i := 0;
      assert items[0..] == items;
      while i < |items|
        invariant 0 <= i <= |items| && Grown() && depth == old(depth)
        invariant IntegerItems(items[i..])
        invariant offset == old(offset) + |done| && buffer[..offset] == base + done
        invariant whole == done + RenderItems(items[i..], format, depth)
      {
        ItemsTail(items, i, format, depth);
        ghost var text := ItemText(items[i], i + 1 == |items|, format, depth);
        Regroup(done, text, RenderItems(items[i + 1..], format, depth));
        ok := PrintItem(items[i], i + 1 == |items|);
        if !ok {
          return;
        }
        Regroup(base, done, text);
        done := done + text;
        i := i + 1;
      }
      NoItemsText(items[i..], format, depth);
      ok := true;
    }

    /** One turn of the object loop: indentation, name, colon, value and the end of the line. */
    method PrintMember(m: Member, last: bool) returns (ok: bool)
      requires Valid() && IntegerNumbers(m.value)
      modifies this, buffer
      ensures Grown() && ok == (old(offset) + |MemberText(m, last, old(format), old(depth))| + 2 <= Capacity())
      ensures ok ==> Appended(MemberText(m, last, old(format), old(depth)))
      decreases m, 1
    {
      hide Render, IntegerNumbers, Quoted;
      ghost var base, value := buffer[..offset], Render(m.value, format, depth);
      ghost var name := NameText(m.key, format, depth);
      MemberParts(m, last, format, depth);
      ok := PrintNameAndColon(m.key);
      if !ok {
        return;
      }
      ok := AppendValue(m.value);
      if !ok {
        return;
      }
      Regroup(base, name, value);
      Regroup(base, name + value, AfterMember(last, format));
      ok := Append((if last then [] else [COMMA]) + if format then [LINE_FEED] else [], 1, true);
    }

    method PrintNameAndColon(name: cstring) returns (ok: bool)
      requires Valid()
      modifies this, buffer
      ensures Grown()
      ensures ok ==> Appended(NameText(name, old(format), old(depth)))
      ensures !ok ==> old(offset) + |NameText(name, old(format), old(depth))| + 1 > Capacity()
    {
      hide Quoted;
      ghost var base, tabbed := buffer[..offset], Layout(format, Tabs(depth)) + Quoted(name);
      ok := PrintIndentedName(name);
      if !ok {
        return;
      }
      Regroup(base, tabbed, [COLON] + Layout(format, [TAB]));
      ok := Append([COLON] + if format then [TAB] else [], 0, false);
    }

    method PrintIndentedName(name: cstring) returns (ok: bool)
      requires Valid()
      modifies this, buffer
      ensures Grown()
      ensures ok == (old(offset) + |Layout(old(format), Tabs(old(depth))) + Quoted(name)| + 2 <= Capacity())
      ensures ok ==> Appended(Layout(old(format), Tabs(old(depth))) + Quoted(name))
    {
      hide Quoted;
      ok := true;
      if format {
        ok := Append(Tabs(depth), 0, false);
      }
      if ok {
        ok := AppendName(name);
      }
    }

    method PrintObject(members: seq<Member>) returns (ok: bool)
      requires Valid() && IntegerMembers(members)
      modifies this, buffer
      ensures Grown() && ok == (old(offset) + |Render(Object(members), old(format), old(depth))| + 2 <= Capacity())
      ensures ok ==> Printed(Render(Object(members), old(format), old(depth)))
      decreases members, 2
    {
      hide Render, RenderMembers, IntegerMembers, Layout, Tabs;
      ObjectText(members, format, depth);
      ghost var open, text := [LEFT_BRACE] + Layout(format, [LINE_FEED]), RenderMembers(members, format, depth + 1);
      Regroup(buffer[..offset], open + text, Layout(format, Tabs(depth)) + [RIGHT_BRACE]);
      ok := OpenObject(members);
      if ok {
        ok := CloseObject();
      }
    }

    /** The last line's indentation and the brace, back at the level of the object. */
    method CloseObject() returns (ok: bool)
      requires Valid() && depth > 0
      modifies this, buffer
      ensures Grown()
      ensures ok == (old(offset) + |Layout(old(format), Tabs(old(depth) - 1)) + [RIGHT_BRACE]| + 2 <= Capacity())
      ensures ok ==> Closed(Layout(old(format), Tabs(old(depth) - 1)) + [RIGHT_BRACE])
    {
      hide Layout, Tabs;
      ok := PrintText(Layout(format, Tabs(depth - 1)) + [RIGHT_BRACE]);
      if ok {
        depth := depth - 1;
      }
    }

    /** The brace and the members, one level deeper. */
    method OpenObject(members: seq<Member>) returns (ok: bool)
      requires Valid() && IntegerMembers(members)
      modifies this, buffer
      ensures Grown()
      ensures var open := [LEFT_BRACE] + Layout(old(format), [LINE_FEED]);
        var text := open + RenderMembers(members, old(format), old(depth) + 1);
        if ok then Deeper(text) else old(offset) + |text| + 2 > Capacity()
      decreases members, 1
    {
      hide Render, RenderMembers, IntegerMembers;
      ghost var open := [LEFT_BRACE] + Layout(format, [LINE_FEED]);
      Regroup(buffer[..offset], open, RenderMembers(members, format, depth + 1));
      ok := Append([LEFT_BRACE] + if format then [LINE_FEED] else [], 1, false);
      if ok {
        depth := depth + 1;
        ok := PrintMembers(members);
      }
    }

    /** The object loop. */
    method PrintMembers(members: seq<Member>) returns (ok: bool)
      requires Valid() && IntegerMembers(members)
      modifies this, buffer
      ensures Grown()
      ensures ok ==> Appended(RenderMembers(members, old(format), old(depth)))
      ensures !ok ==> old(offset) + |RenderMembers(members, old(format), old(depth))| + 2 > Capacity()
      decreases members, 0
    {
      hide RenderMembers, IntegerNumbers, IntegerMembers, MemberText;
      ghost var whole, base, done := RenderMembers(members, format, depth), buffer[..offset], [];
      var i := 0;
      assert members[0..] == members;
      while i < |members|
        invariant 0 <= i <= |members| && Grown() && depth == old(depth)
        invariant IntegerMembers(members[i..])
        invariant offset == old(offset) + |done| && buffer[..offset] == base + done
        invariant whole == done + RenderMembers(members[i..], format, depth)
      {
        MembersTail(members, i, format, depth);
        ghost var text := MemberText(members[i], i + 1 == |members|, format, depth);
        Regroup(done, text, RenderMembers(members[i + 1..], format, depth));
        ok := PrintMember(members[i], i + 1 == |members|);
        if !ok {
          return;
        }
        Regroup(base, done, text);
        done := done + text;
        i := i + 1;
      }
      NoMembersText(members[i..], format, depth);
      ok := true;
    }
  }

  lemma EscapeForm(b: byte)
    ensures var t := EscapeByte(b);
      if b > 31 && b != QUOTE && b != BACKSLASH then t == [b] else |t| >= 2 && t == [BACKSLASH] + t[1..]
  {
  }

  lemma EscapeTail(s: cstring, i: nat)
    requires i < |s|
    ensures Escape(s[i..]) == EscapeByte(s[i]) + Escape(s[i + 1..])
    ensures |EscapeByte(s[i])| == 1 + EscapeCharacters(s[i])
  {
    assert s[i..][1..] == s[i + 1..];
  }

  // ----- The printing entry points

  /** A buffer of its own for what was printed and its terminator. */
  method CopyPrinted(p: PrintBuffer) returns (printed: array<byte>)
    requires p.offset < p.buffer.Length
    ensures fresh(printed) && printed[..] == p.buffer[..p.offset] + [p.buffer[p.offset]]
  {
    printed := new byte[p.offset + 1];
    forall i | 0 <= i <= p.offset {
      printed[i] := p.buffer[i];
    }
  }

  /** Prints into a buffer that starts at 256 bytes and grows; the result is the text and its terminator. */
  method Print(v: Json, format: bool) returns (ok: bool, printed: array<byte>)
    requires IntegerNumbers(v)
    ensures ok == (|Render(v, format, 0)| + 2 <= INT_MAX)
    ensures ok ==> fresh(printed) && printed[..] == Render(v, format, 0) + [0]
  {
    hide Render, IntegerNumbers;
    var space := new byte[256];
    printed := space;
    var p := new PrintBuffer(space, false, format);
    ghost var text := Render(v, format, 0);
    RenderNoZero(v, format, 0);
    ok := p.PrintValue(v);
    if ok {
      assert p.buffer[..|text|] == text;
      StepOver(p.buffer[..|text|], [], text);
      p.UpdateOffset(|text|);
      printed := CopyPrinted(p);
    }
  }

  /** Prints into a growable buffer of a chosen first size. */
  method PrintBuffered(v: Json, prebuffer: int, format: bool) returns (ok: bool, printed: array<byte>)
    requires prebuffer <= INT_MAX && IntegerNumbers(v)
    ensures ok == (prebuffer >= 0 && |Render(v, format, 0)| + 2 <= INT_MAX)
    ensures ok ==> fresh(printed) && |Render(v, format, 0)| < printed.Length
    ensures ok ==> printed[..|Render(v, format, 0)| + 1] == Render(v, format, 0) + [0]
  {
    hide Render, IntegerNumbers;
    if prebuffer < 0 {
      printed := new byte[0];
      return false, printed;
    }
    var space := new byte[prebuffer];
    var p := new PrintBuffer(space, false, format);
    ok := p.PrintValue(v);
    printed := p.buffer;
  }

  /** Prints into the caller's buffer, which is never replaced and never written past its end. */
  method PrintPreallocated(v: Json, buffer: array<byte>, format: bool) returns (ok: bool)
    requires buffer.Length <= INT_MAX && IntegerNumbers(v)
    modifies buffer
    ensures ok == (|Render(v, format, 0)| + 2 <= buffer.Length)
    ensures ok ==> buffer[..|Render(v, format, 0)| + 1] == Render(v, format, 0) + [0]
  {
    hide Render, IntegerNumbers;
    var p := new PrintBuffer(buffer, true, format);
    ok := p.PrintValue(v);
  }
}

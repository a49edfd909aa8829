/** The recursive-descent parser over a moving offset. */
module JsonParser {
  import opened JsonTree
  import opened JsonStrings
  import opened JsonGrammar
  import Words

  // ----- Sizing a string against unescaping it

  /** What the sizing pass counts from `p` to the closing quote: each escape head and its letter count once. */
  ghost function Units(c: bytes, p: nat): nat
    requires p <= |c|
    decreases |c| - p
  {
    if p == |c| || c[p] == QUOTE then 0
    else if c[p] != BACKSLASH then 1 + Units(c, p + 1)
    else if p + 1 == |c| then 0
    else 1 + Units(c, p + 2)
  }

  /**
   * The unescaping pass at `p` stands where the sizing pass also stood, or one byte later, on the letter
   * of an escape the sizing pass took whole.
   */
  ghost predicate Sync(c: bytes, p: nat, e: nat, inStep: bool) {
    p <= e < |c| && (if inStep then StringEnd(c, p) == Some(e) else p < e && StringEnd(c, p + 1) == Some(e))
  }

  /** The bytes still to be counted from `p`. */
  ghost function Room(c: bytes, p: nat, e: nat, inStep: bool): nat
    requires Sync(c, p, e, inStep)
  {
    if inStep then Units(c, p) else 1 + Units(c, p + 1)
  }

  lemma OneByte(c: bytes, p: nat, e: nat, inStep: bool)
    requires Sync(c, p, e, inStep) && p < e && (c[p] != BACKSLASH || !inStep)
    ensures Sync(c, p + 1, e, true) && Room(c, p + 1, e, true) + 1 <= Room(c, p, e, inStep)
  {
  }

  /** Every two bytes use up at least one counted byte, in step or not. */
  lemma TwoBytes(c: bytes, p: nat, e: nat, inStep: bool) returns (next: bool)
    requires Sync(c, p, e, inStep) && p + 2 <= e
    ensures Sync(c, p + 2, e, next) && Room(c, p + 2, e, next) + 1 <= Room(c, p, e, inStep)
  {
    if inStep && c[p] == BACKSLASH {
      next := true;
    } else {
      OneByte(c, p, e, inStep);
      next := c[p + 1] != BACKSLASH;
    }
  }

  lemma {:induction false} EvenBytes(c: bytes, p: nat, e: nat, inStep: bool, n: nat) returns (next: bool)
    requires Sync(c, p, e, inStep) && p + 2 * n <= e
    ensures Sync(c, p + 2 * n, e, next) && Room(c, p + 2 * n, e, next) + n <= Room(c, p, e, inStep)
    decreases n
  {
    if n == 0 {
      next := inStep;
    } else {
      var middle := TwoBytes(c, p, e, inStep);
      next := EvenBytes(c, p + 2, e, middle, n - 1);
    }
  }

  // ----- Writing UTF-8 with masks

  /** `(cp | 0x80) & 0xBF` is a continuation byte with the low six bits of `cp`. */
  lemma ContinuationByte(cp: nat)
    ensures Words.And(Words.Or(cp, 0x80), 0xBF) % 256 == 0x80 + cp % 64
  {
    hide Words.And, Words.Or;
    var q, r := Words.Shr(cp, 6), cp % 64;
    assert Words.Pow2(6) == 64 && Words.Shl(2, 6) == 128;
    Words.ShrShl(cp, 6);
    Words.OrSplit(6, q, r, 2, 0);
    Words.OrZero(r);
    Words.AndSplit(6, Words.Or(q, 2), r, 2, 63);
    Words.LowMask(6, r);
    AndTwo(q);
  }

  lemma AndTwo(q: nat)
    ensures Words.And(Words.Or(q, 2), 2) == 2
  {
    var w := Words.Or(q, 2);
    Words.OrStep(q, 2);
    Words.OrStep(q / 2, 1);
    assert w / 2 % 2 == 1;
    Words.AndStep(w, 2);
    Words.AndStep(w / 2, 1);
    Words.AndZero(w / 2 / 2);
  }

  /** `(cp | mark) & 0xFF` puts the first byte's mark above its payload. */
  lemma FirstByte(cp: nat, mark: nat, k: nat)
    requires (mark == 0xC0 && k == 5) || (mark == 0xE0 && k == 4) || (mark == 0xF0 && k == 3)
    requires cp < Words.Pow2(k)
    ensures Words.And(Words.Or(cp, mark), 0xFF) == mark + cp < 256
  {
    hide Words.And, Words.Or;
    assert Words.Pow2(3) == 8 && Words.Pow2(4) == 16 && Words.Pow2(5) == 32 && Words.Pow2(8) == 256;
    var high := if k == 5 then 6 else if k == 4 then 14 else 30;
    assert Words.Shl(high, k) == mark by {
      assert Words.Shl(6, 5) == 0xC0 && Words.Shl(14, 4) == 0xE0 && Words.Shl(30, 3) == 0xF0;
    }
    Words.OrIsSum(high, k, cp);
    Words.MaskIsMod(mark + cp, 8);
  }

  /** `cp >> 6`, `k` times. */
  ghost function Sextets(cp: nat, k: nat): nat {
    if k == 0 then cp else Sextets(cp, k - 1) / 64
  }

  lemma SextetNext(cp: nat, k: nat)
    ensures Sextets(cp, 0) == cp && Sextets(cp, k + 1) == Sextets(cp, k) / 64
  {
  }

  lemma SmallPowers()
    ensures Words.Pow2(3) == 8 && Words.Pow2(4) == 16 && Words.Pow2(5) == 32
  {
  }

  lemma Utf8Tail(cp: nat, i: nat)
    requires cp <= 0x10_FFFF && 1 <= i < |Utf8(cp)|
    ensures Utf8(cp)[i] == 0x80 + Sextets(cp, |Utf8(cp)| - 1 - i) % 64
  {
    assert Sextets(cp, 1) == cp / 64 && Sextets(cp, 2) == cp / 64 / 64;
  }

  lemma Utf8Head(cp: nat)
    requires cp <= 0x10_FFFF && |Utf8(cp)| > 1
    ensures var n := |Utf8(cp)|;
      && Sextets(cp, n - 1) < (if n == 2 then 32 else if n == 3 then 16 else 8)
      && Utf8(cp)[0] == (if n == 2 then 0xC0 else if n == 3 then 0xE0 else 0xF0) + Sextets(cp, n - 1)
  {
    assert Sextets(cp, 1) == cp / 64 && Sextets(cp, 2) == cp / 64 / 64 && Sextets(cp, 3) == cp / 64 / 64 / 64;
  }

  lemma Utf8Length(cp: nat)
    requires cp <= 0x10_FFFF
    ensures |Utf8(cp)| == if cp < 0x80 then 1 else if cp < 0x800 then 2 else if cp < 0x1_0000 then 3 else 4
  {
  }

  lemma AsciiByte(cp: nat)
    requires cp < 0x80
    ensures Utf8(cp) == [Words.And(cp, 0x7F)]
  {
    hide Words.And, Words.Or;
    assert Words.Pow2(7) == 128;
    Words.MaskIsMod(cp, 7);
  }

  /** Writes a code point to `output` at `o`, last byte first. */
  method EncodeUtf8(cp: nat, output: array<byte>, o: nat) returns (length: nat)
    requires cp <= 0x10_FFFF && o + |Utf8(cp)| <= output.Length
    modifies output
    ensures length == |Utf8(cp)| && output[o..o + length] == Utf8(cp)
    ensures forall i :: 0 <= i < o ==> output[i] == old(output[i])
  {
    hide Words.And, Words.Or, Words.Pow2, Utf8, Sextets;
    Utf8Length(cp);
    SextetNext(cp, 0);
    var mark := 0;
    if cp < 0x80 {
      length := 1;
    } else if cp < 0x800 {
      length, mark := 2, 0xC0;
    } else if cp < 0x1_0000 {
      length, mark := 3, 0xE0;
    } else {
      length, mark := 4, 0xF0;
    }
    ghost var text := Utf8(cp);
    var codepoint := cp;
    var position := length - 1;
    while position > 0
      invariant 0 <= position < length == |text| && codepoint == Sextets(cp, length - 1 - position)
      invariant forall i :: position < i < length ==> output[o + i] == text[i]
      invariant forall i :: 0 <= i < o ==> output[i] == old(output[i])
    {
      ContinuationByte(codepoint);
      Utf8Tail(cp, position);
      SextetNext(cp, length - 1 - position);
      output[o + position] := Words.And(Words.Or(codepoint, 0x80), 0xBF) % 256;
      codepoint := codepoint / 64;
      position := position - 1;
    }
    if length > 1 {
      Utf8Head(cp);
      SmallPowers();
      FirstByte(codepoint, mark, 7 - length);
      output[o] := Words.And(Words.Or(codepoint, mark), 0xFF);
    } else {
      AsciiByte(cp);
      output[o] := Words.And(codepoint, 0x7F);
    }
  }

  lemma RoomFromStart(c: bytes, p: nat, e: nat)
    requires p <= |c| && StringEnd(c, p) == Some(e)
    ensures Sync(c, p, e, true) && Room(c, p, e, true) == Units(c, p)
  {
  }

  lemma RoomLeft(c: bytes, p: nat, e: nat, inStep: bool)
    requires Sync(c, p, e, inStep) && p < e
    ensures Room(c, p, e, inStep) >= 1
  {
  }

  lemma PrependNothing(nothing: bytes, rest: Option<bytes>)
    requires nothing == []
    ensures Prepend(nothing, rest) == rest
  {
    if rest.Some? {
      assert nothing + rest.value == rest.value;
    }
  }

  lemma PrependEnd(a: bytes)
    ensures Prepend(a, Some([])) == Some(a)
  {
    assert a + [] == a;
  }

  lemma PrependTwice(a: bytes, b: bytes, rest: Option<bytes>)
    ensures Prepend(a, Prepend(b, rest)) == Prepend(a + b, rest)
  {
    if rest.Some? {
      assert a + (b + rest.value) == a + b + rest.value;
    }
  }

  /** A `\u` literal is at least twice as long as its UTF-8 form, so what was counted for it is enough. */
  lemma LiteralRoom(c: bytes, p: nat, e: nat, inStep: bool, o: nat, size: nat)
    requires Sync(c, p, e, inStep) && o + Room(c, p, e, inStep) < size
    ensures var l := Utf16Literal(c, p, e); l.Literal? ==> o + |Utf8(l.codepoint)| < size
  {
    hide Utf8;
    var l := Utf16Literal(c, p, e);
    if l.Literal? {
      var next := EvenBytes(c, p, e, inStep, l.length / 2);
    }
  }

  /** `rest` after the values already collected. */
  /** The unescaping pass stands at `p`, has written `done`, and what it still writes fits the `size` bytes counted. */
  ghost predicate Midway(c: bytes, start: nat, p: nat, e: nat, done: bytes, size: nat, inStep: bool) {
    && start <= p <= e + 1 && e < |c| && |done| < size
    && (p <= e ==> Sync(c, p, e, inStep) && |done| + Room(c, p, e, inStep) < size)
    && Unescape(c, start, e) == Prepend(done, Unescape(c, p, e))
  }

  lemma PassStarts(c: bytes, start: nat, e: nat, size: nat)
    requires start <= |c| && StringEnd(c, start) == Some(e) && size == Units(c, start) + 1
    ensures Midway(c, start, start, e, [], size, true)
  {
    hide StringEnd, Units, Unescape, Prepend;
    RoomFromStart(c, start, e);
    PrependNothing([], Unescape(c, start, e));
  }

  /** A raw byte. */
  lemma PassesByte(c: bytes, start: nat, p: nat, e: nat, done: bytes, size: nat, inStep: bool)
    requires Midway(c, start, p, e, done, size, inStep) && p < e && c[p] != BACKSLASH
    ensures Midway(c, start, p + 1, e, done + [c[p]], size, true)
    ensures |done| + 1 < size
  {
    hide StringEnd, Units, Room, Prepend;
    OneByte(c, p, e, inStep);
    PrependTwice(done, [c[p]], Unescape(c, p + 1, e));
  }

  /** A short escape; its letter may be the quote that the sizing pass took for the end. */
  lemma PassesLetter(c: bytes, start: nat, p: nat, e: nat, done: bytes, size: nat, inStep: bool) returns (next: bool)
    requires Midway(c, start, p, e, done, size, inStep) && p < e && c[p] == BACKSLASH && c[p + 1] != LOWER_U
    ensures |done| + 1 < size
    ensures var letter := Unshort(c[p + 1]);
      if letter.None? then Unescape(c, start, e) == None
      else Midway(c, start, p + 2, e, done + [letter.value], size, next)
  {
    hide StringEnd, Units, Room, Prepend, Unshort;
    RoomLeft(c, p, e, inStep);
    next := true;
    if p + 2 <= e {
      next := TwoBytes(c, p, e, inStep);
    }
    var letter := Unshort(c[p + 1]);
    if letter.Some? {
      PrependTwice(done, [letter.value], Unescape(c, p + 2, e));
    }
  }

  /** A Unicode escape or a pair of them. */
  lemma PassesLiteral(c: bytes, start: nat, p: nat, e: nat, done: bytes, size: nat, inStep: bool) returns (next: bool)
    requires Midway(c, start, p, e, done, size, inStep) && p < e && c[p] == BACKSLASH && c[p + 1] == LOWER_U
    ensures var l := Utf16Literal(c, p, e);
      l.Bad? ==> Unescape(c, start, e) == None
    ensures var l := Utf16Literal(c, p, e);
      l.Literal? ==> |done| + |Utf8(l.codepoint)| < size
    ensures var l := Utf16Literal(c, p, e);
      l.Literal? ==> Midway(c, start, p + l.length, e, done + Utf8(l.codepoint), size, next)
  {
    hide StringEnd, Units, Room, Prepend, Utf16Literal, Utf8;
    var l := Utf16Literal(c, p, e);
    LiteralRoom(c, p, e, inStep, |done|, size);
    next := true;
    if l.Literal? {
      next := EvenBytes(c, p, e, inStep, l.length / 2);
      PrependTwice(done, Utf8(l.codepoint), Unescape(c, p + l.length, e));
    }
  }

  lemma InsideText(c: bytes, start: nat, p: nat, e: nat, done: bytes, size: nat, inStep: bool)
    requires Midway(c, start, p, e, done, size, inStep)
    ensures e < |c| && start <= e + 1
  {
  }

  lemma PassEnds(c: bytes, start: nat, p: nat, e: nat, done: bytes, size: nat, inStep: bool)
    requires Midway(c, start, p, e, done, size, inStep) && p >= e
    ensures Unescape(c, start, e) == Some(done)
  {
    hide StringEnd, Units, Room;
    PrependEnd(done);
  }

  lemma CopyNext(c: bytes, o: nat, i: nat)
    requires o + i <= |c| && i <= 63
    ensures CopyLength(c, o, i) ==
      if i < 63 && o + i < |c| && IsNumberByte(c[o + i]) then CopyLength(c, o, i + 1) else i
  {
  }

  function Following<T>(done: seq<T>, rest: Parsed<seq<T>>): Parsed<seq<T>> {
    if rest.Done? then Done(done + rest.value, rest.offset) else Fail
  }

  lemma FollowingNothing<T>(rest: Parsed<seq<T>>)
    ensures Following([], rest) == rest
  {
    if rest.Done? {
      assert [] + rest.value == rest.value;
    }
  }

  /** One turn of the array loop, with `items` collected before it. */
  lemma ItemsUnfold(c: bytes, o: nat, depth: nat, items: seq<Json>)
    requires o <= |c|
    ensures var value := ValueAt(c, SkipBlanks(c, o), depth);
      var next := if value.Done? then SkipBlanks(c, value.offset) else 0;
      Following(items, ItemsAt(c, o, depth)) ==
        if value.Fail? || next == |c| then Fail
        else if c[next] == COMMA then Following(items + [value.value], ItemsAt(c, next + 1, depth))
        else if c[next] == RIGHT_BRACKET then Done(items + [value.value], next + 1)
        else Fail
  {
    hide ValueAt, SkipBlanks;
    var value := ValueAt(c, SkipBlanks(c, o), depth);
    if value.Done? {
      var next := SkipBlanks(c, value.offset);
      if next < |c| && c[next] == COMMA {
        var rest := ItemsAt(c, next + 1, depth);
        if rest.Done? {
          assert items + ([value.value] + rest.value) == items + [value.value] + rest.value;
        }
      }
    }
  }

  /** One turn of the object loop, with `members` collected before it. */
  lemma MembersUnfold(c: bytes, o: nat, depth: nat, members: seq<Member>)
    requires o <= |c|
    ensures var member := MemberAt(c, o, depth);
      var next := if member.Done? then SkipBlanks(c, member.offset) else 0;
      Following(members, MembersAt(c, o, depth)) ==
        if member.Fail? || next == |c| then Fail
        else if c[next] == COMMA then Following(members + [member.value], MembersAt(c, next + 1, depth))
        else if c[next] == RIGHT_BRACE then Done(members + [member.value], next + 1)
        else Fail
  {
    hide MemberAt, SkipBlanks;
    var member := MemberAt(c, o, depth);
    if member.Done? {
      var next := SkipBlanks(c, member.offset);
      if next < |c| && c[next] == COMMA {
        var rest := MembersAt(c, next + 1, depth);
        if rest.Done? {
          assert members + ([member.value] + rest.value) == members + [member.value] + rest.value;
        }
      }
    }
  }

  class ParseBuffer {
    const content: bytes
    var offset: nat
    var depth: nat

    ghost predicate Valid()
      reads this
    {
      offset <= |content|
    }

    constructor (text: bytes)
      ensures content == text && offset == 0 && depth == 0
    {
      content, offset, depth := text, 0, 0;
    }

    predicate CanAccess(i: nat)
      reads this
    {
      offset + i < |content|
    }

    method SkipWhitespace()
      requires Valid()
      modifies this`offset
      ensures Valid() && offset == SkipBlanks(content, old(offset))
    {
      if !CanAccess(0) {
        return;
      }
      while CanAccess(0) && content[offset] <= 32
        invariant old(offset) <= offset <= |content|
        invariant BlanksEnd(content, offset) == BlanksEnd(content, old(offset))
        decreases |content| - offset
      {
        offset := offset + 1;
      }
      if offset == |content| {
        offset := offset - 1;
      }
    }

    method SkipByteOrderMark()
      requires offset == 0
      modifies this`offset
      ensures Valid() && offset == AfterMark(content)
    {
      if CanAccess(4) && content[..3] == BYTE_ORDER_MARK {
        offset := offset + 3;
      }
    }

    /** Four hexadecimal digits at `i`; 0 as soon as one of them is invalid. */
    method ParseHex4(i: nat) returns (h: nat)
      requires i + 4 <= |content|
      ensures h == Hex4(content, i)
    {
      h := 0;
      for k := 0 to 4
        invariant forall j :: i <= j < i + k ==> IsHexDigit(content[j])
        invariant k == 0 ==> h == 0
        invariant k == 1 ==> h == HexValue(content[i]) * 16
        invariant k == 2 ==> h == HexValue(content[i]) * 256 + HexValue(content[i + 1]) * 16
        invariant k == 3 ==>
          h == HexValue(content[i]) * 4096 + HexValue(content[i + 1]) * 256 + HexValue(content[i + 2]) * 16
        invariant k == 4 ==> h == Hex4(content, i)
      {
        if !IsHexDigit(content[i + k]) {
          return 0;
        }
        h := h + HexValue(content[i + k]);
        if k < 3 {
          h := h * 16;
        }
      }
    }

    /** Converts the literal at `p` and writes its UTF-8 form at `o`; length 0 is failure. */
    method Utf16LiteralToUtf8(p: nat, e: nat, output: array<byte>, o: nat) returns (length: nat, written: nat)
      requires p <= e <= |content| && o <= output.Length
      requires var l := Utf16Literal(content, p, e); l.Literal? ==> o + |Utf8(l.codepoint)| <= output.Length
      modifies output
      ensures var l := Utf16Literal(content, p, e);
        && (length == 0 <==> l.Bad?)
        && (l.Literal? ==>
          length == l.length && written == |Utf8(l.codepoint)| && output[o..o + written] == Utf8(l.codepoint))
      ensures forall i :: 0 <= i < o ==> output[i] == old(output[i])
    {
      hide Utf8, Hex4, Words.And, Words.Or;
      if e - p < 6 {
        return 0, 0;
      }
      var first := ParseHex4(p + 2);
      if 0xDC00 <= first <= 0xDFFF {
        return 0, 0;
      }
      var codepoint;
      if 0xD800 <= first <= 0xDBFF {
        if e - (p + 6) < 6 || content[p + 6] != BACKSLASH || content[p + 7] != LOWER_U {
          return 0, 0;
        }
        var second := ParseHex4(p + 8);
        if second < 0xDC00 || second > 0xDFFF {
          return 0, 0;
        }
        SurrogateBits(first, second);
        codepoint := 0x1_0000 + Words.Or(Words.And(first, 0x3FF) * 1024, Words.And(second, 0x3FF));
        length := 12;
      } else {
        codepoint := first;
        length := 6;
      }
      written := EncodeUtf8(codepoint, output, o);
    }

    /** The sizing pass: the closing quote of the literal at `offset` and the bytes to allocate for it. */
    method SizeString() returns (found: bool, e: nat, size: nat)
      requires offset < |content|
      ensures found == StringEnd(content, offset + 1).Some?
      ensures found ==> StringEnd(content, offset + 1) == Some(e)
      ensures found ==> size == Units(content, offset + 1) + 1
    {
      e := offset + 1;
      var skipped := 0;
      while e < |content| && content[e] != QUOTE
        invariant offset + 1 <= e <= |content|
        invariant StringEnd(content, e) == StringEnd(content, offset + 1)
        invariant 0 <= skipped <= e - (offset + 1)
        invariant e - (offset + 1) - skipped + Units(content, e) == Units(content, offset + 1)
      {
        if content[e] == BACKSLASH {
          if e + 1 >= |content| {
            return false, e, 0;
          }
          skipped := skipped + 1;
          e := e + 1;
        }
        e := e + 1;
      }
      if e >= |content| {
        return false, e, 0;
      }
      return true, e, e - offset - skipped;
    }

    /**
     * Unescapes the literal at `offset`. Every write falls inside the allocation, the terminator included,
     * on accepted and rejected input alike, even where a `\u` with bad digits puts this pass out of step
     * with the sizing pass.
     */
    method ParseString() returns (ok: bool, value: cstring)
      requires offset < |content|
      modifies this`offset
      ensures Valid()
      ensures ok == StringAt(content, old(offset)).Done?
      ensures ok ==> StringAt(content, old(offset)) == Done(value, offset)
    {
      hide StringEnd, Units, Utf16Literal, Utf8, CString, Unshort, Unescape, Midway;
      value := [];
      var start := offset + 1;
      if content[offset] != QUOTE {
        offset := start;
        return false, value;
      }
      var found, e, size := SizeString();
      if !found {
        offset := start;
        return false, value;
      }
      var output := new byte[size + 1];
      var p, o := start, 0;
      ghost var inStep := true;
      PassStarts(content, start, e, size);
      assert output[..0] == [];
      while p < e
        invariant start <= p && 0 <= o < size && Midway(content, start, p, e, output[..o], size, inStep)
        decreases e + 1 - p
      {
        var q, written;
        q, written, inStep := UnescapeNext(start, p, e, output, o, size, inStep);
        if q == p {
          offset := p;
          return false, value;
        }
        p, o := q, o + written;
      }
      PassEnds(content, start, p, e, output[..o], size, inStep);
      output[o] := 0;
      offset := e + 1;
      return true, CString(output[..o]);
    }

    /** One turn of the unescaping loop; it does not move when the escape is not valid. */
    method UnescapeNext(start: nat, p: nat, e: nat, output: array<byte>, o: nat, ghost size: nat, ghost inStep: bool)
      returns (q: nat, written: nat, ghost next: bool)
      requires o < size < output.Length && p < e && Midway(content, start, p, e, output[..o], size, inStep)
      modifies output
      ensures q == p ==> Unescape(content, start, e) == None
      ensures q != p ==> p < q && o + written < size
      ensures q != p ==> Midway(content, start, q, e, output[..o + written], size, next)
    {
      hide StringEnd, Units, Utf16Literal, Utf8, Unshort, Unescape, Midway;
      InsideText(content, start, p, e, output[..o], size, inStep);
      ghost var done := output[..o];
      next := true;
      if content[p] != BACKSLASH {
        PassesByte(content, start, p, e, done, size, inStep);
        output[o] := content[p];
        assert output[..o + 1] == done + [content[p]];
        return p + 1, 1, true;
      }
      if content[p + 1] == LOWER_U {
        next := PassesLiteral(content, start, p, e, done, size, inStep);
        var length;
        length, written := Utf16LiteralToUtf8(p, e, output, o);
        if length == 0 {
          return p, 0, next;
        }
        assert output[..o] == done;
        assert output[..o + written] == done + output[o..o + written];
        return p + length, written, next;
      }
      next := PassesLetter(content, start, p, e, done, size, inStep);
      var letter := Unshort(content[p + 1]);
      if letter.None? {
        return p, 0, next;
      }
      output[o] := letter.value;
      assert output[..o + 1] == done + [letter.value];
      return p + 2, 1, next;
    }

    /** Copies the number's bytes to a local text for `strtod`, at most 63 of them. */
    method CopyNumber() returns (text: array<byte>, i: nat)
      requires Valid()
      ensures i == CopyLength(content, offset, 0) < text.Length
      ensures text[..i] == content[offset..offset + i] && text[i] == 0
    {
      hide CopyLength, IsNumberByte;
      text := new byte[64];
      i := 0;
      while i < 63 && CanAccess(i) && IsNumberByte(content[offset + i])
        invariant 0 <= i <= 63 && offset + i <= |content|
        invariant CopyLength(content, offset, 0) == CopyLength(content, offset, i)
        invariant forall k :: 0 <= k < i ==> text[k] == content[offset + k]
      {
        CopyNext(content, offset, i);
        text[i] := content[offset + i];
        i := i + 1;
      }
      CopyNext(content, offset, i);
      text[i] := 0;
    }

    method ParseNumber() returns (ok: bool, item: Json)
      requires Valid()
      modifies this`offset
      ensures Valid()
      ensures ok == NumberAt(content, old(offset)).Done?
      ensures ok ==> NumberAt(content, old(offset)) == Done(item, offset)
    {
      hide Strtod, NumberAt;
      var text, i := CopyNumber();
      var (number, consumed) := Strtod(text[..i]);
      NumberFrom(content, offset, i);
      if consumed == 0 {
        return false, Null;
      }
      offset := offset + consumed;
      return true, Number(number);
    }

    method ParseValue() returns (ok: bool, item: Json)
      requires Valid()
      modifies this
      ensures Valid()
      ensures ok == ValueAt(content, old(offset), old(depth)).Done?
      ensures ok ==> ValueAt(content, old(offset), old(depth)) == Done(item, offset) && depth == old(depth)
      decreases |content| - offset, 2
    {
      hide StringAt, NumberAt, ArrayAt, ObjectAt;
      if StartsWith(content, offset, NULL_TEXT) {
        offset := offset + 4;
        return true, Null;
      }
      if StartsWith(content, offset, FALSE_TEXT) {
        offset := offset + 5;
        return true, False;
      }
      if StartsWith(content, offset, TRUE_TEXT) {
        offset := offset + 4;
        return true, True;
      }
      if CanAccess(0) && content[offset] == QUOTE {
        var s;
        ok, s := ParseString();
        return ok, String(s);
      }
      if CanAccess(0) && (content[offset] == MINUS || IsDigit(content[offset])) {
        ok, item := ParseNumber();
        return;
      }
      if CanAccess(0) && content[offset] == LEFT_BRACKET {
        ok, item := ParseArray();
        return;
      }
      if CanAccess(0) && content[offset] == LEFT_BRACE {
        ok, item := ParseObject();
        return;
      }
      return false, Null;
    }

    method ParseArray() returns (ok: bool, item: Json)
      requires offset < |content| && content[offset] == LEFT_BRACKET
      modifies this
      ensures Valid()
      ensures ok == ArrayAt(content, old(offset), old(depth)).Done?
      ensures ok ==> ArrayAt(content, old(offset), old(depth)) == Done(item, offset) && depth == old(depth)
      decreases |content| - offset, 1
    {
      hide ValueAt, ItemsAt, SkipBlanks;
      item := Null;
      if depth >= NESTING_LIMIT {
        return false, item;
      }
      depth := depth + 1;
      offset := offset + 1;
      SkipWhitespace();
      if CanAccess(0) && content[offset] == RIGHT_BRACKET {
        depth := depth - 1;
        offset := offset + 1;
        return true, Array([]);
      }
      if !CanAccess(0) {
        offset := offset - 1;
        return false, item;
      }
      offset := offset - 1;
      var items: seq<Json> := [];
      var more := true;
      ghost var all, inside := ItemsAt(content, offset + 1, depth), depth;
      FollowingNothing(all);
      while more
        invariant old(offset) <= offset < |content|
        invariant depth == inside == old(depth) + 1
        invariant all == if more then Following(items, ItemsAt(content, offset + 1, depth))
                         else if content[offset] == RIGHT_BRACKET then Done(items, offset + 1) else Fail
        decreases more, |content| - offset
      {
        ghost var start := offset + 1;
        offset := offset + 1;
        SkipWhitespace();
        var parsed, value := ParseValue();
        ItemsUnfold(content, start, inside, items);
        if !parsed {
          return false, item;
        }
        SkipWhitespace();
        items := items + [value];
        if !CanAccess(0) {
          return false, item;
        }
        more := content[offset] == COMMA;
      }
      if content[offset] != RIGHT_BRACKET {
        return false, item;
      }
      depth := depth - 1;
      offset := offset + 1;
      return true, Array(items);
    }

    method ParseObject() returns (ok: bool, item: Json)
      requires offset < |content| && content[offset] == LEFT_BRACE
      modifies this
      ensures Valid()
      ensures ok == ObjectAt(content, old(offset), old(depth)).Done?
      ensures ok ==> ObjectAt(content, old(offset), old(depth)) == Done(item, offset) && depth == old(depth)
      decreases |content| - offset, 1
    {
      hide ValueAt, StringAt, MembersAt, MemberAt, SkipBlanks;
      item := Null;
      if depth >= NESTING_LIMIT {
        return false, item;
      }
      depth := depth + 1;
      offset := offset + 1;
      SkipWhitespace();
      if CanAccess(0) && content[offset] == RIGHT_BRACE {
        depth := depth - 1;
        offset := offset + 1;
        return true, Object([]);
      }
      if !CanAccess(0) {
        offset := offset - 1;
        return false, item;
      }
      offset := offset - 1;
      var members: seq<Member> := [];
      var more := true;
      ghost var all, inside := MembersAt(content, offset + 1, depth), depth;
      FollowingNothing(all);
      while more
        invariant old(offset) <= offset < |content|
        invariant depth == inside == old(depth) + 1
        invariant all == if more then Following(members, MembersAt(content, offset + 1, depth))
                         else if content[offset] == RIGHT_BRACE then Done(members, offset + 1) else Fail
        decreases more, |content| - offset
      {
        ghost var start := offset + 1;
        var parsed, member := ParseMember();
        MembersUnfold(content, start, inside, members);
        if !parsed {
          return false, item;
        }
        SkipWhitespace();
        members := members + [member];
        if !CanAccess(0) {
          return false, item;
        }
        more := content[offset] == COMMA;
      }
      if content[offset] != RIGHT_BRACE {
        return false, item;
      }
      depth := depth - 1;
      offset := offset + 1;
      return true, Object(members);
    }

    /** The body of the object loop: one name, its colon and its value. */
    method ParseMember() returns (ok: bool, member: Member)
      requires offset < |content|
      modifies this
      ensures Valid()
      ensures ok == MemberAt(content, old(offset) + 1, old(depth)).Done?
      ensures ok ==>
        MemberAt(content, old(offset) + 1, old(depth)) == Done(member, offset) && depth == old(depth)
      decreases |content| - offset, 0
    {
      hide ValueAt, StringAt, SkipBlanks;
      member := Member([], Null);
      if !CanAccess(1) {
        return false, member;
      }
      offset := offset + 1;
      SkipWhitespace();
      var named, key := ParseString();
      if !named {
        return false, member;
      }
      SkipWhitespace();
      if !CanAccess(0) || content[offset] != COLON {
        return false, member;
      }
      offset := offset + 1;
      SkipWhitespace();
      var parsed, value := ParseValue();
      return parsed, Member(key, value);
    }
  }

  /** Joining the ten low bits of each surrogate. */
  lemma SurrogateBits(first: nat, second: nat)
    requires IsHigh(first) && IsLow(second)
    ensures 0x1_0000 + Words.Or(Words.And(first, 0x3FF) * 1024, Words.And(second, 0x3FF)) == Combine(first, second)
  {
    hide Words.And, Words.Or;
    assert Words.Pow2(10) == 1024;
    Words.MaskIsMod(first, 10);
    Words.MaskIsMod(second, 10);
    Words.ShlIsProduct(first % 1024, 10);
    Words.OrIsSum(first % 1024, 10, second % 1024);
  }

  /** The whole parse: skip a byte order mark and blanks, read a value, and check for a terminator if asked to. */
  method ParseWithLengthOpts(text: bytes, terminated: bool) returns (ok: bool, item: Json, end: nat)
    ensures ok == Document(text, terminated).Done?
    ensures ok ==> Document(text, terminated) == Done(item, end)
  {
    hide ValueAt, SkipBlanks;
    if |text| == 0 {
      return false, Null, 0;
    }
    var buffer := new ParseBuffer(text);
    buffer.SkipByteOrderMark();
    buffer.SkipWhitespace();
    ok, item := buffer.ParseValue();
    if !ok {
      return false, Null, 0;
    }
    if terminated {
      buffer.SkipWhitespace();
      if buffer.offset >= |text| || text[buffer.offset] != 0 {
        return false, Null, 0;
      }
    }
    return true, item, buffer.offset;
  }

  /** An accepted string never outgrows what the sizing pass counted. */
  lemma {:induction false} UnescapeFits(c: bytes, p: nat, e: nat, inStep: bool)
    requires Sync(c, p, e, inStep)
    ensures Unescape(c, p, e).Some? ==> |Unescape(c, p, e).value| <= Room(c, p, e, inStep)
    decreases e - p
  {
    hide Utf8, Utf16Literal, Room, Units;
    if p == e {
    } else if c[p] != BACKSLASH {
      OneByte(c, p, e, inStep);
      UnescapeFits(c, p + 1, e, true);
    } else if c[p + 1] == LOWER_U {
      var l := Utf16Literal(c, p, e);
      if l.Literal? {
        var next := EvenBytes(c, p, e, inStep, l.length / 2);
        UnescapeFits(c, p + l.length, e, next);
      }
    } else if p + 2 <= e {
      var next := TwoBytes(c, p, e, inStep);
      UnescapeFits(c, p + 2, e, next);
    } else {
      RoomLeft(c, p, e, inStep);
    }
  }
}

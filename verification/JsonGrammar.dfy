/** What the parser accepts at an offset, as functions of the text. */
module JsonGrammar {
  import opened JsonTree
  import opened JsonStrings

  const NESTING_LIMIT := 1000

  // ----- Numbers

  predicate IsDigit(b: byte) {
    ZERO <= b <= NINE
  }

  predicate IsNumberByte(b: byte) {
    IsDigit(b) || b == PLUS || b == MINUS || b == LOWER_E || b == UPPER_E || b == POINT
  }

  /** How many bytes from `o` are copied for `strtod`, `i` of them so far. */
  function CopyLength(c: bytes, o: nat, i: nat): (n: nat)
    requires o + i <= |c| && i <= 63
    ensures i <= n <= 63 && o + n <= |c|
    decreases 63 - i
  {
    if i < 63 && o + i < |c| && IsNumberByte(c[o + i]) then CopyLength(c, o, i + 1) else i
  }

  function DigitsEnd(s: bytes, i: nat): (e: nat)
    requires i <= |s|
    ensures i <= e <= |s|
    ensures forall k :: i <= k < e ==> IsDigit(s[k])
    ensures e < |s| ==> !IsDigit(s[e])
    decreases |s| - i
  {
    if i < |s| && IsDigit(s[i]) then DigitsEnd(s, i + 1) else i
  }

  /** The number a text of decimal digits stands for. */
  function DigitsValue(s: bytes): int {
    if s == [] then 0
    else
      var last: int := s[|s| - 1];
      DigitsValue(s[..|s| - 1]) * 10 + (last - ZERO)
  }

  /** `x * 10^e` */
  function Scale(x: real, e: int): real
    decreases if e < 0 then -e else e
  {
    if e == 0 then x else if e > 0 then Scale(x, e - 1) * 10.0 else Scale(x, e + 1) / 10.0
  }

  function Signed(negative: bool, x: real): real {
    if negative then -x else x
  }

  /** The sign, digits and fraction at the start of a text: value and bytes consumed, 0 without a digit. */
  function MantissaOf(s: bytes): (r: (real, nat))
    ensures r.1 <= |s|
  {
    var sign := if s != [] && (s[0] == MINUS || s[0] == PLUS) then 1 else 0;
    var i := DigitsEnd(s, sign);
    var point := i < |s| && s[i] == POINT;
    var j := if point then DigitsEnd(s, i + 1) else i;
    var fraction := if point then s[i + 1..j] else [];
    if i == sign && fraction == [] then (0.0, 0)
    else
      (Signed(sign == 1 && s[0] == MINUS, Scale(DigitsValue(s[sign..i] + fraction) as real, -|fraction|)), j)
  }

  /** The C library's `strtod` on a text of number bytes, without rounding: value and bytes consumed. */
  function Strtod(s: bytes): (r: (real, nat))
    ensures r.1 <= |s|
  {
    var (number, j) := MantissaOf(s);
    if j > 0 && j < |s| && (s[j] == LOWER_E || s[j] == UPPER_E) then
      var signed := j + 1 < |s| && (s[j + 1] == MINUS || s[j + 1] == PLUS);
      var k := if signed then j + 2 else j + 1;
      var e := DigitsEnd(s, k);
      if e == k then (number, j)
      else
        var exponent := DigitsValue(s[k..e]);
        (Scale(number, if signed && s[j + 1] == MINUS then -exponent else exponent), e)
    else (number, j)
  }

  function NumberAt(c: bytes, o: nat): (r: Parsed<Json>)
    requires o <= |c|
    ensures r.Done? ==> o < r.offset <= |c|
  {
    var n := CopyLength(c, o, 0);
    var (number, consumed) := Strtod(c[o..o + n]);
    if consumed == 0 then Fail else Done(Number(number), o + consumed)
  }

  lemma NumberFrom(c: bytes, o: nat, n: nat)
    requires o + n <= |c| && CopyLength(c, o, 0) == n
    ensures var r := Strtod(c[o..o + n]);
      NumberAt(c, o) == if r.1 == 0 then Fail else Done(Number(r.0), o + r.1)
  {
    hide Strtod, CopyLength;
  }

  // ----- Whitespace

  function BlanksEnd(c: bytes, o: nat): (e: nat)
    requires o <= |c|
    ensures o <= e <= |c|
    decreases |c| - o
  {
    if o < |c| && c[o] <= 32 then BlanksEnd(c, o + 1) else o
  }

  /** Skipping steps back onto the last byte when blanks reach the end of the text. */
  function SkipBlanks(c: bytes, o: nat): (e: nat)
    requires o <= |c|
    ensures o <= e <= |c|
    ensures o < |c| ==> e < |c|
  {
    if o == |c| then o
    else
      var e := BlanksEnd(c, o);
      if e == |c| then e - 1 else e
  }

  // ----- Values

  predicate StartsWith(c: bytes, o: nat, t: bytes) {
    o + |t| <= |c| && c[o..o + |t|] == t
  }

  /** The value at `o`, with `depth` containers open. */
  function ValueAt(c: bytes, o: nat, depth: nat): (r: Parsed<Json>)
    requires o <= |c|
    ensures r.Done? ==> o < r.offset <= |c|
    decreases |c| - o, 2
  {
    if StartsWith(c, o, NULL_TEXT) then Done(Null, o + 4)
    else if StartsWith(c, o, FALSE_TEXT) then Done(False, o + 5)
    else if StartsWith(c, o, TRUE_TEXT) then Done(True, o + 4)
    else if o == |c| then Fail
    else if c[o] == QUOTE then
      var s := StringAt(c, o);
      if s.Fail? then Fail else Done(String(s.value), s.offset)
    else if c[o] == MINUS || IsDigit(c[o]) then NumberAt(c, o)
    else if c[o] == LEFT_BRACKET then ArrayAt(c, o, depth)
    else if c[o] == LEFT_BRACE then ObjectAt(c, o, depth)
    else Fail
  }

  function ArrayAt(c: bytes, o: nat, depth: nat): (r: Parsed<Json>)
    requires o < |c|
    ensures r.Done? ==> o < r.offset <= |c|
    decreases |c| - o, 1
  {
    var start := SkipBlanks(c, o + 1);
    if depth >= NESTING_LIMIT || start == |c| then Fail
    else if c[start] == RIGHT_BRACKET then Done(Array([]), start + 1)
    else
      var items := ItemsAt(c, start, depth + 1);
      if items.Fail? then Fail else Done(Array(items.value), items.offset)
  }

  /** The items from `o`, just after the opening bracket or a comma, and the closing bracket. */
  function ItemsAt(c: bytes, o: nat, depth: nat): (r: Parsed<seq<Json>>)
    requires o <= |c|
    ensures r.Done? ==> o < r.offset <= |c|
    decreases |c| - o, 3
  {
    var item := ValueAt(c, SkipBlanks(c, o), depth);
    if item.Fail? then Fail
    else
      var next := SkipBlanks(c, item.offset);
      if next == |c| then Fail
      else if c[next] == COMMA then
        var rest := ItemsAt(c, next + 1, depth);
        if rest.Fail? then Fail else Done([item.value] + rest.value, rest.offset)
      else if c[next] == RIGHT_BRACKET then Done([item.value], next + 1)
      else Fail
  }

  function ObjectAt(c: bytes, o: nat, depth: nat): (r: Parsed<Json>)
    requires o < |c|
    ensures r.Done? ==> o < r.offset <= |c|
    decreases |c| - o, 1
  {
    var start := SkipBlanks(c, o + 1);
    if depth >= NESTING_LIMIT || start == |c| then Fail
    else if c[start] == RIGHT_BRACE then Done(Object([]), start + 1)
    else
      var members := MembersAt(c, start, depth + 1);
      if members.Fail? then Fail else Done(Object(members.value), members.offset)
  }

  /** One member from `o`, just after the opening brace or a comma: name, colon and value. */
  function MemberAt(c: bytes, o: nat, depth: nat): (r: Parsed<Member>)
    requires o <= |c|
    ensures r.Done? ==> o < r.offset <= |c|
    decreases |c| - o, 3
  {
    if o == |c| then Fail
    else
      var key := StringAt(c, SkipBlanks(c, o));
      if key.Fail? then Fail
      else
        var colon := SkipBlanks(c, key.offset);
        if colon == |c| || c[colon] != COLON then Fail
        else
          var value := ValueAt(c, SkipBlanks(c, colon + 1), depth);
          if value.Fail? then Fail else Done(Member(key.value, value.value), value.offset)
  }

  function MembersAt(c: bytes, o: nat, depth: nat): (r: Parsed<seq<Member>>)
    requires o <= |c|
    ensures r.Done? ==> o < r.offset <= |c|
    decreases |c| - o, 4
  {
    var member := MemberAt(c, o, depth);
    if member.Fail? then Fail
    else
      var next := SkipBlanks(c, member.offset);
      if next == |c| then Fail
      else if c[next] == COMMA then
        var rest := MembersAt(c, next + 1, depth);
        if rest.Fail? then Fail else Done([member.value] + rest.value, rest.offset)
      else if c[next] == RIGHT_BRACE then Done([member.value], next + 1)
      else Fail
  }

  // ----- Whole texts

  const BYTE_ORDER_MARK: bytes := [0xEF, 0xBB, 0xBF]

  function AfterMark(c: bytes): (o: nat)
    ensures o <= |c|
  {
    if 4 < |c| && c[..3] == BYTE_ORDER_MARK then 3 else 0
  }

  /** The tree of a text and where its reading ended; a terminator may be required after it. */
  function Document(c: bytes, terminated: bool): Parsed<Json> {
    if c == [] then Fail
    else
      var v := ValueAt(c, SkipBlanks(c, AfterMark(c)), 0);
      if v.Fail? || !terminated then v
      else
        var e := SkipBlanks(c, v.offset);
        if e == |c| || c[e] != 0 then Fail else Done(v.value, e)
  }
}

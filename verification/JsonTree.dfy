/** Byte strings, and the value of a cJSON tree. */
module JsonTree {

  import Words

  type byte = Words.byte
  type bytes = seq<byte>

  // The contents of a C string: every byte before its terminator.
  type cstring = s: bytes | 0 !in s

  const INT_MAX: int := Words.INT_MAX
  const INT_MIN: int := -0x8000_0000

  datatype Json =
    | Null
    | False
    | True
    | Number(d: real)
    | String(s: cstring)
    | Array(items: seq<Json>)
    | Object(members: seq<Member>)

  datatype Member = Member(key: cstring, value: Json)

  /** A double that equals its 32-bit integer part. */
  predicate IsInt32(d: real) {
    d.Floor as real == d && INT_MIN <= d.Floor <= INT_MAX
  }

  /** Every number in the tree is a 32-bit integer. */
  predicate IntegerNumbers(v: Json)
    decreases v, 1
  {
    match v
    case Number(d) => IsInt32(d)
    case Array(items) => IntegerItems(items)
    case Object(members) => IntegerMembers(members)
    case _ => true
  }

  predicate IntegerItems(items: seq<Json>)
    decreases items, 0
  {
    items == [] || (IntegerNumbers(items[0]) && IntegerItems(items[1..]))
  }

  predicate IntegerMembers(members: seq<Member>)
    decreases members, 0
  {
    members == [] || (IntegerNumbers(members[0].value) && IntegerMembers(members[1..]))
  }

  /** How many containers enclose the deepest place inside `v`, counting `v` itself. */
  function Nesting(v: Json): nat
    decreases v, 1
  {
    match v
    case Array(items) => 1 + NestingOfItems(items)
    case Object(members) => 1 + NestingOfMembers(members)
    case _ => 0
  }

  function NestingOfItems(items: seq<Json>): nat
    decreases items, 0
  {
    if items == [] then 0 else Max(Nesting(items[0]), NestingOfItems(items[1..]))
  }

  function NestingOfMembers(members: seq<Member>): nat
    decreases members, 0
  {
    if members == [] then 0 else Max(Nesting(members[0].value), NestingOfMembers(members[1..]))
  }

  function Max(a: nat, b: nat): nat {
    if a < b then b else a
  }

  // The bytes that have a meaning in JSON text.
  const QUOTE: byte := 34
  const BACKSLASH: byte := 92
  const SLASH: byte := 47
  const STAR: byte := 42
  const COMMA: byte := 44
  const COLON: byte := 58
  const MINUS: byte := 45
  const PLUS: byte := 43
  const POINT: byte := 46
  const ZERO: byte := 48
  const NINE: byte := 57
  const LEFT_BRACKET: byte := 91
  const RIGHT_BRACKET: byte := 93
  const LEFT_BRACE: byte := 123
  const RIGHT_BRACE: byte := 125
  const SPACE: byte := 32
  const TAB: byte := 9
  const LINE_FEED: byte := 10
  const RETURN: byte := 13
  const FORM_FEED: byte := 12
  const BACKSPACE: byte := 8
  const LOWER_A: byte := 97
  const LOWER_B: byte := 98
  const LOWER_E: byte := 101
  const LOWER_F: byte := 102
  const LOWER_N: byte := 110
  const LOWER_R: byte := 114
  const LOWER_T: byte := 116
  const LOWER_U: byte := 117
  const UPPER_A: byte := 65
  const UPPER_E: byte := 69
  const UPPER_F: byte := 70

  const NULL_TEXT: bytes := [LOWER_N, LOWER_U, 108, 108]
  const FALSE_TEXT: bytes := [LOWER_F, LOWER_A, 108, 115, LOWER_E]
  const TRUE_TEXT: bytes := [LOWER_T, LOWER_R, LOWER_U, LOWER_E]
}

/** Structural comparison of two trees, and the value it decides. */
module JsonCompare {
  import opened JsonTree
  import opened JsonStrings

  // ----- Names and numbers

  function LowerByte(b: byte): byte {
    if 65 <= b <= 90 then b + 32 else b
  }

  function Lower(s: bytes): (r: bytes)
    ensures |r| == |s|
  {
    if s == [] then [] else [LowerByte(s[0])] + Lower(s[1..])
  }

  /** The same byte, or the upper and lower case of one letter A (65) to Z (90). */
  predicate SameLetter(a: byte, b: byte) {
    a == b || (65 <= a <= 90 && b == a + 32) || (65 <= b <= 90 && a == b + 32)
  }

  predicate SameLetters(s: bytes, t: bytes) {
    |s| == |t| && forall i :: 0 <= i < |s| ==> SameLetter(s[i], t[i])
  }

  /** Names are compared letter by letter, without regard to the case of letters and of nothing else. */
  lemma {:induction false} LowerMeans(s: bytes, t: bytes)
    ensures Lower(s) == Lower(t) <==> SameLetters(s, t)
  {
    hide SameLetter;
    if s != [] && t != [] {
      LowerMeans(s[1..], t[1..]);
      LowerByteMeans(s[0], t[0]);
      LowerParts(s, t);
      SameParts(s, t);
    }
  }

  lemma LowerByteMeans(a: byte, b: byte)
    ensures LowerByte(a) == LowerByte(b) <==> SameLetter(a, b)
  {
  }

  lemma LowerParts(s: bytes, t: bytes)
    requires s != [] && t != []
    ensures Lower(s) == Lower(t) <==> LowerByte(s[0]) == LowerByte(t[0]) && Lower(s[1..]) == Lower(t[1..])
  {
    hide LowerByte;
    assert Lower(s)[1..] == Lower(s[1..]) && Lower(t)[1..] == Lower(t[1..]);
  }

  lemma SameParts(s: bytes, t: bytes)
    requires s != [] && t != []
    ensures SameLetters(s, t) <==> SameLetter(s[0], t[0]) && SameLetters(s[1..], t[1..])
  {
    hide SameLetter;
    if SameLetter(s[0], t[0]) && SameLetters(s[1..], t[1..]) {
      forall i | 0 <= i < |s| ensures SameLetter(s[i], t[i]) {
        if i > 0 {
          assert SameLetter(s[1..][i - 1], t[1..][i - 1]);
        }
      }
    }
  }

  /** The form of a name that a lookup compares. */
  function Name(key: bytes, caseSensitive: bool): bytes {
    if caseSensitive then key else Lower(key)
  }

  function Abs(x: real): real {
    if x < 0.0 then -x else x
  }

  const DBL_EPSILON: real := 1.0 / 4503599627370496.0

  predicate CloseEnough(a: real, b: real) {
    var maxVal := if Abs(a) > Abs(b) then Abs(a) else Abs(b);
    Abs(a - b) <= maxVal * DBL_EPSILON
  }

  /** `x` is at most the 2^52th part of `m` away from zero. */
  predicate Within(x: real, m: real) {
    -m <= x * 4503599627370496.0 <= m
  }

  /** Two numbers are close when their difference is at most the 2^52th part of one of them, by size. */
  lemma CloseMeans(a: real, b: real)
    ensures CloseEnough(a, b)
      <==> Within(a - b, a) || Within(a - b, -a) || Within(a - b, b) || Within(a - b, -b)
  {
  }

  // ----- The comparison, as a function

  function Size(v: Json): (n: nat)
    ensures n >= 1
    decreases v, 1
  {
    match v
    case Array(items) => 1 + SizeOfItems(items)
    case Object(members) => 1 + SizeOfMembers(members)
    case _ => 1
  }

  function SizeOfItems(items: seq<Json>): nat
    decreases items, 0
  {
    if items == [] then 0 else Size(items[0]) + SizeOfItems(items[1..])
  }

  function SizeOfMembers(members: seq<Member>): nat
    decreases members, 0
  {
    if members == [] then 0 else Size(members[0].value) + SizeOfMembers(members[1..])
  }

  /** The first member with a name. */
  function Find(members: seq<Member>, name: bytes, caseSensitive: bool): (r: Option<Json>)
    ensures r.Some? ==> Size(r.value) <= SizeOfMembers(members)
  {
    if members == [] then None
    else if Name(name, caseSensitive) == Name(members[0].key, caseSensitive) then Some(members[0].value)
    else Find(members[1..], name, caseSensitive)
  }

  /** Whether a lookup of `name` takes a key. */
  predicate Matches(key: bytes, name: bytes, caseSensitive: bool) {
    if caseSensitive then key == name else SameLetters(name, key)
  }

  /** A lookup gives the value of the first key that matches, and nothing when none does. */
  lemma {:induction false} FindMeans(members: seq<Member>, name: bytes, caseSensitive: bool)
    ensures Find(members, name, caseSensitive).None?
      <==> forall i :: 0 <= i < |members| ==> !Matches(members[i].key, name, caseSensitive)
    ensures forall i ::
      0 <= i < |members| && Matches(members[i].key, name, caseSensitive)
      && (forall j :: 0 <= j < i ==> !Matches(members[j].key, name, caseSensitive)) ==>
        Find(members, name, caseSensitive) == Some(members[i].value)
  {
    hide Matches, Name;
    if members != [] {
      FindMeans(members[1..], name, caseSensitive);
      FirstMatches(members[0].key, name, caseSensitive);
      assert forall i :: 0 < i < |members| ==> members[i] == members[1..][i - 1];
      forall i | 0 <= i < |members| && Matches(members[i].key, name, caseSensitive)
        && (forall j :: 0 <= j < i ==> !Matches(members[j].key, name, caseSensitive))
        ensures Find(members, name, caseSensitive) == Some(members[i].value)
      {
        if i > 0 {
          assert !Matches(members[0].key, name, caseSensitive);
          assert members[1..][i - 1] == members[i];
          forall j | 0 <= j < i - 1 ensures !Matches(members[1..][j].key, name, caseSensitive) {
            assert members[1..][j] == members[j + 1];
          }
        }
      }
    }
  }

  lemma FirstMatches(key: bytes, name: bytes, caseSensitive: bool)
    ensures Matches(key, name, caseSensitive) <==> Name(name, caseSensitive) == Name(key, caseSensitive)
  {
    LowerMeans(name, key);
  }

  predicate Same(a: Json, b: Json, caseSensitive: bool)
    decreases Size(a) + Size(b), 0
  {
    match a
    case Null => b.Null?
    case False => b.False?
    case True => b.True?
    case Number(d) => b.Number? && CloseEnough(d, b.d)
    case String(s) => b.String? && s == b.s
    case Array(items) => b.Array? && SameItems(items, b.items, caseSensitive)
    case Object(members) =>
      b.Object? && AllIn(members, b.members, caseSensitive) && AllIn(b.members, members, caseSensitive)
  }

  predicate SameItems(a: seq<Json>, b: seq<Json>, caseSensitive: bool)
    decreases SizeOfItems(a) + SizeOfItems(b), 1
  {
    if a == [] || b == [] then a == b
    else Same(a[0], b[0], caseSensitive) && SameItems(a[1..], b[1..], caseSensitive)
  }

  /** Every member of `a` is found in `b` with the same value. */
  predicate AllIn(a: seq<Member>, b: seq<Member>, caseSensitive: bool)
    decreases SizeOfMembers(a) + SizeOfMembers(b), 1
  {
    a == [] ||
    (var found := Find(b, a[0].key, caseSensitive);
     found.Some? && Same(a[0].value, found.value, caseSensitive) && AllIn(a[1..], b, caseSensitive))
  }

  // ----- What a tree denotes

  // Objects are finite maps from names: the order of members does not matter.
  datatype Value =
    | NullValue
    | FalseValue
    | TrueValue
    | NumberValue(d: real)
    | StringValue(s: bytes)
    | ArrayValue(items: seq<Value>)
    | ObjectValue(members: map<bytes, Value>)

  ghost function Denote(v: Json, caseSensitive: bool): Value
    decreases v, 1
  {
    match v
    case Null => NullValue
    case False => FalseValue
    case True => TrueValue
    case Number(d) => NumberValue(d)
    case String(s) => StringValue(s)
    case Array(items) => ArrayValue(DenoteItems(items, caseSensitive))
    case Object(members) => ObjectValue(DenoteMembers(members, caseSensitive))
  }

  ghost function DenoteItems(items: seq<Json>, caseSensitive: bool): (r: seq<Value>)
    ensures |r| == |items|
    decreases items, 0
  {
    if items == [] then [] else [Denote(items[0], caseSensitive)] + DenoteItems(items[1..], caseSensitive)
  }

  /** The first member with a name gives the name its value. */
  ghost function DenoteMembers(members: seq<Member>, caseSensitive: bool): map<bytes, Value>
    decreases members, 0
  {
    if members == [] then map[]
    else
      DenoteMembers(members[1..], caseSensitive)
        [Name(members[0].key, caseSensitive) := Denote(members[0].value, caseSensitive)]
  }

  /** Members of one name, anywhere in the tree, all have the same value. */
  ghost predicate Coherent(v: Json, caseSensitive: bool)
    decreases v, 1
  {
    match v
    case Array(items) => CoherentItems(items, caseSensitive)
    case Object(members) =>
      && CoherentMembers(members, caseSensitive)
      && Agree(members, DenoteMembers(members, caseSensitive), caseSensitive)
    case _ => true
  }

  ghost predicate CoherentItems(items: seq<Json>, caseSensitive: bool)
    decreases items, 0
  {
    items == [] || (Coherent(items[0], caseSensitive) && CoherentItems(items[1..], caseSensitive))
  }

  ghost predicate CoherentMembers(members: seq<Member>, caseSensitive: bool)
    decreases members, 0
  {
    members == [] || (Coherent(members[0].value, caseSensitive) && CoherentMembers(members[1..], caseSensitive))
  }

  /** Every member has the value that `m` gives its name. */
  ghost predicate Agree(members: seq<Member>, m: map<bytes, Value>, caseSensitive: bool)
    decreases members, 0
  {
    members == [] ||
    (var name := Name(members[0].key, caseSensitive);
     && name in m && m[name] == Denote(members[0].value, caseSensitive)
     && Agree(members[1..], m, caseSensitive))
  }

  lemma IntegersClose(a: real, b: real)
    requires IsInt32(a) && IsInt32(b)
    ensures CloseEnough(a, b) <==> a == b
  {
    if a != b {
      IntegersApart(a.Floor, b.Floor);
    }
  }

  lemma IntegersApart(a: int, b: int)
    requires INT_MIN <= a <= INT_MAX && INT_MIN <= b <= INT_MAX && a != b
    ensures !CloseEnough(a as real, b as real)
  {
    var x, y := a as real, b as real;
    assert Abs(x - y) >= 1.0;
    var maxVal := if Abs(x) > Abs(y) then Abs(x) else Abs(y);
    assert maxVal <= 2147483648.0;
    assert maxVal * DBL_EPSILON <= 2147483648.0 * DBL_EPSILON;
  }

  /** A lookup finds exactly what the map holds. */
  lemma {:induction false} FindDenotes(members: seq<Member>, name: bytes, caseSensitive: bool)
    ensures var r, m := Find(members, name, caseSensitive), DenoteMembers(members, caseSensitive);
      && (r.Some? <==> Name(name, caseSensitive) in m)
      && (r.Some? ==> m[Name(name, caseSensitive)] == Denote(r.value, caseSensitive))
  {
    if members != [] {
      FindDenotes(members[1..], name, caseSensitive);
    }
  }

  lemma {:induction false} FoundIntegers(members: seq<Member>, name: bytes, caseSensitive: bool)
    requires IntegerMembers(members)
    ensures var r := Find(members, name, caseSensitive); r.Some? ==> IntegerNumbers(r.value)
  {
    if members != [] {
      FoundIntegers(members[1..], name, caseSensitive);
    }
  }

  lemma {:induction false} FoundCoherent(members: seq<Member>, name: bytes, caseSensitive: bool)
    requires CoherentMembers(members, caseSensitive)
    ensures var r := Find(members, name, caseSensitive); r.Some? ==> Coherent(r.value, caseSensitive)
  {
    if members != [] {
      FoundCoherent(members[1..], name, caseSensitive);
    }
  }

  /**
   * Comparison succeeds exactly on two coherent trees that denote the same value. With distinct names
   * every tree is coherent.
   */
  lemma {:induction false} SameIsEqualValue(a: Json, b: Json, caseSensitive: bool)
    requires IntegerNumbers(a) && IntegerNumbers(b)
    ensures Same(a, b, caseSensitive) <==>
      && Coherent(a, caseSensitive) && Coherent(b, caseSensitive)
      && Denote(a, caseSensitive) == Denote(b, caseSensitive)
    decreases Size(a) + Size(b), 0
  {
    if a.Number? && b.Number? {
      IntegersClose(a.d, b.d);
    } else if a.Array? && b.Array? {
      SameItemsIsEqual(a.items, b.items, caseSensitive);
    } else if a.Object? && b.Object? {
      SameObjects(a.members, b.members, caseSensitive);
    }
  }

  lemma {:induction false} SameItemsIsEqual(a: seq<Json>, b: seq<Json>, caseSensitive: bool)
    requires IntegerItems(a) && IntegerItems(b)
    ensures SameItems(a, b, caseSensitive) <==>
      && CoherentItems(a, caseSensitive) && CoherentItems(b, caseSensitive)
      && DenoteItems(a, caseSensitive) == DenoteItems(b, caseSensitive)
    decreases SizeOfItems(a) + SizeOfItems(b), 1
  {
    if a != [] && b != [] {
      SameIsEqualValue(a[0], b[0], caseSensitive);
      SameItemsIsEqual(a[1..], b[1..], caseSensitive);
      var x, y := DenoteItems(a, caseSensitive), DenoteItems(b, caseSensitive);
      assert x[0] == Denote(a[0], caseSensitive) && x[1..] == DenoteItems(a[1..], caseSensitive);
      assert y[0] == Denote(b[0], caseSensitive) && y[1..] == DenoteItems(b[1..], caseSensitive);
    }
  }

  /** One direction of the lookup. */
  lemma {:induction false} AllInIsAgreement(a: seq<Member>, b: seq<Member>, caseSensitive: bool)
    requires IntegerMembers(a) && IntegerMembers(b)
    ensures AllIn(a, b, caseSensitive) ==>
      CoherentMembers(a, caseSensitive) && Agree(a, DenoteMembers(b, caseSensitive), caseSensitive)
    ensures (CoherentMembers(a, caseSensitive) && CoherentMembers(b, caseSensitive)
             && Agree(a, DenoteMembers(b, caseSensitive), caseSensitive)) ==> AllIn(a, b, caseSensitive)
    decreases SizeOfMembers(a) + SizeOfMembers(b), 1
  {
    if a != [] {
      var found := Find(b, a[0].key, caseSensitive);
      FindDenotes(b, a[0].key, caseSensitive);
      FoundIntegers(b, a[0].key, caseSensitive);
      if found.Some? {
        SameIsEqualValue(a[0].value, found.value, caseSensitive);
      }
      if CoherentMembers(b, caseSensitive) {
        FoundCoherent(b, a[0].key, caseSensitive);
      }
      AllInIsAgreement(a[1..], b, caseSensitive);
    }
  }

  /** Members that agree with a map give only values of that map. */
  lemma {:induction false} AgreeingMap(a: seq<Member>, m: map<bytes, Value>, caseSensitive: bool)
    requires Agree(a, m, caseSensitive)
    ensures forall k :: k in DenoteMembers(a, caseSensitive) ==> k in m && m[k] == DenoteMembers(a, caseSensitive)[k]
  {
    if a != [] {
      AgreeingMap(a[1..], m, caseSensitive);
    }
  }

  lemma {:induction false} SameObjects(a: seq<Member>, b: seq<Member>, caseSensitive: bool)
    requires IntegerMembers(a) && IntegerMembers(b)
    ensures AllIn(a, b, caseSensitive) && AllIn(b, a, caseSensitive) <==>
      && Coherent(Object(a), caseSensitive) && Coherent(Object(b), caseSensitive)
      && DenoteMembers(a, caseSensitive) == DenoteMembers(b, caseSensitive)
    decreases SizeOfMembers(a) + SizeOfMembers(b), 2
  {
    AllInIsAgreement(a, b, caseSensitive);
    AllInIsAgreement(b, a, caseSensitive);
    if AllIn(a, b, caseSensitive) && AllIn(b, a, caseSensitive) {
      AgreeingMap(a, DenoteMembers(b, caseSensitive), caseSensitive);
      AgreeingMap(b, DenoteMembers(a, caseSensitive), caseSensitive);
      assert DenoteMembers(a, caseSensitive) == DenoteMembers(b, caseSensitive);
    }
  }

  // ----- Distinct names

  ghost predicate DistinctNames(v: Json, caseSensitive: bool)
    decreases v, 1
  {
    match v
    case Array(items) => DistinctItems(items, caseSensitive)
    case Object(members) => DistinctMembers(members, caseSensitive)
    case _ => true
  }

  ghost predicate DistinctItems(items: seq<Json>, caseSensitive: bool)
    decreases items, 0
  {
    items == [] || (DistinctNames(items[0], caseSensitive) && DistinctItems(items[1..], caseSensitive))
  }

  ghost predicate DistinctMembers(members: seq<Member>, caseSensitive: bool)
    decreases members, 0
  {
    members == [] ||
    (&& Find(members[1..], members[0].key, caseSensitive) == None
     && DistinctNames(members[0].value, caseSensitive)
     && DistinctMembers(members[1..], caseSensitive))
  }

  lemma {:induction false} DistinctIsCoherent(v: Json, caseSensitive: bool)
    requires DistinctNames(v, caseSensitive)
    ensures Coherent(v, caseSensitive)
    decreases v, 1
  {
    match v {
      case Array(items) => DistinctItemsCoherent(items, caseSensitive);
      case Object(members) => DistinctMembersCoherent(members, caseSensitive);
      case _ =>
    }
  }

  lemma {:induction false} DistinctItemsCoherent(items: seq<Json>, caseSensitive: bool)
    requires DistinctItems(items, caseSensitive)
    ensures CoherentItems(items, caseSensitive)
    decreases items, 0
  {
    if items != [] {
      DistinctIsCoherent(items[0], caseSensitive);
      DistinctItemsCoherent(items[1..], caseSensitive);
    }
  }

  lemma {:induction false} DistinctMembersCoherent(members: seq<Member>, caseSensitive: bool)
    requires DistinctMembers(members, caseSensitive)
    ensures CoherentMembers(members, caseSensitive)
    ensures Agree(members, DenoteMembers(members, caseSensitive), caseSensitive)
    decreases members, 0
  {
    if members != [] {
      var rest := DenoteMembers(members[1..], caseSensitive);
      DistinctIsCoherent(members[0].value, caseSensitive);
      DistinctMembersCoherent(members[1..], caseSensitive);
      FindDenotes(members[1..], members[0].key, caseSensitive);
      AgreeLarger(members[1..], rest, DenoteMembers(members, caseSensitive), caseSensitive);
    }
  }

  lemma {:induction false} AgreeLarger(
      members: seq<Member>, m: map<bytes, Value>, n: map<bytes, Value>, caseSensitive: bool)
    requires Agree(members, m, caseSensitive) && forall k :: k in m ==> k in n && n[k] == m[k]
    ensures Agree(members, n, caseSensitive)
  {
    if members != [] {
      AgreeLarger(members[1..], m, n, caseSensitive);
    }
  }

  /** On trees with distinct names, comparison decides equality of the values they denote. */
  lemma CompareDecidesValue(a: Json, b: Json, caseSensitive: bool)
    requires IntegerNumbers(a) && IntegerNumbers(b)
    requires DistinctNames(a, caseSensitive) && DistinctNames(b, caseSensitive)
    ensures Same(a, b, caseSensitive) <==> Denote(a, caseSensitive) == Denote(b, caseSensitive)
  {
    SameIsEqualValue(a, b, caseSensitive);
    DistinctIsCoherent(a, caseSensitive);
    DistinctIsCoherent(b, caseSensitive);
  }

  /** Comparison is symmetric and transitive on all trees, and reflexive exactly on coherent ones. */
  lemma CompareIsPartialEquivalence(a: Json, b: Json, c: Json, caseSensitive: bool)
    requires IntegerNumbers(a) && IntegerNumbers(b) && IntegerNumbers(c)
    ensures Same(a, a, caseSensitive) <==> Coherent(a, caseSensitive)
    ensures Same(a, b, caseSensitive) ==> Same(b, a, caseSensitive)
    ensures Same(a, b, caseSensitive) && Same(b, c, caseSensitive) ==> Same(a, c, caseSensitive)
  {
    SameIsEqualValue(a, a, caseSensitive);
    SameIsEqualValue(a, b, caseSensitive);
    SameIsEqualValue(b, a, caseSensitive);
    SameIsEqualValue(b, c, caseSensitive);
    SameIsEqualValue(a, c, caseSensitive);
  }

  /** An object that holds one name with two values differs from an equal copy of itself. */
  lemma RepeatedNameDiffersFromItself()
    ensures var v := Object([Member([], True), Member([], False)]); !Same(v, v, true)
  {
    var ms := [Member([], True), Member([], False)];
    assert ms[1..][0].value == False;
    assert Find(ms, [], true) == Some(True);
    assert !AllIn(ms[1..], ms, true);
  }

  // ----- The loops

  /** The member a lookup finds, walking the children in order. */
  method GetObjectItem(members: seq<Member>, name: cstring, caseSensitive: bool) returns (r: Option<Json>)
    ensures r == Find(members, name, caseSensitive)
  {
    var i := 0;
    assert members[0..] == members;
    while i < |members|
      invariant 0 <= i <= |members|
      invariant Find(members[i..], name, caseSensitive) == Find(members, name, caseSensitive)
    {
      assert members[i..][1..] == members[i + 1..];
      var equal: bool;
      if caseSensitive {
        equal := name == members[i].key;
      } else {
        var difference := CaseInsensitiveCompare(name, members[i].key);
        equal := difference == 0;
      }
      if equal {
        return Some(members[i].value);
      }
      i := i + 1;
    }
    return None;
  }

  /** 0 exactly when two strings differ in case alone. */
  method CaseInsensitiveCompare(s: cstring, t: cstring) returns (difference: int)
    ensures difference == 0 <==> Lower(s) == Lower(t)
    ensures difference == 0 <==> SameLetters(s, t)
  {
    hide SameLetters;
    LowerMeans(s, t);
    var i := 0;
    assert s[0..] == s && t[0..] == t;
    while i < |s| && i < |t| && LowerByte(s[i]) == LowerByte(t[i])
      invariant 0 <= i <= |s| && i <= |t|
      invariant Lower(s) == Lower(t) <==> Lower(s[i..]) == Lower(t[i..])
    {
      LowerStep(s[i..], t[i..]);
      assert s[i..][1..] == s[i + 1..] && t[i..][1..] == t[i + 1..];
      i := i + 1;
    }
    var x: int := if i < |s| then LowerByte(s[i]) else 0;
    var y: int := if i < |t| then LowerByte(t[i]) else 0;
    if i < |s| {
      assert s[i] in s;
    }
    if i < |t| {
      assert t[i] in t;
    }
    if i < |s| && i < |t| {
      assert Lower(s[i..])[0] == LowerByte(s[i]) && Lower(t[i..])[0] == LowerByte(t[i]);
    }
    difference := x - y;
  }

  lemma LowerStep(s: bytes, t: bytes)
    requires s != [] && t != [] && LowerByte(s[0]) == LowerByte(t[0])
    ensures Lower(s) == Lower(t) <==> Lower(s[1..]) == Lower(t[1..])
  {
    assert Lower(s)[1..] == Lower(s[1..]) && Lower(t)[1..] == Lower(t[1..]);
  }

  method Compare(a: Json, b: Json, caseSensitive: bool) returns (r: bool)
    ensures r == Same(a, b, caseSensitive)
    decreases Size(a) + Size(b), 0
  {
    match a {
      case Null => r := b.Null?;
      case False => r := b.False?;
      case True => r := b.True?;
      case Number(d) => r := b.Number? && CloseEnough(d, b.d);
      case String(s) => r := b.String? && s == b.s;
      case Array(items) =>
        if !b.Array? {
          return false;
        }
        r := CompareItems(items, b.items, caseSensitive);
      case Object(members) =>
        if !b.Object? {
          return false;
        }
        r := LookUpAll(members, b.members, caseSensitive);
        if r {
          r := LookUpAll(b.members, members, caseSensitive);
        }
    }
  }

  method CompareItems(a: seq<Json>, b: seq<Json>, caseSensitive: bool) returns (r: bool)
    ensures r == SameItems(a, b, caseSensitive)
    decreases SizeOfItems(a) + SizeOfItems(b), 1
  {
    var i := 0;
    assert a[0..] == a && b[0..] == b;
    while i < |a| && i < |b|
      invariant 0 <= i <= |a| && i <= |b|
      invariant SameItems(a[i..], b[i..], caseSensitive) == SameItems(a, b, caseSensitive)
      invariant SizeOfItems(a[i..]) <= SizeOfItems(a) && SizeOfItems(b[i..]) <= SizeOfItems(b)
    {
      assert a[i..][1..] == a[i + 1..] && b[i..][1..] == b[i + 1..];
      var same := Compare(a[i], b[i], caseSensitive);
      if !same {
        return false;
      }
      i := i + 1;
    }
    return i == |a| && i == |b|;
  }

  /** Looks every member of `a` up in `b` and compares the two. */
  method LookUpAll(a: seq<Member>, b: seq<Member>, caseSensitive: bool) returns (r: bool)
    ensures r == AllIn(a, b, caseSensitive)
    decreases SizeOfMembers(a) + SizeOfMembers(b), 1
  {
    var i := 0;
    assert a[0..] == a;
    while i < |a|
      invariant 0 <= i <= |a|
      invariant AllIn(a[i..], b, caseSensitive) == AllIn(a, b, caseSensitive)
      invariant SizeOfMembers(a[i..]) <= SizeOfMembers(a)
    {
      assert a[i..][1..] == a[i + 1..];
      var found := GetObjectItem(b, a[i].key, caseSensitive);
      if found.None? {
        return false;
      }
      var same := Compare(a[i].value, found.value, caseSensitive);
      if !same {
        return false;
      }
      i := i + 1;
    }
    return true;
  }
}

/** What minifying keeps: a text cut into blanks, comments, slashes, strings and other bytes. */
module JsonChunks {
  import opened JsonTree
  import opened JsonStrings
  import opened JsonMinify

  datatype Chunk =
    | Blank(b: byte)
    | LineNote(body: bytes)    // `//` up to and with the end of its line
    | BlockNote(body: bytes)   // `/*` up to and with the next `*/`
    | Lone                     // a slash that opens no comment
    | Token(body: bytes)       // a string between its quotes
    | Other(b: byte)
    | OpenLine(body: bytes)    // the same at the end of the text, without their ends
    | OpenBlock(body: bytes)
    | OpenToken(body: bytes)
  {
    function Text(): (t: bytes)
      ensures t != []
    {
      match this
      case Blank(b) => [b]
      case LineNote(body) => [47, 47] + body + [10]
      case BlockNote(body) => [47, 42] + body + [42, 47]
      case Lone => [47]
      case Token(body) => [34] + body + [34]
      case Other(b) => [b]
      case OpenLine(body) => [47, 47] + body
      case OpenBlock(body) => [47, 42] + body
      case OpenToken(body) => [34] + body
    }

    /** Strings and other bytes are kept whole, everything else is dropped whole. */
    function Kept(): bytes {
      if Token? || OpenToken? || Other? then Text() else []
    }

    predicate IsOpen() {
      OpenLine? || OpenBlock? || OpenToken?
    }

    predicate Proper() {
      match this
      case Blank(b) => b == 32 || b == 9 || b == 13 || b == 10
      case LineNote(body) => 10 !in body
      case BlockNote(body) => !Closes(body + [42])
      case Lone => true
      case Token(body) => Quiet(body) && (body == [] || body[|body| - 1] != 92)
      case Other(b) => b != 32 && b != 9 && b != 13 && b != 10 && b != 47 && b != 34
      case OpenLine(body) => 10 !in body
      case OpenBlock(body) => !Closes(body)
      case OpenToken(body) => Quiet(body)
    }
  }

  /** A star and a slash stand side by side. */
  predicate Closes(s: bytes) {
    exists i :: 0 <= i < |s| - 1 && s[i] == 42 && s[i + 1] == 47
  }

  /** Every quote stands behind a backslash. */
  predicate Quiet(s: bytes) {
    forall i :: 0 <= i < |s| && s[i] == 34 ==> i > 0 && s[i - 1] == 92
  }

  function TextOf(cs: seq<Chunk>): bytes {
    if cs == [] then [] else cs[0].Text() + TextOf(cs[1..])
  }

  function KeptOf(cs: seq<Chunk>): bytes {
    if cs == [] then [] else cs[0].Kept() + KeptOf(cs[1..])
  }

  /** Each chunk is proper, only the last is open, and behind a lone slash comes neither a slash nor a star. */
  predicate Valid(cs: seq<Chunk>) {
    cs == [] ||
    (&& cs[0].Proper() && (cs[0].IsOpen() ==> |cs| == 1)
     && (cs[0].Lone? && |cs| > 1 ==> cs[1].Text()[0] != 47 && cs[1].Text()[0] != 42)
     && Valid(cs[1..]))
  }

  // ----- Every way to cut a text gives what minifying keeps

  lemma {:induction false} LineEnds(body: bytes, rest: bytes)
    requires 10 !in body
    ensures LineComment(body + [10] + rest) == |body| + 1
    ensures LineComment(body) == |body|
  {
    if body != [] {
      LineEnds(body[1..], rest);
      assert (body + [10] + rest)[1..] == body[1..] + [10] + rest;
    }
  }

  lemma {:induction false} BlockEnds(body: bytes, rest: bytes)
    requires !Closes(body + [42])
    ensures BlockComment(body + [42, 47] + rest) == |body| + 2
  {
    var t := body + [42, 47] + rest;
    if body != [] {
      var s := body + [42];
      assert s[0] == t[0] && s[1] == t[1];
      assert !(t[0] == 42 && t[1] == 47);
      ClosesTail(s);
      assert s[1..] == body[1..] + [42];
      BlockEnds(body[1..], rest);
      assert t[1..] == body[1..] + [42, 47] + rest;
    }
  }

  lemma ClosesTail(s: bytes)
    requires s != [] && !Closes(s)
    ensures !Closes(s[1..])
  {
    forall i | 0 <= i < |s[1..]| - 1 ensures !(s[1..][i] == 42 && s[1..][i + 1] == 47) {
      assert s[1..][i] == s[i + 1] && s[1..][i + 1] == s[i + 1 + 1];
    }
  }

  lemma {:induction false} BlockStaysOpen(body: bytes)
    requires !Closes(body)
    ensures BlockComment(body) == |body|
  {
    if body != [] {
      ClosesTail(body);
      BlockStaysOpen(body[1..]);
    }
  }

  lemma {:induction false} TokenEnds(body: bytes, rest: bytes)
    requires Quiet(body) && (body == [] || body[|body| - 1] != 92)
    ensures StringRest(body + [34] + rest) == |body| + 1
  {
    var t := body + [34] + rest;
    StringRestStep(t);
    if body != [] {
      var n := if body[0] == 92 && |body| > 1 && body[1] == 34 then 2 else 1;
      QuietTail(body, n);
      TokenEnds(body[n..], rest);
      assert t[n..] == body[n..] + [34] + rest;
      assert t[1] == if |body| > 1 then body[1] else 34;
    }
  }

  lemma QuietTail(s: bytes, n: nat)
    requires Quiet(s) && 1 <= n <= |s|
    requires n == 1 ==> !(s[0] == 92 && |s| > 1 && s[1] == 34)
    requires n == 2 ==> s[1] == 34
    requires n <= 2
    ensures Quiet(s[n..])
  {
    var r := s[n..];
    forall i | 0 <= i < |r| && r[i] == 34 ensures i > 0 && r[i - 1] == 92 {
      assert r[i] == s[i + n];
      if i > 0 {
        assert r[i - 1] == s[i + n - 1];
      }
    }
  }

  lemma {:induction false} TokenStaysOpen(body: bytes)
    requires Quiet(body)
    ensures StringRest(body) == |body|
  {
    StringRestStep(body);
    if body != [] {
      var n := if body[0] == 92 && |body| > 1 && body[1] == 34 then 2 else 1;
      QuietTail(body, n);
      TokenStaysOpen(body[n..]);
    }
  }

  lemma {:induction false} MinifiedToken(t: bytes)
    requires t != [] && t[0] == QUOTE
    ensures Minified(t) == t[..1 + StringRest(t[1..])] + Minified(t[1 + StringRest(t[1..])..])
  {
    hide StringRest, LineComment, BlockComment;
  }

  lemma Behind(head: bytes, tail: bytes)
    ensures (head + tail)[..|head|] == head && (head + tail)[|head|..] == tail
  {
  }

  /** A line comment is dropped together with its opening. */
  lemma LineOff(body: bytes, end: bytes, rest: bytes)
    requires 10 !in body && (end == [10] || (end == [] && rest == []))
    ensures Minified([47, 47] + body + end + rest) == Minified(rest)
  {
    hide Minified, LineComment;
    var t, u := [47, 47] + body + end + rest, body + end + rest;
    assert t == [47, 47] + u;
    Behind([47, 47], u);
    MinifiedSlash(t);
    LineEnds(body, rest);
    assert end == [] ==> u == body;
    Behind(body + end, rest);
  }

  /** A block comment is dropped together with its opening. */
  lemma BlockOff(body: bytes, end: bytes, rest: bytes)
    requires (end == [42, 47] && !Closes(body + [42])) || (end == [] && rest == [] && !Closes(body))
    ensures Minified([47, 42] + body + end + rest) == Minified(rest)
  {
    hide Minified, BlockComment, Closes;
    var t, u := [47, 42] + body + end + rest, body + end + rest;
    assert t == [47, 42] + u;
    Behind([47, 42], u);
    MinifiedSlash(t);
    if end == [] {
      assert u == body;
      BlockStaysOpen(body);
    } else {
      BlockEnds(body, rest);
    }
    Behind(body + end, rest);
  }

  /** A string is kept together with its opening quote. */
  lemma TokenOff(body: bytes, end: bytes, rest: bytes)
    requires Quiet(body)
    requires (end == [34] && (body == [] || body[|body| - 1] != 92)) || (end == [] && rest == [])
    ensures Minified([34] + body + end + rest) == [34] + body + end + Minified(rest)
  {
    hide Minified, StringRest, Quiet;
    var t, u := [34] + body + end + rest, body + end + rest;
    assert t == [34] + u;
    Behind([34], u);
    MinifiedToken(t);
    if end == [] {
      assert u == body;
      TokenStaysOpen(body);
    } else {
      TokenEnds(body, rest);
    }
    Behind([34] + body + end, rest);
  }

  /** Minifying takes off one chunk. */
  lemma ChunkOff(c: Chunk, rest: bytes)
    requires c.Proper() && (c.IsOpen() ==> rest == [])
    requires c.Lone? && rest != [] ==> rest[0] != 47 && rest[0] != 42
    ensures Minified(c.Text() + rest) == c.Kept() + Minified(rest)
  {
    hide Minified, Closes, Quiet;
    match c {
      case LineNote(body) => LineOff(body, [10], rest);
      case OpenLine(body) => LineOff(body, [], rest); assert c.Text() + rest == [47, 47] + body + [] + rest;
      case BlockNote(body) => BlockOff(body, [42, 47], rest);
      case OpenBlock(body) => BlockOff(body, [], rest); assert c.Text() + rest == [47, 42] + body + [] + rest;
      case Token(body) => TokenOff(body, [34], rest);
      case OpenToken(body) => TokenOff(body, [], rest); assert c.Text() + rest == [34] + body + [] + rest;
      case Lone => MinifiedSlash(c.Text() + rest); assert (c.Text() + rest)[1..] == rest;
      case _ => MinifiedByte(c.Text() + rest); assert (c.Text() + rest)[1..] == rest;
    }
  }

  /** However a text is cut into valid chunks, minifying keeps exactly its strings and other bytes, in order. */
  lemma {:induction false} MinifiedChunks(cs: seq<Chunk>)
    requires Valid(cs)
    ensures Minified(TextOf(cs)) == KeptOf(cs)
  {
    hide Minified;
    if cs == [] {
      assert Minified([]) == [] by { MinifiedNothing(); }
    } else {
      MinifiedChunks(cs[1..]);
      FirstOfRest(cs);
      ChunkOff(cs[0], TextOf(cs[1..]));
    }
  }

  lemma MinifiedNothing()
    ensures Minified([]) == []
  {
  }

  lemma FirstOfRest(cs: seq<Chunk>)
    requires cs != []
    ensures |cs| == 1 ==> TextOf(cs[1..]) == []
    ensures |cs| > 1 ==> TextOf(cs[1..]) != [] && TextOf(cs[1..])[0] == cs[1].Text()[0]
  {
  }

  // ----- Every text can be cut

  lemma {:induction false} LineFound(t: bytes)
    ensures var n := LineComment(t);
      if n > 0 && t[n - 1] == 10 then 10 !in t[..n - 1] else n == |t| && 10 !in t
  {
    if t != [] && t[0] != 10 {
      LineFound(t[1..]);
    }
  }

  lemma ClosesFront(s: bytes)
    requires s != [] && !Closes(s[1..]) && !(s[0] == 42 && |s| > 1 && s[1] == 47)
    ensures !Closes(s)
  {
    forall i | 0 <= i < |s| - 1 ensures !(s[i] == 42 && s[i + 1] == 47) {
      if i > 0 {
        assert s[1..][i - 1] == s[i] && s[1..][i - 1 + 1] == s[i + 1];
      }
    }
  }

  lemma {:induction false} BlockFound(t: bytes)
    ensures var n := BlockComment(t);
      || (n >= 2 && t[n - 2] == 42 && t[n - 1] == 47 && !Closes(t[..n - 1]))
      || (n == |t| && !Closes(t))
  {
    hide Closes;
    if t == [] {
      NothingCloses(t);
    } else if t[0] == 42 && |t| > 1 && t[1] == 47 {
      NothingCloses(t[..1]);
    } else {
      var n := BlockComment(t);
      BlockFound(t[1..]);
      if n == |t| && !Closes(t[1..]) {
        ClosesFront(t);
      } else {
        assert t[..n - 1][1..] == t[1..][..n - 2];
        ClosesFront(t[..n - 1]);
      }
    }
  }

  lemma NothingCloses(s: bytes)
    requires |s| <= 1
    ensures !Closes(s)
  {
  }

  lemma QuietFront(s: bytes, k: nat)
    requires 1 <= k <= 2 && k <= |s| && Quiet(s[k..]) && s[0] != 34
    requires k == 2 ==> s[0] == 92
    ensures Quiet(s)
  {
    forall i | 0 <= i < |s| && s[i] == 34 ensures i > 0 && s[i - 1] == 92 {
      if i >= k {
        assert s[k..][i - k] == 34;
        assert s[k..][i - k - 1] == s[i - 1];
      }
    }
  }

  lemma QuietNothing(s: bytes)
    requires s == []
    ensures Quiet(s)
  {
  }

  lemma {:induction false} TokenFound(t: bytes)
    ensures var n := StringRest(t);
      || (n >= 1 && t[n - 1] == 34 && Quiet(t[..n - 1]) && (n == 1 || t[n - 2] != 92))
      || (n == |t| && Quiet(t))
  {
    hide Quiet, StringRest;
    StringRestStep(t);
    if t == [] {
      QuietNothing(t);
    } else if t[0] == 34 {
      QuietNothing(t[..0]);
    } else {
      var n, k := StringRest(t), if t[0] == 92 && |t| > 1 && t[1] == 34 then 2 else 1;
      TokenFound(t[k..]);
      if n == |t| && Quiet(t[k..]) {
        QuietFront(t, k);
      } else {
        assert t[..n - 1][k..] == t[k..][..n - 1 - k];
        QuietFront(t[..n - 1], k);
      }
    }
  }

  /** The first chunk of a text, and what is left behind it. */
  lemma FirstChunk(t: bytes) returns (c: Chunk, rest: bytes)
    requires t != []
    ensures c.Proper() && t == c.Text() + rest && (c.IsOpen() ==> rest == [])
    ensures c.Lone? && rest != [] ==> rest[0] != 47 && rest[0] != 42
  {
    hide LineComment, BlockComment, StringRest, Closes, Quiet;
    if t[0] == 34 {
      c, rest := TokenChunk(t);
    } else if t[0] == 47 && |t| > 1 && t[1] == 47 {
      c, rest := LineChunk(t);
    } else if t[0] == 47 && |t| > 1 && t[1] == 42 {
      c, rest := BlockChunk(t);
    } else {
      c := if IsBlank(t[0]) then Blank(t[0]) else if t[0] == 47 then Lone else Other(t[0]);
      rest := t[1..];
    }
  }

  lemma LineChunk(t: bytes) returns (c: Chunk, rest: bytes)
    requires |t| > 1 && t[0] == 47 && t[1] == 47
    ensures (c.LineNote? || c.OpenLine?) && c.Proper() && t == c.Text() + rest && (c.IsOpen() ==> rest == [])
  {
    hide LineComment;
    var u := t[2..];
    var n := LineComment(u);
    LineFound(u);
    if n > 0 && u[n - 1] == 10 {
      c, rest := LineNote(u[..n - 1]), u[n..];
      assert u == u[..n - 1] + [10] + u[n..];
      assert t == [47, 47] + u;
    } else {
      c, rest := OpenLine(u), [];
    }
  }

  lemma BlockChunk(t: bytes) returns (c: Chunk, rest: bytes)
    requires |t| > 1 && t[0] == 47 && t[1] == 42
    ensures (c.BlockNote? || c.OpenBlock?) && c.Proper() && t == c.Text() + rest && (c.IsOpen() ==> rest == [])
  {
    hide BlockComment, Closes;
    var u := t[2..];
    var n := BlockComment(u);
    BlockFound(u);
    if n == |u| && !Closes(u) {
      c, rest := OpenBlock(u), [];
    } else {
      c, rest := BlockNote(u[..n - 2]), u[n..];
      assert u[..n - 2] + [42] == u[..n - 1];
      assert u == u[..n - 2] + [42, 47] + u[n..];
    }
  }

  lemma TokenChunk(t: bytes) returns (c: Chunk, rest: bytes)
    requires t != [] && t[0] == 34
    ensures (c.Token? || c.OpenToken?) && c.Proper() && t == c.Text() + rest && (c.IsOpen() ==> rest == [])
  {
    hide StringRest, Quiet;
    var u := t[1..];
    var n := StringRest(u);
    TokenFound(u);
    if n == |u| && Quiet(u) {
      c, rest := OpenToken(u), [];
    } else {
      c, rest := Token(u[..n - 1]), u[n..];
      assert u == u[..n - 1] + [34] + u[n..];
    }
  }

  /** Every text can be cut into valid chunks. */
  lemma {:induction false} Cut(t: bytes) returns (cs: seq<Chunk>)
    ensures Valid(cs) && TextOf(cs) == t
    decreases |t|
  {
    hide Chunk.Proper, Chunk.Text;
    if t == [] {
      cs := [];
    } else {
      var c, rest := FirstChunk(t);
      var more := Cut(rest);
      cs := [c] + more;
      assert cs[1..] == more;
      if more != [] {
        assert rest[0] == more[0].Text()[0];
      }
    }
  }

  /** What minifying yields is what valid chunks of a text keep, however it is cut, and every text can be cut. */
  lemma MinifiedIff(t: bytes, r: bytes)
    ensures Minified(t) == r <==> exists cs: seq<Chunk> :: Valid(cs) && TextOf(cs) == t && KeptOf(cs) == r
  {
    hide Minified, Valid, TextOf, KeptOf;
    var cs := Cut(t);
    MinifiedChunks(cs);
    forall cs: seq<Chunk> | Valid(cs) ensures Minified(TextOf(cs)) == KeptOf(cs) {
      MinifiedChunks(cs);
    }
  }
}

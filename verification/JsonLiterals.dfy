/** The string literals the parser accepts, and no others. */
module JsonLiterals {
  import opened JsonTree
  import opened JsonStrings

  type plainbyte = b: byte | b != QUOTE && b != BACKSLASH witness 32

  // A literal as the sizing pass reads it: a backslash takes the byte behind it along, whatever it is.
  datatype Sized = Plain(b: plainbyte) | Escaped(escaped: byte)
  {
    function Text(): (t: bytes)
      ensures t != []
    {
      match this
      case Plain(b) => [b]
      case Escaped(escaped) => [BACKSLASH, escaped]
    }
  }

  function SizedText(us: seq<Sized>): bytes {
    if us == [] then [] else us[0].Text() + SizedText(us[1..])
  }

  /**
   * A string literal. The sizing pass fixes where it ends and the unescaping pass what it means. Both read the same
   * bytes, except that a last `\"` of the second pass may take in the closing quote.
   */
  datatype StringText = StringText(sized: seq<Sized>, pieces: seq<Piece>)
  {
    function Text(): bytes {
      [34] + SizedText(sized) + [34]
    }

    ghost predicate Valid() {
      && Paired(pieces)
      && (TextOf(pieces) == SizedText(sized)
          || (pieces != [] && pieces[|pieces| - 1] == Short(34) && TextOf(pieces) == SizedText(sized) + [34]))
    }

    function Value(): cstring {
      if Meaning(pieces).Some? then CString(Meaning(pieces).value) else []
    }
  }

  lemma {:induction false} EndPastSized(c: bytes, p: nat, u: Sized)
    requires At(c, p, u.Text())
    ensures p + |u.Text()| <= |c| && StringEnd(c, p) == StringEnd(c, p + |u.Text()|)
  {
    hide StringEnd;
    AtIndex(c, p, u.Text(), 0);
    EndStep(c, p);
  }

  lemma {:induction false} EndStep(c: bytes, p: nat)
    requires p < |c| && c[p] != QUOTE
    ensures c[p] == BACKSLASH ==>
      StringEnd(c, p) == if p + 1 < |c| then StringEnd(c, p + 2) else None
    ensures c[p] != BACKSLASH ==> StringEnd(c, p) == StringEnd(c, p + 1)
  {
  }

  lemma {:induction false} EndOfSized(c: bytes, p: nat, us: seq<Sized>)
    requires At(c, p, SizedText(us)) && p + |SizedText(us)| < |c| && c[p + |SizedText(us)|] == QUOTE
    ensures StringEnd(c, p) == Some(p + |SizedText(us)|)
    decreases |us|
  {
    hide At;
    if us != [] {
      var t := us[0].Text();
      AtSplit(c, p, t, SizedText(us[1..]));
      EndPastSized(c, p, us[0]);
      EndOfSized(c, p + |t|, us[1..]);
    }
  }

  lemma AtNothing(c: bytes, p: nat)
    requires p <= |c|
    ensures At(c, p, [])
  {
  }

  lemma AtSized(c: bytes, p: nat, u: Sized)
    requires p + |u.Text()| <= |c|
    requires if u.Plain? then c[p] == u.b else c[p] == BACKSLASH && c[p + 1] == u.escaped
    ensures At(c, p, u.Text())
  {
  }

  lemma {:induction false} SizedOfEnd(c: bytes, p: nat) returns (us: seq<Sized>)
    requires p <= |c| && StringEnd(c, p).Some?
    ensures At(c, p, SizedText(us)) && p + |SizedText(us)| == StringEnd(c, p).value
    decreases |c| - p
  {
    hide At;
    if c[p] == QUOTE {
      us := [];
      AtNothing(c, p);
    } else {
      EndStep(c, p);
      var u := if c[p] == BACKSLASH then Escaped(c[p + 1]) else Plain(c[p]);
      var rest := SizedOfEnd(c, p + |u.Text()|);
      us := [u] + rest;
      assert us[1..] == rest;
      AtSized(c, p, u);
      AtSplit(c, p, u.Text(), SizedText(rest));
    }
  }

  /** Putting a piece in front of others that reach the end. */
  lemma ConsPiece(c: bytes, p: nat, piece: Piece, rest: seq<Piece>, e: nat)
    requires At(c, p, piece.Text()) && At(c, p + |piece.Text()|, TextOf(rest)) && e < |c| && c[e] == QUOTE
    requires Reaches(rest, p + |piece.Text()|, e) && p < e && (piece.Hex? ==> p + 6 <= e)
    ensures At(c, p, TextOf([piece] + rest)) && Reaches([piece] + rest, p, e)
  {
    var ps := [piece] + rest;
    assert ps[0] == piece && ps[1..] == rest;
    AtSplit(c, p, piece.Text(), TextOf(rest));
    if rest == [] && p + |piece.Text()| == e + 1 {
      AtIndex(c, p, piece.Text(), 1);
      assert piece == Short(QUOTE);
    }
  }

  lemma ShortPiece(c: bytes, p: nat, e: nat)
    requires p < e < |c| && c[p] == BACKSLASH && c[p + 1] != LOWER_U && Unescape(c, p, e).Some?
    ensures Unshort(c[p + 1]).Some?
    ensures Unescape(c, p, e) == Prepend([Unshort(c[p + 1]).value], Unescape(c, p + 2, e))
  {
  }

  lemma HexPiece(c: bytes, p: nat, e: nat)
    requires p < e < |c| && c[p] == BACKSLASH && c[p + 1] == LOWER_U && Unescape(c, p, e).Some?
    ensures p + 6 <= e
    ensures var first := Hex(c[p + 2], c[p + 3], c[p + 4], c[p + 5]);
      && !first.LowUnit()
      && (!first.HighUnit() ==> Unescape(c, p, e) == Prepend(Utf8(first.Unit()), Unescape(c, p + 6, e)))
      && (first.HighUnit() ==>
        && p + 12 <= e && c[p + 6] == BACKSLASH && c[p + 7] == LOWER_U
        && var second := Hex(c[p + 8], c[p + 9], c[p + 10], c[p + 11]);
          && second.LowUnit()
          && Unescape(c, p, e) == Prepend(Utf8(Combine(first.Unit(), second.Unit())), Unescape(c, p + 12, e)))
  {
    hide HexValue, IsHexDigit, Utf8, Combine;
  }

  lemma MeaningOfOne(piece: Piece, rest: seq<Piece>)
    requires !piece.HighUnit() && !piece.LowUnit()
    ensures Meaning([piece] + rest) == Prepend(Single(piece), Meaning(rest))
  {
    assert ([piece] + rest)[1..] == rest;
  }

  lemma MeaningOfTwo(first: Piece, second: Piece, rest: seq<Piece>)
    requires first.HighUnit() && second.LowUnit()
    ensures Meaning([first] + ([second] + rest)) == Prepend(Utf8(Combine(first.Unit(), second.Unit())), Meaning(rest))
  {
    assert ([first] + ([second] + rest))[2..] == rest;
  }

  lemma AtHex(c: bytes, p: nat)
    requires p + 6 <= |c| && c[p] == BACKSLASH && c[p + 1] == LOWER_U
    ensures At(c, p, Hex(c[p + 2], c[p + 3], c[p + 4], c[p + 5]).Text())
  {
  }

  /** The pieces that an unescaping pass has read. */
  lemma {:induction false} PiecesOfUnescape(c: bytes, p: nat, e: nat) returns (ps: seq<Piece>)
    requires p <= e + 1 && e < |c| && c[e] == QUOTE && Unescape(c, p, e).Some?
    ensures At(c, p, TextOf(ps)) && Reaches(ps, p, e) && Meaning(ps) == Unescape(c, p, e)
    decreases e + 1 - p
  {
    hide Hex4, Meaning, Reaches, At, TextOf, Utf8, Combine;
    if p >= e {
      ps := [];
      NoPieces(c, p, e);
    } else if c[p] != BACKSLASH {
      var rest := PiecesOfUnescape(c, p + 1, e);
      ps := [Raw(c[p])] + rest;
      AtOne(c, p, Raw(c[p]));
      ConsPiece(c, p, Raw(c[p]), rest, e);
      MeaningOfOne(Raw(c[p]), rest);
    } else if c[p + 1] != LOWER_U {
      ShortPiece(c, p, e);
      var rest := PiecesOfUnescape(c, p + 2, e);
      ps := [Short(c[p + 1])] + rest;
      AtOne(c, p, Short(c[p + 1]));
      ConsPiece(c, p, Short(c[p + 1]), rest, e);
      MeaningOfOne(Short(c[p + 1]), rest);
    } else {
      HexPiece(c, p, e);
      AtHex(c, p);
      var first := Hex(c[p + 2], c[p + 3], c[p + 4], c[p + 5]);
      if first.HighUnit() {
        AtHex(c, p + 6);
        var second := Hex(c[p + 8], c[p + 9], c[p + 10], c[p + 11]);
        var rest := PiecesOfUnescape(c, p + 12, e);
        ps := [first] + ([second] + rest);
        ConsPiece(c, p + 6, second, rest, e);
        ConsPiece(c, p, first, [second] + rest, e);
        MeaningOfTwo(first, second, rest);
      } else {
        var rest := PiecesOfUnescape(c, p + 6, e);
        ps := [first] + rest;
        ConsPiece(c, p, first, rest, e);
        MeaningOfOne(first, rest);
      }
    }
  }

  lemma NoPieces(c: bytes, p: nat, e: nat)
    requires e <= p <= e + 1 && e < |c|
    ensures At(c, p, TextOf([])) && Reaches([], p, e) && Meaning([]) == Some([]) == Unescape(c, p, e)
  {
  }

  lemma AtOne(c: bytes, p: nat, piece: Piece)
    requires p < |c| && match piece
      case Raw(b) => c[p] == b
      case Short(letter) => p + 1 < |c| && c[p] == BACKSLASH && c[p + 1] == letter
      case Hex(_, _, _, _) => false
    ensures At(c, p, piece.Text())
  {
  }

  lemma {:induction false} ValidReaches(t: StringText, p: nat)
    requires t.Valid()
    ensures Reaches(t.pieces, p, p + |SizedText(t.sized)|)
  {
    hide Paired, TextOf, SizedText;
  }

  /** Where the bytes of a literal stand. */
  lemma StringTextAt(c: bytes, o: nat, t: StringText)
    requires At(c, o, t.Text())
    ensures var e := o + 1 + |SizedText(t.sized)|;
      && e + 1 == o + |t.Text()| <= |c| && c[o] == QUOTE && c[e] == QUOTE && At(c, o + 1, SizedText(t.sized))
      && (t.Valid() ==> At(c, o + 1, TextOf(t.pieces)))
  {
    hide SizedText, TextOf, Paired;
    var body := SizedText(t.sized);
    AtSplit(c, o, [QUOTE] + body, [QUOTE]);
    AtSplit(c, o, [QUOTE], body);
    AtSplit(c, o + 1, body, [QUOTE]);
    AtIndex(c, o, [QUOTE], 0);
    AtIndex(c, o + 1 + |body|, [QUOTE], 0);
  }

  /** Every valid literal is accepted, with its value, whatever follows it. */
  lemma StringAccepted(c: bytes, o: nat, t: StringText)
    requires At(c, o, t.Text()) && t.Valid()
    ensures StringAt(c, o) == Done(t.Value(), o + |t.Text()|)
  {
    hide SizedText, TextOf, Paired, At, Reaches, CString, Meaning;
    StringTextAt(c, o, t);
    var e := o + 1 + |SizedText(t.sized)|;
    EndOfSized(c, o + 1, t.sized);
    ValidReaches(t, o + 1);
    UnescapePieces(c, o + 1, t.pieces, e);
    MeaningIffPaired(t.pieces);
  }

  /** Everything accepted as a string is a valid literal. */
  lemma StringFound(c: bytes, o: nat) returns (t: StringText)
    requires o < |c| && StringAt(c, o).Done?
    ensures t.Valid() && At(c, o, t.Text()) && StringAt(c, o) == Done(t.Value(), o + |t.Text()|)
  {
    var us := SizedOfEnd(c, o + 1);
    var e := StringEnd(c, o + 1).value;
    var ps := PiecesOfUnescape(c, o + 1, e);
    t := StringText(us, ps);
    MeaningIffPaired(ps);
    FoundAt(c, o, t, e);
  }

  lemma FoundAt(c: bytes, o: nat, t: StringText, e: nat)
    requires o < |c| && c[o] == QUOTE && e < |c| && c[e] == QUOTE
    requires At(c, o + 1, SizedText(t.sized)) && o + 1 + |SizedText(t.sized)| == e
    requires At(c, o + 1, TextOf(t.pieces)) && Reaches(t.pieces, o + 1, e)
    ensures At(c, o, t.Text())
    ensures Paired(t.pieces) ==> t.Valid()
  {
    hide SizedText, Paired;
    var body := SizedText(t.sized);
    QuotesAround(c, o, body);
    if |TextOf(t.pieces)| == |body| + 1 {
      assert c[o + 1..e + 1] == body + [QUOTE];
    }
  }

  lemma QuotesAround(c: bytes, o: nat, body: bytes)
    requires o < |c| && c[o] == QUOTE && o + 1 + |body| < |c| && c[o + 1 + |body|] == QUOTE && At(c, o + 1, body)
    ensures At(c, o, [QUOTE] + body + [QUOTE])
  {
    assert c[o..o + 1 + |body| + 1] == [QUOTE] + body + [QUOTE];
  }

  /** A string is read from `o` to `z` with value `s` exactly when a valid literal of that value stands there. */
  lemma StringIff(c: bytes, o: nat, s: cstring, z: nat)
    requires o < |c|
    ensures StringAt(c, o) == Done(s, z)
      <==> exists t: StringText :: t.Valid() && At(c, o, t.Text()) && t.Value() == s && o + |t.Text()| == z
  {
    hide StringAt, At;
    if StringAt(c, o) == Done(s, z) {
      var t := StringFound(c, o);
    }
    forall t: StringText | t.Valid() && At(c, o, t.Text()) ensures StringAt(c, o) == Done(t.Value(), o + |t.Text()|) {
      StringAccepted(c, o, t);
    }
  }
}

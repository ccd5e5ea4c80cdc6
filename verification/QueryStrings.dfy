/** QueryString::create and QueryString::parse. */
module QueryStrings {
  import opened Bytes
  import opened PercentCoding

  /** What one '&'-free piece of a query means: cut at its last '=', name in front,
      percent-encoded value behind; a piece without a name means nothing. */
  function Piece(s: bytes): Fields
  {
    var end := FindLast(s, EQUALS);
    var name := if end.Some? then s[..end.value] else s;
    var value := if end.Some? then s[end.value + 1..] else [];
    if name == [] then [] else [(name, Decoded(value))]
  }

  function Pieces(ps: seq<bytes>): Fields
  {
    if ps == [] then [] else Piece(ps[0]) + Pieces(ps[1..])
  }

  /** The meaning of a whole query string. */
  function Parsed(query: bytes): Fields { Pieces(Split(query, AMPERSAND)) }

  function FieldText(field: (bytes, bytes)): bytes { field.0 + [EQUALS] + Encoded(field.1) }

  /** The text create builds for the fields in visiting order. */
  function Created(fields: Fields): bytes
  {
    if fields == [] then [] else FieldText(fields[0]) + Continued(fields[1..])
  }

  function Continued(fields: Fields): bytes
  {
    if fields == [] then [] else [AMPERSAND] + FieldText(fields[0]) + Continued(fields[1..])
  }

  method Create(fields: Fields) returns (result: bytes)
    ensures result == Created(fields)
  {
    result := [];
    var first := true;
    for i := 0 to |fields|
      invariant first <==> i == 0
      invariant i == 0 ==> result == []
      invariant i > 0 ==> result + Continued(fields[i..]) == Created(fields)
    {
      var value := Encode(fields[i].1);
      ghost var rest := fields[i..];
      assert rest[1..] == fields[i + 1..];
      Associative(result, [AMPERSAND] + FieldText(fields[i]), Continued(rest[1..]));
      result := result + ((if !first then [AMPERSAND] else []) + (fields[i].0 + [EQUALS] + value));
      first := false;
    }
  }

  /** Reading on in a piece: where its last '=' is after one more byte. */
  lemma FindLastSnoc(s: bytes, b: byte, c: byte)
    ensures FindLast(s + [c], b) == if c == b then Some(|s|) else FindLast(s, b)
  {
    assert (s + [c])[..|s|] == s;
  }

  lemma PiecesFirst(p: bytes, ps: seq<bytes>)
    ensures Pieces([p] + ps) == Piece(p) + Pieces(ps)
    ensures Pieces([p]) == Piece(p)
  {
    assert ([p] + ps)[1..] == ps;
    assert Piece(p) + Pieces([]) == Piece(p);
  }

  /** What the scanner's positions say about the piece read so far. */
  ghost predicate Tracks(query: bytes, from: nat, c: nat, nameEndPos: Option<nat>, valuePos: Option<nat>)
    requires from <= c <= |query|
  {
    && AMPERSAND !in query[from..c]
    && match FindLast(query[from..c], EQUALS)
       case None => nameEndPos == None && valuePos == None
       case Some(i) => nameEndPos == Some(from + i) && valuePos == Some(from + i + 1)
  }

  /** A piece ends at the '&' at c, or at the end of the query. */
  lemma PieceEnds(query: bytes, from: nat, c: nat, nameEndPos: Option<nat>, valuePos: Option<nat>)
    requires from <= c <= |query| && Tracks(query, from, c, nameEndPos, valuePos)
    requires c < |query| ==> query[c] == AMPERSAND
    ensures Pieces(Split(query[from..], AMPERSAND))
         == Piece(query[from..c]) + if c < |query| then Pieces(Split(query[c + 1..], AMPERSAND)) else []
    ensures from == |query| ==> Pieces(Split(query[from..], AMPERSAND)) == []
  {
    hide Split, Pieces, Piece, FindLast;
    var piece := query[from..c];
    assert from == |query| ==> Pieces(Split([], AMPERSAND)) == [] by { ParsedOfEmpty(); }
    if c < |query| {
      SplitFirst(piece, AMPERSAND, query[c + 1..]);
      assert query[from..] == piece + [AMPERSAND] + query[c + 1..];
      PiecesFirst(piece, Split(query[c + 1..], AMPERSAND));
    } else {
      assert query[from..] == piece;
      SplitWhole(piece, AMPERSAND);
      PiecesFirst(piece, []);
      assert Piece(piece) + [] == Piece(piece);
    }
  }

  lemma PieceAt(query: bytes, from: nat, c: nat, nameEndPos: Option<nat>, valuePos: Option<nat>)
    requires from <= c <= |query| && Tracks(query, from, c, nameEndPos, valuePos)
    ensures nameEndPos.Some? ==> from <= nameEndPos.value < c && valuePos == Some(nameEndPos.value + 1)
    ensures nameEndPos.None? ==> valuePos.None?
    ensures var name := query[from..if nameEndPos.None? then c else nameEndPos.value];
            var value := if valuePos.None? then [] else query[valuePos.value..c];
            Piece(query[from..c]) == if name == [] then [] else [(name, Decoded(value))]
  {
    hide Decoded, FindLast;
    var piece := query[from..c];
    if nameEndPos.Some? {
      var i := nameEndPos.value - from;
      assert piece[..i] == query[from..nameEndPos.value];
      assert piece[i + 1..] == query[nameEndPos.value + 1..c];
    }
  }

  lemma TracksStart(query: bytes, from: nat)
    requires from <= |query|
    ensures Tracks(query, from, from, None, None)
  {}

  lemma ParsedOfEmpty()
    ensures Parsed([]) == []
  {
    SplitWhole([], AMPERSAND);
    PiecesFirst([], []);
  }

  lemma TracksNext(query: bytes, from: nat, c: nat, nameEndPos: Option<nat>, valuePos: Option<nat>)
    requires from <= c < |query| && Tracks(query, from, c, nameEndPos, valuePos) && query[c] != AMPERSAND
    ensures if query[c] == EQUALS then Tracks(query, from, c + 1, Some(c), Some(c + 1))
            else Tracks(query, from, c + 1, nameEndPos, valuePos)
  {
    FindLastSnoc(query[from..c], EQUALS, query[c]);
    assert query[from..c + 1] == query[from..c] + [query[c]];
  }

  /** The fields of a piece, cut out at the positions the scanner kept. */
  method EmplacePiece(query: bytes, from: nat, c: nat, nameEndPos: Option<nat>, valuePos: Option<nat>)
    returns (fields: Fields)
    requires from <= c <= |query| && Tracks(query, from, c, nameEndPos, valuePos)
    ensures fields == Piece(query[from..c])
  {
    PieceAt(query, from, c, nameEndPos, valuePos);
    var name := query[from..if nameEndPos.None? then c else nameEndPos.value];
    if name == [] {
      return [];
    }
    var value := Decode(if valuePos.None? then [] else query[valuePos.value..c]);
    fields := [(name, value)];
  }

  /** The one-pass scanner: positions are kept in three variables, None where the
      source keeps npos. */
  method Parse(query: bytes) returns (result: Fields)
    ensures result == Parsed(query)
  {
    hide Split, Pieces, Piece, FindLast;
    result := [];
    if query == [] {
      ParsedOfEmpty();
      return;
    }
    TracksStart(query, 0);
    var namePos := 0;
    var nameEndPos: Option<nat> := None;
    var valuePos: Option<nat> := None;
    assert query[0..] == query;
    for c := 0 to |query|
      invariant namePos <= c
      invariant result + Pieces(Split(query[namePos..], AMPERSAND)) == Parsed(query)
      invariant Tracks(query, namePos, c, nameEndPos, valuePos)
    {
      if query[c] == AMPERSAND {
        var fields := EmplacePiece(query, namePos, c, nameEndPos, valuePos);
        PieceEnds(query, namePos, c, nameEndPos, valuePos);
        Associative(result, fields, Pieces(Split(query[c + 1..], AMPERSAND)));
        result := result + fields;
        TracksStart(query, c + 1);
        namePos := c + 1;
        nameEndPos := None;
        valuePos := None;
      } else {
        TracksNext(query, namePos, c, nameEndPos, valuePos);
        if query[c] == EQUALS {
          nameEndPos := Some(c);
          valuePos := Some(c + 1);
        }
      }
    }
    PieceEnds(query, namePos, |query|, nameEndPos, valuePos);
    if namePos < |query| {
      var fields := EmplacePiece(query, namePos, |query|, nameEndPos, valuePos);
      result := result + fields;
    }
  }

  predicate PrintableName(name: bytes)
  {
    name != [] && AMPERSAND !in name
  }

  lemma PieceOfField(field: (bytes, bytes))
    requires PrintableName(field.0)
    ensures AMPERSAND !in FieldText(field)
    ensures Piece(FieldText(field)) == [field]
  {
    hide Encoded, Decoded;
    var (name, value) := field;
    var s := FieldText(field);
    var code := Encoded(value);
    assert AMPERSAND !in code && EQUALS !in code by {
      EncodedAlphabet(value);
    }
    assert FindLast(s, EQUALS) == Some(|name|) by {
      assert s[|name|] == EQUALS;
      assert forall i :: |name| < i < |s| ==> s[i] in code;
    }
    assert s[..|name|] == name && s[|name| + 1..] == code;
    DecodedOfEncoded(value);
  }

  /** Whatever is parsed, the names are not empty and free of '&'. */
  lemma {:induction false} ParsedNames(ps: seq<bytes>, f: (bytes, bytes))
    requires (forall p :: p in ps ==> AMPERSAND !in p) && f in Pieces(ps)
    ensures PrintableName(f.0)
  {
    hide Decoded;
    if f in Piece(ps[0]) {
      assert ps[0] in ps;
    } else {
      ParsedNames(ps[1..], f);
    }
  }

  lemma {:induction false} SplitPieces(s: bytes, b: byte)
    ensures forall p :: p in Split(s, b) ==> b !in p
    decreases |s|
  {
    if Find(s, b, 0).Some? {
      SplitPieces(s[Find(s, b, 0).value + 1..], b);
    }
  }

  /** Parsing what create printed gives the same fields back if and only if all names are non-empty and free of '&'. */
  lemma ParsedOfCreatedIff(fields: Fields)
    ensures Parsed(Created(fields)) == fields <==> forall f :: f in fields ==> PrintableName(f.0)
  {
    hide Split, Pieces, Created, PrintableName;
    if Parsed(Created(fields)) == fields {
      SplitPieces(Created(fields), AMPERSAND);
      forall f | f in fields
        ensures PrintableName(f.0)
      {
        ParsedNames(Split(Created(fields), AMPERSAND), f);
      }
    } else if forall f :: f in fields ==> PrintableName(f.0) {
      ParsedOfCreated(fields);
      assert false;
    }
  }

  /** Parsing what create printed gives the same fields back, in the printed order. */
  lemma {:induction false} ParsedOfCreated(fields: Fields)
    requires forall f :: f in fields ==> PrintableName(f.0)
    ensures Parsed(Created(fields)) == fields
  {
    hide Split, Piece, Pieces, FieldText, PrintableName;
    if fields == [] {
      ParsedOfEmpty();
    } else {
      var piece, rest := FieldText(fields[0]), fields[1..];
      PieceOfField(fields[0]);
      if rest == [] {
        assert Created(fields) == piece;
        SplitWhole(piece, AMPERSAND);
        PiecesFirst(piece, []);
        assert fields == [fields[0]];
      } else {
        assert piece + ([AMPERSAND] + FieldText(rest[0]) + Continued(rest[1..])) == piece + [AMPERSAND] + Created(rest);
        SplitFirst(piece, AMPERSAND, Created(rest));
        ParsedOfCreated(rest);
        PiecesFirst(piece, Split(Created(rest), AMPERSAND));
      }
    }
  }

  /** Each piece is read on its own. */
  lemma ParsedAppends(piece: bytes, rest: bytes)
    requires AMPERSAND !in piece
    ensures Parsed(piece + [AMPERSAND] + rest) == Parsed(piece) + Parsed(rest)
  {
    hide Split, Piece, Pieces;
    SplitFirst(piece, AMPERSAND, rest);
    SplitWhole(piece, AMPERSAND);
    PiecesFirst(piece, Split(rest, AMPERSAND));
  }

  /** A piece without '=' is a name with an empty value, the empty piece is nothing. */
  lemma ParsedBare(piece: bytes)
    requires AMPERSAND !in piece && EQUALS !in piece
    ensures Parsed(piece) == if piece == [] then [] else [(piece, [])]
  {
    hide Split, FindLast;
    SplitWhole(piece, AMPERSAND);
    PiecesFirst(piece, []);
    assert Decoded([]) == [];
  }

  /** Otherwise the last '=' ends the name; the value is decoded, and without a name it is nothing. */
  lemma ParsedPair(name: bytes, value: bytes)
    requires AMPERSAND !in name && AMPERSAND !in value && EQUALS !in value
    ensures Parsed(name + [EQUALS] + value) == if name == [] then [] else [(name, Decoded(value))]
  {
    hide Split, Piece;
    var s := name + [EQUALS] + value;
    SplitWhole(s, AMPERSAND);
    PiecesFirst(s, []);
    PieceOfPair(name, value);
  }

  lemma PieceOfPair(name: bytes, value: bytes)
    requires EQUALS !in value
    ensures Piece(name + [EQUALS] + value) == if name == [] then [] else [(name, Decoded(value))]
  {
    hide FindLast, Decoded;
    var s := name + [EQUALS] + value;
    LastEquals(name, value);
    Parts(name + [EQUALS], value);
    Associative(name, [EQUALS], value);
    Parts(name, [EQUALS] + value);
  }

  lemma LastEquals(name: bytes, value: bytes)
    requires EQUALS !in value
    ensures FindLast(name + [EQUALS] + value, EQUALS) == Some(|name|)
  {
    FindLastInParts(name + [EQUALS], value, EQUALS);
    assert (name + [EQUALS])[|name|] == EQUALS;
  }
}

/** WebServer::validateSession: where the session id comes from. The cookie header
    is read with >> before it is parsed, so only its first word counts. */
module Sessions {
  import opened Bytes
  import opened Numerals
  import opened PercentCoding
  import opened Attributes

  const SESSION_ID: bytes := Ascii("sessionId")
  const COOKIE: bytes := Ascii("Cookie")

  function WordLength(s: bytes): (r: nat)
    ensures r <= |s| && (r < |s| ==> IsSpace(s[r]))
    ensures forall i :: 0 <= i < r ==> !IsSpace(s[i])
  {
    if s == [] || IsSpace(s[0]) then 0 else 1 + WordLength(s[1..])
  }

  /** operator>> into a string. */
  function Word(s: bytes): bytes
  {
    var t := SkipSpaces(s);
    t[..WordLength(t)]
  }

  function SessionOf(cookie: bytes): Option<bytes>
  {
    FindField(Attributes.Parsed(Word(cookie)), SESSION_ID)
  }

  /** NoCookie is the exception; NoSession is the dereference of end(). */
  datatype Lookup = NoCookie | NoSession | Session(id: bytes)

  method ValidateSession(header: Fields) returns (r: Lookup)
    ensures r == match FindField(header, COOKIE)
                 case None => NoCookie
                 case Some(cookie) =>
                   match SessionOf(cookie)
                   case None => NoSession
                   case Some(id) => Session(id)
  {
    var cookie := FindField(header, COOKIE);
    if cookie.None? {
      return NoCookie;
    }
    var fields := Attributes.Parse(Word(cookie.value));
    var id := FindField(fields, SESSION_ID);
    r := if id.None? then NoSession else Session(id.value);
  }

  predicate Wordlike(s: bytes) { forall i :: 0 <= i < |s| ==> !IsSpace(s[i]) }

  lemma WordIs(word: bytes, rest: bytes)
    requires word != [] && Wordlike(word) && (rest != [] ==> IsSpace(rest[0]))
    ensures Word(word + rest) == word
  {
    var s := word + rest;
    assert SkipSpaces(s) == s;
    assert forall i :: 0 <= i < |word| ==> s[i] == word[i];
    assert rest != [] ==> IsSpace(s[|word|]);
    assert s[..|word|] == word;
  }

  lemma TextIsWordlike(a: Attribute)
    requires Wordlike(a.name)
    ensures Wordlike(a.Text())
  {
    if !a.Bare? {
      hide Encoded;
      var code := Encoded(a.value);
      assert Wordlike(code) by {
        EncodedAlphabet(a.value);
      }
    }
  }

  /** For every printed cookie header whose names are single words: the session id found is the
      value of the first attribute if that is called sessionId, and nothing otherwise. */
  lemma SessionOfPrinted(attributes: seq<Attribute>)
    requires attributes != [] && Wordlike(attributes[0].name) && forall a :: a in attributes ==> a.Printable()
    ensures SessionOf(Printed(attributes))
         == if CaseInsensitiveEqual(attributes[0].name, SESSION_ID) then Some(attributes[0].Field().1) else None
  {
    hide Printed, Parsed, CaseInsensitiveEqual, Wordlike, Word;
    FirstWord(attributes);
    FirstWordParsed(attributes);
  }

  lemma FirstWord(attributes: seq<Attribute>)
    requires attributes != [] && attributes[0].Printable() && Wordlike(attributes[0].name)
    ensures Word(Printed(attributes)) == attributes[0].Text() + if |attributes| == 1 then [] else [SEMICOLON]
  {
    hide Parsed, Wordlike, Word;
    var first := attributes[0];
    var word := first.Text() + if |attributes| == 1 then [] else [SEMICOLON];
    var rest := if |attributes| == 1 then [] else [SPACE] + Printed(attributes[1..]);
    assert Printed(attributes) == word + rest;
    assert Wordlike(word) && word != [] by {
      TextIsWordlike(first);
      SemicolonIsWordlike(first.Text());
      assert first.Text() + [] == first.Text();
    }
    WordIs(word, rest);
  }

  lemma FirstWordParsed(attributes: seq<Attribute>)
    requires attributes != [] && attributes[0].Printable()
    ensures Attributes.Parsed(attributes[0].Text() + if |attributes| == 1 then [] else [SEMICOLON])
         == [attributes[0].Field()]
  {
    hide Parsed;
    var rest: bytes := if |attributes| == 1 then [] else [SEMICOLON];
    assert Continues(rest) && Tail(rest) == [];
    ParsedFirst(attributes[0], rest);
    ParsedOfEmpty();
    assert [attributes[0].Field()] + [] == [attributes[0].Field()];
  }

  lemma SemicolonIsWordlike(text: bytes)
    requires Wordlike(text)
    ensures Wordlike(text + [SEMICOLON])
  {}

  /** So a session id that the parser finds in the whole header survives exactly when the
      sessionId attribute is printed first. */
  lemma SessionSurvivesIffFirst(attributes: seq<Attribute>)
    requires attributes != [] && Wordlike(attributes[0].name) && forall a :: a in attributes ==> a.Printable()
    requires FindField(Attributes.Parsed(Printed(attributes)), SESSION_ID).Some?
    ensures SessionOf(Printed(attributes)) == FindField(Attributes.Parsed(Printed(attributes)), SESSION_ID)
       <==> CaseInsensitiveEqual(attributes[0].name, SESSION_ID)
  {
    hide Parsed, CaseInsensitiveEqual;
    SessionOfPrinted(attributes);
    ParsedOfPrinted(attributes);
    assert FieldsOf(attributes)[0] == attributes[0].Field();
  }

  /** In "a=1; sessionId=x" there is a session id, but it is not found. */
  lemma SecondSessionIdIsLost()
    ensures var cookie := Ascii("a=1; sessionId=x");
            FindField(Attributes.Parsed(cookie), SESSION_ID) == Some(Ascii("x")) && SessionOf(cookie) == None
  {
    hide Parsed, SessionOf, CaseInsensitiveEqual, Printed, FieldsOf, FindField, Encoded;
    var a, id := Plain(Ascii("a"), Ascii("1")), Plain(SESSION_ID, Ascii("x"));
    var attributes := [a, id];
    TextsOfTwo(a, id);
    PrintedOfTwo(a, id);
    CookieIs();
    ParsedOfPrinted(attributes);
    SessionOfPrinted(attributes);
    FieldsOfTwo(a, id);
    SecondIsFound(a.Field(), id.Field());
  }

  lemma CookieIs()
    ensures Ascii("a=1") + [SEMICOLON, SPACE] + Ascii("sessionId=x") == Ascii("a=1; sessionId=x")
  {}

  lemma TextsOfTwo(a: Attribute, b: Attribute)
    requires a == Plain(Ascii("a"), Ascii("1")) && b == Plain(SESSION_ID, Ascii("x"))
    ensures a.Text() == Ascii("a=1") && b.Text() == Ascii("sessionId=x")
    ensures a.Printable() && b.Printable() && Wordlike(a.name) && Wordlike(b.name)
  {
    hide Encoded, Attribute.Text, IsName, Wordlike;
    assert a.name + [EQUALS] + a.value == Ascii("a=1");
    assert b.name + [EQUALS] + b.value == Ascii("sessionId=x");
    PlainText(a, Ascii("a=1"));
    PlainText(b, Ascii("sessionId=x"));
    NamesAreWords();
  }

  lemma NamesAreWords()
    ensures IsName(Ascii("a")) && Wordlike(Ascii("a")) && IsName(SESSION_ID) && Wordlike(SESSION_ID)
  {
    hide IsName, Wordlike;
    LettersAreWords(Ascii("a"));
    assert SESSION_ID == [115, 101, 115, 115, 105, 111, 110, 73, 100];
    LettersAreWords(SESSION_ID);
  }

  lemma LettersAreWords(s: bytes)
    requires s != [] && forall i :: 0 <= i < |s| ==> 'A' as int <= s[i] <= 'z' as int
    ensures IsName(s) && Wordlike(s)
  {}

  lemma PlainText(a: Attribute, text: bytes)
    requires a.Plain? && |a.value| == 1 && Unreserved(a.value[0]) && text == a.name + [EQUALS] + a.value
    ensures a.Text() == text
  {
    hide Encoded;
    EncodedOfOne(a.value);
  }

  lemma EncodedOfOne(s: bytes)
    requires |s| == 1 && Unreserved(s[0])
    ensures Encoded(s) == s
  {
    assert s == [s[0]] + [];
    assert Encoded([]) == [];
  }

  lemma PrintedOfTwo(a: Attribute, b: Attribute)
    ensures Printed([a, b]) == a.Text() + [SEMICOLON, SPACE] + b.Text()
  {
    assert [a, b][1..] == [b] && [b][1..] == [];
  }

  lemma FieldsOfTwo(a: Attribute, b: Attribute)
    ensures FieldsOf([a, b]) == [a.Field(), b.Field()]
  {
    assert [a, b][1..] == [b] && [b][1..] == [];
    assert FieldsOf([b]) == [b.Field()] + FieldsOf([]);
  }

  lemma SecondIsFound(a: (bytes, bytes), b: (bytes, bytes))
    requires |a.0| < |SESSION_ID| && b.0 == SESSION_ID
    ensures FindField([a, b], SESSION_ID) == Some(b.1)
    ensures !CaseInsensitiveEqual(a.0, SESSION_ID)
  {
    assert [a, b][1..] == [b];
  }
}

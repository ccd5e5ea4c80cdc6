/** The texts as they are on the wire, letter by letter. */
module Wire {
  import opened Bytes
  import opened Numerals
  import opened PercentCoding
  import QueryStrings
  import Attributes
  import Sessions
  import Messages
  import Reader
  import KeepAlive
  import Texts

  lemma RequestIs()
    ensures Messages.RequestText(Ascii("GET"), Ascii("/a"), Some(Ascii("b")), Ascii("1.1"),
                                 [(Ascii("Host"), Ascii("x"))])
         == Ascii("GET") + Ascii(" ") + Ascii("/a") + Ascii("?") + Ascii("b") + Ascii(" ") + Ascii("HTTP") + Ascii("/")
            + Ascii("1.1") + [13, 10] + Ascii("Host") + Ascii(": ") + Ascii("x") + [13, 10] + [13, 10]
  {
    var header := [(Ascii("Host"), Ascii("x"))];
    HeaderIs(header[0]);
    assert Messages.HTTP == Ascii("HTTP") && Ascii(" ") == [32] && Ascii("?") == [63] && Ascii("/") == [47];
  }

  lemma HeaderIs(field: (bytes, bytes))
    ensures Messages.HeaderText([field]) == field.0 + Ascii(": ") + field.1 + [13, 10]
  {
    hide Messages.FieldLine;
    assert [field][1..] == [];
    assert Messages.HeaderText([]) == [];
    assert Messages.HeaderText([field]) == Messages.FieldLine(field) + [LF];
    FieldLineIs(field);
  }

  lemma FieldLineIs(field: (bytes, bytes))
    ensures Messages.FieldLine(field) + [LF] == field.0 + Ascii(": ") + field.1 + [13, 10]
  {
    assert Ascii(": ") == [58, 32];
  }

  lemma ResponseIs()
    ensures Messages.ResponseText(Ascii("200 OK"), Ascii("hi"), [], false)
         == Ascii("HTTP/1.1 ") + Ascii("200 OK") + [13, 10]
            + (Ascii("Content-Length") + Ascii(": ") + Ascii("2") + [13, 10]) + [13, 10] + Ascii("hi")
    ensures Messages.ResponseText(Ascii("200 OK"), Ascii("hi"), [], true)
         == Ascii("HTTP/1.1 ") + Ascii("200 OK") + [13, 10] + [13, 10] + Ascii("hi")
  {
    hide CaseInsensitiveEqual, Messages.HeaderText;
    var length := (Ascii("Content-Length"), Decimal(2));
    assert Decimal(2) == Ascii("2");
    HeaderIs(length);
    assert [] + [length] == [length];
    assert Messages.HeaderText([]) == [] by { Messages.HeaderTextOfNone(); }
  }

  lemma ChunksAre()
    ensures Reader.ChunkedText([Reader.Piece(Ascii("1a"), Ascii("abc"))])
         == Ascii("1a") + [13, 10] + Ascii("abc") + [13, 10] + (Ascii("0") + [13, 10] + [13, 10])
  {
    assert Print(0, 16) == Ascii("0");
    var pieces := [Reader.Piece(Ascii("1a"), Ascii("abc"))];
    assert pieces[1..] == [] && Reader.PiecesText([]) == [];
  }

  lemma NumbersAre()
    ensures Decimal(1234) == Ascii("1234") && Print(26, 16) == Ascii("1A") && LowerHex(26) == Ascii("1a")
    ensures Stoul(Ascii("1a"), 16) == Some(26)
    ensures ToString(30500000) == Ascii("30.500000") && ToString(0 - 1500000) == Ascii("-1.500000")
  {
    hide Stoul, ToString, Print;
    DecimalIs();
    HexIs();
    LowerHexIsSame(26);
    StoulOfSpelling(26, LowerHex(26));
    FractionsAre();
  }

  lemma DecimalIs()
    ensures Decimal(1234) == Ascii("1234")
  {
    assert Print(1, 10) == [49];
    assert Print(12, 10) == [49] + [50];
    assert Print(123, 10) == [49] + [50] + [51];
    assert Print(1234, 10) == [49] + [50] + [51] + [52];
  }

  lemma HexIs()
    ensures Print(26, 16) == Ascii("1A") && LowerHex(26) == Ascii("1a")
  {
    assert Print(1, 16) == [49] && LowerHex(1) == [49];
    assert LowerHex(26) == [49] + [97] && Print(26, 16) == [49] + [65];
  }

  lemma FractionsAre()
    ensures ToString(30500000) == Ascii("30.500000") && ToString(0 - 1500000) == Ascii("-1.500000")
  {
    hide Padded, Print;
    FractionIs();
    assert Decimal(30) == [51, 48] && Decimal(1) == [49] by { ThirtyIs(); }
    assert ToString(30500000) == [] + [51, 48] + [46] + [53, 48, 48, 48, 48, 48];
    assert ToString(0 - 1500000) == [45] + [49] + [46] + [53, 48, 48, 48, 48, 48];
  }

  lemma ThirtyIs()
    ensures Decimal(30) == [51, 48] && Decimal(1) == [49]
  {
    assert Print(3, 10) == [51];
    assert Print(30, 10) == [51] + [48];
  }

  lemma FractionIs()
    ensures Padded(500000, 6) == [53, 48, 48, 48, 48, 48]
  {
    assert Padded(5, 1) == [53];
    assert Padded(50, 2) == [53, 48];
    assert Padded(500, 3) == [53, 48, 48];
    assert Padded(5000, 4) == [53, 48, 48, 48];
    assert Padded(50000, 5) == [53, 48, 48, 48, 48];
  }

  lemma QueriesAre(value: bytes)
    ensures QueryStrings.Created([(Ascii("a"), value), (Ascii("b"), Ascii("&"))])
         == Ascii("a") + Ascii("=") + Encoded(value) + (Ascii("&") + (Ascii("b") + Ascii("=") + Ascii("%26")))
  {
    hide Encoded;
    var fields := [(Ascii("a"), value), (Ascii("b"), Ascii("&"))];
    assert Encoded(Ascii("&")) == Ascii("%26") by { AmpersandIs(); }
    assert Ascii("=") == [61] && Ascii("&") == [38];
    var last := fields[1..];
    assert last == [fields[1]] && last[1..] == [];
    assert QueryStrings.Continued([]) == [];
  }

  lemma AmpersandIs()
    ensures Encoded(Ascii("&")) == Ascii("%26")
  {
    assert Ascii("&")[1..] == [] && Encoded([]) == [];
  }

  lemma CookiesAre(name: bytes, value: bytes)
    ensures Attributes.Bare(name).Text() == name
    ensures Attributes.Plain(name, value).Text() == name + Ascii("=") + Encoded(value)
    ensures Attributes.Quoted(name, value).Text() == name + Ascii("=") + [34] + Encoded(value) + [34]
    ensures Attributes.Printed([Attributes.Bare(name), Attributes.Bare(value)]) == name + Ascii("; ") + value
  {
    hide Encoded;
    assert Ascii("=") == [61] && Ascii("; ") == [59, 32];
    Sessions.PrintedOfTwo(Attributes.Bare(name), Attributes.Bare(value));
  }

  lemma SensorMessagesAre(threshold: nat, current: nat, typical: nat)
    ensures Texts.GET_VALUE == Ascii("get_value")
    ensures Texts.ThresholdQuestion(threshold) == Ascii("set_threshold") + Ascii(" ") + ToString(threshold)
    ensures Texts.ValueReply(current, typical)
         == Ascii("current_value:") + Ascii(" ") + ToString(current) + Ascii(" ") + Ascii("typical_value:") + Ascii(" ")
            + ToString(typical)
    ensures Texts.AlarmText(current, typical) == Ascii("alarm") + Ascii(" ") + Texts.ValueReply(current, typical)
  {
    hide ToString;
    assert Ascii(" ") == [32];
  }

  lemma ThresholdReplyIs(value: nat, memory: bytes)
    requires value < 100 && |memory| >= 17
    ensures var text := Ascii("threshold:") + Ascii(" ") + Decimal(value) + [0];
            |text| <= 17 == |Texts.ThresholdReply(value, 17, memory)|
            && Texts.ThresholdReply(value, 17, memory)[..|text|] == text
  {
    hide Print;
    Texts.DecimalLength(value);
    assert Ascii(" ") == [32];
  }

  method SessionIs(id: bytes) returns (r: Sessions.Lookup)
    requires id != [] && forall i :: 0 <= i < |id| ==> Unreserved(id[i])
    ensures r == Sessions.Session(id)
  {
    hide Encoded, CaseInsensitiveEqual, Attributes.Parsed;
    var attribute := Attributes.Plain(Ascii("sessionId"), id);
    EncodedIsItself(id);
    var header := [(Ascii("Cookie"), attribute.Text())];
    CookieIsFound(attribute.Text());
    Sessions.NamesAreWords();
    assert Attributes.Printed([attribute]) == attribute.Text() by { assert attribute.Text() + [] == attribute.Text(); }
    Sessions.SessionOfPrinted([attribute]);
    assert CaseInsensitiveEqual(Ascii("sessionId"), Sessions.SESSION_ID) by { EqualToItself(Sessions.SESSION_ID); }
    r := Sessions.ValidateSession(header);
  }

  lemma EqualToItself(s: bytes)
    ensures CaseInsensitiveEqual(s, s)
  {}

  lemma CookieIsFound(text: bytes)
    ensures FindField([(Ascii("Cookie"), text)], Sessions.COOKIE) == Some(text)
  {
    EqualToItself(Sessions.COOKIE);
  }

  lemma {:induction false} EncodedIsItself(s: bytes)
    requires forall i :: 0 <= i < |s| ==> Unreserved(s[i])
    ensures Encoded(s) == s
  {
    if s != [] {
      EncodedIsItself(s[1..]);
    }
  }

  /** Spelled in any case, a Connection field decides against the version. */
  lemma ConnectionsAre()
    ensures KeepAlive.KeepsAlive([(Ascii("connection"), Ascii("Keep-Alive"))], Ascii("1.0"))
    ensures !KeepAlive.KeepsAlive([(Ascii("Connection"), Ascii("Close"))], Ascii("1.1"))
  {
    hide KeepAlive.AtLeast;
    var keep, close := (Ascii("connection"), Ascii("Keep-Alive")), (Ascii("Connection"), Ascii("Close"));
    assert KeepAlive.Says(keep, KeepAlive.KEEP_ALIVE) && KeepAlive.Says(close, KeepAlive.CLOSE);
    assert !KeepAlive.Says(keep, KeepAlive.CLOSE) by { assert |keep.1| != |KeepAlive.CLOSE|; }
  }
}

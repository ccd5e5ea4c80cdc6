/** HttpHeader::FieldValue::SemicolonSeparatedAttributes, the format of cookies. */
module Attributes {
  import opened Bytes
  import opened PercentCoding

  /** The first a or b at or after position from, or the length when there is none. */
  function EndAt(s: bytes, a: byte, b: byte, from: nat): (r: nat)
    requires from <= |s|
    ensures from <= r <= |s|
    ensures r < |s| ==> s[r] == a || s[r] == b
    ensures forall i :: from <= i < r ==> s[i] != a && s[i] != b
    decreases |s| - from
  {
    if from == |s| || s[from] == a || s[from] == b then from else EndAt(s, a, b, from + 1)
  }

  /** Where a value begins: behind an opening quote that is not the last byte. */
  function ValueStart(v: bytes): nat { if 1 < |v| && v[0] == QUOTE then 1 else 0 }

  /** What the first bytes contribute, and where reading goes on. */
  datatype Item = Item(fields: Fields, rest: bytes)

  function Behind(s: bytes, i: nat): bytes { if i < |s| then s[i + 1..] else [] }

  /** The grammar the scanner follows: skip blanks and semicolons; a name of at least
      one byte ends at ';' or '='; a value of at least one byte ends at '"' or ';'. */
  function First(s: bytes): (r: Item)
    requires s != []
    ensures |r.rest| < |s|
  {
    if s[0] == SPACE || s[0] == SEMICOLON then Item([], s[1..])
    else
      var k := EndAt(s, SEMICOLON, EQUALS, 1);
      if k == |s| || s[k] == SEMICOLON then Item([(s[..k], [])], Behind(s, k))
      else
        var v := s[k + 1..];
        if v == [] then Item([], [])
        else
          var j := EndAt(v, QUOTE, SEMICOLON, 1);
          Item([(s[..k], Decoded(v[ValueStart(v)..j]))], Behind(v, j))
  }

  function Parsed(s: bytes): Fields
    decreases |s|
  {
    if s == [] then [] else First(s).fields + Parsed(First(s).rest)
  }

  // ------------------------------------------------------------ the scanner

  /** What the three positions mean when the scanner has read str[..c]. */
  ghost predicate Tracks(str: bytes, c: nat, nameStart: Option<nat>, nameEnd: Option<nat>, valueStart: Option<nat>)
    requires c <= |str|
  {
    match (nameStart, nameEnd, valueStart)
    case (None, None, None) => true
    case (Some(start), None, None) => InName(str, c, start)
    case (Some(start), Some(end), None) => c == end + 1 && InName(str, end, start) && str[end] == EQUALS
    case (Some(start), Some(end), Some(value)) => InValue(str, c, start, end, value)
    case _ => false
  }

  ghost predicate InName(str: bytes, c: nat, start: nat)
    requires c <= |str|
  {
    && start < c && str[start] != SPACE && str[start] != SEMICOLON
    && forall i :: start + 1 <= i < c ==> str[i] != SEMICOLON && str[i] != EQUALS
  }

  ghost predicate InValue(str: bytes, c: nat, start: nat, end: nat, value: nat)
    requires c <= |str|
  {
    && end + 1 < c && InName(str, end, start) && str[end] == EQUALS
    && value == end + 1 + ValueStart(str[end + 1..])
    && forall i :: end + 2 <= i < c ==> str[i] != QUOTE && str[i] != SEMICOLON
  }

  lemma TracksShape(str: bytes, c: nat, nameStart: Option<nat>, nameEnd: Option<nat>, valueStart: Option<nat>)
    requires c <= |str| && Tracks(str, c, nameStart, nameEnd, valueStart)
    ensures nameStart.None? ==> nameEnd.None?
    ensures nameEnd.None? ==> valueStart.None?
    ensures nameStart.Some? ==> nameStart.value < c
    ensures nameEnd.Some? ==> nameStart.value < nameEnd.value < c
    ensures nameStart.Some? && nameEnd.None? ==> InName(str, c, nameStart.value)
    ensures valueStart.Some? ==>
              InValue(str, c, nameStart.value, nameEnd.value, valueStart.value) && valueStart.value <= c
  {}

  /** The positions after one more byte that ends neither a name nor a value. */
  lemma TracksNext(str: bytes, c: nat, nameStart: Option<nat>, nameEnd: Option<nat>, valueStart: Option<nat>)
    requires c < |str| && Tracks(str, c, nameStart, nameEnd, valueStart)
    ensures Tracks(str, c + 1, None, None, None)
    ensures nameStart.None? && str[c] != SPACE && str[c] != SEMICOLON ==> Tracks(str, c + 1, Some(c), None, None)
    ensures nameStart.Some? && nameEnd.None? && str[c] != SEMICOLON ==>
              Tracks(str, c + 1, nameStart, if str[c] == EQUALS then Some(c) else None, None)
    ensures nameEnd.Some? && valueStart.None? ==>
              Tracks(str, c + 1, nameStart, nameEnd, Some(if str[c] == QUOTE && c + 1 < |str| then c + 1 else c))
    ensures valueStart.Some? && str[c] != QUOTE && str[c] != SEMICOLON ==>
              Tracks(str, c + 1, nameStart, nameEnd, valueStart)
  {
    hide ValueStart;
    ValueStartAt(str, c);
  }

  lemma EndAtIs(str: bytes, a: byte, b: byte, base: nat, from: nat, k: nat)
    requires base + from <= k <= |str|
    requires forall i :: base + from <= i < k ==> str[i] != a && str[i] != b
    requires k < |str| ==> str[k] == a || str[k] == b
    ensures EndAt(str[base..], a, b, from) == k - base
  {
    var s := str[base..];
    var r := EndAt(s, a, b, from);
    assert r < |s| ==> str[base + r] == a || str[base + r] == b;
    assert k < |str| ==> s[k - base] == a || s[k - base] == b;
  }

  lemma ParsedStep(s: bytes, item: Item)
    requires s != [] && First(s) == item
    ensures Parsed(s) == item.fields + Parsed(item.rest)
  {
    hide First;
  }

  /** A bare name ends at c. */
  lemma BareEnds(str: bytes, c: nat, start: nat)
    requires c <= |str| && InName(str, c, start) && (c < |str| ==> str[c] == SEMICOLON)
    ensures Parsed(str[start..]) == [(str[start..c], [])] + Parsed(Behind(str, c))
  {
    hide Parsed, EndAt, First, Behind;
    var s := str[start..];
    EndAtIs(str, SEMICOLON, EQUALS, start, 1, c);
    Slice(str, start, 0, c - start);
    assert s[..c - start] == s[0..c - start];
    BehindSuffix(str, start, c - start);
    FirstOfBare(s, c - start);
    ParsedStep(s, Item([(str[start..c], [])], Behind(str, c)));
  }

  lemma FirstOfBare(s: bytes, k: nat)
    requires s != [] && s[0] != SPACE && s[0] != SEMICOLON
    requires EndAt(s, SEMICOLON, EQUALS, 1) == k && (k < |s| ==> s[k] == SEMICOLON)
    ensures First(s) == Item([(s[..k], [])], Behind(s, k))
  {
    hide EndAt, Decoded;
  }

  lemma FirstOfValue(s: bytes, k: nat, j: nat)
    requires s != [] && s[0] != SPACE && s[0] != SEMICOLON
    requires EndAt(s, SEMICOLON, EQUALS, 1) == k < |s| - 1 && s[k] == EQUALS
    requires EndAt(s[k + 1..], QUOTE, SEMICOLON, 1) == j
    ensures ValueStart(s[k + 1..]) <= j
    ensures First(s) == Item([(s[..k], Decoded(s[k + 1..][ValueStart(s[k + 1..])..j]))], Behind(s[k + 1..], j))
  {
    hide EndAt, Decoded;
  }

  lemma ValueEndAts(str: bytes, c: nat, start: nat, end: nat, value: nat)
    requires c <= |str| && InValue(str, c, start, end, value)
    requires c < |str| ==> str[c] == QUOTE || str[c] == SEMICOLON
    ensures start < end && end + 1 < c && value == end + 1 + ValueStart(str[end + 1..]) <= c
    ensures str[start] != SPACE && str[start] != SEMICOLON && str[end] == EQUALS
    ensures EndAt(str[start..], SEMICOLON, EQUALS, 1) == end - start
    ensures EndAt(str[end + 1..], QUOTE, SEMICOLON, 1) == c - end - 1
  {
    hide EndAt;
    EndAtIs(str, SEMICOLON, EQUALS, start, 1, end);
    EndAtIs(str, QUOTE, SEMICOLON, end + 1, 1, c);
  }

  /** A value ends at c. */
  lemma ValueEnds(str: bytes, c: nat, start: nat, end: nat, value: nat)
    requires c <= |str| && InValue(str, c, start, end, value)
    requires c < |str| ==> str[c] == QUOTE || str[c] == SEMICOLON
    ensures value <= c
    ensures Parsed(str[start..]) == [(str[start..end], Decoded(str[value..c]))] + Parsed(Behind(str, c))
  {
    hide Parsed, EndAt, Decoded, First, InValue, ValueStart, Behind;
    ValueEndAts(str, c, start, end, value);
    var s := str[start..];
    var v := str[end + 1..];
    Suffix(str, start, end - start + 1);
    Slice(str, start, 0, end - start);
    assert s[..end - start] == s[0..end - start];
    FirstOfValue(s, end - start, c - end - 1);
    Slice(str, end + 1, ValueStart(v), c - end - 1);
    BehindSuffix(str, end + 1, c - end - 1);
    ParsedStep(s, Item([(str[start..end], Decoded(str[value..c]))], Behind(str, c)));
  }

  lemma BehindSuffix(s: bytes, i: nat, j: nat)
    requires i + j <= |s|
    ensures Behind(s[i..], j) == Behind(s, i + j)
  {
    if i + j < |s| {
      Suffix(s, i, j + 1);
    }
  }

  /** A name with its '=' but no value at the end of the string yields nothing. */
  lemma ValueMissing(str: bytes, start: nat, end: nat)
    requires end + 1 == |str| && InName(str, end, start) && str[end] == EQUALS
    ensures Parsed(str[start..]) == []
  {
    hide EndAt, Parsed;
    EndAtIs(str, SEMICOLON, EQUALS, start, 1, end);
    assert str[start..][end - start + 1..] == [];
    ParsedStep(str[start..], Item([], []));
    assert Parsed([]) == [] by { ParsedOfEmpty(); }
  }

  lemma ParsedOfEmpty()
    ensures Parsed([]) == []
  {}

  lemma ParsedSkips(str: bytes, c: nat)
    requires c < |str| && (str[c] == SPACE || str[c] == SEMICOLON)
    ensures Parsed(str[c..]) == Parsed(str[c + 1..])
  {
    assert str[c..][1..] == str[c + 1..];
    ParsedStep(str[c..], Item([], str[c + 1..]));
  }

  lemma ValueStartAt(str: bytes, c: nat)
    requires c < |str|
    ensures ValueStart(str[c..]) == if str[c] == QUOTE && c + 1 < |str| then 1 else 0
  {}

  /** std::string::substr with a count that may reach past the end. */
  function Substr(s: bytes, pos: nat, count: nat): bytes
    requires pos <= |s|
  {
    if pos + count <= |s| then s[pos..pos + count] else s[pos..]
  }

  /** The one-pass scanner: three positions, None where the source keeps npos. */
  method Parse(str: bytes) returns (result: Fields)
    ensures result == Parsed(str)
  {
    hide Parsed, Decoded, First, Tracks, InName, InValue;
    result := [];
    var nameStartPos: Option<nat> := None;
    var nameEndPos: Option<nat> := None;
    var valueStartPos: Option<nat> := None;
    assert str[0..] == str;
    assert Tracks(str, 0, None, None, None) by { TracksStart(str); }
    for c := 0 to |str|
      invariant nameStartPos.Some? ==> nameStartPos.value < c
      invariant Tracks(str, c, nameStartPos, nameEndPos, valueStartPos)
      invariant result + Parsed(str[if nameStartPos.Some? then nameStartPos.value else c..]) == Parsed(str)
    {
      TracksShape(str, c, nameStartPos, nameEndPos, valueStartPos);
      TracksNext(str, c, nameStartPos, nameEndPos, valueStartPos);
      if nameStartPos.None? {
        if str[c] != SPACE && str[c] != SEMICOLON {
          nameStartPos := Some(c);
        } else {
          ParsedSkips(str, c);
        }
      } else if nameEndPos.None? {
        if str[c] == SEMICOLON {
          BareEnds(str, c, nameStartPos.value);
          Associative(result, [(str[nameStartPos.value..c], [])], Parsed(str[c + 1..]));
          result := result + [(str[nameStartPos.value..c], [])];
          nameStartPos := None;
        } else if str[c] == EQUALS {
          nameEndPos := Some(c);
        }
      } else if valueStartPos.None? {
        valueStartPos := Some(if str[c] == QUOTE && c + 1 < |str| then c + 1 else c);
      } else if str[c] == QUOTE || str[c] == SEMICOLON {
        ValueEnds(str, c, nameStartPos.value, nameEndPos.value, valueStartPos.value);
        var value := Decode(str[valueStartPos.value..c]);
        Associative(result, [(str[nameStartPos.value..nameEndPos.value], value)], Parsed(str[c + 1..]));
        result := result + [(str[nameStartPos.value..nameEndPos.value], value)];
        nameStartPos, nameEndPos, valueStartPos := None, None, None;
      }
    }
    TracksShape(str, |str|, nameStartPos, nameEndPos, valueStartPos);
    if nameStartPos.Some? {
      var last := ParseLast(str, nameStartPos.value, nameEndPos, valueStartPos);
      result := result + last;
    } else {
      assert Parsed([]) == [] by { ParsedOfEmpty(); }
      assert str[|str|..] == [] && result + [] == result;
    }
  }

  lemma TracksStart(str: bytes)
    ensures Tracks(str, 0, None, None, None)
  {}

  /** What is open at the end of the string. */
  method ParseLast(str: bytes, nameStartPos: nat, nameEndPos: Option<nat>, valueStartPos: Option<nat>)
    returns (fields: Fields)
    requires nameStartPos < |str| && Tracks(str, |str|, Some(nameStartPos), nameEndPos, valueStartPos)
    ensures fields == Parsed(str[nameStartPos..])
  {
    hide Parsed, Decoded, First, ValueStart;
    assert Parsed([]) == [] by { ParsedOfEmpty(); }
    if nameEndPos.None? {
      BareEnds(str, |str|, nameStartPos);
      assert str[nameStartPos..|str|] == str[nameStartPos..];
      fields := [(str[nameStartPos..], [])];
    } else if valueStartPos.Some? {
      ValueEnds(str, |str|, nameStartPos, nameEndPos.value, valueStartPos.value);
      assert str[valueStartPos.value..|str|] == str[valueStartPos.value..];
      var text := if str[|str| - 1] == QUOTE then Substr(str, valueStartPos.value, |str| - 1)
                  else str[valueStartPos.value..];
      var value := Decode(text);
      fields := [(str[nameStartPos..nameEndPos.value], value)];
    } else {
      ValueMissing(str, nameStartPos, nameEndPos.value);
      fields := [];
    }
  }

  // ------------------------------------------------------------- round trip

  datatype Attribute = Bare(name: bytes) | Plain(name: bytes, value: bytes) | Quoted(name: bytes, value: bytes)
  {
    function Text(): bytes
    {
      match this
      case Bare(_) => name
      case Plain(_, _) => name + [EQUALS] + Encoded(value)
      case Quoted(_, _) => name + [EQUALS, QUOTE] + Encoded(value) + [QUOTE]
    }

    function Field(): (bytes, bytes) { (name, if Bare? then [] else value) }

    predicate Printable() { IsName(name) && (Plain? ==> value != []) }
  }

  /** What the scanner takes for a name. */
  predicate IsName(name: bytes)
  {
    && name != [] && name[0] != SPACE && name[0] != SEMICOLON
    && forall i :: 1 <= i < |name| ==> name[i] != SEMICOLON && name[i] != EQUALS
  }

  function Printed(attributes: seq<Attribute>): bytes
  {
    if attributes == [] then []
    else attributes[0].Text() + (if |attributes| == 1 then [] else [SEMICOLON, SPACE] + Printed(attributes[1..]))
  }

  function FieldsOf(attributes: seq<Attribute>): Fields
  {
    if attributes == [] then [] else [attributes[0].Field()] + FieldsOf(attributes[1..])
  }

  predicate Continues(rest: bytes) { rest != [] ==> rest[0] == SEMICOLON }

  function Tail(rest: bytes): bytes { if rest == [] then [] else rest[1..] }

  lemma BareFirst(name: bytes, rest: bytes)
    requires Bare(name).Printable() && Continues(rest)
    ensures Parsed(name + rest) == [(name, [])] + Parsed(Tail(rest))
  {
    hide Parsed;
    var str := name + rest;
    assert InName(str, |name|, 0);
    BareEnds(str, |name|, 0);
    assert str[0..] == str && str[0..|name|] == name && Behind(str, |name|) == Tail(rest);
  }

  /** A value printed as code from position from on, up to its end mark. */
  lemma ValueFirst(name: bytes, value: bytes, quoted: bool, rest: bytes)
    requires Bare(name).Printable() && (quoted || value != [])
    requires if quoted then rest != [] && rest[0] == QUOTE else Continues(rest)
    ensures Parsed(ValueText(name, Encoded(value), quoted) + rest) == [(name, value)] + Parsed(Tail(rest))
  {
    hide Parsed, Encoded, Decoded;
    var code := Encoded(value);
    assert Unmarked(code) && |value| <= |code| by {
      EncodedAlphabet(value);
    }
    DecodedOfEncoded(value);
    CodeFirst(name, code, quoted, rest);
  }

  predicate Unmarked(code: bytes) { forall i :: 0 <= i < |code| ==> code[i] != QUOTE && code[i] != SEMICOLON }

  function ValueText(name: bytes, code: bytes, quoted: bool): bytes
  {
    name + [EQUALS] + (if quoted then [QUOTE] else []) + code
  }

  function CodeStart(name: bytes, quoted: bool): nat { |name| + 1 + if quoted then 1 else 0 }

  lemma CodeInValue(name: bytes, code: bytes, quoted: bool, rest: bytes)
    requires Bare(name).Printable() && (quoted || code != []) && Unmarked(code)
    requires if quoted then rest != [] && rest[0] == QUOTE else Continues(rest)
    ensures InValue(ValueText(name, code, quoted) + rest, CodeStart(name, quoted) + |code|,
                    0, |name|, CodeStart(name, quoted))
  {
    var str := ValueText(name, code, quoted) + rest;
    var n, from := |name|, CodeStart(name, quoted);
    assert forall i :: 0 <= i < n ==> str[i] == name[i];
    assert forall i :: from <= i < from + |code| ==> str[i] == code[i - from];
    assert quoted ==> str[n + 1] == QUOTE;
  }

  lemma CodeSlices(name: bytes, code: bytes, quoted: bool, rest: bytes)
    ensures var str, from := ValueText(name, code, quoted) + rest, CodeStart(name, quoted);
            str[0..] == str && str[0..|name|] == name && str[from..from + |code|] == code
            && Behind(str, from + |code|) == Tail(rest) && (rest != [] ==> str[from + |code|] == rest[0])
  {}

  lemma CodeFirst(name: bytes, code: bytes, quoted: bool, rest: bytes)
    requires Bare(name).Printable() && (quoted || code != []) && Unmarked(code)
    requires if quoted then rest != [] && rest[0] == QUOTE else Continues(rest)
    ensures Parsed(ValueText(name, code, quoted) + rest) == [(name, Decoded(code))] + Parsed(Tail(rest))
  {
    hide Parsed, Decoded, InValue, Unmarked, Behind;
    CodeInValue(name, code, quoted, rest);
    CodeSlices(name, code, quoted, rest);
    var from := CodeStart(name, quoted);
    ValueEnds(ValueText(name, code, quoted) + rest, from + |code|, 0, |name|, from);
  }

  /** Reading one attribute, at the end of the string or in front of a semicolon. */
  lemma ParsedFirst(a: Attribute, rest: bytes)
    requires a.Printable() && Continues(rest)
    ensures Parsed(a.Text() + rest) == [a.Field()] + Parsed(Tail(rest))
  {
    hide Parsed, Encoded;
    match a
    case Bare(name) => BareFirst(name, rest);
    case Plain(name, value) =>
      assert a.Text() == ValueText(name, Encoded(value), false);
      ValueFirst(name, value, false, rest);
    case Quoted(name, value) =>
      assert a.Text() + rest == ValueText(name, Encoded(value), true) + ([QUOTE] + rest);
      ValueFirst(name, value, true, [QUOTE] + rest);
      assert Tail([QUOTE] + rest) == rest;
      if rest != [] {
        assert rest[0..] == rest;
        ParsedSkips(rest, 0);
      }
  }

  /** Parsing inverts printing. */
  lemma {:induction false} ParsedOfPrinted(attributes: seq<Attribute>)
    requires forall a :: a in attributes ==> a.Printable()
    ensures Parsed(Printed(attributes)) == FieldsOf(attributes)
  {
    hide Parsed;
    ParsedOfEmpty();
    if attributes != [] {
      var first, more := attributes[0], attributes[1..];
      if more == [] {
        assert Printed(attributes) == first.Text() + [];
        ParsedFirst(first, []);
      } else {
        var rest := [SEMICOLON, SPACE] + Printed(more);
        ParsedFirst(first, rest);
        ParsedSkips(rest[1..], 0);
        assert rest[1..][0..] == rest[1..] && rest[1..][1..] == Printed(more);
        ParsedOfPrinted(more);
      }
    }
  }

  lemma {:induction false} ParsedNames(s: bytes, f: (bytes, bytes))
    requires f in Parsed(s)
    ensures IsName(f.0)
    decreases |s|
  {
    hide First, IsName;
    if f in First(s).fields {
      FirstName(s);
    } else {
      ParsedNames(First(s).rest, f);
    }
  }

  lemma FirstName(s: bytes)
    requires s != []
    ensures forall f :: f in First(s).fields ==> IsName(f.0)
  {
    hide Decoded, EndAt, Behind, ValueStart;
    if s[0] != SPACE && s[0] != SEMICOLON {
      var k := EndAt(s, SEMICOLON, EQUALS, 1);
      assert IsName(s[..k]);
    }
  }

  lemma DecodedIsNotEmpty(s: bytes)
    requires s != []
    ensures Decoded(s) != []
  {}

  /** A '=' without a value takes the ';' behind it for the beginning of one, or is dropped at the end. */
  lemma EmptyValue(name: bytes, rest: bytes)
    requires IsName(name) && Continues(rest)
    ensures var fields := Parsed(name + [EQUALS] + rest); fields == [] || fields[0].1 != []
  {
    hide Parsed, Decoded, EndAt;
    var s := name + [EQUALS] + rest;
    assert s[|name|] == EQUALS && forall i :: 0 <= i < |name| ==> s[i] == name[i];
    assert s[0..] == s;
    EndAtIs(s, SEMICOLON, EQUALS, 0, 1, |name|);
    assert s[|name| + 1..] == rest;
    ParsedStep(s, First(s));
    if rest == [] {
      assert Parsed([]) == [] by { ParsedOfEmpty(); }
    } else {
      var j := EndAt(rest, QUOTE, SEMICOLON, 1);
      assert ValueStart(rest) == 0;
      DecodedIsNotEmpty(rest[0..j]);
    }
  }

  lemma {:induction false} FieldsOfAt(attributes: seq<Attribute>)
    ensures |FieldsOf(attributes)| == |attributes|
    ensures forall i :: 0 <= i < |attributes| ==> FieldsOf(attributes)[i] == attributes[i].Field()
  {
    if attributes != [] {
      FieldsOfAt(attributes[1..]);
    }
  }

  /** With good names it is the values that decide. */
  lemma {:induction false} ValuesDecide(attributes: seq<Attribute>)
    requires forall a :: a in attributes ==> IsName(a.name)
    ensures Parsed(Printed(attributes)) == FieldsOf(attributes) <==> forall a :: a in attributes ==> a.Printable()
  {
    hide Parsed, Encoded, IsName;
    ParsedOfEmpty();
    if attributes != [] {
      var first, more := attributes[0], attributes[1..];
      var rest := if more == [] then [] else [SEMICOLON, SPACE] + Printed(more);
      assert Printed(attributes) == first.Text() + rest;
      if first.Printable() {
        ParsedFirst(first, rest);
        RestParsed(more);
        ValuesDecide(more);
        SameBehind(first.Field(), Parsed(Printed(more)), FieldsOf(more));
        assert (forall a :: a in attributes ==> a.Printable()) <==> forall a :: a in more ==> a.Printable();
      } else {
        assert first.Text() == first.name + [EQUALS] by { EncodedOfEmpty(); }
        EmptyValue(first.name, rest);
        assert first in attributes;
      }
    }
  }

  lemma SameBehind(f: (bytes, bytes), s: Fields, t: Fields)
    ensures [f] + s == [f] + t <==> s == t
  {
    assert ([f] + s)[1..] == s && ([f] + t)[1..] == t;
  }

  lemma EncodedOfEmpty()
    ensures Encoded([]) == []
  {}

  lemma RestParsed(more: seq<Attribute>)
    ensures Parsed(Tail(if more == [] then [] else [SEMICOLON, SPACE] + Printed(more))) == Parsed(Printed(more))
  {
    hide Parsed;
    if more != [] {
      hide Printed;
      var text := Printed(more);
      var tail := [SPACE] + text;
      assert [SEMICOLON] + [SPACE] == [SEMICOLON, SPACE];
      Associative([SEMICOLON], [SPACE], text);
      Parts([SEMICOLON], tail);
      Parts([SPACE], text);
      assert tail[0..] == tail;
      ParsedSkips(tail, 0);
    }
  }

  /** Parsing inverts printing if and only if all names are names to the scanner and no value behind a bare '='
      is empty. */
  lemma ParsedOfPrintedIff(attributes: seq<Attribute>)
    ensures Parsed(Printed(attributes)) == FieldsOf(attributes) <==> forall a :: a in attributes ==> a.Printable()
  {
    hide Parsed, IsName, Printed, FieldsOf;
    if Parsed(Printed(attributes)) == FieldsOf(attributes) {
      FieldsOfAt(attributes);
      forall a | a in attributes
        ensures IsName(a.name)
      {
        var i :| 0 <= i < |attributes| && attributes[i] == a;
        assert FieldsOf(attributes)[i] in FieldsOf(attributes);
        ParsedNames(Printed(attributes), FieldsOf(attributes)[i]);
      }
    }
    if forall a :: a in attributes ==> IsName(a.name) {
      ValuesDecide(attributes);
    }
  }
}

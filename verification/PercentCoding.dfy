/** Percent::encode and Percent::decode (RFC 3986 section 2.1). */
module PercentCoding {
  import opened Bytes
  import opened Numerals

  predicate Unreserved(b: byte)
  {
    || '0' as int <= b <= '9' as int
    || 'A' as int <= b <= 'Z' as int
    || 'a' as int <= b <= 'z' as int
    || b == MINUS || b == DOT || b == '_' as int || b == '~' as int
  }

  function EncodedByte(b: byte): bytes
  {
    if Unreserved(b) then [b] else [PERCENT, DigitChar(b / 16), DigitChar(b % 16)]
  }

  function Encoded(s: bytes): bytes
  {
    if s == [] then [] else EncodedByte(s[0]) + Encoded(s[1..])
  }

  /** strtol on two characters in base 16, cast to char; a non-number counts as 0. */
  function HexByte(hex: bytes): byte
  {
    match Integer(hex, 16)
    case None => 0
    case Some(v) => v % 256
  }

  function Decoded(s: bytes): bytes
  {
    if s == [] then []
    else if s[0] == PERCENT && 2 < |s| then [HexByte(s[1..3])] + Decoded(s[3..])
    else [if s[0] == PLUS then SPACE else s[0]] + Decoded(s[1..])
  }

  method Encode(value: bytes) returns (result: bytes)
    ensures result == Encoded(value)
  {
    result := [];
    for i := 0 to |value|
      invariant result + Encoded(value[i..]) == Encoded(value)
    {
      var chr := value[i];
      assert value[i..][1..] == value[i + 1..];
      Associative(result, EncodedByte(chr), Encoded(value[i + 1..]));
      if !Unreserved(chr) {
        result := result + [PERCENT, DigitChar(chr / 16), DigitChar(chr % 16)];
      } else {
        result := result + [chr];
      }
    }
  }

  method Decode(value: bytes) returns (result: bytes)
    ensures result == Decoded(value)
  {
    hide Decoded, HexByte;
    result := [];
    var i := 0;
    assert value[0..] == value;
    while i < |value|
      invariant i <= |value|
      invariant result + Decoded(value[i..]) == Decoded(value)
    {
      DecodedFirst(value, i);
      if value[i] == PERCENT && i + 2 < |value| {
        var hex := value[i + 1..i + 3];
        Associative(result, [HexByte(hex)], Decoded(value[i + 3..]));
        result := result + [HexByte(hex)];
        i := i + 2;
      } else {
        Associative(result, [if value[i] == PLUS then SPACE else value[i]], Decoded(value[i + 1..]));
        if value[i] == PLUS {
          result := result + [SPACE];
        } else {
          result := result + [value[i]];
        }
      }
      i := i + 1;
    }
    assert Decoded([]) == [] by { DecodedOfNothing(); }
    assert value[i..] == [] && result + [] == result;
  }

  lemma DecodedOfNothing()
    ensures Decoded([]) == []
  {}

  /** What the byte at i contributes, and where decoding goes on. */
  lemma DecodedFirst(value: bytes, i: nat)
    requires i < |value|
    ensures Decoded(value[i..])
         == if value[i] == PERCENT && i + 2 < |value| then [HexByte(value[i + 1..i + 3])] + Decoded(value[i + 3..])
            else [if value[i] == PLUS then SPACE else value[i]] + Decoded(value[i + 1..])
  {
    hide HexByte;
    var rest := value[i..];
    Suffix(value, i, 1);
    if i + 2 < |value| {
      Slice(value, i, 1, 3);
      Suffix(value, i, 3);
    }
  }

  lemma HexByteOfDigits(b: byte)
    ensures HexByte([DigitChar(b / 16), DigitChar(b % 16)]) == b
  {
    var hi, lo := DigitChar(b / 16), DigitChar(b % 16);
    var s := [hi, lo];
    assert DigitOf(hi, 16) == Some(b / 16) && DigitOf(lo, 16) == Some(b % 16);
    assert SkipSpaces(s) == s && SkipSign(s) == s;
    DigitRunIs(s, 16, 2);
    assert s[..2] == s && s[..1] == [hi] && [hi][..0] == [];
    assert Value([hi], 16) == b / 16;
    assert Value(s, 16) == b;
  }

  /** Decoding undoes encoding, on every byte string. */
  lemma {:induction false} DecodedOfEncoded(s: bytes)
    ensures Decoded(Encoded(s)) == s
  {
    if s != [] {
      DecodedOfEncoded(s[1..]);
      var e := Encoded(s);
      if Unreserved(s[0]) {
        assert e[1..] == Encoded(s[1..]);
      } else {
        HexByteOfDigits(s[0]);
        assert e[1..3] == [DigitChar(s[0] / 16), DigitChar(s[0] % 16)] && e[3..] == Encoded(s[1..]);
      }
    }
  }

  /** What an encoded string is made of: nothing in it can be taken for a separator. */
  lemma {:induction false} EncodedAlphabet(s: bytes)
    ensures forall i :: 0 <= i < |Encoded(s)| ==> Unreserved(Encoded(s)[i]) || Encoded(s)[i] == PERCENT
    ensures |s| <= |Encoded(s)|
  {
    if s != [] {
      EncodedAlphabet(s[1..]);
    }
  }

  /** The octets that RFC 3986 section 2.3 names as unreserved, and no others, are kept as they are. */
  lemma KeptIffUnreserved(b: byte)
    ensures EncodedByte(b) == [b]
       <==> 0x41 <= b <= 0x5A || 0x61 <= b <= 0x7A || 0x30 <= b <= 0x39 || b in [0x2D, 0x2E, 0x5F, 0x7E]
    ensures |EncodedByte(b)| == 1 || |EncodedByte(b)| == 3
  {}

  /** code says s in any way that is allowed: a byte as it is, a blank as '+', or '%' and two hexadecimal digits
      in either case. */
  predicate Says(code: bytes, s: bytes)
    decreases |s|
  {
    if s == [] then code == []
    else
      || (1 <= |code| && code[0] == s[0] && s[0] != PERCENT && s[0] != PLUS && Says(code[1..], s[1..]))
      || (1 <= |code| && code[0] == PLUS && s[0] == SPACE && Says(code[1..], s[1..]))
      || (3 <= |code| && code[0] == PERCENT && Spells(code[1], s[0] / 16) && Spells(code[2], s[0] % 16)
          && Says(code[3..], s[1..]))
  }

  /** However a string was encoded, decoding gives it back. */
  lemma {:induction false} DecodedOfAny(code: bytes, s: bytes)
    requires Says(code, s)
    ensures Decoded(code) == s
    decreases |s|
  {
    hide HexByte, Spells;
    if s != [] {
      if 3 <= |code| && code[0] == PERCENT {
        HexByteOfSpelling(code[1..3], s[0]);
        DecodedOfAny(code[3..], s[1..]);
      } else {
        DecodedOfAny(code[1..], s[1..]);
      }
    }
  }

  lemma HexByteOfSpelling(hex: bytes, b: byte)
    requires |hex| == 2 && Spells(hex[0], b / 16) && Spells(hex[1], b % 16)
    ensures HexByte(hex) == b
  {
    hide Spells;
    DigitsAre(hex[0], 16, b / 16);
    DigitsAre(hex[1], 16, b % 16);
    TwoDigits(hex, b / 16, b % 16);
  }

  lemma TwoDigits(hex: bytes, high: nat, low: nat)
    requires |hex| == 2 && DigitOf(hex[0], 16) == Some(high) && DigitOf(hex[1], 16) == Some(low)
    ensures Integer(hex, 16) == Some(16 * high + low)
  {
    DigitRunIs(hex, 16, 2);
    PlainNumeral(hex);
    var first := hex[..1];
    assert first == [hex[0]] && first[..0] == [];
    assert Value(first, 16) == high;
  }

  /** The encoding of HTML forms: blanks as '+', and hexadecimal digits here in lower case. */
  function FormEncoded(s: bytes): bytes
  {
    if s == [] then []
    else if s[0] == SPACE then [PLUS] + FormEncoded(s[1..])
    else if Unreserved(s[0]) then [s[0]] + FormEncoded(s[1..])
    else [PERCENT, LOWER[s[0] / 16], LOWER[s[0] % 16]] + FormEncoded(s[1..])
  }

  lemma {:induction false} DecodedOfForm(s: bytes)
    ensures Says(FormEncoded(s), s) && Decoded(FormEncoded(s)) == s
  {
    hide Spells;
    if s != [] {
      var code := FormEncoded(s);
      DecodedOfForm(s[1..]);
      BothSpell(s[0] / 16);
      BothSpell(s[0] % 16);
      assert s[0] == SPACE || Unreserved(s[0]) ==> code[1..] == FormEncoded(s[1..]);
      assert !(s[0] == SPACE || Unreserved(s[0])) ==> code[3..] == FormEncoded(s[1..]);
    }
    DecodedOfAny(FormEncoded(s), s);
  }

  /** A '%' with fewer than two bytes behind it stands for itself; digits end where they end, and a minus counts. */
  lemma OddPercents()
    ensures Decoded(Ascii("%")) == Ascii("%") && Decoded(Ascii("%4")) == Ascii("%4")
    ensures Decoded(Ascii("%zz")) == [0] && Decoded(Ascii("%4z")) == [4] && Decoded(Ascii("%-1")) == [255]
  {
    hide HexByte;
    OneByte(Ascii("%"));
    DecodedFirst(Ascii("%4"), 0);
    OneByte(Ascii("4"));
    assert Ascii("%4")[0..] == Ascii("%4") && Ascii("%4")[1..] == Ascii("4");
    OneCode(Ascii("%zz"), Ascii("zz"));
    OneCode(Ascii("%4z"), Ascii("4z"));
    OneCode(Ascii("%-1"), Ascii("-1"));
    OddHexBytes();
  }

  lemma OneByte(s: bytes)
    requires |s| == 1 && s[0] != PLUS
    ensures Decoded(s) == s
  {
    assert s == [s[0]] + [] && s[1..] == [];
    assert Decoded([]) == [];
  }

  lemma OneCode(s: bytes, hex: bytes)
    requires |s| == 3 && s[0] == PERCENT && s[1..] == hex
    ensures Decoded(s) == [HexByte(hex)]
  {
    hide HexByte;
    assert s[1..3] == hex && s[3..] == [];
    assert Decoded([]) == [];
  }

  lemma OneDigitPrints()
    ensures Print(4, 16) == [52] && Print(1, 16) == [49]
  {}

  lemma OddHexBytes()
    ensures HexByte(Ascii("zz")) == 0 && HexByte(Ascii("4z")) == 4 && HexByte(Ascii("-1")) == 255
  {
    hide Integer, Print;
    assert Ascii("zz") == [122, 122] && Ascii("4z") == [52] + [122] && Ascii("-1") == [] + [MINUS] + [49];
    NoInteger([122, 122], 16);
    OneDigitPrints();
    IntegerOfPrint(4, 16, [122]);
    IntegerOfSigned([], 1, 16);
    assert -1 % 256 == 255;
  }
}

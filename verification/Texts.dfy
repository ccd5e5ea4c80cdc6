/** The text messages between sensors and central: how they are printed, cut to the receive
    sizes, split at blanks and parsed back. Numbers go out in the "%f" form. */
module Texts {
  import opened Bytes
  import opened Numerals

  /** std::string(const char *) over memory: up to the first NUL. */
  function CString(memory: bytes): bytes
  {
    match Find(memory, NUL, 0) case None => memory case Some(i) => memory[..i]
  }

  predicate StartsWith(s: bytes, prefix: bytes) { |prefix| <= |s| && s[..|prefix|] == prefix }

  // ------------------------------------------------------- numbers as texts

  /** What may follow a number so that std::stof stops there. */
  predicate EndsNumber(rest: bytes) { (rest != [] ==> !IsDigit(rest[0], 10) && rest[0] != DOT) && Exponent(rest) == 0 }

  lemma NumberStart(n: nat, rest: bytes)
    ensures var s := Decimal(n) + rest;
            s != [] && SkipSpaces(s) == s && SkipSign(s) == s && !IsNegative(s)
  {
    assert IsDigit((Decimal(n) + rest)[0], 10);
  }

  lemma StofOfWhole(n: nat, rest: bytes)
    requires EndsNumber(rest)
    ensures Stof(Decimal(n) + rest) == Some(n as real)
  {
    hide Print, Value, DigitRun, SkipSpaces, SkipSign, IsNegative, Exponent;
    var p := Decimal(n);
    var s := p + rest;
    NumberStart(n, rest);
    DigitRunIs(s, 10, |p|);
    assert s[..|p|] == p && s[|p|..] == rest;
    ValuePrint(n, 10);
    assert DigitRun([], 10) == 0 by { DigitRunIs([], 10, 0); }
    assert Value([], 10) == 0 by { ValueOfNothing(); }
  }

  lemma ValueOfNothing()
    ensures Value([], 10) == 0
  {}

  lemma StofByCuts(s: bytes, d: nat, e: nat)
    requires s != [] && SkipSpaces(s) == s && SkipSign(s) == s && !IsNegative(s)
    requires d < |s| && DigitRun(s, 10) == d && d > 0 && s[d] == DOT && DigitRun(s[d + 1..], 10) == e
    ensures Stof(s) == Some(Scaled(Value(s[..d], 10) as real + Value(s[d + 1..][..e], 10) as real / Pow10(e) as real,
                                   Exponent(s[d + 1..][e..])))
  {
    hide Value, DigitRun, SkipSpaces, SkipSign, IsNegative, Pow10, Scaled, Exponent;
  }

  lemma FractionSlices(p: bytes, f: bytes, rest: bytes)
    ensures var s := p + [DOT] + f + rest;
            s == p + ([DOT] + f + rest) && s[|p|] == DOT && s[..|p|] == p
            && s[|p| + 1..] == f + rest && (f + rest)[..|f|] == f && (f + rest)[|f|..] == rest
  {}

  lemma DigitRunOfPrefix(p: bytes, rest: bytes)
    requires forall i :: 0 <= i < |p| ==> IsDigit(p[i], 10)
    requires rest != [] ==> !IsDigit(rest[0], 10)
    ensures DigitRun(p + rest, 10) == |p|
  {
    hide IsDigit;
    DigitRunIs(p + rest, 10, |p|);
  }

  lemma StofOfFraction(n: nat, f: bytes, rest: bytes)
    requires forall i :: 0 <= i < |f| ==> IsDigit(f[i], 10)
    requires rest != [] ==> !IsDigit(rest[0], 10)
    ensures Stof(Decimal(n) + [DOT] + f + rest)
         == Some(Scaled(n as real + Value(f, 10) as real / Pow10(|f|) as real, Exponent(rest)))
  {
    hide Print, Value, DigitRun, SkipSpaces, SkipSign, IsNegative, Pow10, Stof, IsDigit, Scaled, Exponent;
    var p := Decimal(n);
    var s := p + [DOT] + f + rest;
    FractionSlices(p, f, rest);
    NumberStart(n, [DOT] + f + rest);
    assert DigitRun(s, 10) == |p| by {
      DotIsNoDigit();
      DigitRunOfPrefix(p, [DOT] + f + rest);
    }
    assert DigitRun(s[|p| + 1..], 10) == |f| by {
      DigitRunOfPrefix(f, rest);
    }
    StofByCuts(s, |p|, |f|);
    ValuePrint(n, 10);
  }

  lemma DotIsNoDigit()
    ensures !IsDigit(DOT, 10)
  {}

  /** What std::stof makes of a number that std::to_string printed: the number itself, unless an
      exponent follows. */
  lemma StofOfToString(m: nat, rest: bytes)
    requires rest != [] ==> !IsDigit(rest[0], 10)
    ensures Stof(ToString(m) + rest) == Some(Scaled(Millionths(m), Exponent(rest)))
    ensures Exponent(rest) == 0 ==> Stof(ToString(m) + rest) == Some(Millionths(m))
  {
    hide Print, Padded, Value, Stof, DigitRun, IsDigit, Exponent;
    var f := Padded(m % MILLION, 6);
    SixDigits();
    ValuePadded(m % MILLION, 6);
    StofOfFraction(m / MILLION, f, rest);
    assert ToString(m) == Decimal(m / MILLION) + [DOT] + f by {
      assert [] + Decimal(m / MILLION) == Decimal(m / MILLION);
    }
    SplitMillionths(m);
  }

  lemma SixDigits()
    ensures Pow10(6) == MILLION
  {
    assert Pow10(3) == 1000;
    assert Pow10(4) == 10000;
    assert Pow10(5) == 100000;
  }

  lemma SplitMillionths(m: nat)
    ensures (m / MILLION) as real + (m % MILLION) as real / MILLION as real == Millionths(m)
  {
    var q, r := m / MILLION, m % MILLION;
    assert m == q * 1000000 + r;
    assert m as real == q as real * 1000000.0 + r as real;
    assert m as real / 1000000.0 == q as real + r as real / 1000000.0;
  }

  lemma WholeInMillionths(n: nat)
    ensures Millionths(n * MILLION) == n as real
  {
    assert (n * MILLION) as real == n as real * MILLION as real;
  }

  lemma {:induction false} ValueOfZeros(f: bytes)
    requires forall i :: 0 <= i < |f| ==> f[i] == '0' as int
    ensures (forall i :: 0 <= i < |f| ==> IsDigit(f[i], 10)) && Value(f, 10) == 0
  {
    if f != [] {
      ValueOfZeros(f[..|f| - 1]);
    }
  }

  /** A minus negates, and negative numbers are read back too. */
  lemma StofOfNegative(m: nat)
    requires m > 0
    ensures Stof(ToString(0 - m)) == Some(0.0 - Millionths(m))
  {
    hide Stof, Print, Padded;
    StofOfToString(m, []);
    var p := Decimal(m / MILLION) + [DOT] + Padded(m % MILLION, 6);
    assert ToString(m) == p by { assert [] + Decimal(m / MILLION) == Decimal(m / MILLION); }
    assert ToString(0 - m) == [MINUS] + p;
    assert p + [] == p;
    NumberStart(m / MILLION, [DOT] + Padded(m % MILLION, 6));
    assert p == Decimal(m / MILLION) + ([DOT] + Padded(m % MILLION, 6));
    StofNegated(p);
  }

  lemma StofNegated(s: bytes)
    requires s != [] && SkipSpaces(s) == s && SkipSign(s) == s && !IsNegative(s)
    ensures Stof([MINUS] + s) == match Stof(s) case None => None case Some(v) => Some(-v)
  {
    hide Magnitude;
    var t := [MINUS] + s;
    assert t[1..] == s && SkipSpaces(t) == t && SkipSign(t) == s;
  }

  lemma ExponentShape(mark: byte, t: bytes)
    requires mark == 'e' as int || mark == 'E' as int
    ensures var u := SkipSign(t);
            var n: int := Value(u[..DigitRun(u, 10)], 10);
            Exponent([mark] + t) == if IsNegative(t) then 0 - n else n
  {
    hide Value, DigitRun;
    assert ([mark] + t)[1..] == t;
  }

  lemma NumberInFront(n: nat, rest: bytes)
    requires rest != [] ==> !IsDigit(rest[0], 10)
    ensures var s := Decimal(n) + rest;
            SkipSign(s) == s && !IsNegative(s) && Value(s[..DigitRun(s, 10)], 10) == n
  {
    hide Value, DigitRun, Print, IsDigit;
    NumberStart(n, rest);
    DigitRunOfPrefix(Decimal(n), rest);
    Parts(Decimal(n), rest);
    ValuePrint(n, 10);
  }

  /** An exponent counts with its sign, in either case of the letter; without digits there is none. */
  lemma ExponentOf(mark: byte, n: nat, rest: bytes)
    requires mark == 'e' as int || mark == 'E' as int
    requires rest != [] ==> !IsDigit(rest[0], 10)
    ensures Exponent([mark] + (Decimal(n) + rest)) == n
    ensures Exponent([mark] + ([PLUS] + (Decimal(n) + rest))) == n
    ensures Exponent([mark] + ([MINUS] + (Decimal(n) + rest))) == 0 - n
    ensures rest == [] || (rest[0] != PLUS && rest[0] != MINUS) ==> Exponent([mark] + rest) == 0
  {
    hide Value, DigitRun, Print, IsDigit, Exponent;
    var s := Decimal(n) + rest;
    NumberInFront(n, rest);
    ExponentShape(mark, s);
    ExponentShape(mark, [PLUS] + s);
    ExponentShape(mark, [MINUS] + s);
    Parts([PLUS], s);
    Parts([MINUS], s);
    ExponentShape(mark, rest);
    DigitRunIs(rest, 10, 0);
    assert Value([], 10) == 0 by { ValueOfNothing(); }
  }

  /** Without a digit there is an exception. */
  lemma StofFails(s: bytes)
    requires s == [] || (!IsSpace(s[0]) && s[0] != PLUS && s[0] != MINUS && s[0] != DOT && !IsDigit(s[0], 10))
    ensures Stof(s) == None
  {
    hide Value, Pow10, Exponent, Scaled;
  }

  // ------------------------------------------------- setting the threshold

  const SET_THRESHOLD: bytes := Ascii("set_threshold")
  const THRESHOLD_TAG: bytes := Ascii("threshold:")
  const MESSAGE_SIZE := 17

  /** What Communicator::set_threshold sends, for a threshold given in millionths. */
  function ThresholdQuestion(threshold: nat): bytes { SET_THRESHOLD + [SPACE] + ToString(threshold) }

  function Cut(datagram: bytes, size: nat): bytes { if |datagram| <= size then datagram else datagram[..size] }

  /** What the sensor's zeroed 17-byte buffer holds after a receive; memory is what lies behind
      the buffer, which the conversion to std::string reaches when the buffer is full. */
  function Received(datagram: bytes, memory: bytes): bytes
  {
    var cut := Cut(datagram, MESSAGE_SIZE);
    cut + seq(MESSAGE_SIZE - |cut|, i => NUL) + memory
  }

  datatype Verdict = Ignored | Accepted(value: int) | Refused(value: int) | ThreadEnds

  /** set_threshold_receive_thread on one datagram: three characters behind the keyword are
      converted; ThreadEnds stands for an exception out of substr or stoi. */
  function SensorVerdict(datagram: bytes, memory: bytes): Verdict
  {
    var str := CString(Received(datagram, memory));
    if !StartsWith(str, SET_THRESHOLD) then Ignored
    else if |str| < |SET_THRESHOLD| + 1 then ThreadEnds
    else
      match Stoi(Cut(str[|SET_THRESHOLD| + 1..], 3))
      case None => ThreadEnds
      case Some(tmp) => if 0 < tmp < 100 then Accepted(tmp) else Refused(tmp)
  }

  /** The answer goes out with the size of the question: the text, its NUL, and whatever memory follows. */
  function ThresholdReply(value: nat, size: nat, memory: bytes): bytes
  {
    Cut(THRESHOLD_TAG + [SPACE] + Decimal(value) + [NUL] + memory, size)
  }

  /** Callback_set_threshold: the threshold that is stored; None is an invalid answer. */
  function ThresholdAnswer(msg: bytes): Option<real>
  {
    var answer := Split(msg, SPACE);
    if |answer| > 1 && answer[0] == THRESHOLD_TAG then Stof(answer[1]) else None
  }

  lemma DecimalLength(n: nat)
    requires n <= 100
    ensures |Decimal(n)| == if n < 10 then 1 else if n < 100 then 2 else 3
  {
    if n >= 10 {
      assert |Print(n / 10, 10)| == if n / 10 < 10 then 1 else 2;
    }
  }

  /** The three characters the sensor converts give the integer part. */
  lemma StoiOfThree(threshold: nat)
    requires threshold <= 100 * MILLION
    ensures Stoi(Cut(ToString(threshold), 3)) == Some(threshold / MILLION)
    ensures |ToString(threshold)| >= 8
  {
    hide Print, Padded, Integer, IsDigit;
    var n := threshold / MILLION;
    var p := Decimal(n);
    DecimalLength(n);
    var text := p + [DOT] + Padded(threshold % MILLION, 6);
    assert ToString(threshold) == text by { assert [] + p == p; }
    var rest := text[..3][|p|..];
    assert Cut(text, 3) == p + rest;
    DotIsNoDigit();
    assert rest != [] ==> rest[0] == DOT;
    IntegerOfPrint(n, 10, rest);
  }

  lemma ThresholdQuestionShape(threshold: nat, memory: bytes)
    requires |ToString(threshold)| >= 8 && NUL !in ToString(threshold)
    ensures var str := CString(Received(ThresholdQuestion(threshold), memory));
            |str| >= MESSAGE_SIZE && StartsWith(str, SET_THRESHOLD) && Cut(str[14..], 3) == Cut(ToString(threshold), 3)
  {
    hide CString, ToString, Received;
    var text := ToString(threshold);
    assert forall b :: b in text[..3] ==> b in text;
    QuestionShape(text, memory);
  }

  lemma QuestionShape(text: bytes, memory: bytes)
    requires |text| >= 3 && NUL !in text[..3]
    ensures var str := CString(Received(SET_THRESHOLD + [SPACE] + text, memory));
            |str| >= MESSAGE_SIZE && StartsWith(str, SET_THRESHOLD) && Cut(str[14..], 3) == text[..3]
  {
    hide CString;
    var head := SET_THRESHOLD + [SPACE] + text[..3];
    ReceivedWhole(SET_THRESHOLD + [SPACE], text, memory);
    assert NUL !in SET_THRESHOLD;
    CStringOfParts(head, memory);
    Associative(SET_THRESHOLD + [SPACE], text[..3], CString(memory));
    Parts(SET_THRESHOLD + [SPACE], text[..3] + CString(memory));
    Parts(text[..3], CString(memory));
    Associative(SET_THRESHOLD, [SPACE], text[..3] + CString(memory));
    Parts(SET_THRESHOLD, [SPACE] + (text[..3] + CString(memory)));
  }

  lemma ReceivedWhole(front: bytes, text: bytes, memory: bytes)
    requires |front| == 14 && |text| >= 3
    ensures Received(front + text, memory) == front + text[..3] + memory
  {
    var all := front + text;
    assert all[..17] == front + text[..3];
    assert seq(0, i => NUL) == [];
    assert Cut(all, MESSAGE_SIZE) == all[..17];
  }

  /** A NUL in the first part ends the string there. */
  lemma CStringOfParts(a: bytes, b: bytes)
    ensures CString(a + b) == if NUL in a then CString(a) else a + CString(b)
  {
    hide Find;
    FindInParts(a, b, NUL);
    match Find(a, NUL, 0)
    case Some(i) => assert (a + b)[..i] == a[..i];
    case None =>
      match Find(b, NUL, 0) {
        case Some(i) => assert (a + b)[..|a| + i] == a + b[..i];
        case None =>
      }
  }

  lemma ToStringHasNoNul(m: nat)
    ensures NUL !in ToString(m)
  {
    var p, f := Decimal(m / MILLION), Padded(m % MILLION, 6);
    assert forall i :: 0 <= i < |p| ==> IsDigit(p[i], 10);
    assert forall i :: 0 <= i < |f| ==> IsDigit(f[i], 10);
    assert ToString(m) == [] + p + [DOT] + f;
  }

  /** Every threshold from 0 to 100 that central prints is accepted by the sensor exactly when its
      integer part is between 1 and 99, and that part is what the sensor takes. */
  lemma SensorTakesIntegerPart(threshold: nat, memory: bytes)
    requires threshold <= 100 * MILLION
    ensures var whole := threshold / MILLION;
            SensorVerdict(ThresholdQuestion(threshold), memory)
            == if 1 <= whole <= 99 then Accepted(whole) else Refused(whole)
  {
    hide ToString, Stoi, CString, Received;
    StoiOfThree(threshold);
    ToStringHasNoNul(threshold);
    ThresholdQuestionShape(threshold, memory);
  }

  /** Central then stores that integer part, whatever bytes pad the reply. */
  lemma CentralStoresIntegerPart(value: nat, memory: bytes)
    requires 1 <= value <= 99 && |memory| >= MESSAGE_SIZE
    ensures ThresholdAnswer(ThresholdReply(value, MESSAGE_SIZE, memory)) == Some(value as real)
  {
    hide Find, Print, Stof, IsDigit, Split;
    DecimalLength(value);
    var p := Decimal(value);
    var padding := memory[..17 - 12 - |p|];
    var reply := ThresholdReply(value, MESSAGE_SIZE, memory);
    assert reply == THRESHOLD_TAG + [SPACE] + (p + [NUL] + padding);
    assert SPACE !in THRESHOLD_TAG;
    SplitFirst(THRESHOLD_TAG, SPACE, p + [NUL] + padding);
    DecimalIsClean(value);
    var rest := SecondPiece(p, padding);
    NulIsNoDigit();
    StofOfWhole(value, rest);
  }

  lemma DecimalIsClean(n: nat)
    ensures SPACE !in Decimal(n) && NUL !in Decimal(n)
  {
    var p := Decimal(n);
    assert forall i :: 0 <= i < |p| ==> IsDigit(p[i], 10);
  }

  lemma NulIsNoDigit()
    ensures !IsDigit(NUL, 10)
  {}

  /** The piece that begins with the number keeps its NUL. */
  lemma SecondPiece(p: bytes, padding: bytes) returns (rest: bytes)
    requires SPACE !in p
    ensures Split(p + [NUL] + padding, SPACE)[0] == p + rest
    ensures rest != [] && rest[0] == NUL
  {
    var s := p + [NUL] + padding;
    assert s[|p|] == NUL && forall i :: 0 <= i < |p| ==> s[i] == p[i];
    match Find(s, SPACE, 0)
    case None => rest := [NUL] + padding;
      assert p + rest == s;
    case Some(i) =>
      rest := s[|p|..i];
      assert p + rest == s[..i];
  }

  /** The threshold that central shows after an undisturbed exchange is the requested one exactly
      when that was a whole number between 1 and 99. */
  lemma ExchangeIsExactIff(threshold: nat, memory: bytes, memory': bytes)
    requires threshold <= 100 * MILLION && |memory'| >= MESSAGE_SIZE
    ensures var v := SensorVerdict(ThresholdQuestion(threshold), memory);
            (v.Accepted? && v.value >= 0
             && ThresholdAnswer(ThresholdReply(v.value, MESSAGE_SIZE, memory')) == Some(Millionths(threshold)))
            <==> threshold % MILLION == 0 && 1 <= threshold / MILLION <= 99
  {
    hide SensorVerdict, ThresholdAnswer, ThresholdReply;
    SensorTakesIntegerPart(threshold, memory);
    var n := threshold / MILLION;
    if 1 <= n <= 99 {
      CentralStoresIntegerPart(n, memory');
      SplitMillionths(threshold);
      assert threshold == n * MILLION + threshold % MILLION;
    }
  }

  // ----------------------------------------------------- values and alarms

  const GET_VALUE: bytes := Ascii("get_value")
  const CURRENT_TAG: bytes := Ascii("current_value:")
  const TYPICAL_TAG: bytes := Ascii("typical_value:")
  const ALARM: bytes := Ascii("alarm")

  /** The sensor's answer to get_value, for values in millionths. */
  function ValueReply(current: nat, typical: nat): bytes
  {
    CURRENT_TAG + [SPACE] + ToString(current) + [SPACE] + TYPICAL_TAG + [SPACE] + ToString(typical)
  }

  function Both(current: Option<real>, typical: Option<real>): Option<(real, real)>
  {
    if current.Some? && typical.Some? then Some((current.value, typical.value)) else None
  }

  /** Callback_get_value: the pair that is stored; None is an invalid answer. */
  function ValueAnswer(msg: bytes): Option<(real, real)>
  {
    var answer := Split(msg, SPACE);
    if |answer| > 3 && answer[0] == CURRENT_TAG && answer[2] == TYPICAL_TAG then Both(Stof(answer[1]), Stof(answer[3]))
    else None
  }

  lemma TagsAreWords()
    ensures SPACE !in CURRENT_TAG && SPACE !in TYPICAL_TAG && SPACE !in ALARM
  {}

  lemma ToStringIsWord(m: nat)
    ensures SPACE !in ToString(m)
  {
    var p, f := Decimal(m / MILLION), Padded(m % MILLION, 6);
    assert forall i :: 0 <= i < |p| ==> IsDigit(p[i], 10);
    assert forall i :: 0 <= i < |f| ==> IsDigit(f[i], 10);
    assert ToString(m) == [] + p + [DOT] + f;
  }

  /** Three words in front. */
  lemma SplitThree(a: bytes, b: bytes, c: bytes, d: bytes)
    requires SPACE !in a && SPACE !in b && SPACE !in c
    ensures Split(a + [SPACE] + b + [SPACE] + c + [SPACE] + d, SPACE) == [a, b, c] + Split(d, SPACE)
  {
    hide Split;
    var cd := c + [SPACE] + d;
    var bcd := b + [SPACE] + cd;
    assert a + [SPACE] + b + [SPACE] + c + [SPACE] + d == a + [SPACE] + bcd;
    SplitFirst(a, SPACE, bcd);
    SplitFirst(b, SPACE, cd);
    SplitFirst(c, SPACE, d);
  }

  /** One piece without the separator, more with it. */
  lemma SplitOnce(s: bytes, b: byte)
    ensures |Split(s, b)| == 1 <==> b !in s
    ensures b !in s ==> Split(s, b) == [s]
  {}

  /** Central stores exactly the pair the sensor printed. */
  lemma ValueAnswerOfReply(current: nat, typical: nat)
    ensures ValueAnswer(ValueReply(current, typical)) == Some((Millionths(current), Millionths(typical)))
  {
    hide Split, ToString, Stof;
    TagsAreWords();
    ToStringIsWord(current);
    ToStringIsWord(typical);
    SplitThree(CURRENT_TAG, ToString(current), TYPICAL_TAG, ToString(typical));
    SplitOnce(ToString(typical), SPACE);
    StofOfToString(current, []);
    StofOfToString(typical, []);
    assert ToString(current) + [] == ToString(current) && ToString(typical) + [] == ToString(typical);
  }

  function AlarmText(current: nat, typical: nat): bytes { ALARM + [SPACE] + ValueReply(current, typical) }

  datatype AlarmVerdict = Stores(current: real, typical: real) | Invalid | Throws

  /** The alarm server on the text in its buffer. */
  function AlarmOf(text: bytes): AlarmVerdict
  {
    var message := Split(text, SPACE);
    if |message| == 5 && message[0] == ALARM && message[1] == CURRENT_TAG && message[3] == TYPICAL_TAG then
      match Both(Stof(message[2]), Stof(message[4]))
      case None => Throws
      case Some((current, typical)) => Stores(current, typical)
    else Invalid
  }

  // ------------------------------------------------------- other messages

  lemma ReceivedPrefix(datagram: bytes, memory: bytes, keyword: bytes)
    requires |keyword| <= MESSAGE_SIZE && NUL !in keyword
    ensures StartsWith(CString(Received(datagram, memory)), keyword) <==> StartsWith(datagram, keyword)
  {
    hide CString;
    var all := Received(datagram, memory);
    var cut := Cut(datagram, MESSAGE_SIZE);
    assert forall i :: 0 <= i < |cut| ==> all[i] == datagram[i];
    assert forall i :: |cut| <= i < MESSAGE_SIZE ==> all[i] == NUL;
    if StartsWith(datagram, keyword) {
      var rest := all[|keyword|..];
      assert forall i :: 0 <= i < |keyword| ==> datagram[i] == datagram[..|keyword|][i];
      assert all == keyword + rest;
      CStringOfParts(keyword, rest);
      Parts(keyword, CString(rest));
    }
    if StartsWith(CString(all), keyword) {
      CStringIsPrefix(all);
      assert forall i :: 0 <= i < |keyword| ==> all[i] == CString(all)[..|keyword|][i] == keyword[i];
      assert forall i :: |cut| <= i < |keyword| ==> keyword[i] == NUL;
      if |cut| < |keyword| {
        NotAllNul(keyword, |cut|);
      }
      assert datagram[..|keyword|] == keyword;
    }
  }

  lemma NotAllNul(s: bytes, n: nat)
    requires NUL !in s && n < |s|
    ensures exists i :: n <= i < |s| && s[i] != NUL
  {
    assert s[n] in s;
  }

  lemma CStringIsPrefix(memory: bytes)
    ensures |CString(memory)| <= |memory| && forall i :: 0 <= i < |CString(memory)| ==> CString(memory)[i] == memory[i]
  {
    hide Find;
  }

  /** The sensor heeds exactly the datagrams that begin with the keyword; the keyword alone ends its thread. */
  lemma KeywordDecides(datagram: bytes, memory: bytes)
    ensures SensorVerdict(datagram, memory).Ignored? <==> !StartsWith(datagram, Ascii("set_threshold"))
    ensures datagram == Ascii("set_threshold") ==> SensorVerdict(datagram, memory) == ThreadEnds
  {
    hide Stoi, CString, Received;
    assert NUL !in SET_THRESHOLD;
    ReceivedPrefix(datagram, memory, SET_THRESHOLD);
    if datagram == SET_THRESHOLD {
      KeywordAlone(memory);
    }
  }

  /** Behind the keyword and a blank the first three characters decide. */
  lemma VerdictOnText(text: bytes, memory: bytes)
    requires |text| >= 3 && NUL !in text[..3]
    ensures SensorVerdict(Ascii("set_threshold") + Ascii(" ") + text, memory)
         == match Stoi(text[..3])
            case None => ThreadEnds
            case Some(value) => if 1 <= value <= 99 then Accepted(value) else Refused(value)
  {
    hide Stoi, CString, Received;
    assert Ascii(" ") == [SPACE];
    QuestionShape(text, memory);
  }

  lemma KeywordAlone(memory: bytes)
    ensures CString(Received(SET_THRESHOLD, memory)) == SET_THRESHOLD
  {
    hide Find;
    assert NUL !in SET_THRESHOLD;
    var all := Received(SET_THRESHOLD, memory);
    assert all[13] == NUL && forall i :: 0 <= i < 13 ==> all[i] == SET_THRESHOLD[i];
    FindIs(all, NUL, 13);
    assert all[..13] == SET_THRESHOLD;
  }

  /** Central's callbacks look at the words in front, and what follows them does not matter. */
  lemma ThresholdAnswerOf(a: bytes, b: bytes, more: bytes)
    requires SPACE !in a && SPACE !in b
    ensures ThresholdAnswer(a) == None
    ensures ThresholdAnswer(a + [SPACE] + b) == if a == Ascii("threshold:") then Stof(b) else None
    ensures ThresholdAnswer(a + [SPACE] + (b + [SPACE] + more)) == ThresholdAnswer(a + [SPACE] + b)
  {
    hide Split, Stof;
    SplitWhole(a, SPACE);
    SplitWhole(b, SPACE);
    SplitFirst(a, SPACE, b);
    SplitFirst(b, SPACE, more);
    SplitFirst(a, SPACE, b + [SPACE] + more);
  }

  /** The alarm server looks at five words, no more and no fewer. */
  lemma AlarmOfWords(a: bytes, b: bytes, c: bytes, d: bytes, e: bytes, more: bytes)
    requires SPACE !in a && SPACE !in b && SPACE !in c && SPACE !in d && SPACE !in e
    ensures AlarmOf(a + [SPACE] + (b + [SPACE] + c + [SPACE] + d + [SPACE] + e))
         == if a != Ascii("alarm") || b != Ascii("current_value:") || d != Ascii("typical_value:") then Invalid
            else match Both(Stof(c), Stof(e)) case None => Throws case Some((x, y)) => Stores(x, y)
    ensures AlarmOf(a + [SPACE] + (b + [SPACE] + c + [SPACE] + d + [SPACE] + (e + [SPACE] + more))) == Invalid
    ensures AlarmOf(b + [SPACE] + c + [SPACE] + d + [SPACE] + e) == Invalid
  {
    hide Split, Stof;
    SplitWhole(e, SPACE);
    SplitThree(b, c, d, e);
    SplitFirst(a, SPACE, b + [SPACE] + c + [SPACE] + d + [SPACE] + e);
    SplitFirst(e, SPACE, more);
    SplitThree(b, c, d, e + [SPACE] + more);
    SplitFirst(a, SPACE, b + [SPACE] + c + [SPACE] + d + [SPACE] + (e + [SPACE] + more));
  }

  lemma ValueAnswerOf(a: bytes, b: bytes, c: bytes, d: bytes, more: bytes)
    requires SPACE !in a && SPACE !in b && SPACE !in c && SPACE !in d
    ensures ValueAnswer(a + [SPACE] + b + [SPACE] + c + [SPACE] + d)
         == (if a == Ascii("current_value:") && c == Ascii("typical_value:") then Both(Stof(b), Stof(d)) else None)
    ensures ValueAnswer(a + [SPACE] + b + [SPACE] + c + [SPACE] + (d + [SPACE] + more))
         == ValueAnswer(a + [SPACE] + b + [SPACE] + c + [SPACE] + d)
    ensures ValueAnswer(a + [SPACE] + (b + [SPACE] + c)) == None
  {
    hide Split, Stof;
    SplitWhole(c, SPACE);
    SplitWhole(d, SPACE);
    SplitThree(a, b, c, d);
    SplitFirst(d, SPACE, more);
    SplitThree(a, b, c, d + [SPACE] + more);
    SplitFirst(b, SPACE, c);
    SplitFirst(a, SPACE, b + [SPACE] + c);
  }
}

/** The alarm server of central. Its 512-byte buffer is cleared only when a round ends without
    an exception, so a round may start on the rest of an earlier message. */
module Alarms {
  import opened Bytes
  import opened Numerals
  import opened Addresses
  import opened Texts
  import SL = SensorList

  const BUFFER_SIZE := 512

  function Zeros(n: nat): (r: bytes)
    ensures |r| == n
  {
    seq(n, i => NUL)
  }

  /** recvfrom with size 511 into the buffer. */
  function Overlaid(buffer: bytes, datagram: bytes): (r: bytes)
    requires |buffer| == BUFFER_SIZE
    ensures |r| == BUFFER_SIZE
  {
    var cut := Cut(datagram, BUFFER_SIZE - 1);
    cut + buffer[|cut|..]
  }

  function VerdictOn(buffer: bytes): AlarmVerdict { AlarmOf(CString(buffer)) }

  /** The buffer after a round on it: an exception leaves it as it is. */
  function Cleared(text: bytes, listed: bool): (r: bytes)
    requires |text| == BUFFER_SIZE
    ensures |r| == BUFFER_SIZE
  {
    if EndsInException(text, listed) then text else Zeros(BUFFER_SIZE)
  }

  /** A number does not parse, or the sensor is not listed. */
  predicate EndsInException(text: bytes, listed: bool)
  {
    VerdictOn(text).Throws? || (VerdictOn(text).Stores? && !listed)
  }

  class AlarmServer {
    const buffer: array<byte>

    constructor ()
      ensures fresh(buffer) && buffer[..] == Zeros(BUFFER_SIZE)
    {
      buffer := new byte[BUFFER_SIZE](i => NUL);
    }

    /** One round on a datagram from host: a well-formed alarm of a listed sensor is stored; the
        buffer is cleared and the datagram sent back unless a number does not parse or the sensor
        is not listed. */
    method Round(datagram: bytes, host: Host, fromClient: bool, list: SL.SensorList)
      returns (ended: bool, answer: Option<bytes>)
      requires buffer.Length == BUFFER_SIZE && list.Valid()
      modifies buffer, list
      ensures list.Valid()
      ensures var text := Overlaid(old(buffer[..]), datagram);
              var listed := host in old(list.sensors);
              && (ended <==> text[0] == 255 && fromClient)
              && (ended || !VerdictOn(text).Stores? ==>
                    list.sensors == old(list.sensors) && list.history == old(list.history))
              && (ended ==> answer.None?)
              && (!ended ==>
                    && (VerdictOn(text).Stores? ==>
                          list.Recorded(old(list.sensors), old(list.history),
                                        SL.ValuesSet(host, VerdictOn(text).current, VerdictOn(text).typical)))
                    && buffer[..] == Cleared(text, listed)
                    && answer == if EndsInException(text, listed) then None else Some(Cut(datagram, BUFFER_SIZE - 1)))
    {
      hide AlarmOf, CString, SL.Represents;
      ghost var text := Overlaid(buffer[..], datagram);
      var cut := Cut(datagram, BUFFER_SIZE - 1);
      forall i | 0 <= i < |cut| {
        buffer[i] := cut[i];
      }
      assert buffer[..] == text;
      if buffer[0] == 255 && fromClient {
        return true, None;
      }
      ended, answer := false, None;
      var verdict := VerdictOn(buffer[..]);
      match verdict {
        case Throws => return;
        case Invalid =>
        case Stores(current, typical) =>
          var ok := list.SetValues(host, current, typical);
          if !ok {
            return;
          }
      }
      answer := Some(buffer[..|cut|]);
      forall i | 0 <= i < buffer.Length {
        buffer[i] := NUL;
      }
      assert buffer[..] == Zeros(BUFFER_SIZE);
    }
  }

  // --------------------------------------------------------- honest alarms

  /** Sensors report whole numbers from 1 to 99. */
  predicate Honest(current: nat, typical: nat) { 1 <= current <= 99 && 1 <= typical <= 99 }

  function HonestText(current: nat, typical: nat): bytes { AlarmText(current * MILLION, typical * MILLION) }

  const ZERO_DIGIT: byte := '0' as int
  const SHORTEST := 53

  function ZeroDigits(n: nat): (r: bytes)
    ensures |r| == n
  {
    seq(n, i => ZERO_DIGIT)
  }

  lemma {:induction false} PaddedZero(width: nat)
    ensures Padded(0, width) == ZeroDigits(width)
  {
    if width > 0 {
      PaddedZero(width - 1);
      assert ZeroDigits(width) == ZeroDigits(width - 1) + [ZERO_DIGIT];
    }
  }

  lemma WholeText(n: nat)
    ensures ToString(n * MILLION) == Decimal(n) + [DOT] + ZeroDigits(6)
  {
    hide Print, Padded;
    PaddedZero(6);
    assert n * MILLION / MILLION == n && n * MILLION % MILLION == 0;
    assert [] + Decimal(n) == Decimal(n);
  }

  /** What lies behind the shortest alarm: up to two digits zero, then nothing. */
  ghost predicate Clean(buffer: bytes)
  {
    && |buffer| == BUFFER_SIZE
    && exists z | 0 <= z <= 2 :: buffer[SHORTEST..] == ZeroDigits(z) + Zeros(BUFFER_SIZE - SHORTEST - z)
  }

  /** An honest alarm as a head of the shortest size and up to two more digits zero. */
  lemma HonestShape(current: nat, typical: nat) returns (head: bytes, z: nat)
    requires Honest(current, typical)
    ensures |head| == SHORTEST && z <= 2 && HonestText(current, typical) == head + ZeroDigits(z)
    ensures NUL !in head
  {
    hide Print, ToString;
    WholeText(current);
    WholeText(typical);
    DecimalLength(current);
    DecimalLength(typical);
    var text := HonestText(current, typical);
    var middle := CURRENT_TAG + [SPACE] + ToString(current * MILLION) + [SPACE] + TYPICAL_TAG + [SPACE];
    var front := ALARM + [SPACE] + middle + Decimal(typical) + [DOT];
    assert text == front + ZeroDigits(6);
    z := |text| - SHORTEST;
    head := front + ZeroDigits(6 - z);
    assert ZeroDigits(6) == ZeroDigits(6 - z) + ZeroDigits(z);
    HonestTextHasNoNul(current, typical);
    assert forall i :: 0 <= i < |head| ==> head[i] == text[i];
  }

  lemma HonestTextHasNoNul(current: nat, typical: nat)
    ensures NUL !in HonestText(current, typical)
  {
    hide ToString;
    ToStringHasNoNul(current * MILLION);
    ToStringHasNoNul(typical * MILLION);
    assert NUL !in ALARM && NUL !in CURRENT_TAG && NUL !in TYPICAL_TAG;
  }

  /** An honest alarm with more characters behind it: a blank among them makes it invalid, anything
      else is read together with the last number. */
  lemma AlarmOfLongerText(current: nat, typical: nat, more: bytes)
    ensures AlarmOf(HonestText(current, typical) + more)
         == if SPACE in more then Invalid
            else match Stof(ToString(typical * MILLION) + more)
                 case None => Throws
                 case Some(t) => Stores(current as real, t)
  {
    hide Split, ToString, Stof, Print, Value;
    var c, t := ToString(current * MILLION), ToString(typical * MILLION);
    var t' := t + more;
    var rest := CURRENT_TAG + [SPACE] + c + [SPACE] + TYPICAL_TAG + [SPACE] + t';
    assert HonestText(current, typical) + more == ALARM + [SPACE] + rest;
    TagsAreWords();
    ToStringIsWord(current * MILLION);
    ToStringIsWord(typical * MILLION);
    SplitFirst(ALARM, SPACE, rest);
    SplitThree(CURRENT_TAG, c, TYPICAL_TAG, t');
    assert [ALARM] + ([CURRENT_TAG, c, TYPICAL_TAG] + Split(t', SPACE))
        == [ALARM, CURRENT_TAG, c, TYPICAL_TAG] + Split(t', SPACE);
    StofOfToString(current * MILLION, []);
    WholeInMillionths(current);
    assert c + [] == c;
    SplitOnce(t', SPACE);
  }

  /** The characters behind an honest alarm that do not change it: digits zero, and then neither a
      blank nor an exponent. */
  ghost predicate Harmless(more: bytes)
  {
    var k := DigitRun(more, 10);
    SPACE !in more && (forall i :: 0 <= i < k ==> more[i] == ZERO_DIGIT) && Exponent(more[k..]) == 0
  }

  lemma StofOfLongerText(n: nat, more: bytes)
    ensures Stof(ToString(n * MILLION) + more)
         == (var k := DigitRun(more, 10);
             var v := n as real + Value(ZeroDigits(6) + more[..k], 10) as real / Pow10(6 + k) as real;
             Some(Scaled(v, Exponent(more[k..]))))
  {
    hide Stof, Print, Value, ToString, Pow10, Scaled, Exponent, IsDigit;
    var k := DigitRun(more, 10);
    var f := ZeroDigits(6) + more[..k];
    assert IsDigit(ZERO_DIGIT, 10) by { ZeroIsDigit(); }
    StofOfFraction(n, f, more[k..]);
    WholeText(n);
    assert ToString(n * MILLION) + more == Decimal(n) + [DOT] + f + more[k..];
  }

  lemma ZeroIsDigit()
    ensures IsDigit(ZERO_DIGIT, 10)
  {}

  /** A number is its own multiple by a power of ten with a small surplus only in the plain case. */
  lemma ScaledIsSameIff(n: nat, small: real, exponent: int)
    requires n > 0 && 0.0 <= small < 1.0
    ensures Scaled(n as real + small, exponent) == n as real <==> small == 0.0 && exponent == 0
  {
    hide Scaled, Pow10;
    ScaledMoves(n as real + small, exponent);
  }

  lemma ScaledMoves(v: real, exponent: int)
    requires v >= 0.0
    ensures exponent > 0 ==> Scaled(v, exponent) >= v * 10.0
    ensures exponent == 0 ==> Scaled(v, exponent) == v
    ensures exponent < 0 ==> Scaled(v, exponent) * 10.0 <= v
  {
    hide Pow10;
    if exponent > 0 {
      TenOrMore(exponent);
      Stretched(v, Pow10(exponent) as real);
    } else if exponent < 0 {
      TenOrMore(-exponent);
      Shrunk(v, Pow10(-exponent) as real);
    } else {
      assert Pow10(0) == 1 by { OneAtZero(); }
    }
  }

  lemma OneAtZero()
    ensures Pow10(0) == 1
  {}

  lemma Stretched(v: real, p: real)
    requires p >= 10.0 && v >= 0.0
    ensures v * p >= v * 10.0
  {}

  lemma Shrunk(v: real, p: real)
    requires p >= 10.0 && v >= 0.0
    ensures v / p * 10.0 <= v
  {
    var q := v / p;
    assert q * p == v;
    Stretched(q, p);
  }

  lemma TenOrMore(n: nat)
    requires n > 0
    ensures Pow10(n) >= 10
  {}

  lemma {:induction false} ValueIsSmall(f: bytes)
    requires forall i :: 0 <= i < |f| ==> IsDigit(f[i], 10)
    ensures Value(f, 10) < Pow10(|f|)
    ensures Value(f, 10) == 0 <==> forall i :: 0 <= i < |f| ==> f[i] == ZERO_DIGIT
  {
    if f != [] {
      var init, last := f[..|f| - 1], f[|f| - 1];
      ValueIsSmall(init);
      assert Value(f, 10) == Value(init, 10) * 10 + DigitOf(last, 10).value;
      assert forall i :: 0 <= i < |init| ==> init[i] == f[i];
    }
  }

  lemma Quotient(a: nat, b: nat)
    requires a < b
    ensures 0.0 <= a as real / b as real < 1.0
    ensures a as real / b as real == 0.0 <==> a == 0
  {
    var q := a as real / b as real;
    assert q * b as real == a as real;
  }

  /** An honest alarm keeps its meaning exactly in front of harmless characters. */
  lemma AlarmOfLongerTextIff(current: nat, typical: nat, more: bytes)
    requires Honest(current, typical)
    ensures AlarmOf(HonestText(current, typical) + more) == Stores(current as real, typical as real) <==> Harmless(more)
  {
    hide AlarmOf, Stof, Value, Pow10, Scaled, Exponent, IsDigit;
    AlarmOfLongerText(current, typical, more);
    StofOfLongerText(typical, more);
    var k := DigitRun(more, 10);
    var f := ZeroDigits(6) + more[..k];
    ZeroIsDigit();
    ValueIsSmall(f);
    assert (forall i :: 0 <= i < |f| ==> f[i] == ZERO_DIGIT) <==> forall i :: 0 <= i < k ==> more[i] == ZERO_DIGIT by {
      assert forall i :: 0 <= i < k ==> f[i + 6] == more[i];
      assert forall i :: 6 <= i < |f| ==> f[i] == more[i - 6];
    }
    Quotient(Value(f, 10), Pow10(|f|));
    ScaledIsSameIff(typical, Value(f, 10) as real / Pow10(|f|) as real, Exponent(more[k..]));
  }

  lemma ZerosAreHarmless(k: nat)
    ensures Harmless(ZeroDigits(k))
  {
    var more := ZeroDigits(k);
    assert more[DigitRun(more, 10)..] == [] by {
      ZeroIsDigit();
      DigitRunIs(more, 10, k);
    }
  }

  lemma CStringOfText(text: bytes, rest: bytes)
    requires NUL !in text && (rest != [] ==> rest[0] == NUL)
    ensures CString(text + rest) == text
  {
    hide Find;
    CStringOfParts(text, rest);
    assert CString(rest) == [];
    assert text + [] == text;
  }

  function Max(a: nat, b: nat): nat { if a > b then a else b }

  /** An honest alarm read over the rest of earlier honest alarms: the pair is its own, and what
      is left for the next round is again clean. */
  lemma HonestRound(buffer: bytes, current: nat, typical: nat)
    requires Clean(buffer) && Honest(current, typical)
    ensures VerdictOn(Overlaid(buffer, HonestText(current, typical))) == Stores(current as real, typical as real)
    ensures Clean(Overlaid(buffer, HonestText(current, typical)))
    ensures Overlaid(buffer, HonestText(current, typical))[0] != 255
  {
    hide AlarmOf, CString, Harmless;
    var z :| 0 <= z <= 2 && buffer[SHORTEST..] == ZeroDigits(z) + Zeros(BUFFER_SIZE - SHORTEST - z);
    var head, y := HonestShape(current, typical);
    var text := HonestText(current, typical);
    var w := Max(y, z);
    var overlaid := Overlaid(buffer, text);
    OverlaidTail(buffer, head, y, z);
    var rest := Zeros(BUFFER_SIZE - SHORTEST - w);
    assert overlaid[SHORTEST..] == ZeroDigits(w) + rest && overlaid[..SHORTEST] == head;
    assert overlaid == (head + ZeroDigits(w)) + rest;
    CStringOfText(head + ZeroDigits(w), rest);
    assert head + ZeroDigits(w) == text + ZeroDigits(w - y);
    ZerosAreHarmless(w - y);
    AlarmOfLongerTextIff(current, typical, ZeroDigits(w - y));
    assert overlaid[0] == text[0] == ALARM[0];
  }

  lemma OverlaidTail(buffer: bytes, head: bytes, y: nat, z: nat)
    requires |buffer| == BUFFER_SIZE && |head| == SHORTEST && y <= 2 && z <= 2
    requires buffer[SHORTEST..] == ZeroDigits(z) + Zeros(BUFFER_SIZE - SHORTEST - z)
    ensures var overlaid := Overlaid(buffer, head + ZeroDigits(y));
            overlaid[..SHORTEST] == head
            && overlaid[SHORTEST..] == ZeroDigits(Max(y, z)) + Zeros(BUFFER_SIZE - SHORTEST - Max(y, z))
  {
    var overlaid := Overlaid(buffer, head + ZeroDigits(y));
    var tail := buffer[SHORTEST..];
    assert buffer[SHORTEST + y..] == tail[y..];
    assert overlaid == head + (ZeroDigits(y) + tail[y..]);
    assert ZeroDigits(y) + tail[y..] == ZeroDigits(Max(y, z)) + Zeros(BUFFER_SIZE - SHORTEST - Max(y, z));
  }

  // ------------------------------------------------------------------- runs

  /** A datagram as it arrived, and whether its sender was listed then. */
  datatype Arrival = Arrival(datagram: bytes, listed: bool)

  /** The buffer after rounds on the given datagrams, none of which ended the server. */
  function BufferAfter(arrivals: seq<Arrival>): (r: bytes)
    ensures |r| == BUFFER_SIZE
  {
    if arrivals == [] then Zeros(BUFFER_SIZE)
    else
      var last := arrivals[|arrivals| - 1];
      Cleared(Overlaid(BufferAfter(arrivals[..|arrivals| - 1]), last.datagram), last.listed)
  }

  /** The text that a round reads is what was received followed by what the buffer holds behind it,
      unless a NUL was received. */
  lemma TextOfRound(buffer: bytes, datagram: bytes)
    requires |buffer| == BUFFER_SIZE
    ensures var cut := Cut(datagram, BUFFER_SIZE - 1);
            CString(Overlaid(buffer, datagram)) == if NUL in cut then CString(cut) else cut + CString(buffer[|cut|..])
  {
    hide CString;
    var cut := Cut(datagram, BUFFER_SIZE - 1);
    CStringOfParts(cut, buffer[|cut|..]);
  }

  /** A datagram is read as it was sent if and only if it holds a NUL or the buffer has one right behind it. */
  lemma ReadAsSentIff(buffer: bytes, datagram: bytes)
    requires |buffer| == BUFFER_SIZE
    ensures var cut := Cut(datagram, BUFFER_SIZE - 1);
            CString(Overlaid(buffer, datagram)) == CString(cut) <==> NUL in cut || buffer[|cut|] == NUL
  {
    hide Find;
    TextOfRound(buffer, datagram);
    var cut := Cut(datagram, BUFFER_SIZE - 1);
    var rest := buffer[|cut|..];
    assert rest[0] == buffer[|cut|];
    assert CString(rest) == [] <==> rest[0] == NUL;
    assert |cut + CString(rest)| == |cut| <==> CString(rest) == [];
  }

  /** What an earlier datagram left at a position of the buffer: the last one that reached so far,
      since the last round that cleared it. */
  function LeftAt(arrivals: seq<Arrival>, position: nat): byte
  {
    if arrivals == [] then NUL
    else
      var before, last := arrivals[..|arrivals| - 1], arrivals[|arrivals| - 1];
      var cut := Cut(last.datagram, BUFFER_SIZE - 1);
      if !EndsInException(Overlaid(BufferAfter(before), last.datagram), last.listed) then NUL
      else if position < |cut| then cut[position]
      else LeftAt(before, position)
  }

  lemma {:induction false} LeftInBuffer(arrivals: seq<Arrival>, position: nat)
    requires position < BUFFER_SIZE
    ensures BufferAfter(arrivals)[position] == LeftAt(arrivals, position)
  {
    hide VerdictOn, EndsInException;
    if arrivals != [] {
      LeftInBuffer(arrivals[..|arrivals| - 1], position);
    }
  }

  /** Over whole runs of any datagrams from any hosts: the next one is read as it was sent if and only
      if it holds a NUL or no earlier one left a byte right behind its end. */
  lemma ReadAsSentAfterIff(arrivals: seq<Arrival>, datagram: bytes)
    ensures var cut := Cut(datagram, BUFFER_SIZE - 1);
            CString(Overlaid(BufferAfter(arrivals), datagram)) == CString(cut)
            <==> NUL in cut || LeftAt(arrivals, |cut|) == NUL
  {
    hide CString, BufferAfter, LeftAt;
    ReadAsSentIff(BufferAfter(arrivals), datagram);
    LeftInBuffer(arrivals, |Cut(datagram, BUFFER_SIZE - 1)|);
  }

  /** Over whole runs: an honest alarm is stored as its own pair if and only if what lies behind it in
      the buffer is harmless. */
  lemma HonestAlarmIsReadWholeIff(arrivals: seq<Arrival>, current: nat, typical: nat)
    requires Honest(current, typical)
    ensures var text := HonestText(current, typical);
            |text| < BUFFER_SIZE
            && (VerdictOn(Overlaid(BufferAfter(arrivals), text)) == Stores(current as real, typical as real)
                <==> Harmless(CString(BufferAfter(arrivals)[|text|..])))
  {
    hide AlarmOf, CString, Harmless, BufferAfter, HonestText;
    HonestTextFits(current, typical);
    HonestTextHasNoNul(current, typical);
    TextOfRound(BufferAfter(arrivals), HonestText(current, typical));
    AlarmOfLongerTextIff(current, typical, CString(BufferAfter(arrivals)[|HonestText(current, typical)|..]));
  }

  lemma HonestTextFits(current: nat, typical: nat)
    requires Honest(current, typical)
    ensures SHORTEST <= |HonestText(current, typical)| <= SHORTEST + 2
  {
    hide HonestText;
    var head, z := HonestShape(current, typical);
  }

  const E_ONE: bytes := Ascii("e1")

  /** A host that is not listed sends an honest alarm with "e1" behind it; the next honest alarm with the same
      pair, from a listed sensor, is then stored with ten times the typical value, which is a float too. */
  lemma AlarmIsHarmed(current: nat, typical: nat)
    requires Honest(current, typical)
    ensures VerdictOn(Overlaid(BufferAfter([Arrival(HonestText(current, typical) + E_ONE, false)]),
                               HonestText(current, typical)))
         == Stores(current as real, 10.0 * typical as real)
  {
    hide AlarmOf, CString, BufferAfter, HonestText, Stof;
    var text := HonestText(current, typical);
    var longer := text + E_ONE;
    HonestTextFits(current, typical);
    HonestTextHasNoNul(current, typical);
    var overlaid := Overlaid(Zeros(BUFFER_SIZE), longer);
    var rest := Zeros(BUFFER_SIZE - |longer|);
    assert Zeros(BUFFER_SIZE)[|longer|..] == rest;
    assert overlaid == longer + rest;
    CStringOfText(longer, rest);
    LongerAlarm(current, typical);
    assert BufferAfter([Arrival(longer, false)]) == overlaid by { FirstRound(longer); }
    assert Overlaid(overlaid, text) == overlaid;
  }

  lemma LongerAlarm(current: nat, typical: nat)
    ensures AlarmOf(HonestText(current, typical) + E_ONE) == Stores(current as real, 10.0 * typical as real)
  {
    hide AlarmOf, HonestText, Stof, Scaled, Exponent;
    AlarmOfLongerText(current, typical, E_ONE);
    StofOfToString(typical * MILLION, E_ONE);
    WholeInMillionths(typical);
    TenTimes(typical as real);
  }

  lemma TenTimes(v: real)
    ensures Exponent(E_ONE) == 1 && Scaled(v, 1) == 10.0 * v
  {
    assert Pow10(1) == 10;
    var one := E_ONE[1..];
    assert one == Ascii("1") && SkipSign(one) == one && DigitRun(one, 10) == 1;
    assert one[..1] == one && Value(one, 10) == 1;
  }

  lemma FirstRound(datagram: bytes)
    requires EndsInException(Overlaid(Zeros(BUFFER_SIZE), datagram), false)
    ensures BufferAfter([Arrival(datagram, false)]) == Overlaid(Zeros(BUFFER_SIZE), datagram)
  {
    hide EndsInException;
    var arrivals := [Arrival(datagram, false)];
    assert arrivals[..0] == [];
    assert BufferAfter([]) == Zeros(BUFFER_SIZE);
  }

  ghost predicate IsHonest(a: Arrival)
  {
    exists current, typical :: Honest(current, typical) && a.datagram == HonestText(current, typical)
  }

  /** After any run in which all datagrams are honest alarms, from listed sensors or not, the next one
      is read whole. */
  lemma {:induction false} HonestAlarmsAreReadWhole(arrivals: seq<Arrival>, current: nat, typical: nat)
    requires forall a :: a in arrivals ==> IsHonest(a)
    requires Honest(current, typical)
    ensures VerdictOn(Overlaid(BufferAfter(arrivals), HonestText(current, typical)))
         == Stores(current as real, typical as real)
  {
    hide VerdictOn, HonestText, BufferAfter, IsHonest;
    BufferStaysClean(arrivals);
    HonestRound(BufferAfter(arrivals), current, typical);
  }

  lemma ZerosAreClean()
    ensures Clean(Zeros(BUFFER_SIZE))
  {
    assert Zeros(BUFFER_SIZE)[SHORTEST..] == ZeroDigits(0) + Zeros(BUFFER_SIZE - SHORTEST - 0);
  }

  lemma {:induction false} BufferStaysClean(arrivals: seq<Arrival>)
    requires forall a :: a in arrivals ==> IsHonest(a)
    ensures Clean(BufferAfter(arrivals))
  {
    hide VerdictOn, HonestText, Clean;
    ZerosAreClean();
    if arrivals != [] {
      var before, last := arrivals[..|arrivals| - 1], arrivals[|arrivals| - 1];
      BufferStaysClean(before);
      assert IsHonest(last);
      var current, typical :| Honest(current, typical) && last.datagram == HonestText(current, typical);
      HonestRound(BufferAfter(before), current, typical);
    }
  }
}

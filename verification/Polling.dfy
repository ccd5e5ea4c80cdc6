/** The polling thread of central: who is asked when, and how soon a silent sensor is noticed. */
module Polling {
  import opened Bytes
  import opened Addresses
  import opened Communicator
  import SL = SensorList

  /** What the polling port received within the timeout, if anything. */
  type Heard = Option<(byte, Address)>

  const STOP: byte := 255

  datatype Outcome = Finished | Stopped | Thrown

  function Timeout(loopTime: nat, count: nat): nat
  {
    if count == 0 then loopTime * 1000 else loopTime * 1000 / count
  }

  predicate IsStop(heard: Heard, clientPort: int)
  {
    heard.Some? && heard.value.0 == STOP && IsLoopback(heard.value.1, clientPort)
  }

  /** What questions change: the list of sensors, the client's map of callbacks, and what was sent. */
  datatype Central = Central(sensors: SL.Sensors, callbacks: Callbacks, sent: seq<Question>)

  /** Central after a question for values. */
  function Asked(c: Central, host: Host, now: int, maxAnswerTime: int, sendOk: bool): Central
  {
    var e := AskEffects(c.sensors, c.callbacks, host, now, maxAnswerTime, sendOk);
    Central(Performed(c.sensors, e.events), e.callbacks, c.sent + if e.sent.Some? then [e.sent.value] else [])
  }

  /** The question throws: the address is not listed, or a question is due and cannot be sent. */
  predicate AskThrows(c: Central, host: Host, now: int, maxAnswerTime: int, sendOk: bool)
  {
    host !in c.sensors || (now - c.sensors[host].lastValueQuestion >= maxAnswerTime && !sendOk)
  }

  /** Central after the addresses were asked, one at each of the given seconds. */
  function AllAsked(c: Central, order: seq<Host>, seconds: seq<int>, maxAnswerTime: int): Central
    requires |order| <= |seconds|
  {
    if order == [] then c
    else
      var k := |order| - 1;
      Asked(AllAsked(c, order[..k], seconds, maxAnswerTime), order[k], seconds[k], maxAnswerTime, true)
  }

  lemma AllAskedNext(c: Central, order: seq<Host>, seconds: seq<int>, maxAnswerTime: int, k: nat)
    requires k < |order| <= |seconds|
    ensures AllAsked(c, order[..k + 1], seconds, maxAnswerTime)
         == Asked(AllAsked(c, order[..k], seconds, maxAnswerTime), order[k], seconds[k], maxAnswerTime, true)
  {
    assert order[..k + 1][..k] == order[..k];
  }

  class Poller {
    const communicator: Communicator
    const loopTime: nat
    const clientPort: int
    var timeout: nat

    constructor (communicator: Communicator, loopTime: nat, clientPort: int)
      ensures this.communicator == communicator && this.loopTime == loopTime && this.clientPort == clientPort
    {
      this.communicator, this.loopTime, this.clientPort, timeout := communicator, loopTime, clientPort, 0;
    }

    function Now(): Central
      reads communicator, communicator.list
    {
      Central(communicator.list.sensors, communicator.callbacks, communicator.sent)
    }

    /** One cycle over the addresses: the questions asked, the timeout set before them, and how the cycle
        ended. seconds and sends are the clock and the fate of a send at each turn, heard is what receive
        gave; without addresses there is one receive and no question. */
    method Cycle(order: seq<Host>, seconds: seq<int>, sends: seq<bool>, heard: seq<Heard>)
      returns (outcome: Outcome, asked: nat)
      requires |order| == |seconds| == |sends| && |heard| == (if order == [] then 1 else |order|)
      requires communicator.list.Valid()
      modifies this, communicator, communicator.list
      ensures communicator.list.Valid() && timeout == Timeout(loopTime, |order|) && asked <= |order|
      ensures Now() == AllAsked(old(Now()), order[..asked], seconds, communicator.maxAnswerTime)
      ensures forall i :: 0 <= i < asked - 1 ==> !IsStop(heard[i], clientPort)
      ensures match outcome
              case Finished => asked == |order| && !IsStop(heard[|heard| - 1], clientPort)
              case Stopped => if order == [] then IsStop(heard[0], clientPort)
                              else asked > 0 && IsStop(heard[asked - 1], clientPort)
              case Thrown =>
                && asked < |order| && (asked > 0 ==> !IsStop(heard[asked - 1], clientPort))
                && AskThrows(Now(), order[asked], seconds[asked], communicator.maxAnswerTime, sends[asked])
    {
      hide SL.Represents, AllAsked, IsStop, AskEffects, Performed, AskThrows;
      ghost var before := Now();
      asked := 0;
      AllAskedNone(before, seconds, communicator.maxAnswerTime);
      assert order[..0] == [];
      if order == [] {
        timeout := loopTime * 1000;
        outcome := if IsStop(heard[0], clientPort) then Stopped else Finished;
        return;
      }
      timeout := loopTime * 1000 / |order|;
      while asked < |order|
        invariant asked <= |order| && communicator.list.Valid() && timeout == loopTime * 1000 / |order|
        invariant Now() == AllAsked(before, order[..asked], seconds, communicator.maxAnswerTime)
        invariant forall i :: 0 <= i < asked ==> !IsStop(heard[i], clientPort)
      {
        ghost var c := Now();
        var r := communicator.AskForValues(order[asked], seconds[asked], sends[asked]);
        AskedCases(c, order[asked], seconds[asked], communicator.maxAnswerTime, sends[asked]);
        if r == UnknownSensor || r == SendFailed {
          return Thrown, asked;
        }
        AllAskedNext(before, order, seconds, communicator.maxAnswerTime, asked);
        asked := asked + 1;
        if IsStop(heard[asked - 1], clientPort) {
          return Stopped, asked;
        }
      }
      outcome := Finished;
    }
  }

  lemma AllAskedNone(c: Central, seconds: seq<int>, maxAnswerTime: int)
    ensures AllAsked(c, [], seconds, maxAnswerTime) == c
  {}

  /** A question that throws changes nothing; any other is as if its send would do. */
  lemma AskedCases(c: Central, host: Host, now: int, maxAnswerTime: int, sendOk: bool)
    ensures var r := AskEffects(c.sensors, c.callbacks, host, now, maxAnswerTime, sendOk).result;
            r == UnknownSensor || r == SendFailed <==> AskThrows(c, host, now, maxAnswerTime, sendOk)
    ensures Asked(c, host, now, maxAnswerTime, sendOk)
         == if AskThrows(c, host, now, maxAnswerTime, sendOk) then c else Asked(c, host, now, maxAnswerTime, true)
  {}

  // ------------------------------------------------------------------- time

  /** The polling of a fixed list of addresses, with the time in milliseconds. */
  datatype Config = Config(loopTime: nat, maxAnswerTime: nat, order: seq<Host>)
  {
    predicate Sane() { maxAnswerTime > 0 && order != [] }

    function Slot(): nat { Timeout(loopTime, |order|) }

    /** How long after its last answer a sensor may at most still be reported CORRECT, in seconds. */
    function Bound(): int { loopTime + 2 * maxAnswerTime - 1 }
  }

  /** next is the turn that comes next, and wake the time at which receive gives up waiting for it. */
  datatype State = State(sensors: SL.Sensors, next: nat, wake: int, now: int)

  /** Polling is done in turns; Other is any other question of central and any answer of a sensor. */
  datatype Action =
    | Wait(to: int)
    | Poll
    | Other(e: SL.Event)

  function Second(time: int): int { time / 1000 }

  predicate Enabled(c: Config, s: State, a: Action)
  {
    match a
    // a timeout of zero makes receive wait without end
    case Wait(to) => s.now <= to && (c.Slot() > 0 ==> to <= s.wake)
    case Poll => true
    case Other(e) => !e.Added? && !e.Erased? && (e.IsQuestion() ==> SL.TimeOf(e) == Second(s.now))
  }

  predicate Sound(c: Config, s: State)
  {
    && s.next < |c.order|
    && (c.Slot() > 0 ==> s.now <= s.wake <= s.now + c.Slot())
    && (forall i :: 0 <= i < |c.order| ==> c.order[i] in s.sensors)
    && (forall host :: host in s.sensors ==> s.sensors[host].lastValueQuestion <= Second(s.now))
  }

  function Next(c: Config, s: State, a: Action): State
    requires s.next < |c.order|
  {
    match a
    case Wait(to) => s.(now := to)
    case Poll =>
      s.(sensors := Polled(s.sensors, c.order[s.next], Second(s.now), c.maxAnswerTime),
         next := if s.next + 1 < |c.order| then s.next + 1 else 0,
         wake := s.now + c.Slot())
    case Other(e) => s.(sensors := SL.Applied(s.sensors, e))
  }

  lemma SoundKept(c: Config, s: State, a: Action)
    requires Sound(c, s) && Enabled(c, s, a)
    ensures Sound(c, Next(c, s, a))
  {
    hide Timeout;
    if a.Poll? {
      PolledCases(s.sensors, c.order[s.next], Second(s.now), c.maxAnswerTime);
    }
  }

  /** The list after the question of a turn. */
  function Polled(sensors: SL.Sensors, host: Host, now: int, maxAnswerTime: int): SL.Sensors
  {
    Asked(Central(sensors, map[], []), host, now, maxAnswerTime, true).sensors
  }

  /** What the list becomes does not depend on the callbacks and on what was sent. */
  lemma PolledIsAsked(c: Central, host: Host, now: int, maxAnswerTime: int)
    ensures Asked(c, host, now, maxAnswerTime, true).sensors == Polled(c.sensors, host, now, maxAnswerTime)
  {}

  lemma PolledCases(sensors: SL.Sensors, host: Host, now: int, maxAnswerTime: int)
    requires host in sensors
    ensures Polled(sensors, host, now, maxAnswerTime)
         == if now - sensors[host].lastValueQuestion < maxAnswerTime then sensors
            else SL.Applied(sensors, SL.ValueAsked(host, now))
  {
    PerformedOne(sensors, SL.ValueAsked(host, now));
  }

  function Final(c: Config, s: State, actions: seq<Action>): State
    requires s.next < |c.order|
    decreases |actions|
  {
    if actions == [] then s else Final(c, Next(c, s, actions[0]), actions[1..])
  }

  predicate Legal(c: Config, s: State, actions: seq<Action>)
    requires s.next < |c.order|
    decreases |actions|
  {
    actions == [] || (Enabled(c, s, actions[0]) && Legal(c, Next(c, s, actions[0]), actions[1..]))
  }

  predicate Silent(host: Host, actions: seq<Action>)
  {
    forall k :: 0 <= k < |actions| && actions[k].Other? ==> !(actions[k].e.IsAnswer() && actions[k].e.host == host)
  }

  function StatusOf(c: Config, s: State, host: Host): SL.Status
    requires host in s.sensors
  {
    SL.StateOf(s.sensors[host], Second(s.now), c.maxAnswerTime).status
  }

  // ------------------------------------------------------------ the invariant

  /** How many turns come before the next turn of position i. */
  function TurnsBefore(c: Config, s: State, i: nat): int
  {
    if i >= s.next then i - s.next else i - s.next + |c.order|
  }

  /** The latest time of the next turn of position i. */
  function Due(c: Config, s: State, i: nat): int
  {
    s.wake + TurnsBefore(c, s, i) * c.Slot()
  }

  /** The sensor in position i is silent since second a: either a question was asked in time, or its
      turn comes in time and is not skipped for a question later than a. */
  predicate Watched(c: Config, s: State, i: nat, a: int)
    requires i < |c.order| && c.order[i] in s.sensors
  {
    var info := s.sensors[c.order[i]];
    var latest := a + c.loopTime + c.maxAnswerTime - 1;
    if info.flag then info.timeSettingFlag <= latest
    else info.lastValueQuestion <= a && Second(Due(c, s, i)) <= latest
  }

  lemma SlotsFit(loopTime: nat, count: nat)
    requires count > 0
    ensures count * Timeout(loopTime, count) <= loopTime * 1000
    ensures loopTime * 1000 < count * (Timeout(loopTime, count) + 1)
    ensures Timeout(loopTime, count) > 0 <==> count <= loopTime * 1000
  {
    var total := loopTime * 1000;
    var slot := total / count;
    assert total == slot * count + total % count;
    NextMultiple(total, count);
    if slot == 0 {
      assert total == total % count;
    } else {
      assert slot * count >= count;
    }
  }

  lemma NextMultiple(total: nat, count: nat)
    requires count > 0
    ensures total < count * (total / count + 1)
  {
    var slot := total / count;
    assert total == slot * count + total % count;
    assert count * (slot + 1) == slot * count + count;
  }

  lemma DueInOneRound(c: Config, s: State, i: nat)
    requires Sound(c, s) && c.Slot() > 0 && i < |c.order|
    ensures s.now <= s.wake <= Due(c, s, i) <= s.now + c.loopTime * 1000
  {
    hide Timeout;
    SlotsFit(c.loopTime, |c.order|);
    TurnsFit(TurnsBefore(c, s, i), |c.order|, c.Slot());
  }

  /** What may happen at any time: a turn, since receive may return early, any other question of this second, any
      answer; and waiting up to the timeout, or without end when that is zero. */
  lemma EnabledIff(c: Config, s: State, host: Host, to: int, current: real, typical: real)
    requires c.order != []
    ensures Enabled(c, s, Poll)
    ensures Enabled(c, s, Other(SL.ValueAsked(host, s.now / 1000)))
    ensures Enabled(c, s, Other(SL.ThresholdAsked(host, s.now / 1000)))
    ensures Enabled(c, s, Other(SL.ValuesSet(host, current, typical)))
    ensures Enabled(c, s, Other(SL.ThresholdSet(host, current)))
    ensures Enabled(c, s, Wait(to)) <==> s.now <= to && (|c.order| > c.loopTime * 1000 || to <= s.wake)
  {
    SlotsFit(c.loopTime, |c.order|);
  }

  /** Without sensors the one receive of a cycle waits for the whole loop time. */
  lemma EmptyCycle(loopTime: nat)
    ensures Timeout(loopTime, 0) == loopTime * 1000
    ensures loopTime > 0 ==> Timeout(loopTime, 0) > 0
  {}

  lemma TurnsFit(turns: nat, count: nat, slot: nat)
    requires turns < count
    ensures 0 <= turns * slot <= count * slot - slot
  {
    assert (count - 1) * slot == count * slot - slot;
    assert 0 <= turns * slot <= (count - 1) * slot;
  }

  lemma DueAfterPoll(c: Config, s: State, i: nat)
    requires Sound(c, s) && c.Slot() > 0 && i < |c.order|
    ensures s.next != i ==> Due(c, Next(c, s, Poll), i) <= Due(c, s, i)
  {
    hide Timeout, Polled;
    var slot, turns := c.Slot(), TurnsBefore(c, s, i);
    if s.next != i {
      assert TurnsBefore(c, Next(c, s, Poll), i) == turns - 1;
      assert (turns - 1) * slot + slot == turns * slot;
    }
  }

  lemma WatchedFromAnswer(c: Config, s: State, e: SL.Event, i: nat)
    requires c.Sane() && Sound(c, s) && c.Slot() > 0 && i < |c.order| && e.IsAnswer() && e.host == c.order[i]
    ensures Watched(c, Next(c, s, Other(e)), i, Second(s.now))
  {
    hide Timeout;
    DueInOneRound(c, s, i);
  }

  lemma WatchedKept(c: Config, s: State, a: Action, i: nat, since: int)
    requires c.Sane() && Sound(c, s) && c.Slot() > 0 && i < |c.order| && Enabled(c, s, a) && Silent(c.order[i], [a])
    requires Watched(c, s, i, since)
    ensures Sound(c, Next(c, s, a)) && Watched(c, Next(c, s, a), i, since)
  {
    hide Timeout, Polled, Due;
    SoundKept(c, s, a);
    DueInOneRound(c, s, i);
    match a
    case Wait(to) => DueOfWait(c, s, to, i);
    case Poll =>
      PolledCases(s.sensors, c.order[s.next], Second(s.now), c.maxAnswerTime);
      DueAfterPoll(c, s, i);
      DueInOneRound(c, Next(c, s, a), i);
    case Other(e) => assert [a][0].Other?; DueOfOther(c, s, e, i);
  }

  lemma DueOfWait(c: Config, s: State, to: int, i: nat)
    requires s.next < |c.order|
    ensures Due(c, Next(c, s, Wait(to)), i) == Due(c, s, i)
  {}

  lemma DueOfOther(c: Config, s: State, e: SL.Event, i: nat)
    requires s.next < |c.order|
    ensures Due(c, Next(c, s, Other(e)), i) == Due(c, s, i)
  {}

  lemma {:induction false} WatchedThroughout(c: Config, s: State, actions: seq<Action>, i: nat, since: int)
    requires c.Sane() && Sound(c, s) && c.Slot() > 0 && i < |c.order|
    requires Legal(c, s, actions) && Silent(c.order[i], actions) && Watched(c, s, i, since)
    ensures Sound(c, Final(c, s, actions)) && Watched(c, Final(c, s, actions), i, since)
    decreases |actions|
  {
    hide Timeout, Watched, Enabled;
    if actions != [] {
      assert Silent(c.order[i], [actions[0]]);
      assert Silent(c.order[i], actions[1..]);
      WatchedKept(c, s, actions[0], i, since);
      WatchedThroughout(c, Next(c, s, actions[0]), actions[1..], i, since);
    }
  }

  lemma WatchedIsReported(c: Config, s: State, i: nat, since: int)
    requires c.Sane() && Sound(c, s) && c.Slot() > 0 && i < |c.order| && Watched(c, s, i, since)
    requires Second(s.now) >= since + c.Bound()
    ensures StatusOf(c, s, c.order[i]) == SL.NoCommunication
  {
    hide Timeout, Due;
    DueInOneRound(c, s, i);
  }

  // ------------------------------------------------------------- main results

  /** Whatever else is asked, a sensor that answers no more is reported as lost from Bound() seconds
      after the second of its last answer on. */
  ghost predicate NoticesSilence(c: Config)
  {
    forall s, e, i, actions ::
      Sound(c, s) && 0 <= i < |c.order| && SilentRun(c, s, e, i, actions)
      && Second(Final(c, Next(c, s, Other(e)), actions).now) >= Second(s.now) + c.Bound()
      ==> ReportedLost(c, Final(c, Next(c, s, Other(e)), actions), c.order[i])
  }

  /** The sensor in position i answers with e, and then a run without its answers follows. */
  predicate SilentRun(c: Config, s: State, e: SL.Event, i: nat, actions: seq<Action>)
    requires i < |c.order| && Sound(c, s)
  {
    && e.IsAnswer() && e.host == c.order[i]
    && Legal(c, Next(c, s, Other(e)), actions) && Silent(c.order[i], actions)
  }

  predicate ReportedLost(c: Config, s: State, host: Host)
  {
    host in s.sensors && StatusOf(c, s, host) == SL.NoCommunication
  }

  lemma SilenceIsNoticed(c: Config, s: State, e: SL.Event, i: nat, actions: seq<Action>)
    requires c.Sane() && |c.order| <= c.loopTime * 1000
    requires Sound(c, s) && i < |c.order| && SilentRun(c, s, e, i, actions)
    requires Second(Final(c, Next(c, s, Other(e)), actions).now) >= Second(s.now) + c.Bound()
    ensures ReportedLost(c, Final(c, Next(c, s, Other(e)), actions), c.order[i])
  {
    hide Timeout, Watched, Legal, Final;
    SlotsFit(c.loopTime, |c.order|);
    WatchedFromAnswer(c, s, e, i);
    SoundKept(c, s, Other(e));
    WatchedThroughout(c, Next(c, s, Other(e)), actions, i, Second(s.now));
    WatchedIsReported(c, Final(c, Next(c, s, Other(e)), actions), i, Second(s.now));
  }

  /** With more than loopTime * 1000 sensors the timeout is rounded down to zero, which stands for no
      timeout at all: the polling stops at any turn, and a sensor may then be CORRECT for ever. */
  lemma StuckForEver(c: Config, time: nat)
    requires c.Sane() && |c.order| > c.loopTime * 1000
    ensures var s := Started(c);
            var e := SL.ValuesSet(c.order[0], 0.0, 0.0);
            && Sound(c, s) && SilentRun(c, s, e, 0, [Wait(time)])
            && Final(c, Next(c, s, Other(e)), [Wait(time)]).now == time
            && !ReportedLost(c, Final(c, Next(c, s, Other(e)), [Wait(time)]), c.order[0])
  {
    hide Timeout;
    SlotsFit(c.loopTime, |c.order|);
    var s := Started(c);
    var e := SL.ValuesSet(c.order[0], 0.0, 0.0);
    var t := Next(c, s, Other(e));
    assert [Wait(time)][1..] == [];
    assert Legal(c, t, [Wait(time)]);
    assert Final(c, t, [Wait(time)]) == Next(c, t, Wait(time));
  }

  function Started(c: Config): State
  {
    State(map host | host in c.order :: SL.NEW, 0, c.Slot(), 0)
  }

  /** Silence is always noticed within the bound exactly when there are at most loopTime * 1000 sensors. */
  lemma NoticesSilenceIff(c: Config)
    requires c.Sane()
    ensures NoticesSilence(c) <==> |c.order| <= c.loopTime * 1000
  {
    hide Final, SilentRun, ReportedLost, Started, Timeout;
    if |c.order| <= c.loopTime * 1000 {
      forall s, e, i, actions |
        Sound(c, s) && 0 <= i < |c.order| && SilentRun(c, s, e, i, actions)
        && Second(Final(c, Next(c, s, Other(e)), actions).now) >= Second(s.now) + c.Bound()
        ensures ReportedLost(c, Final(c, Next(c, s, Other(e)), actions), c.order[i])
      {
        SilenceIsNoticed(c, s, e, i, actions);
      }
    } else {
      StuckForEver(c, c.Bound() * 1000);
      StartedNow(c);
    }
  }

  lemma StartedNow(c: Config)
    ensures Started(c).now == 0
  {}

  /** The bound is the best one: with a timeout of at least maxAnswerTime, a single sensor whose turn
      was skipped in the last moment may still be CORRECT in the second before. */
  lemma BoundIsTight(c: Config)
    requires c.Sane() && |c.order| == 1 && c.maxAnswerTime <= c.loopTime
    ensures exists s, e, actions :: Sound(c, s) && SilentRun(c, s, e, 0, actions)
              && Second(Final(c, Next(c, s, Other(e)), actions).now) == Second(s.now) + c.Bound() - 1
              && !ReportedLost(c, Final(c, Next(c, s, Other(e)), actions), c.order[0])
  {
    hide Final, Legal, Polled;
    var host, skipped := c.order[0], 1000 * c.maxAnswerTime - 1;
    var asked, end := skipped + 1000 * c.loopTime, 1000 * c.Bound() - 1;
    var s := State(map[host := SL.NEW], 0, skipped, 0);
    var e := SL.ValuesSet(host, 0.0, 0.0);
    var s0 := Next(c, s, Other(e));
    var s1 := Next(c, s0, Wait(skipped));
    PolledCases(s1.sensors, host, Second(skipped), c.maxAnswerTime);
    var s2 := Next(c, s1, Poll);
    var s3 := Next(c, s2, Wait(asked));
    PolledCases(s3.sensors, host, Second(asked), c.maxAnswerTime);
    var s4 := Next(c, s3, Poll);
    var r4 := [Wait(end)] + [];
    var r3 := [Poll] + r4;
    var r2 := [Wait(asked)] + r3;
    var r1 := [Poll] + r2;
    var actions := [Wait(skipped)] + r1;
    EmptyRun(c, Next(c, s4, Wait(end)));
    RunOfOne(c, s4, Wait(end), []);
    RunOfOne(c, s3, Poll, r4);
    RunOfOne(c, s2, Wait(asked), r3);
    RunOfOne(c, s1, Poll, r2);
    RunOfOne(c, s0, Wait(skipped), r1);
    assert SilentRun(c, s, e, 0, actions);
  }

  lemma EmptyRun(c: Config, s: State)
    requires s.next < |c.order|
    ensures Final(c, s, []) == s && Legal(c, s, [])
  {}

  lemma RunOfOne(c: Config, s: State, a: Action, rest: seq<Action>)
    requires s.next < |c.order| && Enabled(c, s, a)
    ensures Final(c, s, [a] + rest) == Final(c, Next(c, s, a), rest)
    ensures Legal(c, s, [a] + rest) <==> Legal(c, Next(c, s, a), rest)
  {
    assert ([a] + rest)[1..] == rest;
  }
}

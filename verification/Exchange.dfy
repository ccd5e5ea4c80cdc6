/** Central, its sensors and the network between them, over whole runs. Datagrams may be lost,
    duplicated and reordered; the clock never goes backwards; each call of the Communicator is one
    step. */
module Exchange {
  import opened Bytes
  import opened Addresses
  import opened Numerals
  import opened Texts
  import opened Communicator
  import SL = SensorList
  import Alarms
  import Window

  const CENTRAL: Host := "central"
  const ALARM_PORT := 7500
  const SENSOR_ALARM_PORT := 6000

  datatype Datagram = Datagram(from: Address, to: Address, content: Content)

  /** What was said, in millionths: a pair that a sensor printed, a threshold that a sensor was asked to take. */
  datatype Report = Pair(host: Host, current: nat, typical: nat) | Requested(host: Host, threshold: nat)

  /** network is everything ever sent. The last four fields are history: the calls on the list, what
      sensors and central have printed, when each pending question was saved, and which
      of these were saved while the sensor has stayed listed. */
  datatype State = State(
    now: nat, sensors: SL.Sensors, callbacks: Callbacks, network: set<Datagram>, alarmBuffer: bytes,
    history: seq<SL.Event>, reports: set<Report>, savedAt: map<Address, nat>, current: set<Address>)

  const INIT := State(0, map[], map[], {}, Alarms.Zeros(Alarms.BUFFER_SIZE), [], {}, map[], {})

  datatype Action =
    | Tick(seconds: nat)
    | Add(host: Host, threshold: int, sendOk: bool)
    | Erase(host: Host)
    | Ask(host: Host, sendOk: bool)
    | SetThreshold(host: Host, threshold: int, sendOk: bool)
    | AnswerValue(d: Datagram, current: nat, typical: nat)  // a sensor answers get_value
    | AnswerThreshold(d: Datagram, behind: bytes, memory: bytes)  // a sensor takes a threshold and confirms
    | RaiseAlarm(host: Host, readings: seq<int>)              // a sensor, after all its readings so far
    | Deliver(d: Datagram)                                  // at the client's receive socket
    | DeliverAlarm(d: Datagram)                             // at the alarm server

  const CLIENT := Address(CENTRAL, CLIENT_PORT)

  predicate Enabled(s: State, a: Action)
  {
    match a
    case AnswerValue(d, _, _) =>
      d in s.network && d.to.port == SENSOR_PORT2 && StartsWith(Payload(d.content), GET_VALUE)
    case AnswerThreshold(d, behind, memory) =>
      d in s.network && d.to.port == SENSOR_PORT1 && |memory| >= MESSAGE_SIZE
      && SensorVerdict(Payload(d.content), behind).Accepted? && SensorVerdict(Payload(d.content), behind).value >= 0
    case RaiseAlarm(_, readings) => readings != [] && forall x :: x in readings ==> 1 <= x <= 99
    case Deliver(d) => d in s.network && d.to == CLIENT.Incremented()
    case DeliverAlarm(d) =>
      d in s.network && d.to == Address(CENTRAL, ALARM_PORT) && |s.alarmBuffer| == Alarms.BUFFER_SIZE
    case _ => true
  }

  /** Calls on the sensor list, with their record. */
  function With(s: State, events: seq<SL.Event>): State
  {
    s.(sensors := Performed(s.sensors, events), history := s.history + events)
  }

  /** A call of the Communicator, with what the client's socket sends. */
  function Called(s: State, e: Effects): State
  {
    var t := With(s, e.events);
    if e.sent.None? then t
    else
      var to := e.sent.value.to;
      t.(callbacks := e.callbacks, network := s.network + {Datagram(CLIENT, to, e.sent.value.content)},
         savedAt := s.savedAt[to := s.now], current := s.current + {to},
         reports := s.reports + Asking(e.sent.value))
  }

  function Asking(q: Question): set<Report>
  {
    if q.content.AskThreshold? then {Requested(q.to.host, q.content.threshold)} else {}
  }

  /** A sensor's alarm carries its last reading and the median of its window. */
  function AlarmOn(readings: seq<int>): (r: (nat, nat))
    requires readings != [] && forall x :: x in readings ==> 1 <= x <= 99
    ensures Alarms.Honest(r.0, r.1)
    ensures r.0 == readings[|readings| - 1] && Window.Median(Window.Last(readings)) == Some(r.1)
  {
    WindowWithin(readings);
    assert readings[|readings| - 1] in readings;
    var current: nat, typical: nat := readings[|readings| - 1], Window.Median(Window.Last(readings)).value;
    (current, typical)
  }

  lemma WindowWithin(readings: seq<int>)
    requires readings != [] && forall x :: x in readings ==> 1 <= x <= 99
    ensures Window.Median(Window.Last(readings)).Some? && 1 <= Window.Median(Window.Last(readings)).value <= 99
  {
    hide Window.Median;
    var last := Window.Last(readings);
    assert last != [] && forall x :: x in last ==> x in readings;
    Window.MedianWithin(last, 1, 99);
  }

  function Next(s: State, a: Action, maxAnswerTime: nat): State
    requires Enabled(s, a)
  {
    match a
    case Tick(seconds) => s.(now := s.now + seconds)
    case Add(host, threshold, sendOk) =>
      Called(s, AddEffects(s.sensors, s.callbacks, host, threshold, s.now, maxAnswerTime, sendOk))
    case Erase(host) =>
      With(s, [SL.Erased(host)]).(current := set address | address in s.current && address.host != host)
    case Ask(host, sendOk) => Called(s, AskEffects(s.sensors, s.callbacks, host, s.now, maxAnswerTime, sendOk))
    case SetThreshold(host, threshold, sendOk) =>
      Called(s, ThresholdEffects(s.sensors, s.callbacks, host, threshold, s.now, maxAnswerTime, sendOk))
    case AnswerValue(d, current, typical) =>
      s.(network := s.network + {Datagram(d.to, d.from.Incremented(), ValueIs(current, typical))},
         reports := s.reports + {Pair(d.to.host, current, typical)})
    case AnswerThreshold(d, behind, memory) =>
      var value := SensorVerdict(Payload(d.content), behind).value;
      s.(network := s.network + {Datagram(d.to, d.from.Incremented(), ThresholdIs(value, memory))})
    case RaiseAlarm(host, readings) =>
      var (current, typical) := AlarmOn(readings);
      s.(network := s.network + {Datagram(Address(host, SENSOR_ALARM_PORT), Address(CENTRAL, ALARM_PORT),
                                          AlarmIs(current, typical))},
         reports := s.reports + {Pair(host, current * MILLION, typical * MILLION)})
    case Deliver(d) =>
      if d.from !in s.callbacks then s
      else
        With(s, AnswerEvents(s.callbacks[d.from], d.from.host, Payload(d.content)))
        .(callbacks := s.callbacks - {d.from}, current := s.current - {d.from})
    case DeliverAlarm(d) =>
      var text := Alarms.Overlaid(s.alarmBuffer, Payload(d.content));
      match Alarms.VerdictOn(text)
      case Stores(c, t) =>
        With(s, [SL.ValuesSet(d.from.host, c, t)])
        .(alarmBuffer := Alarms.Cleared(text, d.from.host in s.sensors))
      case _ => s.(alarmBuffer := Alarms.Cleared(text, d.from.host in s.sensors))
  }

  predicate Legal(run: seq<Action>, maxAnswerTime: nat)
    decreases |run|, 0
  {
    run == []
    || (Legal(run[..|run| - 1], maxAnswerTime) && Enabled(After(run[..|run| - 1], maxAnswerTime), run[|run| - 1]))
  }

  function After(run: seq<Action>, maxAnswerTime: nat): State
    requires Legal(run, maxAnswerTime)
    decreases |run|, 1
  {
    if run == [] then INIT else Next(After(run[..|run| - 1], maxAnswerTime), run[|run| - 1], maxAnswerTime)
  }

  // ------------------------------------------------------ ports and replies

  /** The value is from 1 to 99 and the integer part of a threshold that the host was asked to take. */
  ghost predicate Confirms(reports: set<Report>, host: Host, value: int)
  {
    1 <= value <= 99 && exists threshold: nat :: Requested(host, threshold) in reports && threshold / MILLION == value
  }

  /** What may be under way: questions to the port of their kind, replies from that port to the port
      above the client's, and alarms. */
  ghost predicate Plausible(d: Datagram, reports: set<Report>)
  {
    match d.content
    case AskValue => d.from == CLIENT && d.to.port == SENSOR_PORT2
    case AskThreshold(threshold) =>
      d.from == CLIENT && d.to.port == SENSOR_PORT1 && threshold <= 100 * MILLION
      && Requested(d.to.host, threshold) in reports
    case ValueIs(current, typical) =>
      d.from.port == SENSOR_PORT2 && d.to == CLIENT.Incremented() && Pair(d.from.host, current, typical) in reports
    case ThresholdIs(value, memory) =>
      d.from.port == SENSOR_PORT1 && d.to == CLIENT.Incremented() && Confirms(reports, d.from.host, value)
      && |memory| >= MESSAGE_SIZE
    case AlarmIs(current, typical) =>
      d.from.port == SENSOR_ALARM_PORT && d.to == Address(CENTRAL, ALARM_PORT) && Alarms.Honest(current, typical)
      && Pair(d.from.host, current * MILLION, typical * MILLION) in reports
  }

  /** Each kind of callback sits at the port of its kind. */
  predicate PortsFit(callbacks: Callbacks)
  {
    forall address :: address in callbacks ==>
      address.port == match callbacks[address] case ThresholdCallback => SENSOR_PORT1 case ValueCallback => SENSOR_PORT2
  }

  ghost predicate NetInv(s: State)
  {
    && PortsFit(s.callbacks)
    && (forall d :: d in s.network ==> Plausible(d, s.reports))
    && Alarms.Clean(s.alarmBuffer)
  }

  lemma PlausibleGrows(d: Datagram, reports: set<Report>, more: set<Report>)
    requires Plausible(d, reports) && reports <= more
    ensures Plausible(d, more)
  {}

  /** A sensor only takes a threshold that was asked for. */
  lemma AcceptedWasAsked(s: State, d: Datagram, behind: bytes, memory: bytes)
    requires NetInv(s) && Enabled(s, AnswerThreshold(d, behind, memory))
    ensures d.content.AskThreshold? && d.from == CLIENT
    ensures Confirms(s.reports, d.to.host, SensorVerdict(Payload(d.content), behind).value)
  {
    hide SensorVerdict, Alarms.Clean;
    assert Plausible(d, s.reports);
    SensorTakesIntegerPart(d.content.threshold, behind);
  }

  lemma ReportsGrow(s: State, reports: set<Report>)
    requires NetInv(s) && s.reports <= reports
    ensures forall d :: d in s.network ==> Plausible(d, reports)
  {
    hide Alarms.Clean;
    forall d | d in s.network
      ensures Plausible(d, reports)
    {
      PlausibleGrows(d, s.reports, reports);
    }
  }

  lemma CalledKeepsNet(s: State, e: Effects)
    requires NetInv(s)
    requires e.sent.Some? ==>
               && (e.sent.value.content.AskValue? || e.sent.value.content.AskThreshold?)
               && Plausible(Datagram(CLIENT, e.sent.value.to, e.sent.value.content), s.reports + Asking(e.sent.value))
               && e.callbacks == s.callbacks[e.sent.value.to := if e.sent.value.content.AskValue? then ValueCallback
                                                                else ThresholdCallback]
    ensures NetInv(Called(s, e))
  {
    hide Performed, Alarms.Clean, Confirms;
    if e.sent.Some? {
      ReportsGrow(s, s.reports + Asking(e.sent.value));
    }
  }

  lemma DeliverAlarmKeepsNet(s: State, d: Datagram, maxAnswerTime: nat)
    requires NetInv(s) && Enabled(s, DeliverAlarm(d))
    ensures d.content.AlarmIs?
    ensures Alarms.VerdictOn(Alarms.Overlaid(s.alarmBuffer, Payload(d.content)))
         == Stores(d.content.alarmCurrent as real, d.content.alarmTypical as real)
    ensures NetInv(Next(s, DeliverAlarm(d), maxAnswerTime))
  {
    hide Performed, Alarms.Clean, Alarms.VerdictOn, Alarms.Overlaid, Alarms.Zeros;
    assert Plausible(d, s.reports);
    var AlarmIs(current, typical) := d.content;
    assert Payload(d.content) == Alarms.HonestText(current, typical);
    Alarms.HonestRound(s.alarmBuffer, current, typical);
    Alarms.ZerosAreClean();
  }

  /** Calls that send a question, or nothing. */
  lemma CallKeepsNet(s: State, a: Action, maxAnswerTime: nat)
    requires NetInv(s) && (a.Add? || a.Ask? || a.SetThreshold?)
    ensures NetInv(Next(s, a, maxAnswerTime))
  {
    hide Performed, Alarms.Clean, SL.Applied, NetInv, Called;
    match a
    case Add(host, threshold, sendOk) =>
      CalledKeepsNet(s, AddEffects(s.sensors, s.callbacks, host, threshold, s.now, maxAnswerTime, sendOk));
    case Ask(host, sendOk) =>
      CalledKeepsNet(s, AskEffects(s.sensors, s.callbacks, host, s.now, maxAnswerTime, sendOk));
    case SetThreshold(host, threshold, sendOk) =>
      CalledKeepsNet(s, ThresholdEffects(s.sensors, s.callbacks, host, threshold, s.now, maxAnswerTime, sendOk));
    case _ =>
  }

  /** Steps of the sensors. */
  lemma SensorKeepsNet(s: State, a: Action, maxAnswerTime: nat)
    requires NetInv(s) && Enabled(s, a) && (a.AnswerValue? || a.AnswerThreshold? || a.RaiseAlarm?)
    ensures NetInv(Next(s, a, maxAnswerTime))
  {
    hide Alarms.Clean, SensorVerdict, Payload, Window.Median, Window.Last;
    match a
    case AnswerValue(d, current, typical) =>
      assert Plausible(d, s.reports);
      ReportsGrow(s, Next(s, a, maxAnswerTime).reports);
    case AnswerThreshold(d, behind, memory) => AcceptedWasAsked(s, d, behind, memory);
    case RaiseAlarm(host, readings) => ReportsGrow(s, Next(s, a, maxAnswerTime).reports);
    case _ =>
  }

  lemma NetKept(s: State, a: Action, maxAnswerTime: nat)
    requires NetInv(s) && Enabled(s, a)
    ensures NetInv(Next(s, a, maxAnswerTime))
  {
    if a.Add? || a.Ask? || a.SetThreshold? {
      CallKeepsNet(s, a, maxAnswerTime);
    } else if a.AnswerValue? || a.AnswerThreshold? || a.RaiseAlarm? {
      SensorKeepsNet(s, a, maxAnswerTime);
    } else if a.DeliverAlarm? {
      DeliverAlarmKeepsNet(s, a.d, maxAnswerTime);
    } else {
      hide Performed, Alarms.Clean, AnswerEvents, Payload;
    }
  }

  lemma {:induction false} NetAlways(run: seq<Action>, maxAnswerTime: nat)
    requires Legal(run, maxAnswerTime)
    ensures NetInv(After(run, maxAnswerTime))
    decreases |run|
  {
    hide NetInv, Enabled, Next;
    if run == [] {
      InitialNet();
    } else {
      NetAlways(run[..|run| - 1], maxAnswerTime);
      NetKept(After(run[..|run| - 1], maxAnswerTime), run[|run| - 1], maxAnswerTime);
    }
  }

  lemma InitialNet()
    ensures NetInv(INIT)
  {
    Alarms.ZerosAreClean();
  }

  /** In every reachable state the two kinds of callback sit at the two ports, so neither displaces the
      other, and a reply that finds a callback is a reply of its kind: its text is read back exactly. */
  lemma RepliesMatchCallbacks(run: seq<Action>, maxAnswerTime: nat, d: Datagram)
    requires Legal(run, maxAnswerTime) && Enabled(After(run, maxAnswerTime), Deliver(d))
    requires d.from in After(run, maxAnswerTime).callbacks
    ensures PortsFit(After(run, maxAnswerTime).callbacks)
    ensures Delivered(After(run, maxAnswerTime), d)
  {
    hide Delivered;
    NetAlways(run, maxAnswerTime);
    DeliveredIsRead(After(run, maxAnswerTime), d);
  }

  /** What the callback saved at the sender's address does with the reply. */
  ghost predicate Delivered(s: State, d: Datagram)
    requires d.from in s.callbacks
  {
    var events := AnswerEvents(s.callbacks[d.from], d.from.host, Payload(d.content));
    match s.callbacks[d.from]
    case ThresholdCallback =>
      d.content.ThresholdIs? && Confirms(s.reports, d.from.host, d.content.value)
      && events == [SL.ThresholdSet(d.from.host, d.content.value as real)]
    case ValueCallback =>
      d.content.ValueIs? && Pair(d.from.host, d.content.current, d.content.typical) in s.reports
      && events == [SL.ValuesSet(d.from.host, Millionths(d.content.current), Millionths(d.content.typical))]
  }

  lemma DeliveredIsRead(s: State, d: Datagram)
    requires NetInv(s) && Enabled(s, Deliver(d)) && d.from in s.callbacks
    ensures Delivered(s, d)
  {
    hide ThresholdAnswer, ValueAnswer, ThresholdReply, ValueReply, Alarms.Clean;
    assert Plausible(d, s.reports);
    match s.callbacks[d.from]
    case ThresholdCallback => CentralStoresIntegerPart(d.content.value, d.content.memory);
    case ValueCallback => ValueAnswerOfReply(d.content.current, d.content.typical);
  }

  /** Every reply under way goes to the port above the one the client sends from. */
  lemma RepliesGoToReceivePort(run: seq<Action>, maxAnswerTime: nat, d: Datagram)
    requires Legal(run, maxAnswerTime) && d in After(run, maxAnswerTime).network
    requires d.content.ValueIs? || d.content.ThresholdIs?
    ensures d.to == Address(CENTRAL, CLIENT_PORT + 1)
    ensures d.from.port == if d.content.ValueIs? then SENSOR_PORT2 else SENSOR_PORT1
  {
    hide NetInv, Legal, After;
    NetAlways(run, maxAnswerTime);
    UnderWay(After(run, maxAnswerTime), d);
  }

  lemma UnderWay(s: State, d: Datagram)
    requires NetInv(s) && d in s.network
    ensures Plausible(d, s.reports)
  {
    hide Alarms.Clean;
  }

  // ---------------------------------------------------------- stored values

  ghost predicate Reported(reports: set<Report>, host: Host, current: real, typical: real)
  {
    exists c: nat, t: nat :: Pair(host, c, t) in reports && current == Millionths(c) && typical == Millionths(t)
  }

  /** The integer part, from 1 to 99, of a threshold that the host was asked to take. */
  ghost predicate WasRequested(reports: set<Report>, host: Host, threshold: real)
  {
    threshold == threshold.Floor as real && Confirms(reports, host, threshold.Floor)
  }

  lemma RequestedGrows(reports: set<Report>, more: set<Report>, host: Host, threshold: real)
    requires WasRequested(reports, host, threshold) && reports <= more
    ensures WasRequested(more, host, threshold)
  {
    var asked: nat :| Requested(host, asked) in reports && asked / MILLION == threshold.Floor;
    assert Requested(host, asked) in more;
  }

  /** The entry of a sensor holds defaults, or a pair that came whole from one message of that host,
      and a threshold that this host was asked to take, without its fraction. */
  ghost predicate EntryFits(reports: set<Report>, host: Host, info: SL.SensorInfo)
  {
    && ((info.currentValue, info.typicalValue) == (0.0, 0.0)
        || Reported(reports, host, info.currentValue, info.typicalValue))
    && (info.threshold == 100.0 || WasRequested(reports, host, info.threshold))
  }

  ghost predicate ValuesFit(sensors: SL.Sensors, reports: set<Report>)
  {
    forall host :: host in sensors ==> EntryFits(reports, host, sensors[host])
  }

  ghost predicate EventFits(reports: set<Report>, e: SL.Event)
  {
    match e
    case ValuesSet(host, c, t) => Reported(reports, host, c, t)
    case ThresholdSet(host, t) => WasRequested(reports, host, t)
    case _ => true
  }

  lemma {:induction false} PerformedFits(sensors: SL.Sensors, reports: set<Report>, events: seq<SL.Event>)
    requires ValuesFit(sensors, reports) && forall e :: e in events ==> EventFits(reports, e)
    ensures ValuesFit(Performed(sensors, events), reports)
    decreases |events|
  {
    hide Reported, WasRequested;
    if events != [] {
      assert events[0] in events;
      PerformedFits(SL.Applied(sensors, events[0]), reports, events[1..]);
    }
  }

  lemma ReportsGrowValues(sensors: SL.Sensors, reports: set<Report>, more: set<Report>)
    requires ValuesFit(sensors, reports) && reports <= more
    ensures ValuesFit(sensors, more)
  {
    forall host | host in sensors
      ensures EntryFits(more, host, sensors[host])
    {
      var info := sensors[host];
      assert EntryFits(reports, host, info);
      if Reported(reports, host, info.currentValue, info.typicalValue) {
        var c: nat, t: nat :| Pair(host, c, t) in reports
                              && info.currentValue == Millionths(c) && info.typicalValue == Millionths(t);
        assert Pair(host, c, t) in more;
      }
      if WasRequested(reports, host, info.threshold) {
        RequestedGrows(reports, more, host, info.threshold);
      }
    }
  }

  /** The calls on the sensor list that a step makes. */
  function EventsOf(s: State, a: Action, maxAnswerTime: nat): seq<SL.Event>
    requires Enabled(s, a)
  {
    match a
    case Add(host, threshold, sendOk) =>
      AddEffects(s.sensors, s.callbacks, host, threshold, s.now, maxAnswerTime, sendOk).events
    case Erase(host) => [SL.Erased(host)]
    case Ask(host, sendOk) => AskEffects(s.sensors, s.callbacks, host, s.now, maxAnswerTime, sendOk).events
    case SetThreshold(host, threshold, sendOk) =>
      ThresholdEffects(s.sensors, s.callbacks, host, threshold, s.now, maxAnswerTime, sendOk).events
    case Deliver(d) =>
      if d.from in s.callbacks then AnswerEvents(s.callbacks[d.from], d.from.host, Payload(d.content)) else []
    case DeliverAlarm(d) =>
      (match Alarms.VerdictOn(Alarms.Overlaid(s.alarmBuffer, Payload(d.content)))
       case Stores(c, t) => [SL.ValuesSet(d.from.host, c, t)]
       case _ => [])
    case _ => []
  }

  lemma NextPerforms(s: State, a: Action, maxAnswerTime: nat)
    requires Enabled(s, a)
    ensures var t := Next(s, a, maxAnswerTime);
            t.sensors == Performed(s.sensors, EventsOf(s, a, maxAnswerTime))
            && t.history == s.history + EventsOf(s, a, maxAnswerTime) && s.reports <= t.reports
  {
    hide SensorVerdict, Payload, Alarms.VerdictOn, Alarms.Overlaid, SL.Applied, Enabled, AnswerEvents, Alarms.Zeros,
      AddEffects, AskEffects, ThresholdEffects, Performed, Window.Median, Window.Last, Alarms.Cleared;
    PerformedNone(s.sensors);
    assert s.history + [] == s.history;
  }

  lemma EventsFit(s: State, a: Action, maxAnswerTime: nat)
    requires NetInv(s) && Enabled(s, a)
    ensures forall e :: e in EventsOf(s, a, maxAnswerTime) ==> EventFits(s.reports, e)
  {
    hide SensorVerdict, Payload, Alarms.VerdictOn, Alarms.Overlaid, SL.Applied, AnswerEvents, NetInv;
    match a
    case Deliver(d) =>
      if d.from in s.callbacks {
        DeliveredIsRead(s, d);
        DeliveredFits(s, d);
      }
    case DeliverAlarm(d) =>
      DeliverAlarmKeepsNet(s, d, maxAnswerTime);
      AlarmFits(s, d);
    case _ =>
  }

  lemma DeliveredFits(s: State, d: Datagram)
    requires NetInv(s) && Enabled(s, Deliver(d)) && d.from in s.callbacks && Delivered(s, d)
    ensures forall e :: e in AnswerEvents(s.callbacks[d.from], d.from.host, Payload(d.content)) ==>
              EventFits(s.reports, e)
  {
    hide AnswerEvents, Payload, Alarms.Clean;
    assert Plausible(d, s.reports);
  }

  lemma AlarmFits(s: State, d: Datagram)
    requires NetInv(s) && Enabled(s, DeliverAlarm(d)) && d.content.AlarmIs?
    ensures Reported(s.reports, d.from.host, d.content.alarmCurrent as real, d.content.alarmTypical as real)
  {
    hide Alarms.Clean;
    assert Plausible(d, s.reports);
    WholeInMillionths(d.content.alarmCurrent);
    WholeInMillionths(d.content.alarmTypical);
  }

  lemma {:induction false} ValuesAlwaysFit(run: seq<Action>, maxAnswerTime: nat)
    requires Legal(run, maxAnswerTime)
    ensures ValuesFit(After(run, maxAnswerTime).sensors, After(run, maxAnswerTime).reports)
    decreases |run|
  {
    hide NetInv, Enabled, Next, ValuesFit, EventFits, EventsOf, Performed;
    if run == [] {
      NothingFits();
    } else {
      var s, a := After(run[..|run| - 1], maxAnswerTime), run[|run| - 1];
      ValuesAlwaysFit(run[..|run| - 1], maxAnswerTime);
      NetAlways(run[..|run| - 1], maxAnswerTime);
      EventsFit(s, a, maxAnswerTime);
      PerformedFits(s.sensors, s.reports, EventsOf(s, a, maxAnswerTime));
      NextPerforms(s, a, maxAnswerTime);
      var sensors := Performed(s.sensors, EventsOf(s, a, maxAnswerTime));
      ReportsGrowValues(sensors, s.reports, Next(s, a, maxAnswerTime).reports);
    }
  }

  lemma NothingFits()
    ensures ValuesFit(map[], {})
  {}

  /** Whatever is lost, repeated or reordered: every stored pair of values is the default or came whole
      from one value reply or alarm of that very sensor, and every stored threshold is the default or the
      integer part of one that central asked of that very sensor. */
  lemma StoredPairsAreWhole(run: seq<Action>, maxAnswerTime: nat, host: Host)
    requires Legal(run, maxAnswerTime) && host in After(run, maxAnswerTime).sensors
    ensures var s := After(run, maxAnswerTime);
            EntryFits(s.reports, host, s.sensors[host])
  {
    hide EntryFits;
    ValuesAlwaysFit(run, maxAnswerTime);
  }

  /** The list stands for the history of the calls on it, so a status refines that history. */
  lemma {:induction false} HistoryIsRepresented(run: seq<Action>, maxAnswerTime: nat)
    requires Legal(run, maxAnswerTime)
    ensures SL.Represents(After(run, maxAnswerTime).sensors, After(run, maxAnswerTime).history)
    decreases |run|
  {
    hide Enabled, Next, EventsOf, Performed;
    if run != [] {
      hide SL.Represents;
      var s, a := After(run[..|run| - 1], maxAnswerTime), run[|run| - 1];
      HistoryIsRepresented(run[..|run| - 1], maxAnswerTime);
      NextPerforms(s, a, maxAnswerTime);
      PerformedRepresents(s.sensors, s.history, EventsOf(s, a, maxAnswerTime));
    }
  }

  // ------------------------------------------------------------- rate limit

  function LastQuestion(info: SL.SensorInfo, kind: Kind): int
  {
    match kind case ValueCallback => info.lastValueQuestion case ThresholdCallback => info.lastThresholdQuestion
  }

  predicate IsAsked(e: SL.Event, kind: Kind)
  {
    match kind case ValueCallback => e.ValueAsked? case ThresholdCallback => e.ThresholdAsked?
  }

  /** When a sensor was asked the given kind of question since it was listed. */
  function Times(era: seq<SL.Event>, kind: Kind): seq<int>
  {
    if era == [] then []
    else
      var e := era[|era| - 1];
      Times(era[..|era| - 1], kind) + if IsAsked(e, kind) then [e.at] else []
  }

  predicate Spaced(times: seq<int>, gap: int) { forall i :: 0 < i < |times| ==> times[i] - times[i - 1] >= gap }

  /** The list keeps the time of the last question. */
  lemma {:induction false} LastQuestionIsLastTime(era: seq<SL.Event>, kind: Kind)
    ensures var times := Times(era, kind);
            LastQuestion(SL.Replayed(era), kind) == if times == [] then 0 else times[|times| - 1]
  {
    if era != [] {
      LastQuestionIsLastTime(era[..|era| - 1], kind);
    }
  }

  /** The questions to every listed sensor keep their distance. */
  ghost predicate RateInv(history: seq<SL.Event>, maxAnswerTime: nat)
  {
    forall host, kind :: SL.Era(history, host).Some? ==>
      Spaced(Times(SL.Era(history, host).value, kind), maxAnswerTime)
  }

  /** A call that asks comes late enough after the last question of its kind. */
  predicate InTime(sensors: SL.Sensors, e: SL.Event, maxAnswerTime: nat)
  {
    e.IsQuestion() && e.host in sensors ==>
      e.at - LastQuestion(sensors[e.host], if e.ValueAsked? then ValueCallback else ThresholdCallback) >= maxAnswerTime
  }

  lemma InTimeKeepsRate(sensors: SL.Sensors, history: seq<SL.Event>, e: SL.Event, maxAnswerTime: nat)
    requires SL.Represents(sensors, history) && RateInv(history, maxAnswerTime) && InTime(sensors, e, maxAnswerTime)
    ensures RateInv(history + [e], maxAnswerTime)
  {
    hide Times, SL.Replayed;
    var history' := history + [e];
    assert history'[..|history|] == history;
    forall host, kind: Kind | SL.Era(history', host).Some?
      ensures Spaced(Times(SL.Era(history', host).value, kind), maxAnswerTime)
    {
      var before := SL.Era(history, host);
      TimesOfNothing(kind);
      if host == e.host && before.Some? && !e.Added? {
        TimesSnoc(before.value, e, kind);
        LastQuestionIsLastTime(before.value, kind);
        assert Spaced(Times(before.value, kind), maxAnswerTime);
      }
    }
  }

  lemma TimesOfNothing(kind: Kind)
    ensures Times([], kind) == []
  {}

  lemma TimesSnoc(era: seq<SL.Event>, e: SL.Event, kind: Kind)
    ensures Times(era + [e], kind) == Times(era, kind) + if IsAsked(e, kind) then [e.at] else []
  {
    assert (era + [e])[..|era|] == era;
  }

  predicate AllInTime(sensors: SL.Sensors, events: seq<SL.Event>, maxAnswerTime: nat)
    decreases |events|
  {
    events == []
    || (InTime(sensors, events[0], maxAnswerTime)
        && AllInTime(SL.Applied(sensors, events[0]), events[1..], maxAnswerTime))
  }

  lemma {:induction false} AllInTimeKeepsRate(sensors: SL.Sensors, history: seq<SL.Event>, events: seq<SL.Event>,
                                              maxAnswerTime: nat)
    requires SL.Represents(sensors, history) && RateInv(history, maxAnswerTime)
    requires AllInTime(sensors, events, maxAnswerTime)
    ensures RateInv(history + events, maxAnswerTime)
    decreases |events|
  {
    hide SL.Represents, RateInv, InTime;
    if events == [] {
      assert history + events == history;
    } else {
      InTimeKeepsRate(sensors, history, events[0], maxAnswerTime);
      SL.RepresentsKept(sensors, history, events[0]);
      AllInTimeKeepsRate(SL.Applied(sensors, events[0]), history + [events[0]], events[1..], maxAnswerTime);
      assert history + [events[0]] + events[1..] == history + events;
    }
  }

  lemma ThresholdInTime(sensors: SL.Sensors, callbacks: Callbacks, host: Host, threshold: int, now: int,
                        maxAnswerTime: nat, sendOk: bool)
    ensures AllInTime(sensors, ThresholdEffects(sensors, callbacks, host, threshold, now, maxAnswerTime, sendOk).events,
                      maxAnswerTime)
  {}

  lemma AddInTime(sensors: SL.Sensors, host: Host, events: seq<SL.Event>, maxAnswerTime: nat)
    requires AllInTime(SL.Applied(sensors, SL.Added(host)), events, maxAnswerTime)
    ensures AllInTime(sensors, [SL.Added(host)] + events, maxAnswerTime)
  {
    hide SL.Applied;
    assert ([SL.Added(host)] + events)[1..] == events;
  }

  lemma EventsInTime(s: State, a: Action, maxAnswerTime: nat)
    requires Enabled(s, a)
    ensures AllInTime(s.sensors, EventsOf(s, a, maxAnswerTime), maxAnswerTime)
  {
    hide SensorVerdict, Payload, Alarms.VerdictOn, Alarms.Overlaid, ThresholdAnswer, ValueAnswer, Enabled;
    match a
    case Add(host, threshold, sendOk) =>
      var added := SL.Applied(s.sensors, SL.Added(host));
      ThresholdInTime(added, s.callbacks, host, threshold, s.now, maxAnswerTime, sendOk);
      AddInTime(s.sensors, host,
                ThresholdEffects(added, s.callbacks, host, threshold, s.now, maxAnswerTime, sendOk).events,
                maxAnswerTime);
    case SetThreshold(host, threshold, sendOk) =>
      ThresholdInTime(s.sensors, s.callbacks, host, threshold, s.now, maxAnswerTime, sendOk);
    case _ =>
  }

  lemma {:induction false} RateAlways(run: seq<Action>, maxAnswerTime: nat)
    requires Legal(run, maxAnswerTime)
    ensures RateInv(After(run, maxAnswerTime).history, maxAnswerTime)
    decreases |run|
  {
    hide Enabled, Next, EventsOf, Performed;
    if run != [] {
      hide SL.Represents, RateInv, AllInTime;
      var s, a := After(run[..|run| - 1], maxAnswerTime), run[|run| - 1];
      RateAlways(run[..|run| - 1], maxAnswerTime);
      HistoryIsRepresented(run[..|run| - 1], maxAnswerTime);
      EventsInTime(s, a, maxAnswerTime);
      NextPerforms(s, a, maxAnswerTime);
      AllInTimeKeepsRate(s.sensors, s.history, EventsOf(s, a, maxAnswerTime), maxAnswerTime);
    }
  }

  /** How many of the times lie in the window. */
  function CountIn(times: seq<int>, from: int, to: int): nat
  {
    if times == [] then 0
    else CountIn(times[..|times| - 1], from, to) + if from <= times[|times| - 1] <= to then 1 else 0
  }

  lemma {:induction false} CountBefore(times: seq<int>, gap: nat, from: int, to: int)
    requires Spaced(times, gap) && times != [] && times[|times| - 1] < from
    ensures CountIn(times, from, to) == 0
  {
    if |times| > 1 {
      CountBefore(times[..|times| - 1], gap, from, to);
    }
  }

  /** At most one question each gap, counted from the start of the window. */
  lemma {:induction false} CountUpTo(times: seq<int>, gap: nat, from: int, to: int)
    requires Spaced(times, gap) && gap > 0 && times != [] && from <= times[|times| - 1] <= to
    ensures (CountIn(times, from, to) - 1) * gap <= times[|times| - 1] - from
  {
    var before, last := times[..|times| - 1], times[|times| - 1];
    if |times| > 1 {
      var previous := before[|before| - 1];
      assert last - previous >= gap;
      assert Spaced(before, gap);
      hide Spaced;
      if previous < from {
        CountBefore(before, gap, from, to);
      } else {
        CountUpTo(before, gap, from, to);
        OneMore(CountIn(before, from, to), gap);
      }
    }
  }

  lemma OneMore(n: int, gap: int)
    ensures n * gap == (n - 1) * gap + gap
  {}

  lemma {:induction false} CountIsLimited(times: seq<int>, gap: nat, from: int, width: nat)
    requires Spaced(times, gap) && gap > 0
    ensures CountIn(times, from, from + width) <= width / gap + 1
  {
    if times != [] {
      var before, last := times[..|times| - 1], times[|times| - 1];
      if from <= last <= from + width {
        CountUpTo(times, gap, from, from + width);
        Divided(CountIn(times, from, from + width) - 1, gap, width);
      } else {
        CountIsLimited(before, gap, from, width);
      }
    }
  }

  lemma Divided(n: int, gap: nat, width: nat)
    requires gap > 0 && n * gap <= width
    ensures n <= width / gap
  {
    var q := width / gap;
    assert width < (q + 1) * gap;
    if n >= q + 1 {
      Monotone(q + 1, n, gap);
      assert false;
    }
  }

  lemma Monotone(m: int, n: int, gap: nat)
    requires m <= n
    ensures m * gap <= n * gap
  {}

  /** In any window of the given width at most width / maxAnswerTime + 1 questions of one kind go to a
      sensor while it stays listed. */
  lemma RateIsLimited(run: seq<Action>, maxAnswerTime: nat, host: Host, kind: Kind, from: int, width: nat)
    requires Legal(run, maxAnswerTime) && maxAnswerTime > 0
    requires SL.Era(After(run, maxAnswerTime).history, host).Some?
    ensures CountIn(Times(SL.Era(After(run, maxAnswerTime).history, host).value, kind), from, from + width)
         <= width / maxAnswerTime + 1
  {
    hide CountIn, Spaced;
    RateAlways(run, maxAnswerTime);
    CountIsLimited(Times(SL.Era(After(run, maxAnswerTime).history, host).value, kind), maxAnswerTime, from, width);
  }

  // ------------------------------------------------------------ replacement

  /** A pending question saved while its sensor has stayed listed is the last of its kind. */
  predicate CurrentInv(s: State)
  {
    forall address :: address in s.current ==>
      address in s.callbacks && address in s.savedAt && address.host in s.sensors
      && s.savedAt[address] == LastQuestion(s.sensors[address.host], s.callbacks[address])
  }

  /** An event moves the last question of its own sensor and kind only. */
  lemma LastQuestionMoves(sensors: SL.Sensors, e: SL.Event, host: Host, kind: Kind)
    requires host in sensors && !(e.Erased? && e.host == host)
    ensures host in SL.Applied(sensors, e)
    ensures LastQuestion(SL.Applied(sensors, e)[host], kind)
         == if e.host == host && IsAsked(e, kind) then e.at else LastQuestion(sensors[host], kind)
  {}

  lemma QuietKeepsCurrent(s: State, events: seq<SL.Event>)
    requires CurrentInv(s) && |events| <= 1 && forall e :: e in events ==> !e.IsQuestion() && !e.Erased?
    ensures CurrentInv(With(s, events))
  {
    hide SL.Applied, Performed;
    if events == [] {
      assert Performed(s.sensors, []) == s.sensors by { PerformedNone(s.sensors); }
    } else {
      var e := events[0];
      assert events == [e] && e in events;
      PerformedOne(s.sensors, e);
      forall address | address in s.current
        ensures address.host in SL.Applied(s.sensors, e)
        ensures s.savedAt[address] == LastQuestion(SL.Applied(s.sensors, e)[address.host], s.callbacks[address])
      {
        LastQuestionMoves(s.sensors, e, address.host, s.callbacks[address]);
      }
    }
  }

  lemma PerformedNone(sensors: SL.Sensors)
    ensures Performed(sensors, []) == sensors
  {}

  /** A question that goes out becomes the current one at its address. */
  lemma SentKeepsCurrent(s: State, e: Effects, asked: SL.Event, kind: Kind)
    requires PortsFit(s.callbacks) && CurrentInv(s) && e.events == [asked] && asked.host in s.sensors
    requires asked == match kind case ValueCallback => SL.ValueAsked(asked.host, s.now)
                                 case ThresholdCallback => SL.ThresholdAsked(asked.host, s.now)
    requires e.sent.Some? && e.callbacks == s.callbacks[e.sent.value.to := kind]
    requires e.sent.value.to == Address(asked.host, if kind.ValueCallback? then SENSOR_PORT2 else SENSOR_PORT1)
    ensures CurrentInv(Called(s, e))
  {
    hide SL.Applied, Performed;
    PerformedOne(s.sensors, asked);
    var t := Called(s, e);
    forall address | address in t.current
      ensures address in t.callbacks && address in t.savedAt && address.host in t.sensors
      ensures t.savedAt[address] == LastQuestion(t.sensors[address.host], t.callbacks[address])
    {
      LastQuestionMoves(s.sensors, asked, address.host, t.callbacks[address]);
    }
  }

  lemma CalledQuietly(s: State, e: Effects)
    requires CurrentInv(s) && e.sent.None? && e.events == []
    ensures CurrentInv(Called(s, e))
  {
    QuietKeepsCurrent(s, []);
  }

  lemma AskKeepsCurrent(s: State, host: Host, maxAnswerTime: nat, sendOk: bool)
    requires PortsFit(s.callbacks) && CurrentInv(s)
    ensures CurrentInv(Called(s, AskEffects(s.sensors, s.callbacks, host, s.now, maxAnswerTime, sendOk)))
  {
    hide Called, CurrentInv, PortsFit;
    var e := AskEffects(s.sensors, s.callbacks, host, s.now, maxAnswerTime, sendOk);
    if e.sent.Some? {
      SentKeepsCurrent(s, e, SL.ValueAsked(host, s.now), ValueCallback);
    } else {
      CalledQuietly(s, e);
    }
  }

  lemma ThresholdKeepsCurrent(s: State, host: Host, threshold: int, maxAnswerTime: nat, sendOk: bool)
    requires PortsFit(s.callbacks) && CurrentInv(s)
    ensures CurrentInv(Called(s, ThresholdEffects(s.sensors, s.callbacks, host, threshold, s.now, maxAnswerTime,
                                                  sendOk)))
  {
    hide Called, CurrentInv, PortsFit;
    var e := ThresholdEffects(s.sensors, s.callbacks, host, threshold, s.now, maxAnswerTime, sendOk);
    if e.sent.Some? {
      SentKeepsCurrent(s, e, SL.ThresholdAsked(host, s.now), ThresholdCallback);
    } else {
      CalledQuietly(s, e);
    }
  }

  /** Adding a sensor is putting it on the list and then setting its threshold. */
  lemma AddIsTwoCalls(s: State, host: Host, threshold: int, maxAnswerTime: nat, sendOk: bool)
    requires 0 <= threshold <= 100 * MILLION
    ensures Called(s, AddEffects(s.sensors, s.callbacks, host, threshold, s.now, maxAnswerTime, sendOk))
         == Called(With(s, [SL.Added(host)]),
                   ThresholdEffects(With(s, [SL.Added(host)]).sensors, s.callbacks, host, threshold, s.now,
                                    maxAnswerTime, sendOk))
  {
    hide SL.Applied, ThresholdEffects;
    PerformedOne(s.sensors, SL.Added(host));
    var t := With(s, [SL.Added(host)]);
    var e := ThresholdEffects(t.sensors, t.callbacks, host, threshold, t.now, maxAnswerTime, sendOk);
    assert ([SL.Added(host)] + e.events)[1..] == e.events;
    Associative(s.history, [SL.Added(host)], e.events);
  }

  lemma EraseKeepsCurrent(s: State, host: Host)
    requires CurrentInv(s)
    ensures CurrentInv(With(s, [SL.Erased(host)])
                       .(current := set address | address in s.current && address.host != host))
  {
    hide SL.Applied, Performed;
    PerformedOne(s.sensors, SL.Erased(host));
    forall address | address in s.current && address.host != host
      ensures address.host in SL.Applied(s.sensors, SL.Erased(host))
      ensures s.savedAt[address]
           == LastQuestion(SL.Applied(s.sensors, SL.Erased(host))[address.host], s.callbacks[address])
    {
      LastQuestionMoves(s.sensors, SL.Erased(host), address.host, s.callbacks[address]);
    }
  }

  lemma DeliverKeepsCurrent(s: State, d: Datagram, maxAnswerTime: nat)
    requires CurrentInv(s) && Enabled(s, Deliver(d)) && d.from in s.callbacks
    ensures CurrentInv(Next(s, Deliver(d), maxAnswerTime))
  {
    hide Performed, ThresholdAnswer, ValueAnswer, Payload;
    QuietKeepsCurrent(s, AnswerEvents(s.callbacks[d.from], d.from.host, Payload(d.content)));
  }

  lemma CurrentKept(s: State, a: Action, maxAnswerTime: nat)
    requires PortsFit(s.callbacks) && CurrentInv(s) && Enabled(s, a)
    ensures CurrentInv(Next(s, a, maxAnswerTime))
  {
    hide SensorVerdict, Payload, Alarms.VerdictOn, Alarms.Overlaid, AnswerEvents, Alarms.Zeros, Called, AskEffects,
      ThresholdEffects, Performed, PortsFit;
    match a
    case Add(host, threshold, sendOk) =>
      if 0 <= threshold <= 100 * MILLION {
        AddIsTwoCalls(s, host, threshold, maxAnswerTime, sendOk);
        QuietKeepsCurrent(s, [SL.Added(host)]);
        ThresholdKeepsCurrent(With(s, [SL.Added(host)]), host, threshold, maxAnswerTime, sendOk);
      } else {
        CalledQuietly(s, Effects(BadThreshold, s.callbacks, None, []));
      }
    case Erase(host) => EraseKeepsCurrent(s, host);
    case Ask(host, sendOk) => AskKeepsCurrent(s, host, maxAnswerTime, sendOk);
    case SetThreshold(host, threshold, sendOk) => ThresholdKeepsCurrent(s, host, threshold, maxAnswerTime, sendOk);
    case Deliver(d) =>
      if d.from in s.callbacks {
        DeliverKeepsCurrent(s, d, maxAnswerTime);
      }
    case DeliverAlarm(d) =>
      match Alarms.VerdictOn(Alarms.Overlaid(s.alarmBuffer, Payload(d.content))) {
        case Stores(c, t) => QuietKeepsCurrent(s, [SL.ValuesSet(d.from.host, c, t)]);
        case _ =>
      }
    case _ =>
  }

  lemma {:induction false} CurrentAlways(run: seq<Action>, maxAnswerTime: nat)
    requires Legal(run, maxAnswerTime)
    ensures CurrentInv(After(run, maxAnswerTime))
    decreases |run|
  {
    hide Enabled, Next;
    if run != [] {
      hide CurrentInv, NetInv;
      var s := After(run[..|run| - 1], maxAnswerTime);
      CurrentAlways(run[..|run| - 1], maxAnswerTime);
      NetAlways(run[..|run| - 1], maxAnswerTime);
      assert PortsFit(s.callbacks) by { NetHasPorts(s); }
      CurrentKept(s, run[|run| - 1], maxAnswerTime);
    }
  }

  lemma NetHasPorts(s: State)
    requires NetInv(s)
    ensures PortsFit(s.callbacks)
  {}

  /** In no run of central is a callback pending where the client's ending message comes from, so its receiver
      always ends on it. */
  lemma EndingMessageIsNoAnswer(run: seq<Action>, maxAnswerTime: nat, from: Address)
    requires Legal(run, maxAnswerTime) && IsLoopback(from, CLIENT_PORT)
    ensures from !in After(run, maxAnswerTime).callbacks
  {
    hide Legal, After, NetInv;
    NetAlways(run, maxAnswerTime);
    NetHasPorts(After(run, maxAnswerTime));
  }

  /** A question displaces a pending callback of a sensor that stayed listed only when that callback
      is at least maxAnswerTime old. */
  lemma ReplacedWhenOld(run: seq<Action>, maxAnswerTime: nat, host: Host)
    requires Legal(run, maxAnswerTime)
    ensures var s := After(run, maxAnswerTime);
            CurrentInv(s)
            && (Address(host, SENSOR_PORT2) in s.current
                && AskEffects(s.sensors, s.callbacks, host, s.now, maxAnswerTime, true).sent.Some? ==>
                  s.now - s.savedAt[Address(host, SENSOR_PORT2)] >= maxAnswerTime)
            && forall threshold ::
                 Address(host, SENSOR_PORT1) in s.current
                 && ThresholdEffects(s.sensors, s.callbacks, host, threshold, s.now, maxAnswerTime, true).sent.Some? ==>
                   s.now - s.savedAt[Address(host, SENSOR_PORT1)] >= maxAnswerTime
  {
    hide Legal, After, NetInv;
    NetAlways(run, maxAnswerTime);
    NetHasPorts(After(run, maxAnswerTime));
    CurrentAlways(run, maxAnswerTime);
  }

  // ---------------------------------------------- what the steps do, in full

  /** Setting a threshold: in range, for a listed sensor, with the last such question old enough and a send that
      succeeds, exactly this threshold goes to the sensor's first port; else nothing happens. */
  lemma SetThresholdStep(s: State, host: Host, threshold: int, sendOk: bool, maxAnswerTime: nat)
    ensures var n := Next(s, SetThreshold(host, threshold, sendOk), maxAnswerTime);
            if 0 <= threshold <= 100000000 && host in s.sensors && sendOk
               && s.now - s.sensors[host].lastThresholdQuestion >= maxAnswerTime
            then
              && n.network
                 == s.network + {Datagram(Address(CENTRAL, 7501), Address(host, 7000), AskThreshold(threshold))}
              && n.callbacks == s.callbacks[Address(host, 7000) := ThresholdCallback]
              && n.sensors == SL.Applied(s.sensors, SL.ThresholdAsked(host, s.now))
            else n == s
  {
    hide SL.Applied;
    PerformedNone(s.sensors);
    PerformedOne(s.sensors, SL.ThresholdAsked(host, s.now));
    assert s.history + [] == s.history;
  }

  /** Asking for values, with the same conditions, goes to the second port. */
  lemma AskStep(s: State, host: Host, sendOk: bool, maxAnswerTime: nat)
    ensures var n := Next(s, Ask(host, sendOk), maxAnswerTime);
            if host in s.sensors && sendOk && s.now - s.sensors[host].lastValueQuestion >= maxAnswerTime
            then
              && n.network == s.network + {Datagram(Address(CENTRAL, 7501), Address(host, 7001), AskValue)}
              && n.callbacks == s.callbacks[Address(host, 7001) := ValueCallback]
              && n.sensors == SL.Applied(s.sensors, SL.ValueAsked(host, s.now))
            else n == s
  {
    hide SL.Applied;
    PerformedNone(s.sensors);
    PerformedOne(s.sensors, SL.ValueAsked(host, s.now));
    assert s.history + [] == s.history;
  }

  /** Adding a sensor with a threshold out of range does nothing; else the sensor is listed, with its entry if it
      had one, and then asked as by SetThreshold. */
  lemma AddStep(s: State, host: Host, threshold: int, sendOk: bool, maxAnswerTime: nat)
    ensures var n := Next(s, Add(host, threshold, sendOk), maxAnswerTime);
            var listed := With(s, [SL.Added(host)]);
            if 0 <= threshold <= 100000000 then
              host in listed.sensors && n == Next(listed, SetThreshold(host, threshold, sendOk), maxAnswerTime)
              && listed.sensors == if host in s.sensors then s.sensors else s.sensors[host := SL.NEW]
            else n == s
  {
    if 0 <= threshold <= 100000000 {
      AddIsTwoCalls(s, host, threshold, maxAnswerTime, sendOk);
      PerformedOne(s.sensors, SL.Added(host));
    } else {
      PerformedNone(s.sensors);
      assert s.history + [] == s.history;
    }
  }

  /** What a sensor and the network do. */
  lemma SensorSteps(s: State, a: Action, maxAnswerTime: nat)
    requires Enabled(s, a)
    ensures a.AnswerValue? ==>
              Next(s, a, maxAnswerTime).network
              == s.network + {Datagram(a.d.to, a.d.from.Incremented(), ValueIs(a.current, a.typical))}
    ensures a.AnswerThreshold? ==>
              SensorVerdict(Payload(a.d.content), a.behind).Accepted?
              && exists value: nat :: SensorVerdict(Payload(a.d.content), a.behind) == Accepted(value)
                   && Next(s, a, maxAnswerTime).network
                   == s.network + {Datagram(a.d.to, a.d.from.Incremented(), ThresholdIs(value, a.memory))}
    ensures a.RaiseAlarm? ==>
              exists typical: nat :: Window.Median(Window.Last(a.readings)) == Some(typical)
                && a.readings[|a.readings| - 1] >= 1
                && Next(s, a, maxAnswerTime).network
                == s.network + {Datagram(Address(a.host, 6000), Address(CENTRAL, 7500),
                                         AlarmIs(a.readings[|a.readings| - 1], typical))}
  {
    hide SensorVerdict, Payload, Window.Median, Window.Last, Performed;
    if a.RaiseAlarm? {
      var (current, typical) := AlarmOn(a.readings);
      assert Window.Median(Window.Last(a.readings)) == Some(typical);
      assert current == a.readings[|a.readings| - 1];
    } else if a.AnswerThreshold? {
      var value: nat := SensorVerdict(Payload(a.d.content), a.behind).value;
      assert SensorVerdict(Payload(a.d.content), a.behind) == Accepted(value);
    }
  }

  /** A reply that arrives for a pending callback is stored, if its sensor is listed, and the callback is gone;
      without one nothing happens. */
  lemma DeliverStep(run: seq<Action>, maxAnswerTime: nat, d: Datagram)
    requires Legal(run, maxAnswerTime) && Enabled(After(run, maxAnswerTime), Deliver(d))
    ensures var s := After(run, maxAnswerTime);
            var n := Next(s, Deliver(d), maxAnswerTime);
            if d.from !in s.callbacks then n == s
            else
              && n.callbacks == s.callbacks - {d.from}
              && (d.content.ValueIs? || d.content.ThresholdIs?)
              && n.sensors
                 == SL.Applied(s.sensors,
                               if d.content.ValueIs? then
                                 SL.ValuesSet(d.from.host, Millionths(d.content.current), Millionths(d.content.typical))
                               else SL.ThresholdSet(d.from.host, d.content.value as real))
  {
    hide Legal, After, AnswerEvents, Payload, SL.Applied, NetInv;
    var s := After(run, maxAnswerTime);
    if d.from in s.callbacks {
      RepliesMatchCallbacks(run, maxAnswerTime, d);
      var events := AnswerEvents(s.callbacks[d.from], d.from.host, Payload(d.content));
      assert |events| == 1 && events == [events[0]];
      PerformedOne(s.sensors, events[0]);
    }
  }

  /** An alarm that arrives is stored, if its sensor is listed. */
  lemma DeliverAlarmStep(run: seq<Action>, maxAnswerTime: nat, d: Datagram)
    requires Legal(run, maxAnswerTime) && Enabled(After(run, maxAnswerTime), DeliverAlarm(d))
    ensures d.content.AlarmIs?
            && Next(After(run, maxAnswerTime), DeliverAlarm(d), maxAnswerTime).sensors
            == SL.Applied(After(run, maxAnswerTime).sensors,
                          SL.ValuesSet(d.from.host, d.content.alarmCurrent as real, d.content.alarmTypical as real))
  {
    hide Legal, After, NetInv, Alarms.VerdictOn, Alarms.Overlaid, Alarms.Cleared, Payload, SL.Applied;
    var s := After(run, maxAnswerTime);
    NetAlways(run, maxAnswerTime);
    DeliverAlarmKeepsNet(s, d, maxAnswerTime);
    PerformedOne(s.sensors, SL.ValuesSet(d.from.host, d.content.alarmCurrent as real, d.content.alarmTypical as real));
  }

  // --------------------------------------------------- thresholds over runs

  /** Some call of the run was made with this threshold for the host. */
  predicate WasCalled(run: seq<Action>, host: Host, threshold: int)
  {
    exists k :: 0 <= k < |run| && (run[k].SetThreshold? || run[k].Add?) && run[k].host == host
                && run[k].threshold == threshold
  }

  lemma NewRequest(s: State, a: Action, maxAnswerTime: nat, r: Report)
    requires Enabled(s, a) && r.Requested? && r in Next(s, a, maxAnswerTime).reports && r !in s.reports
    ensures (a.SetThreshold? || a.Add?) && a.host == r.host && a.threshold == r.threshold
  {
    hide Payload, SensorVerdict, AnswerEvents, Performed, Alarms.VerdictOn, Alarms.Overlaid, Alarms.Cleared,
      Window.Median, Window.Last;
  }

  /** A sensor is asked to take a threshold only if some call was made with that threshold for that sensor. */
  lemma {:induction false} RequestedWasCalled(run: seq<Action>, maxAnswerTime: nat, host: Host, threshold: nat)
    requires Legal(run, maxAnswerTime) && Requested(host, threshold) in After(run, maxAnswerTime).reports
    ensures WasCalled(run, host, threshold)
    decreases |run|
  {
    hide Enabled, Next;
    if run != [] {
      var before, a := run[..|run| - 1], run[|run| - 1];
      var r := Requested(host, threshold);
      if r in After(before, maxAnswerTime).reports {
        RequestedWasCalled(before, maxAnswerTime, host, threshold);
        var k :| 0 <= k < |before| && (before[k].SetThreshold? || before[k].Add?) && before[k].host == host
                 && before[k].threshold == threshold;
        assert run[k] == before[k];
      } else {
        NewRequest(After(before, maxAnswerTime), a, maxAnswerTime, r);
      }
    }
  }

  /** What a sensor accepts is the integer part of a threshold that central was called with for it. */
  lemma AcceptedWasCalled(run: seq<Action>, maxAnswerTime: nat, d: Datagram, behind: bytes, memory: bytes)
    requires Legal(run, maxAnswerTime) && Enabled(After(run, maxAnswerTime), AnswerThreshold(d, behind, memory))
    ensures exists threshold: nat :: WasCalled(run, d.to.host, threshold)
              && SensorVerdict(Payload(d.content), behind) == Accepted(threshold / MILLION)
  {
    hide Legal, After, NetInv, SensorVerdict, WasCalled;
    var s := After(run, maxAnswerTime);
    NetAlways(run, maxAnswerTime);
    AcceptedWasAsked(s, d, behind, memory);
    UnderWay(s, d);
    var threshold := d.content.threshold;
    SensorTakesIntegerPart(threshold, behind);
    RequestedWasCalled(run, maxAnswerTime, d.to.host, threshold);
  }

  /** A stored threshold other than the default is the integer part of one that central was called with for
      that very sensor. */
  lemma StoredThresholdWasCalled(run: seq<Action>, maxAnswerTime: nat, host: Host)
    requires Legal(run, maxAnswerTime) && host in After(run, maxAnswerTime).sensors
    requires After(run, maxAnswerTime).sensors[host].threshold != 100.0
    ensures exists threshold: nat :: WasCalled(run, host, threshold) && 1 <= threshold / MILLION <= 99
              && After(run, maxAnswerTime).sensors[host].threshold == (threshold / MILLION) as real
  {
    hide Legal, After, WasCalled;
    var s := After(run, maxAnswerTime);
    StoredPairsAreWhole(run, maxAnswerTime, host);
    var threshold: nat :| Requested(host, threshold) in s.reports
                          && threshold / MILLION == s.sensors[host].threshold.Floor;
    RequestedWasCalled(run, maxAnswerTime, host, threshold);
  }

  // ----------------------------------------------------- what can happen

  lemma EraseAndTickSteps(s: State, host: Host, seconds: nat, maxAnswerTime: nat)
    ensures Next(s, Erase(host), maxAnswerTime).sensors == s.sensors - {host}
    ensures Next(s, Erase(host), maxAnswerTime).(sensors := s.sensors, history := s.history, current := s.current) == s
    ensures Next(s, Tick(seconds), maxAnswerTime) == s.(now := s.now + seconds)
  {
    PerformedOne(s.sensors, SL.Erased(host));
  }

  /** A question on the network can be answered, a threshold within its limits be confirmed, and replies and alarms
      be delivered, any number of times; sensors raise alarms at any time. */
  lemma WhatCanHappen(s: State, host: Host, current: nat, typical: nat, threshold: nat, memory: bytes, d: Datagram,
                      readings: seq<int>)
    ensures Datagram(CLIENT, Address(host, 7001), AskValue) in s.network ==>
              Enabled(s, AnswerValue(Datagram(CLIENT, Address(host, 7001), AskValue), current, typical))
    ensures Datagram(CLIENT, Address(host, 7000), AskThreshold(threshold)) in s.network
            && 1 <= threshold / MILLION <= 99 && |memory| >= MESSAGE_SIZE ==>
              Enabled(s, AnswerThreshold(Datagram(CLIENT, Address(host, 7000), AskThreshold(threshold)), [], memory))
    ensures d in s.network && d.to == Address(CENTRAL, 7502) ==> Enabled(s, Deliver(d))
    ensures d in s.network && d.to == Address(CENTRAL, 7500) && |s.alarmBuffer| == Alarms.BUFFER_SIZE ==>
              Enabled(s, DeliverAlarm(d))
    ensures readings != [] && (forall x :: x in readings ==> 1 <= x <= 99) ==> Enabled(s, RaiseAlarm(host, readings))
  {
    hide SensorVerdict, ThresholdQuestion;
    if 1 <= threshold / MILLION <= 99 {
      SensorTakesIntegerPart(threshold, []);
    }
  }
}

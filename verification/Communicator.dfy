/** Communicator: the questions of central, limited in rate, and the callbacks for their answers. */
module Communicator {
  import opened Bytes
  import opened Addresses
  import opened Numerals
  import opened Texts
  import SL = SensorList

  const CLIENT_PORT := 7501
  const SENSOR_PORT1 := 7000
  const SENSOR_PORT2 := 7001

  /** The two kinds of callback that the client's map may hold. */
  datatype Kind = ThresholdCallback | ValueCallback

  type Callbacks = map<Address, Kind>

  /** What is said in a datagram, before it is printed. */
  datatype Content =
    | AskValue
    | AskThreshold(threshold: nat)
    | ValueIs(current: nat, typical: nat)
    | ThresholdIs(value: nat, memory: bytes)
    | AlarmIs(alarmCurrent: nat, alarmTypical: nat)

  function Payload(c: Content): bytes
  {
    match c
    case AskValue => GET_VALUE
    case AskThreshold(threshold) => ThresholdQuestion(threshold)
    case ValueIs(current, typical) => ValueReply(current, typical)
    case ThresholdIs(value, memory) => ThresholdReply(value, MESSAGE_SIZE, memory)
    case AlarmIs(current, typical) => AlarmText(current * MILLION, typical * MILLION)
  }

  /** A question on its way out: its destination and content. */
  datatype Question = Question(to: Address, content: Content)

  datatype Result = Done | Skipped | UnknownSensor | BadThreshold | SendFailed

  /** What a call does: its outcome, the client's map, what is sent, and the calls on the sensor list. */
  datatype Effects = Effects(result: Result, callbacks: Callbacks, sent: Option<Question>, events: seq<SL.Event>)

  function Performed(sensors: SL.Sensors, events: seq<SL.Event>): SL.Sensors
    decreases |events|
  {
    if events == [] then sensors else Performed(SL.Applied(sensors, events[0]), events[1..])
  }

  function AskEffects(sensors: SL.Sensors, callbacks: Callbacks, host: Host, now: int, maxAnswerTime: int, sendOk: bool)
    : Effects
  {
    if host !in sensors then Effects(UnknownSensor, callbacks, None, [])
    else if now - sensors[host].lastValueQuestion < maxAnswerTime then Effects(Skipped, callbacks, None, [])
    else if !sendOk then Effects(SendFailed, callbacks, None, [])
    else
      var to := Address(host, SENSOR_PORT2);
      Effects(Done, callbacks[to := ValueCallback], Some(Question(to, AskValue)), [SL.ValueAsked(host, now)])
  }

  /** threshold is in millionths. */
  function ThresholdEffects(sensors: SL.Sensors, callbacks: Callbacks, host: Host, threshold: int, now: int,
                            maxAnswerTime: int, sendOk: bool): Effects
  {
    if threshold < 0 || threshold > 100 * MILLION then Effects(BadThreshold, callbacks, None, [])
    else if host !in sensors then Effects(UnknownSensor, callbacks, None, [])
    else if now - sensors[host].lastThresholdQuestion < maxAnswerTime then Effects(Skipped, callbacks, None, [])
    else if !sendOk then Effects(SendFailed, callbacks, None, [])
    else
      var to := Address(host, SENSOR_PORT1);
      Effects(Done, callbacks[to := ThresholdCallback], Some(Question(to, AskThreshold(threshold))),
              [SL.ThresholdAsked(host, now)])
  }

  function AddEffects(sensors: SL.Sensors, callbacks: Callbacks, host: Host, threshold: int, now: int,
                      maxAnswerTime: int, sendOk: bool): Effects
  {
    if threshold < 0 || threshold > 100 * MILLION then Effects(BadThreshold, callbacks, None, [])
    else
      var added := SL.Applied(sensors, SL.Added(host));
      var e := ThresholdEffects(added, callbacks, host, threshold, now, maxAnswerTime, sendOk);
      e.(events := [SL.Added(host)] + e.events)
  }

  /** The two callbacks: what they do to the sensor list. */
  function AnswerEvents(kind: Kind, host: Host, msg: bytes): seq<SL.Event>
  {
    match kind
    case ThresholdCallback =>
      (match ThresholdAnswer(msg) case None => [] case Some(t) => [SL.ThresholdSet(host, t)])
    case ValueCallback =>
      (match ValueAnswer(msg) case None => [] case Some((c, t)) => [SL.ValuesSet(host, c, t)])
  }

  class Communicator {
    const list: SL.SensorList
    const maxAnswerTime: int
    var callbacks: Callbacks
    var sent: seq<Question>

    constructor (list: SL.SensorList, maxAnswerTime: int)
      ensures this.list == list && this.maxAnswerTime == maxAnswerTime && callbacks == map[] && sent == []
    {
      this.list, this.maxAnswerTime, callbacks, sent := list, maxAnswerTime, map[], [];
    }

    /** The new state after a call with the given effects. */
    ghost predicate HasDone(e: Effects, sensors: SL.Sensors, history: seq<SL.Event>, before: seq<Question>)
      reads this, list
    {
      && list.Valid() && list.sensors == Performed(sensors, e.events) && list.history == history + e.events
      && callbacks == e.callbacks
      && sent == before + (if e.sent.Some? then [e.sent.value] else [])
    }

    method AskForValues(host: Host, now: int, sendOk: bool) returns (r: Result)
      requires list.Valid()
      modifies this, list
      ensures var e := AskEffects(old(list.sensors), old(callbacks), host, now, maxAnswerTime, sendOk);
              r == e.result && HasDone(e, old(list.sensors), old(list.history), old(sent))
    {
      hide SL.Represents;
      if host !in list.sensors {
        return UnknownSensor;
      }
      if now - list.sensors[host].lastValueQuestion < maxAnswerTime {
        return Skipped;
      }
      if !sendOk {
        return SendFailed;
      }
      sent := sent + [Question(Address(host, SENSOR_PORT2), AskValue)];
      callbacks := callbacks[Address(host, SENSOR_PORT2) := ValueCallback];
      var ok := list.SetLastValueQuestion(host, now);
      PerformedOne(old(list.sensors), SL.ValueAsked(host, now));
      r := Done;
    }

    method SetThreshold(host: Host, threshold: int, now: int, sendOk: bool) returns (r: Result)
      requires list.Valid()
      modifies this, list
      ensures var e := ThresholdEffects(old(list.sensors), old(callbacks), host, threshold, now, maxAnswerTime, sendOk);
              r == e.result && HasDone(e, old(list.sensors), old(list.history), old(sent))
    {
      hide SL.Represents;
      if threshold < 0 || threshold > 100 * MILLION {
        return BadThreshold;
      }
      if host !in list.sensors {
        return UnknownSensor;
      }
      if now - list.sensors[host].lastThresholdQuestion < maxAnswerTime {
        return Skipped;
      }
      if !sendOk {
        return SendFailed;
      }
      sent := sent + [Question(Address(host, SENSOR_PORT1), AskThreshold(threshold))];
      callbacks := callbacks[Address(host, SENSOR_PORT1) := ThresholdCallback];
      var ok := list.SetLastThresholdQuestion(host, now);
      PerformedOne(old(list.sensors), SL.ThresholdAsked(host, now));
      r := Done;
    }

    method AddSensor(host: Host, threshold: int, now: int, sendOk: bool) returns (r: Result)
      requires list.Valid()
      modifies this, list
      ensures var e := AddEffects(old(list.sensors), old(callbacks), host, threshold, now, maxAnswerTime, sendOk);
              r == e.result && HasDone(e, old(list.sensors), old(list.history), old(sent))
    {
      hide SL.Represents, SL.Applied, ThresholdEffects;
      if threshold < 0 || threshold > 100 * MILLION {
        return BadThreshold;
      }
      list.AddSensor(host);
      ghost var e := ThresholdEffects(list.sensors, callbacks, host, threshold, now, maxAnswerTime, sendOk);
      r := SetThreshold(host, threshold, now, sendOk);
      assert ([SL.Added(host)] + e.events)[1..] == e.events;
      Associative(old(list.history), [SL.Added(host)], e.events);
    }

    /** A callback taken out of the map runs on an answer from the host. */
    method CallbackOnReceive(kind: Kind, host: Host, msg: bytes)
      requires list.Valid()
      modifies list
      ensures list.Valid()
      ensures list.sensors == Performed(old(list.sensors), AnswerEvents(kind, host, msg))
      ensures list.history == old(list.history) + AnswerEvents(kind, host, msg)
    {
      hide SL.Represents, ThresholdAnswer, ValueAnswer;
      match kind
      case ThresholdCallback =>
        var threshold := ThresholdAnswer(msg);
        if threshold.Some? {
          PerformedOne(list.sensors, SL.ThresholdSet(host, threshold.value));
          var ok := list.SetThreshold(host, threshold.value);
        }
      case ValueCallback =>
        var values := ValueAnswer(msg);
        if values.Some? {
          PerformedOne(list.sensors, SL.ValuesSet(host, values.value.0, values.value.1));
          var ok := list.SetValues(host, values.value.0, values.value.1);
        }
    }
  }

  lemma PerformedOne(sensors: SL.Sensors, e: SL.Event)
    ensures Performed(sensors, [e]) == SL.Applied(sensors, e)
  {}

  lemma {:induction false} PerformedRepresents(sensors: SL.Sensors, history: seq<SL.Event>, events: seq<SL.Event>)
    requires SL.Represents(sensors, history)
    ensures SL.Represents(Performed(sensors, events), history + events)
    decreases |events|
  {
    hide SL.Represents;
    if events == [] {
      assert history + events == history;
    } else {
      SL.RepresentsKept(sensors, history, events[0]);
      PerformedRepresents(SL.Applied(sensors, events[0]), history + [events[0]], events[1..]);
      assert history + [events[0]] + events[1..] == history + events;
    }
  }
}

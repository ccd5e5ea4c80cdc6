/** SensorList: what central knows about each sensor, and the history that it stands for. */
module SensorList {
  import opened Bytes
  import opened Addresses

  datatype Status = Correct | NoCommunication

  datatype SensorState = SensorState(currentValue: real, typicalValue: real, threshold: real, status: Status)

  /** flag is true from the first question until an answer, and from the start. */
  datatype SensorInfo = SensorInfo(
    currentValue: real, typicalValue: real, threshold: real,
    flag: bool, timeSettingFlag: int, lastValueQuestion: int, lastThresholdQuestion: int)

  const NEW := SensorInfo(0.0, 0.0, 100.0, true, 0, 0, 0)

  /** The calls that change the list, with the clock second where it matters. */
  datatype Event =
    | Added(host: Host)
    | Erased(host: Host)
    | ThresholdSet(host: Host, threshold: real)
    | ValuesSet(host: Host, currentValue: real, typicalValue: real)
    | ValueAsked(host: Host, at: int)
    | ThresholdAsked(host: Host, at: int)
  {
    predicate IsAnswer() { ThresholdSet? || ValuesSet? }

    predicate IsQuestion() { ValueAsked? || ThresholdAsked? }
  }

  function Asked(info: SensorInfo, at: int): SensorInfo
  {
    if info.flag then info else info.(flag := true, timeSettingFlag := at)
  }

  /** The effect of an event on the entry of its sensor. */
  function Effect(info: SensorInfo, e: Event): SensorInfo
  {
    match e
    case ThresholdSet(_, t) => info.(threshold := t, flag := false)
    case ValuesSet(_, c, t) => info.(currentValue := c, typicalValue := t, flag := false)
    case ValueAsked(_, at) => Asked(info.(lastValueQuestion := at), at)
    case ThresholdAsked(_, at) => Asked(info.(lastThresholdQuestion := at), at)
    case _ => info
  }

  type Sensors = map<Host, SensorInfo>

  /** The effect of an event on the list; events for sensors that are not listed change nothing. */
  function Applied(sensors: Sensors, e: Event): Sensors
  {
    match e
    case Added(host) => if host in sensors then sensors else sensors[host := NEW]
    case Erased(host) => sensors - {host}
    case _ => if e.host in sensors then sensors[e.host := Effect(sensors[e.host], e)] else sensors
  }

  function StateOf(info: SensorInfo, now: int, maxAnswerTime: int): SensorState
  {
    SensorState(info.currentValue, info.typicalValue, info.threshold,
                if !info.flag || now - info.timeSettingFlag < maxAnswerTime then Correct else NoCommunication)
  }

  // ---------------------------------------------------------------- history

  /** What happened to a sensor since it was last added; None while it is not listed. */
  function Era(history: seq<Event>, host: Host): Option<seq<Event>>
  {
    if history == [] then None
    else
      var e := history[|history| - 1];
      var before := Era(history[..|history| - 1], host);
      if e.host != host then before
      else
        match e
        case Added(_) => if before.None? then Some([]) else before
        case Erased(_) => None
        case _ => if before.None? then None else Some(before.value + [e])
  }

  function Replayed(era: seq<Event>): SensorInfo
  {
    if era == [] then NEW else Effect(Replayed(era[..|era| - 1]), era[|era| - 1])
  }

  ghost predicate Represents(sensors: Sensors, history: seq<Event>)
  {
    forall host :: (host in sensors <==> Era(history, host).Some?)
                   && (host in sensors ==> sensors[host] == Replayed(Era(history, host).value))
  }

  lemma RepresentsKept(sensors: Sensors, history: seq<Event>, e: Event)
    requires Represents(sensors, history)
    ensures Represents(Applied(sensors, e), history + [e])
  {
    hide Effect, Replayed;
    var sensors', history' := Applied(sensors, e), history + [e];
    assert history'[..|history|] == history;
    forall host
      ensures (host in sensors' <==> Era(history', host).Some?)
              && (host in sensors' ==> sensors'[host] == Replayed(Era(history', host).value))
    {
      var before := Era(history, host);
      if host == e.host && before.Some? && !e.Added? && !e.Erased? {
        ReplayedSnoc(before.value, e);
      }
      ReplayedNone();
    }
  }

  lemma ReplayedSnoc(era: seq<Event>, e: Event)
    ensures Replayed(era + [e]) == Effect(Replayed(era), e)
  {
    assert (era + [e])[..|era|] == era;
  }

  lemma ReplayedNone()
    ensures Replayed([]) == NEW
  {}

  function LastAnswer(era: seq<Event>): (r: Option<nat>)
    ensures r.Some? ==> r.value < |era| && era[r.value].IsAnswer()
    ensures r.Some? ==> forall i :: r.value < i < |era| ==> !era[i].IsAnswer()
    ensures r.None? ==> forall i :: 0 <= i < |era| ==> !era[i].IsAnswer()
  {
    if era == [] then None
    else if era[|era| - 1].IsAnswer() then Some(|era| - 1)
    else LastAnswer(era[..|era| - 1])
  }

  function FirstQuestion(era: seq<Event>, from: nat): (r: Option<nat>)
    ensures r.Some? ==> from <= r.value < |era| && era[r.value].IsQuestion()
    ensures r.Some? ==> forall i :: from <= i < r.value ==> !era[i].IsQuestion()
    ensures r.None? ==> forall i :: from <= i < |era| ==> !era[i].IsQuestion()
    decreases |era| - from
  {
    if from >= |era| then None
    else if era[from].IsQuestion() then Some(from)
    else FirstQuestion(era, from + 1)
  }

  /** Since when an answer is outstanding: since the first question after the last answer; a sensor
      that never answered counts as asked at second 0. None when nothing is outstanding. */
  function OutstandingSince(era: seq<Event>): Option<int>
  {
    match LastAnswer(era)
    case None => Some(0)
    case Some(k) =>
      match FirstQuestion(era, k + 1)
      case None => None
      case Some(i) => Some(TimeOf(era[i]))
  }

  function TimeOf(e: Event): int
    requires e.IsQuestion()
  {
    match e case ValueAsked(_, at) => at case ThresholdAsked(_, at) => at
  }

  lemma LastAnswerSnoc(era: seq<Event>, e: Event)
    ensures LastAnswer(era + [e]) == if e.IsAnswer() then Some(|era|) else LastAnswer(era)
  {
    assert (era + [e])[..|era|] == era;
  }

  lemma FirstQuestionSnoc(era: seq<Event>, e: Event, from: nat)
    requires from <= |era|
    ensures FirstQuestion(era + [e], from)
         == if FirstQuestion(era, from).Some? then FirstQuestion(era, from)
            else if e.IsQuestion() then Some(|era|) else None
    decreases |era| - from
  {
    if from < |era| {
      assert (era + [e])[from] == era[from];
      FirstQuestionSnoc(era, e, from + 1);
    }
  }

  lemma OutstandingSnoc(era: seq<Event>, e: Event)
    ensures OutstandingSince(era + [e])
         == if e.IsAnswer() then None
            else if OutstandingSince(era).None? && e.IsQuestion() then Some(TimeOf(e))
            else OutstandingSince(era)
  {
    hide LastAnswer, FirstQuestion;
    LastAnswerSnoc(era, e);
    match LastAnswer(era + [e])
    case None =>
    case Some(k) =>
      if e.IsAnswer() {
        assert FirstQuestion(era + [e], k + 1) == None;
      } else {
        FirstQuestionSnoc(era, e, k + 1);
        var r := FirstQuestion(era, k + 1);
        assert r.Some? ==> (era + [e])[r.value] == era[r.value];
      }
  }

  /** The two fields flag and timeSettingFlag stand for the outstanding question. */
  lemma {:induction false} FlagMeansOutstanding(era: seq<Event>)
    ensures Replayed(era).flag <==> OutstandingSince(era).Some?
    ensures Replayed(era).flag ==> OutstandingSince(era) == Some(Replayed(era).timeSettingFlag)
  {
    hide OutstandingSince;
    if era == [] {
      assert OutstandingSince([]) == Some(0) by { NothingOutstanding(); }
    } else {
      var before, e := era[..|era| - 1], era[|era| - 1];
      assert era == before + [e];
      FlagMeansOutstanding(before);
      OutstandingSnoc(before, e);
    }
  }

  lemma NothingOutstanding()
    ensures OutstandingSince([]) == Some(0)
  {}

  /** The values and the threshold are those of the last answer of their kind, or the defaults. */
  lemma {:induction false} ValuesComeFromAnswers(era: seq<Event>)
    ensures var r := Replayed(era);
            || (exists i :: 0 <= i < |era| && era[i].ValuesSet?
                            && (r.currentValue, r.typicalValue) == (era[i].currentValue, era[i].typicalValue)
                            && forall j :: i < j < |era| ==> !era[j].ValuesSet?)
            || ((r.currentValue, r.typicalValue) == (0.0, 0.0) && forall j :: 0 <= j < |era| ==> !era[j].ValuesSet?)
    ensures var r := Replayed(era);
            || (exists i :: 0 <= i < |era| && era[i].ThresholdSet? && r.threshold == era[i].threshold
                            && forall j :: i < j < |era| ==> !era[j].ThresholdSet?)
            || (r.threshold == 100.0 && forall j :: 0 <= j < |era| ==> !era[j].ThresholdSet?)
  {
    if era != [] {
      var before := era[..|era| - 1];
      ValuesComeFromAnswers(before);
      assert forall j :: 0 <= j < |before| ==> era[j] == before[j];
    }
  }

  /** In every reachable list a sensor is reported NOCOMMUNICATION exactly when the first question
      since its last answer is at least maxAnswerTime old, or it never answered since it was added
      and the clock has passed maxAnswerTime. */
  lemma StatusRefinesHistory(sensors: Sensors, history: seq<Event>, host: Host, now: int, maxAnswerTime: int)
    requires Represents(sensors, history) && host in sensors
    ensures Era(history, host).Some?
    ensures StateOf(sensors[host], now, maxAnswerTime).status == NoCommunication <==>
              var since := OutstandingSince(Era(history, host).value);
              since.Some? && now - since.value >= maxAnswerTime
  {
    hide Era, OutstandingSince, Replayed;
    FlagMeansOutstanding(Era(history, host).value);
  }

  /** What a state says about what happened to a sensor since it was last added: NOCOMMUNICATION exactly when
      an answer is outstanding for maxAnswerTime, and the values of the last answers, or the defaults. */
  ghost predicate Tells(era: seq<Event>, state: SensorState, now: int, maxAnswerTime: int)
  {
    && (state.status == NoCommunication <==>
          OutstandingSince(era).Some? && now - OutstandingSince(era).value >= maxAnswerTime)
    && (state.currentValue, state.typicalValue) == LastValues(era)
    && state.threshold == LastThreshold(era)
  }

  function LastValues(era: seq<Event>): (real, real)
  {
    if era == [] then (0.0, 0.0)
    else
      match era[|era| - 1]
      case ValuesSet(_, current, typical) => (current, typical)
      case _ => LastValues(era[..|era| - 1])
  }

  function LastThreshold(era: seq<Event>): real
  {
    if era == [] then 100.0
    else
      match era[|era| - 1]
      case ThresholdSet(_, threshold) => threshold
      case _ => LastThreshold(era[..|era| - 1])
  }

  lemma {:induction false} ReplayedValues(era: seq<Event>)
    ensures (Replayed(era).currentValue, Replayed(era).typicalValue) == LastValues(era)
    ensures Replayed(era).threshold == LastThreshold(era)
  {
    if era != [] {
      ReplayedValues(era[..|era| - 1]);
    }
  }

  /** The state of a listed sensor tells its history. */
  lemma StateTells(sensors: Sensors, history: seq<Event>, host: Host, now: int, maxAnswerTime: int)
    requires Represents(sensors, history) && host in sensors
    ensures Era(history, host).Some?
    ensures Tells(Era(history, host).value, StateOf(sensors[host], now, maxAnswerTime), now, maxAnswerTime)
  {
    hide Era, OutstandingSince, Replayed;
    StatusRefinesHistory(sensors, history, host, now, maxAnswerTime);
    ReplayedValues(Era(history, host).value);
  }

  // -------------------------------------------------------------- the class

  class SensorList {
    const maxAnswerTime: int
    var sensors: Sensors
    ghost var history: seq<Event>

    ghost predicate Valid() reads this { Represents(sensors, history) }

    constructor (maxAnswerTime: int)
      ensures Valid() && sensors == map[] && history == [] && this.maxAnswerTime == maxAnswerTime
    {
      this.maxAnswerTime, sensors, history := maxAnswerTime, map[], [];
    }

    ghost predicate Recorded(before: Sensors, past: seq<Event>, e: Event)
      reads this
    {
      Valid() && sensors == Applied(before, e) && history == past + [e]
    }

    method AddSensor(address: Host)
      requires Valid()
      modifies this
      ensures Recorded(old(sensors), old(history), Added(address))
    {
      hide Represents;
      RepresentsKept(sensors, history, Added(address));
      history := history + [Added(address)];
      if address !in sensors {
        sensors := sensors[address := NEW];
      }
    }

    /** ok is false when the call throws invalid_argument, here and below. */
    method EraseSensor(address: Host) returns (ok: bool)
      requires Valid()
      modifies this
      ensures Recorded(old(sensors), old(history), Erased(address)) && (ok <==> address in old(sensors))
    {
      hide Represents;
      RepresentsKept(sensors, history, Erased(address));
      history := history + [Erased(address)];
      ok := address in sensors;
      sensors := sensors - {address};
    }

    method SetThreshold(address: Host, newThreshold: real) returns (ok: bool)
      requires Valid()
      modifies this
      ensures Recorded(old(sensors), old(history), ThresholdSet(address, newThreshold))
      ensures ok <==> address in old(sensors)
    {
      hide Represents;
      RepresentsKept(sensors, history, ThresholdSet(address, newThreshold));
      history := history + [ThresholdSet(address, newThreshold)];
      if address !in sensors {
        return false;
      }
      sensors := sensors[address := sensors[address].(threshold := newThreshold)];
      sensors := sensors[address := sensors[address].(flag := false)];
      assert sensors == Applied(old(sensors), ThresholdSet(address, newThreshold));
      ok := true;
    }

    method SetValues(address: Host, newCurrentValue: real, newTypicalValue: real) returns (ok: bool)
      requires Valid()
      modifies this
      ensures Recorded(old(sensors), old(history), ValuesSet(address, newCurrentValue, newTypicalValue))
      ensures ok <==> address in old(sensors)
    {
      hide Represents;
      RepresentsKept(sensors, history, ValuesSet(address, newCurrentValue, newTypicalValue));
      history := history + [ValuesSet(address, newCurrentValue, newTypicalValue)];
      if address !in sensors {
        return false;
      }
      var info := sensors[address];
      sensors := sensors[address := info.(currentValue := newCurrentValue, typicalValue := newTypicalValue)];
      sensors := sensors[address := sensors[address].(flag := false)];
      assert sensors == Applied(old(sensors), ValuesSet(address, newCurrentValue, newTypicalValue));
      ok := true;
    }

    method SetLastValueQuestion(address: Host, now: int) returns (ok: bool)
      requires Valid()
      modifies this
      ensures Recorded(old(sensors), old(history), ValueAsked(address, now)) && (ok <==> address in old(sensors))
    {
      hide Represents;
      RepresentsKept(sensors, history, ValueAsked(address, now));
      history := history + [ValueAsked(address, now)];
      if address !in sensors {
        return false;
      }
      sensors := sensors[address := sensors[address].(lastValueQuestion := now)];
      if !sensors[address].flag {
        sensors := sensors[address := sensors[address].(flag := true, timeSettingFlag := now)];
      }
      assert sensors == Applied(old(sensors), ValueAsked(address, now));
      ok := true;
    }

    method SetLastThresholdQuestion(address: Host, now: int) returns (ok: bool)
      requires Valid()
      modifies this
      ensures Recorded(old(sensors), old(history), ThresholdAsked(address, now)) && (ok <==> address in old(sensors))
    {
      hide Represents;
      RepresentsKept(sensors, history, ThresholdAsked(address, now));
      history := history + [ThresholdAsked(address, now)];
      if address !in sensors {
        return false;
      }
      sensors := sensors[address := sensors[address].(lastThresholdQuestion := now)];
      if !sensors[address].flag {
        sensors := sensors[address := sensors[address].(flag := true, timeSettingFlag := now)];
      }
      assert sensors == Applied(old(sensors), ThresholdAsked(address, now));
      ok := true;
    }

    /** None is the exception for an address that was never added, or erased since. */
    method GetSensorState(address: Host, now: int) returns (state: Option<SensorState>)
      requires Valid()
      ensures state.Some? <==> Era(history, address).Some?
      ensures state.Some? ==> Tells(Era(history, address).value, state.value, now, maxAnswerTime)
      ensures state == if address in sensors then Some(StateOf(sensors[address], now, maxAnswerTime)) else None
    {
      hide Era, Tells;
      if address !in sensors {
        return None;
      }
      StateTells(sensors, history, address, now, maxAnswerTime);
      state := Some(StateOf(sensors[address], now, maxAnswerTime));
    }

    /** Every listed sensor once, with the state that GetSensorState would report. */
    method GetSensors(now: int) returns (tmp: seq<(Host, SensorState)>)
      requires Valid()
      ensures forall i :: 0 <= i < |tmp| ==>
                Era(history, tmp[i].0).Some? && Tells(Era(history, tmp[i].0).value, tmp[i].1, now, maxAnswerTime)
      ensures forall i :: 0 <= i < |tmp| ==>
                tmp[i].0 in sensors && tmp[i].1 == StateOf(sensors[tmp[i].0], now, maxAnswerTime)
      ensures forall i, j :: 0 <= i < j < |tmp| ==> tmp[i].0 != tmp[j].0
      ensures forall host :: host in sensors ==> exists i :: 0 <= i < |tmp| && tmp[i].0 == host
    {
      hide Era, Tells, Represents;
      tmp := [];
      var left := sensors.Keys;
      while left != {}
        invariant left <= sensors.Keys
        invariant forall i :: 0 <= i < |tmp| ==>
                    tmp[i].0 in sensors && tmp[i].0 !in left
                    && tmp[i].1 == StateOf(sensors[tmp[i].0], now, maxAnswerTime)
        invariant forall i, j :: 0 <= i < j < |tmp| ==> tmp[i].0 != tmp[j].0
        invariant forall host :: host in sensors && host !in left ==> exists i :: 0 <= i < |tmp| && tmp[i].0 == host
        decreases left
      {
        var host :| host in left;
        ghost var before := tmp;
        tmp := tmp + [(host, StateOf(sensors[host], now, maxAnswerTime))];
        assert tmp[|before|].0 == host && forall i :: 0 <= i < |before| ==> tmp[i] == before[i];
        left := left - {host};
      }
      forall i | 0 <= i < |tmp|
        ensures Era(history, tmp[i].0).Some? && Tells(Era(history, tmp[i].0).value, tmp[i].1, now, maxAnswerTime)
      {
        StateTells(sensors, history, tmp[i].0, now, maxAnswerTime);
      }
    }
  }
}

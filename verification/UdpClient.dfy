/** common::UDPClient: callbacks saved by any number of senders under the address they wrote
    to, and taken out by the one receiver. Each critical section is one step. */
module UdpClient {
  import opened Bytes
  import opened Addresses

  type Callback = nat

  /** Where a callback that was passed to sendAndSaveCallback stands. */
  datatype Fate =
    | Sending(to: Address)  // its datagram is being sent
    | Pending(at: Address)  // in callbackMap
    | Taken(from: Address)  // moved out of the map for a datagram from there
    | Fired(from: Address)
    | Replaced
    | Dropped               // send failed, an exception was thrown

  /** The map holds unique_ptrs; None is a null one. */
  datatype State = State(callbackMap: map<Address, Option<Callback>>, fates: map<Callback, Fate>)

  const INIT := State(map[], map[])

  datatype Action =
    | Pass(id: Callback, to: Address)
    | FailSend(id: Callback)
    | Save(id: Callback, to: Address)
    | SaveNull(to: Address)
    | Take(from: Address)  // a datagram arrived, the receiver's critical section
    | Fire(id: Callback)

  predicate Enabled(s: State, a: Action)
  {
    match a
    case Pass(id, _) => id !in s.fates
    case FailSend(id) => id in s.fates && s.fates[id].Sending?
    case Save(id, to) => id in s.fates && s.fates[id] == Sending(to)
    case SaveNull(_) => true
    case Take(_) => true
    case Fire(id) => id in s.fates && s.fates[id].Taken?
  }

  /** What happens to the fates when the entry at an address goes out of the map. */
  function Out(s: State, address: Address, fate: Fate): map<Callback, Fate>
  {
    if address in s.callbackMap && s.callbackMap[address].Some? then s.fates[s.callbackMap[address].value := fate]
    else s.fates
  }

  function Next(s: State, a: Action): State
    requires Enabled(s, a)
  {
    match a
    case Pass(id, to) => s.(fates := s.fates[id := Sending(to)])
    case FailSend(id) => s.(fates := s.fates[id := Dropped])
    case Save(id, to) => State(s.callbackMap[to := Some(id)], Out(s, to, Replaced)[id := Pending(to)])
    case SaveNull(to) => State(s.callbackMap[to := None], Out(s, to, Replaced))
    case Take(from) => State(s.callbackMap - {from}, Out(s, from, Taken(from)))
    case Fire(id) => s.(fates := s.fates[id := Fired(s.fates[id].from)])
  }

  /** The pending callbacks are exactly those in the map, each at its address. */
  predicate Inv(s: State)
  {
    && (forall address :: address in s.callbackMap && s.callbackMap[address].Some? ==>
          s.callbackMap[address].value in s.fates && s.fates[s.callbackMap[address].value] == Pending(address))
    && (forall id :: id in s.fates && s.fates[id].Pending? ==>
          s.fates[id].at in s.callbackMap && s.callbackMap[s.fates[id].at] == Some(id))
  }

  lemma InvKept(s: State, a: Action)
    requires Inv(s) && Enabled(s, a)
    ensures Inv(Next(s, a))
  {}

  predicate IsFinal(fate: Fate) { fate.Fired? || fate.Replaced? || fate.Dropped? }

  /** No callback is lost, and one that fired, was replaced or was dropped stays so. */
  lemma FatesKept(s: State, a: Action, id: Callback)
    requires Inv(s) && Enabled(s, a) && id in s.fates
    ensures id in Next(s, a).fates
    ensures IsFinal(s.fates[id]) ==> Next(s, a).fates[id] == s.fates[id]
  {}

  // ------------------------------------------------------------------- runs

  predicate Legal(run: seq<Action>)
    decreases |run|, 0
  {
    run == [] || (Legal(run[..|run| - 1]) && Enabled(After(run[..|run| - 1]), run[|run| - 1]))
  }

  function After(run: seq<Action>): State
    requires Legal(run)
    decreases |run|, 1
  {
    if run == [] then INIT else Next(After(run[..|run| - 1]), run[|run| - 1])
  }

  lemma {:induction false} LegalPrefix(run: seq<Action>, k: nat)
    requires Legal(run) && k <= |run|
    ensures Legal(run[..k])
    ensures k < |run| ==> Enabled(After(run[..k]), run[k])
    decreases |run|
  {
    if k < |run| {
      var before := run[..|run| - 1];
      assert k < |before| ==> before[..k] == run[..k];
      if k < |before| {
        LegalPrefix(before, k);
      } else {
        assert run[..k] == before;
      }
    } else {
      assert run[..k] == run;
    }
  }

  /** In every interleaving a callback is pending exactly when the map holds it, at the address
      it was sent to. */
  lemma {:induction false} CallbacksAreConserved(run: seq<Action>)
    requires Legal(run)
    ensures Inv(After(run))
    decreases |run|
  {
    if run != [] {
      CallbacksAreConserved(run[..|run| - 1]);
      InvKept(After(run[..|run| - 1]), run[|run| - 1]);
    }
  }

  /** The address that a callback in the middle of its way has to do with. */
  function AddressOf(fate: Fate): Option<Address>
  {
    match fate
    case Sending(to) => Some(to)
    case Pending(at) => Some(at)
    case Taken(from) => Some(from)
    case Fired(from) => Some(from)
    case _ => None
  }

  /** A callback is accounted for exactly when it was passed in, and it is saved under, taken by and
      fired for the address it was passed in with, and no other. */
  lemma {:induction false} AccountedIffPassed(run: seq<Action>, id: Callback)
    requires Legal(run)
    ensures id in After(run).fates <==> exists k, to :: 0 <= k < |run| && run[k] == Pass(id, to)
    ensures id in After(run).fates && AddressOf(After(run).fates[id]).Some? ==>
              exists k :: 0 <= k < |run| && run[k] == Pass(id, AddressOf(After(run).fates[id]).value)
    decreases |run|
  {
    if run != [] {
      var before, last := run[..|run| - 1], run[|run| - 1];
      AccountedIffPassed(before, id);
      CallbacksAreConserved(before);
      assert forall k :: 0 <= k < |before| ==> run[k] == before[k];
      assert run[|before|] == last;
      FateMoves(After(before), last, id);
    }
  }

  lemma FateMoves(s: State, a: Action, id: Callback)
    requires Inv(s) && Enabled(s, a)
    ensures id in Next(s, a).fates <==> id in s.fates || (a.Pass? && a.id == id)
    ensures id in s.fates && AddressOf(Next(s, a).fates[id]).Some? ==>
              AddressOf(s.fates[id]) == AddressOf(Next(s, a).fates[id])
  {}

  /** A final fate lasts to the end of the run. */
  lemma {:induction false} FinalLasts(run: seq<Action>, id: Callback, k: nat)
    requires Legal(run) && k <= |run| && Legal(run[..k])
    requires id in After(run[..k]).fates && IsFinal(After(run[..k]).fates[id])
    ensures id in After(run).fates && After(run).fates[id] == After(run[..k]).fates[id]
    decreases |run|
  {
    if k < |run| {
      var before := run[..|run| - 1];
      assert before[..k] == run[..k];
      FinalLasts(before, id, k);
      CallbacksAreConserved(before);
      FatesKept(After(before), run[|run| - 1], id);
    } else {
      assert run[..k] == run;
    }
  }

  /** None fires twice, nor after it was replaced or dropped. */
  lemma FinalNeverFires(run: seq<Action>, id: Callback, i: nat, j: nat)
    requires Legal(run) && i < j < |run| && run[j] == Fire(id)
    ensures run[i] != Fire(id) && run[i] != FailSend(id)
    ensures Legal(run[..i])
            && (id in After(run[..i]).fates ==> !IsFinal(After(run[..i]).fates[id]))
  {
    LegalPrefix(run, i);
    LegalPrefix(run, j);
    LegalPrefix(run, i + 1);
    assert run[..j][..i] == run[..i] && run[..j][..i + 1] == run[..i + 1] && run[..i + 1][..i] == run[..i];
    if id in After(run[..i + 1]).fates && IsFinal(After(run[..i + 1]).fates[id]) {
      FinalLasts(run[..j], id, i + 1);
      assert false;
    }
    if id in After(run[..i]).fates && IsFinal(After(run[..i]).fates[id]) {
      FinalLasts(run[..j], id, i);
      assert false;
    }
  }

  // ------------------------------------------------ which callback answers

  datatype Entry = Absent | Present(callback: Option<Callback>)

  /** Told from the history alone: what was saved last for an address, unless a datagram from
      there was taken since. */
  function LastEntry(run: seq<Action>, address: Address): Entry
  {
    if run == [] then Absent
    else
      match run[|run| - 1]
      case Save(id, to) => if to == address then Present(Some(id)) else LastEntry(run[..|run| - 1], address)
      case SaveNull(to) => if to == address then Present(None) else LastEntry(run[..|run| - 1], address)
      case Take(from) => if from == address then Absent else LastEntry(run[..|run| - 1], address)
      case _ => LastEntry(run[..|run| - 1], address)
  }

  function EntryAt(s: State, address: Address): Entry
  {
    if address in s.callbackMap then Present(s.callbackMap[address]) else Absent
  }

  /** The callback that a datagram gets is the latest one saved for its sender that is still there. */
  lemma {:induction false} LatestCallbackAnswers(run: seq<Action>, address: Address)
    requires Legal(run)
    ensures EntryAt(After(run), address) == LastEntry(run, address)
    decreases |run|
  {
    if run != [] {
      LatestCallbackAnswers(run[..|run| - 1], address);
    }
  }

  // -------------------------------------------------------------- the class

  datatype Handling = Called(id: Callback) | KillMessage | DefaultCalled

  class UDPClient {
    const sendPort: Port
    var callbackMap: map<Address, Option<Callback>>
    ghost var run: seq<Action>

    /** The map is the one the run so far leads to. */
    ghost predicate Valid()
      reads this
    {
      Legal(run) && callbackMap == After(run).callbackMap
    }

    constructor (sendPort: Port)
      ensures Valid() && run == [] && this.sendPort == sendPort
    {
      this.sendPort, callbackMap, run := sendPort, map[], [];
    }

    ghost method Record(a: Action)
      requires Legal(run) && Enabled(After(run), a)
      modifies this`run
      ensures run == old(run) + [a] && Legal(run) && After(run) == Next(old(After(run)), a)
    {
      assert (run + [a])[..|run|] == run;
      run := run + [a];
    }

    /** sendAndSaveCallback for a callback of its own; ok is false when the send fails and throws. */
    method SendAndSaveCallback(id: Callback, address: Address, sent: bool) returns (ok: bool)
      requires Valid() && id !in After(run).fates
      modifies this
      ensures Valid() && ok == sent
      ensures run == old(run) + [Pass(id, address)] + [if sent then Save(id, address) else FailSend(id)]
      ensures callbackMap == if sent then old(callbackMap)[address := Some(id)] else old(callbackMap)
    {
      hide Legal, After;
      Record(Pass(id, address));
      if !sent {
        Record(FailSend(id));
        return false;
      }
      Record(Save(id, address));
      callbackMap := callbackMap[address := Some(id)];
      ok := true;
    }

    /** handleReceiveAndCheckIfEnd: the callback saved for the sender, else the kill message, else
        the default callback. first is the first byte of the message. */
    method HandleReceive(from: Address, first: byte) returns (h: Handling)
      requires Valid()
      modifies this
      ensures Valid() && callbackMap == old(callbackMap) - {from}
      ensures h == match LastEntry(old(run), from)
                   case Present(Some(id)) => Called(id)
                   case _ => if first == NUL && IsLoopback(from, sendPort) then KillMessage else DefaultCalled
      ensures run == old(run) + [Take(from)] + (if h.Called? then [Fire(h.id)] else [])
    {
      hide Legal, After;
      LatestCallbackAnswers(run, from);
      CallbacksAreConserved(run);
      var entry := if from in callbackMap then callbackMap[from] else None;
      Record(Take(from));
      callbackMap := callbackMap - {from};
      if entry.Some? {
        Record(Fire(entry.value));
        h := Called(entry.value);
      } else if first == NUL && IsLoopback(from, sendPort) {
        h := KillMessage;
      } else {
        h := DefaultCalled;
      }
    }
  }

  /** A callback pending at the address of the ending message takes it for an answer; the next one ends. */
  method EndingMessageIsAnswered(id: Callback, port: Port) returns (first: Handling, second: Handling)
    ensures first == Called(id) && second == KillMessage
  {
    var client := new UDPClient(port);
    var address := Address(LOCALHOST, port);
    var ok := client.SendAndSaveCallback(id, address, true);
    SavedIsLast(client.run[..1], id, address);
    assert client.run == client.run[..1] + [Save(id, address)];
    ghost var before := client.run;
    first := client.HandleReceive(address, NUL);
    TakenIsAbsent(before, id, address);
    assert client.run == before + [Take(address), Fire(id)];
    second := client.HandleReceive(address, NUL);
  }

  lemma SavedIsLast(run: seq<Action>, id: Callback, address: Address)
    ensures LastEntry(run + [Save(id, address)], address) == Present(Some(id))
  {}

  lemma TakenIsAbsent(run: seq<Action>, id: Callback, address: Address)
    ensures LastEntry(run + [Take(address), Fire(id)], address) == Absent
  {
    var longer := run + [Take(address), Fire(id)];
    assert longer[..|longer| - 1] == run + [Take(address)];
  }

  /** Fired means called, once, and dropped means that the send failed. */
  lemma {:induction false} FiredAndDroppedIff(run: seq<Action>, id: Callback)
    requires Legal(run)
    ensures id in After(run).fates && After(run).fates[id].Fired? <==> Fire(id) in run
    ensures id in After(run).fates && After(run).fates[id].Dropped? <==> FailSend(id) in run
    decreases |run|
  {
    hide Enabled, Next, Inv;
    if run != [] {
      var before, a := run[..|run| - 1], run[|run| - 1];
      assert run == before + [a];
      FiredAndDroppedIff(before, id);
      CallbacksAreConserved(before);
      FateStep(After(before), a, id);
    }
  }

  lemma FateStep(s: State, a: Action, id: Callback)
    requires Inv(s) && Enabled(s, a)
    ensures var n := Next(s, a);
            && (id in n.fates && n.fates[id].Fired? <==> a == Fire(id) || (id in s.fates && s.fates[id].Fired?))
            && (id in n.fates && n.fates[id].Dropped? <==> a == FailSend(id) || (id in s.fates && s.fates[id].Dropped?))
  {}

  /** A step that saves something at the address. */
  predicate SavesAt(a: Action, address: Address)
  {
    (a.Save? || a.SaveNull?) && a.to == address
  }

  /** Replaced means that something was saved at an address where this was the latest, still pending callback. */
  lemma {:induction false} ReplacedIff(run: seq<Action>, id: Callback)
    requires Legal(run)
    ensures id in After(run).fates && After(run).fates[id].Replaced? <==> exists k, to :: ReplacedAt(run, id, k, to)
    decreases |run|
  {
    hide Enabled, Next, Inv, LastEntry;
    if run != [] {
      var before, a := run[..|run| - 1], run[|run| - 1];
      ReplacedIff(before, id);
      CallbacksAreConserved(before);
      forall k, to
        ensures ReplacedAt(run, id, k, to)
           <==> if k == |before| then SavesAt(a, to) && LastEntry(before, to) == Present(Some(id))
                else ReplacedAt(before, id, k, to)
      {
        assert 0 <= k < |before| ==> run[..k] == before[..k];
      }
      if a.Save? || a.SaveNull? {
        LatestCallbackAnswers(before, a.to);
        assert SavesAt(a, a.to);
      }
      ReplacedStep(After(before), a, id);
      assert id in After(run).fates && After(run).fates[id].Replaced?
        <==> (id in After(before).fates && After(before).fates[id].Replaced?)
             || ((a.Save? || a.SaveNull?) && LastEntry(before, a.to) == Present(Some(id)));
      assert (a.Save? || a.SaveNull?) && LastEntry(before, a.to) == Present(Some(id)) ==>
          ReplacedAt(run, id, |before|, a.to);
      assert forall k, to :: ReplacedAt(before, id, k, to) ==> ReplacedAt(run, id, k, to);
    }
  }

  ghost predicate ReplacedAt(run: seq<Action>, id: Callback, k: int, to: Address)
  {
    0 <= k < |run| && SavesAt(run[k], to) && LastEntry(run[..k], to) == Present(Some(id))
  }

  lemma ReplacedStep(s: State, a: Action, id: Callback)
    requires Inv(s) && Enabled(s, a)
    ensures id in Next(s, a).fates && Next(s, a).fates[id].Replaced?
       <==> (id in s.fates && s.fates[id].Replaced?)
            || ((a.Save? || a.SaveNull?) && EntryAt(s, a.to) == Present(Some(id)))
  {}
}

/** ScopeRunner: shared locks and stop on one atomic counter, as interleaved atomic
    steps of any number of calls. A compare-and-swap may fail for no reason. */
module ScopeRunner {

  /** Where a call of continue_lock or stop, and the lock it handed out, stands. */
  datatype Call =
    | Continuing(expected: int)  // continue_lock, in front of its loop condition
    | Locked                     // continue_lock returned a lock that lives
    | Released                   // that lock has been destroyed
    | Denied                     // continue_lock returned nullptr
    | Stopping                   // stop, in front of its loop condition
    | Stopped                    // stop returned

  datatype State = State(count: int, calls: map<nat, Call>)

  const INIT := State(0, map[])

  datatype Action =
    | CallContinue(id: nat)
    | TryContinue(id: nat, spurious: bool)
    | Release(id: nat)
    | CallStop(id: nat)
    | TryStop(id: nat, spurious: bool)

  predicate Enabled(s: State, a: Action)
  {
    match a
    case CallContinue(id) => id !in s.calls
    case TryContinue(id, _) => id in s.calls && s.calls[id].Continuing?
    case Release(id) => id in s.calls && s.calls[id].Locked?
    case CallStop(id) => id !in s.calls
    case TryStop(id, _) => id in s.calls && s.calls[id].Stopping?
  }

  function Next(s: State, a: Action): State
    requires Enabled(s, a)
  {
    match a
    case CallContinue(id) => s.(calls := s.calls[id := Continuing(s.count)])
    case TryContinue(id, spurious) =>
      var expected := s.calls[id].expected;
      if expected < 0 then s.(calls := s.calls[id := Denied])
      else if s.count == expected && !spurious then State(expected + 1, s.calls[id := Locked])
      else s.(calls := s.calls[id := Continuing(s.count)])
    case Release(id) => State(s.count - 1, s.calls[id := Released])
    case CallStop(id) => s.(calls := s.calls[id := Stopping])
    case TryStop(id, spurious) =>
      if s.count == 0 && !spurious then State(-1, s.calls[id := Stopped])
      else if s.count < 0 then s.(calls := s.calls[id := Stopped])
      else s
  }

  /** The locks that live. */
  function Live(s: State): set<nat> { set id | id in s.calls && s.calls[id].Locked? }

  /** The calls of continue_lock that ever got a lock. */
  function Granted(s: State): set<nat> { set id | id in s.calls && (s.calls[id].Locked? || s.calls[id].Released?) }

  predicate IsClosed(s: State) { s.count == -1 && Live(s) == {} }

  /** The counter counts the live locks until it is closed; a call that saw a negative counter,
      or an end of stop, means that it is. */
  predicate Inv(s: State)
  {
    && (IsClosed(s) || s.count == |Live(s)|)
    && forall id :: id in s.calls ==>
         match s.calls[id]
         case Continuing(expected) => expected < 0 ==> IsClosed(s)
         case Denied => IsClosed(s)
         case Stopped => IsClosed(s)
         case _ => true
  }

  lemma LiveAfter(s: State, id: nat, call: Call)
    ensures Live(s.(calls := s.calls[id := call])) == if call.Locked? then Live(s) + {id} else Live(s) - {id}
  {}

  lemma InvKept(s: State, a: Action)
    requires Inv(s) && Enabled(s, a)
    ensures Inv(Next(s, a))
  {
    var t := Next(s, a);
    if t != s {
      LiveAfter(s, a.id, t.calls[a.id]);
      assert Live(t) == Live(s.(calls := t.calls));
    }
    if a.Release? {
      assert a.id in Live(s);
    }
  }

  /** Once closed, nothing opens it again and no further lock is granted. */
  lemma ClosedKept(s: State, a: Action)
    requires Inv(s) && IsClosed(s) && Enabled(s, a)
    ensures IsClosed(Next(s, a)) && Granted(Next(s, a)) == Granted(s)
  {
    var t := Next(s, a);
    assert forall id :: id in s.calls && s.calls[id].Locked? ==> id in Live(s);
    if t != s {
      LiveAfter(s, a.id, t.calls[a.id]);
      assert Live(t) == Live(s.(calls := t.calls));
    }
  }

  // ------------------------------------------------------------------- runs

  predicate Legal(s: State, run: seq<Action>)
    decreases |run|
  {
    run == [] || (Enabled(s, run[0]) && Legal(Next(s, run[0]), run[1..]))
  }

  function After(s: State, run: seq<Action>): State
    requires Legal(s, run)
    decreases |run|
  {
    if run == [] then s else After(Next(s, run[0]), run[1..])
  }

  /** In every interleaving: the counter is the number of live locks, or it is -1 and there are none. */
  lemma {:induction false} CountsLiveLocks(s: State, run: seq<Action>)
    requires Inv(s) && Legal(s, run)
    ensures Inv(After(s, run)) && (After(s, run).count == |Live(After(s, run))| || IsClosed(After(s, run)))
    decreases |run|
  {
    if run != [] {
      InvKept(s, run[0]);
      CountsLiveLocks(Next(s, run[0]), run[1..]);
    }
  }

  lemma CountsLiveLocksFromStart(run: seq<Action>)
    requires Legal(INIT, run)
    ensures var s := After(INIT, run);
            (s.count == -1 && Live(s) == {}) || s.count == |Live(s)|
  {
    assert Inv(INIT);
    CountsLiveLocks(INIT, run);
  }

  /** Once some stop has returned, or some continue_lock was denied: in every continuation no
      lock is live and no continue_lock succeeds that had not succeeded before. */
  lemma {:induction false} StopIsFinal(s: State, run: seq<Action>, id: nat)
    requires Inv(s) && Legal(s, run)
    requires id in s.calls && (s.calls[id].Stopped? || s.calls[id].Denied?)
    ensures Live(After(s, run)) == {} && Granted(After(s, run)) == Granted(s)
    decreases |run|
  {
    if run != [] {
      InvKept(s, run[0]);
      ClosedKept(s, run[0]);
      StopIsFinal(Next(s, run[0]), run[1..], id);
    }
  }

  /** stop waits for the live locks, and a compare-and-swap that does not fail by chance then ends it. */
  lemma StopReturnsIffNoneLive(s: State, id: nat)
    requires Inv(s) && id in s.calls && s.calls[id].Stopping?
    ensures Next(s, TryStop(id, false)).calls[id].Stopped? <==> Live(s) == {}
  {}

  /** A continue_lock whose loop turns undisturbed is granted at the second turn at the latest,
      unless the counter is closed; then it is denied. */
  lemma ContinueReturns(s: State, id: nat)
    requires Inv(s) && id in s.calls && s.calls[id].Continuing?
    ensures var t := Next(s, TryContinue(id, false));
            t.calls[id].Continuing? ==>
              var u := Next(t, TryContinue(id, false)); if IsClosed(s) then u.calls[id].Denied? else u.calls[id].Locked?
  {}

  /** A lock can be taken, be given back, and then a stop can return; a later call is denied. */
  lemma WholeLife()
    ensures Legal(INIT, [CallContinue(0), TryContinue(0, false), CallStop(1), TryStop(1, false), Release(0),
                         TryStop(1, false), CallContinue(2), TryContinue(2, false)])
  {
    var run := [CallContinue(0), TryContinue(0, false), CallStop(1), TryStop(1, false), Release(0),
                TryStop(1, false), CallContinue(2), TryContinue(2, false)];
    var s1 := Next(INIT, run[0]);
    var s2 := Next(s1, run[1]);
    var s3 := Next(s2, run[2]);
    var s4 := Next(s3, run[3]);
    var s5 := Next(s4, run[4]);
    var s6 := Next(s5, run[5]);
    var s7 := Next(s6, run[6]);
    assert Legal(Next(s7, run[7]), run[8..]);
    assert run[7..][1..] == run[8..] && Legal(s7, run[7..]);
    assert run[6..][1..] == run[7..] && Legal(s6, run[6..]);
    assert run[5..][1..] == run[6..] && Legal(s5, run[5..]);
    assert run[4..][1..] == run[5..] && Legal(s4, run[4..]);
    assert run[3..][1..] == run[4..] && Legal(s3, run[3..]);
    assert run[2..][1..] == run[3..] && Legal(s2, run[2..]);
    assert run[1..][1..] == run[2..] && Legal(s1, run[1..]);
  }

  /** Called and turned undisturbed, continue_lock is granted at once unless the counter is closed. */
  lemma ContinuesAtOnce(s: State, id: nat)
    requires Inv(s) && id !in s.calls
    ensures var t := Next(s, CallContinue(id));
            Enabled(t, TryContinue(id, false))
            && Next(t, TryContinue(id, false)).calls[id] == if IsClosed(s) then Denied else Locked
  {}
}

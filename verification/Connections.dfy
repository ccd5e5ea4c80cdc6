/** The registry of connections: raw pointers in a set under a mutex, registered by
    create_connection and taken out by the deleter, by an upgrade or by stop. Freed
    addresses may be handed out again. */
module Connections {

  type Pointer = nat

  /** An allocated connection. */
  datatype Phase =
    | Created           // new has returned, not yet emplaced
    | InUse(refs: nat)  // this many shared pointers to it exist
    | Dropped           // the last shared pointer is gone, the deleter is in front of the mutex
    | Unlisted          // the deleter is in front of delete

  /** A running stop owns the mutex until it has closed what is left and cleared the set. */
  datatype Stop = NotRunning | Closing(left: set<Pointer>)

  /** withdrawn is history: the allocated pointers that an upgrade or a stop took out of the set. */
  datatype State = State(heap: map<Pointer, Phase>, connections: set<Pointer>, stop: Stop, withdrawn: set<Pointer>)

  const INIT := State(map[], {}, NotRunning, {})

  datatype Action =
    | Allocate(p: Pointer)  // new Connection, at any address that is free
    | Emplace(p: Pointer)
    | Share(p: Pointer)     // copy a shared pointer
    | Release(p: Pointer)   // destroy a shared pointer
    | Erase(p: Pointer)     // the deleter's critical section
    | Delete(p: Pointer)
    | Upgrade(p: Pointer)
    | BeginStop
    | Close(p: Pointer)     // stop calls close on an element
    | EndStop

  predicate Enabled(s: State, a: Action)
  {
    match a
    case Allocate(p) => p !in s.heap
    case Emplace(p) => p in s.heap && s.heap[p].Created? && s.stop.NotRunning?
    case Share(p) => p in s.heap && s.heap[p].InUse?
    case Release(p) => p in s.heap && s.heap[p].InUse? && s.heap[p].refs > 0
    case Erase(p) => p in s.heap && s.heap[p].Dropped? && s.stop.NotRunning?
    case Delete(p) => p in s.heap && s.heap[p].Unlisted?
    case Upgrade(p) => p in s.heap && s.heap[p].InUse? && s.stop.NotRunning?
    case BeginStop => s.stop.NotRunning?
    case Close(p) => s.stop.Closing? && p in s.stop.left
    case EndStop => s.stop.Closing? && s.stop.left == {}
  }

  function Next(s: State, a: Action): State
    requires Enabled(s, a)
  {
    match a
    case Allocate(p) => s.(heap := s.heap[p := Created], withdrawn := s.withdrawn - {p})
    case Emplace(p) => s.(heap := s.heap[p := InUse(1)], connections := s.connections + {p})
    case Share(p) => s.(heap := s.heap[p := InUse(s.heap[p].refs + 1)])
    case Release(p) =>
      var refs := s.heap[p].refs - 1;
      s.(heap := s.heap[p := if refs == 0 then Dropped else InUse(refs)])
    case Erase(p) => s.(heap := s.heap[p := Unlisted], connections := s.connections - {p})
    case Delete(p) => s.(heap := s.heap - {p})
    case Upgrade(p) => s.(connections := s.connections - {p}, withdrawn := s.withdrawn + {p})
    case BeginStop => s.(stop := Closing(s.connections))
    case Close(p) => s.(stop := Closing(s.stop.left - {p}))
    case EndStop => s.(stop := NotRunning, connections := {}, withdrawn := s.withdrawn + s.connections)
  }

  predicate Inv(s: State)
  {
    && (forall p :: p in s.connections ==>
          p in s.heap && (s.heap[p].InUse? || s.heap[p].Dropped?) && p !in s.withdrawn)
    && (forall p :: p in s.heap && (s.heap[p].InUse? || s.heap[p].Dropped?) && p !in s.withdrawn ==>
          p in s.connections)
    && (forall p :: p in s.heap && s.heap[p].Created? ==> p !in s.withdrawn)
    && (s.stop.Closing? ==> s.stop.left <= s.connections)
  }

  lemma InvKept(s: State, a: Action)
    requires Inv(s) && Enabled(s, a)
    ensures Inv(Next(s, a))
  {}

  predicate Legal(s: State, run: seq<Action>)
    decreases |run|
  {
    run == [] || (Enabled(s, run[0]) && Legal(Next(s, run[0]), run[1..]))
  }

  function After(s: State, run: seq<Action>): State
    requires Legal(s, run)
    decreases |run|
  {
    if run == [] then s else After(Next(s, run[0]), run[1..])
  }

  lemma {:induction false} InvAlways(s: State, run: seq<Action>)
    requires Inv(s) && Legal(s, run)
    ensures Inv(After(s, run))
    decreases |run|
  {
    if run != [] {
      InvKept(s, run[0]);
      InvAlways(Next(s, run[0]), run[1..]);
    }
  }

  /** In every interleaving the set contains only allocated connections, whatever addresses were
      reused, and it contains every connection in use that no upgrade and no stop took out. */
  lemma RegistryIsExact(run: seq<Action>)
    requires Legal(INIT, run)
    ensures var s := After(INIT, run);
            s.connections <= s.heap.Keys
            && forall p :: p in s.heap && s.heap[p].InUse? ==> (p in s.connections <==> p !in s.withdrawn)
  {
    InvAlways(INIT, run);
  }

  /** A stop never closes a freed connection, nor one that is being deleted. */
  lemma StopClosesAllocated(run: seq<Action>, p: Pointer)
    requires Legal(INIT, run) && Enabled(After(INIT, run), Close(p))
    ensures var s := After(INIT, run); p in s.heap && !s.heap[p].Unlisted?
  {
    InvAlways(INIT, run);
  }

  /** What a connection is when its memory is given back: in nobody's reach. */
  lemma DeletedIsUnlisted(run: seq<Action>, p: Pointer)
    requires Legal(INIT, run) && Enabled(After(INIT, run), Delete(p))
    ensures var s := After(INIT, run); p !in s.connections && (s.stop.Closing? ==> p !in s.stop.left)
  {
    InvAlways(INIT, run);
  }

  // ------------------------------------------------------- told by history

  lemma {:induction false} LegalPrefix(s: State, run: seq<Action>, k: nat)
    requires Legal(s, run) && k < |run|
    ensures Legal(s, run[..k]) && Enabled(After(s, run[..k]), run[k])
    ensures Legal(s, run[..k + 1]) && After(s, run[..k + 1]) == Next(After(s, run[..k]), run[k])
    decreases |run|
  {
    hide Enabled, Next;
    if k == 0 {
      assert run[..1][1..] == [];
    } else {
      LegalPrefix(Next(s, run[0]), run[1..], k - 1);
      assert run[..k][1..] == run[1..][..k - 1] && run[..k + 1][1..] == run[1..][..k];
    }
  }

  /** Whether the last thing that happened to p put it into the set. */
  function Listed(run: seq<Action>, p: Pointer): bool
  {
    if run == [] then false
    else
      match run[|run| - 1]
      case Emplace(q) => q == p || Listed(run[..|run| - 1], p)
      case Erase(q) => q != p && Listed(run[..|run| - 1], p)
      case Upgrade(q) => q != p && Listed(run[..|run| - 1], p)
      case EndStop => false
      case _ => Listed(run[..|run| - 1], p)
  }

  /** How many references were made since p was emplaced, less those given up. */
  function References(run: seq<Action>, p: Pointer): int
  {
    if run == [] then 0
    else
      var before := References(run[..|run| - 1], p);
      match run[|run| - 1]
      case Allocate(q) => if q == p then 0 else before
      case Emplace(q) => if q == p then 1 else before
      case Share(q) => if q == p then before + 1 else before
      case Release(q) => if q == p then before - 1 else before
      case _ => before
  }

  /** Whether p was allocated and not freed since. */
  function Allocated(run: seq<Action>, p: Pointer): bool
  {
    if run == [] then false
    else
      match run[|run| - 1]
      case Allocate(q) => q == p || Allocated(run[..|run| - 1], p)
      case Delete(q) => q != p && Allocated(run[..|run| - 1], p)
      case _ => Allocated(run[..|run| - 1], p)
  }

  ghost predicate ToldByHistory(s: State, run: seq<Action>, p: Pointer)
  {
    && (p in s.connections <==> Listed(run, p))
    && (p in s.heap <==> Allocated(run, p))
    && (p in s.heap ==> match s.heap[p]
                        case InUse(refs) => refs == References(run, p) > 0
                        case _ => References(run, p) == 0)
  }

  /** In every run: the set holds what was emplaced and not erased, upgraded or cleared since; what is allocated
      was not freed since; a connection is in use exactly while references are left. */
  lemma {:induction false} StateToldByHistory(run: seq<Action>, p: Pointer)
    requires Legal(INIT, run)
    ensures ToldByHistory(After(INIT, run), run, p)
    decreases |run|
  {
    hide Legal, After;
    if run == [] {
      assert After(INIT, []) == INIT by { NothingDone(); }
    } else {
      var k := |run| - 1;
      LegalPrefix(INIT, run, k);
      assert run[..k + 1] == run;
      StateToldByHistory(run[..k], p);
    }
  }

  lemma NothingDone()
    ensures After(INIT, []) == INIT
  {}

  /** No other stop ends between i and j. */
  predicate OneStop(run: seq<Action>, i: nat, j: nat)
  {
    i < j <= |run| && run[i].BeginStop? && forall k :: i < k < j ==> !run[k].EndStop?
  }

  /** While a stop runs: what was listed when it began was closed or is left to be closed. */
  lemma {:induction false} StopProgress(run: seq<Action>, i: nat, j: nat)
    requires Legal(INIT, run) && OneStop(run, i, j)
    ensures Legal(INIT, run[..i]) && Legal(INIT, run[..j])
    ensures After(INIT, run[..j]).stop.Closing?
    ensures forall p :: p in After(INIT, run[..i]).connections ==>
              p in After(INIT, run[..j]).stop.left || exists k :: i < k < j && run[k] == Close(p)
    ensures After(INIT, run[..j]).stop.left <= After(INIT, run[..i]).connections
    ensures forall k, p :: i < k < j && run[k] == Close(p) ==> p in After(INIT, run[..i]).connections
    decreases j
  {
    hide Legal, After;
    LegalPrefix(INIT, run, i);
    if j > i + 1 {
      StopProgress(run, i, j - 1);
      LegalPrefix(INIT, run, j - 1);
    }
  }

  /** A stop closes every connection that was listed when it began, and no other, and leaves the set empty. */
  lemma StopClosesAll(run: seq<Action>, i: nat, j: nat, p: Pointer)
    requires Legal(INIT, run) && OneStop(run, i, j) && j < |run| && run[j].EndStop?
    ensures Legal(INIT, run[..i]) && Legal(INIT, run[..j + 1])
    ensures p in After(INIT, run[..i]).connections <==> exists k :: i < k < j && run[k] == Close(p)
    ensures After(INIT, run[..j + 1]).connections == {} && After(INIT, run[..j + 1]).stop.NotRunning?
  {
    hide Legal, After;
    StopProgress(run, i, j);
    LegalPrefix(INIT, run, j);
    LegalPrefix(INIT, run, i);
  }

  /** A connection can be shared and given up, and its address is used again. */
  lemma SharedLife(p: Pointer)
    ensures Legal(INIT, [Allocate(p), Emplace(p), Share(p), Release(p), Release(p), Erase(p), Delete(p), Allocate(p)])
  {
    hide Legal;
    var s0 := INIT;
    var s1 := Next(s0, Allocate(p));
    var s2 := Next(s1, Emplace(p));
    var s3 := Next(s2, Share(p));
    var s4 := Next(s3, Release(p));
    var s5 := Next(s4, Release(p));
    var s6 := Next(s5, Erase(p));
    var s7 := Next(s6, Delete(p));
    var s8 := Next(s7, Allocate(p));
    EmptyIsLegal(s8);
    var r8: seq<Action> := [];
    var r7 := [Allocate(p)] + r8;
    OneMore(s7, Allocate(p), r8);
    var r6 := [Delete(p)] + r7;
    OneMore(s6, Delete(p), r7);
    var r5 := [Erase(p)] + r6;
    OneMore(s5, Erase(p), r6);
    var r4 := [Release(p)] + r5;
    OneMore(s4, Release(p), r5);
    var r3 := [Release(p)] + r4;
    OneMore(s3, Release(p), r4);
    var r2 := [Share(p)] + r3;
    OneMore(s2, Share(p), r3);
    var r1 := [Emplace(p)] + r2;
    OneMore(s1, Emplace(p), r2);
    var r0 := [Allocate(p)] + r1;
    OneMore(s0, Allocate(p), r1);
    assert r0 == [Allocate(p), Emplace(p), Share(p), Release(p), Release(p), Erase(p), Delete(p), Allocate(p)];
  }

  /** A stop can close a connection that is given up meanwhile. */
  lemma StoppedLife(p: Pointer)
    ensures Legal(INIT, [Allocate(p), Emplace(p), BeginStop, Close(p), Release(p), EndStop, Erase(p), Delete(p)])
  {
    hide Legal;
    var s0 := INIT;
    var s1 := Next(s0, Allocate(p));
    var s2 := Next(s1, Emplace(p));
    var s3 := Next(s2, BeginStop);
    var s4 := Next(s3, Close(p));
    var s5 := Next(s4, Release(p));
    var s6 := Next(s5, EndStop);
    var s7 := Next(s6, Erase(p));
    var s8 := Next(s7, Delete(p));
    EmptyIsLegal(s8);
    var r8: seq<Action> := [];
    var r7 := [Delete(p)] + r8;
    OneMore(s7, Delete(p), r8);
    var r6 := [Erase(p)] + r7;
    OneMore(s6, Erase(p), r7);
    var r5 := [EndStop] + r6;
    OneMore(s5, EndStop, r6);
    var r4 := [Release(p)] + r5;
    OneMore(s4, Release(p), r5);
    var r3 := [Close(p)] + r4;
    OneMore(s3, Close(p), r4);
    var r2 := [BeginStop] + r3;
    OneMore(s2, BeginStop, r3);
    var r1 := [Emplace(p)] + r2;
    OneMore(s1, Emplace(p), r2);
    var r0 := [Allocate(p)] + r1;
    OneMore(s0, Allocate(p), r1);
    assert r0 == [Allocate(p), Emplace(p), BeginStop, Close(p), Release(p), EndStop, Erase(p), Delete(p)];
  }

  /** An upgraded connection lives on, and a stop passes it by. */
  lemma UpgradedLife(p: Pointer)
    ensures Legal(INIT, [Allocate(p), Emplace(p), Upgrade(p), BeginStop, EndStop, Release(p), Erase(p), Delete(p)])
  {
    hide Legal;
    var s0 := INIT;
    var s1 := Next(s0, Allocate(p));
    var s2 := Next(s1, Emplace(p));
    var s3 := Next(s2, Upgrade(p));
    var s4 := Next(s3, BeginStop);
    var s5 := Next(s4, EndStop);
    var s6 := Next(s5, Release(p));
    var s7 := Next(s6, Erase(p));
    var s8 := Next(s7, Delete(p));
    EmptyIsLegal(s8);
    var r8: seq<Action> := [];
    var r7 := [Delete(p)] + r8;
    OneMore(s7, Delete(p), r8);
    var r6 := [Erase(p)] + r7;
    OneMore(s6, Erase(p), r7);
    var r5 := [Release(p)] + r6;
    OneMore(s5, Release(p), r6);
    var r4 := [EndStop] + r5;
    OneMore(s4, EndStop, r5);
    var r3 := [BeginStop] + r4;
    OneMore(s3, BeginStop, r4);
    var r2 := [Upgrade(p)] + r3;
    OneMore(s2, Upgrade(p), r3);
    var r1 := [Emplace(p)] + r2;
    OneMore(s1, Emplace(p), r2);
    var r0 := [Allocate(p)] + r1;
    OneMore(s0, Allocate(p), r1);
    assert r0 == [Allocate(p), Emplace(p), Upgrade(p), BeginStop, EndStop, Release(p), Erase(p), Delete(p)];
  }

  lemma EmptyIsLegal(s: State)
    ensures Legal(s, [])
  {}

  lemma OneMore(s: State, a: Action, rest: seq<Action>)
    requires Enabled(s, a) && Legal(Next(s, a), rest)
    ensures Legal(s, [a] + rest)
  {
    hide Enabled, Next;
    assert ([a] + rest)[1..] == rest;
  }
}

/** common::UDPServer: receive and send in turn, answers one port above the sender's. */
module UdpServer {
  import opened Bytes
  import opened Addresses

  datatype Event =
    | Received(from: Address)
    | Failed            // recvfrom returned an error or timed out
    | Sent(to: Address)
    | Refused           // send threw: no client address is known

  /** The client that may be answered now: the sender of the last datagram, unless an answer was
      sent or a receive failed since. */
  function Client(trace: seq<Event>): Option<Address>
  {
    if trace == [] then None
    else
      match trace[|trace| - 1]
      case Received(from) => Some(from)
      case Refused => Client(trace[..|trace| - 1])
      case _ => None
  }

  /** Every answer goes to the successor port of the datagram that came last before it, and nothing
      but refused sends lies between the two. */
  ghost predicate Alternates(trace: seq<Event>)
  {
    forall j :: 0 <= j < |trace| && trace[j].Sent? ==>
      exists i :: 0 <= i < j && trace[i].Received? && trace[j].to == trace[i].from.Incremented()
                  && forall k :: i < k < j ==> trace[k].Refused?
  }

  /** So between two answers there is always a successful receive. */
  lemma NeverTwiceInARow(trace: seq<Event>, i: nat, j: nat)
    requires Alternates(trace) && i < j < |trace| && trace[i].Sent? && trace[j].Sent?
    ensures exists k :: i < k < j && trace[k].Received?
  {
    var k :| 0 <= k < j && trace[k].Received? && forall m :: k < m < j ==> trace[m].Refused?;
  }

  lemma ClientWasReceived(trace: seq<Event>) returns (i: nat)
    requires Client(trace).Some?
    ensures i < |trace| && trace[i] == Received(Client(trace).value)
    ensures forall k :: i < k < |trace| ==> trace[k].Refused?
  {
    i := |trace| - 1;
    if trace[i].Refused? {
      var before := trace[..i];
      assert forall k :: 0 <= k < |before| ==> trace[k] == before[k];
      i := ClientWasReceived(before);
    }
  }

  lemma AlternatesNext(trace: seq<Event>, e: Event)
    requires Alternates(trace)
    requires e.Sent? ==> Client(trace).Some? && e.to == Client(trace).value.Incremented()
    ensures Alternates(trace + [e])
  {
    var trace' := trace + [e];
    forall j | 0 <= j < |trace'| && trace'[j].Sent?
      ensures exists i :: 0 <= i < j && trace'[i].Received? && trace'[j].to == trace'[i].from.Incremented()
                          && forall k :: i < k < j ==> trace'[k].Refused?
    {
      if j < |trace| {
        var i :| 0 <= i < j && trace[i].Received? && trace[j].to == trace[i].from.Incremented()
                 && forall k :: i < k < j ==> trace[k].Refused?;
        assert trace'[i] == trace[i];
      } else {
        var i := ClientWasReceived(trace);
        assert trace'[i] == trace[i];
      }
    }
  }

  lemma ClientNext(trace: seq<Event>, e: Event)
    ensures Client(trace + [e]) == match e
                                   case Received(from) => Some(from)
                                   case Refused => Client(trace)
                                   case _ => None
  {
    assert (trace + [e])[..|trace|] == trace;
  }

  class UDPServer {
    var clientAddress: Address
    var clientAddressIsCorrect: bool
    ghost var trace: seq<Event>

    ghost predicate Valid()
      reads this
    {
      && Alternates(trace)
      && (clientAddressIsCorrect <==> Client(trace).Some?)
      && (clientAddressIsCorrect ==> Client(trace) == Some(clientAddress))
    }

    constructor ()
      ensures Valid() && trace == []
    {
      clientAddress := Address("", 0);
      clientAddressIsCorrect := false;
      trace := [];
    }

    /** from is the sender that recvfrom reports, None when it fails. */
    method Receive(from: Option<Address>) returns (ok: bool)
      requires Valid()
      modifies this
      ensures Valid() && ok == from.Some?
      ensures trace == old(trace) + [if from.Some? then Received(from.value) else Failed]
    {
      hide Alternates;
      ghost var e := if from.Some? then Received(from.value) else Failed;
      AlternatesNext(trace, e);
      ClientNext(trace, e);
      trace := trace + [e];
      if from.None? {
        clientAddressIsCorrect := false;
        return false;
      }
      clientAddress := from.value;
      clientAddressIsCorrect := true;
      ok := true;
    }

    /** Where the datagram went; None is the exception of a second send. */
    method Send() returns (to: Option<Address>)
      requires Valid()
      modifies this
      ensures Valid()
      ensures to == match old(Client(trace)) case None => None case Some(client) => Some(client.Incremented())
      ensures trace == old(trace) + [if to.Some? then Sent(to.value) else Refused]
    {
      hide Alternates;
      ghost var e := if clientAddressIsCorrect then Sent(clientAddress.Incremented()) else Refused;
      AlternatesNext(trace, e);
      ClientNext(trace, e);
      trace := trace + [e];
      if !clientAddressIsCorrect {
        return None;
      }
      clientAddress := clientAddress.Incremented();
      clientAddressIsCorrect := false;
      to := Some(clientAddress);
    }
  }
}

/** A kept-alive connection: requests one after another, each read by a new session with an empty buffer. */
module KeepAlive {
  import opened Bytes
  import opened Messages
  import opened Reader

  const CONNECTION: bytes := Ascii("Connection")
  const CLOSE: bytes := Ascii("close")
  const KEEP_ALIVE: bytes := Ascii("keep-alive")

  /** operator>= of std::string. */
  predicate AtLeast(s: bytes, t: bytes)
  {
    t == [] || (s != [] && (s[0] > t[0] || (s[0] == t[0] && AtLeast(s[1..], t[1..]))))
  }

  predicate Says(field: (bytes, bytes), value: bytes)
  {
    CaseInsensitiveEqual(field.0, CONNECTION) && CaseInsensitiveEqual(field.1, value)
  }

  /** Whether the connection is read on after an answer: the first Connection field that says close or
      keep-alive decides, and without one the version does. */
  function KeepsAlive(header: Fields, version: bytes): bool
  {
    if header == [] then AtLeast(version, ONE_ONE)
    else if Says(header[0], CLOSE) then false
    else if Says(header[0], KEEP_ALIVE) then true
    else KeepsAlive(header[1..], version)
  }

  method IsKeptAlive(header: Fields, version: bytes) returns (kept: bool)
    ensures kept == KeepsAlive(header, version)
  {
    hide CaseInsensitiveEqual, AtLeast;
    assert header[0..] == header;
    for i := 0 to |header|
      invariant KeepsAlive(header[i..], version) == KeepsAlive(header, version)
    {
      assert header[i..][1..] == header[i + 1..];
      if Says(header[i], CLOSE) {
        return false;
      }
      if Says(header[i], KEEP_ALIVE) {
        return true;
      }
    }
    kept := AtLeast(version, ONE_ONE);
  }

  /** The byte order: t is the beginning of s, or s is larger where they first differ. */
  lemma {:induction false} AtLeastIff(s: bytes, t: bytes)
    ensures AtLeast(s, t) <==> BeginsWith(s, t) || exists k :: LargerAt(s, t, k)
  {
    if t != [] && s != [] {
      if s[0] == t[0] {
        var s', t' := s[1..], t[1..];
        forall k | LargerAt(s', t', k)
          ensures LargerAt(s, t, k + 1)
        {}
        forall k | LargerAt(s, t, k)
          ensures LargerAt(s', t', k - 1)
        {}
        assert BeginsWith(s, t) <==> BeginsWith(s', t');
        AtLeastIff(s', t');
      } else {
        assert s[0] > t[0] <==> LargerAt(s, t, 0);
      }
    }
  }

  predicate BeginsWith(s: bytes, t: bytes) { |t| <= |s| && forall i :: 0 <= i < |t| ==> s[i] == t[i] }

  predicate LargerAt(s: bytes, t: bytes, k: int)
  {
    0 <= k < |s| && k < |t| && s[k] > t[k] && forall i :: 0 <= i < k ==> s[i] == t[i]
  }

  /** The versions in use, when no Connection field says anything. */
  lemma VersionsKept(header: Fields)
    requires !SomeSays(header, CLOSE) && !SomeSays(header, KEEP_ALIVE)
    ensures !KeepsAlive(header, Ascii("1.0")) && !KeepsAlive(header, Ascii("0.9"))
    ensures KeepsAlive(header, Ascii("1.1")) && KeepsAlive(header, Ascii("2.0"))
  {
    hide KeepsAlive, SomeSays;
    KeepsAliveCases(header, Ascii("1.0"));
    KeepsAliveCases(header, Ascii("0.9"));
    KeepsAliveCases(header, Ascii("1.1"));
    KeepsAliveCases(header, Ascii("2.0"));
    VersionsCompared();
  }

  lemma VersionsCompared()
    ensures !AtLeast(Ascii("1.0"), ONE_ONE) && !AtLeast(Ascii("0.9"), ONE_ONE)
    ensures AtLeast(Ascii("1.1"), ONE_ONE) && AtLeast(Ascii("2.0"), ONE_ONE)
  {
    var old_, dot := Ascii("1.0")[1..], Ascii("1.1")[1..];
    assert old_[0] == dot[0] == DOT && old_[1..] == [48] && dot[1..] == [49];
    AtLeastItself(ONE_ONE);
  }

  ghost predicate SomeSays(header: Fields, value: bytes) { exists f :: f in header && Says(f, value) }

  /** Where the order of equal keys does not matter. */
  lemma {:induction false} KeepsAliveCases(header: Fields, version: bytes)
    ensures !SomeSays(header, CLOSE) ==>
              (KeepsAlive(header, version) <==> SomeSays(header, KEEP_ALIVE) || AtLeast(version, ONE_ONE))
    ensures !SomeSays(header, KEEP_ALIVE) ==>
              (KeepsAlive(header, version) <==> !SomeSays(header, CLOSE) && AtLeast(version, ONE_ONE))
  {
    hide Says, AtLeast;
    if header != [] {
      KeepsAliveCases(header[1..], version);
    }
  }

  /** Whatever the order of equal keys: the connection is kept if and only if no field says close, and one says
      keep-alive or the version is late enough. */
  lemma KeptInAnyOrderIff(header: Fields, version: bytes)
    ensures (forall other :: SameFields(other, header) ==> KeepsAlive(other, version))
       <==> !SomeSays(header, CLOSE) && (SomeSays(header, KEEP_ALIVE) || AtLeast(version, ONE_ONE))
  {
    hide Says, AtLeast, KeepsAlive, SameFields, ToFront;
    forall other | SameFields(other, header)
      ensures SomeSays(other, CLOSE) == SomeSays(header, CLOSE)
      ensures SomeSays(other, KEEP_ALIVE) == SomeSays(header, KEEP_ALIVE)
      ensures !SomeSays(header, CLOSE) ==>
                (KeepsAlive(other, version) <==> SomeSays(header, KEEP_ALIVE) || AtLeast(version, ONE_ONE))
    {
      SameMembers(other, header);
      KeepsAliveCases(other, version);
    }
    SameAsItself(header);
    if SomeSays(header, CLOSE) {
      var f :| f in header && Says(f, CLOSE);
      var k: nat :| k < |header| && header[k] == f;
      ToFrontIsSame(header, k);
      ClosedByFirst(header, k, version);
    }
  }

  lemma ClosedByFirst(header: Fields, k: nat, version: bytes)
    requires k < |header| && Says(header[k], CLOSE)
    ensures !KeepsAlive(ToFront(header, k), version)
  {
    hide Says, AtLeast;
  }

  // --------------------------------------------------------------- messages

  /** A request without a body has no framing field. */
  datatype Body = Absent | Whole(data: bytes) | InPieces(pieces: seq<Piece>)

  /** A request as a client means it. */
  datatype Message = Message(method_: bytes, path: bytes, query: Option<bytes>, version: bytes, header: Fields,
                             body: Body)
  {
    predicate Valid()
    {
      && PrintableRequest(method_, path, query, version, header)
      && match body
         case Absent => FramingOf(header) == Bodyless
         case Whole(data) => FramingOf(header) == Sized(|data|)
         case InPieces(pieces) =>
           FramingOf(header) == Chunks && forall p :: p in pieces ==> p.WellFormed() && p.data != []
    }

    function Head(): bytes { RequestText(method_, path, query, version, header) }

    function BodyText(): bytes
    {
      match body case Absent => [] case Whole(data) => data case InPieces(pieces) => ChunkedText(pieces)
    }

    function Data(): bytes
    {
      match body case Absent => [] case Whole(data) => data case InPieces(pieces) => DataOf(pieces)
    }

    function Text(): bytes { Head() + BodyText() }

    /** The content handed on when over was pulled in behind the message. */
    function Content(over: bytes): bytes
    {
      match body case Absent => over case Whole(data) => data + over case InPieces(pieces) => over + DataOf(pieces)
    }

    function Parsed(): Request { Understood(method_, path, query, version, header, []) }

    predicate KeepsConnection() { KeepsAlive(header, version) }
  }

  function Exact(m: Message): Outcome { Handed(m.Parsed(), m.Data()) }

  /** What is handed on depends on how much had been pulled in of what follows. */
  lemma OutcomeOf(m: Message, next: bytes, left: bytes, outcome: Outcome)
    requires m.Valid() && Agrees(m.Text() + next, left, outcome)
    ensures |left| <= |next| && outcome == Handed(m.Parsed(), m.Content(PulledIn(next, left)))
    ensures outcome.request.header == m.header && outcome.request.version == m.version
  {
    hide PrintableRequest, RequestText, FramingOf, Agrees, Understood, ChunkedText, DataOf;
    Associative(m.Head(), m.BodyText(), next);
    match m.body
    case Absent =>
      assert [] + next == next;
      BodylessRequestIsHanded(m.method_, m.path, m.query, m.version, m.header, next, left, outcome);
    case Whole(data) =>
      SizedOutcome(m.method_, m.path, m.query, m.version, m.header, data, next, left, outcome);
    case InPieces(pieces) =>
      ChunkedOutcome(m.method_, m.path, m.query, m.version, m.header, pieces, next, left, outcome);
  }

  lemma ContentIsExactIff(m: Message, over: bytes)
    ensures m.Content(over) == m.Data() <==> over == []
  {
    hide DataOf;
    assert |m.Content(over)| == |m.Data()| + |over|;
    assert m.Data() + [] == m.Data() && [] + m.Data() == m.Data();
  }

  /** A message and further bytes behind it, all sent at once. The content is exact in every run of the
      reader if and only if nothing follows the message. */
  method ReadPipelined(m: Message, next: bytes, limit: nat, greedy: bool) returns (outcome: Outcome)
    requires m.Valid() && |m.Text()| + |next| < limit
    ensures next == [] ==> outcome == Exact(m)
    ensures greedy ==> outcome == Handed(m.Parsed(), m.Content(next))
    ensures greedy ==> (outcome == Exact(m) <==> next == [])
  {
    hide Message.Valid, Message.Text, Message.Parsed, Message.Content, Message.Data, Agrees;
    var session := new Session(m.Text() + next, limit, greedy);
    outcome := session.Read();
    OutcomeOf(m, next, session.wire, outcome);
    ContentIsExactIff(m, next);
    assert next[..|next|] == next;
  }

  const GET: bytes := Ascii("GET")

  /** Plain requests for a path are messages, and their connection is kept. */
  lemma PlainGetIsMessage(path: bytes)
    requires SPACE !in path && LF !in path
    ensures var m := Message(GET, path, None, ONE_ONE, [], Absent); m.Valid() && m.KeepsConnection()
  {
    assert SPACE !in GET && LF !in GET && LF !in ONE_ONE;
    AtLeastItself(ONE_ONE);
  }

  lemma {:induction false} AtLeastItself(s: bytes)
    ensures AtLeast(s, s)
  {
    if s != [] {
      AtLeastItself(s[1..]);
    }
  }

  /** Two plain requests sent together: a greedy reader hands the second on as the content of the first. */
  method ReadTwoGets(first: bytes, second: bytes, limit: nat) returns (outcome: Outcome)
    requires SPACE !in first && LF !in first && SPACE !in second && LF !in second
    requires |RequestText(GET, first, None, ONE_ONE, [])| + |RequestText(GET, second, None, ONE_ONE, [])| < limit
    ensures outcome
         == Handed(Understood(GET, first, None, ONE_ONE, [], []), RequestText(GET, second, None, ONE_ONE, []))
  {
    hide Message.Valid, RequestText, Understood;
    var m := Message(GET, first, None, ONE_ONE, [], Absent);
    PlainGetIsMessage(first);
    assert m.Text() == RequestText(GET, first, None, ONE_ONE, []);
    outcome := ReadPipelined(m, RequestText(GET, second, None, ONE_ONE, []), limit, true);
  }

  // ------------------------------------------------------------ connections

  function BatchText(batch: seq<Message>): bytes
  {
    if batch == [] then [] else batch[0].Text() + BatchText(batch[1..])
  }

  /** What a greedy reader hands on of messages that were sent together. */
  function Answer(batch: seq<Message>): Outcome
    requires batch != []
  {
    Handed(batch[0].Parsed(), batch[0].Content(BatchText(batch[1..])))
  }

  lemma BatchOutcome(batch: seq<Message>, left: bytes, outcome: Outcome)
    requires batch != [] && batch[0].Valid() && Agrees(BatchText(batch), left, outcome)
    requires |batch| > 1 ==> left == []
    ensures left == [] && outcome == Answer(batch) && outcome.Handed?
    ensures outcome.request.header == batch[0].header && outcome.request.version == batch[0].version
  {
    hide Message.Valid, Message.Text, Message.Parsed, Message.Content, Agrees;
    var next := BatchText(batch[1..]);
    OutcomeOf(batch[0], next, left, outcome);
    if |batch| == 1 {
      assert next == [];
    }
    assert PulledIn(next, []) == next;
  }

  predicate NonEmpty(batches: seq<seq<Message>>) { forall i :: 0 <= i < |batches| ==> batches[i] != [] }

  predicate OneByOne(batches: seq<seq<Message>>) { forall i :: 0 <= i < |batches| ==> |batches[i]| == 1 }

  function Answers(batches: seq<seq<Message>>): (r: seq<Outcome>)
    requires NonEmpty(batches)
    ensures |r| == |batches|
  {
    seq(|batches|, i requires 0 <= i < |batches| => Answer(batches[i]))
  }

  lemma AnswersNext(batches: seq<seq<Message>>, i: nat)
    requires NonEmpty(batches) && i < |batches|
    ensures Answers(batches)[..i + 1] == Answers(batches)[..i] + [Answer(batches[i])]
  {
    hide Answer;
  }

  function Flattened(batches: seq<seq<Message>>): seq<Message>
  {
    if batches == [] then [] else batches[0] + Flattened(batches[1..])
  }

  function Exacts(messages: seq<Message>): (r: seq<Outcome>)
    ensures |r| == |messages|
  {
    seq(|messages|, i requires 0 <= i < |messages| => Exact(messages[i]))
  }

  lemma {:induction false} CountOfMessages(batches: seq<seq<Message>>)
    requires NonEmpty(batches)
    ensures |Flattened(batches)| >= |batches|
    ensures |Flattened(batches)| == |batches| <==> OneByOne(batches)
    ensures OneByOne(batches) ==> forall i :: 0 <= i < |batches| ==> Flattened(batches)[i] == batches[i][0]
  {
    if batches != [] {
      var more := batches[1..];
      CountOfMessages(more);
      assert OneByOne(batches) <==> |batches[0]| == 1 && OneByOne(more) by {
        assert forall i :: 1 <= i < |batches| ==> batches[i] == more[i - 1];
      }
    }
  }

  /** The answers are those that were meant if and only if no message was sent behind another. */
  lemma AnswersAreExactIff(batches: seq<seq<Message>>)
    requires NonEmpty(batches)
    ensures Answers(batches) == Exacts(Flattened(batches)) <==> OneByOne(batches)
  {
    hide Flattened;
    CountOfMessages(batches);
    if OneByOne(batches) {
      forall i | 0 <= i < |batches|
        ensures Answer(batches[i]) == Exact(batches[i][0])
      {
        assert BatchText(batches[i][1..]) == [];
        ContentIsExactIff(batches[i][0], []);
      }
    }
  }

  /** Every request in front of another keeps the connection. */
  predicate AllKeep(batches: seq<seq<Message>>)
    requires NonEmpty(batches)
  {
    forall i :: 0 <= i < |batches| - 1 ==> batches[i][0].KeepsConnection()
  }

  /** A connection on which each batch is sent as soon as as many requests were handed on as batches are in
      front of it. Sent one by one, all messages are handed on exactly, in every run. Otherwise a greedy reader
      takes what was sent behind a message for its content, and these messages are lost. After a message that
      does not keep the connection nothing further is handed on. */
  method Serve(batches: seq<seq<Message>>, limit: nat, greedy: bool) returns (outcomes: seq<Outcome>)
    requires NonEmpty(batches)
    requires forall i :: 0 <= i < |batches| ==> batches[i][0].Valid() && |BatchText(batches[i])| < limit
    ensures greedy || OneByOne(batches) ==> |outcomes| <= |batches| && outcomes == Answers(batches)[..|outcomes|]
    ensures greedy || OneByOne(batches) ==>
              && (forall i :: 0 <= i < |outcomes| - 1 ==> batches[i][0].KeepsConnection())
              && (|outcomes| < |batches| ==> outcomes != [] && !batches[|outcomes| - 1][0].KeepsConnection())
    ensures AllKeep(batches) ==> (greedy || OneByOne(batches) ==> outcomes == Answers(batches))
    ensures AllKeep(batches) ==> (OneByOne(batches) ==> outcomes == Exacts(Flattened(batches)))
    ensures AllKeep(batches) ==> (greedy ==> (outcomes == Exacts(Flattened(batches)) <==> OneByOne(batches)))
  {
    hide Message.Valid, Message.Text, Message.Parsed, Message.Content, Message.Data, Agrees, BatchText,
      Flattened, Exacts, KeepsAlive, Answers, Answer;
    AnswersAreExactIff(batches);
    outcomes := [];
    var left, i := [], 0;
    while i < |batches| || left != []
      invariant i <= |batches|
      invariant greedy || OneByOne(batches) ==> left == [] && |outcomes| == i && outcomes == Answers(batches)[..i]
      invariant greedy || OneByOne(batches) ==> forall j :: 0 <= j < i ==> batches[j][0].KeepsConnection()
      decreases |batches| - i, |left|
    {
      var sent := if i < |batches| then BatchText(batches[i]) else [];
      var session := new Session(left + sent, limit, greedy);
      var outcome := session.Read();
      if greedy || OneByOne(batches) {
        assert [] + sent == sent;
        BatchOutcome(batches[i], session.wire, outcome);
        AnswersNext(batches, i);
      }
      outcomes := outcomes + [outcome];
      i, left := if i < |batches| then i + 1 else i, session.wire;
      if !outcome.Handed? {
        return;
      }
      var kept := IsKeptAlive(outcome.request.header, outcome.request.version);
      if !kept {
        return;
      }
    }
  }
}

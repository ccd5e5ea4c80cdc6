/** HttpHeader::parse, RequestMessage::parse, ResponseMessage::parse and
    Response::write (RFC 7230 sections 3.1 and 3.2). */
module Messages {
  import opened Bytes
  import opened Numerals

  // ---------------------------------------------------------------- streams

  /** An istream over a buffer: what is unread, and whether good() still holds. */
  datatype Input = Input(unread: bytes, good: bool)

  /** std::getline into line: a stream that is not good leaves the line as it was. */
  function LineOf(input: Input, line: bytes): (bytes, Input)
  {
    if !input.good then (line, input)
    else
      match Find(input.unread, LF, 0)
      case Some(i) => (input.unread[..i], Input(input.unread[i + 1..], true))
      case None => (input.unread, Input([], false))
  }

  class Stream {
    var unread: bytes
    var good: bool

    constructor (content: bytes)
      ensures State() == Input(content, true)
    {
      unread, good := content, true;
    }

    function State(): Input
      reads this
    {
      Input(unread, good)
    }

    method GetLine(previous: bytes) returns (line: bytes)
      modifies this
      ensures (line, State()) == LineOf(old(State()), previous)
    {
      if !good {
        return previous;
      }
      var end := Find(unread, LF, 0);
      if end.Some? {
        line, unread := unread[..end.value], unread[end.value + 1..];
      } else {
        line, unread, good := unread, [], false;
      }
    }
  }

  lemma LineOfTerminated(line: bytes, rest: bytes, previous: bytes)
    requires LF !in line
    ensures LineOf(Input(line + [LF] + rest, true), previous) == (line, Input(rest, true))
  {
    var s := line + [LF] + rest;
    assert s[|line|] == LF && s[..|line|] == line && s[|line| + 1..] == rest;
    assert forall i :: 0 <= i < |line| ==> s[i] == line[i];
  }

  // ---------------------------------------------------------- header fields

  /** Where the value of a header line begins: blanks are skipped, but never the last byte. */
  function ValueStart(line: bytes, from: nat): (r: nat)
    ensures from <= r
    decreases |line| - from
  {
    if from + 1 < |line| && line[from] == SPACE then ValueStart(line, from + 1) else from
  }

  /** The field of a line with its ':' at end; the last byte of the line is dropped. */
  function FieldOf(line: bytes, end: nat): Fields
    requires end < |line|
  {
    var start := ValueStart(line, end + 1);
    if start < |line| then [(line[..end], line[start..|line| - 1])] else []
  }

  datatype HeaderResult = Header(fields: Fields, input: Input) | Diverges

  /** The loop of HttpHeader::parse, entered with the given line read. */
  function HeaderFrom(input: Input, line: bytes): HeaderResult
    decreases |input.unread| + if input.good then 1 else 0
  {
    match Find(line, COLON, 0)
    case None => Header([], input)
    case Some(end) =>
      if !input.good then Diverges
      else
        var (next, input') := LineOf(input, line);
        match HeaderFrom(input', next)
        case Diverges => Diverges
        case Header(fields, rest) => Header(FieldOf(line, end) + fields, rest)
  }

  function HeaderOf(input: Input): HeaderResult
  {
    var (line, input') := LineOf(input, []);
    HeaderFrom(input', line)
  }

  /** What is unread and the line at hand after n rounds of the loop, ':' or not. */
  function Rounds(input: Input, line: bytes, n: nat): (bytes, Input)
    decreases n
  {
    if n == 0 then (line, input)
    else var (next, input') := LineOf(input, line); Rounds(input', next, n - 1)
  }

  /** Diverges means just that: the loop condition holds after every number of rounds. */
  lemma {:induction false} DivergesForever(input: Input, line: bytes, n: nat)
    requires HeaderFrom(input, line).Diverges?
    ensures COLON in Rounds(input, line, n).0
    decreases n
  {
    if n > 0 {
      var (next, input') := LineOf(input, line);
      if !input.good {
        assert next == line && input' == input;
      }
      DivergesForever(input', next, n - 1);
    }
  }

  lemma LineOfSplit(unread: bytes, previous: bytes)
    ensures var (line, input') := LineOf(Input(unread, true), previous);
            Split(unread, LF) == [line] + if input'.good then Split(input'.unread, LF) else []
  {
    hide Split, Find;
    SplitByFind(unread, LF);
  }

  /** The header loop returns exactly when some line of the stream has no ':'. */
  lemma {:induction false} HeaderReturnsIff(unread: bytes)
    ensures HeaderOf(Input(unread, true)).Header? <==> exists line :: line in Split(unread, LF) && COLON !in line
    decreases |unread|
  {
    var (line, input') := LineOf(Input(unread, true), []);
    LineOfSplit(unread, []);
    assert COLON in line <==> Find(line, COLON, 0).Some?;
    if COLON in line && input'.good {
      HeaderReturnsIff(input'.unread);
      NextLine(input', line);
    }
  }

  /** The stream "a:" has one line, and that one is read for ever. */
  lemma UnterminatedFieldDiverges()
    ensures HeaderOf(Input(Ascii("a:"), true)).Diverges?
  {
    hide HeaderOf;
    var unread := Ascii("a:");
    assert LF !in unread && unread[1] == COLON;
    SplitWhole(unread, LF);
    HeaderReturnsIff(unread);
  }

  lemma NextLine(input: Input, line: bytes)
    requires input.good
    ensures LineOf(input, line) == LineOf(input, [])
  {}

  /** In particular it returns on every stream that ends in a newline, or is empty. */
  lemma {:induction false} HeaderReturnsOnNewline(unread: bytes)
    requires unread == [] || unread[|unread| - 1] == LF
    ensures HeaderOf(Input(unread, true)).Header?
  {
    LastLineEmpty(unread);
    HeaderReturnsIff(unread);
    var lines := Split(unread, LF);
    assert lines[|lines| - 1] in lines;
  }

  lemma {:induction false} LastLineEmpty(unread: bytes)
    requires unread == [] || unread[|unread| - 1] == LF
    ensures var lines := Split(unread, LF); lines[|lines| - 1] == []
    decreases |unread|
  {
    if unread != [] {
      var i := Find(unread, LF, 0).value;
      LastLineEmpty(unread[i + 1..]);
    }
  }

  method ParseField(line: bytes, paramEnd: nat) returns (fields: Fields)
    requires paramEnd < |line|
    ensures fields == FieldOf(line, paramEnd)
  {
    var valueStart := paramEnd + 1;
    while valueStart + 1 < |line| && line[valueStart] == SPACE
      invariant ValueStart(line, valueStart) == ValueStart(line, paramEnd + 1)
    {
      valueStart := valueStart + 1;
    }
    fields := if valueStart < |line| then [(line[..paramEnd], line[valueStart..|line| - 1])] else [];
  }

  /** One round of the loop on the specification. */
  lemma HeaderRound(input: Input, line: bytes, end: nat, result: Fields)
    requires Find(line, COLON, 0) == Some(end) && HeaderFrom(input, line).Header?
    ensures var (next, input') := LineOf(input, line);
            input.good && HeaderFrom(input', next).Header?
            && result + HeaderFrom(input, line).fields
               == (result + FieldOf(line, end)) + HeaderFrom(input', next).fields
            && HeaderFrom(input, line).input == HeaderFrom(input', next).input
  {
    hide Find, FieldOf, LineOf;
    var (next, input') := LineOf(input, line);
    Associative(result, FieldOf(line, end), HeaderFrom(input', next).fields);
  }

  method ParseHeader(stream: Stream) returns (result: Fields)
    requires HeaderOf(stream.State()).Header?
    modifies stream
    ensures Header(result, stream.State()) == old(HeaderOf(stream.State()))
  {
    hide Find, FieldOf;
    result := [];
    var line := stream.GetLine([]);
    var paramEnd := Find(line, COLON, 0);
    while paramEnd.Some?
      invariant paramEnd == Find(line, COLON, 0)
      invariant HeaderFrom(stream.State(), line).Header?
      invariant var r := HeaderFrom(stream.State(), line);
                Header(result + r.fields, r.input) == old(HeaderOf(stream.State()))
      decreases |stream.unread| + if stream.good then 1 else 0
    {
      hide HeaderFrom;
      HeaderRound(stream.State(), line, paramEnd.value, result);
      GoodLineShrinks(stream.State(), line);
      var fields := ParseField(line, paramEnd.value);
      result := result + fields;
      line := stream.GetLine(line);
      paramEnd := Find(line, COLON, 0);
    }
    assert result + [] == result;
  }

  lemma GoodLineShrinks(input: Input, line: bytes)
    requires input.good
    ensures var (_, input') := LineOf(input, line);
            |input'.unread| + (if input'.good then 1 else 0) < |input.unread| + 1
  {}

  function FieldLine(field: (bytes, bytes)): bytes { field.0 + [COLON, SPACE] + field.1 + [CR] }

  function HeaderText(fields: Fields): bytes
  {
    if fields == [] then [] else FieldLine(fields[0]) + [LF] + HeaderText(fields[1..])
  }

  predicate PrintableField(field: (bytes, bytes))
  {
    && COLON !in field.0 && LF !in field.0 && LF !in field.1
    && (field.1 != [] ==> field.1[0] != SPACE)
  }

  predicate PrintableFields(fields: Fields) { forall f :: f in fields ==> PrintableField(f) }

  lemma FieldOfLine(field: (bytes, bytes))
    requires PrintableField(field)
    ensures LF !in FieldLine(field)
    ensures Find(FieldLine(field), COLON, 0) == Some(|field.0|)
    ensures FieldOf(FieldLine(field), |field.0|) == [field]
  {
    var (name, value) := field;
    var line, n := FieldLine(field), |field.0|;
    assert line[n] == COLON && line[n + 1] == SPACE && line[n + 2] == if value == [] then CR else value[0];
    assert forall i :: 0 <= i < n ==> line[i] == name[i];
    assert ValueStart(line, n + 1) == n + 2;
    assert line[..n] == name && line[n + 2..|line| - 1] == value;
  }

  /** The field of a line with any number of blanks behind the ':', none included, and any last byte. */
  lemma FieldOfBlanks(name: bytes, blanks: bytes, value: bytes, last: byte)
    requires COLON !in name && (forall i :: 0 <= i < |blanks| ==> blanks[i] == SPACE)
    requires value != [] ==> value[0] != SPACE
    ensures var line := name + [COLON] + blanks + value + [last];
            Find(line, COLON, 0) == Some(|name|) && FieldOf(line, |name|) == [(name, value)]
  {
    hide Find;
    var line := name + [COLON] + blanks + value + [last];
    var from := |name| + 1 + |blanks|;
    assert line[|name|] == COLON && forall i :: 0 <= i < |name| ==> line[i] == name[i];
    FindIs(line, COLON, |name|);
    assert forall i :: |name| < i < from ==> line[i] == blanks[i - |name| - 1];
    assert value != [] ==> line[from] == value[0];
    BlanksSkipped(line, |name| + 1, from);
    assert line[..|name|] == name && line[from..|line| - 1] == value;
  }

  lemma {:induction false} BlanksSkipped(line: bytes, from: nat, to: nat)
    requires from <= to < |line| && forall i :: from <= i < to ==> line[i] == SPACE
    requires to + 1 < |line| ==> line[to] != SPACE
    ensures ValueStart(line, from) == to
    decreases |line| - from
  {
    if from < to {
      BlanksSkipped(line, from + 1, to);
    }
  }

  /** A line that ends with its ':' gives no field. */
  lemma FieldOfNothing(name: bytes)
    ensures FieldOf(name + [COLON], |name|) == []
  {}

  lemma HeaderTextCut(fields: Fields, rest: bytes)
    requires fields != []
    ensures HeaderText(fields) + CRLF + rest == FieldLine(fields[0]) + [LF] + (HeaderText(fields[1..]) + CRLF + rest)
  {
    hide FieldLine;
    var first, more := FieldLine(fields[0]) + [LF], HeaderText(fields[1..]);
    assert HeaderText(fields) == first + more;
    Associative(first, more, CRLF);
    Associative(first, more + CRLF, rest);
  }

  lemma HeaderEnds(rest: bytes)
    ensures HeaderOf(Input([CR] + [LF] + rest, true)) == Header([], Input(rest, true))
  {
    hide Find, LineOf;
    LineOfTerminated([CR], rest, []);
    assert COLON !in [CR];
    assert Find([CR], COLON, 0) == None;
  }

  lemma HeaderGoesOn(line: bytes, end: nat, more: bytes)
    requires LF !in line && Find(line, COLON, 0) == Some(end)
    ensures HeaderOf(Input(line + [LF] + more, true))
         == match HeaderOf(Input(more, true))
            case Diverges => Diverges
            case Header(fields, rest) => Header(FieldOf(line, end) + fields, rest)
  {
    hide Find, FieldOf, LineOf;
    LineOfTerminated(line, more, []);
    NextLine(Input(more, true), line);
  }

  /** Parsing a printed header block gives its fields back and stops right behind the blank line. */
  lemma {:induction false} HeaderOfText(fields: Fields, rest: bytes)
    requires PrintableFields(fields)
    ensures HeaderOf(Input(HeaderText(fields) + CRLF + rest, true)) == Header(fields, Input(rest, true))
  {
    hide Find, FieldOf, FieldLine, PrintableField, HeaderOf;
    if fields == [] {
      assert HeaderText(fields) + CRLF + rest == [CR] + [LF] + rest;
      HeaderEnds(rest);
    } else {
      var line, more := FieldLine(fields[0]), HeaderText(fields[1..]) + CRLF + rest;
      HeaderTextCut(fields, rest);
      FieldOfLine(fields[0]);
      HeaderGoesOn(line, |fields[0].0|, more);
      HeaderOfText(fields[1..], rest);
      assert [fields[0]] + fields[1..] == fields;
    }
  }

  lemma LineIsOneLine(input: Input, line: bytes)
    requires input.good
    ensures LF !in LineOf(input, line).0
  {}

  lemma {:induction false} ValueStartStops(line: bytes, from: nat)
    ensures var r := ValueStart(line, from); r + 1 < |line| ==> line[r] != SPACE
    decreases |line| - from
  {
    if from + 1 < |line| && line[from] == SPACE {
      ValueStartStops(line, from + 1);
    }
  }

  lemma FieldOfIsPrintable(line: bytes, end: nat)
    requires LF !in line && Find(line, COLON, 0) == Some(end)
    ensures PrintableFields(FieldOf(line, end))
  {
    hide Find, ValueStart;
    ValueStartStops(line, end + 1);
    var start := ValueStart(line, end + 1);
    if start < |line| {
      var value := line[start..|line| - 1];
      assert value != [] ==> value[0] == line[start];
      assert forall b :: b in value ==> b in line;
      assert forall b :: b in line[..end] ==> b in line;
    }
  }

  /** Whatever is parsed, no field is of a kind that would not come back. */
  lemma {:induction false} HeaderIsPrintable(input: Input, line: bytes)
    requires LF !in line && HeaderFrom(input, line).Header?
    ensures PrintableFields(HeaderFrom(input, line).fields)
    decreases |input.unread| + if input.good then 1 else 0
  {
    hide Find, FieldOf, PrintableField, LineOf;
    var end := Find(line, COLON, 0);
    if end.Some? {
      var (next, input') := LineOf(input, line);
      GoodLineShrinks(input, line);
      LineIsOneLine(input, line);
      FieldOfIsPrintable(line, end.value);
      HeaderIsPrintable(input', next);
    }
  }

  /** A field list comes back if and only if no name holds a ':' or a newline, and no value a newline or a
      leading blank. */
  lemma HeaderSurvivesIff(fields: Fields, rest: bytes)
    ensures HeaderOf(Input(HeaderText(fields) + CRLF + rest, true)) == Header(fields, Input(rest, true))
       <==> PrintableFields(fields)
  {
    hide HeaderFrom, PrintableFields, LineOf;
    var input := Input(HeaderText(fields) + CRLF + rest, true);
    if HeaderOf(input) == Header(fields, Input(rest, true)) {
      LineIsOneLine(input, []);
      HeaderIsPrintable(LineOf(input, []).1, LineOf(input, []).0);
    } else if PrintableFields(fields) {
      HeaderOfText(fields, rest);
      assert false;
    }
  }

  // --------------------------------------------------------------- requests

  datatype Request = Request(method_: bytes, path: bytes, query: bytes, version: bytes, header: Fields)

  const HTTP: bytes := Ascii("HTTP")

  /** The request line: cut at the first two blanks; the target between them at its last '?';
      what follows must be "HTTP/", the version and one closing byte. What an early failure
      leaves unset keeps its old value. */
  function RequestLine(line: bytes, old_: Request): (bool, Request)
  {
    match Find(line, SPACE, 0)
    case None => (false, old_)
    case Some(m) =>
      var r := old_.(method_ := line[..m]);
      match Find(line, SPACE, m + 1)
      case None => (false, r)
      case Some(e) => Protocol(line, e + 1, WithTarget(r, line[m + 1..e]))
  }

  function WithTarget(r: Request, target: bytes): Request
  {
    match FindLast(target, QUESTION)
    case None => r.(path := target)
    case Some(q) => r.(path := target[..q], query := target[q + 1..])
  }

  function Protocol(line: bytes, from: nat, r: Request): (bool, Request)
    requires from <= |line|
  {
    match Find(line, SLASH, from)
    case None => (false, r)
    case Some(p) =>
      if line[from..p] != HTTP then (false, r)
      else (true, r.(version := if p + 2 <= |line| then line[p + 1..|line| - 1] else []))
  }

  datatype RequestResult = Parsed(ok: bool, request: Request, input: Input) | NeverReturns

  function RequestOf(input: Input, old_: Request): RequestResult
  {
    var (line, input') := LineOf(input, []);
    var (ok, request) := RequestLine(line, old_.(header := []));
    if !ok then Parsed(false, request, input')
    else
      match HeaderOf(input')
      case Diverges => NeverReturns
      case Header(fields, rest) => Parsed(true, request.(header := fields), rest)
  }

  /** The scan of the request target: queryStart follows the last '?' that is not the line's last byte. */
  method ScanTarget(line: bytes, from: nat) returns (queryStart: Option<nat>, end: Option<nat>)
    requires from <= |line|
    ensures end == Find(line, SPACE, from)
    ensures end.Some? ==> queryStart == match FindLast(line[from..end.value], QUESTION)
                                        case None => None
                                        case Some(q) => Some(from + q + 1)
  {
    queryStart, end := None, None;
    var i := from;
    assert line[from..from] == [];
    while i < |line|
      invariant from <= i <= |line|
      invariant Find(line, SPACE, from) == Find(line, SPACE, i)
      invariant i < |line| ==> queryStart == match FindLast(line[from..i], QUESTION)
                                             case None => None
                                             case Some(q) => Some(from + q + 1)
    {
      if line[i] == QUESTION && i + 1 < |line| {
        queryStart := Some(i + 1);
      } else if line[i] == SPACE {
        end := Some(i);
        return;
      }
      FindLastNext(line, from, i);
      i := i + 1;
    }
  }

  lemma FindLastNext(line: bytes, from: nat, i: nat)
    requires from <= i < |line|
    ensures FindLast(line[from..i + 1], QUESTION)
         == if line[i] == QUESTION then Some(i - from) else FindLast(line[from..i], QUESTION)
  {
    assert line[from..i + 1][..i - from] == line[from..i];
  }

  lemma SliceOfSlice(line: bytes, from: nat, to: nat, q: nat)
    requires from + q < to <= |line|
    ensures line[from..to][..q] == line[from..from + q]
    ensures line[from..to][q + 1..] == line[from + q + 1..to]
  {}

  method ParseProtocol(line: bytes, from: nat, old_: Request) returns (ok: bool, request: Request)
    requires from <= |line|
    ensures (ok, request) == Protocol(line, from, old_)
  {
    hide Find;
    request := old_;
    var protocolEnd := Find(line, SLASH, from);
    if protocolEnd.None? || line[from..protocolEnd.value] != HTTP {
      return false, request;
    }
    ok := true;
    assert protocolEnd.value + 1 == |line| ==> line[protocolEnd.value + 1..] == [];
    // line.size() - protocol_end - 2 wraps around when the slash is the last byte
    request := request.(version := if protocolEnd.value + 2 <= |line| then line[protocolEnd.value + 1..|line| - 1]
                                   else line[protocolEnd.value + 1..]);
  }

  method ParseRequestLine(line: bytes, old_: Request) returns (ok: bool, request: Request)
    ensures (ok, request) == RequestLine(line, old_)
  {
    hide FindLast, Find, Protocol;
    request := old_;
    var methodEnd := Find(line, SPACE, 0);
    if methodEnd.None? {
      return false, request;
    }
    request := request.(method_ := line[..methodEnd.value]);
    var queryStart, end := ScanTarget(line, methodEnd.value + 1);
    if end.None? {
      return false, request;
    }
    ghost var r := request;
    if queryStart.Some? {
      SliceOfSlice(line, methodEnd.value + 1, end.value, queryStart.value - methodEnd.value - 2);
      request := request.(path := line[methodEnd.value + 1..queryStart.value - 1],
                          query := line[queryStart.value..end.value]);
    } else {
      request := request.(path := line[methodEnd.value + 1..end.value]);
    }
    assert request == WithTarget(r, line[methodEnd.value + 1..end.value]);
    ok, request := ParseProtocol(line, end.value + 1, request);
  }

  method ParseRequest(stream: Stream, old_: Request) returns (ok: bool, request: Request)
    requires RequestOf(stream.State(), old_).Parsed?
    modifies stream
    ensures Parsed(ok, request, stream.State()) == old(RequestOf(stream.State(), old_))
  {
    hide RequestLine, HeaderOf;
    var line := stream.GetLine([]);
    ok, request := ParseRequestLine(line, old_.(header := []));
    if ok {
      var header := ParseHeader(stream);
      request := request.(header := header);
    }
  }

  function Target(path: bytes, query: Option<bytes>): bytes
  {
    path + match query case None => [] case Some(q) => [QUESTION] + q
  }

  function RequestText(method_: bytes, path: bytes, query: Option<bytes>, version: bytes, header: Fields): bytes
  {
    method_ + [SPACE] + Target(path, query) + [SPACE] + HTTP + [SLASH] + version + CRLF + HeaderText(header) + CRLF
  }

  predicate PrintableRequest(method_: bytes, path: bytes, query: Option<bytes>, version: bytes, header: Fields)
  {
    && SPACE !in method_ && LF !in method_
    && SPACE !in path && LF !in path
    && (query.Some? ==> SPACE !in query.value && LF !in query.value)
    && LF !in version
    && PrintableFields(header)
  }

  lemma {:induction false} FindUnique(s: bytes, b: byte, from: nat, k: nat)
    requires from <= k < |s| && s[k] == b && forall i :: from <= i < k ==> s[i] != b
    ensures Find(s, b, from) == Some(k)
  {}

  lemma FindBehind(line: bytes, b: byte, from: nat, to: nat)
    requires from <= to < |line| && line[to] == b && b !in line[from..to]
    ensures Find(line, b, from) == Some(to)
  {
    hide Find;
    FindUnique(line, b, from, to) by {
      assert forall i :: from <= i < to ==> line[i] == line[from..to][i - from];
    }
  }

  lemma RequestLineSlices(method_: bytes, target: bytes, version: bytes, line: bytes)
    requires line == method_ + [SPACE] + target + [SPACE] + HTTP + [SLASH] + version + [CR]
    ensures var m := |method_|; var e := m + 1 + |target|; var p := e + 5;
            p + 2 <= |line|
            && line[0..m] == method_ && line[m + 1..e] == target && line[e + 1..p] == HTTP
            && line[p + 1..|line| - 1] == version
            && line[m] == SPACE && line[e] == SPACE && line[p] == SLASH
  {}

  /** Where the four separators of a printed request line are. */
  lemma RequestLineCuts(method_: bytes, target: bytes, version: bytes, line: bytes)
    requires SPACE !in method_ && SPACE !in target
    requires line == method_ + [SPACE] + target + [SPACE] + HTTP + [SLASH] + version + [CR]
    ensures var m := |method_|; var e := m + 1 + |target|; var p := e + 5;
            p + 2 <= |line|
            && Find(line, SPACE, 0) == Some(m) && Find(line, SPACE, m + 1) == Some(e)
            && Find(line, SLASH, e + 1) == Some(p)
            && line[0..m] == method_ && line[m + 1..e] == target && line[e + 1..p] == HTTP
            && line[p + 1..|line| - 1] == version
  {
    hide Find;
    var m := |method_|;
    var e := m + 1 + |target|;
    RequestLineSlices(method_, target, version, line);
    FindBehind(line, SPACE, 0, m);
    FindBehind(line, SPACE, m + 1, e);
    assert SLASH !in HTTP;
    FindBehind(line, SLASH, e + 1, e + 5);
  }

  /** What is taken out of a printed request: its target is cut at the last '?'. Without one the
      query stays what it was. */
  function Understood(method_: bytes, path: bytes, query: Option<bytes>, version: bytes, header: Fields,
                      oldQuery: bytes)
    : (r: Request)
    ensures r.method_ == method_ && r.version == version && r.header == header
  {
    WithTarget(Request(method_, [], oldQuery, version, header), Target(path, query))
  }

  /** What was meant by it. */
  function Meant(method_: bytes, path: bytes, query: Option<bytes>, version: bytes, header: Fields, oldQuery: bytes)
    : Request
  {
    Request(method_, path, if query.None? then oldQuery else query.value, version, header)
  }

  /** Behind the first '?' of the target there is no other. */
  predicate CutRight(path: bytes, query: Option<bytes>)
  {
    QUESTION !in match query case None => path case Some(q) => q
  }

  /** Path and query come back if and only if '?' is not in the query, or not in the path when there is no query. */
  lemma UnderstoodIff(method_: bytes, path: bytes, query: Option<bytes>, version: bytes, header: Fields,
                      oldQuery: bytes)
    ensures Understood(method_, path, query, version, header, oldQuery)
            == Meant(method_, path, query, version, header, oldQuery)
       <==> CutRight(path, query)
  {
    hide FindLast, Target;
    var target := Target(path, query);
    match query
    case None => TargetAlike(path);
    case Some(q) =>
      TargetCut(path, q);
      if CutRight(path, query) {
        FindLastIs(target, QUESTION, |path|);
      } else {
        var j :| 0 <= j < |q| && q[j] == QUESTION;
        assert target[|path| + 1 + j] == QUESTION;
      }
  }

  lemma TargetAlike(path: bytes)
    ensures Target(path, None) == path
  {}

  lemma TargetCut(path: bytes, q: bytes)
    ensures var target := Target(path, Some(q));
            && |target| == |path| + 1 + |q| && target[|path|] == QUESTION
            && target[|path| + 1..] == q && target[..|path|] == path
            && forall i :: |path| < i < |target| ==> target[i] == q[i - |path| - 1]
  {}

  /** A query with a '?' in it loses its front part to the path. */
  lemma QuestionInQuery(method_: bytes, path: bytes, front: bytes, back: bytes, version: bytes, header: Fields,
                        oldQuery: bytes)
    requires QUESTION !in back
    ensures Understood(method_, path, Some(front + [QUESTION] + back), version, header, oldQuery)
         == Request(method_, path + [QUESTION] + front, back, version, header)
  {
    hide FindLast;
    var target := Target(path, Some(front + [QUESTION] + back));
    var cut := |path| + 1 + |front|;
    assert target == path + [QUESTION] + front + [QUESTION] + back;
    FindLastIs(target, QUESTION, cut);
    assert target[..cut] == path + [QUESTION] + front && target[cut + 1..] == back;
  }

  /** The target "/a?b?c": its path is "/a" and its query "b?c", but not for the parser. */
  lemma TwoQuestionMarks(oldQuery: bytes)
    ensures Target(Ascii("/a"), Some(Ascii("b?c"))) == Ascii("/a?b?c")
    ensures Understood(Ascii("GET"), Ascii("/a"), Some(Ascii("b?c")), ONE_ONE, [], oldQuery)
         == Request(Ascii("GET"), Ascii("/a?b"), Ascii("c"), ONE_ONE, [])
  {
    hide FindLast;
    assert Ascii("b?c") == Ascii("b") + [QUESTION] + Ascii("c");
    assert Ascii("/a?b") == Ascii("/a") + [QUESTION] + Ascii("b");
    QuestionInQuery(Ascii("GET"), Ascii("/a"), Ascii("b"), Ascii("c"), ONE_ONE, [], oldQuery);
  }

  lemma RequestLineByCuts(line: bytes, old_: Request, m: nat, e: nat)
    requires Find(line, SPACE, 0) == Some(m) && Find(line, SPACE, m + 1) == Some(e)
    ensures RequestLine(line, old_) == Protocol(line, e + 1, WithTarget(old_.(method_ := line[..m]), line[m + 1..e]))
  {
    hide Find, Protocol, WithTarget;
  }

  lemma RequestLineOfText(method_: bytes, path: bytes, query: Option<bytes>, version: bytes, line: bytes, old_: Request)
    requires PrintableRequest(method_, path, query, version, [])
    requires line == method_ + [SPACE] + Target(path, query) + [SPACE] + HTTP + [SLASH] + version + [CR]
    ensures RequestLine(line, old_) == (true, Understood(method_, path, query, version, old_.header, old_.query))
  {
    hide Find, FindLast, RequestLine, Target, WithTarget, Protocol, PrintableFields;
    var target := Target(path, query);
    assert SPACE !in target by { TargetHasNoSpace(path, query); }
    RequestLineCuts(method_, target, version, line);
    var e := |method_| + 1 + |target|;
    RequestLineByCuts(line, old_, |method_|, e);
    assert line[0..|method_|] == line[..|method_|];
    var r := old_.(method_ := method_);
    ProtocolByCuts(line, e + 1, e + 5, WithTarget(r, target));
    TargetAlone(r, Request(method_, [], old_.query, version, old_.header), target, version);
  }

  lemma TargetHasNoSpace(path: bytes, query: Option<bytes>)
    requires SPACE !in path && (query.Some? ==> SPACE !in query.value)
    ensures SPACE !in Target(path, query)
  {}

  lemma ProtocolByCuts(line: bytes, from: nat, p: nat, r: Request)
    requires from <= p && p + 2 <= |line| && Find(line, SLASH, from) == Some(p) && line[from..p] == HTTP
    ensures Protocol(line, from, r) == (true, r.(version := line[p + 1..|line| - 1]))
  {
    hide Find;
  }

  lemma TargetAlone(r: Request, s: Request, target: bytes, version: bytes)
    requires s == r.(path := [], version := version)
    ensures WithTarget(r, target).(version := version) == WithTarget(s, target)
  {
    hide FindLast;
  }

  /** On every request printed after the grammar of RFC 7230 section 3.1.1 the parser takes out method, version
      and header as printed, the target cut at its last '?', and stops right behind the blank line. */
  lemma RequestOfText(method_: bytes, path: bytes, query: Option<bytes>, version: bytes, header: Fields, rest: bytes,
                      old_: Request)
    requires PrintableRequest(method_, path, query, version, header)
    ensures RequestOf(Input(RequestText(method_, path, query, version, header) + rest, true), old_)
         == Parsed(true, Understood(method_, path, query, version, header, old_.query), Input(rest, true))
  {
    hide Find, FindLast, RequestLine, HeaderOf, HeaderText;
    var line := method_ + [SPACE] + Target(path, query) + [SPACE] + HTTP + [SLASH] + version + [CR];
    var more := HeaderText(header) + CRLF + rest;
    assert RequestText(method_, path, query, version, header) + rest == line + [LF] + more;
    assert LF !in HTTP && LF !in Target(path, query);
    LineOfTerminated(line, more, []);
    RequestLineOfText(method_, path, query, version, line, old_.(header := []));
    HeaderOfText(header, rest);
  }

  /** So parsing inverts printing if and only if '?' is not in the query, or not in the path when there is none. */
  lemma RequestSurvivesIff(method_: bytes, path: bytes, query: Option<bytes>, version: bytes, header: Fields,
                           rest: bytes, old_: Request)
    requires PrintableRequest(method_, path, query, version, header)
    ensures RequestOf(Input(RequestText(method_, path, query, version, header) + rest, true), old_)
            == Parsed(true, Meant(method_, path, query, version, header, old_.query), Input(rest, true))
       <==> CutRight(path, query)
  {
    hide RequestOf, RequestText, Understood, Meant, CutRight, PrintableRequest;
    RequestOfText(method_, path, query, version, header, rest, old_);
    UnderstoodIff(method_, path, query, version, header, old_.query);
  }

  /** A request line: two parts without blanks, then "HTTP/" and anything. */
  predicate HasShape(line: bytes, method_: bytes, target: bytes, tail: bytes)
  {
    SPACE !in method_ && SPACE !in target && line == method_ + [SPACE] + target + [SPACE] + HTTP + [SLASH] + tail
  }

  /** A line of this shape is parsed, and the last byte of what follows "HTTP/" is dropped. */
  lemma RequestLineOfShape(line: bytes, method_: bytes, target: bytes, tail: bytes, old_: Request)
    requires HasShape(line, method_, target, tail)
    ensures RequestLine(line, old_)
         == (true, WithTarget(old_.(method_ := method_), target)
                   .(version := if tail == [] then [] else tail[..|tail| - 1]))
  {
    hide Find, WithTarget, Protocol, RequestLine;
    var m := |method_|;
    var e := m + 1 + |target|;
    var p := e + 5;
    ShapeSlices(line, method_, target, tail);
    FindBehind(line, SPACE, 0, m);
    FindBehind(line, SPACE, m + 1, e);
    assert SLASH !in HTTP;
    FindBehind(line, SLASH, e + 1, p);
    RequestLineByCuts(line, old_, m, e);
    assert line[..m] == line[0..m];
    ProtocolAt(line, e + 1, p, WithTarget(old_.(method_ := method_), target));
    assert tail != [] ==> line[p + 1..|line| - 1] == tail[..|tail| - 1];
  }

  lemma ShapeSlices(line: bytes, method_: bytes, target: bytes, tail: bytes)
    requires HasShape(line, method_, target, tail)
    ensures var m := |method_|; var e := m + 1 + |target|; var p := e + 5;
            p + 1 + |tail| == |line|
            && line[0..m] == method_ && line[m + 1..e] == target && line[e + 1..p] == HTTP
            && line[p + 1..] == tail
            && line[m] == SPACE && line[e] == SPACE && line[p] == SLASH
  {}

  lemma ProtocolAt(line: bytes, from: nat, p: nat, r: Request)
    requires from <= p < |line| && Find(line, SLASH, from) == Some(p) && line[from..p] == HTTP
    ensures Protocol(line, from, r) == (true, r.(version := if p + 2 <= |line| then line[p + 1..|line| - 1] else []))
  {
    hide Find;
  }

  /** No other line is. A failure leaves the version, and without a blank everything. */
  lemma RequestLineOkIff(line: bytes, old_: Request)
    ensures RequestLine(line, old_).0 <==> exists method_, target, tail :: HasShape(line, method_, target, tail)
    ensures !RequestLine(line, old_).0 ==> RequestLine(line, old_).1.version == old_.version
    ensures SPACE !in line ==> RequestLine(line, old_).1 == old_
  {
    hide Find, Protocol, WithTarget, HasShape;
    if RequestLine(line, old_).0 {
      OkHasShape(line, old_);
    } else if method_, target, tail :| HasShape(line, method_, target, tail) {
      RequestLineOfShape(line, method_, target, tail, old_);
      assert false;
    }
    ProtocolFails(line, old_);
  }

  /** What a failure leaves: the method is set as soon as there is a blank, path and query as soon as there are two. */
  lemma RequestLineLeaves(method_: bytes, rest: bytes, target: bytes, tail: bytes, old_: Request)
    requires SPACE !in method_ && SPACE !in target
    ensures SPACE !in rest ==> RequestLine(method_ + [SPACE] + rest, old_) == (false, old_.(method_ := method_))
    ensures var r := RequestLine(method_ + [SPACE] + (target + [SPACE] + tail), old_);
            r.1.(version := old_.version) == WithTarget(old_.(method_ := method_), target)
  {
    hide Find, WithTarget;
    FirstBlank(method_, rest);
    if SPACE !in rest {
      var line := method_ + [SPACE] + rest;
      assert Find(line, SPACE, |method_| + 1) == None by {
        assert forall i :: |method_| < i < |line| ==> line[i] == rest[i - |method_| - 1];
      }
    }
    var line := method_ + [SPACE] + (target + [SPACE] + tail);
    FirstBlank(method_, target + [SPACE] + tail);
    var e := |method_| + 1 + |target|;
    assert line[|method_| + 1..e] == target && line[e] == SPACE;
    FindBehind(line, SPACE, |method_| + 1, e);
    RequestLineByCuts(line, old_, |method_|, e);
    TargetKeepsVersion(old_.(method_ := method_), target);
  }

  lemma FirstBlank(front: bytes, rest: bytes)
    requires SPACE !in front
    ensures var line := front + [SPACE] + rest; Find(line, SPACE, 0) == Some(|front|) && line[..|front|] == front
  {
    hide Find;
    var line := front + [SPACE] + rest;
    assert line[|front|] == SPACE && forall i :: 0 <= i < |front| ==> line[i] == front[i];
    FindIs(line, SPACE, |front|);
  }

  lemma TargetKeepsVersion(r: Request, target: bytes)
    ensures WithTarget(r, target).version == r.version
  {
    hide FindLast;
  }

  lemma ProtocolFails(line: bytes, old_: Request)
    ensures !RequestLine(line, old_).0 ==> RequestLine(line, old_).1.version == old_.version
    ensures SPACE !in line ==> RequestLine(line, old_).1 == old_
  {
    hide Find, FindLast;
  }

  lemma OkHasShape(line: bytes, old_: Request)
    requires RequestLine(line, old_).0
    ensures exists method_, target, tail :: HasShape(line, method_, target, tail)
  {
    hide Find, WithTarget, HasShape;
    var m := Find(line, SPACE, 0).value;
    var e := Find(line, SPACE, m + 1).value;
    var p := Find(line, SLASH, e + 1).value;
    CutsHaveShape(line, m, e, p);
  }

  lemma CutsHaveShape(line: bytes, m: nat, e: nat, p: nat)
    requires m < e < p < |line| && line[m] == SPACE && line[e] == SPACE && line[p] == SLASH && line[e + 1..p] == HTTP
    requires forall i :: 0 <= i < e && i != m ==> line[i] != SPACE
    ensures HasShape(line, line[..m], line[m + 1..e], line[p + 1..])
  {
    assert line == line[..m] + [SPACE] + line[m + 1..e] + [SPACE] + line[e + 1..p] + [SLASH] + line[p + 1..];
  }

  /** What the parser takes out of a line has the alphabet of its grammar. */
  lemma RequestLineAlphabet(line: bytes, old_: Request)
    requires LF !in line && RequestLine(line, old_).0
    ensures var r := RequestLine(line, old_).1;
            && SPACE !in r.method_ && LF !in r.method_ && SPACE !in r.path && LF !in r.path && LF !in r.version
            && (r.query == old_.query || (SPACE !in r.query && LF !in r.query))
  {
    hide Find, FindLast;
    var m := Find(line, SPACE, 0).value;
    var e := Find(line, SPACE, m + 1).value;
    var target := line[m + 1..e];
    Within(line, 0, m);
    Within(line, m + 1, e);
    assert SPACE !in line[..m] && SPACE !in target;
    match FindLast(target, QUESTION)
    case None =>
    case Some(q) =>
      Within(target, 0, q);
      Within(target, q + 1, |target|);
  }

  lemma Within(s: bytes, from: nat, to: nat)
    requires from <= to <= |s|
    ensures forall b :: b in s[from..to] ==> b in s
  {}

  lemma RequestAlphabet(input: Input, old_: Request)
    requires input.good && RequestOf(input, old_).Parsed? && RequestOf(input, old_).ok
    ensures var r := RequestOf(input, old_).request;
            && SPACE !in r.method_ && LF !in r.method_ && SPACE !in r.path && LF !in r.path && LF !in r.version
            && (r.query == old_.query || (SPACE !in r.query && LF !in r.query)) && PrintableFields(r.header)
  {
    hide RequestLine, HeaderFrom, PrintableFields, LineOf;
    var (line, input') := LineOf(input, []);
    LineIsOneLine(input, []);
    RequestLineAlphabet(line, old_.(header := []));
    HeaderOfAny(input');
  }

  lemma HeaderOfAny(input: Input)
    requires HeaderOf(input).Header?
    ensures PrintableFields(HeaderOf(input).fields)
  {
    hide HeaderFrom, PrintableFields;
    if input.good {
      LineIsOneLine(input, []);
    }
    HeaderIsPrintable(LineOf(input, []).1, LineOf(input, []).0);
  }

  /** For all parts of a request, and a parser that has no query yet: they come back if and only if they keep
      the grammar and '?' is not in the query, or not in the path when there is none. */
  lemma RequestComesBackIff(method_: bytes, path: bytes, query: Option<bytes>, version: bytes, header: Fields,
                            rest: bytes, old_: Request)
    requires old_.query == []
    ensures RequestOf(Input(RequestText(method_, path, query, version, header) + rest, true), old_)
            == Parsed(true, Meant(method_, path, query, version, header, []), Input(rest, true))
       <==> PrintableRequest(method_, path, query, version, header) && CutRight(path, query)
  {
    hide RequestOf, RequestText, CutRight, PrintableFields;
    var input := Input(RequestText(method_, path, query, version, header) + rest, true);
    if RequestOf(input, old_) == Parsed(true, Meant(method_, path, query, version, header, []), Input(rest, true)) {
      RequestAlphabet(input, old_);
    }
    if PrintableRequest(method_, path, query, version, header) {
      RequestSurvivesIff(method_, path, query, version, header, rest, old_);
    }
  }

  // -------------------------------------------------------------- responses

  /** The status line; 5 bytes are skipped for "HTTP/", and version_end - 5 wraps around when
      the first blank comes earlier. None is a failed parse. */
  function StatusLine(line: bytes): Option<(bytes, bytes)>
  {
    match Find(line, SPACE, 0)
    case None => None
    case Some(e) =>
      if |line| <= 5 || e + 1 >= |line| then None
      else Some((if e < 5 then line[5..] else line[5..e], line[e + 1..|line| - 1]))
  }

  datatype ResponseResult =
    | Response(version: bytes, status: bytes, header: Fields, input: Input)
    | Refused
    | NeverParsed

  function ResponseOf(input: Input): ResponseResult
  {
    var (line, input') := LineOf(input, []);
    match StatusLine(line)
    case None => Refused
    case Some((version, status)) =>
      match HeaderOf(input')
      case Diverges => NeverParsed
      case Header(fields, rest) => Response(version, status, fields, rest)
  }

  method ParseResponse(stream: Stream) returns (ok: bool, version: bytes, status: bytes, header: Fields)
    requires !ResponseOf(stream.State()).NeverParsed?
    modifies stream
    ensures ok <==> old(ResponseOf(stream.State())).Response?
    ensures ok ==> Response(version, status, header, stream.State()) == old(ResponseOf(stream.State()))
  {
    hide HeaderOf, Find;
    ok, version, status, header := false, [], [], [];
    var line := stream.GetLine([]);
    var versionEnd := Find(line, SPACE, 0);
    if versionEnd.None? || |line| <= 5 {
      return;
    }
    version := if versionEnd.value < 5 then line[5..] else line[5..versionEnd.value];
    if versionEnd.value + 1 >= |line| {
      return;
    }
    status := line[versionEnd.value + 1..|line| - 1];
    header := ParseHeader(stream);
    ok := true;
  }

  const CONTENT_LENGTH: bytes := Ascii("Content-Length")
  const TRANSFER_ENCODING: bytes := Ascii("Transfer-Encoding")
  const CHUNKED: bytes := Ascii("chunked")
  const STATUS_PREFIX: bytes := Ascii("HTTP/1.1 ")
  const ONE_ONE: bytes := Ascii("1.1")

  predicate IsLength(field: (bytes, bytes)) { CaseInsensitiveEqual(field.0, CONTENT_LENGTH) }

  predicate IsChunked(field: (bytes, bytes))
  {
    CaseInsensitiveEqual(field.0, TRANSFER_ENCODING) && CaseInsensitiveEqual(field.1, CHUNKED)
  }

  /** The fields that go out: a Content-Length is added exactly when no field gives the length,
      none announces chunks, and the connection is not to be closed. */
  function SentFields(fields: Fields, size: nat, close: bool): Fields
  {
    if close || exists f :: f in fields && (IsLength(f) || IsChunked(f)) then fields
    else fields + [(CONTENT_LENGTH, Decimal(size))]
  }

  function ResponseText(status: bytes, content: bytes, fields: Fields, close: bool): bytes
  {
    STATUS_PREFIX + status + CRLF + HeaderText(SentFields(fields, |content|, close)) + CRLF + content
  }

  lemma {:induction false} HeaderTextSnoc(fields: Fields, field: (bytes, bytes))
    ensures HeaderText(fields + [field]) == HeaderText(fields) + (FieldLine(field) + [LF])
  {
    hide FieldLine;
    var more := fields + [field];
    if fields == [] {
      assert more[1..] == [];
      assert HeaderText(more) == FieldLine(field) + [LF] + [];
    } else {
      assert more[1..] == fields[1..] + [field];
      HeaderTextSnoc(fields[1..], field);
    }
  }

  class ResponseWriter {
    var streambuf: bytes
    var closeConnectionAfterResponse: bool

    constructor ()
      ensures streambuf == [] && !closeConnectionAfterResponse
    {
      streambuf, closeConnectionAfterResponse := [], false;
    }

    method WriteHeader(header: Fields, size: nat)
      modifies this`streambuf
      ensures streambuf == old(streambuf) + HeaderText(SentFields(header, size, closeConnectionAfterResponse)) + CRLF
    {
      hide HeaderText, CaseInsensitiveEqual;
      var contentLengthWritten, chunkedTransferEncoding := false, false;
      HeaderTextOfNone();
      assert header[..0] == [] && streambuf + [] == streambuf;
      for i := 0 to |header|
        invariant streambuf == old(streambuf) + HeaderText(header[..i])
        invariant contentLengthWritten <==> exists f :: f in header[..i] && IsLength(f)
        invariant chunkedTransferEncoding <==> exists f :: f in header[..i] && IsChunked(f)
      {
        var field := header[i];
        LengthIsNotChunked(field);
        assert header[..i + 1] == header[..i] + [field];
        HeaderTextSnoc(header[..i], field);
        if !contentLengthWritten && IsLength(field) {
          contentLengthWritten := true;
        } else if !chunkedTransferEncoding && IsChunked(field) {
          chunkedTransferEncoding := true;
        }
        Associative(old(streambuf), HeaderText(header[..i]), FieldLine(field) + [LF]);
        streambuf := streambuf + (FieldLine(field) + [LF]);
      }
      assert header[..|header|] == header;
      if !contentLengthWritten && !chunkedTransferEncoding && !closeConnectionAfterResponse {
        var length := (CONTENT_LENGTH, Decimal(size));
        HeaderTextSnoc(header, length);
        Associative(old(streambuf), HeaderText(header), FieldLine(length) + [LF]);
        streambuf := streambuf + (FieldLine(length) + [LF]) + CRLF;
      } else {
        streambuf := streambuf + CRLF;
      }
    }

    /** write(status, content, header); without content it is also write(status, header). */
    method Write(status: bytes, content: bytes, header: Fields)
      modifies this`streambuf
      ensures streambuf == old(streambuf) + ResponseText(status, content, header, closeConnectionAfterResponse)
    {
      hide HeaderText, SentFields;
      streambuf := streambuf + (STATUS_PREFIX + status + CRLF);
      WriteHeader(header, |content|);
      if content != [] {
        streambuf := streambuf + content;
      }
    }
  }

  lemma HeaderTextOfNone()
    ensures HeaderText([]) == []
  {}

  lemma LengthIsNotChunked(field: (bytes, bytes))
    ensures !(IsLength(field) && IsChunked(field))
  {}

  lemma LengthFieldIsPrintable(size: nat)
    ensures PrintableField((CONTENT_LENGTH, Decimal(size)))
  {
    var text := Decimal(size);
    assert forall i :: 0 <= i < |text| ==> IsDigit(text[i], 10);
    assert text[0] != SPACE;
  }

  lemma StatusLineOfText(status: bytes, line: bytes)
    requires line == STATUS_PREFIX + status + [CR]
    ensures StatusLine(line) == Some((ONE_ONE, status))
  {
    FindUnique(line, SPACE, 0, 8);
    assert line[5..8] == ONE_ONE && line[9..|line| - 1] == status;
  }

  /** Reading a written response gives back version 1.1, the status text and the fields, and
      leaves exactly the content unread (RFC 7230 sections 3.1.2, 3.2 and 3.3.2). */
  lemma ResponseOfText(status: bytes, content: bytes, fields: Fields, close: bool)
    requires LF !in status && PrintableFields(fields)
    ensures ResponseOf(Input(ResponseText(status, content, fields, close), true))
         == Response(ONE_ONE, status, SentFields(fields, |content|, close), Input(content, true))
  {
    hide Find, StatusLine, HeaderOf, HeaderText, SentFields, PrintableField, LineOf;
    var sent := SentFields(fields, |content|, close);
    var line := STATUS_PREFIX + status + [CR];
    var more := HeaderText(sent) + CRLF + content;
    assert ResponseText(status, content, fields, close) == line + [LF] + more;
    LineOfTerminated(line, more, []);
    StatusLineOfText(status, line);
    SentFieldsArePrintable(fields, |content|, close);
    HeaderOfText(sent, content);
  }

  /** A response comes back if and only if its status is one line and its fields survive. */
  lemma ResponseSurvivesIff(status: bytes, content: bytes, fields: Fields, close: bool)
    ensures ResponseOf(Input(ResponseText(status, content, fields, close), true))
            == Response(ONE_ONE, status, SentFields(fields, |content|, close), Input(content, true))
       <==> LF !in status && PrintableFields(fields)
  {
    hide ResponseOf, ResponseText;
    var input := Input(ResponseText(status, content, fields, close), true);
    var sent := SentFields(fields, |content|, close);
    if ResponseOf(input) == Response(ONE_ONE, status, sent, Input(content, true)) {
      ResponseAlphabet(input);
      assert forall f :: f in fields ==> f in sent;
    } else if LF !in status && PrintableFields(fields) {
      ResponseOfText(status, content, fields, close);
      assert false;
    }
  }

  lemma ResponseAlphabet(input: Input)
    requires input.good && ResponseOf(input).Response?
    ensures LF !in ResponseOf(input).status && PrintableFields(ResponseOf(input).header)
  {
    hide HeaderFrom, PrintableFields, LineOf, Find;
    var (line, input') := LineOf(input, []);
    LineIsOneLine(input, []);
    HeaderOfAny(input');
    var e := Find(line, SPACE, 0).value;
    Within(line, e + 1, |line| - 1);
  }

  lemma SentFieldsArePrintable(fields: Fields, size: nat, close: bool)
    requires PrintableFields(fields)
    ensures PrintableFields(SentFields(fields, size, close))
  {
    hide PrintableField;
    LengthFieldIsPrintable(size);
  }

  /** The status line of any server: five bytes, the version, a blank, the status and one more byte. */
  lemma StatusLineOfShape(front: bytes, version: bytes, status: bytes, last: byte)
    requires |front| == 5 && SPACE !in front && SPACE !in version
    ensures StatusLine(front + version + [SPACE] + status + [last]) == Some((version, status))
  {
    hide Find;
    var line := front + version + [SPACE] + status + [last];
    var e := 5 + |version|;
    assert line[e] == SPACE && line[..e] == front + version;
    assert forall i :: 0 <= i < e ==> line[i] == (front + version)[i];
    FindIs(line, SPACE, e);
    assert line[5..e] == version && line[e + 1..|line| - 1] == status;
  }

  /** It is refused if and only if it is too short or has no blank in front of its last byte; with a blank among
      the first five bytes the version is all the rest. */
  lemma StatusLineIff(line: bytes)
    ensures StatusLine(line).Some? <==> |line| > 5 && SPACE in line[..|line| - 1]
    ensures StatusLine(line).Some? && SPACE in line[..5] ==> StatusLine(line).value.0 == line[5..]
  {
    hide Find;
    if |line| > 5 {
      var front := line[..|line| - 1];
      assert forall i :: 0 <= i < |front| ==> front[i] == line[i];
      assert forall i :: 0 <= i < 5 ==> line[..5][i] == line[i];
    }
  }

  /** A length is added if and only if the connection stays open and no field gives a length or announces chunks. */
  lemma LengthIsAddedIff(fields: Fields, size: nat, close: bool)
    ensures SentFields(fields, size, close)
         == if !close && forall f :: f in fields ==>
                 && !CaseInsensitiveEqual(f.0, Ascii("Content-Length"))
                 && !(CaseInsensitiveEqual(f.0, Ascii("Transfer-Encoding"))
                      && CaseInsensitiveEqual(f.1, Ascii("chunked")))
            then fields + [(Ascii("Content-Length"), Decimal(size))] else fields
  {
    hide CaseInsensitiveEqual, Print;
  }

  /** A reader that looks the added length up and converts it gets the size of the content. */
  lemma {:induction false} AddedLengthIsContentSize(fields: Fields, size: nat)
    requires !exists f :: f in fields && (IsLength(f) || IsChunked(f))
    requires size < TWO64
    ensures FindField(SentFields(fields, size, false), CONTENT_LENGTH) == Some(Decimal(size))
    ensures Stoul(Decimal(size), 10) == Some(size)
  {
    hide CaseInsensitiveEqual;
    StoulOfPrint(size, 10);
    FindFieldSnoc(fields, CONTENT_LENGTH, Decimal(size));
  }

  lemma {:induction false} FindFieldSnoc(fields: Fields, name: bytes, value: bytes)
    requires forall f :: f in fields ==> !CaseInsensitiveEqual(f.0, name)
    ensures FindField(fields + [(name, value)], name) == Some(value)
  {
    var all := fields + [(name, value)];
    if fields != [] {
      assert fields[0] in fields && all[0] == fields[0] && all[1..] == fields[1..] + [(name, value)];
      FindFieldSnoc(fields[1..], name, value);
    }
  }
}

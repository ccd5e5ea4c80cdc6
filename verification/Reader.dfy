/** ServerBase::read and the chunk decoder: bytes arrive in arbitrary portions, and a
    read may pull in more than was asked for (RFC 7230 sections 3.3 and 4.1). */
module Reader {
  import opened Bytes
  import opened Numerals
  import opened Messages

  // ------------------------------------------------------------- delimiters

  /** What async_read_until is asked for: "\r\n" or "\r\n\r\n". */
  datatype Delimiter = LineEnd | BlankLine
  {
    function Length(): nat { if LineEnd? then 2 else 4 }
  }

  predicate LineEndAt(s: bytes, i: nat) { i + 1 < |s| && s[i] == CR && s[i + 1] == LF }

  predicate At(d: Delimiter, s: bytes, i: nat)
  {
    LineEndAt(s, i) && (d.BlankLine? ==> LineEndAt(s, i + 2))
  }

  function FindDelimiter(d: Delimiter, s: bytes, from: nat): (r: Option<nat>)
    ensures r.Some? ==> from <= r.value && r.value + d.Length() <= |s| && At(d, s, r.value)
    ensures r.Some? ==> forall i :: from <= i < r.value ==> !At(d, s, i)
    ensures r.None? ==> forall i :: from <= i < |s| ==> !At(d, s, i)
    decreases |s| - from
  {
    if from >= |s| then None
    else if At(d, s, from) then Some(from)
    else FindDelimiter(d, s, from + 1)
  }

  lemma DelimiterIs(d: Delimiter, s: bytes, k: nat)
    requires At(d, s, k) && forall i :: 0 <= i < k ==> !At(d, s, i)
    ensures FindDelimiter(d, s, 0) == Some(k)
  {
    assert k < |s|;
  }

  /** A delimiter once found stays the first, whatever arrives behind it. */
  lemma DelimiterOfLonger(d: Delimiter, s: bytes, more: bytes)
    requires FindDelimiter(d, s, 0).Some?
    ensures FindDelimiter(d, s + more, 0) == FindDelimiter(d, s, 0)
  {
    var k := FindDelimiter(d, s, 0).value;
    forall i | 0 <= i <= k
      ensures At(d, s + more, i) <==> At(d, s, i)
    {
      assert forall j :: i <= j < i + d.Length() ==> (s + more)[j] == s[j];
    }
    DelimiterIs(d, s + more, k);
  }

  // ------------------------------------------------------------------ spec

  const EMPTY := Request([], [], [], [], [])

  datatype Framing = Sized(size: nat) | Chunks | Bodyless | BadSize

  /** How the header says the content is delimited; a Content-Length goes before chunks. */
  function FramingOf(header: Fields): Framing
  {
    match FindField(header, CONTENT_LENGTH)
    case Some(text) => (match Stoul(text, 10) case None => BadSize case Some(n) => Sized(n))
    case None => if FindField(header, TRANSFER_ENCODING) == Some(CHUNKED) then Chunks else Bodyless
  }

  /** A chunked coding is honoured if and only if no Content-Length is there, in any spelling, and the first
      Transfer-Encoding, in any spelling, has the value "chunked" letter by letter. */
  lemma ChunksAreHonouredIff(header: Fields)
    ensures FramingOf(header) == Chunks
       <==> && (forall f :: f in header ==> !CaseInsensitiveEqual(f.0, CONTENT_LENGTH))
            && exists k :: FirstAt(header, TRANSFER_ENCODING, CHUNKED, k)
  {
    hide CaseInsensitiveEqual, FindField, Stoul;
    NoFieldIff(header, CONTENT_LENGTH);
    FieldIff(header, TRANSFER_ENCODING, CHUNKED);
  }

  lemma NoFieldIff(header: Fields, name: bytes)
    ensures FindField(header, name) == None <==> forall f :: f in header ==> !CaseInsensitiveEqual(f.0, name)
  {
    hide CaseInsensitiveEqual;
  }

  /** The first field of the given name stands at k and has the given value. */
  predicate FirstAt(header: Fields, name: bytes, value: bytes, k: int)
  {
    0 <= k < |header| && CaseInsensitiveEqual(header[k].0, name) && header[k].1 == value
    && forall j :: 0 <= j < k ==> !CaseInsensitiveEqual(header[j].0, name)
  }

  lemma {:induction false} FieldIff(header: Fields, name: bytes, value: bytes)
    ensures FindField(header, name) == Some(value) <==> exists k :: FirstAt(header, name, value, k)
  {
    hide CaseInsensitiveEqual;
    if header != [] {
      if CaseInsensitiveEqual(header[0].0, name) {
        assert header[0].1 == value ==> FirstAt(header, name, value, 0);
      } else {
        var rest := header[1..];
        forall k | FirstAt(rest, name, value, k)
          ensures FirstAt(header, name, value, k + 1)
        {}
        forall k | FirstAt(header, name, value, k)
          ensures FirstAt(rest, name, value, k - 1)
        {}
        FieldIff(rest, name, value);
      }
    }
  }

  predicate HasName(f: (bytes, bytes), name: bytes) { CaseInsensitiveEqual(f.0, name) }

  /** Whatever the order of equal keys: a chunked coding is honoured if and only if no Content-Length is there, a
      Transfer-Encoding is, and every one of them is spelled "chunked". */
  lemma ChunksAreHonouredInAnyOrderIff(header: Fields)
    ensures (forall other :: SameFields(other, header) ==> FramingOf(other) == Chunks)
       <==> && (forall f :: f in header ==> !HasName(f, CONTENT_LENGTH))
            && (exists f :: f in header && HasName(f, TRANSFER_ENCODING))
            && (forall f :: f in header && HasName(f, TRANSFER_ENCODING) ==> f.1 == CHUNKED)
  {
    hide CaseInsensitiveEqual, FramingOf, SameFields, ToFront;
    if AlwaysChunked(header) {
      forall other | SameFields(other, header)
        ensures FramingOf(other) == Chunks
      {
        SameMembers(other, header);
        AlwaysChunkedIsChunks(other);
      }
    } else if forall other :: SameFields(other, header) ==> FramingOf(other) == Chunks {
      assert SameFields(header, header) by { SameAsItself(header); }
      ChunksAreHonouredIff(header);
      var k: nat :| k < |header| && HasName(header[k], TRANSFER_ENCODING) && header[k].1 != CHUNKED;
      ToFrontIsSame(header, k);
      NotHonoured(header, k);
      assert false;
    }
  }

  lemma SameAsItself(header: Fields)
    ensures SameFields(header, header)
  {}

  predicate AlwaysChunked(header: Fields)
  {
    && (forall f :: f in header ==> !HasName(f, CONTENT_LENGTH))
    && (exists f :: f in header && HasName(f, TRANSFER_ENCODING))
    && (forall f :: f in header && HasName(f, TRANSFER_ENCODING) ==> f.1 == CHUNKED)
  }

  lemma AlwaysChunkedIsChunks(header: Fields)
    requires AlwaysChunked(header)
    ensures FramingOf(header) == Chunks
  {
    hide CaseInsensitiveEqual, Stoul;
  }

  lemma NotHonoured(header: Fields, k: nat)
    requires k < |header| && HasName(header[k], TRANSFER_ENCODING) && header[k].1 != CHUNKED
    ensures FramingOf(ToFront(header, k)) != Chunks
  {
    hide CaseInsensitiveEqual, Stoul;
  }

  /** "Transfer-Encoding: Chunked", which the response writer takes for chunked, leaves the content to chance;
      a Content-Length beside a chunked coding wins, against section 3.3.3 of RFC 7230. */
  lemma SpellingAndLengthWin()
    ensures IsChunked((TRANSFER_ENCODING, Ascii("Chunked")))
    ensures FramingOf([(TRANSFER_ENCODING, Ascii("Chunked"))]) == Bodyless
    ensures FramingOf([(TRANSFER_ENCODING, CHUNKED), (CONTENT_LENGTH, Decimal(3))]) == Sized(3)
  {
    hide Stoul;
    assert |TRANSFER_ENCODING| != |CONTENT_LENGTH|;
    assert Ascii("Chunked")[0] != CHUNKED[0];
    StoulOfPrint(3, 10);
    var length := (CONTENT_LENGTH, Decimal(3));
    var both := [(TRANSFER_ENCODING, CHUNKED), length];
    assert both[1..] == [length];
    assert FindField([length], CONTENT_LENGTH) == Some(Decimal(3));
  }

  /** What is left of bytes that end in a blank line after the header has been parsed. */
  function Head(bytes: bytes): RequestResult { RequestOf(Input(bytes, true), EMPTY) }

  datatype Decoding = Decoded(data: bytes, rest: bytes) | BadChunk | Truncated | Broken

  datatype Cut = Chunk(data: bytes, rest: bytes) | Failed(why: Decoding)

  /** The first chunk in s: a size line up to "\r\n", as many bytes of data, two bytes more.
      Broken stands for what the code leaves undefined: an empty size line, and sizes that
      wrap around. */
  function FirstChunk(s: bytes): (r: Cut)
    ensures r.Chunk? ==> |r.rest| < |s|
  {
    match FindDelimiter(LineEnd, s, 0)
    case None => Failed(Truncated)
    case Some(i) =>
      var end := Find(s, LF, 0).value;
      if end == 0 then Failed(Broken)
      else
        match Stoul(s[..end - 1], 16)
        case None => Failed(BadChunk)
        case Some(n) =>
          if 2 + n >= TWO64 then Failed(Broken)
          else if i + 4 + n > |s| then Failed(Truncated)
          else Chunk(s[end + 1..][..n], s[end + 1..][n + 2..])
  }

  /** The chunk decoder on all the bytes the peer ever sends; an empty chunk ends the body. */
  function Dechunked(s: bytes): Decoding
    decreases |s|
  {
    match FirstChunk(s)
    case Failed(why) => why
    case Chunk(data, rest) =>
      if data == [] then Decoded([], rest)
      else
        match Dechunked(rest)
        case Decoded(more, rest') => Decoded(data + more, rest')
        case other => other
  }

  datatype Outcome =
    | Handed(request: Request, content: bytes)  // find_resource is called
    | TooLarge                                  // 413 and a message_size error
    | ProtocolError
    | Disconnected
    | Undefined

  /** The part of s that had been pulled in when the reader was done, left being what had not. */
  function PulledIn(s: bytes, left: bytes): bytes
    requires |left| <= |s|
  {
    s[..|s| - |left|]
  }

  /** The body of a chunked request: what follows the last chunk and had been pulled in comes
      in front of the data. */
  ghost predicate ChunksAgree(s: bytes, collected: bytes, left: bytes, request: Request, outcome: Outcome)
  {
    match Dechunked(s)
    case BadChunk => outcome == ProtocolError
    case Truncated => outcome == Disconnected
    case Broken => outcome == Undefined
    case Decoded(data, rest) =>
      |left| <= |rest| && outcome == Handed(request, PulledIn(rest, left) + (collected + data))
  }

  /** What the reader does with all the bytes of a connection, of which left were never pulled in. */
  ghost predicate Agrees(all: bytes, left: bytes, outcome: Outcome)
  {
    match FindDelimiter(BlankLine, all, 0)
    case None => outcome == Disconnected
    case Some(i) => HeadAgrees(Head(all[..i + 4]), all[i + 4..], left, outcome)
  }

  ghost predicate HeadAgrees(head: RequestResult, more: bytes, left: bytes, outcome: Outcome)
  {
    && head.Parsed?
    && if !head.ok then outcome == ProtocolError else BodyAgrees(head.request, head.input.unread, more, left, outcome)
  }

  /** stray is what the header parser left in front of the blank line's end, more what follows it. */
  ghost predicate BodyAgrees(request: Request, stray: bytes, more: bytes, left: bytes, outcome: Outcome)
  {
    match FramingOf(request.header)
    case BadSize => outcome == ProtocolError
    case Bodyless => |left| <= |more| && outcome == Handed(request, stray + PulledIn(more, left))
    case Sized(n) =>
      if n > |more| then outcome == Disconnected
      else |left| + n <= |more| && outcome == Handed(request, stray + PulledIn(more, left))
    case Chunks => ChunksAgree(stray + more, [], left, request, outcome)
  }

  /** What is handed on fits into the buffer, or for chunks into the two buffers. */
  predicate FitsIn(outcome: Outcome, limit: nat)
    requires outcome.Handed?
  {
    if FramingOf(outcome.request.header) == Chunks then |outcome.content| < 2 * limit else |outcome.content| < limit
  }

  // ------------------------------------------- parsing a prefix of the bytes

  predicate BlankAt(s: bytes, k: nat)
  {
    k + 1 < |s| && s[k] == CR && s[k + 1] == LF && (k == 0 || s[k - 1] == LF)
  }

  /** The header loop returns before an empty line, and what follows that line does not matter. */
  lemma {:induction false} HeaderOfLonger(s: bytes, k: nat, more: bytes)
    requires BlankAt(s, k)
    ensures var r := HeaderOf(Input(s, true));
            r.Header? && r.input.good && |r.input.unread| < |s|
            && HeaderOf(Input(s + more, true)) == Header(r.fields, Input(r.input.unread + more, true))
  {
    hide FieldOf;
    var i := Find(s, LF, 0).value;
    LineOfLonger(s, more, []);
    var line, rest := s[..i], s[i + 1..];
    if k == 0 {
      assert i == 1 && line == [CR];
      assert Find(line, COLON, 0) == None;
    } else {
      assert i <= k - 1;
      assert BlankAt(rest, k - i - 1) by {
        assert k - i - 1 > 0 ==> rest[k - i - 2] == s[k - 1];
      }
      HeaderOfLonger(rest, k - i - 1, more);
      NextLine(Input(rest, true), line);
      NextLine(Input(rest + more, true), line);
    }
  }

  lemma LineOfLonger(s: bytes, more: bytes, previous: bytes)
    requires Find(s, LF, 0).Some?
    ensures var i := Find(s, LF, 0).value;
            LineOf(Input(s, true), previous) == (s[..i], Input(s[i + 1..], true))
            && LineOf(Input(s + more, true), previous) == (s[..i], Input(s[i + 1..] + more, true))
  {
    var i := Find(s, LF, 0).value;
    FindUnique(s + more, LF, 0, i) by {
      assert forall j :: 0 <= j <= i ==> (s + more)[j] == s[j];
    }
    assert (s + more)[..i] == s[..i] && (s + more)[i + 1..] == s[i + 1..] + more;
  }

  /** Bytes with a blank line are parsed, and what follows the blank line stays unread. */
  lemma RequestOfLonger(s: bytes, k: nat, more: bytes, old_: Request)
    requires At(BlankLine, s, k)
    ensures var r := RequestOf(Input(s, true), old_);
            r.Parsed? && r.input.good && |r.input.unread| < |s|
            && RequestOf(Input(s + more, true), old_) == Parsed(r.ok, r.request, Input(r.input.unread + more, true))
  {
    hide RequestLine, HeaderOf;
    assert s[k + 1] == LF;
    var i := Find(s, LF, 0).value;
    LineOfLonger(s, more, []);
    var rest := s[i + 1..];
    assert BlankAt(rest, k + 1 - i) by {
      assert k + 1 - i > 0 ==> rest[k - i] == s[k + 1];
    }
    HeaderOfLonger(rest, k + 1 - i, more);
  }

  // ------------------------------------------------------------ the reader

  datatype SizeLine = Size(length: nat, additional: nat) | Stop(outcome: Outcome)

  /** A size line ends at end and announces n bytes. */
  ghost predicate SizeAt(s: bytes, end: nat, n: nat)
  {
    && FindDelimiter(LineEnd, s, 0).Some? && Find(s, LF, 0) == Some(end)
    && 0 < end <= FindDelimiter(LineEnd, s, 0).value + 1
    && Stoul(s[..end - 1], 16) == Some(n)
  }

  lemma NoFirstChunk(s: bytes)
    requires FindDelimiter(LineEnd, s, 0) == None
    ensures FirstChunk(s) == Failed(Truncated)
  {}

  lemma FirstChunkOfLine(s: bytes, end: nat)
    requires FindDelimiter(LineEnd, s, 0).Some? && Find(s, LF, 0) == Some(end)
    ensures end == 0 ==> FirstChunk(s) == Failed(Broken)
    ensures end > 0 && Stoul(s[..end - 1], 16) == None ==> FirstChunk(s) == Failed(BadChunk)
  {
    hide FindDelimiter, Find, Stoul;
  }

  lemma FirstChunkOfSize(s: bytes, end: nat, n: nat)
    requires SizeAt(s, end, n)
    ensures FirstChunk(s) == if 2 + n >= TWO64 then Failed(Broken)
                             else if FindDelimiter(LineEnd, s, 0).value + 4 + n > |s| then Failed(Truncated)
                             else Chunk(s[end + 1..][..n], s[end + 1..][n + 2..])
  {}

  datatype ErrorCode = Success | NotFound | Eof

  class Session {
    const content: Stream  // the request's streambuf and the istream over it
    const limit: nat       // max_request_streambuf_size
    const greedy: bool     // whether a read takes all that has arrived, as far as it fits
    var wire: bytes        // what the peer will still deliver before the connection ends
    var chunks: bytes      // chunks_streambuf

    constructor (wire: bytes, limit: nat, greedy: bool)
      ensures this.wire == wire && this.limit == limit && this.greedy == greedy && chunks == [] && fresh(content)
      ensures Valid() && Buffered() == []
    {
      this.wire, this.limit, this.greedy, this.chunks := wire, limit, greedy, [];
      content := new Stream([]);
    }

    function Buffered(): bytes reads content { content.unread }

    /** Everything not yet consumed. */
    function Pending(): bytes reads this, content { content.unread + wire }

    ghost predicate Valid() reads this, content { content.good && |content.unread| <= limit }

    /** One read_some: any positive amount that the peer has sent and there is room for. */
    method ReadSome(room: nat)
      requires Valid() && wire != [] && 0 < room <= limit - |Buffered()|
      modifies this`wire, content`unread
      ensures Valid() && Pending() == old(Pending())
      ensures |wire| < |old(wire)|
      ensures |Buffered()| <= |old(Buffered())| + room
      ensures greedy && |old(wire)| <= room ==> wire == []
      ensures greedy && |old(wire)| >= room ==> |Buffered()| == |old(Buffered())| + room
    {
      var most := if |wire| <= room then |wire| else room;
      var n: nat :| 1 <= n <= most && (greedy ==> n == most);
      content.unread, wire := content.unread + wire[..n], wire[n..];
    }

    method ReadUntil(d: Delimiter) returns (ec: ErrorCode, transferred: nat)
      requires Valid()
      modifies this`wire, content`unread
      ensures Valid() && Pending() == old(Pending())
      ensures |wire| <= |old(wire)|
      ensures match ec
              case Success =>
                d.Length() <= transferred <= |Buffered()|
                && FindDelimiter(d, old(Pending()), 0) == Some(transferred - d.Length())
              case NotFound => |Buffered()| == limit
              case Eof => wire == [] && |Buffered()| < limit && FindDelimiter(d, old(Pending()), 0) == None
      ensures greedy && old(Buffered()) == [] && |old(wire)| >= limit ==> ec != Eof && |Buffered()| == limit
      ensures greedy && old(Buffered()) == [] && |old(wire)| < limit ==> wire == []
    {
      hide FindDelimiter;
      while true
        invariant Valid() && Pending() == old(Pending()) && |wire| <= |old(wire)|
        invariant greedy && old(Buffered()) == [] && |old(wire)| < limit ==>
                    wire == [] || (content.unread == [] && wire == old(wire))
        invariant greedy && old(Buffered()) == [] && |old(wire)| >= limit ==>
                    |content.unread| == limit || (content.unread == [] && wire == old(wire))
        decreases |wire|
      {
        var found := FindDelimiter(d, content.unread, 0);
        if found.Some? {
          DelimiterOfLonger(d, content.unread, wire);
          return Success, found.value + d.Length();
        }
        if |content.unread| == limit {
          return NotFound, 0;
        }
        if wire == [] {
          assert content.unread + wire == content.unread;
          return Eof, 0;
        }
        ReadSome(limit - |content.unread|);
      }
    }

    /** async_read with transfer_exactly: it also ends, without an error, when the buffer is full. */
    method ReadExactly(n: nat) returns (ec: ErrorCode)
      requires Valid()
      modifies this`wire, content`unread
      ensures Valid() && Pending() == old(Pending())
      ensures |wire| <= |old(wire)|
      ensures match ec
              case Success => |Buffered()| == |old(Buffered())| + n || |Buffered()| == limit
              case NotFound => false
              case Eof => wire == [] && |Buffered()| < |old(Buffered())| + n
    {
      var target := |content.unread| + n;
      while |content.unread| < target && |content.unread| < limit
        invariant Valid() && Pending() == old(Pending()) && |wire| <= |old(wire)|
        invariant |content.unread| <= target
        decreases |wire|
      {
        if wire == [] {
          return Eof;
        }
        ReadSome(if target < limit then target - |content.unread| else limit - |content.unread|);
      }
      ec := Success;
    }

    /** The first half of read_chunked_transfer_encoded: the size line. Stop carries the end of the
        request, Size the chunk length and how many bytes behind the line are in the buffer. */
    method ReadSize(request: Request) returns (r: SizeLine, ghost end: nat)
      requires Valid()
      modifies this`wire, content
      ensures Valid() && |wire| <= |old(wire)|
      ensures r.Stop? ==> !r.outcome.Handed?
      ensures r.Stop? && r.outcome.TooLarge? ==> |old(Pending())| >= limit
      ensures r.Stop? && !r.outcome.TooLarge? ==> ChunksAgree(old(Pending()), chunks, wire, request, r.outcome)
      ensures r.Size? ==>
                && SizeAt(old(Pending()), end, r.length)
                && Pending() == old(Pending())[end + 1..]
                && r.additional <= |Buffered()|
                && |Buffered()| + end + 1 < limit
                && |Buffered()| - r.additional == FindDelimiter(LineEnd, old(Pending()), 0).value + 1 - end
    {
      hide FindDelimiter, Dechunked, Find, Stoul, ChunksAgree, FirstChunk, At;
      end := 0;
      ghost var s := Pending();
      var ec, transferred := ReadUntil(LineEnd);
      if ec != Eof && |content.unread| == limit {
        return Stop(TooLarge), end;
      }
      if ec == Eof {
        NoFirstChunk(s);
        FirstChunkFailed(s, chunks, wire, request, Truncated);
        return Stop(Disconnected), end;
      }
      end := FirstLine(s, content.unread, wire, transferred - 2);
      FirstChunkOfLine(s, end);
      var line := content.GetLine([]);
      transferred := transferred - (|line| + 1);
      if line == [] {
        FirstChunkFailed(s, chunks, wire, request, Broken);
        return Stop(Undefined), end;
      }
      var length := Stoul(line[..|line| - 1], 16);
      assert line[..|line| - 1] == s[..end - 1];
      if length.None? {
        FirstChunkFailed(s, chunks, wire, request, BadChunk);
        return Stop(ProtocolError), end;
      }
      r := Size(length.value, |content.unread| - transferred);
    }

    method ReadChunked(request: Request) returns (outcome: Outcome)
      requires Valid()
      modifies this`wire, this`chunks, content
      ensures |wire| <= |old(wire)|
      ensures |old(Pending())| + |old(chunks)| < limit ==> !outcome.TooLarge?
      ensures outcome.Handed? && |old(chunks)| < limit ==> outcome.request == request && |outcome.content| < 2 * limit
      ensures !outcome.TooLarge? ==> ChunksAgree(old(Pending()), old(chunks), wire, request, outcome)
      decreases |Pending()|
    {
      hide FindDelimiter, Dechunked, Find, Stoul, ChunksAgree, ChunkAgrees, FirstChunk;
      ghost var s, collected := Pending(), chunks;
      var line, end := ReadSize(request);
      if line.Stop? {
        return line.outcome;
      }
      var length := line.length;
      FirstChunkOfSize(s, end, length);
      if 2 + length >= TWO64 {
        FirstChunkFailed(s, collected, wire, request, Broken);
        return Undefined;
      }
      if 2 + length > line.additional {
        var ec := ReadExactly(2 + length - line.additional);
        if ec == Eof {
          FirstChunkFailed(s, collected, wire, request, Truncated);
          return Disconnected;
        }
        if |content.unread| == limit {
          return TooLarge;
        }
      }
      outcome := ReadChunk(request, length);
      if !outcome.TooLarge? {
        FirstChunkCut(s, collected, wire, request, outcome);
      }
    }

    method ReadChunk(request: Request, length: nat) returns (outcome: Outcome)
      requires Valid() && length + 2 <= |Buffered()|
      modifies this`wire, this`chunks, content
      ensures |wire| <= |old(wire)|
      ensures |old(Pending())| + |old(chunks)| < limit ==> !outcome.TooLarge?
      ensures outcome.Handed? && |old(chunks)| < limit ==> outcome.request == request && |outcome.content| < 2 * limit
      ensures !outcome.TooLarge? ==>
                ChunkAgrees(old(Pending())[..length], old(Pending())[length + 2..], old(chunks), wire, request, outcome)
      decreases |Pending()|
    {
      hide ChunksAgree;
      ghost var s := Pending();
      if length > 0 {
        chunks := chunks + content.unread[..length];
        content.unread := content.unread[length..];
        if |chunks| >= limit {
          return TooLarge;
        }
      }
      content.unread := content.unread[2..];
      assert Pending() == s[length + 2..];
      if length > 0 {
        assert old(content.unread)[..length] == s[..length];
        outcome := ReadChunked(request);
      } else {
        assert content.unread == PulledIn(s[2..], wire);
        if chunks != [] {
          content.unread := content.unread + chunks;
        }
        assert s[..0] == [];
        outcome := Handed(request, content.unread);
      }
    }

    /** ServerBase::read and its handlers, on a connection that has delivered nothing yet. */
    method Read() returns (outcome: Outcome)
      requires Valid() && Buffered() == [] && chunks == []
      modifies this`wire, this`chunks, content
      ensures |old(wire)| < limit ==> !outcome.TooLarge?
      ensures !outcome.TooLarge? ==> Agrees(old(wire), wire, outcome)
      ensures outcome.Handed? ==> |wire| < |old(wire)|
      ensures greedy && |old(wire)| < limit ==> wire == []
      ensures greedy ==> (outcome.TooLarge? <==> |old(wire)| >= limit)
      ensures !outcome.TooLarge? ==> match FindDelimiter(BlankLine, old(wire), 0)
                                     case None => |old(wire)| < limit
                                     case Some(i) => i + 4 < limit
      ensures outcome.Handed? ==> FitsIn(outcome, limit)
    {
      hide FindDelimiter, RequestOf, At, BodyAgrees;
      ghost var all := wire;
      assert Pending() == all;
      var ec, transferred := ReadUntil(BlankLine);
      if ec != Eof && |content.unread| == limit {
        return TooLarge;
      }
      if ec == Eof {
        return Disconnected;
      }
      ghost var head, more := all[..transferred], all[transferred..];
      var additional := |content.unread| - transferred;
      HeadOfBuffer(all, content.unread, wire, transferred);
      var ok, request := ParseRequest(content, EMPTY);
      if !ok {
        return ProtocolError;
      }
      outcome := ReadBody(request, additional, Head(head).input.unread, more);
    }

    /** The handler after the header: stray is what the parser left of it, additional counts the
        bytes behind it that are in the buffer. */
    method ReadBody(request: Request, additional: nat, ghost stray: bytes, ghost more: bytes) returns (outcome: Outcome)
      requires Valid() && chunks == [] && Pending() == stray + more && |Buffered()| == |stray| + additional
      modifies this`wire, this`chunks, content
      ensures |wire| <= |old(wire)|
      ensures |old(Pending())| < limit ==> !outcome.TooLarge?
      ensures outcome.Handed? && |old(Buffered())| < limit ==> outcome.request == request && FitsIn(outcome, limit)
      ensures !outcome.TooLarge? ==> BodyAgrees(request, stray, more, wire, outcome)
    {
      hide FindField, Stoul, ChunksAgree;
      BufferIs(content.unread, wire, stray, more);
      var length := FindField(request.header, CONTENT_LENGTH);
      if length.Some? {
        var size := Stoul(length.value, 10);
        if size.None? {
          return ProtocolError;
        }
        if size.value > additional {
          var ec := ReadExactly(size.value - additional);
          if ec == Eof {
            return Disconnected;
          }
          if |content.unread| == limit {
            return TooLarge;
          }
          BufferIs(content.unread, wire, stray, more);
        }
        outcome := Handed(request, content.unread);
      } else if FindField(request.header, TRANSFER_ENCODING) == Some(CHUNKED) {
        outcome := ReadChunked(request);
      } else {
        outcome := Handed(request, content.unread);
      }
    }
  }

  lemma BufferIs(buffer: bytes, wire: bytes, stray: bytes, more: bytes)
    requires buffer + wire == stray + more && |stray| <= |buffer|
    ensures |buffer| + |wire| == |stray| + |more|
    ensures |wire| <= |more| && buffer == stray + PulledIn(more, wire)
  {
    assert |buffer + wire| == |stray + more|;
    var s := stray + more;
    assert buffer == s[..|buffer|] && wire == s[|buffer|..];
  }

  /** Parsing what is in the buffer is parsing the bytes up to the blank line, with the rest left over. */
  lemma HeadOfBuffer(all: bytes, buffer: bytes, wire: bytes, top: nat)
    requires all == buffer + wire && 4 <= top <= |buffer|
    requires FindDelimiter(BlankLine, all, 0) == Some(top - 4)
    ensures var r := Head(all[..top]);
            r.Parsed? && r.input.good && |r.input.unread| <= top
            && r.input.unread + buffer[top..] + wire == r.input.unread + all[top..]
            && RequestOf(Input(buffer, true), EMPTY)
               == Parsed(r.ok, r.request, Input(r.input.unread + buffer[top..], true))
  {
    hide RequestOf, FindDelimiter;
    var head := all[..top];
    assert At(BlankLine, head, top - 4) by {
      assert At(BlankLine, all, top - 4);
    }
    assert head + buffer[top..] == buffer && buffer[top..] + wire == all[top..];
    RequestOfLonger(head, top - 4, buffer[top..], EMPTY);
    Associative(Head(head).input.unread, buffer[top..], wire);
  }

  /** One chunk has been cut out as data, rest follows it. */
  ghost predicate ChunkAgrees(data: bytes, rest: bytes, collected: bytes, left: bytes, request: Request,
                              outcome: Outcome)
  {
    if data != [] then ChunksAgree(rest, collected + data, left, request, outcome)
    else |left| <= |rest| && outcome == Handed(request, PulledIn(rest, left) + collected)
  }

  /** The line found in the buffer is the first line of everything pending. */
  lemma FirstLine(s: bytes, buffer: bytes, wire: bytes, i: nat) returns (end: nat)
    requires s == buffer + wire && i + 2 <= |buffer| && FindDelimiter(LineEnd, s, 0) == Some(i)
    ensures Find(s, LF, 0) == Some(end) && Find(buffer, LF, 0) == Some(end) && end <= i + 1
    ensures buffer[..end] == s[..end] && buffer[end + 1..] + wire == s[end + 1..]
  {
    assert s[i + 1] == LF && buffer[i + 1] == LF;
    end := Find(buffer, LF, 0).value;
    FindUnique(s, LF, 0, end) by {
      assert forall j :: 0 <= j <= end ==> s[j] == buffer[j];
    }
  }

  lemma FirstChunkFailed(s: bytes, collected: bytes, left: bytes, request: Request, why: Decoding)
    requires FirstChunk(s) == Failed(why) && !why.Decoded?
    ensures ChunksAgree(s, collected, left, request,
                        match why case BadChunk => ProtocolError case Truncated => Disconnected case _ => Undefined)
  {}

  lemma FirstChunkCut(s: bytes, collected: bytes, left: bytes, request: Request, outcome: Outcome)
    requires FirstChunk(s).Chunk?
    requires ChunkAgrees(FirstChunk(s).data, FirstChunk(s).rest, collected, left, request, outcome)
    ensures ChunksAgree(s, collected, left, request, outcome)
  {
    hide FirstChunk;
    var Chunk(data, rest) := FirstChunk(s);
    if data == [] {
      assert collected + [] == collected;
    } else {
      match Dechunked(rest)
      case Decoded(more, _) => Associative(collected, data, more);
      case _ =>
    }
  }

  // ---------------------------------------------------- well-formed requests

  lemma AtBehind(head: bytes, rest: bytes, i: nat)
    ensures At(BlankLine, head + rest, |head| + i) <==> At(BlankLine, rest, i)
  {
    var s, n := head + rest, |head|;
    assert i < |rest| ==> s[n + i] == rest[i];
    assert i + 1 < |rest| ==> s[n + i + 1] == rest[i + 1];
    assert i + 2 < |rest| ==> s[n + i + 2] == rest[i + 2];
    assert i + 3 < |rest| ==> s[n + i + 3] == rest[i + 3];
  }

  lemma NoBlankInLine(line: bytes, rest: bytes, i: nat)
    requires LF !in line && i <= |line| && (i == |line| - 1 ==> !LineEndAt(rest, 0))
    ensures !At(BlankLine, (line + [LF]) + rest, i)
  {
    var s, n := (line + [LF]) + rest, |line|;
    assert s[n] == LF;
    if i + 1 < n {
      assert s[i + 1] == line[i + 1];
    } else if i + 1 == n {
      assert 0 < |rest| ==> s[n + 1] == rest[0];
      assert 1 < |rest| ==> s[n + 2] == rest[1];
    }
  }

  /** Behind a line the blank line comes at once, or is looked for in what follows. */
  lemma BlankBehindLine(line: bytes, rest: bytes)
    requires LF !in line && line != [] && line[|line| - 1] == CR
    ensures LineEndAt(rest, 0) ==> FindDelimiter(BlankLine, (line + [LF]) + rest, 0) == Some(|line| - 1)
    ensures !LineEndAt(rest, 0) && FindDelimiter(BlankLine, rest, 0).Some? ==>
              FindDelimiter(BlankLine, (line + [LF]) + rest, 0)
              == Some(|line| + 1 + FindDelimiter(BlankLine, rest, 0).value)
  {
    hide FindDelimiter, At;
    var s, n := (line + [LF]) + rest, |line| + 1;
    forall i | 0 <= i < n && (i == |line| - 1 ==> !LineEndAt(rest, 0))
      ensures !At(BlankLine, s, i)
    {
      NoBlankInLine(line, rest, i);
    }
    if LineEndAt(rest, 0) {
      BlankAtOnce(line, rest);
      DelimiterIs(BlankLine, s, n - 2);
    } else if FindDelimiter(BlankLine, rest, 0).Some? {
      var k := FindDelimiter(BlankLine, rest, 0).value;
      forall i | n <= i < n + k
        ensures !At(BlankLine, s, i)
      {
        AtBehind(line + [LF], rest, i - n);
        assert !At(BlankLine, rest, i - n);
      }
      AtBehind(line + [LF], rest, k);
      DelimiterIs(BlankLine, s, n + k);
    }
  }

  lemma BlankAtOnce(line: bytes, rest: bytes)
    requires line != [] && line[|line| - 1] == CR && LineEndAt(rest, 0)
    ensures At(BlankLine, (line + [LF]) + rest, |line| - 1)
  {
    var s, n := (line + [LF]) + rest, |line| + 1;
    assert s[n - 2] == CR && s[n - 1] == LF && s[n] == rest[0] && s[n + 1] == rest[1];
  }

  lemma FieldLineShape(field: (bytes, bytes), rest: bytes)
    requires PrintableField(field)
    ensures var line := FieldLine(field);
            |line| >= 3 && LF !in line && line[|line| - 1] == CR && !LineEndAt(line + rest, 0)
  {
    FieldOfLine(field);
    var line := FieldLine(field);
    assert (line + rest)[0] == line[0] && (line + rest)[1] == line[1];
  }

  /** The first blank line behind a line and a printed header is the one that ends the header. */
  lemma {:induction false} BlankBehindHeader(line: bytes, fields: Fields, rest: bytes)
    requires LF !in line && line != [] && line[|line| - 1] == CR && PrintableFields(fields)
    ensures FindDelimiter(BlankLine, line + [LF] + (HeaderText(fields) + CRLF + rest), 0)
         == Some(|line| + 1 + |HeaderText(fields)| - 2)
    decreases |fields|
  {
    hide FindDelimiter, FieldLine, PrintableField;
    var more := HeaderText(fields) + CRLF + rest;
    if fields == [] {
      assert more[0] == CR && more[1] == LF;
      BlankBehindLine(line, more);
    } else {
      var first := FieldLine(fields[0]);
      var behind := HeaderText(fields[1..]) + CRLF + rest;
      assert more == first + [LF] + behind;
      FieldLineShape(fields[0], [LF] + behind);
      assert more == first + ([LF] + behind);
      BlankBehindHeader(first, fields[1..], rest);
      BlankBehindLine(line, more);
    }
  }

  lemma RequestLineIsLine(method_: bytes, path: bytes, query: Option<bytes>, version: bytes, line: bytes)
    requires PrintableRequest(method_, path, query, version, [])
    requires line == method_ + [SPACE] + Target(path, query) + [SPACE] + HTTP + [SLASH] + version + [CR]
    ensures LF !in line && line != [] && line[|line| - 1] == CR
  {
    assert LF !in HTTP && LF !in Target(path, query);
  }

  /** Header parsing consumes exactly the bytes up to the first blank line. */
  lemma HeadOfText(method_: bytes, path: bytes, query: Option<bytes>, version: bytes, header: Fields, body: bytes)
    requires PrintableRequest(method_, path, query, version, header)
    ensures var text := RequestText(method_, path, query, version, header);
            |text| >= 4
            && FindDelimiter(BlankLine, text + body, 0) == Some(|text| - 4)
            && (text + body)[..|text|] == text && (text + body)[|text|..] == body
            && Head(text) == Parsed(true, Understood(method_, path, query, version, header, []),
                                    Input([], true))
  {
    hide FindDelimiter, RequestOf, HeaderText, PrintableField, Target;
    var text := RequestText(method_, path, query, version, header);
    var line := method_ + [SPACE] + Target(path, query) + [SPACE] + HTTP + [SLASH] + version + [CR];
    RequestOfText(method_, path, query, version, header, [], EMPTY);
    assert text + [] == text;
    RequestLineIsLine(method_, path, query, version, line);
    assert text + body == line + [LF] + (HeaderText(header) + CRLF + body);
    BlankBehindHeader(line, header, body);
    assert |text| == |line| + 1 + |HeaderText(header)| + 2;
  }

  /** With a Content-Length that is the size of the body, and nothing behind the body, the
      request reaches find_resource with its parts and exactly the body, however the bytes arrived. */
  lemma SizedRequestIsHanded(method_: bytes, path: bytes, query: Option<bytes>, version: bytes, header: Fields,
                             body: bytes, left: bytes, outcome: Outcome)
    requires PrintableRequest(method_, path, query, version, header)
    requires FramingOf(header) == Sized(|body|)
    requires Agrees(RequestText(method_, path, query, version, header) + body, left, outcome)
    ensures outcome == Handed(Understood(method_, path, query, version, header, []), body)
  {
    hide FindDelimiter, RequestOf, RequestText, FramingOf, Understood;
    HeadOfText(method_, path, query, version, header, body);
    assert [] + PulledIn(body, []) == body;
  }

  /** The same of a run of the reader: a new connection that delivers such a request below the buffer limit. */
  method ReadSizedRequest(method_: bytes, path: bytes, query: Option<bytes>, version: bytes, header: Fields,
                          body: bytes, limit: nat, greedy: bool) returns (outcome: Outcome)
    requires PrintableRequest(method_, path, query, version, header)
    requires FramingOf(header) == Sized(|body|)
    requires |RequestText(method_, path, query, version, header)| + |body| < limit
    ensures outcome == Handed(Understood(method_, path, query, version, header, []), body)
    ensures outcome == Handed(Meant(method_, path, query, version, header, []), body) <==> CutRight(path, query)
  {
    hide PrintableRequest, RequestText, FramingOf, Agrees, Understood, CutRight, Meant;
    UnderstoodIff(method_, path, query, version, header, []);
    var session := new Session(RequestText(method_, path, query, version, header) + body, limit, greedy);
    outcome := session.Read();
    SizedRequestIsHanded(method_, path, query, version, header, body, session.wire, outcome);
  }

  /** Without an honoured framing field the content is whatever was pulled in behind the header, nothing
      when nothing was sent. */
  lemma BodylessRequestIsHanded(method_: bytes, path: bytes, query: Option<bytes>, version: bytes, header: Fields,
                                next: bytes, left: bytes, outcome: Outcome)
    requires PrintableRequest(method_, path, query, version, header)
    requires FramingOf(header) == Bodyless
    requires Agrees(RequestText(method_, path, query, version, header) + next, left, outcome)
    ensures |left| <= |next|
            && outcome == Handed(Understood(method_, path, query, version, header, []), PulledIn(next, left))
  {
    hide FindDelimiter, RequestOf, RequestText, FramingOf, Understood;
    HeadOfText(method_, path, query, version, header, next);
    assert [] + PulledIn(next, left) == PulledIn(next, left);
  }

  /** Whatever follows the body: the request is handed on, and the content is the body and behind it what
      had been pulled in of the rest. */
  lemma SizedOutcome(method_: bytes, path: bytes, query: Option<bytes>, version: bytes, header: Fields,
                     body: bytes, next: bytes, left: bytes, outcome: Outcome)
    requires PrintableRequest(method_, path, query, version, header)
    requires FramingOf(header) == Sized(|body|)
    requires Agrees(RequestText(method_, path, query, version, header) + (body + next), left, outcome)
    ensures |left| <= |next|
            && outcome == Handed(Understood(method_, path, query, version, header, []), body + PulledIn(next, left))
  {
    hide FindDelimiter, RequestOf, RequestText, FramingOf, Understood;
    HeadOfText(method_, path, query, version, header, body + next);
    assert [] + PulledIn(body + next, left) == body + PulledIn(next, left);
  }

  /** When more bytes follow the body the content is exact if and only if none of them had been pulled in. */
  lemma PipelinedBytesSpoilTheBody(method_: bytes, path: bytes, query: Option<bytes>, version: bytes, header: Fields,
                                   body: bytes, next: bytes, left: bytes, outcome: Outcome)
    requires PrintableRequest(method_, path, query, version, header)
    requires FramingOf(header) == Sized(|body|)
    requires Agrees(RequestText(method_, path, query, version, header) + (body + next), left, outcome)
    ensures outcome.Handed? && |left| <= |next| && outcome.content == body + PulledIn(next, left)
    ensures outcome.content == body <==> |left| == |next|
  {
    hide PrintableRequest, RequestText, FramingOf, Agrees, Understood;
    SizedOutcome(method_, path, query, version, header, body, next, left, outcome);
  }

  /** A run with one byte "y" behind the body "x", pulled in with it: the content is "xy". */
  method ReadOneByteBehindTheBody() returns (outcome: Outcome)
    ensures outcome
         == Handed(Understood(POST, ROOT, None, ONE_ONE, [(CONTENT_LENGTH, Decimal(1))], []), Ascii("x") + Ascii("y"))
  {
    hide PrintableRequest, RequestText, FramingOf, Agrees, Understood;
    var header := [(CONTENT_LENGTH, Decimal(1))];
    LengthIsSized(1);
    var all := RequestText(POST, ROOT, None, ONE_ONE, header) + (Ascii("x") + Ascii("y"));
    var session := new Session(all, |all| + 1, true);
    outcome := session.Read();
    assert session.wire == [];
    SizedOutcome(POST, ROOT, None, ONE_ONE, header, Ascii("x"), Ascii("y"), session.wire, outcome);
  }

  lemma LengthIsSized(size: nat)
    requires size < TWO64
    ensures PrintableRequest(POST, ROOT, None, ONE_ONE, [(CONTENT_LENGTH, Decimal(size))])
    ensures FramingOf([(CONTENT_LENGTH, Decimal(size))]) == Sized(size)
  {
    hide Stoul;
    LengthFieldIsPrintable(size);
    assert SPACE !in POST && LF !in POST && SPACE !in ROOT && LF !in ROOT && LF !in ONE_ONE;
    StoulOfPrint(size, 10);
  }

  const POST: bytes := Ascii("POST")
  const ROOT: bytes := Ascii("/")

  // ----------------------------------------------------------------- chunks

  /** A chunk with the text of its size line. */
  datatype Piece = Piece(size: bytes, data: bytes)
  {
    predicate WellFormed() { LF !in size && Stoul(size, 16) == Some(|data|) && |data| + 2 < TWO64 }

    function Text(): bytes { size + CRLF + data + CRLF }
  }

  function PiecesText(pieces: seq<Piece>): bytes
  {
    if pieces == [] then [] else pieces[0].Text() + PiecesText(pieces[1..])
  }

  function DataOf(pieces: seq<Piece>): bytes
  {
    if pieces == [] then [] else pieces[0].data + DataOf(pieces[1..])
  }

  const LAST := Piece(Print(0, 16), [])

  function ChunkedText(pieces: seq<Piece>): bytes { PiecesText(pieces) + LAST.Text() }

  lemma FirstChunkOfText(p: Piece, rest: bytes)
    requires p.WellFormed()
    ensures FirstChunk(p.Text() + rest) == Chunk(p.data, rest)
  {
    hide FindDelimiter, Find, Stoul;
    var s := p.Text() + rest;
    var n := |p.size|;
    assert forall i :: 0 <= i < n ==> s[i] == p.size[i];
    assert s[n] == CR && s[n + 1] == LF;
    DelimiterIs(LineEnd, s, n) by {
      forall i | 0 <= i < n
        ensures !At(LineEnd, s, i)
      {
        assert s[i + 1] == if i + 1 < n then p.size[i + 1] else CR;
      }
    }
    FindUnique(s, LF, 0, n + 1);
    FirstChunkSlices(p, rest);
  }

  lemma FirstChunkSlices(p: Piece, rest: bytes)
    ensures var s, n := p.Text() + rest, |p.size|;
            s[..n] == p.size && s[n + 2..][..|p.data|] == p.data && s[n + 2..][|p.data| + 2..] == rest
  {}

  /** The decoder delivers the chunk data, for any list of non-empty chunks, and stops behind the last chunk. */
  lemma {:induction false} DechunkedOfText(pieces: seq<Piece>, rest: bytes)
    requires forall p :: p in pieces ==> p.WellFormed() && p.data != []
    ensures Dechunked(ChunkedText(pieces) + rest) == Decoded(DataOf(pieces), rest)
  {
    hide FirstChunk, Stoul, Print;
    if pieces == [] {
      StoulOfPrint(0, 16);
      assert ChunkedText(pieces) + rest == LAST.Text() + rest;
      assert LF !in LAST.size;
      FirstChunkOfText(LAST, rest);
    } else {
      var more := ChunkedText(pieces[1..]) + rest;
      assert ChunkedText(pieces) + rest == pieces[0].Text() + more;
      FirstChunkOfText(pieces[0], more);
      DechunkedOfText(pieces[1..], rest);
    }
  }

  /** Sizes printed in hexadecimal are read back, so they make well-formed chunks. */
  lemma HexSizeIsWellFormed(data: bytes)
    requires |data| + 2 < TWO64
    ensures Piece(Print(|data|, 16), data).WellFormed()
  {
    StoulOfPrint(|data|, 16);
    var text := Print(|data|, 16);
    assert forall i :: 0 <= i < |text| ==> IsDigit(text[i], 16);
  }

  /** So do sizes in lower case, or in any mix of cases. */
  lemma SpelledSizeIsWellFormed(size: bytes, data: bytes)
    requires |data| + 2 < TWO64 && SameNumeral(size, Print(|data|, 16))
    ensures Piece(size, data).WellFormed()
  {
    hide SameDigit, Print;
    StoulOfSpelling(|data|, size);
  }

  lemma LowerSizeIsWellFormed(data: bytes)
    requires |data| + 2 < TWO64
    ensures Piece(LowerHex(|data|), data).WellFormed()
  {
    LowerHexIsSame(|data|);
    SpelledSizeIsWellFormed(LowerHex(|data|), data);
  }

  /** A chunked request with nothing behind its last chunk reaches find_resource with exactly
      the concatenation of its chunks, however the bytes arrived. */
  lemma ChunkedRequestIsHanded(method_: bytes, path: bytes, query: Option<bytes>, version: bytes, header: Fields,
                               pieces: seq<Piece>, left: bytes, outcome: Outcome)
    requires PrintableRequest(method_, path, query, version, header)
    requires FramingOf(header) == Chunks
    requires forall p :: p in pieces ==> p.WellFormed() && p.data != []
    requires Agrees(RequestText(method_, path, query, version, header) + ChunkedText(pieces), left, outcome)
    ensures outcome
         == Handed(Understood(method_, path, query, version, header, []), DataOf(pieces))
  {
    hide FindDelimiter, RequestOf, RequestText, FramingOf, Understood, Dechunked, ChunkedText, DataOf;
    var body := ChunkedText(pieces);
    HeadOfText(method_, path, query, version, header, body);
    DechunkedOfText(pieces, []);
    assert body + [] == body && [] + body == body;
    assert PulledIn([], []) + ([] + DataOf(pieces)) == DataOf(pieces);
  }

  /** The same of a run of the reader on a new connection. */
  method ReadChunkedRequest(method_: bytes, path: bytes, query: Option<bytes>, version: bytes, header: Fields,
                            pieces: seq<Piece>, limit: nat, greedy: bool) returns (outcome: Outcome)
    requires PrintableRequest(method_, path, query, version, header)
    requires FramingOf(header) == Chunks
    requires forall p :: p in pieces ==> p.WellFormed() && p.data != []
    requires |RequestText(method_, path, query, version, header)| + |ChunkedText(pieces)| < limit
    ensures outcome
         == Handed(Understood(method_, path, query, version, header, []), DataOf(pieces))
    ensures outcome == Handed(Meant(method_, path, query, version, header, []), DataOf(pieces))
       <==> CutRight(path, query)
  {
    hide PrintableRequest, RequestText, FramingOf, Agrees, ChunkedText, Understood, CutRight, Meant;
    UnderstoodIff(method_, path, query, version, header, []);
    var session := new Session(RequestText(method_, path, query, version, header) + ChunkedText(pieces), limit, greedy);
    outcome := session.Read();
    ChunkedRequestIsHanded(method_, path, query, version, header, pieces, session.wire, outcome);
  }

  /** Whatever follows the last chunk: the content is what had been pulled in of it, and behind that the data. */
  lemma ChunkedOutcome(method_: bytes, path: bytes, query: Option<bytes>, version: bytes, header: Fields,
                       pieces: seq<Piece>, next: bytes, left: bytes, outcome: Outcome)
    requires PrintableRequest(method_, path, query, version, header)
    requires FramingOf(header) == Chunks
    requires forall p :: p in pieces ==> p.WellFormed() && p.data != []
    requires Agrees(RequestText(method_, path, query, version, header) + (ChunkedText(pieces) + next), left, outcome)
    ensures |left| <= |next|
            && outcome == Handed(Understood(method_, path, query, version, header, []),
                                 PulledIn(next, left) + DataOf(pieces))
  {
    hide FindDelimiter, RequestOf, RequestText, FramingOf, Understood, Dechunked, ChunkedText, DataOf;
    var body := ChunkedText(pieces) + next;
    HeadOfText(method_, path, query, version, header, body);
    DechunkedOfText(pieces, next);
    assert [] + body == body && [] + DataOf(pieces) == DataOf(pieces);
  }

  /** Bytes behind the last chunk that had been pulled in end up in front of the data, so the
      content is exact if and only if none had been. */
  lemma PipelinedBytesSpoilTheChunks(method_: bytes, path: bytes, query: Option<bytes>, version: bytes,
                                     header: Fields, pieces: seq<Piece>, next: bytes, left: bytes, outcome: Outcome)
    requires PrintableRequest(method_, path, query, version, header)
    requires FramingOf(header) == Chunks
    requires forall p :: p in pieces ==> p.WellFormed() && p.data != []
    requires Agrees(RequestText(method_, path, query, version, header) + (ChunkedText(pieces) + next), left, outcome)
    ensures outcome.Handed? && |left| <= |next| && outcome.content == PulledIn(next, left) + DataOf(pieces)
    ensures outcome.content == DataOf(pieces) <==> |left| == |next|
  {
    hide PrintableRequest, RequestText, FramingOf, Agrees, Understood, ChunkedText, DataOf;
    ChunkedOutcome(method_, path, query, version, header, pieces, next, left, outcome);
    assert |outcome.content| == |next| - |left| + |DataOf(pieces)|;
    if |left| == |next| {
      assert PulledIn(next, left) == [];
    }
  }

  /** A run with one byte "y" behind an empty chunked body, pulled in with it: the content is "y". */
  method ReadOneByteBehindTheChunks() returns (outcome: Outcome)
    ensures outcome
         == Handed(Understood(POST, ROOT, None, ONE_ONE, [(TRANSFER_ENCODING, CHUNKED)], []), Ascii("y"))
  {
    hide PrintableRequest, RequestText, FramingOf, Agrees, Understood, ChunkedText;
    var header := [(TRANSFER_ENCODING, CHUNKED)];
    ChunkedIsChunks();
    var all := RequestText(POST, ROOT, None, ONE_ONE, header) + (ChunkedText([]) + Ascii("y"));
    var session := new Session(all, |all| + 1, true);
    outcome := session.Read();
    assert session.wire == [];
    ChunkedOutcome(POST, ROOT, None, ONE_ONE, header, [], Ascii("y"), session.wire, outcome);
    assert DataOf([]) == [] && Ascii("y") + [] == Ascii("y");
  }

  lemma ChunkedIsChunks()
    ensures PrintableRequest(POST, ROOT, None, ONE_ONE, [(TRANSFER_ENCODING, CHUNKED)])
    ensures FramingOf([(TRANSFER_ENCODING, CHUNKED)]) == Chunks
  {
    hide Stoul;
    assert PrintableField((TRANSFER_ENCODING, CHUNKED));
    assert SPACE !in POST && LF !in POST && SPACE !in ROOT && LF !in ROOT && LF !in ONE_ONE;
    assert |TRANSFER_ENCODING| != |CONTENT_LENGTH|;
  }

  // ------------------------------------------------------ what is not handed on

  /** The framing by length, told field by field. */
  lemma SizedIff(header: Fields, n: nat)
    ensures FramingOf(header) == Sized(n)
       <==> exists k :: 0 <= k < |header| && FirstAt(header, CONTENT_LENGTH, header[k].1, k)
                        && Stoul(header[k].1, 10) == Some(n)
    ensures FramingOf(header) == BadSize
       <==> exists k :: 0 <= k < |header| && FirstAt(header, CONTENT_LENGTH, header[k].1, k)
                        && Stoul(header[k].1, 10) == None
  {
    hide Stoul, CaseInsensitiveEqual, FindField;
    match FindField(header, CONTENT_LENGTH)
    case None =>
      NoFieldIff(header, CONTENT_LENGTH);
    case Some(text) =>
      FieldIff(header, CONTENT_LENGTH, text);
      var k :| FirstAt(header, CONTENT_LENGTH, text, k);
      assert header[k].1 == text;
  }

  /** A connection that ends before a blank line, or before the whole body, is given up without an answer. */
  lemma EndsEarly(all: bytes, left: bytes, outcome: Outcome)
    requires Agrees(all, left, outcome) && forall i :: 0 <= i < |all| ==> !At(BlankLine, all, i)
    ensures outcome == Disconnected
  {
    hide HeadAgrees;
  }

  lemma BodyEndsEarly(method_: bytes, path: bytes, query: Option<bytes>, version: bytes, header: Fields,
                      size: nat, part: bytes, left: bytes, outcome: Outcome)
    requires PrintableRequest(method_, path, query, version, header)
    requires FramingOf(header) == Sized(size) && |part| < size
    requires Agrees(RequestText(method_, path, query, version, header) + part, left, outcome)
    ensures outcome == Disconnected
  {
    hide FindDelimiter, RequestOf, RequestText, FramingOf, Understood;
    HeadOfText(method_, path, query, version, header, part);
  }

  /** A length that is no number is a protocol error. */
  lemma BadLengthIsRefused(method_: bytes, path: bytes, query: Option<bytes>, version: bytes, header: Fields,
                           more: bytes, left: bytes, outcome: Outcome)
    requires PrintableRequest(method_, path, query, version, header) && FramingOf(header) == BadSize
    requires Agrees(RequestText(method_, path, query, version, header) + more, left, outcome)
    ensures outcome == ProtocolError
  {
    hide FindDelimiter, RequestOf, RequestText, FramingOf, Understood;
    HeadOfText(method_, path, query, version, header, more);
  }

  /** So is a first line that is no request line. */
  lemma BadLineIsRefused(line: bytes, rest: bytes, left: bytes, outcome: Outcome)
    requires LF !in line && !exists method_, target, tail :: HasShape(line, method_, target, tail)
    requires FindDelimiter(BlankLine, line + [LF] + rest, 0).Some?
    requires Agrees(line + [LF] + rest, left, outcome)
    ensures outcome == ProtocolError
  {
    hide FindDelimiter, RequestLine, HasShape, HeaderOf, BodyAgrees;
    var all := line + [LF] + rest;
    var top := FindDelimiter(BlankLine, all, 0).value + 4;
    var head := all[..top];
    assert At(BlankLine, all, top - 4);
    FirstLineInside(line, rest, top);
    LineOfTerminated(line, all[|line| + 1..top], []);
    RequestLineOkIff(line, EMPTY.(header := []));
  }

  lemma FirstLineInside(line: bytes, rest: bytes, top: nat)
    requires LF !in line && 4 <= top <= |line + [LF] + rest| && At(BlankLine, line + [LF] + rest, top - 4)
    ensures |line| + 1 <= top
    ensures (line + [LF] + rest)[..top] == line + [LF] + (line + [LF] + rest)[|line| + 1..top]
  {
    var all := line + [LF] + rest;
    assert all[top - 3] == LF && forall i :: 0 <= i < |line| ==> all[i] == line[i];
    assert all[..top] == all[..|line| + 1] + all[|line| + 1..top];
  }

  /** Chunks in front are taken off, whatever follows them. */
  lemma {:induction false} DechunkedBehind(pieces: seq<Piece>, tail: bytes)
    requires forall p :: p in pieces ==> p.WellFormed() && p.data != []
    ensures Dechunked(PiecesText(pieces) + tail)
         == match Dechunked(tail)
            case Decoded(data, rest) => Decoded(DataOf(pieces) + data, rest)
            case other => other
  {
    hide FirstChunk, Stoul;
    if pieces == [] {
      assert PiecesText(pieces) + tail == tail;
      assert forall data: bytes :: DataOf(pieces) + data == data;
    } else {
      var more := PiecesText(pieces[1..]) + tail;
      assert PiecesText(pieces) + tail == pieces[0].Text() + more;
      FirstChunkOfText(pieces[0], more);
      DechunkedBehind(pieces[1..], tail);
      match Dechunked(tail) {
        case Decoded(data, rest) => Associative(pieces[0].data, DataOf(pieces[1..]), data);
        case _ =>
      }
    }
  }

  /** A size line that is no number is a protocol error, a chunk that is cut off ends the connection. */
  lemma BadChunks(method_: bytes, path: bytes, query: Option<bytes>, version: bytes, header: Fields,
                  pieces: seq<Piece>, tail: bytes, left: bytes, outcome: Outcome)
    requires PrintableRequest(method_, path, query, version, header) && FramingOf(header) == Chunks
    requires forall p :: p in pieces ==> p.WellFormed() && p.data != []
    requires Agrees(RequestText(method_, path, query, version, header) + (PiecesText(pieces) + tail), left, outcome)
    ensures BadSizeLine(tail) ==> outcome == ProtocolError
    ensures CutOff(tail) ==> outcome == Disconnected
  {
    hide FindDelimiter, RequestOf, RequestText, FramingOf, Understood, Dechunked, BadSizeLine, CutOff, PiecesText;
    var body := PiecesText(pieces) + tail;
    HeadOfText(method_, path, query, version, header, body);
    assert [] + body == body;
    DechunkedBehind(pieces, tail);
    BadTail(tail);
  }

  /** A line without a number in front of anything. */
  ghost predicate BadSizeLine(tail: bytes)
  {
    exists size: bytes, rest: bytes :: IsSizeLine(tail, size, rest) && Stoul(size, 16) == None
  }

  predicate IsSizeLine(tail: bytes, size: bytes, rest: bytes)
  {
    LF !in size && tail == size + CRLF + rest
  }

  /** The beginning of a chunk: no line end, or fewer bytes than the size and the line end behind them ask for. */
  ghost predicate CutOff(tail: bytes)
  {
    || (forall i :: 0 <= i < |tail| ==> !At(LineEnd, tail, i))
    || exists size: bytes, rest: bytes :: IsSizeLine(tail, size, rest) && Stoul(size, 16).Some?
                                          && |rest| < Stoul(size, 16).value + 2 < TWO64
  }

  lemma BadTail(tail: bytes)
    ensures BadSizeLine(tail) ==> Dechunked(tail) == BadChunk
    ensures CutOff(tail) ==> Dechunked(tail) == Truncated
  {
    hide Stoul, FirstChunk;
    if BadSizeLine(tail) {
      var size, rest :| IsSizeLine(tail, size, rest) && Stoul(size, 16) == None;
      SizeLineAt(tail, size, rest);
    }
    if forall i :: 0 <= i < |tail| ==> !At(LineEnd, tail, i) {
      NoFirstChunk(tail);
    } else if size: bytes, rest: bytes :| IsSizeLine(tail, size, rest) && Stoul(size, 16).Some?
                                          && |rest| < Stoul(size, 16).value + 2 < TWO64 {
      SizeLineAt(tail, size, rest);
    }
  }

  lemma SizeLineAt(tail: bytes, size: bytes, rest: bytes)
    requires IsSizeLine(tail, size, rest)
    ensures Stoul(size, 16) == None ==> FirstChunk(tail) == Failed(BadChunk)
    ensures Stoul(size, 16).Some? && |rest| < Stoul(size, 16).value + 2 < TWO64 ==>
              FirstChunk(tail) == Failed(Truncated)
  {
    hide Stoul, FindDelimiter, Find;
    assert tail[|size|] == CR && tail[|size| + 1] == LF && forall i :: 0 <= i < |size| ==> tail[i] == size[i];
    DelimiterIs(LineEnd, tail, |size|);
    FindIs(tail, LF, |size| + 1);
    assert tail[..|size|] == size;
  }
}

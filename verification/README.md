# Verification of the sensor and alarm system

The repository is a distributed alarm system: sensors answer questions over UDP and raise alarms, a central
server polls them, keeps a list of what it knows, and shows it over HTTP. This project models the parts where the
behaviour is not visible from one function alone, and proves what they keep over every input and every run:

- **HTTP** - percent coding and query strings (`PercentCoding`, `QueryStrings`), cookie attributes and the session
  id (`Attributes`, `Sessions`), the header, request and response codec (`Messages`), the request reader that
  works on bytes arriving in arbitrary portions (`Reader`), and requests one after another on a connection
  (`KeepAlive`).
- **Stopping the server** - the lock-free `ScopeRunner` and the registry of connections (`ScopeRunner`,
  `Connections`), as interleaved steps of any number of threads.
- **Questions and answers** - the list of sensors (`SensorList`), the two ends of the UDP protocol (`UdpServer`,
  `UdpClient`), the rate-limited calls of central (`Communicator`), whole runs of central, its sensors and a network
  that loses, repeats and reorders (`Exchange`), and the polling cycle with time in milliseconds (`Polling`).
- **Sensors** - the ring of the last 60 readings and its median (`Window`).
- **Texts** - the messages as they are printed, cut to the receive sizes and parsed back (`Texts`), and the alarm
  server with its reused buffer (`Alarms`); `Wire` spells all these texts out letter by letter. `Bytes`, `Numerals` and `Addresses` are their vocabulary.

Code that changes objects in place is a class or a method with loops, proved against a specification function;
the properties are lemmas about these functions. Positions that the source keeps as `npos` are `None`. A multimap
is the sequence of its pairs in visiting order. What the network, the clock, the scheduler and the peer decide is a
parameter, an action of a run, or a nondeterministic choice, so the theorems hold for every such choice. Floats are
reals; numbers in messages are printed from integer millionths, as the `%f` form does.

## What the code does not do

Some properties that one would expect hold only under a condition. Each is proved with its exact condition.

- `HttpHeader::parse` returns exactly when some line of the stream has no ':'. On a stream whose last, unterminated
  line has one it loops for ever and keeps adding that line (`HeaderReturnsIff`, `DivergesForever`). Inside the
  server this cannot happen, because there a blank line has been seen (`RequestOfLonger`).
- A session id survives the Cookie header exactly when `sessionId` is its first attribute: the header is read with
  `>>`, which stops at the blank behind the first ';' (`SessionSurvivesIffFirst`).
- A request target is cut at its last '?', although a query may hold further ones (RFC 3986 section 3.4). Path and
  query come back exactly when '?' is not in the query, or not in the path when there is none (`RequestSurvivesIff`,
  `TwoQuestionMarks`).
- A chunked coding is honoured exactly when no Content-Length is there and the first Transfer-Encoding is spelled
  `chunked`. With `Chunked`, which the response writer itself takes for chunked (RFC 7230 section 4), the content is
  whatever was pulled in, and a Content-Length beside it wins, against section 3.3.3 (`ChunksAreHonouredIff`,
  `SpellingAndLengthWin`). Which of several equal keys comes first is up to the multimap; in every order it is
  honoured exactly when all Transfer-Encoding fields are spelled so (`ChunksAreHonouredInAnyOrderIff`).
- Bytes that follow a request on the wire and happen to be pulled in with it become part of its content: behind a
  body, in front of the chunks, or as the whole content of a request without a body. The content is exact in every
  run exactly when nothing is sent behind the request (`ReadPipelined`, for requests sized, chunked or without a body):
  a greedy reader, one whose portion covers what has arrived, spoils it otherwise (`ReadOneByteBehindTheBody`,
  `ReadTwoGets`). On a kept-alive connection all such requests are handed on exactly, in every run, if each is sent
  only after the one before was handed on; otherwise a greedy reader loses those sent behind another (`Serve`,
  `AnswersAreExactIff`). A request that ends where a portion ends is read exactly although bytes follow, and bytes
  beyond the portion stay for the next session.
- An attribute printed as `name=` with an empty value takes the ';' behind it for its value, or is dropped at the
  end. A list comes back exactly when no such attribute is in it and the names are names to the scanner
  (`ParsedOfPrintedIff`).
- Header fields are written as they are. A list comes back exactly when no name holds a ':' or a newline, and no
  value a newline or a leading blank (`HeaderSurvivesIff`, `ResponseSurvivesIff`).
- With more than `loop_time * 1000` sensors the polling timeout is rounded down to 0, which means no timeout, and a
  silent sensor may stay CORRECT for ever (`NoticesSilenceIff`). With fewer the bound is one second better than
  `loop_time + 2 * max_answer_time`, and in general it cannot be
  improved (`BoundIsTight`, for one sensor and `max_answer_time <= loop_time`).
- A threshold is kept exactly only when it is a whole number from 1 to 99 (`ExchangeIsExactIff`).
- The alarm buffer is not cleared when a round ends in an exception. A datagram is read as it was sent exactly when
  it holds a NUL or no earlier one left a byte right behind its end (`ReadAsSentAfterIff`). An honest alarm is stored
  as its own pair exactly when what it is followed by in the buffer is harmless: digits zero, then no blank and no
  exponent (`HonestAlarmIsReadWholeIff`). That holds after every run in which all earlier datagrams are honest
  alarms (`HonestAlarmsAreReadWhole`), and fails after an alarm with "e1" behind it from a host that is not listed:
  the next one is stored with ten times its typical value (`AlarmIsHarmed`). The conditions are those before rounding
  to float; digits that are not zero but far behind are rounded away and do no harm either.
- The library takes the message that ends a client's receiver for an answer while a callback is pending at its
  address, and ends on the next one (`EndingMessageIsAnswered`). In no run of central is a callback pending there, so
  its receiver always ends (`EndingMessageIsNoAnswer`).

## Model

| member | source | states |
|---|---|---|
| `PercentCoding.Encode` | central/include/utility.hpp:46-61 | the encoding loop computes `Encoded`, whose inverse is `Decoded` |
| `PercentCoding.Decode` | central/include/utility.hpp:64-83 | the index loop that skips two positions behind a '%' computes `Decoded`: a '%' with two characters behind it is their hex value, '+' is a blank, all else stands for itself |
| `PercentCoding.DecodedOfEncoded` | central/include/utility.hpp:46-83 | decoding undoes encoding on every byte string (RFC 3986 section 2.1) |
| `PercentCoding.EncodedAlphabet` | central/include/utility.hpp:53-56 | an encoded string holds only unreserved characters and '%', so no separator of any of the formats |
| `PercentCoding.KeptIffUnreserved` | central/include/utility.hpp:53-56 | the octets kept as they are are those that RFC 3986 section 2.3 names, and no others |
| `PercentCoding.DecodedOfAny` | central/include/utility.hpp:64-83 | however a string was encoded - bytes as they are, blanks as '+', '%' with digits in either case - decoding gives it back |
| `PercentCoding.DecodedOfForm` | central/include/utility.hpp:64-83 | in particular with blanks as '+' and lower-case digits |
| `PercentCoding.OddPercents` | central/include/utility.hpp:70-75 | a '%' too near the end stands for itself, and a '%' without digits behind it is read as strtol does |
| `QueryStrings.Create` | central/include/utility.hpp:89-99 | the loop prints `name=value` with encoded values, joined by '&' |
| `QueryStrings.Parse` | central/include/utility.hpp:102-136 | the one-pass loop with its three positions equals, on every string: split at '&', cut each piece at its last '=', drop empty names, decode the values |
| `QueryStrings.ParsedOfCreated` | central/include/utility.hpp:89-136 | parsing what create printed returns the same fields, for all non-empty names free of '&' and all values |
| `QueryStrings.ParsedOfCreatedIff` | central/include/utility.hpp:89-136 | for all fields: they come back if and only if every name is non-empty and free of '&' |
| `QueryStrings.ParsedAppends` | central/include/utility.hpp:111-133 | each piece between '&' is read on its own |
| `QueryStrings.ParsedBare` | central/include/utility.hpp:112-117 | a piece without '=' is a name with an empty value, an empty piece is nothing |
| `QueryStrings.ParsedPair` | central/include/utility.hpp:122-132 | the last '=' ends the name, the value is decoded, and without a name there is no field |
| `Attributes.Parse` | central/include/utility.hpp:164-212 | the one-pass loop with its three positions equals the grammar `First`/`Parsed` on every string, with its quirks at a closing quote, an empty value and the end of the string |
| `Attributes.ParsedOfPrinted` | central/include/utility.hpp:164-212 | parsing inverts printing for every list of bare names, non-empty encoded values and quoted encoded values joined by "; " |
| `Attributes.ParsedOfPrintedIff` | central/include/utility.hpp:164-212 | for all attributes: the list comes back if and only if its names are names to the scanner and no value behind a bare '=' is empty |
| `Attributes.EmptyValue` | central/include/utility.hpp:184-195 | a bare '=' in front of a ';' takes it for the beginning of its value, and is dropped at the end of the string |
| `Sessions.ValidateSession` | central/src/WebServer.cpp:26-40 | the id comes from the first word of the Cookie header; no header is an exception, no id an end iterator |
| `Sessions.SessionOfPrinted` | central/src/WebServer.cpp:26-40 | for every printed cookie list the id found is the value of the first attribute if that is `sessionId`, else none |
| `Sessions.SessionSurvivesIffFirst` | central/src/WebServer.cpp:31-37 | a session id that is in the header is found if and only if its attribute comes first |
| `Sessions.SecondSessionIdIsLost` | central/src/WebServer.cpp:31-37 | in `a=1; sessionId=x` there is a session id and it is not found |
| `Messages.Stream.GetLine` | central/include/utility.hpp:143-145 | std::getline: the line up to the newline, the state of the stream, and the old line when the stream has already failed |
| `Messages.ParseHeader` | central/include/utility.hpp:142-157 | the header loop computes `HeaderOf`, wherever that is defined |
| `Messages.HeaderReturnsIff` | central/include/utility.hpp:147-155 | the loop returns if and only if some line of the stream has no ':' |
| `Messages.DivergesForever` | central/include/utility.hpp:147-155 | otherwise its condition holds after every number of rounds |
| `Messages.UnterminatedFieldDiverges` | central/include/utility.hpp:147-155 | on the stream `a:` the loop does not return |
| `Messages.HeaderReturnsOnNewline` | central/include/utility.hpp:142-157 | the loop returns on every stream that ends in a newline |
| `Messages.FieldOfBlanks` | central/include/utility.hpp:148-152 | a line with any number of blanks behind its ':', none included, and any last byte gives its name and value |
| `Messages.FieldOfNothing` | central/include/utility.hpp:151-152 | a line that ends with its ':' gives no field |
| `Messages.HeaderOfText` | central/include/utility.hpp:142-157 | a printed header block gives its fields back and the parser stops right behind the blank line (RFC 7230 section 3.2) |
| `Messages.HeaderSurvivesIff` | central/include/utility.hpp:142-157 | for all fields: the list comes back and the parser stops right behind the blank line if and only if no name holds a ':' or a newline and no value a newline or a leading blank |
| `Messages.ScanTarget` | central/include/utility.hpp:228-237 | the scan finds the blank that ends the target and the last '?' in it |
| `Messages.ParseRequestLine` | central/include/utility.hpp:223-262 | the request line is cut at its first two blanks and its '/', with every early failure and what it leaves unset |
| `Messages.ParseRequest` | central/include/utility.hpp:220-263 | the whole parser computes `RequestOf` on the stream |
| `Messages.RequestOfText` | central/include/utility.hpp:220-263 | for every method, blank-free path, optional query, version and header list printed after RFC 7230 section 3.1.1, the parser returns method, version and header as printed and the target cut at its last '?', and leaves exactly what follows the blank line |
| `Messages.UnderstoodIff` | central/include/utility.hpp:230-244 | for all paths and queries, cutting the target at its last '?' gives them back if and only if '?' is not in the query, or not in the path when there is none |
| `Messages.RequestSurvivesIff` | central/include/utility.hpp:220-263 | so parsing inverts printing if and only if that holds |
| `Messages.RequestComesBackIff` | central/include/utility.hpp:220-263 | for all parts whatever, with a parser that has no query yet: they come back if and only if they keep the grammar and that holds |
| `Messages.RequestLineOkIff` | central/include/utility.hpp:225-262 | a line is accepted if and only if it is two parts without blanks and "HTTP/" behind them; a failure leaves the version |
| `Messages.RequestLineOfShape` | central/include/utility.hpp:225-250 | what is taken out of every accepted line; the byte in front of the newline is dropped |
| `Messages.RequestLineLeaves` | central/include/utility.hpp:225-261 | the method is set as soon as there is one blank, path and query as soon as there are two |
| `Messages.QuestionInQuery` | central/include/utility.hpp:230-241 | what is in front of the last '?' of a query goes to the path |
| `Messages.TwoQuestionMarks` | central/include/utility.hpp:230-241 | of `/a?b?c` the parser makes the path `/a?b` and the query `c` |
| `Messages.ParseResponse` | central/include/utility.hpp:269-289 | the response parser computes `ResponseOf` on the stream |
| `Messages.StatusLineIff` | central/include/utility.hpp:273-282 | a status line is refused if and only if it is too short or has no blank in front of its last byte |
| `Messages.StatusLineOfShape` | central/include/utility.hpp:273-282 | version and status of every status line with a five-byte prefix |
| `Messages.ResponseWriter.WriteHeader` | central/include/server_http.hpp:72-87 | the loop with its two flags prints all fields, and a Content-Length exactly when no length field, no chunked field and no close flag is there |
| `Messages.LengthIsAddedIff` | central/include/server_http.hpp:75-86 | Content-Length is added if and only if the connection stays open and no field gives a length or announces chunks |
| `Messages.ResponseWriter.Write` | central/include/server_http.hpp:113-125 | status line, header and content are appended to the buffer in this order |
| `Messages.ResponseOfText` | central/include/utility.hpp:269-289 | reading a written response returns version 1.1, the status text and the sent fields, and leaves exactly the content unread |
| `Messages.ResponseSurvivesIff` | central/include/utility.hpp:269-289 | for all parts: a written response comes back if and only if the status is one line and the fields survive |
| `Messages.AddedLengthIsContentSize` | central/include/server_http.hpp:83-86 | the added length, looked up and converted as a reader does it, is the size of the content (RFC 7230 section 3.3.2) |
| `Reader.Session.ReadUntil` | central/include/server_http.hpp:461-480 | whatever portions arrive, the delimiter found is the first one in all the bytes, nothing is lost, and the end of the connection or a full buffer is reported as such |
| `Reader.Session.ReadExactly` | central/include/server_http.hpp:503-520 | the missing bytes are read in order, and no byte is lost or invented |
| `Reader.HeaderOfLonger` | central/include/utility.hpp:142-157 | the header loop returns before a blank line, and what follows that line does not change what it returns |
| `Reader.RequestOfLonger` | central/include/server_http.hpp:480-487 | parsing the buffer is parsing the bytes up to the blank line, and the over-read bytes stay behind what is left |
| `Reader.Session.Read` | central/include/server_http.hpp:459-536 | the reader does with every segmentation of the bytes what `Agrees` says of the unsegmented bytes; only bytes that reach the buffer limit are refused as too large, by a greedy reader exactly those; a blank line beyond the limit always is, and what is handed on fits into the buffers |
| `Reader.Session.ReadBody` | central/include/server_http.hpp:489-531 | the content by Content-Length, by chunks or without either, with the over-read bytes accounted for |
| `Reader.Session.ReadSize` | central/include/server_http.hpp:538-569 | the size line and how many bytes behind it are already in the buffer |
| `Reader.Session.ReadChunked` | central/include/server_http.hpp:538-598 | the chunk loop agrees with the decoder `Dechunked` on everything pending, and ends because that shrinks |
| `Reader.Session.ReadChunk` | central/include/server_http.hpp:600-629 | one chunk moves to the chunk buffer, and the last one puts the collected data behind what is left |
| `Reader.HeadOfText` | central/include/server_http.hpp:480-487 | for a printed request the blank line found is the one that ends the header, and header parsing consumes exactly the bytes up to it |
| `Reader.SizedRequestIsHanded` | central/include/server_http.hpp:489-525 | with a right Content-Length and nothing behind the body, find_resource gets what the parser returns for the request and exactly the body (RFC 7230 section 3.3) |
| `Reader.ReadSizedRequest` | central/include/server_http.hpp:459-536 | the same of a run of the reader on a new connection, for every segmentation; path and query are those sent if and only if '?' is not in the query, or not in the path when there is none |
| `Reader.BodylessRequestIsHanded` | central/include/server_http.hpp:530-531 | without an honoured framing field the content is what was pulled in behind the header, empty when nothing was sent |
| `Reader.ChunksAreHonouredIff` | central/include/server_http.hpp:490-526 | a chunked coding is honoured if and only if no Content-Length is there and the first Transfer-Encoding in visiting order is spelled `chunked` |
| `Reader.ChunksAreHonouredInAnyOrderIff` | central/include/server_http.hpp:490-526 | in every order of equal keys it is honoured if and only if no Content-Length is there, a Transfer-Encoding is, and all of them are spelled `chunked` |
| `Reader.SpellingAndLengthWin` | central/include/server_http.hpp:490-526 | `Chunked` is not honoured although the writer takes it for chunked, and a Content-Length wins over chunks |
| `Reader.PipelinedBytesSpoilTheBody` | central/include/server_http.hpp:476-487 | with bytes behind the body the content is the body followed by those that were pulled in, so it is exact if and only if none was |
| `Reader.ReadOneByteBehindTheBody` | central/include/server_http.hpp:476-487 | a run in which a body `x` with a byte `y` behind it is handed on as `xy` |
| `Reader.DechunkedOfText` | central/include/server_http.hpp:538-629 | decoding every list of non-empty chunks closed by an empty one gives their concatenation and the bytes behind (RFC 7230 section 4.1) |
| `Reader.HexSizeIsWellFormed` | central/include/server_http.hpp:560 | a size printed in hexadecimal is read back by stoul in base 16 |
| `Reader.SpelledSizeIsWellFormed` | central/include/server_http.hpp:560 | so is a size in any mix of upper and lower case |
| `Reader.LowerSizeIsWellFormed` | central/include/server_http.hpp:560 | and one printed in lower case |
| `Numerals.StoulOfSpelling` | central/include/server_http.hpp:560 | stoul in base 16 reads every spelling of a printed number back |
| `Numerals.IntegerOfSigned` | central/include/server_http.hpp:494 | blanks in front are skipped, a minus negates, a plus does nothing |
| `Numerals.IntegerOfPrefixed` | central/include/server_http.hpp:560 | in base 16 a "0x" in front of digits is skipped |
| `Numerals.StoulOfNegative` | central/include/server_http.hpp:494 | a negative length wraps around in 64 bits |
| `Numerals.StoulOfTooLarge` | central/include/server_http.hpp:494 | too large a number is refused |
| `Reader.ChunkedRequestIsHanded` | central/include/server_http.hpp:526-629 | a chunked request with nothing behind it reaches find_resource with exactly the concatenation of its chunks |
| `Reader.ReadChunkedRequest` | central/include/server_http.hpp:459-629 | the same of a run of the reader on a new connection, for every segmentation and every amount of over-reading, with the same condition on '?' |
| `Reader.PipelinedBytesSpoilTheChunks` | central/include/server_http.hpp:623-628 | bytes behind the last chunk that were pulled in come in front of the data, so the content is exact if and only if none was |
| `Reader.SizedIff` | central/include/server_http.hpp:490-500 | the framing is by length if and only if the first Content-Length is a number, and bad if it is none |
| `Reader.EndsEarly` | central/include/server_http.hpp:533-534 | a connection that ends before a blank line is given up |
| `Reader.BodyEndsEarly` | central/include/server_http.hpp:519-520 | so is one that ends before the whole body |
| `Reader.BadLengthIsRefused` | central/include/server_http.hpp:496-500 | a length that is no number is a protocol error |
| `Reader.BadLineIsRefused` | central/include/server_http.hpp:482-487 | so is a first line that is no request line |
| `Reader.BadChunks` | central/include/server_http.hpp:559-596 | behind any chunks a size line that is no number is a protocol error, and a chunk that is cut off ends the connection |
| `Reader.ReadOneByteBehindTheChunks` | central/include/server_http.hpp:623-628 | a run in which a byte `y` behind an empty chunked body is handed on as content |
| `KeepAlive.ReadPipelined` | central/include/server_http.hpp:459-629 | for every request, sized, chunked or without a body, and any bytes sent behind it: with none the content is exact in every run; a greedy reader hands on exactly these bytes with the content, so it is exact if and only if there are none |
| `KeepAlive.IsKeptAlive` | central/include/server_http.hpp:676-688 | the first Connection field in visiting order that says close or keep-alive decides, else the version |
| `KeepAlive.KeptInAnyOrderIff` | central/include/server_http.hpp:676-688 | in every order of equal keys the connection is kept if and only if no field says close, and one says keep-alive or the version is at least 1.1 |
| `KeepAlive.AtLeastIff` | central/include/server_http.hpp:685 | the order of versions: one begins with the other, or is larger where they first differ |
| `KeepAlive.VersionsKept` | central/include/server_http.hpp:685 | without a deciding Connection field 1.0 is not kept and 1.1 is |
| `KeepAlive.PlainGetIsMessage` | central/include/server_http.hpp:530-531 | plain requests are among those that the theorems are about |
| `KeepAlive.ReadTwoGets` | central/include/server_http.hpp:530-531 | a run in which the second of two plain requests sent together is handed on as the content of the first |
| `KeepAlive.Serve` | central/include/server_http.hpp:664-692 | requests one after another, sized, chunked or without a body, each read by a new session with an empty buffer: after one that does not keep the connection nothing is handed on; if all keep it, requests sent one by one are all handed on exactly, in every run and in order, and a greedy reader gives this if and only if they are |
| `KeepAlive.AnswersAreExactIff` | central/include/server_http.hpp:664-692 | what a greedy reader hands on of batches sent together is what was meant if and only if each batch is one request; those behind the first of a batch are lost |
| `ScopeRunner.CountsLiveLocks` | central/include/utility.hpp:312-354 | the invariant over every interleaving and every spurious failure, from every state that has it |
| `ScopeRunner.CountsLiveLocksFromStart` | central/include/utility.hpp:312-354 | either the counter is the number of live locks, or it is -1 and there is none |
| `ScopeRunner.StopIsFinal` | central/include/utility.hpp:344-353 | once any stop returned, or any continue_lock was denied, no lock is live and none is ever granted again |
| `ScopeRunner.StopReturnsIffNoneLive` | central/include/utility.hpp:345-353 | a turn of the stop loop that does not fail by chance ends it if and only if no lock is live |
| `ScopeRunner.ContinueReturns` | central/include/utility.hpp:333-342 | undisturbed, continue_lock gets its lock within two turns unless the runner is closed, and then it is denied |
| `ScopeRunner.ContinuesAtOnce` | central/include/utility.hpp:333-342 | undisturbed from its call on, continue_lock is granted at its first turn unless the runner is closed |
| `ScopeRunner.WholeLife` | central/include/utility.hpp:312-354 | a run in which a lock is taken, a stop waits for it and returns, and a later call is denied |
| `Connections.RegistryIsExact` | central/include/server_http.hpp:440-457 | in every interleaving of create, release, upgrade and stop, with reused addresses, the set holds only allocated connections, and every connection in use that was not withdrawn |
| `Connections.StopClosesAllocated` | central/include/server_http.hpp:407-412 | stop never closes a freed connection |
| `Connections.DeletedIsUnlisted` | central/include/server_http.hpp:443-451 | a connection that is deleted is in nobody's reach |
| `Connections.StopClosesAll` | central/include/server_http.hpp:407-411 | a stop closes every connection that was listed when it began, and no other, and leaves the set empty |
| `Connections.StateToldByHistory` | central/include/server_http.hpp:440-457 | in every run the set holds what was emplaced and not erased, upgraded or cleared since, and a connection is in use exactly while references are left |
| `Connections.SharedLife` | central/include/server_http.hpp:440-457 | a run in which a connection is shared and freed and its address used again |
| `Connections.StoppedLife` | central/include/server_http.hpp:401-416 | a run in which a stop closes a connection that is given up meanwhile |
| `Connections.UpgradedLife` | central/include/server_http.hpp:631-647 | a run in which an upgraded connection is passed by |
| `SensorList.SensorList.AddSensor` | central/src/SensorList.cpp:10-13 | adding keeps an entry that is there, and the list still stands for its history |
| `SensorList.SensorList.EraseSensor` | central/src/SensorList.cpp:15-23 | erasing, or the exception for an unknown sensor |
| `SensorList.SensorList.SetThreshold` | central/src/SensorList.cpp:25-32 | a threshold answer sets the value and clears the flag |
| `SensorList.SensorList.SetValues` | central/src/SensorList.cpp:34-42 | a value answer or an alarm sets the pair and clears the flag |
| `SensorList.SensorList.SetLastValueQuestion` | central/src/SensorList.cpp:99-111 | a question sets its time, and the flag with its time unless one is outstanding |
| `SensorList.SensorList.SetLastThresholdQuestion` | central/src/SensorList.cpp:121-133 | the same for threshold questions |
| `SensorList.SensorList.GetSensorState` | central/src/SensorList.cpp:44-63 | the exception exactly for a sensor that is not listed; else the state says whether an answer has been outstanding for max_answer_time in the sensor's history, and its values are those of the last answers |
| `SensorList.SensorList.GetSensors` | central/src/SensorList.cpp:65-80 | every listed sensor exactly once, with the state that GetSensorState reports and what that says about its history |
| `SensorList.RepresentsKept` | central/src/SensorList.cpp:10-133 | every call keeps the list equal to the replay of each sensor's history since it was added |
| `SensorList.FlagMeansOutstanding` | central/src/SensorList.cpp:99-111 | the flag and its time stand for the first question after the last answer, or second 0 when there was none |
| `SensorList.ValuesComeFromAnswers` | central/src/SensorList.cpp:25-42 | pair and threshold are those of the last answer of their kind, or the defaults |
| `SensorList.StatusRefinesHistory` | central/src/SensorList.cpp:58-61 | a sensor is NOCOMMUNICATION if and only if the first question since its last answer is at least max_answer_time old, or it never answered and the clock is past max_answer_time |
| `UdpServer.UDPServer.Receive` | common/src/udp_server.cpp:28-44 | a datagram sets the client, a failure forgets it |
| `UdpServer.UDPServer.Send` | common/src/udp_server.cpp:46-59 | the answer goes one port up, and a second one is refused |
| `UdpServer.NeverTwiceInARow` | common/src/udp_server.cpp:46-59 | between two answers there is always a successful receive |
| `Addresses.IncrementedIsNextIff` | common/src/address.cpp:181-192 | the answer goes to the next port if and only if the port is not the last one; the host stays |
| `Addresses.LoopbackIff` | common/src/address.cpp:167-173 | only the own host's address with the given port is the loopback |
| `UdpClient.CallbacksAreConserved` | common/src/udp_client.cpp:74-126 | in every interleaving of senders and receiver a callback is pending exactly when the map holds it, at the address it was sent to |
| `UdpClient.AccountedIffPassed` | common/src/udp_client.cpp:74-126 | a callback has exactly one fate if it was passed in and none if not, and keeps its address on its way |
| `UdpClient.FinalLasts` | common/src/udp_client.cpp:74-126 | fired, replaced and dropped are final |
| `UdpClient.FinalNeverFires` | common/src/udp_client.cpp:119-120 | no callback fires twice, nor after it was replaced or dropped |
| `UdpClient.FiredAndDroppedIff` | common/src/udp_client.cpp:74-120 | a callback is fired if and only if it was called, and dropped if and only if its send failed |
| `UdpClient.ReplacedIff` | common/src/udp_client.cpp:79-86 | it is replaced if and only if something was saved at an address where it was the latest pending callback |
| `UdpClient.LatestCallbackAnswers` | common/src/udp_client.cpp:79-118 | a datagram gets the callback saved last for its sender, unless a datagram took it since |
| `UdpClient.UDPClient.SendAndSaveCallback` | common/src/udp_client.cpp:74-87 | the callback is saved, or dropped when the send fails |
| `UdpClient.UDPClient.HandleReceive` | common/src/udp_client.cpp:105-126 | the pending callback goes before the ending message, and that before the default callback |
| `UdpClient.EndingMessageIsAnswered` | common/src/udp_client.cpp:119-122 | a run in which a pending callback is called on the ending message, and the next one ends |
| `Communicator.Communicator.AskForValues` | central/src/Communicator.cpp:78-102 | unknown sensors, the rate limit, a failed send, and the order of sending, saving and recording |
| `Communicator.Communicator.SetThreshold` | central/src/Communicator.cpp:49-76 | the same with the range check in front |
| `Communicator.Communicator.AddSensor` | central/src/Communicator.cpp:18-33 | a bad threshold adds nothing; else the sensor is listed and asked |
| `Communicator.Communicator.CallbackOnReceive` | central/src/Communicator.cpp:130-178 | the two callbacks store what they parse, or nothing |
| `Communicator.PerformedRepresents` | central/src/Communicator.cpp:18-178 | any sequence of calls keeps the list equal to its history |
| `Exchange.NetAlways` | central/src/Communicator.cpp:49-102 | in every run all datagrams and callbacks are at the ports of their kind, and all values under way were printed by their sender |
| `Exchange.RepliesMatchCallbacks` | central/src/Communicator.cpp:130-178 | under loss, repetition and reordering a reply that finds a callback finds one of its kind, which reads the printed numbers back |
| `Exchange.RepliesGoToReceivePort` | common/src/udp_server.cpp:53-55 | replies go to the port above the client's send port, from the port that was asked |
| `Exchange.EndingMessageIsNoAnswer` | common/src/udp_client.cpp:119-122 | in no run of central a callback is pending where the ending message comes from |
| `Exchange.StoredPairsAreWhole` | central/src/main.cpp:55-67 | every stored pair is the default or came whole from one message of that host, every threshold is the default or the integer part, from 1 to 99, of one that central asked of that host |
| `Exchange.WindowWithin` | sensor/src/main.cpp:48-52 | readings from 1 to 99 have a median from 1 to 99, so the alarms on the network are those that the window theorem gives |
| `Exchange.HistoryIsRepresented` | central/src/SensorList.cpp:25-133 | in every run the list stands for its history, so the status theorem applies to it |
| `Exchange.RateAlways` | central/src/Communicator.cpp:63-75 | in every run two questions of one kind to a listed sensor are at least max_answer_time apart |
| `Exchange.CountIsLimited` | central/src/Communicator.cpp:88-101 | times so spaced put at most W / gap + 1 into a window of W |
| `Exchange.RateIsLimited` | central/src/Communicator.cpp:88-101 | at most W / max_answer_time + 1 questions of one kind in any window of W seconds while the sensor stays listed |
| `Exchange.CurrentAlways` | common/src/udp_client.cpp:79-86 | a pending question of a sensor that stayed listed is the last of its kind that the list records |
| `Exchange.ReplacedWhenOld` | common/src/udp_client.cpp:81-83 | so a pending callback is replaced only when it is at least max_answer_time old |
| `Exchange.AddIsTwoCalls` | central/src/Communicator.cpp:30-32 | adding a sensor is listing it and then asking it |
| `Exchange.SetThresholdStep` | central/src/Communicator.cpp:49-76 | in range, for a listed sensor, with the last such question old enough and a send that succeeds, exactly the given threshold goes to port 7000 with its callback and its record; else nothing happens |
| `Exchange.AskStep` | central/src/Communicator.cpp:78-102 | the same for get_value and port 7001 |
| `Exchange.AddStep` | central/src/Communicator.cpp:18-33 | a threshold out of range does nothing; else the sensor is listed, keeping its entry, and asked |
| `Exchange.SensorSteps` | sensor/src/main.cpp:103-213 | what a sensor puts on the network: its two values, the threshold it took, its last reading with the median |
| `Exchange.DeliverStep` | central/src/Communicator.cpp:130-178 | in every run a reply for a pending callback is stored and takes the callback, and nothing else happens |
| `Exchange.DeliverAlarmStep` | central/src/main.cpp:61-67 | in every run an alarm is stored as its pair |
| `Exchange.EraseAndTickSteps` | central/src/Communicator.cpp:35-47 | erasing takes the sensor from the list and nothing more |
| `Exchange.RequestedWasCalled` | central/src/Communicator.cpp:71-73 | in every run a sensor is asked to take a threshold only if central was called with it for that sensor |
| `Exchange.AcceptedWasCalled` | sensor/src/main.cpp:128-150 | what a sensor accepts is the integer part of such a threshold |
| `Exchange.StoredThresholdWasCalled` | central/src/Communicator.cpp:130-142 | so is every stored threshold other than the default |
| `Exchange.WhatCanHappen` | common/src/udp_server.cpp:28-59 | questions can be answered, replies and alarms delivered, any number of times |
| `Polling.Poller.Cycle` | central/src/main.cpp:97-118 | one cycle asks the addresses in order, with the timeout set before, until a message ends it, an address is not listed or a send fails; the list, the callbacks and what was sent are those of these questions; without addresses it only receives |
| `Polling.PolledIsAsked` | central/src/Communicator.cpp:87-101 | what a question does to the list, which is all that time depends on, is independent of callbacks and of what was sent |
| `Polling.SlotsFit` | central/src/main.cpp:100 | the timeouts of a cycle add up to at most loop_time * 1000 ms, and the timeout is positive if and only if there are at most that many sensors |
| `Polling.EmptyCycle` | central/src/main.cpp:111-113 | without sensors the one receive waits for the whole loop time |
| `Polling.EnabledIff` | central/src/main.cpp:102-105 | a turn, other questions and answers may come at any time; waiting ends with the timeout |
| `Polling.WatchedKept` | central/src/Communicator.cpp:87-101 | every step keeps that a silent sensor was asked in time or has its turn in time, whatever else is asked |
| `Polling.SilenceIsNoticed` | central/src/main.cpp:97-110 | a sensor whose last answer was processed in second a is NOCOMMUNICATION from second a + loop_time + 2 * max_answer_time - 1 on, in every run without its answers |
| `Polling.StuckForEver` | central/src/main.cpp:100-102 | with more sensors a run exists in which a silent sensor is CORRECT at any later time |
| `Polling.NoticesSilenceIff` | central/src/main.cpp:97-110 | silence is always noticed within the bound if and only if there are at most loop_time * 1000 sensors |
| `Polling.BoundIsTight` | central/src/main.cpp:97-110 | for one sensor and max_answer_time <= loop_time a run exists in which it is still CORRECT one second before the bound |
| `Window.SortedIsSorted` | sensor/src/main.cpp:58 | sorting gives an ordered permutation |
| `Window.CalculateMedian` | sensor/src/main.cpp:54-63 | the median of the first slots, defined whenever there is one |
| `Window.MedianIgnoresOrder` | sensor/src/main.cpp:54-63 | the median depends on the multiset of the slots only |
| `Window.MedianIsTheMean` | sensor/src/main.cpp:59-62 | told by any ordered permutation: the middle element, or the mean of the two middle elements truncated toward zero |
| `Window.MedianIsInTheMiddle` | sensor/src/main.cpp:59-62 | it lies between the two middle elements of the sorted window |
| `Window.MedianHalvesTheWindow` | sensor/src/main.cpp:59-62 | at least half of the window is on each side of it |
| `Window.MedianWithin` | sensor/src/main.cpp:54-63 | it stays between bounds that all readings keep |
| `Window.HoldsNext` | sensor/src/main.cpp:92-96 | storing at the pointer keeps the ring holding the last readings, before and after it is full |
| `Window.SensorWindow.Store` | sensor/src/main.cpp:91-96 | a reading replaces the oldest one |
| `Window.SensorWindow.Update` | sensor/src/main.cpp:89-113 | over an unbounded run the slots in use hold the last min(n, 60) readings, typical is their median, and an alarm carries both values exactly when the reading is over the threshold |
| `Texts.StofOfToString` | central/src/Communicator.cpp:161-162 | stof reads back what to_string printed, scaled by an exponent if one follows |
| `Texts.StofOfNegative` | central/src/Communicator.cpp:161-162 | negative numbers are read back too |
| `Texts.ExponentOf` | central/src/Communicator.cpp:161-162 | an exponent counts with its sign, and without digits there is none |
| `Texts.SensorTakesIntegerPart` | sensor/src/main.cpp:126-150 | every printed threshold from 0 to 100, cut to 17 bytes and 3 characters, is accepted if and only if its integer part is 1 to 99, and that part is taken |
| `Texts.KeywordDecides` | sensor/src/main.cpp:135-138 | the sensor heeds exactly the datagrams that begin with the keyword; the keyword alone ends its thread |
| `Texts.VerdictOnText` | sensor/src/main.cpp:137-150 | behind the keyword the first three characters decide |
| `Texts.CentralStoresIntegerPart` | central/src/Communicator.cpp:130-142 | central stores the confirmed number, whatever bytes pad the reply |
| `Texts.ExchangeIsExactIff` | central/src/Communicator.cpp:71-73 | the threshold central ends with is the requested one if and only if that was whole and from 1 to 99 |
| `Texts.ValueAnswerOfReply` | central/src/Communicator.cpp:154-163 | central stores exactly the pair the sensor printed |
| `Texts.ThresholdAnswerOf` | central/src/Communicator.cpp:132-142 | the callback looks at the first two words, whatever follows them |
| `Texts.ValueAnswerOf` | central/src/Communicator.cpp:156-168 | the callback looks at the first four words, whatever follows them |
| `Texts.AlarmOfWords` | central/src/main.cpp:58-77 | the alarm server looks at five words, no more and no fewer |
| `Alarms.AlarmServer.Round` | central/src/main.cpp:40-87 | one round of the alarm server on its buffer: what is stored, what is sent back, when the thread ends, and when the buffer is cleared |
| `Alarms.HonestRound` | central/src/main.cpp:42-67 | an honest alarm over the rest of earlier honest ones is read as its own pair |
| `Alarms.ReadAsSentIff` | central/src/main.cpp:42-55 | a datagram is read as it was sent if and only if it holds a NUL or the buffer has one right behind it |
| `Alarms.ReadAsSentAfterIff` | central/src/main.cpp:40-87 | the same over runs of any datagrams from any hosts, told by what earlier ones left since the last round without an exception |
| `Alarms.AlarmOfLongerTextIff` | central/src/main.cpp:55-67 | an honest alarm with more characters behind it keeps its meaning if and only if they are digits zero, then neither blank nor exponent |
| `Alarms.HonestAlarmIsReadWholeIff` | central/src/main.cpp:40-87 | over runs of any datagrams from any hosts: the exact condition under which an honest alarm is read as its own pair |
| `Alarms.AlarmIsHarmed` | central/src/main.cpp:63-87 | for all pairs: after the same alarm with "e1" behind it, from a host that is not listed, an honest alarm is stored with ten times its typical value |
| `Alarms.BufferStaysClean` | central/src/main.cpp:79-87 | after any run of honest alarms only zeros of an earlier number can be left behind the shortest message |
| `Alarms.HonestAlarmsAreReadWhole` | central/src/main.cpp:55-67 | after any run in which all datagrams are honest alarms, from listed sensors or not, the next one is read whole |
| `Wire.RequestIs` | central/include/utility.hpp:220-263 | a request text |
| `Wire.ResponseIs` | central/include/server_http.hpp:72-125 | two response texts, with and without the added length |
| `Wire.ChunksAre` | central/include/server_http.hpp:538-629 | a chunked body |
| `Wire.NumbersAre` | central/src/Communicator.cpp:73 | numbers in decimal, hexadecimal and the %f form |
| `Wire.QueriesAre` | central/include/utility.hpp:89-99 | a query string |
| `Wire.CookiesAre` | central/include/utility.hpp:164-212 | the three forms of an attribute |
| `Wire.SensorMessagesAre` | sensor/src/main.cpp:103-213 | questions, value replies and alarms |
| `Wire.ThresholdReplyIs` | sensor/src/main.cpp:149-150 | a threshold reply |
| `Wire.SessionIs` | central/src/WebServer.cpp:26-40 | a Cookie header with a session id gives that id |
| `Wire.ConnectionsAre` | central/include/server_http.hpp:676-684 | a Connection field in any case decides against the version |
| `Bytes.CaseInsensitiveEqualIff` | central/include/utility.hpp:16-21 | equal but for the case of letters, and nothing else |

## Left out

- Sockets, Asio, timers, name resolution and the failures of address translation: their effects are parameters and actions.
- Failing handlers: a handler that gets no lock from the scope runner just returns, which the reader does not show.
- Buffer growth near the limit: the chunk buffer is refused when it reaches the limit; how far a read fills a buffer that is nearly full is left to a choice.
- Chunk trailers, an empty size line and sizes that wrap around in 64 bits: the decoder calls the last two `Broken` and nothing is said about what follows.
- Alarms.AlarmOfLongerTextIff: numbers are exact, while stof rounds to float, under which digits that are not zero but far behind keep the pair too.
- Alarms.HonestAlarmIsReadWholeIff: the same rounding is not part of the condition.
- The portions that a read of asio asks for: a read takes any positive amount that has arrived and fits, and a greedy reader all of it.
- A closed flag of a response and a failed send, which end a connection: `KeepAlive.Serve` is about answers that are sent.
- A repeated Content-Length: the first one counts, as the first of equal keys does in the model of the multimap.
- The order of equal keys in a multimap: the parsers' results are in the order of insertion, and the first of equal keys is the first in visiting order; the two lemmas on any order say where that does not matter.
- Matching a resource, status code tables, static files, JSON, HTML, the FIFO commands, the logger, saving and loading the list: input, output and lookups.
- The set of sessions and the generation of their ids.
- Hexadecimal, infinity and NaN in stof, numbers out of the range of a float, and rounding: values are exact.
- Negative values in value replies and alarms: sensors report numbers from 1 to 99, and the lemmas on replies are about numbers that are not negative.
- A change of typical between the two reads of a value reply: the reply carries whatever pair was printed.
- The content of the alarm buffer before the first round is taken as zero; the source leaves it uninitialised.
- Failed receives of the alarm server, which end its thread.
- Several reads of the clock in one call see the same second.
- The time between the check of a rate limit and the recording of the question: a call of the Communicator is one step of a run, so two calls at once are not shown.
- Overflow of the counter of the scope runner, and memory orders: the atomics are sequentially consistent.
- `UdpClient`, `ScopeRunner`, `Connections` and `Exchange` are state machines over values, because their theorems are about interleavings; only the calls of one thread appear as methods.
- IPv4 loopback addresses: hosts are the strings of their IPv6 form.
- Polling while the list of sensors changes: the theorems about time are for a fixed list and for sends that succeed; a failed one ends the program.

# webcc in Dafny

A verification model of webcc, a small C++ HTTP client and server library. It covers the incremental request
parser with its three body modes, the serialiser that feeds it, the work queue and the way the server's worker
threads are stopped, the life of connections between event loop and workers, and the codecs (percent-coding,
query strings, Base64).

How the files hang together:

- `text.dfy`, `numbers.dfy`, `headers.dfy`, `urls.dfy`: strings, numbers, header lists, header values and URLs;
  `heads.dfy`: start lines and header lines of any sender.
- `parsing.dfy` says what one read does to the parser (`Feed`) and what a sequence of reads comes to (`Run`);
  `parser.dfy` is the parser as an object that edits its fields in place, proved to do just that; `turns.dfy` takes
  the multipart loop turn by turn and shows when it ends; `reuse.dfy` is about parsers that are used again, for all the
  requests of a connection, and about sizes that do not fit.
- `chunked.dfy`, `cuts.dfy` and `reference.dfy` compare the parser with a reference (`Answer`) that looks at all
  bytes at once, for every way of cutting them into reads.
- `form.dfy`, `printing.dfy`, `roundtrip.dfy`, `sending.dfy`: what is printed is parsed back; `request.dfy` and
  `formbody.dfy` are the objects that print, and `client.dfy` makes the calls of a sender and of a receiver in turn.
- `workers.dfy`, `shutdown.dfy`, `service.dfy`, `connections.dfy`: the concurrent protocols as steps, with safety
  over all finite runs, and termination of the shutdown and service of every queue entry over all fair infinite ones;
  `queue.dfy` has the queue and the server as objects that take those steps; `courses.dfy` follows connections through
  fair infinite runs of the whole server.
- `percent.dfy`, `query.dfy`, `base64.dfy`: the codecs.
- `shortfalls.dfy`: an input for every way in which the code falls short.

Where the code falls short of what its comments and interfaces suggest, the model follows the code. One lemma says
exactly when the intended result is reached, and another has an input at which it is not:

- A read that ends inside a chunk-size line makes the parser throw std::length_error instead of waiting
  (`ParseChunkSize` succeeds with the size unset, and adding 2 to the unset size wraps around to 1). See
  `Reference.RunMeetsReference` and `RoundTrip.ChunkedRequestRoundTrip`, and `Shortfalls.SizeLineCut`.
- A chunk size of 2^64 - 2 or more makes the parser throw, except that a size line of 2^64 - 1 at the end of a read is
  forgotten, as 2^64 - 1 stands for an unset size (`Reference.RunMeetsReference`, `Reuse.HugeSizes`;
  `Shortfalls.HugeSizeThrows`).
- With a Content-Length, a read that starts inside the body and ends behind it is added to the content as a whole
  (`Reference.CrossesEnd`; `Shortfalls.SurplusRead`).
- A line of part data that is as long as an end boundary and has its dashes ends the form at the next boundary,
  because `IsBoundary` stores `*end` before it compares (`Form.Lookalike`), and a part without data is rejected
  (`Form.FormRoundTrip`; `Shortfalls.NotSendable`).
- A part that is added to a form twice is freed before it is written again. If no file gives its data back, fewer bytes
  are written than Content-Length declares (`FormBodies.FormBody.WriteAll`, `Client.SendForm`;
  `Shortfalls.SamePartTwice`).
- `RequestParser::Init` leaves the fields for multipart bodies as they are, so that a second form on a connection
  gets the parts of the first or is never answered (`Reuse.ReuseWithForm`; `Shortfalls.SecondForm`), and the loop it is
  never answered from is left by no number of turns (`Turns.StuckForever`). All forms a connection answers have the
  parts of the first (`Reuse.OneSetOfParts`).
- `Parser::Init` drops the pending bytes, so that a request that comes in the same read as the end of the one before is
  lost (`Reuse.OnePerRead`; `Shortfalls.SecondOfRead`).
- "://" in a request target is taken for the end of a scheme, a '?' in the path for the start of the query, and a '/'
  in the query of a target without a path for the start of one (`Urls.TargetRoundTrip`; `Shortfalls.NotAddressable`).
- A parameter of a query string whose value contains '&', or whose key contains '&' or '=', is not encoded so that
  it can be read back (`Queries.QueryRoundTrip`; `Shortfalls.NotReadBack`).
- Base64Decode writes behind its string exactly for the inputs whose length is not a multiple of four and which
  `Base64.DecodedBound` describes (`Base64.Base64Decode`; `Shortfalls.DoesNotFit`).
- With several event loop threads a connection can be closed while a worker is handling its next request
  (`Connections.CloseSafety`; `Connections.HandledAndLateOccurs`).
- A connection that a thread is about to close can be open after the pool has been cleared
  (`Connections.ClearClosesAll`; `Connections.OpenAfterClear`).
- No measure is lowered by every step of the shutdown: while one worker holds the null pointer, the others can
  handle connections for as long as it is not scheduled (`Shutdown.RankStep`; `Shutdown.NoStrictMeasure`).
  Termination holds for fair schedules (`Shutdown.EveryStopEnds`).

## Model

| member | source | states |
|---|---|---|
| Text.Split | webcc/string.h:62-84 | the loop of split() yields the pieces between delimiters, runs of them skipped when compressing |
| Text.SplitPieces | webcc/string.h:62-84 | no piece contains the delimiter |
| Text.SplitHead | webcc/string.h:62-84 | a first piece free of the delimiter is split off as it stands |
| Text.SplitJoins | webcc/string.h:62-84 | the pieces of split(), put together with delimiters, are the string |
| Text.SplitRun | webcc/string.h:62-84 | with compression a run of delimiters of any length separates two pieces |
| Text.TrimKeeps | webcc/string.h:46-58 | trimming leaves no padding at either end and brings in no character |
| Text.TrimBoth | webcc/string.h:46-58 | padding put around a trimmed string is taken off again |
| Text.TrimPadding | webcc/string.h:46-58 | any padding on both sides of a trimmed string is taken off, and nothing else |
| Text.BlanksListed | webcc/string.h:46-58 | the blanks that are trimmed are the space and the tab |
| Text.SplitKvAt | webcc/string.cc:37-53 | a key free of the delimiter, the delimiter and any value are cut apart at that delimiter |
| Text.IEqualsIgnoresCase | webcc/string.h:29-37 | strings are equal if and only if they differ at most in the case of ASCII letters |
| Text.PlainDigits | webcc/string.cc:28-35 | a text of digits is converted to its value below 2^64 and refused above |
| Text.SizeRoundTrip | webcc/string.cc:28-35 | a 64-bit size printed in base 10 or 16 is read back |
| Numbers.PrintedDigits | webcc/string.cc:28-35 | numbers are printed digit by digit, with the digits of base 10 or 16 |
| Numbers.SizeMeaning | webcc/string.cc:28-35 | for every text and both bases: to_size_t gives a number exactly for the texts that stand for it in the grammar of std::stoul (white space, sign, prefix, digits in either case with any zeros in front, anything behind) and fails for all others |
| Text.NextLineExtend | webcc/parser.cc:231-249 | a line that is complete is not changed by the bytes of later reads |
| Text.NextLineOf | webcc/parser.cc:231-249 | a text without CRLF, terminated, is the next line |
| Headers.FindHeader | webcc/common.cc:62-70 | the loop finds the first header with the key in any spelling |
| Headers.Set | webcc/common.cc:13-41 | an empty value is refused, a known key keeps its place and spelling, a new one is appended |
| Headers.SetKeepsWellFormed | webcc/common.cc:13-41 | Set keeps keys distinct up to case and values non-empty |
| Headers.SetThenFind | webcc/common.cc:13-70 | Set stores under every spelling of the key and changes no other key |
| Headers.SetKeepsPlaces | webcc/common.cc:13-41 | Set leaves every header at its place with its spelling of the key and adds at most one, at the end |
| Headers.HeaderLineRoundTrip | webcc/message.cc:105-110 | a printed header line is split back into key and value |
| Headers.FormContentTypeRoundTrip | webcc/common.cc:115-141 | the Content-Type of a form gives back media type and boundary |
| Headers.MediaRead | webcc/common.cc:115-141 | whatever blanks and parameters there are, the media type is the text before the first semicolon, and it is a form if and only if that text is "multipart/form-data" |
| Headers.ParameterRead | webcc/common.cc:72-141 | the parameter is the value behind the first '=' behind the first semicolon, whatever its key |
| Headers.ContentTypeMeaning | webcc/common.cc:102-141 | for every string: a Content-Type is valid if and only if it has a media type, and a parameter if that is the one of forms |
| Headers.InitDisposition | webcc/common.cc:149-178 | the loop over the fields of a Content-Disposition, with its error cases |
| Headers.DispositionValid | webcc/common.cc:149-178 | it is accepted if and only if it says form-data and every other field has a '=' |
| Headers.DispositionRoundTrip | webcc/common.cc:149-178 | name and file name are read back from a printed Content-Disposition if and only if they have no semicolon and no quote at an end |
| Headers.DispositionMeaning | webcc/common.cc:149-178 | for any list of fields, with any blanks and quotes: name and file name are those of the last field that is called so, and other fields do not matter |
| Urls.Parse | webcc/url.cc:239-283 | the steps of Url::Parse compute scheme, host, port, path and query |
| Urls.TargetRoundTrip | webcc/url.cc:239-283 | for every path and query: a printed target is parsed back into them if and only if it has no "://", no '?' in the path, and a path that begins with '/' or none and no '/' in the query |
| Urls.UrlRoundTrip | webcc/url.cc:239-283 | for every scheme, host, port, path and query: the printed URL is parsed back into them if and only if they can be told apart |
| Urls.LocalUrlRoundTrip | webcc/url.cc:239-283 | the same without a scheme |
| Parsing.ChunksKeepSize | webcc/parser.cc:325-374 | the chunk size stays a 64-bit value |
| Parsing.PartsKeepValid | webcc/request_parser.cc:73-155 | the loop keeps step and current part in agreement, never gets stuck unless it starts in the last step, and reaches that step only through an end boundary |
| Parsing.PartsGrow | webcc/request_parser.cc:73-155 | parts collected before are never changed |
| Parsing.FeedKeepsValid | webcc/parser.cc:126-161 | the invariant of the parser's fields over every read |
| Turns.LoopMeaning | webcc/request_parser.cc:73-155 | `ReadParts` is the iteration of the turns of the loop: its result is how the loop is left, if it is left |
| Turns.StuckForever | webcc/request_parser.cc:73-155 | with the last step reached and bytes pending on entry, a turn changes nothing and no number of turns leaves the loop |
| Turns.HangIsForever | webcc/request_parser.cc:73-155 | the loop never ends if and only if it is entered in that state |
| Turns.TurnShortens | webcc/request_parser.cc:73-155 | every other turn that goes on shortens the pending bytes |
| Parser.RequestParser.constructor | webcc/parser.cc:117-119 | a new parser is in the initial state |
| Parser.RequestParser.Init | webcc/request_parser.cc:15-22 | everything is reset but the fields for multipart bodies |
| Parser.RequestParser.Parse | webcc/parser.cc:126-161 | one read changes all fields of parser and request as `Feed` says, with its two kinds of failure, whenever it returns at all |
| Parser.RequestParser.ParseHeaders | webcc/parser.cc:180-215 | the loop over header lines |
| Parser.RequestParser.TakeLine | webcc/parser.cc:231-249 | GetNextLine with erase |
| Parser.RequestParser.PeekLine | webcc/parser.cc:231-249 | GetNextLine without erase, at an offset |
| Parser.RequestParser.ParseStartLine | webcc/request_parser.cc:36-50 | three fields, of which method and target are stored |
| Parser.RequestParser.ParseHeaderLine | webcc/parser.cc:251-286 | length, type and coding are noted, the header is stored, errors reported |
| Parser.RequestParser.ParseContent | webcc/request_parser.cc:52-62 | the choice between the three body modes |
| Parser.RequestParser.ParseFixedContent | webcc/parser.cc:296-323 | the fixed-length body |
| Parser.RequestParser.FinishBody | webcc/parser.cc:408-416 | a non-empty content becomes the body, the length is stored |
| Parser.RequestParser.ParseChunkedContent | webcc/parser.cc:325-374 | the chunk loop; it ends because every turn shortens the pending bytes |
| Parser.RequestParser.ParseChunkSize | webcc/parser.cc:376-401 | the size line, if complete, is taken off; otherwise success with the size unset |
| Parser.RequestParser.ParseMultipartContent | webcc/request_parser.cc:64-171 | the multipart loop; it ends because every turn shortens the pending bytes |
| Parser.RequestParser.TryFirstBoundary | webcc/request_parser.cc:79-92 | the first step: only from start to boundary parsed |
| Parser.RequestParser.TryPartHeaders | webcc/request_parser.cc:94-112 | only from boundary parsed to headers parsed |
| Parser.RequestParser.TryPartData | webcc/request_parser.cc:114-154 | from headers parsed back to boundary parsed or to the end; the parts so far stay as they are |
| Parser.RequestParser.ParsePartHeaders | webcc/request_parser.cc:173-221 | the last Content-Disposition among complete lines is applied, also when more data is needed |
| Parser.RequestParser.GetNextBoundaryLine | webcc/request_parser.cc:223-250 | the first boundary line and whether any line up to it looked like an end |
| Parser.RequestParser.CheckBoundary | webcc/request_parser.cc:252-274 | the result of IsBoundary and the early store to `*end` |
| Heads.StartLineRead | webcc/request_parser.cc:36-50 | for words with any runs of spaces between them: the start line is accepted if and only if there are three, and method and target are the first two |
| Heads.NoStartLine | webcc/parser.cc:180-215 | an empty line in place of the start line ends the head |
| Heads.HeaderLineRead | webcc/parser.cc:251-256 | blanks around the key and the value of a header line do not matter |
| Heads.HeadersNoted | webcc/parser.cc:180-286 | for any header lines, with keys in any spelling and as often as they like: the head is bad if and only if one of them is not acceptable; otherwise length and type are those of the last headers with these keys, and the body is chunked if any header says so |
| Chunked.SizeLineMeaning | webcc/parser.cc:376-401 | for every line: it announces a size if and only if the text up to the first space stands for that number in base 16 |
| Chunked.DigitsAnnounce | webcc/parser.cc:376-401 | hexadecimal digits in either case, with any zeros in front and any extension behind them, announce their number |
| Chunked.NoSizeBehindSpace | webcc/parser.cc:389-394 | a line that starts with a space announces nothing |
| Chunked.DecodeExtend | webcc/parser.cc:325-374 | decoding (section 4.1 of RFC 7230) can stop and resume at any byte |
| Chunked.LoopRefinesDecoder | webcc/parser.cc:325-374 | for all sizes: the loop agrees with the reference decoder, open chunks counted as delivered, on all that is heard, and throws exactly when the decoder would keep part of a size line or a size is 2^64 - 2 or more; not heard is a last size line of 2^64 - 1 with nothing behind it, which the loop takes for an unset size |
| Chunked.FinishesOnZeroLine | webcc/parser.cc:338-372 | whatever sizes are announced, the parser finishes if and only if, skipping chunk data and taking the other size lines off, it comes to a size line that reads 0, and it finishes right behind that one; an open chunk is never counted down to 0 |
| Cuts.HeadExtend | webcc/parser.cc:180-215 | reading start line and headers can be cut anywhere |
| Cuts.PartHeadersExtend | webcc/request_parser.cc:173-221 | reading complete part header lines again on the next read has the effect of going on |
| Cuts.NextBoundaryExtend | webcc/request_parser.cc:223-250 | a boundary that was found is found again with more bytes |
| Cuts.PartsExtend | webcc/request_parser.cc:73-155 | the multipart loop can be cut anywhere |
| Reference.LengthMatters | webcc/parser.cc:296-323 | what a missing Content-Length, or one of 2^64 - 1, means for forms and other bodies |
| Reference.OneRead | webcc/parser.cc:126-161 | one read, of any bytes, in any state before an answer: the outcome is the reference answer to all that has been heard, unless the read is a bad one, and then it is not; with too large a size it throws |
| Reference.AnswerIsFinal | webcc/connection.cc:112-131 | no later byte changes an answer |
| Reference.RunMeetsReference | webcc/parser.cc:126-401 | for all bytes and all cuts: the parser gives the reference answer to the bytes that are heard if and only if no read is a bad one and no size is 2^64 - 2 or more; it throws if and only if some read ends in a chunk-size line or a size is that large; all bytes are heard unless a size is that large |
| Reference.CutIndependence | webcc/parser.cc:126-401 | two cuts of which the same bytes are heard, without bad reads, give the same verdict, start line, headers and body |
| Reuse.ReuseWithoutForm | webcc/request_parser.cc:15-22 | a request that is not a form, or one that is rejected at once, is parsed by a used parser as by a fresh one |
| Reuse.ReuseWithForm | webcc/request_parser.cc:15-22 | what a parser that has finished a form makes of the next form |
| Reuse.LeftOver | webcc/connection.cc:20-31 | what a request leaves in the fields for multipart bodies for the next one: what it found there, or, if it is a form, the last step and the parts of its message |
| Reuse.OneSetOfParts | webcc/connection.cc:20-31 | over all requests of a connection: all forms that are answered have the parts of the first one, and up to that one the requests are those that a new parser for each would have read |
| Reuse.OnePerRead | webcc/parser.cc:121-124 | over all requests of a connection: no more are answered than there were reads, since Init drops what came with the last read of a request |
| Reuse.HugeSizes | webcc/parser.cc:343-350 | size lines of 2^64 - 2 and more throw, except 2^64 - 1 with nothing behind it, which is forgotten |
| Form.PartHeadersRoundTrip | webcc/request_parser.cc:173-221 | for parts of any client, with the key of the Content-Disposition in any spelling and any other headers before and behind it: the part headers give back name and file name and end where the data starts |
| Form.ItemText | webcc/common.cc:216-321 | the bytes of a part, with its Content-Disposition and Content-Type, letter by letter |
| Form.BoundaryLines | webcc/request_parser.cc:252-274 | for a boundary without NUL, the lines accepted are the boundary and the end boundary of section 5.1.1 of RFC 2046, and no others |
| Form.SameCharsMeaning | webcc/request_parser.cc:273 | for all texts: strncmp compares up to a NUL that both have |
| Form.FirstLine | webcc/request_parser.cc:79-92 | a form that does not begin with a boundary line is rejected; an end boundary will do |
| Form.NamelessPart | webcc/request_parser.cc:94-112 | a part without a Content-Disposition is taken with no name |
| Form.ScanPast | webcc/request_parser.cc:223-250 | the scan passes over data without boundary lines, remembering end lookalikes |
| Form.PartCloses | webcc/request_parser.cc:114-154 | what becomes of a part at the boundary behind its data |
| Form.FormRoundTrip | webcc/body.cc:107-146 | for all data: the parts of a printed form are read back in order, with nothing left over, if and only if every data is non-empty and free of boundary lines and none but the last has an end lookalike |
| Form.FewerParts | webcc/request_parser.cc:114-154 | a form with an unsendable item is rejected, or loses parts, or the end of the data of one; it may be left waiting only if some data holds a boundary line |
| Requests.Request.SetBody | webcc/message.cc:14-29 | body, length and Content-Length, unless it is the same body, given the size the body reports |
| Client.SetForm | webcc/request_builder.cc:38-50 | content type and body of a form: the Content-Length written is the number of bytes of the form, as GetSize reports it |
| Requests.Request.Prepare | webcc/request.cc:19-41 | start line and Host; nothing on a second call; an error without a host |
| Requests.HostRead | webcc/request.cc:36-40 | host and port are read back from the Host header if and only if the host has no colon |
| Requests.Request.GetPayload | webcc/message.cc:97-115 | the buffers are start line, headers in order and an empty line |
| Printing.RequestLineRoundTrip | webcc/request_parser.cc:36-50 | for every method, path and query: the printed request line gives them back if and only if none has a space, the target is not empty, and it can be parsed back |
| Printing.HeaderNoted | webcc/parser.cc:251-286 | the parser's notes after a header are those of the whole list so far |
| Printing.HeadRoundTrip | webcc/parser.cc:180-215 | printed start line and headers are read back in order, up to the first byte of the body |
| RoundTrip.ChunkedRoundTrip | webcc/parser.cc:325-401 | decoding inverts the chunked coding (section 4.1 of RFC 7230) with any size lines that announce the right sizes, and any trailer |
| RoundTrip.CutOfChunks | webcc/parser.cc:376-382 | which cuts of a coded body fall inside a size line |
| RoundTrip.RequestRoundTrip | webcc/parser.cc:296-323 | a request with a body of announced length arrives under every cut, and no shorter input is answered |
| RoundTrip.FormRequestRoundTrip | webcc/request_parser.cc:64-171 | with any announced length, a form request arrives as it was meant under every cut, on its last byte, if its items are sendable and none has lost its data, and under no cut otherwise |
| RoundTrip.ChunkedRequestRoundTrip | webcc/parser.cc:325-401 | for every cut of a chunked request: it throws if a read ends in a size line and otherwise arrives with the chunks joined |
| Sending.SetKeepsSound | webcc/common.cc:13-41 | setting a header keeps the list printable and parsable |
| Sending.PreparedRequestRoundTrip | webcc/request.cc:19-41 | the bytes of a prepared request with a string body or none: method, path, query, headers and body arrive under every cut, on the last byte, if the request line is readable, and under no cut otherwise |
| Client.SendText | webcc/client.cc:139-149 | SetBody with the body's own size, Prepare, GetPayload and the payload loop, called in turn, write these bytes |
| Sending.PreparedFormRoundTrip | webcc/request_builder.cc:38-50 | the same for the bytes of a form request with any announced length: under every cut if the request line is readable, its items are sendable and no data has been lost, and under no cut otherwise |
| Client.SendForm | webcc/client.cc:139-149 | SetContentType, GetSize, SetBody, Prepare, GetPayload and the payload loop, called in turn: exactly when this fails, and otherwise what it writes; the body has the announced length if and only if no part that stands at several positions loses its data by being freed in between, and is shorter if one does |
| Client.Receive | webcc/connection.cc:91-132 | Parse, called read after read as OnRead does, reports what `Run` says and leaves its message in the request |
| Client.ExchangeForm | webcc/connection.cc:91-132 | a form sent by the one object and received by the other, under any cut, arrives as it was meant if and only if the request line is readable, the items are sendable and no part loses its data |
| Sending.PlainIsProper | webcc/request.cc:19-41 | a plain request meets the premises of the round trip |
| Sending.JsonIsPlain | webcc/common.cc:115-141 | so does one with a body of another media type |
| Sending.ChunkedHeadIsSound | webcc/parser.cc:276-281 | so does a head that announces a chunked body |
| Sending.ItemIsWellformed | webcc/body.cc:107-146 | and a form with one part |
| FormBodies.FormPart.SetHeaders | webcc/common.cc:304-321 | Content-Disposition and Content-Type from the part's properties |
| FormBodies.FormPart.Prepare | webcc/common.cc:216-248 | the payload grows by the part's bytes, the file is loaded if need be, or the call fails |
| FormBodies.FormPart.GetSize | webcc/common.cc:255-288 | exactly the size of what Prepare adds; an error without data and without file |
| FormBodies.StringBody.WriteAll | webcc/body.cc:54-64 | the payload loop writes the string and takes two calls |
| FormBodies.FormBody.NextPayload | webcc/body.cc:107-152 | one payload: the part before is freed if asked for, at all its positions, then the boundary and the part at the index are written, the end boundary behind the last; nothing else changed; with freeing, no file but the one written last is in memory |
| FormBodies.FormBody.GetSize | webcc/body.cc:82-93 | the declared length equals the bytes of all payloads, except that an empty form declares a length and emits nothing |
| FormBodies.FormBody.WriteAll | webcc/client.cc:139-149 | for all lists of parts, with the same part at several positions or not: n + 1 calls write what is left of the parts when they are due; these are the bytes GetSize declares if and only if no part without a file is freed before it is written again, and fewer otherwise; it fails exactly when a file is needed and cannot be read; with freeing, at most one file is in memory after any call, and nothing stays loaded |
| FormBodies.FormBody.WriteSome | webcc/client.cc:139-149 | the same when the socket takes only so many payloads: what has been written, what becomes of the data, and when a file cannot be read |
| FormBodies.FormBody.WriteTwice | webcc/body.cc:103-152 | a second iteration after one in which any number of payloads was written: it fails exactly when a file cannot be read, and writes the same bytes if and only if nothing was freed that a file does not give back |
| FormBodies.PiecesAreForm | webcc/body.cc:107-146 | the payloads together are the form |
| Workers.OneNullKept | webcc/server.cc:197-246 | every step keeps exactly one null pointer in queue or hands during the shutdown and none at other times |
| Workers.OrderlyKept | webcc/server.cc:197-246 | no worker stops before the null pointer is pushed; joined workers have exited |
| Workers.AttendedKept | webcc/queue.h:21-55 | every step keeps the bound on the queue length while somebody sleeps |
| Workers.SentinelSafety | webcc/server.cc:197-246 | in every reachable state of any number of runs there is one null pointer or none as told, and none is left for the next run |
| Workers.NoLostWakeup | webcc/queue.h:21-55 | in every reachable state with a sleeper and a non-empty queue, a worker has been woken or a notify_one is outstanding, one for each entry |
| Service.SomebodyWorks | webcc/queue.h:21-55 | in every fair run, a running server with something in its queue has it taken by a worker, or is told to stop, with no further push needed |
| Service.EveryEntryLeaves | webcc/server.cc:197-246 | in every fair run, every entry of the queue is taken by a worker or dropped by Clear in the end |
| Service.EveryPushIsServed | webcc/connection.cc:127-131 | so every connection pushed to a server that is up comes to be handled or is dropped |
| Service.FairRunExists | webcc/server.cc:52-246 | there is a fair run, in which a connection is pushed and handled and a stop ends |
| Courses.NobodyForgotten | webcc/connection.cc:91-196 | in every reachable state, an open connection that waits for nothing is about to be closed, unless a handler never came back, and one whose request has been read is in hand or its request was dropped |
| Courses.RequestComesIn | webcc/connection.cc:91-132 | in every fair run, a connection that reads goes on through partial reads until its request is handed over or it is closed |
| Courses.PushIsAnswered | webcc/server.cc:197-215 | in every fair run, a request handed over while the server is up is answered by a worker, or the queue is cleared |
| Courses.ResponseGoesOut | webcc/connection.cc:134-196 | in every fair run, a response is written payload by payload to the end, and then the next request is read or the connection is closed |
| Courses.EveryRequestEnds | webcc/connection.cc:20-196 | so every connection that reads comes to be closed or to read its next request, short of a handler that never comes back and of a server that is stopped |
| Courses.FairCourseExists | webcc/server.cc:52-246 | there is a fair run of the whole server, in which a request in two reads is answered |
| Workers.StopDropsPending | webcc/server.cc:217-229 | without a push in between, what is pending at the stop is dropped and the null pointer is alone in the queue |
| Queues.Queue.TryPop | webcc/queue.h:21-41 | the critical section of PopOrWait and Pop |
| Queues.Queue.Push | webcc/queue.h:49-55 | the critical section of Push |
| Queues.Queue.Clear | webcc/queue.h:43-46 | Clear empties the queue |
| Queues.Server.Run | webcc/server.cc:52-55 | the worker threads are created |
| Queues.Server.Enqueue | webcc/connection.cc:129-131 | handing a connection over is the push of the protocol |
| Queues.Server.WorkerRoutine | webcc/server.cc:197-215 | each step of a worker on the shared objects is the step of the protocol |
| Queues.Server.StopWorkers | webcc/server.cc:177-246 | each step of the stopping thread on the shared objects is the step of the protocol |
| Shutdown.RankStep | webcc/server.cc:197-246 | no step, of anybody, raises the measure; a step of a worker lowers it if and only if nobody holds the null pointer or the worker is its holder or about to exit |
| Shutdown.NoStrictMeasure | webcc/server.cc:197-215 | no measure into the ordinals is lowered by all steps of workers and raised by none of the others |
| Shutdown.EveryStopEnds | webcc/server.cc:177-246 | in every fair run a server told to stop has joined all its workers and stopped in the end, with any number of pushes meanwhile |
| Connections.InHandStep | webcc/connection.cc:127-131 | how pushes, responses and Clear change where a request is |
| Connections.ConnectionExclusivity | webcc/connection.cc:91-188 | in every reachable state a connection is queued or handled at most once, with no read or write outstanding meanwhile, and every push is answered once, dropped once or in hand |
| Connections.CloseSafety | webcc/connection.cc:112-119 | a connection is never closed while a worker handles it if and only if the event loop runs in one thread |
| Connections.ServerUnhindered | webcc/server.cc:197-246 | the connections hold up no step of the workers and the stopping thread |
| Connections.ClearClosesAll | webcc/connection_pool.cc:19-42 | when the pool is cleared no worker is left, and a connection stays open only if a thread that has erased it is about to close it |
| Connections.OpenAfterClear | webcc/connection_pool.cc:19-42 | that does happen, with any number of event loop threads |
| Connections.ServerIsReachable | webcc/server.cc:177-246 | queue and workers of a run with connections are in a state of the worker protocol |
| Percent.Decode | webcc/url.cc:30-64 | the decoding loop with its error cases |
| Percent.EncodeImpl | webcc/url.cc:77-98 | the encoding loop |
| Percent.EncodedConcat | webcc/url.cc:77-98 | encoding distributes over concatenation |
| Percent.PercentRoundTrip | webcc/url.cc:30-98 | decoding inverts an encoder on all byte strings if and only if it encodes '%' and every byte above 127 |
| Percent.DecodedMeaning | webcc/url.cc:18-64 | for every string: it is decoded to exactly the bytes it spells, with the digits in either case, and to nothing if it spells none |
| Percent.UnescapedMeaning | webcc/url.cc:66-74 | a string that spells nothing is taken as it is |
| Percent.EncodedForm | webcc/url.cc:77-98 | an encoded byte is a percent sign and its two digits in upper case |
| Percent.EscapesListed | webcc/url.cc:102-192 | the characters each encoder leaves as they are, listed |
| Percent.EncodedUnchanged | webcc/url.cc:77-98 | encoding changes nothing if and only if there is nothing to encode, and never shortens |
| Percent.EncodersRoundTrip | webcc/url.cc:172-192 | it does for EncodePath, EncodeQuery and EncodeFull, and not for EncodeHost |
| Percent.EncodedClasses | webcc/url.cc:102-192 | encoded paths, queries and URLs hold characters of their class only |
| Queries.UrlQuery.constructor | webcc/url.cc:295-317 | the parameters of an encoded query string, in order |
| Queries.UrlQuery.Add | webcc/url.cc:334-338 | a parameter is appended unless its key is there |
| Queries.UrlQuery.Remove | webcc/url.cc:340-345 | the first parameter with the key is taken out |
| Queries.UrlQuery.ToString | webcc/url.cc:347-362 | the encoded query string of the parameters |
| Queries.AppendQuery | webcc/url.cc:227-237 | one more parameter behind a query |
| Queries.QueryRoundTrip | webcc/url.cc:295-362 | a printed list of parameters is parsed back if and only if no key contains '&' or '=' and no value '&' |
| Queries.PiecesRead | webcc/url.cc:295-317 | for any pieces between '&': the parameters of a query string are those of its pieces, in order |
| Queries.ParameterRead | webcc/url.cc:295-317 | a parameter is what stands around the first '=', each side decoded |
| Queries.NoParameter | webcc/url.cc:295-317 | a piece without '=' is no parameter |
| Queries.PrintedPlain | webcc/url.cc:347-362 | a list of parameters is printed as it stands if and only if its characters may stand in a query; no other character is printed but as its code |
| Queries.AppendedIsPrinted | webcc/url.cc:227-237 | parameters appended one by one, encoded, give the printed list |
| Base64.Encode | webcc/base64.cc:85-117 | exactly the encoding is written to the buffer, and nothing behind it |
| Base64.Decode | webcc/base64.cc:121-160 | exactly the decoding of the characters up to the first foreign one is written, whatever the scratch array held before |
| Base64.AlphabetRuns | webcc/base64.cc:49-52 | the alphabet is that of table 1 of RFC 4648 |
| Base64.InverseMeaning | webcc/base64.cc:55-72 | the inverse table gives the place of a character in the alphabet, if it has one |
| Base64.SameBits | webcc/base64.cc:85-117 | four letters hold the 24 bits of three bytes in their order |
| Base64.SextetsMeaning | webcc/base64.cc:121-145 | decoding reads the letters up to the first other character, each as its place in the alphabet |
| Base64.EncodedLength | webcc/base64.cc:75-77 | the encoding has exactly the size computed beforehand |
| Base64.DecodedBound | webcc/base64.cc:80-83 | when the size computed beforehand is enough for the decoding, for all inputs; always for a multiple of four characters |
| Base64.Base64RoundTrip | webcc/base64.cc:85-160 | decoding gives back every byte string that was encoded |
| Base64.KnownEncodings | webcc/base64.cc:49-117 | encodings of section 10 of RFC 4648 |
| Base64.Base64Encode | webcc/base64.cc:164-169 | the resized string is the encoding |
| Base64.Base64Decode | webcc/base64.cc:176-182 | for all inputs: the decoding if it fits; otherwise how many bytes are written behind the string, which keeps what fits |
| Shortfalls.SizeLineCut | webcc/parser.cc:376-382 | a chunked request with one byte of a size line in the first read throws |
| Shortfalls.HugeSizeThrows | webcc/parser.cc:343-350 | a size line of 2^64 - 1 with data behind it throws |
| Shortfalls.SurplusRead | webcc/parser.cc:308-323 | a read with one byte behind the body puts that byte into the body |
| Shortfalls.NotSendable | webcc/request_parser.cc:264-273 | a form with an end lookalike first, one with empty data, and one with a boundary line in its data are not read back |
| Shortfalls.SamePartTwice | webcc/request_builder.h:137-140 | a form to which the same part has been added twice writes fewer bytes than it declares |
| Shortfalls.SecondForm | webcc/request_parser.cc:15-22 | a second form is never answered, or is given the parts of the first |
| Shortfalls.SecondOfRead | webcc/connection.cc:20-31 | of two requests in one read only the first is answered; in two reads both are |
| Shortfalls.NotAddressable | webcc/url.cc:239-283 | targets that are not parsed back, one for each reason |
| Shortfalls.NotReadBack | webcc/url.cc:295-362 | parameters that are not read back |
| Shortfalls.DoesNotFit | webcc/base64.cc:80-83 | an input for whose decoding no room is made |

## Left out

- Sockets, TLS, resolver, timers and signals: an asynchronous operation is outstanding and then completes with
  success or an error, both at any time.
- The connection's callbacks (webcc/connection.cc) are events on values, because handlers of several threads
  interleave; a handler that does nothing after handing its connection on is one event, and what remains to be done
  after a response, erasing from the pool and closing the socket, are two more.
- A Parse that throws or never returns takes its event loop thread away; that the process ends when a thread other
  than the one in Run throws is not modelled.
- The stopping protocol has one stop per run; a second or concurrent call of DoStop is not modelled.
- Gzip, and bodies streamed to or served from files; the body handler is always the one for strings.
- The regular expressions of the router: the view matcher is an arbitrary predicate on method and path.
- Url and FormPart of a received request are values, because nothing else refers to them while they are built.
- Requests.Request.SetBody: takes the size its body reports as a parameter, because a body is one of three objects
  here and not a base class; Client.SetForm and Client.SendText pass what GetSize of the body returns.
- The contents of files do not change between loading and sending, and can be read completely or not at all: where
  bytes are compared, the data of a file part is none or that of its file (`FormBodies.FormBody.AsLoaded`).
- Clients and handlers that keep a connection waiting for ever: they are left out of the fair runs of `courses.dfy`, as
  are requests in infinitely many reads and responses in infinitely many payloads.
- The requests of one connection all ask to keep it alive (`Reuse.Conversation`); one that does not is the last.
- Url::Parse on a Url that has been used before, AppendPath, and the setters of Url.
- to_size_t: unsigned long has 64 bits; on platforms where it has 32 the limit is lower.
- Arithmetic on lengths of strings that exist in memory does not overflow; that of chunk sizes does and is modelled.
- char is signed, as the test of the inverse Base64 alphabet against -1 presumes.
- Trailers and whatever else follows the last chunk: the parser stops at its size line.
- Part headers other than Content-Disposition: the parser does not look at them, so the media type of a part is
  printed but not received.
- Response status lines, logging, dumps, the builders' setters and the examples would only add easy members.
- ClientPool: the ordering of its keys is not asymmetric, so nothing can be claimed of its map.

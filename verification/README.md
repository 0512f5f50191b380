# Models of swoole and its tools, with proofs

This project models the parts of the swoole extension, its proxy example and its test runner that keep
state between calls, cut byte streams into messages, or share memory between processes, and proves what
they keep over every input and every run. One module follows one component:

- `MysqlWire`, `MysqlField`, `MysqlRow`, `MysqlParser`, `MysqlChunks`, `MysqlFeed`, `MysqlBuffer`,
  `MysqlClient`, `MysqlResult`: the MySQL client. `MysqlParser` is the resumable parser on values, `MysqlChunks` the
  behaviour over a whole stream cut into pieces, `MysqlFeed` the receiving loop that merges deliveries into
  such pieces and makes its buffer grow, `MysqlBuffer` and `MysqlClient` the decoder that compacts strings
  inside its own receive buffer and the client object around it, proved against the models on values.
  `MysqlResult` says what a caller gets in terms of what the server sent.
- `EofFraming`: `recv` in delimiter mode, against a splitter of the whole stream.
- `Cookies`, `Chunked`, `HttpResponse`: the Cookie header between client and server, chunked bodies, and
  the life of a response object.
- `QueryPool`: the connection pool of the MySQL proxy example.
- `Diff`: the diff of the test runner.
- `Heap`, `Timers`: the binary heap and the timers on it, with callbacks that add and clear timers.
- `AsyncFiles`: asynchronous file reads and writes.
- `Table`: rows of the shared-memory table under the row lock.
- `TaskCounter`, `Paging`: statistics and connection listings of the server.
- `Session`: the session codec.
- `Bytes`, `Options`: little-endian integers, slices, an option type.

Stateful components are a datatype of states with step functions, an invariant and a theorem over all runs,
and beside it a class whose methods work as the source does and are proved to make exactly those steps.
Interleaved processes (`Table`, `TaskCounter`) are state machines over their atomic steps. The environment
(sockets, clocks, callbacks, I/O threads, floating point, compression) enters as arbitrary events or
parameters. Loops are loops, in-place work is on arrays.

Where a property one would expect is false of the code, the code is modelled as it is, a lemma gives the
input, and the property is proved exactly under the condition it needs:

- A delivery that ends right behind the column count, or fewer than four bytes into a column packet, makes
  the MySQL client read past its data or report success early (`ChunkIndependence`, `CountAloneSucceeds`).
- A three-byte length-encoded integer at the very end of the data is not accepted (`LcbRoundTrip`).
- With a column count of zero a complete packet can be taken for a row that is the EOF packet when seen with
  the bytes behind it; without columns resuming is right exactly if that does not happen, with columns it is
  always right (`ZeroColumnsNotResumable`, `Resume`).
- A receive buffer that moves when it grows leaves decoded column names behind in the old block; a name is read
  for every cell that is NULL or of a type with a case. The client gets its result exactly if, whenever the
  buffer moves, no row to come has such a cell in a column that is complete (`MovedBufferLosesNames`,
  `ClientYields`).
- A call without a new byte reports success at the end of any packet: at the start without a reply, behind the
  columns without the rows. Elsewhere it changes nothing (`IdleCallSucceeds`, `RepeatedCall`, `ClientYields`).
- A closing or failing connection drops the packages that were still buffered, which are some exactly if the
  buffer held a delimiter before the call (`SecondPackageLost`, `DropLoses`, `EofFraming.Client.Receive`).
- The residue behind a package is moved through a temporary of 65536 bytes; it fits in every run exactly if
  the maximum package length is at most that and one delimiter (`LongResidueOverruns`, `ResidueFitsIff`).
- A printed cookie list that ends in an empty value loses that cookie (`CookieRoundTrip`).
- A file of 2^31 bytes or more has no or a wrong length; an OPTIONS reply announces length zero, whatever its
  body; gzip with sendfile announces a length that belongs to other data. Which call commits the response
  tells when a finished response is well framed (`LargeFileUnframed`, `OptionsWithBody`, `StaleLength`,
  `FinishedIsWellFramed`).
- More than one header block goes out exactly if the first call that sends a header is a sendfile that loses
  its file, and a later call sends a header (`SecondHeader`, `SecondHeaderIff`). Data given to `end` after a
  `write` is not sent (`WritesArrive`).
- A timer added in a callback and due before the running one is popped in its place, exactly if the running
  one is a one-shot or a tick cleared in that callback, and a tick that was cleared may then be called again
  (`AddedEarlierIsLost`, `EndKeepsIff`, `ClearedTickRunsAgain`). With a clock that does not run backwards it
  does not happen (`ForwardIsTimely`, `RunKeeps`, `ClearedNeverRuns`).
- The proxy's handler fails when an idle connection becomes readable, as when the server closes it; it fails in
  no other case (`IdleSocketFails`, `QueryPool.RunKeeps`).
- Appends behind a first write with an explicit offset start at zero, and an append that the I/O threads do
  not take leaves a gap (`FirstWriteSetsBase`, `TiledWrite`).
- Table columns that begin beyond the reach of the 16-bit index share bytes (`LayoutApart`).
- The count of waiting tasks may be read as 2^32 - 1 while nothing waits (`WrapsInBetween`).
- The connection iterator leaves out connections in a TLS handshake that the pages list
  (`IteratorVersusPages`).
- A session name that decoding passes over loses its entry (`SessionRoundTrip`).

## Model

| member | source | states |
|---|---|---|
| MysqlWire.ReadLcb | swoole/swoole_mysql.c:240-286 | a decoded length-encoded integer uses at least one byte, none beyond the data, and fits 64 bits |
| MysqlWire.LcbRoundTrip | swoole/swoole_mysql.c:240-286 | reading a written integer in front of any bytes gives it back, if and only if a three-byte integer is not the last thing in the data |
| MysqlWire.LcbStable | swoole/swoole_mysql.c:240-286 | an integer that was decoded stays the same when more bytes arrive behind it |
| MysqlWire.ReadSpan | swoole/swoole_mysql.c:335-350 | a length-encoded string that is accepted lies behind its length and inside the packet; the error code tells a bad length from one that reaches beyond the packet |
| MysqlWire.SpanRoundTrip | swoole/swoole_mysql.c:240-294 | a string written anywhere in a packet is found where its bytes are |
| MysqlField.SpansRoundTrip | swoole/swoole_mysql.c:333-441 | the strings of a column packet, read one behind the other, are the strings written |
| MysqlField.FieldRoundTrip | swoole/swoole_mysql.c:323-502 | decoding the packet of any column definition, default value included, gives that definition |
| MysqlRow.CellsRoundTrip | swoole/swoole_mysql.c:504-648 | cells written in order, NULL among them, are split and entered one by one as the decoder enters single cells; what a row then holds is stated by `RowsShown` |
| MysqlRow.RowRoundTrip | swoole/swoole_mysql.c:504-648 | the same for the packet of any row under 2^24 bytes |
| MysqlRow.EncodedReadsName | swoole/swoole_mysql.c:540-645 | decoding the packet of any row reads one of the first column names, if and only if one of those cells is NULL or of a type with a case |
| MysqlRow.NoNameNoCell | swoole/swoole_mysql.c:540-645 | whatever the packet, a row whose decoding reads no name is empty |
| MysqlRow.RowIsNotEof | swoole/swoole_mysql.c:743-752 | no row packet under 2^24 bytes begins with the EOF marker, so the test for the end of rows cannot misfire |
| MysqlParser.ShortEofIsNoRow | swoole/swoole_mysql.c:743-781 | a packet that could be a cut-off EOF packet never decodes as a row |
| MysqlParser.ColumnsResume | swoole/swoole_mysql.c:675-726 | for any bytes: column reading that asked for more, continued with the rest, ends as one call on everything; finished reading is not disturbed by what follows |
| MysqlParser.RowsResume | swoole/swoole_mysql.c:728-781 | for any bytes: row reading that asked for more, continued with the rest, ends as one call on everything, if and only if it is not the case that without columns a packet was taken for a row that is the EOF packet when seen with the rest; in that case it has rows too many |
| MysqlParser.Resume | swoole/swoole_mysql.c:802-921 | the same for the whole response, from any state and for any bytes, the condition being on the column count and the bytes |
| MysqlParser.ResumeWithColumns | swoole/swoole_mysql.c:802-921 | with at least one column a call that asked for more can always be resumed |
| MysqlParser.RepeatedCall | swoole/swoole_mysql.c:802-921 | whatever the bytes, a call that asked for more, made again without more, changes nothing, and reports success if and only if nothing is unread |
| MysqlChunks.RunIsOneCall | swoole/swoole_mysql.c:1183-1201 | for every byte stream and every way to cut it: if the parser waits at each cut, the deliveries end as one call on the whole stream does |
| MysqlChunks.ColumnsSeen | swoole/swoole_mysql.c:675-726 | what column reading makes of every prefix of well-formed columns: all of them; a wait or a read past the data, which one when, and the exact parser then: the columns that are complete, and unread what is behind them |
| MysqlChunks.RowsSeen | swoole/swoole_mysql.c:728-781 | what row reading makes of every prefix of well-formed rows: it waits until the last byte of the EOF packet, with exactly the rows that are complete and what is behind them unread, and then has all rows |
| MysqlChunks.HeadSeen | swoole/swoole_mysql.c:815-891 | every proper prefix of the count packet waits; the packet gives the count |
| MysqlChunks.ResponseSeen | swoole/swoole_mysql.c:802-921 | the outcome of one call on every prefix of a well-formed response, and where it waits the exact parser: the complete columns and rows, and unread what is behind the last complete packet |
| MysqlChunks.RunStops | swoole/swoole_mysql.c:1183-1201 | a run that has ended does not look at later deliveries |
| MysqlChunks.ChunkIndependence | swoole/swoole_mysql.c:802-921 | for every result set and every cutting of its bytes, the deliveries yield exactly its columns and rows and end on its last byte, if and only if no delivery ends right before or inside a column packet's header |
| MysqlChunks.StopsAtBadCut | swoole/swoole_mysql.c:675-726 | at the first such delivery the run reads past its data or reports success without any column |
| MysqlChunks.CountAloneSucceeds | swoole/swoole_mysql.c:878-921 | a first delivery of just a one-byte count is reported as success without columns and rows |
| MysqlChunks.ZeroColumnsNotResumable | swoole/swoole_mysql.c:728-781 | from the start: a count packet that says NULL, an EOF packet and five bytes make a row that the same bytes with four more behind them do not make |
| MysqlChunks.ReplyChunkIndependence | swoole/swoole_mysql.c:815-877 | OK, error and EOF packets, well-formed or not, give the same for every cutting as in one piece; what they give is stated by `ReplyRead` |
| MysqlFeed.FeedIsRun | swoole/swoole_mysql.c:1116-1201 | for all deliveries and buffer sizes: unless a stale name is read, the receiving loop, which skips the parse when a delivery fills the buffer and parses on would-block, ends as the run over the merged pieces |
| MysqlFeed.StaleAddsEmptyRows | swoole/swoole_mysql.c:504-648 | behind the columns, a client that has left them all behind adds only empty rows, whatever it is sent, or reads a stale name |
| MysqlFeed.NameRead | swoole/swoole_mysql.c:728-781 | the call on the next bytes of a well-formed response reads one of the first names, if and only if a row that it completes has a cell there that is NULL or of a type with a case |
| MysqlFeed.HarmIsDone | swoole/src/core/string.c:130-142 | over all deliveries: a stale name is read only if some move of the buffer leaves a complete column behind that a row to come has a cell for to enter, and if all calls end well such a move always leads to it |
| MysqlFeed.ClientYields | swoole/swoole_mysql.c:1116-1201 | for every result set, buffer size and sequence of deliveries with would-blocks in between: the client ends with exactly its columns and rows, if and only if no call ends right before or inside a column packet's header, no call without a new byte comes at the end of a packet before the last, and whenever the buffer moves, no row to come has a cell that is NULL or of a type with a case in a column that is complete |
| MysqlFeed.MovedBufferLosesNames | swoole/src/core/string.c:130-142 | any result set, its columns in a first delivery and its rows in a second that fills the buffer, which moves: no call ends badly, and the client reads a stale name if and only if some cell is NULL or of a type with a case; otherwise it has exactly its result |
| MysqlFeed.IdleCall | swoole/swoole_mysql.c:1126-1134 | a would-block without a new byte, at any place where a well-formed response makes the parser wait: it reads no name and changes nothing, and reports success if and only if a packet ends there |
| MysqlFeed.IdleCallSucceeds | swoole/swoole_mysql.c:1126-1134 | for every result set: a would-block at the start is reported as success without a reply, and one behind the columns as success without the rows that come later |
| MysqlBuffer.MoveDown | swoole/swoole_mysql.c:345-350 | a string is moved down and terminated; only its new place changes |
| MysqlBuffer.TakeString | swoole/swoole_mysql.c:335-350 | one string is read as on values; its new place ends below what is still unread, holds the string, and nothing else changes |
| MysqlBuffer.SameBelow | swoole/swoole_mysql.c:323-502 | a string that was moved is not disturbed by work behind it |
| MysqlBuffer.TakeStrings | swoole/swoole_mysql.c:333-441 | after all six strings each one holds its original slice; they lie in order and apart, below the read position; nothing outside the packet changes |
| MysqlBuffer.DecodeInPlace | swoole/swoole_mysql.c:323-502 | the in-place decoder gives exactly the column that decoding on values gives, with the same errors, uses no more than the packet, and changes nothing outside it |
| MysqlClient.CString | swoole/swoole_mysql.c:504-648 | a column name ends at its first NUL |
| MysqlClient.Client.TakeColumn | swoole/swoole_mysql.c:688-706 | a complete column packet decoded in place is one step of the parser on values, with the same errors |
| MysqlClient.Client.NextColumn | swoole/swoole_mysql.c:681-706 | one round decodes the next column in place and leaves the parser on values where one step leads it; earlier columns keep their values |
| MysqlClient.Client.ReadColumnsEof | swoole/swoole_mysql.c:708-725 | the EOF packet behind the columns, as on values |
| MysqlClient.Client.ReadColumns | swoole/swoole_mysql.c:675-726 | the loop makes the steps of the parser on values; the offset and the columns only grow |
| MysqlClient.Client.DecodeRow | swoole/swoole_mysql.c:504-648 | the row loop over the buffer gives the row decoded on values, unless it reads the name of a column that was left behind, and when it does |
| MysqlClient.Client.AddCell | swoole/swoole_mysql.c:540-645 | a cell is entered as on values; its column's name is read only if it is entered, and is stale exactly if the column was left behind |
| MysqlClient.Client.AddRow | swoole/swoole_mysql.c:754-778 | a complete row packet is one step of the parser on values, or reads a stale name, and which one when |
| MysqlClient.Client.NextRow | swoole/swoole_mysql.c:735-778 | one round of the row loop is one step of the parser on values, or reads a stale name, and which one when |
| MysqlClient.Client.ReadRows | swoole/swoole_mysql.c:728-781 | the loop ends as the parser on values does, or at a stale name, exactly if a row it comes to enters a cell for a column left behind; rows are only appended |
| MysqlClient.Client.ReadOk | swoole/swoole_mysql.c:854-877 | the OK packet branch on the buffer is that of the parser on values, whose content `ReplyRead` states |
| MysqlClient.Client.ReadHead | swoole/swoole_mysql.c:815-891 | the start of a response, as on values |
| MysqlClient.Client.ResponseColumns | swoole/swoole_mysql.c:893-913 | columns and then rows in one call, as on values; nothing decoded is dropped |
| MysqlClient.Client.Response | swoole/swoole_mysql.c:802-921 | mysql_response on the client object is the parser on values, and reads a stale name exactly if a row it comes to enters a cell for a column left behind; the offset never goes back |
| MysqlClient.Client.Extend | swoole/src/core/string.c:130-142 | growing keeps everything received and unread; if the block moves, all columns decoded so far are left behind, and otherwise none more |
| MysqlClient.Client.Receive | swoole/swoole_mysql.c:1183-1201 | a delivery is stored and parsed as the model says; one that fills the buffer makes it grow, and move or not, and waits |
| MysqlClient.Client.WouldBlock | swoole/swoole_mysql.c:1133-1134 | when nothing more can be read, what has been received is parsed, as the model says |
| MysqlClient.Client.OnRead | swoole/swoole_mysql.c:1116-1201 | the loop over any deliveries and would-blocks ends as the feeding model does, so as the run over the merged pieces |
| MysqlResult.RowsShown | swoole/swoole_mysql.c:540-645 | every row of every well-formed result set holds, under each column's name cut at its first NUL, that column's cell, for exactly the columns whose cell is NULL or whose type is one of the listed codes, the last one counting where names are equal; it has no other key |
| MysqlResult.ClientShows | swoole/swoole_mysql.c:1116-1201 | the client ends with rows that hold this, for all deliveries and buffer sizes under the exact condition of `ClientYields` |
| MysqlResult.ReplyRead | swoole/swoole_mysql.c:815-877 | one call on an OK packet gives the affected rows, insert id, status and warnings that were sent, for all of them below 2^64 and 2^16 and whatever text follows; on an error packet the code, state and message; on an EOF packet warnings and status |
| MysqlResult.ReplyShown | swoole/swoole_mysql.c:802-921 | the same for every way to cut the packet into deliveries |
| EofFraming.StrnPos | swoole/include/swoole.h:1026-1041 | in data no shorter than the delimiter, as the caller ensures: the first place where the delimiter stands, or that there is none |
| EofFraming.SplitHead | swoole/swoole_client.c:1199-1215 | a stream that begins with a segment is cut into that segment and the cuts of the rest |
| EofFraming.SplitStream | swoole/swoole_client.c:1159-1242 | returned packages followed by the cuts of the residue are the cuts of the whole stream |
| EofFraming.DropLoses | swoole/swoole_client.c:1180-1190 | a failure or close loses exactly the packages of the stream that were not returned, and none if and only if no delimiter is buffered |
| EofFraming.SecondPackageLost | swoole/swoole_client.c:1187-1190 | two packages in one delivery, one call and a close: the second is lost, for every delimiter and maximum |
| EofFraming.ResidueFitsIff | swoole/swoole_client.c:1208-1209 | over every run of arrivals and drops the residue fits the 65536-byte temporary, if and only if the maximum length is at most 65536 and one delimiter |
| EofFraming.LongResidueOverruns | swoole/swoole_client.c:1208-1209 | for every greater maximum, a run from the start in which it does not fit |
| EofFraming.Client.Refines | swoole/swoole_client.c:1159-1242 | in every reachable state the packages returned since the last reset are the first cuts of all bytes received since then, and the residue holds the others |
| EofFraming.Client.Cut | swoole/swoole_client.c:1199-1216 | a package is handed out and the residue moved down in place, through the temporary that it has to fit |
| EofFraming.Client.Drop | swoole/swoole_client.c:1180-1190 | emptying the buffer loses exactly the cuts of what it held |
| EofFraming.Client.Grow | swoole/swoole_client.c:1225-1240 | the buffer doubles up to the maximum and keeps its content |
| EofFraming.Client.Examine | swoole/swoole_client.c:1194-1241 | a package comes back exactly if the buffer holds a delimiter and the residue fits the temporary; an overrun exactly if it does not; the "no package eof" branch only with a full buffer; afterwards there is room in a buffer within the maximum |
| EofFraming.Client.Round | swoole/swoole_client.c:1169-1242 | one recv: every received byte is kept or handed out, unless the buffer is emptied; then the packages it held are counted as lost; there is always room to receive, and which outcome comes when |
| EofFraming.Client.Receive | swoole/swoole_client.c:1159-1242 | one call, for any socket behaviour: bytes received are accounted for; data without a delimiter within the maximum always ends in the "no package eof" branch; a close ends the call; a close or failure loses exactly the cuts of what was buffered and arrived, none if and only if no delimiter was buffered before; an overrun only with a residue over 65536 bytes, never within the proved maximum |
| Cookies.UrlRoundTrip | swoole/swoole_http_client.c:706-712 | decoding an encoded value gives it back, and encoding makes no separator |
| Cookies.UrlAlphabet | swoole/swoole_http_client.c:706-712 | encoding prints letters, digits and the characters of "-._+%" only |
| Cookies.UrlEscapes | swoole/swoole_http_server.c:504-551 | a percent sign with two hexadecimal digits is read as their byte, and stands for itself otherwise |
| Cookies.PrintCookies | swoole/swoole_http_client.c:691-721 | the printing loop gives the printed list |
| Cookies.ParseCookie | swoole/swoole_http_server.c:504-551 | the character loop is the recursive scanner |
| Cookies.ScanPrinted | swoole/swoole_http_server.c:504-551 | scanning a printed list collects its cookies, but for a last one with an empty value |
| Cookies.ScannedKeys | swoole/swoole_http_server.c:504-551 | whatever the header, every key is free of '=' and fits its buffer |
| Cookies.CookieRoundTrip | swoole/swoole_http_server.c:581-597 | a cookie array arrives as it was sent, numeric keys aside, if and only if its names are free of '=' and under 127 bytes, the header is under 4096 bytes and does not end in an empty value |
| Chunked.Dec2Hex | swoole/src/core/base.c:279-297 | the digit loop gives the hexadecimal digits |
| Chunked.ReadHexOfHex | swoole/src/core/base.c:279-297 | reading printed digits in front of anything gives the number |
| Chunked.DecodeChunk | swoole/swoole_http_server.c:1774-1802 | a decoder of section 4.1 of RFC 7230 takes the piece off a chunk and goes on behind it |
| Chunked.DecodeChunks | swoole/swoole_http_server.c:1774-1802 | chunks of non-empty pieces and the last chunk decode to the pieces |
| HttpResponse.NeverAborts | swoole/swoole_http_server.c:1825-1827 | over every run of calls with any send failures the header flag equals the chunk flag between calls, and the assertion never fires |
| HttpResponse.SilentOnceFreed | swoole/swoole_http_server.c:1809-1823 | once a call has freed the context, no later calls send or change anything |
| HttpResponse.FailedSendKeepsLive | swoole/swoole_http_server.c:1728-2232 | in every state a run reaches, a call whose send fails leaves the response live, takes nothing off the wire and accepts nothing; a failing end sends nothing |
| HttpResponse.RetriedEnd | swoole/swoole_http_server.c:2049-2154 | an end that fails any number of times and is then repeated with success finishes the response with the wire it would have had at once |
| HttpResponse.ShapedRun | swoole/swoole_http_server.c:1728-2232 | while sends succeed, the wire is at every moment nothing, a chunked header with the chunks so far, or one finished response |
| HttpResponse.FinishedIsWellFramed | swoole/swoole_http_server.c:1825-2000 | every finished response whose sends succeeded has one header block with one framing field and a body that is what the field says and carries what was accepted, if and only if the first call that commits it is, for OPTIONS, an end without data, and otherwise not a sendfile of 2^31 bytes or more nor one behind gzip with another length in the compression buffer |
| HttpResponse.WritesArrive | swoole/swoole_http_server.c:1728-2154 | any writes and an end, plain or compressed: the wire decodes to the non-empty pieces written, in order; what is given to end arrives exactly if there were no writes |
| HttpResponse.OneFramingField | swoole/swoole_http_server.c:1825-2000 | when exactly a header block has one framing field, for all combinations of user fields, method, chunking and announced length, negative ones included |
| HttpResponse.UserFields | swoole/swoole_http_server.c:1825-2000 | a length set by the user goes out alone, an encoding set by the user beside the computed length |
| HttpResponse.SecondHeader | swoole/swoole_http_server.c:2205-2220 | a file send that fails behind its header lets the next end send a second header block |
| HttpResponse.SecondHeaderIff | swoole/swoole_http_server.c:1728-2232 | over every run with any send failures: more than one header block goes out, if and only if the first call that sends a header is a sendfile that then loses its file, and a later call sends a header |
| HttpResponse.HeadsCounted | swoole/swoole_http_server.c:1728-2232 | over every run with any send failures: the number of header blocks, from the calls alone |
| HttpResponse.StaleLength | swoole/swoole_http_server.c:1956-1966 | gzip and then sendfile is well framed if and only if the file is under 2^31 bytes and an older compression happens to have its length |
| HttpResponse.LargeFileUnframed | swoole/swoole_http_server.c:2205-2220 | every file of 2^31 bytes or more goes out whole and not well framed, without any framing field up to 2^32 bytes |
| HttpResponse.OptionsWithBody | swoole/swoole_http_server.c:1951-1955 | an OPTIONS reply with a write says length zero and chunked at once, for every non-empty piece |
| HttpResponse.Response.BuildHeader | swoole/swoole_http_server.c:1825-2000 | the header and its flag, the assertion being a precondition every caller meets |
| HttpResponse.Response.StartChunks | swoole/swoole_http_server.c:1742-1753 | the header of a chunked body goes out once, and the flag is taken back when that fails |
| HttpResponse.Response.Write | swoole/swoole_http_server.c:1728-1807 | write makes the step of the model, and when it succeeds |
| HttpResponse.Response.End | swoole/swoole_http_server.c:2049-2154 | end makes the step of the model, and when it succeeds |
| HttpResponse.Response.Sendfile | swoole/swoole_http_server.c:2156-2232 | sendfile, with the file size cut to a signed 32-bit length, makes the step of the model, and exactly when it succeeds |
| HttpResponse.Response.EnableGzip | swoole/swoole_http_server.c:2518-2551 | gzip is switched on only before the header |
| QueryPool.ReceiveKeeps | swoole/examples/mysql_proxy_server.php:78-96 | a request never fails the handler and keeps the invariant: idle and busy sockets are apart and total the pool, a waiting request means no idle socket, the queue stays within its maximum |
| QueryPool.ReleaseKeeps | swoole/examples/mysql_proxy_server.php:47-64 | a reply keeps the sockets apart and every answer with its request |
| QueryPool.ReadyKeeps | swoole/examples/mysql_proxy_server.php:47-76 | the handler of a readable socket fails if and only if no query is outstanding on it; otherwise the drain loop never shifts from an empty queue or pool, and the invariant is kept |
| QueryPool.RunKeeps | swoole/examples/mysql_proxy_server.php:30-122 | over all runs, no handler fails if and only if sockets only become readable while a query is outstanding on them; the invariant holds in every state reached |
| QueryPool.IdleSocketFails | swoole/examples/mysql_proxy_server.php:47-51 | in every reachable state, an idle connection that becomes readable makes the handler fail |
| QueryPool.AnsweredOnceToItsClient | swoole/examples/mysql_proxy_server.php:30-122 | requests are dispatched in the order of acceptance, each is answered at most once and to the client recorded with it, and none gets lost |
| QueryPool.AcceptsInOrder | swoole/examples/mysql_proxy_server.php:78-96 | over all runs, from the events alone: the accepted requests are in order the client and query of exactly the arrivals that find fewer requests under way than the connections and one hundred more; every other arrival's client is refused |
| QueryPool.AnswersReachClients | swoole/examples/mysql_proxy_server.php:47-122 | over all runs from a pool without requests: every answer goes to the client whose arrival it answers, with that arrival's query, and no arrival is answered twice |
| QueryPool.DBServer.constructor | swoole/examples/mysql_proxy_server.php:30-45 | the pool after connecting meets the invariant with one idle connection for each socket |
| QueryPool.DBServer.DoQuery | swoole/examples/mysql_proxy_server.php:98-122 | a query takes the last idle connection, which is then busy with that request for its client |
| QueryPool.DBServer.OnReceive | swoole/examples/mysql_proxy_server.php:78-96 | dispatch, queue or refuse, as the model: refused exactly if no connection is idle and one hundred requests wait, otherwise accepted with its client and query |
| QueryPool.DBServer.OnSQLReady | swoole/examples/mysql_proxy_server.php:47-76 | answer, release and drain, as the model, with both array accesses in range, exactly if a query is outstanding; otherwise it fails and has changed nothing |
| Diff.CountDiff | swoole/run-tests.php:2149-2189 | the recursive lookahead with its halving budget ends and gives its recursive definition |
| Diff.ScoreWithinLcs | swoole/run-tests.php:2149-2189 | the score never exceeds the longest common subsequence of the remainders, nor the shorter of them |
| Diff.LcsBound | swoole/run-tests.php:2149-2189 | a longest common subsequence is no longer than either remainder |
| Diff.Partition | swoole/run-tests.php:2199-2221 | of any such script: kept lines pair up in order under the comparison, every line of the first text is kept or deleted and of the second kept or inserted, never both |
| Diff.Walk | swoole/run-tests.php:2191-2221 | the walk ends at the end of a text, its two lists are the deletions and insertions of a script, and the script is the one its lookahead chooses |
| Diff.RemovedChoices | swoole/run-tests.php:2149-2221 | where the second text is the first without a run of up to six lines that do not match the line in their place, or of any number at the end, the walk keeps everything else and deletes that run |
| Diff.AddedChoices | swoole/run-tests.php:2149-2221 | the mirrored statement for an inserted run of up to ten lines, or of any number at the end |
| Diff.ChangedChoices | swoole/run-tests.php:2149-2221 | where one line is replaced, the old one not matching the line behind it, the walk inserts and deletes that line only, and which goes first |
| Diff.Merge | swoole/run-tests.php:2223-2245 | the merge emits every entry of both lists once, each list in its order; runs of neighbouring lines stay together and go by where they start, inserted lines first where both start alike |
| Diff.GenerateDiff | swoole/run-tests.php:2191-2256 | the diff describes a correct edit script from all of the first text to all of the second, and is empty exactly if the texts match line by line; a run of removed lines, a run of inserted lines or one replaced line gives exactly the entries of that edit, for one removed or inserted line exactly one |
| Diff.OnlyKeeps | swoole/run-tests.php:2191-2256 | a script without deletions and insertions pairs every line with its counterpart |
| Heap.RootIsLeast | swoole/src/core/heap.c:200-212 | in a heap in order the root is least |
| Heap.SwapUp | swoole/src/core/heap.c:86-101 | exchanging a node with its greater parent moves the only disorder up |
| Heap.SwapDown | swoole/src/core/heap.c:103-118 | exchanging a node with its least child moves the only disorder down |
| Heap.MinHeap.BubbleUp | swoole/src/core/heap.c:86-101 | bubbling up restores order in place, keeps the nodes and their recorded positions, and the root unless it is beaten |
| Heap.MinHeap.LeastChild | swoole/src/core/heap.c:69-84 | the lesser child, or zero |
| Heap.MinHeap.PercolateDown | swoole/src/core/heap.c:103-118 | sinking restores order in place and keeps the nodes and positions |
| Heap.MinHeap.HasIffElement | swoole/src/core/heap.c:120-148 | exactly the nodes held are found at their recorded positions |
| Heap.MinHeap.Push | swoole/src/core/heap.c:120-148 | one node more; the root stays unless the new node is less |
| Heap.MinHeap.ChangePriority | swoole/src/core/heap.c:150-165 | one node's priority changes and nothing else |
| Heap.MinHeap.Remove | swoole/src/core/heap.c:167-181 | that node leaves; the root stays unless it is the one |
| Heap.MinHeap.Pop | swoole/src/core/heap.c:183-198 | the root leaves and is returned |
| Heap.MinHeap.TopIsLeast | swoole/src/core/heap.c:200-212 | in every reachable heap the root is a least node |
| Timers.AddKeeps | swoole/swoole_timer.c:45-123 | adding, also from inside a callback and whatever the clock, keeps the invariant: the map holds exactly the undeleted timers, every callback record is freed once, a one-shot runs at most once |
| Timers.ClearKeeps | swoole/swoole_timer.c:322-359 | clearing any timer, also the one in its callback, keeps the invariant |
| Timers.BeginKeeps | swoole/src/network/Timer.c:154-164 | calling a due timer keeps the invariant |
| Timers.EndKeeps | swoole/src/network/Timer.c:162-191 | what follows a callback, which may have cleared its own timer, keeps the invariant while that timer is the root or stays on the heap |
| Timers.EndKeepsIff | swoole/src/network/Timer.c:162-191 | it keeps the invariant if and only if the timer is the root or a tick that was not cleared; otherwise another timer is popped in its place and it stays on the heap with its record freed |
| Timers.NotOvertaken | swoole/swoole_timer.c:45-123 | while no timer is added that is due before the running one, the running one stays the root through every step, and its callback ends with it there |
| Timers.RunKeeps | swoole/swoole_timer.c:45-233 | the invariant holds after every run of adds, clears and callbacks in which no callback adds a timer due before its own |
| Timers.ForwardIsTimely | swoole/swoole_timer.c:45-123 | so after every run in which timers are added at times not before the last callback began |
| Timers.TickPutOff | swoole/src/network/Timer.c:162-191 | a tick that was not cleared is due next one interval after it was; one interval after the end of its callback if that is later than this; one interval after the start of the round if the clock is not positive; no other timer changes |
| Timers.TicksOnTime | swoole/src/network/Timer.c:154-191 | over all runs: a tick that is not cleared, whose callbacks each end at a positive time no later than its next due time, is put off by exactly one interval for each of them, whatever else is added, cleared and called |
| Timers.AddedDue | swoole/swoole_timer.c:45-123 | over all runs from the moment it is added: such a tick is due for the k-th time at its add time plus k intervals, and a one-shot at its add time plus the time asked for |
| Timers.RunKeepsIff | swoole/swoole_timer.c:45-233 | over all runs: the invariant holds all along, if and only if every callback ends with its timer at the root, or a tick that was not cleared |
| Timers.ClearClears | swoole/swoole_timer.c:322-359 | a successful clear marks or deletes the timer of that id |
| Timers.ClearedNeverRuns | swoole/swoole_timer.c:322-359 | a timer cleared from outside is never called again, whatever follows; one cleared in its own callback is not either, if that callback adds no timer due before it |
| Timers.ClearedTickRunsAgain | swoole/src/network/Timer.c:184-191 | a run from the start in which a tick clears itself, adds a timer due before it, and is called again |
| Timers.AddedEarlierIsLost | swoole/src/network/Timer.c:184-191 | a timer added in a callback overtakes the running one exactly if it is due before it, and costs it its place exactly if that is a one-shot or a tick cleared in this callback |
| Timers.Scheduler.AddTimer | swoole/swoole_timer.c:45-123 | adding on the map and the heap, at any time, makes the model's step, keeps the scheduler valid and returns the new id, or -1 for a time that is not positive or over 86400000 |
| Timers.Scheduler.DelTimer | swoole/swoole_timer.c:125-147 | deleting makes the model's step |
| Timers.Scheduler.ClearTimer | swoole/swoole_timer.c:322-359 | clearing makes the model's step and succeeds exactly for a mapped id |
| Timers.Scheduler.FireBegin | swoole/src/network/Timer.c:154-164 | a callback begins exactly if the root is due |
| Timers.Scheduler.FireEnd | swoole/src/network/Timer.c:162-191 | after the callback the root is popped or put off as the model says, a tick to its next due time; the scheduler stays valid if and only if the timer is still the root or stays on the heap |
| AsyncFiles.CompleteKeeps | swoole/swoole_async.c:142-325 | a completion keeps the invariant: each request under one id, freed at most once, none lost but the ones never taken; reads have handed over the file from their start to where they stand |
| AsyncFiles.RunKeeps | swoole/swoole_async.c:142-509 | the invariant holds after every run, so a read that has seen the end has handed over the whole suffix, whatever the short reads |
| AsyncFiles.FirstWriteSetsBase | swoole/swoole_async.c:439-468 | the write that opens a file, for the first time or again, decides where the appends of this opening begin: at the old size if and only if it is an append or the file is empty |
| AsyncFiles.TiledWrite | swoole/swoole_async.c:439-508 | a write keeps the appends of an opening without gap and overlap, if and only if it is not an append that is not taken |
| AsyncFiles.AppendsTile | swoole/swoole_async.c:413-509 | over every run, the appends of an opening tile the file from their base, however they mix with other operations |
| AsyncFiles.WriteKeeps | swoole/swoole_async.c:413-509 | after a write: a taken one is under its id as a write with the name and length asked for and goes to its place, the appends still tile unless one was not taken, no other request or handle has changed, and the invariant holds |
| AsyncFiles.ReadKeeps | swoole/swoole_async.c:327-411 | after a read: refused outside the file, otherwise under its id as a read with the name and length asked for and all of the file from its offset ahead of it, nothing else changed, and the invariant holds |
| AsyncFiles.CompletionKeeps | swoole/swoole_async.c:142-325 | after a completion: what has been handed over and what remains are together what was asked for; the request goes on under the next id or is freed once, with nothing remaining at the end of the file; nothing else changes, and the invariant holds |
| AsyncFiles.Files.AsyncWrite | swoole/swoole_async.c:413-509 | on the two tables, for any reachable object: a taken write goes to its place, the appends of the file stay without gap and overlap unless this one is not taken, the opening write sets their base; the object stays valid |
| AsyncFiles.Files.AsyncRead | swoole/swoole_async.c:327-411 | succeeds exactly for an offset inside the file and a taken job; the request then has the whole suffix of the file to hand over; the object stays valid |
| AsyncFiles.Files.OnComplete | swoole/swoole_async.c:142-325 | a read hands over the next bytes of its file, so that handed over and remaining together stay what was asked for, and is freed only at the end or when the callback stops it; the object stays valid |
| Table.LayoutApart | swoole/src/memory/Table.c:109-160 | no two columns of a table share a byte, if and only if every column begins below 2^16 |
| Table.DefinedLayout | swoole/src/memory/Table.c:109-160 | the columns of any table, defined one after the other, lie apart and inside rows of the reached size, if and only if every column begins below 2^16 |
| Table.TextRoundTrip | swoole/include/table.h:139-170 | get returns the text that set stored, cut to the room of the column |
| Table.DefinedText | swoole/src/memory/Table.c:109-160 | a text column defined for a number of bytes gives back exactly the texts of up to that many |
| Table.SignedRange | swoole/swoole_table.c:141-161 | the cast of get gives the one number of the column's signed range that is congruent to the stored one |
| Table.AddedMeans | swoole/swoole_table.c:355-370 | adding 64 bits wide and storing the column's bytes adds modulo the column's width, and the number returned is congruent to the one stored |
| Table.ExclusiveNext | swoole/swoole_table.c:246-467 | one process at a time is between lock and release, and what it fetched stays true until it stores |
| Table.NextKeeps | swoole/swoole_table.c:246-467 | every step of every interleaving keeps each integer column equal to what the log of operations says, and each result explained by it |
| Table.RunKeeps | swoole/swoole_table.c:246-467 | so after every interleaving of set, incr, decr and get |
| Table.CountersAdd | swoole/swoole_table.c:302-444 | after any interleaving of incr and decr, get reads a number in the column's range congruent to the number it would have read before plus all that was added, and exactly that where it fits |
| Table.Releases | swoole/swoole_table.c:246-467 | on every path of every call the lock is held until one step releases it, after a bounded number of the caller's own steps |
| Table.SetAllReads | swoole/swoole_table.c:246-300 | after set every integer column given holds its value modulo its width and the others what they held |
| Table.SetAllGives | swoole/swoole_table.c:246-300 | after set a float column that was given a value holds its eight bytes, and get reads from a text column the text given, cut to its room |
| Table.SetSteps | swoole/swoole_table.c:246-300 | a process that sets values does to the row, step by step, what set does at once, and keeps the lock |
| Table.FloatStep | swoole/swoole_table.c:340-354 | a process that adds to a float column stores the sum there and changes no other column |
| Table.Row.SetValues | swoole/swoole_table.c:246-300 | set on the bytes in place, with one release of the lock on either path |
| Table.Row.AddWhole | swoole/swoole_table.c:355-370 | the integer branch: that column changes by the amount modulo its width, no other changes |
| Table.Row.Incr | swoole/swoole_table.c:302-372 | every branch of incr: what is answered, what changes, and one release of the lock |
| Table.Row.Decr | swoole/swoole_table.c:374-444 | the same for decr |
| Table.Row.GetWhole | swoole/swoole_table.c:446-467 | get on an integer column answers in its range and congruent to the bytes, with one release of the lock |
| TaskCounter.NextBalances | swoole/swoole_server.c:688-697 | each atomic step keeps the counter plus pending additions equal, modulo 2^32, to waiting tasks plus pending subtractions |
| TaskCounter.RunBalances | swoole/swoole_server.c:2332-2334 | so in every interleaving of dispatching and taking processes |
| TaskCounter.CountsWaiting | swoole/swoole_server.c:2234-2237 | the counter is the number of waiting tasks exactly when as many additions as subtractions are pending, so whenever all is quiet |
| TaskCounter.WrapsInBetween | swoole/include/atomic.h:13-17 | an interleaving in which it reads 2^32 - 1 while nothing waits |
| Paging.OpenKeepsLinked | swoole/src/network/Server.c:1349-1375 | a new connection with a vacant session slot keeps every connection reachable through its session |
| Paging.CloseKeepsLinked | swoole/src/network/ReactorThread.c:339-342 | and so does closing one |
| Paging.ListedIsAll | swoole/swoole_server.c:2676-2697 | the reference list has every active unclosed descriptor of its range once, increasing |
| Paging.Scan | swoole/swoole_server.c:2672-2697 | the loop gives the first ids of the reference list, as many as asked for |
| Paging.ConnectionList | swoole/swoole_server.c:2622-2698 | false exactly for too large a page, an unknown id or a start at the end; otherwise the page |
| Paging.FollowFrom | swoole/swoole_server.c:2622-2698 | following the pages from any connection lists those behind it, up to the sum of the page sizes |
| Paging.FollowListsAll | swoole/swoole_server.c:2622-2698 | following the pages from zero lists every active unclosed connection above the least descriptor once, in increasing order, whatever the page sizes |
| Paging.NothingBehindLast | swoole/swoole_server.c:2667-2697 | behind the last connection comes false or an empty page |
| Paging.ConnectionIterator.HasCurrent | swoole/swoole_server.c:2928-2954 | the iterator moves to the first shown connection from where it is, and what remains is the rest |
| Paging.ConnectionIterator.Visit | swoole/swoole_server.c:2922-2964 | a loop over the iterator visits the shown connections from the least descriptor on, once and in order |
| Paging.IteratorVersusPages | swoole/swoole_server.c:2913-2964 | behind the least descriptor the iterator visits what the pages list, if and only if none of those is in a TLS handshake |
| Session.Encode | swoole/swoole.c:992-1036 | the loop writes the string-keyed entries, and fails exactly if one of their names has a delimiter or marker |
| Session.Decode | swoole/swoole.c:1039-1106 | the two nested loops are the recursive decoder, for every input |
| Session.ReadsEntry | swoole/swoole.c:1061-1102 | at the text of an entry the decoder reads that entry and stands behind it |
| Session.NeverSkipped | swoole/swoole.c:1078-1082 | whatever the input, no decoded entry has a name that is passed over |
| Session.SkipsMarked | swoole/swoole.c:1061-1102 | whatever the input, a name behind the marker is passed over without a value, and decoding goes on behind its delimiter |
| Session.PutReplaces | swoole/swoole.c:1084-1087 | a name that comes again takes its value to where it first stood, and leaves the other entries |
| Session.SessionRoundTrip | swoole/swoole.c:992-1106 | decoding what was encoded gives the entries in order, if and only if none of their names is passed over |
| Session.ArrayRoundTrip | swoole/swoole.c:992-1106 | for an array: it comes back without its numeric keys |

## Left out

- Socket, TLS, zlib, nghttp2, HTTP request parsing, multipart uploads, HTTP/2 and WebSocket frames: foreign
  code, or easy members beside the above. Compression is any function with non-empty results.
- PHP reference counts, parameter parsing, class registration and the calls of user callbacks: a callback is
  an arbitrary step of the environment.
- redis, aerospike, lock, atomic, event, process, buffer and port classes, and the settings code.
- MySQL reads past the received data and wrapped lengths: the model says when they happen and does not say
  what happens afterwards; the same for a column packet that turns out malformed when half compacted.
- MySQL: what is read through a stale column name; receive errors and closes inside `onRead`; trace output.
- What follows once a residue has overrun the temporary of `recv`.
- PHP strings of 2^31 bytes or more and compressions that come out that long.
- MySQL rows are maps, so the order of a row's keys is not modelled; nor are numeric conversions of cells.
- HTTP header fields other than the framing ones, pipelining on one connection, failures of zlib.
- Diff.GenerateDiff: which of several correct scripts is taken is stated for a run of up to six removed or ten
  inserted lines, or of any number at the end of the text, and for one replaced line; the lookahead sees no
  further. For other edits the script is the one of the walk, and correct.
- The reconnect attempt of the proxy when a query fails to start.
- MysqlClient.Client.TakeColumn: after a malformed or wrapping packet the state is not described.
- MysqlClient.Client.NextColumn: after a malformed or wrapping packet the state is not described.
- MysqlClient.Client.ReadColumns: the EOF test the code makes on a malformed packet, half compacted by then, is
  not described.
- MysqlClient.Client.ResponseColumns: after a malformed or wrapping packet the state is not described.
- MysqlClient.Client.Response: after a malformed or wrapping packet the state is not described.
- MysqlClient.Client.Receive: after a malformed or wrapping packet the state is not described.
- MysqlClient.Client.WouldBlock: after a malformed or wrapping packet the state is not described.
- MysqlClient.Client.OnRead: after a malformed or wrapping packet the state is not described.
- Cookies.CookieRoundTrip: the header line is taken as it was printed; what the parser of request headers does
  with leading blanks or line breaks in a name is not modelled.
- Failing allocations.
- Reading and writing whole files (`readfile`, `writefile`), which make a single request each.
- Asynchronous I/O job ids that wrap around at 16 bits while jobs are pending.
- Finding and allocating table rows by key (hash chains, deletion, iteration): a call finds a row or not.
- Table float columns are eight bytes whose sums are given; their arithmetic is not modelled.
- The loop that looks for a vacant session slot: a connection is opened with the slot it found.
- Connection tables that change between two pages.
- Session values with references shared between entries; the branch of encode for a key without a value,
  which a PHP array does not have.

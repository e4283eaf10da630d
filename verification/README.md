# Verified model of a Reactor web server

The server accepts HTTP/1.1 requests on non-blocking sockets, parses them incrementally in
place, answers login, registration, upload and file requests through a pool of workers, and
disconnects idle clients with a heap of timers. This project models its stateful parts and
proves what they are for. `dafny verify dfyconfig.toml` checks all of it.

## How the model is laid out

| files | what they model |
|---|---|
| `Basics.dfy`, `CString.dfy` | an option type and distinctness; the C library string functions, on byte buffers with explicit NULs |
| `RequestHead.dfy`, `HttpConn.dfy` | the parser: as functions on its state, and as a class that mutates one buffer, three cursors and its fields; every method of the class is proved equal to the function |
| `HeadCuts.dfy`, `HeadMeaning.dfy`, `RequestGrammar.dfy`, `HeaderForms.dfy`, `LineScanner.dfy`, `Requests.dfy`, `SplitBodies.dfy`, `Answers.dfy` | what the parser promises: independence from how reads are cut, a reference reader, a grammar of request line and header lines, invariants of the scanner, whole requests with and without a body |
| `Multipart.dfy` | the file extractor and its round trip |
| `DoRequest.dfy` | `do_request` up to the file look-up: URL rewrites, form reader, login and registration |
| `Response.dfy`, `Sending.dfy`, `Replies.dfy` | the response builder over its 1024-byte buffer, the send loop of `write`, and what a client reads from the bytes on the wire |
| `Connections.dfy` | one connection object: parser, `do_request` and response in place, as `process` and the event loop run them |
| `WrittenRequests.dfy`, `Files.dfy`, `Service.dfy`, `Conversation.dfy` | requests as a client writes them; files, registration, login and upload from the bytes of the request to the bytes of the answer, as functions and on a connection object |
| `HeapOrder.dfy`, `TimerHeap.dfy`, `Deadlines.dfy` | the timer heap over arrays and pointers, and the map from clients to deadlines it refines |
| `ThreadPool.dfy`, `BlockQueue.dfy`, `SqlConnPool.dfy`, `Registration.dfy`, `Reactor.dfy` | the concurrent parts as interleaved atomic steps |

Some results are that the code does not do what one would expect of it; each has the exact
condition under which it does.

- Body bytes that come before the last read meet the line scanner, which steps over them. The
  parser takes the right bytes for the body exactly if its reads are complete before the scanner
  moves, or at the very next read after it moved over no whole line (`SplitBodies.RightBody`).
  If nothing follows the request, that is: exactly if what came of the body before the last read
  is empty or begins with a lone CR or LF, and otherwise there is no answer
  (`SplitBodies.OneRequest`). If bytes follow, a later read can complete the body after all, in
  its place (`SplitBodies.NextReadAnswers`) or not: then `do_request` is given bytes from the
  middle of the body (`SplitBodies.MiddleGiven`).
- A form is read back only when the key of the password has eight bytes (`DoRequest.FormRoundTrip`).
- A new name registers only if it and its password have at most 150 bytes together: the INSERT
  statement is printed into 200 (`DoRequest.RegisteredLogsIn`).
- An upload is answered only to a visitor with the login cookie (`DoRequest.UploadAnswered`).
- `write` counts down from the length of the write buffer plus the size of the last file looked
  up on the object, which no later request resets. Even if no `writev` is short, an API answer is
  therefore read by the client exactly if no file size is left there, and otherwise, for sizes
  below two gigabytes, sent more than once (`Replies.ApiAnswered`, `Conversation.LogIn`).
- So is the 404 for a missing file, and the 403 for a file that exists but may not be read, whose
  own size `stat` has left there (`Replies.TextSent`, `Conversation.Fetch`).
- After a short `writev` the iovecs are not advanced. A file that the first `writev` takes whole
  is received with its right length exactly if it is not empty and below two gigabytes
  (`Replies.FileReply`); a short first write of the head and part of the file breaks the response
  wherever the next byte differs from its first one (`Replies.ShortWrite`), for instance right
  behind the head (`Replies.HeadTwice`).
- A tick keeps connections apart only when all it disconnects are idle in epoll, and a connection
  closed by a worker leaves its timer behind (`Reactor.TickKeepsApart`, `Reactor.WorkerCloseShares`);
  when it is due, it disconnects whoever has the number by then (`TimerHeap.ReuseStruck`).
- Registration blocks for ever exactly when no connection could be opened (`Registration.NoDeadlock`,
  `Registration.StuckWithoutConnections`).

Where code and documents disagree the model follows the code:

- The design document expects `BAD_REQUEST` or a 500 page for a malformed upload (TC-UP-02).
  `process_read` drops the result of `parse_content` unless it is `GET_REQUEST`
  (`src/http_conn.cpp:372-374`), so the client gets no answer: `Answers.UploadDispatched`.
- The design document expects a large file to be received whole (TC-GET-05); the code
  begins again with the first byte after a short `writev`: `Replies.ShortWrite`, `Replies.HeadTwice`.
- The design document's example body `user=abc&passwd=123` (TC-AUTH-01) does not fit the code, which
  skips ten bytes after the name: `DoRequest.DocumentedForm`.
- The repository's README describes the timers as an ascending linked list; the code is a heap.

Conventions. Bytes are `char`s, a buffer is a `string` of the bytes received, and a pointer
into it an offset. `RequestHead.Code.Undefined` marks what C++ leaves undefined: a boundary of
100 bytes or more, a write before the buffer, an overflowing cursor sum; `DoRequest.Decision.Wild` does so for
`do_request`: a field or statement that overruns its buffer, a copy into a literal. `GET_REQUEST` is called
`Dispatch`, because `process_read` then calls `do_request`. Whether a file can be opened, whether
an INSERT succeeds, the time, what the network delivers, how much each `writev` takes and how threads
interleave are parameters, so every theorem holds for all of them. A step of a concurrent model is a critical
section, a notification or a semaphore operation; a run is any sequence of steps, and a step
that is not enabled does not happen.

## Model

| member | source | states |
|---|---|---|
| HttpConnection.HttpConn.InitParseState | src/http_conn.cpp:88-116 | resets the read buffer, the cursors and every field the parser uses to the fresh state, for the next request of a connection |
| HttpConnection.HttpConn.ReadOnce | src/http_conn.cpp:131-143 | succeeds exactly if the socket drains to EAGAIN with at least one byte of the buffer to spare, and then appends exactly the pending bytes, however `recv` splits them |
| HttpConnection.HttpConn.ParseLine | src/http_conn.cpp:145-167 | the in-place loop takes the state and the status where the scanner function takes them |
| HttpConnection.HttpConn.ParseRequestLine | src/http_conn.cpp:169-195 | the in-place parse leaves buffer and fields exactly as the specification does, on success and on each refusal |
| HttpConnection.HttpConn.ParseHeaders | src/http_conn.cpp:197-250 | one header line changes exactly the field it names |
| HttpConnection.HttpConn.ParseContentType | src/http_conn.cpp:232-248 | multipart flag and boundary of a Content-Type line, and when the copy would overrun |
| HttpConnection.HttpConn.ParseContent | src/http_conn.cpp:252-267 | body completeness, the terminating NUL, and the choice between form and upload |
| HttpConnection.HttpConn.ParseMultipart | src/http_conn.cpp:270-352 | the upload path over the real buffer yields the part, the file and the code of the specification |
| HttpConnection.HttpConn.FindEnd | src/http_conn.cpp:311-327 | the end of the file data in the buffer, or none |
| HttpConnection.HttpConn.ProcessRead | src/http_conn.cpp:354-380 | the driver loop on the mutable buffer equals the run function, for any buffered bytes |
| RequestHead.LineEndsInside | src/http_conn.cpp:152-160 | after a completed scan the C string of the line ends before the cursor |
| LineScanner.LinesEndAtCrLf | src/http_conn.cpp:145-167 | a line is only ever completed at a CRLF still wholly ahead of the cursor, so the branch at 158-161 is dead |
| LineScanner.HandleKeeps | src/http_conn.cpp:354-380 | no parsing step puts a CR just behind the cursor |
| LineScanner.EveryRun | src/http_conn.cpp:145-167 | that invariant holds over every run, whatever bytes arrive in whatever reads |
| LineScanner.BadStays | src/http_conn.cpp:156-163 | a bad line end stays bad whatever bytes follow |
| LineScanner.BadLineStalls | src/http_conn.cpp:354-380 | after a bad line end every `process_read` answers NO_REQUEST and changes nothing |
| HeadCuts.ScanExtend | src/http_conn.cpp:145-167 | the scanner on more bytes resumes exactly where it stopped on fewer |
| HeadCuts.RequestLineExtend | src/http_conn.cpp:169-195 | parsing the request line does not depend on the bytes behind the line |
| HeadCuts.HeaderLineExtend | src/http_conn.cpp:197-250 | nor does parsing a header line |
| HeadCuts.Resume | src/http_conn.cpp:354-380 | run, receive, run again is the same as receive, run, as long as the body is not entered |
| HeadCuts.CutInvariance | src/http_conn.cpp:354-380 | any cutting of a head into reads gives the outcome, fields, cursors and buffer of one whole read |
| HeadMeaning.ScanSim | src/http_conn.cpp:145-167 | the scanner ends lines exactly at the CRLFs of the raw input, and leaves bytes past the cursor alone |
| HeadMeaning.AcceptedUrl | src/http_conn.cpp:189-192 | the URL of an accepted line is its path, "/" completed, and no byte outside the line changes |
| HeadMeaning.LineSim | src/http_conn.cpp:354-371 | one parsed line agrees with the reference reader of raw lines in outcome, fields and pointers |
| HeadMeaning.HeadSim | src/http_conn.cpp:354-380 | the whole head does: same stop, same reason, same request, unchanged bytes from the cursor on |
| RequestGrammar.FormAccepted | src/http_conn.cpp:169-195 | every line of the request-line form is accepted, with its method, target and path |
| RequestGrammar.PathFromIs | src/http_conn.cpp:185-189 | the path of an absolute http target is what follows its host, of any other target the whole |
| RequestGrammar.AcceptsExactly | src/http_conn.cpp:169-195 | a line is accepted if and only if it is method, blanks, target with a path, one blank, version |
| HeaderForms.KeepAliveExactly | src/http_conn.cpp:205-211 | a line asks to keep the connection if and only if it is "Connection:" in any case, blanks, and "keep-alive" in any case; a Connection line with another value states nothing |
| HeaderForms.LengthExactly | src/http_conn.cpp:212-216 | a line states a length if and only if it is "Content-Length:" in any case, and the length is its value behind the blanks as `atol` reads it into an int |
| HeaderForms.NumberRead | src/http_conn.cpp:215 | `atol` skips white space, reads a sign and the digits of any number, and stops at the first other byte; beyond 64 bits it saturates |
| HeaderForms.HostExactly | src/http_conn.cpp:217-221 | a line states a host if and only if it is "Host:" in any case, blanks, and that host |
| HeaderForms.LoginExactly | src/http_conn.cpp:222-231 | a line brings the login cookie if and only if it is "Cookie:" in any case and "is_login=true" occurs in its value |
| HeaderForms.MultipartExactly | src/http_conn.cpp:232-248 | a line announces an upload if and only if it is "Content-Type:" and its value begins with "multipart/form-data", both in any case |
| HeaderForms.BoundaryExactly | src/http_conn.cpp:242-246 | and it states as boundary all that follows the first "boundary=" of the value |
| HeaderForms.OthersIgnored | src/http_conn.cpp:249 | every other line states nothing |
| HeaderForms.MarksShort | src/http_conn.cpp:245 | the reading of a head breaks off at a boundary of 100 bytes or more, and only there |
| HeaderForms.HeadStates | src/http_conn.cpp:197-250 | a finished head has the fields that the forms of its lines state, in any order, the last length, host and boundary counting, and a body follows if and only if the length is not 0 |
| Requests.AnyCuts | src/http_conn.cpp:354-380 | cut invariance stated on the raw bytes: it holds whenever no earlier read already holds a whole head with a body behind it |
| Answers.HeadOnly | src/http_conn.cpp:354-380 | outcome and all fields of a request without body, for every cutting, read from the raw bytes |
| Requests.BodyStalls | src/http_conn.cpp:358-377 | while the bytes behind the cursor cannot complete the body, the loop scans to its end and waits for the same body |
| SplitBodies.HeadExtends | src/http_conn.cpp:354-371 | a head that is over stays the same whatever follows, and ends within any input that holds it |
| SplitBodies.EarlyRead | src/http_conn.cpp:252-266 | a read that leaves the body incomplete moves line start and cursor behind the whole lines and to the next CR or LF, and leaves all bytes from the line start on as received |
| SplitBodies.NeverComplete | src/http_conn.cpp:354-380 | if no read brings enough bytes behind the cursor, no read is answered |
| SplitBodies.Completes | src/http_conn.cpp:354-380 | otherwise the parser comes to the read that does, in the state in which the line start is where the body is taken to begin |
| SplitBodies.FormRun | src/http_conn.cpp:252-267 | a form in any reads, whatever follows: `do_request` is called exactly if the body is found, with those bytes at `m_string` |
| SplitBodies.UploadRun | src/http_conn.cpp:252-352 | an upload in any reads is stored if the bytes taken for its body hold a part that can be opened; and swallowed if they hold none and nothing follows |
| SplitBodies.EveryCut | src/http_conn.cpp:354-380 | every cutting of a connection's bytes, whatever follows the request: from the end of the head on, the parser answers as one that has just read the head and gets the rest in those pieces |
| SplitBodies.RightBody | src/http_conn.cpp:145-267 | the body is found in its place if and only if its reads are complete before the scanner moves, or at the very next read after it moved over no whole line |
| SplitBodies.NothingFollows | src/http_conn.cpp:145-267 | if nothing follows the body, it is found, and then in its place, if and only if what came of it before the last read is empty or begins with a lone CR or LF |
| SplitBodies.NextReadAnswers | src/http_conn.cpp:145-267 | a form whose first piece has no CR or LF is dispatched, with the right bytes, by a second read of at least its length |
| SplitBodies.MiddleGiven | src/http_conn.cpp:145-267 | with one more such piece between them, `do_request` is given bytes from the middle of the body |
| SplitBodies.OneRequest | src/http_conn.cpp:354-380 | `NothingFollows` for whole requests cut anywhere in head or body |
| Answers.FormAnswered | src/http_conn.cpp:252-267 | from raw bytes: a form reaches `do_request` if and only if the body is found, with the bytes from there at `m_string` and the fields of its head |
| Answers.UploadStored | src/http_conn.cpp:270-352 | a printed upload found in its place is stored with exactly its file name, up to 99 bytes, and every data byte |
| Answers.UploadDispatched | src/http_conn.cpp:371-379 | from raw bytes: an upload reaches `do_request` if the bytes found hold a part whose file can be opened; all others are swallowed, those found without such a part if nothing follows |
| Answers.UploadExactly | src/http_conn.cpp:270-379 | an upload with nothing behind it is stored if and only if its early bytes are kept and it has the form of a part, with a file that can be opened |
| Multipart.SearchEnd | src/http_conn.cpp:317-327 | the delimiter loop returns the first delimiter wholly inside the data and fails only if there is none |
| Multipart.ProbeIsOccurrence | src/http_conn.cpp:318-325 | its reads past the data cannot match, because of the NUL written at 255 |
| Multipart.HeaderRoundTrip | src/http_conn.cpp:280-305 | name and data offset of a printed part header are found again |
| Multipart.DataRoundTrip | src/http_conn.cpp:317-329 | no delimiter straddles the end of the data, so the first one is at its end |
| Multipart.RoundTrip | src/http_conn.cpp:270-329 | a printed part is read back: its file name up to 99 bytes and exactly its data, NULs included |
| Multipart.HeaderExactly | src/http_conn.cpp:280-305 | the header of a part is found if and only if, in this order, the first line end, the first `filename="` behind it, a closing quote and the first blank line are there |
| Multipart.PartExactly | src/http_conn.cpp:280-329 | a part is found if and only if its header has that form and a delimiter lies wholly inside the rest; the first one ends its data |
| Multipart.FileExactly | src/http_conn.cpp:280-329 | the same for a whole body: its file name, cut to 99 bytes, and its data |
| Multipart.NoFilename | src/http_conn.cpp:285-286 | a body without `filename="` behind its first line end holds no part |
| DoRequest.IndexFits | src/http_conn.cpp:191 | completing "/" writes no byte at or past the cursor; the last one is the line's second NUL if the line has no other |
| DoRequest.UrlInFirstLine | src/http_conn.cpp:170-193 | the URL stays in the first line of the input, with eleven bytes behind it, through all header lines |
| DoRequest.NeverLoneSlash | src/http_conn.cpp:482 | the later rewrite of "/" is never reached by a parsed URL |
| DoRequest.RedirectFits | src/http_conn.cpp:392-395 | the redirect of a visitor without login stays inside the request line and touches no header byte |
| DoRequest.ReadForm | src/http_conn.cpp:407-423 | the two loops read name and password by position, for a body anywhere in the buffer, and overrun exactly if a field does not fit or a byte outside the buffer is looked at |
| DoRequest.FormRoundTrip | src/http_conn.cpp:414-423 | a printed form is read back if and only if both fields fit and the password's key has eight bytes, or fewer and the password is empty |
| DoRequest.DocumentedForm | docs/design.md:335 | the documented example body yields the password "3" |
| DoRequest.FormMeans | src/http_conn.cpp:414-423 | name and password of any form, by position: complete, cut off anywhere, or too long |
| DoRequest.StatementLength | src/http_conn.cpp:434-435 | the printed statement is 49 bytes longer than name and password together |
| DoRequest.RegisteredLogsIn | src/http_conn.cpp:425-471 | a new name registers by form and then logs in if and only if each field fits and both together have at most 150 bytes; then no other password does, and nobody else's entry changes |
| DoRequest.NotRegistered | src/http_conn.cpp:447-454 | a taken name keeps its password and is told so, whatever the INSERT would have given; a failed INSERT changes nothing |
| DoRequest.UploadAnswered | src/http_conn.cpp:347-395 | a stored upload is answered, with the welcome page, if and only if the login cookie came with it; without the cookie the redirect writes to a literal |
| DoRequest.FormArrives | src/http_conn.cpp:354-423 | from raw bytes in any reads, with anything behind them, to name and password: a printed form reaches `do_request` if and only if its body is found, and is read back if that is its place |
| DoRequest.FormOnTime | src/http_conn.cpp:354-380 | if nothing follows it, a form is found, and in its place, if and only if no read but the last brings any of it |
| Response.MediaByExtension | src/http_conn.cpp:595-610 | the media type depends only on what follows the last dot, and not on its case |
| Response.MediaTypes | src/http_conn.cpp:586-610 | the media type of every suffix, and of a path without one |
| Response.RoomIs | src/http_conn.cpp:546-553 | a text is kept whole if with it the buffer holds at most 1022 bytes, otherwise not at all |
| Response.HttpConn.InitParseState | src/http_conn.cpp:94-120 | empties the write buffer and clears the fields of the last response, except for the size of its file |
| Response.HttpConn.MapFile | src/http_conn.cpp:489-497 | a file that can be opened leaves its size and its bytes |
| Response.HttpConn.AddResponse | src/http_conn.cpp:544-558 | appends all of the text if it fits with a byte to spare, otherwise nothing |
| Response.HttpConn.AddHeaders | src/http_conn.cpp:568-583 | the header lines in order, the cookie only if asked for and then no more, the blank line last |
| Response.HttpConn.AddPage | src/http_conn.cpp:636-656 | head and page in the buffer, with the length of the page, and whether it fitted |
| Response.HttpConn.ProcessWrite | src/http_conn.cpp:617-690 | result, buffer, iovecs and cookie request for every code are those the lemmas of Replies are about; an empty file and an unknown code fail |
| Sending.WholeEnds | src/http_conn.cpp:529-532 | the loop ends if and only if its complete writes have used up the count |
| Sending.WholeSession | src/http_conn.cpp:518-540 | if every `writev` takes all there is, whole copies of the response are sent: one, if and only if the total is no more than its length |
| Sending.FirstWrite | src/http_conn.cpp:518-540 | a response that the first `writev` takes whole is sent once; after a short one the next byte on the wire is again the first of the response |
| Response.HttpConn.SendLoop | src/http_conn.cpp:518-540 | the loop puts on the wire what the iovecs hold from their first byte on, for each `writev` as much as it takes, until the count is used up |
| Response.HttpConn.Write | src/http_conn.cpp:507-542 | result, bytes on the wire, event armed, mapping and reset of one call of `write`, whose total is the write buffer plus whatever file size the object holds |
| Replies.LinesRead | src/http_conn.cpp:568-583 | a client that splits at CRLF reads back whatever header lines and body were sent |
| Replies.IntRead | src/http_conn.cpp:584-586 | `atol` reads back every 32-bit number that `%d` printed |
| Replies.HeadRead | src/http_conn.cpp:565-615 | the head of every 200 response fits the buffer and is read back line by line, with one blank line |
| Replies.ReplyLines | src/http_conn.cpp:560-615 | the lines of a 200 response, word for word |
| Replies.StatusOnly | src/http_conn.cpp:617-632 | the responses for 500, 404 and 403, word for word; all other codes fail |
| Replies.TextSent | src/http_conn.cpp:507-542 | a response without a file is sent just once if and only if no file size is left on the object |
| Replies.ApiTexts | src/http_conn.cpp:442-468 | the five answers of the API, word for word |
| Replies.ApiLines | src/http_conn.cpp:636-650 | an API answer line by line: length, JSON type, connection, and the cookie if it was set |
| Replies.JsonReply | src/http_conn.cpp:636-650 | an API answer is built; if no `writev` is short the client reads its text with the right length, and the cookie if and only if asked for, if and only if the total is not 0 and no more than the answer |
| Replies.OnceIs | src/http_conn.cpp:510 | that is, for sizes below two gigabytes, if and only if no file size is left on the object |
| Replies.ApiAnswered | src/http_conn.cpp:425-542 | the client of a login or registration reads the answer if and only if the file size left on the object is 0 |
| Replies.FileReply | src/http_conn.cpp:507-682 | an empty file fails; any other that the first `writev` takes whole is read with its right length if and only if it is below two gigabytes |
| Replies.FileWire | src/http_conn.cpp:507-682 | the lines that the client of a file reads, word for word, if the first `writev` takes all |
| Replies.ShortWrite | src/http_conn.cpp:518-540 | a first `writev` that stops in the file, before a byte other than 'H', breaks the response, whatever later ones take |
| Replies.HeadTwice | src/http_conn.cpp:518-540 | such a run: the socket takes just the head, and then the head is sent twice |
| Connections.InsideFeed | src/http_conn.cpp:169-267 | over all reads of a request, URL and body pointers stay inside the bytes received, the body with its whole length |
| Connections.FeedStops | src/http_conn.cpp:692-702 | reads behind the one that completes a request change nothing but the bytes received |
| Files.FileServed | src/http_conn.cpp:382-498 | from raw bytes in any reads: a path that is not the API is looked up, the two pages behind the login only with the cookie, otherwise the error page; a file is to be sent, a missing or unreadable one gets 404 or 403, a directory or an empty file closes |
| Files.Refused | src/http_conn.cpp:354-404 | a malformed head, or a call of the API without a body, closes the connection and changes no user |
| Files.BodyIgnored | src/http_conn.cpp:402 | a body posted elsewhere than to the API does not change which file is looked up |
| Files.WelcomeShown | src/http_conn.cpp:347-395 | after an upload a visitor with the login cookie is shown the welcome page |
| Files.NeverInternal | src/http_conn.cpp:372-379 | `process_read` never answers INTERNAL_ERROR |
| Connections.Connection.RedirectUrl | src/http_conn.cpp:392-395 | the in-place redirect is that of the specification, and refuses exactly the copies that leave the buffer |
| Connections.Connection.TakeForm | src/http_conn.cpp:404-423 | the form read from the real buffer is that of the body |
| Connections.Connection.DoRequest | src/http_conn.cpp:382-498 | code, user table, buffer and response fields are those of `Requested`, which the results on `Decide` are about |
| Connections.Connection.Process | src/http_conn.cpp:692-702 | from parser state to event armed: what `process` leaves in both halves of the object, and that an incomplete request leaves the response untouched |
| Connections.Connection.Take | src/server_epoll.cpp:159-174 | the event loop's reads of one request lead to what `process` makes of the specification's run over those reads |
| Connections.Connection.Write | src/http_conn.cpp:507-542 | when a response is complete and the connection kept, parser and response begin anew; otherwise neither does |
| Connections.Connection.Respond | src/server_epoll.cpp:176-186 | the calls of `write` put on the wire the session that the results of Replies are about |
| WrittenRequests.PostRead | src/http_conn.cpp:354-376 | a POST written with any proper header lines is read as one: method, path, what the lines state, and the body as the rest |
| WrittenRequests.GetRead | src/http_conn.cpp:354-371 | a GET written with any proper header lines is read as one, with no body; the path "/" as "/index.html" |
| WrittenRequests.FoldSays | src/http_conn.cpp:205-231 | it asks to keep the connection, and brings the login cookie, if and only if some line does |
| WrittenRequests.UploadFields | src/http_conn.cpp:197-250 | the header lines of a written upload state its boundary, length and login cookie |
| Service.PostDecided | src/http_conn.cpp:382-474 | from raw bytes in any reads, whatever follows, to the login or registration that the bytes found as its form ask for, and none if none are found |
| Service.InPlace | src/http_conn.cpp:382-474 | a form found in its place asks for exactly its name and password, if both fit |
| Service.LoginServed | src/http_conn.cpp:354-690 | login from raw request to the bytes on the wire: a form found in its place is answered if and only if it fits; if no `writev` is short, the answer to a success or to a failure is read, with the cookie if and only if name and password match, if and only if no file size is left on the object |
| Service.RegisterThenLogin | src/http_conn.cpp:354-690 | two raw requests, for any name and outcome of the INSERT: when the registration is answered, which of the three answers its client reads, what it changes, and that afterwards the password the name then has and no other gets the cookie |
| Service.ClientLogin | src/http_conn.cpp:354-690 | from the written login, cut in any way, to the response read: when there is one, and the cookie if and only if name and password match |
| Service.ClientUpload | src/http_conn.cpp:354-395 | from the written upload, cut in any way: stored with name and data if and only if no read but the last brings any of its body, and then answered if and only if the cookie came with it |
| Conversation.AllRead | src/http_conn.cpp:252-267 | a form with nothing behind it is not complete before its last read |
| Conversation.LogIn | src/http_conn.cpp:354-702 | a written login on a connection object, from `read_once` to the last `write`: what is armed, what is on the wire, and when the client reads the answer |
| Conversation.Fetch | src/http_conn.cpp:354-702 | a written GET on a connection object, from `read_once` to the last `write`: what is armed, which lines and file the client reads, and that the connection is kept if and only if some line asks for it |
| HeapOrder.SwapUp | src/lst_timer.h:83-91 | moving the parent into the hole leaves one possible fault, one level up |
| HeapOrder.SwapDown | src/lst_timer.h:168-184 | moving the earlier child up leaves one possible fault, one level down |
| HeapOrder.RootFirst | src/lst_timer.h:201-205 | nothing in the heap expires before its root |
| TimerHeap.OwnedOnce | src/lst_timer.h:61-68 | entries are distinct timers, none of them freed, and nothing was freed twice |
| TimerHeap.TimeHeap.FewCopies | src/lst_timer.h:225-241 | over any run all resizes together copy fewer than two slots per timer added |
| TimerHeap.TimeHeap.Resize | src/lst_timer.h:225-241 | doubles the capacity, keeps every entry in place |
| TimerHeap.TimeHeap.SiftUp | src/lst_timer.h:83-91 | restores heap order, permutes the entries, in at most log2 of the size moves |
| TimerHeap.TimeHeap.AddTimer | src/lst_timer.h:71-92 | order kept, the timers become exactly one more, null ignored |
| TimerHeap.TimeHeap.SiftDown | src/lst_timer.h:163-185 | restores heap order, permutes the entries, in at most log2 of the size moves |
| TimerHeap.TimeHeap.PopTimer | src/lst_timer.h:151-186 | frees exactly the root and keeps order; the root of an emptied heap is null |
| TimerHeap.TimeHeap.DelTimer | src/lst_timer.h:97-102 | removes the client's deadline if the timer was live, and changes no other |
| TimerHeap.TimeHeap.AdjustTimer | src/lst_timer.h:108-141 | a live client's deadline becomes 15 s from now; on a dead timer no deadline changes |
| TimerHeap.TimeHeap.Strike | src/lst_timer.h:207-218 | one turn of `tick`: the due root is called if its callback is set, in deadline order, and freed |
| TimerHeap.TimeHeap.Tick | src/lst_timer.h:189-220 | in any valid heap: fires exactly the due entries with a callback, once each and in deadline order, and leaves exactly those not due; so with one live timer a client, it calls exactly the clients due and keeps the other deadlines |
| TimerHeap.TimeHeap.Destroy | src/lst_timer.h:61-68 | with it every timer ever added has been freed exactly once |
| TimerHeap.RegisterClient | src/server_epoll.cpp:126-137 | a new connection gets a live entry 15 s from now, and its deadline if it had none; no other deadline changes |
| TimerHeap.ReuseStruck | src/server_epoll.cpp:43-49 | a number accepted again after a close by a worker is disconnected as soon as the old timer is due, before its own, which may strike again |
| TimerHeap.Obey | src/server_epoll.cpp:109-199 | each event of the server changes the deadlines as the map says |
| TimerHeap.Replay | src/server_epoll.cpp:101-200 | a whole legal run on a fresh heap disconnects at each tick exactly those the map says, and no entry, dead or live, outlasts a tick at or past its deadline |
| Deadlines.SeenSets | src/lst_timer.h:111-141 | a renewal's deadline stands until it is renewed, dropped, or a tick is late enough |
| Deadlines.DeadlineIs | src/lst_timer.h:111-141 | who has which deadline after any legal run, read off the events alone |
| Deadlines.StruckExactly | src/lst_timer.h:189-220 | a tick disconnects a client if and only if it was last seen 15 s or more before, and not closed or struck since: never early, and at the first tick late enough |
| Deadlines.PendingNext | src/lst_timer.h:125-141 | an entry stays owed to the event that set its deadline, 15 s before, while no tick reaches it |
| ThreadPool.Queue.Test | src/ThreadPool.h:19-23 | one evaluation of the wait predicate and what follows it under the lock |
| ThreadPool.FifoNext | src/ThreadPool.h:22-38 | every step keeps tasks taken and queued in the order of enqueueing |
| ThreadPool.OnceNext | src/ThreadPool.h:15-27 | every step keeps each taken task run once or running on one worker |
| ThreadPool.WakeupNext | src/ThreadPool.h:20-39 | every step keeps queued tasks covered by woken workers and pending notifications while anybody sleeps |
| ThreadPool.InvAfter | src/ThreadPool.h:13-40 | all of these after any interleaving, for any number of workers |
| ThreadPool.EachRanOnce | src/ThreadPool.h:13-40 | when all joins have returned every task has run exactly once, started in order, and none is left |
| ThreadPool.WorkerNext | src/ThreadPool.h:15-27 | what a worker does next: it sleeps only without task and stop, leaves only without task and with stop, otherwise runs the oldest task, and sleeps until notified |
| ThreadPool.TicketsCount | src/ThreadPool.h:36-38 | there are as many tickets as steps that enqueued |
| ThreadPool.MayEnqueue | src/ThreadPool.h:36-38 | who can enqueue, and that it appends |
| ThreadPool.NeverStuck | src/ThreadPool.h:20-39 | no lost wakeup: with tasks queued, some worker or notifier can always go on |
| ThreadPool.DestructorStarts | src/ThreadPool.h:30-32 | from every reachable state the destructor can set `stop` and notify, losing no task and leaving nobody asleep |
| ThreadPool.DestructorReturns | src/ThreadPool.h:30-34 | after its `notify_all` only as many steps follow as work is left, plus four for each task that a task still enqueues, and they stop only when every worker has left |
| BlockQueue.BlockQueue.Push | src/block_queue.h:70-82 | accepts if and only if there is room, appends and notifies one consumer, or refuses and notifies all |
| BlockQueue.BlockQueue.TryPop | src/block_queue.h:86-98 | one turn of the loop of `pop`: item, closed, or wait |
| BlockQueue.BlockQueue.Close | src/block_queue.h:118-123 | empties and closes the queue |
| BlockQueue.InvAfter | src/block_queue.h:70-125 | after any interleaving: bounded, accepted is handed out plus queued, and sleepers only while enough consumers are on their way |
| BlockQueue.NeverAsleep | src/block_queue.h:86-98 | nobody sleeps on a queue that no woken consumer is coming for |
| BlockQueue.CloseWakesAll | src/block_queue.h:118-125 | whoever closes gets to notify, with the queue empty and every sleeper woken |
| BlockQueue.ClosedNeverWaits | src/block_queue.h:118-125 | once a close has notified, no consumer sleeps, then or ever after |
| BlockQueue.OldestFirst | src/block_queue.h:95-97 | what is handed out next is the oldest item not yet handed out |
| BlockQueue.AllHandedOut | src/block_queue.h:70-98 | over every run, what pushes with room have brought is, in order, what consumers were given and what is queued |
| BlockQueue.SleepsNext | src/block_queue.h:70-125 | a consumer goes to sleep if and only if the queue is empty and open, and is woken by a push that picks it, a refused push, a close, or chance |
| BlockQueue.NobodyBlocked | src/block_queue.h:70-98 | some push is always possible, and so is a look by whoever is awake |
| SqlConnPool.Pool.Init | src/sql_conn_pool.cpp:17-46 | the list holds the connections that opened, and the semaphore starts at their number |
| SqlConnPool.OpenedExactly | src/sql_conn_pool.cpp:22-39 | each success is listed, in the order of the attempts, and nothing else is |
| SqlConnPool.Pool.PopFront | src/sql_conn_pool.cpp:55-61 | the first connection, or null if there is none |
| SqlConnPool.CountedNext | src/sql_conn_pool.cpp:48-76 | every step keeps list length equal to semaphore plus threads between the two operations |
| SqlConnPool.InvAfter | src/sql_conn_pool.cpp:48-76 | after any interleaving no connection is lost, invented or in two hands |
| SqlConnPool.NeverNull | src/sql_conn_pool.cpp:48-64 | whoever passed the semaphore takes an initial connection that nobody else holds |
| SqlConnPool.ThreadNext | src/sql_conn_pool.cpp:48-76 | a thread waits, takes, gives back and posts, in this order, and no step changes another |
| SqlConnPool.GoRound | src/sql_conn_pool.cpp:55-72 | connections are lent in the order in which they were opened and then given back |
| Registration.NoDeadlock | src/http_conn.cpp:426-450 | with at least one connection, while any request is unfinished some worker can move, whatever the interleaving |
| Registration.AllFinish | src/http_conn.cpp:426-450 | only boundedly many moves are possible, and when none is left every request is finished |
| Registration.StuckWithoutConnections | src/http_conn.cpp:437-438 | with no connection at all the first registration reaches a state where nobody can move |
| Registration.WaitsForEver | src/sql_conn_pool.cpp:48-52 | and in every run without connections whoever wants one stays where it is |
| Registration.TakesCourse | src/http_conn.cpp:426-456 | every request takes one of two courses step by step, and a registration inserts under the lock with a connection in hand, whatever the interleaving |
| Registration.OneInside | src/http_conn.cpp:426-450 | no two workers are inside the lock |
| Reactor.OwnedNext | src/server_epoll.cpp:109-193 | every careful step leaves each open connection with one party and one live timer |
| Reactor.DeadlinesNext | src/server_epoll.cpp:124-199 | accept, read and write set the deadline of their connection 15 s ahead, a close takes it away, and no step touches another's |
| Reactor.TimersNext | src/server_epoll.cpp:124-192 | the server meets the timer heap's demand: registered only without, touched and dropped only with a live timer |
| Reactor.OneParty | src/server_epoll.cpp:101-200 | both over every run without a worker-side close in which ticks disconnect only connections idle in epoll |
| Reactor.LifeNext | src/server_epoll.cpp:109-193 | where a connection is: every careful step moves it along its life, from armed to polled, seen, queued, running and armed again, or closes it, and moves no other |
| Reactor.NeverStuck | src/server_epoll.cpp:101-193 | wherever a connection is, the step that takes it on is possible, at once or when the loop has finished what it is at |
| Reactor.EveryRead | src/server_epoll.cpp:161-169 | over every run the connections read from are, in order, those a worker has begun to process and those queued |
| Reactor.EveryEnd | src/http_conn.cpp:692-702 | and each was begun as often as it is running and was armed again |
| Reactor.BusyUntilArmed | src/server_epoll.cpp:159-169 | in a careful run a connection that was read from is queued or running, and nowhere else, until its worker arms it |
| Reactor.TickExactly | src/server_epoll.cpp:195-199 | in such a run a tick disconnects exactly the connections idle for 15 s |
| Reactor.TickKeepsApart | src/server_epoll.cpp:43-49 | a tick keeps connections apart if and only if all it disconnects are armed in epoll |
| Reactor.WorkerCloseShares | src/http_conn.cpp:692-702 | a worker that closes leaves a live timer, and when the loop accepts the number again the connection has two parties |

## Left out

- The file system: what `stat`, `open` and `mmap` yield for a URL is a parameter (`Connections.Lookup`); the 200-byte path buffer is not modelled.
- Conversation.Fetch: says nothing of the bytes sent for a file of two gigabytes or more, nor after a short first `writev`; `Replies.FileReply` and `Replies.ShortWrite` do.
- The iovecs hold the bytes they point at; a later change of the write buffer under them is not modelled, as nothing writes it before the response is complete.
- `Connections.Connection` holds parser and response as two objects; the fields they share are copied where the response reads them.
- Replies.FileReply: says nothing of a short first `writev`; `Replies.ShortWrite` covers those that stop before a byte other than 'H'.
- Answers.UploadDispatched: where more bytes follow an upload without a part, the line scanner goes on into them; no lemma says what it finds.
- Reactor's deadlines are a map, so they show one timer for a number; two live timers of one number are in `TimerHeap.ReuseStruck`.
- Bodies of the 403, 404 and 500 responses: the code sends a status line only, and that is what is modelled.
- A boundary of 100 bytes or more overruns `m_boundary`; the model answers `Undefined` there and proves nothing more.
- A negative Content-Length: the model answers `Undefined` if the terminating NUL would go before the buffer, and otherwise follows the code, which writes it into the head; no lemma says more of that case.
- `m_file_content`, `m_sql_user` and the address of a client are never read.
- Registrations of one name at the same time: look-up and insertion are separate critical sections, so both can insert; `DoRequest.RegisteredLogsIn` is about one after the other.
- The unlocked read of the user table during a login, line 459.
- `m_user_count`: it is changed on several paths without coordination.
- Timed `pop` of the block queue, which nothing calls; `full`, `empty`, `front` and `back`, which only look.
- `ClosePool` and the destructor of the connection pool: they run after all threads are gone.
- The logger, the signal pipe, accept limits, and everything about sockets and epoll beyond arming and events.
- Integer widths of the heap's and the queues' counters: they are unbounded here.
- The concurrent parts are steps over values, not threads over objects: the classes in those modules are the critical sections that branch, and the steps use the same functions; memory order is not modelled, since every field modelled there is under a lock.
- Allocation failure, and the stale pointer values beyond the live prefix of the heap's array: nothing reads them.

# A verified model of the mimino web server

mimino is a small single-threaded HTTP server in C. This project models its working
parts in Dafny and proves what they keep over every input and every run. `dafny verify
dfyconfig.toml` checks all of it.

The model follows the form of the source. What C updates in place is a class or an array
here: the connection with its cursors and try counters, the two parallel arrays of the
poll queue, the growable buffer, the file list being sorted, the table of argument
definitions. Every loop is a loop with invariants. Each such method is proved against a
specification function, and the laws are proved about that function.

| file | what it models |
|---|---|
| `Range.dfy`, `Grammar.dfy`, `RequestParser.dfy`, `ParserExactness.dfy`, `BrokenRequests.dfy` | the number reader, the Range header, the request grammar, the parser, its exactness, and what it keeps of requests that end in an error (`http.c`) |
| `Reader.dfy` | reading a request in pieces (`mimino.c`, `http.c`) |
| `Buffers.dfy`, `Url.dfy`, `Paths.dfy`, `Links.dfy` | growable buffer, percent-coding, path squeezing and joining, and their composition (`buffer.c`, `http.c`, `dir.c`) |
| `Listing.dfy` | order and sorting of directory listings (`dir.c`) |
| `Responses.dfy` | which response a request gets, and what its head announces (`http.c`) |
| `Answers.dfy` | what a request and its answer are on the wire, and what a client gets (`http.c`, `mimino.c`) |
| `Protocol.dfy` | the state machine of a connection as a relation, and runs of it (`mimino.c`) |
| `Offers.dfy` | what `send_buf` relies on (`mimino.c`) |
| `Connections.dfy` | one connection: reading, writing, the states (`mimino.c`, `connection.c`) |
| `EndToEnd.dfy`, `LongAnswers.dfy` | from the bytes of a request to the bytes of its answer, in one visit or several (`mimino.c`, `http.c`) |
| `Stories.dfy` | runs of the whole server: visits of the sweep and turns of the main loop (`mimino.c`) |
| `Runs.dfy` | from what poll and recv give in a run to what is answered (`mimino.c`) |
| `QueueShape.dfy`, `Ledgers.dfy`, `Servers.dfy` | the poll queue, its resizing, the sweep, the main loop (`mimino.c`) |
| `Args.dfy`, `ArgsRoundTrip.dfy`, `MissingValues.dfy` | the command line (`arg.c`) |
| `Ascii.dfy`, `Text.dfy`, `Numbers.dfy` | character classes, C strings, small helpers (`ascii.c`) |

## The main results

**Both directions of a connection.** `Connection.WireInv` holds at all times on every
connection, open or closed. All bytes ever received are the requests of the finished exchanges,
in order, and what is there of one more. All bytes ever sent are the answers to exactly
these requests, in order, and a part of the answer to that one. What is sent has no gap, nothing
twice and nothing mixed, and nothing follows the answer to a request with "Connection: close".
The request of one exchange is all that was received for it: bytes that a client sends behind
a message and that arrive in the same read, say a second message, belong to it and are not
answered. `Answers.ServedRight` says what an
answer is: the response that `make_http_response` decides on for the request that
was received, with its head first and then its body. A HEAD answer is the head alone. A page
is sent in full. A file is sent in order from the start of its range, in full or cut
off as described below. `Servers.Server.Serve` states this after any number of turns of the main loop.

**What a client gets.** `EndToEnd.MessageAnswered` goes the whole way: a connection without a
request gets a well-formed one without a Range header, of at most 4096 bytes, in any pieces,
with at most five blocked reads and with any visits in between in which it is not ready; a calm
write-ready visit with room for the answer follows. The exchange is then in the history, with
exactly the bytes of the request and exactly the head and the page or file, and the connection
goes on unless the last Connection header says "close". For the link of a listed file, in any
percent-coded spelling, these are the bytes of that file (`EndToEnd.LinkAnswered`); for the link
of a directory those of the index file in that very directory, or else its listing
(`EndToEnd.DirAnswered`); with "Range: bytes=a-" those from byte a on
(`EndToEnd.RangeOfLinkAnswered`). The heads are given as texts (`EndToEnd.LinkHead`,
`EndToEnd.DirHead`, `EndToEnd.SlashAdded`).

With less room in the socket the answer takes several visits. Each calm one sends exactly what
there is room for; once the room of all of them is as much as the answer, it is over, and
complete unless the visits before had left just the last byte of a file
(`LongAnswers.LongMessageAnswered`). A page, or an answer to HEAD, is delivered exactly if the
first six visits that can write have room for it; else it is given up at the sixth
(`LongAnswers.PageExactly`). Without calm, `Answers.Answered` says what a finished answer can
be; its head has one Content-Length line, which announces the size of the page or file.

**From the inputs of a run.** `Runs.RunMeets` ties visits to poll: in any run of the server, a
connection in slot k that has not timed out can write exactly if it is writing and poll finds
slot k writable, and reads exactly if it is reading and poll finds slot k readable. So, whatever
else goes on in the run: when poll and recv deliver a session of requests to a connection, each
in any pieces and followed by a calm socket with room, all of them are answered, in order, and
the answers stay in its history (`Runs.RunAnswers`); the history of a connection that the
run took in begins with exactly these exchanges (`Runs.NewClientAnswered`).

**Requests that are not well formed.** When the header lines of a request are followed by
something that is no header line and no blank line, the parser keeps the fields read so far, and
the request is answered exactly if a Host header is among them. Over all buffers: what was
received is answered exactly if it starts with a whole request, or with a request line and header
lines with a Host header and then such text (`BrokenRequests.AnsweredExactly`). A peer that shuts
down before the end of a request is answered by this rule (`EndToEnd.ShutDownAnswered`,
`Runs.ShutDownInRun`); one that sends 4096 bytes without an end is not
(`EndToEnd.OverlongClosed`).

**The main loop.** Its story records every visit of the sweep: what the connection was, what it
became, what poll had reported. `Stories.RunRight` says what a run is: each turn takes in a connection if
one is waiting, there is room and accept succeeds, and otherwise visits the connections of slots 1, 2, ... but for those that a
close moved from the end of the queue into a slot already passed, at most one for each close.
Each visit closes a connection that has timed out, and otherwise makes the step that
`Protocol.Transition` allows for the state it is in, the events that were reported and the
room in its socket; a calm visit sends all there is room for. Each visit finds the connection as the one before it left it. A
connection that is missed moves nearer to the front: from slot s it is visited in at most s
sweeps (`Stories.VisitedInTime`), and so in at most s times the cap turns of the main loop, however many
clients connect in between (`Stories.VisitedInTurns`).

**Service ends.** Among any visits in a row to one connection, whether poll found it ready or
not, one ends a response, or there are at most six write-ready ones for each byte of the file, and five
(`Stories.EveryServiceEnds`). For a response without a file that means five, over head and
body together. What holds of every chain of visits holds of any visits in a row to one
connection (`Stories.StoryChained`).

**The states.** Between two sweeps a client is reading, writing its head or writing its
body (`Connection.Persistent`); its poll events match; a reading connection has no response
and free space in its buffer; a writing one has method and path; one that writes its body
has its head fully sent.

**The queue.** `Sized`, `Books` and `Slots` hold in every reachable state: at least one slot
is used, one is free unless the cap is reached, slot 0 is the listen socket, both arrays
agree, every open client descriptor is in exactly one slot, and each acceptance of a descriptor
is matched by at most one close. Resizing copies at most 21 slots per operation plus the
initial capacity.

**The parser.** On every buffer, parsing ends without an error exactly when some prefix of
the buffer is in the grammar, and then the fields are those of the only such prefix. With
the reader: however the network cuts a request, it is read exactly and parses back to
what was printed, if and only if at most five reads were blocked.

**Paths and links.** A link of a directory listing, sent back in any well-formed request and in
any percent-coded spelling, makes the server look up the listed file.

**The command line.** Every spelling of a list of settings parses back to the settings, and a
command line that lacks a value is not accepted (`MissingValues.ValueMissing`,
`MissingValues.EmptyValueRefused`).

## Where code and comments disagree

The model does what the code does; a lemma says exactly when the promise is kept.

- `ll_power` promises a^b; it is right if and only if it is not asked for 0^0
  (`Range.PowerPromise`).
- `consume_next_num` overflows in C for more than 19 digits, or a value of 2^63 or more; for all other
  runs it does not (`Range.FitsInt64Exactly`, and `Range.SmallestOverflow` for an input). Its arithmetic is done in a 64-bit type here.
- `resolve_path` is meant to join two paths; it does so, whatever memory it gets, if and only if
  the first one is not empty and has no double slash, and the second is none of the five names
  of the root, unless it is "/" behind a slash (`Paths.JoinExactly`); "dir" and "." give "dir" (`Paths.DotDropped`).
  It says it allocates enough; it does if and only if the second path is one of the five names, no separator has to be inserted or
  squeezing saves a byte (`Paths.AllocationPromise`). With serve path "dir" and index "index.html" it
  writes one byte too many (`Responses.IndexPathTooLong`).
- `compare_files` promises a sign for "first is greater", "second is greater" and a tie; it
  keeps that if and only if it does not compare "." or ".." with itself
  (`Listing.CompareExact`).
- `write_file` returns a complete write at the end of what it can read. The file is then
  completely sent if and only if the call did not start on the last byte of the range and
  the socket had room for the rest (`Connections.Connection.WriteFile`). A file
  of one byte is therefore never sent (`Answers.OneByteFileLost`), and neither is the last byte of
  one of which all but that was sent before (`LongAnswers.LongAnswer`).
- Every partial write of a page takes one of the five tries, even if it sends something, and none
  is given back (mimino.c:363-373): a page that needs more than six calm visits is cut off
  (`LongAnswers.PageExactly`).
- A partial write of the head counts as activity, one of the body does not (mimino.c:646-648,
  697-698); `Protocol.WriteStep` says so.
- "bytes=-b" asks for the last b bytes in section 2.1 of RFC 7233; the answer announces the
  bytes from 0 to b (`Responses.RangedHeadText`). An answer to a range announces the size of the
  whole file in its Content-Length line.
- `parse_args` records a missing value at the index of the word; the flag's own entry shows it
  if and only if the two indices are the same (`Args.MissingValueRecorded`). "mimino --suffix"
  marks the entry of "quiet" (`Args.MissingValueMisplaced`).
- `is_valid_http_path_char` asks `strchr`, which also finds the terminator of its alphabet:
  a NUL byte is a path character, and the stored path ends before it. The grammar includes
  this, so exactness needs no restriction to buffers without NUL.
- `parse_range_header` tests two pointers where it means to test what they point to
  (http.c:147), so its last branch never runs; `are_ranges_satisfiable` changes nothing
  (http.c:582-585).
- After "bytes=12x" a first bound is not given, but its number stays stored
  (`Range.NumberStays`).

## What comes from outside

One activation of a connection gives the kernel a budget of bytes. `send` takes what it is
offered up to that budget; it may also be interrupted, take nothing or fail at any time.
Once it took less than offered, the budget is used up. `send_buf` offers its buffer
from the start again after a short send (mimino.c:1044), so it relies on that: a kernel that takes something of two
offers puts bytes on the wire twice (`Offers.SentTwice`, `Offers.OnceExactly`). An activation is calm when no send
fails as long as there is room, at most four are interrupted, and `fopen`, `fseeko` and `fread` do their work on a file that is
there; what must be sent is said of calm activations. The answers of `recv`
and `poll`, the descriptor `accept` returns, the time, the outcome of
`fopen`, `fseeko` and `fread`, the file system during one response, the HTML of a listing, the
texts of dates and MIME types and the collation order are parameters or arbitrary
choices. The byte just past the received ones reads as NUL: the parser looks at it behind a CR at the
very end of the request (http.c:242, 256, 279), and in C it is undefined.

## Model

| member | source | states |
|---|---|---|
| Connections.Connection.constructor | connection.c:5-19 | a new connection is reading, with full try counters, and nothing received or sent, and meets both invariants every run starts from |
| Connections.Connection.Send | mimino.c:1044-1045 | what the kernel takes is a prefix of the offer, all of it up to the budget or nothing, and is on the wire in order; a willing one takes it as long as there is room, but for the interruptions it still makes |
| Connections.Connection.SendBuf | mimino.c:1017-1068 | what goes out is the first k bytes of the buffer, once and in order, although every turn offers the buffer from its start; the result is k or -1; after a short send the budget is used up; with at most four interruptions and no failure the result is k, and k is the smaller of the length and the budget |
| Offers.SentTwice | mimino.c:1043-1065 | a kernel that takes one byte of each of two offers of "ab" leaves "aa" on the wire, and send_buf reports success |
| Offers.OnceExactly | mimino.c:1043-1065 | the bytes on the wire are a prefix of every buffer of that length if and only if the kernel took something of one offer at most |
| Connections.Connection.WriteHeaders | mimino.c:310-338 | the next k bytes of the head go out and the cursor counts them; complete exactly when none is left; a partial write costs one try, and tries run out only at zero; when it is calm, all goes out that there is room for, and nothing fails |
| Connections.Connection.WriteBody | mimino.c:340-376 | of a body to be sent whole the next bytes go out, complete exactly when none is left; when it is calm, all that there is room for, and nothing fails; without a body it fails and sends nothing |
| Connections.Connection.Fread | mimino.c:418-431 | the bytes read are those of the file at the position, as many as asked for or as are left; fewer only with an error, which stays |
| Connections.Connection.WriteFile | mimino.c:378-465 | the file's bytes go out from the offset on, in order, and offset and budget count them; a complete write of a file to be sent up to its last byte leaves the offset at the file size if and only if it did not start on that byte and the socket had room for the rest; when it is calm, all goes out that there is room for, nothing fails, and with room for the rest the write is complete |
| Connections.Connection.CopyFile | mimino.c:415-461 | a complete copy has sent the rest of the file or as much as there was room for, and misses less than one buffer; a calm one does not fail and is complete if there is room for the rest; reading nothing at a time it sends nothing; a partial write has bytes left; progress restores the tries |
| Connections.Connection.ReadRequest | mimino.c:249-303 | one read does what the reading automaton does; the bytes delivered are appended to the request and to what was heard; the parsed fields stay untouched |
| Connections.Connection.SetState | mimino.c:524-543 | the poll events are those of the new state; descriptor and reported events stay |
| Connections.Connection.Recycle | mimino.c:507-522 | request and response are gone, counters are full, keep-alive is on again, the slot polls for input |
| Connections.Connection.DoReading | mimino.c:554-625 | by how the read ends: stay reading with the longer buffer and free space; hold exactly the parsed request and start writing, if there was no error or method, path and host are all there; or close. Both directions of the connection stay right |
| Connections.Connection.TakeRequest | mimino.c:585-622 | a complete request is parsed; it is answered if and only if it is essential, and the connection will be kept unless the request says not to |
| Connections.Connection.BeginResponse | mimino.c:631-642 | the response is made once, for the request held, and nothing of it is sent yet |
| Connections.Connection.HeadStep | mimino.c:644-681 | one call of write_headers keeps both directions right and sends only bytes of this head; a partial write uses up fuel; a complete one has used exactly the budget for the rest of the head; a calm one sends all there is room for |
| Connections.Connection.MemoryStep | mimino.c:689-699 | one call of write_body keeps both directions right, and a partial write takes one try; after a complete one head and page are out exactly; a calm one sends all there is room for, and is complete exactly if there is room for the rest |
| Connections.Connection.FileStep | mimino.c:692-699 | one call of write_file keeps both directions right and a partial write uses up fuel; after a complete one exactly so much of the file is out as its starting offset and its budget allow; a calm one sends all there is room for |
| Connections.Connection.EndExchange | mimino.c:724-727 | the finished exchange enters the history: the request as received, the response, the bytes sent, and offset and budget of the last write |
| Connections.Connection.DoWritingFinished | mimino.c:732-741 | a kept-alive connection is back at reading with a clean slate; any other one closes |
| Connections.Connection.Conclude | mimino.c:732-741 | after its last byte the exchange is recorded once, nothing more is sent, and the connection starts afresh or closes, as the request said |
| Connections.Connection.HeadStopped | mimino.c:645-668 | a head that is not all out is tried again, at the cost of one try, which counts as activity, or given up when no try is left; a calm call has used up its room |
| Connections.Connection.SendHeaders | mimino.c:644-681 | one write-ready call from the head on, with a response in place, is a step of the protocol; a calm one sends all there is room for and completes what there is room to complete |
| Connections.Connection.DoWritingHeaders | mimino.c:627-681 | so is one that still has to generate the response, which is then the one for the request held and this file system |
| Connections.Connection.DoWritingBody | mimino.c:683-730 | so is one that starts in the body |
| Connections.Connection.DoState | mimino.c:546-750 | the whole state machine of one connection: from any state it may be entered in, it makes exactly a step of the protocol, ends in closing or in a resting state with matching poll events, and keeps both directions right; a calm write-ready call sends all there is room for, and a response that there is room to complete goes into the history; its recursion ends because the state number rises |
| Connections.Connection.Activate | mimino.c:546-750 | with the kernel as it is for this activation, the call makes a step of the protocol that meets exactly this room and mood |
| Protocol.TimeoutExactly | mimino.c:939-951 | a connection last active the timeout ago or longer is closed as it is; one active since then, of which poll reports nothing, stays as it is |
| Protocol.ServiceEnds | mimino.c:326-335 | in any chain of visits, idle ones among them, one ends a response, or there are no more write-ready ones than six for each byte of the file, and five |
| Protocol.NothingTakenBack | mimino.c:546-750 | over any chain of visits what was received, sent and recorded only grows |
| Stories.StoryGoesOn | mimino.c:939-951 | a visit that starts where the last one to that connection ended keeps the story right |
| Stories.EveryServiceEnds | mimino.c:446-460 | in any run: among any visits in a row to one connection, idle ones among them, one ends a response, or there are no more write-ready ones than six for each byte of the file, and five |
| Stories.StoryChained | mimino.c:939-951 | any visits in a row to one connection are a chain: each finds the connection as the one before left it |
| Stories.MissedMovesUp | mimino.c:485-489 | a client that a sweep did not visit is still in the queue, in a lower slot |
| Stories.VisitedInTime | mimino.c:938-951 | in any run with s sweeps the client of slot s is visited: it is missed at most s - 1 times in a row |
| Stories.SweepsComeRound | mimino.c:918-936 | a run has at most cap times its sweeps turns, and as many more as the queue has grown: only the cap stops the loop from taking in connections |
| Stories.VisitedInTurns | mimino.c:900-951 | the client of slot s is visited within s times the cap turns of the main loop |
| EndToEnd.AllIdle | mimino.c:554-556 | visits in which poll reports nothing the connection waits for leave it as it is |
| EndToEnd.RequestArrives | mimino.c:554-622 | a chain of visits that receives a printed request in any pieces, with idle visits anywhere and no more blocked reads than tries, ends with exactly that request parsed, and about to be answered |
| EndToEnd.VisitsRead | mimino.c:554-622 | a chain of visits follows the run of its reads: it gathers bytes while that is partial, holds exactly these as the request when it completes and answers it if it can be answered, and closes on every other end |
| EndToEnd.ShutDownAnswered | mimino.c:280-283 | when the peer shuts down before the end of a request, what it sent is answered if and only if it is a request line and header lines with a Host header and then something that is no line of a request |
| EndToEnd.OverlongClosed | mimino.c:285-287 | 4096 bytes in which no end of a request shows close the connection, with nothing sent |
| EndToEnd.CalmVisitAnswers | mimino.c:627-741 | a calm write-ready visit with room for the rest of a response to HEAD, or of a whole one, puts the exchange into the history |
| EndToEnd.FreshlyAnswered | mimino.c:627-741 | a fresh request without a Range header, for something that can be served, is answered in full by one calm visit with enough room, and the connection goes on if it is to be kept |
| EndToEnd.FreshWhole | mimino.c:627-741 | a fresh request whose response is whole, a range up to the end of the file included, is answered by exactly its head and payload in one calm visit with enough room, but for a range of one byte, of which only the head is sent |
| EndToEnd.RangeAnswered | http.c:597-605 | for bytes=a- that payload is the file from byte a on |
| EndToEnd.MessageAnswered | mimino.c:546-750 | from the pieces of a request, with idle visits anywhere, to its answer: the history has exactly the bytes of the request, and exactly the head and the page or file; the connection closes if and only if the last Connection header says close |
| EndToEnd.PrintedLink | http.c:24-31 | a link as a listing prints it is one of its spellings and makes a well-formed request |
| EndToEnd.LinkFields | http.c:488-494 | a request for a link in any spelling carries it unchanged, and makes the server look up the file or directory it stands for |
| EndToEnd.LinkWantsFile | http.c:488-500 | a request for the link of a listed file, in any spelling, asks for that file's bytes |
| EndToEnd.LinkAnswered | http.c:393-400 | a GET for a link that a listing shows, in any spelling, is answered by the head and the bytes of that very file, unless it has one byte |
| EndToEnd.LinkHead | http.c:597-651 | the head of that answer, as text, with the date, type and size of that very file |
| EndToEnd.IndexLookedUp | http.c:553-567 | the index file is looked for in the directory of the link, under the configured name, and nowhere else |
| EndToEnd.DirWants | http.c:552-594 | a request for the link of a directory, in any spelling, asks for the index file in that very directory if there is one, and else for its listing |
| EndToEnd.DirAnswered | http.c:552-594 | a GET for the link of a directory is answered by the head and the bytes of that index file, or of that listing |
| EndToEnd.DirHead | http.c:436-463 | the head of that answer, as text; 500 if the directory cannot be read |
| EndToEnd.SlashAdded | http.c:534-549 | the link of a directory without its last slash is answered by a 301 head with the way to the link with it |
| EndToEnd.RangeOfLinkAnswered | http.c:597-651 | a GET for the link of a file with bytes=a- is answered by a 206 head that announces the bytes from a to the last one, and by these bytes, unless a is the last one |
| LongAnswers.FillsTheRoom | mimino.c:627-741 | a calm write-ready visit that does not end the response sends as many bytes as there is room for, and there were more to send |
| LongAnswers.SentSoFar | mimino.c:627-741 | over any such visits, idle ones among them, exactly as many bytes of the one response are out as there was room for |
| LongAnswers.LongAnswer | mimino.c:378-465 | once the room of all visits is as much as the answer, it is over and all of it was sent, but for the last byte of a file if that alone was left |
| LongAnswers.LongMessageAnswered | mimino.c:546-750 | from the pieces of a request to an answer that takes several visits: exactly the head, and the page or file but for such a last byte |
| LongAnswers.TriesLeft | mimino.c:310-376 | of a page or a head alone each write-ready visit takes one of five tries |
| LongAnswers.PageExactly | mimino.c:340-376 | by the room of the visits: the page is complete in the history, or goes on, or is given up at the sixth visit that could write |
| Runs.CalledInItsSlot | mimino.c:938-951 | a turn calls a connection once, in the slot it found it in, or not at all |
| Runs.VisitsOfRun | mimino.c:938-951 | the calls of a run to a connection are its visits in the story, in order |
| Runs.CallMeets | mimino.c:524-543 | a connection that has not timed out and reads goes on if and only if poll finds its slot readable; one that writes, if and only if poll finds it writable |
| Runs.RunMeets | mimino.c:524-543 | the same of every visit of any run, from the inputs of its turn: the visit to slot k can write exactly if the connection is writing and slot k is writable, and reads exactly if it is reading and slot k is readable |
| Runs.CallsInRun | mimino.c:900-957 | any calls in a row to one connection are a chain, and each meets what its turn's poll finds ready in its slot |
| Runs.ReadsWhenReadable | mimino.c:554-622 | a reading connection receives exactly what recv delivers in the turns that find its slot readable, until the run of these reads ends |
| Runs.WaitsToWrite | mimino.c:627-629 | a connection about to answer waits until its slot is writable, readable or not |
| Runs.ShutDownInRun | mimino.c:280-283 | the answer to a peer that shuts down, from the inputs of a run |
| Runs.ExchangeTakesPlace | mimino.c:546-750 | if the inputs find the slot of a fresh connection readable for all pieces of a request and then writable, the request is received, and a calm visit follows that can answer it |
| Runs.SessionAnswered | mimino.c:546-750 | requests one after the other, each delivered in this way and none but the last asking to close, are all answered in order; the connection is then closed or fresh again |
| Runs.RunAnswers | mimino.c:900-957 | in any run of the server, whatever else goes on in it, the requests of such a session are answered in order and the answers stay in the history of the connection |
| Runs.NewClientAnswered | mimino.c:900-957 | the history of a connection that the run took in begins with exactly the exchanges of such a session |
| Runs.RunLinkAnswered | mimino.c:900-957 | in any run a GET for the link of a file, delivered to a fresh connection, is answered by the head and the bytes of that very file |
| Runs.LongExchangeAnswered | mimino.c:546-750 | the same for an answer that takes several calls, by the room that the inputs give them |
| Answers.Answered | http.c:573-651 | a finished answer to a request without a Range header, for something that can be served: the head announces the size of the page or file in its only Content-Length line; for HEAD that is all; a page follows in full, a file does if and only if the last write did not start on its last byte and had room for the rest; at most 4095 bytes are missing |
| Answers.HeadAnswered | http.c:475-526 | a HEAD request, for anything at all, is answered by exactly the head that a GET for the same would get |
| Answers.MessageWantsWhole | http.c:158-319 | every well-formed message without a Range header, at the start of the received bytes, is such a request if and only if there is something to serve for its fields |
| Answers.AnswerPossible | http.c:466-679 | every such request has such an answer, in full unless it is for a file of one byte |
| Answers.OneByteFileLost | mimino.c:391-393 | a file of one byte is announced and never sent |
| Servers.Server.constructor | mimino.c:886-898 | the first queue is valid and its story empty: only the listen socket, capacity 1024 or the cap, nothing open |
| Servers.Server.AddConnection | mimino.c:752-780 | below the cap the new socket gets the last slot, in its initial state and polled for input; the queue stays valid, all other slots keep their contents |
| Servers.Server.AddSlot | mimino.c:755-779 | one more slot, holding the new connection; its descriptor joins the open and the accepted ones |
| Servers.Server.MakeRoom | mimino.c:755-769 | the arrays grow to the smaller of double and the cap exactly when the last free slot is taken; no live slot is lost |
| Servers.Server.Resize | mimino.c:763-768 | both arrays keep the slots that fit, and the copies are counted |
| Servers.Server.RemoveSlot | mimino.c:476-491 | the last slot fills the hole, the others stay |
| Servers.Server.CloseConnection | mimino.c:467-505 | exactly the descriptor of that slot leaves the open ones and joins the closed ones; the other connections keep their slots, except the last one, which moves; slot 0 is never closed |
| Servers.Server.Shrink | mimino.c:493-504 | the arrays shrink only at a quarter use and never below 20 slots or the live ones |
| Servers.Server.CloseSlot | mimino.c:743-746 | the connection leaves the queue with its wire as it was left; the queue is valid again |
| Servers.Server.StepSlot | mimino.c:546-750 | the connection in the slot makes a step of the protocol; no other connection and no other poll entry changes |
| Servers.Server.DoConnState | mimino.c:546-750 | the same, and then either the queue is as before or precisely that connection has left it with its descriptor closed |
| Servers.Server.AskKernel | mimino.c:252-255 | a resting connection can be stepped, and recv is never offered zero bytes |
| Servers.Server.CloseTimedOut | mimino.c:942-948 | a timed-out connection is closed as it is: nothing more is read, sent or recorded |
| Servers.Server.RunState | mimino.c:950-950 | any other connection makes a step of the protocol for the events reported, and is then gone or was active within the timeout |
| Servers.Server.VisitSlot | mimino.c:939-951 | the story has one visit more, to the connection in the slot: it found it as it was, met what poll reported, and left it as it is; the connection is gone exactly if it is closing |
| Servers.Server.VisitTold | mimino.c:939-951 | the story stays right and up to date with every connection |
| Servers.Server.VisitNext | mimino.c:939-951 | one turn of the sweep advances by one slot and visits the connection in it; the accounts of visited, moved and closed connections stay right |
| Servers.Server.SweepLoop | mimino.c:938-951 | the sweep ends; it has visited the connections of slots 1, 2, ... as they were at its start, each once and in order, with the events reported for their slots, and left those not reached unchanged |
| Servers.Server.SweepDone | mimino.c:938-951 | visited and moved connections together are all clients there were, nobody is lost, and there are no more moved ones than closes |
| Servers.Server.Sweep | mimino.c:938-951 | the story goes on by exactly one visit, by the protocol, to each client but those moved into a closed slot, which are unchanged, taken from the end backwards, and at most one per close; each visited one is gone or was active within the timeout, and stays in its slot |
| Servers.Server.Poll | mimino.c:903-906 | poll reports events that were asked for and changes nothing else |
| Servers.Server.PollAndAccept | mimino.c:902-936 | a new socket is there exactly if a client is waiting, there is room, and accept succeeds |
| Servers.Server.TakeIn | mimino.c:927-933 | it gets the last slot, and all else stays |
| Servers.Server.SweepPolled | mimino.c:938-951 | in a turn that sweeps, each visit meets the events that poll found ready among those its connection's state asks for |
| Servers.Server.Turn | mimino.c:901-957 | one turn of the main loop takes in a waiting connection, if there is room and accept succeeds, and leaves all others alone; else it sweeps as above; the queue stays valid and no connection gets lost |
| Servers.Server.Serve | mimino.c:900-957 | any number of turns is a run, and its visits continue the story; the queue is valid; on every connection, there or gone, the bytes received are the requests answered and part of one more, and the bytes sent are the answers to exactly these and part of the answer to that one; all resizing together is cheap |
| Ledgers.LedgerAdd | mimino.c:771-779 | a new descriptor gets a slot of its own |
| Ledgers.LedgerRemove | mimino.c:476-491 | swap-removal takes exactly that descriptor and that connection out of the slots |
| QueueShape.RunBound | mimino.c:197-206 | over any run the copies and the potential stay below 2 per add, 21 per close and the initial capacity |
| QueueShape.AmortisedResizing | mimino.c:752-769 | m adds and closes copy at most 21 m slots plus the initial capacity |
| Reader.EndExactly | http.c:39-59 | of all non-empty prefixes of a printed request, is_http_end accepts the whole one only |
| Reader.ReadRunCompletes | mimino.c:249-303 | from the middle of a request, the remaining pieces complete it if and only if the blocked reads do not exceed the tries left; else the run fails |
| Reader.PartialBefore | mimino.c:249-303 | no read before the last piece ends the run |
| Reader.ChunkingIndependence | mimino.c:249-303 | any cut of a request of at most 4096 bytes into non-empty pieces stays partial until the last piece and then holds exactly the request, which parses to its fields, if and only if at most five reads were blocked |
| Reader.HttpEndExactly | http.c:39-59 | the end test accepts the buffers that end in two CRLFs, with or without one NUL behind, and no others |
| Reader.Gathers | mimino.c:249-303 | as long as no end shows and there is space, a run of reads holds exactly the bytes received, and fails at the first blocked read without a try left |
| Reader.ShutDown | mimino.c:280-283 | an empty read then completes the request with exactly these bytes, or reports a closed client if there are none |
| Reader.TooManyBytes | mimino.c:285-287 | 4096 bytes in which no end shows are too big a request |
| Reader.TooManyTries | mimino.c:258-264 | a sixth blocked read fails |
| Reader.EndShows | mimino.c:277-279 | an end that shows behind a piece completes the request at once |
| RequestParser.SkipWhile | http.c:163-176 | a bounds-checked advance stops on the first byte outside its class, or gives up exactly when the rest of the buffer is in it; the cursor stays inside the buffer |
| RequestParser.SkipValue | http.c:278-289 | a header value ends at its CRLF; a NUL or the end of the buffer before that is the matching error |
| RequestParser.StoreHeader | http.c:299-314 | a header is kept in the field of its name |
| RequestParser.ParseHeaders | http.c:248-315 | the header loop is the recursive reading of header lines up to the blank line, with the same errors |
| RequestParser.ParsePath | http.c:191-208 | a non-empty run of path characters and a space, or the matching error; the path stays set if an error follows |
| RequestParser.ParseProtocol | http.c:210-222 | the protocol name and its slash, or the matching error |
| RequestParser.ParseVersion | http.c:224-246 | from the version number on: two digit runs around a dot, a version it can handle, CRLF, then the headers, or the first error among them |
| RequestParser.ParseHttpRequest | http.c:158-319 | the parser computes the specified reading of the buffer, with every error case |
| Grammar.NameIsExactly | http.c:299-308 | comparing the name and its colon is the same as equality of names up to letter case |
| Ascii.AlphabetsExactly | http.c:24-31 | the character classes as alphabets: method names, header names, and the path characters of RFC 3986 with a NUL |
| Ascii.ToLowerExactly | http.c:299-308 | case folding takes the k-th capital letter to the k-th small one and leaves everything else alone |
| Grammar.StoreMeaning | http.c:299-314 | one header changes the field of its own name, and no other |
| Grammar.FieldsMeaning | http.c:299-314 | of headers of one name the last one wins, in any letter case; Range headers accumulate; the request line gives method, path and version |
| ParserExactness.ParsePrinted | http.c:158-319 | whatever follows a printed message, parsing gives its fields |
| ParserExactness.ParseSound | http.c:158-319 | an error-free parse has read a message of the grammar |
| ParserExactness.ParseUnique | http.c:158-319 | no buffer starts with two different messages |
| ParserExactness.ParserExact | http.c:158-319 | on every buffer: no error if and only if a prefix is in the grammar, and then the fields are those of that one message |
| ParserExactness.ParseSetsEssentials | mimino.c:594-612 | if there is no error, method and path are set; if a host is set, so are method, path and version; the path is a C string: what every writing state relies on |
| BrokenRequests.BrokenKept | http.c:248-315 | a request line and header lines, followed by something that is no header line and no blank line: parsing fails, and all fields but the error are those of these lines |
| BrokenRequests.BrokenAnswered | mimino.c:590-612 | it is answered if and only if a Host header is among them |
| BrokenRequests.LinesGoOn | http.c:248-315 | any text behind a request line is header lines and then a blank line or a broken line |
| BrokenRequests.AnsweredExactly | mimino.c:590-612 | on every buffer: what was received is answered if and only if it starts with a message, or with a request line and header lines with a Host header that do not end in a blank line |
| Range.LlPower | http.c:61-77 | a^b by repeated multiplication in 64-bit arithmetic, but 0 for every power of 0; no step overflows if the result fits |
| Range.ConsumeNextNum | http.c:79-101 | the value of the longest run of digits up to the bound, and the cursor behind it |
| Range.SumDigits | http.c:92-96 | adding digits times powers of ten from the left, in 64-bit arithmetic, gives the Horner value without overflow for runs that fit |
| Range.FitsInt64Exactly | http.c:83-101 | every power, increment and partial sum stays in the 64-bit range if and only if the run has at most 19 digits and a value below 2^63 |
| Range.SmallestOverflow | http.c:83-101 | for the bound 2^63 it does not, and that is the bound the model stores |
| Range.PrefixBelow | http.c:92-96 | the partial sums never exceed the whole number |
| Range.NumberAt | http.c:127-131 | the digit run under the cursor, if there is one, and never past the end of the value |
| Range.ParseRangeHeader | http.c:103-155 | a Range value sets the bounds and flags that its text calls for, on top of what earlier ones set |
| Range.RangeRoundTrip | http.c:103-155 | the printed forms bytes=a-b, bytes=a- and bytes=-b set exactly the printed bounds and flags |
| Grammar.OneRange | http.c:308-314 | a message with one Range header has the bounds and flags of its text |
| Range.StartGivenExactly | http.c:127-137 | a first bound counts as given if and only if the value starts with bytes=, a number and a dash |
| Range.NumberStays | http.c:128-137 | for "bytes=12x" the bound is not given, but 12 stays stored |
| Range.PrintedBoundFits | http.c:83-101 | the printed bounds that are read back without overflow are exactly those below 2^63 |
| Grammar.NoRangeHeader | http.c:308-314 | without a header named Range, in any letter case, no bound is given |
| Buffers.Buffer.Grow | buffer.c:51-58 | the contents survive the reallocation, the capacity grows by the larger of the need and 4096 |
| Buffers.Buffer.Push | buffer.c:60-71 | the contents gain exactly the byte, whether the buffer grows or not |
| Buffers.Buffer.Append | buffer.c:73-92 | the contents gain exactly the bytes appended |
| Buffers.Buffer.AppendBuf | buffer.c:94-106 | the contents gain the other buffer's, which keeps its own; also for a buffer appended to itself |
| Url.PushEncoded | http.c:741-747 | one byte is appended as itself or as a percent sign and its two hex digits |
| Url.BufEncodeUrl | http.c:734-749 | the encoding is appended to what the buffer held, across any reallocations |
| Url.DecodeStep | http.c:759-796 | one decoding step takes a doubled percent sign, a percent sign with two hex digits, or one byte as it stands |
| Url.DecodeUrlInto | http.c:751-802 | the decoded string and its terminator fit into one allocation of the input's length plus one |
| Url.DecodeEncodedThen | http.c:734-802 | an encoded part decodes to itself whatever follows it |
| Url.CodingRoundTrip | http.c:734-802 | decoding undoes encoding on every byte string |
| Url.EncodingShape | http.c:740-747 | the encoding has n bytes plus two for each byte to encode, and consists of unreserved characters and percent signs |
| Url.DecodeWithoutPercent | http.c:758-797 | without a percent sign decoding changes nothing |
| Url.EscapeDecodes | http.c:766-792 | a percent sign and any spelling of the two hex digits of a byte, each in either case, decode to that byte |
| Url.DoubledPercent | http.c:760-764 | a doubled percent sign decodes to one |
| Url.LonePercent | http.c:766-796 | a percent sign without two hex digits behind it stays |
| Url.SpellingDecodes | http.c:751-802 | every spelling of a string, byte by byte, decodes to it |
| Url.EncodingSpells | http.c:734-749 | the encoding is one of these spellings |
| Paths.CleanupPath | dir.c:27-42 | the path with each run of slashes squeezed to one, in an allocation that always suffices |
| Paths.CleanupLaws | dir.c:27-42 | squeezing leaves no double slash, is idempotent, keeps the non-empty components, and changes a path if and only if it had a double slash |
| Paths.CopySqueezed | dir.c:60-67 | copying drops each slash behind a slash |
| Paths.ResolvePath | dir.c:44-91 | the first path itself for the five names of the root; else what the source writes, for every first path and whatever the memory holds behind the squeezed copy, up to the first NUL |
| Paths.JoinExactly | dir.c:44-91 | that is the squeezing of both paths joined by a slash, whatever the memory holds, if and only if the first path is not empty and has no double slash, and the second is none of the five names of the root, unless it is "/" behind a slash |
| Paths.DotDropped | dir.c:50-53 | for "dir" and "." it is "dir", not "dir/." |
| Paths.JoinAfterSlash | dir.c:71-72 | behind a slash the slashes in front of the second path are dropped |
| Paths.JoinWithSlash | dir.c:74-76 | a slash is inserted only if neither side brings one |
| Paths.AllocationPromise | dir.c:50-58 | the allocated bytes suffice if and only if the second path is one of the five names, the first ends in a slash, the second starts with one, or squeezing saves a byte |
| Paths.AllocationShort | dir.c:55-58 | for "dir" and "index.html" they are one byte short |
| Links.LinkIsPathText | http.c:24-31 | a link consists of path characters, so the parser's path loop takes it whole |
| Links.LinkSqueezed | dir.c:27-42 | a link has no double slash |
| Links.LinkDecodes | http.c:751-802 | a link decodes to its segments, joined by slashes |
| Links.HereExactly | dir.c:50-53 | the only listed path that names the root itself is the lone segment "." |
| Links.LinkResolves | http.c:488-494 | squeezed, decoded and joined, a link is the serve path followed by the segments (or the serve path itself, for the lone ".") |
| Links.LinkSpells | http.c:24-31 | a link as printed is one of its spellings |
| Links.SpelledLinkResolves | http.c:488-494 | a link in any spelling is looked up below the serve path, at its segments |
| Links.DecodedExactly | http.c:488-491 | slashes are squeezed before escapes are decoded: a path decodes to what it spells without its double slashes, up to the first NUL |
| Links.IndexInDir | http.c:555-558 | resolve_path of a directory and an index name is the file of that name in that directory |
| Links.ListedLinkRoundTrip | http.c:393-400 | end to end: any well-formed request for a link, found at the start of any buffer, parses without error and makes the server look up the listed file |
| Listing.PrecedesIsOrder | dir.c:188-239 | the listing order is a total preorder that ties only files of the same name and kind |
| Listing.CompareExact | dir.c:224-239 | the comparator's sign is that of this order if and only if it does not compare "." or ".." with itself; a negative result is always right |
| Listing.SwapInFileList | dir.c:179-186 | the two entries change places and the others stay |
| Listing.FindSmallest | dir.c:246-251 | the search finds an entry that precedes all the rest, although the comparator is not symmetric |
| Listing.SortFileList | dir.c:241-254 | the list becomes a sorted permutation of itself |
| Listing.SortedUnique | dir.c:241-254 | with distinct names there is one sorted permutation: the listing does not depend on the order of the entries read |
| Listing.ListingOrder | dir.c:192-239 | a sorted listing shows directories above files, in each kind "." and ".." first, other dot names above the rest, names that start with a letter or a digit last, and the names of each group as the locale orders them |
| Responses.DecodePath | http.c:488-491 | the squeezed and decoded request path, read as a C string |
| Responses.MakeHttpResponse | http.c:466-679 | the response is the one the decision table of paths, files, directories, index file and ranges gives, with the heads written through the growing buffer |
| Responses.FindPath | http.c:494-494 | below a directory named without a double slash the path is the one meant, whatever memory malloc hands out |
| Responses.ServeDirectory | http.c:552-594 | a directory is answered with its index file if that can be found, else with its listing |
| Responses.MakeFileResponse | http.c:597-676 | a single file is answered with its range, its head by the Range flags, and the file cursor at the first byte of the range |
| Responses.IndexPathTooLong | http.c:552-558 | a request for "/" to a server of "dir" with index "index.html" makes resolve_path write behind its allocation |
| Responses.LinesDeclare | http.c:453-460 | in a head made of lines, one of which starts with Content-Length, that line stands behind a CRLF and is the only one of its kind |
| Responses.FileHeadDeclares | http.c:611-676 | the head of every file answer, with a range or without, announces the size of the file in its only Content-Length line |
| Responses.ListingHeadDeclares | http.c:453-460 | the head of a listing announces the length of its page in its only Content-Length line |
| Responses.WholeExactly | http.c:597-605 | without a Range header, and if anything was found, the range is the whole page or file if and only if there is one to serve (or an empty page for a directory that cannot be read) |
| Responses.PayloadWanted | http.c:466-679 | what is to be sent is then that page or file, from its first byte |
| Responses.HeadAnnounces | http.c:453-460 | and its head announces its length |
| Responses.FileHeadText | http.c:608-651 | the head of a file asked for without a range, as text |
| Responses.RangedHeadText | http.c:606-651 | the head of a file asked for with any of the three printed ranges, as text |
| Responses.ListingHeadText | http.c:453-460 | the head of a listing, as text |
| Responses.OtherHeads | http.c:502-549 | the heads, as texts, and pages for what is not there, what cannot be looked at, and a directory without its slash |
| Responses.AppendAll | buffer.c:87-92 | the pieces of a head follow what the buffer held, in order |
| Args.LongArgMatch | arg.c:8-35 | a word matches a long flag if and only if it is two dashes and the name, then nothing or an equals sign |
| Args.TakeLong | arg.c:76-127 | the effect of a matching long argument on the table and on the words used, with both missing-value errors |
| Args.MissingValueRecorded | arg.c:102-107 | a missing value is an error, and shows in the flag's own entry if and only if that has the index of the word |
| Args.MissingValueMisplaced | mimino.c:788-834 | with the table of main, "mimino --suffix" is an error that shows in the entry of "quiet" and not in that of "suffix" |
| MissingValues.ValueMissing | arg.c:145-157 | a command line that ends in a cluster without the value of its last flag is not accepted; the error shows in that flag's entry, which is on and keeps its value, and all other entries are as the items and the cluster say |
| MissingValues.EmptyValue | arg.c:114-118 | "--name=" of a STRING flag leaves it on, without a value, with the error in its own entry |
| MissingValues.ErrorsStay | arg.c:69-181 | a command line with one error is not accepted, whatever follows |
| MissingValues.EmptyValueRefused | arg.c:69-181 | so one with "--name=" behind its items is not |
| Args.ParseLong | arg.c:73-129 | only the first matching entry is changed, or none |
| Args.ParseLetter | arg.c:134-163 | the effect of one letter of a cluster: set, take the rest of the word, take the next word, or record the missing value |
| Args.ParseCluster | arg.c:131-164 | the letters are read in order until one takes the rest of the word |
| Args.TakeRaw | arg.c:165-175 | a raw word goes to the next raw entry, or nowhere |
| Args.ParseArgs | arg.c:47-181 | the table and the result after the whole command line are the specified ones |
| ArgsRoundTrip.LongFinds | arg.c:73-75 | with unique names a long argument finds its entry and no other |
| ArgsRoundTrip.LongRoundTrip | arg.c:70-129 | each of the four long spellings sets what it says |
| ArgsRoundTrip.ClusterFlags | arg.c:133-139 | the flags of a cluster are set one by one |
| ArgsRoundTrip.ClusterRoundTrip | arg.c:130-164 | a cluster sets its flags, and its last letter takes the rest of the word or the next word |
| ArgsRoundTrip.RawWords | arg.c:165-175 | behind "--" every word is raw, whatever it looks like |
| ArgsRoundTrip.CommandLineParsed | arg.c:69-176 | parsing a rendered command line applies its items in order, then the escaped words |
| ArgsRoundTrip.FlagsSettled | arg.c:74-164 | after all items a flag has what the last item about it says, or its old setting if there is none |
| ArgsRoundTrip.ItemsFill | arg.c:165-175 | the k-th raw word is in the k-th raw entry, and surplus words are dropped |
| ArgsRoundTrip.RoundTrip | arg.c:47-181 | any command line built from known flags in any spelling, raw words and an optional "--" is accepted, and gives every flag its last value and every raw entry its word |

## Left out

- Range.ConsumeNextNum: runs that overflow, where C leaves the result undefined, keep the number their digits spell.
- Range.LlPower: negative exponents, which the source excludes, and results that overflow, which C leaves undefined, are excluded.
- Servers.Server.constructor: the serve path is assumed non-empty and without double slashes; otherwise resolve_path depends on undefined bytes (see JoinExactly).
- Connections.Connection.WriteBody: for a listing with a Range header and for the 404 page, whose range is never set, the bytes it offers may lie outside the body; they are arbitrary in the model, and of such an answer only the head is specified.
- Connections.Connection.WriteFile: a range that ends before the last byte is not delivered as announced by the source; for it the bytes sent are a piece of the file from the start of the range, but how far a complete write gets is not specified. The fclose missing on the complete path is not modelled.
- Connections.Connection.SendBuf: results of 2^31 and above, which C narrows to int, are not narrowed here.
- Connections.Connection.DoState: the file does not change while one response is being sent.
- Answers.Answered: says nothing about 404, 500 and 301 answers to methods other than HEAD, whose range fields the source leaves unset; they are answers to their requests by Answers.ServedRight. The announced length needs dates and MIME types without a CR.
- Servers.Server.AddConnection: slots hold references to connections where the source copies records; the stale pollfd pointer of a record is never read and not modelled.
- Listing.SortFileList: strcoll is assumed to order all names totally.
- Args.TakeLong: a missing value at the end is recorded at the index of the word (arg.c:104); where that lies behind the table the model drops the write.
- ArgsRoundTrip.RoundTrip: command lines with unknown flags are covered by Args.ParseArgs alone.
- LongAnswers.LongAnswer: which calm visits without room for the rest end a file early is left to Answers.Answered, which bounds what is missing by one buffer.
- Responses.MakeHttpResponse: an empty decoded path reads the byte in front of the string in C (http.c:531); the model takes it as not ending in a slash. The 301 head lacks its closing blank line in the source and so in the model; `get_base_name`, which the source computes from the path for the MIME type, is part of the MIME parameter.
- The server stops when poll fails; a run ends there.
- HTML of listings, file sizes and permissions as text, dates, MIME types and printing: text formatting without state.
- Memory release (`free_connection_parts`, `defer.c`, `xmalloc.c`), resource limits, `init_server`, `print_server_lan_addr`, `sockbind`: input and output, or accounting the model has no counterpart for.
- `ls`, `read_file_info` and `get_base_name`: their results are parameters.
- The side programs `addrinfo`, `getifaddrs` and `recvserver`.

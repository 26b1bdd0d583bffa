# sillyweb: a verified model of its core

sillyweb is a small HTTP/1.x server. This project models its stateful parts and proves what
they do over all inputs and all runs: delivering responses over one connection, parsing
requests, percent coding, loading configuration files, and the linked lists of clients and
headers.

The server's records are classes here: `Buffer`, `HeaderList`, `ClientList` with their nodes
on the heap, and `Client` with the fields of a connection. Their methods follow the
procedures of the source and are proved against functions on values. The connection as a
whole is the state machine of module `Sessions`: a step is one pass of `service_clients` over
one client, and what the clock, `poll`, `read`, `send` and `recv` report is chosen by an
adversary within the limits of these calls. `wire` is everything the transport accepted. What
the machine is for is stated elsewhere and does not mention its steps: `Answers.AnswerTo`
gives the response a request deserves from its text alone, `KeepAlive.WireIsAnswers` says
that the wire carries exactly these responses, and `Conversations.Conversation` that k requests
end with all k of them there.

| file | contents |
|---|---|
| CText.dfy | C strings; strchr, strstr, strsep in memory, "%d" |
| Buffers.dfy | the growable buffer and the byte queue it implements |
| Headers.dfy | the linked header list and the sequence it implements |
| Percent.dfy | percent coding, with sscanf("%02x") |
| Config.dfy | the configuration loader |
| ClientLists.dfy | the client list, the sweep over it, runs of accept, close and sweep |
| Requests.dfy | framing, request line, header lines, target |
| RequestTexts.dfy | requests character by character: what ends one, its words, versions, methods, targets |
| Sessions.dfy | one connection as a state machine |
| Delivery.dfy | file transfers over every outcome of reads and sends |
| Listings.dfy | directory listings |
| Answers.dfy | the answer to a request, and that serving it sends that answer's head |
| KeepAlive.dfy | whole runs of a connection |
| Conversations.dfy | k requests in chunks, k answers on the wire |
| Rejections.dfy | what becomes of a connection whose request line is refused |
| Leftovers.dfy | what a response without a transfer leaves to the next request |
| Refusals.dfy | what is dispatched, by cases on the file system, and what a refusal sends |
| Departures.dfy | clients whose socket breaks or whose stream ends |
| Witnesses.dfy | inputs on which the deviations below show |
| Connections.dfy | what a client sees: encoded paths, persistence, errors |
| Served.dfy | which file is served, for requests written out with CRLF line ends |
| Clients.dfy | the client record; each procedure takes the machine's steps |
| Lifetimes.dfy | the service loop over one client record, from accept on |

## Where the code does not do what it is meant to

Each of these is proved, with the exact condition under which the intended property holds, and
those that take a run to show have a run in module `Witnesses`.

- A completed transfer has delivered what was due, the output waiting when it was opened and the
  file, exactly when no send failed and the call that completed it met the end of the file and
  sent all that was buffered (`Delivery.DeliveredExactly`). A send that accepts nothing completes it with nothing
  delivered (`Witnesses.NothingArrives`), a last send that accepts a part leaves the rest
  behind (`Witnesses.TailIsLost`).
- Content-Length is truthful exactly for lengths below 2^31, being printed with "%d"
  (`Delivery.OpenAnnounces`); for a listing also only if the buffer was empty before it
  (`Listings.ListingAnnounces`).
- Decoding undoes encoding exactly on 7-bit text, since a plain `char` is formatted
  (`Percent.RoundTrip`).
- The sweep over the client list leaves an inactive client that is last behind an active one
  (`ClientLists.AfterSweep`, `Witnesses.SweepLeavesOne`), until another client is accepted
  (`ClientLists.LeftoverGoes`), and closes its transport once more on every sweep
  (`ClientLists.ClientList.Cleanup`).
- A configuration line with an empty name or value is read with the one before it
  (`Config.SeenExactly`, `Config.EmptyValueRepeats`).
- A connection persists only for HTTP/1.1 with a Connection line that reads
  `Connection:Keep-Alive`, without a space and without a CR, against section 9.3 of RFC 9112
  (`Connections.PersistsExactly`, `Connections.UsualSpellingsClose`); an HTTP/1.0 client is told
  Keep-Alive and closed (`Connections.Http10PromisedInVain`).
- After a refusal the name of the connection's method is logged, through a null pointer if it never
  had one. This happens exactly if no earlier request named a known method and this one's first
  line does not either: it does not hold three words, its version is not 1.0 or 1.1, or its method
  is unknown (`Rejections.ReadsNullExactly`; five empty lines will do, `Witnesses.BlankLines`).
  Every 501 ends like that (`Rejections.NotImplementedReadsNull`), and only the first request of a
  connection can (`Rejections.ServedHasMethod`). Such a pass is no legal step of the machine.
- On a connection with a method, a request whose line does not hold three words is refused before
  the input is cleared, with a NUL where its first line ended. It is answered once; then the
  connection stays open and is never served again, exactly when no earlier request has left a
  version bit (`Rejections.MalformedExactly`, `Rejections.AnsweredOnce`; a kept GET and five empty
  lines, `Witnesses.KeptThenMalformed`).
- Only the pass that finishes a transfer clears the connection. A listing, and a refusal with
  403, 404 or 500 decided in `dispatch_request`, leave the flags, the request's header lines and
  the response's fields to the next request (`Answers.NothingCleared`, `Leftovers.UnopenedRun`).
  The earlier lines stand in front, so the earlier Host and Connection lines decide
  (`Leftovers.EarlierDecides`), except for an HTTP/1.0 request that finds the mark for 1.1 set: it
  toggles the mark off, and no line is looked at (`Answers.Heard`). The earlier fields stand in front of the next head (`Leftovers.BehindListing`,
  `Witnesses.ListingThenFile`). A head is made of its own fields exactly when none were left over
  (`Answers.OwnHead`). The next head also overtakes what is unsent of the page: the page's rest
  goes on the wire behind that head, in front of the file (`Leftovers.Overtaken`).
- What a listing has not sent yet is in the buffer when the next request opens a file. No call
  of a transfer finds more than a block of 512 bytes there exactly when no more was waiting when
  it was opened (`Delivery.BoundExactly`, `Leftovers.OverfullExactly`); with more, the next read
  asks for a negative number of bytes (`Witnesses.ListingThenFile`).
- A client that ends its stream between two responses is marked completed and nothing else: it
  stays active, and no pass takes the mark for a finished transfer
  (`Departures.EndOfStreamUnnoticed`). Only an error or a hang-up that poll reports makes it
  inactive, for good (`Departures.BrokenForGood`, `Lifetimes.HangUp`).
- The test for a script looks for the requested path in the name of the script directory
  instead of the other way round, so files inside that directory are no scripts, and inside the
  document root are served as they stand (`Served.ScriptsAreServed`).
- A target of more than 1024 characters, or a method of more than 20, is cut there and its rest
  taken for the next word (`RequestTexts.ScanLongTarget`, `RequestTexts.ScanLongVerb`); a path on
  disk of more than 1023 characters is cut there, and the file of that name is served
  (`Served.PathWritten`).
- An escape without two digits is decoded all the same: a percent sign alone disappears, and one
  digit gives the character it stands for while the character behind it is lost
  (`Percent.BadEscapes`).
- `percent_encode` allocates three bytes for each character of its input, and its result with the
  terminator is longer for every input (`Percent.BlockTooSmall`).
- A request with an unknown method is refused only while the connection has never seen a known
  one (`Connections.ResultCodeExact`).
- After one error every later response on the connection is an error
  (`Connections.ErrorsAreForGood`, `Witnesses.FailedIsReachable`).

## Model

| member | source | states |
|---|---|---|
| KeepAlive.WireIsAnswers | main.c:645-703 | over every run from accept on in which requests have answers and reads and sends go well, in any interleaving of chunks, partial reads and partial sends: the bytes received are the dispatched requests and the pending input; there is one answer per request, determined by its own text; between responses the wire is exactly the answers, during one it is a prefix and buffer and unread file are the rest; when the server closes everything was sent |
| Lifetimes.Lifetime | main.c:645-703 | the same for the client record on the heap: created, then serviced pass by pass, its transport has accepted a prefix of the answers, all of them between responses and at the close |
| Lifetimes.ServiceAll | main.c:188-192 | servicing a client record pass by pass leaves it in the state the run of the machine ends in |
| Conversations.Conversation | main.c:645-703 | k requests one at a time, each ending at its first blank line, each in chunks of any kind, its file read and its answer sent in pieces of any size: the run dispatches exactly these k requests, ends with the k answers on the wire, each determined by its own request, all but the last keeping the connection, and the connection goes on exactly if the last one did |
| Conversations.TalkAnswers | main.c:645-703 | every run that brings given requests in given chunks ends with their answers on the wire, and ready for another if the last one keeps the connection |
| Conversations.AllAnswered | main.c:645-703 | whatever k such requests with answers a client asks, in whatever chunks, a run that brings them and ends with their answers exists |
| Conversations.OneRound | main.c:654-698 | one request in chunks, served and sent: one exchange, one more answer, and an idle or a closed connection |
| KeepAlive.RunInv | main.c:645-703 | the invariant behind it holds in every reachable state |
| KeepAlive.PassInv | main.c:654-698 | each pass keeps the invariant and adds the answer of the request it dispatches |
| KeepAlive.AnswerArrives | transfer.c:38-66 | a response under way is finished after at most one call per missing byte and one more, whatever the sends accept; then the next pass leaves all answers complete and the connection goes on exactly if the last answer said so |
| KeepAlive.SendCanGoOn | transfer.c:42-64 | in every state of a response under way a read and a send that go well are possible |
| KeepAlive.ServeCanGoOn | main.c:672-674 | every idle connection with a complete request that has an answer can serve it |
| KeepAlive.ChunkingIrrelevant | main.c:672-690 | however a request is cut into chunks, it is dispatched after its last byte and not before, from a state that depends only on its text |
| Answers.ServeIdle | main.c:274-488 | on an idle connection, parsing and dispatching a request that has an answer puts the answer's head on the wire and opens its file, and sets the flags its persistence calls for |
| Answers.ServeReady | main.c:274-488 | the same whatever an earlier request left: the answer is the one under the earlier header lines in front of its own, its head has the earlier fields in front, and the output waiting stays |
| Answers.OwnHead | main.c:440-461 | the head of a file response holds its own six fields and no others exactly when no header was left over |
| Answers.NothingCleared | main.c:287-303 | a request parsed with 200 that opens no file (a listing, 403, 404, 500) leaves its flags, header lines, virtual host and response fields, and the client active |
| Leftovers.UnopenedRun | main.c:657-664 | they are all still there in every state the connection reaches before it serves another request |
| Leftovers.LeftoverStays | main.c:654-698 | over every run in which nothing is dispatched the leftovers stay, and while no send fails sent and buffered bytes are what they were, in order |
| Leftovers.ListingRun | main.c:841-895 | from a listing on, over every run until the next request: head and page go out in order, and what is left over is the request's header lines and the listing's five fields |
| Leftovers.BehindListing | main.c:440-461 | a request behind a listing gets the answer under the listing's header lines in front of its own, and the listing's five fields in front of its head, which is longer than its own |
| Leftovers.EarlierDecides | headers.c:37-46 | of two lists of header lines one behind the other the first decides every name it has |
| Leftovers.Overtaken | main.c:440-488 | from a listing on, over every run to a file request and through its transfer: the file's head goes on the wire before what is unsent of the page, which follows it in front of the file |
| Leftovers.OverfullExactly | transfer.c:42-43 | a file transfer begins with a possible call if and only if at most 512 bytes were waiting when its request was served |
| Refusals.DispatchCases | main.c:287-411 | a request parsed with 200 gets 403 outside the document root, the file of a regular file, 500 if that does not open, a listing of a directory, 404 for anything else |
| Refusals.RefusalSent | main.c:420-431 | the head of a request refused by the parse, with the fields left over in front, and the output behind it |
| Refusals.UnopenedSent | main.c:287-414 | the head of a request refused with 403, 404 or 500 when it is dispatched, and nothing behind it |
| Refusals.StatusHeadText | main.c:440-488 | the pieces of a head that is no 200 make up its status line with the code in digits, its fields and a blank line |
| Refusals.ParsedFlags | main.c:516-585 | the flags behind a parse from the flags before, the version and the first Connection line, refused or not |
| Rejections.ReadsNullExactly | main.c:433 | the log call behind a refusal reads the method's name through a null pointer if and only if the connection never had a method and the first line gives it none |
| Rejections.NotImplementedReadsNull | main.c:617-619 | every refusal with 501 does |
| Rejections.ServedHasMethod | main.c:541-547 | over every run, once a request has been served the connection has a method, and no request can do so any more |
| Rejections.MalformedExactly | main.c:420-436 | on a connection with a method a line without three words gets 400, and leaves the connection active and never complete again if and only if no version bit was left by an earlier request |
| Rejections.AnsweredOnce | main.c:496-513 | then, over every run, that request is dispatched once, no other ever is, and the server does not close the connection |
| Rejections.StuckForGood | main.c:707-719 | a connection whose input starts with a cut line dispatches nothing over any run |
| Rejections.CutIsIncomplete | main.c:511 | once strsep has cut the first line off, no input behind it makes the buffer complete |
| Rejections.RefusalExactly | main.c:420-436 | on a cleared connection that has a method, or gets one from the request, a refused request leaves it stuck for a malformed line, closed for a version that is not 1.0 or 1.1, and cleared otherwise, each if and only if |
| Answers.HeadArrives | main.c:452-487 | a head arrives as composed exactly when every one of its sends accepts everything |
| Answers.HeadPiecesText | main.c:440-488 | the pieces sent make up a status line, the fields in order and a blank line |
| Delivery.DeliveredExactly | transfer.c:38-66 | a completed transfer has put the output waiting at its start and the file on the wire if and only if no send failed and its last call read the end of file and sent the whole remainder |
| Delivery.SendsFlow | transfer.c:38-66 | while no send fails, sent, buffered and unread bytes are what was due, the output waiting and the file, cut in three, and the buffer holds at most 512; nothing is assumed of the buffer but that it held at most 512 at the start |
| Delivery.BoundExactly | transfer.c:42-43 | over any calls, the buffer holds at most 512 bytes before each if and only if it did before the first |
| Delivery.FlowConserves | transfer.c:42-60 | sent ++ outputbuffer ++ unread == what was due |
| Delivery.SendsBudget | transfer.c:59-60 | a failed send loses bytes for good |
| Delivery.SendsTerminate | transfer.c:42-64 | every transfer is completed within one call more than there are bytes due, whatever reads and sends report |
| Delivery.BlockWritten | transfer.c:42-54 | a call reads at most what is missing to 512 bytes and sends at most 512 |
| Delivery.RunIsSends | main.c:692-694 | while no request is complete, passes that find the client writable are these calls |
| Delivery.OpenAnnounces | transfer.c:15-34 | open announces the length truthfully exactly below 2^31, and starts the transfer at offset 0 |
| Delivery.AnnouncedIsSent | transfer.c:21-66 | after a clean transfer the bytes sent are as many as announced, exactly below 2^31 |
| Listings.ListingAnnounces | main.c:841-895 | the announced length is the page's exactly when it fits an int and the buffer was empty modulo 2^32 |
| Listings.PageText | main.c:841-895 | a listing appends to the output its fixed top with the path inside the document root, the rows in order, and its fixed bottom, and announces the length of the whole |
| Listings.ResidualExactly | main.c:849-853 | the path shown is what stands behind the first occurrence of the document root, the whole path without one |
| Listings.DrainConserves | transfer.c:52-64 | sent and buffered bytes are the page, in order, while no send fails |
| Listings.DrainTerminates | transfer.c:52-64 | if every send accepts a byte, as many calls as there are bytes put the whole page on the wire |
| Listings.PageDeliveredExactly | transfer.c:52-64 | a page that has left the buffer has arrived whole exactly when no send failed |
| Connections.EncodedPathIsServed | main.c:558-609 | a GET of a percent-encoded 7-bit path with a query, under any header lines, is answered with the file at the decoded path on the virtual host it is for |
| Connections.AnswerToPrinted | main.c:492-630 | the answer to a printed request, from the parts it was printed from |
| Connections.PersistsExactly | main.c:576-584 | the connection persists if and only if the version is 1.1 and the first Connection value is Keep-Alive as it stands between the colons |
| Connections.UsualSpellingsClose | main.c:577-583 | no Connection line, or Keep-Alive with a space or a CR, closes the connection |
| Connections.Http10PromisedInVain | main.c:526-528 | an HTTP/1.0 request for Keep-Alive is answered with Keep-Alive and the connection is closed |
| Connections.ResultCodeExact | main.c:505-627 | on a cleared connection the result code is 400, 505, 501, 404, the code so far or 200, decided by the request's text, the virtual host, whether a known method was ever seen, and the code so far |
| Connections.ErrorsAreForGood | client.c:60-96 | once a result code is an error, no later response on the connection is a 200 |
| RequestTexts.CompleteExactly | main.c:707-719 | the buffer is complete exactly when it holds more than four characters and, before any NUL, CR LF CR LF or LF LF |
| Served.CrlfIsServed | main.c:645-703 | a request whose lines all end in CR LF and which has an answer, in whatever chunks it comes: a run of a new connection dispatches exactly it and ends with its answer on the wire |
| Served.CrlfRoundTrip | main.c:505-556 | scan and loop give back the line of such a request, and its header lines with the CR left behind each value |
| Served.CrlfFrames | main.c:707-719 | such a request ends at its first blank line |
| Requests.FramingExact | main.c:707-719 | of the prefixes of a request that ends at its first blank line, in the characters of `RequestTexts.CompleteExactly`, the whole and no other is recognised |
| Requests.CompleteMonotone | main.c:707-719 | more input does not undo recognition |
| RequestTexts.ScanWords | main.c:505-511 | three words with any white space around them scan to these words, of the third at most 20 characters |
| RequestTexts.ScanLongTarget | main.c:505-511 | a target of more than 1024 characters is cut there, and what follows is the third word |
| RequestTexts.ScanLongVerb | main.c:505-511 | a method of more than 20 characters is cut there, and what follows is the target |
| RequestTexts.ScanTooFew | main.c:505-513 | two words are refused |
| RequestTexts.VersionExactly | main.c:524-537 | 1.0 and 1.1 are recognised by "HTTP/" in any letter case and the three characters behind it, and by nothing else |
| RequestTexts.MethodExactly | main.c:51-62 | a method is found exactly when it is one of the eight names, in any letter case |
| Requests.ScanPrinted | main.c:505-513 | a line of three words scans to these words, with LF or CRLF |
| Requests.HeaderLinesExact | main.c:549-556 | on any text the header loop adds one header for each line with a colon, in order |
| Requests.LinesExist | main.c:549-556 | every text is the join of newline-free lines |
| Requests.HeaderOfExact | main.c:551-555 | the name stands before the first colon, the value between the first and the second |
| Requests.HeadersRoundTrip | main.c:549-556 | printed headers come back equal, in order |
| Requests.RequestRoundTrip | main.c:505-556 | printing a request and running scan and loop gives back its line and headers |
| Requests.CutExact | main.c:550-553 | after the three strsep calls, name, value and remaining text are three strings in one block |
| Requests.ParseHeaderLines | main.c:549-556 | the loop, cutting the input buffer's block in place and adding to the list, appends the headers of the text |
| Requests.SplitTarget | main.c:558-574 | splits the query off and decodes the path in the array the target was scanned into, index.html for "/" |
| RequestTexts.RootUri | main.c:558-569 | "/" stands for index.html, with or without a query |
| Served.RootIsIndex | main.c:568-569 | a GET of "/", with or without a query and under any header lines, is answered with index.html of its virtual host |
| RequestTexts.TokensUri | main.c:558-574 | any other target stands for the text its path is written for, whatever is escaped and in whichever letter case |
| Served.EscapesAreServed | main.c:558-609 | a GET of such a target, under any header lines, is answered with the file of that text |
| Served.AnswerWritten | main.c:524-609 | the answer to any method and version written in any letter case: its head names 1.0 or 1.1 as the request did |
| Served.PathWritten | main.c:597-609 | the path on disk is document root, slash and uri, cut at 1023 characters |
| Served.ScriptsAreServed | main.c:602 | a file inside the script directory is no script: inside the document root it is served like any other |
| Requests.TargetRoundTrip | main.c:558-574 | a path sent encoded arrives equal if and only if it is 7-bit text, and the query arrives untouched |
| Percent.PercentDecode | percent.c:7-23 | decodes, also when both arrays are the same one, and touches nothing behind the result, which is no longer than the input; what decoding gives, `Percent.DecodeTokens` and `Percent.BadEscapes` spell out |
| Percent.DigitsWritten | percent.c:14 | the sixteen digits in either letter case have the values 0 to 15 |
| Percent.NoOtherDigit | percent.c:14 | and no other character is a digit |
| Percent.DecodeTokens | percent.c:7-23 | a text with any of its characters escaped, each digit in either letter case, decodes to the text |
| Percent.CapitalRoundTrip | percent.c:7-23 | decoding undoes the encoding with capital digits, for all 256 characters |
| Percent.BadEscapes | percent.c:12-21 | what becomes of a percent sign at the end, before no digit, and before one digit |
| Percent.ScanWritten | percent.c:14 | white space, signs and the prefix 0x in a number of at most two characters |
| Percent.PercentEncode | percent.c:26-42 | computes the encoding |
| Percent.BlockTooSmall | percent.c:32 | the result and its terminator need more than the three bytes allocated for each character, one more exactly for 7-bit text |
| Percent.RoundTrip | percent.c:7-42 | decoding undoes encoding, and the encoding has three characters for each, if and only if the text is 7-bit |
| Percent.DecodeConcat | percent.c:7-23 | decoding distributes over concatenation where no escape is cut |
| Percent.EncodeWhole | percent.c:26-42 | an encoding of 7-bit text is such a place |
| Config.Load | config.c:7-57 | the loop over the two blocks makes the machine's calls and returns 0 exactly when the machine fails; a file that cannot be opened counts as loaded |
| Config.FailsIff | config.c:14-54 | a load fails if and only if a name gets too long, a value gets too long, or a callback rejects |
| Config.NameLimit | config.c:18-26 | a name may have 63 characters, and the 64th fails the load |
| Config.ValueLimit | config.c:41-48 | a value may have 511 characters, and the 512th fails the load |
| Config.TracePrefix | config.c:14-54 | the calls on a prefix of a file are the first calls on the file, and nothing follows a failure |
| Config.LoadPrinted | config.c:14-54 | loading printed records makes the calls of the records as the blocks hold them |
| Config.SeenExactly | config.c:18-23 | that is what was written if and only if no value holds a CR and every empty field stands behind an empty one |
| Config.EmptyValueRepeats | config.c:43-45 | a name without a value gets the value of the line before |
| Config.ConfigRoundTrip | config.c:14-54 | records with names and values come back: the first matching callback once per known record in order, and string settings end as the last values |
| Config.LastWins | config.c:93-106 | the settings after a trace are the last value given for each name |
| Config.CrlfIsLf | config.c:41-42 | CRLF and LF files make the same calls with the same result |
| ClientLists.ClientList.Add | client.c:145-156 | appends at the tail |
| ClientLists.ClientList.Del | client.c:159-181 | unlinks the head, or a node before the tail; the list stays linked, distinct and in order |
| ClientLists.ClientList.Delete | client.c:46-56 | the record ends inactive, its transport closed once, and cleared as `Sessions.Clear` says; the list loses it as `Unlink` says; no other record is touched |
| ClientLists.ClientList.Cleanup | main.c:633-641 | deleting from the list it walks, leaves the active clients in order, and an inactive last one behind an active one; closes and clears exactly the inactive records, once each, and no other record is touched |
| ClientLists.WalkStep | main.c:636-640 | unlinking the inactive client reached turns the list so far into the list so far at the next client |
| ClientLists.UnlinkAt | client.c:159-181 | what unlinking does to a client at any position |
| ClientLists.RegistrySafe | main.c:633-641 | over every run of accepts, closes and sweeps the list is in arrival order without duplicates and holds every client not closed |
| ClientLists.AfterSweep | main.c:633-641 | right after a sweep at most the last client is inactive, and it is so exactly when it was last and inactive and some client was active |
| ClientLists.LeftoverGoes | main.c:633-641 | the client left behind goes with the first sweep after another accept |
| ClientLists.SurvivorsExactly | main.c:633-641 | a client is in the list behind a sweep if and only if it was and is active, or is last and some client is active |
| ClientLists.ClosedForGood | client.c:39-40 | a closed client is inactive in every later state |
| Departures.BrokenForGood | main.c:686-687 | when poll reports an error or a hang-up, the client is inactive over every later run, nothing is sent to it and nothing of it is served |
| Lifetimes.HangUp | main.c:633-687 | on the heap: the pass makes the client inactive and the next sweep closes, clears and unlinks it, or leaves it if it is last behind an active one |
| Departures.EndOfStreamUnnoticed | transfer.c:69-77 | the end of the stream between two responses changes nothing but the completed mark |
| Departures.ClearedRemembers | client.c:60-96 | a cleared client is a new one but for ten fields, which keep their values |
| Departures.NewWritten | client.c:98-142 | the fields of a new client |
| Headers.HeaderList.Add | headers.c:15-33 | appends |
| Headers.HeaderList.GetValue | headers.c:37-46 | returns the first value under the name, or the default |
| Headers.HeaderList.UpdateValue | headers.c:49-58 | rewrites every value under the name and nothing else |
| Headers.HeaderList.DelAll | headers.c:61-74 | empties the list, freeing each node once and reading none after it is freed |
| Headers.GetIsFirst | headers.c:37-46 | the value found is the one at the least index with the name |
| Headers.GetAfterAdd | headers.c:15-46 | after an add, a name has its earlier value if it had one, else the new one |
| Headers.GetAfterUpdate | headers.c:37-58 | an update changes the lookup of its name and no other |
| Buffers.BufferIsQueue | buffer.c:21-50 | after any appends and trims a buffer holds all bytes appended less those taken, in order |
| Buffers.Buffer.Append | buffer.c:21-28 | appends |
| Buffers.Buffer.Ltrim | buffer.c:31-41 | drops the front, or everything when the count is negative or too large |
| Buffers.MoveDown | buffer.c:35 | the overlapping move down |
| CText.DecimalFaithful | transfer.c:23 | "%d" shows a length faithfully exactly below 2^31 |
| CText.Strsep | main.c:550-553 | cuts the string at the first delimiter and moves the cursor behind it |
| CText.SepExact | main.c:550-553 | the text before the delimiter is the string where it was, and the text behind it the string at the cursor |
| CText.CaseWritten | main.c:524 | two characters match exactly when they are the same or the two cases of one of the letters A to Z |
| Clients.Client.constructor | client.c:98-142 | the state of a new client |
| Clients.Client.ClearClient | client.c:60-96 | resets exactly what it names, and keeps result code, method, virtual host and script mark |
| Clients.Client.PlainTransferOpen | transfer.c:15-34 | the fields and the header list end as `Sessions.Open` says of the old state; the result tells whether a file is open |
| Clients.Client.PlainTransferSend | transfer.c:38-66 | buffer, offset, flags and wire end as `Sessions.Send` says of the old state |
| Clients.Client.PlainTransferRecv | transfer.c:69-77 | the input buffer, or the completed flag, ends as `Sessions.Recv` says |
| Clients.Client.PlainTransferClose | transfer.c:95-109 | no file, no transfer, nothing else changed |
| Clients.Client.ParseRequest | main.c:492-630 | cutting lines in the input buffer's own block and decoding the path in place, it leaves the record as `Sessions.Parse` says of the old state, cut input included when the request is refused |
| Clients.Client.GenerateDirListing | main.c:841-895 | appending part by part, it leaves the page, which `Listings.PageText` spells out, in the buffer and its two headers in the list |
| Clients.Client.SendHead | main.c:440-488 | walking the header list, it puts on the wire what each send accepts of its piece |
| Clients.Client.DispatchRequest | main.c:274-436 | file, listing or error: the record ends as `Sessions.Dispatch` says of the old state |
| Clients.Client.Service | main.c:654-698 | one pass over one client ends as `Sessions.Pass` says, inactive if its socket is broken, and the memory of the client's parts stays disjoint |
| Witnesses.NothingArrives | transfer.c:58-63 | for every file of at most a block: a transfer completed with nothing delivered |
| Witnesses.TailIsLost | transfer.c:47-63 | for every file of 3 to 512 bytes: a transfer completed without a failed send and with two bytes delivered |
| Witnesses.SweepLeavesOne | main.c:633-641 | two accepts, a close, a sweep: the closed client is still in the list |
| Witnesses.ListingThenFile | main.c:297-301 | a run on a concrete host: a listing, then a file whose head carries the listing's fields and whose transfer begins with more than a block buffered |
| Witnesses.FailedIsReachable | main.c:609-612 | a run on it: a 404, then a request that has an answer and gets an error |
| Witnesses.KeptThenMalformed | main.c:624-627 | a run: a GET that keeps the connection, then five empty lines, answered with 400; nothing is served on it any more, and it is not closed |
| Witnesses.BlankLines | main.c:433 | five empty lines on a new connection lead through the null pointer: no pass that serves them is legal |

## Left out

- Sockets, poll, SSL, threads, logging, time, and the file system: what they report is a parameter or a function of `Host`; files do not change during a run.
- Clients.Client.PlainTransferRecv: receiving while a file transfer is in progress (transfer.c:79-90), which writes to the file, is not modelled, nor a recv that returns -1 (transfer.c:73-74); runs have no such step.
- Clients.Client.PlainTransferSend: a read that returns -1 (transfer.c:44-45) is not modelled, nor a call during a file transfer with more than 512 buffered bytes, whose read overruns its block; `Leftovers.OverfullExactly` says exactly when a run comes to one.
- Sessions.LegalPoll: leaves these steps out of runs.
- Sessions.LegalServe: leaves out a pass whose log call reads the method through a null pointer, which nothing sensible can follow; `Rejections.ReadsNullExactly` says exactly when a run comes to one.
- Clients.Client.DispatchRequest: scripts (main.c:305-407) are left out, their argument index is never initialised; so is the pass `Sessions.LegalServe` leaves out, and the call of the method's handler, which returns a constant.
- Clients.Client.Service: one client's run; which clients are polled in a pass (main.c:681-698) is left out, the second loop resetting the count it iterates up to.
- Clients.Client.SendHead: reason phrases other than OK are a function of the code; the log calls after a response are left out but for the method's name behind a refusal, also that a cleared uri is printed as a null pointer with %s.
- Clients.Client.GenerateDirListing: rows come formatted from `Host.rows`, and every formatted part is taken to be below 1024 bytes.
- Clients.Client.ParseRequest: the byte behind the input buffer's block is taken to be NUL; `basename` and the MIME table are one function of the local path, though for an extension the table does not have the lookup returns nothing in particular (mime.c:654-666); `get_vhost`, whose body is empty, is a function of the name.
- Percent.PercentDecode: sscanf follows C17 7.21.6.2, under which "0x" alone is no number; that it stores an int through a pointer to char is left out beyond the low byte.
- Percent.PercentEncode: the result is a string, not the block it is built in, which `Percent.BlockTooSmall` shows to be too small.
- Buffers.Buffer.Append: allocation does not fail, and lengths are not bounded by the width of `unsigned int`.
- Config.Load: a descriptor of 0, which the code takes for a failed open, is not modelled.
- Chunked and gzip transfers, `html_encode`, `percent_decode_buffer`, `percent_encode_buffer`, `new_headers`, `filter_nonprintables`, the uint, int, uid and gid handlers, server and virtual host lists: stubs, unused, or a single assignment each.

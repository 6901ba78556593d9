# A verified model of imap-rs

imap-rs is an IMAP client library. This project models, in Dafny, how it turns a byte stream into
responses, how it hands them to concurrent callers, and what it writes; and it proves that these
layers keep the promises the others build on.

- **The response parser.** `Grammar` gives what every routine of the recursive-descent parser
  computes as a function of input, cursor and item budget; `ResponseParser` is the parser itself, a
  class whose methods advance a cursor and a budget, each proved equal to its function. `Stability`
  proves that the three-way verdict (wait, one frame, broken) never changes as bytes arrive.
  `Forms`, `FetchRoundTrip`, `ResponseRoundTrip`, `BalancedValues` and `RawLines` prove what the
  verdict is: the responses the grammar can write are read back whatever follows them; and
  `Completeness` proves that nothing else is recognised.
- **The dispatcher.** `Framing` is the read loop over arbitrary chunks. `Pending` is the shared
  table of waiting commands. `Dispatcher` is the protocol between callers, write loop and read loop,
  as atomic steps in any order; routing and delivery are separate steps, so a stream may be closed or
  dropped in between. `Attribution` is about pipelined commands that compete for the same frames,
  `Broadcasts` about the frames nobody gets, `WriteOrder` about what is written when.
- **What the client writes.** `Commands` (tags and command lines), `Wire` (quoted strings, flag
  lists), `Search` (search criteria), `Base64` and the credentials in `Session`.
- **What is built on top.** `PreTls` is the bounded frame reader and the exchange before STARTTLS;
  `Session` holds the collectors of `fetch` and `search`, which parse each frame a second time;
  `Replies` says what a caller gets back, `Authentication` is the SASL exchange on top of the
  dispatcher. `ServerStream` and `EndToEnd` put all layers together: what `fetch` and `search` return
  is what the server wrote.

`Progress` is the other half of the dispatcher: what it can still do in every reachable state. `Bytes`
and `Ast` hold the shared vocabulary. `Words` spells the protocol's words a second time, for what a
server writes and reads, and `References` says apart from the program what its shared tests accept, so
that reading and writing cannot agree on a wrong spelling. Bytes are integers from 0 to 255, text is a byte
sequence that is well-formed UTF-8, and slices borrowed from the input are copies of it.

Four places where the code and its documentation differ; the model follows the code.

- imap-core/src/parser.rs:4-7 says that trailing garbage after a recognised response is consumed. It
  is refused after every recognised data response, a single space included, unless it goes on with
  the line itself: `ResponseRoundTrip.TrailingBytesRefused`, with the inputs
  `ResponseRoundTrip.TrailingGarbageBreaks` and `ResponseRoundTrip.TrailingSpaceBreaks`.
- imap-core/src/parser.rs:925 says that the value of an unknown FETCH attribute is skipped. The
  attribute breaks the connection: `ResponseRoundTrip.UnknownAttributeBreaks`, with the input
  `ResponseRoundTrip.ModSeqBreaks`.
- imap-client/src/client.rs:26-27 says that frames a dropped stream would have received are
  broadcast. Another open stream may take them: `Broadcasts.DroppedStreamFeedsNext`. The exact
  condition is in `Broadcasts.ClosedStreamFrameBroadcastExactly`, and for any frame in
  `Broadcasts.BroadcastExactly`.
- An unknown response is documented as the raw line, but loses its `* ` when it starts with a name:
  `RawLines.OtherLine`, and `RawLines.NamedLineLosesStar` for one input.

One property fails on a family of inputs: a search tree with an empty conjunction is printed as text
no server can read (`NOT ()`, two spaces in a row). `Search.PrintedIsRead` gives the exact condition,
and `Search.EmptyConjunctionUnreadable` one input. A custom flag that spells a system flag (`\seen`)
passes the check on keywords and is that system flag to a server: `Wire.StoreListMeans`.

To check everything: `dafny verify dfyconfig.toml`.

## Model

| member | source | states |
|---|---|---|
| `Stability.VerdictStable` | imap-core/src/parser.rs:57-61 | Appending bytes never changes a verdict: a response stays the same response with the same length, and a hard error stays a hard error (its value may change). |
| `Stability.PrefixSound` | imap-core/src/parser.rs:106-118 | Every strict prefix of the bytes a response consumed is exactly `Incomplete`: cut numbers, keywords, UTF-8 characters and literals included. |
| `Stability.FrameStandsAlone` | imap-core/src/parser.rs:57-61 | The bytes of one frame parse, alone or before any other bytes, to the response and length found in the buffer they were cut from. |
| `Stability.ParseResponseCarries` | imap-core/src/parser.rs:473-482 | The verdict on one input holds on any other input that agrees with it on the bytes consumed (or extends it, for a hard error). |
| `Grammar.ParseResponse` | imap-core/src/parser.rs:87-100 | A success consumed at least a CRLF, ends in CRLF inside the input, and the items left plus the elements of every list in the response make up the whole budget. |
| `Framing.ChunkingIndependent` | imap-client/src/client.rs:467-520 | Two chunkings of one stream give the same frames in the same order and the same kind of stop, if neither leaves an incomplete tail over the limit. |
| `Framing.RunCuts` | imap-client/src/client.rs:467-520 | Any run dispatches a front of the one-shot cut of what it received; all of it unless it gave up on an oversized frame, and it stops on a bad frame exactly when the one-shot cut meets one. |
| `Framing.TooLargeExactly` | imap-client/src/client.rs:502-515 | The loop gives up with the size error exactly when some read leaves an incomplete tail over the limit before anything bad. |
| `Framing.NothingAfterBadFrame` | imap-client/src/client.rs:490-500 | Once a prefix of the stream holds a hard error, no run dispatches anything beyond the frames before it. |
| `Framing.CutAllFaithful` | imap-client/src/client.rs:477-501 | Cutting loses no byte, every frame parses again to the response it was routed by, and the tail holds no further frame. |
| `Framing.CutAllAppend` | imap-client/src/client.rs:477-501 | Cutting a longer stream keeps the frames already cut and goes on from the tail; after a hard error no frame is added. |
| `Framing.FrameReparses` | imap-client/src/client.rs:478-488 | The copied frame parses with nothing left over to the response seen in the buffer. |
| `Framing.Drain` | imap-client/src/client.rs:477-501 | The inner loop dispatches exactly the one-shot cut of the buffer, and terminates. |
| `Framing.ReadLoop` | imap-client/src/client.rs:459-520 | The read loop dispatches and stops as `Run` says, for any reads, errors and limit. |
| `ServerStream.ConversationDispatched` | imap-client/src/client.rs:459-520 | However the bytes of a written conversation (any FETCH, data, status and continuation responses) are cut up, the read loop dispatches exactly those responses, each with its own bytes and as it was meant, and then sees the end. |
| `ServerStream.CutsBack` | imap-client/src/client.rs:477-501 | The one-shot cut of such a conversation is the conversation, with nothing left over. |
| `ServerStream.NeverOversized` | imap-client/src/client.rs:502-510 | Responses no longer than the limit never trip the size check, whatever the chunks. |
| `EndToEnd.FetchReturnsWhatWasSent` | imap-client/src/session.rs:308-327 | Of any number of pipelined FETCH commands, each returns results exactly when the server answered that command with OK, in time; then it returns one result for each FETCH response the server wrote for it, with exactly the number, last UID and last body written there: for every chunking and every interleaving. |
| `EndToEnd.SearchReturnsWhatWasSent` | imap-client/src/session.rs:354-364 | Of any number of pipelined SEARCH commands, each returns numbers exactly when the server answered that command with OK, in time; then exactly those the server wrote for it, in order. |
| `Replies.CompletedExactly` | imap-client/src/client.rs:546-566 | The reply a caller gets is a completion exactly when the server answered that very command with OK; NO, BAD, BYE, PREAUTH and lost connections are errors. |
| `EndToEnd.ReplySaysWhatWasWritten` | imap-client/src/client.rs:546-566 | The caller of an answered command gets exactly the line the server wrote when its keyword spells OK, an error with exactly the text the server wrote when it spells NO, BAD or PREAUTH, and the loss of the connection when it spells BYE or no answer came. |
| `ResponseRoundTrip.FetchReadsBack` | imap-core/src/parser.rs:834-928 | A FETCH response with any attributes (UID, FLAGS, RFC822.SIZE, INTERNALDATE, `BODY[section]<origin>`, RFC822 parts, ENVELOPE, BODY, BODYSTRUCTURE; NIL, quoted or literal data of any bytes), names in any case and numbers with leading zeros, and anything after it, parses back to the same attributes and leaves exactly what follows; it is refused exactly when flags and attributes overrun the budget. |
| `ResponseRoundTrip.DataReadsBack` | imap-core/src/parser.rs:671-831 | Every data response (FETCH, CAPABILITY, LIST, LSUB, STATUS, SEARCH, FLAGS, EXISTS, RECENT, EXPUNGE), in any spelling, parses back to what was written; only the item budget can refuse it. |
| `ResponseRoundTrip.StatusReadsBack` | imap-core/src/parser.rs:492-576 | Tagged and untagged status responses, with every response code, with or without text or a space after the code, keywords spelled as the standard spells them, in any case, parse back to tag, status, code and text, whatever follows. |
| `ResponseRoundTrip.ContinueReadsBack` | imap-core/src/parser.rs:484-490 | Continuation requests parse back to their code and text. |
| `ResponseRoundTrip.TrailingBytesRefused` | imap-core/src/parser.rs:671-831 | After any recognised data response, bytes that do not go on with the line (a longer last token, or a space and the start of one more name or number) are accepted exactly when they start with CRLF; they are waited on exactly when they are a cut CRLF, or one space after CAPABILITY or SEARCH; anything else is a hard error. |
| `ResponseRoundTrip.TrailingSpaceBreaks` | imap-core/src/parser.rs:756-761 | `* SEARCH ` with a space before CRLF is a hard error. |
| `ResponseRoundTrip.UnknownAttributeBreaks` | imap-core/src/parser.rs:925-927 | A FETCH response with an attribute of unknown name is a hard error, whatever attributes stand before it and whatever follows. |
| `ResponseRoundTrip.ModSeqBreaks` | imap-core/src/parser.rs:925-927 | `* 1 FETCH (MODSEQ (5))` is a hard error. |
| `FetchRoundTrip.UnknownAttribute` | imap-core/src/parser.rs:856-928 | An attribute is refused for its name exactly when the name is none of the ten known ones, in any case; its value is not looked at. |
| `ResponseRoundTrip.TrailingGarbageBreaks` | imap-core/src/parser.rs:671-692 | `* 3 EXISTS x` and CRLF is a hard error. |
| `Completeness.RecognisesExactly` | imap-core/src/parser.rs:473-831 | The parser recognises some bytes as one response, whatever follows them, exactly when they are a writing by the grammar, in any spelling and within the item budget. |
| `Completeness.RecognisedIsWritten` | imap-core/src/parser.rs:473-831 | Whatever the parser recognises is such a writing of a response that means what was read. |
| `Completeness.AttIs` | imap-core/src/parser.rs:856-946 | Every FETCH attribute accepted is the writing of its value under its own name. |
| `Completeness.RespTextIs` | imap-core/src/parser.rs:579-665 | Every response text accepted is the writing of its code and text. |
| `Completeness.NamedBodyIs` | imap-core/src/parser.rs:723-779 | Every body of a named data response accepted is the writing of its value. |
| `FetchRoundTrip.MsgAttAt` | imap-core/src/parser.rs:834-854 | A written attribute list is read to its closing parenthesis, whatever follows; it fails exactly on the budget. |
| `FetchRoundTrip.AttAt` | imap-core/src/parser.rs:856-946 | One written attribute, its name in any case, is read as meant, up to its delimiter, charging its flags. |
| `FetchRoundTrip.SectionAt` | imap-core/src/parser.rs:899-922 | `[section]<origin> nstring` gives back the section, origin and data. |
| `Forms.NStringAt` | imap-core/src/parser.rs:965-992 | NIL in any case, a quoted string and a literal are told apart and read to their end. |
| `ResponseRoundTrip.RespTextAt` | imap-core/src/parser.rs:579-591 | An optional bracketed code, an optional space after it and the text are read to the line end. |
| `ResponseRoundTrip.ArgumentAt` | imap-core/src/parser.rs:604-664 | Each response code takes its own argument and charges its list elements. |
| `ResponseRoundTrip.ListBodyAt` | imap-core/src/parser.rs:782-791 | Flags, delimiter and mailbox name of LIST and LSUB are read in that order. |
| `ResponseRoundTrip.ItemsAreAt` | imap-core/src/parser.rs:793-831 | A STATUS item list is read key by key; it fails exactly on the budget. |
| `RawLines.OtherLine` | imap-core/src/parser.rs:695-721 | An unknown response is handed on byte for byte without its CRLF: from the input's start when it starts with a number, after `* ` when it starts with a name. |
| `RawLines.NamedLineLosesStar` | imap-core/src/parser.rs:723-779 | `* XFOO` and CRLF is handed on as `XFOO`. |
| `BalancedValues.CapturesExactly` | imap-core/src/parser.rs:425-454 | The parser captures a value, whatever follows, exactly when it is a parenthesised run of well-formed items: nested groups, quoted strings, literals of any bytes, other bytes but CR and LF. |
| `BalancedValues.ItemsAt` | imap-core/src/parser.rs:425-454 | Well-formed items, with any bytes inside strings and literals, leave the depth as it was. |
| `BalancedValues.CapturedIsGroup` | imap-core/src/parser.rs:425-454 | Everything captured is such a value. |
| `BalancedValues.DepthNeverOverflows` | imap-core/src/parser.rs:430-440 | The 32-bit depth counter overflows on no input shorter than 2^32 bytes. |
| `BalancedValues.LiteralAt` | imap-core/src/parser.rs:319-337 | A literal is read by its announced length alone. |
| `BalancedValues.LiteralIsForm` | imap-core/src/parser.rs:319-337 | Every literal accepted announces its own length, within the cap. |
| `BalancedValues.AnnouncedLength` | imap-core/src/parser.rs:319-337 | The announced length decides at once: above 67108864 the literal is refused whatever follows; otherwise it is read as soon as that many bytes are there, and waited for until then. |
| `BalancedValues.NumberAt` | imap-core/src/parser.rs:230-242 | A run of digits is read whole, and refused exactly when its value is over 4294967295. |
| `Wire.Quote` | imap-client/src/wire.rs:129-145 | `quote` escapes character by character and fills exactly the capacity it reserves. |
| `Wire.QuoteReadsBack` | imap-client/src/wire.rs:125-145 | The parser stops exactly at the end of a quoted argument and unescaping gives the text back, if and only if the text has no CR, LF or NUL. |
| `Wire.QuotedIsQuotedForm` | imap-core/src/parser.rs:287-316 | Every quoted string the parser accepts is the quoted form of a one-line UTF-8 text. |
| `Wire.UnescapeEscape` | imap-client/src/wire.rs:138-143 | Unescaping undoes escaping. |
| `Wire.EscapeUtf8` | imap-client/src/wire.rs:129-145 | Escaping neither makes nor breaks well-formed UTF-8. |
| `Wire.ImapQuoted` | imap-client/src/credentials.rs:106-117 | A value is quoted exactly when it is 7-bit and has no CR, LF or NUL. |
| `Wire.StoreList` | imap-client/src/session.rs:378-391 | The flag list is built exactly when every custom flag is a keyword; whoever reads it takes it, flag by flag, for the flags given, except for a keyword that itself spells a system flag, and refuses it only over the item budget. |
| `Wire.StoreListReadsBack` | imap-client/src/session.rs:378-391 | The parser reads the STORE list back flag for flag, stopping where it ends; only the item budget refuses it. |
| `Wire.StoreListMeans` | imap-client/src/session.rs:378-391 | What a server reads from the list, by the names of section 2.3.2 of RFC 9051 in any case, is the caller's flags in order; at each place this holds if and only if the flag is no custom keyword that spells a system flag. |
| `Wire.NamedFlagIsRead` | imap-client/src/flags.rs:25-38 | A flag's name is taken for that very flag, if and only if it is no custom keyword that spells a system flag; such a keyword is taken for the system flag. |
| `Wire.FlagListAt` | imap-core/src/parser.rs:371-419 | A parenthesised flag list, `\*` and 8-bit keywords included, is read element by element; it fails exactly on the budget. |
| `Wire.ValidFlagIsText` | imap-client/src/wire.rs:97-118 | A validated flag is one list element for the parser and cannot end the line. |
| `Commands.RawClient.NextTag` | imap-client/src/client.rs:237-241 | Tags are `A` and the counter in at least four digits; the 64-bit counter wraps. |
| `Commands.RawClient.EnqueueCommand` | imap-client/src/client.rs:330-349 | A command spanning lines is refused without effect; a send that fails or is given up uses up its tag and nothing else; any other is queued under a fresh tag. |
| `Commands.RawClient.WriteNext` | imap-client/src/client.rs:400-429 | One round of the write loop writes the next queued line whole, or fails in the middle of it and ends. |
| `Commands.SentDecodes` | imap-client/src/client.rs:142-150 | At any time, splitting the bytes written at CRLF and then at the first space gives back exactly the commands written whole, each under its tag, in order; the tags all differ up to 2^64 commands. |
| `Commands.TranscriptDecodes` | imap-client/src/client.rs:142-150 | The same for any list of commands, whatever tags were skipped and however much of the next line went out. |
| `WriteOrder.WrittenInOrder` | imap-client/src/client.rs:400-429 | In every reachable state commands were written in strictly increasing order, each registered before it was written. |
| `WriteOrder.WrittenDecodes` | imap-client/src/client.rs:400-429 | Whatever the interleaving, the bytes written decode to the commands written, each under its own tag. |
| `Commands.TagsDistinctExactly` | imap-client/src/client.rs:237-241 | All tags differ exactly as long as no more than 2^64 were issued. |
| `Commands.TagValue` | imap-client/src/client.rs:237-241 | The counter can be read off a tag, also past four digits. |
| `Commands.TagShape` | imap-client/src/client.rs:237-241 | A tag is `A` and at least four digits, five bytes exactly below 10000, without a leading zero beyond four digits. |
| `Search.PrintedIsRead` | imap-client/src/search.rs:56-87 | A reader of section 6.4.4 of RFC 9051 can read the printed text if and only if no conjunction is empty and no text spans lines, and gets the flattened tree; the reader has its own spelling of the keys. |
| `Search.PrintingKeepsMeaning` | imap-client/src/search.rs:56-87 | What is read matches exactly the messages the caller's tree matches. |
| `Search.SentQueryIsRead` | imap-client/src/wire.rs:17-24 | Among queries that pass the line-break check, those with an empty conjunction are exactly the unreadable ones. |
| `Search.EmptyConjunctionUnreadable` | imap-client/src/search.rs:74-86 | `NOT ()` is sent for `Not(And([]))` and cannot be read. |
| `Search.PrintedKeysAt` | imap-client/src/search.rs:56-87 | What follows a printed criterion (end, space or closing parenthesis) does not change how it is read. |
| `Search.FlatMeans` | imap-client/src/search.rs:74-78 | Flattening nested conjunctions keeps the meaning. |
| `Search.PrintOneLine` | imap-client/src/search.rs:3-4 | The printed text has a line break exactly when one of its texts has. |
| `Base64.EncodeInto` | imap-client/src/base64.rs:36-52 | The encoding is appended to the buffer, which grows by exactly `encoded_len` bytes. |
| `Base64.DecodeExactly` | imap-client/src/base64.rs:32-52 | A strict decoder of section 4 of RFC 4648 accepts exactly what the encoder writes and gives back the input. |
| `Base64.EncodeLength` | imap-client/src/base64.rs:24-28 | The encoding has length `encoded_len`. |
| `Session.SaslPlainLine` | imap-client/src/session.rs:510-524 | The line is the encoded message and CRLF; message and line have exactly the capacities reserved for them. |
| `Base64.GroupDecodes` | imap-client/src/base64.rs:55-63 | Each group, padded or not, decodes to its own bytes. |
| `Session.PlainReadsBack` | imap-client/src/session.rs:506-524 | A server reads user and password back from the line. |
| `Session.PlainLineInjective` | imap-client/src/session.rs:506-524 | Different credentials never give the same line. |
| `Authentication.AuthenticatePlain` | imap-client/src/session.rs:214-246 | Credentials with NUL are refused before anything is written; otherwise they are written at most once, and only after a continuation request that the dispatcher routed to this command's stream; success means the server then answered this command's tag with OK; every other outcome says exactly which reply came, or that none did. |
| `Authentication.FirstFrameIsContinuation` | imap-client/src/session.rs:563-580 | The first frame of the stream parses as a continuation request of the server, sent ahead of the frame that answers the command. |
| `Authentication.EndedIsAnswered` | imap-client/src/session.rs:563-580 | A stream that ends without a frame means that the command, once registered, has been answered: waiting for the reply without a timeout cannot hang. |
| `Session.LoginCommand` | imap-client/src/session.rs:198-212 | The command is built exactly when both values can be quoted. |
| `Session.LoginReadsBack` | imap-client/src/session.rs:494-504 | Reading the two arguments of the LOGIN line gives the credentials back. |
| `Session.FetchResultOf` | imap-client/src/session.rs:539-557 | A frame gives a result exactly when it parses as FETCH; the result holds the last UID and the last body among its attributes. |
| `Session.Fetch` | imap-client/src/session.rs:308-327 | The loop collects one result per delivered FETCH frame, and returns them exactly when the reply comes in time and is the tagged OK. |
| `Session.RunSearch` | imap-client/src/session.rs:354-364 | The loop returns the concatenated id lists of the delivered frames exactly when the reply comes in time and is the tagged OK. |
| `Session.OneResultPerFrame` | imap-client/src/session.rs:319-325 | Routed FETCH frames give one result each, in order, each that of the response the router saw. |
| `Session.IdsConcatenated` | imap-client/src/session.rs:356-362 | Routed SEARCH frames give the concatenation of their id lists. |
| `Session.DispatchedFramesReparse` | imap-client/src/client.rs:478-500 | However the stream was chunked, every dispatched frame parses on its own to the response it was routed by. |
| `Session.FetchSeesRouted` | imap-client/src/client.rs:272-291 | In every reachable state the collected results are, in wire order, those of the FETCH responses routed to the stream. |
| `Session.PipelinedFetch` | imap-client/src/session.rs:308-327 | Each of any number of pipelined FETCH commands returns one result for each response the server sent for it, and no other. |
| `Session.PipelinedSearch` | imap-client/src/session.rs:354-364 | Each of any number of pipelined SEARCH commands returns exactly the ids the server sent for it. |
| `Dispatcher.EveryFrameOneFate` | imap-client/src/client.rs:526-578 | In every reachable state each dispatched frame has exactly one fate: held by the read loop, reply, buffered, received, lost with a dropped stream, or broadcast. |
| `Dispatcher.StreamContents` | imap-client/src/client.rs:160-182 | Received and buffered frames of a stream are, in wire order, frames its filter accepts, all before its tagged response, never more than 32 buffered. |
| `Dispatcher.ClosedStreamRebroadcasts` | imap-client/src/client.rs:174-182 | Of the frames a closed stream accepted, those neither received nor still buffered were all broadcast. |
| `Dispatcher.RepliesExactlyOnce` | imap-client/src/client.rs:96-109 | No reply sender is used twice, a tagged frame answers only its own command, and every collector has a pending reply. |
| `Dispatcher.StopSettles` | imap-client/src/client.rs:451-457 | When the read loop stops, every command registered by then is answered and no collector remains. |
| `Dispatcher.AnswersStand` | imap-client/src/client.rs:546-578 | Answers, once given, stand for the rest of the run, and the wire order only grows. |
| `Dispatcher.StreamEndMeansAnswered` | imap-client/src/client.rs:162-168 | When an open stream has no sender and nothing buffered, so that `next_frame` returns none, every frame meant for it was received and its command, once registered, was answered. |
| `Dispatcher.StepKeeps` | imap-client/src/client.rs:400-578 | Each of the twelve atomic steps keeps the whole invariant. |
| `Dispatcher.ReachableInv` | imap-client/src/client.rs:400-578 | The invariant holds in every reachable state. |
| `Dispatcher.RegisterKeeps` | imap-client/src/client.rs:431-445 | Registering, before the write, keeps the invariant. |
| `Dispatcher.RouteKeeps` | imap-client/src/client.rs:526-540 | Routing a frame keeps the invariant. |
| `Dispatcher.DeliverKeeps` | imap-client/src/client.rs:546-578 | Delivery, also to a stream closed since routing, keeps the invariant. |
| `Dispatcher.DrainKeeps` | imap-client/src/client.rs:174-182 | Draining a closed stream keeps the invariant. |
| `Dispatcher.StopKeeps` | imap-client/src/client.rs:451-457 | Failing all pending commands keeps the invariant. |
| `Progress.DeliverEnabledExactly` | imap-client/src/client.rs:569-573 | In every reachable state the frame in hand can be delivered if and only if it is not for an open stream holding exactly 32 frames. |
| `Progress.ReceivingMakesRoom` | imap-client/src/client.rs:569-573 | When it cannot, the caller of that stream can take a frame, and the frame in hand can be delivered then. |
| `Progress.HeldFrameAccepted` | imap-client/src/client.rs:569-573 | A frame held for an open stream is accepted by it after at most one receive and the delivery. |
| `Progress.CommandCompletes` | imap-client/src/client.rs:269-291 | A pending command whose stream the read loop chooses runs to its end: whatever data the server sends for it, and however much, its caller receives all of it in order by going on receiving, and then its answer, with the stream ended; nothing else has to happen. |
| `Progress.EverythingDispatched` | imap-client/src/client.rs:459-520 | From every reachable state between frames, any further responses can all be dispatched, if callers of full streams go on receiving. |
| `Progress.QueueWritten` | imap-client/src/client.rs:400-429 | From every state in which the write loop is ready it can register and write every queued command, in the order queued. |
| `Progress.QueueTakesExactly` | imap-client/src/client.rs:330-349 | A command can be queued if and only if the write loop runs and fewer than 32 requests wait. |
| `Progress.IntoReplyRebroadcasts` | imap-client/src/client.rs:174-182 | A caller that turns to `into_reply` can close its stream at any time, and all that was buffered is then broadcast, in order. |
| `Progress.DroppingLoses` | imap-client/src/client.rs:170-174 | Dropping a stream loses exactly the frames buffered in it, and moves no other. |
| `Progress.ConnectionEndSettles` | imap-client/src/client.rs:451-520 | From every reachable state the end of the connection is reached after at most one receive and a delivery, and leaves every registered command answered. |
| `Attribution.PipelinedAttribution` | imap-client/src/client.rs:89-109 | For any number of in-flight commands with one filter, answered in order and not closed early, each stream gets exactly its own block of frames. |
| `Broadcasts.BroadcastExactly` | imap-client/src/client.rs:526-578 | An untagged frame, whatever happens between its routing and its delivery, is then broadcast if and only if the oldest open stream that accepted it, if there was one, is no longer open. |
| `Broadcasts.ClosedStreamFrameBroadcastExactly` | imap-client/src/client.rs:24-27 | A frame a closed or dropped stream would have received is broadcast exactly when no younger stream took it over: none was open and accepting at routing, or the oldest such one was no longer open at delivery. |
| `Broadcasts.RoutesToChosen` | imap-client/src/client.rs:526-540 | Routing picks the oldest open stream that accepts the frame, and the broadcast exactly when there is none. |
| `Broadcasts.DeliveryBroadcastsExactly` | imap-client/src/client.rs:546-578 | Delivery broadcasts the frame exactly when that was its route or its stream is not open. |
| `Broadcasts.DroppedStreamFeedsNext` | imap-client/src/client.rs:24-27 | A reachable state in which a dropped stream's next frame goes to another command's stream and not to the broadcast. |
| `Broadcasts.ClosedBeforeDelivery` | imap-client/src/client.rs:565-577 | A reachable state in which a frame an open stream had accepted was broadcast, because the stream was closed before the delivery. |
| `Attribution.OldestWins` | imap-client/src/client.rs:97-102 | The oldest open stream that accepts a frame gets it. |
| `Pending.PendingCommands.CollectorFor` | imap-client/src/client.rs:97-102 | The search finds the oldest open collector that accepts the frame. |
| `Pending.PendingCommands.Complete` | imap-client/src/client.rs:104-108 | The tag's reply and collectors are removed, nothing else. |
| `Pending.PendingCommands.Register` | imap-client/src/client.rs:431-445 | The reply is recorded and the collector goes to the back. |
| `Pending.PendingCommands.FailAll` | imap-client/src/client.rs:451-457 | Everything is removed, and every pending command is failed. |
| `PreTls.ReadOneFrame` | imap-tls/src/lib.rs:328-371 | Timeouts and I/O errors aside, the answer depends only on the first 65536 bytes on offer, not on chunking; frame, buffer and unread bytes make up what was there before; the buffer stays within the limit. |
| `PreTls.FirstFrameFits` | imap-tls/src/lib.rs:328-371 | The first frame is returned if and only if it completes within 65536 bytes. |
| `PreTls.OutcomeExactly` | imap-tls/src/lib.rs:328-371 | Each of the reader's four answers by the bytes on offer alone: a frame that completes within 65536 bytes; malformed exactly when some front of at most 65536 bytes is broken; too large exactly when the first 65536 bytes are still incomplete; closed exactly when all there is, fewer bytes, is incomplete. |
| `PreTls.WindowDecides` | imap-tls/src/lib.rs:336-352 | A verdict on any part of the window is the verdict on the window. |
| `PreTls.StarttlsSteps` | imap-tls/src/lib.rs:245-310 | A run that ends well wrote exactly the two command lines, and of the frames between greeting and OK for `T0001` the last that carries a capability list names STARTTLS; it ended on the OK for `T0002`, and every byte read belongs to a consumed frame. It is refused for the missing offer if and only if that OK came and the last list does not name STARTTLS; `T0002` is never written without the offer. |
| `PreTls.AwaitCapability` | imap-tls/src/lib.rs:255-287 | The loop ends at the first answer to `T0001`; an OK gives whether the last capability list before it names STARTTLS, anything else is refused. |
| `PreTls.LastListDecides` | imap-client/src/capabilities.rs:104-118 | Each capability list replaces the one before, so that after any frames STARTTLS counts as offered if and only if the last list among them names it, in any case. |
| `PreTls.LinesSpelled` | imap-tls/src/lib.rs:255-285 | The two command lines, byte for byte. |
| `PreTls.AwaitStarttls` | imap-tls/src/lib.rs:289-309 | The loop ends at the first answer to `T0002` and succeeds exactly when that is OK with nothing buffered after it. |
| `ResponseParser.Parser.SkipWhile` | imap-core/src/parser.rs:219-228 | The scanning loop stops at the first byte outside its class. |
| `ResponseParser.Parser.ParseQuoted` | imap-core/src/parser.rs:287-316 | The loop finds the closing quote and lets only quoted-specials be escaped. |
| `ResponseParser.Parser.ParseParenAtomList` | imap-core/src/parser.rs:371-391 | The loop reads the list element by element, charging each. |
| `ResponseParser.Parser.ParseBalancedParens` | imap-core/src/parser.rs:425-454 | The loop ends at the parenthesis that closes the first, skipping strings and literals. |
| `ResponseParser.Parser.ParseCapabilities` | imap-core/src/parser.rs:727-733 | The loop reads atoms up to the first byte that is no space, charging each. |
| `ResponseParser.Parser.ParseStatusItems` | imap-core/src/parser.rs:793-831 | The loop reads the STATUS items, charging each. |
| `ResponseParser.Parser.ParseSearchIds` | imap-core/src/parser.rs:756-761 | The loop reads numbers up to the first byte that is no space. |
| `ResponseParser.Parser.ParseFetchMsgAtt` | imap-core/src/parser.rs:834-854 | The loop reads the attributes, charging each. |
| `ResponseParser.Parser.FindCurrentLineStart` | imap-core/src/parser.rs:714-721 | The loop walks back to a CRLF or the start of the input. |
| `ResponseParser.ParseResponse` | imap-core/src/parser.rs:57-61 | The remainder and the response, or the error, that the grammar gives. |
| `Stability.NumberCarries` | imap-core/src/parser.rs:219-242 | A number cut by the end of the input goes on to one at least as large, at the same cost, or to a hard error; elsewhere the answer carries over. |
| `Stability.ExpectNilCarries` | imap-core/src/parser.rs:204-217 | A keyword at the end of the input may turn into an error, never into another value. |
| `Stability.QuotedCarries` | imap-core/src/parser.rs:287-316 | The verdict on a quoted string is stable. |
| `Stability.LiteralCarries` | imap-core/src/parser.rs:319-337 | The verdict on a literal is stable. |
| `Stability.BalancedCarries` | imap-core/src/parser.rs:425-454 | The verdict on a parenthesised value is stable. |
| `Stability.TaggedCarries` | imap-core/src/parser.rs:517-541 | The verdict on a tagged response is stable, cut status keywords included. |
| `Stability.StatusKeywordSettled` | imap-core/src/parser.rs:559-576 | A byte that is no letter settles which status keyword stands before it. |
| `Stability.FetchMsgAttCarries` | imap-core/src/parser.rs:834-854 | The verdict on an attribute list is stable. |
| `Stability.NamedDataCarries` | imap-core/src/parser.rs:723-779 | The verdict on a named data response is stable. |
| `Stability.NumericDataCarries` | imap-core/src/parser.rs:671-692 | The verdict on a numeric data response is stable. |
| `References.Utf8Exactly` | imap-core/src/parser.rs:106-118 | The text test accepts exactly the encodings, by section 3 of RFC 3629, of sequences of Unicode scalar values. |
| `References.ClassesExactly` | imap-core/src/parser.rs:1013-1020 | Each scanning class, by the characters it leaves out; ATOM-CHAR is every byte but controls, DEL, space and `(){%*"\]`. |
| `References.FoldsLettersOnly` | imap-core/src/parser.rs:151-162 | Case folding identifies the two cases of each letter and nothing else. |
| `References.BoundariesExactly` | imap-core/src/parser.rs:165-181 | A keyword ends at the end of the input, or before a space, CR, LF, `]` or `)`. |
| `References.FlagKeywordExactly` | imap-client/src/wire.rs:97-118 | A flag keyword is a non-empty atom of 7-bit characters with at most one backslash before it. |
| `References.Limits` | imap-core/src/parser.rs:36-47 | The limits and integer widths, as numbers. |

## Left out

- Machine arithmetic on offsets: positions and lengths are unbounded, which is the code's behaviour for inputs shorter than 2^63 bytes. Numbers in responses, literal lengths, the nesting depth and the tag counter have their real widths.
- The dispatcher's tags: each command has its own, which `Commands.TagsDistinctExactly` gives for fewer than 2^64 commands; at the wrap-around the protocol results say nothing.
- Stability.VerdictStable: the error value may differ on an extension, because the code's may (a budget error at a cut number can become an invalid number).
- Framing.ChunkingIndependent: the error value of a bad frame may depend on the chunking, for the same reason.
- PreTls.ReadOneFrame: a timeout or I/O error is a nondeterministic outcome of a read, at any time.
- Attribution.PipelinedAttribution: says nothing once an earlier stream of the family was closed before its answer; closed collectors are skipped by design.
- Authentication.AuthenticatePlain: a connection that fails while a line is being queued, and the capability refresh after success, are not modelled; a continuation request is the command's when the dispatcher routes it to its stream.
- PreTls.StarttlsSteps: the server's text in a refusal is left out; which refusal it is stays.
- Progress.CommandCompletes: says that the run exists, not that a scheduler takes it: fairness is not modelled. A caller that stops receiving from its full, open stream does stop the read loop, by design.
- Session.Fetch: the timeout around the whole exchange is a reply that does not come in time.
- ResponseRoundTrip.TrailingBytesRefused: bytes that go on with the line (more of its last atom or number, or a space and the first character of one more name or number) begin a different line, with a verdict of its own.
- Broadcasts.BroadcastExactly: is about the delivery; a frame buffered by then may still be broadcast when its stream is closed, by `Dispatcher.ClosedStreamRebroadcasts`.
- EndToEnd.FetchReturnsWhatWasSent: the server is any that writes responses by the grammar, within the item budget and the frame limit, and answers the pipelined commands in order.
- Completeness.RecognisesExactly: unknown responses, which are handed on as raw lines, are the business of `RawLines.OtherLine`.
- Search.PrintedIsRead: the reader knows the search keys the client can print, not the whole list of section 6.4.4; RECENT is taken from RFC 3501, since RFC 9051 no longer has it.
- TCP, TLS, certificates, DNS, the scheduler and real clocks.
- Sending a frame to a stream is one step: a send that got its slot just before the stream was closed is not told apart from one delivered before.
- The event broadcast is an append-only log: overwriting for slow receivers is not modelled, and nothing is said about the order of rebroadcast and live frames.
- Raw writes in the write queue (IDLE's `DONE`), the IDLE handle, and commands sent after the read loop stopped.
- Wiping of secrets: only the exact buffer lengths that avoid reallocation are proved.
- Sequence sets, FETCH item lists, capability and flag name tables, `select`, `noop` and the other one-line session methods, and the type-state markers: one-branch facts.

# Verified models of the shared C utilities

Models, in Dafny 4.11, of the parts of the C utility library that keep state over many calls: the Berkeley socket
adapter, the TLS adapters on OpenSSL and SChannel, the cache of certificate revocation lists, the chunked HTTP body
reader, the Windows condition variable, the intrusive list, the tick counter, the byte buffer, and the number and text
codecs. `dafny verify dfyconfig.toml` checks everything. Nothing here runs the C code.

Code that works step by step is a class or a method with loops over the same variables; each such method is proved
against a specification function, and what the library promises is proved about that function or about every run.
The operating system, the TLS libraries, memory, clocks and the network are adversaries: their answers are parameters
or nondeterministic choices that the contracts range over. One module stands for one part:

| module | models |
|---|---|
| `SocketState`, `SocketSendQueue` | the send queue of `adapters/socketio_berkeley.c` over any run of open, close, send and dowork |
| `SocketConnect` | its connection attempts: address checks, the poll loop with its deadline, the address loop |
| `OpensslAdapter` | the state machine of `adapters/tlsio_openssl.c` over a synchronous underlying IO, with a user that may close from inside a callback |
| `CrlCache` | the memory cache of the same file: slots, reference counts, distribution points |
| `SchannelReceive`, `SchannelSend` | reassembly and fragmentation in `adapters/tlsio_schannel.c` |
| `ByteBuffer`, `ChunkedBody` | `src/buffer.c` and the chunked response reader of `adapters/httpapi_compact.c` |
| `ConditionVariable` | `adapters/condition_win32.c` and its lock, as interleaved steps of any number of threads |
| `DoublyLinkedList` | `src/doublylinkedlist.c` on families of disjoint rings |
| `TickCounter` | the performance counter path of `adapters/tickcounter_win32.c` |
| `NumberText` | `strtoull_s` and `size_tToString` of `src/crt_abstractions.c` |
| `BitStream`, `Base64`, `Base32` | `src/base64.c` and `src/base32.c` against streams of bits |
| `Messages` | the messages in the two send queues |
| `Common` | bytes, options, sequences and remainders |

## What was found

Where the code falls short of what its documentation or its users expect, the model follows the code, and the lemma
named here says exactly when it does.

- Closing the socket leaves the queue as it is, so a new connection first sends what the old one left
  (`SocketSendQueue.DrainedStream`). A message is refused although a prefix of it is on the wire exactly if the queue was
  empty, the socket took part of it and memory for the rest was refused (`SocketSendQueue.OrphanedExactly`).
- The SChannel adapter drops a fragment, without telling anyone, exactly if the fragment does not fit into its buffer and
  the enlargement fails (`SchannelReceive.Adapter.OnBytesReceived`). What the fragment carried is then missing from the
  plaintext (`SchannelReceive.DroppedFragmentIsLost`), or what follows is taken for it
  (`SchannelReceive.DroppedFragmentGarbles`).
- An open call of the OpenSSL adapter can no longer be answered in four cases: it reports failure itself
  (`OpensslAdapter.TlsIo.OpenIo`); storing received bytes fails during the handshake or after it has failed
  (`OpensslAdapter.TlsIo.OnUnderlyingBytesReceived`); the user closes after the handshake has failed and before dowork,
  because a failed handshake does not count as an opening state (`OpensslAdapter.TlsIo.CloseIo`); or the user destroys
  the adapter before the answer (`OpensslAdapter.TlsIo.Destroy`). There are no others, and nothing that is called later
  answers such a call (`OpensslAdapter.TlsIo.SilencedStaysUnanswered`). Only if the underlying IO calls back when the
  adapter does not wait for it, the callback is passed on, and then comes out of order exactly if no open call is
  unanswered (`OpensslAdapter.TlsIo.OnUnderlyingOpenComplete`).
- A certificate list that cannot be pushed on the caller's stack keeps a reference that nobody owns
  (`CrlCache.Cache.LoadFromDistributionPoints`).
- A chunked body whose size line is cut between CR and LF cannot be read, although nothing is wrong with it
  (`ChunkedBody.DecodesExactlyIfTogether`, `ChunkedBody.CutBehindCr`). Waiting for the data of a chunk has no time
  limit, whereas the documentation promises 20 seconds (`ChunkedBody.WaitsForEver`). A size of 2 GiB or more is read
  by its low half only, if that is not negative as an `int`, and otherwise fails (`ChunkedBody.Take`). A chunk that is
  only skipped has to come within the retries, and if the low half of its size is negative, it is reported as a failure
  although it has been skipped (`ChunkedBody.SkipsExactlyIfInTime`).
- A post wakes no wait that began before it exactly if it finds no thread counted, if SetEvent fails, if its signal is
  merged with one that is still pending, if the last counted waiter erases it, or if a wait that began later takes it
  (`ConditionVariable.EveryPostAccountedFor`, `ConditionVariable.WastedExactly`, `ConditionVariable.ServedExactly`). In
  all of these but the failure nobody is told, and each can leave a thread asleep that was waiting when the post was made,
  even if all posts hold the lock: a waiter releases the lock before it is counted
  (`ConditionVariable.WakeUpCanBeLost`); two posts to two counted waiters can make one signal
  (`ConditionVariable.SecondSignalCanBeMerged`); a counted waiter that times out can erase a signal that an uncounted one
  needs (`ConditionVariable.SignalCanBeErased`); and a thread that begins to wait after the post can take the signal first
  (`ConditionVariable.SignalCanBeStolen`).
- Reading the tick counter often loses time, unless the frequency and a million divide one another
  (`TickCounter.ExactExactlyIfCommensurate`).
- `strtoull_s` does not convert a lone "0" in base 0 or 8, nor "0x" without a digit in base 0 or 16
  (`NumberText.LeadingZero`); so zero is the one number whose decimal text is not read back in base 0
  (`NumberText.ReadBackInBaseZero`). A negative number out of range yields 1 (`NumberText.NegativeOutOfRange`).
- The base 32 decoder takes '{' for '2' and otherwise does not look whether characters belong to the alphabet
  (`Base32.Alphabet`, `Base32.Decode`). It gives back the text it was given, when its result is encoded again, exactly
  for canonical texts (`Base32.EncodingUndoesDecodingExactly`).

## Model

| member | source | states |
|---|---|---|
| `SocketSendQueue.SocketIo.Send` | adapters/socketio_berkeley.c:1062-1143 | the socket is asked once, with all the bytes, exactly if the adapter is open and nothing is queued; a message is accepted exactly if it is not empty, the adapter is open, and it can be queued, or has been taken whole, or did not fail and what is left of it can be queued; where its bytes are then, and whether it has been completed |
| `SocketSendQueue.SocketIo.DoWork` | adapters/socketio_berkeley.c:1145-1212 | each call offers the head of the queue; the socket's answers settle which messages leave, and how, and what stays; the history still explains the queue, and a hard error puts the adapter in error |
| `SocketSendQueue.SocketIo.OfferHead` | adapters/socketio_berkeley.c:1150-1212 | one round: the head leaves exactly if it is taken whole or meets a hard error, and otherwise what was not taken of it stays |
| `SocketSendQueue.StopsOnlyWhenShort` | adapters/socketio_berkeley.c:1145-1212 | messages remain queued exactly if the last thing the socket was offered was the head of the remaining queue and it took less than all of it |
| `SocketSendQueue.SocketIo.SocketTakesTheStream` | adapters/socketio_berkeley.c:1062-1212 | over any run, what the socket has taken since a loss-free connection was opened, followed by what is queued, is what was queued then followed by the messages accepted since |
| `SocketSendQueue.OrphanedExactly` | adapters/socketio_berkeley.c:1095-1137 | exactly when a refused message has left a prefix on the wire |
| `SocketSendQueue.SocketIo.Open` | adapters/socketio_berkeley.c:903-1028 | succeeds exactly from closed, keeps the queue, and begins a stream that owes the bytes already queued |
| `SocketSendQueue.SocketIo.Close` | adapters/socketio_berkeley.c:1030-1060 | closes unless closed or closing, and keeps the queue and the history |
| `SocketSendQueue.SocketIo.AddPendingIo` | adapters/socketio_berkeley.c:234-273 | adds one message at the tail, or leaves the queue alone exactly if memory is refused |
| `SocketSendQueue.ExplainsAfterSend` | adapters/socketio_berkeley.c:1062-1143 | every outcome of a send keeps both invariants: messages leave in acceptance order, and bytes taken followed by bytes queued are the bytes accepted |
| `SocketSendQueue.ExplainsAfterOpening` | adapters/socketio_berkeley.c:1030-1060 | a new connection keeps the invariants with the old queue counted as owed |
| `SocketSendQueue.ExplainsAfterShortWrite` | adapters/socketio_berkeley.c:1185-1192 | so does a short write of the head message |
| `SocketSendQueue.ExplainsAfterWholeWrite` | adapters/socketio_berkeley.c:1194-1212 | so does a whole write with its completion callback |
| `SocketSendQueue.ExplainsAfterLoss` | adapters/socketio_berkeley.c:1174-1183 | so does a hard error that drops the head message |
| `SocketSendQueue.CompletionsFireInOrder` | adapters/socketio_berkeley.c:1150-1212 | in every history, with hard errors too, completions fire in acceptance order, at most once a message, exactly for the messages sent whole that asked for it, and not before the last byte was taken |
| `SocketSendQueue.CompletedPlusQueuedIsAccepted` | adapters/socketio_berkeley.c:1084-1137 | without errors, completed and queued messages add up to the accepted ones |
| `SocketSendQueue.DrainedStream` | adapters/socketio_berkeley.c:1041-1049 | a drained loss-free connection has sent exactly its own messages if and only if the queue was empty when it was opened |
| `SocketConnect.Validate` | adapters/socketio_berkeley.c:669-702 | zero exactly for the well-formed addresses, 97 for a family that is not supported, 22 for any other defect |
| `SocketConnect.PollsAreBounded` | adapters/socketio_berkeley.c:803-834 | polls on schedule are fewer than the nanoseconds in the allowance |
| `SocketConnect.AwaitConnection` | adapters/socketio_berkeley.c:784-834 | for any interruptions under an advancing clock the loop ends, no poll outlasts the deadline by a millisecond, and the last answer, of a poll or of the clock, decides how it ends and with which errno |
| `SocketConnect.Connector.ConnectTo` | adapters/socketio_berkeley.c:704-901 | one descriptor is left open exactly on success, none otherwise; success is exactly a `connect` that succeeds at once or a socket that shows no error behind a successful poll, and any other ending has its own code |
| `SocketConnect.AttemptSteps` | adapters/socketio_berkeley.c:704-790 | the steps of an attempt, in their order, each only if the one before succeeded, for the address and with the allowance given |
| `SocketConnect.AttemptWaits` | adapters/socketio_berkeley.c:803-875 | how the wait goes on: after an interruption with the clock and a poll of at least 5 ms, after success with the error of the socket |
| `SocketConnect.AttemptEnds` | adapters/socketio_berkeley.c:704-901 | which code belongs to which ending |
| `SocketConnect.Connector.ConnectToFirst` | adapters/socketio_berkeley.c:973-1008 | the addresses are tried in order, each valid one with its own attempt, until one connects; otherwise the code of the last one looked at |
| `SocketConnect.FirstSuccessMeans` | adapters/socketio_berkeley.c:973-1008 | every address before the one that connects has been skipped with 22 or 97, or tried for ten seconds, and failed |
| `SocketConnect.Connector.OpenIo` | adapters/socketio_berkeley.c:903-1028 | exactly one callback, whose verdict is the new state, and a descriptor left open exactly if it is good |
| `OpensslAdapter.AtMostOneAnswerEach` | adapters/tlsio_openssl.c:804-835 | in an orderly log there is an open call between any two open-complete callbacks |
| `OpensslAdapter.AnswersFollowOpens` | adapters/tlsio_openssl.c:804-835 | and one before the first |
| `OpensslAdapter.TlsIo.SilencedStaysUnanswered` | adapters/tlsio_openssl.c:2636-2864 | over any run, an open call that was silenced is unanswered, and every answer since then follows a later open call |
| `OpensslAdapter.TlsIo.OpenIo` | adapters/tlsio_openssl.c:2636-2695 | the log stays orderly; which open calls are answered at once, later, or never |
| `OpensslAdapter.TlsIo.CloseIo` | adapters/tlsio_openssl.c:2700-2760 | from every state the adapter ends up closed without an SSL object, after cancelling an open call in an opening state; one whose handshake has failed is silenced |
| `OpensslAdapter.TlsIo.Destroy` | adapters/tlsio_openssl.c:2605-2634 | nothing is called back, and an unanswered open call is silenced |
| `OpensslAdapter.TlsIo.SendBytes` | adapters/tlsio_openssl.c:2762-2812 | succeeds exactly if the adapter is open and library and underlying IO take the bytes; the missing-SSL branch cannot be reached |
| `OpensslAdapter.TlsIo.DoWork` | adapters/tlsio_openssl.c:2814-2864 | any events keep the invariants, that none has been answered while opening and OK exactly when open included; a failed handshake ends closed and answered; which events silence an open call |
| `OpensslAdapter.EventMeans` | adapters/tlsio_openssl.c:837-938 | what each event does in each state |
| `OpensslAdapter.PumpedInTurn` | adapters/tlsio_openssl.c:2837-2864 | events take effect one after the other, and none on an adapter whose underlying IO is closed |
| `OpensslAdapter.HandshakeCompletes` | adapters/tlsio_openssl.c:710-755 | after any number of round trips that go well, and a success, the adapter is open and its open call answered once, with OK |
| `OpensslAdapter.TlsIo.SendHandshakeBytes` | adapters/tlsio_openssl.c:710-755 | a success opens the adapter and answers the call; another round trip goes on if its bytes were sent; anything else is a failed handshake, about which nothing is said yet |
| `OpensslAdapter.TlsIo.Decode` | adapters/tlsio_openssl.c:862-903 | everything up to the data during which the user closes is handed on, and an open adapter keeps its SSL object, so the failure result cannot occur |
| `OpensslAdapter.DecodedUpToClose` | adapters/tlsio_openssl.c:862-903 | the user is handed all bytes in order, up to those during which it closes, and then told that the close is complete |
| `OpensslAdapter.TlsIo.OnUnderlyingBytesReceived` | adapters/tlsio_openssl.c:905-938 | state and callbacks by state; when an open call is silenced |
| `OpensslAdapter.TlsIo.OnUnderlyingOpenComplete` | adapters/tlsio_openssl.c:804-835 | a failed underlying open answers the open call, a good one starts the handshake; in any other state the callback is passed on as an error, which breaks the order exactly if no open call is unanswered |
| `OpensslAdapter.TlsIo.OnUnderlyingError` | adapters/tlsio_openssl.c:837-860 | an error answers an open call in progress, and is indicated if the adapter is open |
| `OpensslAdapter.TlsIo.OnUnderlyingCloseComplete` | adapters/tlsio_openssl.c:771-802 | in every state: an expected callback completes the close, one while opening answers the open call, others are ignored, and the SSL object is gone, which spoils exactly a handshake or an open session |
| `CrlCache.Cache.Load` | adapters/tlsio_openssl.c:1159-1215 | the list of the map for the URL, with one more reference for the caller, exactly if it is there and valid; an expired one is dropped |
| `CrlCache.Cache.Save` | adapters/tlsio_openssl.c:1217-1342 | the map is updated for the URL, at most one other entry goes and only an expired one, and on every path references are slots plus holders |
| `CrlCache.SavedMeans` | adapters/tlsio_openssl.c:1217-1342 | for each return value, exactly when it is returned; which lists are there afterwards, and when the array has grown by ten |
| `CrlCache.Cache.StoreNew` | adapters/tlsio_openssl.c:1279-1341 | a URL without a list gets a free or expired slot, or a bigger array; it fails exactly if there is neither |
| `CrlCache.FullExactly` | adapters/tlsio_openssl.c:1280-1307 | no slot is free or expired exactly if there are as many valid lists in the map as slots, and no expired ones |
| `CrlCache.Cache.Fetch` | adapters/tlsio_openssl.c:1649-1735 | memory's valid list, else something exactly if disk or network have it; what that leaves in memory: saved exactly if lock, copy and room or growth are to be had, growing exactly if there is no room, and no other URL's valid list goes |
| `CrlCache.Cache.LoadFromDistributionPoints` | adapters/tlsio_openssl.c:1649-1735 | for every list of distribution points, with clock and lock changing between them: what each point yields and what lists and room it leaves in memory, what is pushed and counted, and the references pushed or lost |
| `CrlCache.FetchedMeans` | adapters/tlsio_openssl.c:1649-1735 | case by case, what a distribution point yields and when it is saved |
| `CrlCache.FetchedKeeps` | adapters/tlsio_openssl.c:1649-1735 | the array grows by ten only if every slot holds a valid list, and other URLs lose nothing but expired lists |
| `CrlCache.ChosenInOrder` | adapters/tlsio_openssl.c:1671-1722 | what is pushed is in the order of the distribution points |
| `CrlCache.Cache.Clear` | adapters/tlsio_openssl.c:2455-2477 | the cache gives up exactly its own references |
| `CrlCache.ContentsAfterStoring` | adapters/tlsio_openssl.c:1280-1341 | filling a free slot adds the URL to the map and keeps one slot per URL |
| `CrlCache.ContentsAfterClearing` | adapters/tlsio_openssl.c:1191-1201 | emptying a slot takes exactly its URL out of the map |
| `CrlCache.HoldingAfterUpdate` | adapters/tlsio_openssl.c:1217-1342 | how writing a slot changes the number of references held by slots |
| `CrlCache.ObtainedSplits` | adapters/tlsio_openssl.c:1649-1735 | every list obtained was pushed or lost, none twice |
| `CrlCache.LastSavedStays` | adapters/tlsio_openssl.c:1159-1342 | over every run of saves for other URLs and of loads the last list saved for a URL stays while it is valid |
| `CrlCache.Cache.LastSavedIsThere` | adapters/tlsio_openssl.c:1159-1342 | so it is in the cache, whose every save, load and clearing is a step of such a run |
| `CrlCache.OnlyLastSaved` | adapters/tlsio_openssl.c:1159-1342 | conversely, over every run any list in the map is the last one saved for its URL |
| `CrlCache.Cache.OnlyLastSavedIsThere` | adapters/tlsio_openssl.c:1159-1215 | so a load finds nothing but the last list saved for the URL |
| `CrlCache.InMemoryThroughout` | adapters/tlsio_openssl.c:1649-1735 | while distribution points are asked for with the lock at hand, a list in memory stays there and answers for its URL for as long as it is valid |
| `SchannelReceive.MissingIsExact` | adapters/tlsio_schannel.c:802-880 | fewer bytes than the missing ones never complete a record, and so many can |
| `SchannelReceive.CompleteMeans` | adapters/tlsio_schannel.c:802-880 | when a record is complete, in terms of its bytes |
| `SchannelReceive.DecodeInParts` | adapters/tlsio_schannel.c:802-880 | decoding a stream in two parts, the second from the leftover of the first |
| `SchannelReceive.FragmentationIsInvisible` | adapters/tlsio_schannel.c:563-584 | for every cut of the ciphertext the plaintext is that of the whole |
| `SchannelReceive.PlaintextGrows` | adapters/tlsio_schannel.c:563-584 | more ciphertext only adds plaintext at the end |
| `SchannelReceive.Adapter.ValidMeans` | adapters/tlsio_schannel.c:802-880 | between calls an open adapter has delivered exactly the plaintext of the complete records and keeps exactly the leftover |
| `SchannelReceive.Adapter.OnBytesReceived` | adapters/tlsio_schannel.c:563-584 | a fragment is taken in, and everything complete delivered, or, exactly if it does not fit and memory is refused, dropped with nothing changed; when the adapter goes into error |
| `SchannelReceive.DroppedFragmentIsLost` | adapters/tlsio_schannel.c:563-584 | a session in which the plaintext of a dropped fragment is missing |
| `SchannelReceive.DroppedFragmentGarbles` | adapters/tlsio_schannel.c:563-584 | a session in which the bytes behind a dropped fragment are read as part of another record |
| `SchannelReceive.Adapter.Drain` | adapters/tlsio_schannel.c:802-880 | the loop ends with everything complete handed on and room for the bytes waited for, or in an error, exactly if the library or an allocation failed |
| `SchannelReceive.Adapter.HandOn` | adapters/tlsio_schannel.c:839-880 | one record: its plaintext goes to the user, its bytes leave the buffer, those behind it move to the front |
| `SchannelReceive.Adapter.AskForMore` | adapters/tlsio_schannel.c:822-838 | room for as many more bytes as the library asked for, or an error |
| `SchannelReceive.Adapter.ResizeReceiveBuffer` | adapters/tlsio_schannel.c:223-248 | the buffer grows if it has to, keeps the bytes received, and fails exactly if it has to grow and memory is refused |
| `SchannelSend.ChunksAreRecords` | adapters/tlsio_schannel.c:529-561 | every chunk has 1 to 16384 bytes, and the callback is on exactly the last |
| `SchannelSend.ChunkAt` | adapters/tlsio_schannel.c:529-561 | which bytes of the message each chunk has |
| `SchannelSend.ChunksAreTheMessage` | adapters/tlsio_schannel.c:529-561 | the chunks concatenate to the message, and are as few as its length allows |
| `SchannelSend.Sender.InternalSend` | adapters/tlsio_schannel.c:529-561 | the chunks of the message are passed on in order; in an open session it fails exactly if an attempt fails, which is then the last one, and all chunks before have gone out |
| `SchannelSend.Sender.SendChunk` | adapters/tlsio_schannel.c:436-527 | a chunk that is not empty is attempted by an open session, and goes out exactly if the attempt succeeds |
| `SchannelSend.Sender.Send` | adapters/tlsio_schannel.c:1286-1344 | queued in renegotiation exactly if there is memory; sent by an open session exactly if no attempt fails; a failure after some chunks leaves a torn message |
| `SchannelSend.Sender.FinishRenegotiation` | adapters/tlsio_schannel.c:685-722 | the queue is emptied in order, each message whole or cut short by a failed attempt, each of which is indicated; without one all of them go out whole |
| `SchannelSend.NoneCutShort` | adapters/tlsio_schannel.c:691-721 | without errors exactly the chunks of the queued messages go out |
| `SchannelSend.SentInCallOrder` | adapters/tlsio_schannel.c:1286-1344 | with the session open and nothing torn, what was sent is the accepted messages in call order |
| `ByteBuffer.Buffer.Build` | src/buffer.c:114-164 | the contents become the source, or stay |
| `ByteBuffer.Buffer.AppendBuild` | src/buffer.c:166-222 | the source is appended exactly if it is not empty, the sum fits and memory is granted |
| `ByteBuffer.Buffer.PreBuild` | src/buffer.c:227-265 | room for so many bytes, exactly in a buffer without memory |
| `ByteBuffer.Buffer.Unbuild` | src/buffer.c:287-313 | no contents, and success exactly if there was memory |
| `ByteBuffer.Buffer.Enlarge` | src/buffer.c:316-351 | the old contents stay in front of more room, or nothing changes |
| `ByteBuffer.Buffer.Shrink` | src/buffer.c:353-419 | exactly the bytes at the chosen end go |
| `ByteBuffer.Buffer.Append` | src/buffer.c:440-494 | concatenation behind, and exactly when it is refused |
| `ByteBuffer.Buffer.Prepend` | src/buffer.c:496-561 | concatenation in front, and exactly when it is refused |
| `ByteBuffer.Buffer.Clone` | src/buffer.c:622-650 | equal contents in memory of its own |
| `ChunkedBody.HttpConnection.ConnReceive` | adapters/httpapi_compact.c:545-593 | so many bytes are received into the target, or none, as `Receive` says |
| `ChunkedBody.Take` | adapters/httpapi_compact.c:698-728 | success with all the bytes exactly for sizes up to INT_MAX; beyond, the low half of the size, or failure if that is negative |
| `ChunkedBody.HttpConnection.ReadChunk` | adapters/httpapi_compact.c:698-728 | its loop receives at most once, so that it is one receive of the size converted to int |
| `ChunkedBody.HttpConnection.Scan` | adapters/httpapi_compact.c:636-672 | text up to the first CR is copied, an LF is consumed only if it has come, and when the line is too long |
| `ChunkedBody.HttpConnection.ReadLine` | adapters/httpapi_compact.c:608-696 | the text of the line as a C string, or a failure, as `Line` says |
| `ChunkedBody.HttpConnection.SkipN` | adapters/httpapi_compact.c:730-792 | so many bytes are thrown away if they come in time |
| `ChunkedBody.ParseStringToHexadecimal` | adapters/httpapi_compact.c:104-129 | the number that the leading hexadecimal digits denote, modulo 2^64 |
| `ChunkedBody.HexAlphabet` | adapters/httpapi_compact.c:106 | the digits in either case have their values, and no other byte has one |
| `ChunkedBody.SizeLineMeans` | adapters/httpapi_compact.c:104-129 | every number written in hexadecimal is read, whatever follows it, and a line that does not begin with a digit is not |
| `ChunkedBody.HttpConnection.ReadData` | adapters/httpapi_compact.c:1222-1252 | a chunk's data extend the content behind what is there, or are skipped; without memory the content is given up |
| `ChunkedBody.HttpConnection.ReadRound` | adapters/httpapi_compact.c:1190-1266 | one round of the loop does what `OneRound` says to the connection and the content |
| `ChunkedBody.HttpConnection.ReadBody` | adapters/httpapi_compact.c:1188-1267 | an empty content is left with the data of any chunked message and the connection at its end if all size lines come together, and reading fails if not; in general, a successful run leaves it with the pieces it has shown to the callback |
| `ChunkedBody.HttpConnection.SkipBody` | adapters/httpapi_compact.c:1188-1267 | the same run without a content: any chunked message is consumed exactly to its end if its size lines come together and its data within the retries, and reading fails if not |
| `ChunkedBody.WaitsForEver` | adapters/httpapi_compact.c:545-593 | without an error the wait for bytes never ends exactly if too few of them come |
| `ChunkedBody.ReceivesData` | adapters/httpapi_compact.c:545-593 | whatever the pieces, what comes first is received and what comes behind it remains |
| `ChunkedBody.LineRead` | adapters/httpapi_compact.c:608-696 | a line is read exactly if its CR comes within the retries, and where that leaves the connection |
| `ChunkedBody.RoundOfPart` | adapters/httpapi_compact.c:1190-1266 | a chunk is read exactly if CR and LF of its size line come together |
| `ChunkedBody.RoundOfLast` | adapters/httpapi_compact.c:1208-1219 | so is the end of the body |
| `ChunkedBody.DecodesExactlyIfTogether` | adapters/httpapi_compact.c:1188-1267 | for every list of chunks and all arrival pieces, decoding yields the data and consumes exactly to the final CRLF if all size lines come together, and fails to read if not |
| `ChunkedBody.SkipsData` | adapters/httpapi_compact.c:730-792 | bytes are skipped exactly if they come within the retries, whatever the pieces |
| `ChunkedBody.SkipsExactlyIfInTime` | adapters/httpapi_compact.c:1188-1267 | for every list of chunks and all arrival pieces, skipping consumes exactly to the final CRLF if all size lines come together and all data in time, and fails to read if not |
| `ChunkedBody.TogetherIfAllThere` | adapters/httpapi_compact.c:1188-1267 | a message that has come completely always meets that condition |
| `ChunkedBody.SampleBody` | adapters/httpapi_compact.c:1188-1267 | a body given byte by byte |
| `ChunkedBody.NoErrorOverlooked` | adapters/httpapi_compact.c:545-792 | a body is read, or skipped, only if no error came while it was |
| `ChunkedBody.NoSize` | adapters/httpapi_compact.c:1201-1206 | a line without a size is a response that cannot be understood |
| `ChunkedBody.NoMemory` | adapters/httpapi_compact.c:1224-1237 | without memory for a chunk the content is given up |
| `ChunkedBody.SpoiledEnd` | adapters/httpapi_compact.c:1207-1219 | without an empty line at the end reading fails and the content is given up |
| `ChunkedBody.LineTooLong` | adapters/httpapi_compact.c:636-696 | a line that does not fit fails and is thrown away with all that has come |
| `ChunkedBody.CutBehindCr` | adapters/httpapi_compact.c:653-663 | every message cut behind the CR of its first line fails to be read |
| `ChunkedBody.OneByteUnreadable` | adapters/httpapi_compact.c:653-663 | a message of one byte among them |
| `ConditionVariable.MutualExclusionKept` | adapters/lock_win32.c:11-22 | every step keeps exactly the holder inside the locked parts |
| `ConditionVariable.CounterExactKept` | adapters/condition_win32.c:81-139 | every step keeps the counter equal to the counted threads and the failed waits |
| `ConditionVariable.SignalsConservedKept` | adapters/condition_win32.c:51-139 | every step keeps the balance of signals: set are merged, erased, pending or consumed ones |
| `ConditionVariable.PostsConservedKept` | adapters/condition_win32.c:51-79 | every step keeps the balance of posts: begun are skipped, failed, under way or set ones |
| `ConditionVariable.WakesConservedKept` | adapters/condition_win32.c:81-139 | every step keeps the balance of wake-ups: served and stolen ones are the waits that signals have ended |
| `ConditionVariable.NoStaleSignalKept` | adapters/condition_win32.c:51-139 | every step but a post without the lock keeps signals from outliving the waiters |
| `ConditionVariable.AllKept` | adapters/condition_win32.c:51-139 | so over every run of any number of threads |
| `ConditionVariable.NoSignalSurvives` | adapters/condition_win32.c:51-139 | if all posts hold the lock, whenever it is free and the counter zero, the event is unsignalled |
| `ConditionVariable.NoMoreWakeUpsThanSignals` | adapters/condition_win32.c:51-139 | waits that return COND_OK are at most the SetEvents that were neither merged nor erased |
| `ConditionVariable.PostSignalsExactlyWhenCounted` | adapters/condition_win32.c:51-79 | a post signals exactly if a thread is counted or a wait has failed |
| `ConditionVariable.EveryPostAccountedFor` | adapters/condition_win32.c:51-139 | over every run each post has woken one wait that began before it, is wasted or still undecided, and all have woken such a wait exactly if none was skipped, failed, merged, erased, stolen or is undecided |
| `ConditionVariable.WastedExactly` | adapters/condition_win32.c:51-139 | exactly which steps waste a post, by what holds before the step |
| `ConditionVariable.ServedExactly` | adapters/condition_win32.c:65-101 | in terms of the run: a wake-up counts as served exactly if the wait began before the latest post that its signal stands for was made, and as stolen if after it |
| `ConditionVariable.LoosePostCanLeaveStaleSignal` | adapters/condition_win32.c:65-66 | without the lock a post can leave a stale signal: a run that does it |
| `ConditionVariable.WakeUpCanBeLost` | adapters/condition_win32.c:92-101 | with the lock a wake-up can be lost to a waiter not yet counted: a run that does it |
| `ConditionVariable.SecondSignalCanBeMerged` | adapters/condition_win32.c:65-72 | and to a counted waiter, because two posts make one signal: a run that does it |
| `ConditionVariable.SignalCanBeStolen` | adapters/condition_win32.c:98-101 | and because a thread that began to wait after the post takes the signal: a run that does it |
| `ConditionVariable.SignalCanBeErased` | adapters/condition_win32.c:116-119 | and because a waiter that has timed out erases the signal: a run that does it |
| `DoublyLinkedList.InitializeListHead` | src/doublylinkedlist.c:6-14 | a new empty list joins a family of disjoint rings |
| `DoublyLinkedList.WalksAlong` | src/doublylinkedlist.c:6-107 | walking along a list from its head meets the entries in order, and backwards in reverse |
| `DoublyLinkedList.IsListEmpty` | src/doublylinkedlist.c:16-24 | true exactly for the list without entries |
| `DoublyLinkedList.RemoveEntryList` | src/doublylinkedlist.c:26-43 | exactly that entry leaves its list, the other lists stay, and the answer is whether it was the only one |
| `DoublyLinkedList.RemoveHeadList` | src/doublylinkedlist.c:45-61 | the first entry leaves its list, or the head of an empty one is returned |
| `DoublyLinkedList.InsertTailList` | src/doublylinkedlist.c:65-80 | the entry is the new last one |
| `DoublyLinkedList.InsertHeadList` | src/doublylinkedlist.c:100-107 | the entry is the new first one |
| `DoublyLinkedList.AppendTailList` | src/doublylinkedlist.c:83-97 | two lists become one: L1, the second head, L2 |
| `DoublyLinkedList.LinkRings` | src/doublylinkedlist.c:90-95 | the pointer assignments join two rings into one |
| `DoublyLinkedList.FamilyAfter` | src/doublylinkedlist.c:6-107 | an operation that touches one ring, or two, leaves all other rings of the family well formed |
| `TickCounter.Counter.GetCurrentMs` | adapters/tickcounter_win32.c:67-101 | the reading is that of the reference function, in milliseconds, and never decreases |
| `TickCounter.OneReading` | adapters/tickcounter_win32.c:88-95 | what one reading accounts for, and what it loses |
| `TickCounter.Accuracy` | adapters/tickcounter_win32.c:78-101 | after n readings at T ticks, 0 <= 10^6 T - F U < F + 10^6 (n - 1) |
| `TickCounter.SingleReading` | adapters/tickcounter_win32.c:78-101 | a single reading shows the time that has passed, a second for as many ticks as the frequency says |
| `TickCounter.ReadingsNeverDecrease` | adapters/tickcounter_win32.c:78-101 | readings never decrease |
| `TickCounter.NothingLost` | adapters/tickcounter_win32.c:88-95 | with a commensurate frequency nothing is lost between readings |
| `TickCounter.CanLoseTime` | adapters/tickcounter_win32.c:88-95 | with any other frequency some sequence of readings shows less than a single one |
| `TickCounter.ExactExactlyIfCommensurate` | adapters/tickcounter_win32.c:78-101 | reading often is free exactly for the commensurate frequencies |
| `NumberText.StrToUll` | src/crt_abstractions.c:292-391 | in every base: the saturated positional value of the digits behind spaces, sign and prefix, negated modulo 2^64 behind a minus, ERANGE exactly on overflow, and where it stops |
| `NumberText.DigitAlphabet` | src/crt_abstractions.c:283 | the digits and letters have their values, and no other character has one |
| `NumberText.ReadsWhatIsWritten` | src/crt_abstractions.c:292-391 | digits written in any base, behind spaces, sign and prefix, are read up to their end, with the value, the saturation and the negation they should have |
| `NumberText.NothingToRead` | src/crt_abstractions.c:300-376 | nothing is converted in a base that does not exist or without a digit |
| `NumberText.ReadDigits` | src/crt_abstractions.c:351-371 | the loop computes min(value, 2^64 - 1) of the whole run of digits; saturation is sticky |
| `NumberText.SaturatedStep` | src/crt_abstractions.c:355-367 | one more digit, by the overflow test of the code |
| `NumberText.OverflowTest` | src/crt_abstractions.c:357 | the division test is exactly the overflow of the multiplication |
| `NumberText.LeadingZero` | src/crt_abstractions.c:323-352 | exactly when a number with a leading zero is converted |
| `NumberText.NegativeOutOfRange` | src/crt_abstractions.c:384-388 | a negative number out of range gives 1 |
| `NumberText.SizeToString` | src/crt_abstractions.c:781-826 | succeeds exactly if digits and NUL fit, with the decimal text and nothing behind the NUL touched |
| `NumberText.PrintReversed` | src/crt_abstractions.c:798-802 | the digits printed so far, reversed, behind the notation of the rest are the notation of the value |
| `NumberText.ReverseInPlace` | src/crt_abstractions.c:809-815 | the first characters are reversed in place |
| `NumberText.ReversedAt` | src/crt_abstractions.c:809-815 | where each character goes |
| `NumberText.PrintsTheCanonicalText` | src/crt_abstractions.c:781-826 | a text is what the printer yields for its value if and only if it is canonical |
| `NumberText.PrintedIsReadBack` | src/crt_abstractions.c:292-391 | what is printed is read back in base 10, up to its end |
| `NumberText.ReadBackInBaseZero` | src/crt_abstractions.c:323-352 | in base 0 it is, if and only if it is not zero |
| `Base64.Alphabet` | src/base64.c:15-89 | characters and values are inverse to each other |
| `Base64.AlphabetRows` | src/base64.c:15-41 | the alphabet is that of RFC 4648 |
| `Base64.Base64B16` | src/base64.c:43-52 | the packed table is the alphabet at the value shifted left by 2 |
| `Base64.Base64B8` | src/base64.c:54-58 | the packed word is the alphabet at the value shifted left by 4 |
| `Base64.EncodesGroup` | src/base64.c:259-308 | the masks and tables compute the characters that spell the bits of a group, tails included |
| `Base64.Encode` | src/base64.c:236-322 | the C string spells the bits of all bytes six by six, padded; nothing exactly if an allocation fails |
| `Base64.KnownTexts` | src/base64.c:236-322 | test vectors of RFC 4648 |
| `Base64.DecodesGroup` | src/base64.c:144-184 | the shifts compute the bytes that the sextets of a group spell |
| `Base64.DecodeInto` | src/base64.c:128-185 | exactly the decoded bytes are written, and nothing behind them |
| `Base64.NumberOfBase64Characters` | src/base64.c:91-100 | the length of the run of characters with values |
| `Base64.FillsExactlyIfWellFormed` | src/base64.c:102-185 | for every string of a length divisible by 4 the writes fit the computed length, and fill it if and only if the string is well formed |
| `Base64.Decoder` | src/base64.c:187-233 | nothing for a bad length or without memory; otherwise the decoded bytes |
| `Base64.DecodesWhatWasEncoded` | src/base64.c:128-322 | decode(encode(x)) = x for all byte strings |
| `Base64.EncodingIsCanonical` | src/base64.c:236-322 | encoded text is well formed and has no loose bits |
| `Base64.EncodingUndoesDecodingExactly` | src/base64.c:128-322 | encode(decode(s)) = s if and only if s is canonical |
| `Base32.Alphabet` | src/base32.c:16-68 | conversions are inverse but for letter case and '{', and which characters have values |
| `Base32.AlphabetRows` | src/base32.c:16-68 | the alphabet is that of RFC 4648 in lower case |
| `Base32.EncoderMasks` | src/base32.c:104-125 | the masks select the bits of a block five by five |
| `Base32.DecoderMasks` | src/base32.c:226-231 | the shifts put the low five bits of a block's values together |
| `Base32.Positions` | src/base32.c:104-146 | the two fall-through switches compute the values and the padding of a block of 1 to 5 bytes |
| `Base32.Encode` | src/base32.c:70-161 | the C string is the encoding, and fills its memory exactly; nothing exactly if the allocation fails |
| `Base32.KnownTexts` | src/base32.c:70-161 | test vectors of RFC 4648 in lower case |
| `Base32.EncodingHasItsLength` | src/base32.c:25-28 | encoded text has 8 ceil(n/5) characters |
| `Base32.EncodingSpellsTheBits` | src/base32.c:70-161 | every character spells the next five bits of the whole input, or is padding behind the last bit |
| `Base32.Decode` | src/base32.c:163-272 | rejected exactly are bad lengths and bytes above 127; the branch for an exceeded length is never taken |
| `Base32.KeptMeans` | src/base32.c:234-250 | which characters of a block decide how many bytes it yields |
| `Base32.DecodesBlock` | src/base32.c:224-251 | an encoded block is read back with its own length |
| `Base32.EncodingIsAccepted` | src/base32.c:163-200 | encoded text is never rejected |
| `Base32.DecodesWhatWasEncoded` | src/base32.c:70-272 | decode(encode(x)) = x |
| `Base32.EncodingIsCanonical` | src/base32.c:70-161 | encoded text has padding in its last block only, and no loose bits |
| `Base32.EncodingUndoesDecodingExactly` | src/base32.c:70-272 | a text is accepted and encode(decode(s)) = s if and only if s is canonical |
| `Base32.CaseDoesNotMatter` | src/base32.c:35-68 | strings that differ in letter case only are decoded alike |
| `Base32.BraceIsTwo` | src/base32.c:59-62 | a '{' is decoded like a '2' |

## Left out

- The receiving half of the Berkeley adapter's dowork, its options, and re-entrant callbacks. Messages longer than memory do not exist in the model.
- The Windows and mbed socket adapters, whose handling of short writes differs.
- SocketConnect.AwaitConnection: the clock is assumed to advance between readings, as a monotonic clock with nanoseconds does; a clock that stands still would let the loop go on.
- The handshake and renegotiation half of the SChannel receive path; only the open state's loop is modelled. That the library never asks for more than is missing, and never yields more plaintext than a record carries, are assumptions on it.
- OpensslAdapter: the underlying IO calls back synchronously, and of the user's callbacks only bytes-received re-enters, by closing. What follows once a callback in an unexpected state has broken an invariant is not modelled, nor are timeouts, certificates and options.
- CrlCache: parsing, downloads and files are choices of an adversary; the lock is a flag that can fail; a clone of a list is a counted reference.
- ChunkedBody: the branch for a body with a known length, headers, and the sending side. A content that is not empty at first is overwritten from its beginning; ReadBody says nothing about its bytes then.
- ChunkedBody.HttpConnection.ReadBody: reading with and without a content are two methods here, one branch each of a single function.
- ByteBuffer: what becomes of freed memory, and null handles. BUFFER_clone loses its structure when the second allocation fails.
- ConditionVariable: waits are interleaved steps of a state machine on values and not of threads in a heap; freeing the condition while a wait is failing is not modelled, nor is a lock that fails.
- DoublyLinkedList: entries that are their own head, and initializing a node that is still in a list, are not calls the library allows.
- TickCounter: the fallback to `time` in seconds, and 64-bit overflow, which the calls modelled do not reach.
- NumberText: null pointers and `errno` before the call; floating point parsing.
- Base32.Decode: padding in the middle of a string takes bytes from the end of the result; the model does this too, but of such strings it is stated only that they are not canonical.
- Connection strings, constant maps and buffers, the other TLS and HTTP adapters, and logging: they rest on code of others or would only add easy members.

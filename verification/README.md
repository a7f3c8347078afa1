# Verified model of the connection server

A Dafny model of the parts of the server that hold algorithms: the configuration file
reader and writer, the hand-over of accepted connections from the master thread to the
workers, the shared pool of CONN structures, the SSL byte pump, line reassembly and command
decoding, the account commands over MySQL, and the start-up barrier. Code that changes state
step by step is modelled by classes and methods with loops; each method is proved against a
function or step on values, and the main results are lemmas about those, over every input,
every run and every interleaving. `dafny verify dfyconfig.toml` checks the whole project.

## How the pieces fit

| files | what they hold |
|---|---|
| `Text.dfy`, `Splitting.dfy` | trimming, character and substring search, SplitData and its laws |
| `ConfigGrammar.dfy`, `ConfigMeaning.dfy`, `ConfigFile.dfy`, `ConfigRoundTrip.dfy` | the configuration language over lines, and what a line means in terms of its characters; the stream, `operator>>`, `operator<<` and `add`; round trip and normal form |
| `Dispatch.dfy`, `WorkerThreads.dfy` | the dispatch protocol as a state machine; the objects that take its steps |
| `ConnPool.dfy` | the free list and the opening and closing of connections |
| `Rounds.dfy` | when a loop that calls until enough bytes are accepted ends |
| `SslEndpoint.dfy`, `SslOracle.dfy`, `SslCalls.dfy`, `SslClient.dfy` | one end of the pump on values; the answers of SSL and which of them let the loops end; what the calls of do_encrypt and on_read_cb do to an end; the functions of ssl.cpp on arrays |
| `SslLink.dfy`, `SslConnection.dfy`, `SslExchange.dfy` | two ends joined by FIFO channels, on values and as objects; one connection from handshake to delivery |
| `Framing.dfy`, `BufferLimits.dfy`, `ClientConn.dfy` | ClientTcpReadCb on values; which streams its buffer can receive; the 2048-byte buffer, WriteSfd |
| `CommandCodec.dfy`, `CommandReads.dfy` | the command format; commands cut into reads |
| `Accounts.dfy`, `AccountServer.dfy`, `AccountRequests.dfy` | the account commands and the dictionary they implement; start_routine and SelectData; each command from masked bytes to reply and tables |
| `StartupBarrier.dfy` | thread registration |

## Findings about the code

Each has its exact condition and an input that shows it.

- A configuration text whose last line has no newline is read as if that line stood twice
  (the second `getline` fails before it clears its target). This matters exactly when that
  line continues an open entry (`UnterminatedExactly`, `LastLineDoubled`).
- Contents survive printing and parsing if and only if they are representable; `add` can
  store contents that are not (`RoundTripIffRepresentable`, `AddedKeyIsLost`).
- `find_last_of(CRLF)` finds the last CR or LF, not the last pair. Reassembly is independent
  of how the stream is cut if and only if no callback sees a lone CR or LF behind the last
  CRLF in its buffer (`ChunkIndependentIffClean`, `SplitBreakIsLost`).
- A line that is complete before five bytes have come together is taken off the buffer ahead
  of the token check, so a stream that does not start with the token can be accepted. The
  check is exact if and only if no such line is taken or the bytes behind the last one taken
  do not start with the token either (`TokenGateIff`, `EarlyLineAccepted`).
- A buffer that is full and holds no CRLF is never emptied. A token-led stream can be received
  whole, through cuts that lose nothing, if and only if every line with its CRLF and the
  unfinished line fit into 2048 bytes (`ReceivableIffLinesFit`, `LongLineSticks`).
- start_routine keeps nothing between reads: commands survive being cut into reads if and
  only if no command is cut (`ReadsDecodeIffWhole`, `CutCommandIsLost`).
- A failed write to the notification pipe strands connections: when all is quiet a worker's
  queue holds exactly as many of its most recent connections as it missed notifications
  (`StrandedExactly`, `ConnectionStranded`).
- The backward scan reads a password only from its last 0x06 on. A SELECT is then answered
  wrongly exactly when it submits that password or what stands behind its last 0x06: the
  first is refused, the second accepted (`SelectAnswersLastSet`, `WrongPasswordAccepted`).
- Registration looks a name up with a query whose failure reads like an empty result. Names
  are distinct after a history if and only if no event in it registers a taken name past a
  failed look-up (`NamesDistinctIff`, `NameRegisteredTwice`).
- The start-up wait tests no predicate: it can return if and only if the last worker has not
  registered before the main thread begins to wait (`ReturnsUnlessSignalLost`,
  `SignalCanBeLost`).
- `do_encrypt` calls SSL_write again at once when it returns a negative value and wants I/O.
  Its loop ends if and only if some answer is 0 or a failure or the positive answers add up
  to the waiting bytes (`LoopEndsIff`, `StallingLoops`).

## Model

| member | source | states |
|---|---|---|
| Text.TrimInPlace | config_file.h:128-134 | trim yields the one string that is trimmed and leaves only blank ends behind |
| Text.TrimUnique | config_file.h:128-134 | any split into blank, trimmed, blank is the one trim finds |
| Text.SpaceCodes | config_file.h:131 | white space is the space and the characters from tab to carriage return |
| ConfigGrammar.LastOccurrenceWins | config_file.h:317-349 | a key has the value of its last opening line: its first part and the lines absorbed up to a blank line, a line with a delimiter or the end |
| ConfigGrammar.NeverOpened | config_file.h:349 | a key no line opens keeps its old value, or stays absent |
| ConfigGrammar.LoadOverrides | config_file.h:349 | loading into contents m is m overridden by what the text means on its own |
| ConfigGrammar.ParseSplit | config_file.h:320-337 | a file may be split before any blank or opening line without changing its meaning |
| ConfigGrammar.BlankLineComposes | init_configure.cc:45 | a terminated file, a blank line and any second file together mean the first loaded and then the second |
| ConfigGrammar.ReloadIsIdempotent | RRMode.cpp:98-107 | reloading an unchanged file into the same contents changes nothing and drops no key |
| ConfigGrammar.UnterminatedExactly | config_file.h:324-344 | for every text: reading it differs from its line grammar if and only if its unterminated last line continues an open entry |
| ConfigFiles.InStream.GetLine | config_file.h:303-326 | getline with its flags: a stream that is not good fails and leaves the target as it was; every call on a stream that has not failed decreases the measure both loops terminate by |
| ConfigFiles.ConfigFile.Load | config_file.h:280-354 | operator>> with its look-ahead line computes the grammar's meaning of the unread lines on top of the old contents, from any stream state, and terminates |
| ConfigFiles.ConfigFile.ReadValue | config_file.h:323-344 | the inner loop gathers exactly the absorbed lines and leaves the line that ended the value for the outer loop |
| ConfigFiles.ConfigFile.Save | config_file.h:266-277 | operator<< prints the entries in ascending key order: the text of every ascending listing of the contents |
| ConfigFiles.ConfigFile.Add | config_file.h:254-263 | add stores the trimmed pair; contents stay representable if and only if that pair is |
| ConfigGrammar.LastLineDoubled | config_file.h:324-344 | a text of two lines for which it differs |
| ConfigMeaning.CommentIsCut | config_file.h:307-340 | what precedes the first '#' of a line is kept as it is, and only that |
| ConfigMeaning.CommentBehindText | config_file.h:303-349 | a comment behind text changes nothing, wherever the line stands |
| ConfigMeaning.CommentLineIsNothing | config_file.h:303-349 | a line that is all comment is as if it were not there; it does not end a value |
| ConfigMeaning.OpeningParts | config_file.h:310-349 | the first '=' separates the key, which is trimmed, from the value |
| ConfigMeaning.EntryMeans | config_file.h:310-349 | an entry and its continuation lines store the trimmed first part with each further line behind a newline |
| ConfigMeaning.BlankLineEnds | config_file.h:329-333 | a line of white space alone ends a value |
| ConfigMeaning.LinesOfText | config_file.h:303-326 | the lines of a text are its terminated lines and, without a final newline, one more, which repeated getline calls deliver twice |
| ConfigRoundTrip.ParsedIsRepresentable | config_file.h:312-349 | everything a text can produce is representable: trimmed, no comment mark, no delimiter or newline in keys, continuation lines neither blank nor with a delimiter |
| ConfigRoundTrip.ParsePrinted | config_file.h:266-354 | printing representable entries and loading the text assigns exactly those entries |
| ConfigRoundTrip.RoundTripIffRepresentable | config_file.h:266-354 | for every finite map and every print order: parse(print(m)) == m if and only if m is representable |
| ConfigRoundTrip.LoadSaveLoad | config_file.h:266-354 | for every text whatsoever, printing what was parsed and parsing that gives the same contents |
| ConfigRoundTrip.BeforeIff | config_file.h:266-277 | keys are ordered by the first character in which they differ, a prefix first |
| ConfigRoundTrip.OnlyAscending | config_file.h:266-277 | the order of printing is the one ascending listing of the contents |
| ConfigRoundTrip.PrintedMore | config_file.h:266-277 | each entry is printed as key, " = ", value and newline behind the ones before it |
| ConfigFiles.LoadSaveLoadAgain | config_file.h:266-354 | the same for the stream reader and writer as they run, and saving again gives the same text |
| ConfigFiles.AddedKeyIsLost | config_file.h:254-277 | contents that add accepts and that saving and loading does not restore |
| Dispatch.AlwaysInv | worker_threads.cc:456-476 | after every interleaving: queue length = pipe bytes + (worker between read and pop) + (master between push and write) + failed notifications, for each worker |
| Dispatch.PopNeverEmpty | worker_threads.cc:464-476 | after a successful pipe read pop_front never finds the queue empty |
| Dispatch.FifoExactlyOnce | worker_threads.cc:619-630 | what a worker has popped followed by its queue is every T-th accepted descriptor in accept order |
| Dispatch.LoadsBalanced | worker_threads.cc:621-625 | over any window of dispatches two workers' loads differ by at most one |
| Dispatch.LoadCounts | worker_threads.cc:621-625 | a worker's load over a window is the number of its dispatches whose position is the worker's modulo the thread count |
| Dispatch.QuiescentQueues | worker_threads.cc:632-638 | with nothing in flight a worker's queue is its last connections, one per failed notification; it is empty if and only if none failed |
| Dispatch.NotificationsExact | worker_threads.cc:619-638 | counted from the actions alone: a worker has missed the failed writes of its dispatches, and its pipe bytes, read or unread, are the successful ones |
| Dispatch.StrandedExactly | worker_threads.cc:619-638 | with nothing in flight a worker's queue is as long as the number of failed writes for it; a run without a failed write leaves every queue empty |
| Dispatch.NonZeroParts | worker_threads.cc:470-481 | exactly the descriptors 0 are dropped, and order is kept |
| Dispatch.ConnectionStranded | worker_threads.cc:635-638 | the run of a push and a failed write ends quiet with the connection left in the queue |
| Dispatch.CanDrain | worker_threads.cc:456-476 | from every reachable state the notified connections can all be delivered |
| WorkerThreads.ThreadSafeList.PopFront | threadSafe_container.h:24-35 | takes the oldest element, or reports that the list is empty |
| WorkerThreads.ThreadSafeList.PushBack | threadSafe_container.h:18-22 | appends one element |
| WorkerThreads.WorkerPool.PushConn | worker_threads.cc:619-630 | the first half of a dispatch is the protocol's push step on the objects |
| WorkerThreads.WorkerPool.NotifyThread | worker_threads.cc:632-638 | the pipe write, failed or not, is the protocol's write step |
| WorkerThreads.WorkerPool.ReadByte | worker_threads.cc:462-468 | the pipe read is the protocol's read step |
| WorkerThreads.WorkerPool.PopConn | worker_threads.cc:470-481 | pop and hand-over are the protocol's pop step; descriptor 0 is dropped |
| ConnPool.SharedFreeList.GetConnFromFreelist | worker_threads.cc:668-679 | pops the newest free CONN, NULL when there is none |
| ConnPool.SharedFreeList.AddConnToFreelist | worker_threads.cc:681-701 | pushes, doubling a full array first, and never fails |
| ConnPool.Put | worker_threads.cc:681-701 | the used slots grow by exactly the returned CONN and the array doubles only when full |
| ConnPool.OwnershipAlways | worker_threads.cc:491-535 | after every interleaving each CONN ever allocated is in exactly one place, a distinct slot, in setup or live, and freecurr_ <= freetotal_ == vector size |
| ConnPool.LiveExactly | worker_threads.cc:536-547 | a CONN is live if and only if the actions have set it up and not closed it since |
| ConnPool.PoolAccounting | worker_threads.cc:660-698 | CONNs allocated plus pending equals the historical peak of held or requested connections unless allocations failed, and is bounded by it both ways then; freetotal_ = 200*2^k <= max(200, 2(peak-1)); resizes copied freetotal_-200 slots |
| SslEndpoint.RunConserves | ssl.cpp:88-123 | any sequence of pump steps keeps: submitted = consumed by SSL ++ encrypt_buf, and SSL output = written ++ write_buf ++ wbio |
| SslOracle.LoopEndsIff | ssl.cpp:196-222 | the do_encrypt loop ends if and only if some answer is 0 or a failure or the positive answers add up to the waiting bytes |
| SslOracle.StallingLoops | ssl.cpp:196-222 | an SSL that keeps stalling holds it for ever; one byte of progress first frees only a one-byte loop |
| SslOracle.ReadEndsIffEmpties | ssl.cpp:152-162 | the SSL_read loop ends if and only if SSL_read at some point returns nothing |
| SslClients.SslClient.SendUnencryptedBytes | ssl.cpp:88-93 | appends to encrypt_buf through realloc and memcpy |
| SslClients.SslClient.DrainWbio | ssl.cpp:168-175 | the 1024-byte drain moves all of wbio, in order, behind write_buf |
| SslClients.SslClient.DoEncrypt | ssl.cpp:188-224 | whenever its loop ends: it calls SSL_write until nothing is left or a call stops it; the new records are those the calls made of encrypt_buf, write_buf and wbio grow by exactly their bytes, and encrypt_buf loses exactly the bytes the positive answers add up to; with nothing left wbio is empty |
| SslClients.SslClient.DoSslHandshake | ssl.cpp:104-123 | status, whether the handshake is finished, and the whole new state of one handshake call |
| SslClients.SslClient.OnReadCb | ssl.cpp:127-182 | whenever its loop ends: feeds all bytes to SSL, hands io_on_read all plaintext of its SSL_read calls, in order, up to the first that returns nothing, and runs dry if and only if that one asks for more input; its output is queued when it returns 0 and stays in wbio when it fails |
| SslClients.SslClient.DoSockWrite | ssl.cpp:250-262 | a partial write removes exactly the accepted prefix of write_buf |
| SslCalls.EncryptEffect | ssl.cpp:188-224 | what leaves encrypt_buf is the plaintext of the new records and what enters the output is their bytes |
| SslCalls.WriteLoopLast | ssl.cpp:196-222 | the loop leaves something only if its last call stopped it, and else leaves nothing in wbio |
| SslCalls.TakenInAll | ssl.cpp:196-209 | the calls take as many bytes as their positive answers add up to, or all there are: a partial SSL_write leaves the rest, and the records' bytes are the answers' output |
| SslCalls.WriteLoopIff | ssl.cpp:196-222 | the calls are those of the loop if and only if something was left before each, none but the last stopped it, and something did |
| SslClients.SslClient.SslWrite | ssl.cpp:197-206 | an SSL_write that takes n bytes leaves encrypt_buf from its n-th byte on |
| SslCalls.HandshakeOutput | ssl.cpp:104-123 | handshake output is queued only when SSL wants more I/O; with success it stays in wbio |
| SslCalls.OnReadOutput | ssl.cpp:127-182 | all output of the calls is queued and wbio empty if the last call asks for more input, and stays in wbio otherwise |
| SslCalls.ReadOutIsAll | ssl.cpp:152-160 | what SSL_read returns is the answers' plaintext, complete and in order |
| SslCalls.ReadLoopIff | ssl.cpp:152-162 | the SSL_read loop makes the calls up to the first that returns nothing |
| SslCalls.ProgressEncryptsAll | ssl.cpp:188-224 | with progress on every SSL_write do_encrypt ends with nothing waiting, wbio empty and write_buf grown by exactly the records made |
| SslCalls.OnReadDelivers | ssl.cpp:127-182 | one on_read_cb touches no waiting plaintext and delivers what SSL_read returned |
| SslLink.DeliveredIsPrefixOfSent | ssl.cpp:88-102 | two clients joined by FIFO channels, any interleaving: what io_on_read was given is a prefix of what the peer submitted |
| SslLink.AllDelivered | ssl.cpp:127-262 | when every buffer on the way is empty and SSL_read is dry, all of it was delivered |
| SslLink.EncryptIsRun | ssl.cpp:188-224 | do_encrypt is a run of the link when each of its own SSL_write calls that takes plaintext produces output |
| SslLink.ReadIsRun | ssl.cpp:127-182 | on_read_cb on bytes from the channel is a run of the link when what its own SSL_read calls return keeps to the record-layer assumption |
| SslLink.HandshakeIsRun | ssl.cpp:104-123 | do_ssl_handshake is a run of the link, whatever SSL answers |
| SslConnection.Connection.Handshake | ssl.cpp:104-123 | do_ssl_handshake on either object, which is how a side begins, keeps the pair on a run |
| SslConnection.Connection.Send | ssl.cpp:88-93 | send_unencrypted_bytes on either object submits the bytes and keeps the pair on a run |
| SslConnection.Connection.Encrypt | ssl.cpp:188-224 | do_encrypt on either object keeps the pair on a run of the link when its SSL_write calls produce output for what they take |
| SslConnection.Connection.Flush | ssl.cpp:250-262 | do_sock_write on either object puts exactly the accepted bytes in flight and keeps the pair on a run |
| SslConnection.Connection.Receive | ssl.cpp:236-247 | do_sock_read on either object takes bytes off the front of the stream, hands over what SSL_read returns, and keeps the pair on a run when that keeps to the record-layer assumption |
| SslConnection.ReceivedIsPrefixOfSent | ssl.cpp:88-262 | on the objects, after any calls: what io_on_read was given is a prefix of what the other side submitted |
| SslConnection.AllReceived | ssl.cpp:88-262 | on the objects: all of it once the buffers are empty and SSL_read is dry |
| SslExchange.Exchange | ssl.cpp:34-262 | from new objects through a handshake in both directions to a submitted byte that is delivered at the other side, nothing left on the way |
| Splitting.SplitData | utils.h:47-58 | pushes the pieces of the input behind what the vector holds, and terminates for every non-empty delimiter |
| Splitting.SplitLossless | utils.h:47-58 | pieces with their delimiters and the discarded tail make up the input |
| Splitting.SplitComplete | utils.h:47-58 | no piece and no tail contains the delimiter |
| Splitting.SplitJoined | utils.h:47-58 | splitting inverts joining for pieces the delimiter does not occur early in |
| Splitting.SplitResumes | utils.h:47-58 | splitting may stop anywhere and resume with the tail in front |
| Framing.KeepsTailIffClean | worker_threads.cc:592-594 | the buffer keeps the unfinished line if and only if that line has no CR and no LF |
| Framing.ChunkIndependentIffClean | worker_threads.cc:550-596 | for every cutting of a token-led stream: echoed lines and buffer are those of the whole stream if and only if every callback sees a clean tail, if and only if at every cut that follows a completed line the unfinished line has no CR and no LF |
| Framing.SplitBreakIsLost | worker_threads.cc:592-594 | a concrete stream and cutting for which they are not |
| Framing.ClosedIffWrongToken | worker_threads.cc:560-574 | however cut, unless a line is taken off the buffer before five bytes have come together, the connection is closed if and only if the first five bytes are not the token |
| Framing.EarlyLineRestarts | worker_threads.cc:577-595 | if one is taken, the rest of the run decides alone, from what that line left in the buffer |
| Framing.ClosedIffJudgedWrong | worker_threads.cc:560-595 | for every stream and cutting: the connection is closed if and only if the bytes behind the last line taken early reach five and are not the token |
| Framing.TokenGateIff | worker_threads.cc:560-595 | for every stream and cutting: the check is exact if and only if no such line is taken or the bytes behind the last one are not the token either |
| Framing.EarlyLineAccepted | worker_threads.cc:560-595 | a stream in two reads that does not start with the token and is accepted |
| BufferLimits.StuckIffFull | worker_threads.cc:556-594 | an open connection never changes again if and only if its buffer is full without a CRLF |
| BufferLimits.ReceivableIffLinesFit | worker_threads.cc:550-596 | a token-led stream can be received through fitting reads and clean cuts if and only if every line with its CRLF, and the unfinished one, fits into the buffer |
| BufferLimits.LongLineSticks | worker_threads.cc:556-594 | two reads that get a connection stuck |
| ClientConn.WriteEndsIff | socket_wrapper.h:61-85 | the loop ends if and only if write() at some point fails or has accepted every byte |
| ClientConn.Socket.WriteSfd | socket_wrapper.h:58-87 | through EINTR, EAGAIN and partial writes every byte is sent once and in order, or, when write() fails, the prefix it had accepted |
| ClientConn.FairLinesEnd | worker_threads.cc:585-590 | unless write() stalls for ever, writing any number of lines returns |
| ClientConn.Conn.ClientTcpReadCb | worker_threads.cc:550-596 | the callback on the 2048-byte buffer is the step on values, every memmove in bounds, and the bytes sent are the echoed lines |
| ClientConn.Conn.ServeReads | worker_threads.cc:550-596 | a run of reads: what is sent is one prefix of each echoed line, in order, the whole line exactly where WriteSfd succeeded; with clean cuts the lines are the finished lines of the payload and the buffer holds the unfinished one |
| CommandCodec.MaskIsXor | worker_threads.cc:64 | on every byte the mask is exclusive or with 0xff |
| CommandCodec.MaskEach | worker_threads.cc:61-65 | each byte is masked by itself |
| CommandCodec.MaskTwice | worker_threads.cc:61-65 | unmasking undoes masking |
| CommandCodec.DecodeEncodeIff | worker_threads.cc:101-109 | commands are decoded to exactly their fields in order if and only if no field holds the separator or CRLF or ends in a space |
| CommandReads.ReadsDecodeIffWhole | worker_threads.cc:59-109 | for every cutting of encoded commands into reads: the reads are decoded to exactly the commands if and only if no command is cut |
| CommandReads.CutCommandIsLost | worker_threads.cc:59-109 | a command that arrives in pieces, none of them all of it, is not among what is decoded |
| Accounts.LastColumnExact | printertomysql.cpp:100-114 | scanning the encoded rows backwards gives what stands behind the last 0x06 of the last row's password |
| Accounts.LastColumnIff | printertomysql.cpp:100-114 | that is the password if and only if it has no 0x06 |
| Accounts.RowColumns | printertomysql.cpp:100-114 | what SelectData writes of a row holds its id, name and password, in that order |
| Accounts.MatchingParts | worker_threads.cc:158-159 | a look-up yields every row of the name, in table order |
| Accounts.UpdatedRows | worker_threads.cc:252-258 | an UPDATE changes the passwords of that name and nothing else |
| Accounts.AtoiReads | worker_threads.cc:130 | the opcode is the decimal number behind white space and a sign, up to the first other character |
| Accounts.ExecuteRefines | worker_threads.cc:147-309 | every command changes the tables as one dictionary step, and only DELETE sends no reply |
| Accounts.ReplyRefines | worker_threads.cc:147-320 | for every table, every reply is that of the dictionary as the scan reads its passwords |
| Accounts.ReplyIffNotMisread | worker_threads.cc:199-240 | it is that of the dictionary itself if and only if no SELECT submits, for a password with 0x06, that password or what stands behind its last 0x06 |
| Accounts.ReplyFollowsHistory | worker_threads.cc:147-320 | after any interleaving every reply follows from the history of commands alone |
| Accounts.TablesAfter | worker_threads.cc:152-183 | after any history the tables hold, in order, exactly the devices inserted and the names registered |
| Accounts.SelectAnswersLastSet | worker_threads.cc:199-240 | after any interleaving SELECT compares with the password last set for the name, and answers rightly if and only if that has no 0x06 or the submitted one is neither it nor what stands behind its last 0x06 |
| Accounts.WrongPasswordAccepted | worker_threads.cc:211-233 | a history and a password never set that is accepted, while the one that was set is refused |
| Accounts.NamesStayDistinctIff | worker_threads.cc:156-183 | a command keeps names distinct if and only if it does not register a taken name past a failed look-up |
| Accounts.NamesDistinctIff | worker_threads.cc:156-183 | after any history names are distinct if and only if no event registered a taken name past a failed look-up |
| Accounts.NameRegisteredTwice | worker_threads.cc:156-183 | a history of two registrations that leaves two rows |
| AccountServer.OneReplyEach | worker_threads.cc:106-337 | one reply per request in order, none for DELETE |
| AccountServer.EncodedCommandsAreServed | worker_threads.cc:59-143 | encoded and masked commands reach the switch as the commands they were |
| AccountServer.ReadServedByHistory | worker_threads.cc:106-337 | the requests of one read, interleaved in any way with other workers' commands: tables and replies are those of the merged history |
| AccountServer.LoginAnswered | worker_threads.cc:59-249 | a SELECT sent as masked bytes, after and amid any commands of other workers, is answered from the password last set for the name as the scan reads it |
| AccountRequests.DeviceInserted | worker_threads.cc:128-193 | a six-field INSERT sent as masked bytes, neither name nor device 0000: the device row with its four columns and f0:ok, or e2:fail |
| AccountRequests.BareDeviceInserted | worker_threads.cc:138-193 | with three fields device, p2p id and address of the row are empty |
| AccountRequests.UserRegistered | worker_threads.cc:128-193 | with name or device 0000: e1:fail for a name the look-up finds, else the user row and f0:ok, and the password is the one last set |
| AccountRequests.PasswordSelected | worker_threads.cc:198-249 | a SELECT changes nothing and is answered e1:fail for a failed look-up or a name without a password, else by comparing with the password last set as the scan reads it |
| AccountRequests.PasswordUpdated | worker_threads.cc:252-275 | an UPDATE sets the password in every row of the name and answers f0:ok, or e3:fail |
| AccountRequests.DeleteIsSilent | worker_threads.cc:279-309 | a DELETE changes nothing and is not answered |
| AccountRequests.OthersRefused | worker_threads.cc:310-335 | any other opcode or number of fields is answered e3:fail |
| AccountRequests.HeadIsCutOff | worker_threads.cc:112-113 | any five characters are cut off the front of a command line unseen |
| AccountServer.MaskedReplies | worker_threads.cc:163-320 | unmasking what is sent gives the replies |
| AccountServer.GateOverReads | worker_threads.cc:56-109 | over all reads of a connection: every command is executed if the first read of at least five bytes starts with the token, and none otherwise |
| AccountServer.SelectData | printertomysql.cpp:100-114 | the row and column loops produce the encoding |
| AccountServer.RecoverPassword | worker_threads.cc:211-223 | the pointer loop returns the last column |
| AccountServer.Server.Handle | worker_threads.cc:145-321 | the switch is one command step, tables and reply |
| AccountServer.Server.StartRoutine | worker_threads.cc:41-352 | one read, with any commands of other workers before each request: token check, and otherwise exactly the replies of its requests in order, masked |
| AccountServer.Server.ServeReads | worker_threads.cc:41-352 | the reads of one connection, up to the one that closes it, are served one after the other; unless the token opens them nothing is executed and nothing is answered |
| StartupBarrier.Barrier.RegisterThreadInitialized | worker_threads.cc:642-651 | counting and signalling under the lock is one registration step |
| StartupBarrier.Barrier.StartWait | worker_threads.cc:653-656 | the wait begins without testing how many have registered |
| StartupBarrier.BarrierSafe | worker_threads.cc:642-658 | the condition is signalled exactly when all have registered and the wait returns only then |
| StartupBarrier.LastRegistrationSignals | worker_threads.cc:646-649 | a registration signals if and only if it is the last |
| StartupBarrier.ReturnsUnlessSignalLost | worker_threads.cc:653-658 | the wait can return in some continuation if and only if the last registration did not precede it |
| StartupBarrier.SignalCanBeLost | worker_threads.cc:394-400 | a run in which it did |

## Left out

- Sockets, libevent, pthreads, syslog, daemonising and signal delivery are inputs to the steps; no callback fires after `bufferevent_free`.
- OpenSSL is an oracle of arbitrary answers; for the end-to-end results it is an in-order lossless record layer (`SslLink.Enabled`, `SslLink.Honest`). Certificates and `ssl_init` are not modelled, nor are the stand-alone demos.
- SslClients.SslClient.DoEncrypt: required to be called only when its loop ends, by the exact condition `SslOracle.LoopEndsIff` gives.
- SslClients.SslClient.OnReadCb: does not model the contents of `bufout`, which each chunk overwrites; required to be called only when its SSL_read loop ends (`SslOracle.ReadEndsIffEmpties`).
- ClientConn.Socket.WriteSfd: required to be called only when its loop ends (`ClientConn.WriteEndsIff`).
- ClientConn.Conn.ClientTcpReadCb: required to be called only when the WriteSfd loops of its lines end (`ClientConn.LinesEnd`); they do unless write() stalls for ever (`ClientConn.FairLinesEnd`).
- ClientConn.Conn.ServeReads: required to be called only when all of its lines are written to the end, as for ClientTcpReadCb.
- AccountServer.Server.StartRoutine: a field with a NUL byte that reaches a statement is excluded (`AccountServer.Servable`); other reads with NUL bytes are not.
- realloc is modelled as a new block with the old contents; addresses and reuse of blocks are not modelled.
- MySQL: tables are sequences of rows with exact equality and visible inserts; statements fit their buffers and contain no NUL or quoting characters; DELETE changes no rows, because its id is always empty.
- The length_error for a read of -1 bytes in start_routine, and atoi overflow.
- InitNewConn does not set isVerify; the model starts from false.
- A read of the notification pipe that fails: the callback returns and nothing changes.
- ReadPipeCb after a failed InitNewConn: the step ends with the callback. A failed `new CONN` outside the try block is not modelled, and FreeConn is reached only for failed buffers.
- freecurr_ and freetotal_ are unbounded; overflow would need more than a billion CONNs. The worker count does not change after start-up.
- Spurious wake-ups of the start-up wait.
- Configuration: other delimiters, comments and sentries, numeric and bool conversions, locale handling, `remove`.

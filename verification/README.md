# A verified model of the networking core

The repository is a small client/server network library over a vendored copy of asio 1.22.1. This
project models, in Dafny, the three stateful parts of it that carry bytes, and proves what they
promise over whole runs.

* **`asio::basic_streambuf`** (`Storage`, `Layout`, `StreamBuf`, `StreamBufRuns`): a growable byte
  queue over one contiguous vector. `Layout` gives the effect of every operation on the vector and
  the six stream positions; the class `StreamBuf.StreamBuf` performs those effects in place, on an
  array; `StreamBufRuns` compares whole runs with a plain byte queue.
* **`asio::basic_socket_streambuf`** (`SocketCalls`, `SocketStream`, `SocketStreamBuf`, `SocketRuns`,
  `SocketHistory`, `Subsequences`): a buffered character stream over a socket. The clock, `send`, `recv`, `poll`, `open`,
  `connect` and `getsockopt` answer arbitrarily, from a finite script of turns; when the script ends
  inside a call, the call has not returned (`Waiting`, `NoReply`). So every statement also covers
  calls that never return, and `FlushReturns` and `FillReturns` say when a call must return.
* **`net::Message` and `net::Connection`** (`Messages`, `Handshake`, `Connection`, `ConnectionInvariant`,
  `ConnectionProgress`, `ConnectionHandlers`, `Protocol`, `EarlySend`): the framing of messages, the mutual
  challenge, and the completion handlers of the two ends as one state machine, over every interleaving of
  partial writes, partial reads and sends. Two writes of one end that overlap may interleave, since each
  hands over its bytes in pieces and the documentation of `async_write` promises nothing for this case.

## What the proofs found

Each of these is a behaviour of the code as written, kept in the model, with the exact condition or
the general case stated by the member named.

* A `prepare()` that throws has already shifted the vector, so it can change `data()`: it certainly
  does not exactly when `gptr` is at offset 0 or not below `size()` (`Layout.ThrowingReserveSmears`,
  `Layout.SmearKeepsEveryContent`, `StreamBufRuns.ThrowingPrepareCanLoseData`).
* `commit()` and `consume()` convert their count to `int`; they do what is documented exactly when the
  clamped count is at most `INT_MAX` (`Layout.CommitAppendsExactly`, `Layout.ConsumeDropsExactly`).
* A flush that fails halfway keeps everything pending, so the part already sent is sent again by the
  next flush (`SocketRuns.FailedFlushResends`). Nothing is lost or reordered by it: the wire is made up of
  whole flushes and of beginnings of failed ones (`SocketHistory.WireIsExplained`).
* A flush can fail without leaving an error code: exactly when `send` accepts nothing
  (`SocketCalls.FailureIsReported`).
* `close()` forgets pending output, and reports success, exactly when the flush failed and the socket
  closed (`SocketStream.CloseForgetsExactly`). A move forgets it whenever there is any
  (`SocketStream.MoveForgetsExactly`), and so does `connect()` (`SocketStreamBuf.SocketStreamBuf.Connect`).
* An attempt to connect whose `poll_connect` times out, with no error in `SO_ERROR`, counts as connected.
  So `connect()` does not keep its promise of a connection "successfully established"
  (`SocketCalls.TimedOutConnectSucceeds`); it does exactly when the attempt that ends the search is not
  of this kind (`SocketCalls.SearchSucceedsExactly`).
* The comments say that operations past the expiry time fail with `operation_aborted`
  (`basic_socket_streambuf.hpp` 361-363); the code sets `timed_out` (428, 495), and so does the model
  (`SocketCalls.FlushExactly`, `SocketCalls.FillExactly`).
* The `assert` in `operator<<` of a message cannot fail, since it adds in 64 bits; the header's size
  is right exactly while the body is below 2^32 bytes (`Messages.PushKeepsFramedExactly`).
* `Send()` does not wait for the handshake. It is safe exactly from the moment when the end has handed over
  the last byte of its own part in the handshake: from then on no message breaks the connection, and before,
  some message can (`EarlySend.SendIsSafeExactly`): the other end reads its header in place of a word of the
  handshake (`EarlySend.EarlySendBreaks`). The library's own code sends too early: a server has a client in
  its list before the handshake (`DedicatedServer.inl` 117), and `MessageAll` (71-80), which `Server.cpp` 48
  calls, sends to all in that list; `DedicatedClient::Send` (82-86) asks only whether the socket is open. An
  end can tell that it may send from having received a message, and a client from its `OnValidate`; a
  server's `OnValidate` comes too early (`EarlySend.WhenToSend`).
* With sends in their time, everything arrives in order (`Protocol.MessagesArriveInOrder`), and a connection
  that is left alone always finishes (`ConnectionProgress.EveryConnectionCanFinish`).
* A client that rejects a server stays connected: `DedicatedClient::Disconnect` closes a socket of the
  client's own, not the connection's (`DedicatedClient.inl` 89-92). Nothing more is read, but sends are
  still written (`ConnectionHandlers.Connection.HandleValidation3`).

A state of a connection is called sound if it satisfies `ConnectionInvariant.Sound`. All states of a run in
which each end sends only when it is safe are sound (`ConnectionInvariant.RunKeeps`).

## Model

| member | source | states |
|---|---|---|
| `Storage.MoveDown` | Network/Dependencies/asio-1.22.1/include/asio/basic_streambuf.hpp:321-326 | the overlapping copy, done in place on one array, puts exactly the old live window at offset 0 and leaves the rest, for every amount of overlap |
| `Storage.Resize` | Network/Dependencies/asio-1.22.1/include/asio/basic_streambuf.hpp:333-334 | growing the vector keeps every byte it had and adds zeros |
| `Layout.Reserve` | Network/Dependencies/asio-1.22.1/include/asio/basic_streambuf.hpp:308-346 | on all three paths the invariant holds, the size is kept and the vector does not shrink; it throws exactly when size() + n > max_size() in unbounded arithmetic; otherwise data() is as before and n bytes can be written |
| `Layout.ReserveIsThrifty` | Network/Dependencies/asio-1.22.1/include/asio/basic_streambuf.hpp:308-346 | with room for n bytes nothing changes; otherwise the data moves to the front, and the put area ends at max(its old end, size() + n), so the vector grows only if it must and then to exactly what is needed |
| `Layout.PutGrowsByDelta` | Network/Dependencies/asio-1.22.1/include/asio/basic_streambuf.hpp:283-306 | a character put into a full put area makes room for min(128, max_size() - size()) characters, its own included, and one put elsewhere moves nothing |
| `Layout.NewBufferIsEmpty` | Network/Dependencies/asio-1.22.1/include/asio/basic_streambuf.hpp:131-141 | a new buffer holds nothing and has room for min(max_size, 128) bytes |
| `Layout.ThrowingReserveSmears` | Network/Dependencies/asio-1.22.1/include/asio/basic_streambuf.hpp:321-341 | what a throwing prepare leaves: same positions and size, and byte i of data() is the old byte gptr+i where that is below size(), else the old byte i |
| `Layout.SmearKeepsEveryContent` | Network/Dependencies/asio-1.22.1/include/asio/basic_streambuf.hpp:321-341 | no content is changed by a throwing prepare if and only if gptr is 0 or not below size() |
| `Layout.PutAppends` | Network/Dependencies/asio-1.22.1/include/asio/basic_streambuf.hpp:276-306 | putting a character throws exactly in a full buffer, and then nothing at all has changed; otherwise it is appended to data() |
| `Layout.CommitAppendsExactly` | Network/Dependencies/asio-1.22.1/include/asio/basic_streambuf.hpp:221-238 | commit appends min(n, room) bytes of the output sequence if and only if that count fits an int |
| `Layout.ConsumeDropsExactly` | Network/Dependencies/asio-1.22.1/include/asio/basic_streambuf.hpp:240-254 | consume removes min(n, size()) bytes from the front if and only if that count fits an int |
| `Layout.PrepareFillCommit` | Network/Dependencies/asio-1.22.1/include/asio/basic_streambuf.hpp:214-238 | prepare, store, commit appends exactly the stored bytes that are committed, through compaction and growth |
| `Layout.TakeIsFirst` | Network/Dependencies/asio-1.22.1/include/asio/basic_streambuf.hpp:263-274 | reading through a get area that lags behind the put position yields the bytes of data() in order |
| `StreamBuf.StreamBuf.constructor` | Network/Dependencies/asio-1.22.1/include/asio/basic_streambuf.hpp:131-141 | an empty input sequence with room for min(max_size, 128) bytes |
| `StreamBuf.StreamBuf.Size` | Network/Dependencies/asio-1.22.1/include/asio/basic_streambuf.hpp:158-161 | the length of data(), never above max_size() |
| `StreamBuf.StreamBuf.Prepare` | Network/Dependencies/asio-1.22.1/include/asio/basic_streambuf.hpp:198-219 | throws exactly as documented; the effect of both outcomes on data() and on the whole state |
| `StreamBuf.StreamBuf.Commit` | Network/Dependencies/asio-1.22.1/include/asio/basic_streambuf.hpp:233-238 | the whole new state, and when it is the documented one |
| `StreamBuf.StreamBuf.Consume` | Network/Dependencies/asio-1.22.1/include/asio/basic_streambuf.hpp:247-254 | the whole new state, and when it is the documented one |
| `StreamBuf.StreamBuf.Overflow` | Network/Dependencies/asio-1.22.1/include/asio/basic_streambuf.hpp:283-306 | throws exactly when the buffer is full, leaving the object unchanged; otherwise appends the character |
| `StreamBuf.StreamBuf.Reserve` | Network/Dependencies/asio-1.22.1/include/asio/basic_streambuf.hpp:308-346 | the in-place code reaches the state of Layout.Reserve; no size_t expression in it wraps |
| `StreamBuf.StreamBuf.ReadSizeHelper` | Network/Dependencies/asio-1.22.1/include/asio/basic_streambuf.hpp:353-359 | for every capacity: the result is the largest count within the limit and the room that max_size() leaves that is at most 512 or fits the vector without reallocation; neither subtraction wraps, and prepare of the result does not throw |
| `StreamBuf.StreamBuf.SPutC` | Network/Dependencies/asio-1.22.1/include/asio/basic_streambuf.hpp:276-306 | sputc over overflow: as Overflow, with or without room in the put area |
| `StreamBuf.StreamBuf.SBumpC` | Network/Dependencies/asio-1.22.1/include/asio/basic_streambuf.hpp:263-274 | sbumpc over underflow removes and returns the first byte of data(), or reports the end |
| `StreamBufRuns.StepIsSound` | Network/Dependencies/asio-1.22.1/include/asio/basic_streambuf.hpp:62-68 | every operation, the throwing ones included, keeps the invariant, size() <= max_size(), and never shrinks the vector |
| `StreamBufRuns.StepRefines` | Network/Dependencies/asio-1.22.1/include/asio/basic_streambuf.hpp:214-346 | one call of the buffer has the effect and the outcome of one call of a byte queue with a maximum size |
| `StreamBufRuns.RunRefines` | Network/Dependencies/asio-1.22.1/include/asio/basic_streambuf.hpp:214-346 | over whole runs no client can tell the buffer from the queue, through every compaction, growth and lazy update |
| `StreamBufRuns.RunConserves` | Network/Dependencies/asio-1.22.1/include/asio/basic_streambuf.hpp:131-346 | bytes removed so far followed by data() are the bytes added, in order, on every run of a buffer of at most INT_MAX bytes whose prepares stay within max_size() |
| `StreamBufRuns.SpaceIsBounded` | Network/Dependencies/asio-1.22.1/include/asio/basic_streambuf.hpp:283-346 | if occupancy stays within k and every prepare asks for at most n, the vector stays within max(min(max_size, 128), k + max(n, 128)), however many bytes pass |
| `StreamBufRuns.ThrowingPrepareCanLoseData` | Network/Dependencies/asio-1.22.1/include/asio/basic_streambuf.hpp:321-341 | a reachable state whose data() a throwing prepare changes |
| `StreamBufRuns.HugeCommitBreaksTheBuffer` | Network/Dependencies/asio-1.22.1/include/asio/basic_streambuf.hpp:235-236 | committing 2^31 prepared bytes moves the put position below the vector |
| `StreamBufRuns.HugeConsumeBreaksTheBuffer` | Network/Dependencies/asio-1.22.1/include/asio/basic_streambuf.hpp:249-253 | a reachable state that holds 2^31 bytes, and consuming them moves the get position below the vector |
| `SocketCalls.FlushExactly` | Network/Dependencies/asio-1.22.1/include/asio/basic_socket_streambuf.hpp:490-523 | how every flush ends, for every pattern of partial sends, would-block results and errors: it sends the bytes accepted before the first turn in which it would give up, finishes exactly if those are all, waits exactly if there is no such turn, and otherwise fails with the reason of that turn, timed_out if it was past the expiry time |
| `SocketCalls.FlushUsesWhatItNeeds` | Network/Dependencies/asio-1.22.1/include/asio/basic_socket_streambuf.hpp:490-523 | a flush that finishes has used the shortest prefix of the turns in which enough is accepted, and no turn more |
| `SocketCalls.FailureIsReported` | Network/Dependencies/asio-1.22.1/include/asio/basic_socket_streambuf.hpp:493-522 | a flush fails without an error code if and only if the first turn that ends it is one, before the expiry time, in which send accepts nothing, with bytes left to send |
| `SocketCalls.FillExactly` | Network/Dependencies/asio-1.22.1/include/asio/basic_socket_streambuf.hpp:423-464 | how every fill ends: the first turn that is past the expiry time, delivers, is at the end, or fails otherwise than by would-block decides; a chunk is clipped to the room and delivered exactly if that turn has one in time, and else the reason is reported, timed_out past the expiry time |
| `SocketCalls.FlushReturns` | Network/Dependencies/asio-1.22.1/include/asio/basic_socket_streambuf.hpp:490-523 | with a finite expiry time and a clock that advances over turns without progress, the flush loop returns within bytes-left plus ticks-left turns |
| `SocketCalls.FillReturns` | Network/Dependencies/asio-1.22.1/include/asio/basic_socket_streambuf.hpp:423-464 | with a finite expiry time and an advancing clock the fill loop returns within the ticks left |
| `SocketCalls.FlushCanWait` | Network/Dependencies/asio-1.22.1/include/asio/basic_socket_streambuf.hpp:660-670 | with the default expiry time no number of turns is enough |
| `SocketCalls.SearchIsDecidedByFirstEnd` | Network/Dependencies/asio-1.22.1/include/asio/basic_socket_streambuf.hpp:596-657 | the endpoint search is decided by the first attempt that connects, is past the expiry time or fails in getsockopt: no error, timed_out or the error of getsockopt; if there is none, it leaves the error of the call that failed for the last endpoint, be it open, connect, poll_connect or SO_ERROR; an empty list leaves the initial error |
| `SocketCalls.SearchSucceedsExactly` | Network/Dependencies/asio-1.22.1/include/asio/basic_socket_streambuf.hpp:596-657 | the search reports success with an established connection if and only if the attempt that decides it established one, and without one if and only if that attempt timed out waiting with SO_ERROR clear |
| `SocketCalls.TimedOutConnectSucceeds` | Network/Dependencies/asio-1.22.1/include/asio/basic_socket_streambuf.hpp:637-654 | an endpoint still in progress when the wait times out makes connect report success without a connection |
| `SocketStream.NewStreamIsEmpty` | Network/Dependencies/asio-1.22.1/include/asio/basic_socket_streambuf.hpp:192-208 | a new stream has nothing to read and nothing pending, no error, no expiry time, a put buffer of 512 characters and room for 8 to be put back |
| `SocketStream.OverflowExactly` | Network/Dependencies/asio-1.22.1/include/asio/basic_socket_streambuf.hpp:468-545 | overflow in every state, for every character or eof, in every world: it succeeds if and only if send accepts all that is pending (unbuffered: the character) before the first turn in which it gives up; the wire grows by exactly what is accepted; on success only the new character is pending, and otherwise everything stays pending and the error is the reason of that turn; it has not returned if and only if there is neither |
| `SocketStream.PutExactly` | Network/Dependencies/asio-1.22.1/include/asio/basic_socket_streambuf.hpp:468-545 | sputc with room in the put area succeeds without asking the socket; with none it is that flush |
| `SocketStream.SetBufNeedsNothingPending` | Network/Dependencies/asio-1.22.1/include/asio/basic_socket_streambuf.hpp:547-558 | unbuffered mode is entered exactly on request with nothing pending, and changes nothing else |
| `SocketStream.CloseForgetsExactly` | Network/Dependencies/asio-1.22.1/include/asio/basic_socket_streambuf.hpp:299-306 | close loses output if and only if the flush failed and the socket closed, in which case it reports success; its error code is that of the socket's close |
| `SocketStream.CloseExactly` | Network/Dependencies/asio-1.22.1/include/asio/basic_socket_streambuf.hpp:299-306 | close in every state and world: when it returns, what it sends, what stays pending or unread, and its error |
| `SocketStream.ConnectExactly` | Network/Dependencies/asio-1.22.1/include/asio/basic_socket_streambuf.hpp:260-289 | connect resets the buffers and nothing else, and leaves the resolver's error, or else what the endpoint search leaves, started with not_found and under the stream's expiry time |
| `SocketStream.MoveForgetsExactly` | Network/Dependencies/asio-1.22.1/include/asio/basic_socket_streambuf.hpp:217-224 | a move transfers the unread input, the error, the expiry time, the mode and the room in the put area exactly, and the pending output exactly when there is none |
| `SocketStream.MovedFromIsFresh` | Network/Dependencies/asio-1.22.1/include/asio/basic_socket_streambuf.hpp:238-241 | the source of a move is buffered, empty and without error or expiry time, whatever mode it was in |
| `SocketStream.UnderflowExactly` | Network/Dependencies/asio-1.22.1/include/asio/basic_socket_streambuf.hpp:420-464 | underflow with nothing unread, in every world: it delivers if and only if the first turn in which recv returns is in time and has data, of which up to 504 characters are kept and the first is shown; otherwise it reports timed_out, eof or the failure of that turn; it has not returned if and only if there is no such turn |
| `SocketStream.TakeExactly` | Network/Dependencies/asio-1.22.1/include/asio/basic_socket_streambuf.hpp:414-466 | sbumpc takes the first unread character without asking the socket, and with none unread it is that refill with its first character taken |
| `SocketStream.PeekExactly` | Network/Dependencies/asio-1.22.1/include/asio/basic_socket_streambuf.hpp:414-466 | sgetc shows the first unread character and changes nothing, and with none unread it is that refill |
| `SocketStreamBuf.SocketStreamBuf.constructor` | Network/Dependencies/asio-1.22.1/include/asio/basic_socket_streambuf.hpp:192-208 | both constructors leave the buffers reset and no error |
| `SocketStreamBuf.SocketStreamBuf.Move` | Network/Dependencies/asio-1.22.1/include/asio/basic_socket_streambuf.hpp:211-224 | the states of both objects after a move construction, with the vectors exchanged |
| `SocketStreamBuf.SocketStreamBuf.Assign` | Network/Dependencies/asio-1.22.1/include/asio/basic_socket_streambuf.hpp:227-243 | the states of both objects after a move assignment, including the close of the target |
| `SocketStreamBuf.SocketStreamBuf.Destroy` | Network/Dependencies/asio-1.22.1/include/asio/basic_socket_streambuf.hpp:247-251 | the destructor puts all pending characters on the wire, exactly if send accepts them all before it gives up, or else a proper prefix of them |
| `SocketStreamBuf.SocketStreamBuf.Connect` | Network/Dependencies/asio-1.22.1/include/asio/basic_socket_streambuf.hpp:260-289 | both forms of connect: the buffers are reset first, and success means no error |
| `SocketStreamBuf.SocketStreamBuf.Close` | Network/Dependencies/asio-1.22.1/include/asio/basic_socket_streambuf.hpp:299-306 | the whole new state and the result, for every outcome of the flush and of the socket's close |
| `SocketStreamBuf.SocketStreamBuf.Underflow` | Network/Dependencies/asio-1.22.1/include/asio/basic_socket_streambuf.hpp:414-466 | the fill loop with its stores behind the putback gap, in place: in every world, delivers and fails exactly as UnderflowExactly says; with characters unread it reports eof and changes nothing |
| `SocketStreamBuf.SocketStreamBuf.Overflow` | Network/Dependencies/asio-1.22.1/include/asio/basic_socket_streambuf.hpp:468-540 | the flush in place, in both modes: in every world, what is sent, what stays pending, the result and the error are exactly those of OverflowExactly |
| `SocketStreamBuf.SocketStreamBuf.SendAll` | Network/Dependencies/asio-1.22.1/include/asio/basic_socket_streambuf.hpp:490-523 | the loop sends what SocketCalls.Flush says, byte for byte in order |
| `SocketStreamBuf.SocketStreamBuf.SetBuf` | Network/Dependencies/asio-1.22.1/include/asio/basic_socket_streambuf.hpp:547-558 | done exactly when asked for with nothing pending, and then the stream is unbuffered |
| `SocketStreamBuf.SocketStreamBuf.ConnectToEndpoints` | Network/Dependencies/asio-1.22.1/include/asio/basic_socket_streambuf.hpp:596-657 | an earlier error is returned untouched; otherwise the loop leaves the error that the first attempt to end the search decides, or that of the call that failed for the last endpoint, or not_found for an empty list |
| `SocketRuns.StepIsSafe` | Network/Dependencies/asio-1.22.1/include/asio/basic_socket_streambuf.hpp:414-576 | the order of the positions, the buffer sizes and the mode invariant are kept by every operation |
| `SocketRuns.OutputIsConserved` | Network/Dependencies/asio-1.22.1/include/asio/basic_socket_streambuf.hpp:468-558 | over every run of a new stream: wire plus pending plus lost is as long as put plus resent; with nothing lost, all that was put is there in order; with nothing resent, nothing else is; equality holds exactly when both are nil |
| `SocketRuns.InputIsConserved` | Network/Dependencies/asio-1.22.1/include/asio/basic_socket_streambuf.hpp:414-466 | over every run, the characters read and unread are those that arrived, in order, and all of them exactly when no reset dropped any |
| `SocketRuns.UnbufferedOutputIsExact` | Network/Dependencies/asio-1.22.1/include/asio/basic_socket_streambuf.hpp:478-545 | a stream that is unbuffered from the start has exactly the successfully put characters on the wire, whatever fails |
| `SocketHistory.WireIsExplained` | Network/Dependencies/asio-1.22.1/include/asio/basic_socket_streambuf.hpp:468-558 | over every run in every world: the wire is the concatenation of whole flushes and of proper prefixes of failed ones; the characters put are those flushed whole or forgotten, in order, then those pending; and each failed flush was one of the characters that come next in that order |
| `SocketRuns.FailedFlushResends` | Network/Dependencies/asio-1.22.1/include/asio/basic_socket_streambuf.hpp:484-527 | after any failing flush in any world, the next flush starts again from the first pending character: with k of the pending p sent, the wire grows by p[..k] and then by p, or by a proper prefix of p if it fails too; k is what send accepted before the turn that ended the first |
| `Messages.PopUndoesPush` | Network/src/Network/Message.inl:53-77 | taking out what was put in restores the message and yields the bytes |
| `Messages.PopTakesFromTheEnd` | Network/src/Network/Message.inl:66-77 | a value is taken from the end of the body, and the rest and the id stay |
| `Messages.LastInFirstOut` | Network/src/Network/Message.inl:53-77 | values of any sizes come out in the reverse of the order in which they went in, and leave the message as it was |
| `Messages.PushKeepsFramedExactly` | Network/src/Network/Message.inl:53-77 | the header's size stays the length of the body exactly below 2^32 bytes |
| `Messages.ParseHeaderRoundTrip` | Network/src/Network/Message.h:11-32 | any eight bytes are the header that is read from them |
| `Messages.HeaderLayout` | Network/src/Network/Message.h:11-32 | on the wire the id comes first and then the size, four bytes each with the lowest first |
| `Messages.ReadBackExactly` | Network/src/Network/Connection.inl:117-160 | a message is read back from the stream as it was written, and nothing after it is touched, if and only if its header tells the length of its body |
| `Messages.ReadIsPrefixOfWritten` | Network/src/Network/Connection.inl:117-160 | the form on the wire is a prefix code: the messages read are the first of those written |
| `Handshake.DedicatedAnswer` | Network/src/Network/Connection.inl:97-102 | each byte of a dedicated end's answer is that of the challenge, combined with that of 0xDEADBEEFC0DECAFE, its two hexadecimal digits exchanged, and combined with that of 0xC0DEFACE12345678 |
| `Handshake.PeerToPeerAnswer` | Network/src/Network/Connection.inl:105-109 | likewise for a peer-to-peer node, with 0xC0DECAFEDEADBEEF and 0x12345678C0DEFACE |
| `Handshake.EncryptIsBijective` | Network/src/Network/Connection.inl:87-114 | no two challenges have the same answer, and every value is the answer to one |
| `Handshake.KindsNeverAgree` | Network/src/Network/Connection.inl:104-110 | a peer-to-peer node never gives the answer that a dedicated end accepts |
| `Handshake.WordRoundTrip` | Network/src/Network/Connection.inl:156-177 | a 64-bit value is read from its eight bytes as it was written |
| `Handshake.WordBytes` | Network/src/Network/Connection.inl:156-177 | a 64-bit value goes over the wire with its lowest byte first |
| `Protocol.CipherIsEncrypt` | Network/src/Network/Connection.inl:87-114 | the cipher of an end, which the two ends of a connection run with, takes the bytes of a challenge to the bytes of what Encrypt answers |
| `ConnectionHandlers.Message.Push` | Network/src/Network/Message.inl:53-64 | operator<< on the object, and when the header stays right |
| `ConnectionHandlers.Message.Pop` | Network/src/Network/Message.inl:66-77 | operator>> returns the last n bytes and leaves the rest, with a right header |
| `ConnectionHandlers.Connection.ConnectToClient` | Network/src/Network/Connection.inl:8-23 | a new server end then has its whole part in the handshake ahead of it, the challenge being written and the proof and the id to follow; other ends are left alone |
| `ConnectionHandlers.Connection.ConnectToServer` | Network/src/Network/Connection.inl:25-44 | a new client end then has its answer ahead of it, and nothing else, for every challenge it may be given |
| `ConnectionHandlers.Connection.Send` | Network/src/Network/Connection.inl:75-84 | in every state in which the handshake is sent, busy or idle, the message comes last in what the end has still to write, and nothing else about its two streams changes |
| `ConnectionHandlers.Connection.HandleWritten` | Network/src/Network/Connection.inl:263-385 | in every sound state, the handler of a completed write leaves what the end has still to write as it was: the next piece of it is begun, in order, and at most one |
| `ConnectionHandlers.Connection.HandleRead` | Network/src/Network/Connection.inl:116-261 | in every sound state, a completed read of the bytes that the stream has at that place is accepted: they are consumed, the other end is not rejected, and the answer that is due is begun |
| `ConnectionHandlers.Connection.HandleValidation2` | Network/src/Network/Connection.inl:182-213 | the server rejects the client exactly when the answer is not the one expected, and its connection is closed exactly then |
| `ConnectionHandlers.Connection.HandleValidation3` | Network/src/Network/Connection.inl:215-238 | the client rejects the server exactly when the proof is not the one expected; its connection stays open either way, and reading stops exactly then |
| `ConnectionHandlers.Connection.AddToIncomingMessageQueue` | Network/src/Network/Connection.inl:387-399 | a framed message extends what has been received by exactly its form on the wire, and the next header is awaited |
| `ConnectionInvariant.StepKeeps` | Network/src/Network/Connection.inl:8-399 | every handler, every partial write and read and every send once the handshake is sent keeps, in both directions, consumed, being read, under way, being written and still to write equal to the whole stream; and no end rejects the other |
| `ConnectionInvariant.PostView` | Network/src/Network/Connection.inl:75-84 | a message sent once the handshake is, comes last in what the end will write, even while the last handshake write has not completed |
| `ConnectionInvariant.CompleteView` | Network/src/Network/Connection.inl:263-385 | the handler of a write begins exactly the next piece of what was planned, and the amount left to begin or the number of writes goes down |
| `ConnectionInvariant.FinishView` | Network/src/Network/Connection.inl:116-261 | whatever is read in a sound state is what the other end wrote there, so that it is accepted |
| `ConnectionProgress.StepDecreases` | Network/src/Network/Connection.inl:116-385 | every step a connection takes by itself brings its bytes nearer to where they are read |
| `ConnectionProgress.InternalRunsAreBounded` | Network/src/Network/Connection.inl:116-385 | a connection left alone takes no more steps than that measure, from every sound state |
| `ConnectionProgress.StillMeansDone` | Network/src/Network/Connection.inl:116-399 | a sound state in which no handler can run and no byte can move is one in which both handshakes are over, the client has its id, and each end has received exactly the messages sent at the other |
| `ConnectionProgress.EveryConnectionCanFinish` | Network/src/Network/Connection.inl:116-399 | from every sound state with both ends connected, such a final state can be reached without a send |
| `Protocol.MessagesArriveInOrder` | Network/src/Network/Connection.inl:8-399 | on every interleaving with sends from the moment they are safe, each end receives a prefix of what the other sent, and all of it once nothing is under way; the client gets its id; nobody is rejected, and without a failing operation nobody is disconnected |
| `Protocol.ServerAcceptsExactly` | Network/src/Network/Connection.inl:191-196 | a server accepts exactly the encryption of its challenge, so never that of a peer-to-peer node |
| `Protocol.ClientAcceptsExactly` | Network/src/Network/Connection.inl:215-238 | a client rejects exactly what is not the proof it expects; it stays connected, and stops reading exactly then |
| `EarlySend.SendIsSafeExactly` | Network/src/Network/Connection.inl:75-84 | from every sound state: an end has handed over the last byte of its part in the handshake if and only if no framed message it could send now, whatever the connection does by itself afterwards, makes an end reject the other, disconnect, take a wrong id or receive other messages than were sent |
| `EarlySend.EarlySendBreaks` | Network/src/Network/Connection.inl:75-84 | before that moment, every message whose header differs from the word it displaces leads to a state in which the other end has rejected this one, or taken a wrong id, in every phase of the handshake and at both ends |
| `EarlySend.WhenToSend` | Network/src/Network/Connection.inl:193-197 | what a program can see: an end that has received a message may send, and both may once the client is past its OnValidate; a server may not between accepting a client and the end of its OnValidate, nor a client before it has read its challenge |
| `EarlySend.SendFromOnValidateCorruptsId` | Network/src/Network/Connection.inl:188-195 | from every sound state in which the server has just called OnValidate, a message can be read as the client's id, whatever its header, unless that is the id |
| `EarlySend.SendBeforeAnswerIsRejected` | Network/src/Network/Connection.inl:75-84 | from every sound state in which the client has not read its challenge, a message can be taken for its answer, so that the server rejects it and closes the connection |

## Left out

- StreamBuf.StreamBuf.Consume: `gptr() + n` is compared as an unbounded integer, because pointer arithmetic beyond the array has no defined meaning in C++.
- Allocation failure: `std::bad_alloc` and the vector's own length limit are not modelled; the capacity the vector chooses is arbitrary.
- SocketStreamBuf.SocketStreamBuf.Assign: a stream moved onto itself, which the code does not guard against, is excluded.
- Connection.Next: the handlers of one end run one at a time, as on the single thread that runs the io_context; a `Send()` is modelled from the moment its posted function runs.
- Connection.Disconnect: on a server the socket closes when the last reference to the connection is dropped; the model closes it when the server drops its own, since a connection that has not finished its handshake has no message in the incoming queue that could hold another.
- Putback (`sungetc`, `sputbackc`) and the bulk calls `sgetn` and `sputn` of both stream buffers.
- `timeout()`: how long a poll waits is part of the arbitrary world, which reports when it returned.
- Sockets are what their calls report: no open or closed state, no addresses; `close`, `open`, `connect` and `getsockopt` may answer anything.
- `net::TSDeque`'s locking and waiting, `DedicatedServer`, `DedicatedClient`, the two programs and peer-to-peer ends: queues of messages and client lists are sequences here, and the callbacks have no effect of their own.
- Which of the network's two machines is big-endian: the object representations are little-endian.
- The Windows Runtime branches, the deprecated accessors, `basic_streambuf_ref` and the rest of asio.

# Verified model of blnk

blnk lets one device open shells, transfer files and proxy traffic on another over a peer-to-peer
data channel. This project models the parts of it where correctness is hard to see from the code: the
frame codec and the segmented file protocol above it, the authentication handshake between two
runtimes, the stream registries of both ends, the shared output budget of shell commands, the
wake-up protocol of the peer's wait loops, the identity file format, the proxy's redirect handling,
the browser session limits and the revisioned metadata store. Everything is proved for all inputs,
all runs or all interleavings of the model.

`dafny verify dfyconfig.toml` checks the whole project.

| file | models |
|---|---|
| `Swsp.dfy` | the frame codec and the reassembly of frames from a byte stream |
| `FileTransfer.dfy` | file requests, segmentation, collection, and PUT followed by GET end to end |
| `Base64.dfy`, `Pem.dfy` | the identity file |
| `Registry.dfy` | stream ids, the active set and the count of closed streams |
| `Session.dfy` | session states, PIN comparison and retry limits |
| `Handshake.dfy` | the control protocol of one runtime, as code and as functions |
| `HandshakeRuns.dfy` | one server against arbitrary messages, and two runtimes over a channel that may lose the tail |
| `HandshakeExact.dfy` | the message sequences on which one side succeeds |
| `HandshakeOutcome.dfy` | termination and the exact outcome of two runtimes over a working channel |
| `Dispatch.dfy` | the server's frame dispatcher against a client that opens and closes streams |
| `OutputBudget.dfy` | concurrent readers that reserve space in one atomic counter |
| `WakeUp.dfy` | flags, notifications and the check-register-recheck-sleep loops |
| `Limiter.dfy` | the sliding-window limit and the cap on browser sessions |
| `Redirect.dfy` | destination policy, DNS pinning and the redirect loop |
| `RevisionStore.dfy` | objects, immutable revisions and the search index in one transaction |

Code that updates state in place is a class or a method with loops, proved equal to a function of the
old state; the laws are proved about those functions and about runs made of them. Concurrent code is
a transition system whose steps are the atomic operations. Clocks, randomness, DNS answers, replies
of servers, message delivery and the number of sends a channel still accepts are parameters that
range over all values.

Text is the sequence of its bytes, and white space is ASCII white space.

## What turned out not to hold

Each of these is exhibited at a concrete input or family of inputs by the first lemma named, and the
second says exactly when it happens.

- A wrong PIN is not counted when the next retry instant cannot be represented
  (`Session.UncountedGuesses`, `Session.WrongPinCountedExactly`). The handshake loop ends there, so
  its bound on guesses holds all the same (`HandshakeRuns.HandshakeAuthenticates`).
- The PIN list alone does not decide a handshake: the client retries at once, and a retry inside the
  delay ends it (`HandshakeOutcome.HastyRunFails`, `HandshakeOutcome.ListDecidesExactly`).
- An opened stream id can reuse an earlier one once the largest id has been accepted
  (`Registry.LargestIdWraps`, `Registry.OpenedIdsFresh`).
- A stream whose opening names a blank file path or does not fit one frame stays active at the client
  only (`Dispatch.BlankPathLeaks` and `Dispatch.OversizedOpeningLeaks`, `Dispatch.LeakedExactly`).
- The client sends a blank shell program, and the server ends the session over it
  (`Dispatch.BlankProgramFaults`, `Dispatch.FaultsExactly`).
- A session that ends in mid-download makes a truncated file look complete
  (`FileTransfer.TruncatedDownload`, `FileTransfer.ReceivedExactly`).
- Waiting for a connection or for an open channel can miss a failure and sleep until the timeout
  (`WakeUp.PeerLoops`, `WakeUp.SafeExactly`).
- The creation limit over the whole configured window needs clock readings in lock order, because the
  clock is read before the lock is taken (`Limiter.LateRunCreates`, `Limiter.WindowExactly`).
- A stored object loses its kind, tags, policy, attributes and any unspecified status, sensitivity or
  storage state (`RevisionStore.KindLost`, `RevisionStore.InsertReadsBackExactly`).
- An update can leave the index with another kind than the row (`RevisionStore.IndexKindDiffers`,
  `RevisionStore.IndexKindExactly`).

PROTOCOL.md lists the flags SYN, ACK, FIN, RST, DAT and PSH and payloads up to 65,535 bytes; the code
has SYN, MORE, FIN and DAT and sends at most 16,384 bytes. The model follows the code.

## Model

| member | source | states |
|---|---|---|
| Swsp.FlagsAreTheirBits | src/protocol/swsp.rs:58-89 | every combination of the four flags is accepted and each test reads back its own bit; whatever is accepted is such a combination; what is refused is reported without the known bits it also carries |
| Swsp.LengthError | src/protocol/swsp.rs:188-203 | no error exactly within the maximum and the 16-bit field; an invalid maximum is reported first, then an unrepresentable length, then one above the maximum |
| Swsp.EncodeWithLimit | src/protocol/swsp.rs:120-140 | the buffer built step by step is the encoding the laws are about; it succeeds exactly when the payload fits |
| Swsp.DecodeEncoded | src/protocol/swsp.rs:151-185 | an encoded frame is read back, with the right number of bytes used, whatever bytes follow |
| Swsp.EncodeDecoded | src/protocol/swsp.rs:120-185 | whatever decodes is byte for byte the encoding of the decoded frame, so no frame has two encodings |
| Swsp.ProperPrefixIncomplete | src/protocol/swsp.rs:151-185 | every proper prefix of an encoding asks for more, reports what it has, and never asks for more than the frame needs |
| Swsp.DecodeStable | src/protocol/swsp.rs:151-185 | any result other than incomplete is unaffected by further input |
| Swsp.EncodingsPrefixFree | src/protocol/swsp.rs:120-140 | no encoding is a prefix of another frame's encoding |
| Swsp.DrainEncodedAll | src/protocol/swsp.rs:147-185 | repeated decoding of concatenated encodings returns exactly the frames that went in |
| Swsp.DrainKeepsBytes | src/protocol/swsp.rs:147-185 | for any input at all, the frames parsed plus the unparsed rest spell out the input |
| Swsp.DrainResumes | src/protocol/swsp.rs:147-185 | cutting the input anywhere and resuming with the buffered rest parses the same as all at once |
| FileTransfer.RequestRoundTrip | src/stream/file.rs:134-203 | a request survives the wire exactly when its shape is valid and its numbers are signed 64-bit |
| FileTransfer.ShapeExactly | src/stream/file.rs:182-203 | which requests are well shaped, and which complaint each malformed one draws first |
| FileTransfer.FromWireExactly | src/stream/file.rs:134-165 | a wire message is read exactly as the well-shaped request it says, and refused for the first thing wrong with it |
| FileTransfer.EncodeDataFrame | src/stream/file.rs:612-626 | succeeds exactly off the control stream and within the frame size; the last chunk carries FIN, others MORE |
| FileTransfer.SegmentsShape | src/signaling/orchestration.rs:517-535 | every segment fits, exactly the last carries FIN, and the payloads in order are the body |
| FileTransfer.SendUpload | src/signaling/orchestration.rs:517-535 | the chunk loop with its own last-chunk test sends exactly the segments, one empty final frame for an empty body |
| FileTransfer.CollectDataFrames | src/stream/file.rs:643-689 | the collection loop with its checks and cancellation polls computes the collected body |
| FileTransfer.CollectedExactly | src/stream/file.rs:643-689 | collection succeeds exactly on data frames up to the first FIN that total the announced size within the limit, and returns their payloads |
| FileTransfer.CollectFailsExactly | src/stream/file.rs:643-689 | collection fails exactly for what is wrong with the first frame that spoils it, or for an announced size above the limit |
| FileTransfer.DeliverExactly | src/peer/mod.rs:367-393 | the channel is the identity on frames that fit and refuses the others |
| FileTransfer.UploadEndToEnd | src/stream/file.rs:643-689 | segmenting, sending and collecting any body within the limit returns that body |
| FileTransfer.EncodeDownload | src/stream/file.rs:696-727 | the response loop, which marks the last chunk by its index, sends metadata followed by the same segments |
| FileTransfer.DownloadShape | src/stream/file.rs:696-727 | every frame of a response is a data frame of its stream, MORE on all but the last and FIN on the last, metadata first and then the file in order |
| FileTransfer.ReceiveDownload | src/signaling/orchestration.rs:537-553 | the client's receive loop computes the received download, errors included |
| FileTransfer.ReceivedExactly | src/signaling/orchestration.rs:537-553 | the client accepts exactly the frame sequences that start with readable metadata and reach a FIN with no control frame before it, and returns the payloads up to that FIN |
| FileTransfer.ReceiveFailsExactly | src/signaling/orchestration.rs:537-553 | a download fails exactly for what is wrong with the first frame that breaks it |
| FileTransfer.TruncatedDownload | src/session/runtime.rs:436-445 | a session end at any point of a download is taken for the end of the file, and a proper part of it is returned as complete |
| FileTransfer.DownloadReassembles | src/signaling/orchestration.rs:537-553 | the client reassembles any response the server segments |
| FileTransfer.DownloadFramesFit | src/stream/file.rs:696-727 | a response crosses the channel exactly when its metadata fits one frame |
| FileTransfer.PutStores | src/stream/file.rs:402-463 | a PUT succeeds exactly with a path, a size within the limit and no forbidden overwrite; it stores its bytes and touches nothing else |
| FileTransfer.UploadExactly | src/stream/file.rs:402-463 | any body is stored exactly when it has the announced size within the limit and may be written; otherwise which error |
| FileTransfer.SelectExactly | src/stream/file.rs:379-395 | a range is served exactly when it lies in the file, and refused on an empty file with an error of its own |
| FileTransfer.GetExactly | src/stream/file.rs:345-400 | over any store a GET through all layers succeeds exactly when the path is not blank, the file exists within the limit and the range lies in it; it delivers exactly those bytes, and says which of the first three is missing |
| FileTransfer.PutThenGet | src/stream/file.rs:345-395 | after a PUT, a GET through all layers returns the bytes, or exactly the inclusive range asked for, failing exactly when the range leaves the file |
| Base64.DecodeExactly | src/identity/key.rs:361-367 | decoding accepts exactly the encodings, each as the bytes it encodes |
| Pem.EncodePemBlock | src/identity/key.rs:366-377 | the line loop prints marker lines around the encoding wrapped at 64 columns |
| Pem.FindFirst | src/identity/key.rs:344-364 | the text search returns the first match |
| Pem.FindExactly | src/identity/key.rs:344-364 | the search answers with the first match and with nothing exactly when there is none |
| Pem.DecodedExactly | src/identity/key.rs:344-364 | any text is read as the decoded lines between the first begin marker and the first end marker behind it; it fails for want of the one, of the other, or of decodable lines |
| Pem.PaddedLine | src/identity/key.rs:356-363 | white space around a line, a carriage return included, does not matter |
| Pem.MatchInLine | src/identity/key.rs:344-364 | inside a marker line a marker matches only at its start and only if it is the same marker |
| Pem.NoMatchInBlock | src/identity/key.rs:344-364 | the begin marker of one label occurs nowhere in a block of another, whatever its bytes |
| Pem.JoinedWrapped | src/identity/key.rs:344-364 | trimming and joining lines undoes the wrapping |
| Pem.FileReadBack | src/identity/key.rs:344-377 | any label read from any file of blocks gives the bytes of the first block that has it, and fails exactly when none has |
| Pem.SavePem | src/identity/key.rs:189-196 | a saved identity is the file of its two blocks |
| Pem.IdentityRoundTrip | src/identity/key.rs:138-196 | key and access code both read back as the bytes that were saved |
| Registry.FirstFreeExactly | src/stream/mod.rs:163-175 | the id search finds the nearest free id in cyclic order and fails exactly when none is free |
| Registry.OpensExactly | src/stream/mod.rs:97-115 | a stream opens exactly when it has a path and some id is free, and otherwise changes no stream |
| Registry.AcceptsExactly | src/stream/mod.rs:117-145 | an id is accepted exactly when it is not zero, has a path and is not active; otherwise which refusal, and nothing changes |
| Registry.StreamRegistry.constructor | src/stream/mod.rs:69-75 | a new registry is empty and starts at id 1 |
| Registry.StreamRegistry.AllocateId | src/stream/mod.rs:163-175 | the wrapping loop, which stops after a full turn, returns the first free id and moves on past it |
| Registry.StreamRegistry.OpenStream | src/stream/mod.rs:97-115 | new state and result are those of the opening function the laws are about |
| Registry.StreamRegistry.AcceptStream | src/stream/mod.rs:117-145 | likewise for accepting a given id, with its refusals |
| Registry.StreamRegistry.CloseStream | src/stream/mod.rs:147-154 | likewise for closing, with the saturating count |
| Registry.StreamRegistry.ClearStreams | src/stream/mod.rs:156-161 | likewise for clearing |
| Registry.StreamsConserved | src/stream/mod.rs:97-175 | over every run, streams admitted are streams active plus streams closed, and the stored count is that number up to saturation |
| Registry.OpenedIdsFresh | src/stream/mod.rs:97-175 | in any run an opened id is not active, and it exceeds every earlier id exactly when the largest id was never used |
| Registry.LargestIdWraps | src/stream/mod.rs:117-175 | accepting the largest id makes the next open reuse a closed id |
| Registry.StoredCountsBalance | src/stream/mod.rs:77-95 | below saturation the stored numbers themselves balance |
| Session.ConstantTimePinEq | src/session/mod.rs:401-414 | comparing zero-padded copies without early exit is plain equality of six-byte strings |
| Session.NewSession | src/session/mod.rs:206-230 | a session exists exactly for a usable policy, and starts connecting with no streams |
| Session.Session.Begin | src/session/mod.rs:240-254 | new state and result are those of the transition function |
| Session.Session.AuthRequired | src/session/mod.rs:257-267 | likewise when the server asks for a PIN |
| Session.Session.AuthResult | src/session/mod.rs:274-285 | likewise when the server answers |
| Session.Session.BecomeReady | src/session/mod.rs:288-299 | likewise when the session becomes ready |
| Session.Session.TryPin | src/session/mod.rs:301-337 | likewise for a PIN, with delay, counting and closing |
| Session.Session.CloseAll | src/session/mod.rs:394-398 | likewise for closing, which clears the streams |
| Session.Session.OpenOne | src/session/mod.rs:339-351 | streams open only in a ready session |
| Session.Session.AcceptOne | src/session/mod.rs:353-366 | streams are accepted only in a ready session |
| Session.Session.CloseOne | src/session/mod.rs:368-370 | closing a stream is left to the registry |
| Session.WrongPinCountedExactly | src/session/mod.rs:301-337 | a compared wrong PIN is counted exactly when it is the last allowed or the retry instant is representable; otherwise nothing changes |
| Session.AnswersExactly | src/session/mod.rs:301-337 | which PINs are refused with which error, changing nothing, and which are accepted, close the session or are rejected |
| Session.RejectionCountsDown | src/session/mod.rs:317-335 | a rejection tells how many wrong PINs are still allowed, never that none is |
| Session.TransitionsExactly | src/session/mod.rs:240-398 | an operation outside its states changes nothing; inside them it leads where it should, only a PIN is counted, and only stream operations and closing touch the streams |
| Session.UncountedGuesses | src/session/mod.rs:301-337 | with an unrepresentable delay any number of wrong PINs leaves the session unchanged |
| Session.LifecycleForward | src/session/mod.rs:206-398 | over every run the state only moves forward, and an active stream implies a ready session |
| Session.SessionConserves | src/session/mod.rs:339-398 | over every run of a session its streams are conserved as in the registry |
| Handshake.SessionRuntime.Fail | src/session/runtime.rs:913-920 | failing closes the session and sends an error if the channel still takes it |
| Handshake.SessionRuntime.AnnounceReady | src/session/runtime.rs:896-911 | the effects of announcing readiness are those of the reaction function |
| Handshake.SessionRuntime.HandleConnect | src/session/runtime.rs:776-844 | likewise for a connect message |
| Handshake.SessionRuntime.HandleAuth | src/session/runtime.rs:776-844 | likewise for a PIN, including the repeated-PIN rule and the order of the answers |
| Handshake.SessionRuntime.HandleServerMessage | src/session/runtime.rs:776-844 | likewise for any message at a server |
| Handshake.SessionRuntime.HandleClientMessage | src/session/runtime.rs:846-894 | likewise for any message at a client |
| Handshake.SessionRuntime.Handshake | src/session/runtime.rs:626-652 | the loop over any inbox computes the handshake that the laws of the loop are about; a second call is refused untouched |
| HandshakeRuns.HandshakeAuthenticates | src/session/runtime.rs:626-652 | over any messages at any times with any sends failing, the handshake of a server with a PIN compares at most the allowed number of PINs, each from an auth after an acceptable first connect, all but the last wrong and a retry delay apart; it is ready only if the last one is right and returns without error only if it is ready |
| HandshakeRuns.HandshakeNeedsConnect | src/session/runtime.rs:776-800 | with or without a PIN a server leaves connecting, and returns without error, only after a first connect with a path and version 0 or 3 |
| HandshakeRuns.FirstConnectExactly | src/session/runtime.rs:776-800 | from a new runtime a connect is accepted exactly with a path and version 0 or 3, and answered by a request for the PIN or by readiness; otherwise the session is closed and fails |
| HandshakeRuns.BegunAfterConnect | src/session/runtime.rs:776-844 | the same for any messages, even ones handled after an error |
| HandshakeRuns.SendsCutShort | src/session/runtime.rs:776-920 | a channel that stops accepting messages cuts a reaction short and does nothing else: a prefix gets out, the session moves as it would have, and the handshake fails |
| HandshakeRuns.AnnouncedWhenReady | src/session/runtime.rs:896-911 | readiness is announced only by a server that is ready |
| HandshakeRuns.FinishedIsReady | src/session/runtime.rs:626-652 | on either side a handshake that returns without error leaves the session ready, and ready announced or seen |
| HandshakeRuns.StepBounded | src/session/mod.rs:301-337 | a message keeps the count and spacing of comparisons, or ends the loop with them still within bounds; no clock needs to be trusted |
| HandshakeRuns.ServerAttempts | src/session/runtime.rs:776-844 | the same bounds even if messages are still handled after an error, as long as the retry instants of the comparisons made are representable |
| HandshakeRuns.ComparedAfterConnect | src/session/runtime.rs:776-844 | every PIN compared came in an auth message after a first connect with a path and version 0 or 3 |
| HandshakeRuns.ReadyNeedsThePin | src/session/runtime.rs:776-844 | under the same conditions a server with a PIN is ready only after a connect and a later auth with the expected bytes, with fewer wrong PINs than the limit before it |
| HandshakeRuns.ClosedIsNeverLeft | src/session/runtime.rs:776-920 | no sequence of messages reopens a closed session |
| HandshakeRuns.HandshakeAgreement | src/session/runtime.rs:626-920 | in every reachable state of two runtimes, whatever is lost or closed, a client that was ready had a server that was ready, and then one of the PINs the client itself sent is the expected one |
| HandshakeExact.ClientFinishesExactly | src/session/runtime.rs:846-894 | a client succeeds exactly on rounds of a PIN request and a result, one PIN of its list each, followed by a ready with routing; it sends exactly those PINs in order |
| HandshakeExact.ServerFinishesExactly | src/session/runtime.rs:626-844 | a server succeeds exactly when the first message is an acceptable connect it can answer and, with a PIN, fewer wrong ones than the limit are followed by the right one, each new and outside its retry delay |
| HandshakeOutcome.ServerAnswers | src/session/runtime.rs:800-844 | the server's answer to the next offered PIN in its five cases: repeated, too early, right, last wrong and wrong |
| HandshakeOutcome.Progress | src/session/runtime.rs:626-652 | two runtimes over a working channel never block before both have returned |
| HandshakeOutcome.HandshakeComputesOutcome | src/session/runtime.rs:626-920 | for any retry delay, every run ends within three steps per PIN plus five, with both sides ready exactly when no PIN was handled inside its retry delay, the first right PIN comes within the limit and no PIN repeats its predecessor before it, and with both failed otherwise |
| HandshakeOutcome.NoDelayNoHurry | src/session/mod.rs:308-312 | with no retry delay no run handles a PIN too early |
| HandshakeOutcome.ListDecidesExactly | src/session/runtime.rs:626-920 | the PIN list alone decides every run exactly when no PIN is required, there is no retry delay, the first PIN is right, or the list cannot win |
| HandshakeOutcome.SecondPinHurried | src/session/mod.rs:308-312 | for every list with a wrong first and a different second PIN and any positive delay, a run in which the clock stands still ends with both sides failed |
| HandshakeOutcome.HastyRunFails | src/session/mod.rs:308-312 | a concrete winning list that a run loses |
| Dispatch.SentExactly | src/stream/file.rs:129-203 | an opening is sent exactly when it is a command or names a path that is not blank, and fits one frame |
| Dispatch.OpenerDecodes | src/stream/shell.rs:653-663 | the server reads every opening that was sent as what was meant, except for a blank program, which it reads as nothing |
| Dispatch.ServeSession | src/signaling/orchestration.rs:346-409 | the dispatcher loop, with its inner loop over an upload and its handlers failing at will, computes the fold of the dispatch function over the frames |
| Dispatch.StopsExactly | src/signaling/orchestration.rs:355-407 | for any frame in any state: when it ends the session, and when it causes which fault |
| Dispatch.ServeExactly | src/signaling/orchestration.rs:346-409 | whatever frames arrive, the session ends in order exactly at a control FIN reached between two streams, and with each fault exactly at a frame reached that causes it |
| Dispatch.ServeSnoc | src/signaling/orchestration.rs:346-409 | frames can be served as they arrive: one more frame is one more step |
| Dispatch.DispatchFollows | src/signaling/orchestration.rs:577-648 | on a frame that makes sense the dispatcher does what the client meant, or faults over a blank program or a failed handler |
| Dispatch.RegistriesAgree | src/signaling/orchestration.rs:346-567 | for any shell and file operations, the two active sets differ only in streams whose opening or closing is in flight or that leaked, and with nothing in flight agree exactly when nothing leaked |
| Dispatch.FaultsExactly | src/signaling/orchestration.rs:363-407 | over every run the server gives up with an unknown opener exactly when a delivered opening has a blank program, with a handler failure exactly when a delivered frame's handler fails, and for no other reason |
| Dispatch.NoFaultWithoutCause | src/signaling/orchestration.rs:346-409 | a run that opens no blank program and whose handlers succeed never makes the server give up |
| Dispatch.OrderlyEnd | src/session/runtime.rs:724-747 | a client that ends its session holds no streams, and delivering what is in flight ends the server without a fault, however many streams were left open |
| Dispatch.DisconnectCloses | src/signaling/orchestration.rs:347-353 | losing the connection closes the link without a fault |
| Dispatch.BuiltFlags | src/session/runtime.rs:411-454 | the flags of every frame the client builds |
| Dispatch.UploadSentWhole | src/signaling/orchestration.rs:515-535 | an upload puts its opening and then exactly the segments of its data in flight |
| Dispatch.ChunksAreSegments | src/stream/file.rs:612-626 | the frames of an upload are those segments, bit for bit |
| Dispatch.BlankProgramFaults | src/stream/shell.rs:635-663 | a session whose first command is blank is ended by the server |
| Dispatch.LeakedExactly | src/signaling/orchestration.rs:434-516 | over every run streams leak exactly when some opening that took an id has a blank file path or does not fit one frame |
| Dispatch.BlankPathLeaks | src/signaling/orchestration.rs:506-516 | an upload to a blank path leaves the client a stream the server never saw |
| Dispatch.OversizedOpeningLeaks | src/signaling/orchestration.rs:434-437 | so does a command whose name alone is longer than a frame |
| OutputBudget.BudgetHolds | src/stream/shell.rs:325-361 | in every interleaving of any number of readers, with spurious exchange failures and stale reads, the counter is the sum of the granted reservations, within the limit, and each output is a prefix of what was read |
| OutputBudget.OutputWithinLimit | src/stream/shell.rs:325-361 | all output collected by all readers stays within the limit at every moment |
| OutputBudget.CounterGrows | src/stream/shell.rs:345-361 | the counter never decreases |
| OutputBudget.RefusalJustified | src/stream/shell.rs:345-361 | a refused reader could not have been granted its chunk then or at any later time |
| OutputBudget.ShellOutputWithinLimit | src/stream/shell.rs:278-284 | when both pipes are drained, both outputs are complete and together within the limit |
| OutputBudget.ExchangeRetries | src/stream/shell.rs:356-359 | a failed exchange is tried again with the value it observed |
| OutputBudget.AloneExactly | src/stream/shell.rs:325-343 | a reader that moves alone returns all it reads exactly when that fits what is left of the limit |
| WakeUp.NoLostWakeUp | src/peer/mod.rs:421-455 | in every interleaving, no waiter is blocked once a condition it tests after registering has been announced |
| WakeUp.SafeExactly | src/peer/mod.rs:282-344 | a loop can miss a condition exactly when it does not test it again after registering |
| WakeUp.WaiterReturns | src/peer/mod.rs:421-455 | after such an announcement the waiter returns within a bounded number of its own steps, whatever the others do |
| WakeUp.NotifyWakesAll | src/peer/mod.rs:63-95 | every notification wakes every waiter that has registered |
| WakeUp.SleepsUntilNotified | src/peer/mod.rs:282-344 | a waiter that sleeps does not go on before it is notified |
| WakeUp.HeldBeforeWaiting | src/peer/mod.rs:282-344 | a waiter that starts when a condition it tests already holds returns within a bounded number of its own steps, with no notification |
| WakeUp.DoneForAReason | src/peer/mod.rs:282-344 | a waiter returns only because a condition it tests holds |
| WakeUp.PeerLoops | src/peer/mod.rs:282-344 | which of the four wait loops can miss which condition |
| Limiter.SessionStore.constructor | src/web/mod.rs:217-225 | a new store has no sessions and no creation times |
| Limiter.SessionStore.RetainRecent | src/web/mod.rs:504-506 | the pruning loop keeps exactly the creation times inside the window, in order |
| Limiter.SessionStore.CreateSession | src/web/mod.rs:499-537 | new state and reply are those of the creation function; pruning stays even when the creation is refused |
| Limiter.SessionStore.CloseSession | src/web/mod.rs:769-774 | closing marks the record if there is one |
| Limiter.RecentExactly | src/web/mod.rs:504-506 | pruning keeps each creation time inside the window as often as it was there, and no other |
| Limiter.RepliesExactly | src/web/mod.rs:507-526 | a creation is refused for the rate, the live sessions or want of a token, in this order, and otherwise made; expired sessions never count |
| Limiter.SlidingWindow | src/web/mod.rs:499-537 | with clock readings in lock order, every window of the configured length, wherever it starts, holds at most the allowed creations |
| Limiter.LateRunCreates | src/web/mod.rs:499-537 | for every configuration, a full burst, a pruning request one window later and a late one all go through |
| Limiter.WindowExactly | src/web/mod.rs:499-537 | over all runs whose readings lag by at most a given amount, windows of a given length obey the limit exactly when length plus lag fits the configured window |
| Limiter.LiveSessionsCapped | src/web/mod.rs:510-518 | however late the readings, the active unexpired sessions never exceed the cap at any instant from the last request on |
| Limiter.LiveExactlyUntilExpiry | src/web/mod.rs:528-537 | a created session is live exactly until its creation plus the time to live, unless it is closed or its token drawn again |
| Limiter.ExpiredArePruned | src/web/mod.rs:501-503 | after any attempt to create, no active session past its expiry is left and every closed one still is |
| Limiter.ClosedStep | src/web/mod.rs:501-503 | a closed record is kept and stays closed unless a creation succeeds with the same token |
| Limiter.ClosedStaysClosed | src/web/mod.rs:499-537 | over any run a closed session stays closed while its token is not drawn again |
| Redirect.MappedSame | src/stream/proxy.rs:612-670 | writing an IPv4 address in IPv6 form never changes whether the proxy may go there |
| Redirect.BlocksExactly | src/stream/proxy.rs:612-660 | the tests on octets are membership in the two lists of address blocks, closed and local |
| Redirect.V6Exactly | src/stream/proxy.rs:620-670 | the same for IPv6 prefixes |
| Redirect.PermittedExactly | src/stream/proxy.rs:604-609 | an address is permitted exactly outside the closed blocks and, inside the local ones, with the opt-in |
| Redirect.KeyNormal | src/stream/proxy.rs:552-582 | origins do not depend on the case of the host, on trailing dots or on spelling out the default port, and their host is in normal form |
| Redirect.KeyExactly | src/stream/proxy.rs:552-582 | a URL has a key exactly when it identifies it: known scheme, no credentials or fragment, a host, a port given or by default, and no path on raw connections |
| Redirect.KeyRefusedExactly | src/stream/proxy.rs:552-582 | a URL without a key is refused for the first of these that it lacks |
| Redirect.ValidatedExactly | src/stream/proxy.rs:414-448 | a target is validated exactly when it has a key with an allowed scheme and port, the key is on the list or confirmed by a user who may, and a literal host is permitted |
| Redirect.TargetRefusedExactly | src/stream/proxy.rs:414-448 | a target is refused for the first check it fails |
| Redirect.RedirectRefusedExactly | src/stream/proxy.rs:481-502 | a redirect is refused for the limit, its target, a loss of encryption or a change of origin, in this order |
| Redirect.ResolutionRefusedExactly | src/stream/proxy.rs:466-602 | a resolution is refused for a failed lookup, an empty answer, or the first address that is not acceptable |
| Redirect.ValidateResolved | src/stream/proxy.rs:584-602 | the loop over DNS answers reports the complaint about the first unacceptable one, or pins them all |
| Redirect.ComplaintExactly | src/stream/proxy.rs:584-602 | an answer set is pinned exactly when every address has the right port and is permitted |
| Redirect.RetryExactly | src/stream/proxy.rs:505-518 | a retry is allowed exactly to the pinned addresses |
| Redirect.RetryRefusedExactly | src/stream/proxy.rs:505-518 | any other retry is refused for its address, its port or for not having been pinned, in this order |
| Redirect.ConnectPinned | src/stream/proxy_handler.rs:157-173 | the connect loop is never refused by the policy, returns the first address that accepts, and fails exactly when none does |
| Redirect.RequestHttp | src/stream/proxy_handler.rs:328-408 | the redirect loop computes the outcome and the requests of the recursive definition, and ends |
| Redirect.RequestsApproved | src/stream/proxy_handler.rs:328-376 | in every run at most one request more than the redirect limit is sent, each to an origin that is on the list or confirmed, with an allowed scheme and port, at all the addresses its host was looked up to at that hop, each permitted and with its port |
| Redirect.OriginKept | src/stream/proxy.rs:481-502 | without cross-origin redirects no run leaves its first origin |
| Redirect.SecurityKept | src/stream/proxy.rs:481-502 | without insecure redirects, once a hop is encrypted every later hop is |
| Redirect.AnsweredExactly | src/stream/proxy_handler.rs:328-408 | a request is answered after some number of redirects exactly when that number is within the limit and an approved chain of so many hops leads to an answer |
| Redirect.FailsExactly | src/stream/proxy_handler.rs:328-408 | a request fails with an error exactly when a trail of redirects within the limit leads to a turn that ends with it |
| Redirect.TurnStopsExactly | src/stream/proxy_handler.rs:330-377 | which error a turn ends with |
| Redirect.ReadBody | src/stream/proxy_handler.rs:378-399 | the body is returned whole exactly when neither its announced nor its actual size passes the limit and the connection does not break |
| RevisionStore.SqliteStore.UpsertSearch | src/storage/store.rs:266-292 | deletes the object's index rows, keeps the others in order and adds the new one |
| RevisionStore.SqliteStore.InsertObject | src/storage/store.rs:43-107 | the statements with rollback on failure are one insert transaction |
| RevisionStore.SqliteStore.UpdateObject | src/storage/store.rs:140-192 | the statements with rollback on failure are one update transaction |
| RevisionStore.AllOrNothing | src/storage/store.rs:43-192 | a call leaves every table as it was or writes row, revision and index entry that agree with each other |
| RevisionStore.AlwaysConsistent | src/storage/store.rs:43-192 | in every run each object's revisions are exactly the numbers from its first to its current one, its row shows the newest payload, payload references are distinct, commits are logged once, and each object has exactly one index row with its current title and description |
| RevisionStore.RevisionsImmutable | src/storage/store.rs:184-189 | a revision once written is never altered or lost, whatever is called afterwards |
| RevisionStore.RevisionWritten | src/storage/store.rs:90-104 | the revision a committed call adds, in full: payload, change, summary and time |
| RevisionStore.UpdateCommitsExactly | src/storage/store.rs:140-192 | an update commits exactly when it names the next revision of a stored object, its numbers fit, its payload reference is free and its workspace exists; the revision table never refuses it |
| RevisionStore.InsertCommitsExactly | src/storage/store.rs:43-107 | an insert commits exactly when the object is new, its change type is known, its numbers fit, its payload reference is free and its workspace and device exist |
| RevisionStore.CompleteExactly | src/storage/store.rs:215-231 | an object is valid exactly when none of its four texts is blank and its revision is not zero |
| RevisionStore.ErrorsExactly | src/storage/store.rs:140-231 | which calls are invalid, name a missing object, or conflict, and with which numbers |
| RevisionStore.OneCommitPerRevision | src/storage/store.rs:148-162 | of all calls of a run that carry the same object and revision at most one commits |
| RevisionStore.KindLost | src/storage/store.rs:294-333 | every stored kind is read back as unspecified |
| RevisionStore.BareKindRead | src/storage/store.rs:327-333 | a text without the prefix, in any case and with dots for underscores, would be read as its kind |
| RevisionStore.NameReadsBack | src/storage/store.rs:299-354 | a status, sensitivity or storage state is read back exactly when it is a named one; all other numbers come back as the fallback |
| RevisionStore.InsertReadsBack | src/storage/store.rs:110-121 | what every committed insert reads back as: nothing if deleted, otherwise the object without kind, tags, policy and attributes and with its enumerations normalised |
| RevisionStore.InsertReadsBackExactly | src/storage/store.rs:233-264 | a committed insert reads back as given exactly when its kind is unspecified, its status, sensitivity and storage state are named, it is not deleted, and it has no tags, policy or attributes |
| RevisionStore.UpdateReadsBack | src/storage/store.rs:140-192 | a committed update is hidden exactly when stored as deleted; otherwise it reads back as what is left of it with the schema version, device, creation and last use of the row before |
| RevisionStore.OthersReadAsBefore | src/storage/store.rs:43-192 | a committed call leaves every other object as it was read before |
| RevisionStore.NoKindRead | src/storage/store.rs:327-333 | in no run is a kind ever read back |
| RevisionStore.IndexKindExactly | src/storage/store.rs:163-190 | after an update the index shows the row's kind exactly when the update carried that kind |
| RevisionStore.IndexKindDiffers | src/storage/store.rs:163-190 | a note updated as a server: both calls commit, and index and row disagree |

## Left out

- WebRTC, ICE, sockets, WebSockets, TLS and timers: message delivery, closing and the passing of time are arbitrary steps or parameters.
- Cryptography: RSA keys, signatures, the encrypted signaling request and the vault.
- Protobuf and JSON bytes: messages are values, and their encodings parameters assumed to read back what they wrote; for openings also that both kinds keep their discriminator in the same field and that a text takes at least its length.
- File paths: canonicalization, symbolic links and the sandbox root; a file system is a map from request paths to bytes, and listing, stat and delete are not modelled.
- FileTransfer.PutStores: a path that is absolute, leaves the root or names a directory is refused by the source; in the file map every path that is not blank is a file.
- Dispatch.ServeSession: whether a shell or file handler succeeds is a parameter; what handlers compute is not part of this module.
- The order in which a GET's frames interleave with other streams: a download is received as one complete frame sequence.
- Shell processes, argument policy and exit codes: only the shared output budget is modelled.
- Memory orderings: a relaxed read may return any value the counter has held.
- The proxy's TCP and WebSocket handlers, header filtering, and how the HTTP client uses the addresses it is given; a host literal is recognised by a parameter.
- Redirect.RequestHttp: does not model the concurrency permit, the request size check and the header checks that precede the loop; a failing header or client counts as a transport failure of its hop.
- HandshakeRuns.ServerAttempts: assumes the retry instants of its comparisons are representable, because for messages handled after an error the bound is false without that (`Session.UncountedGuesses`); the handshake itself needs no such assumption (`HandshakeRuns.HandshakeAuthenticates`).
- HandshakeRuns.ReadyNeedsThePin: likewise.
- HandshakeOutcome.HandshakeComputesOutcome: assumes a channel that delivers everything, PINs, path and routing that are not blank, and clock readings whose retry instant is representable; loss and early closing are covered by `HandshakeRuns.HandshakeAgreement`.
- RevisionStore.SqliteStore.UpdateObject: wraps the successor of the largest revision as an optimised build does; a debug build stops instead, and neither commits.
- The metadata store's provenance (stored as JSON), the index columns other than title, description and kind, search queries and app bindings.
- Session statistics other than streams, the signaling server and client, configuration files, the command line and the mobile bindings: they would only add easy members.

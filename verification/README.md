# Verified model of the course's network programs

This Dafny project models four programs of the repository and proves properties of them over all inputs, all runs and
all interleavings.

**Roadrunner** (`lab4/lib`) sends a file over UDP. The server cuts it into windows of W blocks of B bytes, numbers
packets in a space of 2W, retransmits a whole window after a timeout from a fresh socket, and moves on when one matching
acknowledgement arrives. The client collects the blocks of a window in any order, answers packets of the window before
with that window's acknowledgement, recognises the end of the file by the length of a packet, and appends whole windows.

* `Bytes`, `BbCodec`, `PacketCodec`, `Transfer`, `Segmentation`: bytes, the XOR codec, the packet layout, and how a
  file becomes windows, blocks and packets.
* `RoadrunnerServer`, `RoadrunnerClient`: the loops of both programs as methods over arrays, each proved against a
  function on values (`PacketsOf`, `OnDatagram`, `WindowRun`, `After`).
* `Reassembly`: what the receive loop makes of the packets of one window.
* `Protocol`: both programs and the network as one system of steps (send, timeout, deliver, lose, duplicate, and the
  same for replies). A scenario says which file is sent, whether the network keeps windows in order, and whether the
  client is `AsWritten` or `Repaired`. The client steps are the function `OnDatagram` that the methods are proved
  against; `ProtocolServer` shows that the server steps send what the sending methods send.
* `ProtocolSafety`, `ProtocolProgress`, `ProtocolAttempts`, `ProtocolFinish`, `ProtocolLimits`: what all runs keep, what
  an attempt without losses achieves on every run, how the transfer ends once the client has left, and exactly when the
  result is right.
* `ProtocolOrder`, `ProtocolMixture`, `EncryptedTransfer`: why the order of windows matters and what its loss does to the
  file, and the encrypted transfer as a refinement of the plain one.

**The audio queue** (`lab5/lib/queue.c`, `lab5/lib/audio_client.c`) is a circular byte buffer with bulk reads and writes.
`Circular` and `AudioQueue` show that it is a bounded first-in first-out sequence; `AudioInterrupts` lets the consumer,
a signal handler, run between any two elementary steps of the producer, and `AudioRefusal` has a run on which an empty queue
refuses a block. `CongestionControls` treats the rate laws of
`lab5/lib/congestion_controls.c` and `lab5/v2/audiocli.c` over the reals.

**The shell tokenizer** (`lab1/lib/parse_command.c`) is a table-driven loop: `ParseCommand` has the table and the loop over
buffers, `Tokenizer` a recursive definition of the intended words and the exact difference.

**The overlay routers** (`lab6/v1/zigzagrouter.c`) forward datagrams and learn where replies go: `ZigzagRouter` is one
router, `ZigzagNetwork` a chain of them over a network that loses, duplicates and reorders, `ZigzagPaths` and
`ZigzagReplies` what holds on every run, and `ZigzagControl` how control messages move a chain to new sockets.

The numbers the programs are built on (block and window limits, 8 final acknowledgements, the dummy byte 255, frames and
buffers of 4096 bytes, 313 ms, the path 0.0.0.0:0, and the three blanks) are named once, as in the source; the main results
about them write the values out.

## What the proofs found

* The client passes the block size of the packet that *completed* the window to the append, not the size of the block
  that ended the file (`lab4/lib/roadrunner_client.c:124-125`). If the final block is short and another block of its window
  arrives last, up to B - 1 extra bytes are written. `ProtocolLimits.CorrectIff` says for which file sizes this can
  happen, and that remembering the size repairs all of them.
* Once the client has left, the server finishes if and only if one of the final acknowledgements of its current attempt
  arrives (`ProtocolFinish.FinishesIff`). If the client was completed by a packet of an earlier attempt, or all eight are
  lost, no further attempt ever ends (`ProtocolFinish.FinishesByOwnAttemptIff`, `ProtocolFinish.EightLosses`).
* An empty datagram makes the client count and acknowledge a window without having appended it
  (`RoadrunnerClient.StoresNothing`).
* An empty file sends no packet, so a transfer of it never ends (`ProtocolLimits.SucceedsIffNonEmpty`).
* A packet of window k - 2 has the same number as one of window k. If the network can delay packets past two windows, the
  client takes one for the other (`ProtocolOrder.RangeCheckSoundIff`) and writes blocks of the first window in place of
  those of the third (`ProtocolMixture.UnorderedCorruptsIff`).
* If the tail of the audio queue wraps around between the comparison and the subtraction in `get_queue_load`, the result is
  too large by the length of the array, and the block is refused even if the queue is empty
  (`AudioInterrupts.LoadExactIff`, `AudioRefusal.FitsButRefused`); a comment in the source expects it to be off by one. It
  is never too small (`AudioInterrupts.LoadNeverTooLow`).
* The drain loop at the end of a stream never ends if what is left is not a multiple of 4096 bytes
  (`AudioQueue.DrainEndsIff`).
* The tokenizer repeats the last argument if two or more blanks follow it, and loses an empty argument at the end of the
  line (`Tokenizer.ParsesAsIntendedIff`).

Code and documentation disagree on the window size: `lab4/v1/README.md` limits it to 0-63, the argument checkers enforce 1-64
(`lab4/lib/arg_checkers.h:9-10`). The model follows the code.

## Model

| member | source | states |
|---|---|---|
| BbCodec.XorDigit | lab4/lib/bbcodec.c:6-23 | for any number of bits, digit i of the result is 1 if and only if the digits i of the two operands are different |
| BbCodec.EncodedDigit | lab4/lib/bbcodec.c:6-32 | each of the eight digits of an encoded or decoded byte is 1 if and only if those of the byte and of the 32-bit key are different |
| BbCodec.EncodesNothingIff | lab4/lib/bbcodec.c:6-32 | encoding or decoding leaves a byte as it is if and only if the key is a multiple of 256 |
| BbCodec.TruncatedXor | lab4/lib/bbcodec.c:6-32 | promoting a byte to 32 bits, XOR with the key and truncating to 8 bits is XOR with the low byte of the key, for both directions |
| BbCodec.XorCancels | lab4/lib/bbcodec.c:6-23 | for any number of bits, applying XOR twice gives a number back if and only if the second operand was the same |
| BbCodec.ByteRoundTripIff | lab4/lib/bbcodec.c:6-23 | decoding an encoded byte gives it back if and only if the low bytes of the two keys agree |
| BbCodec.DataRoundTripIff | lab4/lib/bbcodec.c:11-32 | the same for every buffer that is not empty |
| BbCodec.BbEncodeData | lab4/lib/bbcodec.c:25-32 | exactly the first `size` bytes are encoded, in place, each once, to the bytes of `EncodedDigit`; the rest is untouched |
| BbCodec.BbDecodeData | lab4/lib/bbcodec.c:11-18 | the same for decoding |
| PacketCodec.EncodePacket | lab4/lib/packet_codec.c:7-12 | the buffer begins with the number and then the data; bytes behind them are untouched |
| PacketCodec.DecodePacket | lab4/lib/packet_codec.c:13-18 | the number is the first byte and the data are the bytes behind it |
| PacketCodec.RoundTrip | lab4/lib/packet_codec.c:7-18 | decoding an encoded packet gives number and data back |
| Transfer.Ranges | lab4/lib/arg_checkers.h:7-10 | both programs accept block sizes 1 to 1471 and window sizes 1 to 64, and then every number of two windows is below 128 |
| Transfer.BasesAlternate | lab4/lib/roadrunner_server.c:97-99 | the first numbers of windows alternate between 0 and W, and no number of a window exceeds a byte |
| Transfer.ChunksExact | lab4/lib/roadrunner_server.c:52-77 | cutting bytes into blocks loses nothing: the blocks in order are the bytes, none is empty, only the last may be short |
| Transfer.WindowFacts | lab4/lib/roadrunner_server.c:115-192 | the windows in order are the file; all but the last are full |
| Transfer.BlockFacts | lab4/lib/roadrunner_server.c:52-77 | a window has 1 to W blocks and exactly W full ones unless it is the last window; each block has one packet |
| Transfer.PacketFacts | lab4/lib/roadrunner_server.c:54-77 | what a receiver reads in packet i of window k is its number, block i of that window, and by the length alone whether the file ends there |
| Segmentation.SegmentationIsExact | lab4/lib/roadrunner_server.c:52-77 | for every file that is not empty and every B and W, the decoded payloads of all packets in order are the file, and exactly the last packet has a length other than B + 1 |
| Segmentation.EndMark | lab4/lib/roadrunner_server.c:52-77 | the file of n packets has more than (n - 1)B and at most nB bytes, and the last packet has 1 byte more than the remainder of the file modulo B or, if that is 0, B + 2 bytes of which the last is 255 |
| RoadrunnerServer.ReceiveAck | lab4/lib/roadrunner_server.c:14-32 | the wait succeeds if and only if the expected number is among those that arrive before the alarm |
| RoadrunnerServer.NextPacket | lab4/lib/roadrunner_server.c:54-66 | the block at the current offset is the next piece of the window, and the dummy byte is due exactly when the last block of the file is full |
| RoadrunnerServer.BuildPacket | lab4/lib/roadrunner_server.c:57-66 | the datagram is the number, the bytes of the block, and the dummy byte if needed |
| RoadrunnerServer.SendAttempt | lab4/lib/roadrunner_server.c:44-89 | one pass sends exactly the packets of the window in order, and the acknowledgement waited for is the number of the last of them |
| RoadrunnerServer.LastAttemptNeeded | lab4/lib/roadrunner_server.c:42-95 | the number of attempts at a window is exactly up to the first one that is acknowledged, or all of them if none is |
| RoadrunnerServer.SendWindow | lab4/lib/roadrunner_server.c:34-101 | exactly that many attempts are made, every one sends the same packets although the window is encoded in place, and the base moves on exactly on success |
| RoadrunnerServer.FRead | lab4/lib/roadrunner_server.c:119-138 | `fread` delivers the next bytes of the file, and sets end of file exactly on a short count |
| RoadrunnerServer.LoadNext | lab4/lib/roadrunner_server.c:128-138 | while one buffer holds window k, the other gets window k + 1, and nothing exactly if window k was the last |
| RoadrunnerServer.CopyBuffer | lab4/lib/roadrunner_server.c:190-191 | after the copy the first buffer holds the window that was read ahead |
| RoadrunnerServer.SendNext | lab4/lib/roadrunner_server.c:163-190 | the next call of `send_window` sends the next window, marked as the end exactly if it is the last, and hands on the right first number |
| RoadrunnerServer.SendTurn | lab4/lib/roadrunner_server.c:128-192 | one turn of the file loop sends the window read before, or the last one or two, and leaves the next window in the first buffer |
| RoadrunnerServer.SendFile | lab4/lib/roadrunner_server.c:103-199 | windows go out in order, each exactly as often as its replies make necessary and whole every time; each is acknowledged before the next, and success means all windows are acknowledged, for all file sizes including multiples of B and of B * W |
| RoadrunnerServer.LeftWindowsWereSent | lab4/lib/roadrunner_server.c:42-95 | a window that has been left was sent at least once, and the last of its attempts is the only one that was acknowledged |
| RoadrunnerClient.AppendWindow | lab4/lib/roadrunner_client.c:26-52 | the file grows by all slots before the last one and a prefix of the last one |
| RoadrunnerClient.CheckCompleted | lab4/lib/roadrunner_client.c:113-119 | the test holds if and only if every number up to the last one has been received |
| RoadrunnerClient.CopyBlock | lab4/lib/roadrunner_client.c:105 | copying a block changes the front of its own slot and nothing else |
| RoadrunnerClient.DecodeBlock | lab4/lib/roadrunner_client.c:75-102 | number and decoded block of a datagram, whose block size does not count the header or the dummy byte |
| RoadrunnerClient.StoreBlock | lab4/lib/roadrunner_client.c:104-111 | the flags, slots, last number and end mark after storing a block |
| RoadrunnerClient.AcceptDatagram | lab4/lib/roadrunner_client.c:104-140 | a datagram in range is stored, and if it completes the window, the window is appended with the size of this datagram's block (or the remembered one, if repaired) and acknowledged once, or 8 times at the end of the file (the number is written out in `FinalAcks` and `ProtocolFinish.CompletingAnswers`) |
| RoadrunnerClient.HandleDatagram | lab4/lib/roadrunner_client.c:70-140 | one turn of the loop, with the three kinds of numbers and the empty datagram, changes exactly what the step function of the protocol says |
| RoadrunnerClient.StoresNothing | lab4/lib/roadrunner_client.c:70-143 | a number below or above the range only provokes the acknowledgement base - 1 or base + 2W - 1; an empty datagram ends the window without appending anything and is acknowledged 1 or 8 times |
| RoadrunnerClient.ReceiveWindow | lab4/lib/roadrunner_client.c:54-143 | the loop over arrivals, with its arrays and whatever the window buffer held before, has the result of the recursive run |
| RoadrunnerClient.WindowRunIsAfter | lab4/lib/roadrunner_client.c:70-143 | a run of the window loop is the protocol's client taking the consumed datagrams one by one |
| RoadrunnerClient.ReceiveFile | lab4/lib/roadrunner_client.c:145-163 | the file loop is a history of the protocol's client: same file, same acknowledgements, success exactly when done, and every consumed datagram accounted for in order |
| Reassembly.FreshHolds | lab4/lib/roadrunner_client.c:60-64 | the loop begins truthfully, whatever the window buffer holds |
| Reassembly.StoreHolds | lab4/lib/roadrunner_client.c:104-111 | storing a packet keeps every received slot equal to the true block, in whatever order packets come |
| Reassembly.CompleteIffFull | lab4/lib/roadrunner_client.c:113-119 | the completion test succeeds if and only if every block up to the true last one has arrived |
| Reassembly.AppendedByFull | lab4/lib/roadrunner_client.c:37-41 | a full window is appended in index order, followed by what lies behind the last block if the size is too large |
| Reassembly.AppendedSize | lab4/lib/roadrunner_client.c:121-126 | by how much the size passed to the append is too large: not at all, or the missing part of a short final block that was not the completing one |
| Reassembly.OwnPacket | lab4/lib/roadrunner_client.c:102-140 | a packet of the window either leaves it incomplete with that block added, or completes it: acknowledged with the number the server waits for, appended, with the exact number of excess bytes |
| Reassembly.StalePacket | lab4/lib/roadrunner_client.c:82-100 | a packet of the window before is never stored and provokes exactly the acknowledgement the server waits for there, through either of the two branches |
| Reassembly.AnyOrder | lab4/lib/roadrunner_client.c:60-140 | on any order and multiplicity of a window's packets the loop ends at the first delivery that covers all blocks, not before, with the window appended |
| Reassembly.OnlyTheSetMatters | lab4/lib/roadrunner_client.c:60-128 | whether the loop ends depends only on the set of delivered blocks; it reports end of file exactly for the last window; any other window is appended unchanged |
| ProtocolServer.SendsInOrder | lab4/lib/roadrunner_server.c:42-101 | on every run, what the server of the step system sends is a log as `SendFile` promises it: whole attempts, window by window, at least one for each window it has left and in all as many as sockets it has closed, then the first packets of the attempt under way |
| ProtocolSafety.DeliveredWindow | lab4/lib/roadrunner_client.c:82-100 | a packet that arrives belongs to the client's window or to the one before |
| ProtocolSafety.DeliveryCases | lab4/lib/roadrunner_client.c:70-140 | what either kind of packet does to the client in any state of any run |
| ProtocolSafety.StepInv | lab4/lib/roadrunner_server.c:42-99 | every step of server, client and network keeps the agreement of both ends |
| ProtocolSafety.Agreement | lab4/lib/roadrunner_server.c:42-99 | in every reachable state the client has completed as many windows as the server has left or one more, and its output so far is exactly those windows |
| ProtocolSafety.SequenceSpaceSuffices | lab4/lib/roadrunner_client.c:82-100 | on every run, a number in the accepted range means the client's own window and any other number the window just before; both ends use bases 0 and W in turn and no number wraps |
| ProtocolSafety.ArrivesIff | lab4/lib/roadrunner_client.c:70-100 | what is assumed of an ordered network: exactly the packets of the oldest window under way may arrive, in any order among themselves |
| ProtocolSafety.AckSound | lab4/lib/roadrunner_server.c:14-32 | whenever the server takes an acknowledgement for its window, the client has already appended that window |
| ProtocolSafety.EndToEnd | lab4/lib/roadrunner_client.c:107-127 | when either end succeeds, the output is the file followed by less than a block, and exactly the file if repaired or if the final block is full or alone in its window |
| ProtocolSafety.FinishingDelivery | lab4/lib/roadrunner_client.c:121-127 | the delivery that finishes the client writes excess bytes if and only if it is not the packet that ends the file, the final block is short and the client is as written; and how many |
| ProtocolProgress.FullAttemptIsAnswered | lab4/lib/roadrunner_client.c:82-140 | on every run, once all packets of the current attempt have been delivered, with anything else in between, its socket has been sent the acknowledgement it waits for |
| ProtocolProgress.OneAttemptSuffices | lab4/lib/roadrunner_server.c:42-95 | from every reachable state in which the client still receives, some run makes the server leave its window with exactly two attempts: the present one is given up, the next one goes through |
| ProtocolProgress.CanFinish | lab4/lib/roadrunner_server.c:127-192 | so from every such state both ends can finish, with two attempts for each remaining window |
| ProtocolAttempts.WholeAttemptAdvances | lab4/lib/roadrunner_server.c:42-95 | on every run: once an attempt has been sent whole and all its packets and replies have been delivered, none of them lost and whatever else in between, the server has left the window |
| ProtocolAttempts.AttemptCanGoThrough | lab4/lib/roadrunner_server.c:42-95 | from every reachable state in which the client still receives, the attempt after the present one can go through in this sense |
| ProtocolAttempts.OneSuccessPerWindow | lab4/lib/roadrunner_server.c:127-192 | however a run is cut into pieces, each attempt that goes through takes one window off what remains and nothing sets it back, so as many of them as there are remaining windows finish the transfer |
| ProtocolFinish.CompletingAnswers | lab4/lib/roadrunner_client.c:129-140 | on every run, the delivery that completes a window adds exactly the acknowledgement the server waits for, to the socket of the packet's attempt: 8 times if it finishes the client, otherwise once |
| ProtocolFinish.SevenLosses | lab4/lib/roadrunner_client.c:137-140 | if the client finishes by a packet of the current attempt, then on every run from there without a timeout that loses at most 7 replies, the server has finished, or it can finish by sending the rest of its attempt and receiving one reply, with no packet delivered |
| ProtocolFinish.EightLosses | lab4/lib/roadrunner_client.c:137-140 | if all 8 are lost, no run ever finishes the server |
| ProtocolFinish.FinishesIff | lab4/lib/roadrunner_server.c:42-95 | after the client has left, some run finishes the server if and only if an acknowledgement of its current attempt is still on its way |
| ProtocolFinish.FinishesByOwnAttemptIff | lab4/lib/roadrunner_server.c:42-95 | right after the client has finished, that is so if and only if the last packet came from the current attempt |
| ProtocolLimits.SafeSizeIsSelfEvident | lab4/lib/roadrunner_client.c:76-79 | the final block is full or alone in its window if and only if the size of the file is a multiple of B, or leaves less than B modulo B * W |
| ProtocolLimits.Corrupted | lab4/lib/roadrunner_client.c:121-127 | for every other file there is a run in which the client as written finishes with a wrong file |
| ProtocolLimits.CorrectIff | lab4/lib/roadrunner_client.c:107-127 | all runs give the file exactly if and only if the client is repaired or the size is safe |
| ProtocolLimits.EmptyFileRun | lab4/lib/roadrunner_server.c:52 | on an empty file nothing is ever sent, on any run |
| ProtocolLimits.SucceedsIffNonEmpty | lab4/lib/roadrunner_server.c:140-151 | a transfer can succeed if and only if the file is not empty |
| ProtocolOrder.HeldRun | lab4/lib/roadrunner_server.c:42-99 | every run of an ordered network is a run of an unordered one while any packets are held back |
| ProtocolOrder.UnorderedMistake | lab4/lib/roadrunner_client.c:82-104 | without order and with three windows or more, some run delivers a packet of window 0 that the client takes for window 2 |
| ProtocolOrder.RangeCheckSoundIff | lab4/lib/roadrunner_client.c:82-100 | the range check can be trusted on all runs if and only if the network keeps windows in order or there are at most two |
| ProtocolMixture.UnorderedReplaces | lab4/lib/roadrunner_client.c:104-127 | for every W, and a third window that may be short or the last: some run of an unordered network completes it with its first blocks, any number of them or all, replaced by those of the first window |
| ProtocolMixture.UnorderedCorruptsIff | lab4/lib/roadrunner_client.c:104-127 | the output of that run is wrong if and only if the replaced blocks differ from those that replace them |
| ProtocolMixture.UnorderedCorrupts | lab4/lib/roadrunner_client.c:104-127 | so every file of three windows or more whose first and third window differ can be received wrongly |
| EncryptedTransfer.SameReceive | lab4/lib/roadrunner_client.c:80-105 | on every reachable state the client does the same with an encrypted packet as with the plain one |
| EncryptedTransfer.EncryptionIsInvisible | lab4/lib/roadrunner_server.c:40-78 | events are a run of the encrypted transfer if and only if they are one of the plain transfer, and both ends then agree in everything but the bytes under way |
| Circular.Enqueued | lab5/lib/queue.c:21-27 | writing into the slot at the head changes nothing stored; advancing the head appends it, unless the queue is full |
| Circular.Dequeued | lab5/lib/queue.c:13-19 | advancing the tail removes the oldest byte, across the wrap-around |
| AudioQueue.Queue.constructor | lab5/v1/audiocli.c:53-58 | a new queue is empty and has one slot more than its capacity |
| AudioQueue.Queue.IsQueueEmpty | lab5/lib/queue.c:3-6 | equal indices mean no bytes are stored |
| AudioQueue.Queue.IsQueueFull | lab5/lib/queue.c:8-11 | the test means that length - 1 bytes are stored |
| AudioQueue.Queue.GetQueueLoad | lab5/lib/queue.c:55-61 | the load is the number of stored bytes |
| AudioQueue.Queue.Dequeue | lab5/lib/queue.c:13-19 | -1 on an empty queue, else the oldest byte is taken |
| AudioQueue.Queue.Enqueue | lab5/lib/queue.c:21-27 | -1 on a full queue, else the byte is appended |
| AudioQueue.Queue.ReadQueue | lab5/lib/queue.c:29-40 | exactly the requested prefix is taken in order, or nothing changes; the loop never fails |
| AudioQueue.Queue.WriteQueue | lab5/lib/queue.c:42-53 | the whole block is appended, or nothing changes; the loop never fails |
| AudioQueue.Queue.StreamAudioToDevice | lab5/lib/audio_client.c:23-45 | with 4096 stored bytes or more the oldest 4096 are played and removed, with fewer nothing changes |
| AudioQueue.Queue.Drain | lab5/lib/audio_client.c:154-160 | on whole frames of 4096 bytes the loop ends and plays everything in order |
| AudioQueue.DrainInOrder | lab5/lib/audio_client.c:154-160 | after any number of turns, what was played and what is left are the stored bytes in order |
| AudioQueue.DrainEndsIff | lab5/lib/audio_client.c:154-160 | the loop ends if and only if the residual load is a multiple of 4096 |
| AudioQueue.FifoConserves | lab5/lib/queue.c:29-53 | over any operations, what came out and what is stored is what was accepted, within the capacity |
| AudioQueue.Operate | lab5/lib/queue.c:3-61 | the array behaves as the bounded sequence on every sequence of bulk operations |
| AudioInterrupts.StepInv | lab5/lib/queue.c:13-61 | every elementary step of the producer and every interrupt keep the order and the room of the accepted bytes |
| AudioInterrupts.NothingLostOrReordered | lab5/lib/audio_client.c:236-241 | for every placement of interrupts, the bytes consumed are a prefix of the accepted blocks, and the -1 in the middle of a write never happens |
| AudioInterrupts.LoadNeverTooLow | lab5/lib/queue.c:42-61 | the computed load is never below the true load until the next byte is written, so an accepted block fits |
| AudioInterrupts.LoadExactIff | lab5/lib/queue.c:55-61 | in every state of every run the load is exact unless the tail wrapped between comparison and subtraction; then it is too large by the array and any block is refused |
| AudioRefusal.FitsButRefused | lab5/lib/queue.c:42-61 | this happens: for every buffer size the client can be given and every block that fits, some run comes to the test with an empty queue and refuses the block; one interrupt between comparison and subtraction is enough |
| AudioInterrupts.AcceptedWriteFinishes | lab5/lib/queue.c:46-52 | each step of the producer in the byte loop brings the return one step nearer, and interrupts do not set it back |
| AudioInterrupts.AcceptedWriteReturns | lab5/lib/queue.c:42-53 | on every run, exactly three steps of the producer for each byte of an accepted block, however interleaved with interrupts, and the write has returned with the whole block |
| AudioInterrupts.UninterruptedWrite | lab5/lib/queue.c:42-53 | without interrupts the elementary steps are the write of the sequential queue |
| AudioInterrupts.InterruptIsFrame | lab5/v2/audiocli.c:21-26 | an interrupt takes what one call of the sequential consumer takes |
| CongestionControls.Generalisations | lab5/v2/audiocli.c:28-48 | method E with alpha 0 is D, and D with beta 0 is C |
| CongestionControls.ChangeC | lab5/lib/congestion_controls.c:6-17 | C changes the bytes per second by epsilon times the bytes that are missing to the target, but not below zero |
| CongestionControls.DirectionC | lab5/lib/congestion_controls.c:6-17 | for positive epsilon, C asks for more below the target and, of a positive rate, for less above it, and keeps the rate at the target |
| CongestionControls.KeepsIffC | lab5/lib/congestion_controls.c:6-17 | C keeps a positive rate if and only if epsilon or the missing bytes are zero |
| CongestionControls.KeptRateD | lab5/lib/congestion_controls.c:19-36 | for positive beta, D keeps exactly one rate: 4096 bytes per 313 ms plus epsilon / beta times the missing bytes, or 0 if that is negative |
| CongestionControls.KeptRateE | lab5/v2/audiocli.c:28-48 | E keeps the same rate, and no other, for a positive beta / (1 + alpha) |
| CongestionControls.DirectionDE | lab5/lib/congestion_controls.c:19-36 | for positive epsilon and beta, a rate that D or E keeps is above, at or below 4096 bytes per 313 ms exactly as the load is below, at or above the target |
| CongestionControls.DampedStep | lab5/v2/audiocli.c:28-48 | unless the clamp acts, the step of E is the step of D divided by 1 + alpha |
| CongestionControls.KeepsIff | lab5/v2/audiocli.c:28-48 | if beta / (1 + alpha) is positive, the common fixed point of D and E is the only rate they keep, provided it is not negative |
| CongestionControls.OneStep | lab5/v2/audiocli.c:41-47 | a step scales the distance to the fixed point (the rate of `KeptRateE`) by abs(1 - beta / (1 + alpha)), and the clamp at zero can only shrink it further |
| CongestionControls.Converges | lab5/v2/audiocli.c:28-48 | n steps at constant occupancy shrink the distance at least by the n-th power of that factor |
| CongestionControls.FactorBelowOneIff | lab5/v2/audiocli.c:41-44 | the factor is below one if and only if 0 < beta / (1 + alpha) < 2, which for alpha above -1 is 0 < beta < 2(1 + alpha) |
| CongestionControls.ApproachesIff | lab5/v2/audiocli.c:28-48 | every step brings every rate nearer to a positive fixed point if and only if 0 < beta / (1 + alpha) < 2 |
| ParseCommand.StartIsArbitrary | lab1/lib/parse_command.c:78-125 | the uninitialised `effect` never influences the result, not even on an empty line |
| ParseCommand.Perform | lab1/lib/parse_command.c:92-117 | the switch keeps buffers and table in step with the texts, and never writes to a buffer that has been handed out |
| ParseCommand.FinishLast | lab1/lib/parse_command.c:123-128 | the end of the loop terminates the last buffer, adds it by the program's own test, and ends the table with a null pointer |
| ParseCommand.NoMoreThanCharacters | lab1/lib/parse_command.c:87-128 | a line has no more arguments than characters, so the 4096 entries of the callers' tables suffice for the lines of at most 4095 characters they pass |
| ParseCommand.ParseCommand | lab1/lib/parse_command.c:76-129 | the table ends up with NUL-terminated buffers that hold exactly the parsed arguments, and a null pointer behind them, for lines of any length whose arguments fit into the buffers |
| Tokenizer.ReadsWord | lab1/lib/parse_command.c:40-66 | inside a word, quotes and escapes included, the table reads exactly the rest of the word as the recursion does |
| Tokenizer.ReadsTokens | lab1/lib/parse_command.c:87-128 | from any state between words the loop reads the intended words, with the two mistakes at the end |
| Tokenizer.ParsesAsIntendedIff | lab1/lib/parse_command.c:123-126 | the program is right if and only if there are no words, or the last word is empty and a blank follows it, or it is not empty and at most one blank follows it |
| Tokenizer.FitsIff | lab1/lib/parse_command.c:94-112 | the buffers never overflow if and only if every word of the line is shorter than a buffer |
| Tokenizer.SufficesIff | lab1/lib/parse_command.c:94-112 | so the program's buffers suffice if and only if no word has more than 4095 characters |
| Tokenizer.TypedRoundTrip | lab1/lib/parse_command.c:68-129 | any words, each as it is or in quotes, with any runs of spaces, tabs and newlines before, between and after them, are exactly the arguments, but for the two mistakes at the end of the line; words have no space, tab, newline, quote or backslash in them, quoted ones no quote or backslash, and all other characters are allowed |
| Tokenizer.SeparatesIff | lab1/lib/parse_command.c:68-74 | one character between two words makes two arguments of them if and only if it is a space, a tab or a newline |
| Tokenizer.BlankLine | lab1/lib/parse_command.c:76-129 | spaces, tabs and newlines alone give no arguments |
| Tokenizer.TokensOfLine | lab1/lib/parse_command.c:40-66 | escaped arguments, quoted or not, joined by single spaces, are read back as they are |
| Tokenizer.RoundTripIff | lab1/lib/parse_command.c:76-129 | the program gives them back exactly if and only if the end of the line is one of those |
| Tokenizer.RoundTrip | lab1/lib/parse_command.c:76-129 | every list of arguments that are not empty, escaped and joined by spaces, parses back to that list |
| Tokenizer.Mistakes | lab1/lib/parse_command.c:125-126 | what goes wrong otherwise: the last argument is repeated, or the empty last one is lost |
| ZigzagRouter.Router.constructor | lab6/v1/zigzagrouter.c:289-295 | a new router has no paths |
| ZigzagRouter.Router.UpdateForwardings | lab6/v1/zigzagrouter.c:77-146 | a valid control message replaces both paths; a port other than 0 that it asks for is bound, an equal one is kept, and only a changed 0 takes the system's choice; an invalid message changes nothing |
| ZigzagRouter.Router.ForwardData | lab6/v1/zigzagrouter.c:171-217 | only the forward socket teaches, only while the path is 0.0.0.0:0; the datagram leaves from the return socket along the path, cut to 4096 bytes; without a path it is dropped after learning |
| ZigzagRouter.Router.Round | lab6/v1/zigzagrouter.c:219-236 | control, forward and return data are handled in this order, so a reply in the same round uses the path just learned |
| ZigzagPaths.Arrival | lab6/v1/zigzagrouter.c:171-217 | on every run, where a datagram arrives determines how far it has come and what has been learned |
| ZigzagPaths.StepInv | lab6/v1/zigzagrouter.c:148-217 | every step but a control message keeps this, and nothing learned is ever changed |
| ZigzagReplies.ReversePaths | lab6/v1/zigzagrouter.c:148-169 | once one datagram has come through, all return paths are the exact reverse of the forward chain, and stay so as long as no control message comes |
| ZigzagReplies.KeptUntilControl | lab6/v1/zigzagrouter.c:219-236 | on any run, control messages to other routers included, a router that has a return path keeps it until the next control message to itself |
| ZigzagReplies.LearnsAgain | lab6/v1/zigzagrouter.c:77-146 | a control message that resets the first router, when nothing is under way, leaves a valid chain in its initial state, so all of this holds anew for the next first sender |
| ZigzagReplies.Settles | lab6/v1/zigzagrouter.c:219-236 | what is assumed of the network: from any state it may lose all that is under way |
| ZigzagReplies.ArrivesOften | lab6/v1/zigzagrouter.c:219-236 | and a datagram may arrive any number of times |
| ZigzagControl.Moved | lab6/v1/zigzagrouter.c:77-146 | after control messages in any order and number, whatever the routers were before: a router that got one has the ports it asks for (or the system's choices for 0), its forward path, and the return path still to be learned |
| ZigzagControl.NewChainWorks | lab6/v1/zigzagrouter.c:77-217 | once all routers have been told to move to distinct new sockets and nothing else is under way: the next message arrives at the new destination and its reply at the sender, each unchanged up to 4096 bytes and after as many forwardings as there are routers, and every router stands as planned, with return paths the reverse of the chain |
| ZigzagReplies.LearnsInOrder | lab6/v1/zigzagrouter.c:184-188 | the routers behind any datagram have all learned |
| ZigzagReplies.OnlyToTheFirstSender | lab6/v1/zigzagrouter.c:171-217 | whatever arrives was sent, and replies arrive only at the first sender and from the first router |
| ZigzagReplies.ReplyReachesFirstSender | lab6/v1/zigzagrouter.c:190-210 | from every reachable state a reply reaches the first sender in exactly as many forwardings as there are routers, unchanged up to 4096 bytes, with no other effect |
| ZigzagReplies.MessageReachesDestination | lab6/v1/zigzagrouter.c:190-210 | from every reachable state a message reaches the destination in exactly as many forwardings, unchanged up to 4096 bytes |

## Left out

- Socket creation, binding, `getaddrinfo`, `select`, fork and exec, FIFOs, timers and `errno` are abstract steps; an interrupted wait is the only failure inside a transfer, so the error return ignored at `lab4/lib/roadrunner_server.c:186` is out of scope.
- One sender per transfer: retransmitted file requests that start a second server for the same client are not modelled.
- The receive of a completing packet, the append and the final acknowledgements are one step of the client; the eight final acknowledgements reach the network together, and any of them may then be lost.
- Whether a final acknowledgement does arrive is up to the network, so no unconditional termination of the server is claimed (ProtocolFinish says when it can finish).
- A new attempt never reuses the port of an earlier one while replies to that are under way.
- Packets of one window may overtake one another and duplicates follow their original; only overtaking across windows is excluded by `ordered`.
- AudioQueue.Queue.Drain: is stated for whole frames only, because the loop does not end otherwise (AudioQueue.DrainEndsIff says exactly when); device writes are taken to succeed.
- The signal handler runs to completion between two elementary steps in program order; compiler reordering and memory-model effects are not modelled.
- Rates are reals: the rounding and the infinities of `long double` (alpha = -1 divides by zero) and the `uint16_t` cast in `lab5/lib/pspacing.c` are not modelled.
- ParseCommand.ParseCommand: asks for arguments that fit into the buffers of 4096 characters (Tokenizer.FitsIff says for which lines they do) and for a table with more entries than the line has characters; longer arguments overflow the buffer in the program.
- In a chain of routers, senders are addresses outside the chain, sockets have distinct addresses, and binding succeeds; the text form of addresses and the byte order of control messages are left out. What happens to datagrams that are under way while a control message changes the paths is not stated.
- Sockets that are replaced in the middle of one `select` round may block in the program; `Round` takes what has arrived as given.
- Request and ping codecs, argument checkers, configuration files, address lists, logging, printing and playback would only add easy members.

# A verified model of the Hy2Link transport data path

Hy2Link carries its traffic over a vendored copy of `quic-go` and obfuscates it with the
Gecko fragmenter of `hy-extras`. This project models the bookkeeping at the heart of that
path and proves what it has to keep over every run:

- the reassembly buffer refines "the set of bytes received so far", and releases every
  receive buffer exactly once (`FrameSorter`, `Reassembly`);
- the sending half of a stream keeps every byte in exactly one place until it is
  acknowledged, whatever the interleaving of writes, packets, acknowledgements, losses and
  cancellation (`Delivery`, `Sending`, `SendStreamRuns`, `SendStreamLimits`; section 3.1 of
  RFC 9000);
- stream and connection flow control agree to the byte, and the receiving half returns all
  credit when it is done (`FlowControl`, `FlowControlRuns`, `Receiving`, `ReceivingRuns`;
  sections 4.1 and 4.5 of RFC 9000);
- a ClientHello that is cut up, sent from both ends, shredded, padded and shuffled over
  several packets is still the ClientHello (`CryptoSending`, `Chaos`, `Handshake`,
  `HandshakeLimits`; section 19.6 of RFC 9000);
- the path MTU search ends and is resilient against loss (`Mtu`; RFC 8899);
- connection IDs, stream limits and the filling of packets (`ConnIds`, `StreamsOutgoing`,
  `StreamsIncoming`, `Framing`; sections 2.1, 4.6 and 5.1 of RFC 9000);
- Gecko frames: fragmenting and reassembling for many sources at once (`GeckoFrame`,
  `Gecko`).

`Wire` and `Protocol` hold the frames, their encoded sizes and shared vocabulary.

## How to read the model

- One module per source file, in the source's own form: objects that are updated in place
  are classes whose `Valid()` is the invariant every operation keeps; specification
  predicates and lemmas are on values.
- A region under a lock is one atomic step. A call that waits is modelled as several steps
  (`WriteBegin` and `WriteStep`, `Read` and `ResumeRead`, `OpenStreamSync`, `TakeSignal` and
  `Recheck`), so that anything can happen in between.
- What happened so far, but is not stored by the program, is kept in ghost fields (bytes
  sent, frames in flight, frames acknowledged, bytes read, numbers received).
- Whole runs are methods that take any list of operations (`Reassembly.Run`,
  `SendStreamRuns.Run`, `FlowControlRuns.Run`, `ReceivingRuns.Run`, `ConnIds.Run`,
  `StreamsOutgoing.Run`, `StreamsIncoming.Run`, `Gecko.Run`, `Mtu.Search`). They return a trace:
  what the object shows before and after every operation, and what the caller got. An `Effect`
  predicate, on values, says for each operation how the two moments are related; a second
  predicate says what holds at every moment. A run in which an operation did nothing, or
  something else, would violate the first, and one that went wrong the second.
- Random numbers, clocks, deadlines, timing decisions of the auto-tuning and the answers of
  an application's limiter are inputs: the results hold for all of them. `Chaos.Draw` returns
  any number below its bound.
- Integers are unbounded; where a width matters it is written out (the 8-bit generation of
  the MTU search, the header fields of a Gecko frame, the largest varint).

## What does not hold

The code falls short of the natural claim in these cases. Each is shown by a run, or comes with
the exact condition under which the claim holds, or both:

- A stream's reliable boundary that is moved after the stream was cancelled can make the
  count of outstanding frames wrong, so that the next acknowledgement panics
  (`SendStreamLimits.BoundaryAfterCancel`; `SetReliableBoundary` states when).
- A `Write` that waits while the stream is cancelled may buffer its data and report success;
  that stream does not complete before the connection ends
  (`SendStreamLimits.CancelDuringWrite`; `WriteStep` and `SendStreamRuns.Step` state when).
- A lost or queued frame with the FIN that is cut at the reliable offset keeps its FIN: the
  receiver sees two final sizes (`SendStreamLimits.CutFin`; `CancelWrite` and `OnLost` state
  when).
- STOP_SENDING on a stream that is being delivered partially announces a second final size,
  smaller than the first one if data was cut off (`SendStreamLimits.TwoFinalSizes`;
  `HandleStopSending` states when).
- A stream that the application stopped reading and that the peer then resets with a promise
  of data beyond what was read completes without returning its credit
  (`ReceivingRuns.LeakedCredit`; `HandleResetStreamFrame` and `ReceivingRuns.LeaksWhen` state
  when).
- A NEW_CONNECTION_ID frame that is received again after its ID was taken for a path is
  stored a second time (`ConnIds.RepeatedFrame`; `Add` states when the books stay right).
- Handshake data written after bytes were taken from the end of the queue gets wrong offsets
  (`HandshakeLimits.WriteAfterTail`; `CryptoSending.CryptoStream.Write` states when).
- A ClientHello with an ECH extension and no server name is never sent: the cut that does not
  exist sorts first (`HandshakeLimits.EchWithoutServerName`; `Handshake.Transmit` states when).
- Cuts in the ClientHello that touch, overlap or start with its first byte make bytes go out
  twice (`HandshakeLimits.OverlappingCuts`; `CryptoSending.PlannedOnce` states when).
- An empty cut, as for an empty host name, stops the stream
  (`HandshakeLimits.EmptyHostName`; `Handshake.Transmit` states when).
- The room computed for the data of a frame with a length field is too large if more than
  16385 bytes are left behind its header (`Wire.MaxDataLenLimit`, `Wire.CryptoMaxDataLenLimit`).
- The 25 bytes set aside for a control frame of a stream are not enough for all RESET_STREAM_AT
  frames, which take up to 33: the packet gets too long, by up to 7 bytes (`Framing.LongReset`;
  `Framing.ControlLimit` and `Framing.ResetLimit` state when, and `Append` by how much).
- The length field borrowed for the last STREAM frame is not enough for packets with 16384
  to 16399 bytes of space (`Framing.BorrowedBytesExact`).

## Model

| member | source | states |
|---|---|---|
| `FrameSorter.Sorter.constructor` | quic-go/frame_sorter.go:30-37 | A new buffer is well formed: everything is missing, nothing is queued or read. |
| `FrameSorter.Sorter.Push` | quic-go/frame_sorter.go:39-48 | The gaps lose exactly the bytes of the frame; queue, gaps and read position stay an exact partition of the stream; every queued byte was queued before or comes from the frame at its own offset; the callback is queued or invoked, once. Fails only with more than 20000 gaps. |
| `FrameSorter.Sorter.PushFrame` | quic-go/frame_sorter.go:50-187 | A frame is a duplicate only if none of its bytes was missing, and then nothing changes; otherwise the partition, the provenance of bytes and the ledger of callbacks are kept. |
| `FrameSorter.Sorter.Insert` | quic-go/frame_sorter.go:66-187 | The same for a frame that meets at least one gap, through replacing, cutting and deleting. |
| `FrameSorter.Sorter.Match` | quic-go/frame_sorter.go:59-64 | The gaps that meet or touch an interval, in ascending order and complete. |
| `FrameSorter.Sorter.ReplaceCovered` | quic-go/frame_sorter.go:84-111 | Entries that start at the frame and are covered by it are removed as one contiguous run; what stops the run decides between duplicate, cut and free; no callback is lost. |
| `FrameSorter.Sorter.FitFront` | quic-go/frame_sorter.go:84-118 | The front of the frame is cut so that what remains starts in or right after the first gap, on an area without old entries. |
| `FrameSorter.Sorter.TrimStartGap` | quic-go/frame_sorter.go:119-135 | The first gap loses exactly the part that the frame covers. |
| `FrameSorter.Sorter.DeleteConsecutive` | quic-go/frame_sorter.go:189-203 | Removes exactly the contiguous run of entries at a position, and invokes their callbacks. |
| `FrameSorter.Sorter.DeleteBetween` | quic-go/frame_sorter.go:137-146 | All gaps and entries strictly between the first and the last gap are gone, nothing else. |
| `FrameSorter.Sorter.TrimEndGap` | quic-go/frame_sorter.go:154-168 | The last gap loses exactly the part that the frame covers. |
| `FrameSorter.Sorter.SplitGap` | quic-go/frame_sorter.go:160-162 | A frame inside one gap leaves the two parts around it. |
| `FrameSorter.Sorter.Occupy` | quic-go/frame_sorter.go:119-169 | Entries and gaps under the frame are cleared, and what is cut off at its end was not missing. |
| `FrameSorter.Sorter.ReleaseIfCopied` | quic-go/frame_sorter.go:171-179 | A short cut frame is copied and its buffer released now; otherwise the callback is kept. Either way it is accounted for once. |
| `FrameSorter.Sorter.Store` | quic-go/frame_sorter.go:171-186 | The frame takes exactly the cleared place, unless there are too many gaps. |
| `FrameSorter.Sorter.Pop` | quic-go/frame_sorter.go:205-214 | Something comes back if and only if the next byte is queued; it is what was queued at the read position; all other bytes stay; its callback moves to the caller. |
| `FrameSorter.Sorter.HasMoreData` | quic-go/frame_sorter.go:217-219 | True if and only if some byte is queued. |
| `FrameSorter.Sorter.Peek` | quic-go/frame_sorter.go:227-256 | Succeeds if and only if an entry starts at the offset and all bytes asked for are queued; then returns exactly those bytes, and takes none. |
| `Reassembly.Run` | quic-go/frame_sorter.go:39-214 | For any sequence of pushes and pops: what was popped is the longest prefix received in full, and a prefix of the stream if all frames are slices of it; callbacks invoked and handed out are never more than those given, and exactly those once all is read; a run fails only if some byte at offset 19999 or beyond was received. |
| `Reassembly.FewGaps` | quic-go/frame_sorter.go:181-183 | If nothing at or beyond n was received there are at most n + 1 gaps. |
| `Reassembly.Deliver` | quic-go/frame_sorter.go:39-214 | Pieces of any data, in any order and number, with reads in between: a prefix of the data is read, and all of it once pieces that cover it have arrived; only data of 20000 bytes or more can fail. |
| `Wire.MaxDataLenExact` | quic-go/internal/wire/stream_frame.go:118-157 | Data fits a STREAM frame of a given size if and only if it is no longer than the computed maximum, for sizes up to 16385 bytes beyond the header. |
| `Wire.MaxDataLenLimit` | quic-go/internal/wire/stream_frame.go:135-157 | That holds for all data if and only if the size is within that limit: beyond it, the computed maximum is too large. |
| `Wire.MaybeSplitOff` | quic-go/internal/wire/stream_frame.go:161-187 | Within that limit, a frame is split exactly when it does not fit; the parts are not empty, contiguous, make up the data, fit, and only the second keeps the FIN. |
| `Wire.CryptoMaxDataLenExact` | quic-go/internal/wire/crypto_frame.go:49-66 | The same for CRYPTO frames. |
| `Wire.CryptoMaxDataLenLimit` | quic-go/internal/wire/crypto_frame.go:49-66 | The same limit, and that it is one. |
| `Delivery.SendTracked` | quic-go/send_stream.go:431-451 | A new frame at the end keeps every byte sent in exactly one of: acknowledged, in flight, queued for retransmission; and the FIN in exactly one frame. |
| `Delivery.AcknowledgeTracked` | quic-go/send_stream.go:811-830 | An acknowledgement keeps that partition. |
| `Delivery.RequeueTracked` | quic-go/send_stream.go:832-873 | A lost frame that is queued again, cut to the reliable size if need be, keeps it. |
| `Delivery.RetransmitTracked` | quic-go/send_stream.go:494-502 | Sending a queued frame again keeps it. |
| `Delivery.RetransmitPartTracked` | quic-go/send_stream.go:494-502 | Sending the first part of a queued frame again keeps it. |
| `Delivery.TruncateTracked` | quic-go/send_stream.go:661-676 | Cutting the queue at the reliable size keeps it for all bytes below that size. |
| `Delivery.TruncatedFins` | quic-go/send_stream.go:661-676 | Every FIN of a queue that is cut at the reliable size is still at the end of the stream if and only if no frame with the FIN crosses that size; otherwise it is at the reliable size. |
| `Delivery.ForgetTracked` | quic-go/send_stream.go:848-860 | Forgetting a lost frame beyond the reliable size keeps it below. |
| `Sending.SendStream.constructor` | quic-go/send_stream.go:73-91 | A new stream satisfies the invariant. |
| `Sending.SendStream.IsNewlyCompleted` | quic-go/send_stream.go:520-546 | Reported at most once, exactly in the states the source names, and then everything promised is acknowledged: all bytes and the FIN, or after a reset all bytes up to the reliable size and the RESET frame. |
| `Sending.SendStream.Pop` | quic-go/send_stream.go:337-452 | Content and invariant are kept; a frame carries bytes of the stream at their place and fits. What was lost comes first: the whole frame, or exactly as much of it as fits. Otherwise as much new data is sent as credit, reliable size, frame size and limiter allow, from the right place, and the FIN with the last byte; nothing only if that is nothing. Without more data there is nothing to send until something changes. The peer is told that the stream is blocked if and only if new data has used up its credit, once per limit. |
| `Sending.SendStream.PopNew` | quic-go/send_stream.go:380-452 | New data is sent in order, as much of it as credit, reliable size, frame size and limiter allow, and the FIN with the last byte. |
| `Sending.SendStream.CutNew` | quic-go/send_stream.go:456-518 | The bytes taken and what remains make up what was there, from the buffered frame first. |
| `Sending.SendStream.TakeCredit` | quic-go/send_stream.go:415-430 | Credit is taken on both levels for exactly the bytes to be sent, or was reserved; the limiter has its say only for data not accepted yet, and if it stops a write that is recorded; otherwise taking credit never fails. |
| `Sending.SendStream.PopRetransmission` | quic-go/send_stream.go:494-502 | The oldest lost frame is sent again whole if it fits; otherwise exactly as much of it as fits, and the rest stays first in the queue; nothing only if not even one byte fits. |
| `Sending.SendStream.WriteBegin` | quic-go/send_stream.go:204-243 | A call returns at once, or waits with its data to be taken; on return the stream holds exactly the accepted prefix more than before. |
| `Sending.SendStream.WriteStep` | quic-go/send_stream.go:238-322 | A woken call waits on or returns the number of bytes accepted, which are exactly those the stream then holds. On a stream that was cancelled, it leaves data behind that is never sent if and only if the data is buffered at that moment or there was such data before. |
| `Sending.SendStream.BuffersIffFits` | quic-go/send_stream.go:324-333 | With nothing buffered, that happens exactly without a limiter for 1 to 1452 bytes. |
| `Sending.SendStream.Buffer` | quic-go/send_stream.go:251-267 | The rest of the data moves into the buffered frame; the content is unchanged. |
| `Sending.SendStream.TryWriteAll` | quic-go/send_stream.go:149-202 | All or nothing: succeeds if and only if the stream is open and both levels have credit for everything not reserved yet, and then that credit is taken. |
| `Sending.SendStream.Close` | quic-go/send_stream.go:552-576 | Marks the end and keeps the invariant. |
| `Sending.SendStream.SetReliableBoundary` | quic-go/send_stream.go:582-591 | The boundary is all that was accepted. The invariant is kept if the stream was not reset or the boundary does not matter; otherwise the count of outstanding frames stays right if and only if no RESET is queued, as many RESETs count as before, and there is nothing in flight that was not counted. |
| `Sending.SendStream.EnableResetStreamAt` | quic-go/send_stream.go:684-688 | Keeps the invariant, or the count, under the same conditions. |
| `Sending.SendStream.CancelWrite` | quic-go/send_stream.go:613-682 | Only the first cancellation queues a RESET frame, with the current reliable size. Without one, all data and the count of outstanding frames are dropped, and the final size announced is the credit taken and agrees with a FIN already sent. With one, every FIN queued agrees with it if and only if no queued frame with the FIN crosses the reliable size. |
| `Sending.SendStream.DropAll` | quic-go/send_stream.go:635-650 | Nothing is left to be sent, and the RESET frame is queued. If it is the first one, its final size is the credit taken and agrees with a FIN already sent. |
| `Sending.SendStream.KeepReliable` | quic-go/send_stream.go:651-677 | What lies beyond the reliable size is cut off; below it every byte stays tracked; a FIN queued stays at the final size if and only if its frame does not cross the reliable size. |
| `Sending.SendStream.HandleStopSending` | quic-go/send_stream.go:704-738 | The stream is reset with reliable size 0, once. If it was reset before, with another reliable size, the second RESET frame has the same final size if and only if sent and reserved data reach it. |
| `Sending.SendStream.GetControlFrame` | quic-go/send_stream.go:740-754 | The queued RESET frame is handed out and counted as outstanding. |
| `Sending.SendStream.CloseForShutdown` | quic-go/send_stream.go:788-797 | An unfinished stream drops all its data. |
| `Sending.SendStream.OnAcked` | quic-go/send_stream.go:811-830 | The frame moves from in flight to acknowledged; the count of outstanding frames never becomes negative. |
| `Sending.SendStream.OnLost` | quic-go/send_stream.go:832-873 | The frame leaves flight and is queued whole, or cut to exactly the reliable size, or forgotten; its FIN is still at its end if and only if it does not cross that size; the count never becomes negative. |
| `Sending.SendStream.OnResetAcked` | quic-go/send_stream.go:879-899 | Counts only for the current reliable size; the count never becomes negative. |
| `Sending.SendStream.OnResetLost` | quic-go/send_stream.go:901-915 | The RESET frame is queued again if it is still current; the count never becomes negative. |
| `SendStreamRuns.Step` | quic-go/send_stream.go:100-915 | Every possible step of application, network and peer does what it should and keeps the invariant, and completion is reported only when everything is delivered. A cancelled stream that holds data it will never send stays so, without completing, unless the connection ends or STOP_SENDING ends a partial delivery; waking a Write on a cancelled stream leaves it so if and only if the Write buffers its data. |
| `SendStreamRuns.Run` | quic-go/send_stream.go:100-915 | For any run, partial delivery included, each step has its effect on what application, stream and network see; completion is reported at most once, and then every byte the application wrote, and the FIN, is in exactly one acknowledged frame at its place, or, if the stream was reset, every byte the application wrote below the reliable size. At every moment all frames ever sent carry bytes the application wrote, none ends beyond the final size of any RESET frame sent, and FINs are at the final size or at the reliable size; without partial delivery there is only one RESET frame, with the credit taken as final size. |
| `SendStreamRuns.StayStuck` | quic-go/send_stream.go:520-546 | A cancelled stream with data it will never send does not complete in any run without the end of the connection. |
| `SendStreamRuns.Deliver` | quic-go/send_stream.go:337-352 | A receiver of those frames, in any order and number, reads a prefix of the stream, and all of it once it got the acknowledged ones. |
| `SendStreamLimits.BoundaryAfterCancel` | quic-go/send_stream.go:582-591 | A run after which a cancelled stream has a frame in flight and tracked while its count of outstanding frames is zero. |
| `SendStreamLimits.CancelDuringWrite` | quic-go/send_stream.go:251-267 | A run in which a write succeeds after the cancellation, followed by any run without the end of the connection: the stream has not completed. |
| `SendStreamLimits.CutFin` | quic-go/send_stream.go:661-676 | A run after which a frame with the FIN is queued that ends before the final size announced. |
| `SendStreamLimits.TwoFinalSizes` | quic-go/send_stream.go:704-738 | A run in which two RESET frames with different final sizes are built. |
| `FlowControl.Receive.AdjustWindowSize` | quic-go/flow_controller_base.go:55-80 | The window grows only up to its maximum; nothing else changes but the epoch. |
| `FlowControl.Receive.WindowUpdate` | quic-go/flow_controller_base.go:35-51 | The window never moves back, and after an update is what was read plus the window size; no update without need. |
| `FlowControl.SumUpdate` | quic-go/flow_controller_stream.go:100-110 | A change of one stream's account changes the connection's sum by as much. |
| `FlowControl.Connection.TryAddBytesSent` | quic-go/flow_controller_connection.go:74-83 | Credit is taken if and only if there is enough. |
| `FlowControl.Connection.AddBytesSentWithLimiter` | quic-go/flow_controller_connection.go:86-103 | Takes the smaller of credit and the clamped answer, and says whether the limiter was the smaller one. |
| `FlowControl.Connection.UpdateSendWindow` | quic-go/flow_controller_connection.go:106-115 | The send window never decreases. |
| `FlowControl.Connection.IsNewlyBlocked` | quic-go/flow_controller_connection.go:127-136 | Reported if and only if all credit is used, once per limit. |
| `FlowControl.Connection.GetWindowUpdate` | quic-go/flow_controller_connection.go:138-148 | Keeps the invariant; the window never decreases. |
| `FlowControl.Connection.EnsureMinimumWindowSize` | quic-go/flow_controller_connection.go:152-167 | The window size grows to what is asked for, within its maximum and if allowed; nothing is granted yet. |
| `FlowControl.Connection.Reset` | quic-go/flow_controller_connection.go:172-186 | Succeeds if and only if nothing was received; then no stream has an account. |
| `FlowControl.Stream.constructor` | quic-go/flow_controller_stream.go:27-48 | A new stream has an empty account in the connection's books. |
| `FlowControl.Stream.TryAddBytesSent` | quic-go/flow_controller_stream.go:131-140 | Credit is taken on both levels if both have enough, and on neither otherwise; connection counters stay the sums over the streams. |
| `FlowControl.Stream.AddBytesSentWithLimiter` | quic-go/flow_controller_stream.go:143-154 | Takes as much as both levels and the limiter allow, on both levels alike. |
| `FlowControl.Stream.SendWindowSize` | quic-go/flow_controller_stream.go:156-158 | Exactly the credit left on the tighter level. |
| `FlowControl.Stream.UpdateHighestReceived` | quic-go/flow_controller_stream.go:51-101 | Accepted if and only if the final size is consistent and neither window is exceeded; then both levels grow by as much; the windows stay. |
| `FlowControl.Stream.AddBytesRead` | quic-go/flow_controller_stream.go:103-110 | Both levels count the bytes read; the sums are kept. |
| `FlowControl.Stream.Abandon` | quic-go/flow_controller_stream.go:112-120 | The connection gets back exactly what was not read, once. |
| `FlowControl.Stream.GetWindowUpdate` | quic-go/flow_controller_stream.go:177-196 | The window never decreases, nothing is granted after the final size is known, and the connection's window is not moved. |
| `FlowControlRuns.Run` | quic-go/flow_controller_stream.go:51-196 | For any interleaving of any number of streams on one connection, up to the first violation by the peer: each operation changes exactly the counters and windows it should, on both levels, and the run ends early if and only if a frame violates a window or the final size. At every moment the connection counts as sent, received and read what its streams do, taken together; neither level sends or receives beyond its window; no window ever moves back. |
| `Receiving.ReceiveStream.constructor` | quic-go/receive_stream.go:60-74 | A new stream satisfies the invariant. |
| `Receiving.ReceiveStream.IsNewlyCompleted` | quic-go/receive_stream.go:137-156 | Reported once, exactly when the final size is known and the stream was cancelled or its error read. |
| `Receiving.ReceiveStream.DequeueNextFrame` | quic-go/receive_stream.go:385-394 | The next frame follows what was read without a gap; it is the last one exactly if it ends at the final size and there was no reset. |
| `Receiving.ReceiveStream.ReadTurn` | quic-go/receive_stream.go:173-256 | One turn of reading: data that follows what was read, or the reason why there is none; it waits, or stops without an error, only if the next byte has not been received. |
| `Receiving.ReceiveStream.Read` | quic-go/receive_stream.go:113-262 | Bytes read are appended in order; fewer than asked for, and no error, only if the next byte has not been received; end of stream means all bytes up to the final size were read; a cancellation error means that the application cancelled, or the peer did and everything promised was read; on completion all credit was returned. |
| `Receiving.ReceiveStream.ResumeRead` | quic-go/receive_stream.go:181-262 | The same for a call that waited. |
| `Receiving.ReceiveStream.HandleStreamFrame` | quic-go/receive_stream.go:432-468 | Fails exactly for a flow control or final size violation, or too many gaps; on completion all credit was returned. |
| `Receiving.ReceiveStream.HandleResetStreamFrame` | quic-go/receive_stream.go:470-516 | Completion after CancelRead returns all credit if and only if the promised data was read by then. |
| `Receiving.ReceiveStream.CancelRead` | quic-go/receive_stream.go:400-430 | STOP_SENDING is asked for exactly when it is of use; on completion all credit was returned. |
| `Receiving.ReceiveStream.CloseForShutdown` | quic-go/receive_stream.go:564-571 | Keeps the invariant. |
| `ReceivingRuns.Run` | quic-go/receive_stream.go:113-571 | For any run of frames, resets, reads and cancellations, each step has its effect on what was read, the final size, the highest offset and the credit; a frame is refused if and only if it violates the window or the final size, or leaves too many gaps, which needs a byte at 19999 or beyond. Only bytes received are read, and they are a prefix of what an honest peer sent; a read that waits or stops short does so only at a byte not received; completion is reported at most once. |
| `ReceivingRuns.LeaksWhen` | quic-go/receive_stream.go:470-516 | In any run, the step that reports completion leaves some credit not returned if and only if it is a reset that promises more than was read, and then the application had cancelled before. |
| `ReceivingRuns.LeakedCredit` | quic-go/receive_stream.go:486-516 | A run that completes with credit not returned. |
| `CryptoSending.CryptoStream.Write` | quic-go/crypto_stream.go:174-214 | Sent plus pending is what is due for every byte: without cuts if and only if no bytes were taken from the end before; with new cuts always. Cuts are acted on if and only if there is a first one; then every byte is due at least once, and once if and only if the cuts are usable. |
| `CryptoSending.PlannedOnce` | quic-go/crypto_stream.go:193-211 | Cuts that are not empty plan every byte exactly once if and only if they start after the first byte and do not touch. |
| `CryptoSending.PlannedAtLeastOnce` | quic-go/crypto_stream.go:216-283 | Whatever the cuts, no byte is left out. |
| `CryptoSending.PlannedAhead` | quic-go/crypto_stream.go:255-282 | Sending in order up to the next cut, and jumping over it, is exactly what was planned, for any cuts. |
| `CryptoSending.CryptoStream.PopInOrder` | quic-go/crypto_stream.go:98-108 | The next bytes, as many as fit; nothing only if nothing is queued or fits. |
| `CryptoSending.CryptoStream.PopTail` | quic-go/crypto_stream.go:114-125 | Exactly the last bytes asked for, if there are that many. |
| `CryptoSending.CryptoStream.Pop` | quic-go/crypto_stream.go:216-283 | Sent plus pending stays what is due for every byte; with data and 11 bytes of space there is a frame and less remains, unless a cut is empty, which stops the stream for good. |
| `CryptoSending.CryptoStream.PopAroundCuts` | quic-go/crypto_stream.go:255-282 | The ClientHello in order, leaving out exactly the cuts. |
| `CryptoSending.CryptoStream.PopCut` | quic-go/crypto_stream.go:221-253 | The cuts, once all else is sent; then what was queued after the ClientHello. |
| `CryptoSending.CryptoStream.NothingPending` | quic-go/crypto_stream.go:165-172 | When there is no more data, every byte written was sent as often as it was due, at its offset. |
| `Chaos.SplitFits` | quic-go/packet_packer_chaos.go:49-78 | Head and tail are disjoint parts of the pending data, both frames with headers fit the packet, and the rest fits the other packets. |
| `Chaos.LaterFrameRoom` | quic-go/packet_packer_chaos.go:58-61 | A later packet has room for as much data as the split counted on. |
| `Chaos.Shred` | quic-go/packet_packer_chaos.go:206-244 | For any random choice: encoded size plus budget is constant, the budget stays non-negative, and the frames carry the same bytes at the same offsets equally often. |
| `Chaos.SpreadPadding` | quic-go/packet_packer_chaos.go:254-274 | Non-empty runs that sum to exactly the budget. |
| `Chaos.SplitCryptoFrames` | quic-go/packet_packer_chaos.go:185-196 | Nothing is lost between the two lists, by any measure. |
| `Chaos.Shuffle` | quic-go/packet_packer_chaos.go:147 | Any order, the same items. |
| `Chaos.AppendChaosProtectedPayload` | quic-go/packet_packer_chaos.go:105-165 | For any random choice exactly the plain length plus the padding is written, so the size error is unreachable; same CRYPTO bytes at the same offsets; all other frames are there. |
| `Chaos.ProtectedCover` | quic-go/packet_packer_chaos.go:94-104 | CRYPTO frames of the handshake data, in one packet or in all packets of a flight, carry each byte as often when protected as without; in particular they cover the data exactly once if and only if they did before. |
| `Chaos.AppendPacketPayload` | quic-go/packet_packer.go:1055-1091 | The same for a payload that is not protected. |
| `Chaos.AppendInitialPayload` | quic-go/packet_packer.go:959-983 | An Initial packet is padded to the space there is, protected if it has CRYPTO frames and padding to spend; its length is the same either way. |
| `Chaos.AppendInitialPayloads` | quic-go/packet_packer.go:347-356 | All packets of a flight have the length they would have without protection, and together they carry the same bytes and other frames. |
| `Handshake.Transmit` | quic-go/crypto_stream.go:98-283 | A ClientHello written in any pieces and popped with any size limits, in order, around cuts or from both ends, while more is written until bytes were taken from the end: every byte is in exactly one frame, at its offset, and there is an end to it, if and only if there are no cuts, or there is a first one and they are usable. Without a first one nothing is sent; otherwise no byte is left out, and sending comes to an end if and only if no cut is empty. |
| `Handshake.SplitFirst` | quic-go/packet_packer.go:630-647 | The tail is taken before the head; the head has exactly the length chosen for it; both fit the packet. |
| `Handshake.Flight` | quic-go/packet_packer.go:627-659 | The whole flight sends every byte exactly once, every packet fits, and there are no more packets than computed. |
| `Handshake.Deliver` | quic-go/crypto_stream.go:34-62 | Frames that cover the data, in any order and number, give back a prefix of the data, and all of it once all have arrived. |
| `Handshake.SendPackets` | quic-go/packet_packer.go:959-983 | Packets with the CRYPTO frames of the data, protected and padded: exact lengths, every byte exactly once if and only if it was so before, and a receiver behind any network reads a prefix of the data, and all of it once all frames have arrived. |
| `Handshake.SendSplitHello` | quic-go/packet_packer.go:627-659 | The same from end to end for a ClientHello split into head, tail and the rest: no more packets than computed, each filled to the last byte, every byte of the ClientHello exactly once, and read by the server. |
| `Handshake.SendHello` | quic-go/crypto_stream.go:98-283 | The same for a ClientHello that is sent around its cuts, and more data after it, put into packets in any way: read by the server unless sending gets stuck, every byte exactly once if and only if the cuts are usable. |
| `HandshakeLimits.EchWithoutServerName` | quic-go/crypto_stream.go:165-211 | A ClientHello with an ECH extension and no server name is never sent. |
| `HandshakeLimits.EmptyHostName` | quic-go/crypto_stream.go:221-253 | A ClientHello with an empty host name never goes out completely. |
| `HandshakeLimits.OverlappingCuts` | quic-go/crypto_stream.go:203-211 | Cuts that touch or overlap: everything is sent, and some byte more than once. |
| `HandshakeLimits.WriteAfterTail` | quic-go/crypto_stream.go:114-125 | Data written after a tail was taken goes out at the offset of that tail. |
| `Mtu.AckedRank` | quic-go/mtu_discoverer.go:198-226 | An acknowledged probe raises min or undoes a loss, with the ceiling unchanged. |
| `Mtu.LostRank` | quic-go/mtu_discoverer.go:235-253 | A lost probe lowers the ceiling, or takes a place in the list, in the order of the termination measure. |
| `Mtu.DropKeepsHistory` | quic-go/mtu_discoverer.go:210-226 | Sizes in the list still belong to different lost probes. |
| `Mtu.InsertIsTraced` | quic-go/mtu_discoverer.go:246-252 | The same with one more lost probe. |
| `Mtu.InsertKeepsHistory` | quic-go/mtu_discoverer.go:246-252 | The ceiling leaves its initial value only after three lost probes no larger than the new ceiling. |
| `Mtu.Finder.constructor` | quic-go/mtu_discoverer.go:112-135 | A new search satisfies the invariant. |
| `Mtu.Finder.Max` | quic-go/mtu_discoverer.go:141-148 | The ceiling of the list. |
| `Mtu.Finder.Done` | quic-go/mtu_discoverer.go:137-139 | Done exactly when at most 21 bytes can be gained. |
| `Mtu.Finder.GetPing` | quic-go/mtu_discoverer.go:164-177 | The probe is at least min and below the ceiling. |
| `Mtu.Finder.Reset` | quic-go/mtu_discoverer.go:183-189 | A new search, with a new generation. |
| `Mtu.Finder.OnAcked` | quic-go/mtu_discoverer.go:198-233 | Probes of an earlier generation are ignored; otherwise min is the probe's size and the list loses the sizes up to it. |
| `Mtu.Finder.OnLost` | quic-go/mtu_discoverer.go:235-253 | Probes of an earlier generation are ignored; otherwise the list gains the size, in order. |
| `Mtu.Probe` | quic-go/mtu_discoverer.go:126-253 | Each probe brings the search closer to its end. |
| `Mtu.Search` | quic-go/mtu_discoverer.go:126-253 | For any pattern of acknowledgements and losses the search ends; each probe is at least the start and every size known to work, and below the limit; the result is the start or the largest acknowledged size; for every p, unless three probes of at most p were lost, it is at least p - 21. |
| `ConnIds.Manager.constructor` | quic-go/conn_id_manager.go:45-58 | Number 0 is in use, nothing else is known. |
| `ConnIds.Manager.Add` | quic-go/conn_id_manager.go:64-130 | The books stay right if and only if the number is new, or spare, or active and not stale; conflicts exactly for a spare number with other contents; otherwise the limit is exceeded if and only if at least 4 IDs are spare then. A frame that is not stale leaves nothing below its retire-prior-to; spare afterwards are exactly the new ID and the spare ones from that number on, without the one in use; the active number never decreases. |
| `ConnIds.Manager.AddFrame` | quic-go/conn_id_manager.go:74-130 | The same without the limit, and where the ID ends up: spare, active, or retired at once. |
| `ConnIds.Manager.RetireStale` | quic-go/conn_id_manager.go:81-88 | A stale number is retired at once, which is right if and only if it is new. |
| `ConnIds.Manager.RetireOlder` | quic-go/conn_id_manager.go:90-114 | Exactly the probing and spare IDs below the bound are retired, one frame each. |
| `ConnIds.Manager.RetireOldProbes` | quic-go/conn_id_manager.go:90-100 | Exactly the probing IDs below the bound are retired and their tokens unregistered. |
| `ConnIds.Manager.RetireQueue` | quic-go/conn_id_manager.go:101-114 | Exactly the spare IDs below the bound are retired; the order is kept. |
| `ConnIds.Manager.AddConnectionId` | quic-go/conn_id_manager.go:132-166 | Inserted in order; one that is there must be identical. |
| `ConnIds.Manager.UpdateConnectionId` | quic-go/conn_id_manager.go:168-186 | The first spare ID replaces the active one, which is retired; tokens follow. |
| `ConnIds.Manager.AddFromPreferredAddress` | quic-go/conn_id_manager.go:60-62 | Number 1 is stored, alone if nothing was spare; right if and only if it is new or spare. |
| `ConnIds.Manager.Get` | quic-go/conn_id_manager.go:219-244 | Rotates exactly when due: then the first spare ID is in use, the old one is retired, and nothing else changes but the counters. |
| `ConnIds.Manager.GetForPath` | quic-go/conn_id_manager.go:254-277 | The same ID for the same path, the first spare one for a new path, none if there is none; nothing else changes. |
| `ConnIds.Manager.RetireForPath` | quic-go/conn_id_manager.go:279-295 | The ID of the path is retired, once. |
| `ConnIds.Manager.SetStatelessResetToken` | quic-go/conn_id_manager.go:210-217 | The registered tokens are those of the active and probing IDs afterwards if and only if there was no token before. |
| `ConnIds.Manager.ChangeInitialConnId` | quic-go/conn_id_manager.go:202-207 | Only the ID itself changes. |
| `ConnIds.Manager.Close` | quic-go/conn_id_manager.go:188-198 | No token stays registered, and only registered ones are removed. |
| `ConnIds.Manager.IsActiveStatelessResetToken` | quic-go/conn_id_manager.go:297-311 | True if and only if the token is registered. |
| `ConnIds.OnePlace` | quic-go/conn_id_manager.go:64-217 | What the books mean: a received number is active, spare, probing or retired, and only one of these. |
| `ConnIds.Run` | quic-go/conn_id_manager.go:60-295 | For any run in which each number arrives at most once, that of the preferred address included, up to the first error: each operation has its effect on the IDs in use, spare, probing and retired, and frames are refused if and only if the ID in use is empty or too many are spare. At every moment every number that arrived is in exactly one place and retired at most once; no token is left after closing. |
| `ConnIds.RepeatedFrame` | quic-go/conn_id_manager.go:81-88 | A run after which an ID is both probing and spare. |
| `StreamsOutgoing.OutgoingStreams.constructor` | quic-go/streams_map_outgoing.go:38-63 | No streams, no limit, nobody waits. |
| `StreamsOutgoing.OutgoingStreams.OpenStream` | quic-go/streams_map_outgoing.go:65-79 | A stream if and only if nobody waits and the limit allows it; otherwise a STREAMS_BLOCKED for the current limit has been sent. |
| `StreamsOutgoing.OutgoingStreams.OpenStreamSync` | quic-go/streams_map_outgoing.go:81-97 | The same, or the caller waits at the end of the queue. |
| `StreamsOutgoing.OutgoingStreams.TakeSignal` | quic-go/streams_map_outgoing.go:111-114 | Only the first caller can take a signal; the invariant holds with the signal taken. |
| `StreamsOutgoing.OutgoingStreams.CancelWait` | quic-go/streams_map_outgoing.go:102-110 | A cancelled caller leaves; if it was the first, the next one is signalled if there is a stream for it. |
| `StreamsOutgoing.OutgoingStreams.Recheck` | quic-go/streams_map_outgoing.go:114-133 | In an open map a woken caller always gets the next stream, and it is the first in the queue. |
| `StreamsOutgoing.OutgoingStreams.MaybeSendBlockedFrame` | quic-go/streams_map_outgoing.go:145-159 | At most one frame per limit, limits in increasing order. |
| `StreamsOutgoing.OutgoingStreams.SetMaxStream` | quic-go/streams_map_outgoing.go:189-202 | The limit never decreases; no wakeup is lost, and callers beyond the new limit have been announced. |
| `StreamsOutgoing.OutgoingStreams.CloseWithError` | quic-go/streams_map_outgoing.go:239-253 | Every caller that waits can go on. |
| `StreamsOutgoing.ServeAll` | quic-go/streams_map_outgoing.go:99-133 | From any state, letting the first caller run serves all callers in order, with the next IDs, until none waits or the limit is reached. |
| `StreamsOutgoing.Run` | quic-go/streams_map_outgoing.go:65-253 | For any interleaving, each action has its effect on the callers served, waiting, signalled and awake; when a caller waits and a stream is available, the first one has a signal or is about to look. In the end streams were handed out in the order of the calls, each with the next ID; if no caller gave up, exactly to as many of the first callers as the limit allows. |
| `StreamsIncoming.IncomingStreams.constructor` | quic-go/streams_map_incoming.go:42-71 | The peer may open exactly the configured number of streams. |
| `StreamsIncoming.IncomingStreams.GetOrOpenStream` | quic-go/streams_map_incoming.go:115-153 | An error exactly beyond the limit; all lower streams are opened; one that was completed is not found; no other stream changes. |
| `StreamsIncoming.IncomingStreams.OpenUpTo` | quic-go/streams_map_incoming.go:142-149 | Every ID up to the new one is opened once, within the limit. |
| `StreamsIncoming.IncomingStreams.AcceptStream` | quic-go/streams_map_incoming.go:73-113 | The next ID in order, also if that stream completed before; waits exactly if it was not opened yet; the limit never decreases. |
| `StreamsIncoming.IncomingStreams.Remove` | quic-go/streams_map_incoming.go:185-198 | The stream is gone; a new limit is sent if and only if it does not exceed the largest stream ID, and then makes up for the stream exactly. |
| `StreamsIncoming.IncomingStreams.Grant` | quic-go/streams_map_incoming.go:185-198 | A new limit is larger than all before, and makes streams held plus streams the peer may still open exactly the configured number. |
| `StreamsIncoming.IncomingStreams.DeleteStream` | quic-go/streams_map_incoming.go:155-199 | Unknown and repeated deletions are errors; an accepted stream is removed, another one marked. |
| `StreamsIncoming.IncomingStreams.NeverTooMany` | quic-go/streams_map_incoming.go:185-198 | Streams held plus streams the peer may still open are at most the configured number. |
| `StreamsIncoming.Run` | quic-go/streams_map_incoming.go:73-209 | For any run, each operation has its effect on the streams held, the next IDs, the limit and the frames sent, and its answer says so. At every moment the IDs accepted are the first ones, in order, limits sent increase, and the bound holds. |
| `Framing.BorrowedBytes` | quic-go/framer.go:256-260 | A frame sized with the borrowed bytes fits once its length field is dropped. |
| `Framing.BorrowedBytesExact` | quic-go/framer.go:256-260 | In larger packets that is so if and only if the space is below 16384 or at least 16400. |
| `Framing.ControlLimit` | quic-go/framer.go:174-195 | What is set aside for a control frame of a stream is enough for all frames of up to a given length if and only if that is at most 26 bytes. |
| `Framing.ResetLimit` | quic-go/internal/wire/reset_stream_frame.go:72-79 | A RESET frame is within that limit if and only if it is a RESET_STREAM, or one of its fields is below 2^6, or two are below 2^30. |
| `Framing.LongReset` | quic-go/framer.go:174-195 | For every longer RESET_STREAM_AT frame, a run in which a packet that has just the space for asking gets too long. |
| `Framing.Framer.QueueControlFrame` | quic-go/framer.go:66-86 | A path response is queued unless there are 256, another frame unless there are at least 16384, and then this is remembered; nothing else changes. |
| `Framing.Framer.AddActiveStream` | quic-go/framer.go:220-227 | Every active stream has a place in the queue. |
| `Framing.Framer.AddStreamWithControlFrames` | quic-go/framer.go:229-235 | The stream is remembered, once; nothing else changes. |
| `Framing.Framer.RemoveActiveStream` | quic-go/framer.go:238-245 | That is kept. |
| `Framing.Framer.AppendStreamControlFrames` | quic-go/framer.go:174-195 | Beyond the space by no more than the longest frame exceeds 26 bytes, although lengths are only known afterwards; as long as there is space for another frame, every stream is asked until it has none. |
| `Framing.Framer.AppendQueuedFrames` | quic-go/framer.go:197-206 | The latest frames first, none lost, as many as fit; none if there is no space left. |
| `Framing.Framer.GetNextStreamFrame` | quic-go/framer.go:247-270 | The first stream of the queue is asked if it is active, with the space there is and what its last frame will not need for a length field; it goes to the end if and only if it has more; active streams stay in the queue. |
| `Framing.Framer.AppendStreamFrame` | quic-go/framer.go:104-128 | One turn has exactly its effect on packet, space, queue and active streams: a stream that becomes blocked is reported in this packet if there is space, otherwise in the next one. The space is exceeded by no more than the length field of the last frame. |
| `Framing.Framer.Append` | quic-go/framer.go:88-209 | The length returned is exactly that of the frames added; it is at most the space if the control frames of streams take at most 26 bytes, and otherwise beyond it by no more than they are longer, and then there is no STREAM frame. In a trace of all turns each stream in the queue has its turn, unless less than 128 bytes are left or a blocked stream could not be reported, and the STREAM frames are exactly those of the turns; only the last one lacks a length field. Streams not asked keep their order at the front; no control frame is lost. |
| `Framing.NoStarvation` | quic-go/framer.go:104-128 | Whatever else becomes active or has more to send: a stream at place p of the queue has its turn in one of the next p + 1 packets with a turn. |
| `Framing.SomeTurn` | quic-go/framer.go:104-110 | A packet with 128 bytes left after its control frames has a turn if a stream is queued. |
| `GeckoFrame.EncodeFrame` | hy-extras/obfs/gecko_frame.go:39-59 | Fails exactly for a bad header or a short buffer; writes header, padding and payload, and nothing else. |
| `GeckoFrame.RoundTrip` | hy-extras/obfs/gecko_frame.go:39-86 | Decoding an encoded frame gives back header and payload. |
| `GeckoFrame.OnlyLayouts` | hy-extras/obfs/gecko_frame.go:63-86 | Whatever decodes is an encoded frame, but for the reserved bits of the first byte. |
| `Gecko.JoinChunks` | hy-extras/obfs/gecko.go:112-122 | The chunks of a packet make up the packet. |
| `Gecko.PaddedSize` | hy-extras/obfs/gecko.go:144-151 | The datagram size is in the configured range if and only if the chunk allows for that. |
| `Gecko.WriteFragmented` | hy-extras/obfs/gecko.go:112-139 | Frame i decodes to chunk i of the packet, for any random numbers. |
| `Gecko.Reassembler.DropEntry` | hy-extras/obfs/gecko.go:277-286 | Only that entry goes; the counters stay exact. |
| `Gecko.Reassembler.EvictOldest` | hy-extras/obfs/gecko.go:290-304 | An entry with the earliest deadline goes. |
| `Gecko.Reassembler.GcExpired` | hy-extras/obfs/gecko.go:266-274 | Exactly the expired entries go. |
| `Gecko.Reassembler.Create` | hy-extras/obfs/gecko.go:205-221 | A new entry if and only if the source has fewer than 8; at most 4096 in total: in a full table it takes the place of one with the earliest deadline, otherwise nothing else changes. |
| `Gecko.Reassembler.AcceptChunk` | hy-extras/obfs/gecko.go:199-249 | A packet comes out exactly with the last missing chunk; put together from genuine chunks it is the packet sent, whatever else is held; other entries are untouched, and none is dropped unless the table is full; per-source counters stay exact and within their limits. |
| `Gecko.Receive` | hy-extras/obfs/gecko.go:169-197 | Datagrams without the flag pass through as they are, empty ones and bad frames are dropped, the rest is reassembled; the table changes exactly as it should. |
| `Gecko.Run` | hy-extras/obfs/gecko.go:169-304 | For any interleaving, reordering, duplication, loss and expiry: every datagram that is not a Gecko frame comes out at once and as it was; a fragment lets a packet out if and only if it is the last one missing, and that is the packet sent; nothing else comes out. The table changes exactly as each operation demands, and the limits hold at every moment. |
| `Gecko.FragmentAndReassemble` | hy-extras/obfs/gecko.go:112-249 | From any state in which the source and the table have room: a packet whose frames arrive in any order and number, with anything else arriving or expiring in between, comes out exactly when the last of its frames has arrived for the first time. |

## Left out

- `Wire.MaybeSplitOff`: sizes for which the computed room is too large are excluded; the source then cuts a frame that is too large, or panics.
- `SendStreamRuns.Step`: moving the boundary of a stream that was reset is not a step, since it can break the count of outstanding frames; `SetReliableBoundary` and `EnableResetStreamAt` state what it does.
- `Sending.SendStream.Pop`: sizes above 16387 bytes are not modelled; they are beyond that limit.
- `CryptoSending.CryptoStream.Write`: what happens when the queue parses as a ClientHello again after the first cut was sent is not stated; that needs an empty write at that moment.
- `Handshake.Deliver`: models the crypto stream's receiver as the reassembly buffer alone; rejecting data after the end of an encryption level is not modelled.
- `Receiving.ReceiveStream.HandleStreamFrame`: a final size of exactly 2^62 - 1, which the source takes for unknown, is excluded.
- `Receiving.ReceiveStream.HandleResetStreamFrame`: the same.
- `Framing.Framer.AppendStreamFrame`: packets with more than 16383 bytes of space are excluded.
- `Framing.Framer.Append`: the streams are any answers that keep to the size asked for, as `Sending.SendStream.Pop` does; packets with more than 16383 bytes of space are excluded.
- `ConnIds.Manager.Add`: frames whose retire-prior-to exceeds their number are excluded, as the frame parser rejects them; operations after closing are excluded: most panic, and frames are no longer handled by then.
- `ConnIds.Manager.AddFrame`: the same.
- `StreamsIncoming.IncomingStreams.AcceptStream`: one attempt to accept is a step; the channel that wakes a waiting caller is not modelled.
- `Gecko.WriteFragmented`: the message counter is an input; reuse of a message ID while an older packet is being reassembled is excluded by `Gecko.Run`, whose packets have one packet per key.
- The search for the server name and the ECH extension in a ClientHello: its result is an input, of which only is known that it lies inside the ClientHello.
- `ReceiveStream.Peek`, the control frames of the receiving half, and callbacks for final sizes and released read buffers: each reads or forwards a value whose meaning `Read` and `FrameSorter.Sorter.Peek` already state.
- Lookup and deletion of outgoing streams, rejection of 0-RTT in the framer, sending probes of the MTU search only after a delay: single lookups, removals and comparisons that the properties here do not depend on.
- Packet packing beyond the order of head and tail, encryption, sockets, TLS, timers, the connection's run loop, the server and the user interface.
- The float arithmetic of window auto-tuning: whether a window is consumed too fast is an input, and the update threshold is one quarter.
- Truncation of datagrams by read buffers of 2048 bytes and by short buffers of the caller.

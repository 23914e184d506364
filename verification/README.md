# A verified model of the Network Audio System

The Network Audio System (NAS) lets programs play and record sound through a server. This project
models the client library's wire engine, the wire format of flow elements with both of its ends and
the server's byte-swapping bridge between them, and a few smaller cores, and proves what they keep.

Code that works by changing state is modelled by classes, arrays and loops, and each such method is
proved against a specification function or predicate about which the theorems are stated. The
socket is an oracle: a script says what each system call does (how many bytes it moves, `EAGAIN`
with any sequence of `FIONREAD` counts, `EINTR`, `EMSGSIZE`), and every theorem holds for every
script. The server is the stream of packets it sends.

- `Bytes`, `Sequences`, `Options`: words in either byte order, padding, sequence operations.
- `Packets`: 32-byte events and errors and replies of 32 + 4n bytes, and what it means for a buffer
  to be aligned with them. `Engine`: the effect of a packet on the client's state, serial numbers,
  and whole runs. `EventQueue`, `ErrorWatches`: the two linked lists behind that state.
- `Gather`, `Requests`, `Client`: framing and sending requests, reading and dispatching packets.
- `Answers`, `Replies`: waiting for an answer, and round trips. `EventCalls`: the calls that take
  events from the queue.
- `Elements`, `ElementCodec`, `ElementReader`: the layout of elements, `AuSetElements` and
  `AuGetElements`. `ElementSwap`, `Translation`, `Parameters`, `ForeignFlow`: the server's swapping
  for clients of the other byte order, and a flow all the way round.
- `Playback`: playing from memory by chunked writes. `WorkQueue`: the server's re-entrant work
  queue. `Convert`: in-place sample conversion and mu-law. `Wave`: sound files. `ErrorDatabase`: the
  trie of error texts. `BucketCache`: the cache of bucket attributes.

## Where the code does not do what it promises

- A reply that nobody waits for ends the wait of `_AuReply` as if it were the answer
  (`Answers.StrayReplyEndsWait`): a round trip ends with its answer exactly if no reply is left to come
  before that (`Answers.AwaitFindsAnswer`, `Answers.AnswerEndsTrip`), and then misses no error
  (`Answers.TripMissesNothing`).
- `_AuReply` stores the code of every error it reads in `*ret_status`, also of errors for other
  requests (lib/audio/Alibint.c:982). `Answers.StatusOfAnswer` says when the status is right, and
  `Answers.ForeignErrorReported` shows a request that succeeds with the status of another's error.
- `AuGetElements` does not look at what `_AuReply` returns. When the answer is an error it takes the
  error's minor code, major code and padding for the number of elements and reads that many off the
  connection: it stays in step exactly if those four bytes are zero, and the major code of its own
  request is not (`ElementReader.StaysInStep`, `ElementReader.ErrorLosesStep`).
- The comment at lib/audio/Alibint.c:868 says that the largest fitting serial is chosen; the code
  takes the smallest. They agree exactly within a window of 65536 (`Engine.WidenExact`), and over
  a whole run exactly if no packet lies further than that from the one before (`Engine.RunIsTrueRun`);
  a client that falls behind never catches up. Near the end
  of the 32-bit range the loop need not end (`Engine.SerialsRunOut` says exactly when).
- `max_request_size` is documented in 32-bit words (lib/audio/audiolib.h:273) and used in bytes, and a
  padded chunk can exceed it by up to three bytes (`Playback.PaddedChunkFits`).
- An event that asks for zero bytes ends a flow before all data is sent
  (`Playback.EndsEarlyOnlyIfIdle`, `Playback.EndIsSent`).
- Offset 16-bit samples of the other byte order do not convert back: the wrong bit is flipped
  (`Convert.SampleReturns`, `Convert.BufferReturns`). With an odd byte count 16-bit samples
  are read one byte too late: `Convert.OddConverts` says which buffers survive that, and
  `Convert.CountConverts` that only odd counts below three never do harm. An unknown format divides by
  zero before it is refused (`Convert.ConvertDataToShort`). Mu-law compression wraps beyond 32635 (`Convert.CompressionError`).
- `SProcAuSetElementParameters` steps over the values of an entry without its header
  (server/dia/auswap.c:313-315), so only requests with at most one entry are always
  swapped right (`Parameters.SwapsExactly`).
- A wave form number above 255 comes back truncated (`ElementReader.ComesBackSame`).
- For an element of unknown type `SProcAuSetElements` reads the type it means to report through the
  null pointer that `SwapElement` returned (server/dia/auswap.c:268-269), so it reports nothing
  (`Translation.SwapSetElements`, `Translation.RadioRequestFaults`).
- A WAVE file without channels, or with samples of less than eight bits, is written without complaint;
  opening it divides by zero (`Wave.RoundTrip`, `Wave.NoChannels`). Without a format chunk the
  parameters are never set (`Wave.OpensExactly`).

## Model

| member | source | states |
|---|---|---|
| Packets.FramingIsUnique | lib/audio/Alibint.c:481-507 | A byte stream can be cut into well-formed packets in only one way, so framing by length fields loses nothing |
| Packets.CoveredIsLeast | lib/audio/Alibint.c:481-507 | `Covered` is the least number of whole packets that contain the first n bytes |
| Packets.WholeHeadersAreAligned | lib/audio/Alibint.c:481-507 | A read of whole 32-byte units leaves the buffer aligned with the packets up to the next reply |
| Engine.WidenExact | lib/audio/Alibint.c:863-894 | A true serial between the last read and the last requested is recovered exactly if it is less than 65536 ahead |
| Engine.WidenMonotone | lib/audio/Alibint.c:863-894 | The serial moves back exactly when the sequence number is behind the last one and no serial in range fits it |
| Engine.SerialsRunOut | lib/audio/Alibint.c:873-894 | The loop over 32-bit serials never ends exactly within the last 65536 of the range, for a sequence number behind the last one that the last request has got past |
| Engine.RunIsTrueRun | lib/audio/Alibint.c:863-938 | Over any in-order run the client behaves as if packets carried full serials exactly if every packet whose serial counts lies less than 65536 past the one before; the last serial read never decreases nor passes the last request |
| Engine.WindowIsNear | lib/audio/Alibint.c:863-894 | With fewer than 65536 requests outstanding that is so |
| Engine.ThroughIsTrueRun | lib/audio/Alibint.c:322-365 | However the requests that are made and the packets of an in-order server take turns, each packet handled belonging to a request made by then: each is handled once and in stream order, and the effect is that with true serials exactly if no packet lies 65536 or more past the one before |
| Engine.HitsExist | lib/audio/AlibAsync.c:46-70 | A filter has a hit exactly when some error of the stream satisfies it |
| Engine.TrueRunOutcome | lib/audio/AlibAsync.c:46-70 | The newest watch counts exactly the errors it wants and keeps the last one's code; all events are queued in stream order |
| Engine.OlderWatchesUndisturbed | lib/audio/Alibint.c:1443-1458 | Older watches and the program see the stream as if the errors taken by the newest watch had not been there |
| Engine.QueueOnlyGrows | lib/audio/Alibint.c:1178-1208 | Handling packets only appends to the event queue |
| EventQueue.EventQueue.Enqueue | lib/audio/Alibint.c:1178-1208 | A queueable event is appended, others are not; nodes come from the spare list first and are conserved |
| EventQueue.EventQueue.Requeue | lib/audio/ReqEvent.c:43-91 | The event is put in at `skip` clamped to the queue |
| EventQueue.EventQueue.Unlink | lib/audio/ScanEvents.c:80-98 | Exactly one event is taken out, its node goes to the spare list, and the tail pointer stays right |
| EventQueue.EventQueue.DiscardAll | lib/audio/Sync.c:59-65 | The whole queue is spliced in front of the spare list |
| ErrorWatches.WatchList.Remove | lib/audio/AlibAsync.c:72-85 | A handler is unlinked wherever it is, the others keep their order |
| ErrorWatches.WatchList.Offer | lib/audio/AlibAsync.c:46-70 | An error goes to the first handler that wants it and to no other |
| Client.AuServer.SetLastRequestRead | lib/audio/Alibint.c:873-894 | The 32-bit loop computes `Widen` |
| Client.AuServer.Error | lib/audio/Alibint.c:1443-1486 | An error has the effect that `Engine.Handle` gives it |
| Client.AuServer.Enq | lib/audio/Alibint.c:1178-1301 | An event has the effect that `Engine.Handle` gives it |
| Client.AuServer.Read | lib/audio/Alibint.c:518-556 | However reads are cut up, exactly the bytes asked for are read |
| Client.AuServer.ReadPad | lib/audio/Alibint.c:672-744 | However reads are cut up, exactly the data arrives in place and exactly the padded size is consumed |
| Requests.ReadMore | lib/audio/Alibint.c:697-718 | After a partial read the two vectors ask for exactly the rest, also when the read ends inside the padding |
| Client.AuServer.EatData | lib/audio/Alibint.c:1120-1131 | Exactly n bytes are discarded |
| Client.AuServer.SlideBack | lib/audio/Alibint.c:1060-1072 | Sliding back stays inside the buffer and completes the last header |
| Client.AuServer.Realign | lib/audio/Alibint.c:1050-1075 | After a reply the buffer is aligned with the packets again, and touches the same ones |
| Client.AuServer.AsyncReply | lib/audio/Alibint.c:1025-1075 | A stray reply has its effect on the serial; with `discard` exactly its bytes are dropped, without it nothing moves |
| Client.AuServer.DispatchChunk | lib/audio/Alibint.c:481-507 | A chunked read handles exactly the packets it touches, in order, and leaves the socket on a packet boundary |
| Client.AuServer.WaitForWritable | lib/audio/Alibint.c:170-262 | Packets that arrive while the socket is full are handled in order |
| Gather.GatheredSlice | lib/audio/Alibint.c:776-812 | The vectors that `InsertIOV` builds are exactly bytes skip to skip + todo of the pieces, none of them empty |
| Client.AuServer.Flush | lib/audio/Alibint.c:322-365 | Under any partial writes, stalls and `EMSGSIZE` halvings exactly the buffered bytes are sent, once and in order |
| Client.AuServer.Send | lib/audio/Alibint.c:751-838 | The same for buffer, data and zero padding |
| Client.AuServer.Recover | lib/audio/Alibint.c:338-360 | Whatever a write fails with, at least one byte is tried next |
| Client.AuServer.GetReq | lib/audio/Alibint.h:236-245 | A new request is framed by its length field, its offset stays a multiple of four within the buffer |
| Client.AuServer.Data | lib/audio/Alibint.h:354-359 | Data goes behind the request, padded to a multiple of four, whether it is buffered or sent |
| Client.AuServer.WireSplits | lib/audio/Alibint.h:236-359 | Cutting everything sent or buffered by length fields gives back exactly the issued requests, in order |
| Requests.SplitConcat | lib/audio/Alibint.h:236-300 | A wire of whole requests is always cut back into them |
| Answers.AwaitEndsFirst | lib/audio/Alibint.c:904-1023 | Against an in-order server the wait ends with the first packet that is a reply or an error for the request, in the state a client with true serials would be in, whether or not the caller wants the status itself |
| Answers.AwaitFindsAnswer | lib/audio/Alibint.c:904-1023 | The wait ends with the answer exactly if no reply comes before it, and never later |
| Answers.AwaitAfterFlush | lib/audio/Alibint.c:904-1023 | Packets handled while the request is still being sent do not change how the wait ends |
| Answers.RoundTripAwaits | lib/audio/Alibint.c:1082-1113 | However many packets are handled while the request is sent, the wait ends with the first after them that can end it, at the latest with the answer, and the effect is that of all packets up to it with true serials |
| Answers.AnswerEndsTrip | lib/audio/Alibint.c:1082-1113 | A round trip ends with the answer exactly if no reply is left to come before it |
| Answers.TripOutcome | lib/audio/Alibint.c:1082-1113 | After a round trip the newest watch tells whether an error it wants has come, and the code of the last; the events are queued |
| Answers.TripMissesNothing | lib/audio/Alibint.c:1082-1113 | If it ended with the answer, no error that the watch wants comes later |
| Answers.StrayReplyEndsWait | lib/audio/Alibint.c:932-962 | A reply ends the wait whoever's it is; the last serial is then the request's exactly if the sequence number is, so within 65536 requests exactly if it was the answer |
| Answers.StatusOfAnswer | lib/audio/Alibint.c:904-1023 | An error as the answer gives its own code as the status; with a reply the status is zero exactly if the last earlier error, if there is one, has code zero, so with codes other than zero exactly if no error came before |
| Answers.ForeignErrorReported | lib/audio/Alibint.c:982-1016 | An error for an earlier request and then the reply: the request is answered and the status is that error's code |
| Answers.ZeroCodeHidesError | lib/audio/Alibint.c:982-1016 | A later error with code zero hides the code of the error before it |
| Replies.WaitStep | lib/audio/Alibint.c:920-1016 | One turn of the wait stops or handles the packet as specified, and leaves exactly the unread rest of a reply |
| Replies.WaitLoop | lib/audio/Alibint.c:920-1016 | The wait ends with the specified packet and state; the status is the code of the last error read, whichever request caused it |
| Replies.Reply | lib/audio/Alibint.c:904-1023 | Flushing and waiting together |
| Replies.ForceRoundTrip | lib/audio/Alibint.c:1082-1113 | Up to the packet that ends the wait: true exactly when no error that the caller asks for came for the last request (for any request, if none had been made), else the last one's code; every event is queued in order, the handler list is restored |
| Replies.TripWants | lib/audio/Alibint.c:1082-1113 | The errors asked for are those of the last request, or of all requests if its serial is zero |
| EventCalls.EventsQueued | lib/audio/Alibint.c:367-442 | Returns the length of the queue after handling what could be read |
| EventCalls.ReadEvents | lib/audio/Alibint.c:448-511 | Reads until an event is queued, handling every packet in order |
| EventCalls.QueueableIsQueued | lib/audio/Alibint.c:448-511 | A queueable event on the stream ends up in the queue |
| EventCalls.ScanEvents | lib/audio/ScanEvents.c:48-103 | Finds the first match over all passes, tests each event at most once and in order, and with `dequeue` removes exactly that event |
| EventCalls.NextEvent | lib/audio/NextEvent.c:48-79 | Takes the front of the queue, reading until there is one |
| EventCalls.Sync | lib/audio/Sync.c:45-68 | A round trip, whichever packet ends it, after which `discard` leaves the queue empty |
| Elements.FieldRead | lib/audio/Aproto.h:481-673 | What is read at a field's place is the field's value |
| Elements.HeadDecodes | lib/audio/GetElement.c:71-190 | Decoding the fixed part inverts encoding it, for all twelve element types |
| Elements.EntryDecodes | lib/audio/GetElement.c:190-255 | The same for actions, tracks and inputs |
| ElementCodec.MeasureElements | lib/audio/SetElement.c:75-131 | The separately computed variable length is the size of the encodings, or a type is unknown |
| ElementCodec.LengthFieldFits | lib/audio/SetElement.c:126-131 | The 16-bit length field is right exactly for requests under 262144 bytes |
| ElementCodec.WriteRecord | lib/audio/SetElement.c:147-276 | One element is sent as an encoding of it |
| ElementCodec.WriteActions | lib/audio/SetElement.c:27-53 | The actions are sent as the variable part of an encoding |
| ElementCodec.SetElements | lib/audio/SetElement.c:55-287 | Exactly one well-framed request that encodes the elements is issued, or nothing at all for an unknown type |
| ElementReader.DecodeInvertsEncode | lib/audio/GetElement.c:57-257 | Decoding an encoding, whatever follows it, gives back the element and takes exactly its size |
| ElementReader.ComesBackSame | lib/audio/SetElement.c:172-185 | Decoding what an element is sent as gives back that element exactly if it is no wave form with a number above 255 |
| ElementReader.ReadElement | lib/audio/GetElement.c:57-257 | One turn of the loop, whatever is on the connection: it takes one element and exactly its bytes, gives up on a negative number of actions, or waits for bytes that never come |
| ElementReader.ReadElements | lib/audio/GetElement.c:57-257 | The loop reads element after element, up to the first that cannot be had |
| ElementReader.EncodedComeBack | lib/audio/GetElement.c:57-257 | What the server sends for a list of elements is read back as that list, and exactly its bytes are taken |
| ElementReader.StaysInStep | lib/audio/GetElement.c:45-59 | A reply gives back the flow's elements; the call returns with exactly the packets up to the answer taken if and only if that is a reply or bytes 12 to 15 of the error are zero |
| ElementReader.ErrorLosesStep | lib/audio/GetElement.c:45-59 | After an error that names this request the call takes bytes of later packets, or never returns |
| ElementReader.GetElements | lib/audio/GetElement.c:28-263 | Against an in-order server, whatever ends the wait: events and errors up to it have their effect, the status is that of the packets met while waiting, the number of elements is bytes 12 to 15 of that packet, and that many are read from what follows |
| ElementSwap.SwapElement | server/dia/auswap.c:113-250 | Exactly the numbers of the element are mirrored in place, in both directions, and the next element's place depends only on type and counts |
| ElementSwap.SwapShorts | server/dia/swapreq.c:83-118 | Every short of the list is mirrored, sixteen at a time and then one by one |
| ElementSwap.SwapUndone | server/dia/auswap.c:113-250 | Mirroring the same numbers twice restores every byte |
| Translation.FieldsCovered | server/dia/auswap.c:125-226 | What is swapped in the fixed part is exactly the fields that the client lays out in more than one byte |
| Translation.OutAndBack | server/dia/auswap.c:113-250 | Swapping out and in again restores every byte of any element, and both directions step over the same number of bytes |
| Translation.SwapList | server/dia/auswap.c:264-269 | The walk swaps exactly the numbers of the elements, up to the first of unknown type |
| Translation.ListWalks | server/dia/auswap.c:264-269 | The walk over a well-formed list ends exactly at its end |
| Translation.ListTranslated | server/dia/auswap.c:113-269 | Swapping a list encoded in the foreign byte order leaves the same list encoded in the host's |
| Translation.SwapSetElements | server/dia/auswap.c:252-272 | Header and list are swapped in place; a request of less than three words is refused, and otherwise the code reads through null exactly if the walk meets an element of unknown type |
| Translation.WalkFails | server/dia/auswap.c:264-269 | The walk gives up exactly if one of the elements it reaches has an unknown type |
| Translation.RadioRequestFaults | server/dia/auswap.c:268-269 | A request with one element of type 4 is such a request |
| Translation.ForeignRequest | server/dia/auswap.c:252-272 | A foreign client's request for some elements becomes the host's request for the same elements |
| Translation.ReceiveSetElements | server/dia/auswap.c:252-272 | Whatever a foreign client sends for its elements reaches the handler as a well-framed request for them |
| Translation.ForeignReply | server/dia/auswap.c:543-556 | An element sent to a foreign client reads there as the same element |
| Translation.WriteElements | server/dia/audispatch.c:524-529 | The elements written one behind the other, each swapped out, read on the other side as the same list |
| Translation.CopySwapElementWrite | server/dia/auswap.c:543-556 | What is written is the element swapped out; the server's own copy stays |
| ForeignFlow.KeepElements | server/dia/audispatch.c:678-932 | Of a request in the server's byte order each element is kept as it lies |
| ForeignFlow.WriteReply | server/dia/audispatch.c:502-532 | The reply is well framed in the client's byte order and carries the elements |
| ForeignFlow.ForeignRoundTrip | server/dia/audispatch.c:502-532 | Elements that a client of the other byte order has set are what it reads back, and exactly the reply is taken |
| Parameters.SwapParameters | server/dia/auswap.c:296-320 | The loop swaps what `Swapped` says, walking by the size of the values alone |
| Parameters.OneEntrySwaps | server/dia/auswap.c:296-320 | A request with one entry ends up in the server's byte order |
| Parameters.SwapsExactly | server/dia/auswap.c:296-320 | Every request with n entries does exactly if n is at most one |
| Playback.ChunksCarryData | lib/audio/WriteEl.c:85-97 | The chunks carry exactly the data, each fits, and exactly the last is not pending |
| Playback.PaddedChunkFits | lib/audio/WriteEl.c:41-86 | A padded chunk always fits the limit exactly if that is a multiple of four, and never exceeds it by more than three |
| Playback.PlaysPrefix | lib/audio/soundlib.c:309-343 | Over any run of events the payloads end to end are a prefix of the sound, as long as what was asked for |
| Playback.EndsEarlyOnlyIfIdle | lib/audio/soundlib.c:309-343 | The end is sent before all data exactly if some event asks for zero bytes while some are left |
| Playback.EndIsSent | lib/audio/soundlib.c:309-343 | Over a whole run some write ends the flow exactly if more is asked for than there is, or some event asks for nothing |
| Playback.WriteChunk | lib/audio/WriteEl.c:28-60 | Exactly one well-framed request that carries the chunk; packets that arrive meanwhile are handled in order |
| Playback.WriteElement | lib/audio/WriteEl.c:62-98 | The requests issued are exactly the chunks; packets that arrive between and during them are handled in order |
| Playback.SoundData.SendData | lib/audio/soundlib.c:309-343 | The writes are those of `Serve`, the data left is what they do not carry, and packets are handled in order meanwhile |
| Playback.SoundData.HandleEvents | lib/audio/soundlib.c:409-478 | Over any run of events the requests issued are exactly the writes of `Play`, and packets are handled in order meanwhile |
| WorkQueue.ScanRunsEachOnce | server/dia/dixutils.c:74-107 | One scan calls every procedure queued before or during it exactly once, in queue order; those not done stay, in order |
| WorkQueue.Queue.ProcessWorkQueue | server/dia/dixutils.c:74-107 | The scan of the linked list does what `Scan` says, under re-entry, and the last link is right afterwards |
| WorkQueue.Queue.QueueWorkProc | server/dia/dixutils.c:109-127 | Appends, during a scan as well |
| Convert.TableFollowsLaw | lib/audio/convutil.c:43-78 | All 256 table entries are what the compression law says |
| Convert.CompressionError | lib/audio/convutil.c:186-227 | Compressing and expanding is off by at most 4 * 2^exponent exactly for magnitudes up to 32635 |
| Convert.ExpandCompress | lib/audio/convutil.c:43-227 | Expanding and compressing restores every code except 0x7F, which becomes 0xFF |
| Convert.SampleReturns | lib/audio/convutil.c:94-309 | A sample comes back exactly unless it is mu-law 0x7F or offset and in the other byte order |
| Convert.ConvertDataToShort | lib/audio/convutil.c:80-154 | The backward loop, for any byte count; each sample is converted if the count is a whole number of samples; an unknown format divides by zero |
| Convert.WidenDownConverts | lib/audio/convutil.c:80-154 | The backward loop never overwrites an unread sample |
| Convert.OddConverts | lib/audio/convutil.c:92-93 | With an odd count a buffer of 16-bit samples is converted right exactly if every sample has two equal bytes, equal to the byte that ends up behind it |
| Convert.CountConverts | lib/audio/convutil.c:92-93 | Every buffer of a size is converted right exactly if the count is even or below three |
| Convert.ConvertShortToData | lib/audio/convutil.c:229-312 | The forward loop converts each short and leaves what lies behind; unknown formats are refused |
| Convert.BufferReturns | lib/audio/convutil.c:80-312 | A whole buffer comes back exactly when each of its samples does |
| Wave.WaveWriter.Write | lib/audio/wave.c:304-316 | Samples are appended and counted |
| Wave.WaveWriter.Close | lib/audio/wave.c:269-292 | Closing leaves exactly a finished file: samples padded, both sizes patched in place |
| Wave.RiffSizeIsLength | lib/audio/wave.c:278-283 | The patched RIFF size is the length of the file less eight |
| Wave.SwappedIsLittle | lib/audio/fileutil.c:45-105 | On a host of either byte order numbers lie in the file little-endian |
| Wave.WrittenIsWellFormed | lib/audio/wave.c:198-262 | Whatever is written is a well-formed RIFF/WAVE file |
| Wave.ReadInfo | lib/audio/wave.c:106-133 | The last comment of an INFO list is kept, other chunks are skipped, and the list's end is reached exactly |
| Wave.TakeChunk | lib/audio/wave.c:92-181 | Every kind of chunk has its effect, and its end is reached exactly; a data chunk that claims to reach past the end of the file is cut to it |
| Wave.OpenFileForReading | lib/audio/wave.c:69-196 | What is not RIFF/WAVE is refused; of every well-formed file the parameters, comment, samples and their number are found, or the code divides by zero or reads parameters never set |
| Wave.RefusedExactly | lib/audio/wave.c:86-187 | A well-formed file is refused exactly if a comment is empty, the first format chunk is not for plain samples, there are no samples, or a chunk should follow samples that are cut off |
| Wave.OpensExactly | lib/audio/wave.c:135-196 | Any other opens exactly if it has a format chunk and the first one gives at least one channel and eight bits; without one, parameters are read that were never set, else it divides by zero |
| Wave.NoChannels | lib/audio/wave.c:189-189 | A file without channels can be written and not be opened |
| Wave.RoundTrip | lib/audio/wave.c:69-325 | Closing and reopening recovers channels, rate, bits, comment, size, number and bytes of the samples exactly if there is a channel and samples have at least eight bits; otherwise it divides by zero |
| ErrorDatabase.TextIsLast | lib/audio/AuErrDes.c:112-180 | The text of a name is that of the last line with just that name |
| ErrorDatabase.Database.AddNode | lib/audio/AuErrDes.c:94-110 | The new node is linked at the end of its list; sibling keys stay unique and all else stays in place |
| ErrorDatabase.Database.AddLine | lib/audio/AuErrDes.c:127-174 | One line adds exactly the nodes for its name and sets the text of its last |
| ErrorDatabase.Database.Load | lib/audio/AuErrDes.c:112-180 | After any list of lines the trie holds exactly the paths that start some name, with their texts |
| ErrorDatabase.Database.GetResource | lib/audio/AuErrDes.c:182-213 | A name is found exactly when some line's name starts with it, with the text of the last line of just that name; a name without components reads a pointer never set |
| BucketCache.CopyBucketAttributes | lib/audio/bcache.c:42-65 | A deep copy: equal in value, sharing nothing with the original |
| BucketCache.SearchRemoved | lib/audio/bcache.c:150-168 | Ids are unique, so taking out one entry makes its number unknown and no other |
| BucketCache.Cache.Add | lib/audio/bcache.c:67-110 | The first attributes written for a server and a bucket stay; nothing else changes |
| BucketCache.Cache.Lookup | lib/audio/bcache.c:112-136 | A fresh copy of what is cached, or null exactly if nothing is |
| BucketCache.Cache.Remove | lib/audio/bcache.c:138-172 | Afterwards exactly that bucket of that server is unknown |
| BucketCache.Cache.Free | lib/audio/bcache.c:175-208 | Afterwards exactly that server's buckets are unknown |

## Left out

- Client.AuServer.SetLastRequestRead: serials stay below 0xFFFF0000, past which the code's loop need not end (Engine.SerialsRunOut).
- Client.AuServer.Read: the scripts of the socket are finite, after which it takes and gives everything; end of file and other fatal errors, on which the library gives up, are not modelled.
- Client.AuServer.ReadPad: vector lengths are signed integers, as in lib/audio/Alibnet.h:259-268; with an unsigned length the test for a negative one would never hold.
- Client.AuServer.Error: the hooks with which extensions suppress errors are not modelled.
- Client.AuServer.Enq: the callbacks on enqueued events and the event converters' contents are not modelled; an event is its wire bytes and serial.
- Client.AuServer.WaitForWritable: FIONREAD never reports more than the server has sent.
- Replies.Reply: what the server sends once it has the whole request is a parameter; the connection blocks until it arrives.
- Replies.ForceRoundTrip: the answer comes after what was unread when the request was made, and what was unread belongs to earlier requests, as the server cannot answer what it has not been sent.
- EventCalls.EventsQueued: the counter that polls an idle connection every 256 calls is not modelled.
- ElementCodec.SetElements: the optional round trip at its end is Replies.ForceRoundTrip and is not repeated; requests of 262144 bytes or more are excluded, as the length field cannot hold them (ElementCodec.LengthFieldFits).
- ElementReader.GetElements: allocations fail only for a negative number of actions; when a read waits for bytes that never come, what it has taken of them is not modelled.
- ElementSwap.SwapElement: elements of known types lie wholly in the buffer, which the code does not check; counts are below 2^31, beyond which they are negative.
- Playback.WriteElement: `max_request_size` exceeds the 16-byte header, else the loop makes no progress; no status is asked for, so no round trips are made.
- Playback.SoundData.HandleEvents: what the handler does besides writing (callbacks, restarting, releasing the flow) is not modelled.
- WorkQueue.Queue.ProcessWorkQueue: a procedure that scans the queue itself is not modelled.
- ErrorDatabase.Database.GetResource: an interior node's text, uninitialised in the code, is unset.
- ErrorDatabase.Database.Load: reading the file and cutting lines with `strtok` are not modelled; lines without name or text have no effect.
- Locks: `_AuEventsQueued` returns early at lib/audio/Alibint.c:478 with a lock held, so no lock discipline is claimed.
- Allocation is taken to succeed, but for the negative sizes of ElementReader.
- Wave.OpenFileForReading: chunks other than samples that are cut off, and negative sizes (for which the code can loop), are not modelled.
- Wave.WaveWriter.Write: files stay below 0x70000000 bytes, as sizes are read back as signed numbers; a full disk is not modelled.
- BucketCache.Cache.Free: giving memory back is not modelled.
- AIFF, 8SVX and VOC files are not modelled.
- The attribute getters, connection setup, authorisation and operating system plumbing are not modelled.
- Parameters.SwapParameters: the walk stays inside the request, which the code does not check; the request's own header is not repeated from Translation.
- ForeignFlow.KeepElements: the checks of actions, the default actions and the compilation of the flow are not modelled.

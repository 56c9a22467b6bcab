# Relay data service: a verified model

The service connects to protective relays over telnet, collects event records and
GOOSE data from them, and serves them to WebSocket clients. This project models the
parts where a mistake loses, duplicates or reorders data, and proves what those parts
promise.

| module | models | main results |
|---|---|---|
| `BroadcastLog` | what a broadcast queue is to its clients | the specification both rings are held to |
| `RawRing`, `RawRingRuns` | the in-memory message ring | stream conservation; a reader cannot be affected by another; the exact cursor after pushes; no loss for a reader that keeps up; deliveries at strictly increasing positions |
| `RingLayout`, `RingDrops`, `RingCounts`, `SharedRing`, `SharedRingRuns` | the shared-memory byte ring | the drop loop ends whatever the bytes; for any write and any reader in step, which messages it loses and exactly whether it stays in step; how many drops are counted; an exactly-once queue over any number of wraps for frames of one size; any sizes within one lap; what is left to read after a wrapping write, with rings on which messages are dropped, overwritten, lost, repeated and hidden |
| `Ber`, `SerCodec`, `SerWire`, `SerPayload`, `BerReaders` | the two BER readers and the record codec | recognition of exactly the grammar; round trip with tolerance; what the encoder puts on the wire, as the C reader finds it; exactly when a decode keeps every element inside its parent; exactly when the readers agree |
| `BerForest`, `Goose`, `GooseTrees`, `GoosePdu`, `GooseFields` | the GOOSE walker | the array it fills is the pre-order listing of the forest; success of a whole PDU if and only if its fields fit and its data are forests that fit; slots, spans and parents of all entries of a PDU on arbitrary octets; the twelve named fields of a standard PDU; find then parse |
| `WsSession`, `WsRuns` | a WebSocket session | exactly which runs lose the one read token, and when a pending read survives a failed write; which frames are asked for; serialised writes in strand order up to the first failed write; what each write carries; the read resumes within a bound |
| `ConnectionFsm`, `Reception`, `PipelineRuns` | the relay worker and its pipeline | bounded login retries; exactly how many rejections lead to Error; how a command ends, told from its attempts; exactly how many good events reach Operational; command order from the queue to the ring and to the consumer |
| `TarCache`, `TarRuns`, `TarText` | the TAR batch cache | mutual exclusion of collectors, and exactly when the flag means one; a cached batch is numbered and final, and exactly when it is complete; what every round caches and when collecting goes on; its text determines its rows and is JSON |
| `WsdbJson`, `WsdbLookup`, `JsonText`, `Strings` | the JSON text helpers | an exact lookup theorem for rendered objects of strings and bare values; what is escaped reads back by RFC 8259 |

## How the model is built

Objects that the program updates in place are classes with those fields. Each of their
methods is proved to perform one step of a machine on plain values, and the theorems
about whole runs are about that machine; `Execute`-style methods close the gap by
driving the real object through an arbitrary list of operations. A body that runs under
a mutex, or as one handler on a strand, is one atomic step. The network, the relay, the
clock, the database and the stop flags are parameters: whatever they answer, the
theorems hold. An element of a C buffer is an offset into one octet sequence, with a
limit where the program passes a length.

`size_t` arithmetic is unbounded except where the width decides the result: the length
accumulator of the record decoder wraps at 64 bits, tag numbers of the C reader at 32.

## Where code and documentation disagree

The model follows the code.

- The shared ring promises that every registered reader sees every message
  (`shared_memory/shared_ring_buffer.hpp:12-36`). `SharedRing.SharedRingBuffer.Write`
  says exactly which writes keep all unread messages in place. `SharedRingRuns.TailSkip`
  and `SharedRingRuns.FullLooksEmpty` are the failures: a write that wraps leaves no mark
  in the tail it skips, and a completely full ring looks empty. A write that wraps onto a
  reader at 0 takes it for caught up, and overwrites what it had not read without counting
  a drop. `LosesMessage`, `RepeatsMessage`, `HidesMessages` and `OverwritesMessage` are
  small rings on which they happen.
- `goose_find_pdu` never reports a malformed buffer (`asn/goose_parser.h:181-182`): it
  goes on scanning.
- `*p_mms_count` comes back as the capacity that is left, not as the number used
  (`asn/goose_parser.h:204`).
- The record decoder checks a child against the end of the buffer, not of its parent.
  `SerPayload.ContainedIff` says exactly when its elements do stay inside their parents,
  and `SerPayload.ChildLeavesParent` is an input where one does not. It also accepts length
  fields of more than 8 octets, of which it keeps the last 8; the C reader rejects them
  (`BerReaders.ReadersAgree`).
- The connection state Error is described as terminal (`telnet_fsm.hpp:871`), but leaves
  on a disconnect event, which the driver sends.
- `getString` is documented as finding top-level keys only (`websocket API/wsdb_json.hpp:81`).
  It finds the quoted key anywhere in the text, values included;
  `WsdbLookup.LookupIs` says what it answers then.
- `escape` writes backspace and form feed as `\b` and `\f`, which `getString` reads back as
  letters (`WsdbJson.LossyIff`).
- A session with a handler but no session manager stops reading after the first such
  request (`WsRuns.TokenIff`, `WsRuns.NoManagerLosesToken`).
- The in-progress flag is meant to gate concurrent collectors of one relay
  (`telnet_sml_app.cpp:353-354`). An exception in a request thread leaves it up, and the
  relay's data is then never collected again (`TarCache.StuckForGood`).
- An aborted collection caches the rows it has as if they were all
  (`TarCache.AbortCachesPart`; `TarCache.CompleteIff` says when they are).

## Model

| member | source | states |
|---|---|---|
| `RawRing.RawDataRingBuffer.constructor` | raw_data_ring_buffer.hpp:148-151 | a new ring is the empty log, with eight free slots and nothing dropped |
| `RawRing.RawDataRingBuffer.RegisterReader` | raw_data_ring_buffer.hpp:164-178 | the first free slot is handed out with its cursor at the end of the stream, or none if all eight are taken; nothing else changes |
| `RawRing.RawDataRingBuffer.UnregisterReader` | raw_data_ring_buffer.hpp:186-193 | only that slot is given up; the trim that follows is invisible in the log and leaves no message every active reader has consumed; an id out of range does nothing |
| `RawRing.RawDataRingBuffer.Push` | raw_data_ring_buffer.hpp:209-235 | the message is appended; at most one message is dropped, exactly when the ring is full; lagging readers are moved up to the oldest message kept; the counters account for it |
| `RawRing.RawDataRingBuffer.AdvanceStale` | raw_data_ring_buffer.hpp:219-223 | exactly the active readers still at the oldest message step past it |
| `RawRing.RawDataRingBuffer.WaitPop` | raw_data_ring_buffer.hpp:251-278 | past its wait: nothing if stopped, else the message at the reader's own cursor, which advances by one; all other readers are untouched |
| `RawRing.RawDataRingBuffer.TryPop` | raw_data_ring_buffer.hpp:287-305 | the same without the stop flag |
| `RawRing.RawDataRingBuffer.Clear` | raw_data_ring_buffer.hpp:343-353 | the queue is emptied, every active reader is at the end of the stream, and the messages removed are counted |
| `RawRing.RawDataRingBuffer.TrimConsumed` | raw_data_ring_buffer.hpp:426-450 | trimming is invisible to every reader and afterwards some active reader is at the oldest message kept, or none is kept |
| `RawRingRuns.Execute` | raw_data_ring_buffer.hpp:131-460 | any interleaving of calls on the real ring delivers what the log says; base_index_ + queue size = total_writes_, size <= max_size, and total = queued + dropped + trimmed + cleared |
| `RawRingRuns.RunWellFormed` | raw_data_ring_buffer.hpp:411-457 | in every run active cursors lie within the stream, the history only grows, and no reader is ever more than max_size messages behind |
| `RawRingRuns.IsolationStep` | raw_data_ring_buffer.hpp:209-305 | one call changes a reader's state as that reader's private specification computes from what it can notice of the call |
| `RawRingRuns.Isolation` | raw_data_ring_buffer.hpp:164-305 | reader isolation: in every interleaving what a reader receives, how much since it registered, and its cursor are computed by a private specification from the pushes, the clears and its own calls alone |
| `RawRingRuns.NonInterference` | raw_data_ring_buffer.hpp:164-305 | two runs that look alike to a reader deliver it the same messages, whatever the other readers do in either |
| `RawRingRuns.CursorExact` | raw_data_ring_buffer.hpp:209-235 | with no call of its own a reader that is at most max_size behind has its cursor exactly at max(old cursor, history length - max_size) |
| `RawRingRuns.CursorInEveryRun` | raw_data_ring_buffer.hpp:209-235 | so after every run from an empty ring: whatever the other readers do, the cursor is exactly max(old cursor, history length - max_size) |
| `RawRingRuns.DeliveriesIncrease` | raw_data_ring_buffer.hpp:251-305 | messages are delivered from strictly increasing stream positions, across drops, clears and reuse of the slot |
| `RawRingRuns.NoLoss` | raw_data_ring_buffer.hpp:209-305 | a reader with room at every push gets, with what is still unread, exactly the messages pushed since it started |
| `RingLayout.FramePlaced` | shared_memory/shared_ring_buffer.hpp:261-262 | length prefix and payload written one after the other are the frame, and touch nothing outside it |
| `RingLayout.SkipShrinks` | shared_memory/shared_ring_buffer.hpp:657-696 | whatever the bytes, dropping for a write that fits before the end brings the dropped reader strictly closer to the writer |
| `RingLayout.AdvanceShrinks` | shared_memory/shared_ring_buffer.hpp:647-697 | one drop strictly lowers the sum over active readers of their unread bytes: the drop loop ends |
| `RingLayout.AdvanceSkips` | shared_memory/shared_ring_buffer.hpp:687-695 | dropping for the slowest reader moves every reader only along its own path of frames |
| `RingLayout.SkippedDone` | shared_memory/shared_ring_buffer.hpp:248-259 | when the loop is done each reader is where skipping for itself alone would have put it |
| `RingLayout.SkippedAvoidsFrame` | shared_memory/shared_ring_buffer.hpp:245-262 | whatever the bytes, no active reader ends strictly inside the frame just written |
| `RingLayout.InsideAfterWrite` | shared_memory/shared_ring_buffer.hpp:236-270 | a clean write misses every unread frame and keeps it between reader and writer |
| `RingLayout.CleanLater` | shared_memory/shared_ring_buffer.hpp:236-270 | a write that is clean for a reader stays clean for it at every later unread frame |
| `RingLayout.CleanAllAlong` | shared_memory/shared_ring_buffer.hpp:236-270 | the same along the whole unread part of the history |
| `RingLayout.ReadableAfterWrite` | shared_memory/shared_ring_buffer.hpp:227-276 | after a clean write a reader can still read every unread frame and the new one |
| `RingLayout.ImplementsAfterWrite` | shared_memory/shared_ring_buffer.hpp:227-276 | a clean write takes bytes that implement a log to bytes that implement the log with the message appended |
| `RingLayout.CleanWrite` | shared_memory/shared_ring_buffer.hpp:227-276 | a clean write drops nothing and keeps the layout; conversely a write for which no drop was needed and which keeps the layout was clean |
| `RingLayout.OnlyClean` | shared_memory/shared_ring_buffer.hpp:236-273 | a write that drops nothing and keeps the layout fits before the end of the buffer and leaves no reader looking caught up |
| `RingLayout.NextFrame` | shared_memory/shared_ring_buffer.hpp:312-347 | at a reader with unread messages the bytes hold the next message with its right length, and the frame after it follows |
| `RingLayout.ScanSound` | shared_memory/shared_ring_buffer.hpp:312-357 | whatever the bytes, a read returns a complete length-prefixed message inside the buffer or else catches up with the writer; positions stay below capacity |
| `RingLayout.ReadKeepsLog` | shared_memory/shared_ring_buffer.hpp:312-357 | a read by a reader in step is Take: the next unread message, and it stays in step; no other reader is affected |
| `RingDrops.SkipAlong` | shared_memory/shared_ring_buffer.hpp:647-697 | dropping moves a reader in step from message to message, to the first before which the write has room |
| `RingDrops.StraightWrite` | shared_memory/shared_ring_buffer.hpp:245-273 | a write that skips no tail: a reader moved up to that message can read it, every later one and the new one, exactly unless it stands at the new write position |
| `RingDrops.WriteInStep` | shared_memory/shared_ring_buffer.hpp:227-276 | any write, for one reader in step: which messages it loses, and that it stays in step exactly if it does not end at the new write position and, where a tail was skipped, stands where the new message is |
| `RingDrops.WriteKeepsStep` | shared_memory/shared_ring_buffer.hpp:227-276 | the same for all readers at once, each by itself |
| `RingDrops.StillThere` | shared_memory/shared_ring_buffer.hpp:312-357 | messages past the octets just written are still read, in order |
| `RingDrops.WrappedGets` | shared_memory/shared_ring_buffer.hpp:239-273 | a write that skips the tail, for a reader in step not left at 0: it gets the messages from the first that fits up to the first overwritten one; then it meets the tail, or finds the new message at 0 and takes it for all there is, or is told there is nothing; what lies between is lost |
| `RingDrops.TailScan` | shared_memory/shared_ring_buffer.hpp:312-357 | what a reader at a skipped tail reads, by the stale octets there |
| `RingDrops.CleanCursors` | shared_memory/shared_ring_buffer.hpp:236-270 | a clean write loses nobody anything |
| `RingCounts.AdvanceCounts` | shared_memory/shared_ring_buffer.hpp:647-697 | one drop takes exactly the oldest position off the set of positions still to be dropped |
| `RingCounts.FitsPassesNone` | shared_memory/shared_ring_buffer.hpp:245-259 | nothing is left to drop exactly if there is room |
| `RingCounts.PassedAlong` | shared_memory/shared_ring_buffer.hpp:647-697 | for a reader in step the positions dropped are where the unread messages before the first that fits start, and what lies behind the last if none fits |
| `RingCounts.PlacesCount` | shared_memory/shared_ring_buffer.hpp:261-273 | unread messages start at different places |
| `RingCounts.LoneDrops` | shared_memory/shared_ring_buffer.hpp:248-259 | with one reader, in step and left with room, each message it loses is one drop |
| `SharedRing.SharedRingBuffer.constructor` | shared_memory/shared_ring_buffer.hpp:494-505 | a fresh ring of more than 4 bytes implements the empty log |
| `SharedRing.SharedRingBuffer.RegisterReader` | shared_memory/shared_ring_buffer.hpp:161-175 | the first free slot is handed out at the write position: the reader is in step and sees exactly what is written afterwards, whatever became of the others |
| `SharedRing.SharedRingBuffer.UnregisterReader` | shared_memory/shared_ring_buffer.hpp:183-189 | only that slot is given up; who was in step stays so |
| `SharedRing.SharedRingBuffer.EffectiveReadPos` | shared_memory/shared_ring_buffer.hpp:584-608 | the result has at least as many unread bytes as any active reader, and is the writer or the position of one |
| `SharedRing.SharedRingBuffer.SlowestReaderIndex` | shared_memory/shared_ring_buffer.hpp:617-635 | the result is an active reader with the most unread bytes, or kMaxReaders exactly if none is active |
| `SharedRing.SharedRingBuffer.DropOldestForSlowest` | shared_memory/shared_ring_buffer.hpp:647-697 | succeeds exactly if some active reader has unread bytes; then all readers at the oldest position, and only they, move past its message, or to the writer if its length is implausible |
| `SharedRing.SharedRingBuffer.MoveReadersAt` | shared_memory/shared_ring_buffer.hpp:669-695 | exactly the active readers at the given position are moved |
| `SharedRing.SharedRingBuffer.ReadLength` | shared_memory/shared_ring_buffer.hpp:708-716 | the little-endian value of the four bytes |
| `SharedRing.SharedRingBuffer.WriteLength` | shared_memory/shared_ring_buffer.hpp:728-734 | the four bytes become the little-endian form; no other byte changes |
| `SharedRing.SharedRingBuffer.FreeBytes` | shared_memory/shared_ring_buffer.hpp:245-258 | there is room exactly if the frame fits clear of every active reader |
| `SharedRing.SharedRingBuffer.DropForRoom` | shared_memory/shared_ring_buffer.hpp:250-258 | while there is no room a drop succeeds, lowers the sum of unread bytes, and leaves one position less to drop |
| `SharedRing.SharedRingBuffer.MakeRoom` | shared_memory/shared_ring_buffer.hpp:245-259 | the drop loop ends with room for any bytes in the buffer; drop_count grows by one for each distinct oldest position dropped, however many readers stand there; overwrite_flag is raised exactly if any was |
| `SharedRing.SharedRingBuffer.PlaceFrame` | shared_memory/shared_ring_buffer.hpp:261-262 | the frame stands at its place and no other byte changes |
| `SharedRing.SharedRingBuffer.StepsKept` | shared_memory/shared_ring_buffer.hpp:245-273 | what a write did to the readers, from the ring before it |
| `SharedRing.SharedRingBuffer.Write` | shared_memory/shared_ring_buffer.hpp:227-276 | true exactly for 0 < len <= capacity - 4, and then for any bytes in the buffer: the frame, the new write position, where every reader ends, and one counted drop for each distinct position dropped. A reader in step loses exactly the messages up to the first that fits (all, if the write wrapped onto it), and stays in step exactly if no tail was skipped in front of it and it does not end at the new write position. A clean write loses nothing, and only a clean write keeps the layout without losing anything |
| `SharedRing.SharedRingBuffer.WaitRead` | shared_memory/shared_ring_buffer.hpp:293-358 | past its wait: the message and positions that the bytes give; for a reader in step, its next unread message, whatever became of the others |
| `SharedRingRuns.ExecuteUniform` | shared_memory/shared_ring_buffer.hpp:227-358 | frames of one size s in k*s bytes, every active reader fewer than k-1 behind at each write: an exactly-once broadcast queue over any number of wraps, with no drop |
| `SharedRingRuns.UniformWriteIsClean` | shared_memory/shared_ring_buffer.hpp:236-270 | in that regime every write is clean |
| `SharedRingRuns.UsedUniform` | shared_memory/shared_ring_buffer.hpp:555-560 | the unread bytes of a reader m frames behind are m*s, however often the ring has wrapped |
| `SharedRingRuns.FullLooksEmpty` | shared_memory/shared_ring_buffer.hpp:304-316 | the bound is exact: written to with a reader k-1 behind, the ring has k unread messages for it and reports none |
| `SharedRingRuns.ExecuteLap` | shared_memory/shared_ring_buffer.hpp:227-358 | any sizes: while the framed bytes stay within capacity - 4, every reader gets exactly the payloads written after it registered, in order, byte for byte, with no drop |
| `SharedRingRuns.TailSkip` | shared_memory/shared_ring_buffer.hpp:239-242 | a wrapping write leaves no mark in the tail.  Exactly what a reader waiting there gets, with no drop counted: nothing, if the stale length there is implausible or the new frame ends where the reader stands; the old message again, if a complete one still lies there; the new message, if the stale length points past the end |
| `SharedRingRuns.LosesMessage` | shared_memory/shared_ring_buffer.hpp:239-242 | such a ring: of two messages written and read one by one the second is lost |
| `SharedRingRuns.RepeatsMessage` | shared_memory/shared_ring_buffer.hpp:312-347 | such a ring: the fourth read returns the second message again and the fourth message is lost |
| `SharedRingRuns.HidesMessages` | shared_memory/shared_ring_buffer.hpp:304-316 | a completely full ring: two unread messages, and the reader is told there are none |
| `SharedRingRuns.OverwritesMessage` | shared_memory/shared_ring_buffer.hpp:239-258 | a wrapping write onto a reader at 0: the unread message is overwritten, with no drop counted, and the reader gets the new one |
| `SharedRingRuns.DropsMessage` | shared_memory/shared_ring_buffer.hpp:248-259 | backpressure as promised: the oldest unread message is dropped, one drop is counted, and the reader gets the new one |
| `SharedRingRuns.WriteAndRead` | shared_memory/shared_ring_buffer.hpp:227-358 | a lone reader that has read everything gets the next message that fits before the end, byte for byte |
| `SharedRingRuns.RunWellFormed` | shared_memory/shared_ring_buffer.hpp:161-358 | in every run of the log cursors stay within the history |
| `Bytes.Le32RoundTrip` | shared_memory/shared_ring_buffer.hpp:708-734 | readLength inverts writeLength for every 32-bit length |
| `Bytes.LeastFirst` | shared_memory/shared_ring_buffer.hpp:708-734 | the first octet of a length prefix is the least significant |
| `BroadcastLog.FirstFreeIs` | raw_data_ring_buffer.hpp:167-176 | the slot handed out is the first one that is not active |
| `Ber.HighNumberSound` | asn/asn1_ber.c:44-65 | what the high-tag loop accepts is one to five identifier octets in high-tag form, read as a 32-bit number |
| `Ber.HighNumberComplete` | asn/asn1_ber.c:44-65 | and it accepts all of those |
| `Ber.ReadTagIff` | asn/asn1_ber.c:8-66 | ber_read_tag reports a tag exactly if valid identifier octets stand there within the window (X.690 section 8.1.2) |
| `Ber.ReadLengthIff` | asn/asn1_ber.c:69-123 | ber_read_length reports a length exactly if definite length octets of at most 8 follow (X.690 sections 8.1.3.4 and 8.1.3.5) |
| `Ber.NextTlvIff` | asn/asn1_ber.c:126-165 | ber_next_tlv succeeds exactly on the elements of the grammar that fit the window, and reports their parts |
| `Ber.Locality` | asn/asn1_ber.c:126-165 | the result depends only on the octets of the element read, wherever they stand and whatever follows |
| `Ber.TagMeans` | asn/asn1_ber.c:27-41 | whatever either reader reports, by the first octet alone: Universal, Application, Context or Private exactly below 0x40, 0x80, 0xC0 and from there; constructed exactly by bit 6; the number its low five bits unless all are set (X.690 section 8.1.2) |
| `Ber.HighNumberMeans` | asn/asn1_ber.c:44-61 | a high-form tag number is the base-128 value of its subsequent octets, in 32 bits |
| `Ber.BerReadTag` | asn/asn1_ber.c:8-66 | the tag and the offset after it, with the class, form and number X.690 gives the first octet, or failure with the offset unchanged |
| `Ber.ReadHighTag` | asn/asn1_ber.c:44-65 | the high-tag loop: at most five octets, base 128, 32 bits |
| `Ber.BerReadLength` | asn/asn1_ber.c:69-123 | the length and the offset after it, or failure with the offset unchanged |
| `Ber.BerNextTlv` | asn/asn1_ber.c:126-165 | the element of the grammar at the offset, its tag as X.690 has it by the first octet, and the offset after it |
| `SerCodec.DigitsSound` | asn_tlv_codec.hpp:226-241 | the long-form octets spell the length, and no more of them are used than it needs |
| `SerCodec.LengthFieldValid` | asn_tlv_codec.hpp:218-242 | every length field written is valid definite length octets for that length |
| `SerCodec.BerAppendLength` | asn_tlv_codec.hpp:218-242 | appends the length field, short form below 128 |
| `SerCodec.CollectDigits` | asn_tlv_codec.hpp:226-234 | the first loop leaves the base-256 digits in reverse |
| `SerCodec.AppendReversed` | asn_tlv_codec.hpp:236-241 | the second loop appends them most significant first |
| `SerCodec.BerAppendTlv` | asn_tlv_codec.hpp:252-260 | appends tag, length field and value |
| `SerCodec.NoWrap` | asn_tlv_codec.hpp:154-158 | up to 8 octets the 64-bit accumulator does not wrap |
| `SerCodec.ReadLength` | asn_tlv_codec.hpp:128-163 | length and next offset, or which of the two errors |
| `SerCodec.ReadTlv` | asn_tlv_codec.hpp:179-208 | tag, constructed flag, value span and next offset, all inside the buffer, or which error |
| `SerCodec.LengthReadsBack` | asn_tlv_codec.hpp:128-163 | readLength inverts berAppendLength wherever the field stands |
| `SerCodec.TlvReadsBack` | asn_tlv_codec.hpp:179-260 | readTlv inverts berAppendTlv wherever the element stands |
| `SerCodec.DecodeRecordFields` | asn_tlv_codec.hpp:377-403 | the field loop: each field is set by its tag, unknown tags are skipped, the first unreadable element is the error |
| `SerCodec.DecodeRecords` | asn_tlv_codec.hpp:362-409 | the record loop: records in order, other tags skipped; on an error the records read so far stay |
| `SerCodec.DecodeSerRecordsFromTlv` | asn_tlv_codec.hpp:339-410 | the decoder as a whole, with the error for an empty buffer and for a wrong outer tag |
| `SerCodec.FieldsReadBack` | asn_tlv_codec.hpp:381-403 | any run of appended fields, repeated and foreign tags included, decodes to the record they mean |
| `SerCodec.ItemsReadBack` | asn_tlv_codec.hpp:365-407 | any run of records and foreign elements decodes to the records in order |
| `SerCodec.TolerantRoundTrip` | asn_tlv_codec.hpp:339-410 | any 0x61 payload of records and foreign elements, with foreign fields inside records and any trailing bytes, decodes to exactly the records in order |
| `SerCodec.ForeignFieldsIgnored` | asn_tlv_codec.hpp:389-402 | fields of tags outside 0x80-0x85, wherever they stand, change nothing |
| `SerCodec.FieldsMeanRecord` | asn_tlv_codec.hpp:305-311 | the six fields written for a record mean that record |
| `SerCodec.RecordsOfItems` | asn_tlv_codec.hpp:303-316 | the elements written for the records mean those records, in order |
| `SerCodec.RoundTrip` | asn_tlv_codec.hpp:298-410 | decode(encode(records)) = records |
| `SerCodec.CarriedDecode` | asn_tlv_codec.hpp:339-410 | the codec promise in one piece: a payload whose record elements carry the records, with foreign fields anywhere inside them, foreign elements between them and any octets after it, decodes to exactly those records in order |
| `SerCodec.FailureKeeps` | asn_tlv_codec.hpp:365-409 | a payload that goes wrong after some items fails with the error of that element, or of the field inside it, and leaves exactly the records before it |
| `SerCodec.EnvelopeErrors` | asn_tlv_codec.hpp:342-360 | the error for an empty buffer exactly on no octets, the one for a wrong tag exactly on a whole element not tagged 0x61; no other failure is reported as either |
| `SerCodec.TlvErrors` | asn_tlv_codec.hpp:179-208 | which error an unreadable element gives, by what is there of it |
| `SerWire.FieldElements` | asn_tlv_codec.hpp:305-310 | fields appended one after the other are found by the C reader one after the other, with the tags and values given |
| `SerWire.RecordElements` | asn_tlv_codec.hpp:303-316 | each record is found as a SEQUENCE of exactly its six fields, context-specific primitive 0 to 5 in this order: record id, timestamp, status, description, relay id, relay name |
| `SerWire.EncodedOnWire` | asn_tlv_codec.hpp:298-321 | what the encoder puts on the wire, as ber_next_tlv reads it: one constructed APPLICATION 1 element, in it exactly one such SEQUENCE for each record, in order |
| `SerCodec.EncodeSerRecordsToTlv` | asn_tlv_codec.hpp:298-321 | the payload is the encoding, and decodes to the records |
| `SerCodec.RecordValue` | asn_tlv_codec.hpp:305-311 | the six fields of one record in tag order |
| `SerCodec.BerAppendString` | asn_tlv_codec.hpp:269-272 | appends one string field |
| `SerPayload.SpellsLengthOctets` | asn_tlv_codec.hpp:138-162 | valid definite length octets are read as the length they mean |
| `SerPayload.LeafReads` | asn_tlv_codec.hpp:179-208 | an element with any length octets the decoder understands reads back |
| `SerPayload.LeafRead` | asn_tlv_codec.hpp:179-208 | whatever readTlv accepts is such an element |
| `SerPayload.RunAtIff` | asn_tlv_codec.hpp:365-403 | a window is read as a run of elements exactly if it is the concatenation of those elements; no window is two runs |
| `SerPayload.FieldsStayIff` | asn_tlv_codec.hpp:381-403 | the field loop succeeds with every field inside its record exactly if the record value is an exact run of elements; the record is then the one the run means |
| `SerPayload.RecordsStayIff` | asn_tlv_codec.hpp:365-407 | the record loop succeeds with every element inside its parent exactly if the payload value is an exact run whose 0x30 values are exact runs |
| `SerPayload.ContainedIff` | asn_tlv_codec.hpp:339-410 | a decode succeeds with every element inside its parent exactly if the octets start with a 0x61 element, with any length octets the decoder understands, whose value is an exact run of elements in which every 0x30 value is again an exact run; the records are then those of the runs, whatever follows |
| `SerPayload.ChildLeavesParent` | asn_tlv_codec.hpp:368-387 | the condition can fail: an input that decodes although a field lies past the end of its record and of the payload |
| `BerReaders.LengthsAgree` | asn/asn1_ber.c:69-123 | on length fields of at most 8 octets the two length readers agree |
| `BerReaders.LastEightCount` | asn_tlv_codec.hpp:154-158 | a length of 8 octets or more is to the 64-bit accumulator the value of its last 8 |
| `BerReaders.ReadersAgree` | asn_tlv_codec.hpp:179-208 | on low-tag elements readTlv and ber_next_tlv both fail, or both report the same tag, constructed flag, value span and next offset, exactly if the length field has at most 8 octets, or is not all there, or its last 8 spell a length that does not fit |
| `BerReaders.LongCountDisagreement` | asn_tlv_codec.hpp:146-158 | an element the C++ reader accepts and the C reader rejects |
| `BerReaders.BothInvertAppend` | asn_tlv_codec.hpp:252-260 | both readers invert berAppendTlv for low-form tags wherever the element stands |
| `BerForest.ElementReads` | asn/asn1_ber.c:126-165 | ber_next_tlv on an encoded element reports its header, length and value |
| `BerForest.DecodeEncoded` | asn/goose_parser.c:112-178 | a well-formed forest decodes to itself wherever it stands |
| `BerForest.EncodeDecoded` | asn/goose_parser.c:112-178 | whatever decodes is well formed and encodes back to the octets read |
| `BerForest.ForestAtIff` | asn/goose_parser.c:112-178 | octets decode to a forest exactly if they are the encoding of that well-formed forest |
| `Goose.ParseStep` | asn/goose_parser.c:118-175 | one turn of the element loop, from the entries stored so far |
| `Goose.ParseMmsSequence` | asn/goose_parser.c:112-178 | the slots are filled from the top down with the entries of the walk, none below is touched, and the remaining capacity and status come back |
| `Goose.ParseElement` | asn/goose_parser.c:134-169 | one element takes the highest free slot; its children, if constructed, follow below it with that slot as parent |
| `GooseTrees.Flattening` | asn/goose_parser.c:112-178 | for every well-formed forest the result is its pre-order listing (own slot, parent slot or -1, tree depth); with too little capacity TOO_MANY_MMS after filling every slot with the first nodes |
| `GooseTrees.ElementFlattens` | asn/goose_parser.c:124-169 | the same for one element and its children |
| `GooseTrees.ListingSize` | asn/goose_parser.c:134-155 | the listing has one entry for each node of the forest |
| `GooseTrees.OkMeansForest` | asn/goose_parser.c:124-175 | success implies that the octets are a forest |
| `GooseTrees.MmsOkIff` | asn/goose_parser.c:112-178 | OK exactly if the octets are a forest of at most capacity nodes; then the entries are its listing |
| `GooseTrees.EntriesAnchored` | asn/goose_parser.c:142-169 | on arbitrary octets, however the parse ends, every entry names its own slot and is a top entry in the window or lies inside the value of its parent, one level deeper |
| `GooseTrees.EntriesInside` | asn/goose_parser.c:142-169 | so every entry, at whatever depth, lies in the window of the sequence |
| `GooseTrees.MmsErrors` | asn/goose_parser.c:112-178 | with slots to spare, OK exactly on a forest and a BER error on anything else |
| `Goose.EntriesTyped` | asn/goose_parser.c:49-69 | whatever the octets, each entry has the type its tag octet has in a literal table of the thirteen |
| `GoosePdu.GooseParsePdu` | asn/goose_parser.c:264-365 | status, field count and remaining MMS capacity, the fields stored upwards and the entries downwards, all other slots untouched; on arbitrary octets, however it ends, every slot filled names itself, lies in the value of a recorded allData field, and is a top entry or has its parent, one level up and around it, in the slot it names |
| `GoosePdu.ParseInner` | asn/goose_parser.c:296-364 | the window loop over the envelope value |
| `GoosePdu.StoreField` | asn/goose_parser.c:330-357 | one field is stored, and an allData value walked into the MMS array |
| `GoosePdu.FieldStep` | asn/goose_parser.c:299-358 | one turn of the field loop: stop at the first octets that are no element, report a full field array, or go on |
| `GoosePdu.ChainMaximal` | asn/goose_parser.c:314-323 | the elements recorded are adjacent, so disjoint, in order, inside the envelope, and no element follows the last |
| `GoosePdu.MmsOfOkIff` | asn/goose_parser.c:346-357 | an allData value is accepted exactly if it is a forest that fits; the capacity consumed is its node count |
| `GoosePdu.FieldsOkIff` | asn/goose_parser.c:299-364 | OK exactly if the longest run of elements fits the field array and every allData in it is a forest, all fitting the MMS array; the fields are then that run, and MMS capacity consumed is the node count over all allData fields |
| `GoosePdu.FieldsFlatten` | asn/goose_parser.c:299-364 | where the fields fit and every allData is a forest, the entries are the pre-order listings of all of them one after the other, slots running on; short of MMS capacity, TOO_MANY_MMS after its first entries |
| `GoosePdu.FieldsRooted` | asn/goose_parser.c:299-364 | on arbitrary octets, over all allData fields, entry k is in slot capacity - 1 - k and lies in the value of one recorded allData field, as a top entry or as a child of an earlier entry of that same field |
| `GoosePdu.PduRooted` | asn/goose_parser.c:264-365 | the same for the whole PDU |
| `GoosePdu.PduOkIff` | asn/goose_parser.c:264-365 | goose_parse_pdu returns OK exactly on a constructed APPLICATION 1 element whose longest run of elements fits the field array, each allData of which is a forest, all nodes fitting the MMS array; fields and entries are then that run and the listings of its allData |
| `GoosePdu.SlotsRooted` | asn/goose_parser.c:142-160 | entries rooted in their fields, as the caller finds them in the array |
| `GoosePdu.GooseFindPdu` | asn/goose_parser.c:223-262 | the first offset it scans that starts a complete constructed APPLICATION 1 element, with its length; NOT_GOOSE exactly if there is none |
| `GoosePdu.FindThenParse` | asn/goose_parser.c:223-294 | parsing exactly the span found never rejects the envelope |
| `GoosePdu.FieldsNeverNotGoose` | asn/goose_parser.c:296-364 | no field or MMS failure is reported as NOT_GOOSE |
| `GoosePdu.TooManyFieldsIff` | asn/goose_parser.c:325-328 | TOO_MANY_FIELDS exactly if there is an element beyond the field array and the data in the fields before it are forests that fit |
| `GoosePdu.EnvelopeErrors` | asn/goose_parser.c:283-294 | NOT_GOOSE exactly on a whole element that is no constructed APPLICATION 1, a BER error on no element, both with nothing recorded |
| `GoosePdu.EnvelopeIs` | asn/goose_parser.c:289-294 | the envelope by its octets: 0x61, or number 1 written in high-tag form after 0x7F |
| `GooseFields.RunPdu` | asn/goose_parser.c:264-365 | a 0x61 element around a run of elements of which only the last may be allData: each recorded in order, whatever becomes of the data |
| `GooseFields.NamedFields` | asn/goose_parser.c:9-47 | a PDU of elements 0x80 to 0x8A and 0xAB with any values: gocbRef, timeAllowedtoLive, datSet, goID, t, stNum, sqNum, test, confRev, ndsCom, numDatSetEntries and allData are recorded in this order with their value types and values |
| `GooseFields.FieldNamed` | asn/goose_parser.c:9-47 | of any element: a context-specific one numbered 0 to 11 has the name and type a literal list gives its number, any other has none |
| `GoosePdu.GooseDecodeUnsigned` | asn/goose_parser.c:367-384 | the big-endian value of 1 to 8 octets, nothing otherwise |
| `WsSession.WebSocketSession.constructor` | ws_server.hpp:412-424 | a new session is idle, with nothing queued |
| `WsSession.WebSocketSession.AsyncWrite` | ws_server.hpp:539-541 | a write is started only when none is under way; the frame started is recorded |
| `WsSession.WebSocketSession.SendData` | ws_server.hpp:749-767 | queued behind the write under way, or else started at once with the snapshot, binary |
| `WsSession.WebSocketSession.DoBroadcast` | ws_server.hpp:526-542 | queued or started at once; the buffer and mode of a write under way are not touched |
| `WsSession.WebSocketSession.SendTextResponse` | ws_server.hpp:835-851 | the same for text frames, completing in on_write |
| `WsSession.WebSocketSession.BeginBinary` | ws_server.hpp:534-541 | a binary write of exactly these octets is started |
| `WsSession.WebSocketSession.BeginText` | ws_server.hpp:844-850 | a text write of exactly these octets is started |
| `WsSession.WebSocketSession.BeginAll` | ws_server.hpp:758-766 | a binary write of exactly the database contents is started |
| `WsSession.WebSocketSession.OnAccept` | ws_server.hpp:501-518 | an accepted session starts sending all records, as the database holds them then, with a read pending; a refused one does nothing |
| `WsSession.WebSocketSession.DrainQueue` | ws_server.hpp:566-600 | with no write under way the oldest queued frame is started with its own octets, a full send with the database as it is then; otherwise nothing is put on the wire |
| `WsSession.WebSocketSession.StartQueued` | ws_server.hpp:573-599 | the frame taken off the queue is started, alone, with its own octets or all records, completing in on_broadcast_write unless it is a full send |
| `WsSession.WebSocketSession.OnWriteDone` | ws_server.hpp:775-798 | success: the pending read is started, then the queue drained; failure: the queue is dropped; whatever goes on the wire carries its own octets or the database contents of that moment |
| `WsSession.WebSocketSession.OnBroadcastWriteDone` | ws_server.hpp:547-559 | success: the queue is drained; failure: it is dropped; the pending read is not started; what goes on the wire as in on_write |
| `WsSession.WebSocketSession.OnRead` | ws_server.hpp:631-741 | a refresh is answered with the database as it is then and reads later, a request hands the read to a handler thread, anything else reads on, an error ends reading |
| `WsSession.WebSocketSession.ActionFinished` | ws_server.hpp:686-690 | the response is sent, itself and no other octets, and reading goes on |
| `WsSession.WebSocketSession.CommandFinished` | ws_server.hpp:730-732 | reading goes on after a command handler; nothing goes on the wire |
| `WsRuns.StepSound` | ws_server.hpp:501-798 | every step keeps at most one holder of the read token, and frames queued only behind a write |
| `WsRuns.StepInOrder` | ws_server.hpp:501-798 | every step but a failed write keeps the frames in strand order and a pending read sure to be started |
| `WsRuns.SubmitInOrder` | ws_server.hpp:526-542 | a frame asked for is started or queued, in order |
| `WsRuns.DrainInOrder` | ws_server.hpp:566-600 | draining moves the oldest queued frame to the started ones and keeps a promised resume |
| `WsRuns.RunSound` | ws_server.hpp:501-851 | in every run: outstanding reads, handler threads owing one and pending_read_ never exceed one, and a non-empty queue implies a write under way |
| `WsRuns.RunInOrder` | ws_server.hpp:526-600 | up to the first failed write, whatever reads and handlers do, the frames started, then those queued, are exactly the sends in strand order, none lost or duplicated; a pending read has a completing on_write in flight or a SendAll queued |
| `WsRuns.StepToken` | ws_server.hpp:631-798 | a step of an accepted session gives up the read token exactly if it is a read error, a handler exception, or a request for a handler without a session manager; no step makes a second one |
| `WsRuns.TokenIff` | ws_server.hpp:631-798 | in every run of an accepted session the token count is 1, or 0 exactly if one of those events has happened |
| `WsRuns.ClassifyIs` | ws_server.hpp:663-740 | refresh and getData, and no other text, ask for a full send; of the rest a handler gets every text if there is a command handler, and otherwise the texts that start with a brace and contain a quoted action or type, if there is an action handler |
| `WsRuns.SendsAsked` | ws_server.hpp:501-851 | in every run the frames asked for are one full send for the acceptance and for each refresh, and every posted or answered frame, in the order of the events |
| `WsRuns.StartedAsked` | ws_server.hpp:526-600 | up to the first failed write the frames started, then those queued, are exactly these |
| `WsRuns.Execute` | ws_server.hpp:501-851 | any possible run on the real session object never overlaps two reads or two writes; the k-th write carries the k-th frame started: a binary or text frame its own octets, a full send the database contents of the event that started it, each in the mode of its kind |
| `WsRuns.StepCloser` | ws_server.hpp:775-798 | no step delays a pending read and each successful completion brings it one closer |
| `WsRuns.DistanceShrinks` | ws_server.hpp:775-798 | the same over whole runs |
| `WsRuns.ReadResumes` | ws_server.hpp:786-797 | a read that stays pending has seen at most queue length successful completions: it resumes within queue length + 1, up to the first failed write |
| `WsRuns.NoManagerLosesToken` | ws_server.hpp:683-692 | such a run: any message meant for a handler, in a session without a manager, loses the token with no error |
| `WsRuns.FailureStrands` | ws_server.hpp:775-787 | a failed write leaves a pending read with nothing under way or queued that would start it |
| `WsRuns.StrandedThroughout` | ws_server.hpp:526-600 | there it stays, in every run without a text frame posted while nothing is being written |
| `WsRuns.TextResumes` | ws_server.hpp:835-851 | and such a text frame, once written, starts it |
| `WsRuns.HandlerMessages` | ws_server.hpp:663-735 | there are such messages for an action handler and for a command handler, and none without a handler |
| `ConnectionFsm.RelayConnection.ProcessEvent` | telnet_fsm.hpp:892-936 | one event through the transition table with its guards and entry actions; events not listed lead to Error |
| `ConnectionFsm.AttemptsBounded` | telnet_fsm.hpp:277-300 | the retry counter never exceeds its maximum |
| `ConnectionFsm.AttemptsCountRetries` | telnet_fsm.hpp:900-922 | between settlements the counter counts the entries to LoginRetryWait |
| `ConnectionFsm.RetriesBounded` | telnet_fsm.hpp:892-936 | in every run at most max_retries entries to LoginRetryWait between successive entries to Operational or Error |
| `ConnectionFsm.RejectionLeads` | telnet_fsm.hpp:900-922 | between settlements a rejected login leads to LoginRetryWait if there were fewer than max_retries before it, else to Error: the (max_retries + 1)-th and no earlier one |
| `ConnectionFsm.LifeCycle` | telnet_fsm.hpp:892-936 | where each event leads from each state, by what the client showed; which entries ask the client anew; the retry counter is reset on Operational and Error and counts on LoginRetryWait |
| `ConnectionFsm.NeededIsExact` | relay_pipeline.hpp:130-180 | with good outcomes from now on the driver reaches Operational after exactly the events the state calls for, not earlier |
| `ConnectionFsm.FourEventsSuffice` | relay_pipeline.hpp:130-180 | from every state, Idle and Error included, four good events suffice |
| `ConnectionFsm.DriveReaches` | relay_pipeline.hpp:130-180 | after a bad spell of any length the driver is in Operational four good events later |
| `Reception.PipelineReceptionWorker.DriveToOperational` | relay_pipeline.hpp:130-180 | drives the state machine until Operational or stopped; true exactly in Operational, with the screen size set |
| `Reception.PipelineReceptionWorker.AttemptOnce` | relay_pipeline.hpp:337-370 | one attempt: not operational, crashed, answered, or failed with a reconnect if the connection was lost |
| `Reception.PipelineReceptionWorker.Attempts` | relay_pipeline.hpp:335-373 | the literal reading of the loop: at most three attempts, each after a failed one, ending with the first that is missing, not operational, throws or succeeds, and given up after three |
| `Reception.PipelineReceptionWorker.ExecuteCommand` | relay_pipeline.hpp:332-374 | one message, the command with the answer, goes to the ring if the command succeeds, none otherwise; how it ends is told from its attempts |
| `Reception.PipelineReceptionWorker.HandleUserCommand` | relay_pipeline.hpp:527-581 | the response of a successful user command, the empty one after a failure or a stop, or the exception; the ring and the queue are untouched; how it ends is told from its attempts |
| `Reception.ExecuteEndsSo` | relay_pipeline.hpp:335-373 | the retry loop ends as its attempts say, whatever they are |
| `Reception.EndingIff` | relay_pipeline.hpp:335-373 | success with a text exactly if one of the first three attempts is operational and answered with it and all before it were operational and answered without success; giving up exactly if three were; stopping and crashing exactly at the first attempt that is missing, not operational or throws |
| `Reception.ReconnectsAfterLoss` | relay_pipeline.hpp:364-369 | after a failed attempt the next finds a reconnecting machine if the connection was lost, else an operational one |
| `Reception.PipelineReceptionWorker.QueueCommand` | relay_pipeline.hpp:505-512 | appends to the command queue |
| `Reception.PipelineReceptionWorker.Work` | relay_pipeline.hpp:410-430 | takes the oldest queued command off the queue and executes it, whatever comes of it |
| `Reception.PipelineReceptionWorker.Kick` | relay_pipeline.hpp:401-408 | start_event the first time, disconnect_event after a crash |
| `Reception.RelayPipeline.Start` | relay_pipeline.hpp:1034-1073 | if not running: a fresh worker, a newly registered reader, and the three start-up commands, the third by the relay name |
| `Reception.RelayPipeline.Stop` | relay_pipeline.hpp:1078-1090 | the reader is given up and nothing else is lost from the ring |
| `Reception.RelayPipeline.ProcessOne` | relay_pipeline.hpp:923-949 | the processing worker takes the next message of its own cursor |
| `PipelineRuns.RunPipeline` | relay_pipeline.hpp:981-1117 | any run of starts, stops, queueing, work, user commands and processing on the real objects is a run of the model |
| `PipelineRuns.FollowOrdered` | relay_pipeline.hpp:332-447 | every step keeps ring and queue in queue order |
| `PipelineRuns.FollowDelivered` | relay_pipeline.hpp:923-949 | every step keeps what the processing worker got equal to what was pushed since it registered, while it keeps up |
| `PipelineRuns.HistoryInQueueOrder` | relay_pipeline.hpp:332-447 | over every run the commands in the ring history are a subsequence of queue order, none twice, across retries, reconnects, crashes and restarts |
| `PipelineRuns.EndToEnd` | relay_pipeline.hpp:332-1073 | a processing worker with fewer than 100 unread messages at every push since it registered sees every successful queued command since then exactly once, in order |
| `PipelineRuns.OneReaderInRun` | relay_pipeline.hpp:1034-1090 | in every run, however often it is stopped and started, the running pipeline holds the first slot of the ring and nobody any other: registering never fails and no slot is leaked |
| `PipelineRuns.WorkPushes` | relay_pipeline.hpp:410-430 | a step of the worker takes the oldest command and appends one message, it and the answer of the attempt that succeeded, exactly if one of at most three did |
| `PipelineRuns.StartConnects` | relay_pipeline.hpp:1034-1073 | after a start and the first step of the worker the machine is connecting and SER 1000, FILE DIR EVENTS and then FIL DIR wait, the last for a relay named with 735 and else FILE DIR SETTINGS |
| `TarCache.RowsNumbered` | telnet_sml_app.cpp:395-415 | rows number 0, 1, 2, ... without a gap, one per response used, at most the row limit |
| `TarCache.CompleteIff` | telnet_sml_app.cpp:395-415 | the rows are all the loop would have taken, whatever the relay answered next, exactly if it ended at the limit or at an answer that ends it |
| `TarRuns.RowsTaken` | telnet_sml_app.cpp:395-415 | the rows are row j with answer j for the longest run of answers before an empty one, one with Invalid Target, or the limit |
| `TarRuns.RunCounted` | telnet_sml_app.cpp:368-449 | in every run a background thread's attempt counter is the number of rounds it has made |
| `TarRuns.RoundResult` | telnet_sml_app.cpp:375-449 | after any possible run, a round with rows caches exactly these and lowers the flag; without rows nothing is cached, a background thread with at most five attempts made in a running app keeps collecting with its flag up, and any other lowers it |
| `TarRuns.EntryResult` | telnet_sml_app.cpp:360-366 | after any possible run, an entering thread collects, with the flag raised, exactly if its relay is neither cached nor flagged |
| `TarCache.EscapeTarJson` | telnet_sml_app.cpp:100-125 | the text escaped character by character |
| `TarText.EscapedChar` | telnet_sml_app.cpp:106-122 | an escaped character holds no control character, and a double quote only after a backslash |
| `TarText.EscapeIsJson` | telnet_sml_app.cpp:100-125 | a JSON reader gets the text back from what is written for it (section 7 of RFC 8259) |
| `TarText.NoBareQuote` | telnet_sml_app.cpp:100-125 | escaped text never ends the string it stands in: every double quote in it is taken by a backslash |
| `TarText.EscapeDetermined` | telnet_sml_app.cpp:100-125 | two escaped texts up to their closing quotes are equal only if the texts are |
| `TarText.DecimalInjective` | telnet_sml_app.cpp:407 | different indices are written differently |
| `TarText.DecimalMeans` | telnet_sml_app.cpp:407 | the digits written for an index have its value |
| `TarText.BatchExample` | telnet_sml_app.cpp:391-424 | the form of a row, and of a batch of no rows and of two |
| `TarText.RowDetermined` | telnet_sml_app.cpp:407-412 | the text of a row tells its index and data, whatever follows |
| `TarText.BatchDetermined` | telnet_sml_app.cpp:391-424 | for one relay, different rows give different batch texts |
| `TarCache.CollectRows` | telnet_sml_app.cpp:386-424 | the loop counts the rows it took, and the batch text is their rendering |
| `TarCache.AppendRows` | telnet_sml_app.cpp:395-415 | rows are appended in order, separated by commas, until the limit, an empty answer or Invalid Target |
| `TarCache.TarServer.EnterBackground` | telnet_sml_app.cpp:360-366 | under the lock: collect exactly if neither cached nor in progress, and then the flag is up |
| `TarCache.TarServer.EnterRequest` | telnet_sml_app.cpp:585-614 | past its wait: the cached text, an empty batch if another thread still collects, or collect with the flag up |
| `TarCache.TarServer.BackgroundAttempt` | telnet_sml_app.cpp:375-449 | rows are cached and the flag lowered; without rows try again up to five times, then lower the flag |
| `TarCache.TarServer.RequestCollect` | telnet_sml_app.cpp:616-666 | non-empty rows are cached, the flag is lowered in any case, and the batch is sent |
| `TarCache.TarServer.RequestFailed` | ws_server.hpp:250-260 | an exception out of a request thread is swallowed, with the flag left as it is |
| `TarCache.EnterExclusive` | telnet_sml_app.cpp:360-366 | check-and-set under the lock keeps the exclusion invariant |
| `TarCache.PublishExclusive` | telnet_sml_app.cpp:652-658 | publishing keeps it and writes the cache entry for the first time |
| `TarCache.StepExclusive` | telnet_sml_app.cpp:358-666 | every step of any thread keeps it |
| `TarCache.RunExclusive` | telnet_sml_app.cpp:358-666 | with any number of threads: the flag of a relay is up exactly while one thread holds it, collecting or having thrown, never two do; its cache entry is written at most once; what is cached is non-empty with indices 0..count-1 |
| `TarCache.RunTold` | telnet_sml_app.cpp:358-666 | which threads there are and which have thrown, told from the events |
| `TarCache.MutualExclusion` | telnet_sml_app.cpp:358-666 | two threads never collect for one relay at once; the cache entry is written at most once and has rows 0..count-1, at least one; the flag is up exactly while one collects, exactly as long as no request thread for that relay has thrown |
| `TarCache.ThrowLeavesFlag` | telnet_sml_app.cpp:613-658 | a possible run after which the flag is up and nobody collects |
| `TarCache.AbortCachesPart` | telnet_sml_app.cpp:626-658 | a possible run in which an aborted request caches the one row it had taken |
| `TarCache.StuckForGood` | telnet_sml_app.cpp:613-658 | once a request thread throws while collecting, the flag of its relay stays up for good: nobody collects for it again and it is never cached |
| `TarCache.CachedForGood` | telnet_sml_app.cpp:358-666 | a cached batch never changes again |
| `TarCache.Execute` | telnet_sml_app.cpp:358-666 | any interleaving on the real maps is a run of the model; the cached text is the rendering of the cached rows |
| `WsdbJson.EscapeJson` | websocket API/wsdb_json.hpp:46-65 | the text escaped character by character |
| `WsdbJson.EscapeIsJson` | websocket API/wsdb_json.hpp:46-65 | a JSON reader gets the text back from what is written for it (section 7 of RFC 8259) |
| `WsdbJson.GetString` | websocket API/wsdb_json.hpp:83-126 | the value after the first colon after the first quoted key, or empty |
| `WsdbJson.GetQuoted` | websocket API/wsdb_json.hpp:94-116 | the string up to the first unescaped quote, with escapes resolved |
| `WsdbJson.GetBare` | websocket API/wsdb_json.hpp:117-125 | the bare value up to a comma or closing bracket, without white space |
| `WsdbJson.QuotedReads` | websocket API/wsdb_json.hpp:46-116 | reading an escaped value up to its closing quote gives the value, backspace and form feed turned to letters |
| `WsdbJson.LossyIff` | websocket API/wsdb_json.hpp:103-110 | that is the value exactly if it holds neither |
| `WsdbJson.InsideValue` | websocket API/wsdb_json.hpp:85-86 | inside an escaped value the quoted key occurs only at the very end, exactly if the value ends with a double quote and the key |
| `WsdbJson.ValueRegion` | websocket API/wsdb_json.hpp:85-86 | in a rendered value the quoted key occurs exactly if the value is the key or ends with a quote and the key |
| `WsdbJson.KeyRegion` | websocket API/wsdb_json.hpp:85-86 | in a rendered key the quoted key occurs exactly if the keys are equal, at its start |
| `WsdbLookup.BareReads` | websocket API/wsdb_json.hpp:117-125 | a bare value, then any white space, then a separator, closing bracket or the end: exactly the value is read |
| `WsdbLookup.ValueReads` | websocket API/wsdb_json.hpp:88-125 | from anywhere before a member's colon the value read is that member's, string or bare, whatever blanks stand around it |
| `WsdbLookup.LookupIs` | websocket API/wsdb_json.hpp:83-126 | on every rendered object of identifier keys and of string, number, boolean or null values, with any blanks after the colons and any white space after the values, and for every identifier, what getString answers: the value of the first member with the key, or the next member's value after an earlier value that passes for the key |
| `WsdbLookup.LookupReturnsValue` | websocket API/wsdb_json.hpp:46-126 | the lookup theorem: with distinct keys and no earlier value equal to k or ending in a double quote and k, getString returns the original value of k exactly if it is bare or holds no backspace or form feed |
| `WsdbLookup.LookupSource` | websocket API/wsdb_json.hpp:46-126 | with distinct keys and any values, the member whose value is answered: the one after the first earlier value that passes for the key, or the member itself; it is the member itself exactly if no value before its predecessor passes for the key |
| `WsdbLookup.AbsentKey` | websocket API/wsdb_json.hpp:83-89 | a key no member has is answered with the empty string, unless some value passes for it |
| `WsdbLookup.NothingFound` | websocket API/wsdb_json.hpp:86-89 | a text without the quoted key anywhere, or without a colon, is answered with the empty string |
| `WsdbLookup.EarlierValueWins` | websocket API/wsdb_json.hpp:85-88 | an object where an earlier value equal to the key yields another member's value |
| `WsdbLookup.BareNumber` | websocket API/wsdb_json.hpp:117-125 | the lookup of id in an object whose id is the number 10, with white space around it, answers 10 |
| `Strings.FindIs` | websocket API/wsdb_json.hpp:86-88 | an occurrence with none before it is what find reports |
| `Strings.FindContains` | ws_server.hpp:803-809 | find reports something exactly if the text stands somewhere |

## Left out

- Sockets, Boost.Asio and Beast, shared-memory mapping, real threads, condition variables and timers: each locked region or strand handler is one atomic step, and a wait is the state its caller finds afterwards.
- A reader unregistered while it is blocked in the shared ring's `waitRead`: the call is one step from its checks on, so the slot it finds active stays so.
- `size_t` overflow in the `offset + length` checks of both BER readers and of both rings: sizes are natural numbers there, and the byte ring has fewer than 2^32 octets.
- The rule of X.690 section 8.1.2.4 that a high-form tag number is at least 31 and starts with a non-zero digit: the code does not check it, so the grammar of `Ber` leaves it out too.
- `BerReaders.BothInvertAppend`: the C reader for tags in high-tag form, which berAppendTlv cannot write.
- `Goose.ParseMmsSequence`: the narrowing of a slot number to `int` for the parent index; arrays have fewer than 2^31 slots.
- `SharedRing.SharedRingBuffer.constructor`: capacities of 4 or less, and re-opening an existing segment.
- `SharedRing.SharedRingBuffer.RegisterReader`: the eight slots are a sequence held in one field rather than an array inside the mapped header; two handles on one segment are one object.
- `RingDrops.WrappedGets`: a reader driven past all its messages into the stale octets of the tail and on from there; `RingLayout.ScanSound` is all that holds of what it reads.
- Null pointer checks of the C and C++ functions, and the error texts.
- `TelnetClient`, prompt heuristics and the choice of command routine: an attempt comes back with any success flag, response and connection state.
- `Reception.PipelineReceptionWorker.AttemptOnce`: how CONN_LOST is told from other failures, and the stale failReason on direct sends; the flag is free.
- `Reception.PipelineReceptionWorker.DriveToOperational`: the answer to the screen-size command is discarded by the code and is not modelled.
- SQLite, the parsing of records out of telnet text, and what the processing worker does with a message after taking it.
- `TarCache.RunExclusive`: the relay stop action, which erases the in-progress flag while a collector may still be running and so breaks the claim; and an exception in a background thread, which nothing catches and which ends the program.
- `TarCache.TarServer.EnterRequest`: the two-minute limit is a free choice, so a request may give up at any time.
- `WsRuns.TokenIff`: the idle timeout and keep-alive pings, the session registry, and the streaming abort flag.
- `WsRuns.ReadResumes`: that completions come at all, which is the network's part.
- `getInt`, `getBool` and the array helpers beside getString; nested objects, whose text getString searches like any other.
- The JavaScript ring, decoder and record views, logging, SNTP, passwords, configuration and build scripts.

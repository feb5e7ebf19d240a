# Verified models of quiche

This project models the stateful cores of quiche and its helper crates and proves what they are
relied on for, over every input, every run or every interleaving.

| files | what they model |
|---|---|
| `Cid.dfy`, `CidRuns.dfy`, `CidOutcomes.dfy`, `CidEndpoint.dfy` | connection-ID bookkeeping of one endpoint: the operations as functions, what every run keeps, what each call returns, and the mutable class that refines the functions |
| `CidProtocol.dfy`, `CidUsable.dfy` | two endpoints, one issuing and one storing connection IDs, joined by in-order channels for NEW_CONNECTION_ID and RETIRE_CONNECTION_ID (sections 5.1.1, 5.1.2, 19.15 and 19.16 of RFC 9000) |
| `Bits.dfy`, `Huffman.dfy`, `HuffmanTable.dfy`, `HpackCode.dfy`, `Octets.dfy`, `Varint.dfy` | the HPACK Huffman codec (section 5.2 and Appendix B of RFC 7541) and QUIC varints (section 16 of RFC 9000) as bit strings and byte strings, and the cursors `Octets` and `OctetsMut` that refine them |
| `FrameParser.dfy` | the incremental HTTP/3 frame parser (section 7.1 of RFC 9114) against a one-shot parser |
| `BufferPool.dfy` | the sharded buffer pool as a transition system of atomic actions |
| `Minmax.dfy` | the windowed minimum and maximum filter |
| `Pmtud.dfy` | path-MTU search and revalidation (section 14.3 of RFC 9000, section 5.3 of RFC 8899) |
| `FlowControl.dfy` | the receive window (sections 4.1 and 4.2 of RFC 9000) |
| `Base.dfy` | `Option`, `Result` and small arithmetic |

Code that changes fields or buffers in place is a class whose methods are proved equal to a function
of the old state; the lemmas are about those functions and about runs of them. Calls that fail are
part of every run: the functions return the source's errors and the state the source leaves behind.

## Where the code and what one would expect differ

- *The peer can run out of usable connection IDs.* One would expect that the storing end always
  holds a connection ID the issuing end still counts as usable. It does not, and there are two ways
  to lose the last one: the storing end retires its newest on its own (quiche/src/cid.rs:590-600)
  before the issuer, not yet told, asks for the other (`CidUsable.HeldMayLagBehind`); or the issuer
  mints at the limit with `retire_if_needed` (quiche/src/cid.rs:371-378) while every other usable one
  is still on its way (`CidUsable.CountIsNotEnough`). While the storing end never retires its newest
  on its own, it holds a usable one throughout a run exactly when every mint at the limit finds a
  usable number below the newest one whose announcement arrived (`CidUsable.UsableExactly`); the
  issuer learns that number from acknowledgements. Both rules together are exactly what keeps the
  newest one usable (`CidUsable.NewestExactly`). Waiting until nothing is in flight and two are usable
  is one way to follow the issuer's rule (`CidUsable.CountOfTwo`, `CidUsable.RulesKeepUsable`).
- *The credit may fall.* After a positive check the next limit is not always larger: autotuning
  caps the window at `max_window`, which may be below the current one
  (quiche/src/flowcontrol.rs:112-115). `FlowControl.LimitMayFall` is a run of a new stream
  (quiche/src/stream/recv_buf.rs:78-82) in which a peer is told 120, then 100, and sends the 120 bytes
  it was promised; once they are read the unsigned subtraction at quiche/src/flowcontrol.rs:90 fails.
  `FlowControl.RisesExactly` says exactly which runs stay clear of this.
- *A failed revalidation does not always restart the search.* Where the maximum is below 1200, as
  the local setting `max_udp_payload_size`, which is not checked from below, can make it
  (quiche/src/path.rs:241-251, quiche/src/lib.rs:1140-1143), the lost probe is clamped to 1200 (quiche/src/pmtud.rs:145) and the
  restart test does not fire. At 1199 the code then reports the size the path just refused as found
  again (`Pmtud.RefusedSizeStays`). `Pmtud.RevalidateRestarts` and `Pmtud.RevalidateRight` give the
  exact conditions.
- *The limit of the peer may be exceeded when it is lowered.* `set_source_conn_id_limit` accepts
  any value from 2 on (quiche/src/cid.rs:304-315). `CidRuns.FallingLimitBreaksBound` is a run from a
  new endpoint on; `CidRuns.UsableWithinLimit` says exactly which runs stay within the limit.
- *OutOfIdentifiers is unreachable in `new_dcid`.* The branch at quiche/src/cid.rs:500-502 is behind
  the check at quiche/src/cid.rs:460-462; the model omits it and asserts that it is dead.
- *Oversized varints are cut off.* `put_varint_with_len` does not check that the value fits
  (octets/src/lib.rs:494-526); `Varint.VarintExact` says when it reads back.

## Model

| member | source | states |
|---|---|---|
| CidProtocol.StepSafe | quiche/src/cid.rs:359-600 | in every state of the two-endpoint invariant each enabled step (mint, announce, deliver, retire, send, deliver retirement) succeeds at the endpoint that takes it and keeps the invariant |
| CidProtocol.RunSafe | quiche/src/cid.rs:359-600 | for every interleaving of the protocol from the handshake on, no step ever reports IdLimit, OutOfIdentifiers, InvalidFrame or InvalidState, and the receiver's retire set, three times the limit or any capacity from 2L-1 on, is never full |
| CidProtocol.RunConserves | quiche/src/cid.rs:189-199 | in every reachable state each stored source connection ID is in exactly one place: waiting to be announced, in flight, held by the peer, in its retire set, or in a RETIRE_CONNECTION_ID frame; the counts add up |
| CidProtocol.RunReachable | quiche/src/cid.rs:630-642 | in every reachable state the receiver holds some connection ID, all it holds are stored at the issuer, a usable one is held or on its way, and when nothing is on its way all held ones are usable |
| CidProtocol.MintStep | quiche/src/cid.rs:359-405 | minting a fresh connection ID below 2L-1 stored ones, forced or not, succeeds and keeps the two-endpoint invariant |
| CidProtocol.AnnounceStep | quiche/src/cid.rs:797-808 | the frame for the queued number can be built, with the Retire Prior To then in force, and keeps the invariant |
| CidProtocol.DeliverNewOutcome | quiche/src/cid.rs:431-538 | an arriving announcement is stored, and exactly the held numbers below its Retire Prior To move to the retire set |
| CidProtocol.DeliverRetireStep | quiche/src/cid.rs:550-575 | an arriving retirement finds its connection ID, which is never the one its packet was sent to and never the last one; the issuer removes exactly it, moves Retire Prior To to the lowest usable number and reports no error |
| CidUsable.UsableExactly | quiche/src/cid.rs:359-600 | while the receiver never retires its newest connection ID on its own, it holds a usable one in every state of a run if and only if every mint at the limit finds a usable number below the newest one that arrived |
| CidUsable.StepExact | quiche/src/cid.rs:359-600 | the same for each of the six steps, announcements in flight or not; if the rule holds the newest one stays usable |
| CidUsable.NewestExactly | quiche/src/cid.rs:359-600 | for every run, the newest connection ID that arrived is held and usable in every state if and only if the issuer and the receiver follow their rules at every step |
| CidUsable.StepKeepsNewest | quiche/src/cid.rs:359-600 | one step keeps it so if and only if it follows both rules |
| CidUsable.CountOfTwo | quiche/src/cid.rs:371-378 | once all announcements have arrived the issuer's rule is to count at least two usable connection IDs |
| CidUsable.RulesKeepUsable | quiche/src/cid.rs:359-600 | if the issuer waits for its announcements before minting at the limit, and then counts two, the newest connection ID is usable in every state of the run |
| CidUsable.LastUsableIsLost | quiche/src/cid.rs:371-378 | minting at the limit with one usable connection ID always takes it from the receiver |
| CidUsable.CountIsNotEnough | quiche/src/cid.rs:371-378 | counting two while an announcement is in flight is not enough: a run that leaves the receiver none, although it retired nothing |
| CidUsable.RunHoldsUsable | quiche/src/cid.rs:359-600 | bookkeeping over both ends, whatever they do: only a mint at the limit and the receiver's own retirement can take the last usable connection ID away, the other four steps never do |
| CidUsable.StepHoldsUsable | quiche/src/cid.rs:630-642 | the same for one step: of the six steps only those two can take the last usable connection ID away, and they do if and only if no other is left |
| CidUsable.HeldMayLagBehind | quiche/src/cid.rs:590-600 | there is a run in which the issuer follows its rule and the receiver, having retired its newest connection ID, holds only ones the issuer has asked it to retire |
| CidRuns.IssuerRunSafe | quiche/src/cid.rs:359-405 | over every sequence of new_scid, retire_scid and limit changes, failing and repeated calls included, numbers stay unique and ascending, the deque non-empty and within capacity, and Retire Prior To never decreases and never passes the next number |
| CidRuns.UsableWithinLimit | quiche/src/cid.rs:304-405 | throughout a run the connection IDs at or above Retire Prior To stay within the limit in force if and only if every limit accepted on the way covers those in use at that time |
| CidRuns.StepWithinLimit | quiche/src/cid.rs:304-405 | minting and retiring never exceed the limit, whatever they return; a limit change does if and only if it is accepted and below the number in use |
| CidRuns.StoredWithinLimit | quiche/src/cid.rs:371-378 | under limits that never fall, every run also stores at most 2L-1 connection IDs |
| CidRuns.FallingLimitBreaksBound | quiche/src/cid.rs:304-315 | a new endpoint that is given limit 3, mints two connection IDs and is given limit 2 has three in use |
| CidRuns.MintKeepsInv | quiche/src/cid.rs:359-405 | new_scid, whatever it returns, keeps the issuer's invariant and never lowers Retire Prior To |
| CidRuns.RetireKeepsInv | quiche/src/cid.rs:550-575 | retire_scid, whatever it returns, keeps the issuer's invariant and never lowers Retire Prior To |
| CidRuns.NewScidExact | quiche/src/cid.rs:359-405 | exactly when new_scid succeeds, and which error it returns otherwise; when it asks for a retirement, exactly one usable number, the lowest, falls below Retire Prior To, even if the call then fails; a new value is stored under a number never used before, and otherwise nothing else changes |
| CidRuns.RetireScidExact | quiche/src/cid.rs:550-575 | exactly when retire_scid succeeds, and which error it returns otherwise; a stored number is removed even when it fails, a repeated one is no error, and Retire Prior To rises to the lowest usable number without passing any |
| CidRuns.RetireDcidExact | quiche/src/cid.rs:590-600 | exactly when retire_dcid succeeds, and which error it returns otherwise; the entry is gone even when the retire set then turns out to be full |
| CidRuns.RaisedKeepsInv | quiche/src/cid.rs:371-378 | asking for the lowest usable number back frees a place under the limit |
| Cid.AscendingExact | quiche/src/cid.rs:506-509 | the deque's order, as binary search needs it: every entry has a smaller number than every later one |
| CidRuns.BoundaryExact | quiche/src/cid.rs:506-509 | on an ascending deque every cut a binary search can return splits it exactly at the bound |
| CidRuns.DrainExact | quiche/src/cid.rs:511-521 | draining fails exactly when the set cannot take all entries; otherwise it reports exactly the entries with a path and queues every number |
| CidRuns.DroppedFull | quiche/src/cid.rs:511-521 | when it fails, as many of the dropped numbers as fit are queued, in order, and the path of the first one that did not fit is still reported |
| CidRuns.NewDcidDrains | quiche/src/cid.rs:485-538 | a frame with a new highest number reports the paths and leaves the retire set that draining its dropped entries gives, and IdLimit if that fails |
| CidRuns.NewDcidExact | quiche/src/cid.rs:485-538 | a frame with a new highest number drops exactly the entries below its Retire Prior To, reports those with a path, and returns IdLimit exactly when the deque or the retire set has no room |
| CidRuns.FrameKeepsInv | quiche/src/cid.rs:431-538 | every frame that arrives in order, malformed, duplicate and late ones included, keeps the receiver's deque ascending, free of repeated values, non-empty and bounded and disjoint from the retire set |
| CidRuns.RetireDcidKeepsInv | quiche/src/cid.rs:590-600 | retire_dcid, whatever it returns, keeps the receiver's invariant |
| CidOutcomes.FrameRepeated | quiche/src/cid.rs:445-453 | a retransmitted frame, same value, number and token as a stored entry, returns Ok and changes nothing |
| CidOutcomes.FrameClashes | quiche/src/cid.rs:445-450 | a frame that reuses a stored value or number with anything else different returns InvalidFrame and changes nothing |
| CidOutcomes.FrameMalformed | quiche/src/cid.rs:460-462 | Retire Prior To above the frame's own number returns InvalidFrame and changes nothing |
| CidOutcomes.FrameLate | quiche/src/cid.rs:469-472 | a frame whose number was already to be retired goes to the retire set if that has room, and returns IdLimit otherwise; the deque is untouched |
| CidOutcomes.FrameStored | quiche/src/cid.rs:474-538 | a frame that does not raise Retire Prior To is stored last if there is room, in whatever order it arrives, retires nothing, and returns IdLimit otherwise |
| CidOutcomes.ZeroLengthRejects | quiche/src/cid.rs:435-437 | with an empty destination connection ID every frame returns InvalidState |
| CidOutcomes.AnnouncesEntry | quiche/src/cid.rs:797-808 | the frame for a stored number carries that entry's value and token and the Retire Prior To in force; an entry without token cannot be announced |
| CidOutcomes.AnnouncesOnlyStored | quiche/src/cid.rs:800 | a number that is not stored cannot be announced |
| CidOutcomes.MarksFirst | quiche/src/cid.rs:719-732 | taking a number out of the announcement queue removes its first occurrence and nothing else, in order |
| CidOutcomes.InitialDcid | quiche/src/cid.rs:408-421 | the peer's first connection ID is stored with its token and path, alone, and cannot be retired |
| CidOutcomes.NewEndpointRoom | quiche/src/cid.rs:246-301 | what a new endpoint stores and its capacities, in numbers |
| CidOutcomes.LimitExact | quiche/src/cid.rs:304-315 | a limit below 2 is ignored, one above half of usize cut, and the deque grows to 2v-1 or stays |
| CidOutcomes.InsertReplaces | quiche/src/cid.rs:160-173 | storing under a stored number replaces that entry in place |
| CidRuns.ReceiverRunSafe | quiche/src/cid.rs:431-600 | over every sequence of in-order frames and retirements the receiver's invariant holds |
| CidEndpoint.ConnectionIdentifiers.constructor | quiche/src/cid.rs:246-301 | the whole state of a new endpoint, with limit 2, next number 1, Retire Prior To 0 and capacities 3, max(2, limit) and three times that; both invariants hold |
| CidEndpoint.SetUpIsInitial | quiche/src/cid.rs:246-315 | two endpoints set up with each other's limit, whatever it is, and first connection ID are in an initial state of the protocol |
| CidEndpoint.ConnectionIdentifiers.SetSourceConnIdLimit | quiche/src/cid.rs:304-315 | the limit is clamped, values below 2 are ignored and the deque never shrinks |
| CidEndpoint.ConnectionIdentifiers.SetInitialDcid | quiche/src/cid.rs:408-421 | replaces all destination connection IDs by one numbered 0, keeps the capacity and touches nothing else |
| CidEndpoint.ConnectionIdentifiers.NewScid | quiche/src/cid.rs:359-405 | result and whole new state are those of `Cid.NewScid`, including the Retire Prior To of failing calls |
| CidEndpoint.ConnectionIdentifiers.NewDcid | quiche/src/cid.rs:431-538 | result, reported paths and whole new state are those of `Cid.NewDcid` at the cut the binary search found |
| CidEndpoint.ConnectionIdentifiers.PartitionPoint | quiche/src/cid.rs:506-509 | binary search: on any deque, sorted or not, the entry before the cut is below the bound and the one after is not |
| CidEndpoint.ConnectionIdentifiers.RetireAll | quiche/src/cid.rs:511-521 | the drain loop equals `Cid.Drain`, stopping at the first number that does not fit |
| CidEndpoint.ConnectionIdentifiers.RetireScid | quiche/src/cid.rs:550-575 | result and whole new state are those of `Cid.RetireScid`, including the removal that stays when the call then fails |
| CidEndpoint.ConnectionIdentifiers.RetireDcid | quiche/src/cid.rs:590-600 | result and whole new state are those of `Cid.RetireDcid` |
| CidEndpoint.ConnectionIdentifiers.LowestUsableScidSeq | quiche/src/cid.rs:630-642 | the scan returns the least stored number at or above Retire Prior To, or InvalidState if there is none |
| CidEndpoint.ConnectionIdentifiers.MarkAdvertiseNewScidSeq | quiche/src/cid.rs:719-732 | appends the number, or removes its first occurrence |
| CidEndpoint.ConnectionIdentifiers.MarkRetireDcidSeq | quiche/src/cid.rs:737-749 | adds the number unless the set is full, or removes it |
| Huffman.DecodeExact | octets/src/lib.rs:255-292 | a bit string decodes to `v` if and only if it is the code words of `v` followed by at most seven ones |
| Huffman.RoundTrip | octets/src/lib.rs:638-694 | decoding an encoding of any length gives the string back |
| Huffman.SpelledRoundTrip | octets/src/lib.rs:646-651 | what is encoded with lower-casing decodes to the string with the k-th small letter for the k-th capital, no capital left and every other byte unchanged; without it, to the string itself |
| Huffman.SpelledOnce | octets/src/lib.rs:646-651 | there is exactly one such string |
| Huffman.LowerLetter | octets/src/lib.rs:646-651 | lower-casing a byte gives the small letter for a capital and leaves every other byte alone |
| Huffman.EncodingUnique | octets/src/lib.rs:255-292 | the encoder's output is the only byte string that decodes to `v` |
| Huffman.DecodedLength | octets/src/lib.rs:262 | n bytes decode to at most 8n/5 symbols, so to fewer than the 2n reserved |
| Huffman.NibbleStep | octets/src/lib.rs:269-282 | one table lookup equals four single-bit steps down the code tree |
| HuffmanTable.EntryPlaced | octets/src/huffman_table.rs:2-260 | every one of the 257 table entries is in the range of its length in the canonical code, and its symbol can be read back from it |
| HpackCode.PrefixIsSame | octets/src/huffman_table.rs:2-260 | of two table entries neither code word is a prefix of the other |
| HpackCode.HpackValid | octets/src/huffman_table.rs:2-260 | the code the source lists is prefix-free, its words have 5 to 30 bits, and its end marker is thirty ones: all theorems about valid codes hold of HPACK |
| HpackCode.HpackRoundTrip | octets/src/huffman_table.rs:2-260 | with the listed code, decoding an encoding gives the string back |
| Octets.AddCode | octets/src/lib.rs:656-672 | adding a code word to the 64-bit accumulator, with or without spilling, appends exactly its bits |
| Octets.OctetsMut.PutHuffmanEncoded | octets/src/lib.rs:638-694 | succeeds exactly when there is room, and then writes exactly the code words, concatenated and padded with ones, of the input spelled as `Spelled` says for either value of the switch; on failure what was written before stays |
| Octets.OctetsMut.PutCodes | octets/src/lib.rs:646-672 | the loop has written a whole number of 64-bit words and holds the rest in the accumulator |
| Octets.OctetsMut.PutPadded | octets/src/lib.rs:674-693 | the pending bits, padded with ones to a byte boundary, are written, four bytes at once and the rest singly |
| Octets.OctetsMut.Put | octets/src/lib.rs:616-632 | writes all bytes at the cursor, or nothing when they do not fit |
| Octets.OctetsMut.PutVarintWithLen | octets/src/lib.rs:494-526 | writes the encoding of the given length, or nothing |
| Octets.OctetsMut.PutVarint | octets/src/lib.rs:488-490 | writes the shortest encoding, or nothing |
| Octets.Octets.GetVarint | octets/src/lib.rs:187-209 | reads the first varint, or fails without moving |
| Octets.Octets.GetBytes | octets/src/lib.rs:213-226 | takes the next bytes, or fails without moving |
| Octets.Octets.GetU8 | octets/src/lib.rs:151-153 | takes the next byte, or fails without moving |
| Octets.Octets.GetHuffmanDecoded | octets/src/lib.rs:255-292 | the nibble-driven loop returns what the bit-by-bit tree walk over the whole input returns, errors included |
| Octets.HuffmanEncodingLen | octets/src/lib.rs:817-844 | equals the number of bytes the encoder writes for the input spelled as `Spelled` says for either value of the switch, or fails when that exceeds the input's length |
| Octets.DecodeByte | octets/src/lib.rs:269-288 | two lookups are the walk over the eight bits of the byte, and the end flag says whether the input may end there |
| Varint.VarintRoundTrip | octets/src/lib.rs:187-209 | a varint of any legal length, minimal or not, reads back whatever follows it |
| Varint.VarintUnique | octets/src/lib.rs:494-526 | what reads back as a value from all its bytes is exactly what is written for that value in that length |
| Varint.TagIsOr | octets/src/lib.rs:503-522 | the length bits are or-ed into the first byte, whatever it holds |
| Varint.Examples | octets/src/lib.rs:187-209 | the one- and two-byte examples of section A.1 of RFC 9000 |
| Varint.LongExamples | octets/src/lib.rs:187-209 | the four- and eight-byte examples of section A.1 of RFC 9000 |
| Varint.VarintExact | octets/src/lib.rs:494-526 | writing in n bytes and reading gives the value back if and only if it fits n bytes |
| Varint.VarintLenLeast | octets/src/lib.rs:788-800 | varint_len is the least legal length the value fits |
| Varint.MaskDropsLength | octets/src/lib.rs:196-206 | masking the number drops exactly the two length bits of the first byte |
| FrameParser.ParseAllAppend | h3i/src/frame_parser.rs:119-203 | parsing more input is resuming from what was left over |
| FrameParser.PrintParse | h3i/src/frame_parser.rs:226-274 | a frame written with any legal varint lengths is read back, whatever follows |
| FrameParser.PrintParseAll | h3i/src/frame_parser.rs:226-274 | a list of frames written with any legal varint lengths is read back unchanged and leaves nothing over |
| FrameParser.CutFrameIsIncomplete | h3i/src/frame_parser.rs:119-203 | a frame cut before its last byte is neither emitted nor refused |
| FrameParser.OversizedIsRefused | h3i/src/frame_parser.rs:244-253 | a length above 2,000,000 is refused as soon as the header is read |
| FrameParser.NothingLost | h3i/src/frame_parser.rs:119-203 | every byte belongs to an emitted frame or is left over, in order |
| FrameParser.StoppedStays | h3i/src/frame_parser.rs:244-260 | after an oversized frame no further input changes the frames |
| FrameParser.ParseChunks | h3i/src/frame_parser.rs:119-203 | however a stream is cut into chunks and however little each read returns, repeated calls yield exactly the frames of the one-shot parser, and the parser returned holds exactly the bytes that one leaves over |
| FrameParser.FrameParser.TryParseFrame | h3i/src/frame_parser.rs:119-203 | consumes a prefix of the stream and returns a frame, Done or ExcessiveLoad exactly as the one-shot parser on all bytes held; Retry has consumed at least one byte |
| FrameParser.FrameParser.TryFillBuffer | h3i/src/frame_parser.rs:209-224 | moves bytes from the stream to the state buffer, none if it is full |
| FrameParser.FrameParser.TryConsumeVarint | h3i/src/frame_parser.rs:226-238 | grows the buffer to the length the first byte announces, and returns the varint exactly when it is whole |
| FrameParser.FrameParser.StateTransition | h3i/src/frame_parser.rs:244-260 | starts a state with an empty buffer of at most 2,000,000 bytes, or changes nothing |
| FrameParser.FrameParser.SetFrameType | h3i/src/frame_parser.rs:262-267 | never fails, and the bytes held are the encoded type |
| FrameParser.FrameParser.SetFrameLen | h3i/src/frame_parser.rs:269-274 | fails exactly when the one-shot parser rejects the frame as oversized |
| BufferPool.RunSafe | buffer-pool/src/lib.rs:87-108 | in every state of every interleaving a shard's queue and reserved slots stay within its maximum, the count is never negative and equals the queue length when the shard is idle, all shards together hold at most the limit, and no buffer is in two places |
| BufferPool.DropReturns | buffer-pool/src/lib.rs:95-101 | dropping a buffer while the shard's count is below its maximum appends exactly that buffer to the shard's queue |
| BufferPool.DropOverflows | buffer-pool/src/lib.rs:102-105 | at or above the maximum nothing is pushed and the count comes back |
| BufferPool.GetReuses | buffer-pool/src/lib.rs:136-148 | from a queue that is not empty the handle gets its first buffer, and the queue loses exactly it |
| BufferPool.GetCreates | buffer-pool/src/lib.rs:144 | from an empty queue the handle gets a new buffer and the shard is untouched |
| BufferPool.TakenOrDiscarded | buffer-pool/src/lib.rs:82-84 | taking the inner value leaves a new buffer behind; a buffer that does not qualify is let go without touching any shard |
| BufferPool.ShardsInTurn | buffer-pool/src/lib.rs:136-178 | over every run the k-th handle to take a shard number gets shard k modulo the number of shards |
| BufferPool.AssignsShard | buffer-pool/src/lib.rs:136-178 | get and from_owned move the shard counter by one, get_empty and everything else leave it |
| BufferPool.DroppedIsReused | buffer-pool/src/lib.rs:87-148 | a buffer returned to an empty queue is what the next handle on that shard gets |
| BufferPool.NoUnderflow | buffer-pool/src/lib.rs:136-148 | whenever a count is about to be lowered it is at least one |
| BufferPool.StepCounts | buffer-pool/src/lib.rs:87-108 | every atomic action keeps each shard's count equal to its queue plus the handles between two actions |
| BufferPool.StepUnique | buffer-pool/src/lib.rs:136-148 | every atomic action keeps each buffer in one place |
| BufferPool.ShardBounds | buffer-pool/src/lib.rs:117-122 | the count bounds the queue and the reserved slots of a shard |
| Minmax.RunningMinTracks | quiche/src/minmax.rs:100-117 | one update keeps the three estimates real observations, each the minimum from then on, and the first within the window |
| Minmax.EstimatesOrdered | quiche/src/minmax.rs:100-117 | over every run with times that never go back the estimates are ordered by time and by value, and each is the minimum from its observation on |
| Minmax.ReturnedWithinWindow | quiche/src/minmax.rs:142-177 | the value returned was observed within the window and lies between the window's true minimum and the current sample, even when two shifts are needed |
| Minmax.ExactInWindow | quiche/src/minmax.rs:100-117 | over every run, as long as the smallest observation so far is in the window, the filter returns it |
| Minmax.ExactMinimum | quiche/src/minmax.rs:100-117 | that is then the true minimum over the window |
| Minmax.RunRemembers | quiche/src/minmax.rs:100-177 | over every run, what the last observation does: an estimate not beaten and still in the window stays, the next in line follows it when it leaves, and the others are replaced after a quarter and a half of the window and not before |
| Minmax.FirstStays | quiche/src/minmax.rs:103-117 | one update keeps the first estimate while it is in the window and not beaten |
| Minmax.NextInLine | quiche/src/minmax.rs:147-160 | when the first estimate leaves the window, the next smaller one still in it takes its place, after one or two shifts |
| Minmax.StaysSpread | quiche/src/minmax.rs:161-174 | while the first estimate stays, equal times of first and second mean that at most a quarter of the window has passed, or that the second is the new sample; and likewise for the third and half of it |
| Minmax.OthersStay | quiche/src/minmax.rs:161-174 | the other estimates are not replaced without need |
| Minmax.MaximumRemembers | quiche/src/minmax.rs:121-177 | the same rules for the maximum |
| Minmax.ExactMaximum | quiche/src/minmax.rs:121-138 | as long as the largest observation so far is in the window, the filter returns it, and it is the window's true maximum |
| Minmax.RunMaxMirrors | quiche/src/minmax.rs:121-138 | running_max is running_min on negated values |
| Minmax.MaximumWithinWindow | quiche/src/minmax.rs:121-138 | the mirror image of the two theorems above: the value returned lies between the current sample and the window's true maximum |
| MinmaxFilter.Filter.Reset | quiche/src/minmax.rs:89-97 | all three estimates become the sample |
| MinmaxFilter.Filter.RunningMin | quiche/src/minmax.rs:100-117 | the array afterwards is `Minmax.RunningMin` of the array before |
| MinmaxFilter.Filter.RunningMax | quiche/src/minmax.rs:121-138 | the array afterwards is `Minmax.RunningMax` of the array before |
| MinmaxFilter.Filter.SubwinUpdate | quiche/src/minmax.rs:142-177 | the array afterwards is `Minmax.SubwinUpdate` of the array before |
| Pmtud.SearchFinds | quiche/src/pmtud.rs:42-158 | for every maximum and path the probe loop ends with the smaller of the two, or with nothing and probing stopped when the path is below 1200; above 1200 it takes at most 2 + ceil(log2(maximum - 1200)) probes; the MTU in use never exceeds what the path carries |
| Pmtud.RoundSearches | quiche/src/pmtud.rs:74-121 | each probe keeps the shape of the search and uses up one of the probes left |
| Pmtud.SearchUses | quiche/src/pmtud.rs:60-63 | at the end the MTU in use is the size found, or 1200, and during the search it never falls |
| Pmtud.OneProbeAtATime | quiche/src/pmtud.rs:42-46 | no probe is sent while one is in flight, and every result ends the wait |
| Pmtud.ResultsKept | quiche/src/pmtud.rs:129-158 | results in any order and for any size: the largest acknowledged size, cut at the maximum, and the smallest lost one, raised to 1200, are kept, and a contradiction starts everything over |
| Pmtud.NextSize | quiche/src/pmtud.rs:74-121 | the next size lies in the middle of what is left; a size found is also the one to probe |
| Pmtud.Log2Ceiling | quiche/src/pmtud.rs:74-121 | the logarithm in the probe bound is the least k with n <= 2^k |
| Pmtud.RevalidateConfirms | quiche/src/pmtud.rs:172-177 | on a path that still carries the found size, revalidation restores the same state of knowledge |
| Pmtud.RevalidateRestarts | quiche/src/pmtud.rs:80-91 | a failed revalidation restarts the search if and only if the found size is at least 1200; below, probing stops with the refused size in use, and at 1199 with that size reported as found |
| Pmtud.RefusedSizeStays | quiche/src/pmtud.rs:143-158 | with a maximum of 1199 a path that shrinks to 1000 leaves 1199 reported as the path MTU |
| Pmtud.RevalidateRight | quiche/src/pmtud.rs:162-177 | revalidation ends with the right answer for the new path if and only if the found size still fits or is not 1199 |
| Pmtud.RevalidateFinds | quiche/src/pmtud.rs:162-177 | how revalidation ends on every new path, for every maximum: the size confirmed, a fresh search that finds the answer for that path, or, below 1200, no search |
| PmtudMachine.Discover | quiche/src/pmtud.rs:42-158 | the probe loop run on the mutable object finds that answer within that many probes |
| PmtudMachine.Pmtud.UpdateProbeSize | quiche/src/pmtud.rs:74-121 | the fields afterwards are `Pmtud.UpdateProbeSize` of the fields before |
| PmtudMachine.Pmtud.SuccessfulProbe | quiche/src/pmtud.rs:129-140 | the fields afterwards are `Pmtud.SuccessfulProbe` of the fields before |
| PmtudMachine.Pmtud.FailedProbe | quiche/src/pmtud.rs:143-158 | the fields afterwards are `Pmtud.FailedProbe` of the fields before |
| PmtudMachine.Pmtud.RevalidatePmtu | quiche/src/pmtud.rs:172-177 | the fields afterwards are `Pmtud.Revalidate` of the fields before |
| FlowControl.RunSafe | quiche/src/flowcontrol.rs:81-126 | over every run where the peer honours the highest limit it was told and windows stay within the maximum, consumed never passes the limit in force, every advertised limit is above the one before, and updates are spaced by the window granted less half the window checked |
| FlowControl.WindowDoubles | quiche/src/flowcontrol.rs:101-118 | over every run, k updates in a row, each within two round trips of the one before, multiply the window by 2^k up to the maximum |
| FlowControl.AutotuneExact | quiche/src/flowcontrol.rs:109-118 | less than two round trips after the last update the window doubles up to the maximum; later, or without one, it stays |
| FlowControl.LowerBoundExact | quiche/src/flowcontrol.rs:122-126 | raising the lower bound ends with the larger of window and bound |
| FlowControl.UpdateExact | quiche/src/flowcontrol.rs:96-104 | an update promises one window beyond what was read, and notes its time |
| FlowControl.HalfWindowApart | quiche/src/flowcontrol.rs:89-93 | consecutive updates with the window unchanged in between are more than half that window apart |
| FlowControl.UpdatesAmortised | quiche/src/flowcontrol.rs:89-104 | all windows granted before the last update together are at most twice the bytes consumed |
| FlowControl.ExhaustedUpdates | quiche/src/flowcontrol.rs:89-93 | exhausted credit triggers an update if and only if the window is at least 2 |
| FlowControl.LimitRises | quiche/src/flowcontrol.rs:109-118 | after a positive check the next limit, autotuned, is above the current one if and only if autotuning does not cap the window at or below the credit left |
| FlowControl.RisesExactly | quiche/src/flowcontrol.rs:81-126 | over every run with an honest peer, whatever the windows: all advertised limits rise and no more is ever read than the limit in force, if and only if every autotuned update within two round trips finds less credit left than the maximum window |
| FlowControl.LimitMayFall | quiche/src/flowcontrol.rs:89-118 | a run of a new stream, with the peer within what it was told, in which a limit of 120 is followed by one of 100 and 120 bytes are read |
| FlowControlState.FlowControl.Poll | quiche/src/flowcontrol.rs:89-118 | an update is sent exactly when the check is positive, with the limit of the model's step |
| FlowControlState.FlowControl.AutotuneWindow | quiche/src/flowcontrol.rs:109-118 | the fields afterwards are `FlowControl.AutotuneWindow` of the fields before |

## Left out

- Reordered, lost and duplicated frames in the two-endpoint protocol: binary search over an unsorted deque has no specified result there; one endpoint alone is modelled on any frame.
- Path linking (`link_scid_to_path_id`, `link_dcid_to_path_id`) and the read-only getters of quiche/src/cid.rs: they would add only easy members.
- Machine width of sequence numbers, flow-control counters and `Instant`: natural numbers here, as the source has no wrap-around handling for them; the pool's shard counter does wrap around in the model.
- Lowering the peer's limit during the two-endpoint protocol: both ends keep one limit, as the transport parameters fix it.
- DECODE_TABLE (octets/src/huffman_table.rs:263-5128): a table entry is defined as four steps down the code tree, not copied; ENCODE_TABLE is copied in full and proved to be a valid code.
- Machine words in the Huffman encoder are lists of 64 bits with shift, or and truncation, not bit-vectors.
- FrameParser.ParseChunks: FIN and RESET_STREAM are not part of this model, and a frame is its type, length and payload; decoding the payload (`QFrame::from_bytes`, QPACK) happens outside h3i/src/frame_parser.rs.
- `stream_recv` is a stream object that returns between one byte and the room offered, or Done.
- BufferPool: weaker memory orderings than sequential consistency, the contents of buffers, and `Reuse::reuse`, whose verdict is a free choice between two actions.
- Minmax.RunningMinTracks: values are integers, so samples that do not compare (`PartialOrd`) are not modelled; quarter and half of the window are compared exactly, without the rounding of `div_f32`.
- Pmtud: the path carries exactly the probes up to a fixed size while a search lasts; loss for other reasons is not modelled.
- FlowControlState.FlowControl.ShouldUpdateMaxData: requires that the peer kept to the limit, as the source's unsigned subtraction does.
- CidRuns.NewScidExact: a missing token is accepted for number 0 only, as in the source; since the next number starts at 1 this never happens after construction.

# Pearly: a verified model

Pearly is a peer-to-peer library. This project models four of its parts in Dafny and proves what they are
for: the framing connection, the onion circuit built from it, the Kademlia search with its peer store, and
the connection multiplexer. Code that changes state is modelled by classes, arrays and loops, each method
proved equal to a function of the old state; the theorems are about those functions, over whole runs.

`dafny verify dfyconfig.toml` checks everything.

## The parts

**Framing** (`Framing`, `FramingSafety`, `FramingWriter`, `FramingRuns`, `FramingComplete`, `TransformConn`).
A connection that cuts a byte stream into length-prefixed frames, over a link that cuts it again anywhere.
`TransformConn.Conn` has the source's buffers and positions as arrays and fields. `FramingSafe` says that
until the first error, what was delivered, what is decoded but not delivered, and the decoding of what is
still on its way are together exactly what was written; runs stop at the first error, and what was delivered
by then is a prefix of it. `ReadsDeliverAll` and `ReadFailsIff` say when reads succeed, `ReadErrors` with
which error they fail. The writer splits messages that are too long and cuts others in batches, and often gets
that wrong: a split of one of several batches drops the batches behind it or panics with half the message
sent, and without a transform the header of one frame overwrites the start of the next. `WriteCompleteIff`,
`BareIntactIff` and `BareWriteIntactIff` say exactly when a write is right, `WriteGoesWrong` what one that is
not has sent, and `FramingSafe` covers exactly those writes. `GreedyLinkCutsHeader` gives two ordinary
messages after which a read fails although the link hands over all it is asked for.

**Onion circuit** (`Onion`, `OnionSetup`, `OnionHandshake`, `OnionForward`, `OnionBackward`, `OnionReads`,
`OnionRelay`, `OnionLimit`). For any number of relays, any keys and any cutting of every link, `OnionOutwards`
and `OnionHomewards` say that each end receives a prefix of what the other end wrote, whatever fails on the
way, and all of it once nothing is left in the circuit. They start from any circuit that stands: keys at equal
positions at both ends, nothing on its way. `EstablishedStands` says that what the client's loop returns
stands, and `DrainedStands`, `DownDrainedStands` and `ExtendedStands` that exchanges which are read to the
end, and further hops, leave a circuit standing. `EstablishedIff` says exactly when there is a circuit, and
which error there is otherwise, and `HopExchanges` what goes to and fro for each hop. `RelayMovesOn` and
`ClientReadsOn` say when a relay or the client can fail: only at a cut header. Messages of the client leave
room for the headers of the layers below; `OnionLimitForKeys` and `OnionLimit` say that this limit is exact. A
keystream is an arbitrary function from positions to bytes, exclusive-ored as in counter mode (section 6.5 of
NIST SP 800-38A), with a position for each direction.

**Kademlia** (`Ids`, `Buckets`, `Greedy`, `DhtPeer`, `SearchNodes`, `Counting`, `GetSearch`, `SetSearch`,
`SetTermination`, `SetBlame`, `SetStores`, `GetService`, `Network`). The distance is a metric and injective
(section 2.1 of Maymounkov and Mazières, "Kademlia: A Peer-to-peer Information System Based on the XOR
Metric"). The peer store is a bounded set over every history. Both closest-peer lists overwrite a slot instead
of shifting, so they are not the closest peers in general: `SlotsAreLeastEnds`, `FilledIsLongestChain` and
`ClosestIff` say exactly what they hold and exactly when that is the closest, also of peers reported again
and again; `CandidatesClosestIff` says it of every run of the storer search. Searches are runs of any number
of workers under any schedule. `GetIsExhaustive`, `GetTerminates`, `SetSearchTerminates`,
`CandidateListExact`, `GetOutcomes`, `SetValueStores` and `SetThenGet` are the main results. Where the code falls short, a
lemma says exactly when: `ResultEndsSearch` and `FruitlessAnswerEndsSearch` (who is still contacted when a
search is over), `IndexIsPrefixIff` (the bucket index is not the length of the common prefix),
`BlamesRightlyIff` (a peer that nobody contacted is blamed), `NamedTwiceIff` (the list names a peer twice),
`AlreadySetIff` (a value found at another peer is not reported), `SentErrorsUnexpected` (an internal error of
a peer is never recognised as one that is expected). Searches end even if peers change their answers, as long
as there is a floor below the distances that they report; `ChangingAnswersNeverEnd` shows that there has to be.

**Multiplexer** (`ChunkQueue`, `ConnMuxer`). `Demultiplexed` says that under every interleaving each
connection behaves as if it were alone, and `QueueIsFifo` and `EofAfterAllData` say what that is. What goes
wrong in the code has its exact condition: `AllSurviveIff` (bytes are dropped), `LostIff` (an end of file comes
before the data), `BlockedIff` (the demultiplexer waits for ever), `EmptyReadIff` (a read returns nothing),
`CrashedIff` (a payload meets a nil connection), `CloseReachesIff` (a close is lost). `EofBeforeData`,
`EmptyReadAfterFullOne`, `PayloadAfterClose` and `FirstCloseLost` are runs in which that happens.

## How it is stated

- A link is a reliable byte stream; a script says how many bytes every read of it returns, or that it fails.
- A connection below another one is a value (`Framing.Source`, `Onion.Sink`); the class has it as a field.
- A slice is a length and the memory up to its capacity, because `prependInt` may write behind the length.
- Steps of concurrent workers interleave at the points where the source releases a lock or waits: looking
  whether a search is over and taking a node are two steps. Choosing a node and marking it searched
  (kademila/kadmilla.go:356-360) is one step although the source does not hold the lock over both; so is
  appending to the error lists.
- A reader of the multiplexer checks, copies and drops its chunks without the lock. Checking for the close and
  clearing the flag is one step (transport/multiuse/conn.go:57-60), so are the copying loops, since a chunk
  that comes while they run is copied as if it had come before, and so is dropping the chunks. Appends come
  between any two of these steps; two accesses to the list of chunks at the very same moment are not modelled.
- No proof rests on automatic induction: lemmas that would get it carry `{:induction false}`.
- During one search the network is a function from identifier to answer. `Network.Ask` is that function for
  peers that run `GetService`.
- A distance is any integer: the asking side takes it from the answer, where it may be below zero.
- Where the source's text and its code differ, the model follows the code: `numEqualBitsPrefix` is not the
  length of the common prefix (`Buckets.IndexIsPrefixIff`), `getClosestNode` takes the farthest node
  (`SearchNodes.Picked`). The muxer's call of `writeUread` is taken to mean `writeUnread`.

## Model

| member | source | states |
|---|---|---|
| TransformConn.Conn.Read | transport/transform/transform.go:60-85 | on the real buffers: returns and leaves exactly what `FrameRead` says of the old buffers and the connection below, errors included |
| TransformConn.Conn.ReadLeastOnePacketIntoUnread | transport/transform/transform.go:87-133 | the decode buffer holds one whole frame behind its header and everything read past it is kept as overflow |
| TransformConn.Conn.ReadFullPacket | transport/transform/transform.go:113-123 | the refill loop reads as `Refill` does, and ends |
| TransformConn.Conn.WriteIntoPacketOverflow | transport/transform/transform.go:135-145 | the overflow becomes exactly the given bytes |
| TransformConn.Conn.ReadUnread | transport/transform/transform.go:147-156 | returns the first unread bytes, in order, and keeps the others |
| TransformConn.Conn.WriteUnread | transport/transform/transform.go:158-168 | also when the payload is copied within the decode buffer onto its own header: the stored bytes are those of `Stored`, lossy append branch included |
| TransformConn.Conn.Write | transport/transform/transform.go:170-201 | the frames sent, the outcome, and what happens to the caller's memory up to its capacity are those of `Send`; nothing in front of the slice changes |
| TransformConn.Conn.WriteHalves | transport/transform/transform.go:186-193 | the recursive split: its first half within the capacity, its early end on an error, the panic behind the first half, and the sum of the counts |
| TransformConn.Conn.PrependInt | transport/transform/transform.go:213-218 | the header and the shifted data, in place exactly when four more bytes fit the capacity |
| TransformConn.Conn.BatchData | transport/transform/transform.go:224-235 | the batches of the slice, or the whole slice below the threshold |
| FramingSafety.WirePrefix | transport/transform/transform.go:105-132 | framing is a prefix code: the frames parsed from the start of a wire are the first frames sent |
| FramingSafety.StoredWholeIff | transport/transform/transform.go:158-168 | decoded bytes are stored whole exactly when they fit the decode buffer |
| FramingSafety.SourceReadKeeps | transport/transform/transform.go:60-133 | a read through any depth of nested connections keeps account of every byte fed to the link |
| FramingSafety.ReadPacketKeeps | transport/transform/transform.go:87-133 | the frame read and the bytes past it are the raw bytes taken from below; the payload and the overflow fit the buffer with a header to spare |
| FramingSafety.DeliverKeeps | transport/transform/transform.go:75-84 | a payload that is not longer decoded than raw is stored without growing the buffer and delivered without loss |
| FramingSafety.FrameReadKeeps | transport/transform/transform.go:60-133 | a successful read continues what was returned before, parses at most one more frame and loses nothing read from below |
| FramingRuns.FramingSafe | transport/transform/transform.go:60-218 | over every run of writes and reads, of all writes that get through: delivered, unread and the decoding of overflow and wire make up what was written, until the first error; what was delivered by then is a prefix of it |
| FramingRuns.BufferBounded | transport/transform/transform.go:87-145 | over every run, whatever is written, the decode buffer stays between 5120 and the larger of 5120 and the limit plus four, and the overflow fits it with four bytes to spare, until the first error |
| FramingRuns.DecodedWire | transport/transform/transform.go:105-132 | decoding the wire yields the content of the frames on it |
| FramingWriter.BatchesTile | transport/transform/transform.go:224-235 | the batches follow each other without gap or overlap and cover the message |
| FramingWriter.BatchesAre | transport/transform/transform.go:224-235 | below the threshold one batch; otherwise batch i starts at i times the batch size and is that long, as far as the message goes |
| FramingWriter.FramesFit | transport/transform/transform.go:185-197 | every frame emitted fits the limit, with or without splits, batches and transform, also before a failure or a panic |
| FramingWriter.WriteCarries | transport/transform/transform.go:170-201 | with an inverse transform that returns fresh memory, a single-batch message, or one all of whose batches fit, is carried: the decoded frames concatenate to it, its length is returned, the memory is untouched |
| FramingWriter.WriteCompleteIff | transport/transform/transform.go:176-200 | Write reports the whole message exactly when it is one batch or all transformed batches fit; otherwise it drops batches or panics |
| FramingWriter.WriteGoesWrong | transport/transform/transform.go:176-201 | the batches in front of the first that is in trouble go out whole; then a failing transform ends the write with its error; a batch that does not fit is sent in two parts, the rest is dropped and only its length is reported; unless it is shorter than half the message: that half is sent from its start, as far as the memory goes, before the panic |
| FramingWriter.FailsWithTransform | transport/transform/transform.go:178-183 | a write fails with errors of its transform only |
| FramingWriter.HalfSentBeforePanic | transport/transform/transform.go:186-192 | when a first batch shorter than half the message does not fit, half of the message is sent, beyond the batch, before the panic |
| FramingWriter.BareWriteOneFrame | transport/transform/transform.go:195-197 | without a transform a message within the limit is one frame |
| FramingWriter.BareCarries | transport/transform/transform.go:170-218 | without a transform a message that is one frame, or of which no frame can be shifted in place, gets through whole |
| FramingWriter.BareIntactIff | transport/transform/transform.go:170-218 | without a transform, with or without batches: all messages of a length in memory of a capacity get through intact exactly when they are one frame, or their frames cover them and leave no room for a header |
| FramingWriter.BareWriteIntactIff | transport/transform/transform.go:170-218 | without a transform a message gets through whatever memory is behind it exactly when it is one batch and within the limit |
| FramingWriter.SplitLoses | transport/transform/transform.go:213-217 | for every other length and capacity there is a message that is corrupted |
| FramingComplete.RefillEnds | transport/transform/transform.go:113-123 | over a link that makes progress the refill loop ends with the whole frame |
| FramingComplete.ReadFailsIff | transport/transform/transform.go:87-133 | with frames on their way a Read fails exactly when the last read from the link ended inside a header, and then with the missing packet size |
| FramingComplete.FirstReadFails | transport/transform/transform.go:95-103 | the error of the link when the first read of a packet fails |
| FramingComplete.ReadErrors | transport/transform/transform.go:95-126 | the missing size for part of a header; the packet too large when the header says so; and the error of the link, or no progress, when that breaks before the frame is whole, after any pieces of it; the buffers are empty then |
| FramingComplete.WholePacket | transport/transform/transform.go:70-133 | of a packet read whole: how long the buffer is then, the error when it can not be decoded, and otherwise as many bytes as the caller has room for |
| FramingComplete.UnreadFirst | transport/transform/transform.go:61-63 | bytes decoded before are returned first, without a read of the link |
| FramingComplete.ReadsDeliverAll | transport/transform/transform.go:60-133 | if no header is cut, reading with any non-empty buffer delivers every frame in full |
| FramingComplete.GreedyLinkCutsHeader | transport/transform/transform.go:95-103 | two frames of 5114 bytes on a link that returns all it is asked for: the second Read fails |
| Bytes.CtrInverse | crypto/crypto.go:79-86 | two streams with one key at one position undo each other |
| Bytes.CtrAppend | crypto/crypto.go:79-86 | the keystream runs on across calls: cutting the data anywhere changes nothing |
| Bytes.Uint32RoundTrip | transport/transform/transform.go:216 | a length survives its header exactly when it fits 32 bits |
| Bytes.LittleEndian | transport/transform/transform.go:105-216 | the header holds the length with the lowest byte first, in reading and in writing |
| Bytes.XorBits | kademila/dhtpeer/dhtpeer.go:139-146 | the exclusive or, bit by bit |
| OnionRelay.Stream.Read | crypto/crypto.go:79-86 | decrypts what it read at the read position, and moves only that position |
| OnionRelay.Stream.Write | crypto/crypto.go:79-86 | sends the encrypted copy at the write position, moves only that position, and leaves the caller's bytes |
| OnionRelay.CopyForward | onion/onion.go:149-177 | the loop from the framing connection to the key passes on, and leaves in all buffers, what `CopyAllUp` says; end of file is no error |
| OnionRelay.CopyBackward | onion/onion.go:149-177 | the loop from the key to the framing connection, though the header shifts the bytes in its own buffer, sends what `CopyAllDown` says |
| OnionRelay.RoundProgress | onion/onion.go:158-167 | every round uses up an event of the link or bytes already held, so the loop ends with the link |
| OnionRelay.ForwardLoopIsRun | onion/onion.go:117-136 | what the forward loop does from any point of a run is what a longer run does, and the error it stops with is that of the last read |
| OnionRelay.BackwardLoopIsRun | onion/onion.go:117-136 | the same for the backward loop |
| OnionSetup.EstablishCircuit | onion/client.go:30-79 | no peers, a failing dial, protocol selection, an encrypted request, the response: the loop that rebinds the connection computes the nesting of `Established`, or the hop and the error at which it stops |
| OnionSetup.EstablishedIff | onion/client.go:30-98 | there is a circuit exactly when there is a peer, dialling succeeds and every hop is accepted: protocol selected, no encrypted request, and the response is the text for success; otherwise the error names the first hop that was not accepted, and its cause |
| OnionSetup.SelectFailsIff | onion/client.go:41-45 | protocol selection fails exactly when one of its reads does, and with the error of the first |
| OnionSetup.SuccessText | onion/onion.go:24 | the response that accepts a hop is that text |
| OnionSetup.WriteRequest | onion/client.go:81-89 | the loop over the parts that the buffered writer flushes sends each as one write of the framing connection |
| OnionSetup.EstablishedLayers | onion/client.go:40-76 | an established circuit has one layer for every hop, with the keys in the same order for both directions |
| OnionSetup.EstablishedStands | onion/client.go:30-79 | what the client establishes is a circuit that stands, wherever selection and handshake left its keys, with relays at the same positions; homewards too when the client's readers hold nothing |
| OnionHandshake.SelectKeeps | onion/client.go:40-46 | through all layers of the circuit so far protocol selection writes its bytes and reads what comes next |
| OnionHandshake.HopExchanges | onion/client.go:40-103 | a hop that succeeds: to the relay went the bytes of protocol selection and then the request in frames; what came back is what selection read, one frame that says success, and what the new layer keeps as overflow |
| Onion.PeeledIsPrefix | onion/onion.go:95-101 | whoever takes frames off part of a layer and undoes its key holds a prefix of what the layer carries, and all of it when nothing is left |
| Onion.SinkWriteKeeps | onion/client.go:70-75 | a client message with room for the headers below passes every layer as one frame and appends to each layer's stream exactly what it should |
| OnionLimit.OnionLimitForKeys | transport/transform/transform.go:186-193 | for any keys of up to 1281 relays: all messages of a length pass a fresh circuit exactly when they leave room for the headers of all layers but the innermost |
| OnionLimit.OnionLimit | transport/transform/transform.go:186-193 | the same for any number of relays: all messages of a length pass under all keys exactly within that limit |
| OnionLimit.ManyHeadersMayPass | transport/transform/transform.go:186-193 | 2562 relays and keys under which a message over the limit passes: where headers alone exceed the limit, it is exact only over all keys |
| OnionForward.CopyUpKeeps | onion/onion.go:158-172 | a relay's round gives the next link exactly what comes next of the layer above, whatever part of a frame it read |
| OnionForward.UpRunOk | onion/onion.go:95-101 | over every run each link was given a prefix of what the client wrote into the connection of that depth |
| OnionForward.OnionOutwards | onion/client.go:40-76 | from any circuit that stands, the final node receives a prefix of what the client wrote, for every number of relays, keys, schedule and cutting; all of it once the circuit is drained |
| OnionForward.DrainedStands | onion/client.go:40-76 | outwards a circuit that is drained stands again, with every key further on by the same number of bytes at both ends |
| OnionForward.ExtendedStands | onion/client.go:70-75 | a standing circuit with one more hop stands |
| OnionForward.RelayMovesOn | onion/onion.go:158-172 | when the links in front of it are drained, a relay's next read over a steady link fails exactly when the link cut a header, and otherwise leaves less to read |
| OnionBackward.CopyDownKeeps | onion/onion.go:158-172 | a relay makes whole encrypted frames of whatever pieces it reads |
| OnionBackward.BackRelayMovesOn | onion/onion.go:158-172 | a relay passes on as much as the link hands over and its buffer has room for, and does not stop |
| OnionBackward.BackPrefix | onion/client.go:70-75 | what the first layers of the client's nested connection deliver is a prefix of what the link behind that many relays was given |
| OnionBackward.OnionHomewards | onion/client.go:40-76 | from any circuit that stands, the client reads a prefix of what the final node wrote, and all of it once the circuit is drained |
| OnionBackward.DownDrainedStands | onion/client.go:40-76 | homewards, too, a circuit that is drained stands again |
| OnionReads.ReadsOn | transport/transform/transform.go:60-133 | through any depth of nested connections over a steady link, a read with something to come fails exactly when it meets a cut header at some layer, and otherwise returns the next bytes |
| OnionReads.ClientReadsOn | onion/client.go:40-76 | when the relays have passed everything on, the client's next read over a steady link fails exactly at a cut header of some layer, and otherwise returns more of what the final node wrote |
| Ids.DistanceBetween | kademila/dhtpeer/dhtpeer.go:139-146 | the byte loop computes the distance |
| Ids.DistanceIsXor | kademila/dhtpeer/dhtpeer.go:139-146 | the distance is the exclusive or of the two identifiers read as numbers |
| Ids.CloserIff | kademila/dhtpeer/dhtpeer.go:139-146 | of two identifiers the one is closer whose exclusive or with the key is smaller at the first byte at which they differ |
| Ids.DistanceIsMetric | kademila/dhtpeer/dhtpeer.go:139-146 | zero exactly between equal identifiers, symmetric, triangle inequality, for every length |
| Ids.DistanceInjective | kademila/dhtpeer/dhtpeer.go:139-146 | for a fixed key different identifiers have different distances |
| Buckets.BucketIndexInRange | kademila/dhtpeer/dhtpeer.go:125-137 | for two different identifiers of one length the index is that of a bucket |
| Buckets.LeadingZerosIs | kademila/dhtpeer/dhtpeer.go:131 | a byte with n leading zeros lies between two powers of two |
| Buckets.BucketIndexIs | kademila/dhtpeer/dhtpeer.go:125-137 | the index counts four for every byte in front of the first whose exclusive or is not 8, and adds the leading zeros of that one |
| Buckets.CommonPrefixIs | kademila/dhtpeer/dhtpeer.go:125-137 | the common prefix counts exactly the leading bits that two identifiers share |
| Buckets.IndexIsPrefixIff | kademila/dhtpeer/dhtpeer.go:125-137 | the index is the length of the common prefix exactly when the first byte decides both, or the second byte adds nothing to either |
| Buckets.NotThePrefixLength | kademila/dhtpeer/dhtpeer.go:131-133 | two identifiers that share four bits land behind two that share fifteen |
| Buckets.InsertPacked | kademila/dhtpeer/dhtpeer.go:148-162 | inserting keeps a bucket compact, keeps the order, refuses a full bucket and ignores a known identifier |
| Buckets.RemovePacked | kademila/dhtpeer/dhtpeer.go:164-185 | removing deletes exactly that peer, keeps the order of the others and leaves no hole |
| Buckets.StoreIsLists | kademila/dhtpeer/dhtpeer.go:34-57 | over every history of adds and removes the buckets are bounded lists of different peers, each in the bucket of its index |
| Buckets.PeersDistinct | kademila/dhtpeer/dhtpeer.go:59-70 | identifiers are different across the whole store |
| Buckets.PeersAreLists | kademila/dhtpeer/dhtpeer.go:59-70 | Peers lists exactly the peers of the lists |
| Buckets.PeersInOrder | kademila/dhtpeer/dhtpeer.go:59-70 | peers are listed in the order of their places |
| Buckets.AddPeerIs | kademila/dhtpeer/dhtpeer.go:34-44 | on every reachable store: a new peer with room in its place is listed behind the others of that place and nothing else changes; no space exactly when it is new and there is no room; a wrong length is an error, the node itself is ignored |
| Buckets.RemovePeerIs | kademila/dhtpeer/dhtpeer.go:46-57 | on every reachable store: exactly the peer of that identifier goes from its place, if it was there |
| DhtPeer.NumEqualBitsPrefix | kademila/dhtpeer/dhtpeer.go:125-137 | the loop computes the bucket index |
| DhtPeer.InsertPeerIntoBucket | kademila/dhtpeer/dhtpeer.go:148-162 | in place on the array, as `Insert` |
| DhtPeer.RemovePeerFromBucket | kademila/dhtpeer/dhtpeer.go:164-185 | the shifting loop, in place on the array, as `Remove` |
| DhtPeer.Store.constructor | kademila/dhtpeer/dhtpeer.go:21-32 | an empty store: eight buckets for every byte of the identifier |
| DhtPeer.Store.Add | kademila/dhtpeer/dhtpeer.go:34-44 | changes at most the one bucket, with the errors for a wrong length and a full bucket |
| DhtPeer.Store.Drop | kademila/dhtpeer/dhtpeer.go:46-57 | changes at most the one bucket, with the error for a wrong length |
| DhtPeer.Store.AllPeers | kademila/dhtpeer/dhtpeer.go:59-70 | the peers bucket by bucket in slot order |
| DhtPeer.Store.GetClosestPeers | kademila/dhtpeer/dhtpeer.go:72-115 | the loops over buckets, peers and slots return the greedy list of the store's peers |
| DhtPeer.KeepAllIsPlaceAll | kademila/dhtpeer/dhtpeer.go:83-103 | on different peers the list is the greedy list of their distances and holds offered peers with their own distances |
| DhtPeer.ClosestPeersOfStore | kademila/dhtpeer/dhtpeer.go:72-115 | on every reachable store: stored peers only, at most k, strictly ascending, the closest of all first, not empty unless the store is; the k closest, or all there are, exactly when these lie in the buckets in ascending order |
| Greedy.SlotsAreLeastEnds | kademila/dhtpeer/dhtpeer.go:91-102 | slot i holds the least distance in which a strictly increasing chain of i + 1 offers can end |
| Greedy.FilledIsLongestChain | kademila/kadmilla.go:427-453 | the number of filled slots is the smaller of the capacity and the length of the longest increasing chain of offers |
| Greedy.ClosestIff | kademila/kadmilla.go:427-453 | whatever was offered, repetitions included: the list is the closest distances exactly when some chain of offers goes through these in ascending order |
| Greedy.NotTheClosest | kademila/kadmilla.go:444-447 | two offers after which it is not |
| Greedy.SlotsNeverGrow | kademila/kadmilla.go:427-453 | an offer lowers at most one slot or fills the next; no slot's distance grows |
| Greedy.FirstSlotIsLeast | kademila/kadmilla.go:427-453 | the first slot is the least distance ever offered |
| SearchNodes.SearchList.PeerAlreadyAdded | kademila/kadmilla.go:484-495 | the search for an identifier, which an empty slot ends |
| SearchNodes.ContainsIff | kademila/kadmilla.go:484-495 | an identifier counts as listed exactly when it is in front of the first empty slot |
| SearchNodes.SearchList.AddSearchNode | kademila/kadmilla.go:418-425 | appends a node exactly when its identifier is new |
| SearchNodes.SearchList.AddSearchNodeIfCloser | kademila/kadmilla.go:427-453 | the loops over candidates and slots make the list and the count of `OfferAll` |
| SearchNodes.OfferAt | kademila/kadmilla.go:429-450 | a candidate passes other peers that are no farther away; it takes the slot it gets to if that is empty or holds another peer farther away, and nothing changes if it gets to its own or past the last |
| SearchNodes.OfferAllAppend | kademila/kadmilla.go:431-452 | candidates are offered one after the other, and those taken are counted |
| SearchNodes.SearchList.GetClosestNode | kademila/kadmilla.go:455-482 | nothing exactly when all are searched, otherwise the unsearched node farthest away, the first of several |
| SearchNodes.TakeClosestNode | kademila/kadmilla.go:356-360 | marks exactly the node it takes |
| SearchNodes.OfferIsPlace | kademila/kadmilla.go:427-453 | with true distances an offer is an offer of its distance, and one that is not taken changes nothing |
| SearchNodes.AscendingIsDifferent | kademila/kadmilla.go:427-453 | ascending true distances belong to different peers |
| SearchNodes.OfferAllProgress | kademila/kadmilla.go:427-453 | whatever distances are reported, negative ones included: a count of 0 means nothing changed, otherwise a slot was filled or the sum of the distances fell |
| GetSearch.StepKeeps | kademila/kadmilla.go:259-305 | every step of every worker keeps the invariant: different identifiers, and everything an asked node led to is listed or being added |
| GetSearch.GetIsExhaustive | kademila/kadmilla.go:235-318 | under every interleaving: if all workers stop without a result, every peer reachable through answers was asked and none had the value |
| GetSearch.ResultComesFromAPeer | kademila/kadmilla.go:286-299 | the result is the value or the fatal answer of a peer that was asked |
| GetSearch.FailuresAre | kademila/kadmilla.go:276-283 | when all workers have stopped, the collected failures are those of exactly the contacted peers that failed |
| GetSearch.ResultEndsSearch | kademila/kadmilla.go:262-299 | the first result stands; from then on each worker that was already past its look for a result contacts at most one more peer, and nobody else contacts anyone |
| GetSearch.CheckedMayContact | kademila/kadmilla.go:262-267 | and they may: while nodes are left each of these workers contacts one |
| GetSearch.ContactAfterResult | kademila/kadmilla.go:262-267 | a run of two or more workers in which somebody is contacted after the result came |
| GetSearch.AskedOnce | kademila/kadmilla.go:418-425 | no peer is asked twice, so at most 256^n are asked |
| GetSearch.StepProgress | kademila/kadmilla.go:259-305 | every step lowers a lexicographic measure |
| GetSearch.GetTerminates | kademila/kadmilla.go:259-308 | no schedule of any number of workers goes on for ever, also when peers change their answers |
| SetTermination.SetStepProgress | kademila/kadmilla.go:127-172 | every step fills an empty slot, lowers the sum of the distances, takes a node, gets an answer, looks whether the search is over or stops a worker |
| SetTermination.SetSearchTerminates | kademila/kadmilla.go:127-174 | the storer search ends under every schedule, also when peers change their answers, as long as a floor lies below all distances they report |
| SetTermination.FixedAnswersEnd | kademila/kadmilla.go:127-174 | so it does whatever the peers answer if none changes its answer |
| SetTermination.TrueDistancesEnd | kademila/kadmilla.go:127-174 | and if all report true distances, however their answers change |
| SetTermination.ChangingAnswersNeverEnd | kademila/kadmilla.go:127-174 | the floor can not be dropped: two peers named in turn at ever lower distances keep one worker with one slot going for ever |
| SetSearch.FruitlessAnswerEndsSearch | kademila/kadmilla.go:130-169 | a value, a fatal error or an answer that improves nothing ends the search, and nothing else does: from then on each worker that was already past its look at the end contacts at most one more peer, and nobody else contacts anyone |
| SetSearch.ClearedMayContact | kademila/kadmilla.go:130-138 | and they may: while nodes are left each of these workers contacts one |
| SetSearch.ContactAfterEnd | kademila/kadmilla.go:130-138 | a run, for any two or more slots and workers, in which somebody is contacted after the end |
| SetSearch.SetSearchEndsWhy | kademila/kadmilla.go:127-174 | when all workers have stopped there was such an answer, or every listed node was searched |
| SetSearch.EveryAnswerOffered | kademila/kadmilla.go:111-172 | over every run: what is offered to the list is the node itself, what its own store named, and all that contacted peers answered, no more; and the search is terminating once a contacted peer answered with a value or a fatal error |
| SetSearch.CandidateListExact | kademila/kadmilla.go:427-453 | over every run with true distances: filled slots are a prefix, strictly ascending, of different peers, each the least chain end of all offers, the first the closest ever offered |
| SetSearch.CandidatesClosestIff | kademila/kadmilla.go:427-453 | over every run with true distances the list is the closest of all peers ever reported exactly when these were among the reports in ascending order |
| SetSearch.SlotsNeverRise | kademila/kadmilla.go:427-453 | over every run, whatever the peers report, no slot of the candidate list ever gets emptied or farther away |
| SetSearch.ResultNodes | kademila/kadmilla.go:176-182 | the loop returns everything before the first empty slot |
| SetSearch.StorersAre | kademila/kadmilla.go:176-182 | of any list it is everything in front of the first empty slot |
| SetSearch.StorersOfPacked | kademila/kadmilla.go:176-182 | of a list without holes that is all of it |
| SetBlame.OneWorkerBlamesNonresponders | kademila/kadmilla.go:146-149 | a single worker blames exactly the contacted peers that failed, once that is known |
| SetBlame.OneSlotBlamesNonresponders | kademila/kadmilla.go:146-149 | so do any number of workers on a list of one slot |
| SetBlame.FailureIsBlamed | kademila/kadmilla.go:146-149 | every failed contact is blamed on somebody in the list: on the contacted peer if it is still in its slot |
| SetBlame.InnocentBlamed | kademila/kadmilla.go:146-149 | for any two or more slots and workers, a network with true distances and a run that blame a responding peer nobody contacted |
| SetBlame.BlamesRightlyIff | kademila/kadmilla.go:146-149 | over all truthful networks and schedules exactly those that failed are blamed if and only if there is at most one worker, or one slot |
| SetBlame.BlamedAreSized | kademila/kadmilla.go:146-149 | blamed peers have identifiers of the key's length |
| SetBlame.NamedTwiceIff | kademila/kadmilla.go:427-453 | an offer makes a list of different peers name one twice exactly when the peer is on it behind a slot that is empty or holds a greater distance than the one reported now |
| SetBlame.FalseDistanceRepeatsPeer | kademila/kadmilla.go:427-453 | so one false distance makes one peer count as two storers |
| SetStores.StoreRunConserves | kademila/kadmilla.go:203-233 | over every run each result node is waiting, held, acknowledged or failed as often as it is a result node, and who acknowledged has the value |
| SetStores.EveryNodeAnswered | kademila/kadmilla.go:226-232 | at the end acknowledgements and failures are together exactly the result nodes |
| SetStores.AckedAreAcknowledged | kademila/kadmilla.go:218-221 | exactly the nodes whose acknowledgement arrived count as stored, in that order |
| SetStores.TablesExactly | kademila/kadmilla.go:218-221 | over every run the tables of exactly the nodes that got the value, acknowledged or not, have it under the key; nothing else changes in any table |
| SetStores.StorePhaseEnds | kademila/kadmilla.go:203-233 | it ends after exactly two events a node and one a worker, and with a worker it can always go on until then |
| GetService.Service.HandleRequest | kademila/kdmgetvalue/kdmgetvalue.go:83-135 | the answer of a peer in its state: refusal, value, or its closest peers with true distances |
| GetService.HandleIs | kademila/kdmgetvalue/kdmgetvalue.go:83-135 | the error for a key of a wrong length, the internal error, the value, or the peers of the store that the greedy list of K slots keeps, with who answers and how far it is |
| GetService.Service.TryAddPeerToStore | kademila/kdmgetvalue/kdmgetvalue.go:174-191 | adds the requester when it is known, and treats a full bucket as success |
| GetService.Service.Answer | kademila/kdmgetvalue/kdmgetvalue.go:56-81 | the handler: response and changed store are those of `Serve` |
| GetService.ServeLeaves | kademila/kdmgetvalue/kdmgetvalue.go:56-81 | the requester is added to the store if it is known and the request was answered; nothing else changes |
| GetService.Service.Set | storage/storage.go:39-43 | replaces the entry of the key and nothing else |
| GetService.AddAll | kademila/kadmilla.go:394-405 | succeeds exactly when all identifiers have the store's length |
| GetService.AddAllIs | kademila/kadmilla.go:394-405 | the peers in front of the first of another length are added, one after the other |
| GetService.AddNodesToPeerstore | kademila/kadmilla.go:394-405 | the loop leaves the store of `AddAll` |
| Network.SentErrorsUnexpected | kademila/kdmgetvalue/kdmgetvalue.go:198-214 | no error text a peer sends is read as an expected error: an internal error carries its cause |
| Network.ExpectedTexts | kademila/kdmgetvalue/kdmgetvalue.go:198-214 | the asking side expects exactly the two bare texts of an invalid response and an internal error, and knows each text by itself |
| Network.AskIs | kademila/kdmgetvalue/kdmgetvalue.go:137-172 | what one contact comes to, case by case; an error response is expected exactly on connections that tell who answers |
| Network.AskNames | kademila/kdmgetvalue/kdmgetvalue.go:104-125 | a peer that answers with peers names those of its store that the greedy list of K slots keeps, or nobody if it has an empty value |
| Network.AskWellSized | kademila/kadmilla.go:373-376 | answers with identifiers of another length than the node's store has never reach a search: they end it |
| Network.AskTruthful | kademila/kdmgetvalue/kdmgetvalue.go:104-125 | peers that run the service report true distances, whatever their stores hold |
| Network.SelfSearchIs | kademila/kadmilla.go:187-201 | what the node finds at itself: an error for a key of a wrong length, its value unless that is empty, and otherwise the peers of its store that the greedy list of K slots keeps, with true distances |
| Network.AlreadySetIff | kademila/kadmilla.go:187-201 | SetValue reports a value already set exactly when the node itself has one that is not empty |
| Network.SearchFailsIff | kademila/kadmilla.go:109-120 | the storer search does not run exactly for identifiers and keys of different lengths, no slots, or a failing own lookup |
| Network.SearchIsOffered | kademila/kadmilla.go:111-172 | the storer search is offered what the node's own store names with one K, and what the stores of the contacted peers name with the other |
| Network.RemovalSucceeds | kademila/kadmilla.go:87-92 | removing the blamed peers from the node's store succeeds exactly when its identifiers are as long as the key or nobody was blamed; the store fits whenever the node has no entry for the key |
| Network.RemoveNonresponders | kademila/kadmilla.go:87-92 | the loop leaves the store of `RemoveAll` |
| Network.RemoveAllIs | kademila/kadmilla.go:87-92 | if all can be removed the store is as if they had been, one after the other |
| Network.SetValueStores | kademila/kadmilla.go:72-107 | a SetValue without error leaves the value stored at every peer that acknowledged it, at least MinNumStores of them, with different identifiers |
| Network.StoredIffAcknowledged | kademila/kadmilla.go:72-107 | once its search ran, SetValue succeeds exactly when the blamed peers can be removed and at least MinNumStores peers acknowledged; when it found fewer, or can not remove, it says so and stores nothing |
| Network.GetReturnsStored | kademila/kadmilla.go:235-336 | whatever GetValue returns is stored under the key by the node itself or a peer it contacted |
| Network.GetOutcomes | kademila/kadmilla.go:235-318 | what GetValue returns in all cases: the node's own value; an error for a wrong length; the value or the fatal error of a contacted peer; and once the search has ended not-found exactly when no contacted peer answered with either |
| Network.SetThenGet | kademila/kadmilla.go:72-318 | after a successful SetValue a GetValue that reaches a responding acknowledger returns a value stored by a peer it contacted, or the error of a failing own lookup or of a fatal answer, and never not-found |
| ChunkQueue.Conn.WriteUnread | transport/multiuse/conn.go:35-44 | appends the chunk, sets the close, and wakes exactly a waiting reader |
| ChunkQueue.Conn.BeginRead | transport/multiuse/conn.go:46-64 | end of file, sleep, or on to the copying loops |
| ChunkQueue.Conn.FinishRead | transport/multiuse/conn.go:57-61 | a woken read: end of file, or the flag is cleared and it goes on to the copying loops |
| ChunkQueue.Conn.CopyUnread | transport/multiuse/conn.go:66-79 | the nested copying loops return and leave what `CopyOut` says, and whether they filled the buffer |
| ChunkQueue.Conn.EmptyUnread | transport/multiuse/conn.go:81-85 | drops all chunks there are by then |
| ChunkQueue.StepsOfConn | transport/multiuse/conn.go:46-86 | the steps of a run are what the connection's methods do |
| ChunkQueue.CopyOutTakesFirst | transport/multiuse/conn.go:66-79 | the loops return the first pending bytes and leave the others; they get behind the last chunk exactly when they do not fill the buffer or nothing was pending |
| ChunkQueue.QueueIsFifo | transport/multiuse/conn.go:35-86 | over every run returned and pending bytes are, in order, those of all chunks but the ones that came between the end of a read's copying loops and its dropping of the chunks |
| ChunkQueue.AllSurviveIff | transport/multiuse/conn.go:66-85 | they are all bytes appended exactly when no byte came there |
| ChunkQueue.EofAfterAllData | transport/multiuse/conn.go:47-60 | with wake-up and check in one step and empty closing payloads, end of file comes only when nothing is pending |
| ChunkQueue.CloseIsSeen | transport/multiuse/conn.go:46-86 | the undisturbed reader of a closed connection gets all that is pending and then end of file, and never sleeps |
| ChunkQueue.AppendWakes | transport/multiuse/conn.go:41-43 | the first chunk that comes for a sleeping reader wakes it |
| ChunkQueue.WokenReadIs | transport/multiuse/conn.go:57-85 | an undisturbed woken read ends at a close, and otherwise returns as much as it has room for of what is pending |
| ChunkQueue.EofBeforeData | transport/multiuse/conn.go:57-60 | otherwise a close between wake-up and check loses any chunk, and the demultiplexer waits for ever |
| ChunkQueue.LostIff | transport/multiuse/conn.go:46-60 | an end of file comes before the data exactly when a woken reader meets a close and at least one byte came since it fell asleep |
| ChunkQueue.NeverBlocks | transport/multiuse/conn.go:41-43 | when nothing follows a close the demultiplexer never waits for a reader that is gone |
| ChunkQueue.BlockedIff | transport/multiuse/conn.go:35-60 | the demultiplexer waits for ever exactly when a payload arrives while a woken reader has not yet gone on, or after one met a close and left the flag set |
| ChunkQueue.EmptyReadIff | transport/multiuse/conn.go:51-85 | with a buffer that is not empty, an undisturbed read returns no bytes, no end of file and does not sleep exactly when there are chunks and no bytes are left in them |
| ChunkQueue.EmptyReadAfterFullOne | transport/multiuse/conn.go:72-74 | so it is after a read that took exactly what was there |
| ConnMuxer.Muxer.HandleNewPayload | transport/multiuse/conn_muxer.go:62-84 | on the map of connections: appends to the one named, makes and returns a new one, or meets a nil entry; no other connection changes |
| ConnMuxer.Muxer.NewConn | transport/multiuse/conn_muxer.go:86-92 | adds an empty connection and changes no other entry |
| ConnMuxer.Muxer.WriteToConnWithID | transport/multiuse/conn_muxer.go:94-103 | sends the payload exactly when the identifier is known |
| ConnMuxer.Muxer.CloseConnWithID | transport/multiuse/conn_muxer.go:105-114 | sends the empty closing payload exactly when the identifier is known |
| ConnMuxer.ArriveHandles | transport/multiuse/conn_muxer.go:62-84 | a step of a run changes the entries as HandleNewPayload does |
| ConnMuxer.Demultiplexed | transport/multiuse/conn_muxer.go:62-84 | over every orderly interleaving each connection is what its own events make it; what its reader got and what is pending are the bytes that arrived for it, in order, exactly when no byte was dropped; end of file comes only when nothing is pending |
| ConnMuxer.AnnouncedOnce | transport/multiuse/conn_muxer.go:79-83 | exactly the connections that the peer opened are announced, once each |
| ConnMuxer.CrashedIff | transport/multiuse/conn_muxer.go:70-77 | while opened identifiers are new, a payload meets a nil connection exactly when, before the muxer waits for ever, it arrives behind one that closed its connection and was not the connection's first |
| ConnMuxer.StuckIff | transport/multiuse/conn_muxer.go:62-84 | while opened identifiers are new, the muxer waits for ever exactly when some connection's chunk waits for a reader that does not come, and then takes no more payloads |
| ConnMuxer.PayloadAfterClose | transport/multiuse/conn_muxer.go:70-77 | a run in which one does |
| ConnMuxer.CloseReachesIff | transport/multiuse/conn_muxer.go:69-83 | in an orderly run a connection is closed for its reader exactly when a closing payload came that was not the connection's first |
| ConnMuxer.FirstCloseLost | transport/multiuse/conn_muxer.go:79-83 | a run in which a first payload's close is lost and the reader sleeps |

## Left out

- TCP, gob, multistream selection, dialling, contexts and timeouts: links are byte streams, requests and payloads values. Gob's one visible effect, that an empty value arrives as none, is in `GetService.Transferred`.
- AES, RSA, key generation and transport/encrypted: a keystream is an arbitrary function, and nothing is claimed about secrecy.
- transport/onion, transport/proxy, protocol/ping, protocol/proxy, node and examples: no property of their own.
- Errors of writes to the link: a write below always succeeds, so `TransformConn.Conn.Write` fails only with its transform.
- Transforms are functions of their argument that return fresh memory; `NOPTransform`, which returns its argument, behaves as no transform does here.
- FramingRuns.FramingSafe: covers the writes that get through, and runs until the first error. For the other writes `FramingWriter.WriteCompleteIff` and `FramingWriter.BareIntactIff` say that they go wrong; with a transform that can fail, a write that fails is an error.
- The client's nested connections are values: `TransformConn.Conn` is the imperative form of one layer.
- OnionForward.OnionOutwards: one direction of a circuit at a time; requests and responses of the handshake are exchanges of the two directions in turn.
- OnionSetup.EstablishCircuit: what protocol selection writes and reads is a list of exchanges, and how it decides a function of the bytes read. The relays' side of the handshake (reading the request, dialling the next node) is not part of this model.
- Random waits in relays, and the closing of one direction by the end of the other, which a reader sees as a failing read.
- A negative `K` in a request, for which GetClosestPeers panics.
- Data races on shared slices: the candidate list and the error lists change in whole steps and are read after all workers have stopped.
- The result of combineErrors and other error texts, except those compared by `convertToError`.
- Network.SetThenGet: the network answers by a fixed function during each search, as if serving a request did not add the requester to the store; between the two calls peer stores may change in any way, the tables may not.
- Payloads on their way between two muxers: the payloads encoded by one are taken to arrive in order at the other.
- RemoteAddr, RemoteID, PublicKey, ReadByte, Close and Bootstrap: they add only easy members.

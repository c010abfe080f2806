# Fissure's download engine, verified

A Dafny model of the download engine of Fissure, a BitTorrent client built from actors, and proofs of the
properties it relies on. Check everything with `dafny verify dfyconfig.toml`.

## What is modelled

| file | part of the engine |
|---|---|
| `Base.dfy` | bytes, the 32-bit truncation of `as u32`, prefix sums |
| `TorrentMeta.dfy` | piece arithmetic: count, lengths, tiling of the stream |
| `PieceManager.dfy` | one piece assembled from blocks: state as a value, one function per message, and the actor |
| `PieceRuns.dfy` | whole runs of a piece manager: reassembly and block leases |
| `DiskManager.dfy` | one byte stream laid over many files: the flush and read loops |
| `PeerMessages.dfy` | the wire codec: frames, payloads, bitfields, streams of messages |
| `TorrentManager.dfy` | the scheduler's state, without the rarity buckets, and the invariant every message keeps |
| `TorrentEffects.dfy` | what each message does to that state, field by field |
| `TorrentActor.dfy` | the scheduler actor, which keeps the buckets as an index over that state |
| `TorrentRuns.dfy` | whole runs of the scheduler: what always holds, and exactly when the frequencies are exact |
| `WorkCounts.dfy` | the work accounts over whole runs: what each count is made of, and exactly when a piece is stuck |
| `PeerProtocol.dfy` | the peer's concurrent tasks as interleavings: the request window, the Have announcements |
| `PeerWriter.dfy` | the writer's top-off passes, run without interference |
| `Engine.dfy` | all actors interleaved, with the flush split into its per-file steps, and what holds in every run |
| `EndToEnd.dfy` | end-to-end safety: exactly when a logged piece is the original, and which deliveries are safe |
| `LateBlock.dfy` | two runs in which one late block leaves a logged piece wrong |

An actor of the source is a class whose methods update its fields in place; each method is proved against a function
on plain states, and the theorems about runs are proved about those functions. A run is a sequence of states and
messages (or steps) in any order. Where a message makes the source panic, the method reports it (a reply `Panic`,
`None` or `panicked`) or leaves an actor that answers nothing any more (`Piece.alive`, after a block index past the
bitset), and its contract says exactly when; runs are of messages that are handled. Times are integers passed in,
SHA-1 is a parameter about which nothing is assumed, a file is the byte sequence it holds, and a disk error is a
parameter saying how much of the write got through. A write that fails is taken to report it itself; the runtime's
file handles may report it only on a later call, and the source never flushes them. The order in which a hash set or a
shuffled list is visited is left open.

What the proofs say about the code as it stands:

* A block that arrives for a piece that has already verified is still copied into the buffer, and the flush reads the
  buffer later, file by file. In every run, whatever is delivered, a logged piece is the original on disk if and only
  if each of those reads found the true bytes (`EndToEnd.LoggedTrueIff`). A wrong block between verification and the
  end of the flush breaks that (`LateBlock.LateWrongBlockIsLogged`); before and after, wrong blocks do no harm, nor do
  blocks for other pieces at any time.
* A block whose index is past the end of its piece changes no byte but ends the piece manager, whose data request is
  then answered with nothing. A flush in that state writes nothing, reports success, and the piece is logged
  (`LateBlock.LateBlockPastEndIsLogged`).
* So a delivery is safe for a piece, in the theorems below, if it changes nothing while the verified buffer is still to
  be read and its index is in range; before that it may be anything, as long as no wrong buffer met in the run passes
  the hash test. Aligned true blocks always are safe, with no assumption on the hash (`EndToEnd.HonestRuns`).
* `AddPeer` for an id that still has work forgets the work but not the counts. In every run the count of an unfinished
  piece is its workers plus the workers so forgotten; when cap + 1 have been forgotten, and only then, the piece is
  stuck: nobody works on it and nobody is ever given it again (`WorkCounts.CountsExplained`, `WorkCounts.StuckIff`). It
  happens (`WorkCounts.StuckIsReachable`). The counts are exact throughout a run if and only if no busy peer registers
  again in it (`WorkCounts.CountsExactRunIff`).
* Frequencies never go down when a bitfield is replaced, so they are exact throughout a run if and only if no
  replacement drops an unowned piece, apart from pieces already saturated (`TorrentRuns.FreqExactRunIff`).
* The in-flight counter never exceeds its cap, but after a choke resets it the requests really outstanding can, both
  after an unchoke and in a pass that goes on with the choke flag it read before. `PeerProtocol.WireSafeIff` is the
  exact condition: the counter must cover what is on the wire.
* The test `count <= cap` before the increment makes the bound on workers per piece cap + 1, and it is reached
  (`WorkCounts.CapPlusOneReached`).
* DOCUMENTATION.md says a bitfield of the wrong size or with spare bits set is an error that drops the connection. The
  code makes no such check. A set spare bit, a Have from a peer that has sent no bitfield yet, or one past it, panics
  the torrent manager instead; the contracts of its methods say exactly when.

## Model

| member | source | states |
|---|---|---|
| TorrentMeta.DownloadSize | fissure_client/src/models/torrent_meta.rs:85-91 | the loop totals all file lengths, for single- and multi-file torrents |
| TorrentMeta.SizesExact | fissure_client/src/models/torrent_meta.rs:47-62 | the sizes are that of the single file, or those listed, in order |
| TorrentMeta.HashOfTable | fissure_client/src/models/torrent_meta.rs:92-97 | in a table of 20-byte digests, hash k is the k-th of them |
| TorrentMeta.PieceCount | fissure_client/src/models/torrent_meta.rs:98-102 | the piece count is the ceiling: n pieces reach the end of the torrent and n - 1 do not |
| TorrentMeta.PieceEnd | fissure_client/src/models/torrent_meta.rs:103-126 | piece i is never empty and covers exactly [i*L, min((i+1)*L, total)), also when the remainder is 0 |
| TorrentMeta.PiecesDisjoint | fissure_client/src/models/torrent_meta.rs:103-126 | different pieces share no byte |
| TorrentMeta.PieceOfByte | fissure_client/src/models/torrent_meta.rs:103-126 | every byte of the torrent lies in exactly one piece, number b / L |
| TorrentMeta.PiecesSumToTotal | fissure_client/src/models/torrent_meta.rs:103-126 | the piece lengths add up to the torrent's size |
| PieceManager.BlocksTilePiece | fissure_client/src/managers/piece_manager.rs:28-33 | block count and sizes are those of the same tiling applied to a piece, so blocks partition it |
| PieceManager.BlocksSumToPiece | fissure_client/src/managers/piece_manager.rs:28-33 | the block sizes add up to the piece's length |
| PieceManager.OffsetIndexInverse | fissure_client/src/managers/piece_manager.rs:54-59 | offset-to-index undoes index-to-offset on every byte of a block and on no other byte |
| PieceManager.BatchIsFirstEligible | fissure_client/src/managers/piece_manager.rs:77-97 | a batch has min(k, eligible) blocks, in index order, all eligible, and passes over no earlier eligible block |
| PieceManager.GrantedRangesInPiece | fissure_client/src/managers/piece_manager.rs:86-90 | every range asked of a peer is one whole non-empty block inside the buffer |
| PieceManager.NewPieceExact | fissure_client/src/managers/piece_manager.rs:26-52 | a new piece is zeros of its length, with no lease and every block to be had |
| PieceManager.EligibleExact | fissure_client/src/managers/piece_manager.rs:86 | a block may be given out iff the piece manager lives, it has not arrived and nobody has it on lease |
| PieceManager.LeaseExact | fissure_client/src/managers/piece_manager.rs:77-97 | a request leases exactly the granted blocks, stamped with its time, and changes nothing else |
| PieceManager.TickExact | fissure_client/src/managers/piece_manager.rs:180-195 | a tick ends exactly the leases older than the timeout, and changes nothing else |
| PieceManager.LeaseConsistent | fissure_client/src/managers/piece_manager.rs:77-97 | granting keeps required = not downloaded, in flight = has a timer, in flight and downloaded disjoint |
| PieceManager.ReceiveConsistent | fissure_client/src/managers/piece_manager.rs:98-136 | so does any delivery, duplicate, late or wrong, including the reset on a hash mismatch |
| PieceManager.TickConsistent | fissure_client/src/managers/piece_manager.rs:180-195 | so does a timeout tick |
| PieceManager.ExpiredIsEligibleAgain | fissure_client/src/managers/piece_manager.rs:180-195 | after a tick a leased block may be granted again if and only if its lease has run out |
| PieceManager.ReplyExact | fissure_client/src/managers/piece_manager.rs:98-136 | for any block inside the bitset: the bytes land at 16384 times its index if they fit and nowhere else; the reply is true iff all other blocks were in and the buffer hashes right; a complete piece that hashes wrong has every block eligible again, otherwise exactly this block is marked and its lease ended; a block index past the bitset, and only that, ends the actor |
| PieceManager.PieceActor.constructor | fissure_client/src/managers/piece_manager.rs:26-52 | a new actor is the empty piece: all blocks required, a zeroed buffer |
| PieceManager.PieceActor.BlocksToRequest | fissure_client/src/managers/piece_manager.rs:77-97 | the loop with its early exit grants exactly the first eligible blocks, with their ranges, and nothing else changes |
| PieceManager.PieceActor.BlockReceived | fissure_client/src/managers/piece_manager.rs:98-136 | for every offset, past the bitset too, the in-place update and the reply are those of the specification whose properties are proved here |
| PieceManager.SlicesJoin | fissure_client/src/managers/piece_manager.rs:137-152 | wherever a reader cuts a stretch of the piece, its slices are together that stretch, or nothing at all if the actor is gone |
| PieceManager.PieceActor.OnTick | fissure_client/src/managers/piece_manager.rs:180-195 | dropping the expired timers one by one, in any order, is one tick |
| PieceRuns.Reassembly | fissure_client/src/managers/piece_manager.rs:98-136 | in every run of true blocks mixed with requests and ticks, downloaded = delivered and the buffer holds the true bytes there and zeros elsewhere; no reset happens |
| PieceRuns.OrderIndependent | fissure_client/src/managers/piece_manager.rs:98-136 | two runs that delivered the same blocks in any order end with the same bits and bytes |
| PieceRuns.ReplyTrueIffComplete | fissure_client/src/managers/piece_manager.rs:117-124 | a true block gets the reply true iff every block has now been delivered, and then the buffer is the piece |
| PieceRuns.LeaseExclusive | fissure_client/src/managers/piece_manager.rs:77-97 | a block is granted twice only if, in between, a tick came more than the timeout after the first grant, or the piece was reset by a hash mismatch |
| DiskManager.WriteRefinesOverlay | fissure_client/src/managers/disk_manager.rs:77-107 | a write inside one file, zero-filling any gap, is a write to the flat stream at that file's offset and touches no other byte |
| DiskManager.VisitAdvances | fissure_client/src/managers/disk_manager.rs:66-87 | whichever branch the loop takes on a file, empty files included, the part of the range before the next file is what has been handled |
| DiskManager.FinishedEarlyOrLate | fissure_client/src/managers/disk_manager.rs:66-76 | leaving the loop early or at the last file, all of the range that lies in the stream has been handled |
| DiskManager.DiskActor.constructor | fissure_client/src/managers/disk_manager.rs:25-58 | the offsets are the prefix sums of the sizes, existing content is kept, and an actor whose files do not open never runs |
| DiskManager.DiskActor.FlushPieceToDisk | fissure_client/src/managers/disk_manager.rs:62-112 | for every list of sizes the concatenated files are the old ones with exactly [index*L, index*L+len) replaced, nothing is left pending for a piece inside the torrent, and a failed flush changes nothing outside the piece and stops the actor |
| DiskManager.FlushExact | fissure_client/src/managers/disk_manager.rs:62-112 | on the files themselves: after a flush each byte of each file is the byte of the piece at its place in the stream, or what it was |
| DiskManager.DiskActor.GetDataWithLength | fissure_client/src/managers/disk_manager.rs:113-166 | the result is the slice of the flat stream cut at its end, or None (and the actor stops) if and only if some byte of it is not on disk |
| DiskManager.ReadExact | fissure_client/src/managers/disk_manager.rs:113-166 | on the files themselves: a read succeeds iff every byte of the range is in its file, and gives each at its place |
| DiskManager.ReadUndoesFlush | fissure_client/src/managers/disk_manager.rs:113-166 | any sub-range of a flushed piece reads back as that slice of the piece, whatever else was written since, as long as the piece's own bytes were left alone |
| DiskManager.ReadAfterOtherFlushes | fissure_client/src/managers/disk_manager.rs:62-166 | so it does after any number of flushes of other pieces, before it and after it in the stream, finished or failed |
| PeerMessages.GetPutU32 | fissure_client/src/models/peer_messages.rs:129-131 | reading back a big-endian field gives the value modulo 2^32 |
| PeerMessages.DecodeExact | fissure_client/src/models/peer_messages.rs:28-79 | on the bytes of a payload: which message each id gives, with big-endian fields at their offsets and bits from the high end; a panic iff there are too few bytes for the id |
| PeerMessages.FrameExact | fissure_client/src/models/peer_messages.rs:95-110 | a frame is whole iff the buffer holds the length its first four bytes announce, and it is cut off exactly there |
| PeerMessages.EncodeExact | fissure_client/src/models/peer_messages.rs:116-155 | the bytes written for each message: length, id, fields modulo 2^32, bits in order and zeros after them |
| PeerMessages.BlockRead | fissure_client/src/models/peer_messages.rs:60-66 | a frame with id 7, index, offset and data is read as that block, wherever the buffer goes on |
| PeerMessages.CancelRead | fissure_client/src/models/peer_messages.rs:67-73 | a frame with id 8 is read as exactly its index, offset and length |
| PeerMessages.UnpackPack | fissure_client/src/models/peer_messages.rs:137-142 | a bitfield comes back with its bits, most significant first, zero-padded to a byte |
| PeerMessages.PackUnpack | fissure_client/src/models/peer_messages.rs:47-52 | a received bitfield re-encodes to the same bytes |
| PeerMessages.DrainConcat | fissure_client/src/models/peer_messages.rs:95-110 | decoding what is there and then the rest reads the same as decoding it all at once, panics included |
| PeerMessages.ChunkingIrrelevant | fissure_client/src/models/peer_messages.rs:95-110 | for any bytes and any chunking, the messages, the left-over bytes and the crash flag do not depend on the chunks |
| PeerMessages.EncodedPayload | fissure_client/src/models/peer_messages.rs:116-155 | every encoded message is a correct length prefix and a payload that decodes to what the wire carries |
| PeerMessages.StreamRoundTrip | fissure_client/src/models/peer_messages.rs:95-155 | encode any list of messages, cut the bytes anywhere: the reader yields what the wire carries of the list and an empty buffer |
| PeerMessages.WireFaithful | fissure_client/src/models/peer_messages.rs:116-155 | a message comes back unchanged iff it is a sent variant with fields below 2^32 and whole bytes of bits |
| PeerMessages.ListRoundTripsIff | fissure_client/src/models/peer_messages.rs:116-155 | a list comes back unchanged iff every message in it does |
| PeerMessages.PeerCodec.Decode | fissure_client/src/models/peer_messages.rs:95-110 | takes exactly one whole frame off the buffer and returns the message its bytes say, or leaves an incomplete one untouched |
| PeerMessages.PeerCodec.DecodeAll | fissure_client/src/models/peer_messages.rs:95-110 | calling the decoder until it needs more bytes drains the buffer |
| PeerMessages.PeerCodec.Encode | fissure_client/src/models/peer_messages.rs:116-155 | appends the bytes of the message to the buffer, and nothing for unsent variants |
| TorrentManager.InitInv | fissure_client/src/managers/torrent_manager.rs:41-66 | the initial state satisfies the whole invariant |
| TorrentManager.HoldersAfter | fissure_client/src/managers/torrent_manager.rs:116-122 | how storing a bitfield changes the number of peers holding a piece |
| TorrentManager.AddBitfieldInv | fissure_client/src/managers/torrent_manager.rs:229-232 | replacing a bitfield keeps freq >= min(255, holders) for unowned pieces, and the rest of the invariant |
| TorrentManager.AddPeerInv | fissure_client/src/managers/torrent_manager.rs:116-122 | registering a peer, new or known, keeps the invariant |
| TorrentManager.AddHaveInv | fissure_client/src/managers/torrent_manager.rs:233-237 | a Have message keeps the invariant |
| TorrentManager.AssignCounts | fissure_client/src/managers/torrent_manager.rs:207-223 | giving out work raises a piece's count and its number of workers together, and counts stay within cap + 1 |
| TorrentManager.AssignInv | fissure_client/src/managers/torrent_manager.rs:197-223 | giving out work keeps work lists free of repeats and every listed piece unowned with a live piece manager |
| TorrentManager.LiveMembers | fissure_client/src/managers/torrent_manager.rs:289-301 | exactly the entries of unowned pieces that have not timed out stay, without repeats |
| TorrentManager.ExpireCounts | fissure_client/src/managers/torrent_manager.rs:285-303 | expiry takes one off a count exactly when it takes a worker off the piece |
| TorrentManager.ExpireInv | fissure_client/src/managers/torrent_manager.rs:281-312 | expiry keeps the invariant |
| TorrentManager.WithoutMembers | fissure_client/src/managers/torrent_manager.rs:254-261 | stripping a finished piece removes exactly its entries |
| TorrentManager.FinishInv | fissure_client/src/managers/torrent_manager.rs:238-280 | finishing a piece, flushed or not, keeps the invariant: owned pieces have frequency 0 and no count, worker or manager; the log names owned pieces once and sums to the downloaded bytes |
| TorrentEffects.InitBlank | fissure_client/src/managers/torrent_manager.rs:41-66 | at the start nothing is owned, counted, worked on or logged |
| TorrentEffects.AddPeerExact | fissure_client/src/managers/torrent_manager.rs:116-122 | the peer has the bitfield and an empty work list, the pieces new for it and unowned count one more up to 255, and nothing else changes |
| TorrentEffects.AddBitfieldExact | fissure_client/src/managers/torrent_manager.rs:229-232 | the same without the work list |
| TorrentEffects.AddHaveExact | fissure_client/src/managers/torrent_manager.rs:233-237 | the peer's bitfield has exactly the one bit more, the piece counts one more up to 255 iff unowned and new for the peer, and nothing else changes |
| TorrentEffects.OfferExact | fissure_client/src/managers/torrent_manager.rs:146-191 | there is no work for a peer iff every piece it holds is owned, counted above the cap, or on its list |
| TorrentEffects.RarestExact | fissure_client/src/managers/torrent_manager.rs:146-185 | a piece chosen is one the peer could take, and no such piece has a lower frequency |
| TorrentEffects.AssignExact | fissure_client/src/managers/torrent_manager.rs:197-223 | the piece is at the end of the peer's list with the time of the request, its count is one higher, it has a manager of its length, and nothing else changes |
| TorrentEffects.ExpireExact | fissure_client/src/managers/torrent_manager.rs:281-312 | the list keeps exactly the entries of unowned pieces no older than the timeout, each piece whose time is up counts one less, and nothing else changes |
| TorrentEffects.FinishExact | fissure_client/src/managers/torrent_manager.rs:238-280 | the piece is owned and gone from frequencies, counts, lists and live managers; it is logged and its length counted iff it had a live manager and the flush succeeded |
| TorrentActor.BucketsPartition | fissure_client/src/managers/torrent_manager.rs:83-90 | buckets are pairwise disjoint, and a piece in none of them has frequency 0 |
| TorrentActor.MoveKeepsIndex | fissure_client/src/managers/torrent_manager.rs:84-89 | moving a counted piece keeps the buckets the inverse of the frequencies |
| TorrentActor.RemoveKeepsIndex | fissure_client/src/managers/torrent_manager.rs:247-250 | so does taking out an owned piece |
| TorrentActor.EligibleInBucket | fissure_client/src/managers/torrent_manager.rs:146-185 | a piece that may be given out is counted at least once and so sits in a bucket |
| TorrentActor.FirstFoundIsRarest | fissure_client/src/managers/torrent_manager.rs:146-185 | the first eligible piece found bucket by bucket has minimal frequency among all eligible pieces |
| TorrentActor.NoneFoundIsNone | fissure_client/src/managers/torrent_manager.rs:146-185 | if no bucket has an eligible piece, no piece is eligible |
| TorrentActor.TorrentManagerActor.constructor | fissure_client/src/managers/torrent_manager.rs:41-66 | the new actor satisfies the invariant, with the buckets an index of the frequencies |
| TorrentActor.TorrentManagerActor.UpdateFreqBitfield | fissure_client/src/managers/torrent_manager.rs:67-93 | the pass over the set bits panics iff one is past the last piece; otherwise it counts exactly the pieces new for this peer and unowned, saturating, and keeps the buckets exact |
| TorrentActor.TorrentManagerActor.UpdateFreqHave | fissure_client/src/managers/torrent_manager.rs:95-112 | a Have counts like a bitfield with one more bit; it panics iff the piece is unowned and past a known peer's stored bitfield or the last piece |
| TorrentActor.TorrentManagerActor.OnAddPeer | fissure_client/src/managers/torrent_manager.rs:116-122 | the in-place update is the specified one and the reply is our own bitfield, unless a bit past the last piece is set, and only then the manager ends |
| TorrentActor.TorrentManagerActor.OnAddBitfield | fissure_client/src/managers/torrent_manager.rs:229-232 | the in-place update is the specified one, unless a bit past the last piece is set, and only then the manager ends |
| TorrentActor.TorrentManagerActor.OnUpdateBitfield | fissure_client/src/managers/torrent_manager.rs:233-237 | the manager ends iff the peer is unknown or the index is past its stored bitfield or the last piece; otherwise the helper's update and the arm's second one together are one bitfield update with one more bit |
| TorrentActor.TorrentManagerActor.FindPiece | fissure_client/src/managers/torrent_manager.rs:146-185 | the search over the buckets finds a rarest eligible piece, or none exactly when none is eligible |
| TorrentActor.TorrentManagerActor.OnRequestWork | fissure_client/src/managers/torrent_manager.rs:127-228 | no work iff the peer is unknown or nothing is eligible, otherwise a rarest eligible piece is assigned; a panic iff there is work for a peer with a bitfield and no work list, so never if every peer with a bitfield has one |
| TorrentActor.TorrentManagerActor.OnPieceFinish | fissure_client/src/managers/torrent_manager.rs:238-280 | repeated news is ignored; otherwise the piece is retired everywhere, and logged, counted and published only if a live manager's flush succeeded; an index past the last piece, and only that, ends the manager |
| TorrentActor.TorrentManagerActor.OnUpdateAndGetActive | fissure_client/src/managers/torrent_manager.rs:281-312 | the list loses exactly its overdue and owned entries, their counts follow, and the reply is the list |
| TorrentActor.TorrentManagerActor.OnGetPieceManager | fissure_client/src/managers/torrent_manager.rs:340-348 | the shared handle, with its index and length, while the piece is live |
| TorrentRuns.FetchesJoin | fissure_client/src/managers/torrent_manager.rs:349-357 | two consecutive fetches of the log, with anything in between, are together one fetch at the later time: no piece is missed and none comes twice |
| TorrentRuns.InvAlways | fissure_client/src/managers/torrent_manager.rs:113-364 | the invariant holds in every state of every run |
| TorrentRuns.RunProgress | fissure_client/src/managers/torrent_manager.rs:238-280 | over any stretch of a run ownership is kept, a live piece stays live until owned, the log only grows, and so do the downloaded bytes |
| TorrentRuns.CreatedOnce | fissure_client/src/managers/torrent_manager.rs:197-206 | in no run is a second piece manager made for the same piece |
| TorrentRuns.FinishedForGood | fissure_client/src/managers/torrent_manager.rs:238-280 | in no run is an owned piece assigned again, or a piece flushed twice |
| TorrentRuns.LoggedIff | fissure_client/src/managers/torrent_manager.rs:264-275 | in a run from the start a piece is in the log iff some message handed it to the disk with success |
| TorrentRuns.DownloadConserved | fissure_client/src/managers/torrent_manager.rs:264-275 | the downloaded bytes never exceed the torrent and equal it iff every piece is in the log |
| TorrentRuns.BitfieldExactIff | fissure_client/src/managers/torrent_manager.rs:67-93 | exact frequencies stay exact iff the new bitfield drops no unowned piece held by at most 255 peers |
| TorrentRuns.FreqExactRunIff | fissure_client/src/managers/torrent_manager.rs:67-122 | in a run from the start, freq = min(255, holders) for every unowned piece in every state iff no AddPeer or AddBitfield in it drops an unowned piece held by at most 255 peers |
| TorrentRuns.FreqExactAlways | fissure_client/src/managers/torrent_manager.rs:67-122 | so it does in every run where replaced bitfields only grow |
| TorrentRuns.FrequencyOvercounts | fissure_client/src/managers/torrent_manager.rs:229-232 | a reachable state whose frequencies a shrinking bitfield makes too high |
| WorkCounts.CountsExplained | fissure_client/src/managers/torrent_manager.rs:207-303 | in every run from the start the count of an unfinished piece is its workers plus the workers forgotten by second registrations; at most cap + 1 are, and the piece is stuck iff it is that many |
| WorkCounts.CountsExactIff | fissure_client/src/managers/torrent_manager.rs:207-303 | in a state of a run every count is the number of workers iff no worker on an unfinished piece was forgotten |
| WorkCounts.AddPeerExactIff | fissure_client/src/managers/torrent_manager.rs:116-119 | exact counts stay exact iff the registering peer had no work |
| WorkCounts.CountsExactRunIff | fissure_client/src/managers/torrent_manager.rs:207-303 | every count is the number of workers in every state of a run iff no busy peer registers again in it |
| WorkCounts.WorkLasts | fissure_client/src/managers/torrent_manager.rs:281-303 | a piece given to a peer at some time and unfinished is on its list after a later expiry, whatever happened in between short of the peer registering or getting it again, iff no more than the timeout has passed; the expiry that drops it takes exactly one off its count |
| WorkCounts.StuckIff | fissure_client/src/managers/torrent_manager.rs:165-173 | an unfinished piece is given out in no run from here on iff nobody works on it and its count is above the cap |
| WorkCounts.StuckForever | fissure_client/src/managers/torrent_manager.rs:165-173 | over any continuation a stuck piece stays stuck until a late block finishes it |
| WorkCounts.StuckIsReachable | fissure_client/src/managers/torrent_manager.rs:116-119 | for every configuration a run of messages as peers send them (empty bitfields at registration, whole bytes later) leads to a piece that is never given out again |
| WorkCounts.CapPlusOneReached | fissure_client/src/managers/torrent_manager.rs:165-167 | for every configuration such a run has cap + 1 peers working on one piece |
| TorrentRuns.TrackedAlways | fissure_client/src/managers/torrent_manager.rs:216-223 | in runs where a peer's messages follow its registration, every peer with a bitfield has a work list |
| TorrentRuns.RequestAnswered | fissure_client/src/managers/torrent_manager.rs:207-223 | in such states every request for work can be answered without a panic, with None exactly when nothing is eligible |
| PeerProtocol.InflightBounded | fissure_client/src/protocols/peer_protocol_state_machine.rs:40-80 | over every interleaving of sends with block arrivals, chokes and unchokes, the counter plus what the writer still owes it is at most the cap |
| PeerProtocol.WireStepIff | fissure_client/src/protocols/peer_protocol_state_machine.rs:303-342 | exactly which chokes and unasked-for blocks let the counter fall below the requests outstanding |
| PeerProtocol.WireSafeIff | fissure_client/src/protocols/peer_protocol_state_machine.rs:40-80 | in any state of any run, the requests outstanding stay within the cap until the next choke or unasked-for block if and only if the counter covers those on the wire now |
| PeerProtocol.OutstandingBounded | fissure_client/src/protocols/peer_protocol_state_machine.rs:40-80 | so without chokes and unasked-for blocks the peer never holds more than cap unanswered requests |
| PeerProtocol.StaleFlagOverruns | fissure_client/src/protocols/peer_protocol_state_machine.rs:93-100 | a run with one choke in the middle of a pass where it holds more, the last one sent while choked: the pass goes on with the flag it read before |
| PeerProtocol.UnchokeOverruns | fissure_client/src/protocols/peer_protocol_state_machine.rs:303-312 | a run with a choke and an unchoke between passes where it holds more |
| PeerProtocol.HaveStepInv | fissure_client/src/protocols/peer_protocol_state_machine.rs:264-278 | every step of completions and of the writer keeps how often each log position has been announced |
| PeerProtocol.NoGaps | fissure_client/src/protocols/peer_protocol_state_machine.rs:264-278 | in every interleaving last_seen <= watch <= log length, and everything logged between the writer's start and last_seen was announced, once or twice, and nothing else before it was logged |
| PeerProtocol.NothingBeforeStart | fissure_client/src/protocols/peer_protocol_state_machine.rs:228 | the writer starts at the watch value it finds, and never announces what was published before |
| PeerProtocol.AnnouncedTwice | fissure_client/src/protocols/peer_protocol_state_machine.rs:264-278 | a run in which a piece is announced twice |
| PeerProtocol.FetchNeverPanics | fissure_client/src/managers/torrent_manager.rs:349-357 | the slice of the log a writer asks for is always in range |
| PeerWriter.GrantedIffEligible | fissure_client/src/protocols/peer_protocol_state_machine.rs:59-63 | a candidate is passed over exactly when it has no block to give |
| PeerWriter.PeerState.TopOffInflightWindow | fissure_client/src/protocols/peer_protocol_state_machine.rs:30-83 | progress iff not choked, room in the window and some active piece has a block; the messages sent are one request for each block put on lease, with its offset and length, and no other |
| PeerWriter.PeerState.RunWindowTopoff | fissure_client/src/protocols/peer_protocol_state_machine.rs:87-101 | terminates choked, with a full window, or with nothing left to ask for, having sent and counted exactly one request for each block put on lease |
| PeerWriter.PeerState.RequestPiece | fissure_client/src/protocols/peer_protocol_state_machine.rs:129-137 | the manager's choice is tracked through the piece manager all peers share, in whatever state they left it; only a piece that was not live gets a new, empty one |
| PeerWriter.PeerState.FullPassTurn | fissure_client/src/protocols/peer_protocol_state_machine.rs:113-146 | a turn that makes progress uses up room in the caps, and one that makes none leaves no slack |
| PeerWriter.PeerState.RunFullPass | fissure_client/src/protocols/peer_protocol_state_machine.rs:105-148 | terminates with no slack: choked, or window full or nothing to ask for, and piece cap reached or nothing for this peer; one request for each block put on lease, as many as the counter rose by, and Interested at most once |
| Engine.ShapedAlways | fissure_client/src/managers/torrent_manager.rs:113-364 | in every state of every run, whatever is delivered, the actors' states fit together: each live piece has its one piece manager, of the right length and consistent; a flush is of an owned, unlogged piece and has dealt with exactly the bytes before its next file |
| Engine.UntouchedPiece | fissure_client/src/managers/disk_manager.rs:62-112 | only the flush of a piece changes a byte of it on disk |
| Engine.FinishSpread | fissure_client/src/managers/torrent_manager.rs:238-280 | a finish whose flush is spread over steps ends in the state of the one message with the flush's result, success or failure |
| Engine.FinishUnflushed | fissure_client/src/managers/torrent_manager.rs:263-276 | a finish that starts no flush is one without a successful flush |
| EndToEnd.VisitIff | fissure_client/src/managers/disk_manager.rs:66-107 | one turn of the flush loop: the part of the piece dealt with stays true iff the bytes it read from the piece manager were the true ones (or, the manager gone and nothing written, were on disk already) |
| EndToEnd.LoggedTrueIff | fissure_client/src/managers/torrent_manager.rs:238-280 | in any run at all, a logged piece is the original in the stream iff every turn of its flush read true |
| EndToEnd.CompleteDownloadIff | fissure_client/src/managers/torrent_manager.rs:264-275 | when the downloaded bytes reach the torrent's size, the concatenated files are the original iff every turn of every flush read true |
| EndToEnd.ReadyKeptIff | fissure_client/src/managers/piece_manager.rs:98-136 | a live piece manager holding the true piece still does after a delivery iff the block index is in range and no byte changes |
| EndToEnd.StepSound | fissure_client/src/managers/disk_manager.rs:62-112 | every step of every actor, the flush one file at a time, that is safe for a piece keeps its verified buffer right and what was flushed of it true and on disk |
| EndToEnd.HonestRuns | fissure_client/src/protocols/peer_protocol_state_machine.rs:337-393 | when all blocks delivered for a piece are aligned true blocks, every step is safe for it, for any hash function and whatever is delivered for other pieces |
| EndToEnd.LoggedFrozen | fissure_client/src/managers/torrent_manager.rs:268-272 | in any run at all, once a piece is in the log no step changes a byte of it on disk |
| EndToEnd.ReadsNeverChange | fissure_client/src/managers/disk_manager.rs:113-166 | in any run at all, once a read inside a logged piece succeeds it returns the same bytes for ever |
| EndToEnd.LoggedPiecesReadBack | fissure_client/src/managers/torrent_manager.rs:238-280 | if the steps up to the moment a piece was logged were safe for it, any sub-range of it reads back through the files as the original from then on, whatever is delivered |
| EndToEnd.CompleteDownload | fissure_client/src/managers/torrent_manager.rs:264-275 | when the downloaded bytes reach the torrent's size and all steps were safe, the concatenated files are the original |
| EndToEnd.HonestPieceReadsBack | fissure_client/src/protocols/peer_protocol_state_machine.rs:337-393 | if every block delivered for a piece up to its logging is an aligned true one, in any order and with duplicates, any sub-range of it reads back as the original from then on |
| EndToEnd.HonestDownload | fissure_client/src/protocols/peer_protocol_state_machine.rs:337-393 | a download whose blocks are all true is the original once every byte is counted |
| LateBlock.LateWrongBlockIsLogged | fissure_client/src/managers/piece_manager.rs:98-136 | a run in which a wrong block after verification is flushed and logged |
| LateBlock.LateBlockPastEndIsLogged | fissure_client/src/managers/piece_manager.rs:253-283 | a run in which a block past the end after verification changes no byte, and the piece is logged with nothing written |

## Left out

- PeerWriter.PeerState: the piece managers that peers share are values in one map rather than actor objects; their interleaving with other peers is in `Engine.dfy`.
- PeerMessages.PeerCodec.Encode: requires a bitfield payload below 2^32 bytes, past which the source's length prefix overflows.
- PeerProtocol.NoGaps: says nothing of pieces finished between a peer's registration and its writer's first look at the watch value, which the source does not promise to announce, nor of a writer that has stopped on a failed send.
- Torrents with more than 2^32 pieces, a piece length of 0, and sizes near 2^64: the log and the wire keep 32-bit indices, the source divides by the piece length, and its sums overflow.
- A bound on the pending piece counter under the watchdog: the watchdog stores an older count over newer ones, so the cap holds only for the sequential passes.
- PeerProtocol.WireSafeIff: caps of 2^32 and above, whose room the source truncates to 32 bits.
- DiskManager.DiskActor.FlushPieceToDisk: takes the piece as one value; a piece manager that changes or ends during the flush is in `Engine.dfy`.
- The reader, writer and watchdog are not combined into one transition system; window, announcements and passes are separate.
- `HasUsefulPieces`, `GetActivePeers`, `GetTorrentStats`, and the statistics as decimal text: the downloaded bytes are kept as an exact integer, the rest only reads state.
- `GetDataWithLen` of the piece manager and other members that only repeat a modelled one.
- Channels, wake-ups, sockets, real time, and lost or reordered messages between actors.
- Serving uploads and `RemovePeer`, which the source does not implement.
- Trackers, handshakes, bencoding, settings, the client actor and logging.

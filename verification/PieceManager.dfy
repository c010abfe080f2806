/**
 One piece being assembled from blocks (piece_manager.rs).

 `Piece` is the actor's state as a value, with one function per message;
 `PieceActor` is the actor itself, whose methods update fields in place and
 are proved against those functions. The theorems about whole runs of
 messages are in PieceRuns.dfy.
 */
module PieceManager {
  import opened Base
  import opened TorrentMeta

  const BLOCK_SIZE: nat := 16384

  /** An (offset, length) pair asked of a peer. */
  datatype BlockRange = BlockRange(offset: nat, length: nat)

  datatype Piece = Piece(
    required: seq<bool>,
    inFlight: seq<bool>,
    downloaded: seq<bool>,
    timers: map<nat, int>,
    data: seq<byte>,
    alive: bool              // false once a panic has ended the actor; then nothing answers any more
  ) {
    function NumBlocks(): (n: nat) {
      |required|
    }

    predicate Eligible(b: nat) {
      && alive
      && b < |required| && b < |inFlight| && b < |downloaded|
      && required[b] && !inFlight[b] && !downloaded[b]
    }

    predicate AllDownloaded() {
      forall b :: 0 <= b < |downloaded| ==> downloaded[b]
    }

    /** The redundancy between the three bitsets and the timer map that every message keeps. */
    ghost predicate Consistent() {
      && |required| == |inFlight| == |downloaded| == BlockCount(|data|)
      && (forall b :: 0 <= b < |required| ==> required[b] == !downloaded[b])
      && (forall b :: 0 <= b < |inFlight| ==> (inFlight[b] <==> b in timers))
      && (forall b :: 0 <= b < |inFlight| ==> !(inFlight[b] && downloaded[b]))
      && (forall b :: b in timers ==> b < |inFlight|)
    }
  }

  function BlockCount(pieceLen: nat): (n: nat) {
    if pieceLen % BLOCK_SIZE == 0 then pieceLen / BLOCK_SIZE else pieceLen / BLOCK_SIZE + 1
  }

  function LastBlockSize(pieceLen: nat): (size: nat) {
    if pieceLen % BLOCK_SIZE == 0 then BLOCK_SIZE else pieceLen % BLOCK_SIZE
  }

  function BlockSizeAt(pieceLen: nat, b: nat): (size: nat) {
    if b == BlockCount(pieceLen) - 1 then LastBlockSize(pieceLen) else BLOCK_SIZE
  }

  function OffsetToIndex(offset: nat): (index: nat) {
    offset / BLOCK_SIZE
  }

  function IndexToOffset(index: nat): (offset: nat) {
    index * BLOCK_SIZE
  }

  /** Blocks tile a piece exactly as pieces tile a torrent. */
  lemma BlocksTilePiece(pieceLen: nat, b: nat)
    ensures BlockCount(pieceLen) == NumPieces(pieceLen, BLOCK_SIZE)
    ensures b < BlockCount(pieceLen) ==>
      && BlockSizeAt(pieceLen, b) == PieceLength(pieceLen, BLOCK_SIZE, b)
      && 0 < BlockSizeAt(pieceLen, b) <= BLOCK_SIZE
      && IndexToOffset(b) + BlockSizeAt(pieceLen, b) == Min(IndexToOffset(b + 1), pieceLen)
  {
    assert pieceLen == pieceLen / BLOCK_SIZE * BLOCK_SIZE + pieceLen % BLOCK_SIZE;
    if b < BlockCount(pieceLen) {
      PieceEnd(pieceLen, BLOCK_SIZE, b);
    }
  }

  function BlockSizes(pieceLen: nat): (sizes: seq<nat>)
    ensures |sizes| == BlockCount(pieceLen)
  {
    seq(BlockCount(pieceLen), b requires 0 <= b => BlockSizeAt(pieceLen, b))
  }

  /** The blocks partition the piece: their sizes add up to its length. */
  lemma BlocksSumToPiece(pieceLen: nat)
    ensures Sum(BlockSizes(pieceLen)) == pieceLen
  {
    BlocksTilePiece(pieceLen, 0);
    forall b: nat | b < BlockCount(pieceLen)
      ensures BlockSizeAt(pieceLen, b) == PieceLength(pieceLen, BLOCK_SIZE, b)
    {
      BlocksTilePiece(pieceLen, b);
    }
    assert BlockSizes(pieceLen) == PieceLengths(pieceLen, BLOCK_SIZE);
    PiecesSumToTotal(pieceLen, BLOCK_SIZE);
  }

  /** On every byte of a block, offset-to-index undoes index-to-offset, and on no other byte. */
  lemma OffsetIndexInverse(pieceLen: nat, b: nat, i: nat)
    requires b < BlockCount(pieceLen) && i < pieceLen
    ensures OffsetToIndex(i) < BlockCount(pieceLen)
    ensures OffsetToIndex(i) == b <==> IndexToOffset(b) <= i < IndexToOffset(b) + BlockSizeAt(pieceLen, b)
  {
    BlocksTilePiece(pieceLen, b);
    PieceOfByte(pieceLen, BLOCK_SIZE, i, b);
  }

  // ---------------------------------------------------------------- messages

  function NewPiece(pieceLen: nat): (p: Piece)
    ensures p.Consistent() && p.alive
  {
    var n := BlockCount(pieceLen);
    Piece(seq(n, i => true), seq(n, i => false), seq(n, i => false), map[],
          seq(pieceLen, i => 0), true)
  }

  /** The eligible blocks below `n`, in index order. */
  function EligibleBelow(p: Piece, n: nat): (blocks: seq<nat>) {
    if n == 0 then []
    else if p.Eligible(n - 1) then EligibleBelow(p, n - 1) + [n - 1]
    else EligibleBelow(p, n - 1)
  }

  function FirstK(s: seq<nat>, k: nat): (first: seq<nat>) {
    if |s| <= k then s else s[..k]
  }

  /** The blocks granted to a request for `k`: the first `k` eligible ones. */
  function Granted(p: Piece, k: nat): (blocks: seq<nat>) {
    FirstK(EligibleBelow(p, p.NumBlocks()), k)
  }

  function Ranges(blocks: seq<nat>, pieceLen: nat): (ranges: seq<BlockRange>)
    ensures |ranges| == |blocks|
  {
    seq(|blocks|, i requires 0 <= i < |blocks| =>
      BlockRange(IndexToOffset(blocks[i]), BlockSizeAt(pieceLen, blocks[i])))
  }

  /** `BlocksToRequest`: lease the granted blocks, stamping each with the current time. */
  function Lease(p: Piece, blocks: seq<nat>, now: int): (q: Piece) {
    p.(inFlight := seq(|p.inFlight|, b requires 0 <= b < |p.inFlight| => p.inFlight[b] || b in blocks),
       timers := p.timers + (map b | b in blocks :: now))
  }

  function RequestBlocks(p: Piece, k: nat, now: int): (q: Piece) {
    Lease(p, Granted(p, k), now)
  }

  /** Bytes land at the start of their block if they fit in the buffer, and are dropped otherwise. */
  function WriteBlock(data: seq<byte>, start: nat, bytes: seq<byte>): (r: seq<byte>)
    ensures |r| == |data|
  {
    if start + |bytes| <= |data| then data[..start] + bytes + data[start + |bytes|..] else data
  }

  /** The bookkeeping of `BlockRecived`, before the completion test. */
  function Store(p: Piece, offset: nat, bytes: seq<byte>): (q: Piece)
    requires p.Consistent() && OffsetToIndex(offset) < p.NumBlocks()
  {
    var b := OffsetToIndex(offset);
    p.(timers := p.timers - {b},
       required := p.required[b := false],
       inFlight := p.inFlight[b := false],
       downloaded := p.downloaded[b := true],
       data := WriteBlock(p.data, IndexToOffset(b), bytes))
  }

  /** What a hash mismatch resets: everything but the bytes. */
  function ResetPiece(p: Piece): (q: Piece) {
    Piece(seq(|p.required|, i => true), seq(|p.inFlight|, i => false), seq(|p.downloaded|, i => false), map[], p.data,
          p.alive)
  }

  /** SHA-1 is a parameter: nothing here depends on how it computes. */
  type Digest = seq<byte> -> seq<byte>

  /**
   `BlockRecived`: the next state, and the reply, which is false when no reply is
   sent. A block index past the bitset panics, which ends the actor.
   */
  function Receive(p: Piece, offset: nat, bytes: seq<byte>, sha1: Digest, want: seq<byte>): (r: (Piece, bool))
    requires p.Consistent()
  {
    if !p.alive || OffsetToIndex(offset) >= p.NumBlocks() then (p.(alive := false), false)
    else
    var q := Store(p, offset, bytes);
    if !q.AllDownloaded() then (q, false)
    else if sha1(q.data) == want then (q, true)
    else (ResetPiece(q), false)
  }

  /** The timers that have run out. */
  function Expired(p: Piece, now: int, timeout: nat): (gone: set<nat>) {
    set b | b in p.timers && now - p.timers[b] > timeout
  }

  /** The leases in `gone` are over. */
  function Release(p: Piece, gone: set<nat>): (q: Piece) {
    p.(inFlight := seq(|p.inFlight|, b requires 0 <= b < |p.inFlight| => p.inFlight[b] && b !in gone),
       timers := p.timers - gone)
  }

  /** The ticker arm: a block whose lease has run out may be granted again. */
  function Tick(p: Piece, now: int, timeout: nat): (q: Piece) {
    Release(p, if p.alive then Expired(p, now, timeout) else {})
  }

  /** `GetData`: empty for a range outside the buffer, and when nobody is there to answer. */
  function Slice(p: Piece, from: nat, to: nat): (bytes: seq<byte>) {
    if p.alive && from <= to <= |p.data| then p.data[from..to] else []
  }

  // ---------------------------------------------------------------- what each message keeps

  ghost predicate Increasing(s: seq<nat>) {
    forall i, j :: 0 <= i < j < |s| ==> s[i] < s[j]
  }

  lemma {:induction false} EligibleBelowMembers(p: Piece, n: nat)
    ensures forall b: nat :: b in EligibleBelow(p, n) <==> b < n && p.Eligible(b)
    ensures Increasing(EligibleBelow(p, n))
  {
    if n == 0 {
    } else {
      EligibleBelowMembers(p, n - 1);
      var below := EligibleBelow(p, n - 1);
      assert forall i :: 0 <= i < |below| ==> below[i] in below;
    }
  }

  lemma {:induction false} EligibleBelowPrefix(p: Piece, m: nat, n: nat)
    requires m <= n
    ensures EligibleBelow(p, m) <= EligibleBelow(p, n)
    decreases n
  {
    if m == n {
    } else {
      EligibleBelowPrefix(p, m, n - 1);
    }
  }

  /**
   A batch is the first min(k, eligible) blocks in index order: it is strictly
   increasing, all eligible, as long as allowed, and skips no earlier eligible block.
   */
  lemma BatchIsFirstEligible(p: Piece, k: nat)
    ensures var g := Granted(p, k);
      && |g| == Min(k, |EligibleBelow(p, p.NumBlocks())|)
      && Increasing(g)
      && (forall b: nat :: b in g ==> p.Eligible(b))
      && (forall b: nat :: p.Eligible(b) && b !in g ==> |g| == k && forall c :: c in g ==> c < b)
  {
    var all := EligibleBelow(p, p.NumBlocks());
    EligibleBelowMembers(p, p.NumBlocks());
    var g := Granted(p, k);
    assert forall i :: 0 <= i < |g| ==> g[i] == all[i];
    assert forall b: nat :: b in g ==> b in all;
    forall b: nat | p.Eligible(b) && b !in g
      ensures |g| == k && forall c :: c in g ==> c < b
    {
      var i :| 0 <= i < |all| && all[i] == b;
      assert |g| <= i;
    }
  }

  lemma LeaseConsistent(p: Piece, k: nat, now: int)
    requires p.Consistent()
    ensures RequestBlocks(p, k, now).Consistent()
  {
    BatchIsFirstEligible(p, k);
  }

  lemma StoreConsistent(p: Piece, offset: nat, bytes: seq<byte>)
    requires p.Consistent() && OffsetToIndex(offset) < p.NumBlocks()
    ensures Store(p, offset, bytes).Consistent()
  {
  }

  lemma ReceiveConsistent(p: Piece, offset: nat, bytes: seq<byte>, sha1: Digest, want: seq<byte>)
    requires p.Consistent()
    ensures Receive(p, offset, bytes, sha1, want).0.Consistent()
  {
    if OffsetToIndex(offset) < p.NumBlocks() {
      StoreConsistent(p, offset, bytes);
    }
  }

  lemma ReceiveKeepsLength(p: Piece, offset: nat, bytes: seq<byte>, sha1: Digest, want: seq<byte>)
    requires p.Consistent()
    ensures |Receive(p, offset, bytes, sha1, want).0.data| == |p.data|
  {
  }

  lemma TickConsistent(p: Piece, now: int, timeout: nat)
    requires p.Consistent()
    ensures Tick(p, now, timeout).Consistent()
  {
    var q := Tick(p, now, timeout);
    assert forall b :: b in q.timers <==> b in p.timers && !(p.alive && b in Expired(p, now, timeout));
  }

  lemma TimerInRange(p: Piece, b: nat)
    requires p.Consistent() && b in p.timers
    ensures b < |p.inFlight|
  {
  }

  lemma ReleaseNone(p: Piece)
    ensures Release(p, {}) == p
  {
  }

  lemma ReleaseOneMore(p: Piece, gone: set<nat>, b: nat)
    requires b < |p.inFlight|
    ensures var q := Release(p, gone);
      |q.inFlight| == |p.inFlight|
      && Release(p, gone + {b}) == q.(inFlight := q.inFlight[b := false], timers := q.timers - {b})
  {
    var l, r := Release(p, gone + {b}).timers, Release(p, gone).timers - {b};
    assert l == r;
  }

  /** After a tick, a leased block may be granted again exactly when its lease has run out. */
  lemma ExpiredIsEligibleAgain(p: Piece, now: int, timeout: nat, b: nat)
    requires p.Consistent() && p.alive && b in p.timers
    ensures Tick(p, now, timeout).Eligible(b) <==> now - p.timers[b] > timeout
  {
  }

  /**
   The reply to any block, true or not: the piece is done exactly when every other
   block was already in and the bytes hash right. A complete piece that hashes
   wrong starts over with every block to be asked for again. Only a block index
   past the bitset ends the actor.
   */
  lemma ReplyExact(p: Piece, offset: nat, bytes: seq<byte>, sha1: Digest, want: seq<byte>)
    requires p.Consistent() && p.alive
    ensures var (q, reply) := Receive(p, offset, bytes, sha1, want);
      (q.alive <==> offset / 16384 < p.NumBlocks()) && (!q.alive ==> !reply && q == p.(alive := false))
    ensures OffsetToIndex(offset) < p.NumBlocks() ==> StoreReply(p, offset, bytes, sha1, want)
  {
    if OffsetToIndex(offset) < p.NumBlocks() {
      StoreReplyExact(p, offset, bytes, sha1, want);
    }
  }

  /** The bytes are at the start of the block if they end inside the buffer, and nowhere otherwise. */
  ghost predicate BytesPut(data: seq<byte>, b: nat, bytes: seq<byte>, data': seq<byte>) {
    && |data'| == |data|
    && forall i: nat :: i < |data| ==>
         data'[i] == if 16384 * b <= i < 16384 * b + |bytes| <= |data| then bytes[i - 16384 * b] else data[i]
  }

  /** The effect of a block inside the bitset, and when its reply is true. */
  ghost predicate StoreReply(p: Piece, offset: nat, bytes: seq<byte>, sha1: Digest, want: seq<byte>)
    requires p.Consistent()
  {
    var (q, reply) := Receive(p, offset, bytes, sha1, want);
    var b := offset / 16384;
    var others := forall j: nat :: j < p.NumBlocks() && j != b ==> p.downloaded[j];
    && BytesPut(p.data, b, bytes, q.data)
    && (reply <==> others && sha1(q.data) == want)
    && |q.downloaded| == |q.inFlight| == |p.downloaded|
    && (if others && !reply then q.timers == map[] && forall j: nat :: j < p.NumBlocks() ==> q.Eligible(j)
        else
          && q.timers == p.timers - {b}
          && forall j: nat :: j < p.NumBlocks() ==> q.downloaded[j] == (p.downloaded[j] || j == b))
  }

  lemma StoreReplyExact(p: Piece, offset: nat, bytes: seq<byte>, sha1: Digest, want: seq<byte>)
    requires p.Consistent() && p.alive && OffsetToIndex(offset) < p.NumBlocks()
    ensures StoreReply(p, offset, bytes, sha1, want)
  {
    StoreConsistent(p, offset, bytes);
    var q := Store(p, offset, bytes);
    var b := OffsetToIndex(offset);
    forall j: nat | j < p.NumBlocks() && j != b ensures q.downloaded[j] == p.downloaded[j] {
    }
    assert q.downloaded[b];
  }

  /** A block may be given out while its piece manager lives, it has not arrived, and nobody has it on lease. */
  lemma EligibleExact(p: Piece, b: nat)
    requires p.Consistent()
    ensures p.Eligible(b) <==> p.alive && b < BlockCount(|p.data|) && !p.downloaded[b] && b !in p.timers
  {
  }

  /** A new piece is all zeros, with no lease and every block to be had. */
  lemma NewPieceExact(pieceLen: nat)
    ensures var p := NewPiece(pieceLen);
      && |p.data| == pieceLen && (forall i :: 0 <= i < pieceLen ==> p.data[i] == 0)
      && p.timers == map[] && forall b: nat :: b < BlockCount(pieceLen) ==> p.Eligible(b)
  {
  }

  /** A request leases exactly the granted blocks, stamped with its time, and changes nothing else. */
  lemma LeaseExact(p: Piece, k: nat, now: int)
    requires p.Consistent()
    ensures var (q, g) := (RequestBlocks(p, k, now), Granted(p, k));
      && q == p.(inFlight := q.inFlight, timers := q.timers) && |q.inFlight| == |p.inFlight|
      && (forall b: nat :: b < |p.inFlight| ==> (q.inFlight[b] <==> p.inFlight[b] || b in g))
      && (forall b :: b in q.timers <==> b in p.timers || b in g)
      && forall b :: b in q.timers ==> q.timers[b] == if b in g then now else p.timers[b]
  {
    hide Granted;
  }

  /** A tick ends exactly the leases older than the timeout, and changes nothing else. */
  lemma TickExact(p: Piece, now: int, timeout: nat)
    requires p.Consistent()
    ensures var q := Tick(p, now, timeout);
      && q == p.(inFlight := q.inFlight, timers := q.timers) && |q.inFlight| == |p.inFlight|
      && (forall b :: b in q.timers <==> b in p.timers && (p.alive ==> now - p.timers[b] <= timeout))
      && (forall b :: b in q.timers ==> q.timers[b] == p.timers[b])
      && forall b: nat :: b < |q.inFlight| ==> (q.inFlight[b] <==> b in q.timers)
  {
    TickConsistent(p, now, timeout);
  }

  /** Every block asked of a peer is a whole block of the piece, inside the buffer. */
  lemma GrantedRangesInPiece(p: Piece, k: nat, i: nat)
    requires p.Consistent() && i < |Granted(p, k)|
    ensures var r := Ranges(Granted(p, k), |p.data|)[i];
      && r.length > 0 && r.offset + r.length == Min(r.offset + BLOCK_SIZE, |p.data|)
      && OffsetToIndex(r.offset) == Granted(p, k)[i]
  {
    BatchIsFirstEligible(p, k);
    assert Granted(p, k)[i] in Granted(p, k);
    BlocksTilePiece(|p.data|, Granted(p, k)[i]);
  }

  /** The slices taken between consecutive cut points, in order. */
  function Slices(p: Piece, cuts: seq<nat>): (bytes: seq<byte>) {
    if |cuts| < 2 then []
    else Slices(p, cuts[..|cuts| - 1]) + Slice(p, cuts[|cuts| - 2], cuts[|cuts| - 1])
  }

  /** Wherever a reader cuts a stretch of the piece, its slices are together that stretch: no byte lost or doubled. */
  lemma {:induction false} SlicesJoin(p: Piece, cuts: seq<nat>)
    requires |cuts| > 0 && cuts[|cuts| - 1] <= |p.data|
    requires forall i, j :: 0 <= i < j < |cuts| ==> cuts[i] <= cuts[j]
    ensures Slices(p, cuts) == if p.alive then p.data[cuts[0]..cuts[|cuts| - 1]] else []
  {
    if |cuts| == 1 {
      assert p.data[cuts[0]..cuts[0]] == [];
    } else {
      SlicesJoin(p, cuts[..|cuts| - 1]);
      var a, b, c := cuts[0], cuts[|cuts| - 2], cuts[|cuts| - 1];
      assert p.data[a..b] + p.data[b..c] == p.data[a..c];
    }
  }

  /** A range outside the buffer, and an actor that has ended, give nothing. */
  lemma SliceRefused(p: Piece, from: nat, to: nat)
    ensures |Slice(p, from, to)| == if p.alive && from <= to <= |p.data| then to - from else 0
  {
  }

  /** A piece whose actor has ended grants nothing. */
  lemma {:induction false} DeadGrantsNothing(p: Piece, n: nat)
    requires !p.alive
    ensures EligibleBelow(p, n) == []
  {
    if n == 0 {
    } else {
      DeadGrantsNothing(p, n - 1);
    }
  }

  /** Where the request loop stands before block `idx`. */
  ghost predicate Granting(p: Piece, k: nat, now: int, idx: nat, leased: seq<nat>, q: Piece, batch: seq<BlockRange>) {
    && leased == FirstK(EligibleBelow(p, idx), k)
    && (forall b :: b in leased ==> b < idx)
    && q == Lease(p, leased, now)
    && batch == Ranges(leased, |p.data|)
  }

  lemma GrantNone(p: Piece, now: int)
    requires p.Consistent()
    ensures Lease(p, [], now) == p
  {
    assert Lease(p, [], now).timers == p.timers;
  }

  lemma GrantFirst(p: Piece, k: nat, now: int)
    requires p.Consistent()
    ensures Granting(p, k, now, 0, [], p, [])
  {
    GrantNone(p, now);
  }

  lemma GrantedOneMore(p: Piece, k: nat, idx: nat)
    requires |FirstK(EligibleBelow(p, idx), k)| < k
    ensures FirstK(EligibleBelow(p, idx + 1), k)
         == FirstK(EligibleBelow(p, idx), k) + if p.Eligible(idx) then [idx] else []
  {
  }

  lemma LeaseOneMore(p: Piece, leased: seq<nat>, b: nat, now: int)
    requires b < |p.inFlight|
    ensures var q := Lease(p, leased, now);
      Lease(p, leased + [b], now) == q.(inFlight := q.inFlight[b := true], timers := q.timers[b := now])
  {
  }

  /** One turn of the request loop. */
  lemma GrantNext(p: Piece, k: nat, now: int, idx: nat, leased: seq<nat>, q: Piece, batch: seq<BlockRange>)
    requires p.Consistent() && p.alive && idx < p.NumBlocks() && |leased| < k
    requires Granting(p, k, now, idx, leased, q, batch)
    ensures |q.required| == |q.inFlight| == |q.downloaded| == p.NumBlocks()
    ensures q.required[idx] && !q.inFlight[idx] && !q.downloaded[idx] <==> p.Eligible(idx)
    ensures !p.Eligible(idx) ==> Granting(p, k, now, idx + 1, leased, q, batch)
    ensures p.Eligible(idx) ==>
      Granting(p, k, now, idx + 1, leased + [idx],
               q.(inFlight := q.inFlight[idx := true], timers := q.timers[idx := now]),
               batch + [BlockRange(IndexToOffset(idx), BlockSizeAt(|p.data|, idx))])
  {
    hide FirstK, EligibleBelow;
    GrantedOneMore(p, k, idx);
    LeaseOneMore(p, leased, idx, now);
    assert leased + [] == leased;
  }

  lemma GrantingCounts(p: Piece, k: nat, now: int, idx: nat, leased: seq<nat>, q: Piece, batch: seq<BlockRange>)
    requires Granting(p, k, now, idx, leased, q, batch)
    ensures |batch| == |leased| && |q.data| == |p.data|
  {
  }

  lemma GrantedEarly(p: Piece, k: nat, idx: nat)
    requires idx <= p.NumBlocks() && (idx == p.NumBlocks() || |EligibleBelow(p, idx)| >= k)
    ensures FirstK(EligibleBelow(p, idx), k) == Granted(p, k)
  {
    EligibleBelowPrefix(p, idx, p.NumBlocks());
  }

  /** Leaving the loop, early or not, the batch is complete. */
  lemma GrantEnd(p: Piece, k: nat, now: int, idx: nat, leased: seq<nat>, q: Piece, batch: seq<BlockRange>)
    requires p.Consistent() && idx <= p.NumBlocks() && (idx == p.NumBlocks() || |leased| >= k)
    requires Granting(p, k, now, idx, leased, q, batch)
    ensures q == RequestBlocks(p, k, now) && batch == Ranges(Granted(p, k), |p.data|)
  {
    GrantedEarly(p, k, idx);
  }

  // ---------------------------------------------------------------- the actor

  class PieceActor {
    var timers: map<nat, int>
    var lastBlockSize: nat
    var downloadedBlocks: seq<bool>
    var blocksInFlight: seq<bool>
    var requiredBlocks: seq<bool>
    const data: array<byte>
    /** False once a panic has ended the actor's loop. */
    var alive: bool
    const want: seq<byte>
    const blockRequestTimeout: nat

    ghost function State(): (p: Piece)
      reads this, data
    {
      Piece(requiredBlocks, blocksInFlight, downloadedBlocks, timers, data[..], alive)
    }

    ghost predicate Valid()
      reads this, data
    {
      State().Consistent() && lastBlockSize == LastBlockSize(data.Length)
    }

    constructor (pieceLen: nat, want: seq<byte>, blockRequestTimeout: nat)
      ensures Valid() && fresh(data)
      ensures State() == NewPiece(pieceLen)
      ensures this.want == want && this.blockRequestTimeout == blockRequestTimeout
    {
      var tail := pieceLen % BLOCK_SIZE;
      var n := if tail == 0 then pieceLen / BLOCK_SIZE else pieceLen / BLOCK_SIZE + 1;
      timers := map[];
      lastBlockSize := if tail == 0 then BLOCK_SIZE else tail;
      downloadedBlocks := seq(n, i => false);
      blocksInFlight := seq(n, i => false);
      requiredBlocks := seq(n, i => true);
      data := new byte[pieceLen](i => 0);
      alive := true;
      this.want := want;
      this.blockRequestTimeout := blockRequestTimeout;
      new;
      assert data[..] == seq(pieceLen, i => 0);
    }

    /** `BlocksToRequest`. */
    method BlocksToRequest(numberOfBlocks: nat, now: int) returns (batch: seq<BlockRange>)
      requires Valid()
      modifies this`blocksInFlight, this`timers
      ensures Valid()
      ensures State() == RequestBlocks(old(State()), numberOfBlocks, now)
      ensures batch == Ranges(Granted(old(State()), numberOfBlocks), data.Length)
    {
      ghost var p := State();
      ghost var leased: seq<nat> := [];
      batch := [];
      GrantNone(p, now);
      if !alive {
        DeadGrantsNothing(p, p.NumBlocks());
        return;
      }
      LeaseConsistent(p, numberOfBlocks, now);
      GrantFirst(p, numberOfBlocks, now);
      hide Granting, Granted, RequestBlocks, Ranges, Piece.Consistent;
      var idx := 0;
      while idx < |requiredBlocks|
        invariant 0 <= idx <= |requiredBlocks| == p.NumBlocks()
        invariant Granting(p, numberOfBlocks, now, idx, leased, State(), batch)
      {
        GrantingCounts(p, numberOfBlocks, now, idx, leased, State(), batch);
        if |batch| >= numberOfBlocks {
          break;
        }
        GrantNext(p, numberOfBlocks, now, idx, leased, State(), batch);
        if requiredBlocks[idx] && !blocksInFlight[idx] && !downloadedBlocks[idx] {
          var size := if idx == |requiredBlocks| - 1 then lastBlockSize else BLOCK_SIZE;
          batch := batch + [BlockRange(IndexToOffset(idx), size)];
          blocksInFlight := blocksInFlight[idx := true];
          timers := timers[idx := now];
          leased := leased + [idx];
        }
        idx := idx + 1;
      }
      GrantingCounts(p, numberOfBlocks, now, idx, leased, State(), batch);
      GrantEnd(p, numberOfBlocks, now, idx, leased, State(), batch);
    }

    /** Copy `bytes` to `start` if they fit in the buffer. */
    method CopyIn(start: nat, bytes: seq<byte>)
      modifies data
      ensures data[..] == WriteBlock(old(data[..]), start, bytes)
    {
      ghost var before := data[..];
      var end := start + |bytes|;
      if end <= data.Length {
        forall i | 0 <= i < |bytes| {
          data[start + i] := bytes[i];
        }
        assert data[..] == before[..start] + bytes + before[end..];
      }
    }

    /** `BlockRecived`. A block index past the bitset panics: the actor is gone and no reply comes. */
    method BlockReceived(blockOffset: nat, bytes: seq<byte>, sha1: Digest) returns (pieceDone: bool)
      requires Valid()
      modifies this, data
      ensures Valid()
      ensures (State(), pieceDone) == Receive(old(State()), blockOffset, bytes, sha1, want)
    {
      ghost var p := State();
      ReceiveConsistent(p, blockOffset, bytes, sha1, want);
      var b := OffsetToIndex(blockOffset);
      if !alive || b >= |requiredBlocks| {
        alive := false;
        return false;
      }
      timers := timers - {b};
      requiredBlocks := requiredBlocks[b := false];
      blocksInFlight := blocksInFlight[b := false];
      downloadedBlocks := downloadedBlocks[b := true];
      CopyIn(b * BLOCK_SIZE, bytes);
      ghost var q := Store(p, blockOffset, bytes);
      assert State() == q;
      pieceDone := false;
      if forall i :: 0 <= i < |downloadedBlocks| ==> downloadedBlocks[i] {
        if sha1(data[..]) == want {
          pieceDone := true;
        } else {
          downloadedBlocks := seq(|downloadedBlocks|, i => false);
          requiredBlocks := seq(|requiredBlocks|, i => true);
          blocksInFlight := seq(|blocksInFlight|, i => false);
          timers := map[];
          assert State() == ResetPiece(q);
        }
      }
    }

    /** `GetData`: an empty reply for a range outside the buffer, and from an actor that is gone. */
    method GetData(start: nat, end: nat) returns (slice: seq<byte>)
      requires Valid()
      ensures slice == Slice(State(), start, end)
    {
      if alive && end <= data.Length && start <= end {
        slice := data[start..end];
      } else {
        slice := [];
      }
    }

    /** The ticker arm: collect the expired timers, then drop them one by one. */
    method OnTick(now: int)
      requires Valid()
      modifies this`blocksInFlight, this`timers
      ensures Valid()
      ensures State() == Tick(old(State()), now, blockRequestTimeout)
    {
      ghost var p := State();
      TickConsistent(p, now, blockRequestTimeout);
      ReleaseNone(p);
      if !alive {
        return;
      }
      var expired := set b | b in timers && now - timers[b] > blockRequestTimeout;
      assert expired == Expired(p, now, blockRequestTimeout);
      var todo := expired;
      assert expired - todo == {};
      hide Release, Piece.Consistent;
      while todo != {}
        invariant todo <= expired
        invariant State() == Release(p, expired - todo)
      {
        var idx :| idx in todo;
        TimerInRange(p, idx);
        ReleaseOneMore(p, expired - todo, idx);
        assert expired - (todo - {idx}) == (expired - todo) + {idx};
        blocksInFlight := blocksInFlight[idx := false];
        timers := timers - {idx};
        todo := todo - {idx};
      }
      assert expired - todo == expired;
    }
  }
}

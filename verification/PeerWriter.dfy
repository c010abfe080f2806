/**
 The writer's top-off passes (peer_protocol_state_machine.rs), run without
 interference and with successful sends: they terminate, never overshoot the
 window, and stop only when there is nothing left to ask for.

 The torrent manager is the real actor; the piece managers that all peers share
 are kept as values, by piece index, in whatever state the peers have left them.
 */
module PeerWriter {
  import opened Base
  import opened TorrentEffects
  import opened TorrentManager
  import opened TorrentActor
  import PM = PieceManager
  import opened PeerMessages

  datatype PeerOptions = PeerOptions(inflightCap: nat, activeCap: nat)

  ghost predicate HasEligible(p: PM.Piece) {
    exists b: nat :: p.Eligible(b)
  }

  /** No active piece has a block left to ask for. */
  ghost predicate Exhausted(active: set<nat>, pieces: map<nat, PM.Piece>) {
    forall k :: k in active && k in pieces ==> !HasEligible(pieces[k])
  }

  lemma GrantedIffEligible(p: PM.Piece, k: nat)
    requires k > 0
    ensures PM.Granted(p, k) != [] <==> HasEligible(p)
  {
    PM.BatchIsFirstEligible(p, k);
    if PM.Granted(p, k) != [] {
      assert p.Eligible(PM.Granted(p, k)[0]);
    }
  }

  lemma GrantAtMost(p: PM.Piece, k: nat)
    ensures |PM.Granted(p, k)| <= k
  {
    PM.BatchIsFirstEligible(p, k);
  }

  /** The request messages for one granted batch. */
  function Requests(index: nat, ranges: seq<PM.BlockRange>): (msgs: seq<PeerMessage>) {
    seq(|ranges|, i requires 0 <= i < |ranges| => Request(index, ranges[i].offset, ranges[i].length))
  }

  predicate IsRequest(m: PeerMessage) {
    m.Request?
  }

  predicate IsInterested(m: PeerMessage) {
    m.Interested?
  }

  /** How many of the messages are of one kind. */
  function Count(msgs: seq<PeerMessage>, kind: PeerMessage -> bool): (n: nat) {
    if |msgs| == 0 then 0
    else Count(msgs[..|msgs| - 1], kind) + if kind(msgs[|msgs| - 1]) then 1 else 0
  }

  lemma CountOneMore(msgs: seq<PeerMessage>, m: PeerMessage, kind: PeerMessage -> bool)
    ensures Count(msgs + [m], kind) == Count(msgs, kind) + if kind(m) then 1 else 0
  {
    assert (msgs + [m])[..|msgs|] == msgs;
  }

  lemma {:induction false} CountRequests(msgs: seq<PeerMessage>, index: nat, ranges: seq<PM.BlockRange>)
    ensures Count(msgs + Requests(index, ranges), IsRequest) == Count(msgs, IsRequest) + |ranges|
    ensures Count(msgs + Requests(index, ranges), IsInterested) == Count(msgs, IsInterested)
  {
    if |ranges| == 0 {
      assert msgs + Requests(index, ranges) == msgs;
    } else {
      var front, r := ranges[..|ranges| - 1], ranges[|ranges| - 1];
      CountRequests(msgs, index, front);
      var all := msgs + Requests(index, ranges);
      assert all == (msgs + Requests(index, front)) + [Request(index, r.offset, r.length)];
      CountOneMore(msgs + Requests(index, front), Request(index, r.offset, r.length), IsRequest);
      CountOneMore(msgs + Requests(index, front), Request(index, r.offset, r.length), IsInterested);
    }
  }

  /** Every request sent since is in the counter, and nothing else is. */
  ghost predicate SentAndCounted(sent: seq<PeerMessage>, inflight: nat, sent': seq<PeerMessage>, inflight': nat) {
    sent <= sent' && Count(sent', IsRequest) - Count(sent, IsRequest) == inflight' - inflight
  }

  /** The shared piece managers once a handle is given out: a live piece's is used as it stands, any other's is made. */
  function Reach(pieces: map<nat, PM.Piece>, live: set<nat>, h: Handle): (pieces': map<nat, PM.Piece>) {
    if h.index in live then pieces else pieces[h.index := PM.NewPiece(h.length)]
  }

  /** A pass that made progress leased one batch of one active piece and sent exactly those requests. */
  ghost predicate ToppedOff(active: set<nat>, pieces: map<nat, PM.Piece>, pieces': map<nat, PM.Piece>,
                            window: nat, now: int, sent: seq<PeerMessage>, sent': seq<PeerMessage>, count: nat) {
    exists k :: k in active && k in pieces &&
      var g := PM.Granted(pieces[k], window);
      && count == |g| > 0
      && pieces' == pieces[k := PM.RequestBlocks(pieces[k], window, now)]
      && sent' == sent + Requests(k, PM.Ranges(g, |pieces[k].data|))
  }

  lemma ToppedOffCounted(active: set<nat>, pieces: map<nat, PM.Piece>, pieces': map<nat, PM.Piece>, window: nat,
                         now: int, sent: seq<PeerMessage>, sent': seq<PeerMessage>, count: nat)
    requires ToppedOff(active, pieces, pieces', window, now, sent, sent', count)
    ensures sent <= sent' && Count(sent', IsRequest) == Count(sent, IsRequest) + count
    ensures Count(sent', IsInterested) == Count(sent, IsInterested)
    ensures pieces'.Keys == pieces.Keys
  {
    var k :| k in active && k in pieces &&
      var g := PM.Granted(pieces[k], window);
      && count == |g| > 0
      && pieces' == pieces[k := PM.RequestBlocks(pieces[k], window, now)]
      && sent' == sent + Requests(k, PM.Ranges(g, |pieces[k].data|));
    CountRequests(sent, k, PM.Ranges(PM.Granted(pieces[k], window), |pieces[k].data|));
  }

  // ---------------------------------------------------------------- what is asked for

  /** Block `b` of piece `k` is on lease. */
  ghost predicate OnLease(pieces: map<nat, PM.Piece>, k: nat, b: nat) {
    k in pieces && b < |pieces[k].inFlight| && pieces[k].inFlight[b]
  }

  /** Block `b` of piece `k` was put on lease in between. */
  ghost predicate NewlyLeased(pieces: map<nat, PM.Piece>, pieces': map<nat, PM.Piece>, k: nat, b: nat) {
    OnLease(pieces', k, b) && !OnLease(pieces, k, b)
  }

  /** The request for block `b` of piece `k`, which is `n` bytes long: all of the block that is inside the piece. */
  ghost predicate IsRequestFor(m: PeerMessage, k: nat, b: nat, n: nat) {
    16384 * b < n && m == Request(k, 16384 * b, if 16384 * b + 16384 <= n then 16384 else n - 16384 * b)
  }

  /** Of the piece managers only leases change, and none ends. */
  ghost predicate OnlyLeased(pieces: map<nat, PM.Piece>, pieces': map<nat, PM.Piece>) {
    forall k :: k in pieces ==>
      && k in pieces' && |pieces'[k].inFlight| == |pieces[k].inFlight|
      && pieces'[k] == pieces[k].(inFlight := pieces'[k].inFlight, timers := pieces'[k].timers)
      && forall b: nat :: OnLease(pieces, k, b) ==> OnLease(pieces', k, b)
  }

  /** Block `b` of piece `k`, newly on lease, is of an active piece, was to be had, and was asked for exactly once. */
  ghost predicate AskedOnce(active: set<nat>, pieces: map<nat, PM.Piece>, pieces': map<nat, PM.Piece>,
                            msgs: seq<PeerMessage>, k: nat, b: nat)
    requires k in pieces'
  {
    && k in active && (k in pieces ==> pieces[k].Eligible(b))
    && exists m :: IsRequestFor(m, k, b, |pieces'[k].data|) && multiset(msgs)[m] == 1
  }

  /** The message asks for a block newly on lease. */
  ghost predicate AsksForNew(pieces: map<nat, PM.Piece>, pieces': map<nat, PM.Piece>, m: PeerMessage)
    requires m.Request?
  {
    exists b: nat :: NewlyLeased(pieces, pieces', m.pieceIndex, b)
                     && IsRequestFor(m, m.pieceIndex, b, |pieces'[m.pieceIndex].data|)
  }

  /**
   The messages sent are requests, one for each block put on lease and none for any
   other, and at most expressions of interest besides.
   */
  ghost predicate Asked(active: set<nat>, pieces: map<nat, PM.Piece>, pieces': map<nat, PM.Piece>,
                        msgs: seq<PeerMessage>) {
    && OnlyLeased(pieces, pieces')
    && (forall k: nat, b: nat :: NewlyLeased(pieces, pieces', k, b) ==> AskedOnce(active, pieces, pieces', msgs, k, b))
    && forall m :: m in msgs ==> m.Interested? || (m.Request? && AsksForNew(pieces, pieces', m))
  }

  lemma AskedNothing(active: set<nat>, pieces: map<nat, PM.Piece>)
    ensures Asked(active, pieces, pieces, [])
  {
  }

  /** A new piece manager has nothing on lease, and an expression of interest asks for nothing. */
  lemma AskedNewPiece(active: set<nat>, pieces: map<nat, PM.Piece>, h: Handle, made: bool, interest: bool)
    requires made ==> h.index !in pieces
    ensures Asked(active, pieces, if made then pieces[h.index := PM.NewPiece(h.length)] else pieces,
                  if interest then [Interested] else [])
  {
  }

  /** A message among those sent that asks for a block asks for one newly on lease. */
  lemma AskedIsLeased(active: set<nat>, p: map<nat, PM.Piece>, q: map<nat, PM.Piece>, msgs: seq<PeerMessage>,
                      m: PeerMessage, k: nat, b: nat)
    requires Asked(active, p, q, msgs) && k in q && IsRequestFor(m, k, b, |q[k].data|)
    ensures m in msgs ==> NewlyLeased(p, q, k, b)
  {
    if m in msgs {
      var b': nat :| NewlyLeased(p, q, k, b') && IsRequestFor(m, k, b', |q[k].data|);
      assert b' == b;
    }
  }

  lemma AskedOnceFirst(active: set<nat>, active': set<nat>, p: map<nat, PM.Piece>, q: map<nat, PM.Piece>,
                       r: map<nat, PM.Piece>, xs: seq<PeerMessage>, ys: seq<PeerMessage>, k: nat, b: nat)
    requires active <= active' && Asked(active, p, q, xs) && Asked(active', q, r, ys) && NewlyLeased(p, q, k, b)
    ensures k in r && AskedOnce(active', p, r, xs + ys, k, b)
  {
    hide PM.Piece.Eligible, AsksForNew;
    var m :| IsRequestFor(m, k, b, |q[k].data|) && multiset(xs)[m] == 1;
    AskedIsLeased(active', q, r, ys, m, k, b);
    assert multiset(xs + ys) == multiset(xs) + multiset(ys);
    assert IsRequestFor(m, k, b, |r[k].data|) && multiset(xs + ys)[m] == 1;
  }

  lemma AskedOnceSecond(active: set<nat>, active': set<nat>, p: map<nat, PM.Piece>, q: map<nat, PM.Piece>,
                        r: map<nat, PM.Piece>, xs: seq<PeerMessage>, ys: seq<PeerMessage>, k: nat, b: nat)
    requires active <= active' && Asked(active, p, q, xs) && Asked(active', q, r, ys)
    requires NewlyLeased(q, r, k, b) && !OnLease(p, k, b)
    ensures AskedOnce(active', p, r, xs + ys, k, b)
  {
    hide AsksForNew;
    var m :| IsRequestFor(m, k, b, |r[k].data|) && multiset(ys)[m] == 1;
    if k in q {
      AskedIsLeased(active, p, q, xs, m, k, b);
    } else {
      NotAskedYet(active, p, q, xs, m, k, b, |r[k].data|);
    }
    assert multiset(xs + ys) == multiset(xs) + multiset(ys);
    assert multiset(xs + ys)[m] == 1;
    if k in p {
      assert q[k].Eligible(b);
      EligibleBefore(p, q, k, b);
    }
    hide PM.Piece.Eligible;
  }

  lemma EligibleBefore(p: map<nat, PM.Piece>, q: map<nat, PM.Piece>, k: nat, b: nat)
    requires OnlyLeased(p, q) && k in p && k in q && q[k].Eligible(b)
    ensures p[k].Eligible(b)
  {
    assert OnLease(p, k, b) ==> OnLease(q, k, b);
  }

  lemma NotAskedYet(active: set<nat>, p: map<nat, PM.Piece>, q: map<nat, PM.Piece>, msgs: seq<PeerMessage>,
                    m: PeerMessage, k: nat, b: nat, n: nat)
    requires Asked(active, p, q, msgs) && k !in q && IsRequestFor(m, k, b, n)
    ensures m !in msgs
  {
  }

  /** Two stretches of asking are one. */
  lemma AskedTwice(active: set<nat>, active': set<nat>, p: map<nat, PM.Piece>, q: map<nat, PM.Piece>,
                   r: map<nat, PM.Piece>, xs: seq<PeerMessage>, ys: seq<PeerMessage>)
    requires active <= active' && Asked(active, p, q, xs) && Asked(active', q, r, ys)
    ensures Asked(active', p, r, xs + ys)
  {
    forall k: nat, b: nat | NewlyLeased(p, r, k, b) ensures AskedOnce(active', p, r, xs + ys, k, b) {
      if OnLease(q, k, b) {
        AskedOnceFirst(active, active', p, q, r, xs, ys, k, b);
      } else {
        AskedOnceSecond(active, active', p, q, r, xs, ys, k, b);
      }
    }
    hide AskedOnce;
    forall m | m in xs + ys ensures m.Interested? || (m.Request? && AsksForNew(p, r, m)) {
      if m.Request? {
        AsksStill(p, q, r, m, m in xs);
      }
    }
  }

  lemma AsksStill(p: map<nat, PM.Piece>, q: map<nat, PM.Piece>, r: map<nat, PM.Piece>, m: PeerMessage, first: bool)
    requires OnlyLeased(p, q) && OnlyLeased(q, r) && m.Request?
    requires if first then AsksForNew(p, q, m) else AsksForNew(q, r, m)
    ensures AsksForNew(p, r, m)
  {
    if first {
      var b: nat :| NewlyLeased(p, q, m.pieceIndex, b) && IsRequestFor(m, m.pieceIndex, b, |q[m.pieceIndex].data|);
      assert NewlyLeased(p, r, m.pieceIndex, b);
    } else {
      var b: nat :| NewlyLeased(q, r, m.pieceIndex, b) && IsRequestFor(m, m.pieceIndex, b, |r[m.pieceIndex].data|);
      assert NewlyLeased(p, r, m.pieceIndex, b);
    }
  }

  lemma OnceInDistinct(msgs: seq<PeerMessage>, i: nat)
    requires i < |msgs| && forall a, b :: 0 <= a < b < |msgs| ==> msgs[a] != msgs[b]
    ensures multiset(msgs)[msgs[i]] == 1
  {
    assert msgs == msgs[..i] + [msgs[i]] + msgs[i + 1..];
    assert msgs[i] !in msgs[..i] && msgs[i] !in msgs[i + 1..];
  }

  /** A batch's messages are the requests for its blocks, all different. */
  lemma BatchRequests(p: PM.Piece, k: nat, window: nat)
    requires p.Consistent()
    ensures var g := PM.Granted(p, window);
      var msgs := Requests(k, PM.Ranges(g, |p.data|));
      && |msgs| == |g|
      && (forall i :: 0 <= i < |g| ==> IsRequestFor(msgs[i], k, g[i], |p.data|))
      && forall i, j :: 0 <= i < j < |g| ==> msgs[i] != msgs[j]
  {
    var g := PM.Granted(p, window);
    PM.BatchIsFirstEligible(p, window);
    hide PM.Granted;
    var msgs := Requests(k, PM.Ranges(g, |p.data|));
    forall i: nat | i < |g| ensures IsRequestFor(msgs[i], k, g[i], |p.data|) {
      PM.GrantedRangesInPiece(p, window, i);
    }
  }

  /** Exactly the blocks of the batch go on lease, and they were to be had. */
  ghost predicate LeasesBatch(p: PM.Piece, g: seq<nat>, q: PM.Piece) {
    && q == p.(inFlight := q.inFlight, timers := q.timers) && |q.inFlight| == |p.inFlight|
    && (forall b: nat :: b < |p.inFlight| ==> (q.inFlight[b] <==> p.inFlight[b] || b in g))
    && forall b: nat :: b in g ==> p.Eligible(b)
  }

  lemma BatchLeases(p: PM.Piece, window: nat, now: int)
    requires p.Consistent()
    ensures LeasesBatch(p, PM.Granted(p, window), PM.RequestBlocks(p, window, now))
  {
    PM.BatchIsFirstEligible(p, window);
    PM.LeaseExact(p, window, now);
    hide PM.Granted, PM.RequestBlocks, PM.Piece.Eligible, PM.Piece.Consistent;
  }

  lemma BatchOnlyLeases(pieces: map<nat, PM.Piece>, k: nat, g: seq<nat>, q: PM.Piece)
    requires k in pieces && LeasesBatch(pieces[k], g, q)
    ensures OnlyLeased(pieces, pieces[k := q])
  {
    hide PM.Piece.Eligible;
  }

  lemma LeasedInBatch(pieces: map<nat, PM.Piece>, k: nat, g: seq<nat>, q: PM.Piece, j: nat, b: nat)
    requires k in pieces && LeasesBatch(pieces[k], g, q) && NewlyLeased(pieces, pieces[k := q], j, b)
    ensures j == k && b in g
  {
    hide PM.Piece.Eligible;
  }

  lemma AskedOneOf(active: set<nat>, pieces: map<nat, PM.Piece>, k: nat, q: PM.Piece, g: seq<nat>,
                   msgs: seq<PeerMessage>, b: nat)
    requires k in active && k in pieces && LeasesBatch(pieces[k], g, q) && b in g && |msgs| == |g|
    requires forall i :: 0 <= i < |g| ==> IsRequestFor(msgs[i], k, g[i], |q.data|)
    requires forall i, j :: 0 <= i < j < |g| ==> msgs[i] != msgs[j]
    ensures AskedOnce(active, pieces, pieces[k := q], msgs, k, b)
  {
    hide PM.Piece.Eligible;
    var i :| 0 <= i < |g| && g[i] == b;
    OnceInDistinct(msgs, i);
    assert IsRequestFor(msgs[i], k, b, |q.data|);
  }

  lemma AsksForOneOf(pieces: map<nat, PM.Piece>, k: nat, q: PM.Piece, g: seq<nat>, msgs: seq<PeerMessage>, i: nat)
    requires k in pieces && LeasesBatch(pieces[k], g, q) && |msgs| == |g| && i < |g|
    requires IsRequestFor(msgs[i], k, g[i], |q.data|)
    ensures msgs[i].Request? && AsksForNew(pieces, pieces[k := q], msgs[i])
  {
    assert g[i] in g;
    assert NewlyLeased(pieces, pieces[k := q], k, g[i]);
  }

  /** Leasing one batch and sending its requests asks for exactly the blocks leased. */
  lemma AskedBatch(active: set<nat>, pieces: map<nat, PM.Piece>, k: nat, window: nat, now: int)
    requires k in active && k in pieces && pieces[k].Consistent()
    ensures Asked(active, pieces, pieces[k := PM.RequestBlocks(pieces[k], window, now)],
                  Requests(k, PM.Ranges(PM.Granted(pieces[k], window), |pieces[k].data|)))
  {
    var p := pieces[k];
    var g := PM.Granted(p, window);
    var q := PM.RequestBlocks(p, window, now);
    var pieces' := pieces[k := q];
    var msgs := Requests(k, PM.Ranges(g, |p.data|));
    BatchRequests(p, k, window);
    BatchLeases(p, window, now);
    BatchOnlyLeases(pieces, k, g, q);
    hide PM.Granted, PM.RequestBlocks, PM.Ranges, Requests, PM.Piece.Consistent, LeasesBatch, OnlyLeased, AskedOnce,
      AsksForNew, NewlyLeased, IsRequestFor;
    forall j: nat, b: nat | NewlyLeased(pieces, pieces', j, b) ensures AskedOnce(active, pieces, pieces', msgs, j, b) {
      LeasedInBatch(pieces, k, g, q, j, b);
      AskedOneOf(active, pieces, k, q, g, msgs, b);
    }
    forall m | m in msgs ensures m.Request? && AsksForNew(pieces, pieces', m) {
      var i :| 0 <= i < |msgs| && msgs[i] == m;
      AsksForOneOf(pieces, k, q, g, msgs, i);
    }
  }

  lemma NewPieceConsistent()
    ensures forall n: nat :: PM.NewPiece(n).Consistent()
  {
  }

  lemma GivenUnowned(c: TorrentManager.Config, s: TorrentManager.State, p: PeerId, now: int, h: Handle,
                     t: TorrentManager.State)
    requires WorkGiven(c, s, p, now, h, t)
    ensures !Has(s.local, h.index) && t.local == s.local && t.active.Keys == s.active.Keys + {h.index}
    ensures p in t.work
  {
  }

  /** What was sent since asks for exactly what was leased since. */
  ghost predicate AskedSince(active: set<nat>, pieces: map<nat, PM.Piece>, sent: seq<PeerMessage>,
                             pieces': map<nat, PM.Piece>, sent': seq<PeerMessage>) {
    sent <= sent' && Asked(active, pieces, pieces', sent'[|sent|..])
  }

  lemma AskedSinceTwice(active: set<nat>, active': set<nat>, p: map<nat, PM.Piece>, xs: seq<PeerMessage>,
                        q: map<nat, PM.Piece>, ys: seq<PeerMessage>, r: map<nat, PM.Piece>, zs: seq<PeerMessage>)
    requires active <= active' && AskedSince(active, p, xs, q, ys) && AskedSince(active', q, ys, r, zs)
    ensures AskedSince(active', p, xs, r, zs)
  {
    hide Asked;
    assert zs[|xs|..] == ys[|xs|..] + zs[|ys|..];
    AskedTwice(active, active', p, q, r, ys[|xs|..], zs[|ys|..]);
  }

  lemma AskedSinceNothing(active: set<nat>, pieces: map<nat, PM.Piece>, sent: seq<PeerMessage>)
    ensures AskedSince(active, pieces, sent, pieces, sent)
  {
    hide Asked;
    AskedNothing(active, pieces);
    assert sent[|sent|..] == [];
  }

  lemma ToppedOffAsked(active: set<nat>, pieces: map<nat, PM.Piece>, pieces': map<nat, PM.Piece>, window: nat,
                       now: int, sent: seq<PeerMessage>, sent': seq<PeerMessage>, count: nat)
    requires ToppedOff(active, pieces, pieces', window, now, sent, sent', count)
    requires forall k :: k in pieces ==> pieces[k].Consistent()
    ensures AskedSince(active, pieces, sent, pieces', sent')
    ensures SentAndCounted(sent, 0, sent', count) && Count(sent', IsInterested) == Count(sent, IsInterested)
    ensures pieces'.Keys == pieces.Keys
  {
    ToppedOffCounted(active, pieces, pieces', window, now, sent, sent', count);
    hide Count, PM.Piece.Consistent;
    var k :| k in active && k in pieces &&
      var g := PM.Granted(pieces[k], window);
      && count == |g| > 0
      && pieces' == pieces[k := PM.RequestBlocks(pieces[k], window, now)]
      && sent' == sent + Requests(k, PM.Ranges(g, |pieces[k].data|));
    AskedBatch(active, pieces, k, window, now);
    hide Asked, PM.Granted, PM.RequestBlocks, Requests, PM.Ranges;
    assert sent'[|sent|..] == Requests(k, PM.Ranges(PM.Granted(pieces[k], window), |pieces[k].data|));
  }

  class PeerState {
    const peerId: PeerId
    const options: PeerOptions
    const manager: TorrentManagerActor
    /** Every piece manager made so far, shared by all peers, and which of them this peer tracks. */
    var pieces: map<nat, PM.Piece>
    var activeRequests: set<nat>
    var inflightMessages: nat
    var pendingActiveRequestCount: nat
    var peerChoking: bool
    var hasUsefulPieces: bool
    var amInterested: bool
    /** Everything the framed writer has sent. */
    var sent: seq<PeerMessage>

    ghost predicate Valid()
      reads this
    {
      && options.inflightCap < U32
      && inflightMessages <= options.inflightCap
      && activeRequests <= pieces.Keys
      && forall k :: k in pieces ==> pieces[k].Consistent()
    }

    /**
     The peer has registered, so its requests for work cannot panic; every live piece
     has its manager, and every other manager's piece is finished.
     */
    ghost predicate Registered()
      reads this, manager
    {
      && manager.Valid() && peerId in manager.peerActiveWork && manager.activePiecesManager.Keys <= pieces.Keys
      && forall k :: k in pieces ==> k in manager.activePiecesManager || Has(manager.localBitfield, k)
    }

    constructor (peerId: PeerId, options: PeerOptions, manager: TorrentManagerActor, pieces: map<nat, PM.Piece>)
      requires options.inflightCap < U32 && forall k :: k in pieces ==> pieces[k].Consistent()
      ensures Valid() && this.peerId == peerId && this.options == options && this.manager == manager
      ensures this.pieces == pieces
      ensures inflightMessages == 0 && pendingActiveRequestCount == 0 && activeRequests == {} && sent == []
    {
      this.peerId := peerId;
      this.options := options;
      this.manager := manager;
      this.pieces := pieces;
      activeRequests := {};
      inflightMessages := 0;
      pendingActiveRequestCount := 0;
      peerChoking := true;
      hasUsefulPieces := false;
      amInterested := false;
      sent := [];
    }

    /** Send one request per block of the batch, counting each after it is sent. */
    method SendRequests(index: nat, batch: seq<PM.BlockRange>)
      requires inflightMessages + |batch| <= options.inflightCap
      modifies this`sent, this`inflightMessages
      ensures sent == old(sent) + Requests(index, batch)
      ensures inflightMessages == old(inflightMessages) + |batch|
    {
      for i := 0 to |batch|
        invariant sent == old(sent) + Requests(index, batch[..i])
        invariant inflightMessages == old(inflightMessages) + i
      {
        assert Requests(index, batch[..i + 1]) ==
          Requests(index, batch[..i]) + [Request(index, batch[i].offset, batch[i].length)];
        sent := sent + [Request(index, batch[i].offset, batch[i].length)];
        inflightMessages := inflightMessages + 1;
      }
      assert batch[..|batch|] == batch;
    }

    /** One candidate of the loop below: lease what it can give and ask the peer for it. */
    method TryPiece(c: nat, window: nat, now: int) returns (gave: bool)
      requires Valid() && c in activeRequests && 0 < window == options.inflightCap - inflightMessages
      modifies this`pieces, this`sent, this`inflightMessages
      ensures Valid()
      ensures gave <==> HasEligible(old(pieces)[c])
      ensures !gave ==> pieces == old(pieces) && sent == old(sent) && inflightMessages == old(inflightMessages)
      ensures gave ==> old(inflightMessages) < inflightMessages
      ensures gave ==> ToppedOff(activeRequests, old(pieces), pieces, window, now, old(sent), sent,
                                 inflightMessages - old(inflightMessages))
    {
      var piece := pieces[c];
      assert AsU32(window) == window;
      GrantedIffEligible(piece, window);
      GrantAtMost(piece, window);
      PM.LeaseConsistent(piece, window, now);
      hide PM.Granted, PM.RequestBlocks, PM.Ranges, PM.Piece.Consistent, HasEligible, Requests;
      var granted := PM.Granted(piece, AsU32(window));
      gave := granted != [];
      if gave {
        pieces := pieces[c := PM.RequestBlocks(piece, AsU32(window), now)];
        SendRequests(c, PM.Ranges(granted, |piece.data|));
      }
    }

    /** `top_off_inflight_window`: the candidates are tried in any order until one has blocks to give. */
    method TopOffInflightWindow(now: int) returns (progressed: bool)
      requires Valid()
      modifies this`pieces, this`sent, this`inflightMessages
      ensures Valid()
      ensures progressed <==> !peerChoking && old(inflightMessages) < options.inflightCap
                              && !Exhausted(activeRequests, old(pieces))
      ensures !progressed ==> pieces == old(pieces) && sent == old(sent) && inflightMessages == old(inflightMessages)
      ensures progressed ==> old(inflightMessages) < inflightMessages
      ensures progressed ==> ToppedOff(activeRequests, old(pieces), pieces, options.inflightCap - old(inflightMessages),
                                       now, old(sent), sent, inflightMessages - old(inflightMessages))
      ensures AskedSince(activeRequests, old(pieces), old(sent), pieces, sent)
      ensures SentAndCounted(old(sent), old(inflightMessages), sent, inflightMessages)
      ensures Count(sent, IsInterested) == Count(old(sent), IsInterested) && pieces.Keys == old(pieces).Keys
    {
      AskedSinceNothing(activeRequests, pieces, sent);
      hide ToppedOff, AskedSince, PM.Piece.Consistent;
      if peerChoking {
        return false;
      }
      if inflightMessages >= options.inflightCap {
        return false;
      }
      var window := options.inflightCap - inflightMessages;
      var candidates := activeRequests;
      progressed := false;
      while candidates != {} && !progressed
        invariant candidates <= activeRequests && Valid()
        invariant !progressed ==>
          pieces == old(pieces) && sent == old(sent) && inflightMessages == old(inflightMessages)
        invariant !progressed ==> Exhausted(activeRequests - candidates, pieces)
        invariant progressed ==> old(inflightMessages) < inflightMessages && !Exhausted(activeRequests, old(pieces))
        invariant progressed ==> ToppedOff(activeRequests, old(pieces), pieces, window, now, old(sent), sent,
                                           inflightMessages - old(inflightMessages))
        decreases candidates
      {
        var c :| c in candidates;
        candidates := candidates - {c};
        progressed := TryPiece(c, window, now);
      }
      if progressed {
        ToppedOffAsked(activeRequests, old(pieces), pieces, window, now, old(sent), sent,
                       inflightMessages - old(inflightMessages));
      }
    }

    /** `run_window_topoff`: on return the peer is choked, the window is full, or nothing can be asked for. */
    method RunWindowTopoff(now: int)
      requires Valid()
      modifies this`pieces, this`sent, this`inflightMessages
      ensures Valid() && SentAndCounted(old(sent), old(inflightMessages), sent, inflightMessages)
      ensures AskedSince(activeRequests, old(pieces), old(sent), pieces, sent)
      ensures peerChoking || inflightMessages == options.inflightCap || Exhausted(activeRequests, pieces)
    {
      AskedSinceNothing(activeRequests, pieces, sent);
      hide ToppedOff, AskedSince, Exhausted, PM.Piece.Consistent;
      var again := true;
      while again
        invariant Valid() && SentAndCounted(old(sent), old(inflightMessages), sent, inflightMessages)
        invariant AskedSince(activeRequests, old(pieces), old(sent), pieces, sent)
        invariant !again ==> peerChoking || inflightMessages == options.inflightCap || Exhausted(activeRequests, pieces)
        decreases options.inflightCap - inflightMessages, again
      {
        ghost var p, m := pieces, sent;
        again := TopOffInflightWindow(now);
        AskedSinceTwice(activeRequests, activeRequests, old(pieces), old(sent), p, m, pieces, sent);
      }
    }

    /** Ask the manager for a piece and track it. Only a piece that was not live gets a new, empty, piece manager. */
    method RequestPiece(now: int) returns (given: Option<Handle>)
      requires Valid() && Registered()
      modifies this`pieces, this`activeRequests, this`pendingActiveRequestCount, manager
      ensures Valid() && Registered()
      ensures given.None? <==> NothingFor(manager.config, old(manager.Now()), peerId)
      ensures given.None? ==> manager.Now() == old(manager.Now()) && pieces == old(pieces)
      ensures given.None? ==> activeRequests == old(activeRequests)
      ensures given.None? ==> pendingActiveRequestCount == old(pendingActiveRequestCount)
      ensures given.Some? ==> WorkGiven(manager.config, old(manager.Now()), peerId, now, given.value, manager.Now())
      ensures given.Some? ==> pieces == Reach(old(pieces), old(manager.Now()).active.Keys, given.value)
      ensures given.Some? && given.value.index !in old(manager.Now()).active ==> given.value.index !in old(pieces)
      ensures given.Some? ==> activeRequests == old(activeRequests) + {given.value.index}
      ensures given.Some? ==> pendingActiveRequestCount == old(pendingActiveRequestCount) + 1
    {
      hide Inv, BucketsIndex, NothingFor, Rarest, WorkGiven, WorkTaken, BestFor, CouldTake, PM.NewPiece, Assign,
        Tracked, PM.Piece.Consistent;
      NewPieceConsistent();
      var live := manager.activePiecesManager.Keys;
      var reply := manager.OnRequestWork(peerId, now);
      match reply
      case Work(h) =>
        GivenUnowned(manager.config, old(manager.Now()), peerId, now, h, manager.Now());
        if h.index !in live {
          pieces := pieces[h.index := PM.NewPiece(h.length)];
        }
        activeRequests := activeRequests + {h.index};
        pendingActiveRequestCount := pendingActiveRequestCount + 1;
        given := Some(h);
      case _ =>
        given := None;
    }

    /** Nothing is left to do for this peer until something changes. */
    ghost predicate NoSlack()
      reads this, manager
    {
      && (peerChoking || inflightMessages == options.inflightCap || Exhausted(activeRequests, pieces))
      && (peerChoking || pendingActiveRequestCount >= options.activeCap
          || NothingFor(manager.config, manager.Now(), peerId))
      && (hasUsefulPieces ==> amInterested)
    }

    /** How much room is left in the two caps. */
    ghost function Slack(): (room: nat)
      requires Valid()
      reads this
    {
      options.inflightCap - inflightMessages
      + if pendingActiveRequestCount < options.activeCap then options.activeCap - pendingActiveRequestCount else 0
    }

    /** What a stretch of the pass did to the messages sent and the counters. */
    twostate predicate Advanced()
      reads this
    {
      && peerChoking == old(peerChoking) && hasUsefulPieces == old(hasUsefulPieces)
      && SentAndCounted(old(sent), old(inflightMessages), sent, inflightMessages)
      && (old(amInterested) ==> amInterested)
      && Count(sent, IsInterested)
         == Count(old(sent), IsInterested) + (if amInterested && !old(amInterested) then 1 else 0)
      && old(activeRequests) <= activeRequests
      && old(pendingActiveRequestCount) <= pendingActiveRequestCount
      && (pendingActiveRequestCount <= old(pendingActiveRequestCount)
          || pendingActiveRequestCount <= options.activeCap)
      && AskedSince(activeRequests, old(pieces), old(sent), pieces, sent)
    }

    /** Send Interested if that is due. */
    method ExpressInterest()
      modifies this`sent, this`amInterested
      ensures amInterested == (old(amInterested) || hasUsefulPieces)
      ensures sent == old(sent) + if amInterested && !old(amInterested) then [Interested] else []
    {
      if hasUsefulPieces && !amInterested {
        sent := sent + [Interested];
        amInterested := true;
      }
    }

    /** The first half of a turn: Interested if that is due, and one more piece if there is room for it. */
    method AcquirePiece(now: int) returns (acquired: bool)
      requires Valid() && Registered()
      modifies this, manager
      ensures Valid() && Registered() && Advanced()
      ensures amInterested == (old(amInterested) || hasUsefulPieces)
      ensures inflightMessages == old(inflightMessages)
      ensures pendingActiveRequestCount == old(pendingActiveRequestCount) + if acquired then 1 else 0
      ensures acquired ==> old(pendingActiveRequestCount) < options.activeCap
      ensures !acquired ==>
        peerChoking || pendingActiveRequestCount >= options.activeCap
        || NothingFor(manager.config, manager.Now(), peerId)
    {
      hide Inv, BucketsIndex, NothingFor, WorkGiven, Count, PM.Piece.Consistent, PM.NewPiece, Asked;
      CountOneMore(sent, Interested, IsRequest);
      CountOneMore(sent, Interested, IsInterested);
      ExpressInterest();
      ghost var interest := amInterested && !old(amInterested);
      assert sent == if interest then old(sent) + [Interested] else old(sent);
      assert sent[|old(sent)|..] == if interest then [Interested] else [];
      acquired := false;
      ghost var h, made := Handle(0, 0), false;
      if !peerChoking && pendingActiveRequestCount < options.activeCap {
        var given := RequestPiece(now);
        acquired := given.Some?;
        if given.Some? {
          h, made := given.value, given.value.index !in old(manager.Now()).active;
        }
      }
      AskedNewPiece(activeRequests, old(pieces), h, made, interest);
      assert pieces == if made then old(pieces)[h.index := PM.NewPiece(h.length)] else old(pieces);
      assert AskedSince(activeRequests, old(pieces), old(sent), pieces, sent);
    }

    /** One turn of the full pass. */
    method FullPassTurn(now: int) returns (madeProgress: bool)
      requires Valid() && Registered()
      modifies this, manager
      ensures Valid() && Registered() && Advanced()
      ensures amInterested == (old(amInterested) || hasUsefulPieces)
      ensures Slack() <= old(Slack()) && (madeProgress ==> Slack() < old(Slack()))
      ensures !madeProgress ==> NoSlack()
    {
      hide Inv, BucketsIndex, NothingFor, Exhausted, ToppedOff, Count, PM.Piece.Consistent, AskedSince;
      madeProgress := AcquirePiece(now);
      ghost var p, m := pieces, sent;
      var progressed := TopOffInflightWindow(now);
      AskedSinceTwice(activeRequests, activeRequests, old(pieces), old(sent), p, m, pieces, sent);
      madeProgress := madeProgress || progressed;
    }

    /** `run_full_pass`: each progressing turn uses up room, and the last one leaves no slack. */
    method RunFullPass(now: int)
      requires Valid() && Registered()
      modifies this, manager
      ensures Valid() && Registered() && Advanced() && NoSlack()
      ensures amInterested ==> old(amInterested) || hasUsefulPieces
    {
      AskedSinceNothing(activeRequests, pieces, sent);
      hide Inv, BucketsIndex, NothingFor, Exhausted, Count, PM.Piece.Consistent, AskedSince;
      var madeProgress := true;
      while madeProgress
        invariant Valid() && Registered() && Advanced()
        invariant amInterested ==> old(amInterested) || hasUsefulPieces
        invariant !madeProgress ==> NoSlack()
        decreases Slack(), madeProgress
      {
        ghost var a, p, m := activeRequests, pieces, sent;
        madeProgress := FullPassTurn(now);
        AskedSinceTwice(a, activeRequests, old(pieces), old(sent), p, m, pieces, sent);
      }
    }
  }
}

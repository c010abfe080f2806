/**
 Whole runs of one piece manager: any interleaving of block requests, block
 deliveries and ticks, from any number of peers.
 */
module PieceRuns {
  import opened Base
  import opened TorrentMeta
  import opened PieceManager

  datatype Event =
    | Request(k: nat, now: int)
    | Deliver(offset: nat, bytes: seq<byte>)
    | Timer(now: int)

  /** What does not change during a run. */
  datatype Setting = Setting(sha1: Digest, want: seq<byte>, timeout: nat)

  ghost function Next(c: Setting, p: Piece, e: Event): (q: Piece)
    requires p.Consistent()
    ensures q.Consistent() && |q.data| == |p.data|
  {
    match e
    case Request(k, now) => LeaseConsistent(p, k, now); RequestBlocks(p, k, now)
    case Deliver(offset, bytes) =>
      ReceiveConsistent(p, offset, bytes, c.sha1, c.want);
      Receive(p, offset, bytes, c.sha1, c.want).0
    case Timer(now) => TickConsistent(p, now, c.timeout); Tick(p, now, c.timeout)
  }

  ghost predicate Step(c: Setting, p: Piece, e: Event, q: Piece) {
    p.Consistent() && q == Next(c, p, e)
  }

  /** `states` are the states of a run over `events`, starting from a consistent one. */
  ghost predicate IsRun(c: Setting, states: seq<Piece>, events: seq<Event>) {
    && |states| == |events| + 1
    && states[0].Consistent()
    && forall i :: 0 <= i < |events| ==> Step(c, states[i], events[i], states[i + 1])
  }

  // ---------------------------------------------------------------- reassembly

  /** An aligned block of the right length carrying the true bytes. */
  ghost predicate TrueBlock(orig: seq<byte>, e: Event)
    requires e.Deliver?
  {
    var b := OffsetToIndex(e.offset);
    && e.offset == IndexToOffset(b)
    && b < BlockCount(|orig|)
    && e.offset + BlockSizeAt(|orig|, b) <= |orig|
    && e.bytes == orig[e.offset..e.offset + BlockSizeAt(|orig|, b)]
  }

  ghost predicate AllTrue(orig: seq<byte>, events: seq<Event>) {
    forall i :: 0 <= i < |events| && events[i].Deliver? ==> TrueBlock(orig, events[i])
  }

  /** Block `b` is among the first `n` events. */
  ghost predicate Delivered(events: seq<Event>, n: nat, b: nat) {
    exists i :: 0 <= i < n && i < |events| && events[i].Deliver? && OffsetToIndex(events[i].offset) == b
  }

  ghost predicate AllDelivered(events: seq<Event>, n: nat, numBlocks: nat) {
    forall b: nat :: b < numBlocks ==> Delivered(events, n, b)
  }

  /** The state that a set of true deliveries determines, whatever their order. */
  ghost predicate Assembled(orig: seq<byte>, events: seq<Event>, n: nat, p: Piece) {
    && p.Consistent() && p.alive && |p.data| == |orig|
    && (forall b: nat :: b < |p.downloaded| ==> (p.downloaded[b] <==> Delivered(events, n, b)))
    && (forall i: nat :: i < |orig| ==>
          p.data[i] == if Delivered(events, n, OffsetToIndex(i)) then orig[i] else 0)
  }

  lemma DeliveredStep(events: seq<Event>, n: nat, b: nat)
    requires n < |events|
    ensures Delivered(events, n + 1, b) <==>
      Delivered(events, n, b) || (events[n].Deliver? && OffsetToIndex(events[n].offset) == b)
  {
  }

  /** Storing a true block changes exactly the bytes of that block, to the true ones. */
  lemma StoreTrueBytes(orig: seq<byte>, p: Piece, e: Event, i: nat)
    requires p.Consistent() && |p.data| == |orig| && e.Deliver? && TrueBlock(orig, e) && i < |orig|
    ensures OffsetToIndex(e.offset) < p.NumBlocks()
    ensures Store(p, e.offset, e.bytes).data[i]
         == if OffsetToIndex(i) == OffsetToIndex(e.offset) then orig[i] else p.data[i]
  {
    OffsetIndexInverse(|orig|, OffsetToIndex(e.offset), i);
  }

  lemma StoreTrueBlock(orig: seq<byte>, events: seq<Event>, n: nat, p: Piece)
    requires Assembled(orig, events, n, p) && n < |events|
    requires events[n].Deliver? && TrueBlock(orig, events[n])
    ensures Assembled(orig, events, n + 1, Store(p, events[n].offset, events[n].bytes))
  {
    var e := events[n];
    var q := Store(p, e.offset, e.bytes);
    StoreConsistent(p, e.offset, e.bytes);
    assert q.downloaded == p.downloaded[OffsetToIndex(e.offset) := true];
    hide Delivered, Store, Piece.Consistent, TrueBlock;
    forall k: nat | k < |q.downloaded|
      ensures q.downloaded[k] <==> Delivered(events, n + 1, k)
    {
      DeliveredStep(events, n, k);
    }
    forall i: nat | i < |orig|
      ensures q.data[i] == if Delivered(events, n + 1, OffsetToIndex(i)) then orig[i] else 0
    {
      DeliveredStep(events, n, OffsetToIndex(i));
      StoreTrueBytes(orig, p, e, i);
    }
  }

  lemma AllDownloadedMeansWhole(orig: seq<byte>, events: seq<Event>, n: nat, p: Piece)
    requires Assembled(orig, events, n, p)
    ensures p.AllDownloaded() <==> AllDelivered(events, n, BlockCount(|orig|))
    ensures p.AllDownloaded() ==> p.data == orig
  {
    if p.AllDownloaded() {
      forall i: nat | i < |orig| ensures p.data[i] == orig[i] {
        PieceOfByte(|orig|, BLOCK_SIZE, i, 0);
        BlocksTilePiece(|orig|, 0);
      }
    }
  }

  lemma AssembledStep(c: Setting, orig: seq<byte>, events: seq<Event>, n: nat, p: Piece)
    requires c.sha1(orig) == c.want
    requires Assembled(orig, events, n, p) && n < |events|
    requires events[n].Deliver? ==> TrueBlock(orig, events[n])
    ensures Assembled(orig, events, n + 1, Next(c, p, events[n]))
  {
    var e := events[n];
    if e.Deliver? {
      StoreTrueBlock(orig, events, n, p);
      AllDownloadedMeansWhole(orig, events, n + 1, Store(p, e.offset, e.bytes));
    } else {
      var q := Next(c, p, e);
      assert q.downloaded == p.downloaded && q.data == p.data;
      forall b: nat ensures Delivered(events, n + 1, b) <==> Delivered(events, n, b) {
        DeliveredStep(events, n, b);
      }
    }
  }

  lemma EmptyAssembled(orig: seq<byte>, events: seq<Event>)
    ensures Assembled(orig, events, 0, NewPiece(|orig|))
  {
  }

  /**
   Reassembly. In any run of true blocks, mixed with any requests and ticks,
   the downloaded set is exactly the delivered set and the buffer holds the
   true bytes there and zeros elsewhere: no reset ever happens.
   */
  lemma {:induction false} Reassembly(c: Setting, orig: seq<byte>, states: seq<Piece>, events: seq<Event>, n: nat)
    requires c.sha1(orig) == c.want
    requires IsRun(c, states, events) && states[0] == NewPiece(|orig|) && AllTrue(orig, events) && n <= |events|
    ensures Assembled(orig, events, n, states[n])
  {
    hide Assembled, NewPiece, Next, TrueBlock, Piece.Consistent;
    if n == 0 {
      EmptyAssembled(orig, events);
    } else {
      Reassembly(c, orig, states, events, n - 1);
      assert Step(c, states[n - 1], events[n - 1], states[n]);
      AssembledStep(c, orig, events, n - 1, states[n - 1]);
    }
  }

  lemma SameDeliveriesSameState(orig: seq<byte>, xs: seq<Event>, p: Piece, ys: seq<Event>, q: Piece)
    requires Assembled(orig, xs, |xs|, p) && Assembled(orig, ys, |ys|, q)
    requires forall b: nat :: b < BlockCount(|orig|) ==> (Delivered(xs, |xs|, b) <==> Delivered(ys, |ys|, b))
    ensures p.downloaded == q.downloaded && p.required == q.required && p.data == q.data
  {
    forall i: nat | i < |orig| ensures p.data[i] == q.data[i] {
      PieceOfByte(|orig|, BLOCK_SIZE, i, 0);
      BlocksTilePiece(|orig|, 0);
    }
    assert p.required == q.required;
  }

  /** Two runs that delivered the same blocks end in the same bits and the same bytes. */
  lemma OrderIndependent(c: Setting, orig: seq<byte>, ps: seq<Piece>, xs: seq<Event>, qs: seq<Piece>, ys: seq<Event>)
    requires c.sha1(orig) == c.want
    requires IsRun(c, ps, xs) && ps[0] == NewPiece(|orig|) && AllTrue(orig, xs)
    requires IsRun(c, qs, ys) && qs[0] == NewPiece(|orig|) && AllTrue(orig, ys)
    requires forall b: nat :: b < BlockCount(|orig|) ==> (Delivered(xs, |xs|, b) <==> Delivered(ys, |ys|, b))
    ensures var p, q := ps[|xs|], qs[|ys|];
      p.downloaded == q.downloaded && p.required == q.required && p.data == q.data
  {
    Reassembly(c, orig, ps, xs, |xs|);
    Reassembly(c, orig, qs, ys, |ys|);
    SameDeliveriesSameState(orig, xs, ps[|xs|], ys, qs[|ys|]);
  }

  /** A true block gets the reply `true` exactly when it completes the set, and then the buffer is the piece. */
  lemma ReplyTrueIffComplete(c: Setting, orig: seq<byte>, states: seq<Piece>, events: seq<Event>, n: nat)
    requires c.sha1(orig) == c.want
    requires IsRun(c, states, events) && states[0] == NewPiece(|orig|) && AllTrue(orig, events)
    requires n < |events| && events[n].Deliver?
    ensures Step(c, states[n], events[n], states[n + 1])
    ensures var reply := Receive(states[n], events[n].offset, events[n].bytes, c.sha1, c.want).1;
      && (reply <==> AllDelivered(events, n + 1, BlockCount(|orig|)))
      && (reply ==> states[n + 1].data == orig)
  {
    Reassembly(c, orig, states, events, n);
    assert Step(c, states[n], events[n], states[n + 1]);
    StoreTrueBlock(orig, events, n, states[n]);
    AllDownloadedMeansWhole(orig, events, n + 1, Store(states[n], events[n].offset, events[n].bytes));
  }

  // ---------------------------------------------------------------- leases

  ghost predicate Grants(p: Piece, e: Event, b: nat) {
    e.Request? && b in Granted(p, e.k)
  }

  /** The delivery completes the bitset but fails the hash. */
  ghost predicate Resets(c: Setting, p: Piece, e: Event)
    requires p.Consistent()
  {
    e.Deliver? && p.alive && OffsetToIndex(e.offset) < p.NumBlocks() &&
    var q := Store(p, e.offset, e.bytes);
    q.AllDownloaded() && c.sha1(q.data) != c.want
  }

  /** Block `b` is leased since `since`, or already downloaded. */
  ghost predicate Held(p: Piece, b: nat, since: int) {
    && p.Consistent() && b < p.NumBlocks()
    && (p.downloaded[b] || (p.inFlight[b] && p.timers[b] == since))
  }

  ghost predicate Releases(c: Setting, p: Piece, e: Event, since: int)
    requires p.Consistent()
  {
    (e.Timer? && e.now - since > c.timeout) || Resets(c, p, e)
  }

  lemma HeldStep(c: Setting, p: Piece, e: Event, b: nat, since: int)
    requires Held(p, b, since)
    ensures Held(Next(c, p, e), b, since) || Releases(c, p, e, since)
    ensures !Grants(p, e, b)
  {
    if e.Request? {
      BatchIsFirstEligible(p, e.k);
    }
  }

  lemma GrantHolds(c: Setting, p: Piece, e: Event, b: nat)
    requires p.Consistent() && Grants(p, e, b)
    ensures Held(Next(c, p, e), b, e.now)
  {
    BatchIsFirstEligible(p, e.k);
  }

  /** Something between steps `i` and `j` ended the lease taken at time `since`. */
  ghost predicate ReleasedBetween(c: Setting, states: seq<Piece>, events: seq<Event>, i: nat, j: nat, since: int)
    requires IsRun(c, states, events) && j <= |events|
  {
    exists m :: i < m < j && Step(c, states[m], events[m], states[m + 1]) && Releases(c, states[m], events[m], since)
  }

  lemma {:induction false} LeaseLasts(c: Setting, states: seq<Piece>, events: seq<Event>, b: nat, i: nat, j: nat,
                                      since: int)
    requires IsRun(c, states, events) && i < j <= |events|
    requires Held(states[i + 1], b, since)
    ensures Held(states[j], b, since) || ReleasedBetween(c, states, events, i, j, since)
    decreases j
  {
    if i + 1 == j {
    } else {
      LeaseLasts(c, states, events, b, i, j - 1, since);
      if Held(states[j - 1], b, since) {
        assert Step(c, states[j - 1], events[j - 1], states[j]);
        HeldStep(c, states[j - 1], events[j - 1], b, since);
      }
    }
  }

  /**
   Leases are exclusive, whatever is delivered: a block granted at step `i` is granted again at step `j`
   only if, in between, more than the timeout passed since the grant or the piece
   was reset by a hash mismatch.
   */
  lemma LeaseExclusive(c: Setting, states: seq<Piece>, events: seq<Event>, b: nat, i: nat, j: nat)
    requires IsRun(c, states, events) && i < j < |events|
    requires Grants(states[i], events[i], b) && Grants(states[j], events[j], b)
    ensures ReleasedBetween(c, states, events, i, j, events[i].now)
  {
    assert Step(c, states[i], events[i], states[i + 1]);
    assert Step(c, states[j], events[j], states[j + 1]);
    GrantHolds(c, states[i], events[i], b);
    LeaseLasts(c, states, events, b, i, j, events[i].now);
    if Held(states[j], b, events[i].now) {
      HeldStep(c, states[j], events[j], b, events[i].now);
    }
  }
}

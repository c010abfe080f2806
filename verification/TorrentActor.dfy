/**
 The torrent manager actor (torrent_manager.rs). Its fields are updated in
 place, with the 256 rarity buckets kept beside the frequencies; every method
 is proved to do what the functions of TorrentManager say, and to keep the
 buckets the exact inverse of the frequencies.
 */
module TorrentActor {
  import opened Base
  import opened TorrentMeta
  import opened TorrentEffects
  import opened TorrentManager

  const BUCKETS: nat := 256

  ghost predicate CountedAt(freq: seq<nat>, f: int, x: nat) {
    f >= 1 && x < |freq| && freq[x] == f
  }

  /** Piece `x` is in bucket `f` exactly when `f` is at least 1 and is its frequency. */
  ghost predicate BucketsIndex(freq: seq<nat>, buckets: seq<set<nat>>) {
    && |buckets| == BUCKETS
    && forall f, x: nat :: 0 <= f < BUCKETS ==> (x in buckets[f] <==> CountedAt(freq, f, x))
  }

  /** What moving one piece between buckets does. */
  function MoveBucket(buckets: seq<set<nat>>, x: nat, from: nat, to: nat): (moved: seq<set<nat>>)
    requires from < |buckets| && to < |buckets|
  {
    var removed := buckets[from := buckets[from] - {x}];
    removed[to := removed[to] + {x}]
  }

  lemma MoveKeepsIndex(freq: seq<nat>, buckets: seq<set<nat>>, x: nat, to: nat)
    requires BucketsIndex(freq, buckets) && x < |freq| && freq[x] < BUCKETS && 1 <= to < BUCKETS
    ensures BucketsIndex(freq[x := to], MoveBucket(buckets, x, freq[x], to))
  {
    var moved := MoveBucket(buckets, x, freq[x], to);
    forall f, y: nat | 0 <= f < BUCKETS
      ensures y in moved[f] <==> CountedAt(freq[x := to], f, y)
    {
      assert y in buckets[f] <==> CountedAt(freq, f, y);
    }
  }

  lemma RemoveKeepsIndex(freq: seq<nat>, buckets: seq<set<nat>>, x: nat)
    requires BucketsIndex(freq, buckets) && x < |freq| && freq[x] < BUCKETS
    ensures BucketsIndex(freq[x := 0], buckets[freq[x] := buckets[freq[x]] - {x}])
  {
    var removed := buckets[freq[x] := buckets[freq[x]] - {x}];
    forall f, y: nat | 0 <= f < BUCKETS
      ensures y in removed[f] <==> CountedAt(freq[x := 0], f, y)
    {
      assert y in buckets[f] <==> CountedAt(freq, f, y);
    }
  }

  /** No piece is in two buckets, and a piece in no bucket has frequency 0. */
  lemma BucketsPartition(freq: seq<nat>, buckets: seq<set<nat>>, x: nat, f: nat, g: nat)
    requires BucketsIndex(freq, buckets) && f < g < BUCKETS
    ensures buckets[f] !! buckets[g]
    ensures x < |freq| && freq[x] < BUCKETS && (forall h :: 0 <= h < BUCKETS ==> x !in buckets[h]) ==> freq[x] == 0
  {
    assert forall y: nat :: y in buckets[f] ==> CountedAt(freq, f, y);
    assert forall y: nat :: y in buckets[g] ==> CountedAt(freq, g, y);
    if x < |freq| && 1 <= freq[x] < BUCKETS {
      assert CountedAt(freq, freq[x], x);
    }
  }

  /** An eligible piece is held by the peer, so it is counted, so it is in a bucket. */
  lemma EligibleInBucket(c: Config, s: State, p: PeerId, buckets: seq<set<nat>>, i: nat)
    requires Shape(c, s) && FreqCovers(s) && BucketsIndex(s.freq, buckets) && p in s.peers && Eligible(c, s, p, i)
    ensures i < |s.freq| && 1 <= s.freq[i] < BUCKETS && i in buckets[s.freq[i]]
  {
    assert i < |s.freq| && !s.local[i];
    assert p in HolderSet(s.peers, i);
    assert s.freq[i] >= Saturated(Holders(s, i));
    assert CountedAt(s.freq, s.freq[i], i);
  }

  /** Nothing eligible is in the buckets below `f`. */
  ghost predicate NoneBelow(c: Config, s: State, p: PeerId, buckets: seq<set<nat>>, f: nat)
    requires p in s.peers && f <= |buckets|
  {
    forall g, x :: 0 <= g < f && x in buckets[g] ==> !Eligible(c, s, p, x)
  }

  lemma FirstFoundIsRarest(c: Config, s: State, p: PeerId, buckets: seq<set<nat>>, f: nat, x: nat)
    requires Shape(c, s) && FreqCovers(s) && BucketsIndex(s.freq, buckets) && p in s.peers
    requires f < BUCKETS && x in buckets[f] && Eligible(c, s, p, x) && NoneBelow(c, s, p, buckets, f)
    ensures Rarest(c, s, p, x)
  {
    assert CountedAt(s.freq, f, x);
    forall j: nat | j < |s.freq| && Eligible(c, s, p, j) ensures s.freq[x] <= s.freq[j] {
      EligibleInBucket(c, s, p, buckets, j);
    }
  }

  lemma NoneFoundIsNone(c: Config, s: State, p: PeerId, buckets: seq<set<nat>>)
    requires Shape(c, s) && FreqCovers(s) && BucketsIndex(s.freq, buckets) && p in s.peers
    requires NoneBelow(c, s, p, buckets, BUCKETS)
    ensures NothingFor(c, s, p)
  {
    forall i: nat ensures !Eligible(c, s, p, i) {
      if Eligible(c, s, p, i) {
        EligibleInBucket(c, s, p, buckets, i);
      }
    }
  }

  /** The index of a Have is inside the bitfield stored for the peer, and below the number of pieces. */
  predicate HaveFits(c: Config, s: State, p: PeerId, i: nat)
    requires c.pieceLen > 0
  {
    p in s.peers && i < |s.peers[p]| && i < c.Pieces()
  }

  lemma ShapeSizes(c: Config, s: State)
    requires Shape(c, s)
    ensures c.pieceLen > 0 && |s.freq| == |s.local| == c.Pieces()
  {
  }

  /** A Have for piece `i` counts it once, and only while it is new and unowned. */
  lemma HaveFreq(s: State, p: PeerId, i: nat)
    requires p in s.peers && i < |s.peers[p]| && i < |s.freq|
    ensures FreqAfter(s, p, s.peers[p][i := true])
         == if Has(s.peers[p], i) || Has(s.local, i) then s.freq else s.freq[i := Bump(s.freq[i])]
  {
  }

  lemma {:induction false} WithoutTwice(list: seq<Assignment>, i: nat)
    ensures Without(Without(list, i), i) == Without(list, i)
  {
    if |list| == 0 {
    } else {
      var front := Without(list[..|list| - 1], i);
      WithoutTwice(list[..|list| - 1], i);
      assert (front + [list[|list| - 1]])[..|front|] == front;
    }
  }

  lemma StripTwice(work: map<PeerId, seq<Assignment>>, i: nat)
    ensures StripAll(StripAll(work, i), i) == StripAll(work, i)
  {
    forall p | p in work ensures Without(Without(work[p], i), i) == Without(work[p], i) {
      WithoutTwice(work[p], i);
    }
  }

  /** The reply to a request for work, and the state after it: a rarest eligible piece, now assigned. */
  ghost predicate WorkGiven(c: Config, s: State, p: PeerId, now: int, h: Handle, t: State) {
    && c.pieceLen > 0 && p in s.peers && p in s.work
    && Rarest(c, s, p, h.index)
    && t == Assign(c, s, p, h.index, now)
    && h == Handle(h.index, c.LengthOf(h.index))
  }

  lemma PickReady(c: Config, s: State, p: PeerId, i: nat, now: int)
    requires Inv(c, s) && p in s.peers && Rarest(c, s, p, i)
    ensures c.pieceLen > 0 && i in s.counts && Eligible(c, s, p, i) && !NothingFor(c, s, p)
    ensures p in s.work ==> WorkGiven(c, s, p, now, Handle(i, c.LengthOf(i)), Assign(c, s, p, i, now))
    ensures p in s.work ==>
      i in Assign(c, s, p, i, now).active && Assign(c, s, p, i, now).active[i] == Handle(i, c.LengthOf(i))
  {
    PieceLenPositive(c, s);
    hide Shape, FreqCovers, CountsCover, WorkLive, LogSound;
  }

  datatype WorkReply = NoWork | Work(handle: Handle) | Panic

  class TorrentManagerActor {
    const config: Config
    var piecesFrequency: seq<nat>
    var rarityBucket: seq<set<nat>>
    var peerBitfields: map<PeerId, seq<bool>>
    var localBitfield: seq<bool>
    var peerActiveWork: map<PeerId, seq<Assignment>>
    var pieceConcurrencyCounts: map<nat, nat>
    var activePiecesManager: map<nat, Handle>
    var downloadedPieceIndex: seq<nat>
    var downloadedBytes: nat
    /** The value on the watch channel the peers' writers follow. */
    var notified: nat

    ghost function Now(): (s: State)
      reads this
    {
      State(piecesFrequency, peerBitfields, localBitfield, peerActiveWork, pieceConcurrencyCounts,
            activePiecesManager, downloadedPieceIndex, downloadedBytes)
    }

    ghost predicate Valid()
      reads this
    {
      Inv(config, Now()) && BucketsIndex(piecesFrequency, rarityBucket) && notified == |downloadedPieceIndex|
    }

    constructor (config: Config)
      requires config.Valid()
      ensures Valid() && this.config == config && Now() == Init(config) && Blank(config, Now())
    {
      this.config := config;
      var n := config.Pieces();
      piecesFrequency := seq(n, i => 0);
      rarityBucket := seq(BUCKETS, i => {});
      peerBitfields := map[];
      localBitfield := seq(n, i => false);
      peerActiveWork := map[];
      pieceConcurrencyCounts := ZeroCounts(n);
      activePiecesManager := map[];
      downloadedPieceIndex := [];
      downloadedBytes := 0;
      notified := 0;
      new;
      InitInv(config);
      InitBlank(config);
    }

    /** `update_freq_bitfield`: one pass over the set bits. A set bit past the last piece panics. */
    method UpdateFreqBitfield(bits: seq<bool>, p: PeerId) returns (panicked: bool)
      requires Shape(config, Now()) && BucketsIndex(piecesFrequency, rarityBucket)
      modifies this`piecesFrequency, this`rarityBucket
      ensures panicked <==> !InRange(config, bits)
      ensures !panicked ==> piecesFrequency == FreqAfter(old(Now()), p, bits)
      ensures BucketsIndex(piecesFrequency, rarityBucket)
    {
      ghost var s := Now();
      for idx := 0 to |bits|
        invariant |piecesFrequency| == |s.freq|
        invariant forall i :: 0 <= i < |s.freq| ==>
          piecesFrequency[i] == if i < idx && NewFor(s, p, bits, i) then Bump(s.freq[i]) else s.freq[i]
        invariant BucketsIndex(piecesFrequency, rarityBucket)
        invariant forall i: nat :: i < idx && Has(bits, i) ==> i < config.Pieces()
      {
        if bits[idx] {
          assert Has(bits, idx);
          if Has(localBitfield, idx) {
            continue;
          }
          var isNew := if p in peerBitfields then !Has(peerBitfields[p], idx) else true;
          if isNew {
            if idx >= |piecesFrequency| {
              return true;
            }
            var oldFreq := piecesFrequency[idx];
            var newFreq := Min(oldFreq + 1, 255);
            MoveKeepsIndex(piecesFrequency, rarityBucket, idx, newFreq);
            rarityBucket := rarityBucket[Min(oldFreq, 255) := rarityBucket[Min(oldFreq, 255)] - {idx}];
            rarityBucket := rarityBucket[newFreq := rarityBucket[newFreq] + {idx}];
            piecesFrequency := piecesFrequency[idx := newFreq];
          }
        }
      }
      panicked := false;
    }

    /** `AddPeer`: the reply is our own bitfield, or none if a set bit past the last piece ends the manager. */
    method OnAddPeer(p: PeerId, bits: seq<bool>) returns (reply: Option<seq<bool>>)
      requires Valid()
      modifies this
      ensures reply.None? <==> !InRange(config, bits)
      ensures reply.Some? ==> Valid() && Now() == AddPeer(old(Now()), p, bits) && reply.value == localBitfield
      ensures reply.Some? ==> PeerAdded(old(Now()), p, bits, Now())
    {
      hide PeerAdded, FreqCovers, CountsCover, WorkLive, ActiveFits, LogSound;
      AddPeerExact(config, Now(), p, bits);
      if InRange(config, bits) {
        AddPeerInv(config, Now(), p, bits);
      }
      var panicked := UpdateFreqBitfield(bits, p);
      if panicked {
        return None;
      }
      peerBitfields := peerBitfields[p := bits];
      peerActiveWork := peerActiveWork[p := []];
      reply := Some(localBitfield);
    }

    /** `AddBitFeild`: a set bit past the last piece, spare or not, ends the manager. */
    method OnAddBitfield(p: PeerId, bits: seq<bool>) returns (panicked: bool)
      requires Valid()
      modifies this
      ensures panicked <==> !InRange(config, bits)
      ensures !panicked ==> Valid() && Now() == AddBitfield(old(Now()), p, bits)
      ensures !panicked ==> BitfieldTaken(old(Now()), p, bits, Now())
    {
      hide BitfieldTaken, FreqCovers, CountsCover, WorkLive, ActiveFits, LogSound;
      AddBitfieldExact(config, Now(), p, bits);
      if InRange(config, bits) {
        AddBitfieldInv(config, Now(), p, bits);
      }
      panicked := UpdateFreqBitfield(bits, p);
      if !panicked {
        peerBitfields := peerBitfields[p := bits];
      }
    }

    /** `update_freq_have`. A new bit past the stored bitfield, or past the last piece, panics. */
    method UpdateFreqHave(p: PeerId, index: nat) returns (panicked: bool)
      requires Shape(config, Now()) && BucketsIndex(piecesFrequency, rarityBucket)
      modifies this`piecesFrequency, this`rarityBucket, this`peerBitfields
      ensures panicked <==>
        && !Has(localBitfield, index) && p in old(peerBitfields)
        && (index >= |old(peerBitfields)[p]| || index >= config.Pieces())
      ensures BucketsIndex(piecesFrequency, rarityBucket)
      ensures !panicked && p in old(peerBitfields) && index < |old(peerBitfields)[p]| && index < config.Pieces() ==>
        && piecesFrequency == FreqAfter(old(Now()), p, old(peerBitfields)[p][index := true])
        && peerBitfields == if localBitfield[index] then old(peerBitfields)
                            else old(peerBitfields)[p := old(peerBitfields)[p][index := true]]
      ensures Has(localBitfield, index) || p !in old(peerBitfields) ==> peerBitfields == old(peerBitfields)
    {
      if p in peerBitfields && index < |peerBitfields[p]| && index < config.Pieces() {
        HaveFreq(Now(), p, index);
      }
      if Has(localBitfield, index) {
        return false;
      }
      if p in peerBitfields {
        if !Has(peerBitfields[p], index) {
          if index >= |peerBitfields[p]| {
            return true;
          }
          peerBitfields := peerBitfields[p := peerBitfields[p][index := true]];
          if index >= |piecesFrequency| {
            return true;
          }
          var oldFreq := piecesFrequency[index];
          var newFreq := Min(oldFreq + 1, 255);
          MoveKeepsIndex(piecesFrequency, rarityBucket, index, newFreq);
          rarityBucket := rarityBucket[Min(oldFreq, 255) := rarityBucket[Min(oldFreq, 255)] - {index}];
          rarityBucket := rarityBucket[newFreq := rarityBucket[newFreq] + {index}];
          piecesFrequency := piecesFrequency[index := newFreq];
        } else {
          assert peerBitfields[p][index := true] == peerBitfields[p];
        }
      }
      panicked := false;
    }

    /**
     `UpdateBitField`. The manager panics exactly for an unknown peer, for an index
     past the stored bitfield, so for every Have before a bitfield, and for one past
     the last piece.
     */
    method OnUpdateBitfield(p: PeerId, index: nat) returns (panicked: bool)
      requires Valid()
      modifies this
      ensures panicked <==> !HaveFits(config, old(Now()), p, index)
      ensures !panicked ==> Valid() && Now() == AddHave(old(Now()), p, index)
      ensures !panicked ==> HaveTaken(old(Now()), p, index, Now())
    {
      hide Shape, FreqCovers, CountsCover, WorkLive, ActiveFits, LogSound, BucketsIndex, FreqAfter, HaveTaken;
      ghost var s := Now();
      ShapeSizes(config, s);
      if HaveFits(config, s, p, index) {
        AddHaveExact(config, s, p, index);
        AddHaveInv(config, s, p, index);
      }
      var failed := UpdateFreqHave(p, index);
      if failed || p !in peerBitfields || index >= |peerBitfields[p]| {
        return true;
      }
      ghost var bits := s.peers[p][index := true];
      peerBitfields := peerBitfields[p := peerBitfields[p][index := true]];
      assert peerBitfields[p] == bits;
      assert peerBitfields == s.peers[p := bits];
      panicked := false;
    }

    /** The search over the buckets, rarest first; within a bucket in any order. */
    method FindPiece(p: PeerId) returns (found: Option<nat>)
      requires Valid() && p in peerBitfields
      ensures found.None? ==> NothingFor(config, Now(), p)
      ensures found.Some? ==> Rarest(config, Now(), p, found.value)
    {
      var f := 0;
      while f < |rarityBucket|
        invariant 0 <= f <= |rarityBucket| == BUCKETS
        invariant NoneBelow(config, Now(), p, rarityBucket, f)
      {
        var todo := rarityBucket[f];
        while todo != {}
          invariant todo <= rarityBucket[f]
          invariant forall x :: x in rarityBucket[f] - todo ==> !Eligible(config, Now(), p, x)
        {
          var idx :| idx in todo;
          var hasPiece := Has(peerBitfields[p], idx);
          var alreadyDownloaded := Has(localBitfield, idx);
          var withinCap := idx in pieceConcurrencyCounts && pieceConcurrencyCounts[idx] <= config.perPieceCap;
          var alreadyAssigned := p in peerActiveWork && Assigned(peerActiveWork[p], idx);
          if hasPiece && !alreadyDownloaded && withinCap && !alreadyAssigned {
            FirstFoundIsRarest(config, Now(), p, rarityBucket, f, idx);
            return Some(idx);
          }
          todo := todo - {idx};
        }
        f := f + 1;
      }
      NoneFoundIsNone(config, Now(), p, rarityBucket);
      found := None;
    }

    /** The choice of a piece; none for a peer without a bitfield. */
    method ChoosePiece(p: PeerId) returns (found: Option<nat>)
      requires Valid()
      ensures found.None? <==> NothingFor(config, Now(), p)
      ensures found.None? <==> forall i: nat :: !CouldTake(config, Now(), p, i)
      ensures found.Some? ==>
        p in peerBitfields && Rarest(config, Now(), p, found.value) && BestFor(config, Now(), p, found.value)
    {
      OfferExact(config, Now(), p);
      hide Inv, CouldTake, BestFor;
      if p !in peerBitfields {
        return None;
      }
      found := FindPiece(p);
      if found.Some? {
        RarestExact(config, Now(), p, found.value);
      }
    }

    /**
     `RequestWork`. No work is given exactly when the peer is unknown or nothing
     is eligible; otherwise the piece given is a rarest eligible one. The second
     panic of the source is the reply `Panic`; its first one, on a piece without a
     count, cannot happen, which is why reading the count below needs no test.
     */
    method OnRequestWork(p: PeerId, now: int) returns (reply: WorkReply)
      requires Valid()
      modifies this
      ensures reply.NoWork? <==> forall i: nat :: !CouldTake(config, old(Now()), p, i)
      ensures reply.Work? ==> WorkGiven(config, old(Now()), p, now, reply.handle, Now())
      ensures reply.Work? ==>
        && BestFor(config, old(Now()), p, reply.handle.index)
        && WorkTaken(config, old(Now()), p, reply.handle.index, now, Now())
      ensures reply.NoWork? <==> NothingFor(config, old(Now()), p)
      ensures reply.NoWork? ==> Now() == old(Now())
      ensures reply.Panic? <==>
        p in old(peerBitfields) && p !in old(peerActiveWork) && !NothingFor(config, old(Now()), p)
      ensures Tracked(old(Now())) ==> !reply.Panic?
      ensures !reply.Panic? ==> Valid()
    {
      ghost var s := Now();
      hide Inv, NothingFor, CouldTake, BestFor, WorkTaken, WorkGiven, Rarest, Eligible, BucketsIndex, Assign;
      var found := ChoosePiece(p);
      match found
      case None => reply := NoWork;
      case Some(index) =>
        PickReady(config, s, p, index, now);
        if p in peerActiveWork {
          AssignInv(config, s, p, index, now);
          AssignExact(config, s, p, index, now);
        }
        reply := GiveWork(p, index, now);
    }

    /** The bookkeeping once a piece is chosen. */
    method GiveWork(p: PeerId, index: nat, now: int) returns (reply: WorkReply)
      requires config.pieceLen > 0 && index in pieceConcurrencyCounts
      modifies this`activePiecesManager, this`pieceConcurrencyCounts, this`peerActiveWork
      ensures reply.Panic? <==> p !in old(peerActiveWork)
      ensures reply.Work? ==>
        && Now() == Assign(config, old(Now()), p, index, now)
        && index in activePiecesManager && reply.handle == activePiecesManager[index]
      ensures !reply.NoWork?
    {
      if index !in activePiecesManager {
        activePiecesManager := activePiecesManager[index := Handle(index, config.LengthOf(index))];
      }
      pieceConcurrencyCounts := pieceConcurrencyCounts[index := pieceConcurrencyCounts[index] + 1];
      if p !in peerActiveWork {
        return Panic;
      }
      peerActiveWork := peerActiveWork[p := peerActiveWork[p] + [Assignment(index, now)]];
      reply := Work(activePiecesManager[index]);
    }

    /** Drop piece `i` from every work list. */
    method StripWork(i: nat)
      modifies this`peerActiveWork
      ensures peerActiveWork == StripAll(old(peerActiveWork), i)
    {
      ghost var before := peerActiveWork;
      var todo := peerActiveWork.Keys;
      while todo != {}
        invariant todo <= before.Keys && peerActiveWork.Keys == before.Keys
        invariant forall p :: p in before ==>
          peerActiveWork[p] == if p in todo then before[p] else Without(before[p], i)
      {
        var p :| p in todo;
        var list := peerActiveWork[p];
        var kept: seq<Assignment> := [];
        for k := 0 to |list|
          invariant kept == Without(list[..k], i)
        {
          assert list[..k + 1][..k] == list[..k];
          if list[k].piece != i {
            kept := kept + [list[k]];
          }
        }
        assert list[..|list|] == list;
        peerActiveWork := peerActiveWork[p := kept];
        todo := todo - {p};
      }
    }

    /** `PieceFinish` up to the flush: forget everything about the piece but that we own it. */
    method Retire(index: nat) returns (last: Option<Handle>)
      requires index < |localBitfield| && index < |piecesFrequency| && piecesFrequency[index] <= MAX_FREQ
      requires BucketsIndex(piecesFrequency, rarityBucket)
      modifies this
      ensures Now() == FinishStart(old(Now()), index)
      ensures BucketsIndex(piecesFrequency, rarityBucket) && notified == old(notified)
      ensures last == if index in old(activePiecesManager) then Some(old(activePiecesManager)[index]) else None
    {
      localBitfield := localBitfield[index := true];
      var currentFreq := piecesFrequency[index];
      RemoveKeepsIndex(piecesFrequency, rarityBucket, index);
      rarityBucket := rarityBucket[Min(currentFreq, 255) := rarityBucket[Min(currentFreq, 255)] - {index}];
      piecesFrequency := piecesFrequency[index := 0];
      pieceConcurrencyCounts := pieceConcurrencyCounts - {index};
      StripTwice(peerActiveWork, index);
      StripWork(index);
      StripWork(index);
      last := if index in activePiecesManager then Some(activePiecesManager[index]) else None;
      activePiecesManager := activePiecesManager - {index};
    }

    /**
     `PieceFinish`; `flushed` is the disk manager's answer, asked for only if a piece
     manager is live. An index past the last piece ends the manager.
     */
    method OnPieceFinish(index: nat, flushed: bool) returns (panicked: bool)
      requires Valid()
      modifies this
      ensures panicked <==> index >= config.Pieces()
      ensures !panicked ==> Valid() && Now() == Finish(old(Now()), index, flushed)
      ensures !panicked ==> PieceFinished(config, old(Now()), index, flushed, Now())
    {
      hide PieceFinished;
      if index >= |localBitfield| {
        return true;
      }
      FinishInv(config, Now(), index, flushed);
      FinishExact(config, Now(), index, flushed);
      panicked := false;
      if localBitfield[index] {
        return;
      }
      var last := Retire(index);
      if last.Some? && flushed {
        LogFlushed(index, last.value);
      }
    }

    /** Count the bytes, append to the log, and publish its new length. */
    method LogFlushed(index: nat, h: Handle)
      modifies this`downloadedBytes, this`downloadedPieceIndex, this`notified
      ensures Now() == FinishEnd(old(Now()), h, index) && notified == |downloadedPieceIndex|
    {
      downloadedBytes := downloadedBytes + h.length;
      downloadedPieceIndex := downloadedPieceIndex + [AsU32(index)];
      notified := |downloadedPieceIndex|;
    }

    /** The `retain` over one work list, taking lapsed entries off the counts on the way. */
    method RetainLive(list: seq<Assignment>, now: int) returns (kept: seq<Assignment>)
      modifies this`pieceConcurrencyCounts
      ensures kept == Live(localBitfield, list, now, config.pieceTimeout)
      ensures pieceConcurrencyCounts
           == CountsAfter(localBitfield, list, old(pieceConcurrencyCounts), now, config.pieceTimeout)
    {
      kept := [];
      for k := 0 to |list|
        invariant kept == Live(localBitfield, list[..k], now, config.pieceTimeout)
        invariant pieceConcurrencyCounts
               == CountsAfter(localBitfield, list[..k], old(pieceConcurrencyCounts), now, config.pieceTimeout)
      {
        assert list[..k + 1][..k] == list[..k];
        var e := list[k];
        if Has(localBitfield, e.piece) {
        } else if TimedOut(e, now, config.pieceTimeout) {
          if e.piece in pieceConcurrencyCounts && pieceConcurrencyCounts[e.piece] > 0 {
            pieceConcurrencyCounts := pieceConcurrencyCounts[e.piece := pieceConcurrencyCounts[e.piece] - 1];
          }
        } else {
          kept := kept + [e];
        }
      }
      assert list[..|list|] == list;
    }

    /** `UpdateAndGetActiveRequestCount`. */
    method OnUpdateAndGetActive(p: PeerId, now: int) returns (reply: Option<seq<Assignment>>)
      requires Valid()
      modifies this
      ensures Valid()
      ensures p !in old(peerActiveWork) ==> reply == None && Now() == old(Now())
      ensures p in old(peerActiveWork) ==>
        && Now() == Expire(config, old(Now()), p, now)
        && reply == Some(Now().work[p])
        && WorkExpired(config, old(Now()), p, now, Now())
    {
      if p !in peerActiveWork {
        return None;
      }
      hide WorkExpired;
      ExpireInv(config, Now(), p, now);
      ExpireExact(config, Now(), p, now);
      var kept := RetainLive(peerActiveWork[p], now);
      peerActiveWork := peerActiveWork[p := kept];
      reply := Some(kept);
    }

    /** `GetPieceManager`: the shared handle while the piece is live. */
    method OnGetPieceManager(index: nat) returns (reply: Option<Handle>)
      requires Valid()
      ensures reply == if index in Now().active then Some(Handle(index, config.LengthOf(index))) else None
    {
      reply := if index in activePiecesManager then Some(activePiecesManager[index]) else None;
    }

    /** `GetHaveMessageProgress`: slicing past the log ends the manager. */
    method OnGetHaveProgress(since: nat) returns (progress: Option<seq<nat>>)
      requires Valid()
      ensures progress.None? <==> since > |Now().log|
      ensures progress.Some? ==> progress.value == Now().log[since..]
    {
      progress := if since <= |downloadedPieceIndex| then Some(downloadedPieceIndex[since..]) else None;
    }
  }
}

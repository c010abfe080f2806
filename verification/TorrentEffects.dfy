/**
 What each message does to the torrent manager, field by field: the effects the
 actor's methods promise, stated without the functions that compute them.
 */
module TorrentEffects {
  import opened Base
  import opened TorrentMeta
  import opened TorrentManager

  /** At the start nothing is owned, counted, worked on or logged. */
  ghost predicate Blank(c: Config, s: State)
    requires c.pieceLen > 0
  {
    && |s.freq| == |s.local| == NumPieces(c.total, c.pieceLen)
    && (forall i :: 0 <= i < |s.freq| ==> s.freq[i] == 0 && !s.local[i])
    && (forall i: nat :: i in s.counts <==> i < |s.freq|)
    && (forall i: nat :: i in s.counts ==> s.counts[i] == 0)
    && s.peers == map[] && s.work == map[] && s.active == map[] && s.log == [] && s.downloaded == 0
  }

  lemma InitBlank(c: Config)
    requires c.pieceLen > 0
    ensures Blank(c, Init(c))
  {
  }

  // ---------------------------------------------------------------- bitfields

  /** The pieces set in `bits` that are unowned and new for the peer count one more, up to 255; no other does. */
  ghost predicate Counted(s: State, p: PeerId, bits: seq<bool>, freq: seq<nat>) {
    && |freq| == |s.freq|
    && forall i :: 0 <= i < |freq| ==>
         freq[i] == if Has(bits, i) && !Has(s.local, i) && !(p in s.peers && Has(s.peers[p], i))
                    then Min(s.freq[i] + 1, 255) else s.freq[i]
  }

  /** The bitfield is stored for the peer and counted, and nothing else changes. */
  ghost predicate BitfieldTaken(s: State, p: PeerId, bits: seq<bool>, t: State) {
    && t == s.(freq := t.freq, peers := t.peers)
    && t.peers.Keys == s.peers.Keys + {p} && t.peers[p] == bits
    && (forall q :: q in s.peers && q != p ==> t.peers[q] == s.peers[q])
    && Counted(s, p, bits, t.freq)
  }

  lemma AddBitfieldExact(c: Config, s: State, p: PeerId, bits: seq<bool>)
    requires Inv(c, s)
    ensures BitfieldTaken(s, p, bits, AddBitfield(s, p, bits))
  {
    hide FreqCovers, CountsCover, WorkLive, ActiveFits, LogSound;
  }

  /** As a bitfield, and the peer has an empty work list; other peers keep theirs. */
  ghost predicate PeerAdded(s: State, p: PeerId, bits: seq<bool>, t: State) {
    && BitfieldTaken(s, p, bits, t.(work := s.work))
    && t.work.Keys == s.work.Keys + {p} && t.work[p] == []
    && forall q :: q in s.work && q != p ==> t.work[q] == s.work[q]
  }

  lemma AddPeerExact(c: Config, s: State, p: PeerId, bits: seq<bool>)
    requires Inv(c, s)
    ensures PeerAdded(s, p, bits, AddPeer(s, p, bits))
  {
    AddBitfieldExact(c, s, p, bits);
    assert AddPeer(s, p, bits).(work := s.work) == AddBitfield(s, p, bits);
  }

  /**
   The peer's bitfield has the one bit more; the piece counts one more, up to 255,
   if it is unowned and new for the peer; and nothing else changes.
   */
  ghost predicate HaveTaken(s: State, p: PeerId, index: nat, t: State) {
    && t == s.(freq := t.freq, peers := t.peers)
    && t.peers.Keys == s.peers.Keys && p in s.peers
    && (forall j: nat :: Has(t.peers[p], j) <==> Has(s.peers[p], j) || j == index)
    && (forall q :: q in s.peers && q != p ==> t.peers[q] == s.peers[q])
    && |t.freq| == |s.freq|
    && forall j :: 0 <= j < |t.freq| ==>
         t.freq[j] == if j == index && !Has(s.local, j) && !Has(s.peers[p], j) then Min(s.freq[j] + 1, 255)
                      else s.freq[j]
  }

  lemma AddHaveExact(c: Config, s: State, p: PeerId, index: nat)
    requires Inv(c, s) && p in s.peers && index < |s.peers[p]|
    ensures HaveTaken(s, p, index, AddHave(s, p, index))
  {
    AddBitfieldExact(c, s, p, s.peers[p][index := true]);
  }

  // ---------------------------------------------------------------- giving out work

  /** The peer holds the piece, we do not, at most the cap is counted on it, and it is not on the peer's list. */
  ghost predicate CouldTake(c: Config, s: State, p: PeerId, i: nat) {
    && p in s.peers && Has(s.peers[p], i) && i < |s.local| && !s.local[i]
    && i in s.counts && s.counts[i] <= c.perPieceCap
    && (p in s.work ==> forall e :: e in s.work[p] ==> e.piece != i)
  }

  lemma EligibleExact(c: Config, s: State, p: PeerId, i: nat)
    requires Inv(c, s) && p in s.peers
    ensures Eligible(c, s, p, i) <==> CouldTake(c, s, p, i)
  {
    hide FreqCovers, WorkLive, ActiveFits, LogSound;
    if p in s.work && Assigned(s.work[p], i) {
      var k :| 0 <= k < |s.work[p]| && s.work[p][k].piece == i;
      assert s.work[p][k] in s.work[p];
    }
  }

  /** A piece the peer could take that no other such piece is rarer than. */
  ghost predicate BestFor(c: Config, s: State, p: PeerId, i: nat) {
    && CouldTake(c, s, p, i) && i < |s.freq|
    && forall j: nat :: j < |s.freq| && CouldTake(c, s, p, j) ==> s.freq[i] <= s.freq[j]
  }

  lemma OfferExact(c: Config, s: State, p: PeerId)
    requires Inv(c, s)
    ensures NothingFor(c, s, p) <==> forall i: nat :: !CouldTake(c, s, p, i)
  {
    hide Inv, Eligible;
    if p in s.peers {
      forall i: nat ensures Eligible(c, s, p, i) <==> CouldTake(c, s, p, i) {
        EligibleExact(c, s, p, i);
      }
    }
  }

  lemma RarestExact(c: Config, s: State, p: PeerId, i: nat)
    requires Inv(c, s) && p in s.peers && Rarest(c, s, p, i)
    ensures BestFor(c, s, p, i)
  {
    hide Inv, Eligible;
    forall j: nat ensures Eligible(c, s, p, j) <==> CouldTake(c, s, p, j) {
      EligibleExact(c, s, p, j);
    }
  }

  /**
   The piece is at the end of the peer's list, stamped with the time of the request,
   its count is one higher, and it has a piece manager of its own length.
   */
  ghost predicate WorkTaken(c: Config, s: State, p: PeerId, i: nat, now: int, t: State)
    requires c.pieceLen > 0
  {
    && t == s.(work := t.work, counts := t.counts, active := t.active)
    && t.work.Keys == s.work.Keys && p in s.work && t.work[p] == s.work[p] + [Assignment(i, now)]
    && (forall q :: q in s.work && q != p ==> t.work[q] == s.work[q])
    && t.counts.Keys == s.counts.Keys
    && (forall j :: j in s.counts ==> t.counts[j] == s.counts[j] + if j == i then 1 else 0)
    && t.active.Keys == s.active.Keys + {i} && t.active[i] == Handle(i, PieceLength(c.total, c.pieceLen, i))
    && (forall j :: j in s.active ==> t.active[j] == s.active[j])
  }

  lemma AssignExact(c: Config, s: State, p: PeerId, i: nat, now: int)
    requires Inv(c, s) && i in s.counts && p in s.work
    ensures WorkTaken(c, s, p, i, now, Assign(c, s, p, i, now))
  {
    hide Shape, FreqCovers, WorkLive, LogSound;
    PieceLenPositive(c, s);
  }

  lemma PieceLenPositive(c: Config, s: State)
    requires Inv(c, s)
    ensures c.pieceLen > 0
  {
  }

  // ---------------------------------------------------------------- expiry

  /** Peer `p` works on piece `i` and its time for it is up. */
  ghost predicate TimeUp(c: Config, s: State, p: PeerId, i: nat, now: int) {
    p in s.work && exists e :: e in s.work[p] && e.piece == i && now - e.since > c.pieceTimeout
  }

  /**
   The peer's list keeps exactly the entries of unowned pieces given to it no longer
   ago than the timeout; the count of each piece whose time is up falls by one.
   */
  ghost predicate WorkExpired(c: Config, s: State, p: PeerId, now: int, t: State) {
    && t == s.(work := t.work, counts := t.counts)
    && t.work.Keys == s.work.Keys && p in s.work
    && (forall e :: e in t.work[p] <==> e in s.work[p] && !Has(s.local, e.piece) && now - e.since <= c.pieceTimeout)
    && (forall q :: q in s.work && q != p ==> t.work[q] == s.work[q])
    && t.counts.Keys == s.counts.Keys
    && forall j: nat :: j in s.counts ==> s.counts[j] == t.counts[j] + if TimeUp(c, s, p, j, now) then 1 else 0
  }

  lemma LapsedExact(c: Config, s: State, p: PeerId, i: nat, now: int)
    requires p in s.work && !Has(s.local, i)
    ensures Lapsed(s.local, s.work[p], i, now, c.pieceTimeout) <==> TimeUp(c, s, p, i, now)
  {
    var list := s.work[p];
    if TimeUp(c, s, p, i, now) {
      var e :| e in list && e.piece == i && now - e.since > c.pieceTimeout;
      var k :| 0 <= k < |list| && list[k] == e;
    }
    if Lapsed(s.local, list, i, now, c.pieceTimeout) {
      var k :| 0 <= k < |list| && list[k].piece == i && TimedOut(list[k], now, c.pieceTimeout);
      assert list[k] in list;
    }
  }

  lemma ExpireCountExact(c: Config, s: State, p: PeerId, now: int, j: nat)
    requires CountsCover(c, s) && WorkLive(s) && p in s.work && j in s.counts
    ensures s.counts[j] == Expire(c, s, p, now).counts[j] + if TimeUp(c, s, p, j, now) then 1 else 0
  {
    LapsedExact(c, s, p, j, now);
    CountsAfterAt(s.local, s.work[p], s.counts, now, c.pieceTimeout, j);
    if TimeUp(c, s, p, j, now) {
      var e :| e in s.work[p] && e.piece == j;
      var k :| 0 <= k < |s.work[p]| && s.work[p][k] == e;
      assert p in WorkerSet(s.work, j);
    }
  }

  lemma ExpireExact(c: Config, s: State, p: PeerId, now: int)
    requires Inv(c, s) && p in s.work
    ensures WorkExpired(c, s, p, now, Expire(c, s, p, now))
  {
    hide Shape, FreqCovers, ActiveFits, LogSound, TimeUp, Lapsed;
    var t := Expire(c, s, p, now);
    LiveMembers(s.local, s.work[p], now, c.pieceTimeout);
    forall j: nat | j in s.counts
      ensures s.counts[j] == t.counts[j] + if TimeUp(c, s, p, j, now) then 1 else 0
    {
      ExpireCountExact(c, s, p, now, j);
    }
  }

  // ---------------------------------------------------------------- finishing

  /**
   An unowned piece becomes owned and leaves the frequencies, the counts, every work
   list and the live managers; if it had a live manager and the flush succeeded, and
   only then, it is logged and its length counted as downloaded.
   */
  ghost predicate PieceFinished(c: Config, s: State, i: nat, flushed: bool, t: State)
    requires c.pieceLen > 0 && i < |s.local| == |s.freq|
  {
    if s.local[i] then t == s
    else
      && t.peers == s.peers && t.local == s.local[i := true] && t.freq == s.freq[i := 0]
      && (if i in s.active && flushed
          then t.log == s.log + [i] && t.downloaded == s.downloaded + PieceLength(c.total, c.pieceLen, i)
          else t.log == s.log && t.downloaded == s.downloaded)
      && t.counts.Keys == s.counts.Keys - {i} && (forall j :: j in t.counts ==> t.counts[j] == s.counts[j])
      && t.active.Keys == s.active.Keys - {i} && (forall j :: j in t.active ==> t.active[j] == s.active[j])
      && t.work.Keys == s.work.Keys
      && forall q, e :: q in s.work ==> (e in t.work[q] <==> e in s.work[q] && e.piece != i)
  }

  lemma FinishExact(c: Config, s: State, i: nat, flushed: bool)
    requires Inv(c, s) && i < c.Pieces()
    ensures PieceFinished(c, s, i, flushed, Finish(s, i, flushed))
  {
    hide FreqCovers, WorkLive, LogSound;
    forall q | q in s.work
      ensures forall e :: e in Without(s.work[q], i) <==> e in s.work[q] && e.piece != i
    {
      WithoutMembers(s.work[q], i);
    }
    assert AsU32(i) == i;
  }
}

/**
 The torrent manager's state as a value (torrent_manager.rs): one function per
 message, the invariant, and a proof per message that the invariant is kept.
 The rarity buckets are absent here on purpose: they are an index that the
 actor in TorrentActor.dfy keeps on top of this state.
 */
module TorrentManager {
  import opened Base
  import opened TorrentMeta

  type PeerId = string

  /** Frequencies saturate here. */
  const MAX_FREQ: nat := 255

  datatype Config = Config(total: nat, pieceLen: nat, perPieceCap: nat, pieceTimeout: nat) {
    /** Piece indices fit the 32 bits the log and the wire give them. */
    ghost predicate Valid() {
      pieceLen > 0 && NumPieces(total, pieceLen) <= U32
    }

    function Pieces(): (n: nat)
      requires pieceLen > 0
    {
      NumPieces(total, pieceLen)
    }

    function LengthOf(i: nat): (length: nat)
      requires pieceLen > 0
    {
      PieceLength(total, pieceLen, i)
    }
  }

  /** The immutable part of a shared piece manager. */
  datatype Handle = Handle(index: nat, length: nat)

  datatype Assignment = Assignment(piece: nat, since: int)

  datatype State = State(
    freq: seq<nat>,
    peers: map<PeerId, seq<bool>>,
    local: seq<bool>,
    work: map<PeerId, seq<Assignment>>,
    counts: map<nat, nat>,
    active: map<nat, Handle>,
    log: seq<nat>,
    downloaded: nat
  )

  function Init(c: Config): (s: State)
    requires c.pieceLen > 0
  {
    State(seq(c.Pieces(), i => 0), map[], seq(c.Pieces(), i => false), map[],
          ZeroCounts(c.Pieces()), map[], [], 0)
  }

  function ZeroCounts(n: nat): (m: map<nat, nat>)
    ensures forall i: nat :: i in m <==> i < n
    ensures forall i: nat :: i in m ==> m[i] == 0
  {
    if n == 0 then map[] else ZeroCounts(n - 1)[n - 1 := 0]
  }

  // ---------------------------------------------------------------- reading the state

  predicate Has(bits: seq<bool>, i: nat) {
    i < |bits| && bits[i]
  }

  function Bump(f: nat): (g: nat) {
    if f + 1 < MAX_FREQ then f + 1 else MAX_FREQ
  }

  function Saturated(n: nat): (m: nat) {
    if n < MAX_FREQ then n else MAX_FREQ
  }

  predicate Assigned(list: seq<Assignment>, i: nat) {
    exists k :: 0 <= k < |list| && list[k].piece == i
  }

  function HolderSet(peers: map<PeerId, seq<bool>>, i: nat): (holders: set<PeerId>) {
    set p | p in peers && Has(peers[p], i)
  }

  function WorkerSet(work: map<PeerId, seq<Assignment>>, i: nat): (workers: set<PeerId>) {
    set p | p in work && Assigned(work[p], i)
  }

  /** How many peers hold piece `i`, and how many work on it. */
  function Holders(s: State, i: nat): (n: nat) {
    |HolderSet(s.peers, i)|
  }

  function Workers(s: State, i: nat): (n: nat) {
    |WorkerSet(s.work, i)|
  }

  /** The test of `RequestWork` on one piece: the peer may be given it. */
  predicate Eligible(c: Config, s: State, p: PeerId, i: nat)
    requires p in s.peers
  {
    && Has(s.peers[p], i)
    && !Has(s.local, i)
    && i in s.counts && s.counts[i] <= c.perPieceCap
    && !(p in s.work && Assigned(s.work[p], i))
  }

  /** An eligible piece that no eligible piece is rarer than. */
  ghost predicate Rarest(c: Config, s: State, p: PeerId, i: nat)
    requires p in s.peers
  {
    && i < |s.freq| && Eligible(c, s, p, i)
    && forall j: nat :: j < |s.freq| && Eligible(c, s, p, j) ==> s.freq[i] <= s.freq[j]
  }

  /** Every peer with a bitfield has a work list. */
  ghost predicate Tracked(s: State) {
    forall p :: p in s.peers ==> p in s.work
  }

  /** `RequestWork` has nothing for this peer. */
  ghost predicate NothingFor(c: Config, s: State, p: PeerId) {
    p in s.peers ==> forall i: nat :: !Eligible(c, s, p, i)
  }

  // ---------------------------------------------------------------- messages

  /** The pieces a bitfield adds to what the manager counts for this peer. */
  predicate NewFor(s: State, p: PeerId, bits: seq<bool>, i: nat) {
    Has(bits, i) && !Has(s.local, i) && !(p in s.peers && Has(s.peers[p], i))
  }

  function FreqAfter(s: State, p: PeerId, bits: seq<bool>): (freq: seq<nat>) {
    seq(|s.freq|, i requires 0 <= i < |s.freq| => if NewFor(s, p, bits, i) then Bump(s.freq[i]) else s.freq[i])
  }

  /** `AddBitFeild`: count the new pieces, then replace the stored bitfield. */
  function AddBitfield(s: State, p: PeerId, bits: seq<bool>): (t: State) {
    s.(freq := FreqAfter(s, p, bits), peers := s.peers[p := bits])
  }

  /** `AddPeer`: as `AddBitFeild`, and the peer starts with an empty work list, even if it had one. */
  function AddPeer(s: State, p: PeerId, bits: seq<bool>): (t: State) {
    AddBitfield(s, p, bits).(work := s.work[p := []])
  }

  /** `UpdateBitField` (a Have message) is an update to a bitfield with one more bit. */
  function AddHave(s: State, p: PeerId, i: nat): (t: State)
    requires p in s.peers && i < |s.peers[p]|
  {
    AddBitfield(s, p, s.peers[p][i := true])
  }

  /** `RequestWork` once piece `i` is chosen. */
  function Assign(c: Config, s: State, p: PeerId, i: nat, now: int): (t: State)
    requires c.pieceLen > 0 && i in s.counts && p in s.work
  {
    s.(active := if i in s.active then s.active else s.active[i := Handle(i, c.LengthOf(i))],
       counts := s.counts[i := s.counts[i] + 1],
       work := s.work[p := s.work[p] + [Assignment(i, now)]])
  }

  function Without(list: seq<Assignment>, i: nat): (rest: seq<Assignment>) {
    if |list| == 0 then []
    else
      var front := Without(list[..|list| - 1], i);
      if list[|list| - 1].piece == i then front else front + [list[|list| - 1]]
  }

  function StripAll(work: map<PeerId, seq<Assignment>>, i: nat): (work': map<PeerId, seq<Assignment>>) {
    map p | p in work :: Without(work[p], i)
  }

  /** `PieceFinish`, up to handing the piece to the disk. */
  function FinishStart(s: State, i: nat): (t: State)
    requires i < |s.local| && i < |s.freq|
  {
    s.(local := s.local[i := true],
       freq := s.freq[i := 0],
       counts := s.counts - {i},
       work := StripAll(s.work, i),
       active := s.active - {i})
  }

  /** `PieceFinish` after a successful flush. */
  function FinishEnd(s: State, h: Handle, i: nat): (t: State) {
    s.(log := s.log + [AsU32(i)], downloaded := s.downloaded + h.length)
  }

  /** `PieceFinish` as one message, given the disk's answer. */
  function Finish(s: State, i: nat, flushed: bool): (t: State)
    requires i < |s.local| && i < |s.freq|
  {
    if s.local[i] then s
    else if i in s.active && flushed then FinishEnd(FinishStart(s, i), s.active[i], i)
    else FinishStart(s, i)
  }

  predicate TimedOut(e: Assignment, now: int, timeout: nat) {
    now - e.since > timeout
  }

  /** The entries `UpdateAndGetActiveRequestCount` keeps. */
  function Live(local: seq<bool>, list: seq<Assignment>, now: int, timeout: nat): (kept: seq<Assignment>) {
    if |list| == 0 then []
    else
      var e := list[|list| - 1];
      var front := Live(local, list[..|list| - 1], now, timeout);
      if Has(local, e.piece) || TimedOut(e, now, timeout) then front else front + [e]
  }

  /** Each timed-out entry of an unowned piece takes one off that piece's count. */
  function CountsAfter(local: seq<bool>, list: seq<Assignment>, counts: map<nat, nat>, now: int, timeout: nat)
    : (r: map<nat, nat>)
    ensures r.Keys == counts.Keys
  {
    if |list| == 0 then counts
    else
      var e := list[|list| - 1];
      var m := CountsAfter(local, list[..|list| - 1], counts, now, timeout);
      if !Has(local, e.piece) && TimedOut(e, now, timeout) && e.piece in m && m[e.piece] > 0
      then m[e.piece := m[e.piece] - 1] else m
  }

  /** `UpdateAndGetActiveRequestCount` for a tracked peer. */
  function Expire(c: Config, s: State, p: PeerId, now: int): (t: State)
    requires p in s.work
  {
    s.(work := s.work[p := Live(s.local, s.work[p], now, c.pieceTimeout)],
       counts := CountsAfter(s.local, s.work[p], s.counts, now, c.pieceTimeout))
  }

  // ---------------------------------------------------------------- invariant

  ghost predicate Distinct(list: seq<Assignment>) {
    forall j, k :: 0 <= j < k < |list| ==> list[j].piece != list[k].piece
  }

  ghost predicate InRange(c: Config, bits: seq<bool>)
    requires c.pieceLen > 0
  {
    forall i: nat :: Has(bits, i) ==> i < c.Pieces()
  }

  ghost predicate Shape(c: Config, s: State) {
    && c.Valid()
    && |s.freq| == |s.local| == c.Pieces()
    && (forall i :: 0 <= i < |s.freq| ==> s.freq[i] <= MAX_FREQ)
    && (forall i :: 0 <= i < |s.freq| && s.local[i] ==> s.freq[i] == 0)
    && (forall p :: p in s.peers ==> InRange(c, s.peers[p]))
  }

  /** The frequency of an unowned piece is at least the number of peers that hold it, up to saturation. */
  ghost predicate FreqCovers(s: State)
    requires |s.freq| == |s.local|
  {
    forall i: nat :: i < |s.freq| && !s.local[i] ==> s.freq[i] >= Saturated(Holders(s, i))
  }

  /** Counts exist exactly for unowned pieces, cover the workers, and stay within cap + 1. */
  ghost predicate CountsCover(c: Config, s: State) {
    && (forall i: nat :: i in s.counts <==> i < |s.local| && !s.local[i])
    && (forall i: nat :: i in s.counts ==> Workers(s, i) <= s.counts[i] <= c.perPieceCap + 1)
  }

  /** Work lists have no repeats and name only unowned pieces that have a live piece manager. */
  ghost predicate WorkLive(s: State) {
    && (forall p :: p in s.work ==> Distinct(s.work[p]))
    && (forall p, i: nat :: p in s.work && Assigned(s.work[p], i) ==> i in s.active && i in s.counts)
  }

  ghost predicate ActiveFits(c: Config, s: State)
    requires c.pieceLen > 0
  {
    forall i :: i in s.active ==> i in s.counts && s.active[i] == Handle(i, c.LengthOf(i))
  }

  function LengthsOf(c: Config, log: seq<nat>): (lens: seq<nat>)
    requires c.pieceLen > 0
    ensures |lens| == |log|
  {
    seq(|log|, k requires 0 <= k < |log| => c.LengthOf(log[k]))
  }

  /** The log names owned pieces, each once, and their lengths are the bytes downloaded. */
  ghost predicate LogSound(c: Config, s: State)
    requires c.pieceLen > 0
  {
    && (forall k :: 0 <= k < |s.log| ==> Has(s.local, s.log[k]))
    && (forall j, k :: 0 <= j < k < |s.log| ==> s.log[j] != s.log[k])
    && s.downloaded == Sum(LengthsOf(c, s.log))
  }

  ghost predicate Inv(c: Config, s: State) {
    && Shape(c, s) && FreqCovers(s) && CountsCover(c, s) && WorkLive(s) && ActiveFits(c, s) && LogSound(c, s)
  }

  lemma InitInv(c: Config)
    requires c.Valid()
    ensures Inv(c, Init(c))
  {
    var s := Init(c);
    forall i: nat ensures HolderSet(s.peers, i) == {} && WorkerSet(s.work, i) == {} {
    }
  }

  // ---------------------------------------------------------------- bitfields keep the invariant

  lemma HoldersAfter(peers: map<PeerId, seq<bool>>, p: PeerId, bits: seq<bool>, i: nat)
    ensures HolderSet(peers[p := bits], i)
         == if Has(bits, i) then HolderSet(peers, i) + {p} else HolderSet(peers, i) - {p}
    ensures |HolderSet(peers[p := bits], i)|
         == |HolderSet(peers, i)|
            + (if Has(bits, i) then 1 else 0) - (if p in peers && Has(peers[p], i) then 1 else 0)
  {
    var old', new' := HolderSet(peers, i), HolderSet(peers[p := bits], i);
    assert new' == if Has(bits, i) then old' + {p} else old' - {p};
    assert p in old' <==> p in peers && Has(peers[p], i);
  }

  lemma AddBitfieldFreq(c: Config, s: State, p: PeerId, bits: seq<bool>)
    requires c.pieceLen > 0 && Shape(c, s) && FreqCovers(s) && InRange(c, bits)
    ensures Shape(c, AddBitfield(s, p, bits)) && FreqCovers(AddBitfield(s, p, bits))
  {
    var t := AddBitfield(s, p, bits);
    hide InRange, HolderSet;
    forall i: nat | i < |t.freq| && !t.local[i]
      ensures t.freq[i] >= Saturated(Holders(t, i))
    {
      HoldersAfter(s.peers, p, bits, i);
    }
  }

  /** A message that leaves work, counts, handles, ownership and log alone keeps their half of the invariant. */
  lemma SameWork(c: Config, s: State, t: State)
    requires Inv(c, s) && t.work == s.work && t.counts == s.counts && t.active == s.active
    requires t.local == s.local && t.log == s.log && t.downloaded == s.downloaded
    ensures CountsCover(c, t) && WorkLive(t) && ActiveFits(c, t) && LogSound(c, t)
  {
    hide Shape, FreqCovers;
    WorkersSame(s, t);
  }

  lemma AddBitfieldInv(c: Config, s: State, p: PeerId, bits: seq<bool>)
    requires Inv(c, s) && InRange(c, bits)
    ensures Inv(c, AddBitfield(s, p, bits))
  {
    AddBitfieldFreq(c, s, p, bits);
    SameWork(c, s, AddBitfield(s, p, bits));
    hide Shape, FreqCovers, CountsCover, WorkLive, ActiveFits, LogSound;
  }

  lemma WorkersSame(s: State, t: State)
    requires s.work == t.work
    ensures forall i: nat :: Workers(s, i) == Workers(t, i)
  {
  }

  /** Forgetting a peer's work never raises a worker count. */
  lemma ForgetWork(c: Config, s: State, p: PeerId)
    requires Inv(c, s)
    ensures Inv(c, s.(work := s.work[p := []]))
  {
    var t := s.(work := s.work[p := []]);
    SameHoldings(c, s, t);
    hide Shape, FreqCovers;
    forall i: nat | i in t.counts ensures Workers(t, i) <= t.counts[i] {
      WorkersAfter(s.work, p, [], i);
    }
  }

  lemma AddPeerInv(c: Config, s: State, p: PeerId, bits: seq<bool>)
    requires Inv(c, s) && InRange(c, bits)
    ensures Inv(c, AddPeer(s, p, bits))
  {
    hide Inv;
    AddBitfieldInv(c, s, p, bits);
    ForgetWork(c, AddBitfield(s, p, bits), p);
  }

  lemma WorkersAfter(work: map<PeerId, seq<Assignment>>, p: PeerId, list: seq<Assignment>, i: nat)
    ensures |WorkerSet(work[p := list], i)|
         == |WorkerSet(work, i)|
            + (if Assigned(list, i) then 1 else 0) - (if p in work && Assigned(work[p], i) then 1 else 0)
  {
    var old', new' := WorkerSet(work, i), WorkerSet(work[p := list], i);
    assert new' == if Assigned(list, i) then old' + {p} else old' - {p};
    assert p in old' <==> p in work && Assigned(work[p], i);
  }

  lemma HaveInRange(c: Config, bits: seq<bool>, i: nat)
    requires c.pieceLen > 0 && InRange(c, bits) && i < |bits| && i < c.Pieces()
    ensures InRange(c, bits[i := true])
  {
    var more := bits[i := true];
    forall j: nat | Has(more, j) ensures j < c.Pieces() {
      if j != i {
        assert Has(bits, j);
      }
    }
  }

  lemma AddHaveInv(c: Config, s: State, p: PeerId, i: nat)
    requires Inv(c, s) && p in s.peers && i < |s.peers[p]| && i < c.Pieces()
    ensures Inv(c, AddHave(s, p, i))
  {
    HaveInRange(c, s.peers[p], i);
    AddBitfieldInv(c, s, p, s.peers[p][i := true]);
  }

  // ---------------------------------------------------------------- work keeps the invariant

  lemma AssignedMore(list: seq<Assignment>, e: Assignment, i: nat)
    ensures Assigned(list + [e], i) <==> Assigned(list, i) || e.piece == i
  {
    if Assigned(list, i) {
      var k :| 0 <= k < |list| && list[k].piece == i;
      assert (list + [e])[k].piece == i;
    }
    assert (list + [e])[|list|] == e;
  }

  /** A message that leaves bitfields, ownership and frequencies alone keeps their half of the invariant. */
  lemma SameHoldings(c: Config, s: State, t: State)
    requires Shape(c, s) && FreqCovers(s) && t.freq == s.freq && t.peers == s.peers && t.local == s.local
    ensures Shape(c, t) && FreqCovers(t)
  {
    assert forall j: nat :: Holders(t, j) == Holders(s, j);
  }

  lemma AssignCounts(c: Config, s: State, p: PeerId, i: nat, now: int)
    requires c.pieceLen > 0 && CountsCover(c, s) && p in s.peers && p in s.work && Eligible(c, s, p, i)
    ensures CountsCover(c, Assign(c, s, p, i, now))
    ensures forall j: nat :: j in s.counts ==>
      Assign(c, s, p, i, now).counts[j] - Workers(Assign(c, s, p, i, now), j) == s.counts[j] - Workers(s, j)
  {
    var t := Assign(c, s, p, i, now);
    var e := Assignment(i, now);
    forall j: nat | j in t.counts
      ensures t.counts[j] - Workers(t, j) == s.counts[j] - Workers(s, j)
    {
      AssignedMore(s.work[p], e, j);
      WorkersAfter(s.work, p, s.work[p] + [e], j);
    }
  }

  lemma AssignWork(c: Config, s: State, p: PeerId, i: nat, now: int)
    requires c.pieceLen > 0 && WorkLive(s) && p in s.peers && p in s.work && Eligible(c, s, p, i)
    ensures WorkLive(Assign(c, s, p, i, now))
  {
    var t := Assign(c, s, p, i, now);
    forall q, j: nat | q in t.work && Assigned(t.work[q], j) ensures j in t.active && j in t.counts {
      if q == p {
        AssignedMore(s.work[p], Assignment(i, now), j);
      }
    }
    assert forall k :: 0 <= k < |s.work[p]| ==> s.work[p][k].piece != i;
  }

  lemma AssignInv(c: Config, s: State, p: PeerId, i: nat, now: int)
    requires Inv(c, s) && p in s.peers && p in s.work && Eligible(c, s, p, i)
    ensures Inv(c, Assign(c, s, p, i, now))
  {
    SameHoldings(c, s, Assign(c, s, p, i, now));
    AssignCounts(c, s, p, i, now);
    AssignWork(c, s, p, i, now);
  }

  lemma {:induction false} LiveMembers(local: seq<bool>, list: seq<Assignment>, now: int, timeout: nat)
    ensures forall e :: e in Live(local, list, now, timeout) <==>
      e in list && !Has(local, e.piece) && !TimedOut(e, now, timeout)
    ensures Distinct(list) ==> Distinct(Live(local, list, now, timeout))
  {
    if |list| == 0 {
    } else {
      var front := list[..|list| - 1];
      LiveMembers(local, front, now, timeout);
      assert list == front + [list[|list| - 1]];
      var live := Live(local, front, now, timeout);
      if Distinct(list) {
        assert forall k :: 0 <= k < |live| ==> live[k] in live;
      }
    }
  }

  /** The entry for piece `i`, if the list has one and it has timed out. */
  ghost predicate Lapsed(local: seq<bool>, list: seq<Assignment>, i: nat, now: int, timeout: nat) {
    exists k :: 0 <= k < |list| && list[k].piece == i && !Has(local, i) && TimedOut(list[k], now, timeout)
  }

  /** With no repeats in the list, a count drops by one exactly when its entry lapsed. */
  lemma {:induction false} CountsAfterAt(local: seq<bool>, list: seq<Assignment>, counts: map<nat, nat>, now: int,
                                         timeout: nat, i: nat)
    requires Distinct(list) && i in counts
    ensures CountsAfter(local, list, counts, now, timeout)[i]
         == if Lapsed(local, list, i, now, timeout) && counts[i] > 0 then counts[i] - 1 else counts[i]
  {
    if |list| == 0 {
    } else {
      var front := list[..|list| - 1];
      var e := list[|list| - 1];
      CountsAfterAt(local, front, counts, now, timeout, i);
      if Lapsed(local, front, i, now, timeout) {
        var k :| 0 <= k < |front| && front[k].piece == i && TimedOut(front[k], now, timeout);
        assert list[k] == front[k];
      } else if Lapsed(local, list, i, now, timeout) {
        var k :| 0 <= k < |list| && list[k].piece == i && TimedOut(list[k], now, timeout);
        assert forall m :: 0 <= m < |front| ==> front[m] == list[m];
        assert k == |list| - 1;
      }
    }
  }

  /** After expiry a worker has gone exactly when its entry lapsed. */
  lemma LiveAssigned(local: seq<bool>, list: seq<Assignment>, now: int, timeout: nat, i: nat)
    requires Distinct(list) && !Has(local, i)
    ensures Assigned(Live(local, list, now, timeout), i) <==> Assigned(list, i) && !Lapsed(local, list, i, now, timeout)
  {
    LiveMembers(local, list, now, timeout);
    var live := Live(local, list, now, timeout);
    if Assigned(live, i) {
      var k :| 0 <= k < |live| && live[k].piece == i;
      assert live[k] in live;
      var m :| 0 <= m < |list| && list[m] == live[k];
    }
    if Assigned(list, i) && !Lapsed(local, list, i, now, timeout) {
      var m :| 0 <= m < |list| && list[m].piece == i;
      assert list[m] in live;
    }
  }

  /** Expiry takes one off a count exactly when it takes one worker off the piece. */
  lemma ExpireCounts(c: Config, s: State, p: PeerId, now: int)
    requires CountsCover(c, s) && WorkLive(s) && p in s.work
    ensures CountsCover(c, Expire(c, s, p, now))
    ensures forall j: nat :: j in s.counts ==>
      Expire(c, s, p, now).counts[j] - Workers(Expire(c, s, p, now), j) == s.counts[j] - Workers(s, j)
  {
    var t := Expire(c, s, p, now);
    forall j: nat | j in t.counts
      ensures t.counts[j] - Workers(t, j) == s.counts[j] - Workers(s, j) && t.counts[j] <= s.counts[j]
    {
      CountsAfterAt(s.local, s.work[p], s.counts, now, c.pieceTimeout, j);
      LiveAssigned(s.local, s.work[p], now, c.pieceTimeout, j);
      WorkersAfter(s.work, p, t.work[p], j);
      if Assigned(s.work[p], j) {
        assert p in WorkerSet(s.work, j);
      }
    }
  }

  lemma ExpireWork(c: Config, s: State, p: PeerId, now: int)
    requires WorkLive(s) && p in s.work
    ensures WorkLive(Expire(c, s, p, now))
  {
    var t := Expire(c, s, p, now);
    LiveMembers(s.local, s.work[p], now, c.pieceTimeout);
    forall q, j: nat | q in t.work && Assigned(t.work[q], j) ensures j in t.active && j in t.counts {
      if q == p {
        var k :| 0 <= k < |t.work[p]| && t.work[p][k].piece == j;
        assert t.work[p][k] in s.work[p];
        assert Assigned(s.work[p], j);
      }
    }
  }

  lemma ExpireInv(c: Config, s: State, p: PeerId, now: int)
    requires Inv(c, s) && p in s.work
    ensures Inv(c, Expire(c, s, p, now))
  {
    SameHoldings(c, s, Expire(c, s, p, now));
    ExpireCounts(c, s, p, now);
    ExpireWork(c, s, p, now);
  }

  // ---------------------------------------------------------------- finishing keeps the invariant

  lemma {:induction false} WithoutMembers(list: seq<Assignment>, i: nat)
    ensures forall e :: e in Without(list, i) <==> e in list && e.piece != i
    ensures Distinct(list) ==> Distinct(Without(list, i))
  {
    if |list| == 0 {
    } else {
      var front := list[..|list| - 1];
      WithoutMembers(front, i);
      assert list == front + [list[|list| - 1]];
      var rest := Without(front, i);
      if Distinct(list) {
        assert forall k :: 0 <= k < |rest| ==> rest[k] in rest;
      }
    }
  }

  lemma WithoutAssigned(list: seq<Assignment>, i: nat, j: nat)
    ensures Assigned(Without(list, i), j) <==> Assigned(list, j) && j != i
  {
    WithoutMembers(list, i);
    var rest := Without(list, i);
    if Assigned(rest, j) {
      var k :| 0 <= k < |rest| && rest[k].piece == j;
      assert rest[k] in list;
    }
    if Assigned(list, j) && j != i {
      var k :| 0 <= k < |list| && list[k].piece == j;
      assert list[k] in rest;
    }
  }

  lemma FinishStartWork(s: State, i: nat)
    requires i < |s.local| && i < |s.freq| && WorkLive(s)
    ensures WorkLive(FinishStart(s, i))
    ensures forall j: nat :: j != i ==> Workers(FinishStart(s, i), j) == Workers(s, j)
  {
    var t := FinishStart(s, i);
    forall p | p in t.work ensures Distinct(t.work[p]) {
      WithoutMembers(s.work[p], i);
    }
    forall p, j: nat | p in t.work && Assigned(t.work[p], j) ensures j in t.active && j in t.counts {
      WithoutAssigned(s.work[p], i, j);
    }
    forall j: nat | j != i ensures WorkerSet(t.work, j) == WorkerSet(s.work, j) {
      forall p | p in s.work ensures Assigned(t.work[p], j) <==> Assigned(s.work[p], j) {
        WithoutAssigned(s.work[p], i, j);
      }
    }
  }

  lemma FinishStartInv(c: Config, s: State, i: nat)
    requires Inv(c, s) && i < c.Pieces() && !s.local[i]
    ensures Inv(c, FinishStart(s, i))
  {
    FinishStartWork(s, i);
    assert forall j: nat :: Holders(FinishStart(s, i), j) == Holders(s, j);
  }

  lemma FinishEndInv(c: Config, s: State, i: nat)
    requires Inv(c, s) && i < c.Pieces() && s.local[i] && i !in s.log
    ensures Inv(c, FinishEnd(s, Handle(i, c.LengthOf(i)), i))
  {
    var t := FinishEnd(s, Handle(i, c.LengthOf(i)), i);
    assert AsU32(i) == i;
    assert LengthsOf(c, t.log) == LengthsOf(c, s.log) + [c.LengthOf(i)];
    SumAppend(LengthsOf(c, s.log), c.LengthOf(i));
    assert forall j: nat :: Holders(t, j) == Holders(s, j);
    WorkersSame(s, t);
  }

  lemma FinishInv(c: Config, s: State, i: nat, flushed: bool)
    requires Inv(c, s) && i < c.Pieces()
    ensures Inv(c, Finish(s, i, flushed))
  {
    if !s.local[i] {
      FinishStartInv(c, s, i);
      if i in s.active && flushed {
        assert i !in s.log;
        FinishEndInv(c, FinishStart(s, i), i);
      }
    }
  }
}

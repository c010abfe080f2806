/**
 Whole runs of the torrent manager: what holds in every reachable state, and
 exactly when the bookkeeping the source relies on is exact.
 */
module TorrentRuns {
  import opened Base
  import opened TorrentMeta
  import opened TorrentEffects
  import opened TorrentManager

  datatype Msg =
    | AddPeerMsg(p: PeerId, bits: seq<bool>)
    | AddBitfieldMsg(p: PeerId, bits: seq<bool>)
    | HaveMsg(p: PeerId, index: nat)
    | RequestWorkMsg(p: PeerId, now: int, pick: Option<nat>)
    | PieceFinishMsg(index: nat, flushed: bool)
    | ExpireMsg(p: PeerId, now: int)

  /** One message handled without a panic. Which of several rarest pieces is picked is up to the hash set. */
  ghost predicate Next(c: Config, s: State, m: Msg, t: State)
    requires c.pieceLen > 0
  {
    match m
    case AddPeerMsg(p, bits) => InRange(c, bits) && t == AddPeer(s, p, bits)
    case AddBitfieldMsg(p, bits) => InRange(c, bits) && t == AddBitfield(s, p, bits)
    case HaveMsg(p, i) => p in s.peers && i < |s.peers[p]| && i < c.Pieces() && t == AddHave(s, p, i)
    case RequestWorkMsg(p, now, pick) =>
      if pick.None? then NothingFor(c, s, p) && t == s
      else p in s.peers && p in s.work && Rarest(c, s, p, pick.value) && t == Assign(c, s, p, pick.value, now)
    case PieceFinishMsg(i, flushed) => i < |s.local| && i < |s.freq| && t == Finish(s, i, flushed)
    case ExpireMsg(p, now) => t == if p in s.work then Expire(c, s, p, now) else s
  }

  lemma NextInv(c: Config, s: State, m: Msg, t: State)
    requires Inv(c, s) && Next(c, s, m, t)
    ensures Inv(c, t)
  {
    match m
    case AddPeerMsg(p, bits) => AddPeerInv(c, s, p, bits);
    case AddBitfieldMsg(p, bits) => AddBitfieldInv(c, s, p, bits);
    case HaveMsg(p, i) => AddHaveInv(c, s, p, i);
    case RequestWorkMsg(p, now, pick) => if pick.Some? { AssignInv(c, s, p, pick.value, now); }
    case PieceFinishMsg(i, flushed) => FinishInv(c, s, i, flushed);
    case ExpireMsg(p, now) => if p in s.work { ExpireInv(c, s, p, now); }
  }

  ghost predicate Step(c: Config, s: State, m: Msg, t: State) {
    Inv(c, s) && Next(c, s, m, t)
  }

  /** A run: the states visited while handling `msgs`, from a state that satisfies the invariant. */
  ghost predicate IsRun(c: Config, states: seq<State>, msgs: seq<Msg>) {
    && c.Valid() && |states| == |msgs| + 1
    && Inv(c, states[0])
    && forall i :: 0 <= i < |msgs| ==> Next(c, states[i], msgs[i], states[i + 1])
  }

  /** Every state of every run satisfies the invariant. */
  lemma {:induction false} InvAlways(c: Config, states: seq<State>, msgs: seq<Msg>, n: nat)
    requires IsRun(c, states, msgs) && n <= |msgs|
    ensures Inv(c, states[n])
    ensures n < |msgs| ==> Step(c, states[n], msgs[n], states[n + 1])
  {
    hide Next, Inv;
    if n == 0 {
    } else {
      InvAlways(c, states, msgs, n - 1);
      NextInv(c, states[n - 1], msgs[n - 1], states[n]);
    }
  }

  /**
   A message as the peers' tasks send it: they register with an empty bitfield, and
   a bitfield off the wire is whole bytes.
   */
  ghost predicate AsSent(m: Msg) {
    (m.AddPeerMsg? ==> m.bits == []) && (m.AddBitfieldMsg? ==> |m.bits| % 8 == 0)
  }

  /** Append one message to a run. */
  lemma ExtendRun(c: Config, states: seq<State>, msgs: seq<Msg>, m: Msg, t: State)
    requires IsRun(c, states, msgs) && Next(c, states[|msgs|], m, t)
    ensures IsRun(c, states + [t], msgs + [m])
  {
    hide Next, Inv;
    var states', msgs' := states + [t], msgs + [m];
    forall i | 0 <= i < |msgs'| ensures Next(c, states'[i], msgs'[i], states'[i + 1]) {
      if i < |msgs| {
        assert Next(c, states[i], msgs[i], states[i + 1]);
      }
    }
  }

  // ---------------------------------------------------------------- what only grows

  /** A piece is live from its creation until it is owned, ownership is for good, and the log only grows. */
  ghost predicate Progress(s: State, t: State) {
    && (forall k: nat :: Has(s.local, k) ==> Has(t.local, k))
    && (forall k: nat :: k in s.active ==> k in t.active || Has(t.local, k))
    && s.log <= t.log
    && s.downloaded <= t.downloaded
  }

  lemma StepProgress(c: Config, s: State, m: Msg, t: State)
    requires Step(c, s, m, t)
    ensures Progress(s, t)
  {
    hide Inv, InRange, NothingFor, Rarest, FreqAfter, CountsAfter, Live, StripAll;
  }

  lemma {:induction false} RunProgress(c: Config, states: seq<State>, msgs: seq<Msg>, i: nat, j: nat)
    requires IsRun(c, states, msgs) && i <= j <= |msgs|
    ensures Progress(states[i], states[j])
    decreases j
  {
    hide Next, Inv;
    if i == j {
    } else {
      RunProgress(c, states, msgs, i, j - 1);
      InvAlways(c, states, msgs, j - 1);
      StepProgress(c, states[j - 1], msgs[j - 1], states[j]);
    }
  }

  /**
   A peer's writer asks for the log from where it stopped. Two consecutive fetches,
   whatever happened in between, are together one fetch at the later time: no piece
   is missed and none comes twice.
   */
  lemma FetchesJoin(c: Config, states: seq<State>, msgs: seq<Msg>, i: nat, j: nat, since: nat)
    requires IsRun(c, states, msgs) && i <= j <= |msgs| && since <= |states[i].log|
    ensures |states[i].log| <= |states[j].log|
    ensures states[i].log[since..] + states[j].log[|states[i].log|..] == states[j].log[since..]
  {
    hide Next, Inv;
    RunProgress(c, states, msgs, i, j);
    var early, late := states[i].log, states[j].log;
    assert early == late[..|early|];
    assert late[since..] == late[since..|early|] + late[|early|..];
  }

  ghost predicate Assigns(m: Msg, k: nat) {
    m.RequestWorkMsg? && m.pick == Some(k)
  }

  /** The message makes a new piece manager for piece `k`. */
  ghost predicate Creates(s: State, m: Msg, k: nat) {
    Assigns(m, k) && k !in s.active
  }

  /** The message hands piece `k` to the disk. */
  ghost predicate Flushes(s: State, m: Msg, k: nat) {
    m.PieceFinishMsg? && m.index == k && !Has(s.local, k) && k in s.active
  }

  lemma AssignsUnowned(c: Config, s: State, m: Msg, t: State, k: nat)
    requires Step(c, s, m, t) && Assigns(m, k)
    ensures !Has(s.local, k) && k in t.active
  {
  }

  lemma FlushesOwns(c: Config, s: State, m: Msg, t: State, k: nat)
    requires Step(c, s, m, t) && Flushes(s, m, k)
    ensures Has(t.local, k)
  {
  }

  lemma StepLog(c: Config, s: State, m: Msg, t: State, k: nat)
    requires Step(c, s, m, t)
    ensures k in t.log <==> k in s.log || (Flushes(s, m, k) && m.flushed)
  {
    if m.PieceFinishMsg? {
      FinishExact(c, s, m.index, m.flushed);
      hide Inv, Finish;
    } else {
      hide Inv, InRange, NothingFor, Rarest, FreqAfter, CountsAfter, Live;
    }
  }

  /** Exactly which pieces are logged: those some message handed to the disk with success. */
  lemma {:induction false} LoggedIff(c: Config, states: seq<State>, msgs: seq<Msg>, k: nat, n: nat)
    requires IsRun(c, states, msgs) && states[0] == Init(c) && n <= |msgs|
    ensures k in states[n].log <==> exists i :: 0 <= i < n && Flushes(states[i], msgs[i], k) && msgs[i].flushed
  {
    hide Next, Inv;
    if n == 0 {
      InitBlank(c);
    } else {
      LoggedIff(c, states, msgs, k, n - 1);
      InvAlways(c, states, msgs, n - 1);
      StepLog(c, states[n - 1], msgs[n - 1], states[n], k);
      if k in states[n].log && k !in states[n - 1].log {
        assert Flushes(states[n - 1], msgs[n - 1], k);
      }
    }
  }

  /** At most one piece manager is ever made for a piece, so all peers share it. */
  lemma CreatedOnce(c: Config, states: seq<State>, msgs: seq<Msg>, k: nat, i: nat, j: nat)
    requires IsRun(c, states, msgs) && i < j < |msgs|
    ensures !(Creates(states[i], msgs[i], k) && Creates(states[j], msgs[j], k))
  {
    hide Next, Inv;
    InvAlways(c, states, msgs, i);
    InvAlways(c, states, msgs, j);
    if Creates(states[i], msgs[i], k) {
      AssignsUnowned(c, states[i], msgs[i], states[i + 1], k);
      RunProgress(c, states, msgs, i + 1, j);
      if Assigns(msgs[j], k) {
        AssignsUnowned(c, states[j], msgs[j], states[j + 1], k);
      }
    }
  }

  /** An owned piece is never assigned again, and no piece is flushed twice. */
  lemma FinishedForGood(c: Config, states: seq<State>, msgs: seq<Msg>, k: nat, i: nat, j: nat)
    requires IsRun(c, states, msgs) && i < j < |msgs|
    ensures Has(states[i].local, k) ==> !Assigns(msgs[j], k)
    ensures !(Flushes(states[i], msgs[i], k) && Flushes(states[j], msgs[j], k))
  {
    hide Next, Inv;
    InvAlways(c, states, msgs, i);
    InvAlways(c, states, msgs, j);
    RunProgress(c, states, msgs, i, j);
    RunProgress(c, states, msgs, i + 1, j);
    if Assigns(msgs[j], k) {
      AssignsUnowned(c, states[j], msgs[j], states[j + 1], k);
    }
    if Flushes(states[i], msgs[i], k) {
      FlushesOwns(c, states[i], msgs[i], states[i + 1], k);
    }
  }

  // ---------------------------------------------------------------- conservation of bytes

  /** The total length of the pieces below `n` that are in `owned`. */
  function SumOver(lens: seq<nat>, owned: set<nat>, n: nat): (sum: nat)
    requires n <= |lens|
  {
    if n == 0 then 0
    else SumOver(lens, owned, n - 1) + if n - 1 in owned then lens[n - 1] else 0
  }

  lemma {:induction false} SumOverAdd(lens: seq<nat>, owned: set<nat>, x: nat, n: nat)
    requires n <= |lens| && x < |lens| && x !in owned
    ensures SumOver(lens, owned + {x}, n) == SumOver(lens, owned, n) + if x < n then lens[x] else 0
  {
    if n == 0 {
    } else {
      SumOverAdd(lens, owned, x, n - 1);
    }
  }

  lemma {:induction false} SumOverAtMost(lens: seq<nat>, owned: set<nat>, n: nat)
    requires n <= |lens| && forall i :: 0 <= i < |lens| ==> lens[i] > 0
    ensures SumOver(lens, owned, n) <= PrefixSum(lens, n)
    ensures SumOver(lens, owned, n) == PrefixSum(lens, n) <==> forall i: nat :: i < n ==> i in owned
  {
    if n == 0 {
    } else {
      SumOverAtMost(lens, owned, n - 1);
    }
  }

  lemma SumOverNone(lens: seq<nat>, n: nat)
    requires n <= |lens|
    ensures SumOver(lens, {}, n) == 0
  {
  }

  ghost function Logged(log: seq<nat>): (pieces: set<nat>) {
    set i | i in log
  }

  lemma {:induction false} LogSum(c: Config, lens: seq<nat>, log: seq<nat>)
    requires c.pieceLen > 0 && lens == PieceLengths(c.total, c.pieceLen)
    requires forall k :: 0 <= k < |log| ==> log[k] < |lens|
    requires forall j, k :: 0 <= j < k < |log| ==> log[j] != log[k]
    ensures Sum(LengthsOf(c, log)) == SumOver(lens, Logged(log), |lens|)
  {
    if |log| == 0 {
      SumOverNone(lens, |lens|);
      assert Logged(log) == {};
    } else {
      var front, x := log[..|log| - 1], log[|log| - 1];
      LogSum(c, lens, front);
      assert log == front + [x];
      assert Logged(log) == Logged(front) + {x};
      SumOverAdd(lens, Logged(front), x, |lens|);
      assert LengthsOf(c, log) == LengthsOf(c, front) + [c.LengthOf(x)];
      SumAppend(LengthsOf(c, front), c.LengthOf(x));
    }
  }

  lemma DistinctPiecesSum(c: Config, log: seq<nat>)
    requires c.pieceLen > 0
    requires forall k :: 0 <= k < |log| ==> log[k] < c.Pieces()
    requires forall j, k :: 0 <= j < k < |log| ==> log[j] != log[k]
    ensures Sum(LengthsOf(c, log)) <= c.total
    ensures Sum(LengthsOf(c, log)) == c.total <==> forall i: nat :: i < c.Pieces() ==> i in log
  {
    var lens := PieceLengths(c.total, c.pieceLen);
    forall i: nat | i < |lens| ensures lens[i] > 0 {
      PieceEnd(c.total, c.pieceLen, i);
    }
    LogSum(c, lens, log);
    SumOverAtMost(lens, Logged(log), |lens|);
    PiecesSumToTotal(c.total, c.pieceLen);
    assert forall i: nat :: i in Logged(log) <==> i in log;
  }

  /** Downloaded bytes never exceed the torrent, and equal it exactly when every piece is in the log. */
  lemma DownloadConserved(c: Config, s: State)
    requires Inv(c, s)
    ensures s.downloaded <= c.total
    ensures s.downloaded == c.total <==> forall i: nat :: i < c.Pieces() ==> i in s.log
  {
    assert forall k :: 0 <= k < |s.log| ==> Has(s.local, s.log[k]);
    DistinctPiecesSum(c, s.log);
  }

  // ---------------------------------------------------------------- exact frequencies

  /** The frequency index says how many peers hold each unowned piece. */
  ghost predicate FreqExact(s: State) {
    forall i: nat :: i < |s.freq| && i < |s.local| && !s.local[i] ==> s.freq[i] == Saturated(Holders(s, i))
  }

  /** A replaced bitfield loses piece `i`. */
  ghost predicate Drops(s: State, p: PeerId, bits: seq<bool>, i: nat) {
    p in s.peers && Has(s.peers[p], i) && !Has(bits, i)
  }

  /**
   Replacing a bitfield keeps the frequencies exact if and only if it drops no
   unowned piece, other than one held by more than 255 peers.
   */
  lemma BitfieldExactIff(c: Config, s: State, p: PeerId, bits: seq<bool>)
    requires Inv(c, s) && FreqExact(s) && InRange(c, bits)
    ensures FreqExact(AddBitfield(s, p, bits)) <==>
      forall i: nat :: i < |s.freq| && !s.local[i] && Drops(s, p, bits, i) ==> Holders(s, i) > MAX_FREQ
  {
    var t := AddBitfield(s, p, bits);
    forall i: nat | i < |s.freq| && !s.local[i]
      ensures t.freq[i] == Saturated(Holders(t, i)) <==> (Drops(s, p, bits, i) ==> Holders(s, i) > MAX_FREQ)
    {
      HoldersAfter(s.peers, p, bits, i);
    }
  }

  /** If the message replaces a bitfield, it drops no unowned piece, other than one held by more than 255 peers. */
  ghost predicate KeepsFreqs(s: State, m: Msg) {
    m.AddPeerMsg? || m.AddBitfieldMsg? ==>
      forall i: nat :: i < |s.freq| && i < |s.local| && !s.local[i] && Drops(s, m.p, m.bits, i) ==>
        Holders(s, i) > MAX_FREQ
  }

  lemma StepFreqExactIff(c: Config, s: State, m: Msg, t: State)
    requires Step(c, s, m, t) && FreqExact(s)
    ensures FreqExact(t) <==> KeepsFreqs(s, m)
  {
    hide CountsCover, WorkLive, ActiveFits, LogSound, FreqAfter, Live, CountsAfter, Rarest, NothingFor;
    match m
    case AddPeerMsg(p, bits) =>
      BitfieldExactIff(c, s, p, bits);
      SameFreqs(AddBitfield(s, p, bits), t);
    case AddBitfieldMsg(p, bits) => BitfieldExactIff(c, s, p, bits);
    case HaveMsg(p, i) =>
      HaveInRange(c, s.peers[p], i);
      BitfieldExactIff(c, s, p, s.peers[p][i := true]);
    case RequestWorkMsg(_, _, _) => SameFreqs(s, t);
    case ExpireMsg(_, _) => SameFreqs(s, t);
    case PieceFinishMsg(_, _) => assert forall i: nat :: Holders(t, i) == Holders(s, i);
  }

  lemma SameFreqs(s: State, t: State)
    requires t.freq == s.freq && t.local == s.local && t.peers == s.peers
    ensures FreqExact(t) <==> FreqExact(s)
  {
    assert forall i: nat :: Holders(t, i) == Holders(s, i);
  }

  /**
   Exactly when the frequencies are exact throughout a run from the start: if and
   only if no message replaced a bitfield by one without an unowned piece of it,
   other than one held by more than 255 peers.
   */
  lemma {:induction false} FreqExactRunIff(c: Config, states: seq<State>, msgs: seq<Msg>, n: nat)
    requires IsRun(c, states, msgs) && states[0] == Init(c) && n <= |msgs|
    ensures (forall i :: 0 <= i <= n ==> FreqExact(states[i])) <==>
      (forall i :: 0 <= i < n ==> KeepsFreqs(states[i], msgs[i]))
  {
    hide Next, Inv, FreqExact, KeepsFreqs;
    if n == 0 {
      InitFreqExact(c);
    } else {
      FreqExactRunIff(c, states, msgs, n - 1);
      InvAlways(c, states, msgs, n - 1);
      if FreqExact(states[n - 1]) {
        StepFreqExactIff(c, states[n - 1], msgs[n - 1], states[n]);
      }
    }
  }

  lemma InitFreqExact(c: Config)
    requires c.pieceLen > 0
    ensures FreqExact(Init(c))
  {
    assert forall i: nat :: HolderSet(Init(c).peers, i) == {};
  }

  /** The message replaces no bitfield by one with fewer pieces. */
  ghost predicate Growing(s: State, m: Msg) {
    m.AddPeerMsg? || m.AddBitfieldMsg? ==> forall i: nat :: !Drops(s, m.p, m.bits, i)
  }

  /** In a run from the start where bitfields only grow, every frequency is exact in every state. */
  lemma FreqExactAlways(c: Config, states: seq<State>, msgs: seq<Msg>, n: nat)
    requires IsRun(c, states, msgs) && states[0] == Init(c) && n <= |msgs|
    requires forall i :: 0 <= i < |msgs| ==> Growing(states[i], msgs[i])
    ensures FreqExact(states[n])
  {
    hide Next, Inv, FreqExact, Drops;
    FreqExactRunIff(c, states, msgs, n);
  }

  /** The bitfield of a peer that has piece `k` alone, in whole bytes as it comes off the wire. */
  function OnlyPiece(k: nat): (bits: seq<bool>)
    ensures |bits| % 8 == 0
    ensures forall i: nat :: Has(bits, i) <==> i == k
  {
    seq(8 * (k / 8 + 1), i => i == k)
  }

  /** The frequencies are not exact in every run: one peer, replacing its bitfield by an empty one. */
  lemma FrequencyOvercounts(c: Config, p: PeerId)
    requires c.Valid() && c.Pieces() > 0
    ensures var s := AddBitfield(AddPeer(Init(c), p, []), p, OnlyPiece(0));
      FreqExact(s) && Inv(c, s) && !FreqExact(AddBitfield(s, p, []))
  {
    var a := AddPeer(Init(c), p, []);
    var s := AddBitfield(a, p, OnlyPiece(0));
    assert forall i: nat :: HolderSet(a.peers, i) == {};
    assert FreqExact(a);
    assert HolderSet(s.peers, 0) == {p};
    assert Drops(s, p, [], 0) && Holders(s, 0) == 1 && 0 < |s.freq| && !s.local[0];
    hide Inv, AddPeer, AddBitfield, FreqExact;
    InitInv(c);
    AddPeerInv(c, Init(c), p, []);
    AddBitfieldInv(c, a, p, OnlyPiece(0));
    BitfieldExactIff(c, a, p, OnlyPiece(0));
    BitfieldExactIff(c, s, p, []);
  }

  // ---------------------------------------------------------------- no panic in RequestWork

  /** The peer's other messages follow its registration. */
  ghost predicate AfterAddPeer(s: State, m: Msg) {
    m.AddBitfieldMsg? || m.HaveMsg? ==> m.p in s.work
  }

  lemma {:induction false} TrackedAlways(c: Config, states: seq<State>, msgs: seq<Msg>, n: nat)
    requires IsRun(c, states, msgs) && Tracked(states[0]) && n <= |msgs|
    requires forall i :: 0 <= i < |msgs| ==> AfterAddPeer(states[i], msgs[i])
    ensures Tracked(states[n])
  {
    hide Inv;
    if n == 0 {
    } else {
      TrackedAlways(c, states, msgs, n - 1);
      assert AfterAddPeer(states[n - 1], msgs[n - 1]);
      assert Next(c, states[n - 1], msgs[n - 1], states[n]);
    }
  }

  /** Among finitely many pieces an eligible one implies a rarest one. */
  lemma {:induction false} RarestBelow(c: Config, s: State, p: PeerId, n: nat) returns (best: Option<nat>)
    requires p in s.peers && n <= |s.freq|
    ensures best.None? ==> forall j: nat :: j < n ==> !Eligible(c, s, p, j)
    ensures best.Some? ==>
      && best.value < n && Eligible(c, s, p, best.value)
      && forall j: nat :: j < n && Eligible(c, s, p, j) ==> s.freq[best.value] <= s.freq[j]
  {
    if n == 0 {
      best := None;
    } else {
      best := RarestBelow(c, s, p, n - 1);
      if Eligible(c, s, p, n - 1) && (best.None? || s.freq[n - 1] < s.freq[best.value]) {
        best := Some(n - 1);
      }
    }
  }

  /** A request for work by a tracked peer never panics: it can always be answered. */
  lemma RequestAnswered(c: Config, s: State, p: PeerId, now: int) returns (pick: Option<nat>, t: State)
    requires Inv(c, s) && Tracked(s)
    ensures Next(c, s, RequestWorkMsg(p, now, pick), t)
    ensures pick.None? <==> NothingFor(c, s, p)
  {
    pick, t := None, s;
    if p in s.peers {
      pick := RarestBelow(c, s, p, |s.freq|);
      if pick.Some? {
        assert Rarest(c, s, p, pick.value);
        t := Assign(c, s, p, pick.value, now);
      } else {
        assert forall j: nat :: Eligible(c, s, p, j) ==> j < |s.freq| by {
          assert InRange(c, s.peers[p]);
        }
      }
    }
  }
}

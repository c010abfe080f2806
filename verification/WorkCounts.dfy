/**
 The work accounts of the torrent manager over whole runs: exactly how far the
 concurrency counts are from the number of workers, and exactly when a piece is
 never given out again.
 */
module WorkCounts {
  import opened Base
  import opened TorrentEffects
  import opened TorrentManager
  import opened TorrentRuns

  // ---------------------------------------------------------------- counts against workers

  /** The message registers again a peer that works on piece `k`: its work is forgotten, its count is not. */
  ghost predicate Forgets(s: State, m: Msg, k: nat) {
    m.AddPeerMsg? && m.p in s.work && Assigned(s.work[m.p], k)
  }

  /** How often that happened for piece `k` among the first `n` messages. */
  ghost function Forgotten(states: seq<State>, msgs: seq<Msg>, k: nat, n: nat): (times: nat)
    requires n <= |msgs| <= |states|
  {
    if n == 0 then 0
    else Forgotten(states, msgs, k, n - 1) + if Forgets(states[n - 1], msgs[n - 1], k) then 1 else 0
  }

  /** Only forgetting moves the count of a piece away from the number of its workers. */
  lemma StepGap(c: Config, s: State, m: Msg, t: State, k: nat)
    requires Step(c, s, m, t) && k in t.counts
    ensures k in s.counts
    ensures t.counts[k] - Workers(t, k) == s.counts[k] - Workers(s, k) + if Forgets(s, m, k) then 1 else 0
  {
    hide Shape, FreqCovers, ActiveFits, LogSound, FreqAfter, Live, CountsAfter, Rarest, NothingFor;
    match m
    case AddPeerMsg(p, bits) => WorkersAfter(s.work, p, [], k);
    case AddBitfieldMsg(p, bits) => WorkersSame(s, t);
    case HaveMsg(p, i) => WorkersSame(s, t);
    case RequestWorkMsg(p, now, pick) => if pick.Some? { GivenGap(c, s, p, pick.value, now, t, k); }
    case ExpireMsg(p, now) => if p in s.work { ExpireCounts(c, s, p, now); }
    case PieceFinishMsg(i, _) =>
      if !s.local[i] {
        FinishStartWork(s, i);
        WorkersSame(FinishStart(s, i), t);
      }
  }

  lemma GivenGap(c: Config, s: State, p: PeerId, i: nat, now: int, t: State, k: nat)
    requires Inv(c, s) && p in s.peers && p in s.work && Rarest(c, s, p, i)
    requires t == Assign(c, s, p, i, now) && k in t.counts
    ensures k in s.counts && t.counts[k] - Workers(t, k) == s.counts[k] - Workers(s, k)
  {
    AssignCounts(c, s, p, i, now);
  }

  /** A piece nobody works on whose count is above the cap. */
  ghost predicate Stuck(c: Config, s: State, k: nat) {
    k in s.counts && s.counts[k] > c.perPieceCap && Workers(s, k) == 0
  }

  /** A piece is stuck when its whole allowance, cap + 1, is held by nobody. */
  lemma StuckGap(c: Config, s: State, k: nat)
    requires Inv(c, s) && k in s.counts
    ensures Stuck(c, s, k) <==> s.counts[k] - Workers(s, k) == c.perPieceCap + 1
    ensures 0 <= s.counts[k] - Workers(s, k) <= c.perPieceCap + 1
  {
  }

  /**
   Exactly what the counts say, in every run from the start: the count of a piece is
   the number of peers working on it and of workers forgotten by a second
   registration. At most cap + 1 are ever forgotten, and the piece is stuck if and
   only if it is that many.
   */
  lemma {:induction false} CountsExplained(c: Config, states: seq<State>, msgs: seq<Msg>, k: nat, n: nat)
    requires IsRun(c, states, msgs) && states[0] == Init(c) && n <= |msgs| && k in states[n].counts
    ensures states[n].counts[k] == Workers(states[n], k) + Forgotten(states, msgs, k, n)
    ensures Forgotten(states, msgs, k, n) <= c.perPieceCap + 1
    ensures Stuck(c, states[n], k) <==> Forgotten(states, msgs, k, n) == c.perPieceCap + 1
  {
    hide Next, Inv, Stuck, Workers, Forgets;
    InvAlways(c, states, msgs, n);
    StuckGap(c, states[n], k);
    if n == 0 {
      NoWorkersAtStart(c, k);
    } else {
      InvAlways(c, states, msgs, n - 1);
      StepGap(c, states[n - 1], msgs[n - 1], states[n], k);
      CountsExplained(c, states, msgs, k, n - 1);
    }
  }

  lemma NoWorkersAtStart(c: Config, k: nat)
    requires c.pieceLen > 0
    ensures Workers(Init(c), k) == 0 && (k in Init(c).counts ==> Init(c).counts[k] == 0)
  {
    assert WorkerSet(Init(c).work, k) == {};
  }

  // ---------------------------------------------------------------- exact counts

  /** The concurrency count of each piece is the number of peers working on it. */
  ghost predicate CountsExact(s: State) {
    forall i: nat :: i in s.counts ==> s.counts[i] == Workers(s, i)
  }

  /** The counts are exact in a state of a run if and only if no worker on an unfinished piece was forgotten. */
  lemma CountsExactIff(c: Config, states: seq<State>, msgs: seq<Msg>, n: nat)
    requires IsRun(c, states, msgs) && states[0] == Init(c) && n <= |msgs|
    ensures CountsExact(states[n]) <==> forall k: nat :: k in states[n].counts ==> Forgotten(states, msgs, k, n) == 0
  {
    hide Next, Inv, Forgotten, Stuck, Workers;
    forall k: nat | k in states[n].counts
      ensures states[n].counts[k] == Workers(states[n], k) + Forgotten(states, msgs, k, n)
    {
      CountsExplained(c, states, msgs, k, n);
    }
  }

  /** Registering a peer keeps the counts exact if and only if the peer had no work. */
  lemma AddPeerExactIff(c: Config, s: State, p: PeerId, bits: seq<bool>)
    requires Inv(c, s) && CountsExact(s)
    ensures CountsExact(AddPeer(s, p, bits)) <==> !(p in s.work && s.work[p] != [])
  {
    var t := AddPeer(s, p, bits);
    forall i: nat ensures Workers(t, i) == Workers(s, i) - if p in s.work && Assigned(s.work[p], i) then 1 else 0 {
      WorkersAfter(s.work, p, [], i);
    }
    if p in s.work && s.work[p] != [] {
      var i := s.work[p][0].piece;
      assert Assigned(s.work[p], i);
      assert i in t.counts && t.counts[i] != Workers(t, i);
    }
  }

  /** The message does not register again a peer that still has work. */
  ghost predicate Fresh(s: State, m: Msg) {
    m.AddPeerMsg? ==> !(m.p in s.work && s.work[m.p] != [])
  }

  lemma StepCountsExactIff(c: Config, s: State, m: Msg, t: State)
    requires Step(c, s, m, t) && CountsExact(s)
    ensures CountsExact(t) <==> Fresh(s, m)
  {
    if m.AddPeerMsg? {
      AddPeerExactIff(c, s, m.p, m.bits);
    } else {
      hide Next, Inv, Workers;
      forall i: nat | i in t.counts ensures t.counts[i] == Workers(t, i) {
        StepGap(c, s, m, t, i);
      }
    }
  }

  /** The counts are exact throughout a run from the start if and only if no busy peer registers again in it. */
  lemma {:induction false} CountsExactRunIff(c: Config, states: seq<State>, msgs: seq<Msg>, n: nat)
    requires IsRun(c, states, msgs) && states[0] == Init(c) && n <= |msgs|
    ensures (forall i :: 0 <= i <= n ==> CountsExact(states[i])) <==>
      (forall i :: 0 <= i < n ==> Fresh(states[i], msgs[i]))
  {
    hide Next, Inv, CountsExact, Fresh;
    if n == 0 {
      CountsExactAtStart(c);
    } else {
      CountsExactRunIff(c, states, msgs, n - 1);
      InvAlways(c, states, msgs, n - 1);
      if CountsExact(states[n - 1]) {
        StepCountsExactIff(c, states[n - 1], msgs[n - 1], states[n]);
      }
    }
  }

  lemma CountsExactAtStart(c: Config)
    requires c.pieceLen > 0
    ensures CountsExact(Init(c))
  {
    forall k: nat | k in Init(c).counts ensures Init(c).counts[k] == Workers(Init(c), k) {
      NoWorkersAtStart(c, k);
    }
  }

  // ---------------------------------------------------------------- stuck pieces

  lemma StuckUnassigned(c: Config, s: State, m: Msg, t: State, k: nat)
    requires Step(c, s, m, t) && Stuck(c, s, k)
    ensures !Assigns(m, k)
  {
    hide Inv, Workers;
  }

  /** A piece that loses its count is owned from then on. */
  lemma CountLost(c: Config, s: State, m: Msg, t: State, k: nat)
    requires Step(c, s, m, t) && Inv(c, t) && k in s.counts && k !in t.counts
    ensures Has(t.local, k)
  {
    hide Next, FreqCovers, WorkLive, ActiveFits, LogSound;
  }

  lemma StuckStep(c: Config, s: State, m: Msg, t: State, k: nat)
    requires Step(c, s, m, t) && Stuck(c, s, k)
    ensures Stuck(c, t, k) || Has(t.local, k)
  {
    hide Next, Inv;
    NextInv(c, s, m, t);
    if k in t.counts {
      StuckGap(c, s, k);
      StuckGap(c, t, k);
      StepGap(c, s, m, t, k);
    } else {
      CountLost(c, s, m, t, k);
    }
  }

  /** Once stuck, a piece is never assigned again: it stays stuck, or was finished by a late block. */
  lemma {:induction false} StuckForever(c: Config, states: seq<State>, msgs: seq<Msg>, k: nat, i: nat, j: nat)
    requires IsRun(c, states, msgs) && i <= j <= |msgs| && Stuck(c, states[i], k)
    ensures Stuck(c, states[j], k) || Has(states[j].local, k)
    ensures j < |msgs| ==> !Assigns(msgs[j], k)
    decreases j
  {
    hide Next, Inv, Stuck;
    InvAlways(c, states, msgs, j);
    if i == j {
    } else {
      StuckForever(c, states, msgs, k, i, j - 1);
      InvAlways(c, states, msgs, j - 1);
      if Stuck(c, states[j - 1], k) {
        StuckStep(c, states[j - 1], msgs[j - 1], states[j], k);
      } else {
        StepProgress(c, states[j - 1], msgs[j - 1], states[j]);
      }
    }
    if j < |msgs| && Stuck(c, states[j], k) {
      StuckUnassigned(c, states[j], msgs[j], states[j + 1], k);
    } else if j < |msgs| && Assigns(msgs[j], k) {
      AssignsUnowned(c, states[j], msgs[j], states[j + 1], k);
    }
  }

  ghost predicate AllAsSent(msgs: seq<Msg>) {
    forall i :: 0 <= i < |msgs| ==> AsSent(msgs[i])
  }

  /** One peer registers, announces piece `k` alone, and is given it. */
  lemma Round(c: Config, s: State, p: PeerId, k: nat) returns (a: State, b: State, d: State)
    requires Inv(c, s) && k in s.counts && s.counts[k] <= c.perPieceCap
    ensures Next(c, s, AddPeerMsg(p, []), a)
    ensures Next(c, a, AddBitfieldMsg(p, OnlyPiece(k)), b)
    ensures Next(c, b, RequestWorkMsg(p, 0, Some(k)), d)
    ensures d.local == s.local && d.peers == s.peers[p := OnlyPiece(k)]
    ensures d.counts == s.counts[k := s.counts[k] + 1] && d.work == s.work[p := [Assignment(k, 0)]]
  {
    hide FreqCovers, WorkLive, ActiveFits, LogSound, OnlyPiece;
    a := AddPeer(s, p, []);
    b := AddBitfield(a, p, OnlyPiece(k));
    d := Assign(c, b, p, k, 0);
    assert b.work == s.work[p := []] && b.peers == s.peers[p := OnlyPiece(k)];
    assert Eligible(c, b, p, k);
    assert Rarest(c, b, p, k);
    assert d.work[p] == [Assignment(k, 0)];
    assert d.work == s.work[p := [Assignment(k, 0)]];
  }

  /** A run, and one round more. */
  lemma RoundRun(c: Config, states: seq<State>, msgs: seq<Msg>, p: PeerId, k: nat)
    returns (states': seq<State>, msgs': seq<Msg>)
    requires IsRun(c, states, msgs) && AllAsSent(msgs)
    requires k in states[|msgs|].counts && states[|msgs|].counts[k] <= c.perPieceCap
    ensures IsRun(c, states', msgs') && AllAsSent(msgs') && states'[0] == states[0]
    ensures |msgs'| == |msgs| + 3 && Assigns(msgs'[|msgs| + 2], k)
    ensures var s, t := states[|msgs|], states'[|msgs'|];
      && t.local == s.local && t.peers == s.peers[p := OnlyPiece(k)]
      && t.counts == s.counts[k := s.counts[k] + 1] && t.work == s.work[p := [Assignment(k, 0)]]
  {
    hide Inv;
    InvAlways(c, states, msgs, |msgs|);
    var a, b, d := Round(c, states[|msgs|], p, k);
    hide Next, OnlyPiece;
    ExtendRun(c, states, msgs, AddPeerMsg(p, []), a);
    states', msgs' := states + [a], msgs + [AddPeerMsg(p, [])];
    ExtendRun(c, states', msgs', AddBitfieldMsg(p, OnlyPiece(k)), b);
    states', msgs' := states' + [b], msgs' + [AddBitfieldMsg(p, OnlyPiece(k))];
    ExtendRun(c, states', msgs', RequestWorkMsg(p, 0, Some(k)), d);
    states', msgs' := states' + [d], msgs' + [RequestWorkMsg(p, 0, Some(k))];
  }

  lemma ExpireNext(c: Config, s: State, p: PeerId, now: int)
    requires c.pieceLen > 0 && p in s.work
    ensures Next(c, s, ExpireMsg(p, now), Expire(c, s, p, now))
  {
  }

  /** A worker's entry can lapse, which lowers the count. */
  lemma LapseOne(c: Config, s: State, k: nat) returns (m: Msg, t: State)
    requires Inv(c, s) && k in s.counts && Workers(s, k) > 0
    ensures Next(c, s, m, t) && AsSent(m) && k in t.counts && t.counts[k] <= c.perPieceCap
  {
    hide Shape, FreqCovers, ActiveFits, LogSound;
    var p :| p in WorkerSet(s.work, k);
    var j :| 0 <= j < |s.work[p]| && s.work[p][j].piece == k;
    var now := s.work[p][j].since + c.pieceTimeout + 1;
    m, t := ExpireMsg(p, now), Expire(c, s, p, now);
    assert Lapsed(s.local, s.work[p], k, now, c.pieceTimeout);
    CountsAfterAt(s.local, s.work[p], s.counts, now, c.pieceTimeout, k);
    ConfigValid(c, s);
    hide Next;
    ExpireNext(c, s, p, now);
  }

  /** A piece that is not stuck can be given out again: some run from here, of messages peers send, does it. */
  lemma Reassign(c: Config, s: State, k: nat) returns (states: seq<State>, msgs: seq<Msg>)
    requires Inv(c, s) && k in s.counts && !Stuck(c, s, k)
    ensures IsRun(c, states, msgs) && states[0] == s && AllAsSent(msgs)
    ensures |msgs| > 0 && Assigns(msgs[|msgs| - 1], k)
  {
    ConfigValid(c, s);
    hide Next, Inv, Workers;
    states, msgs := [s], [];
    if Workers(s, k) > 0 {
      var m, t := LapseOne(c, s, k);
      ExtendRun(c, states, msgs, m, t);
      states, msgs := states + [t], msgs + [m];
    }
    states, msgs := RoundRun(c, states, msgs, "peer", k);
  }

  lemma ConfigValid(c: Config, s: State)
    requires Inv(c, s)
    ensures c.Valid()
  {
  }

  /** No message of any run from here gives the piece out. */
  ghost predicate NeverAssigned(c: Config, s: State, k: nat) {
    forall states, msgs, j :: IsRun(c, states, msgs) && states[0] == s && 0 <= j < |msgs| ==> !Assigns(msgs[j], k)
  }

  /** Exactly when an unfinished piece is never given out again: if and only if it is stuck. */
  lemma StuckIff(c: Config, s: State, k: nat)
    requires Inv(c, s) && k in s.counts
    ensures Stuck(c, s, k) <==> NeverAssigned(c, s, k)
  {
    hide Next, Inv, Stuck;
    if Stuck(c, s, k) {
      forall states, msgs, j | IsRun(c, states, msgs) && states[0] == s && 0 <= j < |msgs|
        ensures !Assigns(msgs[j], k)
      {
        StuckForever(c, states, msgs, k, 0, j);
      }
    } else {
      var states, msgs := Reassign(c, s, k);
      assert !NeverAssigned(c, s, k);
    }
  }

  // ---------------------------------------------------------------- how long work lasts

  lemma DistinctEntry(list: seq<Assignment>, i: nat, since: int)
    requires Distinct(list) && Assignment(i, since) in list
    ensures forall e :: e in list && e.piece == i ==> e == Assignment(i, since)
  {
  }

  /** Of an entry for a piece, expiry leaves it or drops it with one off the count, by its age alone. */
  lemma ExpiryIff(c: Config, s: State, p: PeerId, i: nat, since: int, later: int, t: State)
    requires Inv(c, s) && p in s.work && Assignment(i, since) in s.work[p] && WorkExpired(c, s, p, later, t)
    ensures p in t.work && i in s.counts && i in t.counts
    ensures Assignment(i, since) in t.work[p] <==> later - since <= c.pieceTimeout
    ensures Assigned(t.work[p], i) ==> later - since <= c.pieceTimeout
    ensures s.counts[i] == t.counts[i] + if later - since <= c.pieceTimeout then 0 else 1
  {
    hide Shape, FreqCovers, ActiveFits, LogSound;
    assert Assigned(s.work[p], i);
    DistinctEntry(s.work[p], i, since);
    if Assigned(t.work[p], i) {
      var k :| 0 <= k < |t.work[p]| && t.work[p][k].piece == i;
      assert t.work[p][k] in s.work[p];
    }
  }

  /** The message gives peer `p` piece `i`. */
  ghost predicate Gives(m: Msg, p: PeerId, i: nat) {
    Assigns(m, i) && m.p == p
  }

  /** The message is a late enough expiry of peer `p`'s work for an entry made at `since`. */
  ghost predicate Overdue(c: Config, m: Msg, p: PeerId, since: int) {
    m.ExpireMsg? && m.p == p && m.now - since > c.pieceTimeout
  }

  /** What a step does to peer `p`'s entry for an unfinished piece, short of registering it or giving it the piece. */
  lemma EntryStep(c: Config, s: State, m: Msg, t: State, p: PeerId, i: nat, since: int)
    requires Step(c, s, m, t) && p in s.work && !Has(t.local, i)
    requires !(m.AddPeerMsg? && m.p == p) && !Gives(m, p, i)
    ensures p in t.work
    ensures Assignment(i, since) in s.work[p] ==>
      if Overdue(c, m, p, since) then !Assigned(t.work[p], i) else Assignment(i, since) in t.work[p]
    ensures !Assigned(s.work[p], i) ==> !Assigned(t.work[p], i)
  {
    hide Shape, FreqCovers, CountsCover, WorkLive, ActiveFits, LogSound, FreqAfter, Live, CountsAfter, Rarest,
      NothingFor;
    match m
    case AddPeerMsg(q, bits) =>
    case AddBitfieldMsg(_, _) =>
    case HaveMsg(_, _) =>
    case RequestWorkMsg(q, now, pick) =>
      if pick.Some? && q == p {
        AssignedMore(s.work[p], Assignment(pick.value, now), i);
      }
    case ExpireMsg(q, now) =>
      if q == p {
        EntryExpires(c, s, p, i, since, now);
      }
    case PieceFinishMsg(k, flushed) => EntryFinishes(c, s, k, flushed, p, i, since);
  }

  lemma EntryExpires(c: Config, s: State, p: PeerId, i: nat, since: int, now: int)
    requires Inv(c, s) && p in s.work
    ensures Assignment(i, since) in s.work[p] ==>
      if now - since > c.pieceTimeout then !Assigned(Expire(c, s, p, now).work[p], i)
      else Assignment(i, since) in Expire(c, s, p, now).work[p]
    ensures !Assigned(s.work[p], i) ==> !Assigned(Expire(c, s, p, now).work[p], i)
  {
    hide Inv, Expire, TimeUp;
    ExpireExact(c, s, p, now);
    var t := Expire(c, s, p, now);
    if Assignment(i, since) in s.work[p] {
      ExpiryIff(c, s, p, i, since, now, t);
    }
    if Assigned(t.work[p], i) {
      var k :| 0 <= k < |t.work[p]| && t.work[p][k].piece == i;
      assert t.work[p][k] in s.work[p];
    }
  }

  lemma EntryFinishes(c: Config, s: State, k: nat, flushed: bool, p: PeerId, i: nat, since: int)
    requires Inv(c, s) && k < |s.local| && k < |s.freq| && p in s.work && !Has(Finish(s, k, flushed).local, i)
    ensures p in Finish(s, k, flushed).work
    ensures Assignment(i, since) in s.work[p] ==> Assignment(i, since) in Finish(s, k, flushed).work[p]
    ensures !Assigned(s.work[p], i) ==> !Assigned(Finish(s, k, flushed).work[p], i)
  {
    FinishExact(c, s, k, flushed);
    var t := Finish(s, k, flushed);
    hide Inv, Finish;
    if Assigned(t.work[p], i) {
      var j :| 0 <= j < |t.work[p]| && t.work[p][j].piece == i;
      assert t.work[p][j] in s.work[p];
    }
  }

  /** Between `a` and `b` the peer did not register and was not given the piece, and time did not run past `later`. */
  ghost predicate Quiet(msgs: seq<Msg>, p: PeerId, i: nat, a: nat, b: nat, later: int)
    requires b <= |msgs|
  {
    forall m :: a < m < b ==>
      !(msgs[m].AddPeerMsg? && msgs[m].p == p) && !Gives(msgs[m], p, i)
      && (msgs[m].ExpireMsg? && msgs[m].p == p ==> msgs[m].now <= later)
  }

  /** No expiry of the peer's work between `a` and `b` was late enough for an entry made at `since`. */
  ghost predicate NotYetOverdue(c: Config, msgs: seq<Msg>, p: PeerId, a: nat, b: nat, since: int)
    requires b <= |msgs|
  {
    forall m :: a < m < b ==> !Overdue(c, msgs[m], p, since)
  }

  lemma {:induction false} EntryLasts(c: Config, states: seq<State>, msgs: seq<Msg>, p: PeerId, i: nat, since: int,
                                      a: nat, b: nat, later: int)
    requires IsRun(c, states, msgs) && a < b <= |msgs| && msgs[a] == RequestWorkMsg(p, since, Some(i))
    requires Quiet(msgs, p, i, a, b, later) && !Has(states[b].local, i)
    ensures p in states[b].work
    ensures if NotYetOverdue(c, msgs, p, a, b, since) then Assignment(i, since) in states[b].work[p]
            else !Assigned(states[b].work[p], i)
    decreases b
  {
    hide Next, Inv, Assigned, Overdue, Gives;
    InvAlways(c, states, msgs, b - 1);
    if b == a + 1 {
      JustGiven(c, states[a], p, i, since, states[b]);
    } else {
      RunProgress(c, states, msgs, b - 1, b);
      EntryLasts(c, states, msgs, p, i, since, a, b - 1, later);
      EntryStep(c, states[b - 1], msgs[b - 1], states[b], p, i, since);
      assert NotYetOverdue(c, msgs, p, a, b, since) <==>
        NotYetOverdue(c, msgs, p, a, b - 1, since) && !Overdue(c, msgs[b - 1], p, since);
    }
  }

  lemma JustGiven(c: Config, s: State, p: PeerId, i: nat, since: int, t: State)
    requires Step(c, s, RequestWorkMsg(p, since, Some(i)), t)
    ensures p in t.work && Assignment(i, since) in t.work[p]
  {
    hide Inv;
    assert t.work[p][|s.work[p]|] == Assignment(i, since);
  }

  lemma ExpireStep(c: Config, s: State, p: PeerId, now: int, t: State)
    requires Step(c, s, ExpireMsg(p, now), t) && p in s.work
    ensures WorkExpired(c, s, p, now, t)
  {
    ExpireExact(c, s, p, now);
    hide Inv, Expire, WorkExpired;
  }

  /**
   How long work lasts. A piece given to a peer at time `since` and not finished is
   on its list after an expiry at `later`, whatever happened in between short of the
   peer registering or being given it again, if and only if no more than the timeout
   has passed; and the expiry that drops it takes exactly one off its count.
   */
  lemma WorkLasts(c: Config, states: seq<State>, msgs: seq<Msg>, p: PeerId, i: nat, since: int,
                  a: nat, b: nat, later: int)
    requires IsRun(c, states, msgs) && a < b < |msgs|
    requires msgs[a] == RequestWorkMsg(p, since, Some(i)) && msgs[b] == ExpireMsg(p, later)
    requires Quiet(msgs, p, i, a, b, later) && !Has(states[b + 1].local, i)
    ensures p in states[b + 1].work
    ensures Assigned(states[b + 1].work[p], i) <==> later - since <= c.pieceTimeout
    ensures NotYetOverdue(c, msgs, p, a, b, since) ==>
      && i in states[b].counts && i in states[b + 1].counts
      && states[b].counts[i] == states[b + 1].counts[i] + if later - since > c.pieceTimeout then 1 else 0
  {
    hide Next, Inv;
    InvAlways(c, states, msgs, b);
    RunProgress(c, states, msgs, b, b + 1);
    EntryLasts(c, states, msgs, p, i, since, a, b, later);
    EntryStep(c, states[b], msgs[b], states[b + 1], p, i, since);
    if NotYetOverdue(c, msgs, p, a, b, since) {
      ExpireStep(c, states[b], p, later, states[b + 1]);
      ExpiryIff(c, states[b], p, i, since, later, states[b + 1]);
      if later - since <= c.pieceTimeout {
        var k :| 0 <= k < |states[b + 1].work[p]| && states[b + 1].work[p][k] == Assignment(i, since);
      }
    }
  }

  // ---------------------------------------------------------------- two runs

  /** One peer is given piece 0 over and over, registering again each time. */
  lemma {:induction false} LeakRun(c: Config, p: PeerId, n: nat) returns (states: seq<State>, msgs: seq<Msg>)
    requires c.Valid() && c.Pieces() > 0 && n <= c.perPieceCap + 1
    ensures IsRun(c, states, msgs) && AllAsSent(msgs) && states[0] == Init(c)
    ensures var s := states[|msgs|];
      s.work.Keys <= {p} && 0 in s.counts && s.counts[0] == n
  {
    hide Next, Inv;
    if n == 0 {
      InitInv(c);
      states, msgs := [Init(c)], [];
    } else {
      states, msgs := LeakRun(c, p, n - 1);
      states, msgs := RoundRun(c, states, msgs, p, 0);
    }
  }

  /**
   Whatever the configuration, some run of messages as peers send them leaves a
   piece stuck, and then nobody is ever given it again.
   */
  lemma StuckIsReachable(c: Config) returns (states: seq<State>, msgs: seq<Msg>)
    requires c.Valid() && c.Pieces() > 0
    ensures IsRun(c, states, msgs) && AllAsSent(msgs) && states[0] == Init(c)
    ensures Stuck(c, states[|msgs|], 0) && NeverAssigned(c, states[|msgs|], 0)
  {
    hide Inv;
    states, msgs := LeakRun(c, "peer", c.perPieceCap + 1);
    var s := states[|msgs|];
    var t := AddPeer(s, "peer", []);
    assert Next(c, s, AddPeerMsg("peer", []), t);
    hide Next;
    ExtendRun(c, states, msgs, AddPeerMsg("peer", []), t);
    states, msgs := states + [t], msgs + [AddPeerMsg("peer", [])];
    assert WorkerSet(t.work, 0) == {};
    InvAlways(c, states, msgs, |msgs|);
    StuckIff(c, t, 0);
  }

  /** The `n`th of as many peers as needed. */
  function Peer(n: nat): (p: PeerId)
    ensures |p| == n
  {
    seq(n, i => 'p')
  }

  /** Different peers, one after the other, are given piece 0. */
  lemma {:induction false} CrowdRun(c: Config, n: nat) returns (states: seq<State>, msgs: seq<Msg>)
    requires c.Valid() && c.Pieces() > 0 && n <= c.perPieceCap + 1
    ensures IsRun(c, states, msgs) && AllAsSent(msgs) && states[0] == Init(c)
    ensures var s := states[|msgs|];
      0 in s.counts && s.counts[0] == n && Workers(s, 0) == n && forall p :: p in s.work ==> |p| < n
  {
    hide Next, Inv;
    if n == 0 {
      InitInv(c);
      NoWorkersAtStart(c, 0);
      states, msgs := [Init(c)], [];
    } else {
      states, msgs := CrowdRun(c, n - 1);
      var s := states[|msgs|];
      states, msgs := RoundRun(c, states, msgs, Peer(n - 1), 0);
      WorkersAfter(s.work, Peer(n - 1), [Assignment(0, 0)], 0);
      assert [Assignment(0, 0)][0].piece == 0;
    }
  }

  /** The bound of cap + 1 workers on a piece is reached. */
  lemma CapPlusOneReached(c: Config) returns (states: seq<State>, msgs: seq<Msg>)
    requires c.Valid() && c.Pieces() > 0
    ensures IsRun(c, states, msgs) && AllAsSent(msgs) && states[0] == Init(c)
    ensures Workers(states[|msgs|], 0) == c.perPieceCap + 1
  {
    states, msgs := CrowdRun(c, c.perPieceCap + 1);
  }
}

/**
 The peer state machine's concurrent parts (peer_protocol_state_machine.rs), as
 interleavings of the steps of its tasks: the request window shared by the
 writer and the reader, and the announcement of finished pieces.
 */
module PeerProtocol {
  import opened Base

  // ---------------------------------------------------------------- the request window

  /** Where the writer is in its top-off loop. */
  datatype Writer =
    | Idle
    | Passing                // has read, at some earlier time, that it is not choked
    | Loaded(window: nat)    // has read the counter and knows how much room there is
    | Sending(left: nat)     // has been granted blocks, of which `left` are still to be sent
    | Sent(left: nat)        // a request is on the wire and not yet counted

  /**
   `inflight` is the shared counter, `choked` the shared flag; `outstanding` is how
   many requests have been sent and not answered.
   */
  datatype Window = Window(inflight: nat, choked: bool, outstanding: nat, writer: Writer)

  datatype WindowStep =
    | ReadFlag
    | Load
    | Grant(blocks: nat)
    | GiveUp
    | SendOne
    | CountOne
    | BlockArrives(answersRequest: bool)
    | Choked
    | Unchoked

  /**
   One atomic step of the writer or of the reader. The reader sets the flag and
   then resets the counter; both happen at the reset here, since before it the
   writer can only make use of the flag by staying idle. A loop that asks for more
   goes on with the flag it read before, however stale.
   */
  ghost predicate WindowNext(cap: nat, s: Window, e: WindowStep, t: Window) {
    match e
    case ReadFlag => s.writer.Idle? && !s.choked && t == s.(writer := Passing)
    case Load => s.writer.Passing? && s.inflight < cap && t == s.(writer := Loaded(cap - s.inflight))
    case Grant(blocks) =>
      s.writer.Loaded? && 0 < blocks <= AsU32(s.writer.window) && t == s.(writer := Sending(blocks))
    case GiveUp => (s.writer.Passing? || s.writer.Loaded?) && t == s.(writer := Idle)
    case SendOne =>
      s.writer.Sending? && s.writer.left > 0
      && t == s.(writer := Sent(s.writer.left - 1), outstanding := s.outstanding + 1)
    case CountOne =>
      s.writer.Sent?
      && t == s.(inflight := s.inflight + 1, writer := if s.writer.left == 0 then Passing else Sending(s.writer.left))
    case BlockArrives(answers) =>
      (answers ==> s.outstanding > 0)
      && t == s.(inflight := if s.inflight == 0 then 0 else s.inflight - 1,
                 outstanding := if answers then s.outstanding - 1 else s.outstanding)
    case Choked => t == s.(inflight := 0, choked := true)
    case Unchoked => t == s.(choked := false)
  }

  /** What the writer may still add to the counter. */
  function StillToCount(w: Writer): (n: nat) {
    match w
    case Idle => 0
    case Passing => 0
    case Loaded(window) => window
    case Sending(left) => left
    case Sent(left) => left + 1
  }

  /** The counter and what the writer still owes it are within the cap; a writer about to send has something to send. */
  ghost predicate Bounded(cap: nat, s: Window) {
    && s.inflight + StillToCount(s.writer) <= cap
    && (s.writer.Loaded? || s.writer.Sending? ==> StillToCount(s.writer) > 0)
  }

  ghost predicate IsWindowRunFrom(cap: nat, s: Window, states: seq<Window>, steps: seq<WindowStep>) {
    && |states| == |steps| + 1 && states[0] == s
    && forall i :: 0 <= i < |steps| ==> WindowNext(cap, states[i], steps[i], states[i + 1])
  }

  /** A run from the start: nothing asked for, and choked. */
  ghost predicate IsWindowRun(cap: nat, states: seq<Window>, steps: seq<WindowStep>) {
    IsWindowRunFrom(cap, Window(0, true, 0, Idle), states, steps)
  }

  /** Over every interleaving the counter, with what the writer still owes it, stays within the cap. */
  lemma {:induction false} InflightBounded(cap: nat, states: seq<Window>, steps: seq<WindowStep>, n: nat)
    requires IsWindowRun(cap, states, steps) && n <= |steps|
    ensures Bounded(cap, states[n]) && states[n].inflight <= cap
  {
    if n == 0 {
    } else {
      InflightBounded(cap, states, steps, n - 1);
      assert WindowNext(cap, states[n - 1], steps[n - 1], states[n]);
    }
  }

  /** Every request on the wire is in the counter, or is the one about to be counted. */
  ghost predicate WireCovered(s: Window) {
    s.outstanding <= s.inflight + if s.writer.Sent? then 1 else 0
  }

  /** A step keeps the wire covered, except a choke or an unasked-for block while requests are outstanding. */
  lemma WireStepIff(cap: nat, s: Window, e: WindowStep, t: Window)
    requires WindowNext(cap, s, e, t) && WireCovered(s)
    ensures WireCovered(t) <==>
      match e {
        case Choked => s.outstanding <= if s.writer.Sent? then 1 else 0
        case BlockArrives(answers) =>
          answers || s.inflight == 0 || s.outstanding < s.inflight + if s.writer.Sent? then 1 else 0
        case _ => true
      }
  {
  }

  /** The steps that can let the counter fall behind the wire. */
  ghost predicate Disturbs(e: WindowStep) {
    e == Choked || e == BlockArrives(false)
  }

  ghost predicate Undisturbed(steps: seq<WindowStep>) {
    forall i :: 0 <= i < |steps| ==> !Disturbs(steps[i])
  }

  /** From here on, without further chokes and unasked-for blocks, no more than `cap` requests are ever outstanding. */
  ghost predicate WireSafe(cap: nat, s: Window) {
    forall states: seq<Window>, steps: seq<WindowStep> ::
      IsWindowRunFrom(cap, s, states, steps) && Undisturbed(steps) ==> states[|steps|].outstanding <= cap
  }

  lemma {:induction false} CoveredStays(cap: nat, s: Window, states: seq<Window>, steps: seq<WindowStep>, n: nat)
    requires IsWindowRunFrom(cap, s, states, steps) && n <= |steps| && Undisturbed(steps)
    requires Bounded(cap, s) && WireCovered(s)
    ensures Bounded(cap, states[n]) && WireCovered(states[n]) && states[n].outstanding <= cap
  {
    if n == 0 {
    } else {
      CoveredStays(cap, s, states, steps, n - 1);
      assert WindowNext(cap, states[n - 1], steps[n - 1], states[n]);
      assert !Disturbs(steps[n - 1]);
      WireStepIff(cap, states[n - 1], steps[n - 1], states[n]);
    }
  }

  /** The writer's own next step towards one more request on the wire. */
  function Onward(cap: nat, s: Window): (r: (WindowStep, Window))
    requires s.inflight < cap || !s.writer.Passing?
    requires s.writer.Sending? ==> s.writer.left > 0
  {
    match s.writer
    case Idle => if s.choked then (Unchoked, s.(choked := false)) else (ReadFlag, s.(writer := Passing))
    case Passing => (Load, s.(writer := Loaded(cap - s.inflight)))
    case Loaded(_) => (Grant(1), s.(writer := Sending(1)))
    case Sending(left) => (SendOne, s.(writer := Sent(left - 1), outstanding := s.outstanding + 1))
    case Sent(left) =>
      (CountOne, s.(inflight := s.inflight + 1, writer := if left == 0 then Passing else Sending(left)))
  }

  lemma OnwardStep(cap: nat, s: Window)
    requires cap < U32 && Bounded(cap, s) && !WireCovered(s) && s.outstanding <= cap
    ensures s.writer.Passing? ==> s.inflight < cap
    ensures var (e, t) := Onward(cap, s);
      WindowNext(cap, s, e, t) && !Disturbs(e) && Bounded(cap, t) && !WireCovered(t)
  {
  }

  function StepsToSend(s: Window): (n: nat) {
    match s.writer
    case Idle => if s.choked then 4 else 3
    case Passing => 2
    case Loaded(_) => 1
    case Sending(_) => 0
    case Sent(_) => 5
  }

  /** Once the counter has fallen behind the wire, the writer can run over the cap with no one's help. */
  lemma {:induction false} UncoveredOverruns(cap: nat, s: Window) returns (states: seq<Window>, steps: seq<WindowStep>)
    requires cap < U32 && Bounded(cap, s) && !WireCovered(s)
    ensures IsWindowRunFrom(cap, s, states, steps) && Undisturbed(steps) && states[|steps|].outstanding > cap
    decreases if s.outstanding <= cap then cap + 1 - s.outstanding else 0, StepsToSend(s)
  {
    if s.outstanding > cap {
      states, steps := [s], [];
    } else {
      OnwardStep(cap, s);
      var (e, t) := Onward(cap, s);
      var states', steps' := UncoveredOverruns(cap, t);
      states, steps := [s] + states', [e] + steps';
      forall i | 0 <= i < |steps| ensures WindowNext(cap, states[i], steps[i], states[i + 1]) && !Disturbs(steps[i]) {
        if i > 0 {
          assert WindowNext(cap, states'[i - 1], steps'[i - 1], states'[i]) && !Disturbs(steps'[i - 1]);
        }
      }
    }
  }

  /**
   Exactly when the window bounds the wire: in any state of any run, the requests
   outstanding stay within the cap, until the next choke or unasked-for block, if
   and only if the counter covers those on the wire now.
   */
  lemma WireSafeIff(cap: nat, states: seq<Window>, steps: seq<WindowStep>, n: nat)
    requires cap < U32 && IsWindowRun(cap, states, steps) && n <= |steps|
    ensures WireSafe(cap, states[n]) <==> WireCovered(states[n])
  {
    var s := states[n];
    InflightBounded(cap, states, steps, n);
    if WireCovered(s) {
      forall states': seq<Window>, steps': seq<WindowStep> |
        IsWindowRunFrom(cap, s, states', steps') && Undisturbed(steps')
        ensures states'[|steps'|].outstanding <= cap
      {
        CoveredStays(cap, s, states', steps', |steps'|);
      }
    } else {
      var states', steps' := UncoveredOverruns(cap, s);
      assert !WireSafe(cap, s);
    }
  }

  /** A peer that is never choked and sends no unasked-for blocks never holds more than `cap` unanswered requests. */
  lemma OutstandingBounded(cap: nat, states: seq<Window>, steps: seq<WindowStep>, n: nat)
    requires IsWindowRun(cap, states, steps) && n <= |steps| && Undisturbed(steps)
    ensures states[n].outstanding <= cap
  {
    CoveredStays(cap, states[0], states, steps, n);
  }

  /** The first request of a window of one, sent and counted. */
  const ONE_SENT: seq<WindowStep> := [Unchoked, ReadFlag, Load, Grant(1), SendOne, CountOne]

  const ONE_SENT_STATES: seq<Window> :=
    [Window(0, true, 0, Idle), Window(0, false, 0, Idle), Window(0, false, 0, Passing), Window(0, false, 0, Loaded(1)),
     Window(0, false, 0, Sending(1)), Window(0, false, 1, Sent(0)), Window(1, false, 1, Passing)]

  /**
   With a window of one, a choke in the middle of a pass leads to two unanswered
   requests, the second sent to a peer that is choking: the pass goes on with the
   flag it read before.
   */
  lemma StaleFlagOverruns() returns (states: seq<Window>, steps: seq<WindowStep>)
    ensures IsWindowRun(1, states, steps) && forall i :: 0 < i < |steps| ==> steps[i] != Unchoked
    ensures states[|steps|].outstanding == 2 && states[|steps|].choked
  {
    steps := ONE_SENT + [Choked, Load, Grant(1), SendOne];
    states := ONE_SENT_STATES + [Window(0, true, 1, Passing), Window(0, true, 1, Loaded(1)),
                                 Window(0, true, 1, Sending(1)), Window(0, true, 2, Sent(0))];
    assert AsU32(1) == 1;
  }

  /** So does a choke between passes followed by an unchoke, with the first request still unanswered. */
  lemma UnchokeOverruns() returns (states: seq<Window>, steps: seq<WindowStep>)
    ensures IsWindowRun(1, states, steps) && states[|steps|].outstanding == 2 && !states[|steps|].choked
  {
    steps := ONE_SENT + [GiveUp, Choked, Unchoked, ReadFlag, Load, Grant(1), SendOne];
    states := ONE_SENT_STATES + [Window(1, false, 1, Idle), Window(0, true, 1, Idle), Window(0, false, 1, Idle),
                                 Window(0, false, 1, Passing), Window(0, false, 1, Loaded(1)),
                                 Window(0, false, 1, Sending(1)), Window(0, false, 2, Sent(0))];
    assert AsU32(1) == 1;
  }

  // ---------------------------------------------------------------- Have announcements

  datatype Announcer =
    | NotStarted
    | Waiting
    | Borrowed(current: nat)
    | Announcing(current: nat, next: nat, end: nat)
    | Stopped

  /**
   The completion log, the watch value published after each append, and one
   peer's writer. `sent` lists the log positions announced so far; the Have
   message for position `j` carries `log[j]`, which never changes.
   */
  datatype HaveState = HaveState(
    log: seq<nat>,
    watch: nat,
    publishing: bool,
    writer: Announcer,
    start: nat,
    lastSeen: nat,
    fetched: nat,
    sent: seq<nat>
  )

  datatype HaveStep =
    | Complete(piece: nat)
    | Publish
    | Start
    | Wake
    | Fetch
    | Announce
    | Finish
    | Fail

  /** `Fetch` is served by the manager between messages, so never while it is publishing. */
  ghost predicate HaveNext(s: HaveState, e: HaveStep, t: HaveState) {
    match e
    case Complete(piece) => !s.publishing && t == s.(log := s.log + [piece], publishing := true)
    case Publish => s.publishing && t == s.(watch := |s.log|, publishing := false)
    case Start =>
      s.writer.NotStarted? && t == s.(writer := Waiting, start := s.watch, lastSeen := s.watch, fetched := s.watch)
    case Wake => s.writer.Waiting? && t == s.(writer := Borrowed(s.watch))
    case Fetch =>
      s.writer.Borrowed? && !s.publishing && s.lastSeen <= |s.log|
      && t == s.(writer := Announcing(s.writer.current, s.lastSeen, |s.log|))
    case Announce =>
      s.writer.Announcing? && s.writer.next < s.writer.end
      && t == s.(sent := s.sent + [s.writer.next], writer := s.writer.(next := s.writer.next + 1))
    case Finish =>
      s.writer.Announcing? && s.writer.next == s.writer.end
      && t == s.(writer := Waiting, lastSeen := s.writer.current, fetched := s.writer.end)
    case Fail => s.writer.Announcing? && t == s.(writer := Stopped, lastSeen := s.writer.current)
  }

  /**
   How often position `j` has been announced while the current round, from
   `lastSeen`, has reached `next`: positions below `lastSeen` once or twice,
   those fetched by the previous round once more, others at most once.
   */
  ghost predicate CountedAt(times: nat, start: nat, lastSeen: nat, fetched: nat, next: nat, j: nat) {
    if start <= j < lastSeen then 1 <= times <= 2
    else if lastSeen <= j < fetched then times == if j < next then 2 else 1
    else if fetched <= j < next then times == 1
    else times == 0
  }

  ghost predicate Counted(sent: seq<nat>, start: nat, lastSeen: nat, fetched: nat, next: nat) {
    forall j: nat :: CountedAt(multiset(sent)[j], start, lastSeen, fetched, next, j)
  }

  ghost predicate HaveInv(s: HaveState) {
    && s.watch <= |s.log| && (s.publishing ==> |s.log| == s.watch + 1) && (!s.publishing ==> |s.log| == s.watch)
    && match s.writer
       case NotStarted => s.sent == []
       case Waiting =>
         s.start <= s.lastSeen <= s.fetched <= s.watch
         && Counted(s.sent, s.start, s.lastSeen, s.fetched, s.lastSeen)
       case Borrowed(current) =>
         s.start <= s.lastSeen <= s.fetched <= current <= s.watch
         && Counted(s.sent, s.start, s.lastSeen, s.fetched, s.lastSeen)
       case Announcing(current, next, end) =>
         s.start <= s.lastSeen <= s.fetched <= current <= end <= s.watch
         && s.lastSeen <= next <= end && Counted(s.sent, s.start, s.lastSeen, s.fetched, next)
       case Stopped => true
  }

  ghost predicate IsHaveRun(states: seq<HaveState>, steps: seq<HaveStep>) {
    && |states| == |steps| + 1
    && states[0] == HaveState([], 0, false, NotStarted, 0, 0, 0, [])
    && forall i :: 0 <= i < |steps| ==> HaveNext(states[i], steps[i], states[i + 1])
  }

  lemma AnnounceCounted(s: HaveState, t: HaveState)
    requires HaveInv(s) && HaveNext(s, Announce, t)
    ensures HaveInv(t)
  {
    var next := s.writer.next;
    forall j: nat
      ensures CountedAt(multiset(t.sent)[j], t.start, t.lastSeen, t.fetched, next + 1, j)
    {
      assert multiset(t.sent)[j] == multiset(s.sent)[j] + if j == next then 1 else 0;
      assert CountedAt(multiset(s.sent)[j], s.start, s.lastSeen, s.fetched, next, j);
    }
  }

  lemma HaveStepInv(s: HaveState, e: HaveStep, t: HaveState)
    requires HaveInv(s) && HaveNext(s, e, t)
    ensures HaveInv(t)
  {
    if e.Announce? {
      AnnounceCounted(s, t);
    } else if e.Finish? {
      forall j: nat
        ensures CountedAt(multiset(t.sent)[j], t.start, t.lastSeen, t.fetched, t.lastSeen, j)
      {
        assert CountedAt(multiset(s.sent)[j], s.start, s.lastSeen, s.fetched, s.writer.next, j);
      }
    }
  }

  lemma {:induction false} HaveInvAlways(states: seq<HaveState>, steps: seq<HaveStep>, n: nat)
    requires IsHaveRun(states, steps) && n <= |steps|
    ensures HaveInv(states[n])
  {
    hide HaveInv, HaveNext;
    if n == 0 {
      HaveInitInv(states[0]);
    } else {
      HaveInvAlways(states, steps, n - 1);
      assert HaveNext(states[n - 1], steps[n - 1], states[n]);
      HaveStepInv(states[n - 1], steps[n - 1], states[n]);
    }
  }

  lemma HaveInitInv(s: HaveState)
    requires s == HaveState([], 0, false, NotStarted, 0, 0, 0, [])
    ensures HaveInv(s)
  {
  }

  /**
   Announcements have no gaps. Over every interleaving of completions with a
   running writer: the slice it asks for is in range, every piece logged between
   its start and what it has seen was announced once or twice, and no piece was
   announced more than twice, from before its start, or before it was logged.
   */
  lemma NoGaps(states: seq<HaveState>, steps: seq<HaveStep>, n: nat, j: nat)
    requires IsHaveRun(states, steps) && n <= |steps|
    requires !states[n].writer.NotStarted? && !states[n].writer.Stopped?
    ensures var s := states[n];
      && s.start <= s.lastSeen <= s.watch <= |s.log|
      && (s.start <= j < s.lastSeen ==> 1 <= multiset(s.sent)[j] <= 2)
      && multiset(s.sent)[j] <= 2
      && (j in s.sent ==> s.start <= j < |s.log|)
  {
    HaveInvAlways(states, steps, n);
    var s := states[n];
    assert j in s.sent <==> multiset(s.sent)[j] > 0;
    var next := if s.writer.Announcing? then s.writer.next else s.lastSeen;
    assert CountedAt(multiset(s.sent)[j], s.start, s.lastSeen, s.fetched, next, j);
  }

  /** The writer's announcements are all from position `first` on. */
  ghost predicate AllFrom(s: HaveState, first: nat) {
    s.start == first && !s.writer.NotStarted? && forall j :: j in s.sent ==> first <= j
  }

  lemma AllFromStep(s: HaveState, e: HaveStep, t: HaveState, first: nat)
    requires HaveInv(s) && HaveNext(s, e, t) && AllFrom(s, first)
    ensures AllFrom(t, first)
  {
    hide Counted;
  }

  /** What was published before the writer started is never announced by it. */
  lemma {:induction false} NothingBeforeStart(states: seq<HaveState>, steps: seq<HaveStep>, i: nat, n: nat)
    requires IsHaveRun(states, steps) && i < n <= |steps| && steps[i] == Start
    ensures AllFrom(states[n], states[i].watch)
    decreases n
  {
    hide HaveInv;
    HaveInvAlways(states, steps, n - 1);
    assert HaveNext(states[n - 1], steps[n - 1], states[n]);
    if n == i + 1 {
      NothingSentYet(states[i]);
    } else {
      NothingBeforeStart(states, steps, i, n - 1);
      AllFromStep(states[n - 1], steps[n - 1], states[n], states[i].watch);
    }
  }

  lemma NothingSentYet(s: HaveState)
    requires HaveInv(s) && s.writer.NotStarted?
    ensures s.sent == []
  {
  }

  /** Twice does happen: a piece finished between the look at the watch value and the fetch is announced again. */
  lemma AnnouncedTwice() returns (states: seq<HaveState>, steps: seq<HaveStep>)
    ensures IsHaveRun(states, steps) && multiset(states[|steps|].sent)[1] == 2
  {
    steps := [Start, Complete(3), Publish, Wake, Complete(4), Publish, Fetch, Announce, Announce, Finish, Wake, Fetch,
              Announce];
    var l := [3, 4];
    states := [HaveState([], 0, false, NotStarted, 0, 0, 0, []),
               HaveState([], 0, false, Waiting, 0, 0, 0, []),
               HaveState([3], 0, true, Waiting, 0, 0, 0, []),
               HaveState([3], 1, false, Waiting, 0, 0, 0, []),
               HaveState([3], 1, false, Borrowed(1), 0, 0, 0, []),
               HaveState(l, 1, true, Borrowed(1), 0, 0, 0, []),
               HaveState(l, 2, false, Borrowed(1), 0, 0, 0, []),
               HaveState(l, 2, false, Announcing(1, 0, 2), 0, 0, 0, []),
               HaveState(l, 2, false, Announcing(1, 1, 2), 0, 0, 0, [0]),
               HaveState(l, 2, false, Announcing(1, 2, 2), 0, 0, 0, [0, 1]),
               HaveState(l, 2, false, Waiting, 0, 1, 2, [0, 1]),
               HaveState(l, 2, false, Borrowed(2), 0, 1, 2, [0, 1]),
               HaveState(l, 2, false, Announcing(2, 1, 2), 0, 1, 2, [0, 1]),
               HaveState(l, 2, false, Announcing(2, 2, 2), 0, 1, 2, [0, 1, 1])];
    forall i | 0 <= i < 13 ensures HaveNext(states[i], steps[i], states[i + 1]) {
    }
  }

  /** The manager can always answer the request for progress: the source's slice never panics. */
  lemma FetchNeverPanics(states: seq<HaveState>, steps: seq<HaveStep>, n: nat)
    requires IsHaveRun(states, steps) && n <= |steps|
    requires states[n].writer.Borrowed? && !states[n].publishing
    ensures exists t :: HaveNext(states[n], Fetch, t)
  {
    HaveInvAlways(states, steps, n);
    var s := states[n];
    assert HaveNext(s, Fetch, s.(writer := Announcing(s.writer.current, s.lastSeen, |s.log|)));
  }
}

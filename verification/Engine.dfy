/**
 The whole download engine as interleaved steps of its actors: the torrent
 manager, every piece manager, and the disk manager, whose flush visits one
 file at a time while peers go on delivering blocks.
 */
module Engine {
  import opened Base
  import opened TorrentMeta
  import opened DiskManager
  import PM = PieceManager
  import TM = TorrentManager
  import TR = TorrentRuns

  /** A torrent description, the client's settings, and the bytes it describes. */
  datatype Torrent = Torrent(
    info: Info,
    perPieceCap: nat,
    pieceTimeout: nat,
    blockTimeout: nat,
    sha1: PM.Digest,
    orig: seq<byte>
  ) {
    ghost predicate Described() {
      info.HasFiles() && info.pieceLength > 0 && |orig| == Sum(info.Sizes())
    }

    ghost function Config(): (c: TM.Config)
      requires Described()
    {
      TM.Config(|orig|, info.pieceLength, perPieceCap, pieceTimeout)
    }

    ghost function StartOf(k: nat): (start: nat) {
      k * info.pieceLength
    }

    ghost function LengthOf(k: nat): (length: nat)
      requires Described()
    {
      Config().LengthOf(k)
    }

    /** The true bytes of piece `k`. */
    ghost function Chunk(k: nat): (chunk: seq<byte>)
      requires Described() && k < Config().Pieces()
      ensures |chunk| == LengthOf(k) && StartOf(k) + |chunk| <= |orig|
      ensures chunk == orig[StartOf(k)..StartOf(k) + |chunk|]
    {
      PieceEnd(|orig|, info.pieceLength, k);
      orig[StartOf(k)..StartOf(k) + LengthOf(k)]
    }

    ghost predicate WellFormed() {
      Described() && Config().Valid() && |info.piecesHash| >= 20 * Config().Pieces()
    }
  }

  /** A flush in progress: the next file to visit, and how much of the piece has been dealt with. */
  datatype Flush = Flush(index: nat, file: nat, done: nat)

  datatype State = State(
    tm: TM.State,
    pieces: map<nat, PM.Piece>,    // every piece manager ever made: peers keep handles to finished ones
    verified: set<nat>,            // pieces some peer was told are done, so it sends `PieceFinish`
    files: seq<seq<byte>>,
    diskUp: bool,
    flushing: Option<Flush>        // while it is set the torrent manager waits and handles nothing else
  )

  datatype Step =
    | Manage(msg: TR.Msg)
    | RequestBlocks(index: nat, count: nat, now: int)
    | Deliver(index: nat, offset: nat, bytes: seq<byte>)
    | Timer(index: nat, now: int)
    | FinishBegin(index: nat)
    | FlushVisit
    | FlushFail(written: nat)
    | FlushDone
    | Read(start: nat, length: nat)

  /** What the disk manager's loop decides about the file it has come to. */
  ghost function VisitNext(t: Torrent, f: Flush): (visit: Visit)
    requires t.Described() && f.file < |t.info.Sizes()| && f.done <= t.LengthOf(f.index)
  {
    var sizes := t.info.Sizes();
    var start := t.StartOf(f.index);
    var end := start + t.LengthOf(f.index);
    VisitFile(Offset(sizes, f.file), Offset(sizes, f.file + 1), start, end, end - start - f.done)
  }

  /** The flush has come to the end of its loop. */
  ghost predicate AtEnd(t: Torrent, f: Flush)
    requires t.Described() && f.done <= t.LengthOf(f.index)
  {
    f.file >= |t.info.Sizes()| || VisitNext(t, f).Stop?
  }

  ghost function WriteFile(files: seq<seq<byte>>, k: nat, at: nat, bytes: seq<byte>): (files': seq<seq<byte>>)
    requires k < |files|
    ensures |files'| == |files|
  {
    files[k := WriteAt(files[k], at, bytes)]
  }

  /**
   One turn of the flush loop, its end, or its failure after part of a write. The
   bytes come from the piece manager at that moment, none if its actor is gone, and
   the loop moves on by the length it asked for either way.
   */
  ghost predicate FlushNext(t: Torrent, s: State, f: Flush, e: Step, s': State)
    requires t.Described()
  {
    && s.flushing == Some(f) && |s.files| == |t.info.Sizes()|
    && f.done <= t.LengthOf(f.index) && f.index in s.pieces
    && match e
       case FlushDone =>
         AtEnd(t, f)
         && s' == s.(tm := TM.FinishEnd(s.tm, TM.Handle(f.index, t.LengthOf(f.index)), f.index), flushing := None)
       case FlushVisit =>
         !AtEnd(t, f)
         && (match VisitNext(t, f)
             case Touch(at, length) =>
               s' == s.(files := WriteFile(s.files, f.file, at, PM.Slice(s.pieces[f.index], f.done, f.done + length)),
                        flushing := Some(Flush(f.index, f.file + 1, f.done + length)))
             case _ => s' == s.(flushing := Some(Flush(f.index, f.file + 1, f.done))))
       case FlushFail(written) =>
         !AtEnd(t, f) && VisitNext(t, f).Touch?
         && var bytes := PM.Slice(s.pieces[f.index], f.done, f.done + VisitNext(t, f).length);
            written <= |bytes|
            && s' == s.(files := WriteFile(s.files, f.file, VisitNext(t, f).at, bytes[..written]),
                        diskUp := false, flushing := None)
       case _ => false
  }

  /** The manager takes up a `PieceFinish` message for a piece some block completed. */
  ghost predicate FinishNext(s: State, k: nat, s': State) {
    && s.flushing.None? && k in s.verified && k < |s.tm.local| && k < |s.tm.freq|
    && if s.tm.local[k] then s' == s
       else s' == s.(tm := TM.FinishStart(s.tm, k),
                     flushing := if k in s.tm.active && s.diskUp then Some(Flush(k, 0, 0)) else None)
  }

  /** Any other message to the manager; a piece it makes a handle for gets an empty piece manager. */
  ghost predicate ManageNext(t: Torrent, s: State, m: TR.Msg, s': State)
    requires t.Described()
  {
    && s.flushing.None? && !m.PieceFinishMsg?
    && TR.Next(t.Config(), s.tm, m, s'.tm)
    && s' == s.(tm := s'.tm, pieces := s'.pieces)
    && s'.pieces == if m.RequestWorkMsg? && m.pick.Some? && m.pick.value !in s.tm.active
                    then s.pieces[m.pick.value := PM.NewPiece(t.LengthOf(m.pick.value))]
                    else s.pieces
  }

  ghost predicate Next(t: Torrent, s: State, e: Step, s': State)
    requires t.WellFormed()
  {
    match e
    case Manage(m) => ManageNext(t, s, m, s')
    case RequestBlocks(k, count, now) =>
      k in s.pieces && s' == s.(pieces := s.pieces[k := PM.RequestBlocks(s.pieces[k], count, now)])
    case Timer(k, now) =>
      k in s.pieces && s' == s.(pieces := s.pieces[k := PM.Tick(s.pieces[k], now, t.blockTimeout)])
    case Deliver(k, offset, bytes) =>
      && k in s.pieces && k < t.Config().Pieces() && s.pieces[k].Consistent()
      && var (q, reply) := PM.Receive(s.pieces[k], offset, bytes, t.sha1, t.info.PieceHash(k));
         s' == s.(pieces := s.pieces[k := q], verified := if reply then s.verified + {k} else s.verified)
    case FinishBegin(k) => FinishNext(s, k, s')
    case Read(start, length) =>
      s.flushing.None? && s.diskUp && |s.files| == |t.info.Sizes()|
      && s' == s.(diskUp := ReadRange(t.info.Sizes(), s.files, start, length).Some?)
    case _ => s.flushing.Some? && FlushNext(t, s, s.flushing.value, e, s')
  }

  /** The start: whatever was in the files already is still there. The disk manager may have failed to come up. */
  ghost predicate Initial(t: Torrent, s: State)
    requires t.WellFormed()
  {
    |s.files| == |t.info.Sizes()| && s == State(TM.Init(t.Config()), map[], {}, s.files, s.diskUp, None)
  }

  ghost predicate IsRun(t: Torrent, states: seq<State>, steps: seq<Step>) {
    && t.Described() && t.WellFormed() && |states| == |steps| + 1
    && Initial(t, states[0])
    && forall i :: 0 <= i < |steps| ==> Next(t, states[i], steps[i], states[i + 1])
  }

  // ---------------------------------------------------------------- what holds in every run, whatever is delivered

  ghost predicate Flushing(s: State, k: nat) {
    s.flushing.Some? && s.flushing.value.index == k
  }

  ghost predicate PiecesShaped(t: Torrent, s: State)
    requires t.Described()
  {
    && (forall k :: k in s.pieces ==>
          k < t.Config().Pieces() && s.pieces[k].Consistent() && |s.pieces[k].data| == t.LengthOf(k)
          && (k in s.tm.active || TM.Has(s.tm.local, k)))
    && (forall k :: k in s.tm.active ==> k in s.pieces)
    && (forall k :: k in s.verified ==> k in s.pieces)
  }

  ghost predicate FlushShaped(t: Torrent, s: State)
    requires t.Described()
  {
    s.flushing.Some? ==>
      var f := s.flushing.value;
      var start := t.StartOf(f.index);
      && f.index in s.verified && TM.Has(s.tm.local, f.index) && f.index !in s.tm.log
      && f.file <= |t.info.Sizes()|
      && f.done == DoneAt(Offset(t.info.Sizes(), f.file), start, start + t.LengthOf(f.index))
  }

  ghost predicate Shaped(t: Torrent, s: State) {
    && t.Described() && t.WellFormed() && |s.files| == |t.info.Sizes()|
    && TM.Inv(t.Config(), s.tm) && PiecesShaped(t, s) && FlushShaped(t, s)
  }

  lemma OnePieceShaped(t: Torrent, s: State, k: nat, q: PM.Piece, s': State)
    requires Shaped(t, s) && k in s.pieces && q.Consistent() && |q.data| == |s.pieces[k].data|
    requires s.verified <= s'.verified <= s.verified + {k}
    requires s' == s.(pieces := s.pieces[k := q], verified := s'.verified)
    ensures Shaped(t, s')
  {
    hide TM.Inv, PM.Piece.Consistent, Torrent.WellFormed;
  }

  lemma DeliverShaped(t: Torrent, s: State, e: Step, s': State)
    requires Shaped(t, s) && e.Deliver? && Next(t, s, e, s')
    ensures Shaped(t, s')
  {
    hide TM.Inv, FlushShaped, PM.ResetPiece;
    PM.ReceiveConsistent(s.pieces[e.index], e.offset, e.bytes, t.sha1, t.info.PieceHash(e.index));
    hide PM.Piece.Consistent;
    var q := PM.Receive(s.pieces[e.index], e.offset, e.bytes, t.sha1, t.info.PieceHash(e.index)).0;
    PM.ReceiveKeepsLength(s.pieces[e.index], e.offset, e.bytes, t.sha1, t.info.PieceHash(e.index));
    OnePieceShaped(t, s, e.index, q, s');
  }

  lemma BlockStepShaped(t: Torrent, s: State, e: Step, s': State)
    requires Shaped(t, s) && (e.RequestBlocks? || e.Timer?) && Next(t, s, e, s')
    ensures Shaped(t, s')
  {
    hide TM.Inv, FlushShaped, PM.Granted, PM.Expired;
    match e
    case RequestBlocks(k, count, now) =>
      PM.LeaseConsistent(s.pieces[k], count, now);
      OnePieceShaped(t, s, k, PM.RequestBlocks(s.pieces[k], count, now), s');
    case Timer(k, now) =>
      PM.TickConsistent(s.pieces[k], now, t.blockTimeout);
      OnePieceShaped(t, s, k, PM.Tick(s.pieces[k], now, t.blockTimeout), s');
  }

  lemma SamePieces(t: Torrent, s: State, s': State)
    requires t.Described() && PiecesShaped(t, s)
    requires s'.pieces == s.pieces && s'.verified == s.verified
    requires (forall j :: j in s'.tm.active <==> j in s.tm.active) && s'.tm.local == s.tm.local
    ensures PiecesShaped(t, s')
  {
    hide PM.Piece.Consistent;
  }

  lemma ManageFrame(c: TM.Config, s: TM.State, m: TR.Msg, s': TM.State)
    requires c.pieceLen > 0 && TR.Next(c, s, m, s') && !m.PieceFinishMsg?
    ensures s'.local == s.local && s'.log == s.log
    ensures s'.active.Keys == s.active.Keys + (if m.RequestWorkMsg? && m.pick.Some? then {m.pick.value} else {})
  {
    hide TM.InRange, TM.NothingFor, TM.Rarest, TM.FreqAfter, TM.CountsAfter, TM.Live;
  }

  lemma ManagePick(c: TM.Config, s: TM.State, m: TR.Msg, s': TM.State, k: nat)
    requires TM.Inv(c, s) && TR.Next(c, s, m, s') && TR.Assigns(m, k)
    ensures k < c.Pieces() && !TM.Has(s.local, k)
  {
    hide TM.FreqAfter, TM.CountsAfter, TM.Live;
  }

  /** Giving out piece `k` makes a piece manager for it if it has no live one, and replaces none. */
  lemma GivenPieceShaped(t: Torrent, s: State, k: nat, s': State)
    requires t.Described() && PiecesShaped(t, s) && s'.verified == s.verified && s'.tm.local == s.tm.local
    requires k < t.Config().Pieces() && !TM.Has(s.tm.local, k)
    requires forall j :: j in s'.tm.active <==> j in s.tm.active || j == k
    requires s'.pieces == if k !in s.tm.active then s.pieces[k := PM.NewPiece(t.LengthOf(k))] else s.pieces
    ensures PiecesShaped(t, s')
    ensures k !in s.tm.active ==> k !in s.pieces
  {
    hide PM.Piece.Consistent;
    assert k !in s.tm.active ==> k !in s.pieces;
  }

  /** What a message to the manager leaves alone: the log, ownership, and every piece manager there is. */
  lemma ManageShaped(t: Torrent, s: State, e: Step, s': State)
    requires Shaped(t, s) && e.Manage? && Next(t, s, e, s')
    ensures Shaped(t, s')
    ensures s'.tm.log == s.tm.log && s'.tm.local == s.tm.local
    ensures forall j :: j in s.pieces ==>
      j in s'.pieces && s'.pieces[j] == s.pieces[j] && (j in s'.tm.active ==> j in s.tm.active)
    ensures forall j :: j in s'.pieces && j !in s.pieces ==> s'.pieces[j] == PM.NewPiece(t.LengthOf(j))
  {
    hide TM.Inv, TR.Next, PM.NewPiece, PM.Piece.Consistent, Torrent.WellFormed;
    var m := e.msg;
    TR.NextInv(t.Config(), s.tm, m, s'.tm);
    ManageFrame(t.Config(), s.tm, m, s'.tm);
    assert forall j :: j in s'.tm.active <==> j in s'.tm.active.Keys;
    assert forall j :: j in s.tm.active <==> j in s.tm.active.Keys;
    if m.RequestWorkMsg? && m.pick.Some? {
      ManagePick(t.Config(), s.tm, m, s'.tm, m.pick.value);
      GivenPieceShaped(t, s, m.pick.value, s');
    } else {
      SamePieces(t, s, s');
    }
  }

  lemma LoggedOwned(c: TM.Config, s: TM.State, k: nat)
    requires TM.Inv(c, s)
    ensures TM.Has(s.local, k) ==> k < c.Pieces() && AsU32(k) == k && s.local[k] && k !in s.active
    ensures k in s.log ==> TM.Has(s.local, k)
  {
    assert TM.LogSound(c, s);
    assert forall j :: 0 <= j < |s.log| ==> TM.Has(s.local, s.log[j]);
  }

  lemma FinishPieces(t: Torrent, s: State, k: nat, s': State)
    requires t.Described() && PiecesShaped(t, s) && k < |s.tm.local| && k < |s.tm.freq|
    requires s'.tm == TM.FinishStart(s.tm, k) && s'.pieces == s.pieces && s'.verified == s.verified
    ensures PiecesShaped(t, s')
  {
    hide PM.Piece.Consistent, TM.StripAll;
  }

  lemma FinishBeginShaped(t: Torrent, s: State, e: Step, s': State)
    requires Shaped(t, s) && e.FinishBegin? && Next(t, s, e, s')
    ensures Shaped(t, s')
  {
    hide TM.Inv, PiecesShaped, Torrent.WellFormed;
    var k := e.index;
    LoggedOwned(t.Config(), s.tm, k);
    if !s.tm.local[k] {
      PieceIndex(t, s, k);
      TM.FinishStartInv(t.Config(), s.tm, k);
      FinishPieces(t, s, k, s');
    }
  }

  lemma PieceIndex(t: Torrent, s: State, k: nat)
    requires Shaped(t, s) && k in s.verified
    ensures k in s.pieces && k < t.Config().Pieces() && |s.pieces[k].data| == t.LengthOf(k) && s.pieces[k].Consistent()
  {
    hide TM.Inv, PM.Piece.Consistent;
  }

  /** What a turn of the flush loop does, given that the flush is under way properly. */
  lemma VisitTakes(t: Torrent, s: State, s': State)
    requires Shaped(t, s) && Next(t, s, FlushVisit, s')
    ensures t.Described() && s.flushing.Some? && s'.flushing.Some?
    ensures s' == s.(files := s'.files, flushing := s'.flushing)
    ensures var f, f' := s.flushing.value, s'.flushing.value;
      && f.index in s.pieces && |s.pieces[f.index].data| == t.LengthOf(f.index)
      && f.file < |s.files| == |t.info.Sizes()| && f.done <= t.LengthOf(f.index) && !AtEnd(t, f)
      && f' == Flush(f.index, f.file + 1, f'.done)
      && f'.done == DoneAt(Offset(t.info.Sizes(), f.file + 1), t.StartOf(f.index),
                           t.StartOf(f.index) + t.LengthOf(f.index))
      && match VisitNext(t, f)
         case Touch(at, length) =>
           && f'.done == f.done + length
           && s'.files == WriteFile(s.files, f.file, at, PM.Slice(s.pieces[f.index], f.done, f.done + length))
         case _ => f'.done == f.done && s'.files == s.files
  {
    hide TM.Inv, Torrent.WellFormed, PiecesShaped, WriteFile, PM.Slice, PM.Piece.Consistent;
    var f := s.flushing.value;
    PieceIndex(t, s, f.index);
    VisitAdvances(t.info.Sizes(), f.file, t.StartOf(f.index), t.StartOf(f.index) + t.LengthOf(f.index));
  }

  lemma VisitShaped(t: Torrent, s: State, e: Step, s': State)
    requires Shaped(t, s) && e.FlushVisit? && Next(t, s, e, s')
    ensures Shaped(t, s')
  {
    hide Next, TM.Inv, Torrent.WellFormed, PiecesShaped, WriteFile, PM.Slice;
    VisitTakes(t, s, s');
    SamePieces(t, s, s');
  }

  lemma FlushEndShaped(t: Torrent, s: State, e: Step, s': State)
    requires Shaped(t, s) && (e.FlushFail? || e.FlushDone?) && Next(t, s, e, s')
    ensures Shaped(t, s')
  {
    hide TM.Inv, Torrent.WellFormed, PiecesShaped, WriteFile, PM.Slice;
    var f := s.flushing.value;
    SamePieces(t, s, s');
    if e.FlushDone? {
      LoggedOwned(t.Config(), s.tm, f.index);
      TM.FinishEndInv(t.Config(), s.tm, f.index);
    }
  }

  lemma StepShaped(t: Torrent, s: State, e: Step, s': State)
    requires Shaped(t, s) && Next(t, s, e, s')
    ensures Shaped(t, s')
  {
    hide Next, Shaped;
    match e
    case Manage(_) => ManageShaped(t, s, e, s');
    case RequestBlocks(_, _, _) => BlockStepShaped(t, s, e, s');
    case Deliver(_, _, _) => DeliverShaped(t, s, e, s');
    case Timer(_, _) => BlockStepShaped(t, s, e, s');
    case FinishBegin(_) => FinishBeginShaped(t, s, e, s');
    case Read(_, _) => ReadShaped(t, s, e, s');
    case FlushVisit => VisitShaped(t, s, e, s');
    case _ => FlushEndShaped(t, s, e, s');
  }

  lemma ReadShaped(t: Torrent, s: State, e: Step, s': State)
    requires Shaped(t, s) && e.Read? && Next(t, s, e, s')
    ensures Shaped(t, s')
  {
    hide TM.Inv, PiecesShaped, ReadRange, Torrent.WellFormed;
    SamePieces(t, s, s');
  }

  lemma {:induction false} ShapedAlways(t: Torrent, states: seq<State>, steps: seq<Step>, n: nat)
    requires IsRun(t, states, steps) && n <= |steps|
    ensures Shaped(t, states[n])
  {
    if n == 0 {
      TM.InitInv(t.Config());
    } else {
      hide Next, Shaped, Torrent.WellFormed, Initial;
      ShapedAlways(t, states, steps, n - 1);
      StepShaped(t, states[n - 1], steps[n - 1], states[n]);
    }
  }

  // ---------------------------------------------------------------- what a step does to one piece on disk

  /** The stream holds the true bytes in [from, to). */
  ghost predicate TrueBytes(t: Torrent, files: seq<seq<byte>>, from: nat, to: nat)
    requires t.Described()
  {
    && |files| == |t.info.Sizes()| && to <= |t.orig|
    && forall b :: from <= b < to ==> Flat(t.info.Sizes(), files)[b] == t.orig[b]
  }

  /** The true bytes are there, and really on disk. */
  ghost predicate Stored(t: Torrent, files: seq<seq<byte>>, from: nat, to: nat)
    requires t.Described()
  {
    TrueBytes(t, files, from, to) && Backed(t.info.Sizes(), files, from, to)
  }

  /** No byte of [from, to) differs, and no file got shorter. */
  ghost predicate Keeps(t: Torrent, files: seq<seq<byte>>, files': seq<seq<byte>>, from: nat, to: nat)
    requires t.Described()
  {
    && |files| == |files'| == |t.info.Sizes()| && Grown(files, files') && to <= |t.orig|
    && forall b :: from <= b < to ==> Flat(t.info.Sizes(), files')[b] == Flat(t.info.Sizes(), files)[b]
  }

  lemma KeepsTruth(t: Torrent, files: seq<seq<byte>>, files': seq<seq<byte>>, from: nat, to: nat)
    requires t.Described() && Keeps(t, files, files', from, to)
    ensures TrueBytes(t, files', from, to) <==> TrueBytes(t, files, from, to)
    ensures Stored(t, files, from, to) ==> Stored(t, files', from, to)
  {
    if Stored(t, files, from, to) {
      GrownKeepsBacked(t.info.Sizes(), files, files', from, to);
    }
  }

  lemma KeepsAll(t: Torrent, files: seq<seq<byte>>, from: nat, to: nat)
    requires t.Described() && |files| == |t.info.Sizes()| && to <= |t.orig|
    ensures Keeps(t, files, files, from, to)
  {
  }

  /** The end of piece `k` in the stream. */
  ghost function EndOf(t: Torrent, k: nat): (end: nat)
    requires t.Described() && k < t.Config().Pieces()
    ensures end == t.StartOf(k) + t.LengthOf(k) <= |t.orig|
  {
    PieceEnd(|t.orig|, t.info.pieceLength, k);
    t.StartOf(k) + t.LengthOf(k)
  }

  /** A write of the flush of piece `j`: where it lands in the stream, and that it lands nowhere else. */
  lemma FlushWrites(t: Torrent, s: State, bytes: seq<byte>)
    requires Shaped(t, s) && s.flushing.Some?
    requires var f := s.flushing.value;
      f.done <= t.LengthOf(f.index) && !AtEnd(t, f) && VisitNext(t, f).Touch? && |bytes| <= VisitNext(t, f).length
    ensures var f := s.flushing.value;
      var Touch(at, length) := VisitNext(t, f);
      var files' := WriteFile(s.files, f.file, at, bytes);
      && f.index < t.Config().Pieces()
      && t.StartOf(f.index) + f.done + length <= EndOf(t, f.index)
      && Grown(s.files, files')
      && Flat(t.info.Sizes(), files') == Overlay(Flat(t.info.Sizes(), s.files), t.StartOf(f.index) + f.done, bytes)
      && (Backed(t.info.Sizes(), s.files, t.StartOf(f.index), t.StartOf(f.index) + f.done) ==>
            Backed(t.info.Sizes(), files', t.StartOf(f.index), t.StartOf(f.index) + f.done + |bytes|))
  {
    hide TM.Inv, Torrent.WellFormed, PiecesShaped, Overlay, Flat, Backed, Grown;
    var f := s.flushing.value;
    var sizes := t.info.Sizes();
    var start := t.StartOf(f.index);
    LoggedOwned(t.Config(), s.tm, f.index);
    VisitAdvances(sizes, f.file, start, start + t.LengthOf(f.index));
    var Touch(at, length) := VisitNext(t, f);
    WriteRefinesOverlay(sizes, s.files, f.file, at, bytes);
    WriteGrows(s.files, f.file, sizes[f.file], at, bytes);
    if Backed(sizes, s.files, start, start + f.done) {
      WriteBacks(sizes, s.files, f.file, at, bytes, start);
    }
  }

  lemma WriteGrows(files: seq<seq<byte>>, k: nat, size: nat, at: nat, bytes: seq<byte>)
    requires k < |files| && at + |bytes| <= size
    ensures Grown(files, WriteFile(files, k, at, bytes))
  {
    WriteAtView(files[k], size, at, bytes);
  }

  /** A write to piece `j` keeps every byte of every other piece. */
  lemma OtherPieceKept(t: Torrent, files: seq<seq<byte>>, files': seq<seq<byte>>, j: nat, pos: nat, bytes: seq<byte>,
                       k: nat)
    requires t.Described() && j < t.Config().Pieces() && k < t.Config().Pieces() && j != k
    requires |files| == |files'| == |t.info.Sizes()| && Grown(files, files')
    requires t.StartOf(j) <= pos && pos + |bytes| <= EndOf(t, j)
    requires Flat(t.info.Sizes(), files') == Overlay(Flat(t.info.Sizes(), files), pos, bytes)
    ensures Keeps(t, files, files', t.StartOf(k), EndOf(t, k))
  {
    if j < k {
      PiecesDisjoint(|t.orig|, t.info.pieceLength, j, k);
    } else {
      PiecesDisjoint(|t.orig|, t.info.pieceLength, k, j);
    }
  }

  /** Only the flush of piece `k` changes a byte of piece `k` on disk. */
  lemma UntouchedPiece(t: Torrent, s: State, e: Step, s': State, k: nat)
    requires Shaped(t, s) && Next(t, s, e, s') && k < t.Config().Pieces() && !Flushing(s, k)
    ensures Keeps(t, s.files, s'.files, t.StartOf(k), EndOf(t, k))
  {
    KeepsAll(t, s.files, t.StartOf(k), EndOf(t, k));
    if e.FlushVisit? || e.FlushFail? {
      OtherFlushKeeps(t, s, e, s', k);
    } else {
      hide Keeps, Torrent.WellFormed, PM.Receive, TM.FinishEnd, TM.FinishStart, TR.Next, Backed;
      assert s'.files == s.files;
    }
  }

  /** A turn of the flush loop, or its failure, writes at most the bytes it came for, to the file it has come to. */
  lemma FlushStepFiles(t: Torrent, s: State, e: Step, s': State) returns (bytes: seq<byte>)
    requires Shaped(t, s) && (e.FlushVisit? || e.FlushFail?) && Next(t, s, e, s')
    ensures s.flushing.Some? && s.flushing.value.done <= t.LengthOf(s.flushing.value.index)
    ensures !AtEnd(t, s.flushing.value)
    ensures var f := s.flushing.value;
      match VisitNext(t, f)
      case Touch(at, length) => |bytes| <= length && s'.files == WriteFile(s.files, f.file, at, bytes)
      case _ => s'.files == s.files
  {
    hide TM.Inv, Torrent.WellFormed, PiecesShaped, WriteFile;
    var f := s.flushing.value;
    bytes := [];
    if VisitNext(t, f).Touch? {
      bytes := PM.Slice(s.pieces[f.index], f.done, f.done + VisitNext(t, f).length);
      if e.FlushFail? {
        bytes := bytes[..e.written];
      }
    }
  }

  lemma OtherFlushKeeps(t: Torrent, s: State, e: Step, s': State, k: nat)
    requires t.Described() && k < t.Config().Pieces() && !Flushing(s, k)
    requires Shaped(t, s) && (e.FlushVisit? || e.FlushFail?) && Next(t, s, e, s')
    ensures Keeps(t, s.files, s'.files, t.StartOf(k), EndOf(t, k))
  {
    hide Next, Keeps, TM.Inv, Torrent.WellFormed, PiecesShaped, Overlay, Flat, Backed, Grown, WriteFile;
    var bytes := FlushStepFiles(t, s, e, s');
    KeepsAll(t, s.files, t.StartOf(k), EndOf(t, k));
    var f := s.flushing.value;
    if VisitNext(t, f).Touch? {
      FlushWrites(t, s, bytes);
      OtherPieceKept(t, s.files, s'.files, f.index, t.StartOf(f.index) + f.done, bytes, k);
    }
  }

  // ---------------------------------------------------------------- a finish, spread over steps

  /** While a flush is under way the manager's state stands still, until the flush ends. */
  lemma FlushHoldsManager(t: Torrent, s: State, e: Step, s': State)
    requires t.WellFormed() && Next(t, s, e, s') && s.flushing.Some?
    ensures e.FlushDone? ==>
      s'.flushing.None? && s'.tm == TM.FinishEnd(s.tm, TM.Handle(s.flushing.value.index,
                                                                 t.LengthOf(s.flushing.value.index)),
                                                 s.flushing.value.index)
    ensures e.FlushFail? ==> s'.flushing.None? && s'.tm == s.tm
    ensures !e.FlushDone? && !e.FlushFail? ==>
      s'.tm == s.tm && s'.flushing.Some? && s'.flushing.value.index == s.flushing.value.index
  {
    hide PM.Receive, PM.RequestBlocks, PM.Tick, ReadRange, WriteFile, TM.FinishEnd, TM.FinishStart, TR.Next;
  }

  /** From the message that takes up a finish on, until its flush ends, the manager has the piece retired. */
  lemma {:induction false} FinishPending(t: Torrent, states: seq<State>, steps: seq<Step>, k: nat, i: nat, j: nat)
    requires IsRun(t, states, steps) && i < j <= |steps| && steps[i] == FinishBegin(k)
    requires !TM.Has(states[i].tm.local, k)
    requires forall m :: i < m <= j ==> states[m].flushing.Some?
    ensures k < |states[i].tm.local| && k < |states[i].tm.freq| && k in states[i].tm.active
    ensures states[j].tm == TM.FinishStart(states[i].tm, k) && Flushing(states[j], k)
    decreases j
  {
    hide TM.FinishStart, Torrent.WellFormed, Initial;
    assert Next(t, states[i], steps[i], states[i + 1]);
    if j == i + 1 {
    } else {
      hide Next;
      FinishPending(t, states, steps, k, i, j - 1);
      FlushHoldsManager(t, states[j - 1], steps[j - 1], states[j]);
    }
  }

  /**
   A finish spread over the steps of a flush is the one message of the manager: once
   the flush ends, the manager's state is that of a finish with the flush's result.
   */
  lemma FinishSpread(t: Torrent, states: seq<State>, steps: seq<Step>, k: nat, i: nat, j: nat)
    requires IsRun(t, states, steps) && i < j < |steps| && steps[i] == FinishBegin(k)
    requires !TM.Has(states[i].tm.local, k)
    requires (forall m :: i < m <= j ==> states[m].flushing.Some?) && states[j + 1].flushing.None?
    ensures steps[j].FlushDone? || steps[j].FlushFail?
    ensures k < |states[i].tm.local| && k < |states[i].tm.freq|
    ensures states[j + 1].tm == TM.Finish(states[i].tm, k, steps[j].FlushDone?)
  {
    hide Next, Shaped, TM.FinishStart, TM.FinishEnd, Torrent.WellFormed, Initial;
    FinishPending(t, states, steps, k, i, j);
    FlushHoldsManager(t, states[j], steps[j], states[j + 1]);
    ShapedAlways(t, states, steps, i);
    LiveHandle(t, states[i], k);
  }

  lemma LiveHandle(t: Torrent, s: State, k: nat)
    requires Shaped(t, s) && k in s.tm.active
    ensures t.Described() && s.tm.active[k] == TM.Handle(k, t.LengthOf(k))
  {
    hide PiecesShaped, TM.Shape, TM.FreqCovers, TM.CountsCover, TM.WorkLive, TM.LogSound;
  }

  /** A finish that starts no flush, for want of a live piece manager or of the disk manager, is one without a flush. */
  lemma FinishUnflushed(t: Torrent, s: State, k: nat, s': State)
    requires t.WellFormed() && Next(t, s, FinishBegin(k), s') && s'.flushing.None?
    ensures k < |s.tm.local| && k < |s.tm.freq| && s'.tm == TM.Finish(s.tm, k, false)
  {
  }
}

/**
 End-to-end safety of the engine: exactly when a piece in the completion log is
 the original on disk, which deliveries are safe, and that whatever is logged
 stays as it is. The theorems are about every run, piece by piece.
 */
module EndToEnd {
  import opened Base
  import opened TorrentMeta
  import opened DiskManager
  import opened Engine
  import PM = PieceManager
  import PR = PieceRuns
  import TM = TorrentManager
  import TR = TorrentRuns

  // ---------------------------------------------------------------- exactly when a logged piece is the original

  /**
   What the flush loop is about to read is right: the bytes in the piece manager's
   buffer are the true ones or, if its actor is gone and will send nothing, the true
   ones are on disk already.
   */
  ghost predicate FindsTruth(t: Torrent, s: State)
    requires t.Described()
  {
    s.flushing.Some? &&
    var f := s.flushing.value;
    var from := t.StartOf(f.index) + f.done;
    && f.index in s.pieces && f.file < |s.files| == |t.info.Sizes()| && f.done <= t.LengthOf(f.index)
    && match VisitNext(t, f)
       case Touch(_, length) =>
         var p := s.pieces[f.index];
         from + length <= |t.orig|
         && (if p.alive then PM.Slice(p, f.done, f.done + length) == t.orig[from..from + length]
             else TrueBytes(t, s.files, from, from + length))
       case _ => true
  }

  /** The two are the same from `start` to `end`. */
  ghost predicate Agree(flat: seq<byte>, orig: seq<byte>, start: nat, end: nat) {
    end <= |flat| == |orig| && forall b :: start <= b < end ==> flat[b] == orig[b]
  }

  lemma OverlayAgrees(flat: seq<byte>, orig: seq<byte>, start: nat, pos: nat, bytes: seq<byte>)
    requires start <= pos && pos + |bytes| <= |flat| == |orig|
    ensures Agree(Overlay(flat, pos, bytes), orig, start, pos + |bytes|) <==>
      Agree(flat, orig, start, pos) && bytes == orig[pos..pos + |bytes|]
  {
    var over := Overlay(flat, pos, bytes);
    assert forall b :: start <= b < pos ==> over[b] == flat[b];
    assert forall i :: 0 <= i < |bytes| ==> over[pos + i] == bytes[i];
  }

  lemma TruthAgrees(t: Torrent, files: seq<seq<byte>>, from: nat, to: nat)
    requires t.Described() && |files| == |t.info.Sizes()|
    ensures TrueBytes(t, files, from, to) <==> Agree(Flat(t.info.Sizes(), files), t.orig, from, to)
  {
  }

  /** One turn of the flush loop: the part of the piece dealt with stays true if and only if the read was right. */
  lemma VisitIff(t: Torrent, s: State, s': State)
    requires Shaped(t, s) && s.flushing.Some? && Next(t, s, FlushVisit, s')
    ensures s.flushing.value.file < |s.files| && Flushing(s', s.flushing.value.index)
    ensures var start := t.StartOf(s.flushing.value.index);
      TrueBytes(t, s'.files, start, start + s'.flushing.value.done) <==>
      TrueBytes(t, s.files, start, start + s.flushing.value.done) && FindsTruth(t, s)
  {
    hide Next, Shaped, Torrent.WellFormed, TrueBytes, Flat, Overlay, Backed, WriteFile, PM.Slice;
    VisitTakes(t, s, s');
    var f := s.flushing.value;
    if VisitNext(t, f).Touch? {
      var length := VisitNext(t, f).length;
      var p := s.pieces[f.index];
      var bytes := PM.Slice(p, f.done, f.done + length);
      SliceRead(p, f.done, length);
      FlushWrites(t, s, bytes);
      TouchIff(t, s.files, s'.files, t.StartOf(f.index), t.StartOf(f.index) + f.done, length,
               if p.alive then Some(bytes) else None);
    }
  }

  /** The next `length` bytes written are `read`, or none at all: the written part is true exactly if that is right. */
  lemma TouchIff(t: Torrent, files: seq<seq<byte>>, files': seq<seq<byte>>, start: nat, pos: nat, length: nat,
                 read: Option<seq<byte>>)
    requires t.Described() && |files| == |files'| == |t.info.Sizes()| && start <= pos && pos + length <= |t.orig|
    requires read.Some? ==> |read.value| == length
    requires Flat(t.info.Sizes(), files')
          == Overlay(Flat(t.info.Sizes(), files), pos, if read.Some? then read.value else [])
    ensures TrueBytes(t, files', start, pos + length) <==>
      && TrueBytes(t, files, start, pos)
      && (if read.Some? then read.value == t.orig[pos..pos + length] else TrueBytes(t, files, pos, pos + length))
  {
    hide TrueBytes, Flat, Overlay;
    var flat := Flat(t.info.Sizes(), files);
    TruthAgrees(t, files, start, pos);
    TruthAgrees(t, files, pos, pos + length);
    TruthAgrees(t, files', start, pos + length);
    if read.Some? {
      OverlayAgrees(flat, t.orig, start, pos, read.value);
    } else {
      OverlayNothing(flat, pos);
    }
  }

  lemma SliceRead(p: PM.Piece, from: nat, n: nat)
    ensures p.alive && from + n <= |p.data| ==> |PM.Slice(p, from, from + n)| == n
    ensures !p.alive ==> PM.Slice(p, from, from + n) == []
    ensures |PM.Slice(p, from, from + n)| <= n
  {
  }

  lemma OverlayNothing(flat: seq<byte>, pos: int)
    ensures Overlay(flat, pos, []) == flat
  {
  }

  /** Every turn of the flush of piece `k` among the first `n` steps found the truth. */
  ghost predicate AllFound(t: Torrent, states: seq<State>, steps: seq<Step>, k: nat, n: nat)
    requires IsRun(t, states, steps) && n <= |steps|
  {
    forall i :: 0 <= i < n ==> Found(t, states[i], steps[i], k)
  }

  ghost predicate Found(t: Torrent, s: State, e: Step, k: nat)
    requires t.Described()
  {
    e.FlushVisit? && Flushing(s, k) ==> FindsTruth(t, s)
  }

  /** What the disk holds of piece `k`, given whether every read of its flush so far was right. */
  ghost predicate Reflects(t: Torrent, s: State, k: nat, found: bool)
    requires t.Described() && k < t.Config().Pieces()
  {
    && (!TM.Has(s.tm.local, k) ==> found)
    && (Flushing(s, k) ==> (TrueBytes(t, s.files, t.StartOf(k), t.StartOf(k) + s.flushing.value.done) <==> found))
    && (k in s.tm.log ==> (TrueBytes(t, s.files, t.StartOf(k), EndOf(t, k)) <==> found))
  }

  /** How a step changes the log, ownership, and which flush is under way, as far as piece `k` is concerned. */
  lemma LedgerStep(t: Torrent, s: State, e: Step, s': State, k: nat)
    requires Shaped(t, s) && Next(t, s, e, s')
    ensures TM.Has(s.tm.local, k) ==> TM.Has(s'.tm.local, k)
    ensures k in s'.tm.log <==> k in s.tm.log || (e.FlushDone? && Flushing(s, k))
    ensures Flushing(s', k) && !Flushing(s, k) ==>
      !TM.Has(s.tm.local, k) && k in s.tm.active && s'.flushing.value == Flush(k, 0, 0) && s'.files == s.files
    ensures Flushing(s, k) && Flushing(s', k) && !e.FlushVisit? ==> s'.flushing == s.flushing && s'.files == s.files
  {
    hide Shaped, TM.Inv, PM.Receive, PM.RequestBlocks, PM.Tick, ReadRange, WriteFile, Torrent.WellFormed;
    if e.Manage? {
      ManageShaped(t, s, e, s');
    } else if e.FlushDone? {
      FlushIndex(t, s);
    } else if e.FinishBegin? && !s.tm.local[e.index] {
      assert s'.tm.local == s.tm.local[e.index := true];
    }
  }

  lemma FlushIndex(t: Torrent, s: State)
    requires Shaped(t, s) && s.flushing.Some?
    ensures t.Described()
    ensures var k := s.flushing.value.index;
      && k < t.Config().Pieces() && AsU32(k) == k && TM.Has(s.tm.local, k) && k !in s.tm.log && k !in s.tm.active
      && k in s.verified && s.flushing.value.done <= t.LengthOf(k)
  {
    hide TM.Inv, PiecesShaped, Torrent.WellFormed;
    LoggedOwned(t.Config(), s.tm, s.flushing.value.index);
  }

  /** At the end of its loop a flush has dealt with the whole piece. */
  lemma FlushAllDone(t: Torrent, s: State)
    requires Shaped(t, s) && s.flushing.Some? && s.flushing.value.done <= t.LengthOf(s.flushing.value.index)
    requires AtEnd(t, s.flushing.value)
    ensures s.flushing.value.done == t.LengthOf(s.flushing.value.index)
  {
    hide TM.Inv, Torrent.WellFormed, PiecesShaped;
    var f := s.flushing.value;
    FlushIndex(t, s);
    var end := EndOf(t, f.index);
    if f.file < |t.info.Sizes()| {
      VisitAdvances(t.info.Sizes(), f.file, t.StartOf(f.index), end);
    }
  }

  lemma ReflectsStep(t: Torrent, s: State, e: Step, s': State, k: nat, found: bool)
    requires t.Described() && k < t.Config().Pieces()
    requires Shaped(t, s) && Next(t, s, e, s') && Reflects(t, s, k, found)
    ensures Reflects(t, s', k, found && Found(t, s, e, k))
  {
    hide Next, Shaped, TrueBytes, FindsTruth, Torrent.WellFormed;
    LedgerStep(t, s, e, s', k);
    if Flushing(s, k) {
      FlushIndex(t, s);
      if e.FlushVisit? {
        VisitIff(t, s, s');
      } else if e.FlushDone? {
        DoneKeepsFiles(t, s, s');
      }
    } else {
      UntouchedPiece(t, s, e, s', k);
      KeepsTruth(t, s.files, s'.files, t.StartOf(k), EndOf(t, k));
      NothingTrue(t, s', k);
    }
  }

  lemma DoneKeepsFiles(t: Torrent, s: State, s': State)
    requires Shaped(t, s) && s.flushing.Some? && Next(t, s, FlushDone, s')
    ensures s'.files == s.files && s'.flushing.None?
    ensures s.flushing.value.done == t.LengthOf(s.flushing.value.index)
  {
    hide Shaped, Torrent.WellFormed;
    FlushAllDone(t, s);
  }

  lemma NothingTrue(t: Torrent, s: State, k: nat)
    requires t.Described() && k < t.Config().Pieces() && |s.files| == |t.info.Sizes()|
    ensures TrueBytes(t, s.files, t.StartOf(k), t.StartOf(k))
  {
    assert t.StartOf(k) <= EndOf(t, k);
  }

  lemma {:induction false} ReflectsAlways(t: Torrent, states: seq<State>, steps: seq<Step>, k: nat, n: nat)
    requires IsRun(t, states, steps) && n <= |steps| && k < t.Config().Pieces()
    ensures Reflects(t, states[n], k, AllFound(t, states, steps, k, n))
  {
    hide Next, Shaped, Found, Torrent.WellFormed, TrueBytes;
    if n == 0 {
    } else {
      ReflectsAlways(t, states, steps, k, n - 1);
      ShapedAlways(t, states, steps, n - 1);
      ReflectsStep(t, states[n - 1], steps[n - 1], states[n], k, AllFound(t, states, steps, k, n - 1));
      assert AllFound(t, states, steps, k, n) <==>
        AllFound(t, states, steps, k, n - 1) && Found(t, states[n - 1], steps[n - 1], k);
    }
  }

  /**
   Exactly when a logged piece is the original. In any run at all, whatever blocks
   arrive, the stream holds the true bytes of a logged piece if and only if every
   turn of its flush found the truth.
   */
  lemma LoggedTrueIff(t: Torrent, states: seq<State>, steps: seq<Step>, k: nat, n: nat)
    requires IsRun(t, states, steps) && n <= |steps| && k in states[n].tm.log
    ensures k < t.Config().Pieces()
    ensures TrueBytes(t, states[n].files, t.StartOf(k), EndOf(t, k)) <==> AllFound(t, states, steps, k, n)
  {
    hide Next, Found, TM.Inv, Torrent.WellFormed, TrueBytes, Initial;
    ShapedAlways(t, states, steps, n);
    LoggedOwned(t.Config(), states[n].tm, k);
    ReflectsAlways(t, states, steps, k, n);
  }

  /**
   Exactly when a complete download is the original: once the bytes counted as
   downloaded reach the torrent's size, the concatenated files are the original if
   and only if every turn of every flush found the truth.
   */
  lemma CompleteDownloadIff(t: Torrent, states: seq<State>, steps: seq<Step>, n: nat)
    requires IsRun(t, states, steps) && n <= |steps| && states[n].tm.downloaded == |t.orig|
    ensures |states[n].files| == |t.info.Sizes()|
    ensures Flat(t.info.Sizes(), states[n].files) == t.orig <==>
      forall k: nat :: k < t.Config().Pieces() ==> AllFound(t, states, steps, k, n)
  {
    var s := states[n];
    ShapedAlways(t, states, steps, n);
    TR.DownloadConserved(t.Config(), s.tm);
    hide Next, Found, AllFound, TM.Inv, Torrent.WellFormed, Initial, IsRun;
    forall k: nat | k < t.Config().Pieces()
      ensures TrueBytes(t, s.files, t.StartOf(k), EndOf(t, k)) <==> AllFound(t, states, steps, k, n)
    {
      LoggedTrueIff(t, states, steps, k, n);
    }
    TruePiecesTrueStream(t, s.files);
  }

  /** The stream is the original if and only if each piece of it is. */
  lemma TruePiecesTrueStream(t: Torrent, files: seq<seq<byte>>)
    requires t.Described() && |files| == |t.info.Sizes()|
    ensures Flat(t.info.Sizes(), files) == t.orig <==>
      forall k: nat :: k < t.Config().Pieces() ==> TrueBytes(t, files, t.StartOf(k), EndOf(t, k))
  {
    hide Flat, TrueBytes;
    var flat := Flat(t.info.Sizes(), files);
    if flat == t.orig {
      forall k: nat | k < t.Config().Pieces() ensures TrueBytes(t, files, t.StartOf(k), EndOf(t, k)) {
        TruthAgrees(t, files, t.StartOf(k), EndOf(t, k));
      }
    }
    if forall k: nat :: k < t.Config().Pieces() ==> TrueBytes(t, files, t.StartOf(k), EndOf(t, k)) {
      forall b: nat | b < |t.orig| ensures flat[b] == t.orig[b] {
        TrueByte(t, files, b);
      }
    }
  }

  lemma TrueByte(t: Torrent, files: seq<seq<byte>>, b: nat)
    requires t.Described() && |files| == |t.info.Sizes()| && b < |t.orig|
    requires forall k: nat :: k < t.Config().Pieces() ==> TrueBytes(t, files, t.StartOf(k), EndOf(t, k))
    ensures Flat(t.info.Sizes(), files)[b] == t.orig[b]
  {
    hide Flat, TrueBytes;
    var k := b / t.info.pieceLength;
    PieceOfByte(|t.orig|, t.info.pieceLength, b, k);
    TruthAgrees(t, files, t.StartOf(k), EndOf(t, k));
  }

  // ---------------------------------------------------------------- which deliveries are safe

  /** The buffer of piece `k` is verified and still to be read: its flush is to come or under way. */
  ghost predicate Exposed(s: State, k: nat) {
    k in s.verified && (k in s.tm.active || Flushing(s, k))
  }

  /** A delivery that leaves the piece manager answering, and its bytes as they are. */
  ghost predicate Harmless(p: PM.Piece, offset: nat, bytes: seq<byte>) {
    && PM.OffsetToIndex(offset) < p.NumBlocks()
    && PM.WriteBlock(p.data, PM.IndexToOffset(PM.OffsetToIndex(offset)), bytes) == p.data
  }

  /** The piece manager answers, and its buffer holds the true piece. */
  ghost predicate Ready(t: Torrent, k: nat, p: PM.Piece)
    requires t.Described() && k < t.Config().Pieces()
  {
    p.Consistent() && p.alive && p.data == t.Chunk(k)
  }

  /** A buffer ready to be flushed is so after a delivery if and only if the delivery is harmless. */
  lemma ReadyKeptIff(t: Torrent, k: nat, p: PM.Piece, offset: nat, bytes: seq<byte>)
    requires t.WellFormed() && k < t.Config().Pieces() && Ready(t, k, p)
    ensures Ready(t, k, PM.Receive(p, offset, bytes, t.sha1, t.info.PieceHash(k)).0) <==> Harmless(p, offset, bytes)
  {
    PM.ReceiveConsistent(p, offset, bytes, t.sha1, t.info.PieceHash(k));
    hide Torrent.WellFormed, Torrent.Chunk, PM.Piece.Consistent, PM.WriteBlock;
  }

  /**
   The step is no danger to piece `k`. Deliveries to other pieces never are. One to
   piece `k` may carry anything, except that the buffer it verifies is the true one,
   which a hash without collisions guarantees, and that it changes nothing while the
   verified buffer is still to be read.
   */
  ghost predicate Safe(t: Torrent, s: State, e: Step, k: nat)
    requires t.WellFormed() && k < t.Config().Pieces()
  {
    e.Deliver? && e.index == k && k in s.pieces && s.pieces[k].Consistent() ==>
      && (Exposed(s, k) ==> Harmless(s.pieces[k], e.offset, e.bytes))
      && var (q, reply) := PM.Receive(s.pieces[k], e.offset, e.bytes, t.sha1, t.info.PieceHash(k));
         (reply && k !in s.verified ==> q.data == t.Chunk(k))
  }

  /** What safe steps keep: the buffer is right until it is flushed, and so is all that was flushed of it. */
  ghost predicate Sound(t: Torrent, s: State, k: nat)
    requires t.Described() && k < t.Config().Pieces()
  {
    && (Exposed(s, k) ==> k in s.pieces && Ready(t, k, s.pieces[k]))
    && (Flushing(s, k) ==> Stored(t, s.files, t.StartOf(k), t.StartOf(k) + s.flushing.value.done))
    && (k in s.tm.log ==> Stored(t, s.files, t.StartOf(k), EndOf(t, k)))
  }

  lemma DeliverReady(t: Torrent, s: State, e: Step, s': State, k: nat)
    requires t.Described() && k < t.Config().Pieces() && Shaped(t, s) && Next(t, s, e, s') && Safe(t, s, e, k)
    requires e.Deliver? && e.index == k
    requires Exposed(s, k) ==> k in s.pieces && Ready(t, k, s.pieces[k])
    ensures Exposed(s', k) ==> k in s'.pieces && Ready(t, k, s'.pieces[k])
  {
    hide TM.Inv, PM.Piece.Consistent, Torrent.Chunk;
    PM.ReceiveConsistent(s.pieces[k], e.offset, e.bytes, t.sha1, t.info.PieceHash(k));
    if Exposed(s, k) {
      ReadyKeptIff(t, k, s.pieces[k], e.offset, e.bytes);
    }
  }

  /** Any other step leaves a verified buffer alone, and exposes none. */
  lemma OtherReady(t: Torrent, s: State, e: Step, s': State, k: nat)
    requires Shaped(t, s) && Next(t, s, e, s') && !(e.Deliver? && e.index == k) && Exposed(s', k)
    ensures Exposed(s, k) && k in s.pieces && k in s'.pieces
    ensures s'.pieces[k].data == s.pieces[k].data && s'.pieces[k].alive == s.pieces[k].alive
  {
    hide TM.Inv, PM.Receive, PM.Piece.Consistent, PM.Granted, PM.Expired, ReadRange, WriteFile, Torrent.WellFormed,
      TR.Next, PM.NewPiece;
    if e.Manage? {
      ManageShaped(t, s, e, s');
    }
  }

  lemma StepReady(t: Torrent, s: State, e: Step, s': State, k: nat)
    requires t.Described() && k < t.Config().Pieces() && Shaped(t, s) && Next(t, s, e, s') && Safe(t, s, e, k)
    requires Exposed(s, k) ==> k in s.pieces && Ready(t, k, s.pieces[k])
    ensures Exposed(s', k) ==> k in s'.pieces && Ready(t, k, s'.pieces[k])
  {
    if e.Deliver? && e.index == k {
      DeliverReady(t, s, e, s', k);
    } else if Exposed(s', k) {
      hide Next, Shaped, PM.Piece.Consistent;
      OtherReady(t, s, e, s', k);
      StepShaped(t, s, e, s');
      PieceIndex(t, s', k);
    }
  }

  /** A ready buffer is what the flush should find. */
  lemma ReadyFound(t: Torrent, s: State)
    requires Shaped(t, s) && s.flushing.Some? && s.flushing.value.file < |s.files|
    requires s.flushing.value.index < t.Config().Pieces()
    requires s.flushing.value.done <= t.LengthOf(s.flushing.value.index)
    requires s.flushing.value.index in s.pieces && Ready(t, s.flushing.value.index, s.pieces[s.flushing.value.index])
    ensures FindsTruth(t, s)
  {
    hide TM.Inv, Torrent.WellFormed, PiecesShaped, PM.Piece.Consistent, TrueBytes;
    var f := s.flushing.value;
    var start := t.StartOf(f.index);
    VisitAdvances(t.info.Sizes(), f.file, start, start + t.LengthOf(f.index));
    match VisitNext(t, f)
    case Touch(_, length) => SliceOfSlice(t.orig, start, t.LengthOf(f.index), f.done, length);
    case _ =>
  }

  lemma SliceOfSlice(s: seq<byte>, start: nat, length: nat, from: nat, n: nat)
    requires start + length <= |s| && from + n <= length
    ensures s[start..start + length][from..from + n] == s[start + from..start + from + n]
  {
    var a, b := s[start..start + length][from..from + n], s[start + from..start + from + n];
    assert forall i :: 0 <= i < n ==> a[i] == b[i];
  }

  /** A ready buffer extends what is stored of the piece by what the turn writes. */
  lemma VisitStored(t: Torrent, s: State, s': State)
    requires Shaped(t, s) && s.flushing.Some? && Next(t, s, FlushVisit, s')
    requires var k := s.flushing.value.index;
      && k < t.Config().Pieces() && k in s.pieces && Ready(t, k, s.pieces[k])
      && Stored(t, s.files, t.StartOf(k), t.StartOf(k) + s.flushing.value.done)
    ensures s'.flushing.Some?
    ensures Stored(t, s'.files, t.StartOf(s.flushing.value.index),
                   t.StartOf(s.flushing.value.index) + s'.flushing.value.done)
  {
    hide Next, Shaped, Torrent.WellFormed, TrueBytes, FindsTruth, Backed, Overlay, Flat, WriteFile, PM.Slice,
      PM.Piece.Consistent, Torrent.Chunk;
    VisitTakes(t, s, s');
    VisitIff(t, s, s');
    ReadyFound(t, s);
    var f := s.flushing.value;
    if VisitNext(t, f).Touch? {
      var length := VisitNext(t, f).length;
      SliceRead(s.pieces[f.index], f.done, length);
      FlushWrites(t, s, PM.Slice(s.pieces[f.index], f.done, f.done + length));
    }
  }

  lemma StepStored(t: Torrent, s: State, e: Step, s': State, k: nat)
    requires t.Described() && k < t.Config().Pieces() && Shaped(t, s) && Next(t, s, e, s') && Sound(t, s, k)
    ensures Flushing(s', k) ==> Stored(t, s'.files, t.StartOf(k), t.StartOf(k) + s'.flushing.value.done)
    ensures k in s'.tm.log ==> Stored(t, s'.files, t.StartOf(k), EndOf(t, k))
  {
    hide Next, Shaped, Stored, Ready, Torrent.WellFormed;
    LedgerStep(t, s, e, s', k);
    if Flushing(s, k) {
      FlushIndex(t, s);
      if e.FlushVisit? {
        VisitStored(t, s, s');
      } else if e.FlushDone? {
        DoneKeepsFiles(t, s, s');
      }
    } else {
      UntouchedPiece(t, s, e, s', k);
      KeepsTruth(t, s.files, s'.files, t.StartOf(k), EndOf(t, k));
      NothingStored(t, s', k);
    }
  }

  lemma NothingStored(t: Torrent, s: State, k: nat)
    requires t.Described() && k < t.Config().Pieces() && |s.files| == |t.info.Sizes()|
    ensures Stored(t, s.files, t.StartOf(k), t.StartOf(k))
  {
    assert t.StartOf(k) <= EndOf(t, k);
  }

  lemma StepSound(t: Torrent, s: State, e: Step, s': State, k: nat)
    requires t.Described() && k < t.Config().Pieces() && Shaped(t, s) && Next(t, s, e, s')
    requires Safe(t, s, e, k) && Sound(t, s, k)
    ensures Sound(t, s', k)
  {
    hide Next, Shaped, Safe, Stored, Ready, Exposed;
    StepReady(t, s, e, s', k);
    StepStored(t, s, e, s', k);
  }

  /** In any run whose first `n` steps are safe for piece `k`, what is logged of it is stored. */
  lemma {:induction false} SoundAlways(t: Torrent, states: seq<State>, steps: seq<Step>, k: nat, n: nat)
    requires IsRun(t, states, steps) && n <= |steps| && k < t.Config().Pieces()
    requires forall i :: 0 <= i < n ==> Safe(t, states[i], steps[i], k)
    ensures Sound(t, states[n], k)
  {
    hide Next, Shaped, Safe, Stored, Ready, Torrent.WellFormed;
    if n == 0 {
    } else {
      SoundAlways(t, states, steps, k, n - 1);
      ShapedAlways(t, states, steps, n - 1);
      StepSound(t, states[n - 1], steps[n - 1], states[n], k);
    }
  }

  // ---------------------------------------------------------------- honest blocks are safe

  /** A delivery to piece `k`, if it is one, is an aligned block of the right length carrying true bytes. */
  ghost predicate Honest(t: Torrent, e: Step, k: nat)
    requires t.Described() && k < t.Config().Pieces()
  {
    e.Deliver? && e.index == k ==> PR.TrueBlock(t.Chunk(k), PR.Deliver(e.offset, e.bytes))
  }

  /** Every byte of a downloaded block is the true one. */
  ghost predicate TrueSoFar(orig: seq<byte>, p: PM.Piece) {
    && p.Consistent() && |p.data| == |orig|
    && forall i: nat :: i < |orig| && PM.OffsetToIndex(i) < |p.downloaded| && p.downloaded[PM.OffsetToIndex(i)] ==>
         p.data[i] == orig[i]
  }

  /** A true block keeps downloaded bytes true, completes a piece only with true bytes, and never harms a whole one. */
  lemma TrueBlockSafe(orig: seq<byte>, p: PM.Piece, offset: nat, bytes: seq<byte>, sha1: PM.Digest, want: seq<byte>)
    requires TrueSoFar(orig, p) && PR.TrueBlock(orig, PR.Deliver(offset, bytes))
    ensures var (q, reply) := PM.Receive(p, offset, bytes, sha1, want);
      TrueSoFar(orig, q) && (reply ==> q.data == orig)
    ensures p.data == orig ==> Harmless(p, offset, bytes)
  {
    PM.ReceiveConsistent(p, offset, bytes, sha1, want);
    var e := PR.Deliver(offset, bytes);
    var q := PM.Store(p, offset, bytes);
    forall i: nat | i < |orig|
      ensures PM.OffsetToIndex(i) < PM.BlockCount(|orig|)
      ensures q.downloaded[PM.OffsetToIndex(i)] ==> q.data[i] == orig[i]
      ensures p.data == orig ==> q.data[i] == orig[i]
    {
      PM.OffsetIndexInverse(|orig|, PM.OffsetToIndex(offset), i);
      PR.StoreTrueBytes(orig, p, e, i);
    }
    if q.AllDownloaded() {
      assert q.data == orig;
    }
  }

  ghost predicate TruePiece(t: Torrent, s: State, k: nat)
    requires t.Described() && k < t.Config().Pieces()
  {
    k in s.pieces ==> TrueSoFar(t.Chunk(k), s.pieces[k])
  }

  lemma HonestSafe(t: Torrent, s: State, e: Step, k: nat)
    requires t.WellFormed() && k < t.Config().Pieces() && Honest(t, e, k) && TruePiece(t, s, k)
    requires Exposed(s, k) ==> k in s.pieces && Ready(t, k, s.pieces[k])
    ensures Safe(t, s, e, k)
  {
    hide PM.Receive, PR.TrueBlock, TrueSoFar, Harmless, Torrent.Chunk, PM.Piece.Consistent;
    if e.Deliver? && e.index == k && k in s.pieces {
      TrueBlockSafe(t.Chunk(k), s.pieces[k], e.offset, e.bytes, t.sha1, t.info.PieceHash(k));
    }
  }

  /** A step that delivers nothing to piece `k` leaves its bytes and its downloaded blocks alone, or makes it, empty. */
  lemma UndeliveredPiece(t: Torrent, s: State, e: Step, s': State, k: nat)
    requires Shaped(t, s) && Next(t, s, e, s') && !(e.Deliver? && e.index == k) && k in s'.pieces
    ensures k !in s.pieces ==> s'.pieces[k] == PM.NewPiece(t.LengthOf(k))
    ensures k in s.pieces ==> s'.pieces[k].data == s.pieces[k].data && s'.pieces[k].downloaded == s.pieces[k].downloaded
  {
    hide TM.Inv, PM.Receive, PM.Piece.Consistent, PM.Granted, PM.Expired, ReadRange, WriteFile, Torrent.WellFormed,
      TR.Next, PM.NewPiece;
    if e.Manage? {
      ManageShaped(t, s, e, s');
    }
  }

  lemma HonestStep(t: Torrent, s: State, e: Step, s': State, k: nat)
    requires t.Described() && k < t.Config().Pieces() && Shaped(t, s) && Next(t, s, e, s')
    requires Honest(t, e, k) && TruePiece(t, s, k)
    ensures TruePiece(t, s', k)
  {
    StepShaped(t, s, e, s');
    if e.Deliver? && e.index == k {
      hide TM.Inv, PR.TrueBlock, TrueSoFar, Torrent.Chunk, PM.Piece.Consistent;
      TrueBlockSafe(t.Chunk(k), s.pieces[k], e.offset, e.bytes, t.sha1, t.info.PieceHash(k));
    } else if k in s'.pieces {
      hide Next, Torrent.WellFormed, TM.Inv;
      UndeliveredPiece(t, s, e, s', k);
    }
  }

  /**
   When every delivery to piece `k` carries a true block, every step is safe for it,
   whatever the hash function does and whatever is delivered to other pieces.
   */
  lemma {:induction false} HonestRuns(t: Torrent, states: seq<State>, steps: seq<Step>, k: nat, n: nat)
    requires IsRun(t, states, steps) && n <= |steps| && k < t.Config().Pieces()
    requires forall i :: 0 <= i < n ==> Honest(t, steps[i], k)
    ensures TruePiece(t, states[n], k)
    ensures forall i :: 0 <= i < n ==> Safe(t, states[i], steps[i], k)
  {
    hide Next, Shaped, Safe, Honest, Ready, Exposed, Stored, Torrent.WellFormed;
    if n == 0 {
    } else {
      HonestRuns(t, states, steps, k, n - 1);
      ShapedAlways(t, states, steps, n - 1);
      SoundAlways(t, states, steps, k, n - 1);
      HonestSafe(t, states[n - 1], steps[n - 1], k);
      HonestStep(t, states[n - 1], steps[n - 1], states[n], k);
    }
  }

  // ---------------------------------------------------------------- end-to-end theorems

  lemma LoggedStays(t: Torrent, s: State, e: Step, s': State, k: nat)
    requires Shaped(t, s) && Next(t, s, e, s') && k in s.tm.log
    ensures t.Described() && k < t.Config().Pieces() && k in s'.tm.log
    ensures Keeps(t, s.files, s'.files, t.StartOf(k), EndOf(t, k))
  {
    hide Next, TM.Inv, PiecesShaped, Torrent.WellFormed, Keeps;
    LoggedOwned(t.Config(), s.tm, k);
    LedgerStep(t, s, e, s', k);
    UntouchedPiece(t, s, e, s', k);
  }

  /** From the moment a piece is in the log, in any run at all, no step changes a byte of it on disk. */
  lemma {:induction false} LoggedFrozen(t: Torrent, states: seq<State>, steps: seq<Step>, k: nat, i: nat, j: nat)
    requires IsRun(t, states, steps) && i <= j <= |steps| && k in states[i].tm.log
    ensures k < t.Config().Pieces() && k in states[j].tm.log
    ensures Keeps(t, states[i].files, states[j].files, t.StartOf(k), EndOf(t, k))
    decreases j
  {
    hide Next, Shaped, Grown, Torrent.WellFormed, Initial;
    ShapedAlways(t, states, steps, j);
    if i == j {
      LoggedInRange(t, states[i], k);
      KeepsAll(t, states[i].files, t.StartOf(k), EndOf(t, k));
    } else {
      LoggedFrozen(t, states, steps, k, i, j - 1);
      ShapedAlways(t, states, steps, j - 1);
      LoggedStays(t, states[j - 1], steps[j - 1], states[j], k);
      GrownTwice(states[i].files, states[j - 1].files, states[j].files);
    }
  }

  lemma LoggedInRange(t: Torrent, s: State, k: nat)
    requires Shaped(t, s) && k in s.tm.log
    ensures t.Described() && k < t.Config().Pieces() && |s.files| == |t.info.Sizes()|
  {
    hide TM.Inv, PiecesShaped, Torrent.WellFormed;
    LoggedOwned(t.Config(), s.tm, k);
  }

  lemma GrownTwice(a: seq<seq<byte>>, b: seq<seq<byte>>, c: seq<seq<byte>>)
    requires Grown(a, b) && Grown(b, c)
    ensures Grown(a, c)
  {
  }

  /** What a read inside piece `k` returns in state `s`. */
  ghost function ReadPiece(t: Torrent, s: State, k: nat, offset: nat, length: nat): (bytes: Option<seq<byte>>)
    requires t.Described() && |s.files| == |t.info.Sizes()|
  {
    ReadRange(t.info.Sizes(), s.files, t.StartOf(k) + offset, length)
  }

  /**
   No later step changes what a read inside a logged piece returns: in any run at
   all, once such a read succeeds it returns the same bytes for ever.
   */
  lemma ReadsNeverChange(t: Torrent, states: seq<State>, steps: seq<Step>, k: nat, i: nat, j: nat,
                         offset: nat, length: nat)
    requires IsRun(t, states, steps) && i <= j <= |steps|
    requires k in states[i].tm.log && offset + length <= t.LengthOf(k)
    ensures |states[i].files| == |states[j].files| == |t.info.Sizes()|
    ensures ReadPiece(t, states[i], k, offset, length).Some? ==>
      ReadPiece(t, states[j], k, offset, length) == ReadPiece(t, states[i], k, offset, length)
  {
    hide Next, Torrent.WellFormed, Initial;
    LoggedFrozen(t, states, steps, k, i, j);
    if ReadPiece(t, states[i], k, offset, length).Some? {
      KeptReads(t, states[i].files, states[j].files, t.StartOf(k), EndOf(t, k), t.StartOf(k) + offset, length);
    }
  }

  lemma KeptReads(t: Torrent, files: seq<seq<byte>>, files': seq<seq<byte>>, from: nat, to: nat, start: nat,
                  length: nat)
    requires t.Described() && Keeps(t, files, files', from, to) && from <= start && start + length <= to
    requires ReadRange(t.info.Sizes(), files, start, length).Some?
    ensures ReadRange(t.info.Sizes(), files', start, length) == ReadRange(t.info.Sizes(), files, start, length)
  {
    var sizes := t.info.Sizes();
    GrownKeepsBacked(sizes, files, files', start, CutEnd(Sum(sizes), start, length));
    if start < Sum(sizes) {
      var slice, slice' := Flat(sizes, files)[start..start + length], Flat(sizes, files')[start..start + length];
      assert slice == slice';
    }
  }

  lemma StoredReads(t: Torrent, files: seq<seq<byte>>, from: nat, to: nat, start: nat, length: nat)
    requires t.Described() && Stored(t, files, from, to) && from <= start && start + length <= to
    ensures ReadRange(t.info.Sizes(), files, start, length) == Some(t.orig[start..start + length])
  {
    if start < |t.orig| {
      var slice := Flat(t.info.Sizes(), files)[start..start + length];
      assert slice == t.orig[start..start + length];
    } else {
      assert t.orig[start..start + length] == [];
    }
  }

  /**
   End-to-end safety, piece by piece. In any order, from any peers, with duplicates,
   timeouts, wrong blocks, late blocks and failing writes: if the steps up to the
   moment piece `k` was logged were safe for it, then from that moment on, whatever
   is delivered, any sub-range of it reads back through the files as the original.
   */
  lemma LoggedPiecesReadBack(t: Torrent, states: seq<State>, steps: seq<Step>, k: nat, i: nat, j: nat,
                             offset: nat, length: nat)
    requires IsRun(t, states, steps) && i <= j <= |steps| && k < t.Config().Pieces()
    requires forall m :: 0 <= m < i ==> Safe(t, states[m], steps[m], k)
    requires k in states[i].tm.log && offset + length <= t.LengthOf(k)
    ensures |states[j].files| == |t.info.Sizes()|
    ensures ReadPiece(t, states[j], k, offset, length) == Some(t.Chunk(k)[offset..offset + length])
  {
    hide Next, Torrent.WellFormed, Initial, Safe, Ready, Stored, Keeps, ReadRange;
    SoundAlways(t, states, steps, k, i);
    LoggedFrozen(t, states, steps, k, i, j);
    KeepsTruth(t, states[i].files, states[j].files, t.StartOf(k), EndOf(t, k));
    ShapedAlways(t, states, steps, j);
    StoredReads(t, states[j].files, t.StartOf(k), EndOf(t, k), t.StartOf(k) + offset, length);
    SliceOfSlice(t.orig, t.StartOf(k), t.LengthOf(k), offset, length);
  }

  /** When the downloaded bytes reach the torrent's size and all steps were safe for all pieces, the stream is right. */
  lemma CompleteDownload(t: Torrent, states: seq<State>, steps: seq<Step>, n: nat)
    requires IsRun(t, states, steps) && n <= |steps| && states[n].tm.downloaded == |t.orig|
    requires forall k: nat, i :: k < t.Config().Pieces() && 0 <= i < n ==> Safe(t, states[i], steps[i], k)
    ensures |states[n].files| == |t.info.Sizes()| && Flat(t.info.Sizes(), states[n].files) == t.orig
  {
    var s := states[n];
    ShapedAlways(t, states, steps, n);
    TR.DownloadConserved(t.Config(), s.tm);
    hide Next, TM.Inv, Torrent.WellFormed, Initial, Safe, Ready;
    forall k: nat | k < t.Config().Pieces() ensures TrueBytes(t, s.files, t.StartOf(k), EndOf(t, k)) {
      SoundAlways(t, states, steps, k, n);
    }
    TruePiecesTrueStream(t, s.files);
  }

  /**
   True blocks in any order make the original: in any run in which every block
   delivered for piece `k`, up to the moment it was logged, is an aligned true one,
   any sub-range of it reads back as the original from that moment on. Nothing is
   assumed of the hash function, the other pieces, or what is delivered later.
   */
  lemma HonestPieceReadsBack(t: Torrent, states: seq<State>, steps: seq<Step>, k: nat, i: nat, j: nat,
                             offset: nat, length: nat)
    requires IsRun(t, states, steps) && i <= j <= |steps| && k < t.Config().Pieces()
    requires forall m :: 0 <= m < i ==> Honest(t, steps[m], k)
    requires k in states[i].tm.log && offset + length <= t.LengthOf(k)
    ensures |states[j].files| == |t.info.Sizes()|
    ensures ReadPiece(t, states[j], k, offset, length) == Some(t.Chunk(k)[offset..offset + length])
  {
    hide Next, Torrent.WellFormed, Initial, Safe, Honest, ReadPiece, TruePiece;
    HonestRuns(t, states, steps, k, i);
    LoggedPiecesReadBack(t, states, steps, k, i, j, offset, length);
  }

  /** So a download whose blocks are all true is the original once every byte is counted. */
  lemma HonestDownload(t: Torrent, states: seq<State>, steps: seq<Step>, n: nat)
    requires IsRun(t, states, steps) && n <= |steps| && states[n].tm.downloaded == |t.orig|
    requires forall k: nat, m :: k < t.Config().Pieces() && 0 <= m < n ==> Honest(t, steps[m], k)
    ensures |states[n].files| == |t.info.Sizes()| && Flat(t.info.Sizes(), states[n].files) == t.orig
  {
    hide Next, Torrent.WellFormed, Initial, Safe, Honest, TruePiece, Flat;
    forall k: nat, m | k < t.Config().Pieces() && 0 <= m < n ensures Safe(t, states[m], steps[m], k) {
      HonestRuns(t, states, steps, k, n);
    }
    CompleteDownload(t, states, steps, n);
  }
}

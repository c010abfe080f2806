/**
 Why not every delivery is safe: two runs of the source's own steps in which one
 late block leaves a logged piece wrong on disk.
 */
module LateBlock {
  import opened Base
  import opened TorrentMeta
  import opened DiskManager
  import opened Engine
  import PM = PieceManager
  import TM = TorrentManager
  import TR = TorrentRuns

  function Digest20(b: byte): (digest: seq<byte>) {
    [b, b, b, b, b, b, b, b, b, b, b, b, b, b, b, b, b, b, b, b]
  }

  /** A hash that tells the one true byte from everything else. */
  function OneByteHash(d: seq<byte>): (digest: seq<byte>) {
    if d == [7] then Digest20(0) else Digest20(1)
  }

  /** One file of one byte, 7, in one piece. */
  ghost function OneByteTorrent(): (t: Torrent) {
    Torrent(Info("file", 1, Digest20(0), Some(1), None), 1, 30, 4, OneByteHash, [7])
  }

  lemma OneByteWellFormed()
    ensures var t := OneByteTorrent();
      && t.info.Sizes() == [1] && t.WellFormed() && t.Config().Pieces() == 1 && t.LengthOf(0) == 1 && t.StartOf(0) == 0
      && |t.info.piecesHash| == 20 && t.info.PieceHash(0) == Digest20(0)
  {
    var t := OneByteTorrent();
    assert t.info.Sizes() == [1];
    assert PrefixSum([1], 1) == 1;
    assert NumPieces(1, 1) == 1;
    assert t.info.piecesHash[0..20] == Digest20(0);
  }

  /** The piece manager of the one piece: empty, or complete with some byte. */
  ghost function OneBlock(data: seq<byte>, done: bool, alive: bool): (p: PM.Piece) {
    PM.Piece([!done], [false], [done], map[], data, alive)
  }

  lemma OneByteBlocks()
    ensures var t := OneByteTorrent();
      && t.WellFormed() && 0 < t.Config().Pieces() && 20 <= |t.info.piecesHash|
      && PM.NewPiece(1) == OneBlock([0], false, true)
      && OneBlock([0], false, true).Consistent() && OneBlock([7], true, true).Consistent()
      && PM.Receive(OneBlock([0], false, true), 0, [7], t.sha1, t.info.PieceHash(0))
         == (OneBlock([7], true, true), true)
      && PM.Receive(OneBlock([7], true, true), 0, [9], t.sha1, t.info.PieceHash(0))
         == (OneBlock([9], false, true), false)
      && PM.Receive(OneBlock([7], true, true), PM.BLOCK_SIZE, [9], t.sha1, t.info.PieceHash(0))
         == (OneBlock([7], true, false), false)
  {
    OneByteWellFormed();
    assert PM.BlockCount(1) == 1;
    assert PM.NewPiece(1) == OneBlock([0], false, true);
    assert PM.Store(OneBlock([0], false, true), 0, [7]) == OneBlock([7], true, true);
    assert PM.Store(OneBlock([7], true, true), 0, [9]) == OneBlock([9], true, true);
    assert PM.ResetPiece(OneBlock([9], true, true)) == OneBlock([9], false, true);
    assert Digest20(1)[0] != Digest20(0)[0];
  }

  /** A peer registers, announces the piece, and is given it. */
  lemma FirstSteps(t: Torrent, peer: TM.PeerId) returns (s0: State, s1: State, s2: State, s3: State)
    requires t == OneByteTorrent() && t.WellFormed() && t.Config().Pieces() == 1 && t.LengthOf(0) == 1
    requires t.info.Sizes() == [1]
    ensures Initial(t, s0)
    ensures Next(t, s0, Manage(TR.AddPeerMsg(peer, [])), s1)
    ensures Next(t, s1, Manage(TR.AddBitfieldMsg(peer, TR.OnlyPiece(0))), s2)
    ensures Next(t, s2, Manage(TR.RequestWorkMsg(peer, 0, Some(0))), s3)
    ensures s3.pieces == map[0 := PM.NewPiece(1)] && s3.verified == {} && s3.flushing.None? && s3.diskUp
    ensures |s3.tm.local| == |s3.tm.freq| == 1 && !s3.tm.local[0] && 0 in s3.tm.active && s3.files == [[]]
  {
    s0 := State(TM.Init(t.Config()), map[], {}, [[]], true, None);
    s1 := s0.(tm := TM.AddPeer(s0.tm, peer, []));
    s2 := s1.(tm := TM.AddBitfield(s1.tm, peer, TR.OnlyPiece(0)));
    s3 := s2.(tm := TM.Assign(t.Config(), s2.tm, peer, 0, 0), pieces := map[0 := PM.NewPiece(1)]);
    hide TR.OnlyPiece;
    assert TM.Rarest(t.Config(), s2.tm, peer, 0);
  }

  /** The true byte verifies the piece, a late block changes its manager to `q`, and the manager takes up the finish. */
  lemma MiddleSteps(t: Torrent, s3: State, offset: nat, q: PM.Piece) returns (s4: State, s5: State, s6: State)
    requires t == OneByteTorrent() && t.WellFormed() && t.Config().Pieces() == 1 && 20 <= |t.info.piecesHash|
    requires s3.pieces == map[0 := OneBlock([0], false, true)] && s3.verified == {} && s3.flushing.None? && s3.diskUp
    requires |s3.tm.local| == |s3.tm.freq| == 1 && !s3.tm.local[0] && 0 in s3.tm.active
    requires OneBlock([7], true, true).Consistent()
    requires PM.Receive(OneBlock([7], true, true), offset, [9], t.sha1, t.info.PieceHash(0)) == (q, false)
    ensures Next(t, s3, Deliver(0, 0, [7]), s4) && 0 in s4.pieces && s4.pieces[0] == OneBlock([7], true, true)
    ensures Next(t, s4, Deliver(0, offset, [9]), s5)
    ensures Next(t, s5, FinishBegin(0), s6)
    ensures s6.flushing == Some(Flush(0, 0, 0)) && s6.files == s3.files && 0 in s6.pieces && s6.pieces[0] == q
  {
    OneByteBlocks();
    hide PM.Receive, TM.FinishStart, Torrent.WellFormed;
    s4 := s3.(pieces := map[0 := OneBlock([7], true, true)], verified := {0});
    s5 := s4.(pieces := map[0 := q]);
    s6 := s5.(tm := TM.FinishStart(s5.tm, 0), flushing := Some(Flush(0, 0, 0)));
    assert s3.pieces[0 := OneBlock([7], true, true)] == s4.pieces;
    assert s4.pieces[0 := q] == s5.pieces;
    assert s3.verified + {0} == {0};
  }

  /** The flush writes what the piece manager sends, and the piece is logged. */
  lemma LastSteps(t: Torrent, s6: State, bytes: seq<byte>) returns (s7: State, s8: State)
    requires t == OneByteTorrent() && t.WellFormed() && t.LengthOf(0) == 1 && t.StartOf(0) == 0 && t.info.Sizes() == [1]
    requires s6.flushing == Some(Flush(0, 0, 0)) && s6.files == [[]] && 0 in s6.pieces
    requires PM.Slice(s6.pieces[0], 0, 1) == bytes
    ensures Next(t, s6, FlushVisit, s7) && Next(t, s7, FlushDone, s8)
    ensures s8.files == [bytes] && 0 in s8.tm.log
  {
    s7 := s6.(files := [bytes], flushing := Some(Flush(0, 1, 1)));
    s8 := s7.(tm := TM.FinishEnd(s7.tm, TM.Handle(0, 1), 0), flushing := None);
    assert PrefixSum([1], 1) == 1;
    assert VisitNext(t, Flush(0, 0, 0)) == Touch(0, 1);
    assert WriteAt([], 0, bytes) == bytes;
    assert s8.tm.log[|s7.tm.log|] == 0;
  }

  /** Every message to the manager is one the peers' tasks send. */
  ghost predicate AllAsSent(steps: seq<Step>) {
    forall i :: 0 <= i < |steps| && steps[i].Manage? ==> TR.AsSent(steps[i].msg)
  }

  /** A run in which one more block, at `offset`, arrives between verification and the flush. */
  lemma LateRun(peer: TM.PeerId, offset: nat, q: PM.Piece, bytes: seq<byte>)
    returns (states: seq<State>, steps: seq<Step>)
    requires var t := OneByteTorrent();
      && 20 <= |t.info.piecesHash| && OneBlock([7], true, true).Consistent()
      && PM.Receive(OneBlock([7], true, true), offset, [9], t.sha1, t.info.PieceHash(0)) == (q, false)
    requires PM.Slice(q, 0, 1) == bytes
    ensures IsRun(OneByteTorrent(), states, steps) && AllAsSent(steps)
    ensures |steps| == 8 && steps[4] == Deliver(0, offset, [9])
    ensures 0 in states[4].pieces && states[4].pieces[0] == OneBlock([7], true, true)
    ensures 0 in states[8].tm.log && states[8].files == [bytes]
  {
    var t := OneByteTorrent();
    OneByteWellFormed();
    OneByteBlocks();
    hide Next, Torrent.WellFormed, Initial, PM.Receive, PM.NewPiece, PM.Slice, TR.OnlyPiece, OneByteTorrent, OneBlock,
      PM.Piece.Consistent, Info.PieceHash;
    var s0, s1, s2, s3 := FirstSteps(t, peer);
    var s4, s5, s6 := MiddleSteps(t, s3, offset, q);
    var s7, s8 := LastSteps(t, s6, bytes);
    steps := [Manage(TR.AddPeerMsg(peer, [])), Manage(TR.AddBitfieldMsg(peer, TR.OnlyPiece(0))),
              Manage(TR.RequestWorkMsg(peer, 0, Some(0))), Deliver(0, 0, [7]), Deliver(0, offset, [9]), FinishBegin(0),
              FlushVisit, FlushDone];
    states := [s0, s1, s2, s3, s4, s5, s6, s7, s8];
    assert forall i :: 0 <= i < 8 ==> Next(t, states[i], steps[i], states[i + 1]);
  }

  lemma WrongStream(content: seq<byte>)
    requires content == [] || content == [9]
    ensures Flat([1], [content]) != [7]
    ensures content == [] ==> ReadRange([1], [content], 0, 1) == None
  {
    assert FlatPrefix([1], [content], 1)[0] != 7;
    assert PrefixSum([1], 1) == 1;
    if content == [] {
      assert !OnDisk([1], [content], 0);
    }
  }

  /**
   A wrong block that arrives between verification and the flush reaches the disk:
   the piece is logged and its byte is not the original.
   */
  lemma LateWrongBlockIsLogged(peer: TM.PeerId) returns (states: seq<State>, steps: seq<Step>)
    ensures IsRun(OneByteTorrent(), states, steps) && AllAsSent(steps) && 0 in states[|steps|].tm.log
    ensures |states[|steps|].files| == 1 && Flat([1], states[|steps|].files) != [7]
  {
    OneByteBlocks();
    WrongStream([9]);
    states, steps := LateRun(peer, 0, OneBlock([9], false, true), [9]);
  }

  /**
   So does the absence of one: a block past the end of the piece changes no byte of
   it but ends its piece manager, the flush is sent nothing and succeeds, and the
   piece is logged though no byte of it was written.
   */
  lemma LateBlockPastEndIsLogged(peer: TM.PeerId) returns (states: seq<State>, steps: seq<Step>)
    ensures IsRun(OneByteTorrent(), states, steps) && AllAsSent(steps) && 0 in states[|steps|].tm.log
    ensures |states[|steps|].files| == 1 && Flat([1], states[|steps|].files) != [7]
    ensures ReadRange([1], states[|steps|].files, 0, 1) == None
    ensures |steps| == 8 && steps[4].Deliver? && steps[4].index == 0
    ensures 0 in states[4].pieces
    ensures var data := states[4].pieces[0].data;
      PM.WriteBlock(data, PM.IndexToOffset(PM.OffsetToIndex(steps[4].offset)), steps[4].bytes) == data
  {
    OneByteBlocks();
    WrongStream([]);
    states, steps := LateRun(peer, PM.BLOCK_SIZE, OneBlock([7], true, false), []);
  }
}

/**
 One byte stream laid over many files (disk_manager.rs).

 `Flat` is the stream: the files in order, each cut or zero-filled to its
 declared size. Writing a piece file by file is proved to be one write to the
 flat stream, and reading file by file to be one slice of it.
 */
module DiskManager {
  import opened Base
  import opened TorrentMeta

  /** Where file `k` starts in the stream. */
  function Offset(sizes: seq<nat>, k: nat): (at: nat)
    requires k <= |sizes|
  {
    PrefixSum(sizes, k)
  }

  /** A file's bytes as the stream sees them. */
  function View(content: seq<byte>, size: nat): (v: seq<byte>)
    ensures |v| == size
  {
    seq(size, i requires 0 <= i => if i < |content| then content[i] else 0)
  }

  /** The concatenation of the first `k` files. */
  function FlatPrefix(sizes: seq<nat>, files: seq<seq<byte>>, k: nat): (flat: seq<byte>)
    requires |files| == |sizes| && k <= |sizes|
    ensures |flat| == Offset(sizes, k)
  {
    if k == 0 then [] else FlatPrefix(sizes, files, k - 1) + View(files[k - 1], sizes[k - 1])
  }

  function Flat(sizes: seq<nat>, files: seq<seq<byte>>): (flat: seq<byte>)
    requires |files| == |sizes|
    ensures |flat| == Sum(sizes)
  {
    FlatPrefix(sizes, files, |sizes|)
  }

  /** Stream position `b` is a byte some file really has, not just one it declares. */
  ghost predicate OnDisk(sizes: seq<nat>, files: seq<seq<byte>>, b: int)
    requires |files| == |sizes|
  {
    forall k :: 0 <= k < |sizes| && Offset(sizes, k) <= b < Offset(sizes, k) + sizes[k] ==>
      b - Offset(sizes, k) < |files[k]|
  }

  ghost predicate Backed(sizes: seq<nat>, files: seq<seq<byte>>, from: int, to: int)
    requires |files| == |sizes|
  {
    forall b :: from <= b < to ==> OnDisk(sizes, files, b)
  }

  /** No file got shorter. */
  ghost predicate Grown(files: seq<seq<byte>>, files': seq<seq<byte>>) {
    |files| == |files'| && forall k :: 0 <= k < |files| ==> |files[k]| <= |files'[k]|
  }

  /** A write to a file: past the end it zero-fills the gap, and writing nothing changes nothing. */
  function WriteAt(content: seq<byte>, at: nat, bytes: seq<byte>): (content': seq<byte>) {
    if |bytes| == 0 then content
    else
      var padded := if |content| < at then content + seq(at - |content|, i => 0) else content;
      padded[..at] + bytes + (if at + |bytes| < |padded| then padded[at + |bytes|..] else [])
  }

  /** An exact read; reading nothing succeeds anywhere. */
  function ReadAt(content: seq<byte>, at: nat, length: nat): (bytes: seq<byte>)
    requires length == 0 || at + length <= |content|
  {
    if length == 0 then [] else content[at..at + length]
  }

  /** `flat` with `bytes` laid over it from `start`; what falls outside is dropped. */
  function Overlay(flat: seq<byte>, start: int, bytes: seq<byte>): (r: seq<byte>)
    ensures |r| == |flat|
  {
    seq(|flat|, b requires 0 <= b < |flat| => if start <= b < start + |bytes| then bytes[b - start] else flat[b])
  }

  lemma {:induction false} FlatAt(sizes: seq<nat>, files: seq<seq<byte>>, n: nat, k: nat, i: nat)
    requires |files| == |sizes| && k < n <= |sizes| && i < sizes[k]
    ensures Offset(sizes, k) + i < Offset(sizes, n)
    ensures FlatPrefix(sizes, files, n)[Offset(sizes, k) + i] == View(files[k], sizes[k])[i]
  {
    if k == n - 1 {
    } else {
      FlatAt(sizes, files, n - 1, k, i);
    }
  }

  /** The file that holds stream position `b`. */
  lemma {:induction false} Locate(sizes: seq<nat>, n: nat, b: nat) returns (k: nat)
    requires n <= |sizes| && b < Offset(sizes, n)
    ensures k < n && Offset(sizes, k) <= b < Offset(sizes, k) + sizes[k]
  {
    if b < Offset(sizes, n - 1) {
      k := Locate(sizes, n - 1, b);
    } else {
      k := n - 1;
    }
  }

  lemma WriteAtView(content: seq<byte>, size: nat, at: nat, bytes: seq<byte>)
    requires at + |bytes| <= size
    ensures View(WriteAt(content, at, bytes), size) == Overlay(View(content, size), at, bytes)
    ensures |WriteAt(content, at, bytes)| >= |content|
    ensures |bytes| > 0 ==> |WriteAt(content, at, bytes)| >= at + |bytes|
  {
    var l, r := View(WriteAt(content, at, bytes), size), Overlay(View(content, size), at, bytes);
    assert forall i :: 0 <= i < size ==> l[i] == r[i];
  }

  /** A write inside file `k` is a write to the stream at that file's offset, and touches no other byte. */
  lemma WriteRefinesOverlay(sizes: seq<nat>, files: seq<seq<byte>>, k: nat, at: nat, bytes: seq<byte>)
    requires |files| == |sizes| && k < |sizes| && at + |bytes| <= sizes[k]
    ensures Flat(sizes, files[k := WriteAt(files[k], at, bytes)])
         == Overlay(Flat(sizes, files), Offset(sizes, k) + at, bytes)
  {
    var files' := files[k := WriteAt(files[k], at, bytes)];
    var flat, flat' := Flat(sizes, files), Flat(sizes, files');
    var start := Offset(sizes, k) + at;
    WriteAtView(files[k], sizes[k], at, bytes);
    forall b: nat | b < |flat|
      ensures flat'[b] == Overlay(flat, start, bytes)[b]
    {
      var j := Locate(sizes, |sizes|, b);
      FlatAt(sizes, files, |sizes|, j, b - Offset(sizes, j));
      FlatAt(sizes, files', |sizes|, j, b - Offset(sizes, j));
      if j < k {
        PrefixSumMonotone(sizes, j + 1, k);
      } else if j > k {
        PrefixSumMonotone(sizes, k + 1, j);
      }
    }
  }

  lemma GrownKeepsBacked(sizes: seq<nat>, files: seq<seq<byte>>, files': seq<seq<byte>>, from: int, to: int)
    requires |files| == |sizes| && Grown(files, files') && Backed(sizes, files, from, to)
    ensures Backed(sizes, files', from, to)
  {
    forall b | from <= b < to ensures OnDisk(sizes, files', b) {
      assert OnDisk(sizes, files, b);
    }
  }

  /** A write extends the backed range it continues. */
  lemma WriteBacks(sizes: seq<nat>, files: seq<seq<byte>>, k: nat, at: nat, bytes: seq<byte>, from: int)
    requires |files| == |sizes| && k < |sizes| && at + |bytes| <= sizes[k]
    requires Backed(sizes, files, from, Offset(sizes, k) + at)
    ensures var files' := files[k := WriteAt(files[k], at, bytes)];
      Grown(files, files') && Backed(sizes, files', from, Offset(sizes, k) + at + |bytes|)
  {
    var files' := files[k := WriteAt(files[k], at, bytes)];
    WriteAtView(files[k], sizes[k], at, bytes);
    GrownKeepsBacked(sizes, files, files', from, Offset(sizes, k) + at);
    forall b | Offset(sizes, k) + at <= b < Offset(sizes, k) + at + |bytes|
      ensures OnDisk(sizes, files', b)
    {
      forall j | 0 <= j < |sizes| && Offset(sizes, j) <= b < Offset(sizes, j) + sizes[j]
        ensures b - Offset(sizes, j) < |files'[j]|
      {
        OneFilePerByte(sizes, j, k, b);
      }
    }
  }

  lemma OneFilePerByte(sizes: seq<nat>, j: nat, k: nat, b: int)
    requires j < |sizes| && Offset(sizes, j) <= b < Offset(sizes, j) + sizes[j]
    requires k < |sizes| && Offset(sizes, k) <= b < Offset(sizes, k) + sizes[k]
    ensures j == k
  {
    if j < k {
      PrefixSumMonotone(sizes, j + 1, k);
    } else if j > k {
      PrefixSumMonotone(sizes, k + 1, j);
    }
  }

  // ---------------------------------------------------------------- one pass over a file

  /** What the shared loop of flush and read decides about one file. */
  datatype Visit = Skip | Stop | Touch(at: nat, length: nat)

  function VisitFile(fileStart: nat, fileEnd: nat, start: nat, end: nat, pending: nat): (visit: Visit)
    requires fileStart <= fileEnd
  {
    if pending == 0 then Stop
    else if start >= fileEnd then Skip
    else if end <= fileStart then Stop
    else
      var at := if start < fileStart then 0 else start - fileStart;
      var remaining := fileEnd - (fileStart + at);
      Touch(at, if pending > remaining then remaining else pending)
  }

  /** How much of [start, end) lies before stream position `p`. */
  function DoneAt(p: int, start: nat, end: nat): (done: nat)
    requires start <= end
  {
    Clamp(p - start, 0, end - start)
  }

  /**
   The invariant of both loops: before file `k`, exactly the bytes of the range
   that lie before file `k` have been handled.
   */
  lemma VisitAdvances(sizes: seq<nat>, k: nat, start: nat, end: nat)
    requires k < |sizes| && start <= end
    ensures var fileStart, fileEnd := Offset(sizes, k), Offset(sizes, k + 1);
      var done := DoneAt(fileStart, start, end);
      match VisitFile(fileStart, fileEnd, start, end, end - start - done)
      case Skip => DoneAt(fileEnd, start, end) == 0 == done
      case Stop => done == end - start || start == end
      case Touch(at, length) =>
        && start + done == fileStart + at && at + length <= sizes[k]
        && DoneAt(fileEnd, start, end) == done + length
  {
  }

  /** However the loop ends, all of the range that lies in the stream is done. */
  lemma FinishedEarlyOrLate(sizes: seq<nat>, k: nat, start: nat, end: nat)
    requires k <= |sizes| && start <= end
    requires k == |sizes| || DoneAt(Offset(sizes, k), start, end) == end - start
    ensures DoneAt(Sum(sizes), start, end) == DoneAt(Offset(sizes, k), start, end)
  {
    PrefixSumMonotone(sizes, k, |sizes|);
  }

  /** Consecutive overlays of a split buffer are one overlay. */
  lemma OverlayMore(flat: seq<byte>, start: nat, bytes: seq<byte>, done: nat, length: nat)
    requires done + length <= |bytes|
    ensures Overlay(Overlay(flat, start, bytes[..done]), start + done, bytes[done..done + length])
         == Overlay(flat, start, bytes[..done + length])
  {
  }

  /** What falls past the end of the stream does not matter. */
  lemma OverlayCut(flat: seq<byte>, start: nat, bytes: seq<byte>)
    ensures Overlay(flat, start, bytes[..DoneAt(|flat|, start, start + |bytes|)]) == Overlay(flat, start, bytes)
  {
  }

  /** The part of [start, start + length) inside a stream of `total` bytes. */
  function CutEnd(total: nat, start: nat, length: nat): (end: nat)
    ensures start <= end
  {
    start + DoneAt(total, start, start + length)
  }

  /** Reading as a slice of the stream; it fails when the range is not all on disk. */
  ghost function ReadRange(sizes: seq<nat>, files: seq<seq<byte>>, start: nat, length: nat): (bytes: Option<seq<byte>>)
    requires |files| == |sizes|
  {
    var end := CutEnd(Sum(sizes), start, length);
    if !Backed(sizes, files, start, end) then None
    else if start >= Sum(sizes) then Some([])
    else Some(Flat(sizes, files)[start..end])
  }

  lemma FileSlice(sizes: seq<nat>, files: seq<seq<byte>>, k: nat, at: nat, length: nat)
    requires |files| == |sizes| && k < |sizes| && at + length <= sizes[k] && at + length <= |files[k]|
    ensures Offset(sizes, k) + at + length <= Sum(sizes)
    ensures Flat(sizes, files)[Offset(sizes, k) + at..Offset(sizes, k) + at + length] == files[k][at..at + length]
  {
    PrefixSumMonotone(sizes, k + 1, |sizes|);
    var from := Offset(sizes, k) + at;
    var slice := Flat(sizes, files)[from..from + length];
    forall i: nat | i < length ensures slice[i] == files[k][at + i] {
      FlatAt(sizes, files, |sizes|, k, at + i);
    }
  }

  lemma FileBacked(sizes: seq<nat>, files: seq<seq<byte>>, k: nat, at: nat, length: nat)
    requires |files| == |sizes| && k < |sizes| && at + length <= sizes[k]
    ensures Backed(sizes, files, Offset(sizes, k) + at, Offset(sizes, k) + at + length) <==>
      length == 0 || at + length <= |files[k]|
  {
    var from := Offset(sizes, k) + at;
    if length > 0 && at + length > |files[k]| {
      assert !OnDisk(sizes, files, from + length - 1);
    } else {
      forall b | from <= b < from + length ensures OnDisk(sizes, files, b) {
        forall j | 0 <= j < |sizes| && Offset(sizes, j) <= b < Offset(sizes, j) + sizes[j]
          ensures b - Offset(sizes, j) < |files[j]|
        {
          OneFilePerByte(sizes, j, k, b);
        }
      }
    }
  }

  // ---------------------------------------------------------------- progress of the two loops

  /** The first `done` bytes of the piece have been written over `flat` and nothing else changed. */
  ghost predicate Flushed(sizes: seq<nat>, flat: seq<byte>, files: seq<seq<byte>>, start: nat, piece: seq<byte>,
                          done: nat) {
    && |files| == |sizes| && done <= |piece|
    && Flat(sizes, files) == Overlay(flat, start, piece[..done])
    && Backed(sizes, files, start, start + done)
  }

  /** A finished flush: the stream is the old one with the piece laid over it, and the piece is on disk. */
  ghost predicate FlushedWhole(sizes: seq<nat>, flat: seq<byte>, files: seq<seq<byte>>, start: nat, piece: seq<byte>) {
    && |files| == |sizes|
    && Flat(sizes, files) == Overlay(flat, start, piece)
    && Backed(sizes, files, start, CutEnd(Sum(sizes), start, |piece|))
  }

  /** No byte outside [start, end) differs. */
  ghost predicate SameOutside(flat: seq<byte>, flat': seq<byte>, start: int, end: int) {
    |flat| == |flat'| && forall b :: 0 <= b < |flat| && !(start <= b < end) ==> flat'[b] == flat[b]
  }

  lemma FlushFinished(sizes: seq<nat>, flat: seq<byte>, files: seq<seq<byte>>, start: nat, piece: seq<byte>, done: nat)
    requires Flushed(sizes, flat, files, start, piece, done)
    ensures SameOutside(flat, Flat(sizes, files), start, start + |piece|)
    ensures done == DoneAt(|flat|, start, start + |piece|) ==> FlushedWhole(sizes, flat, files, start, piece)
  {
    OverlayCut(flat, start, piece);
  }

  lemma FlushStart(sizes: seq<nat>, files: seq<seq<byte>>, start: nat, piece: seq<byte>)
    requires |files| == |sizes|
    ensures Flushed(sizes, Flat(sizes, files), files, start, piece, 0)
  {
    assert Overlay(Flat(sizes, files), start, piece[..0]) == Flat(sizes, files);
  }

  lemma FlushStep(sizes: seq<nat>, flat: seq<byte>, files: seq<seq<byte>>, start: nat, piece: seq<byte>, done: nat,
                  k: nat, at: nat, length: nat)
    requires Flushed(sizes, flat, files, start, piece, done) && done + length <= |piece|
    requires k < |sizes| && at + length <= sizes[k] && start + done == Offset(sizes, k) + at
    ensures var files' := files[k := WriteAt(files[k], at, piece[done..done + length])];
      Grown(files, files') && Flushed(sizes, flat, files', start, piece, done + length)
  {
    var data := piece[done..done + length];
    WriteRefinesOverlay(sizes, files, k, at, data);
    WriteBacks(sizes, files, k, at, data, start);
    OverlayMore(flat, start, piece, done, length);
  }

  /**
   The flush loop before file `k`: `done` bytes have been written, and as long as
   no write failed they are all the bytes of the piece before this file.
   */
  ghost predicate FlushLoop(sizes: seq<nat>, flat: seq<byte>, before: seq<seq<byte>>, files: seq<seq<byte>>, start: nat,
                           piece: seq<byte>, k: nat, pending: nat, done: nat, ok: bool) {
    && k <= |sizes| && pending <= |piece|
    && Flushed(sizes, flat, files, start, piece, done) && Grown(before, files)
    && (ok ==> |piece| - pending == done == DoneAt(Offset(sizes, k), start, start + |piece|))
  }

  lemma FlushBegin(sizes: seq<nat>, files: seq<seq<byte>>, start: nat, piece: seq<byte>, ok: bool)
    requires |files| == |sizes|
    ensures FlushLoop(sizes, Flat(sizes, files), files, files, start, piece, 0, |piece|, 0, ok)
  {
    FlushStart(sizes, files, start, piece);
  }

  lemma FlushPending(sizes: seq<nat>, flat: seq<byte>, before: seq<seq<byte>>, files: seq<seq<byte>>, start: nat,
                     piece: seq<byte>, k: nat, pending: nat, done: nat)
    requires FlushLoop(sizes, flat, before, files, start, piece, k, pending, done, true)
    ensures pending <= |piece| && done == |piece| - pending
  {
  }

  /** Leaving the loop, early, at the last file, or on a failed write. */
  lemma FlushEnd(sizes: seq<nat>, flat: seq<byte>, before: seq<seq<byte>>, files: seq<seq<byte>>, start: nat,
                 piece: seq<byte>, k: nat, pending: nat, done: nat, ok: bool)
    requires FlushLoop(sizes, flat, before, files, start, piece, k, pending, done, ok)
    requires ok && k < |sizes| ==>
      VisitFile(Offset(sizes, k), Offset(sizes, k + 1), start, start + |piece|, pending).Stop?
    ensures ok ==> FlushedWhole(sizes, flat, files, start, piece)
    ensures ok ==> pending == |piece| - DoneAt(Sum(sizes), start, start + |piece|)
    ensures SameOutside(flat, Flat(sizes, files), start, start + |piece|) && Grown(before, files)
  {
    hide FlushedWhole, SameOutside, Grown, Flushed;
    if ok && k < |sizes| {
      FlushTurn(sizes, flat, before, files, start, piece, k, pending, done, 0, true);
    }
    assert |flat| == Sum(sizes) by { FlushedLength(sizes, flat, files, start, piece, done); }
    FlushFinished(sizes, flat, files, start, piece, done);
  }

  lemma FlushedLength(sizes: seq<nat>, flat: seq<byte>, files: seq<seq<byte>>, start: nat, piece: seq<byte>, done: nat)
    requires Flushed(sizes, flat, files, start, piece, done)
    ensures |files| == |sizes| && |flat| == Sum(sizes)
  {
  }

  /** One turn of the flush loop; a write that fails has put down only the first `written` bytes. */
  lemma FlushTurn(sizes: seq<nat>, flat: seq<byte>, before: seq<seq<byte>>, files: seq<seq<byte>>, start: nat,
                  piece: seq<byte>, k: nat, pending: nat, done: nat, written: nat, ok: bool)
    requires FlushLoop(sizes, flat, before, files, start, piece, k, pending, done, true) && k < |sizes|
    ensures match VisitFile(Offset(sizes, k), Offset(sizes, k + 1), start, start + |piece|, pending)
      case Skip => FlushLoop(sizes, flat, before, files, start, piece, k + 1, pending, done, true)
      case Stop => done == DoneAt(Sum(sizes), start, start + |piece|)
      case Touch(at, length) =>
        && done + length <= |piece|
        && (written <= length && (ok ==> written == length) ==>
              FlushLoop(sizes, flat, before, files[k := WriteAt(files[k], at, piece[done..done + written])], start,
                        piece, k + 1, pending - length, done + written, ok))
  {
    hide Flushed, WriteAt;
    VisitAdvances(sizes, k, start, start + |piece|);
    match VisitFile(Offset(sizes, k), Offset(sizes, k + 1), start, start + |piece|, pending)
    case Skip =>
    case Stop => FinishedEarlyOrLate(sizes, k, start, start + |piece|);
    case Touch(at, length) =>
      if written <= length {
        FlushStep(sizes, flat, files, start, piece, done, k, at, written);
      }
  }

  lemma FlushWrite(sizes: seq<nat>, flat: seq<byte>, before: seq<seq<byte>>, files: seq<seq<byte>>, start: nat,
                   piece: seq<byte>, k: nat, pending: nat, done: nat, written: nat, ok: bool, at: nat, length: nat)
    requires FlushLoop(sizes, flat, before, files, start, piece, k, pending, done, true) && k < |sizes|
    requires VisitFile(Offset(sizes, k), Offset(sizes, k + 1), start, start + |piece|, pending) == Touch(at, length)
    requires written <= length && (ok ==> written == length)
    ensures done + length <= |piece| && length <= pending
    ensures FlushLoop(sizes, flat, before, files[k := WriteAt(files[k], at, piece[done..done + written])], start, piece,
                     k + 1, pending - length, done + written, ok)
  {
    hide FlushLoop, WriteAt;
    FlushTurn(sizes, flat, before, files, start, piece, k, pending, done, written, ok);
  }

  /** The first `done` bytes of the range are on disk and have been read. */
  ghost predicate ReadSoFar(sizes: seq<nat>, files: seq<seq<byte>>, start: nat, done: nat, bytes: seq<byte>) {
    && |files| == |sizes|
    && Backed(sizes, files, start, start + done)
    && if start <= Sum(sizes) then start + done <= Sum(sizes) && bytes == Flat(sizes, files)[start..start + done]
       else bytes == [] && done == 0
  }

  lemma ReadStart(sizes: seq<nat>, files: seq<seq<byte>>, start: nat)
    requires |files| == |sizes|
    ensures ReadSoFar(sizes, files, start, 0, [])
  {
  }

  lemma ReadStep(sizes: seq<nat>, files: seq<seq<byte>>, start: nat, done: nat, bytes: seq<byte>,
                 k: nat, at: nat, length: nat)
    requires ReadSoFar(sizes, files, start, done, bytes)
    requires k < |sizes| && at + length <= sizes[k] && start + done == Offset(sizes, k) + at
    requires length == 0 || at + length <= |files[k]|
    ensures ReadSoFar(sizes, files, start, done + length, bytes + ReadAt(files[k], at, length))
  {
    assert bytes + [] == bytes;
    if length > 0 {
      FileSlice(sizes, files, k, at, length);
      FileBacked(sizes, files, k, at, length);
      var flat := Flat(sizes, files);
      assert flat[start..start + done] + flat[start + done..start + done + length]
          == flat[start..start + done + length];
    }
  }

  lemma ReadFinished(sizes: seq<nat>, files: seq<seq<byte>>, start: nat, length: nat, done: nat, bytes: seq<byte>)
    requires ReadSoFar(sizes, files, start, done, bytes)
    requires done == DoneAt(Sum(sizes), start, start + length)
    ensures ReadRange(sizes, files, start, length) == Some(bytes)
  {
  }

  lemma ReadHole(sizes: seq<nat>, files: seq<seq<byte>>, start: nat, length: nat, k: nat, at: nat, chunk: nat)
    requires |files| == |sizes| && k < |sizes| && at + chunk <= sizes[k]
    requires chunk > 0 && at + chunk > |files[k]|
    requires start <= Offset(sizes, k) + at && Offset(sizes, k) + at + chunk <= start + length
    ensures ReadRange(sizes, files, start, length) == None
  {
    FileBacked(sizes, files, k, at, chunk);
    PrefixSumMonotone(sizes, k + 1, |sizes|);
    RangeNotBacked(sizes, files, start, length, Offset(sizes, k) + at, Offset(sizes, k) + at + chunk);
  }

  /** A hole inside the range means the whole range is not backed. */
  lemma RangeNotBacked(sizes: seq<nat>, files: seq<seq<byte>>, start: nat, length: nat, from: nat, to: nat)
    requires |files| == |sizes| && start <= from <= to <= start + length && to <= Sum(sizes)
    requires !Backed(sizes, files, from, to)
    ensures ReadRange(sizes, files, start, length) == None
  {
  }

  /**
   Reading undoes flushing: any sub-range of a flushed piece reads back as that
   slice of the piece, whatever else was written since, as long as the piece's
   own bytes were left alone.
   */
  lemma ReadUndoesFlush(sizes: seq<nat>, flat: seq<byte>, files: seq<seq<byte>>, start: nat, piece: seq<byte>,
                        files': seq<seq<byte>>, offset: nat, length: nat)
    requires FlushedWhole(sizes, flat, files, start, piece) && start + |piece| <= Sum(sizes)
    requires |files'| == |sizes| && Grown(files, files')
    requires forall b :: start <= b < start + |piece| ==> Flat(sizes, files')[b] == Flat(sizes, files)[b]
    requires offset + length <= |piece|
    ensures ReadRange(sizes, files', start + offset, length) == Some(piece[offset..offset + length])
  {
    GrownKeepsBacked(sizes, files, files', start, start + |piece|);
    var slice := Flat(sizes, files')[start + offset..start + offset + length];
    assert forall i :: 0 <= i < length ==> slice[i] == piece[offset + i];
    assert slice == piece[offset..offset + length];
    if length == 0 {
      assert piece[offset..offset + length] == [];
    }
  }

  /** Byte `i` of a file as the stream sees it: what the file does not have yet reads as zero. */
  function ByteOf(content: seq<byte>, i: nat): (b: byte) {
    if i < |content| then content[i] else 0
  }

  /**
   A flush on the files themselves: byte `i` of file `k`, at stream position `b`, is
   byte `b - start` of the piece if that exists, and otherwise what it was.
   */
  lemma FlushExact(sizes: seq<nat>, before: seq<seq<byte>>, files: seq<seq<byte>>, start: nat, piece: seq<byte>,
                   k: nat, i: nat)
    requires |before| == |sizes| && FlushedWhole(sizes, Flat(sizes, before), files, start, piece)
    requires k < |sizes| && i < sizes[k]
    ensures var b := PrefixSum(sizes, k) + i;
      if start <= b < start + |piece| then i < |files[k]| && files[k][i] == piece[b - start]
      else ByteOf(files[k], i) == ByteOf(before[k], i)
  {
    FlatAt(sizes, before, |sizes|, k, i);
    FlatAt(sizes, files, |sizes|, k, i);
    var b := Offset(sizes, k) + i;
    if start <= b < start + |piece| {
      assert OnDisk(sizes, files, b);
    }
  }

  /** Byte `i` of file `k` lies in the `length` bytes of the stream from `start`. */
  ghost predicate Touched(sizes: seq<nat>, start: nat, length: nat, k: nat, i: nat) {
    k < |sizes| && i < sizes[k] && start <= PrefixSum(sizes, k) + i < start + length
  }

  /** Every byte of a file that a read of the range touches is there. */
  ghost predicate Readable(sizes: seq<nat>, files: seq<seq<byte>>, start: nat, length: nat)
    requires |files| == |sizes|
  {
    forall k: nat, i: nat :: Touched(sizes, start, length, k, i) ==> i < |files[k]|
  }

  lemma ReadableIsBacked(sizes: seq<nat>, files: seq<seq<byte>>, start: nat, length: nat)
    requires |files| == |sizes| && Readable(sizes, files, start, length)
    ensures Backed(sizes, files, start, CutEnd(Sum(sizes), start, length))
  {
    hide PrefixSum;
    forall b | start <= b < CutEnd(Sum(sizes), start, length) ensures OnDisk(sizes, files, b) {
      forall k | 0 <= k < |sizes| && Offset(sizes, k) <= b < Offset(sizes, k) + sizes[k]
        ensures b - Offset(sizes, k) < |files[k]|
      {
        assert Touched(sizes, start, length, k, b - Offset(sizes, k));
      }
    }
  }

  lemma BackedIsReadable(sizes: seq<nat>, files: seq<seq<byte>>, start: nat, length: nat)
    requires |files| == |sizes| && Backed(sizes, files, start, CutEnd(Sum(sizes), start, length))
    ensures Readable(sizes, files, start, length)
  {
    forall k: nat, i: nat | Touched(sizes, start, length, k, i) ensures i < |files[k]| {
      PrefixSumMonotone(sizes, k + 1, |sizes|);
      assert OnDisk(sizes, files, PrefixSum(sizes, k) + i);
    }
  }

  lemma ReadableIffBacked(sizes: seq<nat>, files: seq<seq<byte>>, start: nat, length: nat)
    requires |files| == |sizes|
    ensures Readable(sizes, files, start, length) <==> Backed(sizes, files, start, CutEnd(Sum(sizes), start, length))
  {
    if Readable(sizes, files, start, length) {
      ReadableIsBacked(sizes, files, start, length);
    } else if Backed(sizes, files, start, CutEnd(Sum(sizes), start, length)) {
      BackedIsReadable(sizes, files, start, length);
    }
  }

  /** The bytes of the range, each at its place, as far as the stream goes. */
  ghost predicate ReadOff(sizes: seq<nat>, files: seq<seq<byte>>, start: nat, length: nat, bytes: seq<byte>)
    requires |files| == |sizes|
  {
    && |bytes| == (if start + length <= Sum(sizes) then length
                   else if start <= Sum(sizes) then Sum(sizes) - start else 0)
    && forall k: nat, i: nat :: Touched(sizes, start, length, k, i) ==>
         var b := PrefixSum(sizes, k) + i - start;
         b < |bytes| && i < |files[k]| && bytes[b] == files[k][i]
  }

  /** A read on the files themselves: it succeeds if and only if every byte is there, and gives each at its place. */
  lemma ReadExact(sizes: seq<nat>, files: seq<seq<byte>>, start: nat, length: nat)
    requires |files| == |sizes|
    ensures ReadRange(sizes, files, start, length).Some? <==> Readable(sizes, files, start, length)
    ensures ReadRange(sizes, files, start, length).Some? ==>
      ReadOff(sizes, files, start, length, ReadRange(sizes, files, start, length).value)
  {
    ReadableIffBacked(sizes, files, start, length);
    if ReadRange(sizes, files, start, length).Some? {
      var bytes := ReadRange(sizes, files, start, length).value;
      forall k: nat, i: nat | Touched(sizes, start, length, k, i)
        ensures var b := PrefixSum(sizes, k) + i - start;
          b < |bytes| && i < |files[k]| && bytes[b] == files[k][i]
      {
        PrefixSumMonotone(sizes, k + 1, |sizes|);
        FlatAt(sizes, files, |sizes|, k, i);
      }
    }
  }

  /** What every flush of piece `k` promises, finished or failed: no byte outside the piece differs. */
  ghost predicate WithinPiece(sizes: seq<nat>, pieceLen: nat, files: seq<seq<byte>>, k: nat, files': seq<seq<byte>>)
    requires pieceLen > 0
  {
    && |files| == |files'| == |sizes| && Grown(files, files')
    && SameOutside(Flat(sizes, files), Flat(sizes, files'), k * pieceLen,
                   k * pieceLen + PieceLength(Sum(sizes), pieceLen, k))
  }

  /** `history` holds the files before and after each of a list of flushes of pieces other than `k`. */
  ghost predicate FlushesOfOthers(sizes: seq<nat>, pieceLen: nat, k: nat, history: seq<seq<seq<byte>>>,
                                  flushed: seq<nat>) {
    && pieceLen > 0 && |history| == |flushed| + 1
    && forall i :: 0 <= i < |flushed| ==>
         flushed[i] != k && WithinPiece(sizes, pieceLen, history[i], flushed[i], history[i + 1])
  }

  /** One flush of another piece leaves every byte of piece `k` alone. */
  lemma OtherFlushKeepsPiece(sizes: seq<nat>, pieceLen: nat, k: nat, files: seq<seq<byte>>, j: nat,
                             files': seq<seq<byte>>, b: nat)
    requires pieceLen > 0 && k < NumPieces(Sum(sizes), pieceLen) && j != k
    requires WithinPiece(sizes, pieceLen, files, j, files')
    requires k * pieceLen <= b < k * pieceLen + PieceLength(Sum(sizes), pieceLen, k) && b < Sum(sizes)
    ensures Flat(sizes, files')[b] == Flat(sizes, files)[b]
  {
    PieceOfByte(Sum(sizes), pieceLen, b, k);
    PieceOfByte(Sum(sizes), pieceLen, b, j);
  }

  lemma {:induction false} OtherFlushesKeepPiece(sizes: seq<nat>, pieceLen: nat, k: nat,
                                                 history: seq<seq<seq<byte>>>, flushed: seq<nat>, n: nat)
    requires FlushesOfOthers(sizes, pieceLen, k, history, flushed) && n <= |flushed|
    requires k < NumPieces(Sum(sizes), pieceLen) && |history[0]| == |sizes|
    ensures |history[n]| == |sizes| && Grown(history[0], history[n])
    ensures forall b: nat ::
      k * pieceLen <= b < k * pieceLen + PieceLength(Sum(sizes), pieceLen, k) && b < Sum(sizes) ==>
      Flat(sizes, history[n])[b] == Flat(sizes, history[0])[b]
  {
    if n == 0 {
    } else {
      OtherFlushesKeepPiece(sizes, pieceLen, k, history, flushed, n - 1);
      var files, j, files' := history[n - 1], flushed[n - 1], history[n];
      assert WithinPiece(sizes, pieceLen, files, j, files');
      forall b: nat | k * pieceLen <= b < k * pieceLen + PieceLength(Sum(sizes), pieceLen, k) && b < Sum(sizes)
        ensures Flat(sizes, files')[b] == Flat(sizes, history[0])[b]
      {
        OtherFlushKeepsPiece(sizes, pieceLen, k, files, j, files', b);
      }
    }
  }

  /**
   A flushed piece reads back, any sub-range of it, after any number of flushes of
   other pieces, before it and after it in the stream, finished or failed.
   */
  lemma ReadAfterOtherFlushes(sizes: seq<nat>, pieceLen: nat, k: nat, piece: seq<byte>, flat: seq<byte>,
                              history: seq<seq<seq<byte>>>, flushed: seq<nat>, offset: nat, length: nat)
    requires FlushesOfOthers(sizes, pieceLen, k, history, flushed) && k < NumPieces(Sum(sizes), pieceLen)
    requires |piece| == PieceLength(Sum(sizes), pieceLen, k)
    requires FlushedWhole(sizes, flat, history[0], k * pieceLen, piece)
    requires offset + length <= |piece|
    ensures |history[|flushed|]| == |sizes|
    ensures ReadRange(sizes, history[|flushed|], k * pieceLen + offset, length) == Some(piece[offset..offset + length])
  {
    hide ReadRange, Flat, Backed, Grown;
    PieceEnd(Sum(sizes), pieceLen, k);
    OtherFlushesKeepPiece(sizes, pieceLen, k, history, flushed, |flushed|);
    ReadUndoesFlush(sizes, flat, history[0], k * pieceLen, piece, history[|flushed|], offset, length);
  }

  // ---------------------------------------------------------------- the actor

  class DiskActor {
    const stdPieceLen: nat
    const sizes: seq<nat>
    var offsets: seq<nat>
    var files: seq<seq<byte>>
    /** False once an I/O error has ended the actor's loop; then every request fails. */
    var running: bool

    ghost predicate Valid()
      reads this
    {
      && |files| == |offsets| == |sizes|
      && forall k :: 0 <= k < |sizes| ==> offsets[k] == Offset(sizes, k)
    }

    /** The flat stream the files implement. */
    ghost function Stream(): (flat: seq<byte>)
      requires Valid()
      reads this
    {
      Flat(sizes, files)
    }

    /**
     Opening keeps whatever is already in the files, and lays them out end to end.
     If a file cannot be opened the actor never runs.
     */
    constructor (sizes: seq<nat>, stdPieceLen: nat, existing: seq<seq<byte>>, opens: bool)
      requires |existing| == |sizes|
      ensures Valid() && this.sizes == sizes && this.stdPieceLen == stdPieceLen
      ensures files == existing && running == opens
    {
      var starts: seq<nat> := [];
      var handles: seq<seq<byte>> := [];
      var byteOffset: nat := 0;
      for k := 0 to |sizes|
        invariant |starts| == |handles| == k && byteOffset == Offset(sizes, k)
        invariant forall j :: 0 <= j < k ==> starts[j] == Offset(sizes, j) && handles[j] == existing[j]
      {
        handles := handles + [existing[k]];
        starts := starts + [byteOffset];
        byteOffset := byteOffset + sizes[k];
      }
      assert handles == existing;
      this.sizes := sizes;
      this.stdPieceLen := stdPieceLen;
      offsets := starts;
      files := handles;
      running := opens;
    }

    /**
     `FlushPieceToDisk`. `errors` gives, for a file whose write fails, how many
     bytes reached it first. Without an error the flush is one write of the piece
     to the flat stream, and `pending` is 0 unless the piece reaches past the last
     file. With an error the actor stops, and bytes outside the piece are untouched.
     */
    method FlushPieceToDisk(index: nat, piece: seq<byte>, errors: map<nat, nat>) returns (ok: bool, ghost pending: nat)
      requires Valid()
      modifies this`files, this`running
      ensures Valid()
      ensures ok ==> FlushedWhole(sizes, old(Stream()), files, index * stdPieceLen, piece)
      ensures ok ==> pending == |piece| - DoneAt(Sum(sizes), index * stdPieceLen, index * stdPieceLen + |piece|)
      ensures SameOutside(old(Stream()), Stream(), index * stdPieceLen, index * stdPieceLen + |piece|)
      ensures Grown(old(files), files)
      ensures old(running) && errors == map[] ==> ok
      ensures running == ok && (ok ==> old(running))
    {
      hide FlushLoop, Flushed, FlushedWhole, SameOutside, Grown, WriteAt;
      var start := index * stdPieceLen;
      var end := start + |piece|;
      var bytesPending: nat := end - start;
      ghost var flat, before := Stream(), files;
      ghost var done: nat := 0;
      ok := running;
      FlushBegin(sizes, files, start, piece, ok);
      var k := 0;
      while k < |offsets| && ok
        invariant k <= |offsets| && Valid() && ok == running && (ok ==> old(running))
        invariant FlushLoop(sizes, flat, before, files, start, piece, k, bytesPending, done, ok)
        invariant old(running) && errors == map[] ==> ok
      {
        var fileStart := offsets[k];
        var fileEnd := fileStart + sizes[k];
        FlushPending(sizes, flat, before, files, start, piece, k, bytesPending, done);
        if bytesPending == 0 {
          break;
        }
        if start >= fileEnd {
          FlushTurn(sizes, flat, before, files, start, piece, k, bytesPending, done, 0, true);
          k := k + 1;
          continue;
        }
        if end <= fileStart {
          break;
        }
        var writeOffset := if start < fileStart then 0 else start - fileStart;
        var bytesRemainingInFile := fileEnd - (fileStart + writeOffset);
        var length := if bytesPending > bytesRemainingInFile then bytesRemainingInFile else bytesPending;
        var pieceOffset := |piece| - bytesPending;
        ok := k !in errors;
        var written := if ok then length else Min(errors[k], length);
        FlushWrite(sizes, flat, before, files, start, piece, k, bytesPending, pieceOffset, written, ok, writeOffset,
                   length);
        files := files[k := WriteAt(files[k], writeOffset, piece[pieceOffset..pieceOffset + written])];
        running := ok;
        done := pieceOffset + written;
        bytesPending := bytesPending - length;
        k := k + 1;
      }
      FlushEnd(sizes, flat, before, files, start, piece, k, bytesPending, done, ok);
      pending := bytesPending;
    }

    /** `GetDataWithLength`: a slice of the stream, cut at its end; a missing byte ends the actor. */
    method GetDataWithLength(pieceIndex: nat, offset: nat, length: nat) returns (data: Option<seq<byte>>)
      requires Valid()
      modifies this`running
      ensures Valid()
      ensures data == if old(running) then ReadRange(sizes, files, pieceIndex * stdPieceLen + offset, length) else None
      ensures running == (old(running) && data.Some?)
    {
      hide ReadSoFar, ReadRange;
      var start := pieceIndex * stdPieceLen + offset;
      var end := start + length;
      var bytesPending: nat := end - start;
      var bytes: seq<byte> := [];
      ghost var done: nat := 0;
      ReadStart(sizes, files, start);
      var k := 0;
      while k < |offsets| && running
        invariant 0 <= k <= |offsets|
        invariant bytesPending == length - done
        invariant running ==> done == DoneAt(Offset(sizes, k), start, end)
        invariant running ==> ReadSoFar(sizes, files, start, done, bytes)
        invariant old(running) && !running ==> ReadRange(sizes, files, start, length) == None
        invariant running ==> old(running)
      {
        var fileStart := offsets[k];
        var fileEnd := fileStart + sizes[k];
        VisitAdvances(sizes, k, start, end);
        if bytesPending == 0 {
          break;
        }
        if start >= fileEnd {
          k := k + 1;
          continue;
        }
        if end <= fileStart {
          break;
        }
        var readOffset := if start < fileStart then 0 else start - fileStart;
        var bytesRemainingInFile := fileEnd - (fileStart + readOffset);
        var chunk := if bytesPending > bytesRemainingInFile then bytesRemainingInFile else bytesPending;
        if chunk > 0 && readOffset + chunk > |files[k]| {
          ReadHole(sizes, files, start, length, k, readOffset, chunk);
          running := false;
        } else {
          ReadStep(sizes, files, start, done, bytes, k, readOffset, chunk);
          bytes := bytes + ReadAt(files[k], readOffset, chunk);
          bytesPending := bytesPending - chunk;
          done := done + chunk;
        }
        k := k + 1;
      }
      if running {
        FinishedEarlyOrLate(sizes, k, start, end);
        ReadFinished(sizes, files, start, length, done, bytes);
        data := Some(bytes);
      } else {
        data := None;
      }
    }
  }
}

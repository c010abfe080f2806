/**
 The piece arithmetic of a torrent description (torrent_meta.rs): how many
 pieces there are, how long each one is, and why they tile the byte stream.
 */
module TorrentMeta {
  import opened Base

  datatype FileInfo = FileInfo(length: nat, path: seq<string>)

  /** The `info` dictionary: `length` for a single file, `files` for several. */
  datatype Info = Info(
    name: string,
    pieceLength: nat,
    piecesHash: seq<byte>,
    length: Option<nat>,
    files: Option<seq<FileInfo>>
  ) {
    /** A description with neither key makes the source panic. */
    predicate HasFiles() {
      length.Some? || files.Some?
    }

    function Files(): (files: seq<FileInfo>)
      requires HasFiles()
    {
      if length.Some? then [FileInfo(length.value, [name])] else files.value
    }

    function Sizes(): (sizes: seq<nat>)
      requires HasFiles()
      ensures |sizes| == |Files()|
    {
      seq(|Files()|, i requires 0 <= i < |Files()| => Files()[i].length)
    }

    /** The SHA-1 of piece `index`; slicing past the table makes the source panic. */
    function PieceHash(index: nat): (h: seq<byte>)
      requires 20 * (index + 1) <= |piecesHash|
    {
      piecesHash[index * 20..index * 20 + 20]
    }
  }

  method DownloadSize(info: Info) returns (total: nat)
    requires info.HasFiles()
    ensures total == Sum(info.Sizes())
  {
    total := 0;
    var files := info.Files();
    for i := 0 to |files|
      invariant total == PrefixSum(info.Sizes(), i)
    {
      total := total + files[i].length;
    }
  }

  /** The one file of a single-file torrent, or the listed ones, in order. */
  lemma SizesExact(info: Info)
    requires info.HasFiles()
    ensures info.length.Some? ==> info.Sizes() == [info.length.value]
    ensures info.length.None? ==>
      && |info.Sizes()| == |info.files.value|
      && forall k :: 0 <= k < |info.files.value| ==> info.Sizes()[k] == info.files.value[k].length
  {
  }

  /** The table of piece hashes, one 20-byte digest after the other. */
  function HashTable(digests: seq<seq<byte>>): (table: seq<byte>) {
    if |digests| == 0 then [] else HashTable(digests[..|digests| - 1]) + digests[|digests| - 1]
  }

  /** Looking up hash `k` in a table made of 20-byte digests finds the `k`th of them. */
  lemma {:induction false} HashOfTable(info: Info, digests: seq<seq<byte>>, k: nat)
    requires info.piecesHash == HashTable(digests) && k < |digests|
    requires forall j :: 0 <= j < |digests| ==> |digests[j]| == 20
    ensures |info.piecesHash| == 20 * |digests| && info.PieceHash(k) == digests[k]
    decreases |digests|
  {
    var last := |digests| - 1;
    var front := info.(piecesHash := HashTable(digests[..last]));
    HashTableLength(digests[..last]);
    HashTableLength(digests);
    if k == last {
      assert info.piecesHash[20 * last..20 * last + 20] == digests[last];
    } else {
      HashOfTable(front, digests[..last], k);
      assert info.piecesHash[k * 20..k * 20 + 20] == front.piecesHash[k * 20..k * 20 + 20];
    }
  }

  lemma {:induction false} HashTableLength(digests: seq<seq<byte>>)
    requires forall j :: 0 <= j < |digests| ==> |digests[j]| == 20
    ensures |HashTable(digests)| == 20 * |digests|
  {
    if |digests| == 0 {
    } else {
      HashTableLength(digests[..|digests| - 1]);
    }
  }

  /** The ceiling of total / pieceLen. */
  function NumPieces(total: nat, pieceLen: nat): (n: nat)
    requires pieceLen > 0
  {
    (total + pieceLen - 1) / pieceLen
  }

  function PieceLength(total: nat, pieceLen: nat, index: nat): (length: nat)
    requires pieceLen > 0
  {
    var n := NumPieces(total, pieceLen);
    if index >= n then 0
    else if index == n - 1 then
      var remainder := total % pieceLen;
      if remainder == 0 then pieceLen else remainder
    else pieceLen
  }

  lemma MulMonotone(i: int, j: int, d: nat)
    requires i <= j
    ensures i * d <= j * d
  {
    assert (j - i) * d >= 0;
  }

  /** Division with remainder, and its uniqueness: the two facts tiling rests on. */
  lemma DivUnique(b: int, d: nat, i: int)
    requires d > 0
    ensures b / d * d <= b < b / d * d + d
    ensures i * d <= b < i * d + d ==> i == b / d
  {
    if i < b / d {
      MulMonotone(i + 1, b / d, d);
    } else if i > b / d {
      MulMonotone(b / d + 1, i, d);
    }
  }

  lemma DivAtMost(a: nat, d: nat, n: nat)
    requires d > 0 && a <= n * d
    ensures a / d <= n
  {
    if n < a / d {
      MulMonotone(n + 1, a / d, d);
    }
  }

  /** The last piece is the one that reaches past or up to the end of the stream. */
  lemma PieceCount(total: nat, pieceLen: nat)
    requires pieceLen > 0
    ensures var n := NumPieces(total, pieceLen);
      n * pieceLen >= total && (n > 0 ==> (n - 1) * pieceLen < total)
  {
    DivUnique(total + pieceLen - 1, pieceLen, 0);
    var n := NumPieces(total, pieceLen);
    assert (n - 1) * pieceLen == n * pieceLen - pieceLen;
  }

  /** Piece `i` covers exactly [i*L, min((i+1)*L, total)), and is never empty. */
  lemma PieceEnd(total: nat, pieceLen: nat, i: nat)
    requires pieceLen > 0 && i < NumPieces(total, pieceLen)
    ensures 0 < PieceLength(total, pieceLen, i) <= pieceLen
    ensures i * pieceLen + PieceLength(total, pieceLen, i) == Min((i + 1) * pieceLen, total)
  {
    PieceCount(total, pieceLen);
    var n := NumPieces(total, pieceLen);
    assert (i + 1) * pieceLen == i * pieceLen + pieceLen;
    if i < n - 1 {
      MulMonotone(i + 1, n - 1, pieceLen);
    } else {
      DivUnique(total, pieceLen, i);
      var q := total / pieceLen;
      assert total == q * pieceLen + total % pieceLen;
      DivAtMost(total, pieceLen, n);
      if q < i {
        MulMonotone(q + 1, i, pieceLen);
      }
    }
  }

  /** Different pieces never share a byte. */
  lemma PiecesDisjoint(total: nat, pieceLen: nat, i: nat, j: nat)
    requires pieceLen > 0 && i < j < NumPieces(total, pieceLen)
    ensures i * pieceLen + PieceLength(total, pieceLen, i) <= j * pieceLen
  {
    PieceEnd(total, pieceLen, i);
    MulMonotone(i + 1, j, pieceLen);
  }

  /** Each byte of the stream lies in exactly one piece, piece `b / L`. */
  lemma PieceOfByte(total: nat, pieceLen: nat, b: nat, i: nat)
    requires pieceLen > 0 && b < total
    ensures b / pieceLen < NumPieces(total, pieceLen)
    ensures i < NumPieces(total, pieceLen) ==>
      (i * pieceLen <= b < i * pieceLen + PieceLength(total, pieceLen, i) <==> i == b / pieceLen)
  {
    PieceCount(total, pieceLen);
    DivUnique(b, pieceLen, i);
    var n := NumPieces(total, pieceLen);
    if b / pieceLen >= n {
      MulMonotone(n, b / pieceLen, pieceLen);
      assert false;
    }
    if i < n {
      PieceEnd(total, pieceLen, i);
      assert (i + 1) * pieceLen == i * pieceLen + pieceLen;
    }
  }

  function PieceLengths(total: nat, pieceLen: nat): (lens: seq<nat>)
    requires pieceLen > 0
    ensures |lens| == NumPieces(total, pieceLen)
  {
    seq(NumPieces(total, pieceLen), i requires 0 <= i => PieceLength(total, pieceLen, i))
  }

  lemma {:induction false} PiecePrefix(total: nat, pieceLen: nat, k: nat)
    requires pieceLen > 0 && k <= NumPieces(total, pieceLen)
    ensures PrefixSum(PieceLengths(total, pieceLen), k) == Min(k * pieceLen, total)
  {
    if k == 0 {
    } else {
      PiecePrefix(total, pieceLen, k - 1);
      PieceEnd(total, pieceLen, k - 1);
      PieceCount(total, pieceLen);
      MulMonotone(k - 1, NumPieces(total, pieceLen) - 1, pieceLen);
    }
  }

  /** The pieces partition [0, total): their lengths add up to the torrent. */
  lemma PiecesSumToTotal(total: nat, pieceLen: nat)
    requires pieceLen > 0
    ensures Sum(PieceLengths(total, pieceLen)) == total
  {
    PiecePrefix(total, pieceLen, NumPieces(total, pieceLen));
    PieceCount(total, pieceLen);
  }
}

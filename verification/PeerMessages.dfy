/**
 The peer wire protocol (peer_messages.rs): length-prefixed frames, decoded
 incrementally from a growing buffer, and the encoder for the messages this
 client sends (BEP 3, section "peer messages").
 */
module PeerMessages {
  import opened Base

  datatype PeerMessage =
    | KeepAlive
    | Choke
    | Unchoke
    | Interested
    | NotInterested
    | Have(pieceIndex: nat)
    | Bitfield(bits: seq<bool>)
    | Request(pieceIndex: nat, blockOffset: nat, length: nat)
    | Piece(pieceIndex: nat, blockOffset: nat, data: seq<byte>)
    | Cancel(pieceIndex: nat, blockOffset: nat, length: nat)
    | Port

  // ---------------------------------------------------------------- integers

  /** Big-endian, four bytes, truncating as `as u32` does. */
  function PutU32(x: nat): (s: seq<byte>)
    ensures |s| == 4
  {
    var v := AsU32(x);
    [v / 0x100 / 0x100 / 0x100, v / 0x100 / 0x100 % 0x100, v / 0x100 % 0x100, v % 0x100]
  }

  function GetU32(s: seq<byte>): (x: nat)
    requires |s| == 4
    ensures x < U32
  {
    0x100_0000 * s[0] as int + 0x1_0000 * s[1] as int + 0x100 * s[2] as int + s[3] as int
  }

  lemma GetPutU32(x: nat)
    ensures GetU32(PutU32(x)) == AsU32(x)
  {
  }

  // ---------------------------------------------------------------- bitfields

  function Bit(bits: seq<bool>, i: nat): (v: nat)
    ensures v <= 1
  {
    if i < |bits| && bits[i] then 1 else 0
  }

  /** The `n` bits from `start`, most significant first, as a number. */
  function BitsValue(bits: seq<bool>, start: nat, n: nat): (v: nat) {
    if n == 0 then 0 else 2 * BitsValue(bits, start, n - 1) + Bit(bits, start + n - 1)
  }

  lemma {:induction false} BitsValueBound(bits: seq<bool>, start: nat, n: nat)
    requires n <= 8
    ensures BitsValue(bits, start, n) < [1, 2, 4, 8, 16, 32, 64, 128, 256][n]
  {
    if n == 0 {
    } else {
      BitsValueBound(bits, start, n - 1);
    }
  }

  function ShiftRight(x: nat, n: nat): (v: nat) {
    if n == 0 then x else ShiftRight(x, n - 1) / 2
  }

  /** Byte `k` of the packed bitfield: its high bit is bit 8k, and spare bits are zero. */
  function PackByte(bits: seq<bool>, k: nat): (b: byte) {
    BitsValueBound(bits, 8 * k, 8);
    BitsValue(bits, 8 * k, 8)
  }

  function PackedLength(bits: seq<bool>): (n: nat) {
    (|bits| + 7) / 8
  }

  function Pack(bits: seq<bool>): (bytes: seq<byte>)
    ensures |bytes| == PackedLength(bits)
  {
    seq(PackedLength(bits), k requires 0 <= k => PackByte(bits, k))
  }

  function UnpackBit(x: byte, j: nat): (bit: bool)
    requires j < 8
  {
    ShiftRight(x, 7 - j) % 2 == 1
  }

  function Unpack(bytes: seq<byte>): (bits: seq<bool>)
    ensures |bits| == 8 * |bytes|
  {
    seq(8 * |bytes|, i requires 0 <= i < 8 * |bytes| => UnpackBit(bytes[i / 8], i % 8))
  }

  /** The bits, zero-padded to a whole number of bytes. */
  function Padded(bits: seq<bool>): (padded: seq<bool>) {
    bits + seq(8 * PackedLength(bits) - |bits|, i => false)
  }

  lemma {:induction false} ShiftBitsValue(bits: seq<bool>, start: nat, n: nat, m: nat)
    requires m <= n
    ensures ShiftRight(BitsValue(bits, start, n), m) == BitsValue(bits, start, n - m)
  {
    if m == 0 {
    } else {
      ShiftBitsValue(bits, start, n, m - 1);
    }
  }

  lemma UnpackPackAt(bits: seq<bool>, k: nat, j: nat)
    requires k < PackedLength(bits) && j < 8
    ensures UnpackBit(PackByte(bits, k), j) <==> 8 * k + j < |bits| && bits[8 * k + j]
  {
    ShiftBitsValue(bits, 8 * k, 8, 7 - j);
    BitsValueMore(bits, 8 * k, j);
    hide ShiftRight, BitsValue;
  }

  lemma BitsValueMore(bits: seq<bool>, start: nat, n: nat)
    ensures BitsValue(bits, start, n + 1) == 2 * BitsValue(bits, start, n) + Bit(bits, start + n)
  {
  }

  lemma UnpackPack(bits: seq<bool>)
    ensures Unpack(Pack(bits)) == Padded(bits)
  {
    hide UnpackBit, PackByte;
    forall i: nat | i < 8 * PackedLength(bits)
      ensures Unpack(Pack(bits))[i] == Padded(bits)[i]
    {
      UnpackPackAt(bits, i / 8, i % 8);
    }
  }

  lemma {:induction false} ShiftBound(x: byte, n: nat)
    requires n <= 8
    ensures ShiftRight(x, n) < [256, 128, 64, 32, 16, 8, 4, 2, 1][n]
  {
    if n == 0 {
    } else {
      ShiftBound(x, n - 1);
    }
  }

  lemma {:induction false} BitsOfByte(bits: seq<bool>, start: nat, x: byte, n: nat)
    requires n <= 8 && start + 8 <= |bits|
    requires forall j :: 0 <= j < 8 ==> bits[start + j] == UnpackBit(x, j)
    ensures BitsValue(bits, start, n) == ShiftRight(x, 8 - n)
  {
    if n == 0 {
      ShiftBound(x, 8);
    } else {
      BitsOfByte(bits, start, x, n - 1);
      assert bits[start + (n - 1)] == UnpackBit(x, n - 1);
    }
  }

  lemma PackUnpack(bytes: seq<byte>)
    ensures Pack(Unpack(bytes)) == bytes
  {
    var bits := Unpack(bytes);
    forall k: nat | k < |bytes| ensures PackByte(bits, k) == bytes[k] {
      forall j | 0 <= j < 8 ensures bits[8 * k + j] == UnpackBit(bytes[k], j) {
        assert (8 * k + j) / 8 == k && (8 * k + j) % 8 == j;
      }
      BitsOfByte(bits, 8 * k, bytes[k], 8);
    }
  }

  // ---------------------------------------------------------------- payloads

  /** `PeerMessage::decode`. `None` when the source panics: a payload too short for its message id. */
  function DecodePayload(data: seq<byte>): (m: Option<PeerMessage>) {
    if |data| == 0 then Some(KeepAlive)
    else match data[0]
      case 0 => Some(Choke)
      case 1 => Some(Unchoke)
      case 2 => Some(Interested)
      case 3 => Some(NotInterested)
      case 4 => if |data| < 5 then None else Some(Have(GetU32(data[1..5])))
      case 5 => Some(Bitfield(Unpack(data[1..])))
      case 6 => if |data| < 13 then None
                else Some(Request(GetU32(data[1..5]), GetU32(data[5..9]), GetU32(data[9..13])))
      case 7 => if |data| < 9 then None
                else Some(Piece(GetU32(data[1..5]), GetU32(data[5..9]), data[9..]))
      case 8 => if |data| < 13 then None
                else Some(Cancel(GetU32(data[1..5]), GetU32(data[5..9]), GetU32(data[9..13])))
      case _ => Some(Port)
  }

  /** `PeerCodec::encode`: the variants this client never sends write nothing. */
  function EncodeMessage(m: PeerMessage): (bytes: seq<byte>) {
    match m
    case Interested => PutU32(1) + [2]
    case Request(i, o, l) => PutU32(13) + [6] + PutU32(i) + PutU32(o) + PutU32(l)
    case KeepAlive => PutU32(0)
    case Bitfield(bits) => PutU32(1 + AsU32(|Pack(bits)|)) + [5] + Pack(bits)
    case Have(i) => PutU32(5) + [4] + PutU32(i)
    case _ => []
  }

  /** The length prefix of a bitfield frame must not overflow 32 bits. */
  predicate Encodable(m: PeerMessage) {
    m.Bitfield? ==> 1 + PackedLength(m.bits) < U32
  }

  /** What the other side makes of an encoded message: nothing for an unsent variant. */
  function Wire(m: PeerMessage): (m': Option<PeerMessage>) {
    match m
    case Interested => Some(m)
    case KeepAlive => Some(m)
    case Request(i, o, l) => Some(Request(AsU32(i), AsU32(o), AsU32(l)))
    case Bitfield(bits) => Some(Bitfield(Padded(bits)))
    case Have(i) => Some(Have(AsU32(i)))
    case _ => None
  }

  /** Messages the wire carries unchanged: a sent variant, 32-bit fields, whole bytes of bits. */
  predicate Faithful(m: PeerMessage) {
    match m
    case Interested => true
    case KeepAlive => true
    case Request(i, o, l) => i < U32 && o < U32 && l < U32
    case Bitfield(bits) => |bits| % 8 == 0
    case Have(i) => i < U32
    case _ => false
  }

  // ---------------------------------------------------------------- frames

  datatype Frame = Incomplete | Complete(payload: seq<byte>, rest: seq<byte>)

  function NextFrame(src: seq<byte>): (f: Frame)
    ensures f.Complete? ==> |f.rest| < |src|
  {
    if |src| < 4 then Incomplete
    else
      var len := GetU32(src[0..4]);
      if |src| < 4 + len then Incomplete else Complete(src[4..4 + len], src[4 + len..])
  }

  /** The messages read so far, the bytes still waiting, and whether the reader has panicked. */
  datatype Stream = Stream(msgs: seq<PeerMessage>, rest: seq<byte>, crashed: bool)

  /** Decode until the buffer holds no whole frame. */
  function Drain(src: seq<byte>): (s: Stream)
    decreases |src|
  {
    match NextFrame(src)
    case Incomplete => Stream([], src, false)
    case Complete(payload, rest) =>
      match DecodePayload(payload)
      case None => Stream([], [], true)
      case Some(m) => var s := Drain(rest); Stream([m] + s.msgs, s.rest, s.crashed)
  }

  /** One chunk arrives: append it and drain. */
  function Feed(s: Stream, chunk: seq<byte>): (s': Stream) {
    if s.crashed then s
    else var t := Drain(s.rest + chunk); Stream(s.msgs + t.msgs, t.rest, t.crashed)
  }

  function FeedAll(chunks: seq<seq<byte>>): (s: Stream) {
    if |chunks| == 0 then Stream([], [], false)
    else Feed(FeedAll(chunks[..|chunks| - 1]), chunks[|chunks| - 1])
  }

  function Join(chunks: seq<seq<byte>>): (bytes: seq<byte>) {
    if |chunks| == 0 then [] else Join(chunks[..|chunks| - 1]) + chunks[|chunks| - 1]
  }

  function EncodeAll(msgs: seq<PeerMessage>): (bytes: seq<byte>) {
    if |msgs| == 0 then [] else EncodeMessage(msgs[0]) + EncodeAll(msgs[1..])
  }

  function WireAll(msgs: seq<PeerMessage>): (carried: seq<PeerMessage>) {
    if |msgs| == 0 then []
    else match Wire(msgs[0])
      case None => WireAll(msgs[1..])
      case Some(m) => [m] + WireAll(msgs[1..])
  }

  // ---------------------------------------------------------------- the bytes on the wire

  /** The big-endian number in the four bytes from `at`. */
  function Field(s: seq<byte>, at: nat): (x: nat)
    requires at + 4 <= |s|
  {
    ((s[at] as nat * 256 + s[at + 1]) * 256 + s[at + 2]) * 256 + s[at + 3]
  }

  lemma GetField(s: seq<byte>, at: nat)
    requires at + 4 <= |s|
    ensures GetU32(s[at..at + 4]) == Field(s, at)
  {
  }

  lemma PutField(s: seq<byte>, at: nat, x: nat)
    requires at + 4 <= |s| && s[at..at + 4] == PutU32(x)
    ensures Field(s, at) == x % 0x1_0000_0000
  {
    GetField(s, at);
    GetPutU32(x);
  }

  /** Bit `i` of a byte string: the high bit of the first byte is bit 0. */
  ghost predicate WireBit(bytes: seq<byte>, i: nat)
    requires i < 8 * |bytes|
  {
    bytes[i / 8] / [128, 64, 32, 16, 8, 4, 2, 1][i % 8] % 2 == 1
  }

  lemma ShiftIsDivision(x: nat, n: nat)
    requires n < 8
    ensures ShiftRight(x, n) == x / [1, 2, 4, 8, 16, 32, 64, 128][n]
  {
    if n == 0 {
    } else {
      ShiftIsDivision(x, n - 1);
    }
  }

  lemma UnpackExact(bytes: seq<byte>, i: nat)
    requires i < 8 * |bytes|
    ensures Unpack(bytes)[i] <==> WireBit(bytes, i)
  {
    ShiftIsDivision(bytes[i / 8], 7 - i % 8);
  }

  /** The packed bytes carry the bits in order, and zeros after them. */
  lemma PackExact(bits: seq<bool>, i: nat)
    requires i < 8 * |Pack(bits)|
    ensures |Pack(bits)| == (|bits| + 7) / 8
    ensures WireBit(Pack(bits), i) <==> i < |bits| && bits[i]
  {
    UnpackExact(Pack(bits), i);
    UnpackPack(bits);
  }

  /** What a payload says, on its bytes: one case for each message id. */
  ghost predicate Says(data: seq<byte>, m: PeerMessage)
    requires |data| > 0
  {
    match data[0]
    case 0 => m == Choke
    case 1 => m == Unchoke
    case 2 => m == Interested
    case 3 => m == NotInterested
    case 4 => |data| >= 5 && m == Have(Field(data, 1))
    case 5 =>
      m.Bitfield? && |m.bits| == 8 * |data[1..]|
      && forall i :: 0 <= i < |m.bits| ==> m.bits[i] == WireBit(data[1..], i)
    case 6 => |data| >= 13 && m == Request(Field(data, 1), Field(data, 5), Field(data, 9))
    case 7 => |data| >= 9 && m == Piece(Field(data, 1), Field(data, 5), data[9..])
    case 8 => |data| >= 13 && m == Cancel(Field(data, 1), Field(data, 5), Field(data, 9))
    case _ => m == Port
  }

  /** How many bytes the payload of a message needs, the id included. */
  function Needed(id: byte): (n: nat) {
    match id
    case 4 => 5
    case 6 => 13
    case 7 => 9
    case 8 => 13
    case _ => 1
  }

  /** The decoder reads off a payload what its bytes say, and panics exactly if there are too few for its id. */
  lemma DecodeExact(data: seq<byte>)
    ensures |data| == 0 ==> DecodePayload(data) == Some(KeepAlive)
    ensures |data| > 0 ==> (DecodePayload(data).None? <==> |data| < Needed(data[0]))
    ensures DecodePayload(data).Some? && |data| > 0 ==> Says(data, DecodePayload(data).value)
  {
    hide GetU32, Field;
    if |data| >= 5 {
      GetField(data, 1);
    }
    if |data| >= 9 {
      GetField(data, 5);
    }
    if |data| >= 13 {
      GetField(data, 9);
    }
    if |data| > 0 && data[0] == 5 {
      forall i: nat | i < 8 * |data[1..]| ensures Unpack(data[1..])[i] == WireBit(data[1..], i) {
        UnpackExact(data[1..], i);
      }
    }
  }

  /** A frame is whole when the buffer holds the length its first four bytes announce, and it is cut off there. */
  lemma FrameExact(src: seq<byte>)
    ensures NextFrame(src) ==
      if |src| >= 4 && |src| >= 4 + Field(src, 0) then Complete(src[4..4 + Field(src, 0)], src[4 + Field(src, 0)..])
      else Incomplete
  {
    if |src| >= 4 {
      GetField(src, 0);
    }
  }

  /** What the encoder writes for a message, on its bytes. */
  ghost predicate Writes(m: PeerMessage, s: seq<byte>) {
    match m
    case KeepAlive => s == [0, 0, 0, 0]
    case Interested => s == [0, 0, 0, 1, 2]
    case Have(i) => |s| == 9 && Field(s, 0) == 5 && s[4] == 4 && Field(s, 5) == i % 0x1_0000_0000
    case Bitfield(bits) =>
      && |s| == 5 + (|bits| + 7) / 8 && Field(s, 0) == |s| - 4 && s[4] == 5
      && forall i :: 0 <= i < 8 * |s[5..]| ==> (WireBit(s[5..], i) <==> i < |bits| && bits[i])
    case Request(i, o, l) =>
      && |s| == 17 && Field(s, 0) == 13 && s[4] == 6
      && Field(s, 5) == i % 0x1_0000_0000 && Field(s, 9) == o % 0x1_0000_0000 && Field(s, 13) == l % 0x1_0000_0000
    case _ => s == []
  }

  lemma EncodeExact(m: PeerMessage)
    requires Encodable(m)
    ensures Writes(m, EncodeMessage(m))
  {
    var s := EncodeMessage(m);
    match m
    case Have(i) => HaveExact(i);
    case Bitfield(bits) => BitfieldExact(bits);
    case Request(i, o, l) => RequestExact(i, o, l);
    case _ =>
  }

  lemma HaveExact(i: nat)
    ensures Writes(Have(i), EncodeMessage(Have(i)))
  {
    hide PutU32, Field;
    var s := EncodeMessage(Have(i));
    assert s[0..4] == PutU32(5) && s[5..9] == PutU32(i);
    PutField(s, 0, 5);
    PutField(s, 5, i);
  }

  lemma BitfieldExact(bits: seq<bool>)
    requires 1 + PackedLength(bits) < U32
    ensures Writes(Bitfield(bits), EncodeMessage(Bitfield(bits)))
  {
    hide PutU32, Field, WireBit;
    var s := EncodeMessage(Bitfield(bits));
    var n := |Pack(bits)|;
    assert AsU32(n) == n;
    assert s[0..4] == PutU32(1 + n) && s[5..] == Pack(bits);
    PutField(s, 0, 1 + n);
    forall i: nat | i < 8 * |s[5..]| ensures WireBit(s[5..], i) <==> i < |bits| && bits[i] {
      PackExact(bits, i);
    }
  }

  lemma RequestExact(i: nat, o: nat, l: nat)
    ensures Writes(Request(i, o, l), EncodeMessage(Request(i, o, l)))
  {
    hide PutU32, Field;
    var s := EncodeMessage(Request(i, o, l));
    assert s[0..4] == PutU32(13) && s[5..9] == PutU32(i) && s[9..13] == PutU32(o) && s[13..17] == PutU32(l);
    PutField(s, 0, 13);
    PutField(s, 5, i);
    PutField(s, 9, o);
    PutField(s, 13, l);
  }

  // ---------------------------------------------------------------- theorems

  lemma PiecePayload(payload: seq<byte>, i: nat, o: nat, data: seq<byte>)
    requires i < U32 && o < U32 && payload == [7] + PutU32(i) + PutU32(o) + data
    ensures DecodePayload(payload) == Some(Piece(i, o, data))
  {
    DecodeExact(payload);
    hide PutU32, Field, DecodePayload;
    assert payload[1..5] == PutU32(i) && payload[5..9] == PutU32(o) && payload[9..] == data;
    PutField(payload, 1, i);
    PutField(payload, 5, o);
  }

  /** A block arrives: the frame 7, index, offset, data is read as exactly that, wherever the buffer goes on. */
  lemma BlockRead(i: nat, o: nat, data: seq<byte>, rest: seq<byte>)
    requires i < U32 && o < U32 && 9 + |data| < U32
    ensures var payload := [7] + PutU32(i) + PutU32(o) + data;
      && NextFrame(PutU32(|payload|) + payload + rest) == Complete(payload, rest)
      && DecodePayload(payload) == Some(Piece(i, o, data))
  {
    hide PutU32, DecodePayload, NextFrame;
    var payload := [7] + PutU32(i) + PutU32(o) + data;
    PiecePayload(payload, i, o, data);
    FrameOf(payload, rest);
  }

  lemma CancelPayload(payload: seq<byte>, i: nat, o: nat, l: nat)
    requires i < U32 && o < U32 && l < U32 && payload == [8] + PutU32(i) + PutU32(o) + PutU32(l)
    ensures |payload| == 13 && DecodePayload(payload) == Some(Cancel(i, o, l))
  {
    DecodeExact(payload);
    hide PutU32, Field, DecodePayload;
    assert payload[1..5] == PutU32(i) && payload[5..9] == PutU32(o) && payload[9..13] == PutU32(l);
    PutField(payload, 1, i);
    PutField(payload, 5, o);
    PutField(payload, 9, l);
  }

  /** A cancel is read as exactly its index, offset and length. */
  lemma CancelRead(i: nat, o: nat, l: nat, rest: seq<byte>)
    requires i < U32 && o < U32 && l < U32
    ensures var payload := [8] + PutU32(i) + PutU32(o) + PutU32(l);
      && NextFrame(PutU32(|payload|) + payload + rest) == Complete(payload, rest)
      && DecodePayload(payload) == Some(Cancel(i, o, l))
  {
    hide PutU32, DecodePayload, NextFrame;
    var payload := [8] + PutU32(i) + PutU32(o) + PutU32(l);
    CancelPayload(payload, i, o, l);
    FrameOf(payload, rest);
  }

  lemma FrameExtends(a: seq<byte>, b: seq<byte>)
    requires NextFrame(a).Complete?
    ensures NextFrame(a + b) == Complete(NextFrame(a).payload, NextFrame(a).rest + b)
  {
    assert (a + b)[0..4] == a[0..4];
    var len := GetU32(a[0..4]);
    assert (a + b)[4..4 + len] == a[4..4 + len];
    assert (a + b)[4 + len..] == a[4 + len..] + b;
  }

  /** Draining early never changes what is read. */
  lemma {:induction false} DrainConcat(a: seq<byte>, b: seq<byte>)
    ensures Drain(a + b) == Feed(Drain(a), b)
    decreases |a|
  {
    match NextFrame(a)
    case Incomplete =>
      var t := Drain(a + b);
      assert [] + t.msgs == t.msgs;
    case Complete(payload, rest) =>
      FrameExtends(a, b);
      match DecodePayload(payload)
      case None =>
      case Some(m) =>
        DrainConcat(rest, b);
        var s := Drain(rest);
        if !s.crashed {
          var t := Drain(s.rest + b);
          assert [m] + (s.msgs + t.msgs) == ([m] + s.msgs) + t.msgs;
        }
  }

  /** Framing does not depend on how the bytes were cut into chunks. */
  lemma {:induction false} ChunkingIrrelevant(chunks: seq<seq<byte>>)
    ensures FeedAll(chunks) == Drain(Join(chunks))
  {
    if |chunks| == 0 {
    } else {
      var front := chunks[..|chunks| - 1];
      ChunkingIrrelevant(front);
      DrainConcat(Join(front), chunks[|chunks| - 1]);
    }
  }

  lemma FrameOf(payload: seq<byte>, rest: seq<byte>)
    requires |payload| < U32
    ensures NextFrame(PutU32(|payload|) + payload + rest) == Complete(payload, rest)
  {
    var s := PutU32(|payload|) + payload + rest;
    GetPutU32(|payload|);
    assert s[0..4] == PutU32(|payload|);
    assert s[4..4 + |payload|] == payload;
    assert s[4 + |payload|..] == rest;
  }

  lemma RequestPayload(i: nat, o: nat, l: nat) returns (payload: seq<byte>)
    ensures |payload| == 13 && EncodeMessage(Request(i, o, l)) == PutU32(13) + payload
    ensures DecodePayload(payload) == Some(Request(AsU32(i), AsU32(o), AsU32(l)))
  {
    payload := [6] + PutU32(i) + PutU32(o) + PutU32(l);
    assert payload[1..5] == PutU32(i);
    assert payload[5..9] == PutU32(o);
    assert payload[9..13] == PutU32(l);
    GetPutU32(i);
    GetPutU32(o);
    GetPutU32(l);
    assert PutU32(13) + payload == PutU32(13) + [6] + PutU32(i) + PutU32(o) + PutU32(l);
  }

  lemma DecodeBitfield(bytes: seq<byte>)
    ensures DecodePayload([5] + bytes) == Some(Bitfield(Unpack(bytes)))
  {
    assert ([5] + bytes)[1..] == bytes;
  }

  lemma BitfieldFrame(bits: seq<bool>)
    requires 1 + PackedLength(bits) < U32
    ensures EncodeMessage(Bitfield(bits)) == PutU32(1 + PackedLength(bits)) + ([5] + Pack(bits))
  {
    var bytes := Pack(bits);
    assert AsU32(|bytes|) == |bytes|;
    assert PutU32(1 + |bytes|) + [5] + bytes == PutU32(1 + |bytes|) + ([5] + bytes);
  }

  lemma BitfieldPayload(bits: seq<bool>) returns (payload: seq<byte>)
    requires 1 + PackedLength(bits) < U32
    ensures |payload| < U32 && EncodeMessage(Bitfield(bits)) == PutU32(|payload|) + payload
    ensures DecodePayload(payload) == Some(Bitfield(Padded(bits)))
  {
    payload := [5] + Pack(bits);
    UnpackPack(bits);
    DecodeBitfield(Pack(bits));
    BitfieldFrame(bits);
  }

  lemma HavePayload(i: nat) returns (payload: seq<byte>)
    ensures |payload| == 5 && EncodeMessage(Have(i)) == PutU32(5) + payload
    ensures DecodePayload(payload) == Some(Have(AsU32(i)))
  {
    payload := [4] + PutU32(i);
    assert payload[1..5] == PutU32(i);
    GetPutU32(i);
    assert PutU32(5) + payload == PutU32(5) + [4] + PutU32(i);
  }

  /** Every frame the encoder writes is a length prefix and a payload the decoder understands. */
  lemma EncodedPayload(m: PeerMessage) returns (payload: seq<byte>)
    requires Encodable(m) && Wire(m).Some?
    ensures |payload| < U32 && EncodeMessage(m) == PutU32(|payload|) + payload
    ensures DecodePayload(payload) == Wire(m)
  {
    match m
    case Interested => payload := [2];
    case KeepAlive => payload := []; assert PutU32(0) + payload == PutU32(0);
    case Request(i, o, l) => payload := RequestPayload(i, o, l);
    case Bitfield(bits) => payload := BitfieldPayload(bits);
    case Have(i) => payload := HavePayload(i);
  }

  lemma {:induction false} EncodedListDrains(msgs: seq<PeerMessage>)
    requires forall m :: m in msgs ==> Encodable(m)
    ensures Drain(EncodeAll(msgs)) == Stream(WireAll(msgs), [], false)
  {
    if |msgs| == 0 {
    } else {
      EncodedListDrains(msgs[1..]);
      if Wire(msgs[0]).Some? {
        var payload := EncodedPayload(msgs[0]);
        FrameOf(payload, EncodeAll(msgs[1..]));
      } else {
        assert EncodeMessage(msgs[0]) + EncodeAll(msgs[1..]) == EncodeAll(msgs[1..]);
      }
    }
  }

  /**
   The codec round trip over a stream: encode any list of messages, cut the bytes
   anywhere, and the reader yields exactly what the wire carries of the list and
   ends with an empty buffer.
   */
  lemma StreamRoundTrip(msgs: seq<PeerMessage>, chunks: seq<seq<byte>>)
    requires forall m :: m in msgs ==> Encodable(m)
    requires Join(chunks) == EncodeAll(msgs)
    ensures FeedAll(chunks) == Stream(WireAll(msgs), [], false)
  {
    ChunkingIrrelevant(chunks);
    EncodedListDrains(msgs);
  }

  lemma WireFaithful(m: PeerMessage)
    ensures Wire(m) == Some(m) <==> Faithful(m)
  {
    if m.Bitfield? {
      assert |Padded(m.bits)| == 8 * PackedLength(m.bits);
      if |m.bits| % 8 == 0 {
        assert Padded(m.bits) == m.bits;
      }
    }
  }

  /** The list itself comes back if and only if every message is one the wire carries unchanged. */
  lemma {:induction false} ListRoundTripsIff(msgs: seq<PeerMessage>)
    ensures |WireAll(msgs)| <= |msgs|
    ensures WireAll(msgs) == msgs <==> forall m :: m in msgs ==> Faithful(m)
  {
    if |msgs| == 0 {
    } else {
      ListRoundTripsIff(msgs[1..]);
      WireFaithful(msgs[0]);
      assert msgs == [msgs[0]] + msgs[1..];
      if WireAll(msgs) == msgs {
        assert Wire(msgs[0]).Some?;
        assert WireAll(msgs)[0] == Wire(msgs[0]).value && WireAll(msgs)[1..] == WireAll(msgs[1..]);
      }
    }
  }

  // ---------------------------------------------------------------- the codec

  /** The growing byte buffer the codec reads from and appends to. */
  class BytesMut {
    var bytes: seq<byte>

    constructor ()
      ensures bytes == []
    {
      bytes := [];
    }

    /** Remove and return the first `n` bytes. */
    method SplitTo(n: nat) returns (head: seq<byte>)
      requires n <= |bytes|
      modifies this
      ensures head == old(bytes)[..n] && bytes == old(bytes)[n..]
    {
      head := bytes[..n];
      bytes := bytes[n..];
    }

    method Append(more: seq<byte>)
      modifies this
      ensures bytes == old(bytes) + more
    {
      bytes := bytes + more;
    }
  }

  datatype Decoded = NeedMore | Item(msg: PeerMessage) | Panic

  class PeerCodec {
    constructor () {
    }

    /** `Decoder::decode`: takes a whole frame off the front of the buffer, or leaves the buffer alone. */
    method Decode(src: BytesMut) returns (r: Decoded)
      modifies src
      ensures match NextFrame(old(src.bytes))
        case Incomplete => r == NeedMore && src.bytes == old(src.bytes)
        case Complete(payload, rest) =>
          && src.bytes == rest
          && match DecodePayload(payload) { case None => r == Panic case Some(m) => r == Item(m) }
          && (payload == [] ==> r == Item(KeepAlive)) && (r.Item? && payload != [] ==> Says(payload, r.msg))
    {
      if |src.bytes| < 4 {
        return NeedMore;
      }
      var msgLen := GetU32(src.bytes[0..4]);
      if |src.bytes| < 4 + msgLen {
        return NeedMore;
      }
      var fullData := src.SplitTo(4 + msgLen);
      assert fullData[4..] == old(src.bytes)[4..4 + msgLen];
      DecodeExact(fullData[4..]);
      hide Says, DecodePayload;
      match DecodePayload(fullData[4..])
      case None => r := Panic;
      case Some(m) => r := Item(m);
    }

    /** The framed reader's loop over `Decode`, on the bytes it has. */
    method DecodeAll(src: BytesMut) returns (msgs: seq<PeerMessage>, crashed: bool)
      modifies src
      ensures msgs == Drain(old(src.bytes)).msgs && crashed == Drain(old(src.bytes)).crashed
      ensures !crashed ==> src.bytes == Drain(old(src.bytes)).rest
    {
      hide Says, DecodePayload, NextFrame;
      ghost var all := Drain(src.bytes);
      msgs := [];
      crashed := false;
      var r := Decode(src);
      while true
        invariant r.NeedMore? ==> all == Stream(msgs, src.bytes, false)
        invariant r.Panic? ==> all.msgs == msgs && all.crashed
        invariant r.Item? ==> var s := Drain(src.bytes); all == Stream(msgs + ([r.msg] + s.msgs), s.rest, s.crashed)
        decreases r.Item?, |src.bytes|
      {
        match r
        case NeedMore => break;
        case Panic => crashed := true; break;
        case Item(m) =>
          ghost var s := Drain(src.bytes);
          assert msgs + ([m] + s.msgs) == (msgs + [m]) + s.msgs;
          msgs := msgs + [m];
          assert msgs + [] == msgs;
          r := Decode(src);
      }
    }

    /** The bytes of the frame, field by field. */
    method AppendFrame(item: PeerMessage, dst: BytesMut)
      modifies dst
      ensures dst.bytes == old(dst.bytes) + EncodeMessage(item)
    {
      hide PutU32, AsU32, Pack;
      match item
      case Interested =>
        dst.Append(PutU32(1));
        dst.Append([2]);
      case Request(pieceIndex, blockOffset, length) =>
        dst.Append(PutU32(13));
        dst.Append([6]);
        dst.Append(PutU32(pieceIndex));
        dst.Append(PutU32(blockOffset));
        dst.Append(PutU32(length));
        assert dst.bytes == old(dst.bytes) + EncodeMessage(item);
      case KeepAlive =>
        dst.Append(PutU32(0));
      case Bitfield(bits) =>
        var bytes := Pack(bits);
        dst.Append(PutU32(1 + AsU32(|bytes|)));
        dst.Append([5]);
        dst.Append(bytes);
        assert dst.bytes == old(dst.bytes) + EncodeMessage(item);
      case Have(pieceIndex) =>
        dst.Append(PutU32(5));
        dst.Append([4]);
        dst.Append(PutU32(pieceIndex));
        assert dst.bytes == old(dst.bytes) + EncodeMessage(item);
      case _ =>
    }

    /** `Encoder::encode`: appends the frame. */
    method Encode(item: PeerMessage, dst: BytesMut)
      requires Encodable(item)
      modifies dst
      ensures dst.bytes == old(dst.bytes) + EncodeMessage(item) && Writes(item, dst.bytes[|old(dst.bytes)|..])
    {
      ghost var before := dst.bytes;
      EncodeExact(item);
      hide EncodeMessage, Writes;
      AppendFrame(item, dst);
      assert dst.bytes[|before|..] == EncodeMessage(item);
    }
  }
}

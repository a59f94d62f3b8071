/**
 From the packet source to the application: the beats of the source become bytes,
 the DMA engine puts them into ring buffers, and the application reads blocks back
 through its mapping and checks them (tester2.c).
 */
module EndToEnd {
  import opened Words
  import opened Descriptors
  import opened Blocks
  import opened RingProtocol
  import opened RingTheorems
  import opened RingDelivery
  import opened Streams
  import opened Source

  const BEAT_BYTES := 32

  // ----- Beats as bytes -----

  /** Little-endian, as two half words. */
  function WordBytes(w: Word): (r: seq<Byte>)
    ensures |r| == 4
  {
    var lo, hi := w % 0x1_0000, w / 0x1_0000;
    [lo % 256, lo / 256, hi % 256, hi / 256]
  }

  function WordOf(b0: Byte, b1: Byte, b2: Byte, b3: Byte): Word {
    (b0 + 256 * b1) + 0x1_0000 * (b2 + 256 * b3)
  }

  lemma WordRoundTrip(w: Word)
    ensures var b := WordBytes(w); WordOf(b[0], b[1], b[2], b[3]) == w
  {
    var lo, hi := w % 0x1_0000, w / 0x1_0000;
    assert lo % 256 + 256 * (lo / 256) == lo;
    assert hi % 256 + 256 * (hi / 256) == hi;
  }

  function WordAt(b: Beat, j: nat): Word
    requires j < 8
  {
    if j == 0 then b.w0 else if j == 1 then b.w1 else if j == 2 then b.w2 else if j == 3 then b.w3
    else if j == 4 then b.w4 else if j == 5 then b.w5 else if j == 6 then b.w6 else b.w7
  }

  /** The byte lanes of tdata from lane 0 up. */
  function BeatBytes(b: Beat): (r: seq<Byte>)
    ensures |r| == BEAT_BYTES
  {
    seq(BEAT_BYTES, (i: nat) requires i < BEAT_BYTES => WordBytes(WordAt(b, i / 4))[i % 4])
  }

  function PacketBytes(q: seq<Beat>): seq<Byte> {
    ExpandUnits(q, BeatBytes)
  }

  lemma {:induction false} PacketBytesLength(q: seq<Beat>)
    ensures |PacketBytes(q)| == BEAT_BYTES * |q|
  {
    if q != [] {
      PacketBytesLength(q[..|q| - 1]);
    }
  }

  lemma {:induction false} PacketBytesAt(q: seq<Beat>, t: nat, i: nat)
    requires t < |q| && i < BEAT_BYTES
    ensures |PacketBytes(q)| == BEAT_BYTES * |q|
    ensures PacketBytes(q)[BEAT_BYTES * t + i] == BeatBytes(q[t])[i]
  {
    PacketBytesLength(q);
    PacketBytesLength(q[..|q| - 1]);
    if t < |q| - 1 {
      PacketBytesAt(q[..|q| - 1], t, i);
    }
  }

  /** The bytes of a beat stream; the flag of a beat goes to its last byte. */
  function ByteStream(s: Stream<Beat>): Stream<Byte> {
    Expand(s, BeatBytes)
  }

  // ----- What the application reads -----

  /** Byte i of a block; unmapped memory is not read by anything below. */
  function ReadByte(p: Session, m: nat, bufs: seq<seq<Byte>>, b: Block, i: nat): Byte
    requires p.bufLen > 0
  {
    match UserMemory(p, bufs, ReadOffset(p, m, b, i))
    case Some(v) => v
    case None => 0
  }

  /** The 32-bit word at byte position i of a block. */
  function ReadWord(p: Session, m: nat, bufs: seq<seq<Byte>>, b: Block, i: nat): Word
    requires p.bufLen > 0
  {
    WordOf(ReadByte(p, m, bufs, b, i), ReadByte(p, m, bufs, b, i + 1),
      ReadByte(p, m, bufs, b, i + 2), ReadByte(p, m, bufs, b, i + 3))
  }

  /** exp_len is an int. */
  function ExpectedLength(dlen: int): int {
    ToInt(32 * dlen)
  }

  function GetInit(flags: Word): Word { flags % 256 }
  function GetStep(flags: Word): Word { flags / 256 % 16 }

  /** The payload word j of beat t is the one the header announces. */
  predicate PayloadOk(p: Session, m: nat, bufs: seq<seq<Byte>>, b: Block, t: nat, j: nat)
    requires p.bufLen > 0 && t >= 1 && j < 8
  {
    var flags := ReadWord(p, m, bufs, b, 0);
    ReadWord(p, m, bufs, b, BEAT_BYTES * t + 4 * j)
      == AddWord(CounterAt(GetInit(flags), GetStep(flags), t - 1), j)
  }

  /**
   The check tester2 makes of a block: the computed length against the header's, and
   every 32nd part of the payload beats, from the first on, against the counters. The
   expected length is an int; the first block of all is not checked.
   */
  method CheckBlock(p: Session, m: nat, bufs: seq<seq<Byte>>, b: Block, first: bool) returns (lengthError: bool, dataError: bool)
    requires p.bufLen > 0
    ensures lengthError <==> !first && BlockLength(p, b) != ExpectedLength(ToInt(ReadWord(p, m, bufs, b, 4)))
    ensures dataError <==> !first && exists t: nat, j: nat ::
      1 <= t && BEAT_BYTES * (t - 1) < ToInt(ReadWord(p, m, bufs, b, 4)) && j < 8 && !PayloadOk(p, m, bufs, b, t, j)
  {
    if first {
      return false, false;
    }
    var dlen := ToInt(ReadWord(p, m, bufs, b, 4));
    var flags := ReadWord(p, m, bufs, b, 0);
    var dinit, dstep := GetInit(flags), GetStep(flags);
    lengthError := BlockLength(p, b) != ExpectedLength(dlen);
    dataError := false;
    var t, i := 1, 0;
    while i < dlen
      invariant t >= 1 && i == BEAT_BYTES * (t - 1)
      invariant dinit == CounterAt(GetInit(flags), dstep, t - 1)
      invariant dataError <==> exists u: nat, j: nat ::
        1 <= u < t && BEAT_BYTES * (u - 1) < dlen && j < 8 && !PayloadOk(p, m, bufs, b, u, j)
    {
      var bad := CheckBeat(p, m, bufs, b, t, dinit);
      dataError := dataError || bad;
      dinit := AddWord(dinit, dstep);
      t, i := t + 1, i + BEAT_BYTES;
    }
  }

  /** The eight words of beat t against the counters from `dinit` on. */
  method CheckBeat(p: Session, m: nat, bufs: seq<seq<Byte>>, b: Block, t: nat, dinit: Word) returns (bad: bool)
    requires p.bufLen > 0 && t >= 1
    requires var flags := ReadWord(p, m, bufs, b, 0); dinit == CounterAt(GetInit(flags), GetStep(flags), t - 1)
    ensures bad <==> exists j: nat :: j < 8 && !PayloadOk(p, m, bufs, b, t, j)
  {
    bad := false;
    for j := 0 to 8
      invariant bad <==> exists v: nat :: v < j && !PayloadOk(p, m, bufs, b, t, v)
    {
      if ReadWord(p, m, bufs, b, BEAT_BYTES * t + 4 * j) != AddWord(dinit, j) {
        assert !PayloadOk(p, m, bufs, b, t, j);
        bad := true;
      } else {
        assert PayloadOk(p, m, bufs, b, t, j);
      }
    }
  }

  // ----- The whole path -----

  /** Buffers filled from the bytes the source has sent hold, block by block, its packets. */
  lemma PacketOfBlock(fills: seq<Fill<Byte>>, start: nat, b: nat, sent: Stream<Beat>)
    requires start <= |fills| && b < |Cut(fills, start)| && forall j :: 0 <= j < |fills| ==> fills[j].data != []
    requires FillStream(fills, |fills|) <= ByteStream(sent)
    ensures b < |Packets(sent)|
    ensures var e := Cut(fills, start)[b];
      e.first <= e.last < |fills| && Data(fills, e.first, e.last + 1) == PacketBytes(Packets(sent)[b])
  {
    BlockOfStream(fills, start, b, ByteStream(sent));
    PacketsAsBytes(sent, b);
  }

  lemma BlockOfStream(fills: seq<Fill<Byte>>, start: nat, b: nat, bytes: Stream<Byte>)
    requires start <= |fills| && b < |Cut(fills, start)| && forall j :: 0 <= j < |fills| ==> fills[j].data != []
    requires FillStream(fills, |fills|) <= bytes
    ensures b < |Packets(bytes)|
    ensures var e := Cut(fills, start)[b]; e.first <= e.last < |fills| && Data(fills, e.first, e.last + 1) == Packets(bytes)[b]
  {
    BlockIsPacket(fills, |fills|, start, b, bytes);
  }

  lemma PacketsAsBytes(sent: Stream<Beat>, b: nat)
    requires b < |Packets(ByteStream(sent))|
    ensures b < |Packets(sent)| && Packets(ByteStream(sent))[b] == PacketBytes(Packets(sent)[b])
  {
    ExpandPackets(sent, BeatBytes);
    ExpandAllAt(Packets(sent), BeatBytes, b);
  }

  lemma OwnedBlockIsPacket(p: Session, s: State<Byte>, b: nat, sent: Stream<Beat>)
    requires Reachable(p, s) && OwnedByApplication(s, b)
    requires FillStream(s.hist.fills, |s.hist.fills|) <= ByteStream(sent)
    ensures b < |Packets(sent)| && b < |s.hist.pushed| && s.hist.start <= |s.hist.fills|
    ensures b < |Cut(s.hist.fills, s.hist.start)|
    ensures IsDivision(s.hist.fills, s.hist.start, Cut(s.hist.fills, s.hist.start))
    ensures BlockData(s, b) == PacketBytes(Packets(sent)[b])
  {
    ReachableFills(p, s, b);
    PacketOfBlock(s.hist.fills, s.hist.start, b, sent);
  }

  lemma ReachableFills(p: Session, s: State<Byte>, b: nat)
    requires Reachable(p, s) && OwnedByApplication(s, b)
    ensures b < |s.hist.pushed| && s.hist.start <= |s.hist.fills| && b < |Cut(s.hist.fills, s.hist.start)|
    ensures IsDivision(s.hist.fills, s.hist.start, Cut(s.hist.fills, s.hist.start))
    ensures forall j :: 0 <= j < |s.hist.fills| ==> s.hist.fills[j].data != []
  {
    ReachableInv(p, s);
    OwnedExtent(p, s, b);
  }

  /** The application reads back, word for word, the packet the source sent. */
  lemma WordsArrive(p: Session, m: nat, s: State<Byte>, b: nat, sent: Stream<Beat>, t: nat, j: nat)
    requires Reachable(p, s) && OwnedByApplication(s, b) && p.k <= 32 && p.bufLen == Pow2(m)
    requires FillStream(s.hist.fills, |s.hist.fills|) <= ByteStream(sent)
    requires b < |Packets(sent)| && t < |Packets(sent)[b]| && j < 8
    ensures b < |s.hist.pushed|
    ensures ReadWord(p, m, s.bufs, s.hist.pushed[b], BEAT_BYTES * t + 4 * j) == WordAt(Packets(sent)[b][t], j)
  {
    var o := BEAT_BYTES * t + 4 * j;
    ByteArrives(p, m, s, b, sent, t, j, 0, o);
    ByteArrives(p, m, s, b, sent, t, j, 1, o + 1);
    ByteArrives(p, m, s, b, sent, t, j, 2, o + 2);
    ByteArrives(p, m, s, b, sent, t, j, 3, o + 3);
    WordFromBytes(p, m, s.bufs, s.hist.pushed[b], o, WordAt(Packets(sent)[b][t], j));
  }

  lemma WordFromBytes(p: Session, m: nat, bufs: seq<seq<Byte>>, b: Block, o: nat, w: Word)
    requires p.bufLen > 0
    requires ReadByte(p, m, bufs, b, o) == WordBytes(w)[0] && ReadByte(p, m, bufs, b, o + 1) == WordBytes(w)[1]
    requires ReadByte(p, m, bufs, b, o + 2) == WordBytes(w)[2] && ReadByte(p, m, bufs, b, o + 3) == WordBytes(w)[3]
    ensures ReadWord(p, m, bufs, b, o) == w
  {
    WordRoundTrip(w);
  }

  lemma ByteArrives(p: Session, m: nat, s: State<Byte>, b: nat, sent: Stream<Beat>, t: nat, j: nat, i: nat, at: nat)
    requires Reachable(p, s) && OwnedByApplication(s, b) && p.k <= 32 && p.bufLen == Pow2(m)
    requires FillStream(s.hist.fills, |s.hist.fills|) <= ByteStream(sent)
    requires b < |Packets(sent)| && t < |Packets(sent)[b]| && j < 8 && i < 4 && at == BEAT_BYTES * t + 4 * j + i
    ensures b < |s.hist.pushed|
    ensures ReadByte(p, m, s.bufs, s.hist.pushed[b], at) == WordBytes(WordAt(Packets(sent)[b][t], j))[i]
  {
    OwnedBlockIsPacket(p, s, b, sent);
    LengthIsRight(p, s, b);
    PacketByte(Packets(sent)[b], t, j, i);
    BlockIntact(p, m, s, b, at);
  }

  lemma PacketByte(q: seq<Beat>, t: nat, j: nat, i: nat)
    requires t < |q| && j < 8 && i < 4
    ensures BEAT_BYTES * t + (4 * j + i) < |PacketBytes(q)| == BEAT_BYTES * |q|
    ensures PacketBytes(q)[BEAT_BYTES * t + (4 * j + i)] == WordBytes(WordAt(q[t], j))[i]
  {
    PacketBytesAt(q, t, 4 * j + i);
    assert (4 * j + i) / 4 == j && (4 * j + i) % 4 == i;
  }

  lemma HeaderArrives(p: Session, m: nat, s: State<Byte>, b: nat, sent: Stream<Beat>)
    requires Reachable(p, s) && OwnedByApplication(s, b) && p.k <= 32 && p.bufLen == Pow2(m)
    requires AllSourcePackets(Packets(sent)) && FillStream(s.hist.fills, |s.hist.fills|) <= ByteStream(sent)
    ensures b < |s.hist.pushed| && b < |Packets(sent)|
    ensures var q := Packets(sent)[b];
      && IsSourcePacket(q) && |q| == q[0].w1
      && ReadWord(p, m, s.bufs, s.hist.pushed[b], 0) == q[0].w0
      && ReadWord(p, m, s.bufs, s.hist.pushed[b], 4) == q[0].w1
  {
    OwnedBlockIsPacket(p, s, b, sent);
    assert IsSourcePacket(Packets(sent)[b]);
    WordsArrive(p, m, s, b, sent, 0, 0);
    WordsArrive(p, m, s, b, sent, 0, 1);
  }

  lemma LengthArrives(p: Session, s: State<Byte>, b: nat, sent: Stream<Beat>)
    requires Reachable(p, s) && OwnedByApplication(s, b) && p.k <= 32
    requires FillStream(s.hist.fills, |s.hist.fills|) <= ByteStream(sent)
    ensures b < |s.hist.pushed| && b < |Packets(sent)|
    ensures BlockLength(p, s.hist.pushed[b]) == BEAT_BYTES * |Packets(sent)[b]|
  {
    OwnedBlockIsPacket(p, s, b, sent);
    LengthIsRight(p, s, b);
    PacketBytesLength(Packets(sent)[b]);
  }

  lemma PayloadArrives(p: Session, m: nat, s: State<Byte>, b: nat, sent: Stream<Beat>, t: nat, j: nat)
    requires Reachable(p, s) && OwnedByApplication(s, b) && p.k <= 32 && p.bufLen == Pow2(m)
    requires AllSourcePackets(Packets(sent)) && FillStream(s.hist.fills, |s.hist.fills|) <= ByteStream(sent)
    requires b < |Packets(sent)| && 1 <= t < |Packets(sent)[b]| && j < 8
    ensures b < |s.hist.pushed| && PayloadOk(p, m, s.bufs, s.hist.pushed[b], t, j)
  {
    HeaderArrives(p, m, s, b, sent);
    WordsArrive(p, m, s, b, sent, t, j);
    BeatOfPacket(Packets(sent)[b], t, j);
  }

  /** What a data beat of a source packet holds, told by the header of the packet. */
  lemma BeatOfPacket(q: seq<Beat>, t: nat, j: nat)
    requires IsSourcePacket(q) && 1 <= t < |q| && j < 8
    ensures WordAt(q[t], j) == AddWord(CounterAt(GetInit(q[0].w0), GetStep(q[0].w0), t - 1), j)
  {
    assert q[t] == PacketBeat(q[0].w1, q[0].w0 / 256, q[0].w0 % 256, t);
  }

  /**
   End to end: for every interleaving, every block the application owns passes its
   check: the length it computes is 32 times the length in the packet header, and
   every payload word is the expected counter.
   */
  lemma BlocksPassTheCheck(p: Session, m: nat, s: State<Byte>, b: nat, sent: Stream<Beat>)
    requires Reachable(p, s) && OwnedByApplication(s, b) && p.k <= 32 && p.bufLen == Pow2(m)
    requires AllSourcePackets(Packets(sent)) && FillStream(s.hist.fills, |s.hist.fills|) <= ByteStream(sent)
    ensures b < |s.hist.pushed|
    ensures BlockLength(p, s.hist.pushed[b]) == ToInt(ReadWord(p, m, s.bufs, s.hist.pushed[b], 4)) * 32
    ensures forall t: nat, j: nat :: 1 <= t < ToInt(ReadWord(p, m, s.bufs, s.hist.pushed[b], 4)) && j < 8 ==>
      PayloadOk(p, m, s.bufs, s.hist.pushed[b], t, j)
  {
    HeaderArrives(p, m, s, b, sent);
    LengthArrives(p, s, b, sent);
    forall t: nat, j: nat | 1 <= t < |Packets(sent)[b]| && j < 8
      ensures PayloadOk(p, m, s.bufs, s.hist.pushed[b], t, j)
    {
      PayloadArrives(p, m, s, b, sent, t, j);
    }
  }

  /** Neither branch of the check that prints an error is ever taken. */
  lemma CheckNeverFails(p: Session, m: nat, s: State<Byte>, b: nat, sent: Stream<Beat>)
    requires Reachable(p, s) && OwnedByApplication(s, b) && p.k <= 32 && p.bufLen == Pow2(m)
    requires AllSourcePackets(Packets(sent)) && FillStream(s.hist.fills, |s.hist.fills|) <= ByteStream(sent)
    ensures b < |s.hist.pushed|
    ensures BlockLength(p, s.hist.pushed[b]) == ExpectedLength(ToInt(ReadWord(p, m, s.bufs, s.hist.pushed[b], 4)))
    ensures !exists t: nat, j: nat ::
      1 <= t && BEAT_BYTES * (t - 1) < ToInt(ReadWord(p, m, s.bufs, s.hist.pushed[b], 4)) && j < 8
      && !PayloadOk(p, m, s.bufs, s.hist.pushed[b], t, j)
  {
    BlocksPassTheCheck(p, m, s, b, sent);
    HeaderArrives(p, m, s, b, sent);
  }

  /** With buffers of 4 MB no packet of the source spans more than six of them. */
  lemma PacketsSpanSixBuffers(p: Session, s: State<Byte>, b: nat, sent: Stream<Beat>)
    requires Reachable(p, s) && OwnedByApplication(s, b) && p.bufLen == 0x40_0000
    requires AllSourcePackets(Packets(sent)) && FillStream(s.hist.fills, |s.hist.fills|) <= ByteStream(sent)
    ensures s.hist.start <= |s.hist.fills| && b < |Cut(s.hist.fills, s.hist.start)|
    ensures var e := Cut(s.hist.fills, s.hist.start)[b]; e.last - e.first + 1 <= 6
  {
    OwnedBlockIsPacket(p, s, b, sent);
    WholeBuffers(p, s, b);
    var e := Cut(s.hist.fills, s.hist.start)[b];
    assert IsSourcePacket(Packets(sent)[b]);
    PacketBytesLength(Packets(sent)[b]);
    DataLength(s.hist.fills, e.first, e.last, p.bufLen);
  }

  lemma WholeBuffers(p: Session, s: State<Byte>, b: nat)
    requires Reachable(p, s) && OwnedByApplication(s, b)
    ensures s.hist.start <= |s.hist.fills| && b < |Cut(s.hist.fills, s.hist.start)|
    ensures var e := Cut(s.hist.fills, s.hist.start)[b];
      && e.first <= e.last < |s.hist.fills| && |s.hist.fills[e.last].data| > 0
      && forall j :: e.first <= j < e.last ==> |s.hist.fills[j].data| == p.bufLen
  {
    ReachableInv(p, s);
    OwnedExtent(p, s, b);
  }
}

/**
 The application's half of the ring: the length it computes for a block, the
 offsets at which it reads the mapped buffers, and what it finds there.
 */
module RingDelivery {
  import opened Words
  import opened Descriptors
  import opened RingIndex
  import opened Blocks
  import opened RingProtocol
  import opened RingTheorems

  // ----- swz_mmap_fault -----

  datatype Fault = Efault | Mapped(pfn: nat) | OutsideTable

  /**
   The page the fault handler inserts for a user offset, given the frame number of
   every buffer. The handler refuses only buffer numbers above the number of
   buffers; OutsideTable is the lookup one past the end of the table.
   */
  function PageFault(pages: seq<nat>, bufLen: nat, offset: nat): Fault
    requires bufLen > 0
  {
    var bufNum := offset / bufLen;
    if bufNum > |pages| then Efault
    else if bufNum == |pages| then OutsideTable
    else Mapped(pages[bufNum] + (offset - bufNum * bufLen) / 4096)
  }

  /** A fault inside the mapping always finds its page; outside it, it is refused only from one buffer further on. */
  lemma FaultRightIff(pages: seq<nat>, bufLen: nat, offset: nat)
    requires bufLen > 0
    ensures PageFault(pages, bufLen, offset).Mapped? <==> offset < |pages| * bufLen
    ensures PageFault(pages, bufLen, offset).Efault? <==> offset >= (|pages| + 1) * bufLen
  {
    DivBelow(offset, bufLen, |pages|);
    DivBelow(offset, bufLen, |pages| + 1);
  }

  /** A fault r bytes into buffer b maps the page r / 4096 frames behind the first of that buffer. */
  lemma FaultMapsItsPage(pages: seq<nat>, bufLen: nat, b: nat, r: nat)
    requires r < bufLen && b < |pages|
    ensures PageFault(pages, bufLen, b * bufLen + r) == Mapped(pages[b] + r / 4096)
  {
    ModUnique(b * bufLen + r, bufLen, b, r);
  }

  /** The byte at an offset of a page frame. */
  type Memory<T> = (nat, nat) -> T

  /** Physical memory holds buffer b from the frame pages[b] on. */
  ghost predicate HoldsBuffers<T>(ram: Memory<T>, pages: seq<nat>, bufs: seq<seq<T>>) {
    |pages| == |bufs| && forall b: nat, r: nat :: b < |bufs| && r < |bufs[b]| ==> bufs[b][r] == ram(pages[b] + r / 4096, r % 4096)
  }

  /** With buffers of whole pages, the byte the application reads through the page a fault maps is the byte of the buffer. */
  lemma FaultReadsBuffer<T>(p: Session, ram: Memory<T>, pages: seq<nat>, bufs: seq<seq<T>>, offset: nat)
    requires p.bufLen > 0 && p.bufLen % 4096 == 0 && HoldsBuffers(ram, pages, bufs) && BufsOk(p, bufs)
    requires offset < |pages| * p.bufLen
    ensures var f := PageFault(pages, p.bufLen, offset);
      f.Mapped? && UserMemory(p, bufs, offset) == Some(ram(f.pfn, offset % 4096))
  {
    var b, r := RowAndRest(offset, p.bufLen, |pages|);
    FaultReadsAt(p, ram, pages, bufs, b, r, offset);
  }

  lemma RowAndRest(offset: nat, len: nat, n: nat) returns (b: nat, r: nat)
    requires len > 0 && offset < n * len
    ensures b < n && r < len && offset == b * len + r && offset / len == b && offset % len == r
  {
    b, r := offset / len, offset % len;
    DivBelow(offset, len, n);
    assert b * len == len * b;
  }

  lemma FaultReadsAt<T>(p: Session, ram: Memory<T>, pages: seq<nat>, bufs: seq<seq<T>>, b: nat, r: nat, offset: nat)
    requires p.bufLen > 0 && p.bufLen % 4096 == 0 && HoldsBuffers(ram, pages, bufs) && BufsOk(p, bufs)
    requires b < |pages| && r < p.bufLen && offset == b * p.bufLen + r && offset / p.bufLen == b && offset % p.bufLen == r
    ensures PageFault(pages, p.bufLen, offset) == Mapped(pages[b] + r / 4096)
    ensures UserMemory(p, bufs, offset) == Some(ram(pages[b] + r / 4096, offset % 4096))
  {
    FaultMapsItsPage(pages, p.bufLen, b, r);
    OffsetInPage(b, p.bufLen, r);
    assert bufs[b][r] == ram(pages[b] + r / 4096, r % 4096);
  }

  lemma OffsetInPage(b: nat, bufLen: nat, r: nat)
    requires bufLen % 4096 == 0
    ensures (b * bufLen + r) % 4096 == r % 4096
  {
    var m := bufLen / 4096;
    assert bufLen == m * 4096;
    assert b * bufLen == (b * m) * 4096;
    ModUnique(b * bufLen + r, 4096, b * m + r / 4096, r % 4096);
  }

  // ----- What the application computes -----

  /** cur_len: the index difference wraps as an unsigned 32-bit number before the remainder is taken. */
  function BlockLength(p: Session, b: Block): int {
    p.bufLen * (((b.last - b.first) % TWO_32) % p.N()) + b.bytes
  }

  /** Offset of byte i of a block in the mapped memory of 2^k buffers of 2^m bytes; the mask is TOT_BUF_LEN - 1. */
  function ReadOffset(p: Session, m: nat, b: Block, i: nat): nat {
    BitAnd(p.bufLen * b.first + i, Pow2(p.k + m) - 1)
  }

  /** The mapped memory is the buffers one after the other. */
  function UserMemory<T>(p: Session, bufs: seq<seq<T>>, offset: nat): Option<T>
    requires p.bufLen > 0
  {
    if offset / p.bufLen < |bufs| && offset % p.bufLen < |bufs[offset / p.bufLen]| then
      Some(bufs[offset / p.bufLen][offset % p.bufLen])
    else None
  }

  /** Wrapping at 2^32 first does not change the distance around the ring. */
  lemma WrappedDistance(a: int, b: int, k: nat)
    requires k <= 32
    ensures ((b - a) % TWO_32) % Pow2(k) == Distance(a, b, k)
  {
    Pow2Add(32 - k, k);
    assert Pow2(32) == TWO_32 by { Pow2Of32(); }
    ModOfMultiple(b - a, Pow2(k), Pow2(32 - k));
  }

  lemma Pow2Of32()
    ensures Pow2(32) == TWO_32
  {
    assert Pow2(8) == 256;
    Pow2Add(8, 8);
    Pow2Add(16, 16);
  }

  /** With buffers of a power-of-two length the mask is the remainder by the total length. */
  lemma OffsetIsMod(p: Session, m: nat, b: Block, i: nat)
    requires p.bufLen == Pow2(m)
    ensures p.N() * p.bufLen == Pow2(p.k + m) > 0
    ensures ReadOffset(p, m, b, i) == (p.bufLen * b.first + i) % (p.N() * p.bufLen)
  {
    Pow2Add(p.k, m);
    MaskIsMod(p.bufLen * b.first + i, p.k + m);
  }

  // ----- What the application finds -----

  /** Every fill but the last of a block is a whole buffer, so positions in the block are rows and columns. */
  lemma {:induction false} DataLength<T>(fills: seq<Fill<T>>, from: nat, to: nat, len: nat)
    requires from <= to <= |fills|
    requires forall j :: from <= j < to ==> |fills[j].data| == len
    ensures |Data(fills, from, to)| == len * (to - from)
  {
    if from < to {
      DataLength(fills, from, to - 1, len);
      assert len * (to - from) == len * (to - 1 - from) + len;
    }
  }

  lemma {:induction false} DataAt<T>(fills: seq<Fill<T>>, from: nat, to: nat, len: nat, j: nat, r: nat)
    requires from <= j < to <= |fills| && r < |fills[j].data|
    requires forall i :: from <= i < to - 1 ==> |fills[i].data| == len
    ensures len * (j - from) + r < |Data(fills, from, to)|
    ensures Data(fills, from, to)[len * (j - from) + r] == fills[j].data[r]
  {
    DataLength(fills, from, to - 1, len);
    if j < to - 1 {
      DataAt(fills, from, to - 1, len, j, r);
    }
  }

  /** The block has been handed out, and its confirmation has not begun. */
  ghost predicate OwnedByApplication<T>(s: State<T>, b: nat) {
    s.hist.acked <= b < s.hist.taken && (s.confirm.Some? ==> s.hist.acked < b)
  }

  /** A packet can get through: in a ring of two buffers the application comes to own its block. */
  lemma BlockCanBeOwned<T(!new)>(p: Session, s0: State<T>, packet: seq<T>, record: Desc) returns (s: State<T>)
    requires Init(p, s0) && p.k == 1
    requires 0 < |packet| <= p.bufLen
    requires DeviceRecord(record.control, true) && record.bytes == |packet|
    ensures Reachable(p, s) && OwnedByApplication(s, 0)
    ensures s.hist.fills == [Fill(packet, true)] && s.hist.pushed == [Block(0, 0, |packet|)]
  {
    var fill := Fill(packet, true);
    var t := FirstPacket(p, s0, fill, record);
    s := TakeFirst(p, s0, [Fetch(0), Complete(0, 0, fill, record), ScanBegin, ScanExamine], t);
  }

  lemma SizedAfter<T>(p: Session, s0: State<T>, steps: seq<Step<T>>, t: State<T>)
    requires Init(p, s0) && Run(p, s0, steps, t)
    ensures Sized(p, t)
  {
    InitInv(p, s0);
    RunInv(p, s0, steps, t);
  }

  lemma TakeFirst<T(!new)>(p: Session, s0: State<T>, steps: seq<Step<T>>, t: State<T>) returns (s: State<T>)
    requires Init(p, s0) && Run(p, s0, steps, t)
    requires |t.fifo| == 1 && |t.hist.pushed| == 1 && t.hist.taken == 0 && t.hist.acked == 0 && t.confirm.None?
    ensures Reachable(p, s) && OwnedByApplication(s, 0)
    ensures s.hist.fills == t.hist.fills && s.hist.pushed == t.hist.pushed
  {
    SizedAfter(p, s0, steps, t);
    RunThen(p, s0, steps, t, GetBuf);
    s := Next(p, t, GetBuf);
  }

  ghost function BlockData<T>(s: State<T>, b: nat): seq<T>
    requires s.hist.start <= |s.hist.fills| && b < |Cut(s.hist.fills, s.hist.start)|
    requires IsDivision(s.hist.fills, s.hist.start, Cut(s.hist.fills, s.hist.start))
  {
    var blocks := Cut(s.hist.fills, s.hist.start);
    assert GoodBlock(s.hist.fills, s.hist.start, blocks, b);
    Data(s.hist.fills, blocks[b].first, blocks[b].last + 1)
  }

  /** Where an owned block lies, and that it fits into one lap of the ring. */
  lemma OwnedExtent<T>(p: Session, s: State<T>, b: nat)
    requires Shaped(p, s) && QueueOk(p, s) && ConfirmOk(p, s) && OwnedByApplication(s, b)
    ensures IsDivision(s.hist.fills, s.hist.start, Cut(s.hist.fills, s.hist.start))
    ensures b < |s.hist.pushed| == |Cut(s.hist.fills, s.hist.start)|
    ensures var e := Cut(s.hist.fills, s.hist.start)[b];
      && s.hist.freed <= e.first <= e.last < |s.hist.fills|
      && (s.confirm.Some? ==> s.hist.freed < e.first)
      && s.hist.pushed[b] == WireBlock(p, s.hist.fills, e)
      && forall j :: e.first <= j < e.last ==> !s.hist.fills[j].eop
  {
    var blocks := Cut(s.hist.fills, s.hist.start);
    CutIsDivision(s.hist.fills, s.hist.start);
    assert GoodBlock(s.hist.fills, s.hist.start, blocks, b);
    CutOrdered(s.hist.fills, s.hist.start, if s.confirm.Some? then s.hist.acked + 1 else s.hist.acked, b);
  }

  lemma BlockDistance<T>(p: Session, fills: seq<Fill<T>>, e: Extent)
    requires p.k <= 32 && e.first <= e.last < |fills| && e.last < e.first + p.N()
    ensures var b := WireBlock(p, fills, e); ((b.last - b.first) % TWO_32) % p.N() == e.last - e.first
  {
    WrappedDistance(Slot(e.first, p.k), Slot(e.last, p.k), p.k);
    DistanceOfSlots(e.first, e.last, p.k);
  }

  lemma ExtentLength<T>(p: Session, fills: seq<Fill<T>>, e: Extent)
    requires p.k <= 32 && e.first <= e.last < |fills| && e.last < e.first + p.N()
    requires forall j :: e.first <= j < e.last ==> |fills[j].data| == p.bufLen
    ensures BlockLength(p, WireBlock(p, fills, e)) == |Data(fills, e.first, e.last + 1)|
  {
    DataLength(fills, e.first, e.last, p.bufLen);
    BlockDistance(p, fills, e);
  }

  /** The length the application computes is the number of bytes the device received for the block. */
  lemma LengthIsRight<T(!new)>(p: Session, s: State<T>, b: nat)
    requires Reachable(p, s) && p.k <= 32 && OwnedByApplication(s, b)
    ensures b < |s.hist.pushed| && s.hist.start <= |s.hist.fills|
    ensures IsDivision(s.hist.fills, s.hist.start, Cut(s.hist.fills, s.hist.start))
    ensures b < |Cut(s.hist.fills, s.hist.start)|
    ensures BlockLength(p, s.hist.pushed[b]) == |BlockData(s, b)|
  {
    ReachableInv(p, s);
    OwnedExtent(p, s, b);
    ExtentLength(p, s.hist.fills, Cut(s.hist.fills, s.hist.start)[b]);
  }

  /** Byte i of an extent is in the buffers, at the offset the application reads. */
  lemma ExtentIntact<T>(p: Session, m: nat, s: State<T>, e: Extent, i: nat)
    requires Shaped(p, s) && SlotsOk(p, s) && BufsOk(p, s.bufs) && FillsOk(p, s.hist.fills) && p.bufLen == Pow2(m)
    requires s.hist.freed <= e.first <= e.last < |s.hist.fills|
    requires forall j :: e.first <= j < e.last ==> !s.hist.fills[j].eop
    requires i < |Data(s.hist.fills, e.first, e.last + 1)|
    ensures UserMemory(p, s.bufs, ReadOffset(p, m, WireBlock(p, s.hist.fills, e), i))
      == Some(Data(s.hist.fills, e.first, e.last + 1)[i])
  {
    var fills := s.hist.fills;
    var j, r := RowOf(fills, e.first, e.last + 1, p.bufLen, i);
    DataAt(fills, e.first, e.last + 1, p.bufLen, j, r);
    assert Held(p, s, j);
    OffsetIsMod(p, m, WireBlock(p, fills, e), i);
    OffsetOfRow(p, e.first, j, r);
    RowAndColumn(Slot(j, p.k), r, p.bufLen);
  }

  /**
   Zero copy: as long as the application owns a block, byte i at the offset it reads
   is byte i of what the device received, for the whole length it computes.
   */
  lemma BlockIntact<T(!new)>(p: Session, m: nat, s: State<T>, b: nat, i: nat)
    requires Reachable(p, s) && p.k <= 32 && p.bufLen == Pow2(m) && OwnedByApplication(s, b)
    requires b < |s.hist.pushed| && i < BlockLength(p, s.hist.pushed[b])
    ensures s.hist.start <= |s.hist.fills|
    ensures IsDivision(s.hist.fills, s.hist.start, Cut(s.hist.fills, s.hist.start))
    ensures b < |Cut(s.hist.fills, s.hist.start)| && i < |BlockData(s, b)|
    ensures UserMemory(p, s.bufs, ReadOffset(p, m, s.hist.pushed[b], i)) == Some(BlockData(s, b)[i])
  {
    ReachableInv(p, s);
    LengthIsRight(p, s, b);
    OwnedExtent(p, s, b);
    ExtentIntact(p, m, s, Cut(s.hist.fills, s.hist.start)[b], i);
  }

  /** The same through the page table: every page the application touches there holds what was received. */
  lemma BlockReadsThroughPages<T(!new)>(p: Session, m: nat, s: State<T>, b: nat, i: nat, ram: Memory<T>, pages: seq<nat>)
    requires Reachable(p, s) && p.k <= 32 && p.bufLen == Pow2(m) && p.bufLen % 4096 == 0 && OwnedByApplication(s, b)
    requires b < |s.hist.pushed| && i < BlockLength(p, s.hist.pushed[b]) && HoldsBuffers(ram, pages, s.bufs)
    ensures s.hist.start <= |s.hist.fills|
    ensures IsDivision(s.hist.fills, s.hist.start, Cut(s.hist.fills, s.hist.start))
    ensures b < |Cut(s.hist.fills, s.hist.start)| && i < |BlockData(s, b)|
    ensures var offset := ReadOffset(p, m, s.hist.pushed[b], i);
      var f := PageFault(pages, p.bufLen, offset);
      f.Mapped? && ram(f.pfn, offset % 4096) == BlockData(s, b)[i]
  {
    var offset := ReadOffset(p, m, s.hist.pushed[b], i);
    BlockIntact(p, m, s, b, i);
    RingBuffers(p, s);
    FoundInside(p, s.bufs, offset);
    FaultReadsBuffer(p, ram, pages, s.bufs, offset);
  }

  lemma RingBuffers<T(!new)>(p: Session, s: State<T>)
    requires Reachable(p, s)
    ensures BufsOk(p, s.bufs)
  {
    ReachableInv(p, s);
  }

  lemma FoundInside<T>(p: Session, bufs: seq<seq<T>>, offset: nat)
    requires p.bufLen > 0 && UserMemory(p, bufs, offset).Some?
    ensures offset < |bufs| * p.bufLen
  {
    DivBelow(offset, p.bufLen, |bufs|);
  }

  lemma {:induction false} RowOf<T>(fills: seq<Fill<T>>, from: nat, to: nat, len: nat, i: nat) returns (j: nat, r: nat)
    requires from < to <= |fills| && i < |Data(fills, from, to)|
    requires forall j :: from <= j < to - 1 ==> |fills[j].data| == len
    ensures from <= j < to && r < |fills[j].data| && i == len * (j - from) + r
  {
    DataLength(fills, from, to - 1, len);
    if i >= len * (to - 1 - from) {
      j, r := to - 1, i - len * (to - 1 - from);
    } else {
      j, r := RowOf(fills, from, to - 1, len, i);
    }
  }

  lemma OffsetOfRow(p: Session, first: nat, j: nat, r: nat)
    requires first <= j && r < p.bufLen
    ensures p.N() * p.bufLen > 0
    ensures (p.bufLen * Slot(first, p.k) + (p.bufLen * (j - first) + r)) % (p.N() * p.bufLen) == p.bufLen * Slot(j, p.k) + r
  {
    SlotShift(first, j, p.k);
    WrappedShift(Slot(first, p.k), j - first, r, p.N(), p.bufLen);
  }
}

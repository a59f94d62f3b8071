/**
 The zero-copy ring as a concurrent protocol. The device, the service routine
 that scans for filled buffers, and the application that takes and confirms
 blocks interleave freely; every access to a descriptor shared between them is a
 step of its own, down to the single words the confirmation writes.

 Bare indices in the state are what the driver and the device hold. The History
 component records, with unbounded counters, what has happened since the start
 of the session. Neither the driver nor the device reads it; in GETBUF and CONFIRM the
 blocks pushed, taken and acknowledged stand for what the application remembers.
 */
module RingProtocol {
  import opened Words
  import opened Descriptors
  import opened RingIndex
  import opened Blocks

  /** wz_xdma_data_block_desc */
  datatype Block = Block(first: nat, last: nat, bytes: int)

  /**
   What START fixes for the whole session: the ring size 2^k, the bus addresses of
   descriptors and buffers, the saved copies of the descriptors and the buffer
   length. T is the unit of memory; lengths count such units.
   */
  datatype Session = Session(
    k: nat, fifoCap: nat,
    descBus: seq<Addr>, bufBus: seq<Addr>, saved: seq<Desc>,
    bufLen: nat)
  {
    function N(): nat { Pow2(k) }

    ghost predicate GoodCopy(i: nat)
      requires i < N() && |descBus| == |bufBus| == |saved| == N()
    {
      var d := saved[i];
      && HasDescMagic(d.control)
      && d.Src() == descBus[i] && d.Dst() == bufBus[i] && d.Next() == descBus[NextSlot(i, k)]
      && d.bytes == bufLen
    }

    ghost predicate Valid() {
      && |descBus| == |bufBus| == |saved| == N()
      && (forall i, j :: 0 <= i < j < N() ==> descBus[i] != descBus[j])
      && (forall i, j :: 0 <= i < j < N() ==> bufBus[i] != bufBus[j])
      && (forall i {:trigger saved[i]} :: 0 <= i < N() ==> GoodCopy(i))
      && bufLen > 0 && fifoCap > 0
    }
  }

  /** The descriptor words a confirmation rewrites before the control word. */
  datatype Field = Bytes | SrcLo | SrcHi | DstLo | DstHi | NextLo | NextHi

  const ALL_FIELDS: set<Field> := {Bytes, SrcLo, SrcHi, DstLo, DstHi, NextLo, NextHi}

  function Get(d: Desc, f: Field): Word {
    match f
    case Bytes => d.bytes
    case SrcLo => d.srcLo
    case SrcHi => d.srcHi
    case DstLo => d.dstLo
    case DstHi => d.dstHi
    case NextLo => d.nextLo
    case NextHi => d.nextHi
  }

  function Put(d: Desc, f: Field, w: Word): Desc {
    match f
    case Bytes => d.(bytes := w)
    case SrcLo => d.(srcLo := w)
    case SrcHi => d.(srcHi := w)
    case DstLo => d.(dstLo := w)
    case DstHi => d.(dstHi := w)
    case NextLo => d.(nextLo := w)
    case NextHi => d.(nextHi := w)
  }

  /** A confirmation in progress: the slot being restored, the last slot, the words still to write. */
  datatype Confirming = Confirming(slot: nat, last: nat, todo: set<Field>)

  /**
   fills: every buffer the device has filled; pushed: every block put in the kfifo;
   taken, acked: blocks handed out and fully confirmed; freed, start, scanned, at:
   counters of the first unconfirmed buffer, the first buffer of the block being
   assembled, the buffer block_scanned_desc stands for, and the scan position.
   */
  datatype History<T> = History(
    fills: seq<Fill<T>>, pushed: seq<Block>, taken: nat, acked: nat,
    freed: nat, start: nat, scanned: nat, at: nat)

  datatype State<T> = State(
    desc: seq<Desc>, bufs: seq<seq<T>>,
    blockFirst: nat, blockScanned: nat, fifo: seq<Block>,
    scan: Option<nat>, confirm: Option<Confirming>,
    devNext: Addr, devDesc: Option<Desc>,
    hist: History<T>)

  /** Actions of the device name the slots its bus addresses resolve to. */
  datatype Step<T> =
    | Fetch(slot: nat)
    | Complete(slot: nat, buf: nat, fill: Fill<T>, record: Desc)
    | ScanBegin
    | ScanExamine
    | GetBuf
    | ConfirmBegin
    | ConfirmWrite(field: Field)
    | ConfirmPublish

  datatype Outcome = Exhausted | Postponed | Reported(block: Block) | Advanced

  /** One round of the service routine's loop: what it concludes from descriptor `check`. */
  function Examine(d: Desc, first: nat, check: nat, room: bool): Outcome {
    if !HasWritebackMagic(d.control) then Exhausted
    else if HasEop(d.control) then
      if room then Reported(Block(first, check, d.bytes)) else Postponed
    else Advanced
  }

  ghost predicate Sized<T>(p: Session, s: State<T>) {
    && |s.desc| == |s.bufs| == |p.descBus| == |p.bufBus| == |p.saved| == p.N()
    && (s.scan.Some? ==> s.scan.value < p.N())
    && (s.confirm.Some? ==> s.confirm.value.slot < p.N())
    && s.hist.acked <= s.hist.taken <= |s.hist.pushed|
  }

  /**
   When a step can happen. The device takes a descriptor only if it carries
   descriptor magic, fills a whole buffer unless the packet ends in it, and stores
   a writeback record whose other words are arbitrary. The application confirms
   the oldest block it has not confirmed yet.
   */
  ghost predicate Enabled<T>(p: Session, s: State<T>, step: Step<T>)
    requires Sized(p, s)
  {
    match step
    case Fetch(slot) =>
      s.devDesc.None? && slot < p.N() && p.descBus[slot] == s.devNext && HasDescMagic(s.desc[slot].control)
    case Complete(slot, buf, fill, record) =>
      && s.devDesc.Some?
      && slot < p.N() && p.descBus[slot] == s.devDesc.value.Src()
      && buf < p.N() && p.bufBus[buf] == s.devDesc.value.Dst()
      && 0 < |fill.data| && |fill.data| <= s.devDesc.value.bytes
      && (!fill.eop ==> |fill.data| == s.devDesc.value.bytes)
      && DeviceRecord(record.control, fill.eop) && record.bytes == |fill.data|
    case ScanBegin => s.scan.None? && s.blockScanned < p.N()
    case ScanExamine => s.scan.Some?
    case GetBuf => |s.fifo| > 0 && s.hist.taken < |s.hist.pushed|
    case ConfirmBegin => s.confirm.None? && s.hist.acked < s.hist.taken && s.hist.pushed[s.hist.acked].first < p.N()
    case ConfirmWrite(f) => s.confirm.Some? && f in s.confirm.value.todo
    case ConfirmPublish => s.confirm.Some? && s.confirm.value.todo == {}
  }

  function Overwrite<T>(data: seq<T>, buffer: seq<T>): seq<T> {
    if |data| <= |buffer| then data + buffer[|data|..] else data
  }

  function AfterExamine<T>(p: Session, s: State<T>): State<T>
    requires s.scan.Some? && s.scan.value < |s.desc|
  {
    var check := s.scan.value;
    var next := NextSlot(check, p.k);
    match Examine(s.desc[check], s.blockFirst, check, |s.fifo| < p.fifoCap)
    case Exhausted =>
      s.(blockScanned := check, scan := None, hist := s.hist.(scanned := s.hist.at))
    case Postponed =>
      s.(scan := None, hist := s.hist.(at := s.hist.scanned))
    case Reported(b) =>
      s.(fifo := s.fifo + [b], blockFirst := next, blockScanned := next, scan := Some(next),
        hist := s.hist.(pushed := s.hist.pushed + [b], start := s.hist.at + 1, scanned := s.hist.at + 1, at := s.hist.at + 1))
    case Advanced =>
      s.(scan := Some(next), hist := s.hist.(at := s.hist.at + 1))
  }

  ghost function Next<T>(p: Session, s: State<T>, step: Step<T>): State<T>
    requires Sized(p, s) && Enabled(p, s, step)
  {
    match step
    case Fetch(slot) => s.(devDesc := Some(s.desc[slot]))
    case Complete(slot, buf, fill, record) =>
      s.(desc := s.desc[slot := record], bufs := s.bufs[buf := Overwrite(fill.data, s.bufs[buf])],
        devNext := s.devDesc.value.Next(), devDesc := None,
        hist := s.hist.(fills := s.hist.fills + [fill]))
    case ScanBegin => s.(scan := Some(s.blockScanned), hist := s.hist.(at := s.hist.scanned))
    case ScanExamine => AfterExamine(p, s)
    case GetBuf => s.(fifo := s.fifo[1..], hist := s.hist.(taken := s.hist.taken + 1))
    case ConfirmBegin =>
      var b := s.hist.pushed[s.hist.acked];
      s.(confirm := Some(Confirming(b.first, b.last, ALL_FIELDS)))
    case ConfirmWrite(f) =>
      var c := s.confirm.value;
      s.(desc := s.desc[c.slot := Put(s.desc[c.slot], f, Get(p.saved[c.slot], f))],
        confirm := Some(c.(todo := c.todo - {f})))
    case ConfirmPublish =>
      var c := s.confirm.value;
      s.(desc := s.desc[c.slot := s.desc[c.slot].(control := p.saved[c.slot].control)],
        confirm := if c.slot == c.last then None else Some(Confirming(NextSlot(c.slot, p.k), c.last, ALL_FIELDS)),
        hist := s.hist.(freed := s.hist.freed + 1,
          acked := if c.slot == c.last then s.hist.acked + 1 else s.hist.acked))
  }

  /** Some slot of the ring is not waiting for the application. */
  predicate NotFull<T>(p: Session, s: State<T>) {
    |s.hist.fills| < s.hist.freed + p.N()
  }

  /** The scan position stands at a filled buffer that is still to be scanned, or a buffer is free. */
  predicate ScanGrounded<T>(p: Session, s: State<T>) {
    NotFull(p, s) || s.hist.at < |s.hist.fills|
  }

  /**
   The condition under which a scan round does no harm. On a full, fully scanned ring
   that takes a full queue and a complete one-buffer packet in the oldest slot.
   */
  predicate RoundSafe<T>(p: Session, s: State<T>) {
    || ScanGrounded(p, s)
    || (s.hist.freed < |s.hist.fills| && s.hist.fills[s.hist.freed].eop && |s.fifo| >= p.fifoCap)
  }

  /** START: the ring holds the saved descriptors and nothing has happened. */
  ghost predicate Init<T>(p: Session, s: State<T>) {
    && p.Valid()
    && s.desc == p.saved && |s.bufs| == p.N() && BufsOk(p, s.bufs)
    && s.blockFirst == 0 && s.blockScanned == 0 && s.fifo == []
    && s.scan.None? && s.confirm.None?
    && s.devNext == p.descBus[0] && s.devDesc.None?
    && s.hist == History([], [], 0, 0, 0, 0, 0, 0)
  }

  // ----- The invariant -----

  ghost predicate WindowOk<T>(p: Session, s: State<T>) {
    var h := s.hist;
    && h.freed <= h.start <= h.scanned <= h.at <= |h.fills| <= h.freed + p.N()
    && (s.scan.None? ==> h.at == h.scanned)
  }

  ghost predicate ScannerOk<T>(p: Session, s: State<T>)
    requires WindowOk(p, s)
  {
    var h := s.hist;
    && s.blockFirst == Slot(h.start, p.k) && s.blockScanned == Slot(h.scanned, p.k)
    && (s.scan.Some? ==> s.scan.value == Slot(h.at, p.k))
    && BlockStart(h.fills, h.start) == h.start
    && (forall j :: h.start <= j < h.at ==> !h.fills[j].eop)
  }

  /** How a block of the fill trace is announced to the application. */
  function WireBlock<T>(p: Session, fills: seq<Fill<T>>, e: Extent): Block
    requires e.last < |fills|
  {
    Block(Slot(e.first, p.k), Slot(e.last, p.k), |fills[e.last].data|)
  }

  ghost predicate Announces<T>(p: Session, fills: seq<Fill<T>>, blocks: seq<Extent>, pushed: seq<Block>) {
    && |pushed| == |blocks|
    && (forall b :: 0 <= b < |pushed| ==> blocks[b].last < |fills| && pushed[b] == WireBlock(p, fills, blocks[b]))
  }

  ghost predicate QueueOk<T>(p: Session, s: State<T>)
    requires WindowOk(p, s)
  {
    var h := s.hist;
    && Announces(p, h.fills, Cut(h.fills, h.start), h.pushed)
    && h.acked <= h.taken <= |h.pushed|
    && s.fifo == h.pushed[h.taken..] && |s.fifo| <= p.fifoCap
  }

  ghost predicate ConfirmOk<T>(p: Session, s: State<T>)
    requires WindowOk(p, s) && QueueOk(p, s) && |s.desc| == |p.saved| == p.N()
  {
    var h := s.hist;
    var blocks := Cut(h.fills, h.start);
    match s.confirm
    case None => h.freed == StartOf(blocks, h.acked)
    case Some(c) =>
      && h.acked < h.taken
      && blocks[h.acked].first <= h.freed <= blocks[h.acked].last
      && c.slot == Slot(h.freed, p.k) && c.last == Slot(blocks[h.acked].last, p.k)
      && (forall f :: f !in c.todo ==> Get(s.desc[c.slot], f) == Get(p.saved[c.slot], f))
  }

  /** Slot of an unconfirmed buffer: its writeback record and its data are those of the fill. */
  ghost predicate Held<T>(p: Session, s: State<T>, j: nat)
    requires j < |s.hist.fills| && |s.desc| == |s.bufs| == p.N()
  {
    var fill, d, buf := s.hist.fills[j], s.desc[Slot(j, p.k)], s.bufs[Slot(j, p.k)];
    && HasWritebackMagic(d.control) && (HasEop(d.control) <==> fill.eop)
    && ((s.confirm.Some? && j == s.hist.freed) || d.bytes == |fill.data|)
    && fill.data <= buf
  }

  ghost predicate SlotsOk<T>(p: Session, s: State<T>)
    requires WindowOk(p, s) && |s.desc| == |s.bufs| == |p.saved| == p.N()
  {
    var h := s.hist;
    && (forall j: nat :: h.freed <= j < |h.fills| ==> Held(p, s, j))
    && (forall j: nat :: |h.fills| <= j < h.freed + p.N() ==> s.desc[Slot(j, p.k)] == p.saved[Slot(j, p.k)])
  }

  ghost predicate FillsOk<T>(p: Session, fills: seq<Fill<T>>) {
    forall j :: 0 <= j < |fills| ==> 0 < |fills[j].data| <= p.bufLen && (!fills[j].eop ==> |fills[j].data| == p.bufLen)
  }

  ghost predicate BufsOk<T>(p: Session, bufs: seq<seq<T>>) {
    forall i :: 0 <= i < |bufs| ==> |bufs[i]| == p.bufLen
  }

  ghost predicate DeviceOk<T>(p: Session, s: State<T>)
    requires WindowOk(p, s) && |p.descBus| == |p.saved| == p.N()
  {
    var h := s.hist;
    && s.devNext == p.descBus[Slot(|h.fills|, p.k)]
    && (s.devDesc.Some? ==> NotFull(p, s) && s.devDesc.value == p.saved[Slot(|h.fills|, p.k)])
  }

  ghost predicate Shaped<T>(p: Session, s: State<T>) {
    Sized(p, s) && WindowOk(p, s)
  }

  ghost predicate Inv<T>(p: Session, s: State<T>) {
    && Shaped(p, s)
    && ScannerOk(p, s) && QueueOk(p, s) && ConfirmOk(p, s)
    && SlotsOk(p, s) && BufsOk(p, s.bufs) && FillsOk(p, s.hist.fills) && DeviceOk(p, s)
  }

  lemma InitInv<T>(p: Session, s: State<T>)
    requires Init(p, s)
    ensures Inv(p, s)
  {
  }

  // ----- Every step keeps the invariant -----

  /** Where the oldest unconfirmed block lies in the trace. */
  lemma OldestBlock<T>(p: Session, s: State<T>)
    requires WindowOk(p, s) && QueueOk(p, s) && s.hist.acked < |s.hist.pushed|
    ensures var blocks := Cut(s.hist.fills, s.hist.start);
      GoodBlock(s.hist.fills, s.hist.start, blocks, s.hist.acked)
  {
    CutIsDivision(s.hist.fills, s.hist.start);
  }

  /** Steps that touch no descriptor and no buffer keep what the slots hold. */
  lemma SlotsFrame<T>(p: Session, s: State<T>, s': State<T>)
    requires Shaped(p, s) && SlotsOk(p, s) && WindowOk(p, s') && s'.desc == s.desc && s'.bufs == s.bufs
    requires s'.hist.fills == s.hist.fills && s'.hist.freed == s.hist.freed
    requires s.confirm.Some? ==> s'.confirm.Some?
    ensures SlotsOk(p, s')
  {
    forall j: nat | s.hist.freed <= j < |s.hist.fills|
      ensures Held(p, s', j)
    {
      assert Held(p, s, j);
    }
  }

  /** A full ring shows the device no descriptor. */
  lemma FullRingStopsDevice<T>(p: Session, s: State<T>)
    requires p.Valid() && Shaped(p, s) && SlotsOk(p, s)
    requires HasDescMagic(s.desc[Slot(|s.hist.fills|, p.k)].control)
    ensures NotFull(p, s)
  {
    var h := s.hist;
    MagicsDiffer(s.desc[Slot(|h.fills|, p.k)].control);
    SlotPeriod(h.freed, p.k);
    assert h.freed < |h.fills| ==> Held(p, s, h.freed);
  }

  /** The slot under the device's address is the one after the last buffer it filled. */
  lemma FetchSlot<T>(p: Session, s: State<T>, slot: nat)
    requires p.Valid() && Shaped(p, s) && SlotsOk(p, s) && DeviceOk(p, s) && Enabled(p, s, Fetch(slot))
    ensures slot == Slot(|s.hist.fills|, p.k) && NotFull(p, s) && s.desc[slot] == p.saved[slot]
  {
    FullRingStopsDevice(p, s);
  }

  lemma FetchInv<T>(p: Session, s: State<T>, slot: nat)
    requires p.Valid() && Inv(p, s) && Enabled(p, s, Fetch(slot))
    ensures Inv(p, Next(p, s, Fetch(slot)))
  {
    FetchSlot(p, s, slot);
    SlotsFrame(p, s, Next(p, s, Fetch(slot)));
  }

  /** The device writes back to, and fills the buffer of, the slot it fetched. */
  lemma CompleteSlot<T>(p: Session, s: State<T>, slot: nat, buf: nat, fill: Fill<T>, record: Desc)
    requires p.Valid() && Shaped(p, s) && DeviceOk(p, s) && Enabled(p, s, Complete(slot, buf, fill, record))
    ensures NotFull(p, s) && slot == buf == Slot(|s.hist.fills|, p.k)
    ensures s.devDesc.value.Next() == p.descBus[NextSlot(slot, p.k)] && s.devDesc.value.bytes == p.bufLen
    ensures |fill.data| <= p.bufLen && (!fill.eop ==> |fill.data| == p.bufLen)
  {
    assert p.GoodCopy(Slot(|s.hist.fills|, p.k));
  }

  lemma CompleteSlots<T>(p: Session, s: State<T>, slot: nat, buf: nat, fill: Fill<T>, record: Desc)
    requires p.Valid() && Shaped(p, s) && SlotsOk(p, s) && DeviceOk(p, s) && Enabled(p, s, Complete(slot, buf, fill, record))
    requires WindowOk(p, Next(p, s, Complete(slot, buf, fill, record)))
    ensures SlotsOk(p, Next(p, s, Complete(slot, buf, fill, record)))
  {
    CompleteSlot(p, s, slot, buf, fill, record);
    var s' := Next(p, s, Complete(slot, buf, fill, record));
    var freed, n := s.hist.freed, |s.hist.fills|;
    WindowDistinct(freed, n, p.k);
    forall j: nat | freed <= j < n + 1
      ensures Held(p, s', j)
    {
      if j < n {
        assert Held(p, s, j);
      }
    }
  }

  lemma CompleteConfirm<T>(p: Session, s: State<T>, slot: nat, buf: nat, fill: Fill<T>, record: Desc)
    requires p.Valid() && Shaped(p, s) && QueueOk(p, s) && ConfirmOk(p, s) && DeviceOk(p, s)
    requires Enabled(p, s, Complete(slot, buf, fill, record))
    requires var s' := Next(p, s, Complete(slot, buf, fill, record)); WindowOk(p, s') && QueueOk(p, s')
    ensures ConfirmOk(p, Next(p, s, Complete(slot, buf, fill, record)))
  {
    CompleteSlot(p, s, slot, buf, fill, record);
    CutOfPrefix(s.hist.fills, [fill], s.hist.start);
    if s.confirm.Some? {
      OldestBlock(p, s);
      SlotsDistinct(s.hist.freed, |s.hist.fills|, p.k);
    }
  }

  lemma CompleteScanner<T>(p: Session, s: State<T>, slot: nat, buf: nat, fill: Fill<T>, record: Desc)
    requires p.Valid() && Shaped(p, s) && ScannerOk(p, s) && QueueOk(p, s) && DeviceOk(p, s)
    requires Enabled(p, s, Complete(slot, buf, fill, record))
    ensures var s' := Next(p, s, Complete(slot, buf, fill, record));
      Shaped(p, s') && ScannerOk(p, s') && QueueOk(p, s')
  {
    CompleteSlot(p, s, slot, buf, fill, record);
    CutOfPrefix(s.hist.fills, [fill], s.hist.start);
  }

  lemma CompleteDevice<T>(p: Session, s: State<T>, slot: nat, buf: nat, fill: Fill<T>, record: Desc)
    requires p.Valid() && Shaped(p, s) && FillsOk(p, s.hist.fills) && DeviceOk(p, s)
    requires Enabled(p, s, Complete(slot, buf, fill, record))
    requires WindowOk(p, Next(p, s, Complete(slot, buf, fill, record)))
    ensures var s' := Next(p, s, Complete(slot, buf, fill, record));
      FillsOk(p, s'.hist.fills) && DeviceOk(p, s')
  {
    CompleteSlot(p, s, slot, buf, fill, record);
    assert Slot(|s.hist.fills| + 1, p.k) == NextSlot(slot, p.k);
  }

  lemma CompleteBufs<T>(p: Session, s: State<T>, slot: nat, buf: nat, fill: Fill<T>, record: Desc)
    requires p.Valid() && Shaped(p, s) && DeviceOk(p, s) && Enabled(p, s, Complete(slot, buf, fill, record))
    requires BufsOk(p, s.bufs)
    ensures BufsOk(p, Next(p, s, Complete(slot, buf, fill, record)).bufs)
  {
    CompleteSlot(p, s, slot, buf, fill, record);
  }

  lemma CompleteInv<T>(p: Session, s: State<T>, slot: nat, buf: nat, fill: Fill<T>, record: Desc)
    requires p.Valid() && Inv(p, s) && Enabled(p, s, Complete(slot, buf, fill, record))
    ensures Inv(p, Next(p, s, Complete(slot, buf, fill, record)))
  {
    CompleteScanner(p, s, slot, buf, fill, record);
    CompleteDevice(p, s, slot, buf, fill, record);
    CompleteBufs(p, s, slot, buf, fill, record);
    CompleteSlots(p, s, slot, buf, fill, record);
    CompleteConfirm(p, s, slot, buf, fill, record);
  }

  lemma ScanBeginInv<T>(p: Session, s: State<T>)
    requires Inv(p, s) && Enabled(p, s, ScanBegin)
    ensures Inv(p, Next(p, s, ScanBegin))
  {
    SlotsFrame(p, s, Next(p, s, ScanBegin));
  }

  /** What a scan round should conclude, told from the fill trace alone. */
  ghost function Expected<T>(p: Session, s: State<T>): Outcome
    requires s.hist.at <= |s.hist.fills|
  {
    var h := s.hist;
    if h.at == |h.fills| then Exhausted
    else if !h.fills[h.at].eop then Advanced
    else if |s.fifo| < p.fifoCap then
      Reported(WireBlock(p, h.fills, Extent(h.start, h.at)))
    else Postponed
  }

  ghost function Seen<T>(p: Session, s: State<T>): Outcome
    requires s.scan.Some? && s.scan.value < |s.desc|
  {
    Examine(s.desc[s.scan.value], s.blockFirst, s.scan.value, |s.fifo| < p.fifoCap)
  }

  /** Unless the ring is full and fully scanned, a scan round reads exactly what the trace says. */
  lemma ScanSees<T>(p: Session, s: State<T>)
    requires p.Valid() && Shaped(p, s) && ScannerOk(p, s) && QueueOk(p, s) && ConfirmOk(p, s) && SlotsOk(p, s)
    requires s.scan.Some? && ScanGrounded(p, s)
    ensures Seen(p, s) == Expected(p, s)
  {
    var h := s.hist;
    if h.at < |h.fills| {
      assert Held(p, s, h.at);
      if s.confirm.Some? {
        OldestBlock(p, s);
      }
    } else {
      assert p.GoodCopy(Slot(h.at, p.k));
      MagicsDiffer(s.desc[s.scan.value].control);
    }
  }

  lemma ExamineScanner<T>(p: Session, s: State<T>)
    requires Shaped(p, s) && ScannerOk(p, s) && s.scan.Some? && Seen(p, s) == Expected(p, s)
    requires s.hist.taken <= |s.hist.pushed|
    ensures Shaped(p, AfterExamine(p, s)) && ScannerOk(p, AfterExamine(p, s))
  {
    var h := s.hist;
    assert Slot(h.at + 1, p.k) == NextSlot(s.scan.value, p.k);
    match Expected(p, s) {
      case Exhausted =>
      case Postponed =>
      case Advanced =>
      case Reported(b) => assert BlockStart(h.fills, h.at + 1) == h.at + 1;
    }
  }

  /** Reporting a block announces the next block of the trace. */
  lemma ExamineQueue<T>(p: Session, s: State<T>)
    requires Shaped(p, s) && ScannerOk(p, s) && QueueOk(p, s) && s.scan.Some? && Seen(p, s) == Expected(p, s)
    requires WindowOk(p, AfterExamine(p, s))
    ensures QueueOk(p, AfterExamine(p, s))
    ensures Cut(s.hist.fills, s.hist.start) <= Cut(s.hist.fills, AfterExamine(p, s).hist.start)
  {
    var h := s.hist;
    if Expected(p, s).Reported? {
      CutUnchanged(h.fills, h.start, h.at);
      assert Cut(h.fills, h.at + 1) == Cut(h.fills, h.start) + [Extent(h.start, h.at)];
    }
  }

  lemma ExamineConfirm<T>(p: Session, s: State<T>)
    requires Shaped(p, s) && QueueOk(p, s) && ConfirmOk(p, s) && s.scan.Some?
    requires var s' := AfterExamine(p, s);
      && WindowOk(p, s') && QueueOk(p, s')
      && Cut(s.hist.fills, s.hist.start) <= Cut(s.hist.fills, s'.hist.start)
    ensures ConfirmOk(p, AfterExamine(p, s))
  {
    var s' := AfterExamine(p, s);
    var before, now := Cut(s.hist.fills, s.hist.start), Cut(s.hist.fills, s'.hist.start);
    assert StartOf(now, s.hist.acked) == StartOf(before, s.hist.acked);
  }

  lemma ExamineFrame<T>(p: Session, s: State<T>)
    requires s.scan.Some? && s.scan.value < |s.desc|
    ensures var s' := AfterExamine(p, s);
      && s'.desc == s.desc && s'.bufs == s.bufs && s'.confirm == s.confirm
      && s'.devNext == s.devNext && s'.devDesc == s.devDesc
      && s'.hist.fills == s.hist.fills && s'.hist.freed == s.hist.freed
      && s'.hist.taken == s.hist.taken && s'.hist.acked == s.hist.acked
  {
  }

  /** On a full, fully scanned ring a round reads the record of the oldest buffer again. */
  lemma FullRound<T>(p: Session, s: State<T>)
    requires Shaped(p, s) && ScannerOk(p, s) && SlotsOk(p, s) && s.scan.Some? && !ScanGrounded(p, s)
    ensures s.hist.at == |s.hist.fills| > s.hist.freed && |s.desc| > s.scan.value
    ensures Seen(p, s) ==
      if !s.hist.fills[s.hist.freed].eop then Advanced
      else if |s.fifo| < p.fifoCap then
        Reported(Block(s.blockFirst, s.scan.value, s.desc[s.scan.value].bytes))
      else Postponed
  {
    SlotPeriod(s.hist.freed, p.k);
    assert Held(p, s, s.hist.freed);
  }

  /** Giving up a round because the queue is full changes nothing but the scan position. */
  lemma PostponedInv<T>(p: Session, s: State<T>)
    requires Inv(p, s) && s.scan.Some? && Seen(p, s) == Postponed
    ensures Inv(p, AfterExamine(p, s))
  {
    ExamineFrame(p, s);
    SlotsFrame(p, s, AfterExamine(p, s));
  }

  lemma GroundedInv<T>(p: Session, s: State<T>)
    requires p.Valid() && Inv(p, s) && s.scan.Some? && ScanGrounded(p, s)
    ensures Inv(p, AfterExamine(p, s))
  {
    ScanSees(p, s);
    ExamineScanner(p, s);
    ExamineQueue(p, s);
    ExamineConfirm(p, s);
    ExamineFrame(p, s);
    SlotsFrame(p, s, AfterExamine(p, s));
  }

  lemma ScanExamineInv<T>(p: Session, s: State<T>)
    requires p.Valid() && Inv(p, s) && Enabled(p, s, ScanExamine) && RoundSafe(p, s)
    ensures Inv(p, Next(p, s, ScanExamine))
  {
    if ScanGrounded(p, s) {
      GroundedInv(p, s);
    } else {
      FullRound(p, s);
      PostponedInv(p, s);
    }
  }

  lemma GetBufQueue<T>(p: Session, s: State<T>)
    requires Shaped(p, s) && QueueOk(p, s) && ConfirmOk(p, s) && Enabled(p, s, GetBuf)
    ensures var s' := Next(p, s, GetBuf); Shaped(p, s') && QueueOk(p, s') && ConfirmOk(p, s')
  {
  }

  lemma GetBufInv<T>(p: Session, s: State<T>)
    requires Inv(p, s) && Enabled(p, s, GetBuf)
    ensures Inv(p, Next(p, s, GetBuf))
  {
    GetBufQueue(p, s);
    SlotsFrame(p, s, Next(p, s, GetBuf));
  }

  lemma ConfirmBeginConfirm<T>(p: Session, s: State<T>)
    requires Shaped(p, s) && QueueOk(p, s) && ConfirmOk(p, s) && Enabled(p, s, ConfirmBegin)
    ensures var s' := Next(p, s, ConfirmBegin); Shaped(p, s') && QueueOk(p, s') && ConfirmOk(p, s')
  {
    OldestBlock(p, s);
  }

  lemma ConfirmBeginInv<T>(p: Session, s: State<T>)
    requires Inv(p, s) && Enabled(p, s, ConfirmBegin)
    ensures Inv(p, Next(p, s, ConfirmBegin))
  {
    ConfirmBeginConfirm(p, s);
    SlotsFrame(p, s, Next(p, s, ConfirmBegin));
  }

  /** Restoring words of the oldest unconfirmed slot leaves every other slot as it was. */
  lemma ConfirmSlots<T>(p: Session, s: State<T>, s': State<T>, d: Desc)
    requires Shaped(p, s) && SlotsOk(p, s) && s.confirm.Some? && WindowOk(p, s')
    requires s.hist.freed < |s.hist.fills| && s.confirm.value.slot == Slot(s.hist.freed, p.k)
    requires s'.bufs == s.bufs && s'.hist.fills == s.hist.fills && s'.desc == s.desc[s.confirm.value.slot := d]
    requires
      || (s'.hist.freed == s.hist.freed && s'.confirm.Some? && d.control == s.desc[s.confirm.value.slot].control)
      || (s'.hist.freed == s.hist.freed + 1 && d == p.saved[s.confirm.value.slot])
    ensures SlotsOk(p, s')
  {
    var h := s.hist;
    WindowDistinct(h.freed, h.freed, p.k);
    SlotPeriod(h.freed, p.k);
    forall j: nat | s'.hist.freed <= j < |h.fills|
      ensures Held(p, s', j)
    {
      assert Held(p, s, j);
    }
  }

  lemma PutThenGet(d: Desc, f: Field, g: Field, w: Word)
    ensures Get(Put(d, f, w), g) == (if f == g then w else Get(d, g)) && Put(d, f, w).control == d.control
  {
  }

  lemma ConfirmWriteConfirm<T>(p: Session, s: State<T>, f: Field)
    requires Shaped(p, s) && QueueOk(p, s) && ConfirmOk(p, s) && Enabled(p, s, ConfirmWrite(f))
    ensures var s', slot := Next(p, s, ConfirmWrite(f)), s.confirm.value.slot;
      Shaped(p, s') && QueueOk(p, s') && ConfirmOk(p, s') && s'.desc[slot].control == s.desc[slot].control
    ensures s.hist.freed < |s.hist.fills| && s.confirm.value.slot == Slot(s.hist.freed, p.k)
  {
    OldestBlock(p, s);
    var c := s.confirm.value;
    forall g | g !in c.todo - {f}
      ensures Get(Put(s.desc[c.slot], f, Get(p.saved[c.slot], f)), g) == Get(p.saved[c.slot], g)
    {
      PutThenGet(s.desc[c.slot], f, g, Get(p.saved[c.slot], f));
    }
  }

  lemma ConfirmWriteInv<T>(p: Session, s: State<T>, f: Field)
    requires Inv(p, s) && Enabled(p, s, ConfirmWrite(f))
    ensures Inv(p, Next(p, s, ConfirmWrite(f)))
  {
    var s' := Next(p, s, ConfirmWrite(f));
    ConfirmWriteConfirm(p, s, f);
    ConfirmSlots(p, s, s', s'.desc[s.confirm.value.slot]);
  }

  /** After its last word is written the slot is the saved descriptor again. */
  lemma PublishSlot<T>(p: Session, s: State<T>)
    requires Shaped(p, s) && QueueOk(p, s) && ConfirmOk(p, s) && Enabled(p, s, ConfirmPublish)
    ensures var s', slot := Next(p, s, ConfirmPublish), s.confirm.value.slot;
      s'.desc[slot] == p.saved[slot] && slot == Slot(s.hist.freed, p.k) && NextSlot(slot, p.k) == Slot(s.hist.freed + 1, p.k)
  {
    var slot := s.confirm.value.slot;
    AllFieldsRestored(s.desc[slot].(control := p.saved[slot].control), p.saved[slot]);
  }

  lemma PublishWindow<T>(p: Session, s: State<T>)
    requires Shaped(p, s) && QueueOk(p, s) && ConfirmOk(p, s) && Enabled(p, s, ConfirmPublish)
    ensures var s' := Next(p, s, ConfirmPublish); Shaped(p, s') && QueueOk(p, s')
    ensures s.hist.freed < |s.hist.fills|
  {
    OldestBlock(p, s);
  }

  lemma PublishConfirm<T>(p: Session, s: State<T>)
    requires Shaped(p, s) && QueueOk(p, s) && ConfirmOk(p, s) && Enabled(p, s, ConfirmPublish)
    requires var s' := Next(p, s, ConfirmPublish); WindowOk(p, s') && QueueOk(p, s')
    ensures ConfirmOk(p, Next(p, s, ConfirmPublish))
  {
    var c, freed := s.confirm.value, s.hist.freed;
    var last := Cut(s.hist.fills, s.hist.start)[s.hist.acked].last;
    assert NextSlot(c.slot, p.k) == Slot(freed + 1, p.k);
    assert c.slot == c.last <==> freed == last by {
      OldestBlock(p, s);
      if freed < last {
        SlotsDistinct(freed, last, p.k);
      }
    }
  }

  lemma ConfirmPublishInv<T>(p: Session, s: State<T>)
    requires Inv(p, s) && Enabled(p, s, ConfirmPublish)
    ensures Inv(p, Next(p, s, ConfirmPublish))
  {
    var s' := Next(p, s, ConfirmPublish);
    PublishSlot(p, s);
    PublishWindow(p, s);
    PublishConfirm(p, s);
    ConfirmSlots(p, s, s', s'.desc[s.confirm.value.slot]);
  }

  lemma AllFieldsRestored(d: Desc, saved: Desc)
    requires d.control == saved.control && forall f :: Get(d, f) == Get(saved, f)
    ensures d == saved
  {
    assert Get(d, Bytes) == Get(saved, Bytes);
    assert Get(d, SrcLo) == Get(saved, SrcLo) && Get(d, SrcHi) == Get(saved, SrcHi);
    assert Get(d, DstLo) == Get(saved, DstLo) && Get(d, DstHi) == Get(saved, DstHi);
    assert Get(d, NextLo) == Get(saved, NextLo) && Get(d, NextHi) == Get(saved, NextHi);
  }
}

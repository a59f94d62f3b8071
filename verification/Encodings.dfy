/**
 The words that hardware, driver and application exchange, spelled out bit by bit or by
 example, so that each side of an encoding stands on its own.
 */
module Encodings {
  import opened Words
  import opened Descriptors
  import opened RingProtocol
  import opened Pages
  import opened Scatter
  import Transfer
  import WzDriver
  import Accounting
  import opened Source
  import opened EndToEnd
  import Framing
  import DataProducer
  import DmaPacket
  import opened DataMoverWords
  import DataMover
  import DataMoverDriver
  import opened BitHeader
  import opened BitStream

  // ----- Descriptors and writeback records -----

  /** Which control words the device takes as descriptors, and which of them stop it. */
  lemma DescriptorBits(control: bv32)
    ensures HasDescMagic(control) <==> control & 0xffff_0000 == 0xAD4B_0000
    ensures IsStopped(control) <==> control & 0x1 == 0x1
  {
    assert control >> 16 == 0xAD4B <==> control & 0xffff_0000 == 0xAD4B_0000;
  }

  /** The adjacency of a descriptor is bits 8 to 11, whatever the flags. */
  lemma AdjacencyField(extra: bv32, low: bv32, reserved: bv32)
    requires extra < 16 && low < 0x100 && reserved < 16
    ensures ExtraAdjacent(0xAD4B_0000 | (reserved << 12) | (extra << 8) | low) == extra as nat
  {
    assert ((0xAD4B_0000 | (reserved << 12) | (extra << 8) | low) >> 8) & 0xf == extra;
  }

  /** What a round of the scan makes of every status word. */
  lemma ExamineBits(d: Desc, first: nat, check: nat, room: bool)
    ensures var o := Examine(d, first, check, room);
      if d.control & 0xffff_0000 != 0x52B4_0000 then o == Exhausted
      else if d.control & 0x1 == 0 then o == Advanced
      else o == if room then Reported(Block(first, check, d.bytes)) else Postponed
  {
    RecordBits(d.control);
  }

  lemma RecordBits(word: bv32)
    ensures HasWritebackMagic(word) <==> word & 0xffff_0000 == 0x52B4_0000
    ensures HasEop(word) <==> word & 0x1 != 0
  {
    assert word & 0x1 == 0 || word & 0x1 == 1;
  }

  /** A device record is a writeback word with its flag, for every value of the other bits. */
  lemma DeviceRecordBits(rest: bv32, eop: bool)
    requires rest < 0x8000
    ensures DeviceRecord(0x52B4_0000 | (rest << 1) | (if eop then 1 else 0), eop)
    ensures !DeviceRecord(0x52B4_0000 | (rest << 1) | (if eop then 1 else 0), !eop)
  {
  }

  /** To the device the host memory is the source, from the device the destination. */
  lemma Directions(d: Desc, host: Addr, ep: Addr, len: Word)
    ensures var w := SetTransfer(d, host, ep, len, true); w.Src() == host && w.Dst() == ep && w.bytes == len
    ensures var r := SetTransfer(d, host, ep, len, false); r.Src() == ep && r.Dst() == host && r.bytes == len
    ensures RunOf(SetTransfer(d, host, ep, len, true), true) == Run(host, ep, len)
    ensures RunOf(SetTransfer(d, host, ep, len, false), false) == Run(host, ep, len)
  {
    JoinOfHalves(host);
    JoinOfHalves(ep);
  }

  /** Only user space can ask for a fixed endpoint address, and only the kernel for one descriptor per entry. */
  lemma OptionsMean(nonIncrAddr: bool, forceNewDesc: bool)
    ensures Options(nonIncrAddr, forceNewDesc, true).Incr() == !nonIncrAddr && !Options(nonIncrAddr, forceNewDesc, true).Forced()
    ensures Options(nonIncrAddr, forceNewDesc, false).Incr() && Options(nonIncrAddr, forceNewDesc, false).Forced() == forceNewDesc
  {
  }

  /** A user address keeps its offset in the frame of its page. */
  lemma PhysicalAddress(pageTable: nat -> nat, u: nat)
    ensures Phys(pageTable, u) / 4096 == pageTable(u / 4096) && Phys(pageTable, u) % 4096 == u % 4096
  {
    ModUnique(Phys(pageTable, u), 4096, pageTable(u / 4096), u % 4096);
  }

  // ----- Engine status -----

  predicate Bit(word: bv32, i: nat)
    requires i < 32
  {
    (word >> i) & 1 == 1
  }

  /** The engine is busy by bit 0, and in error by bits 3, 4, 9 to 13 and 19 to 23. */
  lemma StatusRegister(register: bv32)
    ensures Accounting.ReadStatus(register).busy <==> Bit(register, 0)
    ensures Accounting.ReadStatus(register).error <==>
      || Bit(register, 3) || Bit(register, 4)
      || Bit(register, 9) || Bit(register, 10) || Bit(register, 11) || Bit(register, 12) || Bit(register, 13)
      || Bit(register, 19) || Bit(register, 20) || Bit(register, 21) || Bit(register, 22) || Bit(register, 23)
  {
    assert Accounting.ERR_FLAGS == 0xF8_3E18;
  }

  /** The count is the low 24 bits of a writeback word, the error flag is bit 31. */
  lemma WritebackWord(count: nat, between: nat, error: bool)
    requires count < 0x100_0000 && between < 128
    ensures var w := count + 0x100_0000 * between + if error then 0x8000_0000 else 0;
      Accounting.WbCount(w) == count && Accounting.WbError(w) == error
  {
  }

  lemma WordArithmetic(a: Word, b: Word)
    ensures AddWord(a, b) == (a + b) % 0x1_0000_0000 && SubWord(a, b) == (a - b) % 0x1_0000_0000
  {
  }

  // ----- The packet source and its reader -----

  /** tdata of the header: the start in bits 7..0, the step in bits 11..8, the length in bits 63..32. */
  lemma HeaderBeat(len: nat, step: nat, init: nat)
    requires len < TWO_32 && step < 16 && init < 256
    ensures var h := Source.Header(len, step, init);
      && h.w0 % 256 == init && h.w0 / 256 == step && h.w1 == len
      && h.w2 == 0 && h.w3 == 0 && h.w4 == 0 && h.w5 == 0 && h.w6 == 0 && h.w7 == 0
  {
  }

  /** The reader takes the same bits, whatever the others are. */
  lemma HeaderRead(init: nat, step: nat, rest: nat)
    requires init < 256 && step < 16 && init + 0x100 * step + 0x1000 * rest < TWO_32
    ensures GetInit(init + 0x100 * step + 0x1000 * rest) == init && GetStep(init + 0x100 * step + 0x1000 * rest) == step
  {
  }

  /** The t-th counter is init + t * step in 32 bits, and a beat holds it and the next seven. */
  lemma {:induction false} CounterIsLinear(init: Word, step: Word, t: nat)
    ensures CounterAt(init, step, t) == (init + t * step) % TWO_32
  {
    if t > 0 {
      CounterIsLinear(init, step, t - 1);
      ModAddLeft(init + (t - 1) * step, step, TWO_32);
      assert init + (t - 1) * step + step == init + t * step;
      WordArithmetic(CounterAt(init, step, t - 1), step);
    }
  }

  lemma CounterBeat(c: Word, j: nat)
    requires j < 8
    ensures EndToEnd.WordAt(Counters(c), j) == (c + j) % TWO_32
  {
    WordArithmetic(c, j);
  }

  /** Words lie in memory lowest byte first, eight words to a beat. */
  lemma LittleEndian(b0: Byte, b1: Byte, b2: Byte, b3: Byte)
    ensures WordBytes(b0 + 0x100 * b1 + 0x1_0000 * b2 + 0x100_0000 * b3) == [b0, b1, b2, b3]
    ensures WordOf(b0, b1, b2, b3) == b0 + 0x100 * b1 + 0x1_0000 * b2 + 0x100_0000 * b3
  {
    var w := b0 + 0x100 * b1 + 0x1_0000 * b2 + 0x100_0000 * b3;
    assert w % 0x1_0000 == b0 + 0x100 * b1 && w / 0x1_0000 == b2 + 0x100 * b3;
  }

  // ----- The packet generators -----

  /** tdata and tlast of the first generator, in every state. */
  lemma ProducerWords(r: DataProducer.Regs)
    ensures DataProducer.Word(r) == 0xA000_0000_0000 + r.wordCount && DataProducer.Last(r) == (r.wordCount == 16383)
    ensures DataProducer.Valid(r) == r.state.Data?
  {
  }

  /** tdata, tlast and tvalid of the second. */
  lemma PacketizerWords(r: DmaPacket.Regs)
    ensures DmaPacket.Valid(r) == (r.state.Header? || r.state.Data?)
    ensures DmaPacket.Word(r) == match r.state
      case Header => if r.wordCount == 0 then 0x4010 else 0xA5
      case Data => r.wordCount
      case _ => 0
    ensures DmaPacket.Last(r) == (r.state.Data? && r.wordCount == 2047)
  {
  }

  /** The state HEADER of the first generator counts accepted beats in 28 bits, and is never left. */
  lemma HeaderState(word: nat, group: nat, i: DataProducer.Input)
    requires word < 0x1000_0000
    ensures DataProducer.Edge(DataProducer.Regs(DataProducer.Header, word, group), i)
      == DataProducer.Regs(DataProducer.Header, if i.ready then (word + 1) % 0x1000_0000 else word, group)
  {
  }

  // ----- The first driver version -----

  /** A status by example, and the flag that makes one OKAY. */
  lemma StatusBits(res: bv32)
    ensures StatusWord(3, 0x1234, true) == 0x8012_3483
    ensures Okay(res) <==> (res >> 7) & 1 == 1
    ensures BLen(0xFFFF_FF7F) == 0x3f_ffff && NBuf(0xFFFF_FF7F) == 15
  {
  }

  /** A response counts if it is one word long and that word has bit 7. */
  lemma ResponseBits(length: nat, word: bv32)
    ensures DataMoverDriver.Good(DataMoverDriver.Response(length, word)) <==> length == 4 && (word >> 7) & 1 == 1
  {
    StatusBits(word);
  }

  lemma CommandBits()
    ensures COMMAND_WORD == 0x40BF_FFFF && CommandLength(0xFFFF_FFFF) == 0x7f_ffff
  {
  }

  lemma PackedBits()
    ensures Pack(2, 0x1000) == 0x0200_1000 && Pack(15, 0x3f_ffff) == 0x0F3F_FFFF
  {
  }

  /** A round of the handler: this buffer, this length, the next buffer expected; nothing else. */
  lemma HandlerMeans<L>(d: DataMover.Driver<L>, st: DataMover.Status<L>, n: nat)
    requires st.tag < |d.blen| && st.tag < |d.bready|
    ensures DataMover.Handle(d, st, n) == d.(
      bready := d.bready[st.tag := true], blen := d.blen[st.tag := st.len],
      expBuf := if d.expBuf + 1 == n then 0 else d.expBuf + 1)
  {
  }

  // ----- Bitstream files -----

  /** A whole header: magic, design "x", part "7k", date and time, 0x01020304 bytes of payload. */
  lemma ExampleHeader()
    ensures var h := BitHeader.Header(9, [120, 0], [55, 107, 0], [49, 0], [50, 0], 0x0102_0304);
      && WellFormed(h)
      && Print(h, 0) ==
        [0, 9, 0x0f, 0xf0, 0x0f, 0xf0, 0x0f, 0xf0, 0x0f, 0xf0, 0, 0, 1]
        + [97, 0, 2, 120, 0] + [98, 0, 3, 55, 107, 0] + [99, 0, 2, 49, 0] + [100, 0, 2, 50, 0] + [101, 1, 2, 3, 4]
  {
    var h := BitHeader.Header(9, [120, 0], [55, 107, 0], [49, 0], [50, 0], 0x0102_0304);
    assert MagicBytes(8) == [0x0f, 0xf0, 0x0f, 0xf0, 0x0f, 0xf0, 0x0f, 0xf0];
    assert Preamble(9, 0) == [0, 9, 0x0f, 0xf0, 0x0f, 0xf0, 0x0f, 0xf0, 0x0f, 0xf0, 0, 0, 1];
    assert FieldBytes(TAG_A, h.designName) == [97, 0, 2, 120, 0];
    assert FieldBytes(TAG_B, h.partName) == [98, 0, 3, 55, 107, 0];
    assert FieldBytes(TAG_C, h.date) == [99, 0, 2, 49, 0];
    assert FieldBytes(TAG_D, h.time) == [100, 0, 2, 50, 0];
  }

  /** A string is accepted only with its final NUL. */
  lemma StringsEndInNul(data: seq<Byte>, i: nat, tag: Byte)
    ensures var r := ParseField(data, i, tag);
      r.Ok? ==> i < |data| && data[i] == tag && |r.value| > 0 && r.value[|r.value| - 1] == 0
  {
    var r := ParseField(data, i, tag);
    if r.Ok? {
      FieldExact(data, i, tag, r.value, r.next);
    }
  }

  /** Payload words are sent most significant byte first. */
  lemma BigEndianWord(a: Byte, b: Byte, c: Byte, d: Byte)
    ensures BitStream.WordAt([a, b, c, d], 0) == 0x100_0000 * a + 0x1_0000 * b + 0x100 * c + d
  {
  }

  /** 2048 bytes are two pieces, and so two bursts however much room there is. */
  lemma PiecesOfOneKilobyte()
    ensures FeedPieces(t => 1000, t => true, 0, 0, 0, 2048) == Fed(512, 2, 2, true)
  {
    var room: nat -> int, done: nat -> bool := t => 1000, t => true;
    assert Feed(room, done, 1, 1, 256, 256) == Fed(512, 2, 2, true);
    assert Feed(room, done, 0, 0, 0, 256) == Fed(256, 1, 1, true);
  }

  // ----- Sizes and codes -----

  lemma Constants()
    ensures PAGE_SIZE == 0x1000 && DESC_BYTES == 32 && MAX_EXTRA_ADJ == 15
    ensures DESC_MAX_BYTES == 0x3_FFFF && Transfer.TRANSFER_MAX_BYTES == 0x80_0000 && Transfer.LAST_CONTROL == 0x13
    ensures MIN_LEN == 160000 && LEN_RANGE == 0x8_0000 && BITFILE_BUFFER_SIZE == 1024
    ensures WzDriver.EINVAL == DataMoverDriver.EINVAL == BitStream.EINVAL == Pages.EINVAL == 22
    ensures WzDriver.ENOMEM == Pages.ENOMEM == 12 && WzDriver.EIO == Transfer.EIO == BitStream.EIO == 5
    ensures WzDriver.ERESTARTSYS == Transfer.ERESTARTSYS == 512
  {
  }
}

/**
 The 32-byte scatter-gather descriptor, the edits the driver makes to it, and
 the writeback record the device stores over the first two words of the same
 memory (`xdma_desc` and `xdma_result` overlay each other).
 */
module Descriptors {
  import opened Words

  datatype Desc = Desc(
    control: bv32, bytes: Word,
    srcLo: Word, srcHi: Word,
    dstLo: Word, dstHi: Word,
    nextLo: Word, nextHi: Word)
  {
    function Src(): Addr { Join(srcHi, srcLo) }
    function Dst(): Addr { Join(dstHi, dstLo) }
    function Next(): Addr { Join(nextHi, nextLo) }
  }

  const DESC_BYTES := 32
  const DESC_MAGIC: bv32 := 0xAD4B_0000
  const STOPPED: bv32 := 0x01
  const COMPLETED: bv32 := 0x02
  const EOP: bv32 := 0x10
  const MAX_EXTRA_ADJ := 15

  /** The device accepts a descriptor only with this pattern in the upper half. */
  predicate HasDescMagic(control: bv32) {
    control >> 16 == 0xAD4B
  }

  /** C2H_WB in the upper half of `xdma_result.status`. */
  predicate HasWritebackMagic(status: bv32) {
    (status >> 16) & 0xffff == 0x52B4
  }

  predicate HasEop(status: bv32) {
    status & 1 == 1
  }

  /**
   The word the device stores in a finished descriptor: 0x52B4 above, the end-of-packet
   flag in bit 0, and anything in between.
   */
  predicate DeviceRecord(word: bv32, eop: bool) {
    word & 0xffff_0001 == if eop then 0x52B4_0001 else 0x52B4_0000
  }

  lemma RecordReads(word: bv32, eop: bool)
    requires DeviceRecord(word, eop)
    ensures HasWritebackMagic(word) && (HasEop(word) <==> eop)
  {
    assert (word & 0xffff_0001) >> 16 == word >> 16;
    assert (word & 0xffff_0001) & 1 == word & 1;
  }

  predicate IsStopped(control: bv32) {
    control & STOPPED == STOPPED
  }

  lemma MagicsDiffer(control: bv32)
    ensures !(HasDescMagic(control) && HasWritebackMagic(control))
  {
    if HasDescMagic(control) {
      assert (control >> 16) & 0xffff == 0xAD4B;
    }
  }

  /** Bits 8..11: how many descriptors beyond the next one may be fetched with it. */
  function ExtraAdjacent(control: bv32): (r: nat)
    ensures r <= MAX_EXTRA_ADJ
  {
    var field := (control >> 8) & 0xf;
    assert field <= 15;
    field as int
  }

  function LowByte(control: bv32): bv32 {
    control & 0xff
  }

  function Reserved(control: bv32): bv32 {
    (control >> 12) & 0xf
  }

  /** xdma_desc_link: point at `next`, or terminate the list. */
  function Link(d: Desc, next: Option<Addr>): Desc {
    var control := (d.control & 0xf0ff) | DESC_MAGIC;
    match next
    case Some(bus) => d.(control := control, nextLo := Lo(bus), nextHi := Hi(bus))
    case None => d.(control := control, nextLo := 0, nextHi := 0)
  }

  function MergeControl(control: bv32, field: bv32): bv32 {
    (control & 0xffff_ff00) | field
  }

  /** xdma_desc_control: replace the whole low byte. */
  function SetControl(d: Desc, field: bv32): Desc
    requires field & 0xff == field
  {
    d.(control := MergeControl(d.control, field))
  }

  /**
   The adjacency xdma_desc_adjacent stores. The 4 KB limit is an unsigned
   32-bit expression in the source, so it wraps when it would be negative.
   */
  function ExtraAdj(nextLo: Word, nextAdjacent: int): (r: nat)
    ensures r <= MAX_EXTRA_ADJ
  {
    if nextAdjacent > 0 then
      var extra := if nextAdjacent - 1 > MAX_EXTRA_ADJ then MAX_EXTRA_ADJ else nextAdjacent - 1;
      var limit := ((0x1000 - nextLo % 0x1000) / 32 - 1) % TWO_32;
      if extra > limit then limit else extra
    else 0
  }

  function AdjacentControl(control: bv32, extra: nat): bv32
    requires extra <= MAX_EXTRA_ADJ
  {
    (control & 0xf0ff) | DESC_MAGIC | ((extra as bv32) << 8)
  }

  /** xdma_desc_adjacent */
  function Adjacent(d: Desc, nextAdjacent: int): Desc {
    d.(control := AdjacentControl(d.control, ExtraAdj(d.nextLo, nextAdjacent)))
  }

  /** xdma_desc_set: fill in the transfer, leaving control and next alone. */
  function SetTransfer(d: Desc, rcBusAddr: Addr, epAddr: Addr, len: Word, dirToDev: bool): Desc {
    if dirToDev then
      d.(bytes := len, srcLo := Lo(rcBusAddr), srcHi := Hi(rcBusAddr), dstLo := Lo(epAddr), dstHi := Hi(epAddr))
    else
      d.(bytes := len, srcLo := Lo(epAddr), srcHi := Hi(epAddr), dstLo := Lo(rcBusAddr), dstHi := Hi(rcBusAddr))
  }

  /** The host side of a descriptor, whichever way the data flows. */
  function HostAddr(d: Desc, dirToDev: bool): Addr {
    if dirToDev then d.Src() else d.Dst()
  }

  function EndpointAddr(d: Desc, dirToDev: bool): Addr {
    if dirToDev then d.Dst() else d.Src()
  }

  lemma SetTransferReadsBack(d: Desc, rcBusAddr: Addr, epAddr: Addr, len: Word, dirToDev: bool)
    ensures var r := SetTransfer(d, rcBusAddr, epAddr, len, dirToDev);
      && HostAddr(r, dirToDev) == rcBusAddr && EndpointAddr(r, dirToDev) == epAddr && r.bytes == len
      && r.control == d.control && r.Next() == d.Next()
  {
    JoinOfHalves(rcBusAddr);
    JoinOfHalves(epAddr);
  }

  lemma LinkBits(c: bv32)
    ensures (((c & 0xf0ff) | DESC_MAGIC) >> 8) & 0xf == 0
    ensures ((c & 0xf0ff) | DESC_MAGIC) >> 16 == 0xAD4B
    ensures ((c & 0xf0ff) | DESC_MAGIC) & 0xff == c & 0xff
    ensures (((c & 0xf0ff) | DESC_MAGIC) >> 12) & 0xf == (c >> 12) & 0xf
  {
  }

  lemma ControlBits(c: bv32, field: bv32)
    requires field & 0xff == field
    ensures (((c & 0xffff_ff00) | field) >> 12) & 0xf == (c >> 12) & 0xf
    ensures ((c & 0xffff_ff00) | field) >> 16 == c >> 16
    ensures ((c & 0xffff_ff00) | field) & 0xff == field
    ensures (((c & 0xffff_ff00) | field) >> 8) & 0xf == (c >> 8) & 0xf
  {
  }

  /** Linking restores the magic and clears the adjacency; flags and reserved bits survive. */
  lemma LinkKeepsFields(d: Desc, next: Option<Addr>)
    ensures var r := Link(d, next);
      && HasDescMagic(r.control) && ExtraAdjacent(r.control) == 0
      && LowByte(r.control) == LowByte(d.control) && Reserved(r.control) == Reserved(d.control)
      && r.Next() == (match next case Some(bus) => bus case None => 0)
      && r == d.(control := r.control, nextLo := r.nextLo, nextHi := r.nextHi)
  {
    LinkBits(d.control);
    match next {
      case Some(bus) => JoinOfHalves(bus);
      case None =>
    }
  }

  /** Replacing the low byte disturbs neither the magic, the adjacency nor the reserved bits. */
  lemma ControlKeepsFields(c: bv32, field: bv32)
    requires field & 0xff == field
    ensures var r := MergeControl(c, field);
      && LowByte(r) == field && Reserved(r) == Reserved(c)
      && (HasDescMagic(r) <==> HasDescMagic(c)) && ExtraAdjacent(r) == ExtraAdjacent(c)
  {
    ControlBits(c, field);
    SameNibble(MergeControl(c, field), c);
  }

  lemma SameNibble(a: bv32, b: bv32)
    requires (a >> 8) & 0xf == (b >> 8) & 0xf
    ensures ExtraAdjacent(a) == ExtraAdjacent(b)
  {
  }

  lemma NibbleRoundTrip(n: nat)
    requires n <= 15
    ensures (n as bv32) as int == n && n as bv32 <= 15
  {
  }

  lemma AdjacencyBits(c: bv32, e: bv32)
    requires e <= 15
    ensures (((c & 0xf0ff) | DESC_MAGIC | (e << 8)) >> 8) & 0xf == e
    ensures ((c & 0xf0ff) | DESC_MAGIC | (e << 8)) >> 16 == 0xAD4B
    ensures ((c & 0xf0ff) | DESC_MAGIC | (e << 8)) & 0xff == c & 0xff
    ensures (((c & 0xf0ff) | DESC_MAGIC | (e << 8)) >> 12) & 0xf == (c >> 12) & 0xf
  {
  }

  /** The stored adjacency reads back exactly; flags and reserved bits survive. */
  lemma AdjacentKeepsFields(d: Desc, nextAdjacent: int)
    ensures var r := Adjacent(d, nextAdjacent);
      && HasDescMagic(r.control) && ExtraAdjacent(r.control) == ExtraAdj(d.nextLo, nextAdjacent)
      && LowByte(r.control) == LowByte(d.control) && Reserved(r.control) == Reserved(d.control)
      && r == d.(control := r.control)
  {
    var e := ExtraAdj(d.nextLo, nextAdjacent);
    NibbleRoundTrip(e);
    AdjacencyBits(d.control, e as bv32);
  }

  /** STOPPED depends on the low byte only. */
  lemma StoppedInLowByte(a: bv32, b: bv32)
    requires LowByte(a) == LowByte(b)
    ensures IsStopped(a) <==> IsStopped(b)
  {
    assert a & 1 == (a & 0xff) & 1;
    assert b & 1 == (b & 0xff) & 1;
  }
}

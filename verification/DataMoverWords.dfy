/**
 The words the first driver version exchanges with the DataMover and the
 application (axi4s2dmov.c).
 */
module DataMoverWords {
  /** A status: tag, OKAY in bit 7, 23 bits of length, end of packet. */
  function StatusWord(tag: bv32, len: bv32, eop: bool): bv32 {
    (if eop then 0x8000_0000 else 0) | (len << 8) | 0x80 | tag
  }

  predicate Okay(res: bv32) {
    res & 0x80 != 0
  }

  function NBuf(res: bv32): bv32 {
    res & 0xf
  }

  function BLen(res: bv32): bv32 {
    (res & 0x3fff_ff00) >> 8
  }

  /** The length survives if and only if its top bit, which the mask drops, is clear. */
  lemma StatusDecodes(tag: bv32, len: bv32, eop: bool)
    requires tag < 16 && len < 0x80_0000
    ensures var res := StatusWord(tag, len, eop);
      Okay(res) && NBuf(res) == tag && (BLen(res) == len <==> len < 0x40_0000)
  {
    var top: bv32 := if eop then 0x8000_0000 else 0;
    TagBits(top, tag, len);
    LengthBits(top, tag, len);
    LengthKept(len);
  }

  /** The first word of a command: the greatest length, incrementing addresses, end of packet. */
  const COMMAND_WORD: bv32 := ((1 << 22) - 1) | (1 << 23) | (1 << 30)

  /** The bytes to transfer, bits 22 to 0 of a command. */
  function CommandLength(command: bv32): bv32 {
    command & 0x7f_ffff
  }

  /** No transfer that was commanded is too long for the handler: its length reads back exactly. */
  lemma CommandedLengthSurvives(tag: bv32, len: bv32, eop: bool)
    requires tag < 16 && len <= CommandLength(COMMAND_WORD)
    ensures BLen(StatusWord(tag, len, eop)) == len
  {
    CommandLimit();
    StatusDecodes(tag, len, eop);
  }

  lemma CommandLimit()
    ensures CommandLength(COMMAND_WORD) == 0x3f_ffff
  {
  }

  lemma TagBits(top: bv32, tag: bv32, len: bv32)
    requires tag < 16 && (top == 0 || top == 0x8000_0000)
    ensures var res := top | (len << 8) | 0x80 | tag; res & 0xf == tag && res & 0x80 != 0
  {
  }

  lemma LengthBits(top: bv32, tag: bv32, len: bv32)
    requires tag < 16 && len < 0x80_0000 && (top == 0 || top == 0x8000_0000)
    ensures var res := top | (len << 8) | 0x80 | tag; (res & 0x3fff_ff00) >> 8 == len & 0x3f_ffff
  {
  }

  lemma LengthKept(len: bv32)
    requires len < 0x80_0000
    ensures len & 0x3f_ffff == len <==> len < 0x40_0000
  {
  }

  /** What GET returns for a ready buffer. */
  function Pack(buf: bv32, len: bv32): bv32 {
    (buf << 24) | len
  }

  /** Buffer and length can be told apart, and the result cannot be taken for an error code. */
  lemma PackUnpacks(buf: bv32, len: bv32)
    requires buf < 16 && len < 0x40_0000
    ensures Pack(buf, len) >> 24 == buf && Pack(buf, len) & 0xff_ffff == len
    ensures Pack(buf, len) & 0x8000_0000 == 0
  {
  }

  /** Unpacked, what GET returns is the buffer and its length, and it is not an error code. */
  predicate Unpacks(r: bv32, buf: nat, len: bv32) {
    (r >> 24) as nat == buf && r & 0xff_ffff == len && r & 0x8000_0000 == 0
  }

  lemma PackedIsRight(buf: nat, len: bv32)
    requires buf < 16 && len < 0x40_0000
    ensures Unpacks(Pack(buf as bv32, len), buf, len)
  {
    BufBelow(buf);
    PackUnpacks(buf as bv32, len);
  }

  lemma LengthBelow(res: bv32)
    ensures BLen(res) < 0x40_0000
  {
  }

  lemma BufBelow(buf: nat)
    requires buf < 16
    ensures (buf as bv32) < 16 && (buf as bv32) as nat == buf
  {
  }
}

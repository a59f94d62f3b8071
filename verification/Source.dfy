/**
 The packet source (process p1 of axi4s_src3.vhd): a header beat with the packet
 length and the start and step of the data, then beats of counters.
 */
module Source {
  import opened Words
  import opened Streams

  const MIN_LEN := 160000
  const LEN_RANGE := 0x8_0000

  /** A 256-bit beat as eight 32-bit words, lowest first. */
  datatype Beat = Beat(w0: Word, w1: Word, w2: Word, w3: Word, w4: Word, w5: Word, w6: Word, w7: Word)

  const ZERO_BEAT := Beat(0, 0, 0, 0, 0, 0, 0, 0)

  function Header(len: nat, step: nat, init: nat): Beat
    requires len < TWO_32 && step < 16 && init < 256
  {
    Beat(init + 256 * step, len, 0, 0, 0, 0, 0, 0)
  }

  /** A beat of consecutive 32-bit counters. */
  function Counters(cnt: Word): Beat {
    Beat(cnt, AddWord(cnt, 1), AddWord(cnt, 2), AddWord(cnt, 3),
      AddWord(cnt, 4), AddWord(cnt, 5), AddWord(cnt, 6), AddWord(cnt, 7))
  }

  /** The counter of the t-th data beat: init advanced t times by step. */
  function CounterAt(init: Word, step: Word, t: nat): Word {
    if t == 0 then init else AddWord(CounterAt(init, step, t - 1), step)
  }

  /** Beat n of the packet with the given parameters. */
  function PacketBeat(len: nat, step: nat, init: nat, n: nat): Beat
    requires len < TWO_32 && step < 16 && init < 256
  {
    if n == 0 then Header(len, step, init) else Counters(CounterAt(init, step, n - 1))
  }

  function PacketBeats(len: nat, step: nat, init: nat, n: nat): (r: seq<Beat>)
    requires len < TWO_32 && step < 16 && init < 256
    ensures |r| == n
  {
    seq(n, (t: nat) requires t < n => PacketBeat(len, step, init, t))
  }

  /** A packet is what its own header announces. */
  predicate IsSourcePacket(q: seq<Beat>) {
    && |q| > 0
    && MIN_LEN <= q[0].w1 < MIN_LEN + LEN_RANGE
    && q[0].w0 < 4096
    && q == PacketBeats(q[0].w1, q[0].w0 / 256, q[0].w0 % 256, q[0].w1)
  }

  predicate AllSourcePackets(qs: seq<seq<Beat>>) {
    forall b :: 0 <= b < |qs| ==> IsSourcePacket(qs[b])
  }

  datatype SrcState = StIdle | StStartHead | StSendPkt

  class StreamSource {
    var srcState: SrcState
    var pktLen: nat
    var pktStep: nat
    var initData: nat
    var wrdCount: nat
    var cntData: Word
    var sData: Beat
    var tvalid: bool
    var tlast: bool
    var ackPkt: bool
    /** Every beat transferred so far, with its tlast. */
    ghost var sent: Stream<Beat>

    ghost predicate Valid()
      reads this
    {
      && AllSourcePackets(Packets(sent))
      && (srcState != StIdle ==> MIN_LEN <= pktLen < MIN_LEN + LEN_RANGE && pktStep < 16 && initData < 256)
      && (if srcState == StSendPkt then
            var n := |Tail(sent)|;
            && tvalid && n < pktLen && wrdCount == n + 2
            && Tail(sent) == PacketBeats(pktLen, pktStep, initData, n)
            && sData == PacketBeat(pktLen, pktStep, initData, n)
            && cntData == CounterAt(initData, pktStep, n)
            && (tlast <==> n == pktLen - 1)
          else !tvalid && Tail(sent) == [])
    }

    /** The state after reset. */
    constructor ()
      ensures Valid() && sent == []
    {
      srcState := StIdle;
      pktLen, pktStep, initData, wrdCount, cntData := 0, 0, 0, 0, 0;
      sData := ZERO_BEAT;
      tvalid, tlast, ackPkt := false, false, false;
      sent := [];
    }

    /**
     One rising edge with resetn high. `rndLen`, `rndStep` and `rndInit` are the
     fields of the pseudorandom register. Whatever tready and start_pkt do, the
     beats transferred stay whole packets followed by the start of one.
     */
    method PosedgeClk(tready: bool, startPkt: bool, rndLen: nat, rndStep: nat, rndInit: nat)
      requires Valid() && rndLen < LEN_RANGE && rndStep < 16 && rndInit < 256
      modifies this
      ensures Valid()
      ensures sent == old(sent) + (if old(tvalid) && tready then [(old(sData), old(tlast))] else [])
      ensures old(tvalid) && !tready ==> tvalid && sData == old(sData) && tlast == old(tlast)
      ensures srcState == match old(srcState)
        case StIdle => if startPkt then StStartHead else StIdle
        case StStartHead => StSendPkt
        case StSendPkt => if tready && old(tlast) then StIdle else StSendPkt
      ensures ackPkt <==> old(srcState).StStartHead?
      ensures old(srcState).StIdle? && startPkt ==>
        pktLen == rndLen + MIN_LEN && pktStep == rndStep && initData == rndInit
    {
      ackPkt := false;
      match srcState
      case StIdle =>
        if startPkt {
          pktLen := rndLen + MIN_LEN;
          pktStep := rndStep;
          initData := rndInit;
          srcState := StStartHead;
        }
      case StStartHead =>
        sData := Header(pktLen, pktStep, initData);
        cntData := initData;
        wrdCount := 2;
        tvalid := true;
        tlast := false;
        ackPkt := true;
        srcState := StSendPkt;
      case StSendPkt =>
        if tready {
          SendPkt();
        }
    }

    /** One rising edge with resetn low, at any time: the record of beats begins anew. */
    method Reset()
      modifies this
      ensures Valid() && sent == [] && srcState == StIdle && !tvalid && !tlast && !ackPkt && sData == ZERO_BEAT
    {
      sData := ZERO_BEAT;
      tvalid, tlast, ackPkt := false, false, false;
      srcState := StIdle;
      sent := [];
    }

    /** The branch ST_SEND_PKT of the process when the beat on the bus is taken. */
    method SendPkt()
      requires Valid() && srcState == StSendPkt
      modifies this
      ensures Valid() && sent == old(sent) + [(old(sData), old(tlast))]
      ensures srcState == (if old(tlast) then StIdle else StSendPkt) && ackPkt == old(ackPkt)
      ensures old(tlast) ==> !tvalid && !tlast && sData == ZERO_BEAT && wrdCount == 0
    {
      BeatSent(sent, pktLen, pktStep, initData);
      sent := sent + [(sData, tlast)];
      if wrdCount <= pktLen {
        sData := Counters(cntData);
        cntData := AddWord(cntData, pktStep);
        if wrdCount == pktLen {
          tlast := true;
        }
        wrdCount := wrdCount + 1;
      } else {
        wrdCount := 0;
        sData := ZERO_BEAT;
        tvalid := false;
        tlast := false;
        srcState := StIdle;
      }
    }
  }

  /** Transferring beat n of a packet after its first n beats. */
  lemma BeatSent(sent: Stream<Beat>, len: nat, step: nat, init: nat)
    requires AllSourcePackets(Packets(sent))
    requires MIN_LEN <= len < MIN_LEN + LEN_RANGE && step < 16 && init < 256
    requires |Tail(sent)| < len && Tail(sent) == PacketBeats(len, step, init, |Tail(sent)|)
    ensures var n := |Tail(sent)|;
      var next := sent + [(PacketBeat(len, step, init, n), n == len - 1)];
      && AllSourcePackets(Packets(next))
      && Tail(next) == if n == len - 1 then [] else PacketBeats(len, step, init, n + 1)
  {
    var n := |Tail(sent)|;
    AppendUnit(sent, PacketBeat(len, step, init, n), n == len - 1);
    assert PacketBeats(len, step, init, n) + [PacketBeat(len, step, init, n)] == PacketBeats(len, step, init, n + 1);
    if n == len - 1 {
      WholePacket(len, step, init);
    }
  }

  lemma WholePacket(len: nat, step: nat, init: nat)
    requires MIN_LEN <= len < MIN_LEN + LEN_RANGE && step < 16 && init < 256
    ensures IsSourcePacket(PacketBeats(len, step, init, len))
  {
    var q := PacketBeats(len, step, init, len);
    assert q[0] == Header(len, step, init);
    assert q[0].w0 / 256 == step && q[0].w0 % 256 == init;
  }
}

/**
 The packet generator dma_packet.v: two header beats, then data words 2 to 0x7FF,
 sixteen for every new sample.
 */
module DmaPacket {
  import opened Streams
  import opened Framing

  const LAST_WORD := 0x7FF
  const HEADER_ONE := 0x4010
  const HEADER_TWO := 0xA5

  datatype State = Idle | Header | WaitSample | Data

  datatype Input = Input(newSample: bool, ready: bool)

  /** wordCount has twelve bits, chnGrpCount has four. */
  datatype Regs = Regs(state: State, wordCount: nat, chnGrpCount: nat)

  function StateNext(r: Regs, i: Input): State {
    match r.state
    case Idle => Header
    case Header => if i.ready && r.wordCount == 1 then WaitSample else Header
    case WaitSample => if i.newSample then Data else WaitSample
    case Data =>
      if !i.ready then Data
      else if r.wordCount == LAST_WORD then Idle
      else if r.chnGrpCount == 15 then WaitSample
      else Data
  }

  /** One rising edge while enabled. */
  function Edge(r: Regs, i: Input): Regs {
    match r.state
    case Idle => Regs(StateNext(r, i), 0, 0)
    case Header => Regs(StateNext(r, i), if i.ready then Inc(r.wordCount, 0x1000) else r.wordCount, r.chnGrpCount)
    case WaitSample => Regs(StateNext(r, i), r.wordCount, 0)
    case Data =>
      if i.ready then Regs(StateNext(r, i), Inc(r.wordCount, 0x1000), Inc(r.chnGrpCount, 16))
      else Regs(StateNext(r, i), r.wordCount, r.chnGrpCount)
  }

  predicate Valid(r: Regs) {
    r.state.Header? || r.state.Data?
  }

  function Word(r: Regs): nat {
    match r.state
    case Header => if r.wordCount == 0 then HEADER_ONE else HEADER_TWO
    case Data => r.wordCount
    case _ => 0
  }

  predicate Last(r: Regs) {
    r.state.Data? && r.wordCount == LAST_WORD
  }

  class Generator {
    var state: State
    var wordCount: nat
    var chnGrpCount: nat

    ghost function State(): Regs
      reads this
    {
      Regs(state, wordCount, chnGrpCount)
    }

    /** Disabled: the asynchronous reset does not touch the group counter. */
    constructor (chnGrpCount: nat)
      ensures State() == Regs(Idle, 0, chnGrpCount)
    {
      state := Idle;
      wordCount := 0;
      this.chnGrpCount := chnGrpCount;
    }

    /** The beat offered in the cycle before the edge, and the edge. */
    method PosedgeClk(i: Input) returns (tvalid: bool, tdata: nat, tlast: bool)
      modifies this
      ensures tvalid == Valid(old(State())) && tdata == Word(old(State())) && tlast == Last(old(State()))
      ensures State() == Edge(old(State()), i)
      ensures tvalid && !i.ready ==> State() == old(State())
    {
      tvalid, tdata, tlast := false, 0, false;
      var stateNext := state;
      match state {
        case Idle =>
          stateNext := Header;
          wordCount := 0;
          chnGrpCount := 0;
        case Header =>
          tvalid := true;
          tdata := if wordCount == 0 then HEADER_ONE else HEADER_TWO;
          if i.ready {
            if wordCount == 1 {
              stateNext := WaitSample;
            }
            wordCount := Inc(wordCount, 0x1000);
          }
        case WaitSample =>
          if i.newSample {
            stateNext := Data;
          }
          chnGrpCount := 0;
        case Data =>
          tvalid := true;
          tdata := wordCount;
          tlast := wordCount == LAST_WORD;
          if i.ready {
            if wordCount == LAST_WORD {
              stateNext := Idle;
            } else if chnGrpCount == 15 {
              stateNext := WaitSample;
            }
            chnGrpCount := Inc(chnGrpCount, 16);
            wordCount := Inc(wordCount, 0x1000);
          }
      }
      state := stateNext;
    }
  }

  // ----- Runs -----

  /** A beat is transferred when it is offered and taken; a sample is waited for. */
  const PACKETIZER := Generating(
    Edge, Word, Last,
    (r: Regs, i: Input) => Valid(r) && i.ready,
    (r: Regs, i: Input) => r.state.WaitSample? && i.newSample)

  /** The beats transferred during a schedule. */
  function Log(r: Regs, ins: seq<Input>, samples: nat): seq<Beat> {
    LogOf(PACKETIZER, r, ins, samples)
  }

  function PacketWord(w: nat): nat {
    if w == 0 then HEADER_ONE else if w == 1 then HEADER_TWO else w
  }

  /** The samples used by the first w words of a packet. */
  function SamplesUsed(w: nat): nat {
    if w <= 2 then 0 else (w - 3) / 16 + 1
  }

  /** Beat n of the endless stream: 128 samples to a packet, the last with only 14 words. */
  function Ideal(n: nat): Beat {
    var w := n % (LAST_WORD + 1);
    Beat(PacketWord(w), w == LAST_WORD, n / (LAST_WORD + 1) * 128 + SamplesUsed(w + 1))
  }

  /** The registers after n beats and `samples` samples. */
  predicate InStep(r: Regs, n: nat, samples: nat) {
    var w, used := n % (LAST_WORD + 1), samples - n / (LAST_WORD + 1) * 128;
    match r.state
    case Idle => w == 0 && used == 0
    case Header => r.wordCount == w && w < 2 && used == 0
    case WaitSample => r.wordCount == w && w >= 2 && (w - 2) % 16 == 0 && used == (w - 2) / 16
    case Data => r.wordCount == w && w >= 2 && r.chnGrpCount == (w - 2) % 16 && used == (w - 2) / 16 + 1
  }

  lemma EdgeInStep(r: Regs, i: Input, n: nat, samples: nat)
    requires InStep(r, n, samples)
    ensures Valid(r) ==> Beat(Word(r), Last(r), samples) == Ideal(n)
    ensures InStep(Edge(r, i), if Valid(r) && i.ready then n + 1 else n, SamplesAfter(PACKETIZER, r, i, samples))
  {
    Counting(n);
    if r.state.Data? && i.ready {
      GroupStep(r.wordCount - 2);
    }
  }

  lemma Counting(n: nat)
    ensures if n % 2048 == 2047 then (n + 1) % 2048 == 0 && (n + 1) / 2048 == n / 2048 + 1
      else (n + 1) % 2048 == n % 2048 + 1 && (n + 1) / 2048 == n / 2048
  {
  }

  lemma GroupStep(g: nat)
    ensures if g % 16 == 15 then (g + 1) % 16 == 0 && (g + 1) / 16 == g / 16 + 1
      else (g + 1) % 16 == g % 16 + 1 && (g + 1) / 16 == g / 16
  {
  }

  lemma InStepStays()
    ensures StaysInStep(PACKETIZER, Ideal, InStep)
  {
    forall r: Regs, i: Input, n: nat, samples: nat
      ensures StepFits(PACKETIZER, Ideal, InStep, r, i, n, samples)
    {
      if InStep(r, n, samples) {
        EdgeInStep(r, i, n, samples);
      }
    }
  }

  lemma SendsIdeal(r: Regs, ins: seq<Input>, n: nat, samples: nat)
    requires InStep(r, n, samples)
    ensures IsIdeal(Log(r, ins, samples), Ideal, n)
  {
    InStepStays();
    LogIsIdeal(PACKETIZER, Ideal, InStep, r, ins, n, samples);
  }

  function FullPacket(): (p: seq<nat>)
    ensures |p| == 2048 && p[0] == 0x4010 && p[1] == 0xA5 && forall w :: 2 <= w < 2048 ==> p[w] == w
  {
    seq(LAST_WORD + 1, (w: nat) => PacketWord(w))
  }

  /**
   From reset, whatever the schedule of ready and new_sample: cut at tlast, the beats
   are packets of two header beats and 2046 data words and the start of one more,
   and data word w of packet p is sent after sample 128 p + (w - 2) / 16.
   */
  lemma PacketFrames(r: Regs, ins: seq<Input>)
    requires r.state.Idle?
    ensures var log := Log(r, ins, 0);
      var packets := Packets(AsStream(log));
      && |packets| == |log| / 2048
      && (forall p :: 0 <= p < |packets| ==> packets[p] == FullPacket())
      && Tail(AsStream(log)) == FullPacket()[..|log| % 2048]
      && (forall n :: 0 <= n < |log| && n % 2048 >= 2 ==>
            log[n].sample == n / 2048 * 128 + (n % 2048 - 2) / 16 + 1)
  {
    SendsIdeal(r, ins, 0, 0);
    FramedIsPackets(Log(r, ins, 0), FullPacket());
  }

  // ----- Speed -----

  function RunEdges(r: Regs, ins: seq<Input>): Regs
    decreases |ins|
  {
    if ins == [] then r else RunEdges(Edge(r, ins[0]), ins[1..])
  }

  const BUSY := Input(true, true)

  function Hold(cycles: nat): (ins: seq<Input>)
    ensures |ins| == cycles
  {
    seq(cycles, _ => BUSY)
  }

  /** The registers c cycles into a packet when nothing ever makes the generator wait. */
  function AtCycle(r: Regs, c: nat): Regs {
    if c == 0 then r
    else if c <= 2 then Regs(Header, c - 1, 0)
    else
      var q := c - 3;
      if q % 17 == 0 then Regs(WaitSample, 2 + q / 17 * 16, 0)
      else Regs(Data, 2 + q / 17 * 16 + q % 17 - 1, q % 17 - 1)
  }

  lemma CycleStep(r: Regs, c: nat)
    requires r.state.Idle? && c <= 2176
    ensures c < 2176 ==> Edge(AtCycle(r, c), BUSY) == AtCycle(r, c + 1)
    ensures c == 2176 ==> Edge(AtCycle(r, c), BUSY).state.Idle?
    ensures Valid(AtCycle(r, c)) <==> c == 1 || c == 2 || (c > 2 && (c - 3) % 17 != 0)
  {
  }

  /** Beats sent in the first c cycles of a packet. */
  function SentBy(c: nat): nat {
    if c <= 1 then 0 else if c <= 3 then c - 1
    else 2 + (c - 3) / 17 * 16 + (if (c - 3) % 17 == 0 then 0 else (c - 3) % 17 - 1)
  }

  lemma SentStep(c: nat)
    ensures SentBy(c + 1) == SentBy(c) + if c == 1 || c == 2 || (c > 2 && (c - 3) % 17 != 0) then 1 else 0
  {
  }

  lemma {:induction false} RestOfPacket(r: Regs, c: nat, samples: nat)
    requires r.state.Idle? && c <= 2177
    ensures c < 2177 ==> RunEdges(AtCycle(r, c), Hold(2177 - c)).state.Idle?
    ensures c < 2177 ==> |Log(AtCycle(r, c), Hold(2177 - c), samples)| == 2048 - SentBy(c)
    decreases 2177 - c
  {
    if c < 2177 {
      CycleStep(r, c);
      SentStep(c);
      assert Hold(2177 - c)[1..] == Hold(2177 - (c + 1));
      assert c == 2176 ==> Hold(1)[1..] == [] && SentBy(2177) == 2048;
      RestOfPacket(r, c + 1, SamplesAfter(PACKETIZER, AtCycle(r, c), BUSY, samples));
    }
  }

  /** Never made to wait, the generator sends a whole packet in 2177 cycles and is idle again. */
  lemma PacketTime(r: Regs)
    requires r.state.Idle?
    ensures RunEdges(r, Hold(2177)).state.Idle? && |Log(r, Hold(2177), 0)| == 2048
  {
    RestOfPacket(r, 0, 0);
  }
}

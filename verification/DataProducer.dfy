/**
 The packet generator data_producer_64.v: packets of 16384 numbered words, sixteen
 for every new sample.
 */
module DataProducer {
  import opened Streams
  import opened Framing

  const COUNT_WORD_MAX := 0x3FFF
  const WORD_RANGE := 0x1000_0000
  const DATA_MARK := 0xA_0000

  datatype State = Idle | Header | WaitSample | Data

  datatype Input = Input(dmaEna: bool, fifoProgEmpty: bool, newSample: bool, ready: bool)

  /** wordCount has 28 bits, chnGrpCount has four. */
  datatype Regs = Regs(state: State, wordCount: nat, chnGrpCount: nat)

  /** One rising edge without reset. */
  function Edge(r: Regs, i: Input): Regs {
    match r.state
    case Idle => Regs(if i.dmaEna && i.fifoProgEmpty then WaitSample else Idle, 0, 0)
    case Header => if i.ready then r.(wordCount := Inc(r.wordCount, WORD_RANGE)) else r
    case WaitSample => Regs(if i.newSample then Data else WaitSample, r.wordCount, 0)
    case Data =>
      if !i.ready then r
      else if r.wordCount == COUNT_WORD_MAX then r.(state := Idle)
      else if r.chnGrpCount == 15 then r.(state := WaitSample, wordCount := Inc(r.wordCount, WORD_RANGE))
      else r.(wordCount := Inc(r.wordCount, WORD_RANGE), chnGrpCount := r.chnGrpCount + 1)
  }

  predicate Valid(r: Regs) {
    r.state.Data?
  }

  function Word(r: Regs): nat {
    DATA_MARK * WORD_RANGE + r.wordCount
  }

  predicate Last(r: Regs) {
    r.wordCount == COUNT_WORD_MAX
  }

  class Generator {
    var state: State
    var wordCount: nat
    var chnGrpCount: nat

    ghost function State(): Regs
      reads this
    {
      Regs(state, wordCount, chnGrpCount)
    }

    /** Power-up: only the state has an initial value. */
    constructor (wordCount: nat, chnGrpCount: nat)
      ensures State() == Regs(Idle, wordCount, chnGrpCount)
    {
      state := Idle;
      this.wordCount := wordCount;
      this.chnGrpCount := chnGrpCount;
    }

    method Reset()
      modifies this
      ensures State() == Regs(Idle, 0, old(chnGrpCount))
    {
      wordCount := 0;
      state := Idle;
    }

    /** The beat offered in the cycle before the edge, and the edge. */
    method PosedgeClk(i: Input) returns (tvalid: bool, tdata: nat, tlast: bool)
      modifies this
      ensures tvalid == Valid(old(State())) && tdata == Word(old(State())) && tlast == Last(old(State()))
      ensures State() == Edge(old(State()), i)
      ensures tvalid && !i.ready ==> State() == old(State())
    {
      tvalid := state == Data;
      tdata := DATA_MARK * WORD_RANGE + wordCount;
      tlast := wordCount == COUNT_WORD_MAX;
      match state
      case Idle =>
        wordCount := 0;
        chnGrpCount := 0;
        if i.dmaEna && i.fifoProgEmpty {
          state := WaitSample;
        }
      case Header =>
        if i.ready {
          wordCount := Inc(wordCount, WORD_RANGE);
        }
      case WaitSample =>
        chnGrpCount := 0;
        if i.newSample {
          state := Data;
        }
      case Data =>
        if i.ready {
          if wordCount == COUNT_WORD_MAX {
            state := Idle;
          } else {
            wordCount := Inc(wordCount, WORD_RANGE);
            if chnGrpCount == 15 {
              state := WaitSample;
            } else {
              chnGrpCount := chnGrpCount + 1;
            }
          }
        }
    }
  }

  // ----- Runs -----

  function RunEdges(r: Regs, ins: seq<Input>): Regs
    decreases |ins|
  {
    if ins == [] then r else RunEdges(Edge(r, ins[0]), ins[1..])
  }

  /** A beat is transferred when it is offered and taken; a sample is waited for. */
  const PRODUCER := Generating(
    Edge, Word, Last,
    (r: Regs, i: Input) => Valid(r) && i.ready,
    (r: Regs, i: Input) => r.state.WaitSample? && i.newSample)

  /** The beats transferred during a schedule. */
  function Log(r: Regs, ins: seq<Input>, samples: nat): seq<Beat> {
    LogOf(PRODUCER, r, ins, samples)
  }

  /** Beat n of the endless stream: its place in the packet, and sixteen beats to a sample. */
  function Ideal(n: nat): Beat {
    Beat(DATA_MARK * WORD_RANGE + n % (COUNT_WORD_MAX + 1), n % (COUNT_WORD_MAX + 1) == COUNT_WORD_MAX, n / 16 + 1)
  }

  /** The registers after n beats and `samples` samples. */
  predicate InStep(r: Regs, n: nat, samples: nat) {
    var w := n % (COUNT_WORD_MAX + 1);
    match r.state
    case Idle => w == 0 && samples == n / 16
    case Header => false
    case WaitSample => r.wordCount == w && n % 16 == 0 && samples == n / 16
    case Data => r.wordCount == w && r.chnGrpCount == n % 16 && samples == n / 16 + 1
  }

  lemma EdgeInStep(r: Regs, i: Input, n: nat, samples: nat)
    requires InStep(r, n, samples)
    ensures Valid(r) ==> Beat(Word(r), Last(r), samples) == Ideal(n)
    ensures InStep(Edge(r, i), if Valid(r) && i.ready then n + 1 else n, SamplesAfter(PRODUCER, r, i, samples))
  {
    if r.state.Data? && i.ready {
      Counting(n);
    } else if r.state.Idle? {
      Counting(n);
    }
  }

  lemma Counting(n: nat)
    ensures n % 16384 == 0 ==> n % 16 == 0
    ensures if n % 16384 == 16383 then (n + 1) % 16384 == 0 && n % 16 == 15 else (n + 1) % 16384 == n % 16384 + 1
    ensures if n % 16 == 15 then (n + 1) % 16 == 0 && (n + 1) / 16 == n / 16 + 1
      else (n + 1) % 16 == n % 16 + 1 && (n + 1) / 16 == n / 16
  {
  }

  lemma InStepStays()
    ensures StaysInStep(PRODUCER, Ideal, InStep)
  {
    forall r: Regs, i: Input, n: nat, samples: nat
      ensures StepFits(PRODUCER, Ideal, InStep, r, i, n, samples)
    {
      if InStep(r, n, samples) {
        EdgeInStep(r, i, n, samples);
      }
    }
  }

  lemma SendsIdeal(r: Regs, ins: seq<Input>, n: nat, samples: nat)
    requires InStep(r, n, samples)
    ensures IsIdeal(Log(r, ins, samples), Ideal, n)
  {
    InStepStays();
    LogIsIdeal(PRODUCER, Ideal, InStep, r, ins, n, samples);
  }

  function FullPacket(): (p: seq<nat>)
    ensures |p| == 16384 && forall k :: 0 <= k < 16384 ==> p[k] == 0xA000_0000_0000 + k
  {
    seq(COUNT_WORD_MAX + 1, (k: nat) => DATA_MARK * WORD_RANGE + k)
  }

  /**
   From idle and without reset, whatever the schedule of ready and new_sample: cut at
   tlast, the beats are packets of 16384 words numbered from 0 and the start of
   one more, and beat n belongs to sample n / 16.
   */
  lemma ProducerFrames(r: Regs, ins: seq<Input>)
    requires r.state.Idle?
    ensures var log := Log(r, ins, 0);
      var packets := Packets(AsStream(log));
      && |packets| == |log| / 16384
      && (forall p :: 0 <= p < |packets| ==> packets[p] == FullPacket())
      && Tail(AsStream(log)) == FullPacket()[..|log| % 16384]
      && (forall n :: 0 <= n < |log| ==> log[n].sample == n / 16 + 1)
  {
    SendsIdeal(r, ins, 0, 0);
    FramedIsPackets(Log(r, ins, 0), FullPacket());
  }

  /** The state HEADER is never entered. */
  lemma {:induction false} NeverHeader(r: Regs, ins: seq<Input>)
    requires !r.state.Header?
    ensures !RunEdges(r, ins).state.Header?
    decreases |ins|
  {
    if ins != [] {
      NeverHeader(Edge(r, ins[0]), ins[1..]);
    }
  }

  // ----- Permission -----

  /** A permitted cycle in idle begins a packet, and only such a cycle does. */
  lemma BeginsIff(r: Regs, i: Input)
    requires r.state.Idle?
    ensures Edge(r, i).state == if i.dmaEna && i.fifoProgEmpty then WaitSample else Idle
  {
  }

  /** Without a permitted cycle nothing is sent, whatever new_sample and ready do. */
  lemma {:induction false} NothingUnpermitted(r: Regs, ins: seq<Input>, samples: nat)
    requires r.state.Idle? && forall t :: 0 <= t < |ins| ==> !(ins[t].dmaEna && ins[t].fifoProgEmpty)
    ensures Log(r, ins, samples) == [] && RunEdges(r, ins).state.Idle?
    decreases |ins|
  {
    if ins != [] {
      NothingUnpermitted(Edge(r, ins[0]), ins[1..], samples);
    }
  }

  /** How many cycles of a schedule are permitted. */
  function Permitted(ins: seq<Input>): nat
    decreases |ins|
  {
    if ins == [] then 0 else (if ins[0].dmaEna && ins[0].fifoProgEmpty then 1 else 0) + Permitted(ins[1..])
  }

  /** The beats the packet in hand still has to send, and for every permitted cycle at most one more packet. */
  lemma {:induction false} BeatsPermitted(r: Regs, ins: seq<Input>, n: nat, samples: nat)
    requires InStep(r, n, samples)
    ensures |Log(r, ins, samples)| <= (if r.state.Idle? then 0 else 16384 - n % 16384) + 16384 * Permitted(ins)
    decreases |ins|
  {
    if ins != [] {
      EdgeInStep(r, ins[0], n, samples);
      Counting(n);
      BeatsPermitted(Edge(r, ins[0]), ins[1..], if Valid(r) && ins[0].ready then n + 1 else n,
        SamplesAfter(PRODUCER, r, ins[0], samples));
    }
  }

  /** From idle, no more packets are begun than there are permitted cycles. */
  lemma PacketsPermitted(r: Regs, ins: seq<Input>)
    requires r.state.Idle?
    ensures (|Log(r, ins, 0)| + 16383) / 16384 <= Permitted(ins)
  {
    BeatsPermitted(r, ins, 0, 0);
  }

  // ----- Speed -----

  const BUSY := Input(true, true, true, true)

  function Hold(cycles: nat): (ins: seq<Input>)
    ensures |ins| == cycles
  {
    seq(cycles, _ => BUSY)
  }

  /** The registers `c` cycles into a packet when nothing ever makes the generator wait. */
  function AtCycle(r: Regs, c: nat): Regs {
    if c == 0 then r
    else
      var q := c - 1;
      if q % 17 == 0 then Regs(WaitSample, q / 17 * 16, if q == 0 then 0 else 15)
      else Regs(Data, q / 17 * 16 + q % 17 - 1, q % 17 - 1)
  }

  lemma CycleStep(r: Regs, c: nat)
    requires r.state.Idle? && c <= 17408
    ensures c < 17408 ==> Edge(AtCycle(r, c), BUSY) == AtCycle(r, c + 1)
    ensures c == 17408 ==> Edge(AtCycle(r, c), BUSY) == Regs(Idle, COUNT_WORD_MAX, 15)
    ensures Valid(AtCycle(r, c)) <==> c > 0 && (c - 1) % 17 != 0
  {
  }

  /** Beats sent in the first c cycles of a packet. */
  function SentBy(c: nat): nat {
    if c <= 1 then 0 else (c - 1) / 17 * 16 + (if (c - 1) % 17 == 0 then 0 else (c - 1) % 17 - 1)
  }

  lemma SentStep(c: nat)
    ensures SentBy(c + 1) == SentBy(c) + if c > 0 && (c - 1) % 17 != 0 then 1 else 0
  {
    if c > 0 {
      assert c / 17 == (c - 1) / 17 + if (c - 1) % 17 == 16 then 1 else 0;
    }
  }

  lemma {:induction false} RestOfPacket(r: Regs, c: nat, samples: nat)
    requires r.state.Idle? && c <= 17409
    ensures var s := if c == 17409 then Regs(Idle, COUNT_WORD_MAX, 15) else AtCycle(r, c);
      && RunEdges(s, Hold(17409 - c)) == (if c == 17409 then s else Regs(Idle, COUNT_WORD_MAX, 15))
      && |Log(s, Hold(17409 - c), samples)| == 16384 - SentBy(c)
    decreases 17409 - c
  {
    if c < 17409 {
      CycleStep(r, c);
      SentStep(c);
      assert Hold(17409 - c)[1..] == Hold(17409 - (c + 1));
      RestOfPacket(r, c + 1, SamplesAfter(PRODUCER, AtCycle(r, c), BUSY, samples));
    }
  }

  /** Never made to wait, the generator sends a whole packet in 17409 cycles and is idle again. */
  lemma PacketTime(r: Regs)
    requires r.state.Idle?
    ensures RunEdges(r, Hold(17409)).state.Idle? && |Log(r, Hold(17409), 0)| == 16384
  {
    RestOfPacket(r, 0, 0);
  }
}

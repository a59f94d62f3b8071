/**
 The AXI-Stream FIFO (axis_fifo_64.v): pointers one bit wider than the address,
 separate address registers, and a read register and an output register behind the
 memory. The registers are shown to behave as a queue for every address width and
 every schedule of valid and ready.
 */
module AxisFifo {
  import opened Words
  import opened Sequences
  import opened RingIndex

  /** The inputs of one clock cycle. */
  datatype Input<W> = Input(rst: bool, valid: bool, word: W, ready: bool)

  /** The registers for address width a; a word is {tlast, tuser, tkeep, tdata}. */
  datatype Regs<W> = Regs(
    wrPtr: nat, wrAddr: nat, rdPtr: nat, rdAddr: nat, mem: seq<W>,
    readData: W, readValid: bool, outData: W, outValid: bool)

  // ----- The combinational signals -----

  /** Top bits differ and the rest is the same. */
  predicate FullBits(a: nat, wrPtr: nat, rdPtr: nat) {
    wrPtr / Pow2(a) != rdPtr / Pow2(a) && wrPtr % Pow2(a) == rdPtr % Pow2(a)
  }

  predicate Full<W>(a: nat, r: Regs<W>) {
    FullBits(a, r.wrPtr, r.rdPtr)
  }

  predicate Empty<W>(r: Regs<W>) {
    r.wrPtr == r.rdPtr
  }

  predicate Write<W>(a: nat, r: Regs<W>, i: Input<W>) {
    i.valid && !Full(a, r)
  }

  predicate StoreOutput<W>(r: Regs<W>, i: Input<W>) {
    i.ready || !r.outValid
  }

  predicate Read<W>(r: Regs<W>, i: Input<W>) {
    (StoreOutput(r, i) || !r.readValid) && !Empty(r)
  }

  function WrPtrNext<W>(a: nat, r: Regs<W>, i: Input<W>): nat {
    if Write(a, r, i) then NextSlot(r.wrPtr, a + 1) else r.wrPtr
  }

  function RdPtrNext<W>(a: nat, r: Regs<W>, i: Input<W>): nat {
    if Read(r, i) then NextSlot(r.rdPtr, a + 1) else r.rdPtr
  }

  predicate Sized<W>(a: nat, r: Regs<W>) {
    |r.mem| == Pow2(a)
  }

  /** One rising clock edge. */
  function Edge<W>(a: nat, r: Regs<W>, i: Input<W>): Regs<W>
    requires Sized(a, r)
  {
    Regs(
      if i.rst then 0 else WrPtrNext(a, r, i),
      WrPtrNext(a, r, i),
      if i.rst then 0 else RdPtrNext(a, r, i),
      RdPtrNext(a, r, i),
      if Write(a, r, i) then r.mem[r.wrAddr % Pow2(a) := i.word] else r.mem,
      if Read(r, i) then r.mem[r.rdAddr % Pow2(a)] else r.readData,
      if i.rst then false
      else if StoreOutput(r, i) || !r.readValid then !Empty(r) else r.readValid,
      if StoreOutput(r, i) then r.readData else r.outData,
      if i.rst then false
      else if StoreOutput(r, i) then r.readValid else r.outValid)
  }

  // ----- The hardware as clocked registers -----

  class Fifo<W> {
    const a: nat
    var wrPtr: nat
    var wrAddr: nat
    var rdPtr: nat
    var rdAddr: nat
    const mem: array<W>
    var readData: W
    var readValid: bool
    var outData: W
    var outValid: bool

    ghost function State(): Regs<W>
      reads this, mem
    {
      Regs(wrPtr, wrAddr, rdPtr, rdAddr, mem[..], readData, readValid, outData, outValid)
    }

    /** Power-up: the registers are zero, the memory is not initialised. */
    constructor (a: nat, zero: W, contents: seq<W>)
      requires |contents| == Pow2(a)
      ensures this.a == a && mem.Length == Pow2(a) && fresh(mem)
      ensures State() == PowerUp(zero, contents)
    {
      this.a := a;
      wrPtr, wrAddr, rdPtr, rdAddr := 0, 0, 0, 0;
      mem := new W[Pow2(a)](i requires 0 <= i < Pow2(a) => contents[i]);
      readData, readValid, outData, outValid := zero, false, zero, false;
      new;
      assert mem[..] == contents;
    }

    /** The always blocks: every next value is computed from the old registers, then all change at once. */
    method PosedgeClk(i: Input<W>)
      requires mem.Length == Pow2(a)
      modifies this, mem
      ensures State() == Edge(a, old(State()), i)
    {
      ghost var before := State();
      var full := FullBits(a, wrPtr, rdPtr);
      var empty := wrPtr == rdPtr;
      var write, wrPtrNext := false, wrPtr;
      if i.valid {
        if !full {
          write := true;
          wrPtrNext := NextSlot(wrPtr, a + 1);
        }
      }
      var storeOutput, outValidNext := false, outValid;
      if i.ready || !outValid {
        storeOutput := true;
        outValidNext := readValid;
      }
      var read, rdPtrNext, readValidNext := false, rdPtr, readValid;
      if storeOutput || !readValid {
        if !empty {
          read := true;
          readValidNext := true;
          rdPtrNext := NextSlot(rdPtr, a + 1);
        } else {
          readValidNext := false;
        }
      }
      var fetched := mem[rdAddr % Pow2(a)];
      if write {
        mem[wrAddr % Pow2(a)] := i.word;
      }
      wrPtr, wrAddr := if i.rst then 0 else wrPtrNext, wrPtrNext;
      rdPtr, rdAddr := if i.rst then 0 else rdPtrNext, rdPtrNext;
      if storeOutput {
        outData := readData;
      }
      if read {
        readData := fetched;
      }
      readValid, outValid := !i.rst && readValidNext, !i.rst && outValidNext;
      assert mem[..] == (if write then before.mem[before.wrAddr % Pow2(a) := i.word] else before.mem);
    }
  }

  function PowerUp<W>(zero: W, contents: seq<W>): Regs<W> {
    Regs(0, 0, 0, 0, contents, zero, false, zero, false)
  }

  // ----- The queue it implements -----

  function AsSeq<W>(o: Option<W>): seq<W> {
    match o
    case None => []
    case Some(w) => [w]
  }

  /** A bounded queue with two one-word stages behind it. */
  datatype Pipe<W> = Pipe(queue: seq<W>, stage: Option<W>, out: Option<W>) {
    /** The word at the output, the word behind it, then the queue. */
    function Contents(): seq<W> {
      (AsSeq(out) + AsSeq(stage)) + queue
    }
  }

  /** One cycle: `store` frees the output register, a free stage loads the head of the queue, an accepted word joins. */
  function Advance<W>(p: Pipe<W>, accept: bool, word: W, store: bool): Pipe<W> {
    var load := store || p.stage.None?;
    Pipe(
      (if load && p.queue != [] then p.queue[1..] else p.queue) + (if accept then [word] else []),
      if load then (if p.queue != [] then Some(p.queue[0]) else None) else p.stage,
      if store then p.stage else p.out)
  }

  function PipeStep<W>(p: Pipe<W>, depth: nat, i: Input<W>): Pipe<W> {
    Advance(p, i.valid && |p.queue| < depth, i.word, i.ready || p.out.None?)
  }

  /** What the queue must hold after a step: the head is gone if it was taken, the new word joined at the end. */
  function QueueStep<W>(p: Pipe<W>, depth: nat, i: Input<W>): seq<W> {
    var contents := p.Contents();
    (if p.out.Some? && i.ready then contents[1..] else contents) + NewWord(p, depth, i)
  }

  function NewWord<W>(p: Pipe<W>, depth: nat, i: Input<W>): seq<W> {
    if i.valid && |p.queue| < depth then [i.word] else []
  }

  /** The queue without its head, which moves to the stage, if it has one. */
  lemma HeadMoves<W>(queue: seq<W>)
    ensures AsSeq(if queue != [] then Some(queue[0]) else None) + (if queue != [] then queue[1..] else queue) == queue
  {
  }

  lemma OutputFree<W>(p: Pipe<W>, depth: nat, i: Input<W>)
    requires i.ready || p.out.None?
    ensures PipeStep(p, depth, i).Contents() == QueueStep(p, depth, i)
  {
    HeadMoves(p.queue);
    var head := if p.queue != [] then Some(p.queue[0]) else None;
    var rest := if p.queue != [] then p.queue[1..] else p.queue;
    Regroup(AsSeq(p.stage), AsSeq(head), rest, NewWord(p, depth, i));
    match p.out {
      case Some(w) => assert p.Contents() == [w] + (AsSeq(p.stage) + p.queue);
      case None => assert p.Contents() == AsSeq(p.stage) + p.queue;
    }
  }

  lemma StageFree<W>(p: Pipe<W>, depth: nat, i: Input<W>)
    requires !i.ready && p.out.Some? && p.stage.None?
    ensures PipeStep(p, depth, i).Contents() == QueueStep(p, depth, i)
  {
    HeadMoves(p.queue);
    var head := if p.queue != [] then Some(p.queue[0]) else None;
    var rest := if p.queue != [] then p.queue[1..] else p.queue;
    Regroup(AsSeq(p.out), AsSeq(head), rest, NewWord(p, depth, i));
    assert p.Contents() == AsSeq(p.out) + p.queue;
  }

  /** One step of the stages is one step of a queue, and a word at the output is the head of it. */
  lemma PipeIsQueue<W>(p: Pipe<W>, depth: nat, i: Input<W>)
    ensures p.out.Some? ==> p.Contents() != [] && p.Contents()[0] == p.out.value
    ensures PipeStep(p, depth, i).Contents() == QueueStep(p, depth, i)
  {
    if i.ready || p.out.None? {
      OutputFree(p, depth, i);
    } else if p.stage.None? {
      StageFree(p, depth, i);
    } else {
      Associates(AsSeq(p.out) + AsSeq(p.stage), p.queue, NewWord(p, depth, i));
    }
  }

  lemma Regroup<W>(a: seq<W>, b: seq<W>, c: seq<W>, d: seq<W>)
    ensures (a + b) + (c + d) == (a + (b + c)) + d
  {
  }

  /** A word waiting to be taken does not change (section 2.2.1 of ARM IHI 0051A). */
  lemma OutputStable<W>(p: Pipe<W>, depth: nat, i: Input<W>)
    requires p.out.Some? && !i.ready
    ensures PipeStep(p, depth, i).out == p.out
  {
  }

  /** Any word inside reaches the output within two cycles of it being free. */
  lemma OutputArrives<W>(p: Pipe<W>, depth: nat, i: Input<W>, j: Input<W>)
    requires p.Contents() != [] && !i.ready && !j.ready
    ensures PipeStep(PipeStep(p, depth, i), depth, j).out == Some(p.Contents()[0])
  {
  }

  // ----- Refinement -----

  /** Registers in step with `written` words written to and `read` words read from the memory. */
  ghost predicate Tracks<W>(a: nat, r: Regs<W>, written: nat, read: nat) {
    && Sized(a, r) && read <= written <= read + Pow2(a)
    && r.wrPtr == r.wrAddr == Slot(written, a + 1)
    && r.rdPtr == r.rdAddr == Slot(read, a + 1)
  }

  /** n words of the memory from counter `read` on. */
  ghost function Window<W>(a: nat, mem: seq<W>, read: nat, n: nat): (w: seq<W>)
    requires |mem| == Pow2(a)
    ensures |w| == n
    decreases n
  {
    if n == 0 then [] else [mem[Slot(read, a)]] + Window(a, mem, read + 1, n - 1)
  }

  /** Writing behind the window appends to it. */
  lemma {:induction false} WindowPush<W>(a: nat, mem: seq<W>, read: nat, n: nat, word: W)
    requires |mem| == Pow2(a) && n < Pow2(a)
    ensures Window(a, mem[Slot(read + n, a) := word], read, n + 1) == Window(a, mem, read, n) + [word]
    decreases n
  {
    if n > 0 {
      SlotsDistinct(read, read + n, a);
      assert read + n == read + 1 + (n - 1);
      WindowPush(a, mem, read + 1, n - 1, word);
    } else {
      assert Window(a, mem[Slot(read, a) := word], read + 1, 0) == [];
    }
  }

  ghost function View<W>(a: nat, r: Regs<W>, written: nat, read: nat): Pipe<W>
    requires Sized(a, r) && read <= written
  {
    Pipe(
      Window(a, r.mem, read, written - read),
      if r.readValid then Some(r.readData) else None,
      if r.outValid then Some(r.outData) else None)
  }

  /** The low bits of a pointer are the address. */
  lemma AddressBits(j: nat, a: nat)
    ensures Slot(j, a + 1) % Pow2(a) == Slot(j, a)
    ensures Slot(j, a + 1) / Pow2(a) == (j / Pow2(a)) % 2
  {
    var m := Pow2(a);
    SlotIsMod(j, a + 1);
    SlotIsMod(j, a);
    SplitMod(j, m);
  }

  lemma SplitMod(j: nat, m: nat)
    requires m > 0
    ensures (j % (2 * m)) % m == j % m && (j % (2 * m)) / m == (j / m) % 2
  {
    ModOfMultiple(j, m, 2);
    var q, r := j / m, j % m;
    var h, b := q / 2, q % 2;
    assert j == q * m + r;
    assert (2 * h + b) * m == h * (2 * m) + b * m;
    assert b * m + r < 2 * m;
    ModUnique(j, 2 * m, h, b * m + r);
    ModUnique(b * m + r, m, b, r);
  }

  lemma TopBitFlips(j: nat, m: nat)
    requires m > 0
    ensures ((j + m) / m) % 2 != (j / m) % 2
  {
    var q := j / m;
    assert (q + 1) * m == q * m + m;
    ModUnique(j + m, m, q + 1, j % m);
  }

  lemma PointersFull(a: nat, j: nat)
    ensures Slot(j + Pow2(a), a + 1) / Pow2(a) != Slot(j, a + 1) / Pow2(a)
    ensures Slot(j + Pow2(a), a + 1) % Pow2(a) == Slot(j, a + 1) % Pow2(a)
    ensures Slot(j + Pow2(a), a + 1) != Slot(j, a + 1)
  {
    AddressBits(j, a);
    AddressBits(j + Pow2(a), a);
    TopBitFlips(j, Pow2(a));
    SlotPeriod(j, a);
  }

  lemma PointersApart(a: nat, read: nat, written: nat)
    requires read < written < read + Pow2(a)
    ensures Slot(written, a + 1) % Pow2(a) != Slot(read, a + 1) % Pow2(a)
    ensures Slot(written, a + 1) != Slot(read, a + 1)
  {
    AddressBits(read, a);
    AddressBits(written, a);
    SlotsDistinct(read, written, a);
  }

  /** The extra pointer bit makes full and empty exact. */
  lemma FlagsExact<W>(a: nat, r: Regs<W>, written: nat, read: nat)
    requires Tracks(a, r, written, read)
    ensures Full(a, r) <==> written == read + Pow2(a)
    ensures Empty(r) <==> written == read
  {
    if written == read + Pow2(a) {
      PointersFull(a, read);
    } else if written > read {
      PointersApart(a, read, written);
    }
  }

  function Written<W>(a: nat, i: Input<W>, written: nat, read: nat): nat {
    if i.valid && written != read + Pow2(a) then written + 1 else written
  }

  function ReadCount<W>(r: Regs<W>, i: Input<W>, written: nat, read: nat): nat {
    if (StoreOutput(r, i) || !r.readValid) && written != read then read + 1 else read
  }

  /** The next register values, told by the counters before and after. */
  ghost function NextRegs<W>(a: nat, r: Regs<W>, i: Input<W>, written: nat, read: nat, written': nat, read': nat): Regs<W>
    requires Sized(a, r)
  {
    Regs(Slot(written', a + 1), Slot(written', a + 1), Slot(read', a + 1), Slot(read', a + 1),
      if written' != written then r.mem[Slot(written, a) := i.word] else r.mem,
      if read' != read then r.mem[Slot(read, a)] else r.readData,
      if StoreOutput(r, i) || !r.readValid then written != read else r.readValid,
      if StoreOutput(r, i) then r.readData else r.outData,
      if StoreOutput(r, i) then r.readValid else r.outValid)
  }

  lemma EdgeByCounters<W>(a: nat, r: Regs<W>, i: Input<W>, written: nat, read: nat)
    requires Tracks(a, r, written, read) && !i.rst
    ensures Edge(a, r, i) == NextRegs(a, r, i, written, read, Written(a, i, written, read), ReadCount(r, i, written, read))
    ensures Write(a, r, i) <==> Written(a, i, written, read) != written
    ensures Read(r, i) <==> ReadCount(r, i, written, read) != read
  {
    FlagsExact(a, r, written, read);
    AddressBits(written, a);
    AddressBits(read, a);
  }

  /** Writing behind the window and reading its first word. */
  lemma WindowStep<W>(a: nat, mem: seq<W>, read: nat, written: nat, read': nat, written': nat, word: W)
    requires |mem| == Pow2(a) && read <= written <= read + Pow2(a)
    requires written' == written || (written' == written + 1 && written < read + Pow2(a))
    requires read' == read || (read' == read + 1 && read < written)
    ensures var w := Window(a, mem, read, written - read);
      Window(a, if written' != written then mem[Slot(written, a) := word] else mem, read', written' - read')
        == (if read' != read then w[1..] else w) + (if written' != written then [word] else [])
  {
    var w := Window(a, mem, read, written - read);
    if written' != written {
      WindowPush(a, mem, read, written - read, word);
      assert read + (written - read) == written;
      assert read' != read ==> (w + [word])[1..] == w[1..] + [word];
    }
  }

  lemma TracksStep<W>(a: nat, r: Regs<W>, i: Input<W>, written: nat, read: nat)
    requires Tracks(a, r, written, read)
    ensures var written', read' := Written(a, i, written, read), ReadCount(r, i, written, read);
      Tracks(a, NextRegs(a, r, i, written, read, written', read'), written', read')
  {
  }

  /** The memory between the counters is the queue of the stages. */
  lemma ViewQueue<W>(a: nat, r: Regs<W>, i: Input<W>, written: nat, read: nat, written': nat, read': nat)
    requires Sized(a, r) && read <= written <= read + Pow2(a)
    requires written' == Written(a, i, written, read) && read' == ReadCount(r, i, written, read)
    ensures read' <= written' && Sized(a, NextRegs(a, r, i, written, read, written', read'))
    ensures View(a, NextRegs(a, r, i, written, read, written', read'), written', read').queue
      == Advance(View(a, r, written, read), written' != written, i.word, StoreOutput(r, i)).queue
  {
    WindowStep(a, r.mem, read, written, read', written', i.word);
    var w := Window(a, r.mem, read, written - read);
    assert w != [] <==> written != read;
    assert View(a, r, written, read).stage.None? <==> !r.readValid;
  }

  lemma ViewStages<W>(a: nat, r: Regs<W>, i: Input<W>, written: nat, read: nat, written': nat, read': nat)
    requires Sized(a, r) && read <= written <= read + Pow2(a)
    requires written' == Written(a, i, written, read) && read' == ReadCount(r, i, written, read)
    ensures read' <= written' && Sized(a, NextRegs(a, r, i, written, read, written', read'))
    ensures var next := View(a, NextRegs(a, r, i, written, read, written', read'), written', read');
      var p := Advance(View(a, r, written, read), written' != written, i.word, StoreOutput(r, i));
      next.stage == p.stage && next.out == p.out
  {
  }

  /** Without reset, a clock edge is a step of the stages. */
  lemma EdgeRefines<W>(a: nat, r: Regs<W>, i: Input<W>, written: nat, read: nat)
    requires Tracks(a, r, written, read) && !i.rst
    ensures var written', read' := if Write(a, r, i) then written + 1 else written, if Read(r, i) then read + 1 else read;
      && Tracks(a, Edge(a, r, i), written', read')
      && View(a, Edge(a, r, i), written', read') == PipeStep(View(a, r, written, read), Pow2(a), i)
  {
    EdgeByCounters(a, r, i, written, read);
    TracksStep(a, r, i, written, read);
    ViewQueue(a, r, i, written, read, Written(a, i, written, read), ReadCount(r, i, written, read));
    ViewStages(a, r, i, written, read, Written(a, i, written, read), ReadCount(r, i, written, read));
  }

  // ----- Whole schedules -----

  function RunEdges<W>(a: nat, r: Regs<W>, ins: seq<Input<W>>): Regs<W>
    requires Sized(a, r)
    decreases |ins|
  {
    if ins == [] then r else RunEdges(a, Edge(a, r, ins[0]), ins[1..])
  }

  /** The words transferred at the input: valid and ready in the same cycle. */
  function Accepted<W>(a: nat, r: Regs<W>, ins: seq<Input<W>>): seq<W>
    requires Sized(a, r)
    decreases |ins|
  {
    if ins == [] then []
    else (if Write(a, r, ins[0]) then [ins[0].word] else []) + Accepted(a, Edge(a, r, ins[0]), ins[1..])
  }

  /** The words transferred at the output. */
  function Delivered<W>(a: nat, r: Regs<W>, ins: seq<Input<W>>): seq<W>
    requires Sized(a, r)
    decreases |ins|
  {
    if ins == [] then []
    else (if r.outValid && ins[0].ready then [r.outData] else []) + Delivered(a, Edge(a, r, ins[0]), ins[1..])
  }

  lemma {:induction false} ScheduleKeepsWords<W>(a: nat, r: Regs<W>, ins: seq<Input<W>>, written: nat, read: nat)
    returns (written': nat, read': nat)
    requires Tracks(a, r, written, read) && forall t :: 0 <= t < |ins| ==> !ins[t].rst
    ensures Tracks(a, RunEdges(a, r, ins), written', read')
    ensures View(a, r, written, read).Contents() + Accepted(a, r, ins)
      == Delivered(a, r, ins) + View(a, RunEdges(a, r, ins), written', read').Contents()
    decreases |ins|
  {
    if ins == [] {
      written', read' := written, read;
    } else {
      var i, next := ins[0], Edge(a, r, ins[0]);
      var w1, r1 := if Write(a, r, i) then written + 1 else written, if Read(r, i) then read + 1 else read;
      EdgeRefines(a, r, i, written, read);
      FlagsExact(a, r, written, read);
      PipeIsQueue(View(a, r, written, read), Pow2(a), i);
      written', read' := ScheduleKeepsWords(a, next, ins[1..], w1, r1);
      var before, after := View(a, r, written, read).Contents(), View(a, next, w1, r1).Contents();
      OneCycle(before, after, r.outValid && i.ready, Write(a, r, i), i.word, Accepted(a, next, ins[1..]),
        Delivered(a, next, ins[1..]), View(a, RunEdges(a, r, ins), written', read').Contents());
    }
  }

  lemma OneCycle<W>(before: seq<W>, after: seq<W>, taken: bool, put: bool, word: W, accepted: seq<W>, delivered: seq<W>, end: seq<W>)
    requires taken ==> before != []
    requires after == (if taken then before[1..] else before) + (if put then [word] else [])
    requires after + accepted == delivered + end
    ensures before + ((if put then [word] else []) + accepted) == ((if taken then [before[0]] else []) + delivered) + end
  {
    if taken {
      assert before == [before[0]] + before[1..];
      assert before + ((if put then [word] else []) + accepted) == [before[0]] + (after + accepted);
    } else {
      assert before + ((if put then [word] else []) + accepted) == after + accepted;
    }
  }

  /**
   From power-up, whatever the schedule: the words accepted are the words delivered
   followed by those still inside, in order, and at most 2^a + 2 are inside.
   */
  lemma FifoIsQueue<W>(a: nat, zero: W, contents: seq<W>, ins: seq<Input<W>>)
    returns (inside: seq<W>)
    requires |contents| == Pow2(a) && forall t :: 0 <= t < |ins| ==> !ins[t].rst
    ensures Accepted(a, PowerUp(zero, contents), ins) == Delivered(a, PowerUp(zero, contents), ins) + inside
    ensures |inside| <= Pow2(a) + 2
    ensures var r := RunEdges(a, PowerUp(zero, contents), ins); r.outValid ==> inside != [] && r.outData == inside[0]
  {
    var r := PowerUp(zero, contents);
    var w, rd := ScheduleKeepsWords(a, r, ins, 0, 0);
    inside := View(a, RunEdges(a, r, ins), w, rd).Contents();
    assert View(a, r, 0, 0).Contents() == [];
  }

  // ----- Reset -----

  /** No reset during a schedule. */
  predicate Running<W>(ins: seq<Input<W>>) {
    forall t :: 0 <= t < |ins| ==> !ins[t].rst
  }

  /** Registers after a reset edge: the address registers and the memory hold anything. */
  ghost predicate Restarted<W>(a: nat, r: Regs<W>) {
    Sized(a, r) && r.wrPtr == 0 && r.rdPtr == 0 && !r.readValid && !r.outValid
  }

  /** Where the word accepted in the first cycle is stored. */
  function FirstSlot<W>(a: nat, r: Regs<W>): nat {
    r.wrAddr % Pow2(a)
  }

  lemma ResetRestarts<W>(a: nat, r: Regs<W>, i: Input<W>)
    requires Sized(a, r) && i.rst
    ensures Restarted(a, Edge(a, r, i)) && FirstSlot(a, Edge(a, r, i)) == WrPtrNext(a, r, i) % Pow2(a)
  {
  }

  lemma SlotValues(a: nat)
    ensures Slot(0, a) == 0 && Slot(0, a + 1) == 0 && Slot(1, a + 1) == NextSlot(0, a + 1) == 1
    ensures a > 0 ==> Slot(1, a) == 1 && 1 % Pow2(a) == 1
    ensures 0 / Pow2(a) == 0 && 0 % Pow2(a) == 0
  {
    assert Pow2(a + 1) == 2 * Pow2(a);
    NextSlotIsMod(0, a + 1);
    ModUnique(1, Pow2(a + 1), 0, 1);
    ModUnique(0, Pow2(a), 0, 0);
    if a > 0 {
      NextSlotIsMod(0, a);
      assert Pow2(a) == 2 * Pow2(a - 1);
      ModUnique(1, Pow2(a), 0, 1);
    }
  }

  /** The first cycle finds the FIFO empty, so it reads nothing with the stale read address. */
  lemma FirstCycle<W>(a: nat, r: Regs<W>, j: Input<W>)
    requires Restarted(a, r) && !j.rst
    ensures Write(a, r, j) == j.valid
    ensures var w := if j.valid then 1 else 0;
      Edge(a, r, j) == Regs(w, w, 0, 0, if j.valid then r.mem[FirstSlot(a, r) := j.word] else r.mem,
        r.readData, false, r.readData, false)
  {
    SlotValues(a);
  }

  /** From then on the registers are in step, with the content of slot 0 for the first word. */
  lemma FirstView<W>(a: nat, r: Regs<W>, j: Input<W>)
    requires Restarted(a, r) && !j.rst
    ensures var n, w := Edge(a, r, j), if j.valid then 1 else 0;
      && Tracks(a, n, w, 0)
      && View(a, n, w, 0)
         == Pipe(if !j.valid then [] else if FirstSlot(a, r) == 0 then [j.word] else [r.mem[0]], None, None)
  {
    SlotValues(a);
    FirstCycle(a, r, j);
    var n := Edge(a, r, j);
    if j.valid {
      assert Window(a, n.mem, 0, 1) == [n.mem[Slot(0, a)]] + Window(a, n.mem, 1, 0);
    }
  }

  /** The accepted words, but with slot 0 for a first word that is stored elsewhere. */
  function Believed<W>(a: nat, r: Regs<W>, ins: seq<Input<W>>): (words: seq<W>)
    requires Sized(a, r)
    ensures |words| == |Accepted(a, r, ins)|
  {
    var accepted := Accepted(a, r, ins);
    if ins != [] && ins[0].valid && accepted != [] && FirstSlot(a, r) != 0 then accepted[0 := r.mem[0]] else accepted
  }

  lemma BelievedSplit<W>(a: nat, r: Regs<W>, ins: seq<Input<W>>)
    requires Restarted(a, r) && Running(ins) && ins != []
    ensures var n, w := Edge(a, r, ins[0]), if ins[0].valid then 1 else 0;
      && Tracks(a, n, w, 0)
      && Believed(a, r, ins) == View(a, n, w, 0).Contents() + Accepted(a, n, ins[1..])
      && Delivered(a, r, ins) == Delivered(a, n, ins[1..])
  {
    FirstCycle(a, r, ins[0]);
    FirstView(a, r, ins[0]);
    var n := Edge(a, r, ins[0]);
    if ins[0].valid {
      assert Accepted(a, r, ins) == [ins[0].word] + Accepted(a, n, ins[1..]);
      FirstReplaced(ins[0].word, r.mem[0], Accepted(a, n, ins[1..]));
    }
  }

  lemma FirstReplaced<W>(x: W, y: W, rest: seq<W>)
    ensures ([x] + rest)[0 := y] == [y] + rest
  {
  }

  /** After a reset edge, whatever the schedule: delivered are the believed words, in order, and at most 2^a + 2 are still inside. */
  lemma ResetRun<W>(a: nat, r: Regs<W>, ins: seq<Input<W>>) returns (inside: seq<W>)
    requires Restarted(a, r) && Running(ins)
    ensures Believed(a, r, ins) == Delivered(a, r, ins) + inside && |inside| <= Pow2(a) + 2
  {
    if ins == [] {
      inside := [];
    } else {
      BelievedSplit(a, r, ins);
      inside := InsideAfter(a, Edge(a, r, ins[0]), ins[1..], if ins[0].valid then 1 else 0, 0);
    }
  }

  lemma InsideAfter<W>(a: nat, r: Regs<W>, ins: seq<Input<W>>, written: nat, read: nat) returns (inside: seq<W>)
    requires Tracks(a, r, written, read) && Running(ins)
    ensures View(a, r, written, read).Contents() + Accepted(a, r, ins) == Delivered(a, r, ins) + inside
    ensures |inside| <= Pow2(a) + 2
  {
    var w, rd := ScheduleKeepsWords(a, r, ins, written, read);
    inside := View(a, RunEdges(a, r, ins), w, rd).Contents();
  }

  /** A schedule is served rightly if the words delivered are the first of those accepted. */
  ghost predicate Served<W>(a: nat, r: Regs<W>, ins: seq<Input<W>>)
    requires Sized(a, r)
  {
    Delivered(a, r, ins) <= Accepted(a, r, ins)
  }

  lemma PrefixIff<W>(accepted: seq<W>, believed: seq<W>, delivered: seq<W>, inside: seq<W>, stale: W)
    requires accepted != [] && believed == accepted[0 := stale] == delivered + inside
    ensures delivered <= accepted <==> delivered == [] || stale == accepted[0]
  {
    if delivered != [] {
      assert delivered[0] == believed[0] == stale;
      if stale == accepted[0] {
        assert believed == accepted;
      }
    }
  }

  /**
   One schedule after a reset edge: it is served rightly if and only if the write
   address is repaired in time, nothing is delivered, or slot 0 happens to hold the
   first word.
   */
  lemma ResetServesIff<W>(a: nat, r: Regs<W>, ins: seq<Input<W>>)
    requires Restarted(a, r) && Running(ins)
    ensures Served(a, r, ins) <==>
      FirstSlot(a, r) == 0 || ins == [] || !ins[0].valid || Delivered(a, r, ins) == [] || r.mem[0] == ins[0].word
  {
    var inside := ResetRun(a, r, ins);
    if ins != [] && ins[0].valid && FirstSlot(a, r) != 0 {
      FirstCycle(a, r, ins[0]);
      PrefixIff(Accepted(a, r, ins), Believed(a, r, ins), Delivered(a, r, ins), inside, r.mem[0]);
    }
  }

  /**
   A reset edge leaves a FIFO that serves every schedule rightly if and only if the
   next write pointer at that edge has address 0; the read address never matters.
   */
  lemma ResetWorksIff<W(!new)>(a: nat, r: Regs<W>, i: Input<W>, x: W, y: W)
    requires Sized(a, r) && i.rst && x != y
    ensures (forall ins: seq<Input<W>> :: Running(ins) ==> Served(a, Edge(a, r, i), ins))
      <==> WrPtrNext(a, r, i) % Pow2(a) == 0
  {
    var e := Edge(a, r, i);
    ResetRestarts(a, r, i);
    if FirstSlot(a, e) == 0 {
      forall ins: seq<Input<W>> | Running(ins)
        ensures Served(a, e, ins)
      {
        ResetServesIff(a, e, ins);
      }
    } else {
      var z := if e.mem[0] == x then y else x;
      var ins := [Input(false, true, z, false)] + Drain(z);
      StaleWord(a, e, z);
      ResetServesIff(a, e, ins);
      assert Running(ins) && !Served(a, e, ins);
    }
  }

  /** Three cycles without input, in the last of which a word at the output is taken. */
  function Drain<W>(any: W): (ins: seq<Input<W>>)
    ensures |ins| == 3
  {
    [Input(false, false, any, false), Input(false, false, any, false), Input(false, false, any, true)]
  }

  /** The only word in the memory comes out within three cycles, and the FIFO is empty again. */
  lemma DrainsWord<W>(a: nat, r: Regs<W>, written: nat, read: nat, word: W, any: W)
    requires Tracks(a, r, written, read) && View(a, r, written, read) == Pipe([word], None, None)
    ensures Delivered(a, r, Drain(any)) == [word] && Accepted(a, r, Drain(any)) == []
    ensures var t := RunEdges(a, r, Drain(any));
      && read + 1 == written && t.mem == r.mem
      && Tracks(a, t, written, written) && View(a, t, written, written) == Pipe([], None, None)
  {
    var wait, take := Input(false, false, any, false), Input(false, false, any, true);
    var r1 := Edge(a, r, wait);
    var r2 := Edge(a, r1, wait);
    var r3 := Edge(a, r2, take);
    IdleStep(a, r, wait, written, read);
    IdleStep(a, r1, wait, written, written);
    IdleStep(a, r2, take, written, written);
    assert Drain(any)[1..] == [wait, take] && [wait, take][1..] == [take];
    LastCycle(a, r2, take);
    OneCycleMore(a, r1, wait, [take]);
    OneCycleMore(a, r, wait, [wait, take]);
  }

  lemma LastCycle<W>(a: nat, r: Regs<W>, i: Input<W>)
    requires Sized(a, r)
    ensures Accepted(a, r, [i]) == if Write(a, r, i) then [i.word] else []
    ensures Delivered(a, r, [i]) == if r.outValid && i.ready then [r.outData] else []
    ensures RunEdges(a, r, [i]) == Edge(a, r, i)
  {
    assert [i][1..] == [];
  }

  lemma OneCycleMore<W>(a: nat, r: Regs<W>, i: Input<W>, rest: seq<Input<W>>)
    requires Sized(a, r)
    ensures Accepted(a, r, [i] + rest) == (if Write(a, r, i) then [i.word] else []) + Accepted(a, Edge(a, r, i), rest)
    ensures Delivered(a, r, [i] + rest) ==
      (if r.outValid && i.ready then [r.outData] else []) + Delivered(a, Edge(a, r, i), rest)
    ensures RunEdges(a, r, [i] + rest) == RunEdges(a, Edge(a, r, i), rest)
  {
    assert ([i] + rest)[1..] == rest;
  }

  /** A cycle without input. */
  lemma IdleStep<W>(a: nat, r: Regs<W>, i: Input<W>, written: nat, read: nat)
    requires Tracks(a, r, written, read) && !i.rst && !i.valid
    ensures !Write(a, r, i) && Edge(a, r, i).mem == r.mem
    ensures var read' := if Read(r, i) then read + 1 else read;
      && read' <= written && (Read(r, i) <==> (i.ready || !r.outValid || !r.readValid) && read < written)
      && Tracks(a, Edge(a, r, i), written, read')
      && View(a, Edge(a, r, i), written, read') == PipeStep(View(a, r, written, read), Pow2(a), i)
  {
    EdgeRefines(a, r, i, written, read);
    FlagsExact(a, r, written, read);
  }

  /** A word put in right after a reset edge comes out as the content of slot 0. */
  lemma StaleWord<W>(a: nat, r: Regs<W>, word: W)
    requires Restarted(a, r) && FirstSlot(a, r) != 0
    ensures var ins := [Input(false, true, word, false)] + Drain(word);
      Accepted(a, r, ins) == [word] && Delivered(a, r, ins) == [r.mem[0]]
  {
    var put := Input(false, true, word, false);
    FirstCycle(a, r, put);
    FirstView(a, r, put);
    DrainsWord(a, Edge(a, r, put), 1, 0, r.mem[0], word);
    OneCycleMore(a, r, put, Drain(word));
  }

  /** Holding reset for a second cycle without input always suffices. */
  lemma TwoResetCyclesWork<W>(a: nat, r: Regs<W>, i: Input<W>, j: Input<W>, ins: seq<Input<W>>)
    requires Sized(a, r) && i.rst && j.rst && !j.valid && Running(ins)
    ensures Served(a, Edge(a, Edge(a, r, i), j), ins)
  {
    SlotValues(a);
    ResetRestarts(a, r, i);
    ResetRestarts(a, Edge(a, r, i), j);
    ResetServesIff(a, Edge(a, Edge(a, r, i), j), ins);
  }

  /**
   A one-cycle reset can corrupt the stream, in a FIFO of any size from power-up: one
   word passes through, reset is high for one cycle, a second word is accepted, and
   what is delivered for it is the first word again.
   */
  lemma ShortResetCorrupts<W>(a: nat, zero: W, contents: seq<W>, first: W, second: W)
    requires a > 0 && |contents| == Pow2(a)
    ensures var before := [Input(false, true, first, false)] + Drain(first);
      var reset := Input(true, false, first, false);
      var after := [Input(false, true, second, false)] + Drain(second);
      var r := RunEdges(a, PowerUp(zero, contents), before);
      && Accepted(a, PowerUp(zero, contents), before) == Delivered(a, PowerUp(zero, contents), before) == [first]
      && Sized(a, r)
      && Accepted(a, Edge(a, r, reset), after) == [second]
      && Delivered(a, Edge(a, r, reset), after) == [first]
  {
    var p, put, reset := PowerUp(zero, contents), Input(false, true, first, false), Input(true, false, first, false);
    SlotValues(a);
    var n := Edge(a, p, put);
    FirstWord(a, p, put);
    DrainsWord(a, n, 1, 0, first, first);
    OneCycleMore(a, p, put, Drain(first));
    var r := RunEdges(a, p, [put] + Drain(first));
    assert r.mem[0] == first && WrPtrNext(a, r, reset) == 1;
    ResetRestarts(a, r, reset);
    StaleWord(a, Edge(a, r, reset), second);
  }

  lemma FirstWord<W>(a: nat, p: Regs<W>, put: Input<W>)
    requires Tracks(a, p, 0, 0) && View(a, p, 0, 0) == Pipe([], None, None) && put.valid && !put.rst
    ensures Write(a, p, put) && !p.outValid
    ensures var n := Edge(a, p, put);
      Tracks(a, n, 1, 0) && View(a, n, 1, 0) == Pipe([put.word], None, None) && n.mem[0] == put.word
  {
    SlotValues(a);
    var n := Edge(a, p, put);
    FlagsExact(a, p, 0, 0);
    assert Window(a, n.mem, 0, 1) == [n.mem[Slot(0, a)]] + Window(a, n.mem, 1, 0);
  }
}

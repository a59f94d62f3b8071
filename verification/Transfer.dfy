/**
 Descriptor chains and whole requests (xdma-core.c): allocation, linking and
 adjacency of the chain for one transfer, the device's walk along it, and the
 division of a request into transfers of at most 8 MB.
 */
module Transfer {
  import opened Words
  import opened Descriptors
  import opened Pages
  import opened Scatter

  const TRANSFER_MAX_BYTES := 0x80_0000
  const LAST_CONTROL: bv32 := 0x13
  const EIO := 5
  const ERESTARTSYS := 512

  // ----- The chain of one transfer -----

  /** Bus address of descriptor i of an array at `bus`. */
  function DescAddr(bus: nat, i: nat): nat {
    bus + DESC_BYTES * i
  }

  /** Descriptor i of a chain of n: in order, and only the last one stops the engine. */
  predicate Linked(d: Desc, i: nat, n: nat, bus: nat) {
    && LowByte(d.control) == (if i == n - 1 then LAST_CONTROL else 0)
    && d.Next() == (if i == n - 1 then 0 else DescAddr(bus, i + 1))
  }

  predicate AdjacencySet(d: Desc, i: nat, n: nat) {
    HasDescMagic(d.control) && ExtraAdjacent(d.control) == ExtraAdj(d.nextLo, n - i - 1)
  }

  ghost predicate Chain(descs: seq<Desc>, bus: nat) {
    forall i :: 0 <= i < |descs| ==> Linked(descs[i], i, |descs|, bus) && AdjacencySet(descs[i], i, |descs|)
  }

  /** xdma_desc_alloc: a fresh array whose descriptors are linked in order. */
  method DescAlloc(number: nat, bus: Addr) returns (desc: array<Desc>)
    requires 1 <= number && DescAddr(bus, number) <= TWO_64
    ensures fresh(desc) && desc.Length == number
    ensures forall i :: 0 <= i < number ==> HasDescMagic(desc[i].control) && LowByte(desc[i].control) == 0
    ensures forall i :: 0 <= i < number ==> desc[i].Next() == (if i == number - 1 then 0 else DescAddr(bus, i + 1))
  {
    desc := new Desc[number](_ => Desc(0, 0, 0, 0, 0, 0, 0, 0));
    var descBus := bus;
    var adj := number - 1;
    var i := 0;
    while i < number - 1
      invariant 0 <= i <= number - 1 && adj == number - 1 - i && descBus == DescAddr(bus, i)
      invariant forall j :: 0 <= j < i ==> HasDescMagic(desc[j].control) && LowByte(desc[j].control) == 0
      invariant forall j :: 0 <= j < i ==> desc[j].Next() == DescAddr(bus, j + 1)
    {
      descBus := descBus + DESC_BYTES;
      var extraAdj := 0;
      if adj > 0 {
        extraAdj := adj - 1;
        if extraAdj > MAX_EXTRA_ADJ {
          extraAdj := MAX_EXTRA_ADJ;
        }
        adj := adj - 1;
      }
      FreshControl(extraAdj);
      JoinOfHalves(descBus);
      desc[i] := Desc(AdjacentControl(0, extraAdj), 0, 0, 0, 0, 0, Lo(descBus), Hi(descBus));
      i := i + 1;
    }
    FreshControl(0);
    desc[i] := Desc(AdjacentControl(0, 0), 0, 0, 0, 0, 0, 0, 0);
  }

  lemma FreshControl(extra: nat)
    requires extra <= MAX_EXTRA_ADJ
    ensures HasDescMagic(AdjacentControl(0, extra)) && LowByte(AdjacentControl(0, extra)) == 0
  {
    NibbleRoundTrip(extra);
    AdjacencyBits(0, extra as bv32);
  }

  /** Terminating the last descriptor: no successor, and STOPPED, EOP and COMPLETED as its flags. */
  lemma Terminated(d: Desc)
    ensures LAST_CONTROL & 0xff == LAST_CONTROL && STOPPED | EOP | COMPLETED == LAST_CONTROL
    ensures var t := SetControl(Link(d, None), LAST_CONTROL);
      && LowByte(t.control) == LAST_CONTROL && t.Next() == 0
      && RunOf(t, true) == RunOf(d, true) && RunOf(t, false) == RunOf(d, false)
  {
    LinkKeepsFields(d, None);
    ControlKeepsFields(Link(d, None).control, LAST_CONTROL);
  }

  /** Setting the adjacency leaves a descriptor linked where it was. */
  lemma AdjacentKeepsLink(d: Desc, i: nat, n: nat, bus: nat)
    requires i < n && Linked(d, i, n, bus)
    ensures var a := Adjacent(d, n - i - 1);
      && Linked(a, i, n, bus) && AdjacencySet(a, i, n)
      && RunOf(a, true) == RunOf(d, true) && RunOf(a, false) == RunOf(d, false)
  {
    AdjacentKeepsFields(d, n - i - 1);
  }

  /** The part of transfer_create that turns a mapped list into a terminated chain. */
  method TransferCreate(segs: seq<Seg>, bus: Addr, ep: Addr, dirToDev: bool, o: Options)
    returns (desc: array<Desc>, descNum: nat)
    requires 0 < |segs| && DescAddr(bus, |segs|) <= TWO_64
    ensures fresh(desc) && 1 <= descNum <= |segs| == desc.Length
    ensures Chain(desc[..descNum], bus)
    ensures RunsOf(desc[..descNum], dirToDev) == Coalesce(segs, 0, segs[0].addr, 0, ep, o)
  {
    desc := DescAlloc(|segs|, bus);
    var last := TransferBuild(segs, desc, ep, dirToDev, o);
    ghost var runs := Coalesce(segs, 0, segs[0].addr, 0, ep, o);
    assert forall i :: 0 <= i <= last ==> RunOf(desc[i], dirToDev) == RunsOf(desc[..last + 1], dirToDev)[i];
    Terminated(desc[last]);
    desc[last] := Link(desc[last], None);
    desc[last] := SetControl(desc[last], STOPPED | EOP | COMPLETED);
    descNum := last + 1;
    SetAdjacency(desc, descNum, bus, dirToDev);
    assert RunsOf(desc[..descNum], dirToDev) == runs;
  }

  /** Filling in the adjacent numbers turns a linked list into the chain the device expects. */
  method SetAdjacency(desc: array<Desc>, descNum: nat, ghost bus: nat, ghost dirToDev: bool)
    requires descNum <= desc.Length
    requires forall j :: 0 <= j < descNum ==> Linked(desc[j], j, descNum, bus)
    modifies desc
    ensures Chain(desc[..descNum], bus)
    ensures forall j :: 0 <= j < descNum ==> RunOf(desc[j], dirToDev) == RunOf(old(desc[j]), dirToDev)
  {
    var i := 0;
    while i < descNum
      invariant 0 <= i <= descNum
      invariant forall j :: 0 <= j < descNum ==> Linked(desc[j], j, descNum, bus)
      invariant forall j :: 0 <= j < descNum ==> RunOf(desc[j], dirToDev) == RunOf(old(desc[j]), dirToDev)
      invariant forall j :: 0 <= j < i ==> AdjacencySet(desc[j], j, descNum)
    {
      AdjacentKeepsLink(desc[i], i, descNum, bus);
      desc[i] := Adjacent(desc[i], descNum - i - 1);
      i := i + 1;
    }
  }

  // ----- The device's walk -----

  datatype Walked = Walked(slots: seq<nat>, stopped: bool)

  /** Following next addresses from `addr` until a descriptor stops the engine. */
  function Walk(descs: seq<Desc>, bus: nat, addr: nat, fuel: nat): Walked
    decreases fuel
  {
    if fuel == 0 || addr < bus || (addr - bus) % DESC_BYTES != 0 || (addr - bus) / DESC_BYTES >= |descs| then
      Walked([], false)
    else
      var i := (addr - bus) / DESC_BYTES;
      if !HasDescMagic(descs[i].control) then Walked([], false)
      else if IsStopped(descs[i].control) then Walked([i], true)
      else
        var rest := Walk(descs, bus, descs[i].Next(), fuel - 1);
        Walked([i] + rest.slots, rest.stopped)
  }

  lemma StoppedOnlyLast(d: Desc, i: nat, n: nat, bus: nat)
    requires i < n && Linked(d, i, n, bus)
    ensures IsStopped(d.control) <==> i == n - 1
  {
    if i == n - 1 {
      StoppedInLowByte(d.control, LAST_CONTROL);
      assert LowByte(LAST_CONTROL) == LAST_CONTROL && IsStopped(LAST_CONTROL);
    } else {
      StoppedInLowByte(d.control, 0);
      assert LowByte(0) == 0 && !IsStopped(0);
    }
  }

  /** The runs of the descriptors the device visits, in the order of its visits. */
  function RunsAlong(descs: seq<Desc>, slots: seq<nat>, dirToDev: bool): seq<Run> {
    if slots == [] then []
    else (if slots[0] < |descs| then [RunOf(descs[slots[0]], dirToDev)] else []) + RunsAlong(descs, slots[1..], dirToDev)
  }

  /** What a device started at `bus` does. */
  function DeviceRuns(descs: seq<Desc>, bus: nat, dirToDev: bool): seq<Run> {
    RunsAlong(descs, Walk(descs, bus, bus, |descs|).slots, dirToDev)
  }

  lemma {:induction false} RunsInOrder(descs: seq<Desc>, i: nat, dirToDev: bool)
    requires i <= |descs|
    ensures RunsAlong(descs, UpFrom(i, |descs|), dirToDev) == RunsOf(descs[i..], dirToDev)
    decreases |descs| - i
  {
    if i < |descs| {
      RunsInOrder(descs, i + 1, dirToDev);
      AlongOne(descs, i, UpFrom(i + 1, |descs|), dirToDev);
      RunsOfRest(descs, i, dirToDev);
    }
  }

  lemma AlongOne(descs: seq<Desc>, i: nat, rest: seq<nat>, dirToDev: bool)
    requires i < |descs|
    ensures RunsAlong(descs, [i] + rest, dirToDev) == [RunOf(descs[i], dirToDev)] + RunsAlong(descs, rest, dirToDev)
  {
    assert ([i] + rest)[1..] == rest;
  }

  lemma RunsOfRest(descs: seq<Desc>, i: nat, dirToDev: bool)
    requires i < |descs|
    ensures RunsOf(descs[i..], dirToDev) == [RunOf(descs[i], dirToDev)] + RunsOf(descs[i + 1..], dirToDev)
  {
  }

  /** The walk makes every run of a chain, once and in order, and stops. */
  lemma DeviceRunsAll(descs: seq<Desc>, bus: nat, dirToDev: bool)
    requires Chain(descs, bus) && |descs| > 0
    ensures DeviceRuns(descs, bus, dirToDev) == RunsOf(descs, dirToDev) && Walk(descs, bus, bus, |descs|).stopped
  {
    WalkVisitsAll(descs, bus, 0, |descs|);
    RunsInOrder(descs, 0, dirToDev);
    assert descs[0..] == descs && DescAddr(bus, 0) == bus;
  }

  /** i, i + 1, ..., n - 1 */
  function UpFrom(i: nat, n: nat): seq<nat>
    decreases n - i
  {
    if i >= n then [] else [i] + UpFrom(i + 1, n)
  }

  lemma SlotOfAddr(bus: nat, i: nat)
    ensures DescAddr(bus, i) >= bus && (DescAddr(bus, i) - bus) % DESC_BYTES == 0 && (DescAddr(bus, i) - bus) / DESC_BYTES == i
  {
  }

  /** The walk visits every descriptor of the transfer once, in order, and stops at the last. */
  lemma {:induction false} WalkVisitsAll(descs: seq<Desc>, bus: nat, i: nat, fuel: nat)
    requires Chain(descs, bus) && i < |descs| && fuel >= |descs| - i
    ensures Walk(descs, bus, DescAddr(bus, i), fuel) == Walked(UpFrom(i, |descs|), true)
    decreases fuel
  {
    var d := descs[i];
    assert Linked(d, i, |descs|, bus) && AdjacencySet(d, i, |descs|);
    StoppedOnlyLast(d, i, |descs|, bus);
    SlotOfAddr(bus, i);
    if i < |descs| - 1 {
      WalkVisitsAll(descs, bus, i + 1, fuel - 1);
    }
  }

  /**
   Every burst the adjacency fields advertise stays inside the transfer and inside
   one 4 KB page: the descriptors fetched together with the successor of i.
   */
  lemma BurstsStayInside(descs: seq<Desc>, bus: nat, i: nat)
    requires Chain(descs, bus) && i < |descs| && bus % PAGE_SIZE == 0 && DescAddr(bus, |descs|) <= TWO_64
    ensures var extra := ExtraAdjacent(descs[i].control);
      if i == |descs| - 1 then extra == 0
      else && i + 1 + extra < |descs|
           && descs[i].Next() % PAGE_SIZE + DESC_BYTES * (1 + extra) <= PAGE_SIZE
  {
    var d := descs[i];
    assert Linked(d, i, |descs|, bus) && AdjacencySet(d, i, |descs|);
    if i < |descs| - 1 {
      LowTwelveBits(d, DescAddr(bus, i + 1));
      BurstFits(bus, i + 1, |descs| - i - 1, d.nextLo);
    }
  }

  /**
   No neighbour is left out: the adjacency of a descriptor is 15, or one descriptor more
   would leave the transfer, or one more would leave the page of its successor.
   */
  lemma AdjacencyIsGreatest(descs: seq<Desc>, bus: nat, i: nat)
    requires Chain(descs, bus) && i + 1 < |descs| && bus % 4096 == 0 && DescAddr(bus, |descs|) <= TWO_64
    ensures descs[i].Next() == bus + 32 * (i + 1)
    ensures var extra := ExtraAdjacent(descs[i].control);
      extra == 15 || i + 1 + extra + 1 == |descs| || descs[i].Next() % 4096 + 32 * (1 + extra + 1) > 4096
  {
    var d := descs[i];
    assert Linked(d, i, |descs|, bus) && AdjacencySet(d, i, |descs|);
    LowTwelveBits(d, DescAddr(bus, i + 1));
    AlignedInPage(bus, i + 1);
    RoomInPage(d.nextLo % 0x1000);
  }

  lemma BurstFits(bus: nat, next: nat, adjacent: nat, nextLo: Word)
    requires bus % PAGE_SIZE == 0 && adjacent >= 1 && nextLo % 0x1000 == DescAddr(bus, next) % 0x1000
    ensures var extra := ExtraAdj(nextLo, adjacent);
      extra < adjacent && DescAddr(bus, next) % PAGE_SIZE + DESC_BYTES * (1 + extra) <= PAGE_SIZE
  {
    AlignedInPage(bus, next);
    RoomInPage(nextLo % 0x1000);
  }

  lemma AlignedInPage(bus: nat, next: nat)
    requires bus % PAGE_SIZE == 0
    ensures DescAddr(bus, next) % PAGE_SIZE % 32 == 0
  {
  }

  lemma RoomInPage(x: nat)
    requires x < PAGE_SIZE && x % 32 == 0
    ensures var limit := (0x1000 - x) / 32 - 1;
      0 <= limit == limit % TWO_32 && x + 32 * (limit + 1) == 0x1000
  {
  }

  lemma LowTwelveBits(d: Desc, next: nat)
    requires d.Next() == next
    ensures d.nextLo % 0x1000 == next % 0x1000
  {
  }

  /** The first burst, which engine_start programs, is inside the transfer and the page as well. */
  lemma FirstBurstStaysInside(descs: seq<Desc>, bus: nat)
    requires 0 < |descs| && bus % PAGE_SIZE == 0
    ensures var extra := if |descs| - 1 > MAX_EXTRA_ADJ then MAX_EXTRA_ADJ else |descs| - 1;
      1 + extra <= |descs| && bus % PAGE_SIZE + DESC_BYTES * (1 + extra) <= PAGE_SIZE
  {
  }

  // ----- A whole request -----

  /** How one transfer goes: NotCreated is a failed allocation, Unpinned a page that cannot be pinned. */
  datatype Outcome = Completed | Failed | Interrupted | NotCreated | Unpinned

  function Translate(host: int -> int, bytes: seq<int>): (r: seq<int>)
    ensures |r| == |bytes|
  {
    seq(|bytes|, (t: nat) requires t < |bytes| => host(bytes[t]))
  }

  /** A mapped scatter list: its segments, and the physical byte a bus address stands for while it is mapped. */
  datatype Mapping = Mapping(segs: seq<Seg>, host: int -> int)

  /** The lists GetUserPages makes: an int many entries, each within its page. */
  predicate InPages(es: seq<SgEntry>) {
    && 0 < |es| < 0x8000_0000
    && forall i :: 0 <= i < |es| ==> 0 < es[i].length && es[i].offset + es[i].length <= PAGE_SIZE
  }

  /** -EIO, or -ERESTARTSYS after a signal; after a BUG_ON there is nobody to return to. */
  function ErrorCode(o: Outcome): int {
    match o
    case Completed => 0
    case Interrupted => -512
    case _ => -5
  }

  /** What pci_map_sg promises: no more segments than entries, the same bytes in the same order. */
  ghost predicate FaithfulMap(mapSg: seq<SgEntry> -> Mapping) {
    forall es {:trigger mapSg(es)} :: InPages(es) ==>
      && 0 < |mapSg(es).segs| <= |es|
      && Translate(mapSg(es).host, HostBytes(mapSg(es).segs)) == SgBytes(es)
  }

  /** An IOMMU that gives a list the bus addresses from 0 on. */
  function IovaMap(es: seq<SgEntry>): Mapping {
    Mapping(IovaSegs(es), x => if 0 <= x < |SgBytes(es)| then SgBytes(es)[x] else x)
  }

  function IovaSegs(es: seq<SgEntry>): (r: seq<Seg>)
    ensures |r| == |es|
  {
    seq(|es|, (i: nat) requires i < |es| =>
      Seg(Wrap(|SgBytes(es[..i])|), if es[i].length < TWO_32 then es[i].length else 0))
  }

  /** from, from + 1, ..., from + n - 1 */
  function Consecutive(from: nat, n: nat): (r: seq<int>)
    ensures |r| == n
  {
    seq(n, (t: nat) => from + t)
  }

  lemma SpanIsConsecutive(addr: Addr, n: nat, m: nat)
    requires addr + n < TWO_64
    ensures Span(addr, n) + Consecutive(addr + n, m) == Consecutive(addr, n + m)
  {
    var parts := Span(addr, n) + Consecutive(addr + n, m);
    forall t | 0 <= t < n + m
      ensures parts[t] == addr + t
    {
      if t < n {
        assert parts[t] == Wrap(addr + t);
      }
    }
  }

  lemma {:induction false} PrefixBytes(es: seq<SgEntry>, i: nat)
    requires InPages(es) && i <= |es|
    ensures |SgBytes(es[..i])| <= |SgBytes(es)| < TWO_64
    ensures i < |es| ==> |SgBytes(es[..i + 1])| == |SgBytes(es[..i])| + es[i].length <= |SgBytes(es)|
    decreases |es| - i
  {
    if i == |es| {
      assert es[..i] == es;
      BytesBounded(es);
    } else {
      PrefixBytes(es, i + 1);
      assert es[..i + 1] == es[..i] + [es[i]];
      SgBytesAppend(es[..i], es[i]);
    }
  }

  lemma {:induction false} IovaBytes(es: seq<SgEntry>, i: nat)
    requires InPages(es) && i <= |es|
    ensures |SgBytes(es[..i])| <= |SgBytes(es)|
    ensures HostFrom(IovaSegs(es), i) == Consecutive(|SgBytes(es[..i])|, |SgBytes(es)| - |SgBytes(es[..i])|)
    decreases |es| - i
  {
    PrefixBytes(es, i);
    if i == |es| {
      assert es[..i] == es;
    } else {
      var at := |SgBytes(es[..i])|;
      IovaBytes(es, i + 1);
      assert IovaSegs(es)[i] == Seg(at, es[i].length);
      SpanIsConsecutive(at, es[i].length, |SgBytes(es)| - (at + es[i].length));
    }
  }

  lemma {:induction false} BytesBounded(es: seq<SgEntry>)
    requires forall i :: 0 <= i < |es| ==> es[i].offset + es[i].length <= PAGE_SIZE
    ensures |SgBytes(es)| <= PAGE_SIZE * |es|
  {
    if es != [] {
      BytesBounded(es[..|es| - 1]);
    }
  }

  /** The promise can be kept. */
  lemma FaithfulMapExists()
    ensures FaithfulMap(IovaMap)
  {
    forall es | InPages(es)
      ensures Translate(IovaMap(es).host, HostBytes(IovaMap(es).segs)) == SgBytes(es)
    {
      IovaBytes(es, 0);
    }
  }

  lemma MappedSlice(pageTable: nat -> nat, start: nat, count: nat, at: nat, len: nat)
    requires at + len <= count
    ensures Mapped(pageTable, start, count)[at..at + len] == Mapped(pageTable, start + at, len)
  {
  }

  /** Moves told by physical addresses instead of bus addresses. */
  function Reached(host: int -> int, moves: seq<(int, Addr)>): (r: seq<(int, Addr)>)
    ensures |r| == |moves|
  {
    seq(|moves|, (t: nat) requires t < |moves| => (host(moves[t].0), moves[t].1))
  }

  lemma ReachedPairs(host: int -> int, bytes: seq<int>, ep: Addr, incr: bool)
    ensures Reached(host, Pairs(bytes, ep, incr)) == Pairs(Translate(host, bytes), ep, incr)
  {
  }

  /** What the chunked request does: every chunk at its own endpoint address. */
  function ChunkMoves(host: seq<int>, pos: nat, incr: bool): seq<(int, Addr)>
    decreases |host|
  {
    if |host| <= TRANSFER_MAX_BYTES then Pairs(host, Wrap(pos), incr)
    else
      Pairs(host[..TRANSFER_MAX_BYTES], Wrap(pos), incr)
      + ChunkMoves(host[TRANSFER_MAX_BYTES..], pos + TRANSFER_MAX_BYTES, incr)
  }

  /** What has been done so far and what remains from byte `done` on make up the request. */
  ghost predicate Progress(log: seq<(int, Addr)>, host: seq<int>, done: nat, pos: nat, incr: bool) {
    && done <= |host|
    && log + ChunkMoves(host[done..], pos + done, incr) == ChunkMoves(host, pos, incr)
  }

  /** In incrementing mode the chunks add up to the request. */
  lemma {:induction false} ChunksAddUp(host: seq<int>, pos: nat)
    ensures ChunkMoves(host, pos, true) == Pairs(host, Wrap(pos), true)
    decreases |host|
  {
    if |host| > TRANSFER_MAX_BYTES {
      var a, b := host[..TRANSFER_MAX_BYTES], host[TRANSFER_MAX_BYTES..];
      ChunksAddUp(b, pos + TRANSFER_MAX_BYTES);
      PairsAppend(a, b, Wrap(pos), true);
      WrapAdd(pos, TRANSFER_MAX_BYTES);
      assert a + b == host;
    }
  }

  /**
   A request does what it says, pairing byte k of the buffer with its endpoint
   address, if and only if the address mode is incrementing or one transfer is
   enough: the file position advances between transfers even in fixed mode.
   */
  lemma RequestRightIff(host: seq<int>, pos: nat, incr: bool)
    ensures ChunkMoves(host, pos, incr) == Pairs(host, Wrap(pos), incr) <==> incr || |host| <= TRANSFER_MAX_BYTES
  {
    if incr {
      ChunksAddUp(host, pos);
    } else if |host| > TRANSFER_MAX_BYTES {
      SecondChunkMoves(host, pos);
      WrapIsMod(pos);
      WrapIsMod(pos + TRANSFER_MAX_BYTES);
      assert Pairs(host, Wrap(pos), false)[TRANSFER_MAX_BYTES].1 == Wrap(pos);
    }
  }

  lemma SecondChunkMoves(host: seq<int>, pos: nat)
    requires |host| > TRANSFER_MAX_BYTES
    ensures |ChunkMoves(host, pos, false)| > TRANSFER_MAX_BYTES
    ensures ChunkMoves(host, pos, false)[TRANSFER_MAX_BYTES].1 == Wrap(pos + TRANSFER_MAX_BYTES)
  {
    var rest := host[TRANSFER_MAX_BYTES..];
    FirstMove(rest, pos + TRANSFER_MAX_BYTES);
  }

  lemma FirstMove(host: seq<int>, pos: nat)
    requires |host| > 0
    ensures |ChunkMoves(host, pos, false)| > 0 && ChunkMoves(host, pos, false)[0].1 == Wrap(pos)
  {
  }

  /**
   One transfer of transfer_data: pin, map, build, and the physical bytes the device
   will reach when it is started at `bus`. `bug` is the BUG_ON for a page that
   cannot be pinned.
   */
  method OneTransfer(start: Addr, len: nat, pos: nat, dirToDev: bool, o: Options, bus: nat,
                     pageTable: nat -> nat, mapSg: seq<SgEntry> -> Mapping, pinned: int)
    returns (bug: bool, descs: seq<Desc>, host: int -> int)
    requires 0 < len <= TRANSFER_MAX_BYTES && start + len < TWO_64 && bus < TWO_32 && FaithfulMap(mapSg)
    requires pinned <= NrPages(start, len)
    ensures bug <==> pinned < NrPages(start, len)
    ensures !bug ==> |descs| > 0 && Chain(descs, bus)
    ensures !bug ==>
      Reached(host, Moves(DeviceRuns(descs, bus, dirToDev), o.Incr())) == Pairs(Mapped(pageTable, start, len), Wrap(pos), o.Incr())
  {
    descs, host := [], x => x;
    var sgm := new SgMapping(len);
    CapacitySuffices(start, len);
    var rc := sgm.GetUserPages(start, len, pageTable, pinned);
    bug := rc < 0;
    if !bug {
      descs, host := MapAndBuild(sgm.sgl[..rc], Mapped(pageTable, start, len), pos, dirToDev, o, bus, mapSg);
    }
  }

  /** The part of transfer_create after the pages are pinned. */
  method MapAndBuild(es: seq<SgEntry>, ghost bytes: seq<int>, pos: nat, dirToDev: bool, o: Options, bus: nat,
                     mapSg: seq<SgEntry> -> Mapping)
    returns (descs: seq<Desc>, host: int -> int)
    requires InPages(es) && SgBytes(es) == bytes && |bytes| <= TRANSFER_MAX_BYTES && bus < TWO_32 && FaithfulMap(mapSg)
    ensures |descs| > 0 && Chain(descs, bus)
    ensures Reached(host, Moves(DeviceRuns(descs, bus, dirToDev), o.Incr())) == Pairs(bytes, Wrap(pos), o.Incr())
  {
    var mapping := mapSg(es);
    host := mapping.host;
    assert |HostBytes(mapping.segs)| == |Translate(host, HostBytes(mapping.segs))| == |bytes|;
    var desc, descNum := TransferCreate(mapping.segs, bus, Wrap(pos), dirToDev, o);
    BuildMoves(mapping.segs, Wrap(pos), o);
    ReachedPairs(host, HostBytes(mapping.segs), Wrap(pos), o.Incr());
    descs := desc[..descNum];
    DeviceRunsAll(descs, bus, dirToDev);
  }

  /** One round of transfer_data: build and submit the next transfer, and see how it ended. */
  method Attempt(log: seq<(int, Addr)>, start: Addr, count: nat, done: nat, len: nat, pos: nat, dirToDev: bool,
                 nonIncrAddr: bool, bus: nat, pageTable: nat -> nat, mapSg: seq<SgEntry> -> Mapping, outcome: Outcome)
    returns (err: int, bug: bool, newLog: seq<(int, Addr)>)
    requires start + count < TWO_64 && bus < TWO_32 && FaithfulMap(mapSg)
    requires 0 < len && (len == TRANSFER_MAX_BYTES < count - done || len == count - done <= TRANSFER_MAX_BYTES)
    requires Progress(log, Mapped(pageTable, start, count), done, pos, !nonIncrAddr)
    ensures bug == outcome.Unpinned? && (outcome.Completed? || newLog == log)
    ensures err == ErrorCode(outcome)
    ensures outcome.Completed? <==> err == 0
    ensures outcome.Interrupted? <==> err == -512
    ensures outcome.Failed? || outcome.NotCreated? ==> err == -5
    ensures Progress(newLog, Mapped(pageTable, start, count),
      if outcome.Completed? then done + len else done, pos, !nonIncrAddr)
  {
    err, bug, newLog := -EIO, false, log;
    if outcome.NotCreated? {
      return;
    }
    var o := Options(nonIncrAddr, false, true);
    CapacitySuffices(start + done, len);
    var descs, host;
    bug, descs, host := OneTransfer(start + done, len, pos + done, dirToDev, o, bus, pageTable, mapSg,
      if outcome.Unpinned? then 0 else NrPages(start + done, len));
    if outcome.Interrupted? {
      err := -ERESTARTSYS;
    }
    if outcome.Completed? {
      err := 0;
      var moves := Reached(host, Moves(DeviceRuns(descs, bus, dirToDev), o.Incr()));
      newLog := log + moves;
      MappedSlice(pageTable, start, count, done, len);
      ChunkDone(log, moves, Mapped(pageTable, start, count), done, len, pos, !nonIncrAddr);
    }
  }

  /**
   transfer_data. The outcome of each transfer is the environment's; `log` is what
   the device did for the completed ones. At a page that cannot be pinned the driver
   stops in a BUG_ON; for that the method returns with `bug`.
   */
  method TransferData(start: Addr, count: nat, pos: nat, dirToDev: bool, nonIncrAddr: bool, busOf: nat -> nat,
                      pageTable: nat -> nat, mapSg: seq<SgEntry> -> Mapping, outcome: nat -> Outcome)
    returns (res: int, bug: bool, newPos: nat, log: seq<(int, Addr)>)
    requires start + count < TWO_64 && (forall c :: busOf(c) < TWO_32) && FaithfulMap(mapSg)
    ensures res == count <==> forall c: nat :: c * TRANSFER_MAX_BYTES < count ==> outcome(c).Completed?
    ensures bug <==> exists c: nat :: BugAt(outcome, count, c)
    ensures if res == count then newPos == pos + count else res < 0 && newPos < pos + count
    ensures forall c: nat :: FirstFailing(outcome, count, c) ==>
      && res == (if outcome(c).Interrupted? then -512 else -5)
      && newPos == pos + c * TRANSFER_MAX_BYTES
    ensures pos <= newPos <= pos + count
    ensures Progress(log, Mapped(pageTable, start, count), newPos - pos, pos, !nonIncrAddr)
    ensures res == count ==>
      (!nonIncrAddr || count <= TRANSFER_MAX_BYTES <==>
        log == Pairs(Mapped(pageTable, start, count), Wrap(pos), !nonIncrAddr))
  {
    ghost var host := Mapped(pageTable, start, count);
    var remaining, done: nat, chunk: nat := count, 0, 0;
    newPos, log, res, bug := pos, [], 0, false;
    while res == 0 && remaining > 0
      invariant res <= 0 && done + remaining == count
      invariant res == 0 ==> remaining == 0 || done == chunk * TRANSFER_MAX_BYTES
      invariant newPos == pos + done
      invariant forall c: nat :: c < chunk ==> outcome(c).Completed?
      invariant remaining == 0 ==> count <= chunk * TRANSFER_MAX_BYTES
      invariant res == 0 ==> !bug
      invariant res != 0 ==> remaining > 0 && FirstFailing(outcome, count, chunk) && bug == outcome(chunk).Unpinned?
      invariant res != 0 ==> res == ErrorCode(outcome(chunk)) && done == chunk * TRANSFER_MAX_BYTES
      invariant Progress(log, host, done, pos, !nonIncrAddr)
      decreases if res == 0 then remaining else -1
    {
      var transferLen := remaining;
      if remaining > TRANSFER_MAX_BYTES {
        transferLen := TRANSFER_MAX_BYTES;
      }
      res, bug, log := Attempt(log, start, count, done, transferLen, pos, dirToDev, nonIncrAddr, busOf(chunk),
        pageTable, mapSg, outcome(chunk));
      if res != 0 {
        transferLen := 0;
      } else {
        chunk := chunk + 1;
      }
      remaining := remaining - transferLen;
      done := done + transferLen;
      newPos := newPos + transferLen;
    }
    BugIff(outcome, count, chunk, res == 0);
    OneFails(outcome, count, chunk, res == 0);
    if res == 0 {
      res := done;
      ProgressComplete(log, host, pos, !nonIncrAddr);
    }
  }

  /** The c-th transfer of a request is the one that stops the driver. */
  ghost predicate BugAt(outcome: nat -> Outcome, count: nat, c: nat) {
    c * TRANSFER_MAX_BYTES < count && outcome(c).Unpinned? && forall b: nat :: b < c ==> outcome(b).Completed?
  }

  /** The c-th transfer of a request is the one that ends it early. */
  ghost predicate FirstFailing(outcome: nat -> Outcome, count: nat, c: nat) {
    c * TRANSFER_MAX_BYTES < count && !outcome(c).Completed? && forall b: nat :: b < c ==> outcome(b).Completed?
  }

  lemma OneFails(outcome: nat -> Outcome, count: nat, chunk: nat, all: bool)
    requires forall c: nat :: c < chunk ==> outcome(c).Completed?
    requires if all then count <= chunk * TRANSFER_MAX_BYTES else FirstFailing(outcome, count, chunk)
    ensures forall c: nat :: FirstFailing(outcome, count, c) ==> !all && c == chunk
  {
    forall c: nat | FirstFailing(outcome, count, c)
      ensures !all && c == chunk
    {
      assert c >= chunk;
    }
  }

  lemma BugIff(outcome: nat -> Outcome, count: nat, chunk: nat, all: bool)
    requires forall c: nat :: c < chunk ==> outcome(c).Completed?
    requires if all then count <= chunk * TRANSFER_MAX_BYTES
      else chunk * TRANSFER_MAX_BYTES < count && !outcome(chunk).Completed?
    ensures (exists c: nat :: BugAt(outcome, count, c)) <==> !all && outcome(chunk).Unpinned?
  {
    if !all && outcome(chunk).Unpinned? {
      assert BugAt(outcome, count, chunk);
    }
    forall c: nat | BugAt(outcome, count, c)
      ensures !all && c == chunk
    {
      assert c >= chunk;
    }
  }

  lemma ChunkDone(log: seq<(int, Addr)>, moves: seq<(int, Addr)>, host: seq<int>, done: nat, len: nat, pos: nat, incr: bool)
    requires done + len <= |host| && Progress(log, host, done, pos, incr)
    requires len == TRANSFER_MAX_BYTES < |host| - done || len == |host| - done <= TRANSFER_MAX_BYTES
    requires moves == Pairs(host[done..done + len], Wrap(pos + done), incr)
    ensures Progress(log + moves, host, done + len, pos, incr)
  {
    var rest := host[done..];
    NextChunk(host, done, len, pos, incr);
    Regroup(log, moves, ChunkMoves(host[done + len..], pos + (done + len), incr),
      ChunkMoves(rest, pos + done, incr), ChunkMoves(host, pos, incr));
  }

  lemma NextChunk(host: seq<int>, done: nat, len: nat, pos: nat, incr: bool)
    requires done + len <= |host|
    requires len == TRANSFER_MAX_BYTES < |host| - done || len == |host| - done <= TRANSFER_MAX_BYTES
    ensures ChunkMoves(host[done..], pos + done, incr)
      == Pairs(host[done..done + len], Wrap(pos + done), incr) + ChunkMoves(host[done + len..], pos + (done + len), incr)
  {
    var rest := host[done..];
    assert rest[..len] == host[done..done + len] && rest[len..] == host[done + len..];
    FirstChunk(rest, len, pos + done, incr);
    assert pos + done + len == pos + (done + len);
  }

  lemma Regroup<T>(a: seq<T>, b: seq<T>, c: seq<T>, bc: seq<T>, all: seq<T>)
    requires a + bc == all && bc == b + c
    ensures (a + b) + c == all
  {
  }

  lemma FirstChunk(host: seq<int>, len: nat, pos: nat, incr: bool)
    requires len == TRANSFER_MAX_BYTES < |host| || len == |host| <= TRANSFER_MAX_BYTES
    ensures ChunkMoves(host, pos, incr) == Pairs(host[..len], Wrap(pos), incr) + ChunkMoves(host[len..], pos + len, incr)
  {
    if len == |host| {
      assert host[..len] == host;
      assert ChunkMoves(host[len..], pos + len, incr) == [];
    }
  }

  /** A request that returns its count has made every move of the request, and nothing else. */
  lemma ProgressComplete(log: seq<(int, Addr)>, host: seq<int>, pos: nat, incr: bool)
    requires Progress(log, host, |host|, pos, incr)
    ensures log == Pairs(host, Wrap(pos), incr) <==> incr || |host| <= TRANSFER_MAX_BYTES
  {
    assert host[|host|..] == [];
    RequestRightIff(host, pos, incr);
  }
}

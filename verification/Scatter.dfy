/**
 From a mapped scatter-gather list to the descriptors the device executes
 (transfer_build in xdma-core.c). What a list of segments, runs or descriptors
 means is the sequence of (host address, endpoint address) pairs between which it
 moves one byte each.
 */
module Scatter {
  import opened Words
  import opened Sequences
  import opened Descriptors
  import opened Pages

  const DESC_MAX_BYTES := 0x3_FFFF

  /** A DMA-mapped segment: sg_dma_address and sg_dma_len. */
  datatype Seg = Seg(addr: Addr, len: Word)

  /** A contiguous block as transfer_build assembles it. */
  datatype Run = Run(host: Addr, ep: Addr, len: Word)

  /** Arguments of transfer_build other than the list and the address. */
  datatype Options = Options(nonIncrAddr: bool, forceNewDesc: bool, userspace: bool) {
    /** Whether the endpoint address advances. */
    function Incr(): bool { !(userspace && nonIncrAddr) }
    function Forced(): bool { forceNewDesc && !userspace }
  }

  // ----- Meaning -----

  function Span(addr: Addr, n: nat): (r: seq<int>)
    ensures |r| == n
  {
    seq(n, (t: nat) requires t < n => Wrap(addr + t))
  }

  /** The host bytes of the segments from i on, in order. */
  function HostFrom(segs: seq<Seg>, i: nat): seq<int>
    requires i <= |segs|
    decreases |segs| - i
  {
    if i == |segs| then [] else Span(segs[i].addr, segs[i].len) + HostFrom(segs, i + 1)
  }

  function HostBytes(segs: seq<Seg>): seq<int> {
    HostFrom(segs, 0)
  }

  /** The endpoint address of byte t of a stretch: fixed or incrementing. */
  function EpAt(ep: Addr, t: nat, incr: bool): Addr {
    if incr then Wrap(ep + t) else ep
  }

  function Pairs(host: seq<int>, ep: Addr, incr: bool): (r: seq<(int, Addr)>)
    ensures |r| == |host|
  {
    seq(|host|, (t: nat) requires t < |host| => (host[t], EpAt(ep, t, incr)))
  }

  function RunMoves(r: Run, incr: bool): seq<(int, Addr)> {
    Pairs(Span(r.host, r.len), r.ep, incr)
  }

  function Moves(runs: seq<Run>, incr: bool): seq<(int, Addr)> {
    if runs == [] then [] else RunMoves(runs[0], incr) + Moves(runs[1..], incr)
  }

  /** The run a descriptor tells the device to make. */
  function RunOf(d: Desc, dirToDev: bool): Run {
    Run(HostAddr(d, dirToDev), EndpointAddr(d, dirToDev), d.bytes)
  }

  function RunsOf(descs: seq<Desc>, dirToDev: bool): (r: seq<Run>)
    ensures |r| == |descs|
  {
    seq(|descs|, (i: nat) requires i < |descs| => RunOf(descs[i], dirToDev))
  }

  lemma SpanAppend(addr: Addr, n: nat, next: Addr, m: nat)
    requires next == Wrap(addr + n)
    ensures Span(addr, n) + Span(next, m) == Span(addr, n + m)
  {
    var whole, parts := Span(addr, n + m), Span(addr, n) + Span(next, m);
    forall t | 0 <= t < n + m
      ensures whole[t] == parts[t]
    {
      if t >= n {
        WrapAdd(addr + n, t - n);
      }
    }
  }

  lemma PairsAppend(a: seq<int>, b: seq<int>, ep: Addr, incr: bool)
    ensures Pairs(a + b, ep, incr) == Pairs(a, ep, incr) + Pairs(b, EpAt(ep, |a|, incr), incr)
  {
    var whole, parts := Pairs(a + b, ep, incr), Pairs(a, ep, incr) + Pairs(b, EpAt(ep, |a|, incr), incr);
    forall t | 0 <= t < |a + b|
      ensures whole[t] == parts[t]
    {
      if t >= |a| {
        WrapAdd(ep + |a|, t - |a|);
      }
    }
  }

  lemma OneRun(r: Run, incr: bool)
    ensures Moves([r], incr) == RunMoves(r, incr)
  {
    assert Moves([r][1..], incr) == [];
  }

  lemma RunThenRuns(r: Run, runs: seq<Run>, incr: bool)
    ensures Moves([r] + runs, incr) == RunMoves(r, incr) + Moves(runs, incr)
  {
    assert ([r] + runs)[1..] == runs;
  }

  lemma {:induction false} MovesAppend(a: seq<Run>, b: seq<Run>, incr: bool)
    ensures Moves(a + b, incr) == Moves(a, incr) + Moves(b, incr)
  {
    if a == [] {
      assert a + b == b;
    } else {
      MovesAppend(a[1..], b, incr);
      assert a + b == [a[0]] + (a[1..] + b);
      RunThenRuns(a[0], a[1..] + b, incr);
      Associates(RunMoves(a[0], incr), Moves(a[1..], incr), Moves(b, incr));
    }
  }

  // ----- Coalescing -----

  /** Whether entry i, with the block `len` long including it, is the last of its block. */
  predicate EndsBlock(segs: seq<Seg>, i: nat, len: Word, o: Options)
    requires i + 1 < |segs|
  {
    || segs[i + 1].addr != Wrap(segs[i].addr + segs[i].len)
    || len > DESC_MAX_BYTES - PAGE_SIZE
    || o.Forced()
  }

  /** The blocks made of a block of contLen bytes at contAddr followed by the entries from i on. */
  function Coalesce(segs: seq<Seg>, i: nat, contAddr: Addr, contLen: Word, epAddr: Addr, o: Options): (runs: seq<Run>)
    requires i < |segs|
    ensures 1 <= |runs| <= |segs| - i
    ensures o.Forced() ==> |runs| == |segs| - i
    decreases |segs| - i
  {
    var len := AddWord(contLen, segs[i].len);
    if i + 1 == |segs| then [Run(contAddr, epAddr, len)]
    else if EndsBlock(segs, i, len, o) then
      [Run(contAddr, epAddr, len)] + Coalesce(segs, i + 1, segs[i + 1].addr, 0, EpAt(epAddr, len, o.Incr()), o)
    else Coalesce(segs, i + 1, contAddr, len, epAddr, o)
  }

  /** Coalescing preserves meaning: the same host bytes meet the same endpoint bytes, in the same order. */
  lemma {:induction false} CoalesceMoves(segs: seq<Seg>, i: nat, contAddr: Addr, contLen: Word, epAddr: Addr, o: Options)
    requires i < |segs| && contLen + |HostFrom(segs, i)| < TWO_32
    requires segs[i].addr == Wrap(contAddr + contLen)
    ensures Moves(Coalesce(segs, i, contAddr, contLen, epAddr, o), o.Incr())
      == Pairs(Span(contAddr, contLen) + HostFrom(segs, i), epAddr, o.Incr())
    decreases |segs| - i
  {
    var len := contLen + segs[i].len;
    EntryContinues(segs, i, contAddr, contLen);
    EntryJoins(segs, i, contAddr, contLen);
    if i + 1 == |segs| {
      OneRun(Run(contAddr, epAddr, len), o.Incr());
      assert Span(contAddr, len) + HostFrom(segs, i + 1) == Span(contAddr, len);
    } else if EndsBlock(segs, i, len, o) {
      var next := EpAt(epAddr, len, o.Incr());
      CoalesceMoves(segs, i + 1, segs[i + 1].addr, 0, next, o);
      assert Span(segs[i + 1].addr, 0) + HostFrom(segs, i + 1) == HostFrom(segs, i + 1);
      BlockThenRest(contAddr, len, epAddr, Coalesce(segs, i + 1, segs[i + 1].addr, 0, next, o), HostFrom(segs, i + 1), o.Incr());
    } else {
      CoalesceMoves(segs, i + 1, contAddr, len, epAddr, o);
    }
  }

  /** Entry i continues the block it follows. */
  lemma EntryJoins(segs: seq<Seg>, i: nat, contAddr: Addr, contLen: Word)
    requires i < |segs| && segs[i].addr == Wrap(contAddr + contLen)
    ensures Span(contAddr, contLen) + HostFrom(segs, i) == Span(contAddr, contLen + segs[i].len) + HostFrom(segs, i + 1)
  {
    SpanAppend(contAddr, contLen, segs[i].addr, segs[i].len);
    Associates(Span(contAddr, contLen), Span(segs[i].addr, segs[i].len), HostFrom(segs, i + 1));
  }

  lemma EntryContinues(segs: seq<Seg>, i: nat, contAddr: Addr, contLen: Word)
    requires i < |segs| && segs[i].addr == Wrap(contAddr + contLen)
    ensures Wrap(segs[i].addr + segs[i].len) == Wrap(contAddr + (contLen + segs[i].len))
    ensures |HostFrom(segs, i)| == segs[i].len + |HostFrom(segs, i + 1)|
  {
    WrapAdd(contAddr + contLen, segs[i].len);
  }

  lemma BlockThenRest(contAddr: Addr, len: Word, epAddr: Addr, runs: seq<Run>, rest: seq<int>, incr: bool)
    requires Moves(runs, incr) == Pairs(rest, EpAt(epAddr, len, incr), incr)
    ensures Moves([Run(contAddr, epAddr, len)] + runs, incr) == Pairs(Span(contAddr, len) + rest, epAddr, incr)
  {
    RunThenRuns(Run(contAddr, epAddr, len), runs, incr);
    PairsAppend(Span(contAddr, len), rest, epAddr, incr);
  }

  /** If every entry fits a page, every descriptor respects the device's length limit. */
  lemma {:induction false} CoalesceBounded(segs: seq<Seg>, i: nat, contAddr: Addr, contLen: Word, epAddr: Addr, o: Options)
    requires i < |segs| && contLen <= DESC_MAX_BYTES - PAGE_SIZE
    requires forall s :: 0 <= s < |segs| ==> segs[s].len <= PAGE_SIZE
    ensures forall s :: 0 <= s < |Coalesce(segs, i, contAddr, contLen, epAddr, o)| ==>
      Coalesce(segs, i, contAddr, contLen, epAddr, o)[s].len <= DESC_MAX_BYTES
    decreases |segs| - i
  {
    var len := contLen + segs[i].len;
    if i + 1 < |segs| {
      if EndsBlock(segs, i, len, o) {
        CoalesceBounded(segs, i + 1, segs[i + 1].addr, 0, EpAt(epAddr, len, o.Incr()), o);
      } else {
        CoalesceBounded(segs, i + 1, contAddr, len, epAddr, o);
      }
    }
  }

  /** Two neighbouring runs could not have been one: they are apart, or the first is nearly full. */
  predicate SplitNeeded(a: Run, b: Run) {
    b.host != Wrap(a.host + a.len) || a.len > DESC_MAX_BYTES - PAGE_SIZE
  }

  predicate AllSplitsNeeded(runs: seq<Run>) {
    |runs| > 1 ==> SplitNeeded(runs[0], runs[1]) && AllSplitsNeeded(runs[1..])
  }

  lemma SplitThenRest(r: Run, runs: seq<Run>)
    requires 0 < |runs| && SplitNeeded(r, runs[0]) && AllSplitsNeeded(runs)
    ensures AllSplitsNeeded([r] + runs)
  {
    assert ([r] + runs)[1..] == runs;
  }

  lemma {:induction false} CoalesceSplits(segs: seq<Seg>, i: nat, contAddr: Addr, contLen: Word, epAddr: Addr, o: Options)
    requires i < |segs| && contLen + |HostFrom(segs, i)| < TWO_32 && !o.Forced()
    requires segs[i].addr == Wrap(contAddr + contLen)
    ensures var runs := Coalesce(segs, i, contAddr, contLen, epAddr, o);
      runs[0].host == contAddr && AllSplitsNeeded(runs)
    decreases |segs| - i
  {
    var len := contLen + segs[i].len;
    if i + 1 < |segs| {
      EntryContinues(segs, i, contAddr, contLen);
      if EndsBlock(segs, i, len, o) {
        var next := EpAt(epAddr, len, o.Incr());
        var rest := Coalesce(segs, i + 1, segs[i + 1].addr, 0, next, o);
        CoalesceSplits(segs, i + 1, segs[i + 1].addr, 0, next, o);
        SplitThenRest(Run(contAddr, epAddr, len), rest);
      } else {
        CoalesceSplits(segs, i + 1, contAddr, len, epAddr, o);
      }
    }
  }

  // ----- transfer_build -----

  /** xdma_desc_set leaves the words that link a descriptor into its list. */
  predicate LinksKept(before: seq<Desc>, after: seq<Desc>) {
    && |before| == |after|
    && forall s :: 0 <= s < |after| ==>
      after[s].control == before[s].control && after[s].nextLo == before[s].nextLo && after[s].nextHi == before[s].nextHi
  }

  method SetDesc(desc: array<Desc>, j: nat, r: Run, dirToDev: bool)
    requires j < desc.Length
    modifies desc
    ensures RunOf(desc[j], dirToDev) == r && LinksKept(old(desc[..]), desc[..])
    ensures RunsOf(desc[..j + 1], dirToDev) == old(RunsOf(desc[..j], dirToDev)) + [r]
  {
    SetTransferReadsBack(desc[j], r.host, r.ep, r.len, dirToDev);
    desc[j] := SetTransfer(desc[j], r.host, r.ep, r.len, dirToDev);
    assert desc[..j] == old(desc[..j]);
  }

  /** transfer_build: fills desc[0..last]; the running length is an unsigned 32-bit int. */
  method TransferBuild(segs: seq<Seg>, desc: array<Desc>, ep: Addr, dirToDev: bool, o: Options) returns (last: nat)
    requires 0 < |segs| <= desc.Length
    modifies desc
    ensures last < |segs| && LinksKept(old(desc[..]), desc[..])
    ensures RunsOf(desc[..last + 1], dirToDev) == Coalesce(segs, 0, segs[0].addr, 0, ep, o)
  {
    var i, j := 0, 0;
    var addr: Addr, contAddr: Addr, epAddr: Addr := segs[0].addr, segs[0].addr, ep;
    var contLen: Word := 0;
    ghost var done: seq<Run> := [];
    while i < |segs| - 1
      invariant 0 <= j <= i <= |segs| - 1 && addr == segs[i].addr
      invariant LinksKept(old(desc[..]), desc[..])
      invariant RunsOf(desc[..j], dirToDev) == done
      invariant done + Coalesce(segs, i, contAddr, contLen, epAddr, o) == Coalesce(segs, 0, segs[0].addr, 0, ep, o)
    {
      var next := segs[i + 1].addr;
      var len := segs[i].len;
      contLen := AddWord(contLen, len);
      var newDesc := false;
      if next != Wrap(addr + len) {
        newDesc := true;
      } else if contLen > DESC_MAX_BYTES - PAGE_SIZE {
        newDesc := true;
      }
      if o.forceNewDesc && !o.userspace {
        newDesc := true;
      }
      if newDesc {
        SetDesc(desc, j, Run(contAddr, epAddr, contLen), dirToDev);
        Associates(done, [Run(contAddr, epAddr, contLen)],
          Coalesce(segs, i + 1, next, 0, EpAt(epAddr, contLen, o.Incr()), o));
        done := done + [Run(contAddr, epAddr, contLen)];
        if o.userspace {
          if !o.nonIncrAddr {
            epAddr := Wrap(epAddr + contLen);
          }
        } else {
          epAddr := Wrap(epAddr + contLen);
        }
        contAddr := next;
        contLen := 0;
        j := j + 1;
      }
      addr := next;
      i := i + 1;
    }
    contLen := AddWord(contLen, segs[i].len);
    assert j <= |segs|;
    SetDesc(desc, j, Run(contAddr, epAddr, contLen), dirToDev);
    return j;
  }

  /** What transfer_build produces moves exactly the bytes of the list. */
  lemma BuildMoves(segs: seq<Seg>, ep: Addr, o: Options)
    requires 0 < |segs| && |HostBytes(segs)| < TWO_32
    ensures Moves(Coalesce(segs, 0, segs[0].addr, 0, ep, o), o.Incr()) == Pairs(HostBytes(segs), ep, o.Incr())
  {
    CoalesceMoves(segs, 0, segs[0].addr, 0, ep, o);
    assert Span(segs[0].addr, 0) + HostBytes(segs) == HostBytes(segs);
  }
}

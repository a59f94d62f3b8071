/**
 What the ring protocol guarantees over whole runs. A run starts at START and
 interleaves the steps in any order; its one hypothesis is RoundSafe, that no scan
 round runs on past the filled buffers, which RoundSafeIff shows to be necessary.
 */
module RingTheorems {
  import opened Words
  import opened Descriptors
  import opened RingIndex
  import opened Blocks
  import opened RingProtocol

  ghost predicate Allowed<T>(p: Session, s: State<T>, step: Step<T>) {
    Sized(p, s) && Enabled(p, s, step) && (step.ScanExamine? ==> RoundSafe(p, s))
  }

  ghost predicate Run<T>(p: Session, s0: State<T>, steps: seq<Step<T>>, s: State<T>)
    decreases |steps|
  {
    if steps == [] then s == s0
    else Allowed(p, s0, steps[0]) && Run(p, Next(p, s0, steps[0]), steps[1..], s)
  }

  ghost predicate Reachable<T(!new)>(p: Session, s: State<T>) {
    exists s0: State<T>, steps: seq<Step<T>> :: Init(p, s0) && Run(p, s0, steps, s)
  }

  lemma StepInv<T>(p: Session, s: State<T>, step: Step<T>)
    requires p.Valid() && Inv(p, s) && Allowed(p, s, step)
    ensures Inv(p, Next(p, s, step))
  {
    match step {
      case Fetch(slot) => FetchInv(p, s, slot);
      case Complete(slot, buf, fill, record) => CompleteInv(p, s, slot, buf, fill, record);
      case ScanBegin => ScanBeginInv(p, s);
      case ScanExamine => ScanExamineInv(p, s);
      case GetBuf => GetBufInv(p, s);
      case ConfirmBegin => ConfirmBeginInv(p, s);
      case ConfirmWrite(f) => ConfirmWriteInv(p, s, f);
      case ConfirmPublish => ConfirmPublishInv(p, s);
    }
  }

  lemma {:induction false} RunInv<T>(p: Session, s0: State<T>, steps: seq<Step<T>>, s: State<T>)
    requires p.Valid() && Inv(p, s0) && Run(p, s0, steps, s)
    ensures Inv(p, s)
    decreases |steps|
  {
    if steps != [] {
      StepInv(p, s0, steps[0]);
      RunInv(p, Next(p, s0, steps[0]), steps[1..], s);
    }
  }

  /** Every state of every interleaving satisfies the invariant. */
  lemma ReachableInv<T(!new)>(p: Session, s: State<T>)
    requires Reachable(p, s)
    ensures p.Valid() && Inv(p, s)
  {
    var s0: State<T>, steps: seq<Step<T>> :| Init(p, s0) && Run(p, s0, steps, s);
    InitInv(p, s0);
    RunInv(p, s0, steps, s);
  }

  /**
   The driver's wrapped indices are the counters modulo N, the counters never
   overtake each other, and writeback magic marks exactly the buffers that the
   device has filled and the application has not given back.
   */
  lemma RingOrder<T(!new)>(p: Session, s: State<T>)
    requires Reachable(p, s)
    ensures s.hist.freed <= s.hist.start <= s.hist.scanned <= |s.hist.fills| <= s.hist.freed + p.N()
    ensures s.blockFirst == s.hist.start % p.N() && s.blockScanned == s.hist.scanned % p.N()
    ensures |s.desc| == p.N()
    ensures forall j: nat :: s.hist.freed <= j < s.hist.freed + p.N() ==>
      (HasWritebackMagic(s.desc[Slot(j, p.k)].control) <==> j < |s.hist.fills|)
  {
    ReachableInv(p, s);
    SlotIsMod(s.hist.start, p.k);
    SlotIsMod(s.hist.scanned, p.k);
    forall j: nat | s.hist.freed <= j < s.hist.freed + p.N()
      ensures HasWritebackMagic(s.desc[Slot(j, p.k)].control) <==> j < |s.hist.fills|
    {
      if j < |s.hist.fills| {
        assert Held(p, s, j);
      } else {
        assert p.GoodCopy(Slot(j, p.k));
        MagicsDiffer(s.desc[Slot(j, p.k)].control);
      }
    }
  }

  /**
   Exactly once and in order: what has been queued is the fill trace cut at the
   end-of-packet marks, up to the last block reported; what has been handed out is
   a prefix of that; and no complete packet has been passed over.
   */
  lemma ExactlyOnce<T(!new)>(p: Session, s: State<T>)
    requires Reachable(p, s)
    ensures s.hist.start <= |s.hist.fills|
    ensures IsDivision(s.hist.fills, s.hist.start, Cut(s.hist.fills, s.hist.start))
    ensures Cut(s.hist.fills, s.hist.start) <= Cut(s.hist.fills, |s.hist.fills|)
    ensures Announces(p, s.hist.fills, Cut(s.hist.fills, s.hist.start), s.hist.pushed)
    ensures s.hist.taken <= |s.hist.pushed| && s.fifo == s.hist.pushed[s.hist.taken..]
    ensures s.hist.scanned <= |s.hist.fills| && forall j :: s.hist.start <= j < s.hist.scanned ==> !s.hist.fills[j].eop
  {
    ReachableInv(p, s);
    CutIsDivision(s.hist.fills, s.hist.start);
    CutGrows(s.hist.fills, s.hist.start, |s.hist.fills|);
  }

  /** A scan that runs out of written-back buffers has queued every complete packet. */
  lemma ScanIsComplete<T(!new)>(p: Session, s: State<T>)
    requires Reachable(p, s) && s.scan.Some? && s.scan.value < |s.desc| && Seen(p, s) == Exhausted
    ensures Announces(p, s.hist.fills, Cut(s.hist.fills, |s.hist.fills|), s.hist.pushed)
  {
    ReachableInv(p, s);
    if !ScanGrounded(p, s) {
      FullRound(p, s);
    }
    ScanSees(p, s);
    CutUnchanged(s.hist.fills, s.hist.start, |s.hist.fills|);
  }

  /** Blocks still in the queue occupy distinct buffers that are not freed yet. */
  lemma QueuedBlocksFit<T>(p: Session, s: State<T>)
    requires Shaped(p, s) && QueueOk(p, s) && ConfirmOk(p, s)
    ensures s.hist.freed + |s.fifo| <= s.hist.start
  {
    var h := s.hist;
    var blocks := Cut(h.fills, h.start);
    CutIsDivision(h.fills, h.start);
    BlockStartBound(h.fills, h.start);
    CutOrdered(h.fills, h.start, h.taken, |blocks|);
    assert h.freed <= StartOf(blocks, h.taken) by {
      CutOrdered(h.fills, h.start, if s.confirm.Some? then h.acked + 1 else h.acked, h.taken);
    }
  }

  lemma BlockStartBound<T>(fills: seq<Fill<T>>, n: nat)
    requires n <= |fills|
    ensures StartOf(Cut(fills, n), |Cut(fills, n)|) <= n
  {
    CutIsDivision(fills, n);
  }

  /** With the capacity ALLOC gives it, N entries, the block queue never makes the scan postpone a block. */
  lemma QueueNeverFull<T(!new)>(p: Session, s: State<T>)
    requires Reachable(p, s) && s.scan.Some? && s.scan.value < |s.desc| && ScanGrounded(p, s)
    requires p.fifoCap >= p.N()
    ensures Seen(p, s) != Postponed
  {
    ReachableInv(p, s);
    ScanSees(p, s);
    QueuedBlocksFit(p, s);
  }

  /**
   Safe publication: a slot that shows descriptor magic is, word for word, the
   descriptor START saved for it, however far a confirmation has got elsewhere, and
   its buffer is none of those the application still owns.
   */
  lemma SafePublication<T(!new)>(p: Session, s: State<T>, i: nat)
    requires Reachable(p, s) && i < p.N() && |s.desc| == p.N() && HasDescMagic(s.desc[i].control)
    ensures s.desc[i] == p.saved[i]
    ensures forall j: nat :: s.hist.freed <= j < |s.hist.fills| ==> Slot(j, p.k) != i
  {
    ReachableInv(p, s);
    MagicsDiffer(s.desc[i].control);
    RingOrder(p, s);
    var at := WindowCovers(s.hist.freed, i, p.k);
    assert at >= |s.hist.fills|;
    WindowDistinct(s.hist.freed, at, p.k);
  }

  /**
   Overrun protection is exact: an idle device finds a descriptor at its address
   precisely when some buffer is free, and the buffer it then fills is one the
   application does not own.
   */
  lemma OverrunProtection<T(!new)>(p: Session, s: State<T>)
    requires Reachable(p, s) && s.devDesc.None?
    ensures Sized(p, s)
    ensures (exists slot: nat :: Enabled(p, s, Fetch(slot))) <==> NotFull(p, s)
  {
    ReachableInv(p, s);
    var head := Slot(|s.hist.fills|, p.k);
    if NotFull(p, s) {
      assert p.GoodCopy(head);
      assert Enabled(p, s, Fetch(head));
    }
    forall slot: nat | Enabled(p, s, Fetch(slot))
      ensures NotFull(p, s)
    {
      FetchSlot(p, s, slot);
    }
  }

  lemma DeviceSparesApplication<T(!new)>(p: Session, s: State<T>, slot: nat, buf: nat, fill: Fill<T>, record: Desc)
    requires Reachable(p, s) && Allowed(p, s, Complete(slot, buf, fill, record))
    ensures forall j: nat :: s.hist.freed <= j < |s.hist.fills| ==> Slot(j, p.k) != buf && Slot(j, p.k) != slot
  {
    ReachableInv(p, s);
    CompleteSlot(p, s, slot, buf, fill, record);
    WindowDistinct(s.hist.freed, |s.hist.fills|, p.k);
  }

  // ----- The full ring -----

  /**
   The scan stops only at a slot without writeback magic. A round of it concludes
   what the fill trace says if and only if there is a free buffer or a filled one
   still to scan; on a full, fully scanned ring it reads an old record again.
   */
  lemma ScanRightIff<T>(p: Session, s: State<T>)
    requires p.Valid() && Inv(p, s) && s.scan.Some?
    ensures Seen(p, s) == Expected(p, s) <==> ScanGrounded(p, s)
  {
    if ScanGrounded(p, s) {
      ScanSees(p, s);
    } else {
      FullRound(p, s);
    }
  }

  /** The hypothesis on scan rounds is exact: a round keeps the invariant if and only if it is safe. */
  lemma RoundSafeIff<T>(p: Session, s: State<T>)
    requires p.Valid() && Inv(p, s) && s.scan.Some?
    ensures Inv(p, AfterExamine(p, s)) <==> RoundSafe(p, s)
  {
    if RoundSafe(p, s) {
      ScanExamineInv(p, s);
    } else {
      UnsafeRound(p, s);
    }
  }

  /** An unsafe round moves the scan beyond the device, and a block it reports is one too many. */
  lemma UnsafeRound<T>(p: Session, s: State<T>)
    requires p.Valid() && Inv(p, s) && s.scan.Some? && !RoundSafe(p, s)
    ensures var t := AfterExamine(p, s);
      && t.hist.at == |t.hist.fills| + 1
      && (Seen(p, s).Reported? ==> |t.hist.pushed| == |Cut(t.hist.fills, |t.hist.fills|)| + 1)
  {
    FullRound(p, s);
    CutUnchanged(s.hist.fills, s.hist.start, |s.hist.fills|);
  }

  /**
   A ring of two buffers with the queue ALLOC gives it, each buffer filled with a
   packet. Both are scanned, the first block is handed out and not confirmed, and
   the next round reports a third block, which was never received.
   */
  lemma FullRingReportsTwice<T(!new)>(p: Session, s0: State<T>, packet: seq<T>, record: Desc)
    returns (steps: seq<Step<T>>, full: State<T>, wrong: State<T>)
    requires Init(p, s0) && p.k == 1 && p.fifoCap == p.N()
    requires 0 < |packet| <= p.bufLen
    requires DeviceRecord(record.control, true) && record.bytes == |packet|
    ensures Run(p, s0, steps, full) && Sized(p, full) && !RoundSafe(p, full)
    ensures Enabled(p, full, ScanExamine) && wrong == Next(p, full, ScanExamine)
    ensures wrong.hist.fills == [Fill(packet, true), Fill(packet, true)]
    ensures wrong.hist.pushed == [Block(0, 0, |packet|), Block(1, 1, |packet|), Block(0, 0, |packet|)]
  {
    var fill := Fill(packet, true);
    var first := FirstPacket(p, s0, fill, record);
    var second := SecondPacket(p, first, fill, record);
    var scanned := AfterExamine(p, second);
    TwoRounds(p, second, packet);
    full := Next(p, scanned, GetBuf);
    wrong := AfterExamine(p, full);
    steps := [Fetch(0), Complete(0, 0, fill, record), ScanBegin, ScanExamine];
    RunThen(p, s0, steps, first, Fetch(1));
    steps := steps + [Fetch(1)];
    RunThen(p, s0, steps, Next(p, first, Fetch(1)), Complete(1, 1, fill, record));
    steps := steps + [Complete(1, 1, fill, record)];
    RunThen(p, s0, steps, second, ScanExamine);
    steps := steps + [ScanExamine];
    RunThen(p, s0, steps, scanned, GetBuf);
    steps := steps + [GetBuf];
  }

  lemma FirstPacket<T>(p: Session, s0: State<T>, fill: Fill<T>, record: Desc) returns (s: State<T>)
    requires Init(p, s0) && p.k == 1 && fill.eop && 0 < |fill.data| <= p.bufLen
    requires DeviceRecord(record.control, true) && record.bytes == |fill.data|
    ensures Run(p, s0, [Fetch(0), Complete(0, 0, fill, record), ScanBegin, ScanExamine], s)
    ensures s.desc == p.saved[0 := record] && |s.bufs| == 2 && s.devNext == p.descBus[1] && s.devDesc.None?
    ensures s.scan == Some(1) && s.blockFirst == 1 && s.confirm.None? && s.fifo == [Block(0, 0, |fill.data|)]
    ensures s.hist == History([fill], s.fifo, 0, 0, 0, 1, 1, 1)
  {
    NextSlotIsMod(0, 1);
    assert p.GoodCopy(0);
    var s1 := Next(p, s0, Fetch(0));
    var s2 := Next(p, s1, Complete(0, 0, fill, record));
    var s3 := Next(p, s2, ScanBegin);
    s := Next(p, s3, ScanExamine);
    RunOne(p, s3, ScanExamine, [], s);
    RunOne(p, s2, ScanBegin, [ScanExamine], s);
    RunOne(p, s1, Complete(0, 0, fill, record), [ScanBegin, ScanExamine], s);
    RunOne(p, s0, Fetch(0), [Complete(0, 0, fill, record), ScanBegin, ScanExamine], s);
  }

  lemma SecondPacket<T>(p: Session, t: State<T>, fill: Fill<T>, record: Desc) returns (s: State<T>)
    requires p.Valid() && p.k == 1 && fill.eop && 0 < |fill.data| <= p.bufLen
    requires t.desc == p.saved[0 := record] && |t.bufs| == 2 && t.devNext == p.descBus[1] && t.devDesc.None?
    requires t.scan == Some(1) && t.confirm.None? && t.hist == History([fill], t.fifo, 0, 0, 0, 1, 1, 1)
    requires DeviceRecord(record.control, true) && record.bytes == |fill.data|
    ensures Allowed(p, t, Fetch(1)) && Allowed(p, Next(p, t, Fetch(1)), Complete(1, 1, fill, record))
    ensures s == Next(p, Next(p, t, Fetch(1)), Complete(1, 1, fill, record)) && Sized(p, s)
    ensures s == t.(desc := [record, record], bufs := s.bufs, devNext := s.devNext, hist := t.hist.(fills := [fill, fill]))
  {
    assert p.GoodCopy(1);
    var u := Next(p, t, Fetch(1));
    s := Next(p, u, Complete(1, 1, fill, record));
    assert s.desc == [record, record];
  }

  lemma TwoRounds<T>(p: Session, s: State<T>, packet: seq<T>)
    requires Sized(p, s) && p.k == 1 && p.fifoCap == p.N() && s.scan == Some(1) && s.blockFirst == 1 && s.confirm.None?
    requires forall i :: 0 <= i < 2 ==>
      HasWritebackMagic(s.desc[i].control) && HasEop(s.desc[i].control) && s.desc[i].bytes == |packet|
    requires s.fifo == [Block(0, 0, |packet|)]
    requires s.hist == History([Fill(packet, true), Fill(packet, true)], s.fifo, 0, 0, 0, 1, 1, 1)
    ensures Allowed(p, s, ScanExamine)
    ensures var t := AfterExamine(p, s); Sized(p, t) && Allowed(p, t, GetBuf)
    ensures var full := Next(p, AfterExamine(p, s), GetBuf);
      && Sized(p, full) && !RoundSafe(p, full) && Enabled(p, full, ScanExamine)
      && AfterExamine(p, full).hist.fills == s.hist.fills
      && AfterExamine(p, full).hist.pushed == [Block(0, 0, |packet|), Block(1, 1, |packet|), Block(0, 0, |packet|)]
  {
    NextSlotIsMod(1, 1);
    assert 2 % Pow2(1) == 0 && Pow2(1) == 2;
  }

  lemma RunOne<T>(p: Session, s0: State<T>, step: Step<T>, steps: seq<Step<T>>, s: State<T>)
    requires Allowed(p, s0, step) && Run(p, Next(p, s0, step), steps, s)
    ensures Run(p, s0, [step] + steps, s)
  {
    assert ([step] + steps)[1..] == steps;
  }

  lemma {:induction false} RunThen<T>(p: Session, s0: State<T>, steps: seq<Step<T>>, s: State<T>, step: Step<T>)
    requires Run(p, s0, steps, s) && Allowed(p, s, step)
    ensures Run(p, s0, steps + [step], Next(p, s, step))
    decreases |steps|
  {
    if steps == [] {
      assert steps + [step] == [step];
      RunOne(p, s, step, [], Next(p, s, step));
    } else {
      RunThen(p, Next(p, s0, steps[0]), steps[1..], s, step);
      assert (steps + [step])[1..] == steps[1..] + [step];
    }
  }
}

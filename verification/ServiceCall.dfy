/**
 A call of the service routine and the protocol: the scan loop of the driver is a run of
 the single examinations that RingProtocol interleaves with everything else, and it
 ends exactly when the ring has a slot that can stop it.
 */
module ServiceCall {
  import opened Words
  import opened Descriptors
  import opened RingIndex
  import opened Blocks
  import opened RingProtocol
  import opened RingTheorems
  import opened WzDriver

  // ----- When the scan loop ends -----

  ghost predicate Ends(desc: seq<Desc>, k: nat, cap: nat, l: Loop)
    requires |desc| == Pow2(k) && InRing(l, k)
  {
    exists n: nat :: AfterRounds(desc, k, cap, l, n).check.None?
  }

  /** A slot that can stop the loop does so, at the latest when the queue is full. */
  lemma {:induction false} LoopEnds(desc: seq<Desc>, k: nat, cap: nat, l: Loop, stop: nat) returns (n: nat)
    requires |desc| == Pow2(k) && InRing(l, k) && |l.st.fifo| <= cap && stop < |desc| && Stops(desc[stop])
    ensures AfterRounds(desc, k, cap, l, n).check.None?
    decreases cap - |l.st.fifo|, if l.check.Some? then Distance(l.check.value, stop, k) + 1 else 0
  {
    if l.check.None? {
      n := 0;
    } else {
      if l.check.value != stop {
        StopIsNearer(l.check.value, stop, k);
      }
      var m := LoopEnds(desc, k, cap, ScanRound(desc, k, cap, l.st, l.check.value), stop);
      n := m + 1;
    }
  }

  /** Without such a slot it goes round and round and changes nothing. */
  lemma {:induction false} LoopGoesOn(desc: seq<Desc>, k: nat, cap: nat, l: Loop, n: nat)
    requires |desc| == Pow2(k) && InRing(l, k) && l.check.Some?
    requires forall i :: 0 <= i < |desc| ==> !Stops(desc[i])
    ensures AfterRounds(desc, k, cap, l, n).check.Some? && AfterRounds(desc, k, cap, l, n).st == l.st
    decreases n
  {
    if n > 0 {
      LoopGoesOn(desc, k, cap, ScanRound(desc, k, cap, l.st, l.check.value), n - 1);
    }
  }

  lemma LoopEndsIff(desc: seq<Desc>, k: nat, cap: nat, l: Loop)
    requires |desc| == Pow2(k) && InRing(l, k) && l.check.Some? && |l.st.fifo| <= cap
    ensures Ends(desc, k, cap, l) <==> exists stop: nat :: stop < |desc| && Stops(desc[stop])
  {
    if stop: nat :| stop < |desc| && Stops(desc[stop]) {
      var n := LoopEnds(desc, k, cap, l, stop);
      assert AfterRounds(desc, k, cap, l, n).check.None?;
    } else {
      forall n: nat
        ensures AfterRounds(desc, k, cap, l, n).check.Some?
      {
        LoopGoesOn(desc, k, cap, l, n);
      }
    }
  }

  // ----- In the protocol -----

  /** The scan loop of the driver in a state of the protocol. */
  function LoopOf<T>(s: State<T>): Loop {
    Loop(Scan(s.blockFirst, s.blockScanned, s.fifo), s.scan)
  }

  /** While a buffer is free the slot the device fills next stops the loop. */
  lemma FreeSlotStops<T>(p: Session, s: State<T>)
    requires p.Valid() && Shaped(p, s) && SlotsOk(p, s) && NotFull(p, s)
    ensures Stops(s.desc[Slot(|s.hist.fills|, p.k)])
  {
    var head := Slot(|s.hist.fills|, p.k);
    assert p.GoodCopy(head);
    MagicsDiffer(s.desc[head].control);
  }

  /** Some buffer is free, or some buffer that is not given back ends a packet. */
  ghost predicate CanStop<T>(p: Session, s: State<T>) {
    NotFull(p, s) || exists j: nat :: s.hist.freed <= j < |s.hist.fills| && s.hist.fills[j].eop
  }

  lemma StopsIff<T>(p: Session, s: State<T>)
    requires p.Valid() && Shaped(p, s) && SlotsOk(p, s)
    ensures (exists stop: nat :: stop < |s.desc| && Stops(s.desc[stop])) <==> CanStop(p, s)
  {
    if NotFull(p, s) {
      FreeSlotStops(p, s);
    } else {
      forall stop: nat | stop < |s.desc| && Stops(s.desc[stop])
        ensures CanStop(p, s)
      {
        var j := WindowCovers(s.hist.freed, stop, p.k);
        assert Held(p, s, j);
      }
      forall j: nat | s.hist.freed <= j < |s.hist.fills| && s.hist.fills[j].eop
        ensures Slot(j, p.k) < |s.desc| && Stops(s.desc[Slot(j, p.k)])
      {
        assert Held(p, s, j);
      }
    }
  }

  /** A call of the service routine ends if and only if a buffer is free or one that is not given back ends a packet. */
  lemma ServiceEndsIff<T>(p: Session, s: State<T>)
    requires p.Valid() && Inv(p, s) && s.scan.Some?
    ensures |s.desc| == Pow2(p.k) && InRing(LoopOf(s), p.k)
    ensures Ends(s.desc, p.k, p.fifoCap, LoopOf(s)) <==> CanStop(p, s)
  {
    StopsIff(p, s);
    LoopEndsIff(s.desc, p.k, p.fifoCap, LoopOf(s));
  }

  predicate Unfinished<T>(fills: seq<Fill<T>>) {
    forall j :: 0 <= j < |fills| ==> !fills[j].eop
  }

  /** The device has filled buffers with an unfinished packet, and nothing else has happened. */
  ghost predicate Filling<T>(p: Session, s0: State<T>, steps: seq<Step<T>>, s: State<T>) {
    && p.Valid() && Run(p, s0, steps, s) && Inv(p, s)
    && s.devDesc.None? && s.scan.None? && s.hist.freed == 0 && Unfinished(s.hist.fills)
  }

  lemma FillsOne<T>(p: Session, s0: State<T>, before: seq<Step<T>>, s: State<T>, data: seq<T>, record: Desc)
    returns (steps: seq<Step<T>>, t: State<T>)
    requires Filling(p, s0, before, s) && NotFull(p, s)
    requires |data| == p.bufLen && DeviceRecord(record.control, false) && record.bytes == |data|
    ensures Filling(p, s0, steps, t) && |t.hist.fills| == |s.hist.fills| + 1
  {
    var slot := Slot(|s.hist.fills|, p.k);
    var fetch: Step<T>, complete := Fetch(slot), Complete(slot, slot, Fill(data, false), record);
    OneFill(p, s, slot, data, record);
    RunTwo(p, s0, before, s, fetch, complete);
    steps, t := before + [fetch] + [complete], Next(p, Next(p, s, fetch), complete);
  }

  lemma FilledUp<T>(p: Session, s0: State<T>, steps: seq<Step<T>>, s: State<T>)
    requires Filling(p, s0, steps, s) && !NotFull(p, s)
    ensures Run(p, s0, steps, s) && Inv(p, s) && s.scan.None? && !CanStop(p, s)
  {
  }

  /** A packet as long as the ring and not finished: the device fills every buffer with it. */
  lemma {:induction false} LongPacket<T>(p: Session, s0: State<T>, before: seq<Step<T>>, s: State<T>, data: seq<T>, record: Desc)
    returns (steps: seq<Step<T>>, t: State<T>)
    requires Filling(p, s0, before, s)
    requires |data| == p.bufLen && DeviceRecord(record.control, false) && record.bytes == |data|
    ensures Run(p, s0, steps, t) && Inv(p, t) && t.scan.None? && !CanStop(p, t)
    decreases p.N() - |s.hist.fills|
  {
    if NotFull(p, s) {
      steps, t := FillsOne(p, s0, before, s, data, record);
      steps, t := LongPacket(p, s0, steps, t, data, record);
    } else {
      FilledUp(p, s0, before, s);
      steps, t := before, s;
    }
  }

  lemma RunTwo<T>(p: Session, s0: State<T>, before: seq<Step<T>>, s: State<T>, a: Step<T>, b: Step<T>)
    requires Run(p, s0, before, s) && Allowed(p, s, a) && Allowed(p, Next(p, s, a), b)
    ensures Run(p, s0, before + [a] + [b], Next(p, Next(p, s, a), b))
  {
    RunThen(p, s0, before, s, a);
    RunThen(p, s0, before + [a], Next(p, s, a), b);
  }

  lemma OneFill<T>(p: Session, s: State<T>, slot: nat, data: seq<T>, record: Desc)
    requires p.Valid() && Inv(p, s) && s.devDesc.None? && NotFull(p, s) && slot == Slot(|s.hist.fills|, p.k)
    requires |data| == p.bufLen && DeviceRecord(record.control, false) && record.bytes == |data|
    ensures Allowed(p, s, Fetch(slot))
    ensures var u, complete := Next(p, s, Fetch(slot)), Complete(slot, slot, Fill(data, false), record);
      && Allowed(p, u, complete)
      && var t := Next(p, u, complete);
         Inv(p, t) && t.hist == s.hist.(fills := s.hist.fills + [Fill(data, false)]) && t.devDesc.None? && t.scan == s.scan
  {
    assert p.GoodCopy(slot);
    assert s.desc[slot] == p.saved[slot];
    StepInv(p, s, Fetch(slot));
    StepInv(p, Next(p, s, Fetch(slot)), Complete(slot, slot, Fill(data, false), record));
  }

  /**
   A packet longer than the ring hangs the service routine: whatever the size of the
   ring, after such a run the scan is still going after any number of rounds.
   */
  lemma LongPacketHangs<T>(p: Session, s0: State<T>, data: seq<T>, record: Desc)
    returns (steps: seq<Step<T>>, t: State<T>)
    requires Init(p, s0) && |data| == p.bufLen
    requires DeviceRecord(record.control, false) && record.bytes == |data|
    ensures Run(p, s0, steps, t) && t.scan.Some?
    ensures |t.desc| == Pow2(p.k) && InRing(LoopOf(t), p.k) && !Ends(t.desc, p.k, p.fifoCap, LoopOf(t))
  {
    var s;
    InitInv(p, s0);
    steps, s := LongPacket(p, s0, [], s0, data, record);
    RunThen(p, s0, steps, s, ScanBegin);
    t := Next(p, s, ScanBegin);
    steps := steps + [ScanBegin];
    ScanBeginInv(p, s);
    ServiceEndsIff(p, t);
  }

  // ----- A call is a run -----

  lemma ScanEnds<T>(p: Session, s: State<T>)
    requires Shaped(p, s) && ScannerOk(p, s) && QueueOk(p, s) && s.scan.Some? && Seen(p, s) == Expected(p, s)
    requires AfterExamine(p, s).scan.None? && |AfterExamine(p, s).fifo| < p.fifoCap
    ensures Announces(p, s.hist.fills, Cut(s.hist.fills, |s.hist.fills|), AfterExamine(p, s).hist.pushed)
  {
    assert Expected(p, s).Exhausted?;
    CutUnchanged(s.hist.fills, s.hist.start, |s.hist.fills|);
  }

  lemma ExamineEnds<T>(p: Session, s: State<T>)
    requires p.Valid() && Inv(p, s) && s.scan.Some?
    requires var t := AfterExamine(p, s); t.scan.None? && |t.fifo| < p.fifoCap
    ensures var t := AfterExamine(p, s); Announces(p, t.hist.fills, Cut(t.hist.fills, |t.hist.fills|), t.hist.pushed)
  {
    if !ScanGrounded(p, s) {
      FullRound(p, s);
    }
    ScanSees(p, s);
    ScanEnds(p, s);
  }

  /** One round of the loop is one examination of the protocol. */
  lemma RoundIsExamine<T>(p: Session, s: State<T>)
    requires s.scan.Some? && s.scan.value < |s.desc|
    ensures var t := AfterExamine(p, s);
      && t.desc == s.desc && t.hist.fills == s.hist.fills && t.hist.freed == s.hist.freed
      && LoopOf(t) == ScanRound(s.desc, p.k, p.fifoCap, LoopOf(s).st, s.scan.value)
      && (t.scan.Some? ==> t.hist.at == s.hist.at + 1)
  {
  }

  /** What holds of every state a call passes through. */
  ghost predicate Serving<T>(p: Session, s: State<T>, t: State<T>) {
    && Inv(p, t) && t.desc == s.desc && t.hist.fills == s.hist.fills && t.hist.freed == s.hist.freed
    && (t.scan.None? && |t.fifo| < p.fifoCap ==>
          Announces(p, t.hist.fills, Cut(t.hist.fills, |t.hist.fills|), t.hist.pushed))
  }

  lemma ExamineServes<T>(p: Session, s: State<T>)
    requires p.Valid() && Inv(p, s) && RoundSafe(p, s) && s.scan.Some?
    ensures Allowed(p, s, ScanExamine) && Next(p, s, ScanExamine) == AfterExamine(p, s)
    ensures |s.desc| == p.N() && s.scan.value < p.N() && Serving(p, s, AfterExamine(p, s))
    ensures var t := AfterExamine(p, s); t.scan.Some? ==> t.hist.at <= |t.hist.fills|
  {
    var t := AfterExamine(p, s);
    ScanExamineInv(p, s);
    RoundIsExamine(p, s);
    if t.scan.None? && |t.fifo| < p.fifoCap {
      ExamineEnds(p, s);
    }
  }

  lemma ServesOnce<T>(p: Session, s: State<T>, t: State<T>)
    requires p.Valid() && Serving(p, s, t) && RoundSafe(p, t) && t.scan.Some?
    ensures Serving(p, s, AfterExamine(p, t))
  {
    ExamineServes(p, t);
  }

  /** Of the loop that state s begins, what is left in state t after m of n rounds. */
  ghost predicate SameLoop<T>(p: Session, s: State<T>, t: State<T>, n: nat, m: nat) {
    && m <= n && |s.desc| == |t.desc| == p.N() && InRing(LoopOf(s), p.k) && InRing(LoopOf(t), p.k)
    && AfterRounds(s.desc, p.k, p.fifoCap, LoopOf(s), n) == AfterRounds(t.desc, p.k, p.fifoCap, LoopOf(t), n - m)
  }

  lemma LoopOnce<T>(p: Session, s: State<T>, t: State<T>, n: nat, m: nat)
    requires SameLoop(p, s, t, n, m) && m < n && t.scan.Some?
    ensures SameLoop(p, s, AfterExamine(p, t), n, m + 1)
  {
    RoundIsExamine(p, t);
    OneRound(t.desc, p.k, p.fifoCap, LoopOf(t), LoopOf(AfterExamine(p, t)), n - m);
  }

  function Scans<T>(m: nat): (steps: seq<Step<T>>)
    ensures |steps| == m && forall i :: 0 <= i < m ==> steps[i] == ScanExamine
  {
    seq(m, _ => ScanExamine)
  }

  lemma ScansMore<T>(m: nat)
    ensures Scans<T>(m) + [ScanExamine] == Scans(m + 1)
  {
  }

  /** The rounds that are left, from state t on. */
  lemma {:induction false} ServiceFrom<T>(p: Session, s: State<T>, t: State<T>, n: nat, m: nat) returns (u: State<T>, l: nat)
    requires p.Valid() && Run(p, s, Scans(m), t) && Serving(p, s, t) && SameLoop(p, s, t, n, m)
    requires t.scan.Some? ==> t.hist.at == s.hist.at + m
    ensures Run(p, s, Scans(l), u) && Serving(p, s, u) && SameLoop(p, s, u, n, l)
    ensures l < n && u.scan.Some? ==> !RoundSafe(p, u)
    ensures u.scan.Some? ==> u.hist.at == s.hist.at + l
    decreases n - m
  {
    if m == n || t.scan.None? || !RoundSafe(p, t) {
      u, l := t, m;
    } else {
      ExamineAllowed(p, t);
      RunThen(p, s, Scans(m), t, ScanExamine);
      ScansMore<T>(m);
      ServesOnce(p, s, t);
      LoopOnce(p, s, t, n, m);
      RoundIsExamine(p, t);
      u, l := ServiceFrom(p, s, AfterExamine(p, t), n, m + 1);
    }
  }

  lemma ExamineAllowed<T>(p: Session, t: State<T>)
    requires Inv(p, t) && RoundSafe(p, t) && t.scan.Some?
    ensures Allowed(p, t, ScanExamine) && Next(p, t, ScanExamine) == AfterExamine(p, t)
  {
  }

  lemma ScanWithin<T>(p: Session, s: State<T>)
    requires Inv(p, s)
    ensures |s.desc| == p.N() && InRing(LoopOf(s), p.k) && s.hist.at <= |s.hist.fills|
  {
  }

  /**
   The first n rounds of a call of the service routine are a run of scan steps. The call
   makes fewer only if it is over, and then unless the queue is full it has
   queued every complete packet, or on a full ring at an unsafe round. While a buffer
   is free it is over after one round more than there are buffers to scan.
   */
  lemma ServiceIsScan<T>(p: Session, s: State<T>, n: nat) returns (t: State<T>, m: nat)
    requires p.Valid() && Inv(p, s) && s.scan.Some?
    ensures Run(p, s, Scans(m), t) && Serving(p, s, t) && SameLoop(p, s, t, n, m)
    ensures m < n && t.scan.Some? ==> !RoundSafe(p, t) && !NotFull(p, s)
    ensures NotFull(p, s) && n > |s.hist.fills| - s.hist.at ==> t.scan.None?
  {
    ScanWithin(p, s);
    t, m := ServiceFrom(p, s, s, n, 0);
    ScanWithin(p, t);
  }
}

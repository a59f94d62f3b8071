/**
 An uninterrupted CONFIRM and the protocol: the call the driver makes is a run of the
 single writes that RingProtocol interleaves with everything else.
 */
module ConfirmCall {
  import opened Words
  import opened Descriptors
  import opened RingIndex
  import opened RingProtocol
  import opened RingTheorems
  import opened WzDriver

  /** The words of a descriptor in the order CONFIRM writes them; the control word follows. */
  const WRITE_ORDER := [Bytes, SrcLo, SrcHi, DstLo, DstHi, NextLo, NextHi]

  predicate IsConfirm<T>(step: Step<T>) {
    step.ConfirmBegin? || step.ConfirmWrite? || step.ConfirmPublish?
  }

  /** A run of CONFIRM's own steps from s0 to s. */
  ghost predicate ConfirmRun<T>(p: Session, s0: State<T>, steps: seq<Step<T>>, s: State<T>) {
    Run(p, s0, steps, s) && forall i :: 0 <= i < |steps| ==> IsConfirm(steps[i])
  }

  lemma ConfirmThen<T>(p: Session, s0: State<T>, steps: seq<Step<T>>, s: State<T>, step: Step<T>)
    requires ConfirmRun(p, s0, steps, s) && Allowed(p, s, step) && IsConfirm(step)
    ensures ConfirmRun(p, s0, steps + [step], Next(p, s, step))
  {
    RunThen(p, s0, steps, s, step);
  }

  /** Only the slot in hand and the words still to write have changed. */
  ghost predicate OnlySlot<T>(s: State<T>, t: State<T>) {
    && s.confirm.Some? && t.confirm.Some? && s.confirm.value.slot < |s.desc| == |t.desc|
    && var slot := s.confirm.value.slot;
       t == s.(desc := s.desc[slot := t.desc[slot]], confirm := Some(s.confirm.value.(todo := t.confirm.value.todo)))
  }

  lemma OneWrite<T>(p: Session, s: State<T>, f: Field)
    requires Sized(p, s) && s.confirm.Some? && f in s.confirm.value.todo
    ensures Allowed(p, s, ConfirmWrite(f))
    ensures var u := Next(p, s, ConfirmWrite(f)); Sized(p, u) && OnlySlot(s, u)
    ensures var u, slot := Next(p, s, ConfirmWrite(f)), s.confirm.value.slot;
      && u.desc[slot].control == s.desc[slot].control && u.confirm.value.todo == s.confirm.value.todo - {f}
      && forall g :: Get(u.desc[slot], g) == if g == f then Get(p.saved[slot], g) else Get(s.desc[slot], g)
  {
  }

  lemma OnlySlotTwice<T>(s: State<T>, u: State<T>, t: State<T>)
    requires OnlySlot(s, u) && OnlySlot(u, t)
    ensures OnlySlot(s, t)
  {
    var slot := s.confirm.value.slot;
    assert s.desc[slot := u.desc[slot]][slot := t.desc[slot]] == s.desc[slot := t.desc[slot]];
  }

  lemma OnlySlotSame<T>(s: State<T>)
    requires s.confirm.Some? && s.confirm.value.slot < |s.desc|
    ensures OnlySlot(s, s)
  {
    assert s.desc[s.confirm.value.slot := s.desc[s.confirm.value.slot]] == s.desc;
  }

  /** Writing the words from the n-th on, in order. */
  lemma {:induction false} WritesRun<T>(p: Session, s0: State<T>, before: seq<Step<T>>, s: State<T>, n: nat)
    returns (steps: seq<Step<T>>, t: State<T>)
    requires ConfirmRun(p, s0, before, s) && Sized(p, s) && s.confirm.Some? && n <= |WRITE_ORDER|
    requires forall i :: n <= i < |WRITE_ORDER| ==> WRITE_ORDER[i] in s.confirm.value.todo
    ensures ConfirmRun(p, s0, steps, t) && Sized(p, t) && OnlySlot(s, t)
    ensures t.confirm.value.todo == s.confirm.value.todo - (set i | n <= i < |WRITE_ORDER| :: WRITE_ORDER[i])
    ensures var slot := s.confirm.value.slot;
      && (forall f :: Get(t.desc[slot], f) == Get(s.desc[slot], f) || Get(t.desc[slot], f) == Get(p.saved[slot], f))
      && forall i :: n <= i < |WRITE_ORDER| ==> Get(t.desc[slot], WRITE_ORDER[i]) == Get(p.saved[slot], WRITE_ORDER[i])
    decreases |WRITE_ORDER| - n
  {
    if n == |WRITE_ORDER| {
      steps, t := before, s;
      OnlySlotSame(s);
    } else {
      var f := WRITE_ORDER[n];
      OneWrite(p, s, f);
      ConfirmThen(p, s0, before, s, ConfirmWrite(f));
      var u := Next(p, s, ConfirmWrite(f));
      steps, t := WritesRun(p, s0, before + [ConfirmWrite(f)], u, n + 1);
      OnlySlotTwice(s, u, t);
    }
  }

  /** The state after one round of CONFIRM's loop. */
  function Restored<T>(p: Session, s: State<T>): State<T>
    requires s.confirm.Some? && s.confirm.value.slot < |s.desc| && |s.desc| == |p.saved|
  {
    var c := s.confirm.value;
    s.(desc := s.desc[c.slot := p.saved[c.slot]],
       confirm := if c.slot == c.last then None else Some(Confirming(NextSlot(c.slot, p.k), c.last, ALL_FIELDS)),
       hist := s.hist.(freed := s.hist.freed + 1, acked := if c.slot == c.last then s.hist.acked + 1 else s.hist.acked))
  }

  lemma Published<T>(p: Session, s: State<T>, t: State<T>)
    requires Sized(p, s) && Sized(p, t) && OnlySlot(s, t) && t.confirm.value.todo == {}
    requires forall f :: Get(t.desc[s.confirm.value.slot], f) == Get(p.saved[s.confirm.value.slot], f)
    ensures Allowed(p, t, ConfirmPublish) && Next(p, t, ConfirmPublish) == Restored(p, s)
  {
    var slot := s.confirm.value.slot;
    var d := t.desc[slot].(control := p.saved[slot].control);
    forall f
      ensures Get(d, f) == Get(p.saved[slot], f)
    {
      assert Get(d, f) == Get(t.desc[slot], f);
    }
    AllFieldsRestored(d, p.saved[slot]);
    assert t.desc[slot := d] == s.desc[slot := d];
  }

  /** One round of CONFIRM's loop is seven writes and a publication. */
  lemma RoundRun<T>(p: Session, s0: State<T>, before: seq<Step<T>>, s: State<T>) returns (steps: seq<Step<T>>)
    requires ConfirmRun(p, s0, before, s) && Sized(p, s) && s.confirm.Some? && s.confirm.value.todo == ALL_FIELDS
    ensures ConfirmRun(p, s0, steps, Restored(p, s))
  {
    AllInOrder();
    var t;
    steps, t := WritesRun(p, s0, before, s, 0);
    assert forall f: Field :: f in WRITE_ORDER ==> Get(t.desc[s.confirm.value.slot], f) == Get(p.saved[s.confirm.value.slot], f);
    Published(p, s, t);
    ConfirmThen(p, s0, steps, t, ConfirmPublish);
    steps := steps + [ConfirmPublish];
  }

  lemma AllInOrder()
    ensures forall f: Field :: f in WRITE_ORDER
    ensures ALL_FIELDS == set i | 0 <= i < |WRITE_ORDER| :: WRITE_ORDER[i]
  {
    assert WRITE_ORDER[0] == Bytes && WRITE_ORDER[1] == SrcLo && WRITE_ORDER[2] == SrcHi;
    assert WRITE_ORDER[3] == DstLo && WRITE_ORDER[4] == DstHi && WRITE_ORDER[5] == NextLo && WRITE_ORDER[6] == NextHi;
    forall f: Field
      ensures f in WRITE_ORDER
    {
      match f {
        case Bytes => case SrcLo => case SrcHi => case DstLo => case DstHi => case NextLo => case NextHi =>
      }
    }
  }

  /** The rounds that are left. */
  lemma {:induction false} RoundsRun<T>(p: Session, s0: State<T>, before: seq<Step<T>>, s: State<T>)
    returns (steps: seq<Step<T>>, t: State<T>)
    requires ConfirmRun(p, s0, before, s)
    requires Sized(p, s) && s.confirm.Some? && s.confirm.value.todo == ALL_FIELDS && s.confirm.value.last < p.N()
    requires s.hist.acked < s.hist.taken
    ensures ConfirmRun(p, s0, steps, t) && |t.desc| == |s.desc| == |p.saved| == p.N()
    ensures var c := s.confirm.value;
      && (forall i :: 0 <= i < p.N() ==> t.desc[i] == if OnArc(c.slot, c.last, i, p.k) then p.saved[i] else s.desc[i])
      && t == s.(desc := t.desc, confirm := None,
           hist := s.hist.(freed := s.hist.freed + Distance(c.slot, c.last, p.k) + 1, acked := s.hist.acked + 1))
    decreases Distance(s.confirm.value.slot, s.confirm.value.last, p.k)
  {
    var c := s.confirm.value;
    var r := Restored(p, s);
    steps := RoundRun(p, s0, before, s);
    forall i | 0 <= i < p.N()
      ensures c.slot == c.last ==> (OnArc(c.slot, c.last, i, p.k) <==> i == c.slot)
      ensures c.slot != c.last ==>
        (OnArc(c.slot, c.last, i, p.k) <==> i == c.slot || OnArc(NextSlot(c.slot, p.k), c.last, i, p.k))
    {
      ArcSplit(c.slot, c.last, i, p.k);
    }
    ArcSplit(c.slot, c.last, c.slot, p.k);
    if c.slot == c.last {
      t := r;
    } else {
      steps, t := RoundsRun(p, s0, steps, r);
    }
  }

  /** The arc is its first slot and the arc from the next one. */
  lemma ArcSplit(first: nat, last: nat, i: nat, k: nat)
    requires first < Pow2(k) && last < Pow2(k) && i < Pow2(k)
    ensures first == last ==> Distance(first, last, k) == 0 && (OnArc(first, last, i, k) <==> i == first)
    ensures first != last ==>
      && Distance(first, last, k) == Distance(NextSlot(first, k), last, k) + 1
      && (OnArc(first, last, i, k) <==> i == first || OnArc(NextSlot(first, k), last, i, k))
  {
    DistanceValue(first, last, k);
    DistanceValue(first, i, k);
    var next := NextSlot(first, k);
    NextSlotIsMod(first, k);
    if first + 1 < Pow2(k) {
      ModUnique(first + 1, Pow2(k), 0, first + 1);
    } else {
      ModUnique(first + 1, Pow2(k), 1, 0);
    }
    DistanceValue(next, last, k);
    DistanceValue(next, i, k);
  }

  lemma OldestInRange<T>(p: Session, s: State<T>)
    requires p.Valid() && Inv(p, s) && s.confirm.None? && s.hist.acked < s.hist.taken
    ensures Sized(p, s) && Allowed(p, s, ConfirmBegin)
    ensures s.hist.pushed[s.hist.acked].first < p.N() && s.hist.pushed[s.hist.acked].last < p.N()
  {
  }

  /**
   One uninterrupted CONFIRM of the oldest block handed out is a run of the protocol
   that restores exactly the arc of its announced ends and frees its buffers.
   */
  lemma ConfirmIsRun<T>(p: Session, s: State<T>) returns (steps: seq<Step<T>>, t: State<T>)
    requires p.Valid() && Inv(p, s) && s.confirm.None? && s.hist.acked < s.hist.taken
    ensures ConfirmRun(p, s, steps, t) && Inv(p, t)
    ensures |t.desc| == |s.desc| == |p.saved| == p.N() && s.hist.acked < |s.hist.pushed|
    ensures var b := s.hist.pushed[s.hist.acked];
      && (forall i :: 0 <= i < p.N() ==> t.desc[i] == if OnArc(b.first, b.last, i, p.k) then p.saved[i] else s.desc[i])
      && t == s.(desc := t.desc, hist := s.hist.(
           freed := s.hist.freed + Distance(b.first, b.last, p.k) + 1, acked := s.hist.acked + 1))
  {
    OldestInRange(p, s);
    var u := Next(p, s, ConfirmBegin);
    RunOne(p, s, ConfirmBegin, [], u);
    steps, t := RoundsRun(p, s, [ConfirmBegin], u);
    RunInv(p, s, steps, t);
  }
}

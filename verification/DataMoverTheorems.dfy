/**
 What the buffer ring of the first driver version guarantees in every interleaving of
 the DataMover, the interrupt handler and CONFIRM.
 */
module DataMoverTheorems {
  import opened Words
  import opened DataMover

  ghost predicate Run<L>(s0: State<L>, steps: seq<Step<L>>, s: State<L>)
    decreases |steps|
  {
    if steps == [] then s == s0
    else Enabled(s0, steps[0]) && Run(Next(s0, steps[0]), steps[1..], s)
  }

  ghost predicate Reachable<L(!new)>(s: State<L>) {
    exists blen: seq<L>, steps: seq<Step<L>> :: |blen| == s.n > 0 && Run(Started(s.n, blen), steps, s)
  }

  lemma {:induction false} RunInv<L>(s0: State<L>, steps: seq<Step<L>>, s: State<L>)
    requires Inv(s0) && Run(s0, steps, s)
    ensures Inv(s)
    decreases |steps|
  {
    if steps != [] {
      StepInv(s0, steps[0]);
      RunInv(Next(s0, steps[0]), steps[1..], s);
    }
  }

  lemma ReachableInv<L(!new)>(s: State<L>)
    requires Reachable(s)
    ensures Inv(s)
  {
    var blen: seq<L>, steps: seq<Step<L>> :| |blen| == s.n > 0 && Run(Started(s.n, blen), steps, s);
    StartedInv(s.n, blen);
    RunInv(Started(s.n, blen), steps, s);
  }

  /** The status read is always for the buffer the handler expects, and no array access is out of range. */
  lemma NeverWrongBuffer<L(!new)>(s: State<L>)
    requires Reachable(s)
    ensures Enabled(s, IrqRead) ==> s.statuses[0].tag == s.d.expBuf
    ensures s.irq.Decoded? || s.irq.LenStored? ==> s.irq.st.tag == s.d.expBuf < s.n == |s.d.bready| == |s.d.blen|
    ensures s.d.receivedBuf < s.n
  {
    ReachableInv(s);
    if Enabled(s, IrqRead) {
      IrqReadInv(s);
    }
  }

  /** What GET returns is the next transfer nobody has confirmed, and all earlier ones were delivered in order. */
  lemma GetDelivers<L(!new)>(s: State<L>)
    requires Reachable(s) && s.app.Free?
    ensures Sized(s.d, s.n)
    ensures |s.delivered| == s.confirmed <= |s.served|
    ensures forall k :: 0 <= k < |s.delivered| ==> s.delivered[k] == (Buf(k, s.n), s.served[k])
    ensures s.d.receivedBuf == Buf(s.confirmed, s.n) && (s.d.bready[s.d.receivedBuf] <==> s.confirmed < MarkedCount(s))
    ensures s.d.bready[s.d.receivedBuf] ==>
      s.confirmed < |s.served| && s.d.blen[s.d.receivedBuf] == s.served[s.confirmed]
  {
    ReachableInv(s);
    ReadyMeans(s);
  }

  /** Buffer b as the buffer of one of n consecutive transfers. */
  lemma TransferOfBuf(lo: nat, b: nat, n: nat)
    requires n > 0 && b < n
    ensures Buf(lo + (b - Buf(lo, n)) % n, n) == b
  {
    BufIsMod(lo, n);
    var at := lo + (b - Buf(lo, n)) % n;
    BufIsMod(at, n);
    ShiftedMod(lo, Buf(lo, n), (b - Buf(lo, n)) % n, b, n);
  }

  lemma ShiftedMod(lo: nat, i: nat, r: nat, b: nat, n: nat)
    requires n > 0 && b < n && i == lo % n && r == (b - i) % n
    ensures (lo + r) % n == b
  {
    ModAddLeft(lo, r, n);
    ShiftBack(i, b, n);
  }

  lemma ShiftBack(i: nat, b: nat, n: nat)
    requires i < n && b < n
    ensures (i + (b - i) % n) % n == b
  {
    if b >= i {
      ModUnique(b - i, n, 0, b - i);
      ModUnique(b, n, 0, b);
    } else {
      ModUnique(b - i, n, -1, b - i + n);
      ModUnique(b + n, n, 1, b);
    }
  }

  /**
   Ready are exactly the buffers of a cyclic window that starts at received_buf and ends
   at exp_buf, whenever neither the handler nor CONFIRM is in the middle of an update.
   */
  lemma ReadyWindow<L(!new)>(s: State<L>, b: nat)
    requires Reachable(s) && s.app.Free? && !s.irq.Marked? && b < s.n
    ensures Sized(s.d, s.n)
    ensures var ready := s.handled - s.confirmed;
      && 0 <= ready <= s.n
      && s.d.expBuf == (s.d.receivedBuf + ready) % s.n
      && (s.d.bready[b] <==> (b - s.d.receivedBuf) % s.n < ready)
  {
    ReachableInv(s);
    var at := (b - s.d.receivedBuf) % s.n;
    TransferOfBuf(s.confirmed, b, s.n);
    assert s.d.bready[Buf(s.confirmed + at, s.n)] <==> s.confirmed + at < s.handled;
    BufIsMod(s.confirmed, s.n);
    BufIsMod(s.handled, s.n);
    ModAddLeft(s.confirmed, s.handled - s.confirmed, s.n);
  }

  /**
   The DataMover never has a command for a buffer that is ready or being read by the
   application, nor two commands for one buffer.
   */
  lemma NeverOverrun<L(!new)>(s: State<L>, i: nat)
    requires Reachable(s) && i < |s.d.commands|
    ensures Sized(s.d, s.n)
    ensures s.d.commands[i] < s.n && !s.d.bready[s.d.commands[i]]
    ensures forall j :: i < j < |s.d.commands| ==> s.d.commands[j] != s.d.commands[i]
  {
    ReachableInv(s);
    var k := |s.served| + i;
    assert s.d.commands[i] == Buf(k, s.n);
    assert s.d.bready[Buf(k, s.n)] <==> k < MarkedCount(s);
    forall j | i < j < |s.d.commands|
      ensures s.d.commands[j] != s.d.commands[i]
    {
      BufsDistinct(k, |s.served| + j, s.n);
    }
  }

  // ----- Conservation -----

  function CountTrue(bits: seq<bool>): nat {
    if bits == [] then 0 else CountTrue(bits[..|bits| - 1]) + (if bits[|bits| - 1] then 1 else 0)
  }

  lemma {:induction false} CountUpdate(bits: seq<bool>, i: nat)
    requires i < |bits| && bits[i]
    ensures CountTrue(bits) == CountTrue(bits[i := false]) + 1
  {
    var n := |bits| - 1;
    if i < n {
      assert bits[i := false][..n] == bits[..n][i := false];
      CountUpdate(bits[..n], i);
    } else {
      assert bits[i := false][..n] == bits[..n];
    }
  }

  lemma {:induction false} CountNone(bits: seq<bool>)
    requires forall i :: 0 <= i < |bits| ==> !bits[i]
    ensures CountTrue(bits) == 0
  {
    if bits != [] {
      CountNone(bits[..|bits| - 1]);
    }
  }

  /** A window of ready buffers is as long as it should be. */
  lemma {:induction false} CountWindow(bready: seq<bool>, n: nat, lo: nat, hi: nat)
    requires n > 0 && ReadyOk(bready, n, lo, hi)
    ensures CountTrue(bready) == hi - lo
    decreases hi - lo
  {
    if lo == hi {
      forall b | 0 <= b < n
        ensures !bready[b]
      {
        TransferOfBuf(lo, b, n);
        assert bready[Buf(lo + (b - Buf(lo, n)) % n, n)] <==> lo + (b - Buf(lo, n)) % n < hi;
      }
      CountNone(bready);
    } else {
      assert bready[Buf(lo, n)] <==> lo < hi;
      CountUpdate(bready, Buf(lo, n));
      ReadyCleared(bready, n, lo, hi);
      CountWindow(bready[Buf(lo, n) := false], n, lo + 1, hi);
    }
  }

  /**
   No buffer is lost or duplicated: outstanding commands, unread statuses, the one in
   the handler's hands, ready buffers and the one CONFIRM has in hand make up all n.
   */
  lemma BuffersConserved<L(!new)>(s: State<L>)
    requires Reachable(s)
    ensures |s.d.commands| + |s.statuses| + (if s.irq.Decoded? || s.irq.LenStored? then 1 else 0)
      + CountTrue(s.d.bready) + (if s.app.Reclaimed? then 1 else 0) == s.n
  {
    ReachableInv(s);
    CountWindow(s.d.bready, s.n, Retaken(s), MarkedCount(s));
  }

  // ----- Whole operations -----

  /** The four steps of a handler round, undisturbed, are one round. */
  lemma HandlerRound<L>(s: State<L>)
    requires Inv(s) && Enabled(s, IrqRead)
    ensures var st := s.statuses[0];
      && st.tag < |s.d.blen| && st.tag < |s.d.bready|
      && var steps := [IrqRead, IrqStoreLen, IrqMark, IrqAdvance];
         Run(s, steps, s.(d := Handle(s.d, st, s.n), statuses := s.statuses[1..], handled := s.handled + 1))
  {
    IrqReadInv(s);
    var s1 := Next(s, IrqRead);
    var s2 := Next(s1, IrqStoreLen);
    var s3 := Next(s2, IrqMark);
    var s4 := Next(s3, IrqAdvance);
    RunFour(s, IrqRead, IrqStoreLen, IrqMark, IrqAdvance);
    assert s4 == s.(d := Handle(s.d, s.statuses[0], s.n), statuses := s.statuses[1..], handled := s.handled + 1);
  }

  /** The four steps of CONFIRM, undisturbed, are CONFIRM. */
  lemma ConfirmRound<L>(s: State<L>, none: L)
    requires Enabled(s, ConfirmClearLen(none))
    ensures var steps := [ConfirmClearLen(none), ConfirmClearReady, ConfirmSubmit, ConfirmAdvance];
      Run(s, steps, s.(d := Confirmed(s.d, s.n, none), confirmed := s.confirmed + 1,
        delivered := s.delivered + [(s.d.receivedBuf, s.d.blen[s.d.receivedBuf])]))
  {
    var s1 := Next(s, ConfirmClearLen(none));
    var s2 := Next(s1, ConfirmClearReady);
    var s3 := Next(s2, ConfirmSubmit);
    assert s3.app.Resubmitted?;
    var s4 := Next(s3, ConfirmAdvance);
    assert s4.d == Confirmed(s.d, s.n, none);
    assert s4 == s.(d := Confirmed(s.d, s.n, none), confirmed := s.confirmed + 1,
      delivered := s.delivered + [(s.d.receivedBuf, s.d.blen[s.d.receivedBuf])]);
    RunFour(s, ConfirmClearLen(none), ConfirmClearReady, ConfirmSubmit, ConfirmAdvance);
  }

  lemma RunFour<L>(s: State<L>, a: Step<L>, b: Step<L>, c: Step<L>, d: Step<L>)
    requires Enabled(s, a) && Enabled(Next(s, a), b) && Enabled(Next(Next(s, a), b), c)
    requires Enabled(Next(Next(Next(s, a), b), c), d)
    ensures Run(s, [a, b, c, d], Next(Next(Next(Next(s, a), b), c), d))
  {
    var s1 := Next(s, a);
    var s2 := Next(s1, b);
    var s3 := Next(s2, c);
    var s4 := Next(s3, d);
    RunStep(s3, d, [], s4);
    RunStep(s2, c, [d], s4);
    RunStep(s1, b, [c, d], s4);
    RunStep(s, a, [b, c, d], s4);
  }

  lemma RunStep<L>(s: State<L>, step: Step<L>, rest: seq<Step<L>>, r: State<L>)
    requires Enabled(s, step) && Run(Next(s, step), rest, r)
    ensures Run(s, [step] + rest, r)
  {
    assert ([step] + rest)[1..] == rest;
  }
}

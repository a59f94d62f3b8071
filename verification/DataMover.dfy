/**
 The buffer ring of the first driver version (axi4s2dmov.c): commands for the AXI
 DataMover go into one FIFO, its statuses come back through another, and the
 interrupt handler and the GET and CONFIRM ioctls share the buffer flags.
 The handler and CONFIRM run concurrently, one memory access at a time.
 */
module DataMover {
  import opened Words

  // ----- Buffer numbers -----

  function NextBuf(b: nat, n: nat): nat {
    if b + 1 == n then 0 else b + 1
  }

  /** The buffer of the j-th transfer. */
  function Buf(j: nat, n: nat): (b: nat)
    requires n > 0
    ensures b < n
  {
    if j == 0 then 0 else NextBuf(Buf(j - 1, n), n)
  }

  lemma {:induction false} BufIsMod(j: nat, n: nat)
    requires n > 0
    ensures Buf(j, n) == j % n
  {
    if j == 0 {
      ModUnique(0, n, 0, 0);
    } else {
      BufIsMod(j - 1, n);
      ModStep(j - 1, n);
      if (j - 1) % n + 1 == n {
        ModUnique(n, n, 1, 0);
      } else {
        ModUnique((j - 1) % n + 1, n, 0, (j - 1) % n + 1);
      }
    }
  }

  lemma BufsDistinct(a: nat, b: nat, n: nat)
    requires n > 0 && a < b < a + n
    ensures Buf(a, n) != Buf(b, n)
  {
    BufIsMod(a, n);
    BufIsMod(b, n);
    ModDifference(a, b, n);
    ModUnique(0, n, 0, 0);
  }

  lemma BufPeriod(j: nat, n: nat)
    requires n > 0
    ensures Buf(j + n, n) == Buf(j, n)
  {
    BufIsMod(j, n);
    BufIsMod(j + n, n);
    ModPeriod(j, n);
  }

  /** Of n consecutive transfers only x uses the buffer of x. */
  lemma OthersDiffer(lo: nat, x: nat, n: nat)
    requires n > 0 && lo <= x < lo + n
    ensures forall k: nat :: lo <= k < lo + n && k != x ==> Buf(k, n) != Buf(x, n)
  {
    forall k: nat | lo <= k < lo + n && k != x
      ensures Buf(k, n) != Buf(x, n)
    {
      if k < x {
        BufsDistinct(k, x, n);
      } else {
        BufsDistinct(x, k, n);
      }
    }
  }

  // ----- The protocol -----

  datatype Status<L> = Status(tag: nat, len: L)

  /** The driver's variables, and the command FIFO it writes. */
  datatype Driver<L> = Driver(bready: seq<bool>, blen: seq<L>, receivedBuf: nat, expBuf: nat, commands: seq<nat>)

  predicate Sized<L>(d: Driver<L>, n: nat) {
    |d.bready| == n && |d.blen| == n && d.receivedBuf < n
  }

  function StoreLen<L>(d: Driver<L>, st: Status<L>): Driver<L>
    requires st.tag < |d.blen|
  {
    d.(blen := d.blen[st.tag := st.len])
  }

  function Mark<L>(d: Driver<L>, st: Status<L>): Driver<L>
    requires st.tag < |d.bready|
  {
    d.(bready := d.bready[st.tag := true])
  }

  function Expect<L>(d: Driver<L>, n: nat): Driver<L> {
    d.(expBuf := NextBuf(d.expBuf, n))
  }

  /** One round of the interrupt handler. */
  function Handle<L>(d: Driver<L>, st: Status<L>, n: nat): Driver<L>
    requires st.tag < |d.blen| && st.tag < |d.bready|
  {
    Expect(Mark(StoreLen(d, st), st), n)
  }

  function ClearLen<L>(d: Driver<L>, none: L): Driver<L>
    requires d.receivedBuf < |d.blen|
  {
    d.(blen := d.blen[d.receivedBuf := none])
  }

  function ClearReady<L>(d: Driver<L>): Driver<L>
    requires d.receivedBuf < |d.bready|
  {
    d.(bready := d.bready[d.receivedBuf := false])
  }

  function Submit<L>(d: Driver<L>): Driver<L> {
    d.(commands := d.commands + [d.receivedBuf])
  }

  function Receive<L>(d: Driver<L>, n: nat): Driver<L> {
    d.(receivedBuf := NextBuf(d.receivedBuf, n))
  }

  /** CONFIRM of a ready buffer. */
  function Confirmed<L>(d: Driver<L>, n: nat, none: L): Driver<L>
    requires Sized(d, n)
  {
    Receive(Submit(ClearReady(ClearLen(d, none))), n)
  }

  /** How far CONFIRM and the interrupt handler have come. */
  datatype App = Free | LenCleared | Reclaimed | Resubmitted
  datatype Irq<L> = Waiting | Decoded(st: Status<L>) | LenStored(st: Status<L>) | Marked

  /**
   The system in one session: `served` holds the length of every transfer made,
   `delivered` what GET returned for every confirmed buffer, `handled` and
   `confirmed` count finished handler rounds and CONFIRMs.
   */
  datatype State<L> = State(
    n: nat, d: Driver<L>, statuses: seq<Status<L>>, app: App, irq: Irq<L>,
    served: seq<L>, delivered: seq<(nat, L)>, handled: nat, confirmed: nat)

  datatype Step<L> =
    | Serve(len: L)
    | IrqRead | IrqStoreLen | IrqMark | IrqAdvance
    | ConfirmClearLen(none: L) | ConfirmClearReady | ConfirmSubmit | ConfirmAdvance

  predicate Enabled<L>(s: State<L>, step: Step<L>) {
    match step
    case Serve(_) => s.d.commands != []
    case IrqRead => s.irq.Waiting? && s.statuses != []
    case IrqStoreLen => s.irq.Decoded? && s.irq.st.tag < |s.d.blen|
    case IrqMark => s.irq.LenStored? && s.irq.st.tag < |s.d.bready|
    case IrqAdvance => s.irq.Marked?
    case ConfirmClearLen(_) => s.app.Free? && Sized(s.d, s.n) && s.d.bready[s.d.receivedBuf]
    case ConfirmClearReady => s.app.LenCleared? && Sized(s.d, s.n)
    case ConfirmSubmit => s.app.Reclaimed?
    case ConfirmAdvance => s.app.Resubmitted?
  }

  function Next<L>(s: State<L>, step: Step<L>): State<L>
    requires Enabled(s, step)
  {
    match step
    case Serve(len) =>
      s.(d := s.d.(commands := s.d.commands[1..]),
         statuses := s.statuses + [Status(s.d.commands[0], len)], served := s.served + [len])
    case IrqRead => s.(irq := Decoded(s.statuses[0]), statuses := s.statuses[1..])
    case IrqStoreLen => s.(irq := LenStored(s.irq.st), d := StoreLen(s.d, s.irq.st))
    case IrqMark => s.(irq := Marked, d := Mark(s.d, s.irq.st))
    case IrqAdvance => s.(irq := Waiting, d := Expect(s.d, s.n), handled := s.handled + 1)
    case ConfirmClearLen(none) =>
      s.(app := LenCleared, d := ClearLen(s.d, none),
         delivered := s.delivered + [(s.d.receivedBuf, s.d.blen[s.d.receivedBuf])])
    case ConfirmClearReady => s.(app := Reclaimed, d := ClearReady(s.d))
    case ConfirmSubmit => s.(app := Resubmitted, d := Submit(s.d))
    case ConfirmAdvance => s.(app := Free, d := Receive(s.d, s.n), confirmed := s.confirmed + 1)
  }

  /** After START: every buffer submitted, none ready. */
  function Started<L>(n: nat, blen: seq<L>): State<L>
    requires n > 0
  {
    State(n, Driver(seq(n, _ => false), blen, 0, 0, seq(n, (i: nat) => i)), [], Free, Waiting, [], [], 0, 0)
  }

  // ----- Counters -----

  /** Statuses taken from the FIFO. */
  function Taken<L>(s: State<L>): nat {
    if s.irq.Waiting? then s.handled else s.handled + 1
  }

  /** Lengths stored, buffers marked ready. */
  function Stored<L>(s: State<L>): nat {
    if s.irq.LenStored? || s.irq.Marked? then s.handled + 1 else s.handled
  }

  function MarkedCount<L>(s: State<L>): nat {
    if s.irq.Marked? then s.handled + 1 else s.handled
  }

  /** Lengths cleared, buffers taken back, buffers submitted again. */
  function Cleared<L>(s: State<L>): nat {
    if s.app.Free? then s.confirmed else s.confirmed + 1
  }

  function Retaken<L>(s: State<L>): nat {
    if s.app.Reclaimed? || s.app.Resubmitted? then s.confirmed + 1 else s.confirmed
  }

  function Submitted<L>(s: State<L>): nat {
    s.n + if s.app.Resubmitted? then s.confirmed + 1 else s.confirmed
  }

  // ----- The invariant -----

  ghost predicate CommandsOk(commands: seq<nat>, n: nat, first: nat)
    requires n > 0
  {
    forall i :: 0 <= i < |commands| ==> commands[i] == Buf(first + i, n)
  }

  ghost predicate StatusesOk<L>(statuses: seq<Status<L>>, served: seq<L>, n: nat, first: nat)
    requires n > 0
  {
    && |served| == first + |statuses|
    && forall i :: 0 <= i < |statuses| ==> statuses[i] == Status(Buf(first + i, n), served[first + i])
  }

  /** Ready are exactly the buffers of transfers lo to hi - 1. */
  ghost predicate ReadyOk(bready: seq<bool>, n: nat, lo: nat, hi: nat)
    requires n > 0
  {
    && |bready| == n && lo <= hi <= lo + n
    && forall k: nat :: lo <= k < lo + n ==> (bready[Buf(k, n)] <==> k < hi)
  }

  ghost predicate LengthsOk<L>(blen: seq<L>, served: seq<L>, n: nat, lo: nat, hi: nat)
    requires n > 0
  {
    && |blen| == n && hi <= |served| && hi <= lo + n
    && forall k: nat :: lo <= k < hi ==> blen[Buf(k, n)] == served[k]
  }

  ghost predicate DeliveredOk<L>(delivered: seq<(nat, L)>, served: seq<L>, n: nat)
    requires n > 0
  {
    && |delivered| <= |served|
    && forall k :: 0 <= k < |delivered| ==> delivered[k] == (Buf(k, n), served[k])
  }

  /** The status the handler holds. */
  ghost predicate IrqOk<L>(irq: Irq<L>, served: seq<L>, n: nat, handled: nat)
    requires n > 0
  {
    irq.Decoded? || irq.LenStored? ==> handled < |served| && irq.st == Status(Buf(handled, n), served[handled])
  }

  ghost predicate Inv<L>(s: State<L>) {
    && s.n > 0
    && s.d.receivedBuf == Buf(s.confirmed, s.n) && s.d.expBuf == Buf(s.handled, s.n)
    && |s.served| + |s.d.commands| == Submitted(s) && |s.delivered| == Cleared(s) <= MarkedCount(s)
    && CommandsOk(s.d.commands, s.n, |s.served|)
    && StatusesOk(s.statuses, s.served, s.n, Taken(s))
    && IrqOk(s.irq, s.served, s.n, s.handled)
    && ReadyOk(s.d.bready, s.n, Retaken(s), MarkedCount(s))
    && LengthsOk(s.d.blen, s.served, s.n, Cleared(s), Stored(s))
    && DeliveredOk(s.delivered, s.served, s.n)
  }

  lemma {:induction false} BufSmall(i: nat, n: nat)
    requires i < n
    ensures Buf(i, n) == i
  {
    if i > 0 {
      BufSmall(i - 1, n);
    }
  }

  lemma StartedInv<L>(n: nat, blen: seq<L>)
    requires n > 0 && |blen| == n
    ensures Inv(Started(n, blen))
  {
    forall i: nat | i < n
      ensures Buf(i, n) == i
    {
      BufSmall(i, n);
    }
  }

  lemma CommandServed(commands: seq<nat>, n: nat, first: nat)
    requires n > 0 && commands != [] && CommandsOk(commands, n, first)
    ensures commands[0] == Buf(first, n) && CommandsOk(commands[1..], n, first + 1)
  {
    assert forall i :: 0 <= i < |commands| - 1 ==> commands[1..][i] == commands[i + 1];
  }

  lemma CommandSubmitted(commands: seq<nat>, n: nat, first: nat, b: nat)
    requires n > 0 && CommandsOk(commands, n, first) && b == Buf(first + |commands|, n)
    ensures CommandsOk(commands + [b], n, first)
  {
  }

  lemma StatusAdded<L>(statuses: seq<Status<L>>, served: seq<L>, n: nat, first: nat, len: L)
    requires n > 0 && StatusesOk(statuses, served, n, first)
    ensures StatusesOk(statuses + [Status(Buf(|served|, n), len)], served + [len], n, first)
  {
  }

  lemma StatusTaken<L>(statuses: seq<Status<L>>, served: seq<L>, n: nat, first: nat)
    requires n > 0 && statuses != [] && StatusesOk(statuses, served, n, first)
    ensures statuses[0] == Status(Buf(first, n), served[first])
    ensures StatusesOk(statuses[1..], served, n, first + 1)
  {
    assert forall i :: 0 <= i < |statuses| - 1 ==> statuses[1..][i] == statuses[i + 1];
  }

  lemma ReadySet(bready: seq<bool>, n: nat, lo: nat, hi: nat)
    requires n > 0 && hi < lo + n && ReadyOk(bready, n, lo, hi)
    ensures ReadyOk(bready[Buf(hi, n) := true], n, lo, hi + 1)
  {
    OthersDiffer(lo, hi, n);
  }

  lemma ReadyCleared(bready: seq<bool>, n: nat, lo: nat, hi: nat)
    requires n > 0 && lo < hi && ReadyOk(bready, n, lo, hi)
    ensures ReadyOk(bready[Buf(lo, n) := false], n, lo + 1, hi)
  {
    OthersDiffer(lo, lo, n);
    BufPeriod(lo, n);
  }

  lemma LengthStored<L>(blen: seq<L>, served: seq<L>, n: nat, lo: nat, hi: nat)
    requires n > 0 && lo <= hi < lo + n && hi < |served| && LengthsOk(blen, served, n, lo, hi)
    ensures LengthsOk(blen[Buf(hi, n) := served[hi]], served, n, lo, hi + 1)
  {
    OthersDiffer(lo, hi, n);
  }

  lemma LengthCleared<L>(blen: seq<L>, served: seq<L>, n: nat, lo: nat, hi: nat, none: L)
    requires n > 0 && LengthsOk(blen, served, n, lo, hi)
    ensures LengthsOk(blen[Buf(lo, n) := none], served, n, lo + 1, hi)
  {
    OthersDiffer(lo, lo, n);
  }

  lemma ServedGrows<L>(s: State<L>, len: L)
    requires s.n > 0 && IrqOk(s.irq, s.served, s.n, s.handled)
    requires LengthsOk(s.d.blen, s.served, s.n, Cleared(s), Stored(s)) && DeliveredOk(s.delivered, s.served, s.n)
    ensures IrqOk(s.irq, s.served + [len], s.n, s.handled)
    ensures LengthsOk(s.d.blen, s.served + [len], s.n, Cleared(s), Stored(s))
    ensures DeliveredOk(s.delivered, s.served + [len], s.n)
  {
  }

  lemma ServeCommands<L>(s: State<L>, len: L)
    requires s.n > 0 && Enabled(s, Serve(len)) && CommandsOk(s.d.commands, s.n, |s.served|)
    ensures var r := Next(s, Serve(len));
      && CommandsOk(r.d.commands, r.n, |r.served|)
      && |r.served| + |r.d.commands| == |s.served| + |s.d.commands|
      && r.statuses == s.statuses + [Status(Buf(|s.served|, s.n), len)]
  {
    CommandServed(s.d.commands, s.n, |s.served|);
  }

  lemma ServeInv<L>(s: State<L>, len: L)
    requires Inv(s) && Enabled(s, Serve(len))
    ensures Inv(Next(s, Serve(len)))
  {
    ServeCommands(s, len);
    StatusAdded(s.statuses, s.served, s.n, Taken(s), len);
    ServedGrows(s, len);
  }

  /** The status read is for the expected buffer. */
  lemma IrqReadInv<L>(s: State<L>)
    requires Inv(s) && Enabled(s, IrqRead)
    ensures Inv(Next(s, IrqRead))
    ensures s.statuses[0].tag == s.d.expBuf
  {
    StatusTaken(s.statuses, s.served, s.n, Taken(s));
  }

  lemma IrqStoreLenInv<L>(s: State<L>)
    requires Inv(s) && Enabled(s, IrqStoreLen)
    ensures Inv(Next(s, IrqStoreLen))
  {
    LengthStored(s.d.blen, s.served, s.n, Cleared(s), s.handled);
  }

  lemma IrqMarkInv<L>(s: State<L>)
    requires Inv(s) && Enabled(s, IrqMark)
    ensures Inv(Next(s, IrqMark))
  {
    ReadySet(s.d.bready, s.n, Retaken(s), s.handled);
  }

  lemma IrqAdvanceInv<L>(s: State<L>)
    requires Inv(s) && Enabled(s, IrqAdvance)
    ensures Inv(Next(s, IrqAdvance))
  {
  }

  /** A buffer that is ready has been marked and holds the length of its transfer. */
  lemma ReadyMeans<L>(s: State<L>)
    requires Inv(s) && s.app.Free?
    ensures s.d.bready[s.d.receivedBuf] <==> s.confirmed < MarkedCount(s)
    ensures s.d.bready[s.d.receivedBuf] ==>
      s.confirmed < |s.served| && s.d.blen[s.d.receivedBuf] == s.served[s.confirmed]
  {
  }

  lemma ConfirmClearLenInv<L>(s: State<L>, none: L)
    requires Inv(s) && Enabled(s, ConfirmClearLen(none))
    ensures Inv(Next(s, ConfirmClearLen(none)))
  {
    ReadyMeans(s);
    LengthCleared(s.d.blen, s.served, s.n, s.confirmed, Stored(s), none);
  }

  lemma ConfirmClearReadyInv<L>(s: State<L>)
    requires Inv(s) && Enabled(s, ConfirmClearReady)
    ensures Inv(Next(s, ConfirmClearReady))
  {
    ReadyCleared(s.d.bready, s.n, s.confirmed, MarkedCount(s));
  }

  lemma ConfirmSubmitInv<L>(s: State<L>)
    requires Inv(s) && Enabled(s, ConfirmSubmit)
    ensures Inv(Next(s, ConfirmSubmit))
  {
    BufPeriod(s.confirmed, s.n);
    CommandSubmitted(s.d.commands, s.n, |s.served|, s.d.receivedBuf);
  }

  lemma ConfirmAdvanceInv<L>(s: State<L>)
    requires Inv(s) && Enabled(s, ConfirmAdvance)
    ensures Inv(Next(s, ConfirmAdvance))
  {
  }

  lemma StepInv<L>(s: State<L>, step: Step<L>)
    requires Inv(s) && Enabled(s, step)
    ensures Inv(Next(s, step)) && Next(s, step).n == s.n
  {
    match step
    case Serve(len) => ServeInv(s, len);
    case IrqRead => IrqReadInv(s);
    case IrqStoreLen => IrqStoreLenInv(s);
    case IrqMark => IrqMarkInv(s);
    case IrqAdvance => IrqAdvanceInv(s);
    case ConfirmClearLen(none) => ConfirmClearLenInv(s, none);
    case ConfirmClearReady => ConfirmClearReadyInv(s);
    case ConfirmSubmit => ConfirmSubmitInv(s);
    case ConfirmAdvance => ConfirmAdvanceInv(s);
  }
}

/**
 The driver's side of the ring as it is written: methods over the descriptor
 arrays and the block queue. Each is one uninterrupted call; RingProtocol is the
 same code with every shared access interleaved. The service routine and the
 protocol share Examine; ServiceCall and ConfirmCall relate whole calls to protocol steps.
 */
module WzDriver {
  import opened Words
  import opened Descriptors
  import opened RingIndex
  import opened Blocks
  import opened RingProtocol
  import opened RingTheorems

  const EINVAL := 22
  const ENOMEM := 12
  const EIO := 5
  const ERESTARTSYS := 512

  // ----- Specification of the service routine -----

  datatype Scan = Scan(first: nat, scanned: nat, fifo: seq<Block>)

  /** A slot at which the scan loop cannot run past forever. */
  predicate Stops(d: Desc) {
    !HasWritebackMagic(d.control) || HasEop(d.control)
  }

  lemma StopIsNearer(check: nat, stop: nat, k: nat)
    requires check < Pow2(k) && stop < Pow2(k) && check != stop
    ensures Distance(NextSlot(check, k), stop, k) < Distance(check, stop, k)
  {
    NextSlotIsMod(check, k);
    var n := Pow2(k);
    if check < stop {
      ModUnique(check + 1, n, 0, check + 1);
      ModUnique(stop - check, n, 0, stop - check);
      ModUnique(stop - (check + 1), n, 0, stop - (check + 1));
    } else {
      ModUnique(stop - check, n, -1, n + stop - check);
      if check + 1 < n {
        ModUnique(check + 1, n, 0, check + 1);
        ModUnique(stop - (check + 1), n, -1, n + stop - (check + 1));
      } else {
        ModUnique(check + 1, n, 1, 0);
        ModUnique(stop, n, 0, stop);
      }
    }
  }

  /** The scan loop at some moment: the next slot to examine, or None when it has ended. */
  datatype Loop = Loop(st: Scan, check: Option<nat>)

  /** One round. */
  function ScanRound(desc: seq<Desc>, k: nat, cap: nat, st: Scan, check: nat): Loop
    requires check < |desc|
  {
    match Examine(desc[check], st.first, check, |st.fifo| < cap)
    case Exhausted => Loop(st.(scanned := check), None)
    case Postponed => Loop(st, None)
    case Reported(b) =>
      var next := NextSlot(check, k);
      Loop(Scan(next, next, st.fifo + [b]), Some(next))
    case Advanced => Loop(st, Some(NextSlot(check, k)))
  }

  predicate InRing(l: Loop, k: nat) {
    l.check.Some? ==> l.check.value < Pow2(k)
  }

  /** The loop n rounds later, or at its end. */
  function AfterRounds(desc: seq<Desc>, k: nat, cap: nat, l: Loop, n: nat): (r: Loop)
    requires |desc| == Pow2(k) && InRing(l, k)
    ensures InRing(r, k)
    decreases n
  {
    if n == 0 || l.check.None? then l
    else AfterRounds(desc, k, cap, ScanRound(desc, k, cap, l.st, l.check.value), n - 1)
  }

  lemma OneRound(desc: seq<Desc>, k: nat, cap: nat, l: Loop, next: Loop, n: nat)
    requires |desc| == Pow2(k) && InRing(l, k) && n > 0 && l.check.Some?
    requires next == ScanRound(desc, k, cap, l.st, l.check.value)
    ensures InRing(next, k) && AfterRounds(desc, k, cap, l, n) == AfterRounds(desc, k, cap, next, n - 1)
  {
  }

  /** Slot i lies on the way from `first` to `last` around the ring. */
  predicate OnArc(first: nat, last: nat, i: nat, k: nat) {
    Distance(first, i, k) <= Distance(first, last, k)
  }

  // ----- The driver -----

  /** Which slots have a descriptor after START, if allocation f is the first to fail. */
  ghost function PresentAfter(present: seq<bool>, f: nat): seq<bool> {
    seq(|present|, (i: nat) requires i < |present| => i < f || (i > f && present[i]))
  }

  ghost function AllPresent(n: nat): seq<bool> {
    seq(n, _ => true)
  }

  ghost function NonePresent(n: nat): seq<bool> {
    seq(n, _ => false)
  }

  /** The buffer addresses START leaves: those of slots freed on the way are gone. */
  ghost function BufsAfter(bufs: seq<Addr>, present: seq<bool>, f: nat): (r: seq<Addr>)
    requires |bufs| == |present|
    ensures |r| == |bufs|
  {
    seq(|bufs|, (i: nat) requires i < |bufs| => if i <= f && present[i] then 0 else bufs[i])
  }

  /** Where a ring puts the data. */
  ghost function Targets(desc: seq<Desc>): (r: seq<Addr>)
    ensures |r| == |desc|
  {
    seq(|desc|, (i: nat) requires i < |desc| => desc[i].Dst())
  }

  /** No buffer with an address has a descriptor from an earlier START. */
  ghost predicate NoneLost(bufs: seq<Addr>, present: seq<bool>)
    requires |bufs| == |present|
  {
    forall i :: 0 <= i < |bufs| && present[i] ==> bufs[i] == 0
  }

  lemma AddressesKeptIff(bufs: seq<Addr>, present: seq<bool>)
    requires |bufs| == |present|
    ensures BufsAfter(bufs, present, |bufs|) == bufs <==> NoneLost(bufs, present)
  {
    var r := BufsAfter(bufs, present, |bufs|);
    forall i | 0 <= i < |bufs|
      ensures r[i] == if present[i] then 0 else bufs[i]
    {
    }
  }

  class WzExt {
    const k: nat
    const fifoCap: nat
    const bufLen: Word
    const desc: array<Desc>
    const descCopy: array<Desc>
    const descDma: array<Addr>
    const bufDma: array<Addr>
    /** Whether ext->desc[i] is already allocated. */
    const present: array<bool>
    var bufReady: bool
    var running: bool
    /** Whether the ring's one transfer is on the engine's list. */
    var transferQueued: bool
    var blockFirst: nat
    var blockScanned: nat
    var kfifo: seq<Block>

    ghost predicate OneEachSlot() {
      desc.Length == descCopy.Length == descDma.Length == bufDma.Length == present.Length == Pow2(k)
    }

    ghost predicate Valid()
      reads this
    {
      && OneEachSlot()
      && desc != descCopy && descDma != bufDma
      && blockFirst < Pow2(k) && blockScanned < Pow2(k) && |kfifo| <= fifoCap
    }

    constructor (k: nat, fifoCap: nat, bufLen: Word, bufs: seq<Addr>)
      requires |bufs| == Pow2(k)
      ensures Valid() && this.k == k && this.fifoCap == fifoCap && this.bufLen == bufLen
      ensures bufDma[..] == bufs && bufReady && !running && !transferQueued && kfifo == []
      ensures forall i :: 0 <= i < Pow2(k) ==> !present[i]
      ensures fresh(desc) && fresh(descCopy) && fresh(descDma) && fresh(bufDma) && fresh(present)
    {
      this.k, this.fifoCap, this.bufLen := k, fifoCap, bufLen;
      var n := Pow2(k);
      desc := new Desc[n](i => Desc(0, 0, 0, 0, 0, 0, 0, 0));
      descCopy := new Desc[n](i => Desc(0, 0, 0, 0, 0, 0, 0, 0));
      descDma := new Addr[n](i => 0);
      bufDma := new Addr[n](i requires 0 <= i < n => bufs[i]);
      present := new bool[n](i => false);
      bufReady, running, transferQueued, blockFirst, blockScanned, kfifo := true, false, false, 0, 0, [];
      new;
      assert bufDma[..] == bufs;
    }

    /** The descriptor START publishes for slot i. */
    ghost predicate Published(i: nat, d: Desc)
      requires i < descDma.Length == bufDma.Length && descDma.Length == Pow2(k)
      reads descDma, bufDma
    {
      && d.control == 0xAD4B_0002
      && d.Src() == descDma[i] && d.Dst() == bufDma[i] && d.Next() == descDma[NextSlot(i, k)]
      && d.bytes == bufLen
    }

    /**
     First half of ioctl_do_wz_start: allocate the descriptors and link them into a
     ring. A descriptor left over from an earlier START is freed first, and with it
     the bus address of its buffer is forgotten.
     */
    method LinkRing(bus: seq<Addr>, granted: nat) returns (ok: bool)
      requires Valid() && |bus| == Pow2(k)
      modifies desc, descDma, bufDma, present
      ensures ok <==> granted >= Pow2(k)
      ensures forall i :: 0 <= i < Pow2(k) ==> present[i] == (i < granted || (i > granted && old(present[i])))
      ensures forall i :: 0 <= i < Pow2(k) ==>
        bufDma[i] == if i <= granted && old(present[i]) then 0 else old(bufDma[i])
      ensures ok ==> forall i :: 0 <= i < Pow2(k) ==>
        descDma[i] == bus[i] && desc[i].control == DESC_MAGIC && desc[i].Next() == descDma[NextSlot(i, k)]
    {
      var n := Pow2(k);
      var i := 0;
      while i < n
        invariant 0 <= i <= n && i <= granted
        invariant forall j :: 0 <= j < i ==> descDma[j] == bus[j] && present[j]
        invariant forall j :: 0 <= j < i ==> bufDma[j] == (if old(present[j]) then 0 else old(bufDma[j]))
        invariant forall j :: i <= j < n ==> bufDma[j] == old(bufDma[j]) && present[j] == old(present[j])
        invariant forall j :: 0 <= j < i ==> desc[j].control == DESC_MAGIC
        invariant forall j :: 0 <= j < i - 1 ==> desc[j].Next() == bus[j + 1]
      {
        Renew(i, i < granted);
        if i == granted {
          return false;
        }
        descDma[i] := bus[i];
        desc[i] := Desc(DESC_MAGIC, 0, 0, 0, 0, 0, 0, 0);
        if i > 0 {
          LinkTo(i - 1, descDma[i]);
        }
        i := i + 1;
      }
      LinkTo(n - 1, descDma[0]);
      forall j | 0 <= j < n
        ensures NextSlot(j, k) == (if j < n - 1 then j + 1 else 0)
      {
        NextSlotValue(j, k);
      }
      return true;
    }

    /** Freeing what an earlier START left in slot i, and taking note of the new allocation. */
    method Renew(i: nat, some: bool)
      requires Valid() && i < Pow2(k)
      modifies bufDma, present
      ensures present[i] == some && bufDma[i] == if old(present[i]) then 0 else old(bufDma[i])
      ensures forall j :: 0 <= j < Pow2(k) && j != i ==> bufDma[j] == old(bufDma[j]) && present[j] == old(present[j])
    {
      if present[i] {
        bufDma[i] := 0;
      }
      present[i] := some;
    }

    /** xdma_desc_link on a fresh descriptor. */
    method LinkTo(i: nat, next: Addr)
      requires Valid() && i < Pow2(k) && desc[i].control == DESC_MAGIC
      modifies desc
      ensures desc[i].control == DESC_MAGIC && desc[i].Next() == next
      ensures forall j :: 0 <= j < Pow2(k) && j != i ==> desc[j] == old(desc[j])
    {
      LinkMagic();
      LinkPoints(desc[i], next);
      desc[i] := Link(desc[i], Some(next));
    }

    /** Second half of ioctl_do_wz_start: describe the buffers and save the copies. */
    method FillRing()
      requires Valid()
      requires forall i :: 0 <= i < Pow2(k) ==>
        desc[i].control == DESC_MAGIC && desc[i].Next() == descDma[NextSlot(i, k)]
      modifies desc, descCopy
      ensures desc[..] == descCopy[..] && forall i :: 0 <= i < Pow2(k) ==> Published(i, desc[i])
      ensures Targets(desc[..]) == bufDma[..]
    {
      StartControl();
      var i := 0;
      while i < Pow2(k)
        invariant 0 <= i <= Pow2(k)
        invariant forall j :: 0 <= j < i ==> desc[j] == descCopy[j] && Published(j, desc[j])
        invariant forall j :: i <= j < Pow2(k) ==>
          desc[j].control == DESC_MAGIC && desc[j].Next() == descDma[NextSlot(j, k)]
      {
        SetTransferReadsBack(desc[i], bufDma[i], descDma[i], bufLen, false);
        desc[i] := SetTransfer(desc[i], bufDma[i], descDma[i], bufLen, false);
        desc[i] := SetControl(desc[i], COMPLETED);
        descCopy[i] := desc[i];
        i := i + 1;
      }
    }

    /**
     ioctl_do_wz_start. `bus` are the addresses of the descriptors, of which `granted`
     can be allocated, `record` says whether the transfer record can be, `accepted` says whether the engine
     takes the transfer, which makes no difference to the return code. A buffer that
     has a descriptor from an earlier START loses its address: the ring gets the
     addresses ALLOC gave if and only if no buffer with an address is one of these.
     */
    method Start(bus: seq<Addr>, granted: nat, record: bool, accepted: bool) returns (err: int)
      requires Valid() && |bus| == Pow2(k)
      modifies this`blockFirst, this`blockScanned, this`running, this`transferQueued, desc, descCopy, descDma, bufDma, present
      ensures Valid()
      ensures err == if !bufReady then -EINVAL else if granted >= Pow2(k) && record then 0 else -ENOMEM
      ensures err == -EINVAL ==> unchanged(this, desc, descCopy, descDma, bufDma, present)
      ensures err != -EINVAL ==> blockFirst == 0 && blockScanned == 0
      ensures var queued := err == 0 && accepted;
        running == (queued || old(running)) && transferQueued == (queued || old(transferQueued))
      ensures err != -EINVAL ==> bufDma[..] == BufsAfter(old(bufDma[..]), old(present[..]), granted)
      ensures err != -EINVAL ==>
        present[..] == if granted >= Pow2(k) && !record then NonePresent(Pow2(k)) else PresentAfter(old(present[..]), granted)
      ensures err == 0 ==> RingPublished(bus)
      ensures err == 0 ==> (Targets(desc[..]) == old(bufDma[..]) <==> NoneLost(old(bufDma[..]), old(present[..])))
    {
      if !bufReady {
        return -EINVAL;
      }
      blockFirst, blockScanned := 0, 0;
      var ok := PrepareTransfer(bus, granted, record);
      if !ok {
        return -ENOMEM;
      }
      Submit(accepted);
      return 0;
    }

    /** transfer_queue: the engine may refuse. */
    method Submit(accepted: bool)
      modifies this`running, this`transferQueued
      ensures running == (accepted || old(running)) && transferQueued == (accepted || old(transferQueued))
    {
      if accepted {
        running := true;
        transferQueued := true;
      }
    }

    /** Every slot is published with its new bus address, and every copy is saved. */
    ghost predicate RingPublished(bus: seq<Addr>)
      requires OneEachSlot() && |bus| == Pow2(k)
      reads desc, descCopy, descDma, bufDma
    {
      && desc[..] == descCopy[..] && Targets(desc[..]) == bufDma[..]
      && forall i :: 0 <= i < Pow2(k) ==> descDma[i] == bus[i] && Published(i, desc[i])
    }

    /** The ring and the transfer record; without the record the descriptors are freed. */
    method PrepareTransfer(bus: seq<Addr>, granted: nat, record: bool) returns (ok: bool)
      requires Valid() && |bus| == Pow2(k)
      modifies desc, descCopy, descDma, bufDma, present
      ensures ok <==> granted >= Pow2(k) && record
      ensures bufDma[..] == BufsAfter(old(bufDma[..]), old(present[..]), granted)
      ensures present[..] ==
        if granted >= Pow2(k) && !record then NonePresent(Pow2(k)) else PresentAfter(old(present[..]), granted)
      ensures ok ==> RingPublished(bus)
      ensures ok ==> (Targets(desc[..]) == old(bufDma[..]) <==> NoneLost(old(bufDma[..]), old(present[..])))
    {
      AddressesKeptIff(bufDma[..], present[..]);
      ok := PublishRing(bus, granted);
      if ok && !record {
        Discard();
        ok := false;
      }
    }

    /** Building the ring, up to the allocation of the transfer record. */
    method PublishRing(bus: seq<Addr>, granted: nat) returns (ok: bool)
      requires Valid() && |bus| == Pow2(k)
      modifies desc, descCopy, descDma, bufDma, present
      ensures ok <==> granted >= Pow2(k)
      ensures bufDma[..] == BufsAfter(old(bufDma[..]), old(present[..]), granted)
      ensures present[..] == PresentAfter(old(present[..]), granted)
      ensures ok ==> RingPublished(bus)
    {
      ok := AllocateRing(bus, granted);
      if ok {
        FillRing();
      }
    }

    /** LinkRing, with the arrays as sequences. */
    method AllocateRing(bus: seq<Addr>, granted: nat) returns (ok: bool)
      requires Valid() && |bus| == Pow2(k)
      modifies desc, descDma, bufDma, present
      ensures ok <==> granted >= Pow2(k)
      ensures bufDma[..] == BufsAfter(old(bufDma[..]), old(present[..]), granted)
      ensures present[..] == PresentAfter(old(present[..]), granted)
      ensures ok ==> forall i :: 0 <= i < Pow2(k) ==>
        descDma[i] == bus[i] && desc[i].control == DESC_MAGIC && desc[i].Next() == descDma[NextSlot(i, k)]
    {
      ok := LinkRing(bus, granted);
    }

    /** Freeing the whole ring again. */
    method Discard()
      requires Valid()
      modifies descDma, present
      ensures present[..] == NonePresent(Pow2(k)) && forall i :: 0 <= i < Pow2(k) ==> descDma[i] == 0
      ensures bufDma[..] == old(bufDma[..])
    {
      var i := 0;
      while i < Pow2(k)
        invariant 0 <= i <= Pow2(k) && bufDma[..] == old(bufDma[..])
        invariant forall j :: 0 <= j < i ==> !present[j] && descDma[j] == 0
      {
        present[i] := false;
        descDma[i] := 0;
        i := i + 1;
      }
    }

    /**
     wz_engine_service_cyclic_interrupt: the scan, and at its end the shutdown of an
     engine that is no longer busy. The loop need not end; the method makes at most
     `rounds` rounds of it and says whether the call is over.
     */
    method ServiceCyclicInterrupt(busy: bool, rounds: nat) returns (ended: bool)
      requires Valid()
      modifies this`blockFirst, this`blockScanned, this`kfifo, this`running, this`transferQueued
      ensures Valid()
      ensures var l := AfterRounds(desc[..], k, fifoCap,
          Loop(old(Scan(blockFirst, blockScanned, kfifo)), Some(old(blockScanned))), rounds);
        Scan(blockFirst, blockScanned, kfifo) == l.st && ended == l.check.None?
      ensures running == (old(running) && (busy || !ended))
      ensures transferQueued == (old(transferQueued) && (busy || !ended || !old(running)))
    {
      var check := ScanRing(rounds);
      ended := check.None?;
      if ended && running && !busy {
        if transferQueued {
          transferQueued := false;
        }
        running := false;
      }
    }

    /** The scan loop. */
    method ScanRing(rounds: nat) returns (check: Option<nat>)
      requires Valid()
      modifies this`blockFirst, this`blockScanned, this`kfifo
      ensures Valid()
      ensures Loop(Scan(blockFirst, blockScanned, kfifo), check) == AfterRounds(desc[..], k, fifoCap,
        Loop(old(Scan(blockFirst, blockScanned, kfifo)), Some(old(blockScanned))), rounds)
    {
      ghost var all := AfterRounds(desc[..], k, fifoCap, Loop(Scan(blockFirst, blockScanned, kfifo), Some(blockScanned)), rounds);
      var left := rounds;
      check := Some(blockScanned);
      while left > 0 && check.Some?
        invariant Valid() && (check.Some? ==> check.value < Pow2(k))
        invariant Leads(Loop(Scan(blockFirst, blockScanned, kfifo), check), left, all)
        decreases left
      {
        check := ScanOnce(check.value, left, all);
        left := left - 1;
      }
    }

    /** `left` more rounds lead from l to `all`. */
    ghost predicate Leads(l: Loop, left: nat, all: Loop)
      requires OneEachSlot()
      reads desc
    {
      InRing(l, k) && AfterRounds(desc[..], k, fifoCap, l, left) == all
    }

    method ScanOnce(checkDesc: nat, ghost left: nat, ghost all: Loop) returns (next: Option<nat>)
      requires Valid() && checkDesc < Pow2(k) && left > 0
      requires Leads(Loop(Scan(blockFirst, blockScanned, kfifo), Some(checkDesc)), left, all)
      modifies this`blockFirst, this`blockScanned, this`kfifo
      ensures Valid() && (next.Some? ==> next.value < Pow2(k))
      ensures Leads(Loop(Scan(blockFirst, blockScanned, kfifo), next), left - 1, all)
    {
      ghost var before := Loop(Scan(blockFirst, blockScanned, kfifo), Some(checkDesc));
      next := ScanSlot(checkDesc);
      OneRound(desc[..], k, fifoCap, before, Loop(Scan(blockFirst, blockScanned, kfifo), next), left);
    }

    /** One round of the scan loop: the slot to examine next, if it goes on. */
    method ScanSlot(checkDesc: nat) returns (next: Option<nat>)
      requires Valid() && checkDesc < Pow2(k)
      modifies this`blockFirst, this`blockScanned, this`kfifo
      ensures Valid() && (next.Some? ==> next.value < Pow2(k))
      ensures Loop(Scan(blockFirst, blockScanned, kfifo), next)
        == ScanRound(desc[..], k, fifoCap, old(Scan(blockFirst, blockScanned, kfifo)), checkDesc)
    {
      var cur := desc[checkDesc];
      if !HasWritebackMagic(cur.control) {
        blockScanned := checkDesc;
        return None;
      }
      if HasEop(cur.control) {
        if |kfifo| < fifoCap {
          kfifo := kfifo + [Block(blockFirst, checkDesc, cur.bytes)];
          next := Some(NextSlot(checkDesc, k));
          blockFirst := next.value;
          blockScanned := next.value;
        } else {
          return None;
        }
      } else {
        next := Some(NextSlot(checkDesc, k));
      }
    }

    /**
     ioctl_do_wz_getbuf once its wait is over: a signal has come, or there is a block,
     or the engine has stopped. A block whose copy to the application fails is
     gone from the queue all the same.
     */
    method GetBuf(signalled: bool, copied: bool) returns (r: Option<Block>, err: int)
      requires Valid() && (signalled || kfifo != [] || !running)
      modifies this`kfifo
      ensures Valid()
      ensures err == if signalled then -ERESTARTSYS else if !running then -EIO else if !copied then -EINVAL else 0
      ensures if signalled || !running then r.None? && kfifo == old(kfifo)
        else old(kfifo) != [] && kfifo == old(kfifo)[1..] && r == if copied then Some(old(kfifo)[0]) else None
      ensures err == 0 <==> r.Some?
    {
      if signalled {
        return None, -ERESTARTSYS;
      }
      if !running {
        return None, -EIO;
      }
      var block := kfifo[0];
      kfifo := kfifo[1..];
      if !copied {
        return None, -EINVAL;
      }
      return Some(block), 0;
    }

    /**
     ioctl_do_wz_confirm from a slot of the ring on; the request may not be readable.
     The method makes at most `rounds` rounds of the loop: the call ends if and only if
     `last` is a slot of the ring. Restored, control word last, are the slots it
     has come to, and no other descriptor is touched.
     */
    method Confirm(first: nat, last: nat, readable: bool, rounds: nat) returns (err: int, ended: bool)
      requires Valid() && first < Pow2(k)
      modifies desc
      ensures err == if readable then 0 else -EINVAL
      ensures ended <==> !readable || (last < Pow2(k) && Distance(first, last, k) < rounds)
      ensures forall i :: 0 <= i < Pow2(k) ==>
        desc[i] == if readable && Distance(first, i, k) < rounds && (last < Pow2(k) ==> OnArc(first, last, i, k))
          then descCopy[i] else old(desc[i])
    {
      if !readable {
        return -EINVAL, true;
      }
      err, ended := 0, false;
      var i, n := first, 0;
      ghost var lapped := false;
      SameSlot(first, k);
      while n < rounds && !ended
        invariant 0 <= i < Pow2(k) && n <= rounds
        invariant if lapped then last >= Pow2(k) && n >= Pow2(k) else n == Distance(first, i, k) + (if ended then 1 else 0)
        invariant ended ==> i == last && !lapped
        invariant last < Pow2(k) && !ended ==> n <= Distance(first, last, k)
        invariant forall j :: 0 <= j < Pow2(k) ==>
          desc[j] == if lapped || Distance(first, j, k) < n then descCopy[j] else old(desc[j])
      {
        Restore(i);
        DistanceInjective(first, i, k);
        n := n + 1;
        if i == last {
          ended := true;
        } else {
          DistanceNext(first, i, k);
          if last < Pow2(k) {
            DistanceInjective(first, last, k);
          }
          lapped := lapped || n == Pow2(k);
          i := NextSlot(i, k);
        }
      }
    }

    /** One round of the loop: the control word is written last. */
    method Restore(i: nat)
      requires Valid() && i < Pow2(k)
      modifies desc
      ensures desc[i] == descCopy[i] && forall j :: 0 <= j < Pow2(k) && j != i ==> desc[j] == old(desc[j])
    {
      desc[i] := desc[i].(bytes := descCopy[i].bytes);
      desc[i] := desc[i].(srcLo := descCopy[i].srcLo);
      desc[i] := desc[i].(srcHi := descCopy[i].srcHi);
      desc[i] := desc[i].(dstLo := descCopy[i].dstLo);
      desc[i] := desc[i].(dstHi := descCopy[i].dstHi);
      desc[i] := desc[i].(nextLo := descCopy[i].nextLo);
      desc[i] := desc[i].(nextHi := descCopy[i].nextHi);
      desc[i] := desc[i].(control := descCopy[i].control);
    }
  }

  /** START leaves a descriptor in every slot. */
  method StartOnce(w: WzExt, bus: seq<Addr>, accepted: bool) returns (err: int)
    requires w.Valid() && w.bufReady && |bus| == Pow2(w.k)
    modifies w, w.desc, w.descCopy, w.descDma, w.bufDma, w.present
    ensures err == 0 && w.Valid() && w.bufReady && w.present[..] == AllPresent(Pow2(w.k))
  {
    err := w.Start(bus, Pow2(w.k), true, accepted);
  }

  /** START on slots that all have a descriptor. */
  method StartAgain(w: WzExt, bus: seq<Addr>, accepted: bool) returns (err: int)
    requires w.Valid() && w.bufReady && |bus| == Pow2(w.k) && w.present[..] == AllPresent(Pow2(w.k))
    modifies w, w.desc, w.descCopy, w.descDma, w.bufDma, w.present
    ensures err == 0 && w.Valid() && Targets(w.desc[..]) == seq(Pow2(w.k), _ => 0)
  {
    err := w.Start(bus, Pow2(w.k), true, accepted);
  }

  /**
   A second START: whatever addresses the buffers had, every descriptor of the new
   ring sends its data to address 0.
   */
  method StartTwice(w: WzExt, bus1: seq<Addr>, bus2: seq<Addr>, accepted: bool) returns (err: int)
    requires w.Valid() && w.bufReady && |bus1| == |bus2| == Pow2(w.k)
    modifies w, w.desc, w.descCopy, w.descDma, w.bufDma, w.present
    ensures err == 0 && w.Valid() && Targets(w.desc[..]) == seq(Pow2(w.k), _ => 0)
  {
    err := StartOnce(w, bus1, accepted);
    err := StartAgain(w, bus2, accepted);
  }

  lemma LinkMagic()
    ensures (DESC_MAGIC & 0xf0ff) | DESC_MAGIC == DESC_MAGIC
  {
  }

  lemma LinkPoints(d: Desc, bus: Addr)
    requires d.control == DESC_MAGIC
    ensures Link(d, Some(bus)).control == DESC_MAGIC && Link(d, Some(bus)).Next() == bus
  {
    LinkMagic();
    JoinOfHalves(bus);
  }

  lemma NextSlotValue(i: nat, k: nat)
    requires i < Pow2(k)
    ensures NextSlot(i, k) == (if i < Pow2(k) - 1 then i + 1 else 0)
  {
    NextSlotIsMod(i, k);
    if i < Pow2(k) - 1 {
      ModUnique(i + 1, Pow2(k), 0, i + 1);
    } else {
      ModUnique(i + 1, Pow2(k), 1, 0);
    }
  }

  lemma StartControl()
    ensures MergeControl(DESC_MAGIC, COMPLETED) == 0xAD4B_0002
    ensures COMPLETED & 0xff == COMPLETED
  {
  }

  // ----- Arcs of the ring -----

  lemma DistanceInjective(first: nat, i: nat, k: nat)
    requires first < Pow2(k) && i < Pow2(k)
    ensures forall j: nat :: j < Pow2(k) && Distance(first, j, k) == Distance(first, i, k) ==> j == i
  {
    forall j: nat | j < Pow2(k) && Distance(first, j, k) == Distance(first, i, k)
      ensures j == i
    {
      DistanceValue(first, i, k);
      DistanceValue(first, j, k);
    }
  }

  lemma SameSlot(i: nat, k: nat)
    requires i < Pow2(k)
    ensures Distance(i, i, k) == 0
  {
    DistanceValue(i, i, k);
  }

  lemma DistanceNext(first: nat, i: nat, k: nat)
    requires first < Pow2(k) && i < Pow2(k)
    ensures var d := Distance(first, i, k); Distance(first, NextSlot(i, k), k) == if d + 1 == Pow2(k) then 0 else d + 1
  {
    DistanceValue(first, i, k);
    NextSlotIsMod(i, k);
    if i + 1 < Pow2(k) {
      ModUnique(i + 1, Pow2(k), 0, i + 1);
    } else {
      ModUnique(i + 1, Pow2(k), 1, 0);
    }
    DistanceValue(first, NextSlot(i, k), k);
  }

  lemma DistanceValue(a: nat, b: nat, k: nat)
    requires a < Pow2(k) && b < Pow2(k)
    ensures Distance(a, b, k) == (if a <= b then b - a else Pow2(k) + b - a)
  {
    if a <= b {
      ModUnique(b - a, Pow2(k), 0, b - a);
    } else {
      ModUnique(b - a, Pow2(k), -1, Pow2(k) + b - a);
    }
  }

  /** The confirmation of a block restores exactly the slots of its buffers. */
  lemma ArcOfBlock(first: nat, last: nat, lo: nat, j: nat, k: nat)
    requires lo <= first <= last < lo + Pow2(k) && lo <= j < lo + Pow2(k)
    ensures OnArc(Slot(first, k), Slot(last, k), Slot(j, k), k) <==> first <= j <= last
  {
    DistanceOfSlots(first, last, k);
    if first <= j {
      DistanceOfSlots(first, j, k);
    } else {
      SlotPeriod(j, k);
      DistanceOfSlots(first, j + Pow2(k), k);
    }
  }

  // ----- The calls and the protocol -----

  /** After a first START on distinct addresses the session of the protocol is well formed. */
  lemma StartOpensSession(p: Session)
    requires |p.descBus| == |p.bufBus| == |p.saved| == p.N() && p.fifoCap > 0 && p.bufLen > 0
    requires forall i, j :: 0 <= i < j < p.N() ==> p.descBus[i] != p.descBus[j]
    requires forall i, j :: 0 <= i < j < p.N() ==> p.bufBus[i] != p.bufBus[j]
    requires forall i {:trigger p.saved[i]} :: 0 <= i < p.N() ==>
      && p.saved[i].control == 0xAD4B_0002 && p.saved[i].bytes == p.bufLen
      && p.saved[i].Src() == p.descBus[i] && p.saved[i].Dst() == p.bufBus[i]
      && p.saved[i].Next() == p.descBus[NextSlot(i, p.k)]
    ensures p.Valid()
  {
    assert HasDescMagic(0xAD4B_0002);
    forall i | 0 <= i < p.N()
      ensures p.GoodCopy(i)
    {
      assert p.saved[i].control == 0xAD4B_0002;
    }
  }
}

/**
 Completion accounting of the scatter-gather engine (engine_service in
 xdma-core.c): which of the queued transfers a descriptor count from the hardware
 completes, and what several interrupts of one engine run add up to.
 */
module Accounting {
  import opened Words

  datatype TransferState = New | Submitted | Completed | Failed

  /** A submitted transfer; a queue link is its position in the engine's list. */
  class Transfer {
    const descNum: Word
    const cyclic: bool
    var state: TransferState

    constructor (descNum: Word, cyclic: bool)
      ensures this.descNum == descNum && this.cyclic == cyclic && state == New
    {
      this.descNum := descNum;
      this.cyclic := cyclic;
      state := New;
    }
  }

  const STAT_BUSY: bv32 := 0x1
  const STAT_ALIGN_MISMATCH: bv32 := 0x8
  const STAT_MAGIC_STOPPED: bv32 := 0x10
  const STAT_READ_ERROR: bv32 := 0x3E00
  const STAT_DESC_ERROR: bv32 := 0xF8_0000
  const ERR_FLAGS: bv32 := STAT_MAGIC_STOPPED | STAT_ALIGN_MISMATCH | STAT_READ_ERROR | STAT_DESC_ERROR

  /** What the service looks at in the status register. */
  datatype Status = Status(busy: bool, error: bool)

  function ReadStatus(register: bv32): Status {
    Status(register & STAT_BUSY != 0, register & ERR_FLAGS != 0)
  }

  /** The masks 0x00ffffff and 0x80000000 of a writeback word. */
  function WbCount(writeback: Word): Word {
    writeback % 0x100_0000
  }

  predicate WbError(writeback: Word) {
    writeback >= 0x8000_0000
  }

  // ----- What a descriptor count means for a queue -----

  /** The descriptors of the first k transfers. */
  function Total(list: seq<Transfer>, k: nat): nat
    requires k <= |list|
  {
    if k == 0 then 0 else Total(list, k - 1) + list[k - 1].descNum
  }

  /** How many transfers the service loop takes off a queue when c descriptors are done. */
  function Popped(list: seq<Transfer>, c: int, k: nat): (r: nat)
    requires k <= |list|
    ensures k <= r <= |list|
    decreases |list| - k
  {
    if k < |list| && !list[k].cyclic && c > list[k].descNum then Popped(list, c - list[k].descNum, k + 1) else k
  }

  /** A queue of ordinary transfers, each with a descriptor. */
  predicate Ordinary(list: seq<Transfer>) {
    forall i :: 0 <= i < |list| ==> list[i].descNum > 0 && !list[i].cyclic
  }

  lemma {:induction false} TotalGrows(list: seq<Transfer>, i: nat, j: nat)
    requires Ordinary(list) && i <= j <= |list|
    ensures Total(list, i) + (j - i) <= Total(list, j)
  {
    if i < j {
      TotalGrows(list, i, j - 1);
    }
  }

  /** The loop stops in front of the first transfer that the count does not go beyond. */
  lemma {:induction false} PoppedIsCut(list: seq<Transfer>, c: nat, k: nat)
    requires Ordinary(list) && k <= |list| && (k == 0 || Total(list, k) < c)
    ensures var r := Popped(list, c - Total(list, k), k);
      && (r < |list| ==> c <= Total(list, r + 1))
      && (r > 0 ==> Total(list, r) < c)
    decreases |list| - k
  {
    if k < |list| && c - Total(list, k) > list[k].descNum {
      PoppedIsCut(list, c, k + 1);
    }
  }

  /** What one service leaves of an error-free queue: the state each transfer ends in. */
  function Verdict(list: seq<Transfer>, c: nat, i: nat): TransferState
    requires i < |list|
  {
    var k := Popped(list, c, 0);
    if i < k then Completed
    else if i == k then (if c - Total(list, k) < list[k].descNum then Failed else Completed)
    else Submitted
  }

  /**
   Completed are exactly the transfers all of whose descriptors are counted. Failed
   is at most one: the transfer the count ends inside, or the head if nothing at
   all has been done.
   */
  lemma VerdictExact(list: seq<Transfer>, c: nat, i: nat)
    requires Ordinary(list) && i < |list|
    ensures Verdict(list, c, i).Completed? <==> Total(list, i + 1) <= c
    ensures Verdict(list, c, i).Failed? <==> c < Total(list, i + 1) && (Total(list, i) < c || (i == 0 && c == 0))
  {
    var k := Popped(list, c, 0);
    PoppedIsCut(list, c, 0);
    if i < k {
      TotalGrows(list, i + 1, k);
    } else if i > k {
      TotalGrows(list, k + 1, i);
    }
  }

  lemma AtMostOneFails(list: seq<Transfer>, c: nat, i: nat, j: nat)
    requires Ordinary(list) && i < j < |list|
    ensures !(Verdict(list, c, i).Failed? && Verdict(list, c, j).Failed?)
    ensures Verdict(list, c, j).Completed? ==> Verdict(list, c, i).Completed?
  {
    VerdictExact(list, c, i);
    VerdictExact(list, c, j);
    TotalGrows(list, i + 1, j);
  }

  /** The assertion on the current transfer fires exactly when the queue is empty or counted out. */
  lemma BugIff(list: seq<Transfer>, c: nat)
    requires Ordinary(list)
    ensures Popped(list, c, 0) == |list| <==> |list| == 0 || c > Total(list, |list|)
  {
    PoppedIsCut(list, c, 0);
    var k := Popped(list, c, 0);
    if k < |list| {
      TotalGrows(list, k + 1, |list|);
    }
  }

  // ----- Several services of one engine run -----

  /** The queue and the 32-bit count of descriptors dequeued since the engine was started. */
  datatype Queue = Queue(list: seq<Transfer>, dequeued: Word)

  function AddTotal(dequeued: Word, list: seq<Transfer>, k: nat): Word
    requires k <= |list|
  {
    if k == 0 then dequeued else AddWord(AddTotal(dequeued, list, k - 1), list[k - 1].descNum)
  }

  /** An error-free service with hardware count `count`; None if an assertion fires. */
  function Serve(q: Queue, count: Word): Option<Queue> {
    var k := Popped(q.list, SubWord(count, q.dequeued), 0);
    if k == |q.list| then None
    else Some(Queue(q.list[k + 1..], AddTotal(q.dequeued, q.list, k + 1)))
  }

  lemma {:induction false} AddTotalIsTotal(dequeued: Word, list: seq<Transfer>, k: nat)
    requires k <= |list| && Total(list, k) < TWO_32
    ensures AddTotal(dequeued, list, k) == AddWord(dequeued, Total(list, k))
  {
    if k > 0 {
      AddTotalIsTotal(dequeued, list, k - 1);
    }
  }

  lemma {:induction false} TotalOfRest(list: seq<Transfer>, k: nat, j: nat)
    requires k + j <= |list|
    ensures Total(list[k..], j) == Total(list, k + j) - Total(list, k)
  {
    if j > 0 {
      TotalOfRest(list, k, j - 1);
    }
  }

  /** A 32-bit count c ahead of the dequeued one, whatever both have wrapped to. */
  lemma CountAhead(dequeued: Word, c: Word)
    ensures SubWord(AddWord(dequeued, c), dequeued) == c
  {
  }

  lemma CountAheadOf(dequeued: Word, done: Word, c: Word)
    ensures SubWord(AddWord(dequeued, c), AddWord(dequeued, done)) == SubWord(c, done)
    ensures c >= done ==> AddWord(AddWord(dequeued, done), c - done) == AddWord(dequeued, c)
  {
  }

  lemma PoppedAtBoundary(list: seq<Transfer>, j: nat)
    requires Ordinary(list) && 0 < j <= |list|
    ensures Popped(list, Total(list, j), 0) == j - 1
  {
    var c := Total(list, j);
    var k := Popped(list, c, 0);
    PoppedIsCut(list, c, 0);
    if k < j - 1 {
      TotalGrows(list, k + 1, j);
    } else if k >= j {
      TotalGrows(list, j, k);
    }
  }

  /** A count at the end of transfer j takes exactly the first j transfers. */
  lemma ServeBoundary(q: Queue, j: nat)
    requires Ordinary(q.list) && 0 < j <= |q.list| && Total(q.list, j) < TWO_32
    ensures Serve(q, AddWord(q.dequeued, Total(q.list, j)))
      == Some(Queue(q.list[j..], AddWord(q.dequeued, Total(q.list, j))))
  {
    CountAhead(q.dequeued, Total(q.list, j));
    PoppedAtBoundary(q.list, j);
    AddTotalIsTotal(q.dequeued, q.list, j);
  }

  /**
   How the work is spread over interrupts does not matter as long as each finds the
   count at the end of a transfer: serving the first i transfers and then the
   first j is serving the first j.
   */
  lemma ServiceComposes(q: Queue, i: nat, j: nat, ci: Word, cj: Word)
    requires Ordinary(q.list) && 0 < i < j <= |q.list| && Total(q.list, i) == ci && Total(q.list, j) == cj
    ensures var first := Serve(q, AddWord(q.dequeued, ci));
      first.Some? && Serve(first.value, AddWord(q.dequeued, cj)) == Serve(q, AddWord(q.dequeued, cj))
  {
    ServeBoundary(q, i);
    ServeBoundary(q, j);
    RestBoundary(q.list, i, j);
    ServeLater(q.list[i..], j - i, q.dequeued, ci, cj, q.list[j..]);
  }

  /** The rest of a queue, `a` descriptors after the count at which the whole queue began. */
  lemma ServeLater(list: seq<Transfer>, j: nat, dequeued: Word, a: Word, b: Word, rest: seq<Transfer>)
    requires Ordinary(list) && 0 < j <= |list| && rest == list[j..] && a <= b && Total(list, j) == b - a
    ensures Serve(Queue(list, AddWord(dequeued, a)), AddWord(dequeued, b)) == Some(Queue(rest, AddWord(dequeued, b)))
  {
    CountAheadOf(dequeued, a, b);
    ServeAt(Queue(list, AddWord(dequeued, a)), j, AddWord(dequeued, b), rest);
  }

  lemma ServeAt(q: Queue, j: nat, count: Word, rest: seq<Transfer>)
    requires Ordinary(q.list) && 0 < j <= |q.list| && rest == q.list[j..] && Total(q.list, j) < TWO_32
    requires count == AddWord(q.dequeued, Total(q.list, j))
    ensures Serve(q, count) == Some(Queue(rest, count))
  {
    ServeBoundary(q, j);
  }

  lemma RestBoundary(list: seq<Transfer>, i: nat, j: nat)
    requires Ordinary(list) && i <= j <= |list|
    ensures Ordinary(list[i..]) && list[i..][j - i..] == list[j..]
    ensures 0 <= Total(list, j) - Total(list, i) == Total(list[i..], j - i)
  {
    TotalGrows(list, i, j);
    TotalOfRest(list, i, j - i);
    RestIsOrdinary(list, i);
  }

  lemma RestIsOrdinary(list: seq<Transfer>, k: nat)
    requires Ordinary(list) && k <= |list|
    ensures Ordinary(list[k..])
  {
  }

  /**
   A service in the middle of a transfer takes the whole transfer off the queue. The
   next service of the same run hits the assertion if and only if nothing is left
   or the hardware still has not finished that transfer.
   */
  lemma ServiceAfterPartial(q: Queue, c1: Word, c2: Word)
    requires Ordinary(q.list) && |q.list| > 0 && c1 <= c2 <= Total(q.list, |q.list|) < TWO_32
    ensures var first := Serve(q, AddWord(q.dequeued, c1));
      var k := Popped(q.list, c1, 0);
      && k < |q.list| && first.Some?
      && (Serve(first.value, AddWord(q.dequeued, c2)).None? <==> k + 1 == |q.list| || c2 < Total(q.list, k + 1))
  {
    CountAhead(q.dequeued, c1);
    BugIff(q.list, c1);
    var k := Popped(q.list, c1, 0);
    var taken := Total(q.list, k + 1);
    TotalGrows(q.list, k + 1, |q.list|);
    AddTotalIsTotal(q.dequeued, q.list, k + 1);
    CountAheadOf(q.dequeued, taken, c2);
    RestCountedOut(q.list, k + 1, SubWord(c2, taken));
  }

  lemma RestCountedOut(list: seq<Transfer>, k: nat, c: nat)
    requires Ordinary(list) && k <= |list|
    ensures Popped(list[k..], c, 0) == |list[k..]| <==> k == |list| || c > Total(list, |list|) - Total(list, k)
  {
    RestIsOrdinary(list, k);
    TotalOfRest(list, k, |list| - k);
    BugIff(list[k..], c);
  }

  // ----- The engine -----

  predicate Distinct(list: seq<Transfer>) {
    forall i, j :: 0 <= i < j < |list| ==> list[i] != list[j]
  }

  class Engine {
    var transferList: seq<Transfer>
    var descDequeued: Word
    var running: bool
    var shutdownRequested: bool
    var status: Status

    constructor ()
      ensures transferList == [] && descDequeued == 0 && !running && !shutdownRequested
    {
      transferList := [];
      descDequeued := 0;
      running := false;
      shutdownRequested := false;
      status := Status(false, false);
    }

    /** engine_start: the engine must be idle and have work. */
    method Start()
      requires !running && transferList != []
      modifies this`running, this`descDequeued, this`shutdownRequested
      ensures running && descDequeued == 0 && !shutdownRequested
    {
      shutdownRequested := false;
      descDequeued := 0;
      running := true;
    }

    /** transfer_queue */
    method Enqueue(t: Transfer) returns (rc: int)
      requires t.descNum > 0 && t !in transferList && Distinct(transferList)
      modifies this, t
      ensures shutdownRequested == old(shutdownRequested)
      ensures if old(shutdownRequested) then
          rc == -1 && transferList == old(transferList) && t.state == old(t.state) && running == old(running)
        else
          rc == 0 && transferList == old(transferList) + [t] && t.state == Submitted && running
      ensures descDequeued == if old(shutdownRequested || running) then old(descDequeued) else 0
      ensures Distinct(transferList)
    {
      rc := 0;
      if shutdownRequested {
        rc := -1;
      } else {
        t.state := Submitted;
        transferList := transferList + [t];
        if !running {
          Start();
        }
      }
    }

    /** engine_service_transfer_list: everything but the last transfer of this count. */
    method ServiceTransferList(descCompleted: Word) returns (transfer: Transfer?, left: Word)
      requires transferList != [] && Distinct(transferList)
      modifies this`transferList, this`descDequeued, transferList
      ensures var list := old(transferList);
        var k := Popped(list, descCompleted, 0);
        && transferList == list[k..]
        && left == descCompleted - Total(list, k)
        && descDequeued == AddTotal(old(descDequeued), list, k)
        && transfer == (if k < |list| then list[k] else null)
        && (forall i :: 0 <= i < k ==> list[i].state == Completed)
        && (forall i :: k <= i < |list| ==> list[i].state == old(list[i].state))
    {
      transfer, left := transferList[0], descCompleted;
      ghost var list, k := transferList, 0;
      while transfer != null && !transfer.cyclic && left > transfer.descNum
        invariant 0 <= k <= |list| && transferList == list[k..]
        invariant transfer == if k < |list| then list[k] else null
        invariant left == descCompleted - Total(list, k)
        invariant Popped(list, left, k) == Popped(list, descCompleted, 0)
        invariant descDequeued == AddTotal(old(descDequeued), list, k)
        invariant forall i :: 0 <= i < k ==> list[i].state == Completed
        invariant forall i :: k <= i < |list| ==> list[i].state == old(list[i].state)
        decreases |list| - k
      {
        left := left - transfer.descNum;
        transferList := transferList[1..];
        descDequeued := AddWord(descDequeued, transfer.descNum);
        transfer.state := Completed;
        k := k + 1;
        if transferList != [] {
          transfer := transferList[0];
        } else {
          transfer := null;
        }
      }
    }

    /** engine_service_final_transfer */
    method ServiceFinalTransfer(transfer: Transfer, left: Word)
      requires transferList != [] && transferList[0] == transfer
      modifies this`transferList, this`descDequeued, transfer
      ensures if status.error then
          transfer.state == Failed && transferList == old(transferList) && descDequeued == old(descDequeued)
        else
          && transfer.state == (if left < transfer.descNum then Failed else Completed)
          && transferList == old(transferList)[1..]
          && descDequeued == AddWord(old(descDequeued), transfer.descNum)
    {
      if status.error {
        transfer.state := Failed;
        return;
      }
      if left < transfer.descNum {
        transfer.state := Failed;
      } else {
        transfer.state := Completed;
      }
      transferList := transferList[1..];
      descDequeued := AddWord(descDequeued, transfer.descNum);
    }

    /** engine_service_resume; an acknowledged shutdown request stays set. */
    method Resume()
      modifies this`running, this`descDequeued, this`shutdownRequested
      ensures var restart := !old(running) && !old(shutdownRequested) && transferList != [];
        && running == (old(running) || restart)
        && descDequeued == (if restart then 0 else old(descDequeued))
        && shutdownRequested == old(shutdownRequested)
    {
      if !running && !shutdownRequested && transferList != [] {
        Start();
      }
    }

    /**
     What one service of queue `list` with c descriptors done has changed: the
     verdicts, except that an error flag fails the current transfer and keeps it.
     */
    twostate predicate Accounted(list: seq<Transfer>, c: nat, error: bool)
      reads this, list
    {
      var k := Popped(list, c, 0);
      && k < |list| && transferList == list[if error then k else k + 1..]
      && (forall i :: 0 <= i < k ==> list[i].state == Verdict(list, c, i) == Completed)
      && list[k].state == (if error then Failed else Verdict(list, c, k))
      && (forall i :: k < i < |list| ==> list[i].state == old(list[i].state))
    }

    method Account(descCompleted: Word) returns (bug: bool)
      requires Distinct(transferList)
      modifies this`transferList, this`descDequeued, transferList
      ensures bug <==> Popped(old(transferList), descCompleted, 0) == |old(transferList)|
      ensures !bug ==> Accounted(old(transferList), descCompleted, status.error)
      ensures !bug ==> descDequeued == AddTotal(old(descDequeued), old(transferList),
        Popped(old(transferList), descCompleted, 0) + if status.error then 0 else 1)
    {
      if transferList == [] {
        return true;
      }
      var transfer, left := ServiceTransferList(descCompleted);
      if transfer == null {
        return true;
      }
      ServiceFinalTransfer(transfer, left);
      bug := false;
    }

    /**
     engine_service. The count and an error flag come in the word the caller passes or,
     if its count is zero, the count comes from the hardware, and so does the status.
     `bug` says that an assertion on the current transfer fires, which ends the call.
     */
    method Service(writeback: Word, hwStatus: bv32, hwCount: Word) returns (rc: int, bug: bool)
      requires Distinct(transferList)
      modifies this, transferList
      ensures rc == if WbError(writeback) && old(running) then -1 else 0
      ensures !old(running) ==>
        && !bug && transferList == old(transferList) && descDequeued == old(descDequeued) && !running
        && status == if writeback == 0 then ReadStatus(hwStatus) else old(status)
      ensures old(running) ==>
        status == if WbCount(writeback) == 0 || WbError(writeback) then ReadStatus(hwStatus) else old(status)
      ensures old(running) ==>
        var list := old(transferList);
        var c := SubWord(if WbCount(writeback) == 0 then hwCount else WbCount(writeback), old(descDequeued));
        && (bug <==> Popped(list, c, 0) == |list|)
        && (!bug ==> Accounted(list, c, status.error))
      ensures old(running) && !bug ==>
        var stopped := !status.busy || WbCount(writeback) != 0;
        var restart := stopped && !old(shutdownRequested) && transferList != [];
        && running == (!stopped || restart)
        && (restart ==> descDequeued == 0)
        && (!restart && !status.error ==>
              Serve(Queue(old(transferList), old(descDequeued)), if WbCount(writeback) == 0 then hwCount else WbCount(writeback))
                == Some(Queue(transferList, descDequeued)))
    {
      var wbCount, wbError := WbCount(writeback), WbError(writeback);
      if !running {
        if writeback == 0 {
          status := ReadStatus(hwStatus);
        }
        return 0, false;
      }
      rc, bug := ServiceRunning(wbCount, wbError, hwStatus, hwCount);
    }

    /** engine_service of a running engine. */
    method ServiceRunning(wbCount: Word, wbError: bool, hwStatus: bv32, hwCount: Word) returns (rc: int, bug: bool)
      requires Distinct(transferList) && running
      modifies this, transferList
      ensures rc == if wbError then -1 else 0
      ensures status == if wbCount == 0 || wbError then ReadStatus(hwStatus) else old(status)
      ensures
        var list := old(transferList);
        var c := SubWord(if wbCount == 0 then hwCount else wbCount, old(descDequeued));
        && (bug <==> Popped(list, c, 0) == |list|)
        && (!bug ==> Accounted(list, c, status.error))
      ensures !bug ==>
        var stopped := !status.busy || wbCount != 0;
        var restart := stopped && !old(shutdownRequested) && transferList != [];
        && running == (!stopped || restart)
        && (restart ==> descDequeued == 0)
        && (!restart && !status.error ==>
              Serve(Queue(old(transferList), old(descDequeued)), if wbCount == 0 then hwCount else wbCount)
                == Some(Queue(transferList, descDequeued)))
    {
      rc := if wbError then -1 else 0;
      Latch(wbCount, wbError, hwStatus);
      bug := Account(SubWord(if wbCount == 0 then hwCount else wbCount, descDequeued));
      if !bug {
        Resume();
      }
    }

    /** Reading the status, and noting that the hardware has stopped. */
    method Latch(wbCount: Word, wbError: bool, hwStatus: bv32)
      requires running
      modifies this`status, this`running
      ensures status == if wbCount == 0 || wbError then ReadStatus(hwStatus) else old(status)
      ensures running == (status.busy && wbCount == 0)
    {
      if wbCount == 0 || wbError {
        status := ReadStatus(hwStatus);
      }
      if !status.busy || wbCount != 0 {
        running := false;
      }
    }
  }
}

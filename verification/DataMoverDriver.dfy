/**
 The ioctls and the interrupt handler of the first driver version (axi4s2dmov.c), over
 its global arrays.
 */
module DataMoverDriver {
  import opened Words
  import opened DataMoverWords
  import opened DataMover
  import opened DataMoverTheorems

  const EINVAL := 22
  const SUCCESS := 0

  /** What the receive FIFO holds: the length of a packet and its first word. */
  datatype Response = Response(length: nat, word: bv32)

  predicate Good(r: Response) {
    r.length == 4 && Okay(r.word)
  }

  /** The handler reads up to the first response that is not an OKAY status. */
  function GoodPrefix(rs: seq<Response>): (k: nat)
    ensures k <= |rs| && (forall i :: 0 <= i < k ==> Good(rs[i])) && (k < |rs| ==> !Good(rs[k]))
  {
    if rs != [] && Good(rs[0]) then 1 + GoodPrefix(rs[1..]) else 0
  }

  function Decode(r: Response): Status<bv32> {
    Status(NBuf(r.word) as nat, BLen(r.word))
  }

  ghost predicate TagsBelow(rs: seq<Response>, n: nat) {
    forall i :: 0 <= i < |rs| ==> Decode(rs[i]).tag < n
  }

  /** The handler's rounds for the first k responses. */
  ghost function HandleAll(d: Driver<bv32>, rs: seq<Response>, k: nat, n: nat): (r: Driver<bv32>)
    requires Sized(d, n) && k <= |rs| && TagsBelow(rs, n)
    ensures Sized(r, n)
  {
    if k == 0 then d else Handle(HandleAll(d, rs, k - 1, n), Decode(rs[k - 1]), n)
  }

  class Axi4s2Dmov {
    const n: nat
    const bready: array<bool>
    const blen: array<bv32>
    var receivedBuf: nat
    var expBuf: nat
    var isStarted: bool
    var commands: seq<nat>

    ghost predicate Valid()
      reads this, bready, blen
    {
      && 0 < n <= 16 && Sized(State(), n) && (bready as object) != (blen as object)
      && forall b :: 0 <= b < n ==> blen[b] < 0x40_0000
    }

    ghost function State(): Driver<bv32>
      reads this, bready, blen
    {
      Driver(bready[..], blen[..], receivedBuf, expBuf, commands)
    }

    /** Tags have four bits, so there can be no more than 16 buffers. */
    constructor (n: nat)
      requires 0 < n <= 16
      ensures Valid() && this.n == n && !isStarted && commands == [] && fresh(bready) && fresh(blen)
    {
      this.n := n;
      bready := new bool[n](_ => false);
      blen := new bv32[n](_ => 0);
      receivedBuf, expBuf, isStarted, commands := 0, 0, false, [];
    }

    method TransferBuf(i: nat)
      modifies this`commands
      ensures commands == old(commands) + [i]
    {
      commands := commands + [i];
    }

    /** ADM_START. With an empty command FIFO the ring is as the protocol starts it; the lengths are left as they were. */
    method Start() returns (res: int)
      requires Valid()
      modifies this, bready
      ensures Valid()
      ensures res == if old(isStarted) then -EINVAL else SUCCESS
      ensures old(isStarted) ==> State() == old(State())
      ensures !old(isStarted) ==>
        && isStarted
        && State() == Started(n, blen[..]).d.(commands := old(commands) + Started(n, blen[..]).d.commands)
    {
      if isStarted {
        return -EINVAL;
      }
      expBuf := 0;
      receivedBuf := 0;
      for i := 0 to n
        invariant forall k :: 0 <= k < i ==> !bready[k]
        invariant expBuf == 0 && receivedBuf == 0 && commands == old(commands)
      {
        bready[i] := false;
      }
      ghost var none := bready[..];
      for i := 0 to n
        invariant bready[..] == none && commands == old(commands) + seq(i, (k: nat) => k)
        invariant expBuf == 0 && receivedBuf == 0
      {
        TransferBuf(i);
        assert seq(i + 1, (k: nat) => k) == seq(i, (k: nat) => k) + [i];
      }
      isStarted := true;
      res := SUCCESS;
      assert forall k :: 0 <= k < n ==> bready[..][k] == seq(n, _ => false)[k];
    }

    /**
     ADM_GET: an answer exactly when the next buffer is ready, and from it the
     application reads the buffer's number and length. None is a sleep, which
     only a signal or the handler ends.
     */
    method Get() returns (res: Option<bv32>)
      requires Valid()
      ensures res.Some? <==> bready[receivedBuf]
      ensures res.Some? ==> Unpacks(res.value, receivedBuf, blen[receivedBuf])
    {
      res := None;
      if bready[receivedBuf] {
        PackedIsRight(receivedBuf, blen[receivedBuf]);
        res := Some(Pack(receivedBuf as bv32, blen[receivedBuf]));
      }
    }

    /** ADM_CONFIRM */
    method Confirm() returns (res: int)
      requires Valid()
      modifies this`receivedBuf, this`commands, bready, blen
      ensures Valid()
      ensures if old(bready[receivedBuf]) then res == SUCCESS && State() == Confirmed(old(State()), n, 0)
        else res == -EINVAL && State() == old(State())
      ensures old(bready[receivedBuf]) ==>
        && !bready[old(receivedBuf)] && blen[old(receivedBuf)] == 0 && commands == old(commands) + [old(receivedBuf)]
        && receivedBuf == (if old(receivedBuf) + 1 == n then 0 else old(receivedBuf) + 1) && expBuf == old(expBuf)
    {
      if !bready[receivedBuf] {
        return -EINVAL;
      }
      ghost var r := receivedBuf;
      blen[receivedBuf] := 0;
      bready[receivedBuf] := false;
      TransferBuf(receivedBuf);
      receivedBuf := receivedBuf + 1;
      if receivedBuf == n {
        receivedBuf := 0;
      }
      res := SUCCESS;
      assert blen[..] == old(blen[..])[r := 0];
      assert bready[..] == old(bready[..])[r := false];
    }

    /** Recording one status. */
    method Take(res: bv32, ghost st: Status<bv32>)
      requires Valid() && st == Status(NBuf(res) as nat, BLen(res)) && st.tag < n
      modifies this`expBuf, bready, blen
      ensures Valid() && State() == Handle(old(State()), st, n)
    {
      LengthBelow(res);
      var nbuf := NBuf(res) as nat;
      blen[nbuf] := BLen(res);
      bready[nbuf] := true;
      expBuf := expBuf + 1;
      if expBuf == n {
        expBuf := 0;
      }
      assert blen[..] == old(blen[..])[nbuf := BLen(res)];
      assert bready[..] == old(bready[..])[nbuf := true];
    }

    /**
     tst1_irq with the responses the FIFO holds. It stops at the first response that is
     not an OKAY status, having read that one if its length was right.
     */
    method Irq(pending: bool, responses: seq<Response>) returns (handled: bool, left: seq<Response>)
      requires Valid() && TagsBelow(responses, n)
      modifies this`expBuf, bready, blen
      ensures Valid() && handled == pending
      ensures !pending ==> State() == old(State()) && left == responses
      ensures pending ==>
        var k := GoodPrefix(responses);
        && State() == HandleAll(old(State()), responses, k, n)
        && left == responses[if k < |responses| && responses[k].length == 4 then k + 1 else k..]
    {
      left := responses;
      if !pending {
        return false, left;
      }
      ghost var k := 0;
      while left != []
        invariant k <= |responses| && left == responses[k..]
        invariant GoodPrefix(responses) == k + GoodPrefix(left)
        invariant Valid() && State() == HandleAll(old(State()), responses, k, n)
        decreases |left|
      {
        var head := left[0];
        assert head == responses[k];
        if head.length != 4 {
          break;
        }
        var res := head.word;
        left := left[1..];
        if !Okay(res) {
          break;
        }
        Take(res, Decode(head));
        k := k + 1;
      }
      handled := true;
    }
  }
  // ----- The calls within the protocol -----

  /**
   In every interleaving, what GET answers unpacks to the buffer and the length of the
   oldest transfer that nobody has confirmed.
   */
  lemma GetAnswersNext(s: State<bv32>, res: bv32)
    requires Reachable(s) && s.app.Free? && Sized(s.d, s.n) && s.d.bready[s.d.receivedBuf]
    requires Unpacks(res, s.d.receivedBuf, s.d.blen[s.d.receivedBuf])
    ensures s.confirmed < |s.served| && Unpacks(res, Buf(s.confirmed, s.n), s.served[s.confirmed])
  {
    GetDelivers(s);
  }

  /** Responses that carry the first unread statuses of the protocol. */
  ghost predicate Carries(s: State<bv32>, rs: seq<Response>) {
    |rs| <= |s.statuses| && forall i :: 0 <= i < |rs| ==> Decode(rs[i]) == s.statuses[i]
  }

  lemma CarriedTags(s: State<bv32>, rs: seq<Response>)
    requires Inv(s) && Carries(s, rs)
    ensures Sized(s.d, s.n) && TagsBelow(rs, s.n)
  {
    forall i | 0 <= i < |rs|
      ensures Decode(rs[i]).tag < s.n
    {
      assert s.statuses[i] == Status(Buf(Taken(s) + i, s.n), s.served[Taken(s) + i]);
    }
  }

  /** The state after the handler's first k rounds. */
  ghost function Drained(s: State<bv32>, rs: seq<Response>, k: nat): State<bv32>
    requires Sized(s.d, s.n) && k <= |rs| <= |s.statuses| && TagsBelow(rs, s.n)
  {
    s.(d := HandleAll(s.d, rs, k, s.n), statuses := s.statuses[k..], handled := s.handled + k)
  }

  /** What one call of the handler does is a run of the protocol. */
  lemma {:induction false} HandlerDrains(s: State<bv32>, rs: seq<Response>, k: nat) returns (steps: seq<Step<bv32>>)
    requires Inv(s) && s.irq.Waiting? && Carries(s, rs) && k <= |rs|
    ensures Sized(s.d, s.n) && TagsBelow(rs, s.n)
    ensures Run(s, steps, Drained(s, rs, k))
  {
    CarriedTags(s, rs);
    if k == 0 {
      steps := [];
    } else {
      var first := HandlerDrains(s, rs, k - 1);
      var r := Drained(s, rs, k - 1);
      RunInv(s, first, r);
      assert r.statuses[0] == Decode(rs[k - 1]);
      HandlerRound(r);
      var round := [IrqRead, IrqStoreLen, IrqMark, IrqAdvance];
      assert r.statuses[1..] == s.statuses[k..];
      RunAppend(s, first, r, round, Drained(s, rs, k));
      steps := first + round;
    }
  }

  lemma {:induction false} RunAppend(a: State<bv32>, first: seq<Step<bv32>>, b: State<bv32>, rest: seq<Step<bv32>>, c: State<bv32>)
    requires Run(a, first, b) && Run(b, rest, c)
    ensures Run(a, first + rest, c)
    decreases |first|
  {
    if first == [] {
      assert first + rest == rest;
    } else {
      RunAppend(Next(a, first[0]), first[1..], b, rest, c);
      assert (first + rest)[1..] == first[1..] + rest;
    }
  }
}

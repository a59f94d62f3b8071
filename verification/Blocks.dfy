/**
 The device's fill trace and its division into blocks. A block is the run of
 buffers that holds one packet: it ends at the first buffer marked end of
 packet, and the next block starts in the very next buffer.
 */
module Blocks {
  datatype Fill<+T> = Fill(data: seq<T>, eop: bool)

  /** Buffers first..last of the fill trace, both included. */
  datatype Extent = Extent(first: nat, last: nat)

  function BlockStart<T>(fills: seq<Fill<T>>, n: nat): (r: nat)
    requires n <= |fills|
    ensures r <= n
  {
    if n == 0 then 0
    else if fills[n - 1].eop then n
    else BlockStart(fills, n - 1)
  }

  /** The blocks completed within the first n fills. */
  function Cut<T>(fills: seq<Fill<T>>, n: nat): seq<Extent>
    requires n <= |fills|
  {
    if n == 0 then []
    else if fills[n - 1].eop then Cut(fills, n - 1) + [Extent(BlockStart(fills, n - 1), n - 1)]
    else Cut(fills, n - 1)
  }

  function StartOf(blocks: seq<Extent>, b: nat): nat
    requires b <= |blocks|
  {
    if b == 0 then 0 else blocks[b - 1].last + 1
  }

  /** Block b starts where the previous one ended and runs to its first end of packet. */
  ghost predicate GoodBlock<T>(fills: seq<Fill<T>>, n: nat, blocks: seq<Extent>, b: nat)
    requires n <= |fills| && b < |blocks|
  {
    var e := blocks[b];
    && e.first == StartOf(blocks, b)
    && e.first <= e.last < n
    && fills[e.last].eop
    && (forall j :: e.first <= j < e.last ==> !fills[j].eop)
  }

  /** What it means to divide the first n fills into packets, independently of how it is computed. */
  ghost predicate IsDivision<T>(fills: seq<Fill<T>>, n: nat, blocks: seq<Extent>)
    requires n <= |fills|
  {
    && (forall b {:trigger GoodBlock(fills, n, blocks, b)} :: 0 <= b < |blocks| ==> GoodBlock(fills, n, blocks, b))
    && StartOf(blocks, |blocks|) <= n
    && (forall j :: StartOf(blocks, |blocks|) <= j < n ==> !fills[j].eop)
  }

  lemma {:induction false} CutIsDivision<T>(fills: seq<Fill<T>>, n: nat)
    requires n <= |fills|
    ensures IsDivision(fills, n, Cut(fills, n))
    ensures StartOf(Cut(fills, n), |Cut(fills, n)|) == BlockStart(fills, n)
  {
    if n > 0 {
      CutIsDivision(fills, n - 1);
      var before, now := Cut(fills, n - 1), Cut(fills, n);
      forall b | 0 <= b < |now|
        ensures GoodBlock(fills, n, now, b)
      {
        if b < |before| {
          assert GoodBlock(fills, n - 1, before, b);
        }
      }
    }
  }

  /** There is only one way to divide a trace into packets. */
  lemma {:induction false} DivisionIsUnique<T>(fills: seq<Fill<T>>, n: nat, blocks: seq<Extent>)
    requires n <= |fills| && IsDivision(fills, n, blocks)
    ensures blocks == Cut(fills, n)
  {
    var cut := Cut(fills, n);
    CutIsDivision(fills, n);
    var m := if |blocks| < |cut| then |blocks| else |cut|;
    assert m < |cut| ==> GoodBlock(fills, n, cut, m);
    assert m < |blocks| ==> GoodBlock(fills, n, blocks, m);
    SameUpTo(fills, n, blocks, cut, m);
  }

  lemma {:induction false} SameUpTo<T>(fills: seq<Fill<T>>, n: nat, a: seq<Extent>, b: seq<Extent>, m: nat)
    requires n <= |fills| && IsDivision(fills, n, a) && IsDivision(fills, n, b)
    requires m <= |a| && m <= |b|
    ensures a[..m] == b[..m] && StartOf(a, m) == StartOf(b, m)
  {
    if m > 0 {
      SameUpTo(fills, n, a, b, m - 1);
      assert GoodBlock(fills, n, a, m - 1) && GoodBlock(fills, n, b, m - 1);
      assert a[m - 1].first == b[m - 1].first;
      assert a[m - 1].last == b[m - 1].last;
      assert a[..m] == a[..m - 1] + [a[m - 1]];
      assert b[..m] == b[..m - 1] + [b[m - 1]];
    }
  }

  /** Later fills do not change how the earlier ones are divided. */
  lemma {:induction false} CutOfPrefix<T>(fills: seq<Fill<T>>, more: seq<Fill<T>>, n: nat)
    requires n <= |fills|
    ensures Cut(fills + more, n) == Cut(fills, n) && BlockStart(fills + more, n) == BlockStart(fills, n)
  {
    if n > 0 {
      CutOfPrefix(fills, more, n - 1);
    }
  }

  /** Blocks of a longer prefix extend the blocks of a shorter one. */
  lemma {:induction false} CutGrows<T>(fills: seq<Fill<T>>, m: nat, n: nat)
    requires m <= n <= |fills|
    ensures Cut(fills, m) <= Cut(fills, n)
  {
    if m < n {
      CutGrows(fills, m, n - 1);
    }
  }

  /** Without an end of packet in between nothing is added. */
  lemma {:induction false} CutUnchanged<T>(fills: seq<Fill<T>>, m: nat, n: nat)
    requires m <= n <= |fills|
    requires forall j :: m <= j < n ==> !fills[j].eop
    ensures Cut(fills, n) == Cut(fills, m) && BlockStart(fills, n) == BlockStart(fills, m)
  {
    if m < n {
      CutUnchanged(fills, m, n - 1);
    }
  }

  /** Blocks are disjoint and in order, so there are no more of them than buffers. */
  lemma {:induction false} CutOrdered<T>(fills: seq<Fill<T>>, n: nat, a: nat, b: nat)
    requires n <= |fills| && a <= b <= |Cut(fills, n)|
    ensures StartOf(Cut(fills, n), a) + (b - a) <= StartOf(Cut(fills, n), b)
  {
    CutIsDivision(fills, n);
    if a < b {
      assert GoodBlock(fills, n, Cut(fills, n), b - 1);
      CutOrdered(fills, n, a, b - 1);
    }
  }

  /** The cells of a run of fills, in order. */
  function Data<T>(fills: seq<Fill<T>>, from: nat, to: nat): seq<T>
    requires from <= to <= |fills|
  {
    if from == to then [] else Data(fills, from, to - 1) + fills[to - 1].data
  }
}

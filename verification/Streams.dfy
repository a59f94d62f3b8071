/**
 Streams of units marked with an end-of-packet flag, and their division into
 packets. Used for the beats of the packet source, for the bytes they consist of,
 and for the bytes the DMA engine puts into buffers.
 */
module Streams {
  import opened Blocks

  type Stream<T> = seq<(T, bool)>

  /** The packets completed in a stream: cut after every flag. */
  function Packets<T>(s: Stream<T>): seq<seq<T>> {
    if s == [] then []
    else if s[|s| - 1].1 then Packets(s[..|s| - 1]) + [Tail(s[..|s| - 1]) + [s[|s| - 1].0]]
    else Packets(s[..|s| - 1])
  }

  /** What follows the last flag. */
  function Tail<T>(s: Stream<T>): seq<T> {
    if s == [] || s[|s| - 1].1 then [] else Tail(s[..|s| - 1]) + [s[|s| - 1].0]
  }

  /** The units of a packet, or of a part of one, as a stream. */
  function Flagged<T>(units: seq<T>, last: bool): (s: Stream<T>)
    ensures |s| == |units|
  {
    seq(|units|, (t: nat) requires t < |units| => (units[t], last && t == |units| - 1))
  }

  lemma AppendUnit<T>(s: Stream<T>, unit: T, last: bool)
    ensures Packets(s + [(unit, last)]) == if last then Packets(s) + [Tail(s) + [unit]] else Packets(s)
    ensures Tail(s + [(unit, last)]) == if last then [] else Tail(s) + [unit]
  {
    assert (s + [(unit, last)])[..|s|] == s;
  }

  /** Appending a run of units extends the tail, and completes it if the run ends a packet. */
  lemma {:induction false} AppendUnits<T>(s: Stream<T>, units: seq<T>, last: bool)
    requires units != []
    ensures Packets(s + Flagged(units, last)) == if last then Packets(s) + [Tail(s) + units] else Packets(s)
    ensures Tail(s + Flagged(units, last)) == if last then [] else Tail(s) + units
  {
    var n := |units| - 1;
    var front := units[..n];
    var t := s + Flagged(front, false);
    FlaggedLast(units, last);
    assert s + Flagged(units, last) == t + [(units[n], last)];
    AppendUnit(t, units[n], last);
    assert Tail(s) + units == Tail(s) + front + [units[n]];
    if n > 0 {
      AppendUnits(s, front, false);
    } else {
      assert front == [] && units == [units[n]];
      assert t == s;
    }
  }

  lemma FlaggedLast<T>(units: seq<T>, last: bool)
    requires units != []
    ensures Flagged(units, last) == Flagged(units[..|units| - 1], false) + [(units[|units| - 1], last)]
  {
  }

  /** A longer stream has at least the packets of a shorter one. */
  lemma {:induction false} PacketsOfPrefix<T>(s: Stream<T>, t: Stream<T>)
    requires s <= t
    ensures Packets(s) <= Packets(t)
  {
    if |s| < |t| {
      PacketsOfPrefix(s, t[..|t| - 1]);
    } else {
      assert s == t;
    }
  }

  /** The units in the buffers, in order; the last unit of a buffer marked end of packet carries the flag. */
  function FillStream<T>(fills: seq<Fill<T>>, n: nat): Stream<T>
    requires n <= |fills|
  {
    if n == 0 then [] else FillStream(fills, n - 1) + Flagged(fills[n - 1].data, fills[n - 1].eop)
  }

  /** The data of every block of a fill trace. */
  function BlockDatas<T>(fills: seq<Fill<T>>, n: nat): seq<seq<T>>
    requires n <= |fills|
  {
    if n == 0 then []
    else if fills[n - 1].eop then BlockDatas(fills, n - 1) + [Data(fills, BlockStart(fills, n - 1), n)]
    else BlockDatas(fills, n - 1)
  }

  /** The blocks of a fill trace are the packets of the stream it carries. */
  lemma {:induction false} BlocksArePackets<T>(fills: seq<Fill<T>>, n: nat)
    requires n <= |fills| && forall j :: 0 <= j < n ==> fills[j].data != []
    ensures Packets(FillStream(fills, n)) == BlockDatas(fills, n)
    ensures Tail(FillStream(fills, n)) == Data(fills, BlockStart(fills, n), n)
  {
    if n > 0 {
      BlocksArePackets(fills, n - 1);
      AppendUnits(FillStream(fills, n - 1), fills[n - 1].data, fills[n - 1].eop);
    }
  }

  lemma {:induction false} BlockDataAt<T>(fills: seq<Fill<T>>, n: nat, b: nat)
    requires n <= |fills| && b < |Cut(fills, n)|
    ensures |BlockDatas(fills, n)| == |Cut(fills, n)|
    ensures var e := Cut(fills, n)[b];
      e.first <= e.last < n && BlockDatas(fills, n)[b] == Data(fills, e.first, e.last + 1)
  {
    DatasLength(fills, n);
    if fills[n - 1].eop && b == |Cut(fills, n)| - 1 {
      DatasLength(fills, n - 1);
    } else {
      BlockDataAt(fills, n - 1, b);
    }
  }

  lemma {:induction false} DatasLength<T>(fills: seq<Fill<T>>, n: nat)
    requires n <= |fills|
    ensures |BlockDatas(fills, n)| == |Cut(fills, n)|
  {
    if n > 0 {
      DatasLength(fills, n - 1);
    }
  }

  /** If the buffers carry the start of a stream, their blocks are its first packets. */
  lemma BlockIsPacket<T>(fills: seq<Fill<T>>, n: nat, start: nat, b: nat, t: Stream<T>)
    requires start <= n <= |fills| && b < |Cut(fills, start)| && forall j :: 0 <= j < n ==> fills[j].data != []
    requires FillStream(fills, n) <= t
    ensures b < |Packets(t)|
    ensures var e := Cut(fills, start)[b];
      e.first <= e.last < n && Data(fills, e.first, e.last + 1) == Packets(t)[b]
  {
    CutGrows(fills, start, n);
    assert Cut(fills, n)[b] == Cut(fills, start)[b];
    BlocksArePackets(fills, n);
    BlockDataAt(fills, n, b);
    PacketsOfPrefix(FillStream(fills, n), t);
    assert Packets(t)[b] == Packets(FillStream(fills, n))[b];
  }

  // ----- Units made of smaller units -----

  function ExpandUnits<T, U>(units: seq<T>, f: T -> seq<U>): seq<U> {
    if units == [] then [] else ExpandUnits(units[..|units| - 1], f) + f(units[|units| - 1])
  }

  /** The flag of a unit goes to its last part. */
  function Expand<T, U>(s: Stream<T>, f: T -> seq<U>): Stream<U> {
    if s == [] then [] else Expand(s[..|s| - 1], f) + Flagged(f(s[|s| - 1].0), s[|s| - 1].1)
  }

  function ExpandAll<T, U>(packets: seq<seq<T>>, f: T -> seq<U>): (r: seq<seq<U>>)
    ensures |r| == |packets|
  {
    if packets == [] then []
    else ExpandAll(packets[..|packets| - 1], f) + [ExpandUnits(packets[|packets| - 1], f)]
  }

  lemma ExpandAppend<T, U>(units: seq<T>, unit: T, f: T -> seq<U>)
    ensures ExpandUnits(units + [unit], f) == ExpandUnits(units, f) + f(unit)
  {
    assert (units + [unit])[..|units|] == units;
  }

  lemma ExpandAllAppend<T, U>(packets: seq<seq<T>>, packet: seq<T>, f: T -> seq<U>)
    ensures ExpandAll(packets + [packet], f) == ExpandAll(packets, f) + [ExpandUnits(packet, f)]
  {
    assert (packets + [packet])[..|packets|] == packets;
  }

  lemma {:induction false} ExpandAllAt<T, U>(packets: seq<seq<T>>, f: T -> seq<U>, b: nat)
    requires b < |packets|
    ensures ExpandAll(packets, f)[b] == ExpandUnits(packets[b], f)
  {
    if b < |packets| - 1 {
      ExpandAllAt(packets[..|packets| - 1], f, b);
    }
  }

  /** Dividing a stream into packets and expanding its units commute. */
  lemma {:induction false} ExpandPackets<T(!new), U>(s: Stream<T>, f: T -> seq<U>)
    requires forall t: T :: f(t) != []
    ensures Packets(Expand(s, f)) == ExpandAll(Packets(s), f)
    ensures Tail(Expand(s, f)) == ExpandUnits(Tail(s), f)
  {
    if s != [] {
      var front, unit, last := s[..|s| - 1], s[|s| - 1].0, s[|s| - 1].1;
      ExpandPackets(front, f);
      AppendUnits(Expand(front, f), f(unit), last);
      ExpandAppend(Tail(front), unit, f);
      ExpandAllAppend(Packets(front), Tail(front) + [unit], f);
    }
  }
}

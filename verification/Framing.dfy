/**
 What a sample-driven packet generator puts on its stream, and how the two
 generators of the ADC design number, group and terminate their beats.
 */
module Framing {
  import opened Words
  import opened Streams

  /** A counter of limited width: it goes back to 0 at `range`. */
  function Inc(x: nat, range: nat): nat {
    if x + 1 == range then 0 else x + 1
  }

  /** A transferred beat, with the number of samples the generator had waited for by then. */
  datatype Beat = Beat(data: nat, last: bool, sample: nat)

  /**
   A generator: its clock edge, the beats it offers, whether an edge transfers the
   offered beat, and whether it takes a new sample.
   */
  datatype Generating<!R, !I> = Generating(
    edge: (R, I) -> R, word: R -> nat, last: R -> bool, sends: (R, I) -> bool, takes: (R, I) -> bool)

  function SamplesAfter<R, I>(g: Generating<R, I>, r: R, i: I, samples: nat): nat {
    if g.takes(r, i) then samples + 1 else samples
  }

  /** The beats transferred during a schedule. */
  function LogOf<R, I>(g: Generating<R, I>, r: R, ins: seq<I>, samples: nat): seq<Beat>
    decreases |ins|
  {
    if ins == [] then []
    else
      (if g.sends(r, ins[0]) then [Beat(g.word(r), g.last(r), samples)] else [])
      + LogOf(g, g.edge(r, ins[0]), ins[1..], SamplesAfter(g, r, ins[0], samples))
  }

  /** An edge in step with n beats sends the ideal beat n, if it sends one, and stays in step. */
  ghost predicate StepFits<R, I>(g: Generating<R, I>, ideal: nat -> Beat, inStep: (R, nat, nat) -> bool,
                                 r: R, i: I, n: nat, samples: nat) {
    inStep(r, n, samples) ==>
      && (g.sends(r, i) ==> Beat(g.word(r), g.last(r), samples) == ideal(n))
      && inStep(g.edge(r, i), if g.sends(r, i) then n + 1 else n, SamplesAfter(g, r, i, samples))
  }

  ghost predicate StaysInStep<R(!new), I(!new)>(g: Generating<R, I>, ideal: nat -> Beat, inStep: (R, nat, nat) -> bool) {
    forall r: R, i: I, n: nat, samples: nat :: StepFits(g, ideal, inStep, r, i, n, samples)
  }

  /** Such a generator sends the ideal stream, whatever the schedule. */
  lemma {:induction false} LogIsIdeal<R(!new), I(!new)>(g: Generating<R, I>, ideal: nat -> Beat,
    inStep: (R, nat, nat) -> bool, r: R, ins: seq<I>, n: nat, samples: nat)
    requires StaysInStep(g, ideal, inStep) && inStep(r, n, samples)
    ensures IsIdeal(LogOf(g, r, ins, samples), ideal, n)
    decreases |ins|
  {
    if ins != [] {
      assert StepFits(g, ideal, inStep, r, ins[0], n, samples);
      var next, after := g.edge(r, ins[0]), SamplesAfter(g, r, ins[0], samples);
      var rest := LogOf(g, next, ins[1..], after);
      if g.sends(r, ins[0]) {
        LogIsIdeal(g, ideal, inStep, next, ins[1..], n + 1, after);
        IdealCons(rest, ideal, n);
      } else {
        LogIsIdeal(g, ideal, inStep, next, ins[1..], n, after);
        assert LogOf(g, r, ins, samples) == rest;
      }
    }
  }

  /** The beats as a stream of data words with their tlast. */
  function AsStream(log: seq<Beat>): (s: Stream<nat>)
    ensures |s| == |log|
  {
    seq(|log|, (t: nat) requires t < |log| => (log[t].data, log[t].last))
  }

  /** The beats are those of an endless stream from beat n on. */
  predicate IsIdeal(log: seq<Beat>, ideal: nat -> Beat, n: nat) {
    forall j :: 0 <= j < |log| ==> log[j] == ideal(n + j)
  }

  lemma IdealCons(log: seq<Beat>, ideal: nat -> Beat, n: nat)
    requires IsIdeal(log, ideal, n + 1)
    ensures IsIdeal([ideal(n)] + log, ideal, n)
  {
  }

  /** An endless stream of equal packets: what the n-th beat carries. */
  predicate Framed(log: seq<Beat>, packet: seq<nat>)
    requires |packet| > 0
  {
    forall i :: 0 <= i < |log| ==>
      log[i].data == packet[i % |packet|] && (log[i].last <==> i % |packet| == |packet| - 1)
  }

  /** Cut at tlast, such a log is whole copies of the packet and the start of one. */
  lemma {:induction false} FramedIsPackets(log: seq<Beat>, packet: seq<nat>)
    requires |packet| > 0 && Framed(log, packet)
    ensures |Packets(AsStream(log))| == |log| / |packet|
    ensures forall p :: 0 <= p < |Packets(AsStream(log))| ==> Packets(AsStream(log))[p] == packet
    ensures Tail(AsStream(log)) == packet[..|log| % |packet|]
  {
    if log != [] {
      var n, m := |log| - 1, |packet|;
      var front := log[..n];
      FramedIsPackets(front, packet);
      assert AsStream(log) == AsStream(front) + [(log[n].data, log[n].last)];
      AppendUnit(AsStream(front), log[n].data, log[n].last);
      NextBeat(n, m);
      assert packet[..n % m] + [packet[n % m]] == packet[..n % m + 1];
      assert packet[..m] == packet;
    }
  }

  lemma NextBeat(n: nat, m: nat)
    requires m > 0
    ensures if n % m == m - 1 then (n + 1) % m == 0 && (n + 1) / m == n / m + 1
      else (n + 1) % m == n % m + 1 && (n + 1) / m == n / m
  {
    var q, r := n / m, n % m;
    if r == m - 1 {
      assert n + 1 == (q + 1) * m + 0 by { assert (q + 1) * m == q * m + m; }
      ModUnique(n + 1, m, q + 1, 0);
    } else {
      ModUnique(n + 1, m, q, r + 1);
    }
  }
}

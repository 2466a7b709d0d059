// The daemon's energy accounting: one previous counter reading per node and
// one previous timestamp, turned into a wraparound-corrected energy delta and
// an elapsed time on every energy query.

module EnergyAccounting {
  import opened Rapl
  import opened Protocol

  /** The counter value after `d` joules have been consumed starting from
      `prev`: the hardware counter runs modulo the maximum. */
  function Advance(prev: real, d: real): (c: real)
    requires InCounterRange(prev) && InCounterRange(d)
    ensures InCounterRange(c)
    ensures c < prev <==> prev + d >= MaxEnergyStatusJoules
  {
    if prev + d < MaxEnergyStatusJoules then prev + d else prev + d - MaxEnergyStatusJoules
  }

  /** The energy consumed between readings `prev` and `sample`; a negative
      difference means the counter wrapped once, so the maximum is added. */
  function WrapDelta(prev: real, sample: real): (d: real)
    ensures prev <= sample ==> d == sample - prev
    ensures InCounterRange(prev) && InCounterRange(sample) ==>
              InCounterRange(d) && Advance(prev, d) == sample
  {
    var delta := sample - prev;
    if delta < 0.0 then delta + MaxEnergyStatusJoules else delta
  }

  /** Taking the delta recovers the energy by which the counter advanced,
      provided less than one full counter period elapsed. */
  lemma DeltaOfAdvance(prev: real, d: real)
    requires InCounterRange(prev) && InCounterRange(d)
    ensures WrapDelta(prev, Advance(prev, d)) == d
  {
  }

  /** The number of nodes among the first `n` whose query succeeded. */
  function SuccessCount(readings: seq<EnergyReading>, n: nat): nat
    requires n <= |readings|
  {
    if n == 0 then 0
    else SuccessCount(readings, n - 1) + (if readings[n - 1].code == 0 then 1 else 0)
  }

  /** `k` full counter periods, in joules (`k` times the maximum). */
  function CounterPeriods(k: nat): real
  {
    if k == 0 then 0.0 else CounterPeriods(k - 1) + MaxEnergyStatusJoules
  }

  /** For every node whose query succeeded, its baseline and its new
      reading lie in counter range. */
  predicate ReadingsInRange(prev: seq<real>, readings: seq<EnergyReading>, n: nat)
    requires n <= |prev| && n <= |readings|
  {
    forall i :: 0 <= i < n ==>
      readings[i].code == 0 ==> InCounterRange(prev[i]) && InCounterRange(readings[i].joules)
  }

  /** The energy summed over the first `n` nodes: the wraparound-corrected
      delta of each node whose query succeeded, nothing for the others. */
  function TotalUpTo(prev: seq<real>, readings: seq<EnergyReading>, n: nat): (t: real)
    requires n <= |prev| && n <= |readings|
    ensures SuccessCount(readings, n) == 0 ==> t == 0.0
    ensures ReadingsInRange(prev, readings, n) ==>
              0.0 <= t <= CounterPeriods(SuccessCount(readings, n))
  {
    if n == 0 then 0.0
    else
      var t' := TotalUpTo(prev, readings, n - 1);
      if readings[n - 1].code == 0 then t' + WrapDelta(prev[n - 1], readings[n - 1].joules) else t'
  }

  /** The plain difference `sample - prev`, summed over the successful nodes
      among the first `n`, with no wraparound correction. */
  function PlainDifference(prev: seq<real>, readings: seq<EnergyReading>, n: nat): real
    requires n <= |prev| && n <= |readings|
  {
    if n == 0 then 0.0
    else
      PlainDifference(prev, readings, n - 1)
      + (if readings[n - 1].code == 0 then readings[n - 1].joules - prev[n - 1] else 0.0)
  }

  /** Without wraparound, the reported total is exactly the sum of the
      differences between the new and the previous readings. */
  lemma {:induction false} NoWrapTotalIsPlainDifference(prev: seq<real>, readings: seq<EnergyReading>, n: nat)
    requires n <= |prev| && n <= |readings|
    requires forall i :: 0 <= i < n && readings[i].code == 0 ==> prev[i] <= readings[i].joules
    ensures TotalUpTo(prev, readings, n) == PlainDifference(prev, readings, n)
  {
    if n > 0 {
      NoWrapTotalIsPlainDifference(prev, readings, n - 1);
    }
  }

  /** The total depends only on the nodes whose query succeeded: neither the
      value a failed query left behind nor that node's baseline matters. */
  lemma {:induction false} OnlySuccessfulNodesCount(
    prev: seq<real>, readings: seq<EnergyReading>,
    prev': seq<real>, readings': seq<EnergyReading>, n: nat)
    requires n <= |prev| && n <= |readings| && n <= |prev'| && n <= |readings'|
    requires forall i :: 0 <= i < n ==> (readings[i].code == 0 <==> readings'[i].code == 0)
    requires forall i :: 0 <= i < n && readings[i].code == 0 ==>
               readings[i].joules == readings'[i].joules && prev[i] == prev'[i]
    ensures TotalUpTo(prev, readings, n) == TotalUpTo(prev', readings', n)
  {
    if n > 0 {
      OnlySuccessfulNodesCount(prev, readings, prev', readings', n - 1);
    }
  }

  /** When every successful node's reading equals its baseline, the total
      is zero. */
  lemma {:induction false} ZeroWhenReadingsMatchBaseline(prev: seq<real>, readings: seq<EnergyReading>, n: nat)
    requires n <= |prev| && n <= |readings|
    requires forall i :: 0 <= i < n && readings[i].code == 0 ==> readings[i].joules == prev[i]
    ensures TotalUpTo(prev, readings, n) == 0.0
  {
    if n > 0 {
      ZeroWhenReadingsMatchBaseline(prev, readings, n - 1);
    }
  }

  /** The baselines after a query: a node whose query succeeded takes its new
      reading, every other node keeps its previous one. */
  function NextBaseline(prev: seq<real>, readings: seq<EnergyReading>): (next: seq<real>)
    requires |readings| == |prev|
    ensures |next| == |prev|
    ensures forall i :: 0 <= i < |prev| ==>
              next[i] == (if readings[i].code == 0 then readings[i].joules else prev[i])
  {
    seq(|prev|, i requires 0 <= i < |prev| =>
      if readings[i].code == 0 then readings[i].joules else prev[i])
  }

  /** Querying again while no counter has moved reports no energy: the first
      query took every successful reading as the new baseline. */
  lemma RepollReportsZero(prev: seq<real>, readings: seq<EnergyReading>)
    requires |readings| == |prev|
    ensures TotalUpTo(NextBaseline(prev, readings), readings, |readings|) == 0.0
  {
    ZeroWhenReadingsMatchBaseline(NextBaseline(prev, readings), readings, |readings|);
  }

  /** The aggregate error code of a query: the code of the last node asked,
      or 0 when there are no nodes. Earlier codes are overwritten. */
  function LastCode(readings: seq<EnergyReading>): int
  {
    if |readings| == 0 then 0 else readings[|readings| - 1].code
  }

  /** The reply of an energy query, from the state before it. */
  function EnergyReport(prev: seq<real>, prevTime: real, currTime: real, readings: seq<EnergyReading>): Reply
    requires |readings| == |prev|
  {
    EnergyReply(TotalUpTo(prev, readings, |readings|), currTime - prevTime, LastCode(readings))
  }

  /** The process-wide counter tracker: the previous reading of every node
      and the time of the previous query. */
  class CounterTracker {
    const numNode: nat
    const prevSample: array<real>
    var prevTime: real

    ghost predicate Valid()
      reads this
    {
      prevSample.Length == numNode
    }

    /** The tracker as the daemon sets it up: the baseline array holds
        whatever values it was given, and the previous time is zero. */
    constructor (numNode: nat, baseline: seq<real>)
      requires |baseline| == numNode
      ensures Valid() && fresh(prevSample)
      ensures this.numNode == numNode && prevSample[..] == baseline && prevTime == 0.0
    {
      this.numNode := numNode;
      prevTime := 0.0;
      prevSample := new real[numNode](i requires 0 <= i < numNode => baseline[i]);
    }

    /** Query every node, sum the corrected deltas of the nodes that
        answered, move their baselines, and advance the timestamp. */
    method GetEnergyConsumed(currTime: real, readings: seq<EnergyReading>) returns (reply: Reply, err: int)
      requires Valid() && |readings| == numNode
      modifies this`prevTime, prevSample
      ensures Valid()
      ensures prevSample[..] == NextBaseline(old(prevSample[..]), readings)
      ensures prevTime == currTime
      ensures err == LastCode(readings)
      ensures reply == EnergyReport(old(prevSample[..]), old(prevTime), currTime, readings)
    {
      ghost var before := prevSample[..];
      var elapsed := currTime - prevTime;
      var total := 0.0;
      err := 0;
      var i := 0;
      while i < numNode
        invariant 0 <= i <= numNode
        invariant total == TotalUpTo(before, readings, i)
        invariant err == LastCode(readings[..i])
        invariant forall k :: 0 <= k < i ==>
                    prevSample[k] == (if readings[k].code == 0 then readings[k].joules else before[k])
        invariant forall k :: i <= k < numNode ==> prevSample[k] == before[k]
      {
        err := readings[i].code;
        if err == 0 {
          var delta := readings[i].joules - prevSample[i];
          if delta < 0.0 {
            delta := delta + MaxEnergyStatusJoules;
          }
          total := total + delta;
          prevSample[i] := readings[i].joules;
        }
        i := i + 1;
      }
      assert readings[..i] == readings;
      prevTime := currTime;
      reply := EnergyReply(total, elapsed, err);
    }
  }
}

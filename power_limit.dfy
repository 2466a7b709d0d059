// The power-limit reader and writer. The reader consults node 0 only; the
// writer visits every node, keeps the error codes as a running sum, and
// rewrites a node's descriptor only while that sum is zero.

module PowerLimit {
  import opened Rapl
  import opened Protocol

  /** The descriptor the writer sends back for a node: the limit is the
      requested one, the window is one second, limiting and clamping are on,
      the lock is off, and everything else is as read. */
  function Forced(read: PowerLimitControl, limit: real): (w: PowerLimitControl)
    ensures w.powerLimitWatts1 == limit && w.limitTimeWindowSeconds1 == 1.0
    ensures w.limitEnabled1 == 1 && w.clampEnabled1 == 1 && w.lockEnabled == 0
    ensures w.powerLimitWatts2 == read.powerLimitWatts2
    ensures w.limitTimeWindowSeconds2 == read.limitTimeWindowSeconds2
    ensures w.limitEnabled2 == read.limitEnabled2 && w.clampEnabled2 == read.clampEnabled2
  {
    read.(powerLimitWatts1 := limit, limitTimeWindowSeconds1 := 1.0,
          limitEnabled1 := 1, clampEnabled1 := 1, lockEnabled := 0)
  }

  /** Read the limit of node 0. On success the reply carries the first
      limit and code 0; on failure the buffer is left as it was. The error
      code returned is the read's. */
  function GetPowerLimit(node0: DescriptorRead, buffer: Reply): (r: (Reply, int))
    ensures r.1 == node0.code
    ensures r.1 == 0 ==> r.0 == LimitReply(node0.plc.powerLimitWatts1, 0)
    ensures r.1 != 0 ==> r.0 == buffer
  {
    if node0.code == 0 then (LimitReply(node0.plc.powerLimitWatts1, node0.code), node0.code)
    else (buffer, node0.code)
  }

  /** The writer's error accumulator after it has handled the first `n`
      nodes: every read code is added, and a node's write code is added when
      its descriptor was written. */
  function RunningErr(plcReads: seq<DescriptorRead>, writeCodes: seq<int>, n: nat): int
    requires n <= |plcReads| && n <= |writeCodes|
  {
    if n == 0 then 0
    else
      var afterRead := RunningErr(plcReads, writeCodes, n - 1) + plcReads[n - 1].code;
      if afterRead == 0 then afterRead + writeCodes[n - 1] else afterRead
  }

  /** Node `i` is written: the running sum is zero just after its read. */
  predicate WrittenAt(plcReads: seq<DescriptorRead>, writeCodes: seq<int>, i: nat)
    requires i < |plcReads| && i < |writeCodes|
  {
    RunningErr(plcReads, writeCodes, i) + plcReads[i].code == 0
  }

  /** The descriptor writes issued for the first `n` nodes, in node order. */
  function Writes(plcReads: seq<DescriptorRead>, writeCodes: seq<int>, limit: real, n: nat): seq<LimitWrite>
    requires n <= |plcReads| && n <= |writeCodes|
  {
    if n == 0 then []
    else
      Writes(plcReads, writeCodes, limit, n - 1)
      + (if WrittenAt(plcReads, writeCodes, n - 1)
         then [LimitWrite(n - 1, Forced(plcReads[n - 1].plc, limit))]
         else [])
  }

  /** Apply `powerLimit` to every node. The reply always carries the
      requested wattage and the summed error code. */
  method SetPowerLimit(numNode: nat, powerLimit: real, plcReads: seq<DescriptorRead>, writeCodes: seq<int>)
    returns (reply: Reply, err: int, writes: seq<LimitWrite>)
    requires |plcReads| == numNode && |writeCodes| == numNode
    ensures err == RunningErr(plcReads, writeCodes, numNode)
    ensures writes == Writes(plcReads, writeCodes, powerLimit, numNode)
    ensures reply == LimitReply(powerLimit, err)
  {
    err := 0;
    writes := [];
    var i := 0;
    while i < numNode
      invariant 0 <= i <= numNode
      invariant err == RunningErr(plcReads, writeCodes, i)
      invariant writes == Writes(plcReads, writeCodes, powerLimit, i)
    {
      var plc := plcReads[i].plc;
      err := err + plcReads[i].code;
      if err == 0 {
        plc := plc.(powerLimitWatts1 := powerLimit);
        plc := plc.(limitTimeWindowSeconds1 := 1.0);
        plc := plc.(limitEnabled1 := 1);
        plc := plc.(clampEnabled1 := 1);
        plc := plc.(lockEnabled := 0);
        writes := writes + [LimitWrite(i, plc)];
        err := err + writeCodes[i];
      }
      i := i + 1;
    }
    reply := LimitReply(powerLimit, err);
  }

  /** Every write goes to a node among the first `n` where the running sum
      is zero after the read, and carries the forced version of the
      descriptor just read. */
  lemma {:induction false} WritesSound(plcReads: seq<DescriptorRead>, writeCodes: seq<int>, limit: real, n: nat)
    requires n <= |plcReads| && n <= |writeCodes|
    ensures forall w :: w in Writes(plcReads, writeCodes, limit, n) ==>
              w.node < n && WrittenAt(plcReads, writeCodes, w.node) && w.plc == Forced(plcReads[w.node].plc, limit)
  {
    if n > 0 {
      WritesSound(plcReads, writeCodes, limit, n - 1);
      var earlier := Writes(plcReads, writeCodes, limit, n - 1);
      forall w | w in Writes(plcReads, writeCodes, limit, n)
        ensures w.node < n && WrittenAt(plcReads, writeCodes, w.node) && w.plc == Forced(plcReads[w.node].plc, limit)
      {
        if w !in earlier {
          assert w == LimitWrite(n - 1, Forced(plcReads[n - 1].plc, limit));
        }
      }
    }
  }

  /** A node among the first `n` is written exactly when the running sum is
      zero just after its read. */
  lemma {:induction false} WritesComplete(plcReads: seq<DescriptorRead>, writeCodes: seq<int>, limit: real, n: nat)
    requires n <= |plcReads| && n <= |writeCodes|
    ensures forall j :: 0 <= j < n ==>
              (WrittenAt(plcReads, writeCodes, j) <==>
               LimitWrite(j, Forced(plcReads[j].plc, limit)) in Writes(plcReads, writeCodes, limit, n))
  {
    if n > 0 {
      WritesComplete(plcReads, writeCodes, limit, n - 1);
      LastNodeWrittenIff(plcReads, writeCodes, limit, n);
      forall j | 0 <= j < n - 1
        ensures LimitWrite(j, Forced(plcReads[j].plc, limit)) in Writes(plcReads, writeCodes, limit, n) <==>
                LimitWrite(j, Forced(plcReads[j].plc, limit)) in Writes(plcReads, writeCodes, limit, n - 1)
      {
      }
    }
  }

  /** The last of the first `n` nodes is written exactly when the running
      sum is zero just after its read. */
  lemma LastNodeWrittenIff(plcReads: seq<DescriptorRead>, writeCodes: seq<int>, limit: real, n: nat)
    requires 0 < n <= |plcReads| && n <= |writeCodes|
    ensures WrittenAt(plcReads, writeCodes, n - 1) <==>
            LimitWrite(n - 1, Forced(plcReads[n - 1].plc, limit)) in Writes(plcReads, writeCodes, limit, n)
  {
    WritesSound(plcReads, writeCodes, limit, n - 1);
    var earlier := Writes(plcReads, writeCodes, limit, n - 1);
    var last := LimitWrite(n - 1, Forced(plcReads[n - 1].plc, limit));
    var all := Writes(plcReads, writeCodes, limit, n);
    if WrittenAt(plcReads, writeCodes, n - 1) {
      assert all[|earlier|] == last;
    } else {
      assert all == earlier;
    }
  }

  /** The writes go to strictly increasing nodes, so no node is written
      twice. */
  lemma {:induction false} WritesOrdered(plcReads: seq<DescriptorRead>, writeCodes: seq<int>, limit: real, n: nat)
    requires n <= |plcReads| && n <= |writeCodes|
    ensures forall a, b :: 0 <= a < b < |Writes(plcReads, writeCodes, limit, n)| ==>
              Writes(plcReads, writeCodes, limit, n)[a].node < Writes(plcReads, writeCodes, limit, n)[b].node
  {
    if n > 0 {
      WritesOrdered(plcReads, writeCodes, limit, n - 1);
      WritesSound(plcReads, writeCodes, limit, n - 1);
      var earlier := Writes(plcReads, writeCodes, limit, n - 1);
      assert forall a :: 0 <= a < |earlier| ==> earlier[a] in earlier;
    }
  }

  /** When every read and write succeeds, the sum stays zero and every node
      is written, node i as the i-th write. */
  lemma {:induction false} AllSucceedWritesEveryNode(plcReads: seq<DescriptorRead>, writeCodes: seq<int>, limit: real, n: nat)
    requires n <= |plcReads| && n <= |writeCodes|
    requires forall i :: 0 <= i < n ==> plcReads[i].code == 0 && writeCodes[i] == 0
    ensures RunningErr(plcReads, writeCodes, n) == 0
    ensures |Writes(plcReads, writeCodes, limit, n)| == n
    ensures forall i :: 0 <= i < n ==>
              Writes(plcReads, writeCodes, limit, n)[i] == LimitWrite(i, Forced(plcReads[i].plc, limit))
  {
    if n > 0 {
      AllSucceedWritesEveryNode(plcReads, writeCodes, limit, n - 1);
    }
  }

  /** Codes are never positive. */
  predicate NonPositiveCodes(plcReads: seq<DescriptorRead>, writeCodes: seq<int>, n: nat)
    requires n <= |plcReads| && n <= |writeCodes|
  {
    forall i :: 0 <= i < n ==> plcReads[i].code <= 0 && writeCodes[i] <= 0
  }

  /** With codes that are never positive, the summed error is zero exactly
      when every node's read and write succeeded; otherwise it is negative. */
  lemma {:induction false} ZeroErrIffAllSucceed(plcReads: seq<DescriptorRead>, writeCodes: seq<int>, n: nat)
    requires n <= |plcReads| && n <= |writeCodes|
    requires NonPositiveCodes(plcReads, writeCodes, n)
    ensures RunningErr(plcReads, writeCodes, n) <= 0
    ensures RunningErr(plcReads, writeCodes, n) == 0 <==>
              forall i :: 0 <= i < n ==> plcReads[i].code == 0 && writeCodes[i] == 0
  {
    if n > 0 {
      ZeroErrIffAllSucceed(plcReads, writeCodes, n - 1);
    }
  }

  /** With codes that are never positive, a node is written only if every
      earlier node's read and write succeeded: after the first failure the
      remaining nodes are still read but no longer written. */
  lemma WrittenOnlyAfterCleanPrefix(plcReads: seq<DescriptorRead>, writeCodes: seq<int>, k: nat)
    requires k < |plcReads| && k < |writeCodes|
    requires NonPositiveCodes(plcReads, writeCodes, k + 1)
    ensures WrittenAt(plcReads, writeCodes, k) <==>
              forall j :: 0 <= j <= k ==> plcReads[j].code == 0 && (j < k ==> writeCodes[j] == 0)
  {
    ZeroErrIffAllSucceed(plcReads, writeCodes, k);
  }

  /** Setting a limit and then reading node 0 back gives the limit just
      set, once node 0's read succeeded and the library returns the
      descriptor that was written to it. */
  lemma SetThenGetReturnsLimit(plcReads: seq<DescriptorRead>, writeCodes: seq<int>, limit: real, n: nat, buffer: Reply)
    requires 0 < n <= |plcReads| && n <= |writeCodes|
    requires plcReads[0].code == 0
    ensures |Writes(plcReads, writeCodes, limit, n)| > 0
    ensures Writes(plcReads, writeCodes, limit, n)[0].node == 0
    ensures GetPowerLimit(DescriptorRead(0, Writes(plcReads, writeCodes, limit, n)[0].plc), buffer)
            == (LimitReply(limit, 0), 0)
  {
    FirstWriteIsNode0(plcReads, writeCodes, limit, n);
  }

  /** When node 0's read succeeds, the first write goes to node 0. */
  lemma {:induction false} FirstWriteIsNode0(plcReads: seq<DescriptorRead>, writeCodes: seq<int>, limit: real, n: nat)
    requires 0 < n <= |plcReads| && n <= |writeCodes|
    requires plcReads[0].code == 0
    ensures |Writes(plcReads, writeCodes, limit, n)| > 0
    ensures Writes(plcReads, writeCodes, limit, n)[0] == LimitWrite(0, Forced(plcReads[0].plc, limit))
  {
    if n > 1 {
      FirstWriteIsNode0(plcReads, writeCodes, limit, n - 1);
    }
  }
}

// Request dispatch and the main loop's bookkeeping of watched descriptors.
// Sockets themselves are not modelled: the receive status, the decoded
// request and the descriptor `accept` returns are inputs, and a reply that
// is sent is collected in the returned sequence.

module Server {
  import opened Rapl
  import opened Protocol
  import opened EnergyAccounting
  import opened PowerLimit

  /** What serving one request does, between the state before and after:
      a failed receive runs no handler; commands 1, 2 and 3 run their
      handler and send its buffer once; any other command sends nothing.
      Only the energy command moves the tracker; only the set command
      writes descriptors. */
  twostate predicate Served(tracker: CounterTracker, recvStatus: int, request: Request, currTime: real,
                            rapl: RaplResponses, sent: seq<Reply>, writes: seq<LimitWrite>)
    requires old(tracker.Valid()) && rapl.CoversNodes(tracker.numNode)
    reads tracker, tracker.prevSample
  {
    && tracker.Valid()
    && (recvStatus != 0 || request.command !in {GetEnergyCmd, GetPwrLimitCmd, SetPwrLimitCmd} ==>
          sent == [] && writes == [] &&
          tracker.prevSample[..] == old(tracker.prevSample[..]) && tracker.prevTime == old(tracker.prevTime))
    && (recvStatus == 0 && request.command == GetEnergyCmd ==>
          sent == [EnergyReport(old(tracker.prevSample[..]), old(tracker.prevTime), currTime, rapl.energy)] &&
          writes == [] &&
          tracker.prevSample[..] == NextBaseline(old(tracker.prevSample[..]), rapl.energy) &&
          tracker.prevTime == currTime)
    && (recvStatus == 0 && request.command == GetPwrLimitCmd ==>
          sent == [GetPowerLimit(rapl.node0Limit, Blank).0] && writes == [] &&
          tracker.prevSample[..] == old(tracker.prevSample[..]) && tracker.prevTime == old(tracker.prevTime))
    && (recvStatus == 0 && request.command == SetPwrLimitCmd ==>
          sent == [LimitReply(request.argument,
                              RunningErr(rapl.limitReads, rapl.limitWriteCodes, tracker.numNode))] &&
          writes == Writes(rapl.limitReads, rapl.limitWriteCodes, request.argument, tracker.numNode) &&
          tracker.prevSample[..] == old(tracker.prevSample[..]) && tracker.prevTime == old(tracker.prevTime))
  }

  /** Serve one request arriving on a client connection, as `Served`
      describes. The receive status is returned whatever the handler's
      outcome. */
  method ServiceClientRequest(tracker: CounterTracker, recvStatus: int, request: Request,
                              currTime: real, rapl: RaplResponses)
    returns (ret: int, sent: seq<Reply>, writes: seq<LimitWrite>)
    requires tracker.Valid() && rapl.CoversNodes(tracker.numNode)
    modifies tracker`prevTime, tracker.prevSample
    ensures ret == recvStatus
    ensures Served(tracker, recvStatus, request, currTime, rapl, sent, writes)
  {
    sent := [];
    writes := [];
    var outputBuffer := Blank;
    ret := recvStatus;
    if ret == 0 {
      var command := request.command;
      if command == GetEnergyCmd {
        var err;
        outputBuffer, err := tracker.GetEnergyConsumed(currTime, rapl.energy);
        sent := [outputBuffer];
      } else if command == GetPwrLimitCmd {
        var answer := GetPowerLimit(rapl.node0Limit, outputBuffer);
        outputBuffer := answer.0;
        sent := [outputBuffer];
      } else if command == SetPwrLimitCmd {
        var err;
        outputBuffer, err, writes := SetPowerLimit(tracker.numNode, request.argument,
                                                   rapl.limitReads, rapl.limitWriteCodes);
        sent := [outputBuffer];
      }
    }
  }

  /** The daemon once set up: the counter tracker and the set of descriptors
      the main loop waits on, which always holds the listening socket. */
  class Daemon {
    const listener: int
    const tracker: CounterTracker
    var activeFdSet: set<int>

    ghost predicate Valid()
      reads this, tracker
    {
      tracker.Valid() && listener in activeFdSet
    }

    /** Start-up: the tracker gets its baselines and takes one energy query
        as an ordinary call; then only the listener is watched. */
    constructor (listener: int, numNode: nat, baseline: seq<real>, startTime: real,
                 startupReadings: seq<EnergyReading>)
      requires |baseline| == numNode && |startupReadings| == numNode
      ensures Valid() && fresh(tracker) && fresh(tracker.prevSample)
      ensures this.listener == listener && activeFdSet == {listener}
      ensures tracker.numNode == numNode
      ensures tracker.prevSample[..] == NextBaseline(baseline, startupReadings)
      ensures tracker.prevTime == startTime
    {
      var t := new CounterTracker(numNode, baseline);
      var reply, err := t.GetEnergyConsumed(startTime, startupReadings);
      this.listener := listener;
      tracker := t;
      activeFdSet := {listener};
    }

    /** The listener became readable: `accept` returned `newSock`. A
        negative descriptor ends the process (reported as `fatal`, with
        nothing changed); otherwise the new client is watched. */
    method AcceptConnection(newSock: int) returns (fatal: bool)
      requires Valid()
      modifies this`activeFdSet
      ensures Valid()
      ensures fatal <==> newSock < 0
      ensures activeFdSet == if fatal then old(activeFdSet) else old(activeFdSet) + {newSock}
    {
      fatal := newSock < 0;
      if !fatal {
        activeFdSet := activeFdSet + {newSock};
      }
    }

    /** A client descriptor became readable: serve its request, and stop
        watching it exactly when the service status is negative. */
    method ServeClient(fd: int, recvStatus: int, request: Request, currTime: real, rapl: RaplResponses)
      returns (sent: seq<Reply>, writes: seq<LimitWrite>)
      requires Valid() && fd in activeFdSet && fd != listener
      requires rapl.CoversNodes(tracker.numNode)
      modifies this`activeFdSet, tracker`prevTime, tracker.prevSample
      ensures Valid()
      ensures activeFdSet == if recvStatus < 0 then old(activeFdSet) - {fd} else old(activeFdSet)
      ensures Served(tracker, recvStatus, request, currTime, rapl, sent, writes)
    {
      var status;
      status, sent, writes := ServiceClientRequest(tracker, recvStatus, request, currTime, rapl);
      if status < 0 {
        activeFdSet := activeFdSet - {fd};
      }
    }
  }

  /** Two clients share one tracker: the start-up query takes the baseline,
      client A's energy query reports the energy since then, and client B's
      query reports the energy since A's. An unknown command gets no answer
      and leaves the connection watched; a failed receive closes it. */
  method TwoClientsShareTheTracker()
  {
    var d := new Daemon(3, 1, [0.0], 100.0, [EnergyReading(0, 10.0)]);
    var node0 := DescriptorRead(0, PowerLimitControl(95.0, 1.0, 1, 1, 120.0, 0.01, 1, 1, 0));
    var fatal := d.AcceptConnection(4);
    fatal := d.AcceptConnection(5);
    assert d.activeFdSet == {3, 4, 5};
    var rapl := RaplResponses([EnergyReading(0, 25.0)], node0, [node0], [0]);
    var sent, writes := d.ServeClient(4, 0, Request(99, 0.0), 101.0, rapl);
    assert sent == [] && d.activeFdSet == {3, 4, 5};
    sent, writes := d.ServeClient(4, 0, Request(GetEnergyCmd, 0.0), 102.0, rapl);
    assert sent == [EnergyReply(15.0, 2.0, 0)];
    rapl := RaplResponses([EnergyReading(0, 30.0)], node0, [node0], [0]);
    sent, writes := d.ServeClient(5, 0, Request(GetEnergyCmd, 0.0), 105.0, rapl);
    assert sent == [EnergyReply(5.0, 3.0, 0)];
    sent, writes := d.ServeClient(4, -1, Request(GetEnergyCmd, 0.0), 106.0, rapl);
    assert sent == [] && d.activeFdSet == {3, 5};
  }

  /** Setting 120 W on two nodes where the second node's write fails: the
      reply still carries 120 W, with a non-zero error code. */
  method SetWithOneFailingNode()
  {
    var t := new CounterTracker(2, [0.0, 0.0]);
    var plc := PowerLimitControl(95.0, 1.0, 1, 1, 120.0, 0.01, 1, 1, 0);
    var rapl := RaplResponses([EnergyReading(0, 0.0), EnergyReading(0, 0.0)], DescriptorRead(0, plc),
                              [DescriptorRead(0, plc), DescriptorRead(0, plc)], [0, -1]);
    var ret, sent, writes := ServiceClientRequest(t, 0, Request(SetPwrLimitCmd, 120.0), 1.0, rapl);
    assert RunningErr(rapl.limitReads, rapl.limitWriteCodes, 1) == 0;
    assert WrittenAt(rapl.limitReads, rapl.limitWriteCodes, 1);
    assert sent == [LimitReply(120.0, -1)];
    AllSucceedWritesEveryNode(rapl.limitReads, rapl.limitWriteCodes, 120.0, 1);
    assert |writes| == 2 && writes[1].plc.powerLimitWatts1 == 120.0;
  }
}

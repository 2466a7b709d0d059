# power_govd: energy accounting and power-limit control, in Dafny

This project models the core of `power_govd`, a small daemon that serves RAPL
package energy and power-limit queries to TCP clients. The model covers:

- the energy-delta tracker (`get_energy_consumed`). It keeps one previous
  counter reading per node in an array and one previous timestamp. On each
  query it sums the wraparound-corrected deltas of the nodes whose query
  succeeded, moves only those nodes' baselines, and always advances the
  timestamp;
- the power-limit writer (`set_power_limit`). It reads every node's
  descriptor and keeps the error codes as a running sum. It writes back a
  descriptor with forced fields only while that sum is zero;
- the power-limit reader (`get_power_limit`), which consults node 0 only;
- request dispatch (`service_client_request`) for command codes 1, 2 and 3;
- the main loop's bookkeeping of the watched descriptor set. The listener is
  added at start-up, `accept` adds a client, and a client is removed exactly
  when its service status is negative.

Modules:

- `Rapl` holds the values the RAPL library hands back: per-node energy
  readings, descriptors and error codes. It also holds the wrap value
  `MaxEnergyStatusJoules`, a positive constant whose value is left open.
- `Protocol` holds requests and replies as tuples, and the command codes.
- `EnergyAccounting` holds the counter arithmetic, its lemmas, and the class
  `CounterTracker`, which has the `prevSample` array and the `prevTime` field.
- `PowerLimit` holds the reader, the writer as a method with a loop, and the
  specification of the writer's running sum and of the writes it issues.
- `Server` holds the dispatcher and the class `Daemon`, which has the
  watched set.

The RAPL library appears only through its answers. They are passed in as a
`RaplResponses` value: an error code and a value for every per-node call.
The descriptor writes the daemon issues come back as a sequence of
`LimitWrite`. The current time, the receive status and the descriptor
returned by `accept` are also parameters. A reply that is sent is collected
in a returned sequence. The output buffer, which the dispatcher fills with
spaces before running a handler, is the reply `Blank`.

Behaviour of the code that the model keeps as written:

- The writer does not attempt every node in full. It reads every node, but
  it writes a node only while the running sum is still zero.
  `PowerLimit.WrittenOnlyAfterCleanPrefix` shows that with non-positive
  codes, nothing after the first failure is written.
- `prev_time` is set on every energy query, including one where every node
  failed, not only on successful ones.
- The energy query's error code is the code of the last node queried. A
  failure on an earlier node is lost when the last node succeeds.
- A receive status greater than zero neither runs a handler nor closes the
  connection. Only a negative status closes it.

## Model

| member | source | states |
|---|---|---|
| `EnergyAccounting.Advance` | power_govd.c:80-86 | The counter after consuming `d` joules from `prev` stays in `[0, MAX)`, and it lies below `prev` exactly when the counter wrapped. This is the hardware behaviour that the wraparound correction undoes. |
| `EnergyAccounting.WrapDelta` | power_govd.c:80-86 | Without a wrap (`prev <= new`), the delta is exactly `new - prev`. When both readings lie in `[0, MAX)`, the delta lies in `[0, MAX)` and advancing the counter from `prev` by the delta gives back `new`. |
| `EnergyAccounting.DeltaOfAdvance` | power_govd.c:80-86 | Round trip: the corrected delta between `prev` and the counter after consuming `d` is `d`, for any `d` in `[0, MAX)`. |
| `EnergyAccounting.TotalUpTo` | power_govd.c:63-66 | Summing over the successful nodes: with no successful node (in particular `num_node == 0`) the total is 0. With readings in range, the total lies between 0 and one counter period per successful node. |
| `EnergyAccounting.NoWrapTotalIsPlainDifference` | power_govd.c:75-89 | When no successful reading is below its baseline, the reported total is exactly the sum of `new - prev` over the successful nodes. |
| `EnergyAccounting.OnlySuccessfulNodesCount` | power_govd.c:77-89 | The total depends only on the successful nodes. A failed node's reading and baseline do not affect it. |
| `EnergyAccounting.ZeroWhenReadingsMatchBaseline` | power_govd.c:80-88 | If every successful node's reading equals its baseline, the total is 0, for any number of nodes. |
| `EnergyAccounting.NextBaseline` | power_govd.c:78-89 | After a query, each node whose query returned 0 holds its new reading. Every other node keeps its previous baseline, and the length is unchanged. |
| `EnergyAccounting.RepollReportsZero` | power_govd.c:75-93 | Querying again with unchanged counters reports zero energy, because the first query made every successful reading the new baseline. |
| `EnergyAccounting.CounterTracker.constructor` | power_govd.c:40-41 | The tracker starts with the given baseline array and a previous time of 0. |
| `EnergyAccounting.CounterTracker.GetEnergyConsumed` | power_govd.c:60-97 | The new `prevSample` is `NextBaseline` of the old one: only successful nodes change. `prevTime` becomes the current time unconditionally. The reply carries the sum of the successful nodes' corrected deltas, the current time minus the old `prevTime`, and the last node's code, which is also returned. |
| `PowerLimit.Forced` | power_govd.c:130-134 | The written descriptor has limit = requested, window = 1.0, enabled = 1, clamp = 1 and lock = 0. The second limit, its window and its flags are as read. |
| `PowerLimit.GetPowerLimit` | power_govd.c:101-115 | Only node 0 is read, and its code is returned. On success the reply is its first limit with code 0. On failure the buffer is left as it was, so the space-filled buffer is what gets sent. |
| `PowerLimit.SetPowerLimit` | power_govd.c:119-141 | The returned error is the running sum of read codes plus the write codes of written nodes. The issued writes are exactly `Writes`. The reply always carries the requested wattage and that sum. |
| `PowerLimit.WritesSound` | power_govd.c:125-137 | Every write goes to a node where the running sum was 0 right after its read, and it carries `Forced` of the descriptor just read. |
| `PowerLimit.LastNodeWrittenIff` | power_govd.c:127-128 | The last node handled is written exactly when the running sum is 0 right after its read. |
| `PowerLimit.WritesComplete` | power_govd.c:127-135 | For every node: it is written if and only if the running sum is 0 right after its read. |
| `PowerLimit.WritesOrdered` | power_govd.c:125-137 | Writes go to strictly increasing nodes, so each node is written at most once and in loop order. |
| `PowerLimit.AllSucceedWritesEveryNode` | power_govd.c:125-137 | If every read and write returns 0, the error is 0 and node `i` is the `i`-th write, with the forced descriptor. |
| `PowerLimit.ZeroErrIffAllSucceed` | power_govd.c:127-135 | With non-positive codes, the summed error is never positive. It is 0 if and only if every read and every write succeeded. |
| `PowerLimit.WrittenOnlyAfterCleanPrefix` | power_govd.c:125-137 | With non-positive codes, node `k` is written if and only if its read and every earlier read and write succeeded. After the first failure, later nodes are read but not written. |
| `PowerLimit.FirstWriteIsNode0` | power_govd.c:125-137 | When node 0's read succeeds, the first write goes to node 0 with the forced descriptor. |
| `PowerLimit.SetThenGetReturnsLimit` | power_govd.c:107-110 | After a set whose node-0 read succeeded, reading back the descriptor written to node 0 reports the limit just set, with code 0. |
| `Server.ServiceClientRequest` | power_govd.c:144-191 | The receive status is returned whatever the handler did. A non-zero status runs no handler and sends nothing. Commands 1, 2 and 3 each run exactly their handler and send one reply. Any other command sends nothing. Only command 1 changes the tracker, and only command 3 writes descriptors. |
| `Server.Daemon.constructor` | power_govd.c:212-241 | Start-up takes one energy query against the given baselines. Afterwards only the listener is in the watched set. |
| `Server.Daemon.AcceptConnection` | power_govd.c:259-271 | A negative descriptor from `accept` is fatal and changes nothing. Otherwise the new descriptor is added to the watched set, and the listener stays in it. |
| `Server.Daemon.ServeClient` | power_govd.c:273-280 | A client's descriptor is removed from the watched set exactly when its service status is negative. The listener is never removed. The request is served as `ServiceClientRequest` states. |

## Left out

- Sockets and the event loop itself are not modelled: `socket`, `bind`, `listen`, `select`, `close`, the pass over `FD_SETSIZE` descriptors, and its order. Only the add/remove rule on the watched set is kept. A `select` failure ends the process and is not modelled.
- `socket_recv` and `socket_send` are not modelled: `socket_utils.h` is not part of this model. The receive status is an input, so how a peer's close maps to a status is not captured. A send's result is ignored by the source, so a reply is recorded as sent whatever the send returns.
- Text formatting and parsing (`snprintf "%lf"`, `sscanf "%d %lf"`), truncation to the buffer size, and the uninitialised command left behind when parsing fails are not modelled. Requests and replies are tuples.
- `double` arithmetic is modelled as exact `real` arithmetic, so IEEE rounding in the sums and in the time conversion is not captured. The wall clock (`gettimeofday`) is not modelled: the current time is a parameter.
- Integer error codes are unbounded, so overflow of the writer's running sum is not modelled.
- The RAPL library (`rapl.h`) is not part of this model. Its answers are inputs. `MAX_ENERGY_STATUS_JOULES` is a positive constant with no fixed value. The descriptor's fields other than the forced ones follow the package power-limit register: a second limit/window pair with its flags.
- The writer reuses one descriptor record across nodes. The model takes whatever that record holds after each read as that read's answer. This covers a record left stale by a failed read, but does not say what the library leaves in it.
- The reader queries node 0 even when `num_node` is 0. The model therefore gives node 0's answer separately from the per-node answers.
- The first baseline comes from uninitialised `malloc` memory. It is modelled as arbitrary given values, and the start-up query is an ordinary call.
- Command-line port handling, logging, init failure of the RAPL library, and the unreachable cleanup after the main loop are not modelled.
- `PowerLimit.ZeroErrIffAllSucceed`, `PowerLimit.WrittenOnlyAfterCleanPrefix`: these assume the library's error codes are never positive, because the codes' sign convention lives in `rapl.h`. With codes of mixed sign, the running sum can cancel to 0 after a failure.

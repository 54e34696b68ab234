# myo_blink in Dafny

A model of the `myo_blink` ROS node, which drives Myorobotics muscles over a
FlexRay USB bridge. The node does three things worth proving anything about:

- **Command dispatch** (`MyoMotor::moveMotor`): the `/myo_blink/move` service
  maps the exact, case-sensitive action keyword `"move to"`, `"move with"` or
  `"keep"` to the control mode Position, Velocity or Force. It then issues one
  `set` to the requested ganglion and muscle, passing the setpoint through
  unchanged. Any other keyword sets `is_success` to false and writes nothing.
  The handler itself always returns `true`.
- **Telemetry polling** (the body of the `while (ros::ok())` loop in `blink`):
  muscles 0..3 of ganglion 0 are read in order. Each successful read is
  published on `/myo_blink/muscles/<i>/sensors`. A `ReadError` publishes
  nothing for that muscle and does not stop the cycle.
- **Connect retry** (the `while (connect(...).match(...))` loop in `main`): a
  refused connect hands back a bus description, and the next attempt uses it.
  A successful connect hands the connection to `blink`. When `blink` returns,
  the match yields `false`, so the retry loop ends.

The FlexRay driver is abstract. Every request the node makes of a live
connection (`set`, `read_muscle`, `connected_ganglions`) is appended to a
trace of bus operations (`Bus.Op`). The driver's answers are inputs to the
model:
- the answers to the connect attempts are a sequence of `ConnectOutcome`s;
- the answers to each cycle's four reads are a sequence of `ReadOutcome`s;
- the YAML decoding of the `/flex_bridge` parameter is a function parameter.

Files, one module each:
- `wrappers.dfy`: `Option`.
- `bus.dfy`: control modes, muscle state, the bus trace, and the count of connected ganglia.
- `dispatch.dfy`: the move service.
- `telemetry.dfy`: one poll cycle.
- `connection.dfy`: the retry state machine, generic in the description and session types.
- `node.dfy`: the session loop `blink` and the entry point `main`.

Two behaviours of `main` worth noting, both modelled as the code has them:
- A `/flex_bridge` value that fails to decode as YAML is reported, and then
  `main` falls off its end. The exit status is therefore 0.
  Only a parameter that is missing or not a string gives exit status 1 (`Node.RunNode`).
- On a refused connect, the code retries with whatever description the driver
  hands back. It does not check that this is the original one. The model does
  the same (`Connection.Run`). "The description never changes" is proved only
  for a driver that hands back what it was given (`Connection.RetryKeepsDescription`).

## Model

| member | source | states |
|---|---|---|
| Bus.GangliaCount | src/myo_blink.cpp:121 | the ganglia count reported at startup is the number of set slots in the driver's connected-ganglia bitset, so it never exceeds the bitset's width |
| Bus.ThreeGangliaExample | src/myo_blink.cpp:121 | a bitset with three connected ganglia reports 3 |
| Dispatch.ModeOf | src/myo_blink.cpp:27-41 | an action selects a mode only if it is exactly that mode's keyword; an action that is no mode's keyword selects nothing |
| Dispatch.KeywordRoundTrip | src/myo_blink.cpp:27-41 | each mode's keyword selects that mode, and the three keywords are distinct |
| Dispatch.RecognisedIsKeyword | src/myo_blink.cpp:27-45 | an action is accepted exactly when it equals one of the three keywords |
| Dispatch.NearMissesRejected | src/myo_blink.cpp:27-45 | matching is exact and case-sensitive: "Move to", "move to ", "KEEP" and "move" are rejected |
| Dispatch.MoveMotor | src/myo_blink.cpp:25-47 | the handler always returns true; `is_success` holds exactly when the action is a keyword; a keyword appends exactly one write of that keyword's mode, with the request's ganglion, muscle and setpoint unchanged; any other action leaves the bus trace unchanged |
| Dispatch.MoveMotorWrites | src/myo_blink.cpp:27-45 | handling a request keeps the earlier trace as a prefix and adds one write if accepted, none if rejected |
| Dispatch.MoveToExample | src/myo_blink.cpp:27-31 | "move to" for muscle 2 of ganglion 0 at 1.5 writes Position 1.5 to (0, 2) and succeeds |
| Dispatch.UnknownActionExample | src/myo_blink.cpp:42-45 | "spin" is rejected and writes nothing |
| Telemetry.ReadOps | src/myo_blink.cpp:144-146 | the reads of a cycle address muscles 0, 1, ... of ganglion 0 in increasing order and are not writes |
| Telemetry.EmittedSound | src/myo_blink.cpp:144-156 | a cycle publishes at most one sample per read; each published sample sits on the channel of the muscle it was read from and carries that read's state |
| Telemetry.EmittedOrdered | src/myo_blink.cpp:144-156 | samples are published in strictly increasing channel order |
| Telemetry.EmittedComplete | src/myo_blink.cpp:146-153 | every successful read is published on its muscle's channel |
| Telemetry.EmittedCount | src/myo_blink.cpp:144-156 | the number of published samples equals the number of successful reads |
| Telemetry.ReadErrorIsolation | src/myo_blink.cpp:146-155 | turning the read of muscle i into a ReadError removes exactly the sample on channel i and leaves every other emission as it was |
| Telemetry.PollCycle | src/myo_blink.cpp:143-156 | the loop reads muscles 0, 1, 2, 3 of ganglion 0 in increasing order, writes nothing, and publishes exactly the samples the reference definition gives |
| Telemetry.OneFailureExample | src/myo_blink.cpp:144-156 | four reads with muscle 1 failing publish three samples, on channels 0, 2 and 3 |
| Connection.Step | src/myo_blink.cpp:209-221 | a refusal keeps the loop connecting, with the description the driver handed back; a connection passes the driver's session to the session loop; once the session loop returns, the loop is done |
| Connection.Run | src/myo_blink.cpp:209-222 | the first attempt uses the initial description; each later attempt follows a refusal and uses the description that refusal handed back; the loop ends up either in a session with the connection just returned, or still connecting after refusals only, never done without a session; while still connecting it holds the description the last refusal handed back, or the initial one when no attempt was answered |
| Connection.FirstConnectionEndsRetry | src/myo_blink.cpp:209-216 | when answer j is the first connection, exactly j + 1 connect attempts are made and the session is the driver's |
| Connection.NoAttemptAfterSession | src/myo_blink.cpp:211-216 | after the session loop returns, no further connect attempt is made |
| Connection.RetryKeepsDescription | src/myo_blink.cpp:217-220 | with a driver that hands back the description it was given, every attempt uses the original description |
| Node.AllEmittedBounds | src/myo_blink.cpp:138-156 | over any number of loop passes at most four samples are published per pass, all on channels 0..3 |
| Node.RequestedWrite | src/myo_blink.cpp:27-45 | the write a request asks for is one `set` with the keyword's mode and the request's ganglion, muscle and setpoint when its action is a keyword, and nothing otherwise |
| Node.AcceptedWritesCount | src/myo_blink.cpp:27-45 | a batch of requests asks for exactly one write per request the handler accepts |
| Node.AcceptedWritesExample | src/myo_blink.cpp:27-45 | of "move to", "spin" and "keep" requests, the first and last are written in arrival order, each to its own ganglion and muscle with its own setpoint |
| Node.Spin | src/myo_blink.cpp:161 | the pending move requests are handled in arrival order; the bus trace grows by exactly the writes the accepted requests ask for and by nothing else; each request gets the handler's reply; the writes added are as many as the accepted replies |
| Node.SessionWrites | src/myo_blink.cpp:117-164 | over a whole session, the writes on the bus are exactly as many as the requests accepted |
| Node.Blink | src/myo_blink.cpp:117-164 | the bus sees the connected-ganglia query, then on each pass the reads of muscles 0..3 of ganglion 0 followed by the writes of the accepted requests of that pass, and nothing else; the reported count is that of the connected ganglia; the samples published are each tick's poll-cycle samples in order, at most four per tick, all on channels 0..3; every request gets a true return value and `is_success` exactly when its action is a keyword; the writes on the bus are as many as the accepted requests |
| Node.RunNode | src/myo_blink.cpp:194-229 | exit status 1 exactly when the `/flex_bridge` parameter is missing or not a string, and 0 whenever the process ends otherwise; an undecodable description makes no attempt and exits 0; otherwise the attempts are those of the retry loop; a session runs exactly when some connect succeeds, on the connection the retry loop ends in, and its log is that of the session loop on that connection; the process is still running exactly when every connect was refused |

## Left out

- ROS plumbing (`ros::init`, `NodeHandle`, `advertise`, `advertiseService`, `publish`, `spinOnce`, `ros::ok`). Publishing is modelled as lists of emissions. `ros::ok` is modelled as a finite list of loop passes (`Node.Tick`).
- The 100 Hz `ros::Rate` and `sleep` (src/myo_blink.cpp:110, 163). These are wall-clock scheduling.
- YAML decoding of `/flex_bridge` and the formatting of the `YAML::Exception` diagnostic. These belong to a foreign library; decoding is a function parameter, and failure is `None`.
- FlexRay driver internals: `connect`, `set`, `read_muscle`, `connected_ganglions` and the `FtResult` text. Their answers are inputs; their requests are trace entries.
- Floating-point content of setpoints and of `muscleState_t`. The node only copies these values, so `real` stands in for them.
- The text of the startup status message (src/myo_blink.cpp:120-124). This is string-stream formatting. Only the ganglia count it carries is modelled.
- Log messages (`ROS_INFO_STREAM`, `ROS_ERROR_STREAM`). These are I/O.
- The `/myo_blink/muscles/0/sensors/displacement` publisher (src/myo_blink.cpp:84). It is advertised but never published to, so it has no behaviour.
- Telemetry.PollCycle: requires exactly four read outcomes. The source always makes four reads, and the driver answers each one.
- Node.Blink: runs a given finite number of loop passes. The source loop runs until shutdown.

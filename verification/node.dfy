/**
 The node itself: the session loop that owns a live connection (`blink`) and
 the entry point that looks up the bus description, connects with retries and
 hands the connection to the session loop (`main`).
 */
module Node {
  import opened Wrappers
  import opened Bus
  import opened Dispatch
  import opened Telemetry
  import opened Connection

  /** A live connection: the driver's bitset of connected ganglia. */
  datatype Session = Session(ganglia: seq<bool>)

  /** What one pass of the session loop is given: the driver's answers to the
      cycle's four reads, and the service requests pending when the loop spins. */
  datatype Tick = Tick(outcomes: seq<ReadOutcome>, requests: seq<Request>)

  /** What a session did: the bus trace, the ganglia count published at
      startup, the samples published, and the replies to service requests. */
  datatype SessionLog = SessionLog(bus: Trace, status: nat, samples: seq<Emission>, replies: seq<Reply>)

  /** Every tick gives one outcome per muscle read. */
  predicate WellFormed(ticks: seq<Tick>)
  {
    forall t :: 0 <= t < |ticks| ==> |ticks[t].outcomes| == Muscles
  }

  /** The service requests over the ticks, in arrival order. */
  function AllRequests(ticks: seq<Tick>): seq<Request>
  {
    if ticks == [] then [] else AllRequests(ticks[..|ticks| - 1]) + ticks[|ticks| - 1].requests
  }

  /** The samples the poll cycles of the ticks publish, in order. */
  function AllEmitted(ticks: seq<Tick>): seq<Emission>
  {
    if ticks == [] then [] else AllEmitted(ticks[..|ticks| - 1]) + Emitted(ticks[|ticks| - 1].outcomes)
  }

  /** The driver calls the session loop makes after its startup query: on each
      pass the four reads of the poll cycle, then the writes of the requests
      served at `spinOnce`. */
  function SessionOps(ticks: seq<Tick>): Trace
  {
    if ticks == [] then []
    else SessionOps(ticks[..|ticks| - 1]) + ReadOps(Muscles) + AcceptedWrites(ticks[|ticks| - 1].requests)
  }

  /** One more tick adds its own requests, its own poll cycle's samples and its own driver calls. */
  lemma TicksPrefix(ticks: seq<Tick>, t: nat)
    requires t < |ticks|
    ensures AllRequests(ticks[..t + 1]) == AllRequests(ticks[..t]) + ticks[t].requests
    ensures AllEmitted(ticks[..t + 1]) == AllEmitted(ticks[..t]) + Emitted(ticks[t].outcomes)
    ensures SessionOps(ticks[..t + 1]) == SessionOps(ticks[..t]) + ReadOps(Muscles) + AcceptedWrites(ticks[t].requests)
  {
    assert ticks[..t + 1][..t] == ticks[..t];
  }

  /** The writes of a session are exactly as many as the requests it accepted. */
  lemma {:induction false} SessionWrites(ticks: seq<Tick>)
    ensures Writes(SessionOps(ticks)) == Accepted(RepliesTo(AllRequests(ticks)))
    ensures Writes([ConnectedGanglions] + SessionOps(ticks)) == Writes(SessionOps(ticks))
    decreases |ticks|
  {
    if ticks != [] {
      var init := ticks[..|ticks| - 1];
      var requests := ticks[|ticks| - 1].requests;
      SessionWrites(init);
      WritesAppend(SessionOps(init) + ReadOps(Muscles), AcceptedWrites(requests));
      WritesAppend(SessionOps(init), ReadOps(Muscles));
      AcceptedWritesCount(requests);
      RepliesToAppend(AllRequests(init), requests, RepliesTo(requests));
      AcceptedAppend(RepliesTo(AllRequests(init)), RepliesTo(requests));
    }
    WritesAppend([ConnectedGanglions], SessionOps(ticks));
  }

  /** Over well-formed ticks at most four samples are published per tick,
      each on one of the four muscle channels. */
  lemma {:induction false} AllEmittedBounds(ticks: seq<Tick>)
    requires WellFormed(ticks)
    ensures |AllEmitted(ticks)| <= Muscles * |ticks|
    ensures forall k :: 0 <= k < |AllEmitted(ticks)| ==> AllEmitted(ticks)[k].channel < Muscles
    decreases |ticks|
  {
    if ticks != [] {
      var init := ticks[..|ticks| - 1];
      assert WellFormed(init) by {
        forall t | 0 <= t < |init| ensures |init[t].outcomes| == Muscles {
          assert init[t] == ticks[t];
        }
      }
      AllEmittedBounds(init);
      EmittedSound(ticks[|ticks| - 1].outcomes);
    }
  }

  /** The number of accepted replies. */
  function Accepted(replies: seq<Reply>): nat
  {
    if replies == [] then 0
    else Accepted(replies[..|replies| - 1]) + (if replies[|replies| - 1].isSuccess then 1 else 0)
  }

  /** Counting accepted replies distributes over concatenation. */
  lemma {:induction false} AcceptedAppend(a: seq<Reply>, b: seq<Reply>)
    ensures Accepted(a + b) == Accepted(a) + Accepted(b)
    decreases |b|
  {
    if b == [] {
      assert a + b == a;
    } else {
      var b' := b[..|b| - 1];
      assert (a + b)[..|a + b| - 1] == a + b';
      AcceptedAppend(a, b');
    }
  }

  /** One more reply adds one to the count if it was accepted. */
  lemma AcceptedSnoc(replies: seq<Reply>, r: Reply)
    ensures Accepted(replies + [r]) == Accepted(replies) + (if r.isSuccess then 1 else 0)
  {
    assert (replies + [r])[..|replies|] == replies;
  }

  /** The replies the handler gives to the requests, one per request. */
  function RepliesTo(requests: seq<Request>): seq<Reply>
  {
    seq(|requests|, k requires 0 <= k < |requests| => Reply(true, Recognised(requests[k].action)))
  }

  /** The replies to two batches of requests are the replies to each, in order. */
  lemma RepliesToAppend(a: seq<Request>, b: seq<Request>, served: seq<Reply>)
    requires |served| == |b|
    requires forall k :: 0 <= k < |b| ==> served[k] == Reply(true, Recognised(b[k].action))
    ensures RepliesTo(a + b) == RepliesTo(a) + served
  {
  }

  /** One more request adds its own reply. */
  lemma RepliesToSnoc(pending: seq<Request>, q: nat)
    requires q < |pending|
    ensures RepliesTo(pending[..q + 1]) == RepliesTo(pending[..q]) + [Reply(true, Recognised(pending[q].action))]
  {
  }

  /** The write one request asks for: a `set` of the selected mode with the
      request's ganglion, muscle and setpoint when its action is a keyword,
      nothing otherwise. */
  function RequestedWrite(req: Request): (w: Trace)
    ensures forall mode: ControlMode :: Keyword(mode) == req.action ==>
              w == [Set(req.ganglion, req.muscle, mode, req.setpoint)]
    ensures !Recognised(req.action) ==> w == []
  {
    match ModeOf(req.action)
    case Some(mode) => [Set(req.ganglion, req.muscle, mode, req.setpoint)]
    case None => []
  }

  /** The writes a batch of requests asks for, in arrival order. */
  function AcceptedWrites(requests: seq<Request>): Trace
  {
    if requests == [] then []
    else AcceptedWrites(requests[..|requests| - 1]) + RequestedWrite(requests[|requests| - 1])
  }

  /** The handler appends exactly the write the request asks for. */
  lemma MoveMotorAppends(bus: Trace, req: Request)
    ensures MoveMotor(bus, req).bus == bus + RequestedWrite(req)
  {
  }

  /** A batch of requests asks for one write per accepted request. */
  lemma {:induction false} AcceptedWritesCount(requests: seq<Request>)
    ensures Writes(AcceptedWrites(requests)) == Accepted(RepliesTo(requests))
    decreases |requests|
  {
    if requests != [] {
      var n := |requests| - 1;
      var init := requests[..n];
      var q := requests[n];
      AcceptedWritesCount(init);
      WritesAppend(AcceptedWrites(init), RequestedWrite(q));
      assert requests[..n + 1] == requests;
      RepliesToSnoc(requests, n);
      AcceptedSnoc(RepliesTo(init), Reply(true, Recognised(q.action)));
      if Recognised(q.action) {
        WritesAppend([], RequestedWrite(q));
      }
    }
  }

  /** Three pending requests, the middle one unknown: only the first and last
      are written, in arrival order, each to its own muscle. */
  lemma AcceptedWritesExample()
    ensures AcceptedWrites([Request(0, 2, "move to", 1.5), Request(0, 1, "spin", 0.0), Request(1, 3, "keep", 2.0)])
         == [Set(0, 2, Position, 1.5), Set(1, 3, Force, 2.0)]
  {
    var r0 := Request(0, 2, "move to", 1.5);
    var r1 := Request(0, 1, "spin", 0.0);
    var r2 := Request(1, 3, "keep", 2.0);
    assert [r0, r1, r2][..2] == [r0, r1];
    assert [r0, r1][..1] == [r0];
    assert [r0][..0] == [];
    assert RequestedWrite(r0) == [Set(0, 2, Position, 1.5)];
    assert RequestedWrite(r1) == [];
    assert RequestedWrite(r2) == [Set(1, 3, Force, 2.0)];
    assert AcceptedWrites([r0]) == [Set(0, 2, Position, 1.5)];
    assert AcceptedWrites([r0, r1]) == [Set(0, 2, Position, 1.5)];
  }

  /** The bus trace after a `spinOnce` and the replies it gave, one per pending request. */
  datatype Served = Served(bus: Trace, replies: seq<Reply>)

  /** The service requests pending at one `spinOnce`, handled in arrival order. */
  method Spin(before: Trace, pending: seq<Request>) returns (served: Served)
    ensures served.bus == before + AcceptedWrites(pending)
    ensures served.replies == RepliesTo(pending)
    ensures Writes(served.bus) == Writes(before) + Accepted(served.replies)
  {
    var after := before;
    var replies := [];
    var q := 0;
    while q < |pending|
      invariant 0 <= q <= |pending|
      invariant after == before + AcceptedWrites(pending[..q])
      invariant replies == RepliesTo(pending[..q])
    {
      SpinStep(before, after, replies, pending, q);
      var h := MoveMotor(after, pending[q]);
      after, replies := h.bus, replies + [h.reply];
      q := q + 1;
    }
    assert pending[..q] == pending;
    WritesAppend(before, AcceptedWrites(pending));
    AcceptedWritesCount(pending);
    served := Served(after, replies);
  }

  /** Handling request q keeps the loop invariant of `Spin`. */
  lemma SpinStep(before: Trace, after: Trace, replies: seq<Reply>, pending: seq<Request>, q: nat)
    requires q < |pending|
    requires after == before + AcceptedWrites(pending[..q])
    requires replies == RepliesTo(pending[..q])
    ensures var h := MoveMotor(after, pending[q]);
            && h.bus == before + AcceptedWrites(pending[..q + 1])
            && replies + [h.reply] == RepliesTo(pending[..q + 1])
  {
    MoveMotorAppends(after, pending[q]);
    RecognisedIsKeyword(pending[q].action);
    assert pending[..q + 1][..q] == pending[..q];
    RepliesToSnoc(pending, q);
  }

  /** The session loop `blink`, run for as many passes as there are ticks
      (the loop itself runs until the process is asked to shut down). */
  method Blink(session: Session, ticks: seq<Tick>) returns (log: SessionLog)
    requires WellFormed(ticks)
    ensures log.bus == [ConnectedGanglions] + SessionOps(ticks)
    ensures log.status == GangliaCount(session.ganglia)
    ensures log.samples == AllEmitted(ticks)
    ensures |log.samples| <= Muscles * |ticks|
    ensures forall k :: 0 <= k < |log.samples| ==> log.samples[k].channel < Muscles
    ensures log.replies == RepliesTo(AllRequests(ticks))
    ensures |log.replies| == |AllRequests(ticks)|
    ensures forall k :: 0 <= k < |log.replies| ==>
              log.replies[k] == Reply(true, Recognised(AllRequests(ticks)[k].action))
    ensures Writes(log.bus) == Accepted(log.replies)
  {
    var bus: Trace := [ConnectedGanglions];
    var status := GangliaCount(session.ganglia);
    var samples: seq<Emission> := [];
    var replies: seq<Reply> := [];
    var t := 0;
    while t < |ticks|
      invariant 0 <= t <= |ticks|
      invariant bus == [ConnectedGanglions] + SessionOps(ticks[..t])
      invariant samples == AllEmitted(ticks[..t])
      invariant replies == RepliesTo(AllRequests(ticks[..t]))
    {
      var polled := PollCycle(bus, ticks[t].outcomes);
      var served := Spin(polled.bus, ticks[t].requests);
      BlinkStep(ticks, t, bus, replies, polled.bus, served.bus);
      bus, samples, replies := served.bus, samples + polled.emitted, replies + served.replies;
      t := t + 1;
    }
    assert ticks[..t] == ticks;
    AllEmittedBounds(ticks);
    SessionWrites(ticks);
    log := SessionLog(bus, status, samples, replies);
  }

  /** One pass of the session loop keeps the loop invariant of `Blink`. */
  lemma BlinkStep(ticks: seq<Tick>, t: nat, bus: Trace, replies: seq<Reply>, polled: Trace, served: Trace)
    requires t < |ticks|
    requires bus == [ConnectedGanglions] + SessionOps(ticks[..t])
    requires replies == RepliesTo(AllRequests(ticks[..t]))
    requires polled == bus + ReadOps(Muscles)
    requires served == polled + AcceptedWrites(ticks[t].requests)
    ensures served == [ConnectedGanglions] + SessionOps(ticks[..t + 1])
    ensures AllEmitted(ticks[..t + 1]) == AllEmitted(ticks[..t]) + Emitted(ticks[t].outcomes)
    ensures replies + RepliesTo(ticks[t].requests) == RepliesTo(AllRequests(ticks[..t + 1]))
  {
    TicksPrefix(ticks, t);
    var ops := SessionOps(ticks[..t]);
    var writes := AcceptedWrites(ticks[t].requests);
    ConcatRegroup([ConnectedGanglions], ops, ReadOps(Muscles), writes);
    RepliesToAppend(AllRequests(ticks[..t]), ticks[t].requests, RepliesTo(ticks[t].requests));
  }

  /** Helper for `BlinkStep`: sequence concatenation regrouped, kept apart
      so that the solver does not search for it among the step's other facts. */
  lemma ConcatRegroup(a: Trace, b: Trace, c: Trace, d: Trace)
    ensures ((a + b) + c) + d == a + ((b + c) + d)
  {
  }

  /** Everything observable about one run of the node. `exit` is `None` while
      the process is still running, i.e. still retrying the connection. */
  datatype NodeRun<D> = NodeRun(exit: Option<int>, attempts: seq<D>, session: Option<SessionLog>)

  /** The entry point `main`. `param` is the `/flex_bridge` parameter as a string
      (`None` when it is missing or not a string), `parse`
      the YAML decoding of it (`None` when decoding throws), `answers` the
      driver's answers to the connect attempts and `ticks` the passes of the
      session loop once connected. */
  method RunNode<D>(param: Option<string>, parse: string -> Option<D>,
                    answers: seq<ConnectOutcome<D, Session>>, ticks: seq<Tick>)
    returns (run: NodeRun<D>)
    requires WellFormed(ticks)
    ensures run.exit == Some(1) <==> param.None?
    ensures param.None? ==> run.attempts == [] && run.session.None?
    ensures param.Some? && parse(param.value).None? ==> run == NodeRun(Some(0), [], None)
    ensures param.Some? && parse(param.value).Some? ==>
              run.attempts == Run(Connecting(parse(param.value).value), answers).attempts
    ensures run.session.Some? <==>
              (param.Some? && parse(param.value).Some? &&
               exists j :: 0 <= j < |answers| && answers[j].Connected?)
    ensures run.exit.None? <==> (param.Some? && parse(param.value).Some? && run.session.None?)
    ensures param.Some? && run.exit.Some? ==> run.exit == Some(0)
    ensures run.session.Some? ==>
              param.Some? && parse(param.value).Some? &&
              (var retry := Run(Connecting(parse(param.value).value), answers);
               && retry.state.InSession?
               && run.session.value.bus == [ConnectedGanglions] + SessionOps(ticks)
               && run.session.value.status == GangliaCount(retry.state.session.ganglia)
               && run.session.value.samples == AllEmitted(ticks)
               && run.session.value.replies == RepliesTo(AllRequests(ticks)))
  {
    if param.None? {
      return NodeRun(Some(1), [], None);
    }
    var parsed := parse(param.value);
    if parsed.None? {
      // the YAML error is reported and `main` falls off its end
      return NodeRun(Some(0), [], None);
    }
    var retry := Run(Connecting(parsed.value), answers);
    if retry.state.InSession? {
      // the session loop returns when the process shuts down; the retry loop ends
      var log := Blink(retry.state.session, ticks);
      return NodeRun(Some(0), retry.attempts, Some(log));
    }
    // every answer was a refusal: the loop is still retrying
    return NodeRun(None, retry.attempts, None);
  }
}

/**
 The `/myo_blink/move` service handler: an action keyword selects a control
 mode, and a recognised keyword becomes exactly one write to the addressed
 muscle.
 */
module Dispatch {
  import opened Wrappers
  import opened Bus

  /** A `moveMotor` service request. */
  datatype Request = Request(ganglion: int, muscle: int, action: string, setpoint: Value)

  /** What the handler hands back: its own return value and the response's `is_success`. */
  datatype Reply = Reply(returned: bool, isSuccess: bool)

  /** A handled request: the reply and the bus trace after the handler ran. */
  datatype Handled = Handled(reply: Reply, bus: Trace)

  /** The action keyword that selects each control mode. */
  function Keyword(mode: ControlMode): string
  {
    match mode
    case Position => "move to"
    case Velocity => "move with"
    case Force => "keep"
  }

  /** The control mode an action selects: exact, case-sensitive keyword match. */
  function ModeOf(action: string): (m: Option<ControlMode>)
    ensures m.Some? ==> Keyword(m.value) == action
    ensures m.None? ==> forall mode: ControlMode :: Keyword(mode) != action
  {
    if action == "move to" then Some(Position)
    else if action == "move with" then Some(Velocity)
    else if action == "keep" then Some(Force)
    else None
  }

  /** Each mode's keyword selects that mode again, and no two modes share a keyword. */
  lemma KeywordRoundTrip(mode: ControlMode, other: ControlMode)
    ensures ModeOf(Keyword(mode)) == Some(mode)
    ensures Keyword(mode) == Keyword(other) ==> mode == other
  {
  }

  /** True when the action selects a control mode. */
  predicate Recognised(action: string)
  {
    ModeOf(action).Some?
  }

  /** The recognised actions are exactly the three keywords. */
  lemma RecognisedIsKeyword(action: string)
    ensures Recognised(action) <==> exists mode: ControlMode :: Keyword(mode) == action
  {
    if Recognised(action) {
      assert Keyword(ModeOf(action).value) == action;
    }
  }

  /** Matching is exact and case-sensitive: near misses are rejected. */
  lemma NearMissesRejected()
    ensures !Recognised("Move to") && !Recognised("move to ") && !Recognised("KEEP") && !Recognised("move")
  {
  }

  /** The service handler `MyoMotor::moveMotor`, applied to the bus trace so far. */
  function MoveMotor(bus: Trace, req: Request): (h: Handled)
    ensures h.reply.returned
    ensures h.reply.isSuccess <==> exists mode: ControlMode :: Keyword(mode) == req.action
    ensures forall mode: ControlMode :: Keyword(mode) == req.action ==>
              h.bus == bus + [Set(req.ganglion, req.muscle, mode, req.setpoint)]
    ensures !h.reply.isSuccess ==> h.bus == bus
  {
    match ModeOf(req.action)
    case Some(mode) => Handled(Reply(true, true), bus + [Set(req.ganglion, req.muscle, mode, req.setpoint)])
    case None => Handled(Reply(true, false), bus)
  }

  /** A handled request adds one write when accepted and none when rejected,
      and leaves the earlier trace as it was. */
  lemma MoveMotorWrites(bus: Trace, req: Request)
    ensures var h := MoveMotor(bus, req);
            && bus <= h.bus
            && Writes(h.bus) == Writes(bus) + (if h.reply.isSuccess then 1 else 0)
  {
    var h := MoveMotor(bus, req);
    if h.reply.isSuccess {
      var mode := ModeOf(req.action).value;
      WritesAppend(bus, [Set(req.ganglion, req.muscle, mode, req.setpoint)]);
    }
  }

  /** A "move to" request for muscle 2 of ganglion 0 at 1.5 writes Position 1.5 there. */
  lemma MoveToExample(bus: Trace)
    ensures MoveMotor(bus, Request(0, 2, "move to", 1.5))
         == Handled(Reply(true, true), bus + [Set(0, 2, Position, 1.5)])
  {
  }

  /** A "spin" request is rejected and writes nothing. */
  lemma UnknownActionExample(bus: Trace)
    ensures MoveMotor(bus, Request(0, 0, "spin", 0.0)) == Handled(Reply(true, false), bus)
  {
  }
}

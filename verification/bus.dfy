/**
 The FlexRay USB driver as the node sees it. The driver itself is not modelled:
 every request the node makes of a live connection is recorded, in order, in a
 trace of bus operations, and the driver's answers are supplied as inputs.
 */
module Bus {

  /** How a muscle's local controller interprets a setpoint. */
  datatype ControlMode = Position | Velocity | Force

  /** Setpoints and sensor readings are floating-point values that the node
      only copies; `real` stands in for them. */
  type Value = real

  /** One sensor snapshot of a muscle (the driver's `muscleState_t`). */
  datatype MuscleState = MuscleState(
    tendonDisplacement: Value,
    actuatorCurrent: Value,
    actuatorVel: Value,
    actuatorPos: Value,
    jointPos: Value)

  /** A request made of a live FlexRay connection. */
  datatype Op =
    | Set(ganglion: int, muscle: int, mode: ControlMode, setpoint: Value)
    | ReadMuscle(ganglion: int, muscle: int)
    | ConnectedGanglions

  type Trace = seq<Op>

  /** The number of writes (`set` calls) in a trace. */
  function Writes(t: Trace): (n: nat)
    ensures n <= |t|
  {
    if t == [] then 0
    else Writes(t[..|t| - 1]) + (if t[|t| - 1].Set? then 1 else 0)
  }

  lemma {:induction false} WritesAppend(a: Trace, b: Trace)
    ensures Writes(a + b) == Writes(a) + Writes(b)
    decreases |b|
  {
    if b == [] {
      assert a + b == a;
    } else {
      var b' := b[..|b| - 1];
      assert (a + b)[..|a + b| - 1] == a + b';
      WritesAppend(a, b');
    }
  }

  /** The set of ganglia the driver reports as connected, as the bitset
      `connected_ganglions()` returns: slot i is true when ganglion i answers. */
  function GangliaCount(connected: seq<bool>): (n: nat)
    ensures n <= |connected|
    ensures n == |ConnectedIndices(connected)|
  {
    if connected == [] then 0
    else
      var init := connected[..|connected| - 1];
      var rest := GangliaCount(init);
      assert ConnectedIndices(connected)
          == ConnectedIndices(init) + (if connected[|connected| - 1] then {|init|} else {});
      rest + (if connected[|connected| - 1] then 1 else 0)
  }

  /** The indices of the connected ganglia. */
  ghost function ConnectedIndices(connected: seq<bool>): set<nat>
  {
    set i: nat | i < |connected| && connected[i]
  }

  /** A bitset with ganglia 0, 2 and 3 connected reports three ganglia. */
  lemma ThreeGangliaExample()
    ensures GangliaCount([true, false, true, true]) == 3
  {
    assert [true][..0] == [];
    assert GangliaCount([true]) == 1;
    assert [true, false][..1] == [true];
    assert GangliaCount([true, false]) == 1;
    assert [true, false, true][..2] == [true, false];
    assert GangliaCount([true, false, true]) == 2;
    assert [true, false, true, true][..3] == [true, false, true];
  }
}

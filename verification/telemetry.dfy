/**
 One telemetry poll cycle of the session loop: muscles 0..3 of ganglion 0 are
 read in order, and each successful read is published on the channel of the
 muscle it came from. A failed read publishes nothing and does not stop the
 cycle.
 */
module Telemetry {
  import opened Bus

  /** The ganglion the cycle reads. */
  const Ganglion: int := 0

  /** The number of muscles read per cycle, which is also the number of sensor channels. */
  const Muscles: nat := 4

  /** The reads of muscles 0 .. n - 1 of the polled ganglion, in the order they are made. */
  function ReadOps(n: nat): (t: Trace)
    ensures |t| == n
    ensures forall k :: 0 <= k < n ==> t[k] == ReadMuscle(Ganglion, k)
    ensures Writes(t) == 0
  {
    if n == 0 then [] else ReadOps(n - 1) + [ReadMuscle(Ganglion, n - 1)]
  }

  /** The driver's answer to one `read_muscle` call. */
  datatype ReadOutcome = Sample(state: MuscleState) | ReadError

  /** One published sample: the channel (`/myo_blink/muscles/<channel>/sensors`) and its content. */
  datatype Emission = Emission(channel: nat, state: MuscleState)

  /** What reading the last muscle of the outcomes contributes. */
  function LastEmitted(outcomes: seq<ReadOutcome>): seq<Emission>
    requires outcomes != []
  {
    var last := |outcomes| - 1;
    match outcomes[last]
    case Sample(s) => [Emission(last, s)]
    case ReadError => []
  }

  /** The samples published for the outcomes of reading muscles 0, 1, ..., in order. */
  function Emitted(outcomes: seq<ReadOutcome>): seq<Emission>
  {
    if outcomes == [] then []
    else Emitted(outcomes[..|outcomes| - 1]) + LastEmitted(outcomes)
  }

  /** There is at most one sample per read, and each published sample sits on
      the channel of the muscle it was read from and carries that read's state. */
  lemma {:induction false} EmittedSound(outcomes: seq<ReadOutcome>)
    ensures |Emitted(outcomes)| <= |outcomes|
    ensures forall k :: 0 <= k < |Emitted(outcomes)| ==>
              Emitted(outcomes)[k].channel < |outcomes|
              && outcomes[Emitted(outcomes)[k].channel] == Sample(Emitted(outcomes)[k].state)
    decreases |outcomes|
  {
    if outcomes != [] {
      var init := outcomes[..|outcomes| - 1];
      var e0 := Emitted(init);
      var e := e0 + LastEmitted(outcomes);
      assert Emitted(outcomes) == e;
      EmittedSound(init);
      forall k | 0 <= k < |e|
        ensures e[k].channel < |outcomes| && outcomes[e[k].channel] == Sample(e[k].state)
      {
        if k < |e0| {
          assert e[k] == e0[k];
          assert init[e0[k].channel] == outcomes[e0[k].channel];
        }
      }
    }
  }

  /** Samples are published in increasing channel order. */
  lemma {:induction false} EmittedOrdered(outcomes: seq<ReadOutcome>)
    ensures forall j, k :: 0 <= j < k < |Emitted(outcomes)| ==>
              Emitted(outcomes)[j].channel < Emitted(outcomes)[k].channel
    decreases |outcomes|
  {
    if outcomes != [] {
      var init := outcomes[..|outcomes| - 1];
      var e0 := Emitted(init);
      var e := e0 + LastEmitted(outcomes);
      assert Emitted(outcomes) == e;
      EmittedOrdered(init);
      EmittedSound(init);
      forall j, k | 0 <= j < k < |e| ensures e[j].channel < e[k].channel {
        if k < |e0| {
          assert e[j] == e0[j] && e[k] == e0[k];
        } else {
          assert e[j] == e0[j];
        }
      }
    }
  }

  /** Every successful read is published. */
  lemma {:induction false} EmittedComplete(outcomes: seq<ReadOutcome>, i: nat)
    requires i < |outcomes| && outcomes[i].Sample?
    ensures Emission(i, outcomes[i].state) in Emitted(outcomes)
    decreases |outcomes|
  {
    var last := |outcomes| - 1;
    if i < last {
      EmittedComplete(outcomes[..last], i);
    }
  }

  /** The number of successful reads among the outcomes. */
  function Successes(outcomes: seq<ReadOutcome>): nat
  {
    if outcomes == [] then 0
    else Successes(outcomes[..|outcomes| - 1]) + (if outcomes[|outcomes| - 1].Sample? then 1 else 0)
  }

  /** A cycle publishes exactly one sample per successful read. */
  lemma {:induction false} EmittedCount(outcomes: seq<ReadOutcome>)
    ensures |Emitted(outcomes)| == Successes(outcomes)
    decreases |outcomes|
  {
    if outcomes != [] {
      EmittedCount(outcomes[..|outcomes| - 1]);
    }
  }

  /** The emissions without those on one channel. */
  function Without(e: seq<Emission>, channel: nat): (r: seq<Emission>)
    ensures forall k :: 0 <= k < |r| ==> r[k].channel != channel
  {
    if e == [] then []
    else
      var keep := if e[|e| - 1].channel == channel then [] else [e[|e| - 1]];
      Without(e[..|e| - 1], channel) + keep
  }

  /** Isolation: a failed read of muscle i removes the sample of muscle i and
      leaves every other muscle's sample exactly as it would otherwise be. */
  lemma {:induction false} ReadErrorIsolation(outcomes: seq<ReadOutcome>, i: nat)
    requires i < |outcomes|
    ensures Emitted(outcomes[i := ReadError]) == Without(Emitted(outcomes), i)
    decreases |outcomes|, 1
  {
    if i < |outcomes| - 1 {
      IsolationBeforeLast(outcomes, i);
    } else {
      IsolationAtLast(outcomes);
    }
  }

  /** Isolation when the failed read is not the last one: induction on the outcomes before it. */
  lemma {:induction false} IsolationBeforeLast(outcomes: seq<ReadOutcome>, i: nat)
    requires i < |outcomes| - 1
    ensures Emitted(outcomes[i := ReadError]) == Without(Emitted(outcomes), i)
    decreases |outcomes|, 0
  {
    var last := |outcomes| - 1;
    var init := outcomes[..last];
    var failed := outcomes[i := ReadError];
    var tail := LastEmitted(outcomes);
    assert failed[..last] == init[i := ReadError];
    assert LastEmitted(failed) == tail;
    calc {
      Emitted(failed);
      Emitted(init[i := ReadError]) + tail;
      { ReadErrorIsolation(init, i); }
      Without(Emitted(init), i) + tail;
      { WithoutLast(outcomes, i); }
      Without(Emitted(init), i) + Without(tail, i);
      { WithoutAppend(Emitted(init), tail, i); }
      Without(Emitted(init) + tail, i);
    }
  }

  /** Isolation when the failed read is the last one: it only drops that read's own sample. */
  lemma IsolationAtLast(outcomes: seq<ReadOutcome>)
    requires outcomes != []
    ensures Emitted(outcomes[|outcomes| - 1 := ReadError]) == Without(Emitted(outcomes), |outcomes| - 1)
  {
    var last := |outcomes| - 1;
    var init := outcomes[..last];
    var failed := outcomes[last := ReadError];
    var tail := LastEmitted(outcomes);
    assert failed[..last] == init;
    calc {
      Emitted(failed);
      Emitted(init);
      { EmittedSound(init); NoChannelWithout(Emitted(init), last); }
      Without(Emitted(init), last);
      { WithoutLast(outcomes, last); }
      Without(Emitted(init), last) + Without(tail, last);
      { WithoutAppend(Emitted(init), tail, last); }
      Without(Emitted(init) + tail, last);
    }
  }

  /** Filtering the last read's contribution. */
  lemma WithoutLast(outcomes: seq<ReadOutcome>, channel: nat)
    requires outcomes != []
    ensures Without(LastEmitted(outcomes), channel)
         == if channel == |outcomes| - 1 then [] else LastEmitted(outcomes)
  {
    var tail := LastEmitted(outcomes);
    if tail != [] {
      assert tail[..0] == [];
    }
  }

  /** Filtering distributes over concatenation. */
  lemma {:induction false} WithoutAppend(a: seq<Emission>, b: seq<Emission>, channel: nat)
    ensures Without(a + b, channel) == Without(a, channel) + Without(b, channel)
    decreases |b|
  {
    if b == [] {
      assert a + b == a;
    } else {
      var b' := b[..|b| - 1];
      assert (a + b)[..|a + b| - 1] == a + b';
      WithoutAppend(a, b', channel);
    }
  }

  /** Filtering a channel above every sample's channel changes nothing. */
  lemma {:induction false} NoChannelWithout(e: seq<Emission>, channel: nat)
    requires forall k :: 0 <= k < |e| ==> e[k].channel < channel
    ensures Without(e, channel) == e
    decreases |e|
  {
    if e != [] {
      var init := e[..|e| - 1];
      assert forall k :: 0 <= k < |init| ==> init[k] == e[k];
      NoChannelWithout(init, channel);
      assert e[|e| - 1].channel != channel;
      assert Without(e, channel) == init + [e[|e| - 1]];
      assert init + [e[|e| - 1]] == e;
    }
  }

  /** The bus trace after a poll cycle and the samples it published. */
  datatype Polled = Polled(bus: Trace, emitted: seq<Emission>)

  /** One pass of the poll loop: `outcomes[i]` is the driver's answer to reading muscle i. */
  method PollCycle(before: Trace, outcomes: seq<ReadOutcome>) returns (polled: Polled)
    requires |outcomes| == Muscles
    ensures polled.bus == before + ReadOps(Muscles)
    ensures Writes(polled.bus) == Writes(before)
    ensures polled.emitted == Emitted(outcomes)
  {
    var after := before;
    var emitted := [];
    var i := 0;
    while i < Muscles
      invariant 0 <= i <= Muscles
      invariant after == before + ReadOps(i)
      invariant emitted == Emitted(outcomes[..i])
    {
      var read := ReadMuscle(Ganglion, i);
      assert before + ReadOps(i + 1) == after + [read];
      after := after + [read];
      EmittedPrefix(outcomes, i);
      match outcomes[i] {
        case Sample(state) =>
          emitted := emitted + [Emission(i, state)];
        case ReadError =>
      }
      i := i + 1;
    }
    assert outcomes[..Muscles] == outcomes;
    WritesAppend(before, ReadOps(Muscles));
    polled := Polled(after, emitted);
  }

  /** Reading one more muscle appends at most its own sample. */
  lemma EmittedSnoc(outcomes: seq<ReadOutcome>, x: ReadOutcome)
    ensures Emitted(outcomes + [x])
         == Emitted(outcomes) + (if x.Sample? then [Emission(|outcomes|, x.state)] else [])
  {
    assert (outcomes + [x])[..|outcomes|] == outcomes;
  }

  /** Extending the outcomes read so far by muscle i appends at most muscle i's sample. */
  lemma EmittedPrefix(outcomes: seq<ReadOutcome>, i: nat)
    requires i < |outcomes|
    ensures Emitted(outcomes[..i + 1])
         == Emitted(outcomes[..i]) + (if outcomes[i].Sample? then [Emission(i, outcomes[i].state)] else [])
  {
    assert outcomes[..i + 1] == outcomes[..i] + [outcomes[i]];
    EmittedSnoc(outcomes[..i], outcomes[i]);
  }

  /** The second read fails: muscles 0, 2 and 3 are published, on their own channels. */
  lemma OneFailureExample(a: MuscleState, c: MuscleState, d: MuscleState)
    ensures Emitted([Sample(a), ReadError, Sample(c), Sample(d)])
         == [Emission(0, a), Emission(2, c), Emission(3, d)]
  {
    var o0: seq<ReadOutcome> := [];
    var o1 := o0 + [Sample(a)];
    var o2 := o1 + [ReadError];
    var o3 := o2 + [Sample(c)];
    var o4 := o3 + [Sample(d)];
    EmittedSnoc(o0, Sample(a));
    EmittedSnoc(o1, ReadError);
    EmittedSnoc(o2, Sample(c));
    EmittedSnoc(o3, Sample(d));
    assert Emitted(o3) == [Emission(0, a), Emission(2, c)];
    assert o4 == [Sample(a), ReadError, Sample(c), Sample(d)];
  }
}

/**
 The connect/retry loop of the node's entry point. Each attempt hands the
 current bus description to the driver's `connect`. A refusal hands back a
 description, which becomes the next attempt's input; a connection hands the
 session to the session loop, and once that loop returns no further attempt is
 made.

 The description type `D` and the session type `S` are opaque to the loop.
 */
module Connection {

  /** The driver's answer to one `connect` call. */
  datatype ConnectOutcome<D, S> =
    | Connected(session: S)
    | Refused(desc: D, reason: string)

  /** Where the retry loop is. */
  datatype RetryState<D, S> =
    | Connecting(desc: D)    // the next attempt will use `desc`
    | InSession(session: S)  // the session loop owns the live connection
    | Done                   // the session loop returned; the retry loop has ended

  /** One transition. From `Connecting` it consumes the driver's answer to
      the attempt; from `InSession` the session loop returns and the loop
      condition is false, so `answer` is not consulted. */
  function Step<D, S>(st: RetryState<D, S>, answer: ConnectOutcome<D, S>): (next: RetryState<D, S>)
    ensures next.Connecting? <==> st.Connecting? && answer.Refused?
    ensures next.Connecting? ==> next.desc == answer.desc
    ensures next.InSession? <==> st.Connecting? && answer.Connected?
    ensures next.InSession? ==> next.session == answer.session
    ensures next.Done? <==> !st.Connecting?
  {
    match st
    case Connecting(_) =>
      (match answer
       case Connected(s) => InSession(s)
       case Refused(d, _) => Connecting(d))
    case InSession(_) => Done
    case Done => Done
  }

  /** The descriptions handed to `connect`, in order, and the state afterwards. */
  datatype Retry<D, S> = Retry(attempts: seq<D>, state: RetryState<D, S>)

  /** The retry loop started in `st`, where `answers[k]` is the driver's
      answer to the k-th attempt. The loop stops attempting once it is no
      longer connecting; if the answers run out first it is still connecting. */
  function Run<D, S>(st: RetryState<D, S>, answers: seq<ConnectOutcome<D, S>>): (r: Retry<D, S>)
    ensures !st.Connecting? ==> r == Retry([], st)
    ensures |r.attempts| <= |answers|
    ensures st.Connecting? && answers != [] ==> |r.attempts| > 0 && r.attempts[0] == st.desc
    ensures forall k :: 0 <= k < |r.attempts| - 1 ==>
              answers[k].Refused? && r.attempts[k + 1] == answers[k].desc
    ensures st.Connecting? ==> !r.state.Done?
    ensures st.Connecting? && r.state.Connecting? ==>
              |r.attempts| == |answers| && forall k :: 0 <= k < |answers| ==> answers[k].Refused?
    ensures st.Connecting? && r.state.InSession? ==>
              |r.attempts| > 0 && answers[|r.attempts| - 1] == Connected(r.state.session)
    ensures r.state.Connecting? ==>
              r.state.desc == (if r.attempts == [] then st.desc else answers[|r.attempts| - 1].desc)
    decreases |answers|
  {
    if !st.Connecting? || answers == [] then Retry([], st)
    else
      var rest := Run(Step(st, answers[0]), answers[1..]);
      Retry([st.desc] + rest.attempts, rest.state)
  }

  /** A successful connect ends the attempts: when answer j is the first
      connection, exactly j + 1 attempts are made and the session is the one
      the driver returned. */
  lemma {:induction false} FirstConnectionEndsRetry<D, S>(d: D, answers: seq<ConnectOutcome<D, S>>, j: nat)
    requires j < |answers| && answers[j].Connected?
    requires forall k :: 0 <= k < j ==> answers[k].Refused?
    ensures |Run(Connecting(d), answers).attempts| == j + 1
    ensures Run(Connecting(d), answers).state == InSession(answers[j].session)
    decreases j
  {
    if j > 0 {
      FirstConnectionEndsRetry(answers[0].desc, answers[1..], j - 1);
    }
  }

  /** After the session loop returns the retry loop makes no further attempt,
      whatever the driver would answer. */
  lemma NoAttemptAfterSession<D, S>(s: S, answer: ConnectOutcome<D, S>, answers: seq<ConnectOutcome<D, S>>)
    ensures Step(InSession(s), answer) == Done
    ensures Run(Step(InSession(s), answer), answers) == Retry([], Done)
  {
  }

  /** A driver that hands back on refusal the description it was given. */
  ghost predicate ReturnsDescription<D, S>(d: D, answers: seq<ConnectOutcome<D, S>>)
  {
    forall k :: 0 <= k < |answers| ==> answers[k].Refused? ==> answers[k].desc == d
  }

  /** Against such a driver every attempt uses the original description:
      repeated refusals never change it. */
  lemma {:induction false} RetryKeepsDescription<D, S>(d: D, answers: seq<ConnectOutcome<D, S>>)
    requires ReturnsDescription(d, answers)
    ensures forall k :: 0 <= k < |Run(Connecting(d), answers).attempts| ==>
              Run(Connecting(d), answers).attempts[k] == d
    decreases |answers|
  {
    if answers != [] && answers[0].Refused? {
      RetryKeepsDescription(d, answers[1..]);
    }
  }
}

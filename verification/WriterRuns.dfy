/** The writer's control protocol over whole runs: appends, failures, cancellations, the finish. */
module WriterRuns {
  datatype Answer = Succeeded | Failed | Dropped

  datatype Event = Append(answer: Answer) | Finish(answer: Answer)

  /** What an event may do, given whether the writer is poisoned before and after it. */
  predicate Step(poisoned: bool, e: Event, after: bool) {
    match e
    case Append(answer) =>
      if poisoned then answer == Failed && after
      else after == (answer != Succeeded)
    case Finish(answer) => poisoned ==> answer == Failed
  }

  predicate Run(states: seq<bool>, es: seq<Event>) {
    && |states| == |es| + 1 && !states[0]
    && forall i :: 0 <= i < |es| ==> Step(states[i], es[i], states[i + 1])
  }

  lemma {:induction false} CleanMeansAllSucceeded(states: seq<bool>, es: seq<Event>, n: nat)
    requires Run(states, es) && n <= |es| && !states[n]
    requires forall i :: 0 <= i < n ==> es[i].Append?
    ensures forall i :: 0 <= i < n ==> es[i].answer == Succeeded
  {
    if n > 0 {
      assert Step(states[n - 1], es[n - 1], states[n]);
      CleanMeansAllSucceeded(states, es, n - 1);
    }
  }

  /**
   Run safety: `finish`, which ends a run because it consumes the writer, can succeed only
   if every append before it succeeded, none of them failed and none was abandoned.
   */
  lemma FinishMeansAllSucceeded(states: seq<bool>, es: seq<Event>)
    requires Run(states, es) && es != [] && es[|es| - 1] == Finish(Succeeded)
    requires forall i :: 0 <= i < |es| - 1 ==> es[i].Append?
    ensures forall i :: 0 <= i < |es| - 1 ==> es[i] == Append(Succeeded)
  {
    assert Step(states[|es| - 1], es[|es| - 1], states[|es|]);
    CleanMeansAllSucceeded(states, es, |es| - 1);
  }
}

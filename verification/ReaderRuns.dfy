/**
 The reader's control protocol as a transition relation, and what it keeps over whole
 runs: any interleaving of calls, body reads, failures and cancellations.
 */
module ReaderRuns {
  import opened Base

  /** Poisoned by a failure or cancellation; finished; entries counted; entries yielded. */
  datatype Control = Control(poisoned: bool, done: bool, seen: nat, yielded: nat)

  datatype Answer = Yielded | Ended | Refused | Dropped

  /** A `next_entry` call with its answer, or one poll of a lent body and whether it failed. */
  datatype Event = Next(answer: Answer) | Body(failed: bool)

  const START := Control(false, false, 0, 0)

  /** What one event may do to the control state when at most `limit` entries are allowed. */
  predicate Step(limit: nat, c: Control, e: Event, d: Control) {
    match e
    case Body(failed) => !c.done && d == c.(poisoned := c.poisoned || failed)
    case Next(answer) =>
      if c.poisoned then answer == Refused && d == c
      else if c.done then answer == Ended && d == c
      else
        match answer
        case Yielded => c.seen < limit && d == c.(seen := c.seen + 1, yielded := c.yielded + 1)
        case Ended => d == c.(done := true)
        case Refused => d.poisoned && !d.done && d.yielded == c.yielded
        case Dropped => d.poisoned && !d.done && d.yielded == c.yielded
  }

  /** A run: one control state before and after every event. */
  predicate Run(limit: nat, cs: seq<Control>, es: seq<Event>) {
    && |cs| == |es| + 1 && cs[0] == START
    && forall i :: 0 <= i < |es| ==> Step(limit, cs[i], es[i], cs[i + 1])
  }

  function Yields(es: seq<Event>): nat {
    if es == [] then 0 else Yields(es[..|es| - 1]) + if es[|es| - 1] == Next(Yielded) then 1 else 0
  }

  /** What holds in every reachable control state. */
  lemma {:induction false} Reachable(limit: nat, cs: seq<Control>, es: seq<Event>, n: nat)
    requires Run(limit, cs, es) && n <= |es|
    ensures cs[n].yielded == Yields(es[..n]) <= limit
    ensures !(cs[n].poisoned && cs[n].done)
    ensures !cs[n].poisoned ==> cs[n].seen == cs[n].yielded
  {
    if n > 0 {
      Reachable(limit, cs, es, n - 1);
      assert es[..n][..n - 1] == es[..n - 1];
      assert Step(limit, cs[n - 1], es[n - 1], cs[n]);
    }
  }

  lemma {:induction false} StaysPoisoned(limit: nat, cs: seq<Control>, es: seq<Event>, i: nat, j: nat)
    requires Run(limit, cs, es) && i <= j <= |es| && cs[i].poisoned
    ensures cs[j].poisoned && cs[j].yielded == cs[i].yielded
  {
    if i < j {
      StaysPoisoned(limit, cs, es, i, j - 1);
      assert Step(limit, cs[j - 1], es[j - 1], cs[j]);
    }
  }

  lemma {:induction false} StaysDone(limit: nat, cs: seq<Control>, es: seq<Event>, i: nat, j: nat)
    requires Run(limit, cs, es) && i <= j <= |es| && cs[i].done && !cs[i].poisoned
    ensures cs[j] == cs[i]
  {
    if i < j {
      StaysDone(limit, cs, es, i, j - 1);
      assert Step(limit, cs[j - 1], es[j - 1], cs[j]);
    }
  }

  /**
   Run safety. After any failed or abandoned call or failed body read, every later call
   is refused; after a clean end, every later call ends cleanly again; and no run
   yields more entries than the limit.
   */
  lemma RunSafety(limit: nat, cs: seq<Control>, es: seq<Event>, i: nat, j: nat)
    requires Run(limit, cs, es) && i < j < |es| && es[j].Next?
    ensures es[i] in {Next(Refused), Next(Dropped), Body(true)} ==> es[j].answer == Refused
    ensures es[i] == Next(Ended) ==> es[j].answer == Ended
    ensures Yields(es) <= limit
  {
    Reachable(limit, cs, es, i);
    Reachable(limit, cs, es, |es|);
    assert es[..|es|] == es;
    assert Step(limit, cs[i], es[i], cs[i + 1]);
    assert Step(limit, cs[j], es[j], cs[j + 1]);
    if es[i] in {Next(Refused), Next(Dropped), Body(true)} {
      StaysPoisoned(limit, cs, es, i + 1, j);
    } else if es[i] == Next(Ended) {
      StaysDone(limit, cs, es, i + 1, j);
    }
  }

  lemma RunSnoc(limit: nat, cs: seq<Control>, es: seq<Event>, e: Event, d: Control)
    requires Run(limit, cs, es) && Step(limit, cs[|es|], e, d)
    ensures Run(limit, cs + [d], es + [e])
  {
  }

  /** The promises about runs, for all pairs of calls at once, and what a clean end leaves behind. */
  lemma AllPromises(limit: nat, cs: seq<Control>, es: seq<Event>)
    requires Run(limit, cs, es)
    ensures cs[|es|].yielded == Yields(es) <= limit
    ensures forall i, j :: 0 <= i < j < |es| && es[j].Next? && es[i] in {Next(Refused), Next(Dropped), Body(true)} ==>
      es[j].answer == Refused
    ensures forall i, j :: 0 <= i < j < |es| && es[j].Next? && es[i] == Next(Ended) ==> es[j].answer == Ended
    ensures (exists i :: 0 <= i < |es| && es[i] == Next(Ended)) ==> cs[|es|].done
  {
    assert es[..|es|] == es;
    Reachable(limit, cs, es, |es|);
    forall i, j | 0 <= i < j < |es| && es[j].Next?
      ensures es[i] in {Next(Refused), Next(Dropped), Body(true)} ==> es[j].answer == Refused
      ensures es[i] == Next(Ended) ==> es[j].answer == Ended
    {
      RunSafety(limit, cs, es, i, j);
    }
    forall i | 0 <= i < |es| && es[i] == Next(Ended)
      ensures cs[|es|].done
    {
      EndStays(limit, cs, es, i);
    }
  }

  lemma EndStays(limit: nat, cs: seq<Control>, es: seq<Event>, i: nat)
    requires Run(limit, cs, es) && i < |es| && es[i] == Next(Ended)
    ensures cs[|es|].done
  {
    assert Step(limit, cs[i], es[i], cs[i + 1]);
    Reachable(limit, cs, es, i);
    StaysDone(limit, cs, es, i + 1, |es|);
  }
}

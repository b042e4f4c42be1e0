/** A message never runs before its delay has passed since it was posted. */
module MessageDelays {
  import opened Messages
  import opened MessageRuns

  /** Over every run, each run of a message is at its time of delivery or later. */
  lemma NeverEarly(actions: seq<Action>, k: nat)
    requires k < |Run(actions).log|
    ensures var r := Run(actions).log[k]; r.m.deliverAt <= r.at <= Run(actions).now
  {
    RunInTime(actions);
    assert Due(Run(actions).log[k].m, Run(actions).log[k].at);
    RunNotNegative(actions, k);
  }

  lemma {:induction false} RunNotNegative(actions: seq<Action>, k: nat)
    requires k < |Run(actions).log|
    ensures Run(actions).log[k].at >= 0.0
    decreases |actions|
  {
    var before, a := actions[..|actions| - 1], actions[|actions| - 1];
    RunInTime(before);
    if k < |Run(before).log| {
      RunNotNegative(before, k);
    }
  }

  /** The message is not due before a time, and the time now is not before another. */
  predicate NotBefore(m: Message, id: nat, time: real, start: real) {
    m.id == id ==> m.deliverAt >= time || (m.deliverAt == 0.0 && time == start)
  }

  predicate AllNotBefore(q: seq<Message>, id: nat, time: real, start: real) {
    forall k | 0 <= k < |q| :: NotBefore(q[k], id, time, start)
  }

  /** Neither has it run before the time, nor will it. */
  predicate Holds(s: State, id: nat, time: real, start: real) {
    && s.now >= start && time >= start && id <= |s.posted|
    && AllNotBefore(s.queue, id, time, start) && AllNotBefore(s.batch, id, time, start)
    && (s.current.Running? && s.current.m.id == id ==> s.current.m.deliverAt >= time)
    && (forall k | 0 <= k < |s.log| && s.log[k].m.id == id :: s.log[k].at >= time)
  }

  lemma InsertNotBefore(q: seq<Message>, m: Message, id: nat, time: real, start: real)
    requires Sorted(q) && AllNotBefore(q, id, time, start) && NotBefore(m, id, time, start)
    ensures AllNotBefore(Insert(q, m), id, time, start)
  {
    InsertStable(q, m);
  }

  lemma WithoutNotBefore(q: seq<Message>, gone: nat, id: nat, time: real, start: real)
    requires AllNotBefore(q, id, time, start)
    ensures AllNotBefore(Without(q, gone), id, time, start)
  {
    var r := Without(q, gone);
    forall k | 0 <= k < |r| ensures NotBefore(r[k], id, time, start) {
      assert r[k] in q;
    }
  }

  lemma PartsNotBefore(a: seq<Message>, b: seq<Message>, id: nat, time: real, start: real)
    requires AllNotBefore(a + b, id, time, start)
    ensures AllNotBefore(a, id, time, start) && AllNotBefore(b, id, time, start)
  {
    assert forall k | 0 <= k < |a| :: a[k] == (a + b)[k];
    assert forall k | 0 <= k < |b| :: b[k] == (a + b)[|a| + k];
  }

  lemma StepHolds(s: State, a: Action, id: nat, time: real, start: real)
    requires InLine(s) && Holds(s, id, time, start)
    ensures Holds(Step(s, a), id, time, start)
  {
    match a
    case Passes(_) =>
    case Posts(delay, interval) =>
      if delay >= 0.0 {
        InsertNotBefore(s.queue, NewMessage(s, delay, interval), id, time, start);
      }
    case Cancels(gone) => WithoutNotBefore(s.queue, gone, id, time, start);
    case Takes =>
      if s.current.Nothing? && s.batch == [] {
        BatchIsPrefix(s.queue, s.now);
        PartsNotBefore(DueOf(s.queue, s.now), LaterOf(s.queue, s.now), id, time, start);
      }
    case Begins =>
      if s.current.Nothing? && s.batch != [] {
        assert Due(s.batch[0], s.now) && NotBefore(s.batch[0], id, time, start);
      }
    case Ends(cancelSelf) =>
      if s.current.Running? && s.current.m.interval > 0.0 && !cancelSelf {
        InsertNotBefore(s.queue, s.current.m.(deliverAt := s.current.m.deliverAt + s.current.m.interval), id, time,
                        start);
      }
  }

  lemma {:induction false} RunHolds(actions: seq<Action>, more: seq<Action>, id: nat, time: real, start: real)
    requires Holds(Run(actions), id, time, start)
    ensures Holds(Run(actions + more), id, time, start)
    decreases |more|
  {
    if more == [] {
      assert actions + more == actions;
    } else {
      var before, a := more[..|more| - 1], more[|more| - 1];
      RunHolds(actions, before, id, time, start);
      OneMore(actions + before, a, id, time, start);
      LastOf(actions, more);
    }
  }

  lemma OneMore(actions: seq<Action>, a: Action, id: nat, time: real, start: real)
    requires Holds(Run(actions), id, time, start)
    ensures Holds(Run(actions + [a]), id, time, start)
  {
    RunInLine(actions);
    StepHolds(Run(actions), a, id, time, start);
    RunMore(actions, a);
  }

  lemma LastOf(a: seq<Action>, b: seq<Action>)
    requires b != []
    ensures a + b == a + b[..|b| - 1] + [b[|b| - 1]]
  {
  }

  /** Nothing has the next id before it is given. */
  lemma NewHolds(s: State, delay: real, interval: real)
    requires InLine(s) && delay >= 0.0
    ensures Holds(Step(s, Posts(delay, interval)), |s.posted| + 1, s.now + delay, s.now)
  {
    var m := NewMessage(s, delay, interval);
    var front := MessagesOf(s.log) + s.batch;
    forall k | 0 <= k < |s.log| ensures s.log[k].m.id != m.id {
      assert Line(s)[k] == s.log[k].m;
    }
    forall k | 0 <= k < |s.batch| ensures s.batch[k].id != m.id {
      assert Line(s)[|s.log| + k] == s.batch[k];
    }
    forall k | 0 <= k < |s.queue| ensures s.queue[k].id != m.id {
      assert Line(s)[|front| + k] == s.queue[k];
    }
    InsertNotBefore(s.queue, m, m.id, s.now + delay, s.now);
  }

  /**
   * Over every run that goes on after a post, the message is not run, the first time or again, before its delay
   * has passed.
   */
  lemma DelayKept(actions: seq<Action>, delay: real, interval: real, more: seq<Action>, k: nat)
    requires delay >= 0.0
    requires k < |Run(actions + [Posts(delay, interval)] + more).log|
    requires Run(actions + [Posts(delay, interval)] + more).log[k].m.id == |Run(actions).posted| + 1
    ensures Run(actions + [Posts(delay, interval)] + more).log[k].at >= Run(actions).now + delay
  {
    var s := Run(actions);
    RunInLine(actions);
    NewHolds(s, delay, interval);
    RunMore(actions, Posts(delay, interval));
    RunHolds(actions + [Posts(delay, interval)], more, |s.posted| + 1, s.now + delay, s.now);
  }
}

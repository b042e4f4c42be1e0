/** How often a message is run, and when a message that repeats is run again. */
module MessageCounts {
  import opened Messages
  import opened MessageRuns

  lemma {:induction false} CountAppend(a: seq<Message>, b: seq<Message>, id: nat)
    ensures Count(a + b, id) == Count(a, id) + Count(b, id)
    decreases |a|
  {
    if a == [] {
      assert a + b == b;
    } else {
      assert (a + b)[1..] == a[1..] + b;
      CountAppend(a[1..], b, id);
    }
  }

  lemma {:induction false} CountInsert(q: seq<Message>, m: Message, id: nat)
    ensures Count(Insert(q, m), id) == Count(q, id) + (if m.id == id then 1 else 0)
    decreases |q|
  {
    if q != [] && q[0].deliverAt <= m.deliverAt {
      CountInsert(q[1..], m, id);
    } else {
      assert ([m] + q)[1..] == q;
    }
  }

  lemma {:induction false} CountWithout(q: seq<Message>, gone: nat, id: nat)
    ensures Count(Without(q, gone), id) == if id == gone then 0 else Count(q, id)
    decreases |q|
  {
    if q != [] {
      CountWithout(q[1..], gone, id);
    }
  }

  lemma {:induction false} CountHas(q: seq<Message>, k: nat)
    requires k < |q|
    ensures Count(q, q[k].id) >= 1
    decreases k
  {
    if k > 0 {
      CountHas(q[1..], k - 1);
    }
  }

  lemma {:induction false} CountNone(q: seq<Message>, id: nat)
    requires forall k | 0 <= k < |q| :: q[k].id != id
    ensures Count(q, id) == 0
    decreases |q|
  {
    if q != [] {
      CountNone(q[1..], id);
    }
  }

  /** How often a message has been run. */
  function RanCount(s: State, id: nat): nat {
    Count(MessagesOf(s.log), id)
  }

  /** How often it is in the queue or in the batch. */
  function Waiting(s: State, id: nat): nat {
    Count(s.batch, id) + Count(s.queue, id)
  }

  function IsCurrent(s: State, id: nat): nat {
    if s.current.Running? && s.current.m.id == id then 1 else 0
  }

  function IsCancelled(s: State, id: nat): nat {
    if id in s.cancelled then 1 else 0
  }

  /**
   * A message to be run once waits, was run or was cancelled; one that repeats waits, is being run or was
   * cancelled.
   */
  predicate Conserves(s: State, id: nat)
    requires 1 <= id <= |s.posted|
  {
    if OneShot(s.posted[id - 1]) then RanCount(s, id) + Waiting(s, id) + IsCancelled(s, id) == 1
    else IsCurrent(s, id) + Waiting(s, id) + IsCancelled(s, id) == 1
  }

  predicate AllConserve(s: State) {
    && (forall id: nat | 1 <= id <= |s.posted| :: Conserves(s, id))
    && (forall id | id in s.cancelled :: 1 <= id <= |s.posted|)
  }

  lemma LineCount(s: State, id: nat)
    ensures Count(Line(s), id) == RanCount(s, id) + Waiting(s, id)
  {
    CountAppend(MessagesOf(s.log) + s.batch, s.queue, id);
    CountAppend(MessagesOf(s.log), s.batch, id);
  }

  lemma NewId(s: State, delay: real, interval: real)
    requires InLine(s) && AllConserve(s) && delay >= 0.0
    ensures Conserves(Step(s, Posts(delay, interval)), |s.posted| + 1)
  {
    var m := NewMessage(s, delay, interval);
    CountNone(Line(s), m.id);
    LineCount(s, m.id);
    CountInsert(s.queue, m, m.id);
  }

  lemma OldIds(s: State, delay: real, interval: real, id: nat)
    requires InLine(s) && delay >= 0.0 && 1 <= id <= |s.posted| && Conserves(s, id)
    ensures Conserves(Step(s, Posts(delay, interval)), id)
  {
    CountInsert(s.queue, NewMessage(s, delay, interval), id);
  }

  lemma BeginConserves(s: State, id: nat)
    requires InLine(s) && 1 <= id <= |s.posted| && Conserves(s, id)
    ensures Conserves(Step(s, Begins), id)
  {
    if s.current.Nothing? && s.batch != [] {
      var t := Step(s, Begins);
      LineMoves(s, Begins);
      LineCount(s, id);
      LineCount(t, id);
      assert Line(s)[|s.log|] == s.batch[0];
    }
  }

  lemma EndConserves(s: State, cancelSelf: bool, id: nat)
    requires InLine(s) && 1 <= id <= |s.posted| && Conserves(s, id)
    ensures Conserves(Step(s, Ends(cancelSelf)), id)
  {
    if s.current.Running? && s.current.m.interval > 0.0 {
      CountInsert(s.queue, s.current.m.(deliverAt := s.current.m.deliverAt + s.current.m.interval), id);
    }
  }

  lemma TakeConserves(s: State, id: nat)
    requires InLine(s) && 1 <= id <= |s.posted| && Conserves(s, id)
    ensures Conserves(Step(s, Takes), id)
  {
    if s.current.Nothing? && s.batch == [] {
      BatchIsPrefix(s.queue, s.now);
      CountAppend(DueOf(s.queue, s.now), LaterOf(s.queue, s.now), id);
    }
  }

  lemma CancelConserves(s: State, gone: nat, id: nat)
    requires InLine(s) && 1 <= id <= |s.posted| && Conserves(s, id)
    ensures Conserves(Step(s, Cancels(gone)), id)
  {
    var t := Step(s, Cancels(gone));
    CountWithout(s.queue, gone, id);
    assert RanCount(t, id) == RanCount(s, id) && IsCurrent(t, id) == IsCurrent(s, id);
    if id == gone {
      CancelMoves(s, t, id);
    } else {
      assert Waiting(t, id) == Waiting(s, id) && IsCancelled(t, id) == IsCancelled(s, id);
    }
  }

  lemma CancelMoves(s: State, t: State, id: nat)
    requires t.batch == s.batch && Count(t.queue, id) == 0
    requires t.cancelled == if Has(s.queue, id) then s.cancelled + {id} else s.cancelled
    requires Waiting(s, id) + IsCancelled(s, id) <= 1
    ensures Waiting(t, id) + IsCancelled(t, id) == Waiting(s, id) + IsCancelled(s, id)
  {
  }

  lemma StepConserves(s: State, a: Action, id: nat)
    requires InLine(s) && AllConserve(s) && 1 <= id <= |Step(s, a).posted|
    ensures Conserves(Step(s, a), id)
  {
    assert id <= |s.posted| ==> Conserves(s, id);
    match a
    case Posts(delay, interval) =>
      if delay >= 0.0 {
        if id == |s.posted| + 1 {
          NewId(s, delay, interval);
        } else {
          OldIds(s, delay, interval, id);
        }
      }
    case Cancels(gone) => CancelConserves(s, gone, id);
    case Takes => TakeConserves(s, id);
    case Begins => BeginConserves(s, id);
    case Ends(cancelSelf) => EndConserves(s, cancelSelf, id);
    case Passes(_) =>
  }

  lemma CancelledPosted(s: State, a: Action)
    requires InLine(s) && AllConserve(s)
    ensures forall id | id in Step(s, a).cancelled :: 1 <= id <= |Step(s, a).posted|
  {
    if a.Cancels? && Has(s.queue, a.id) {
      LineCount(s, a.id);
      if !(1 <= a.id <= |s.posted|) {
        CountNone(Line(s), a.id);
      }
    }
    if a.Ends? && s.current.Running? && !OneShot(s.current.m) {
      assert AsPosted(s.current.m, s.posted);
    }
  }

  lemma {:induction false} RunConserves(actions: seq<Action>)
    ensures AllConserve(Run(actions))
    decreases |actions|
  {
    if actions != [] {
      var before, a := Run(actions[..|actions| - 1]), actions[|actions| - 1];
      RunConserves(actions[..|actions| - 1]);
      RunInLine(actions[..|actions| - 1]);
      CancelledPosted(before, a);
      forall id: nat | 1 <= id <= |Step(before, a).posted| ensures Conserves(Step(before, a), id) {
        StepConserves(before, a, id);
      }
    }
  }

  /** A message to be run once never runs twice; it has run exactly once when it neither waits nor was cancelled. */
  lemma RunsOnce(actions: seq<Action>, id: nat)
    requires var s := Run(actions); 1 <= id <= |s.posted| && OneShot(s.posted[id - 1])
    ensures RanCount(Run(actions), id) <= 1
    ensures RanCount(Run(actions), id) == 1 <==> Waiting(Run(actions), id) == 0 && id !in Run(actions).cancelled
  {
    RunConserves(actions);
    assert Conserves(Run(actions), id);
  }

  /** What is due leaves the queue when a batch is taken. */
  lemma TakesWhatIsDue(actions: seq<Action>, m: Message)
    requires var s := Run(actions); s.current.Nothing? && s.batch == [] && m in s.queue
    ensures var t := Step(Run(actions), Takes);
            if m.deliverAt <= t.now then m in t.batch && m !in t.queue else m in t.queue && m !in t.batch
  {
    RunInTime(actions);
    var s := Run(actions);
    BatchIsPrefix(s.queue, s.now);
    var d, l := DueOf(s.queue, s.now), LaterOf(s.queue, s.now);
    assert m in d + l;
    assert m.deliverAt >= 0.0;
  }

  // ----- Cancelling

  /** It is in the batch, or it repeats and is just being run. */
  predicate TooLate(s: State, id: nat)
    requires 1 <= id <= |s.posted|
  {
    Has(s.batch, id) || (!OneShot(s.posted[id - 1]) && IsCurrent(s, id) == 1)
  }

  /** However the run goes on, the message is not run again. */
  ghost predicate NeverAgain(actions: seq<Action>, id: nat) {
    forall more: seq<Action> :: RanCount(Run(actions + more), id) == RanCount(Run(actions), id)
  }

  /** The message can be run once more. */
  predicate Pending(s: State, id: nat)
    requires 1 <= id <= |s.posted|
  {
    id !in s.cancelled && (OneShot(s.posted[id - 1]) ==> RanCount(s, id) == 0)
  }

  /**
   * After a cancel the message never runs again if and only if it was not too late: it was neither in
   * the batch nor, when it repeats, being run. For a message that can still be run this says that it
   * was in the queue.
   */
  lemma CancelWorksIff(actions: seq<Action>, id: nat)
    requires 1 <= id <= |Run(actions).posted|
    ensures var s := Run(actions);
            && (NeverAgain(actions + [Cancels(id)], id) <==> !TooLate(s, id))
            && (Pending(s, id) ==> (NeverAgain(actions + [Cancels(id)], id) <==> Has(s.queue, id)))
            && RanCount(Run(actions + [Cancels(id)]), id) == RanCount(s, id)
  {
    var s, all := Run(actions), actions + [Cancels(id)];
    RunMore(actions, Cancels(id));
    RunConserves(actions);
    assert Conserves(s, id);
    if TooLate(s, id) {
      CancelTooLate(actions, id);
      var more;
      if Has(s.batch, id) {
        more := RunsFromBatch(all, id);
      } else {
        more := RunsAgain(all, id);
      }
      assert RanCount(Run(all + more), id) != RanCount(Run(all), id);
    } else {
      CountWithout(s.queue, id, id);
      forall more: seq<Action> ensures RanCount(Run(all + more), id) == RanCount(Run(all), id) {
        OverForGood(all, more, id);
      }
    }
  }

  /** A cancel that reaches a queued message is the one that counts: it is cancelled then, and not before. */
  lemma CancelledIff(actions: seq<Action>, id: nat)
    requires 1 <= id <= |Run(actions).posted|
    ensures var s, all := Run(actions), actions + [Cancels(id)];
            Has(s.queue, id) <==> id !in s.cancelled && id in Run(all).cancelled && NeverAgain(all, id)
  {
    RunMore(actions, Cancels(id));
    RunConserves(actions);
    assert Conserves(Run(actions), id);
    CancelWorksIff(actions, id);
  }

  /** A repeating message that cancels itself while it is run is never run again, however the run goes on. */
  lemma SelfCancelWorks(actions: seq<Action>)
    requires Run(actions).current.Running? && !OneShot(Run(actions).current.m)
    ensures NeverAgain(actions + [Ends(true)], Run(actions).current.m.id)
    ensures !NeverAgain(actions + [Ends(false)], Run(actions).current.m.id)
  {
    var id := Run(actions).current.m.id;
    EndedForGood(actions, id);
    EndedAgain(actions, id);
  }

  lemma EndedForGood(actions: seq<Action>, id: nat)
    requires Run(actions).current.Running? && !OneShot(Run(actions).current.m) && id == Run(actions).current.m.id
    ensures NeverAgain(actions + [Ends(true)], id)
  {
    var s, all := Run(actions), actions + [Ends(true)];
    RunInLine(actions);
    RunConserves(actions);
    assert Conserves(s, id);
    RunMore(actions, Ends(true));
    EndIsOver(s, id);
    forall more: seq<Action> ensures RanCount(Run(all + more), id) == RanCount(Run(all), id) {
      OverForGood(all, more, id);
    }
  }

  lemma EndIsOver(s: State, id: nat)
    requires InLine(s) && s.current.Running? && !OneShot(s.current.m) && id == s.current.m.id && Conserves(s, id)
    ensures Over(Step(s, Ends(true)), id)
  {
  }

  lemma EndedAgain(actions: seq<Action>, id: nat)
    requires Run(actions).current.Running? && !OneShot(Run(actions).current.m) && id == Run(actions).current.m.id
    ensures !NeverAgain(actions + [Ends(false)], id)
  {
    var all := actions + [Ends(false)];
    RunInLine(actions);
    RunMore(actions, Ends(false));
    QueuedAgain(Run(actions), id);
    var more := RunsFromQueue(all, id);
    assert RanCount(Run(all + more), id) != RanCount(Run(all), id);
  }

  /** A message that is in the batch can not be cancelled any more; nor can one that repeats while it is run. */
  lemma CancelTooLate(actions: seq<Action>, id: nat)
    requires 1 <= id <= |Run(actions).posted| && TooLate(Run(actions), id)
    ensures Step(Run(actions), Cancels(id)) == Run(actions)
  {
    RunConserves(actions);
    var s := Run(actions);
    assert Conserves(s, id);
    NotHere(s.queue, id);
  }

  /** The message neither waits nor will it be put back. */
  predicate Over(s: State, id: nat) {
    && 1 <= id <= |s.posted| && Waiting(s, id) == 0
    && (!OneShot(s.posted[id - 1]) ==> IsCurrent(s, id) == 0)
  }

  lemma StepOver(s: State, a: Action, id: nat)
    requires InLine(s) && Over(s, id)
    ensures Over(Step(s, a), id) && RanCount(Step(s, a), id) == RanCount(s, id)
  {
    match a
    case Posts(delay, interval) =>
      if delay >= 0.0 {
        CountInsert(s.queue, NewMessage(s, delay, interval), id);
      }
    case Cancels(gone) => CountWithout(s.queue, gone, id);
    case Takes =>
      if s.current.Nothing? && s.batch == [] {
        BatchIsPrefix(s.queue, s.now);
        CountAppend(DueOf(s.queue, s.now), LaterOf(s.queue, s.now), id);
      }
    case Begins =>
      if s.current.Nothing? && s.batch != [] {
        BeginCount(s, id);
      }
    case Ends(cancelSelf) =>
      if s.current.Running? && s.current.m.interval > 0.0 {
        CountInsert(s.queue, s.current.m.(deliverAt := s.current.m.deliverAt + s.current.m.interval), id);
      }
    case Passes(_) =>
  }

  /** What runs leaves the batch for the log. */
  lemma BeginCount(s: State, id: nat)
    requires s.current.Nothing? && s.batch != []
    ensures var t, n := Step(s, Begins), if s.batch[0].id == id then 1 else 0;
            RanCount(t, id) == RanCount(s, id) + n && Count(t.batch, id) == Count(s.batch, id) - n
  {
    var t := Step(s, Begins);
    assert MessagesOf(t.log) == MessagesOf(s.log) + [s.batch[0]];
    CountAppend(MessagesOf(s.log), [s.batch[0]], id);
    assert [s.batch[0]][1..] == [];
  }

  lemma {:induction false} OverForGood(actions: seq<Action>, more: seq<Action>, id: nat)
    requires Over(Run(actions), id)
    ensures Over(Run(actions + more), id) && RanCount(Run(actions + more), id) == RanCount(Run(actions), id)
    decreases |more|
  {
    if more == [] {
      assert actions + more == actions;
    } else {
      var before, a := more[..|more| - 1], more[|more| - 1];
      OverForGood(actions, before, id);
      RunInLine(actions + before);
      StepOver(Run(actions + before), a, id);
      RunMore(actions + before, a);
      LastOf(actions, more);
    }
  }

  /** The running message ends and the next one of the batch begins. */
  lemma NextBegins(actions: seq<Action>, id: nat) returns (more: seq<Action>)
    requires Run(actions).batch != []
    ensures var s, t := Run(actions), Run(actions + more);
            && t.batch == s.batch[1..] && Count(t.queue, id) >= Count(s.queue, id)
            && RanCount(t, id) == RanCount(s, id) + (if s.batch[0].id == id then 1 else 0)
  {
    more := [Ends(false), Begins];
    var s := Run(actions);
    var u := Step(s, Ends(false));
    RunMore(actions, Ends(false));
    RunMore(actions + [Ends(false)], Begins);
    assert actions + more == actions + [Ends(false)] + [Begins];
    if s.current.Running? && s.current.m.interval > 0.0 {
      CountInsert(s.queue, s.current.m.(deliverAt := s.current.m.deliverAt + s.current.m.interval), id);
    }
    BeginCount(u, id);
  }

  lemma {:induction false} RunsFromBatch(actions: seq<Action>, id: nat) returns (more: seq<Action>)
    requires Has(Run(actions).batch, id)
    ensures RanCount(Run(actions + more), id) > RanCount(Run(actions), id)
    decreases |Run(actions).batch|
  {
    more := NextBegins(actions, id);
    if Run(actions).batch[0].id != id {
      var rest := RunsFromBatch(actions + more, id);
      more := Further(actions, more, rest, id);
    }
  }

  lemma {:induction false} RunsFromQueue(actions: seq<Action>, id: nat) returns (more: seq<Action>)
    requires Has(Run(actions).queue, id)
    ensures RanCount(Run(actions + more), id) > RanCount(Run(actions), id)
    decreases |Run(actions).batch|
  {
    var rest;
    if Run(actions).batch != [] {
      more := NextBegins(actions, id);
      rest := RunsFromQueue(actions + more, id);
    } else {
      more := ComesDue(actions, id);
      rest := RunsFromBatch(actions + more, id);
    }
    more := Further(actions, more, rest, id);
  }

  lemma Further(actions: seq<Action>, more: seq<Action>, rest: seq<Action>, id: nat) returns (all: seq<Action>)
    requires RanCount(Run(actions + more), id) >= RanCount(Run(actions), id)
    requires RanCount(Run(actions + more + rest), id) > RanCount(Run(actions + more), id)
    ensures RanCount(Run(actions + all), id) > RanCount(Run(actions), id)
  {
    all := more + rest;
    Regroup(actions, more, rest);
  }

  lemma LastOf(a: seq<Action>, b: seq<Action>)
    requires b != []
    ensures a + b == a + b[..|b| - 1] + [b[|b| - 1]]
  {
  }

  lemma Regroup(a: seq<Action>, b: seq<Action>, c: seq<Action>)
    ensures a + (b + c) == a + b + c
  {
  }

  /** With an empty batch the clock goes on until the message is due, and the next batch has it. */
  lemma ComesDue(actions: seq<Action>, id: nat) returns (more: seq<Action>)
    requires Has(Run(actions).queue, id) && Run(actions).batch == []
    ensures Has(Run(actions + more).batch, id) && RanCount(Run(actions + more), id) == RanCount(Run(actions), id)
  {
    var s := Run(actions);
    var u := Step(s, Ends(false));
    if s.current.Running? && s.current.m.interval > 0.0 {
      CountInsert(s.queue, s.current.m.(deliverAt := s.current.m.deliverAt + s.current.m.interval), id);
    }
    var m := Member(u.queue, id);
    var now := if m.deliverAt > u.now then m.deliverAt else u.now;
    CountDue(u.queue, m, now);
    more := [Ends(false), Passes(now), Takes];
    RunMore(actions, Ends(false));
    RunMore(actions + [Ends(false)], Passes(now));
    RunMore(actions + [Ends(false)] + [Passes(now)], Takes);
    assert actions + more == actions + [Ends(false)] + [Passes(now)] + [Takes];
  }

  lemma {:induction false} Member(q: seq<Message>, id: nat) returns (m: Message)
    requires Has(q, id)
    ensures m in q && m.id == id
    decreases |q|
  {
    if q[0].id == id {
      m := q[0];
    } else {
      m := Member(q[1..], id);
    }
  }

  lemma {:induction false} CountDue(q: seq<Message>, m: Message, now: real)
    requires m in q && Due(m, now)
    ensures Has(DueOf(q, now), m.id)
    decreases |q|
  {
    if q[0] != m {
      CountDue(q[1..], m, now);
      if Due(q[0], now) {
        assert DueOf(q, now)[1..] == DueOf(q[1..], now);
      }
    }
  }

  /** One that repeats and is being run goes back into the queue. */
  lemma QueuedAgain(s: State, id: nat)
    requires InLine(s) && 1 <= id <= |s.posted| && !OneShot(s.posted[id - 1]) && IsCurrent(s, id) == 1
    ensures Has(Step(s, Ends(false)).queue, id) && Step(s, Ends(false)).log == s.log
  {
    CountInsert(s.queue, s.current.m.(deliverAt := s.current.m.deliverAt + s.current.m.interval), id);
  }

  lemma RunsAgain(actions: seq<Action>, id: nat) returns (more: seq<Action>)
    requires var s := Run(actions); 1 <= id <= |s.posted| && !OneShot(s.posted[id - 1]) && IsCurrent(s, id) == 1
    ensures RanCount(Run(actions + more), id) > RanCount(Run(actions), id)
  {
    RunInLine(actions);
    QueuedAgain(Run(actions), id);
    RunMore(actions, Ends(false));
    var rest := RunsFromQueue(actions + [Ends(false)], id);
    more := Further(actions, [Ends(false)], rest, id);
  }

  lemma OneDue(m: Message, now: real)
    requires Due(m, now)
    ensures DueOf([m], now) == [m] && LaterOf([m], now) == []
  {
    assert [m][1..] == [];
  }

  /** The first message, without a delay, in the batch. */
  lemma FirstTaken(interval: real)
    ensures var m := Message(1, 0.0, interval);
            Run([Posts(0.0, interval), Takes]) == State([], [m], Nothing, 0.0, [m], [], {})
  {
    var m := Message(1, 0.0, interval);
    RunMore([], Posts(0.0, interval));
    assert [] + [Posts(0.0, interval)] == [Posts(0.0, interval)];
    assert Run([Posts(0.0, interval)]) == State([m], [], Nothing, 0.0, [m], [], {});
    RunMore([Posts(0.0, interval)], Takes);
    OneDue(m, 0.0);
    assert [Posts(0.0, interval)] + [Takes] == [Posts(0.0, interval), Takes];
  }

  /** A message that is cancelled when it is in the batch, and run afterwards. */
  lemma RunsAfterCancel()
    ensures RanCount(Run([Posts(0.0, 0.0), Takes, Cancels(1)]), 1) == 0
    ensures RanCount(Run([Posts(0.0, 0.0), Takes, Cancels(1), Begins]), 1) == 1
  {
    var a := [Posts(0.0, 0.0), Takes];
    FirstTaken(0.0);
    RunMore(a, Cancels(1));
    assert a + [Cancels(1)] == [Posts(0.0, 0.0), Takes, Cancels(1)];
    BeginCount(Run(a), 1);
    RunMore(a + [Cancels(1)], Begins);
    assert a + [Cancels(1)] + [Begins] == [Posts(0.0, 0.0), Takes, Cancels(1), Begins];
    assert MessagesOf([]) == [];
  }

  const REPEATS := [Posts(0.0, 1.0), Takes, Begins, Cancels(1)]

  /** One that repeats is run, and cancelled by another message or thread while it is run. */
  lemma CancelledWhileRun()
    ensures var m := Message(1, 0.0, 1.0);
            Run(REPEATS) == State([], [], Running(m), 0.0, [m], [Ran(m, 0.0)], {})
  {
    var a := [Posts(0.0, 1.0), Takes];
    FirstTaken(1.0);
    RunMore(a, Begins);
    RunMore(a + [Begins], Cancels(1));
    assert a + [Begins] + [Cancels(1)] == REPEATS;
  }

  /** It is run again all the same. */
  lemma RepeatsAfterCancel()
    ensures RanCount(Run(REPEATS), 1) == 1
    ensures RanCount(Run(REPEATS + [Ends(false), Passes(1.0), Takes, Begins]), 1) == 2
  {
    var m, again := Message(1, 0.0, 1.0), Message(1, 1.0, 1.0);
    CancelledWhileRun();
    RunMore(REPEATS, Ends(false));
    var b := REPEATS + [Ends(false)];
    assert Run(b) == State([again], [], Nothing, 0.0, [m], [Ran(m, 0.0)], {});
    RunMore(b, Passes(1.0));
    RunMore(b + [Passes(1.0)], Takes);
    var c := b + [Passes(1.0)] + [Takes];
    assert Run(b + [Passes(1.0)]) == State([again], [], Nothing, 1.0, [m], [Ran(m, 0.0)], {});
    OneDue(again, 1.0);
    assert Run(c) == State([], [again], Nothing, 1.0, [m], [Ran(m, 0.0)], {});
    RunMore(c, Begins);
    assert c + [Begins] == REPEATS + [Ends(false), Passes(1.0), Takes, Begins];
    BeginCount(Run(c), 1);
    assert MessagesOf([Ran(m, 0.0)]) == [m] && [m][1..] == [];
    assert RanCount(Run(c), 1) == RanCount(Run(REPEATS), 1) == 1;
  }

  lemma {:induction false} NotHere(q: seq<Message>, id: nat)
    requires Count(q, id) == 0
    ensures Without(q, id) == q
    decreases |q|
  {
    if q != [] {
      NotHere(q[1..], id);
    }
  }

  // ----- Repeats

  /** When the runs of a message were due. */
  function Nominals(log: seq<Ran>, id: nat): seq<real>
    decreases |log|
  {
    if log == [] then []
    else
      var before := Nominals(log[..|log| - 1], id);
      if log[|log| - 1].m.id == id then before + [Nominal(log[|log| - 1])] else before
  }

  predicate Even(times: seq<real>, interval: real) {
    forall n | 1 <= n < |times| :: times[n] == times[n - 1] + interval
  }

  /** The message is due one interval after its last run was. */
  predicate Continues(s: State, m: Message) {
    var times := Nominals(s.log, m.id);
    !OneShot(m) && times != [] ==> m.deliverAt == times[|times| - 1] + m.interval && m.deliverAt > 0.0
  }

  ghost predicate Spaced(s: State) {
    && (forall k | 0 <= k < |s.posted| && !OneShot(s.posted[k]) :: Even(Nominals(s.log, k + 1), s.posted[k].interval))
    && (forall k | 0 <= k < |s.batch| :: Continues(s, s.batch[k]))
    && (forall k | 0 <= k < |s.queue| :: Continues(s, s.queue[k]))
    && (s.current.Running? ==>
          var times := Nominals(s.log, s.current.m.id); times != [] && times[|times| - 1] == s.current.m.deliverAt)
    && (forall id: nat | id > |s.posted| :: Nominals(s.log, id) == [])
  }

  lemma PostSpaced(s: State, delay: real, interval: real)
    requires InLine(s) && Spaced(s) && delay >= 0.0
    ensures Spaced(Step(s, Posts(delay, interval)))
  {
    InsertContinues(s, NewMessage(s, delay, interval));
  }

  predicate AllContinue(s: State, q: seq<Message>) {
    forall k | 0 <= k < |q| :: Continues(s, q[k])
  }

  lemma AllContinueParts(s: State, a: seq<Message>, b: seq<Message>)
    requires AllContinue(s, a + b)
    ensures AllContinue(s, a) && AllContinue(s, b)
  {
    assert forall k | 0 <= k < |a| :: a[k] == (a + b)[k];
    assert forall k | 0 <= k < |b| :: b[k] == (a + b)[|a| + k];
  }

  lemma TakeSpaced(s: State)
    requires InLine(s) && Spaced(s) && s.current.Nothing? && s.batch == []
    ensures Spaced(Step(s, Takes))
  {
    BatchIsPrefix(s.queue, s.now);
    var d, l := DueOf(s.queue, s.now), LaterOf(s.queue, s.now);
    assert AllContinue(s, d + l);
    AllContinueParts(s, d, l);
    TakenSpaced(s, s.(batch := d, queue := l));
  }

  /** What is said of batch and queue depends on the log only. */
  lemma TakenSpaced(s: State, t: State)
    requires Spaced(s) && t == s.(batch := t.batch, queue := t.queue)
    requires AllContinue(s, t.batch) && AllContinue(s, t.queue)
    ensures Spaced(t)
  {
    forall k | 0 <= k < |t.batch| ensures Continues(t, t.batch[k]) {
      assert Continues(s, t.batch[k]);
    }
    forall k | 0 <= k < |t.queue| ensures Continues(t, t.queue[k]) {
      assert Continues(s, t.queue[k]);
    }
  }

  lemma CancelSpaced(s: State, id: nat)
    requires Spaced(s)
    ensures Spaced(Step(s, Cancels(id)))
  {
    var r := Without(s.queue, id);
    forall k | 0 <= k < |r| ensures Continues(s, r[k]) {
      assert r[k] in s.queue;
    }
  }

  lemma InsertContinues(s: State, m: Message)
    requires InLine(s) && Continues(s, m) && forall k | 0 <= k < |s.queue| :: Continues(s, s.queue[k])
    ensures forall k | 0 <= k < |Insert(s.queue, m)| :: Continues(s, Insert(s.queue, m)[k])
  {
    var j, r := InsertAt(s.queue, m), Insert(s.queue, m);
    InsertStable(s.queue, m);
    forall k | 0 <= k < |r| ensures Continues(s, r[k]) {
      assert r[k] == if k < j then s.queue[k] else if k == j then m else s.queue[k - 1];
    }
  }

  lemma SameLogSpaced(s: State, t: State)
    requires Spaced(s) && t.log == s.log && t.posted == s.posted && t.batch == s.batch && t.current.Nothing?
    requires forall k | 0 <= k < |t.queue| :: Continues(s, t.queue[k])
    ensures Spaced(t)
  {
    forall k | 0 <= k < |t.batch| ensures Continues(t, t.batch[k]) {
      assert Continues(s, s.batch[k]);
    }
    forall k | 0 <= k < |t.queue| ensures Continues(t, t.queue[k]) {
      assert Continues(s, t.queue[k]);
    }
  }

  lemma EndSpaced(s: State, cancelSelf: bool)
    requires InLine(s) && Spaced(s)
    ensures Spaced(Step(s, Ends(cancelSelf)))
  {
    var t := Step(s, Ends(cancelSelf));
    if s.current.Running? && s.current.m.interval > 0.0 && !cancelSelf {
      var m := s.current.m.(deliverAt := s.current.m.deliverAt + s.current.m.interval);
      assert t == s.(current := Nothing, queue := Insert(s.queue, m));
      InsertContinues(s, m);
      SameLogSpaced(s, t);
    } else {
      SameLogSpaced(s, t);
    }
  }

  /** Nothing else with the id of a message that repeats waits beside it. */
  lemma Alone(s: State, m: Message)
    requires InLine(s) && AllConserve(s) && s.batch != [] && !OneShot(s.batch[0]) && m.id == s.batch[0].id
    ensures m !in s.batch[1..] && m !in s.queue
  {
    assert Line(s)[|s.log|] == s.batch[0];
    assert Conserves(s, m.id);
    var rest := s.batch[1..];
    assert Count(s.batch, m.id) == 1 + Count(rest, m.id);
    if m in rest {
      var k :| 0 <= k < |rest| && rest[k] == m;
      CountHas(rest, k);
    }
    if m in s.queue {
      var k :| 0 <= k < |s.queue| && s.queue[k] == m;
      CountHas(s.queue, k);
    }
  }

  lemma BeginSpaced(s: State)
    requires InLine(s) && AllConserve(s) && Spaced(s) && s.current.Nothing? && s.batch != []
    ensures Spaced(Step(s, Begins))
  {
    var t := Step(s, Begins);
    var m, r := s.batch[0], t.log[|s.log|];
    assert t.log[..|t.log| - 1] == s.log;
    assert Line(s)[|s.log|] == m;
    assert Continues(s, m);
    BeginEven(s);
    forall k | 0 <= k < |t.batch| ensures Continues(t, t.batch[k]) {
      assert t.batch[k] == s.batch[k + 1];
      if t.batch[k].id == m.id && !OneShot(t.batch[k]) {
        SameKind(s, k + 1);
        Alone(s, t.batch[k]);
      }
    }
    forall k | 0 <= k < |t.queue| ensures Continues(t, t.queue[k]) {
      if t.queue[k].id == m.id && !OneShot(t.queue[k]) {
        SameKindQueue(s, k);
        Alone(s, t.queue[k]);
      }
    }
  }

  lemma SameKind(s: State, k: nat)
    requires InLine(s) && k < |s.batch| && s.batch[k].id == s.batch[0].id
    ensures OneShot(s.batch[0]) <==> OneShot(s.batch[k])
  {
    assert Line(s)[|s.log|] == s.batch[0] && Line(s)[|s.log| + k] == s.batch[k];
  }

  lemma SameKindQueue(s: State, k: nat)
    requires InLine(s) && k < |s.queue| && s.batch != [] && s.queue[k].id == s.batch[0].id
    ensures OneShot(s.batch[0]) <==> OneShot(s.queue[k])
  {
    assert Line(s)[|s.log|] == s.batch[0] && Line(s)[|s.log| + |s.batch| + k] == s.queue[k];
  }

  lemma BeginEven(s: State)
    requires InLine(s) && Spaced(s) && s.current.Nothing? && s.batch != []
    ensures var t := Step(s, Begins);
            forall k | 0 <= k < |t.posted| && !OneShot(t.posted[k]) ::
              Even(Nominals(t.log, k + 1), t.posted[k].interval)
  {
    var t := Step(s, Begins);
    var m := s.batch[0];
    assert t.log[..|t.log| - 1] == s.log;
    assert Line(s)[|s.log|] == m;
    assert Continues(s, m);
  }

  lemma StepSpaced(s: State, a: Action)
    requires InLine(s) && AllConserve(s) && Spaced(s)
    ensures Spaced(Step(s, a))
  {
    match a
    case Posts(delay, interval) =>
      if delay >= 0.0 {
        PostSpaced(s, delay, interval);
      }
    case Cancels(id) => CancelSpaced(s, id);
    case Takes =>
      if s.current.Nothing? && s.batch == [] {
        TakeSpaced(s);
      }
    case Begins =>
      if s.current.Nothing? && s.batch != [] {
        BeginSpaced(s);
      }
    case Ends(cancelSelf) => EndSpaced(s, cancelSelf);
    case Passes(_) =>
  }

  lemma {:induction false} RunSpaced(actions: seq<Action>)
    ensures Spaced(Run(actions))
    decreases |actions|
  {
    if actions != [] {
      var before := actions[..|actions| - 1];
      RunSpaced(before);
      RunInLine(before);
      RunConserves(before);
      StepSpaced(Run(before), actions[|actions| - 1]);
    }
  }

  lemma {:induction false} EvenNth(times: seq<real>, interval: real, n: nat)
    requires Even(times, interval) && n < |times|
    ensures times[n] == times[0] + n as real * interval
  {
    if n > 0 {
      EvenNth(times, interval, n - 1);
      assert n as real * interval == (n - 1) as real * interval + interval;
    }
  }

  /** The n-th repeat of a message is due n intervals after its first run was. */
  lemma NthRepeat(actions: seq<Action>, id: nat, n: nat)
    requires var s := Run(actions);
             1 <= id <= |s.posted| && !OneShot(s.posted[id - 1]) && n < |Nominals(s.log, id)|
    ensures var s := Run(actions);
            Nominals(s.log, id)[n] == Nominals(s.log, id)[0] + n as real * s.posted[id - 1].interval
  {
    RunSpaced(actions);
    var s := Run(actions);
    EvenNth(Nominals(s.log, id), s.posted[id - 1].interval, n);
  }
}

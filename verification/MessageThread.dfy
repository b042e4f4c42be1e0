/**
 * The message thread as it changes its state: a vector that is inserted into, partitioned and erased
 * from, and the loop that runs what is due. Every method takes the steps of MessageRuns.
 */
module MessageThread {
  import opened Messages
  import opened MessageRuns

  /** What is done while a message is run, by itself or by other threads: posts, cancels and the passing of time. */
  datatype Turn = Turn(at: real, calls: seq<Action>, cancelSelf: bool)

  /** What happens before the thread wakes up, the time it then reads, and what its messages do. */
  datatype Round = Round(before: seq<Action>, now: real, turns: seq<Turn>)

  predicate IsCall(a: Action) {
    a.Passes? || a.Cancels? || (a.Posts? && a.delay >= 0.0)
  }

  predicate AllCalls(calls: seq<Action>) {
    forall k | 0 <= k < |calls| :: IsCall(calls[k])
  }

  function TurnAt(turns: seq<Turn>, k: nat): Turn {
    if k < |turns| then turns[k] else Turn(0.0, [], false)
  }

  /** The steps of a turn: the message begins, does what it does and ends. */
  function TurnSteps(t: Turn): seq<Action> {
    [Passes(t.at), Begins] + t.calls + [Ends(t.cancelSelf)]
  }

  /** The steps of the first n turns. */
  function Steps(turns: seq<Turn>, n: nat): seq<Action> {
    if n == 0 then [] else Steps(turns, n - 1) + TurnSteps(TurnAt(turns, n - 1))
  }

  predicate GoodTurns(turns: seq<Turn>) {
    forall k | 0 <= k < |turns| :: AllCalls(turns[k].calls)
  }

  predicate GoodRounds(rounds: seq<Round>) {
    forall k | 0 <= k < |rounds| :: AllCalls(rounds[k].before) && GoodTurns(rounds[k].turns)
  }

  /** The steps of a round after a run: a batch is taken, and each of its messages has its turn. */
  function RoundSteps(run: seq<Action>, r: Round): seq<Action> {
    var taken := [Passes(r.now), Takes];
    r.before + taken + Steps(r.turns, |Run(run + r.before + taken).batch|)
  }

  function AllSteps(run: seq<Action>, rounds: seq<Round>): seq<Action>
    decreases |rounds|
  {
    if rounds == [] then run
    else
      var before := AllSteps(run, rounds[..|rounds| - 1]);
      before + RoundSteps(before, rounds[|rounds| - 1])
  }

  /** std::remove_if and erase: the messages with the id are taken out, the others move up. */
  method RemoveIf(queue: seq<Message>, id: nat) returns (kept: seq<Message>)
    ensures kept == Without(queue, id)
  {
    kept := [];
    assert queue[0..] == queue;
    for k := 0 to |queue|
      invariant kept + Without(queue[k..], id) == Without(queue, id)
    {
      assert queue[k..][1..] == queue[k + 1..];
      if queue[k].id != id {
        kept := kept + [queue[k]];
      }
    }
  }

  /** std::partition_copy: what is due, and the rest. */
  method PartitionCopy(queue: seq<Message>, currentTime: real)
    returns (msgsToDeliverNow: seq<Message>, newQueue: seq<Message>)
    ensures msgsToDeliverNow == DueOf(queue, currentTime) && newQueue == LaterOf(queue, currentTime)
  {
    msgsToDeliverNow, newQueue := [], [];
    assert queue[0..] == queue;
    for k := 0 to |queue|
      invariant msgsToDeliverNow + DueOf(queue[k..], currentTime) == DueOf(queue, currentTime)
      invariant newQueue + LaterOf(queue[k..], currentTime) == LaterOf(queue, currentTime)
    {
      PartitionStep(queue, k, currentTime, msgsToDeliverNow, newQueue);
      if queue[k].deliverAt == 0.0 || currentTime >= queue[k].deliverAt {
        msgsToDeliverNow := msgsToDeliverNow + [queue[k]];
      } else {
        newQueue := newQueue + [queue[k]];
      }
    }
  }

  lemma QueueSorted(run: seq<Action>)
    ensures Sorted(Run(run).queue)
  {
    RunInTime(run);
  }

  lemma PostStep(run: seq<Action>, m: Message, delay: real, interval: real) returns (next: seq<Action>)
    requires delay >= 0.0 && m == NewMessage(Run(run), delay, interval)
    ensures next == run + [Posts(delay, interval)]
    ensures var s, t := Run(run), Run(next);
            && Sorted(s.queue) && t.queue == Insert(s.queue, m) && |t.posted| == |s.posted| + 1
            && t.now == s.now && t.current == s.current && t.batch == s.batch
  {
    next := run + [Posts(delay, interval)];
    QueueSorted(run);
    RunMore(run, Posts(delay, interval));
  }

  lemma EndStep(run: seq<Action>, m: Message, cancelSelf: bool) returns (next: seq<Action>)
    requires Run(run).current == Running(m)
    ensures next == run + [Ends(cancelSelf)]
    ensures var s, t := Run(run), Run(next);
            && Sorted(s.queue) && t.posted == s.posted && t.now == s.now && t.current.Nothing? && t.batch == s.batch
            && t.queue == if !cancelSelf && m.interval > 0.0 then
                            Insert(s.queue, m.(deliverAt := m.deliverAt + m.interval))
                          else s.queue
  {
    next := run + [Ends(cancelSelf)];
    QueueSorted(run);
    RunMore(run, Ends(cancelSelf));
  }

  class MessageQueue {
    var queue: seq<Message>
    var lastMessageId: nat
    var cancelCurrent: bool
    /** What the clock shows; it never goes back. */
    var clock: real
    /** All steps so far. */
    ghost var run: seq<Action>

    ghost function State(): State
      reads this
    {
      Run(run)
    }

    ghost predicate Valid()
      reads this
    {
      queue == State().queue && lastMessageId == |State().posted| + 1 && clock == State().now
    }

    constructor ()
      ensures Valid() && run == [] && !cancelCurrent
    {
      queue, lastMessageId, cancelCurrent, clock, run := [], 1, false, 0.0, [];
    }

    /** Time passes; a clock that would go back stands still. */
    method Pass(now: real)
      requires Valid()
      modifies this`clock, this`run
      ensures Valid() && run == old(run) + [Passes(now)]
    {
      if now >= clock {
        clock := now;
      }
      RunMore(run, Passes(now));
      run := run + [Passes(now)];
    }

    /** Behind the last message that is due no later. */
    method InsertMessageInternal(m: Message)
      requires Sorted(queue)
      modifies this`queue
      ensures queue == Insert(old(queue), m) && Sorted(queue)
    {
      InsertSorted(queue, m);
      if queue == [] {
        queue := queue + [m];
      } else if queue[0].deliverAt > m.deliverAt {
        queue := [m] + queue;
      } else {
        InsertBehind(m);
      }
    }

    method InsertBehind(m: Message)
      requires Sorted(queue) && queue != [] && queue[0].deliverAt <= m.deliverAt
      modifies this`queue
      ensures queue == Insert(old(queue), m)
    {
      var insertAfter := 0;
      while insertAfter != |queue|
        invariant insertAfter < |queue| && queue == old(queue)
        invariant queue[insertAfter].deliverAt <= m.deliverAt
      {
        var next := insertAfter + 1;
        if next == |queue| || (queue[next].deliverAt > m.deliverAt && queue[insertAfter].deliverAt <= m.deliverAt) {
          InsertHere(queue, m, next);
          queue := queue[..next] + [m] + queue[next..];
          break;
        }
        insertAfter := next;
      }
    }

    /** A message; a delay of zero is kept as no time at all. */
    method Post(delay: real, interval: real) returns (id: nat)
      requires Valid() && delay >= 0.0
      modifies this`queue, this`lastMessageId, this`run
      ensures Valid() && run == old(run) + [Posts(delay, interval)]
      ensures id == old(lastMessageId) && lastMessageId == old(lastMessageId) + 1
      ensures queue == Insert(old(queue), Message(id, if delay == 0.0 then 0.0 else clock + delay, interval))
    {
      var m := Message(lastMessageId, if delay == 0.0 then 0.0 else clock + delay, interval);
      ghost var next := PostStep(run, m, delay, interval);
      lastMessageId := lastMessageId + 1;
      InsertMessageInternal(m);
      run := next;
      id := m.id;
    }

    /** All messages with the id are removed; the others move up. */
    method Cancel(id: nat)
      requires Valid()
      modifies this`queue, this`run
      ensures Valid() && run == old(run) + [Cancels(id)]
      ensures queue == Without(old(queue), id)
    {
      RunMore(run, Cancels(id));
      queue := RemoveIf(queue, id);
      run := run + [Cancels(id)];
    }

    /** What is due leaves the queue. */
    method TakeDue(currentTime: real) returns (msgsToDeliverNow: seq<Message>)
      requires Valid() && currentTime == clock && State().current.Nothing? && State().batch == []
      modifies this`queue, this`run
      ensures Valid() && run == old(run) + [Takes]
      ensures msgsToDeliverNow == State().batch && State().current.Nothing?
      ensures msgsToDeliverNow == DueOf(old(queue), currentTime) && queue == LaterOf(old(queue), currentTime)
    {
      RunMore(run, Takes);
      msgsToDeliverNow, queue := PartitionCopy(queue, currentTime);
      run := run + [Takes];
    }

    /** Before a message is run: one without a time is due now. */
    method BeginMessage(m: Message) returns (now: Message)
      requires Valid() && State().current.Nothing? && State().batch != [] && m == State().batch[0]
      modifies this`cancelCurrent, this`run
      ensures Valid() && run == old(run) + [Begins]
      ensures !cancelCurrent && State().current == Running(now) && State().batch == old(State()).batch[1..]
    {
      RunMore(run, Begins);
      cancelCurrent := false;
      now := m;
      if now.deliverAt == 0.0 {
        now := now.(deliverAt := clock);
      }
      run := run + [Begins];
    }

    method CancelSelf()
      modifies this`cancelCurrent
      ensures cancelCurrent
    {
      cancelCurrent := true;
    }

    /** After a message was run: one that repeats goes back into the queue, unless it cancelled itself. */
    method EndMessage(m: Message)
      requires Valid() && State().current == Running(m)
      modifies this`queue, this`run
      ensures Valid() && run == old(run) + [Ends(cancelCurrent)]
      ensures State().current.Nothing? && State().batch == old(State()).batch
    {
      ghost var next := EndStep(run, m, cancelCurrent);
      if !cancelCurrent && m.interval > 0.0 {
        InsertMessageInternal(m.(deliverAt := m.deliverAt + m.interval));
      }
      run := next;
    }

    method Call(a: Action)
      requires Valid() && IsCall(a)
      modifies this`queue, this`lastMessageId, this`clock, this`run
      ensures Valid() && run == old(run) + [a]
      ensures State().current == old(State()).current && State().batch == old(State()).batch
    {
      RunMore(run, a);
      match a
      case Passes(now) => Pass(now);
      case Posts(delay, interval) => var _ := Post(delay, interval);
      case Cancels(id) => Cancel(id);
    }

    method CallAll(calls: seq<Action>)
      requires Valid() && AllCalls(calls)
      modifies this`queue, this`lastMessageId, this`clock, this`run
      ensures Valid() && run == old(run) + calls
      ensures State().current == old(State()).current && State().batch == old(State()).batch
    {
      for k := 0 to |calls|
        invariant Valid() && run == old(run) + calls[..k]
        invariant State().current == old(State()).current && State().batch == old(State()).batch
      {
        Call(calls[k]);
        assert calls[..k + 1] == calls[..k] + [calls[k]];
      }
      assert calls[..|calls|] == calls;
    }

    /** One message of the batch is run. */
    method Deliver(m: Message, turn: Turn)
      requires Valid() && AllCalls(turn.calls)
      requires State().current.Nothing? && State().batch != [] && m == State().batch[0]
      modifies this
      ensures Valid() && run == old(run) + TurnSteps(turn)
      ensures State().current.Nothing? && State().batch == old(State()).batch[1..]
    {
      RunMore(run, Passes(turn.at));
      Pass(turn.at);
      var now := BeginMessage(m);
      CallAll(turn.calls);
      if turn.cancelSelf {
        CancelSelf();
      }
      EndMessage(now);
    }

    /** One pass of the loop: what is due is taken, and run in order. */
    method DeliverDue(now: real, turns: seq<Turn>)
      requires Valid() && GoodTurns(turns) && State().current.Nothing? && State().batch == []
      modifies this
      ensures Valid() && State().current.Nothing? && State().batch == []
      ensures var taken := old(run) + [Passes(now), Takes];
              run == taken + Steps(turns, |Run(taken).batch|)
    {
      ghost var taken := old(run) + [Passes(now), Takes];
      RunMore(run, Passes(now));
      Pass(now);
      assert run + [Takes] == taken;
      var msgsToDeliverNow := TakeDue(clock);
      assert run == taken;
      for k := 0 to |msgsToDeliverNow|
        invariant Valid() && State().current.Nothing? && State().batch == msgsToDeliverNow[k..]
        invariant run == taken + Steps(turns, k)
      {
        Deliver(msgsToDeliverNow[k], TurnAt(turns, k));
      }
    }

    /** The loop of the thread, for any number of passes: what it does to the queue is a run of steps. */
    method Loop(rounds: seq<Round>)
      requires Valid() && GoodRounds(rounds) && State().current.Nothing? && State().batch == []
      modifies this
      ensures Valid() && State().current.Nothing? && State().batch == []
      ensures run == AllSteps(old(run), rounds)
    {
      for k := 0 to |rounds|
        invariant Valid() && State().current.Nothing? && State().batch == []
        invariant run == AllSteps(old(run), rounds[..k])
      {
        ghost var before := run;
        CallAll(rounds[k].before);
        DeliverDue(rounds[k].now, rounds[k].turns);
        RoundTaken(before, run, rounds[k]);
        assert rounds[..k + 1][..k] == rounds[..k];
      }
      assert rounds[..|rounds|] == rounds;
    }
  }

  lemma RoundTaken(before: seq<Action>, run: seq<Action>, r: Round)
    requires var taken := before + r.before + [Passes(r.now), Takes];
             run == taken + Steps(r.turns, |Run(taken).batch|)
    ensures run == before + RoundSteps(before, r)
  {
  }

  lemma PartitionStep(q: seq<Message>, k: nat, now: real, due: seq<Message>, later: seq<Message>)
    requires k < |q|
    ensures due + DueOf(q[k..], now) == due + (if Due(q[k], now) then [q[k]] else []) + DueOf(q[k + 1..], now)
    ensures later + LaterOf(q[k..], now) == later + (if Due(q[k], now) then [] else [q[k]]) + LaterOf(q[k + 1..], now)
  {
    assert q[k..][1..] == q[k + 1..];
  }

  /** There is one place where a message goes. */
  lemma {:induction false} InsertHere(q: seq<Message>, m: Message, k: nat)
    requires Sorted(q) && 1 <= k <= |q| && q[k - 1].deliverAt <= m.deliverAt
             && (k < |q| ==> m.deliverAt < q[k].deliverAt)
    ensures Insert(q, m) == q[..k] + [m] + q[k..]
  {
    InsertStable(q, m);
    assert InsertAt(q, m) == k;
  }
}

/** Every run of the message thread: posts and cancels come at any time, also while a message is run. */
module MessageRuns {
  import opened Messages

  /** A message that was run, as it was in the queue, and when. */
  datatype Ran = Ran(m: Message, at: real)

  datatype Current = Nothing | Running(m: Message)

  /**
   * posted has all messages as they were posted; cancelled those that were taken out of the queue or ended
   * themselves.
   */
  datatype State = State(queue: seq<Message>, batch: seq<Message>, current: Current, now: real,
                         posted: seq<Message>, log: seq<Ran>, cancelled: set<nat>)

  const INITIAL := State([], [], Nothing, 0.0, [], [], {})

  datatype Action =
    | Passes(now: real)
    | Posts(delay: real, interval: real)
    | Cancels(id: nat)
    | Takes
    | Begins
    | Ends(cancelSelf: bool)

  /** The first id is 1. */
  function NewMessage(s: State, delay: real, interval: real): Message {
    Message(|s.posted| + 1, if delay == 0.0 then 0.0 else s.now + delay, interval)
  }

  function Nominal(r: Ran): real {
    if r.m.deliverAt == 0.0 then r.at else r.m.deliverAt
  }

  predicate Has(q: seq<Message>, id: nat) {
    Count(q, id) > 0
  }

  function Count(q: seq<Message>, id: nat): nat {
    if q == [] then 0 else (if q[0].id == id then 1 else 0) + Count(q[1..], id)
  }

  /** An action that is not possible just now changes nothing. */
  function Step(s: State, a: Action): State {
    match a
    case Passes(now) => if now >= s.now then s.(now := now) else s
    case Posts(delay, interval) =>
      if delay < 0.0 then s
      else
        var m := NewMessage(s, delay, interval);
        s.(queue := Insert(s.queue, m), posted := s.posted + [m])
    case Cancels(id) =>
      s.(queue := Without(s.queue, id), cancelled := if Has(s.queue, id) then s.cancelled + {id} else s.cancelled)
    case Takes =>
      if s.current.Nothing? && s.batch == [] then s.(batch := DueOf(s.queue, s.now), queue := LaterOf(s.queue, s.now))
      else s
    case Begins =>
      if s.current.Nothing? && s.batch != [] then
        var r := Ran(s.batch[0], s.now);
        s.(batch := s.batch[1..], log := s.log + [r], current := Running(r.m.(deliverAt := Nominal(r))))
      else s
    case Ends(cancelSelf) =>
      match s.current
      case Nothing => s
      case Running(m) =>
        var t := s.(current := Nothing);
        if m.interval <= 0.0 then t
        else if cancelSelf then t.(cancelled := s.cancelled + {m.id})
        else t.(queue := Insert(s.queue, m.(deliverAt := m.deliverAt + m.interval)))
  }

  function Run(actions: seq<Action>): State
    decreases |actions|
  {
    if actions == [] then INITIAL else Step(Run(actions[..|actions| - 1]), actions[|actions| - 1])
  }

  lemma RunMore(run: seq<Action>, a: Action)
    ensures Run(run + [a]) == Step(Run(run), a)
  {
    assert (run + [a])[..|run + [a]| - 1] == run;
  }

  // ----- Time and order of the queue

  predicate InTime(s: State) {
    && Sorted(s.queue) && Timed(s.queue) && s.now >= 0.0
    && (forall k | 0 <= k < |s.batch| :: Due(s.batch[k], s.now) && s.batch[k].deliverAt >= 0.0)
    && (s.current.Running? ==> 0.0 <= s.current.m.deliverAt <= s.now)
    && (forall k | 0 <= k < |s.log| :: Due(s.log[k].m, s.log[k].at) && s.log[k].at <= s.now)
  }

  lemma InsertTimed(q: seq<Message>, m: Message)
    requires Sorted(q) && Timed(q) && m.deliverAt >= 0.0
    ensures Timed(Insert(q, m)) && Sorted(Insert(q, m))
  {
    InsertStable(q, m);
  }

  lemma WithoutTimed(q: seq<Message>, id: nat)
    requires Sorted(q) && Timed(q)
    ensures Timed(Without(q, id)) && Sorted(Without(q, id))
  {
    WithoutSorted(q, id);
    var r := Without(q, id);
    forall k | 0 <= k < |r| ensures r[k].deliverAt >= 0.0 {
      assert r[k] in q;
    }
  }

  lemma StepInTime(s: State, a: Action)
    requires InTime(s)
    ensures InTime(Step(s, a))
  {
    match a
    case Posts(delay, interval) =>
      if delay >= 0.0 {
        InsertTimed(s.queue, NewMessage(s, delay, interval));
      }
    case Cancels(id) => WithoutTimed(s.queue, id);
    case Takes => TakeInTime(s);
    case Ends(cancelSelf) =>
      if s.current.Running? && s.current.m.interval > 0.0 {
        InsertTimed(s.queue, s.current.m.(deliverAt := s.current.m.deliverAt + s.current.m.interval));
      }
    case _ =>
  }

  lemma TakeInTime(s: State)
    requires InTime(s)
    ensures InTime(Step(s, Takes))
  {
    var d, l := DueOf(s.queue, s.now), LaterOf(s.queue, s.now);
    BatchIsPrefix(s.queue, s.now);
    assert forall k | 0 <= k < |d| :: d[k] == s.queue[k];
    assert forall k | 0 <= k < |l| :: l[k] == s.queue[|d| + k];
  }

  /** Over any run the queue is in order, and nothing runs before it is due. */
  lemma {:induction false} RunInTime(actions: seq<Action>)
    ensures InTime(Run(actions))
    decreases |actions|
  {
    if actions != [] {
      RunInTime(actions[..|actions| - 1]);
      StepInTime(Run(actions[..|actions| - 1]), actions[|actions| - 1]);
    }
  }

  // ----- The line of all messages: those that have run, those about to, and those that wait

  function MessagesOf(log: seq<Ran>): (r: seq<Message>)
    ensures |r| == |log|
  {
    seq(|log|, k requires 0 <= k < |log| => log[k].m)
  }

  function Line(s: State): seq<Message> {
    MessagesOf(s.log) + s.batch + s.queue
  }

  /** Taking a batch and running its messages does not change the line. */
  lemma LineMoves(s: State, a: Action)
    requires InTime(s) && (a.Takes? || a.Begins? || a.Passes?)
    ensures Line(Step(s, a)) == Line(s)
  {
    if a.Takes? {
      BatchIsPrefix(s.queue, s.now);
    } else if a.Begins? && s.current.Nothing? && s.batch != [] {
      var t := Step(s, a);
      assert MessagesOf(t.log) == MessagesOf(s.log) + [s.batch[0]];
    }
  }

  lemma LineInsert(s: State, m: Message) returns (k: nat)
    requires InTime(s)
    ensures k <= |Line(s)| && |s.log| + |s.batch| <= k
    ensures Line(s.(queue := Insert(s.queue, m))) == Line(s)[..k] + [m] + Line(s)[k..]
    ensures forall i | k <= i < |Line(s)| :: m.deliverAt < Line(s)[i].deliverAt
  {
    var j := InsertAt(s.queue, m);
    k := |s.log| + |s.batch| + j;
    InsertStable(s.queue, m);
    var front := MessagesOf(s.log) + s.batch;
    assert Line(s) == front + s.queue;
    assert front + (s.queue[..j] + [m] + s.queue[j..]) == Line(s)[..k] + [m] + Line(s)[k..];
  }

  predicate OneShot(m: Message) {
    m.interval <= 0.0
  }

  /** The first was posted before the second, and is due no later. */
  predicate Precedes(x: Message, y: Message) {
    OneShot(x) && OneShot(y) && x.id < y.id && x.deliverAt <= y.deliverAt
  }

  predicate Ordered(line: seq<Message>) {
    forall i, j | 0 <= i < j < |line| :: !Precedes(line[j], line[i])
  }

  predicate Known(line: seq<Message>, n: nat) {
    forall k | 0 <= k < |line| :: 1 <= line[k].id <= n
  }

  /** A message is as it was posted, but that one that repeats has other times. */
  predicate AsPosted(m: Message, posted: seq<Message>) {
    1 <= m.id <= |posted| && m.interval == posted[m.id - 1].interval && (OneShot(m) ==> m == posted[m.id - 1])
  }

  predicate AllAsPosted(line: seq<Message>, posted: seq<Message>) {
    forall k | 0 <= k < |line| :: AsPosted(line[k], posted)
  }

  lemma OrderedInsert(line: seq<Message>, k: nat, m: Message, n: nat)
    requires Ordered(line) && Known(line, n) && k <= |line|
    requires OneShot(m) ==> m.id > n && forall i | k <= i < |line| :: m.deliverAt < line[i].deliverAt
    ensures Ordered(line[..k] + [m] + line[k..])
  {
    var now := line[..k] + [m] + line[k..];
    forall i, j | 0 <= i < j < |now| ensures !Precedes(now[j], now[i]) {
      assert i < k ==> now[i] == line[i];
      assert i > k ==> now[i] == line[i - 1];
      assert j < k ==> now[j] == line[j];
      assert j > k ==> now[j] == line[j - 1];
    }
  }

  lemma {:induction false} WithoutOrdered(front: seq<Message>, q: seq<Message>, id: nat)
    requires Ordered(front + q)
    ensures Ordered(front + Without(q, id))
    decreases |q|
  {
    if q != [] {
      var all := front + q;
      if q[0].id == id {
        var less := front + q[1..];
        forall i, j | 0 <= i < j < |less| ensures !Precedes(less[j], less[i]) {
          assert less[i] == all[if i < |front| then i else i + 1];
          assert less[j] == all[if j < |front| then j else j + 1];
        }
        WithoutOrdered(front, q[1..], id);
      } else {
        assert (front + [q[0]]) + q[1..] == all;
        WithoutOrdered(front + [q[0]], q[1..], id);
        assert (front + [q[0]]) + Without(q[1..], id) == front + Without(q, id);
      }
    }
  }

  predicate InLine(s: State) {
    && InTime(s) && Ordered(Line(s)) && AllAsPosted(Line(s), s.posted)
    && (s.current.Running? ==>
          1 <= s.current.m.id <= |s.posted| && s.current.m.interval == s.posted[s.current.m.id - 1].interval)
    && (forall k | 0 <= k < |s.posted| :: s.posted[k].id == k + 1)
  }

  lemma StepPosts(s: State, delay: real, interval: real)
    requires InLine(s) && delay >= 0.0
    ensures InLine(Step(s, Posts(delay, interval)))
  {
    var m := NewMessage(s, delay, interval);
    var t := Step(s, Posts(delay, interval));
    var k := LineInsert(s, m);
    OrderedInsert(Line(s), k, m, |s.posted|);
    assert Line(t) == Line(s)[..k] + [m] + Line(s)[k..];
    StepInTime(s, Posts(delay, interval));
    AsPostedInsert(Line(s), k, m, s.posted, t.posted);
  }

  lemma AsPostedInsert(line: seq<Message>, k: nat, m: Message, posted: seq<Message>, now: seq<Message>)
    requires AllAsPosted(line, posted) && k <= |line| && posted <= now && AsPosted(m, now)
    ensures AllAsPosted(line[..k] + [m] + line[k..], now)
  {
    var all := line[..k] + [m] + line[k..];
    forall i | 0 <= i < |all| ensures AsPosted(all[i], now) {
      if i != k {
        assert all[i] == line[if i < k then i else i - 1];
      }
    }
  }

  lemma StepEnds(s: State, cancelSelf: bool)
    requires InLine(s)
    ensures InLine(Step(s, Ends(cancelSelf)))
  {
    StepInTime(s, Ends(cancelSelf));
    if s.current.Running? && !OneShot(s.current.m) && !cancelSelf {
      var m := s.current.m.(deliverAt := s.current.m.deliverAt + s.current.m.interval);
      var k := LineInsert(s, m);
      OrderedInsert(Line(s), k, m, |s.posted|);
      AsPostedInsert(Line(s), k, m, s.posted, s.posted);
      assert Line(Step(s, Ends(cancelSelf))) == Line(s)[..k] + [m] + Line(s)[k..];
    } else {
      assert Line(Step(s, Ends(cancelSelf))) == Line(s);
    }
  }

  lemma StepCancels(s: State, id: nat)
    requires InLine(s)
    ensures InLine(Step(s, Cancels(id)))
  {
    StepInTime(s, Cancels(id));
    var front := MessagesOf(s.log) + s.batch;
    WithoutOrdered(front, s.queue, id);
    var line := front + Without(s.queue, id);
    forall k | 0 <= k < |line| ensures AsPosted(line[k], s.posted) {
      if k < |front| {
        assert line[k] == Line(s)[k];
      } else {
        var j :| 0 <= j < |s.queue| && s.queue[j] == line[k];
        assert line[k] == Line(s)[|front| + j];
      }
    }
  }

  lemma StepBegins(s: State)
    requires InLine(s)
    ensures InLine(Step(s, Begins))
  {
    StepInTime(s, Begins);
    LineMoves(s, Begins);
    if s.current.Nothing? && s.batch != [] {
      assert Line(s)[|s.log|] == s.batch[0];
    }
  }

  lemma StepInLine(s: State, a: Action)
    requires InLine(s)
    ensures InLine(Step(s, a))
  {
    match a
    case Posts(delay, interval) =>
      if delay >= 0.0 {
        StepPosts(s, delay, interval);
      }
    case Cancels(id) => StepCancels(s, id);
    case Begins => StepBegins(s);
    case Ends(cancelSelf) => StepEnds(s, cancelSelf);
    case _ =>
      StepInTime(s, a);
      LineMoves(s, a);
  }

  lemma {:induction false} RunInLine(actions: seq<Action>)
    ensures InLine(Run(actions))
    decreases |actions|
  {
    if actions == [] {
      assert Line(INITIAL) == [];
    } else {
      RunInLine(actions[..|actions| - 1]);
      StepInLine(Run(actions[..|actions| - 1]), actions[|actions| - 1]);
    }
  }

  /** Of two messages that are run once, the one posted first and due no later runs first, whenever both run. */
  lemma EarlierRunsFirst(actions: seq<Action>, i: nat, j: nat)
    requires i < |Run(actions).log| && j < |Run(actions).log|
    requires Precedes(Run(actions).log[i].m, Run(actions).log[j].m)
    ensures i < j
  {
    RunInLine(actions);
    var s := Run(actions);
    assert Line(s)[i] == s.log[i].m && Line(s)[j] == s.log[j].m;
    assert !Precedes(s.log[i].m, s.log[i].m);
  }
}

/**
 * A queue between threads: a list under a mutex, and a semaphore that counts what may be taken. Any
 * number of threads put and take; each operation is a sequence of steps that the others can come
 * between.
 */
module BlockingQueue {

  /** Where a thread is in its operation. */
  datatype Place<T> =
    | Idle
    | PutStarts(thing: T)
    | PutLocked(thing: T)
    | PutPushed
    | PutReleased
    | GetStarts
    | GetAcquired
    | GetLocked
    | GetRead(taken: T)
    | GetPopped(taken: T)

  datatype Holder = Free | Held(thread: nat)

  /** pushed and popped keep the history; aborted is set when a put finds the queue too long. */
  datatype State<T> = State(capacity: nat, queue: seq<T>, count: nat, mutex: Holder, threads: map<nat, Place<T>>,
                            pushed: seq<T>, popped: seq<T>, aborted: bool)

  datatype Action<T> = CallPut(thread: nat, thing: T) | CallGet(thread: nat) | Go(thread: nat)

  function Initial<T>(capacity: nat): State<T> {
    State(capacity, [], 0, Free, map[], [], [], false)
  }

  function At<T>(s: State<T>, t: nat): Place<T> {
    if t in s.threads then s.threads[t] else Idle
  }

  /** The thread's next step can be taken: its mutex is free, or the semaphore lets it through. */
  predicate Can<T>(s: State<T>, a: Action<T>) {
    && !s.aborted
    && match a
       case CallPut(t, _) => At(s, t).Idle?
       case CallGet(t) => At(s, t).Idle?
       case Go(t) =>
         match At(s, t)
         case Idle => false
         case PutStarts(_) => s.mutex.Free?
         case GetStarts => s.count > 0
         case GetAcquired => s.mutex.Free?
         case GetLocked => s.queue != []
         case GetRead(_) => s.queue != []
         case _ => true
  }

  function Move<T>(s: State<T>, t: nat, p: Place<T>): State<T> {
    s.(threads := s.threads[t := p])
  }

  function Do<T>(s: State<T>, a: Action<T>): State<T>
    requires Can(s, a)
  {
    match a
    case CallPut(t, thing) => Move(s, t, PutStarts(thing))
    case CallGet(t) => Move(s, t, GetStarts)
    case Go(t) =>
      match At(s, t)
      case PutStarts(thing) => Move(s.(mutex := Held(t)), t, PutLocked(thing))
      case PutLocked(thing) => Move(s.(queue := s.queue + [thing], pushed := s.pushed + [thing]), t, PutPushed)
      case PutPushed =>
        if |s.queue| > s.capacity then s.(aborted := true) else Move(s.(count := s.count + 1), t, PutReleased)
      case PutReleased => Move(s.(mutex := Free), t, Idle)
      case GetStarts => Move(s.(count := s.count - 1), t, GetAcquired)
      case GetAcquired => Move(s.(mutex := Held(t)), t, GetLocked)
      case GetLocked => Move(s, t, GetRead(s.queue[0]))
      case GetRead(taken) => Move(s.(queue := s.queue[1..], popped := s.popped + [s.queue[0]]), t, GetPopped(taken))
      case GetPopped(_) => Move(s.(mutex := Free), t, Idle)
  }

  /** Any interleaving: threads are given turns in any order, and a step that cannot be taken is not. */
  function After<T>(s: State<T>, turns: seq<Action<T>>): State<T>
    decreases |turns|
  {
    if turns == [] then s
    else
      var t := After(s, turns[..|turns| - 1]);
      if Can(t, turns[|turns| - 1]) then Do(t, turns[|turns| - 1]) else t
  }

  // ----- What every step keeps

  /** The thread has a unit of the semaphore, and has not yet taken a thing for it. */
  predicate Owed<T>(p: Place<T>) {
    p.GetAcquired? || p.GetLocked? || p.GetRead?
  }

  predicate Locks<T>(p: Place<T>) {
    p.PutLocked? || p.PutPushed? || p.PutReleased? || p.GetLocked? || p.GetRead? || p.GetPopped?
  }

  function OwedThreads<T>(threads: map<nat, Place<T>>): set<nat> {
    set t | t in threads && Owed(threads[t])
  }

  /** A put has pushed and not yet released the semaphore. */
  function Unreleased<T>(s: State<T>): nat {
    if s.mutex.Held? && At(s, s.mutex.thread).PutPushed? then 1 else 0
  }

  /** Every thing in the queue is counted by the semaphore, owed to a thread, or about to be released. */
  predicate Counted<T>(s: State<T>) {
    |s.queue| == s.count + |OwedThreads(s.threads)| + Unreleased(s)
  }

  /** The mutex is held by the thread that is between locking and unlocking it. */
  predicate Exclusive<T>(s: State<T>) {
    && (forall t | t in s.threads :: Locks(s.threads[t]) <==> s.mutex == Held(t))
    && (s.mutex.Held? ==> s.mutex.thread in s.threads)
  }

  /** What was pushed is what was popped and then what is in the queue; a thread has what it took. */
  ghost predicate History<T>(s: State<T>) {
    && s.pushed == s.popped + s.queue
    && (forall t | t in s.threads && s.threads[t].GetRead? :: s.queue != [] && s.threads[t].taken == s.queue[0])
    && (forall t | t in s.threads && s.threads[t].GetPopped? ::
          s.popped != [] && s.threads[t].taken == s.popped[|s.popped| - 1])
    && (|s.queue| > s.capacity ==> Unreleased(s) == 1)
  }

  ghost predicate Inv<T>(s: State<T>) {
    Counted(s) && Exclusive(s) && History(s)
  }

  lemma OwedMove<T>(threads: map<nat, Place<T>>, t: nat, p: Place<T>)
    ensures var before, now := OwedThreads(threads), OwedThreads(threads[t := p]);
            && now == (if Owed(p) then before + {t} else before - {t})
            && |now| - |before| == (if Owed(p) then 1 else 0) - (if t in threads && Owed(threads[t]) then 1 else 0)
  {
    var before, now := OwedThreads(threads), OwedThreads(threads[t := p]);
    assert now == if Owed(p) then before + {t} else before - {t};
    if Owed(p) && t !in before {
      assert now - {t} == before;
    }
  }

  lemma StepExclusive<T>(s: State<T>, a: Action<T>)
    requires Exclusive(s) && Can(s, a)
    ensures Exclusive(Do(s, a))
  {
  }

  lemma StepCounted<T>(s: State<T>, a: Action<T>)
    requires Exclusive(s) && Counted(s) && Can(s, a)
    ensures Counted(Do(s, a))
  {
    var t := a.thread;
    OwedMove(s.threads, t, At(Do(s, a), t));
    StepUnreleased(s, a);
  }

  lemma StepUnreleased<T>(s: State<T>, a: Action<T>)
    requires Exclusive(s) && Can(s, a)
    ensures Unreleased(Do(s, a)) == if At(Do(s, a), a.thread).PutPushed? then 1
                                    else if At(s, a.thread).PutPushed? then 0 else Unreleased(s)
  {
    StepExclusive(s, a);
  }

  lemma StepHistory<T>(s: State<T>, a: Action<T>)
    requires Exclusive(s) && History(s) && Can(s, a)
    ensures History(Do(s, a))
  {
    var now := Do(s, a);
    StepExclusive(s, a);
    StepUnreleased(s, a);
    StepPushed(s, a);
    forall t | t in now.threads && now.threads[t].GetRead?
      ensures now.queue != [] && now.threads[t].taken == now.queue[0]
    {
      StepRead(s, a, t);
    }
    forall t | t in now.threads && now.threads[t].GetPopped?
      ensures now.popped != [] && now.threads[t].taken == now.popped[|now.popped| - 1]
    {
      StepPopped(s, a, t);
    }
  }

  lemma StepPushed<T>(s: State<T>, a: Action<T>)
    requires Exclusive(s) && History(s) && Can(s, a)
    ensures Do(s, a).pushed == Do(s, a).popped + Do(s, a).queue
  {
    if a.Go? && At(s, a.thread).GetRead? {
      assert s.queue == [s.queue[0]] + s.queue[1..];
    }
  }

  /** While a thread is at the front, the mutex keeps the others from the queue. */
  lemma StepRead<T>(s: State<T>, a: Action<T>, t: nat)
    requires Exclusive(s) && History(s) && Can(s, a)
    requires t in Do(s, a).threads && Do(s, a).threads[t].GetRead?
    ensures Do(s, a).queue != [] && Do(s, a).threads[t].taken == Do(s, a).queue[0]
  {
    StepExclusive(s, a);
  }

  lemma StepPopped<T>(s: State<T>, a: Action<T>, t: nat)
    requires Exclusive(s) && History(s) && Can(s, a)
    requires t in Do(s, a).threads && Do(s, a).threads[t].GetPopped?
    ensures Do(s, a).popped != [] && Do(s, a).threads[t].taken == Do(s, a).popped[|Do(s, a).popped| - 1]
  {
    StepExclusive(s, a);
  }

  lemma StepKeeps<T>(s: State<T>, a: Action<T>)
    requires Inv(s) && Can(s, a)
    ensures Inv(Do(s, a))
  {
    StepExclusive(s, a);
    StepCounted(s, a);
    StepHistory(s, a);
  }

  /** Something is in the queue for every thread that is to take something. */
  lemma NeverEmpty<T>(s: State<T>, t: nat)
    requires Inv(s) && t in s.threads && Owed(s.threads[t])
    ensures s.queue != []
  {
    assert t in OwedThreads(s.threads);
    assert |OwedThreads(s.threads)| > 0;
  }

  lemma {:induction false} RunKeeps<T>(capacity: nat, turns: seq<Action<T>>)
    ensures Inv(After(Initial(capacity), turns))
    ensures After(Initial(capacity), turns).capacity == capacity
    decreases |turns|
  {
    if turns == [] {
      var s: State<T> := Initial(capacity);
      assert OwedThreads(s.threads) == {};
    } else {
      var before := turns[..|turns| - 1];
      RunKeeps(capacity, before);
      if Can(After(Initial(capacity), before), turns[|turns| - 1]) {
        StepKeeps(After(Initial(capacity), before), turns[|turns| - 1]);
      }
    }
  }

  // ----- What a user of the queue relies on

  /** In every interleaving things come out in the order in which they went in, and each once. */
  lemma FirstInFirstOut<T>(capacity: nat, turns: seq<Action<T>>)
    ensures var s := After(Initial(capacity), turns);
            s.popped <= s.pushed && s.pushed[|s.popped|..] == s.queue
  {
    RunKeeps(capacity, turns);
  }

  /**
   * In every interleaving a thread that is to take a thing finds one, so that nothing is popped from an
   * empty queue.
   */
  lemma NothingFromEmpty<T>(capacity: nat, turns: seq<Action<T>>, t: nat)
    ensures var s := After(Initial(capacity), turns);
            At(s, t).GetLocked? || At(s, t).GetRead? ==> s.queue != []
  {
    RunKeeps(capacity, turns);
    var s := After(Initial(capacity), turns);
    if At(s, t).GetLocked? || At(s, t).GetRead? {
      NeverEmpty(s, t);
    }
  }

  /** A thread hands back the thing that was at the front when it popped it. */
  lemma TakesFront<T>(s: State<T>, t: nat)
    requires Inv(s) && At(s, t).GetRead? && Can(s, Go(t))
    ensures var next := Do(s, Go(t));
            At(next, t) == GetPopped(s.queue[0]) && next.popped == s.popped + [s.queue[0]] && next.queue == s.queue[1..]
  {
    assert t in s.threads;
  }

  /** A put aborts the program just when the queue held as many things as it may before. */
  lemma AbortIff<T>(s: State<T>, t: nat)
    requires Inv(s) && !s.aborted && At(s, t).PutLocked?
    ensures var pushed := Do(s, Go(t));
            Can(pushed, Go(t)) && (Do(pushed, Go(t)).aborted <==> |s.queue| == s.capacity)
  {
    assert t in s.threads && s.mutex == Held(t);
  }

  /** The semaphore never counts more than the capacity. */
  lemma CountBounded<T>(capacity: nat, turns: seq<Action<T>>)
    ensures After(Initial(capacity), turns).count <= capacity
    decreases |turns|
  {
    if turns != [] {
      var before := turns[..|turns| - 1];
      CountBounded(capacity, before);
      RunKeeps(capacity, before);
      var s := After(Initial(capacity), before);
      if Can(s, turns[|turns| - 1]) {
        StepKeeps(s, turns[|turns| - 1]);
      }
    }
  }

  predicate Waits<T>(p: Place<T>) {
    p.Idle? || p.GetStarts?
  }

  /**
   * Some thread can go on, unless each is idle or waits for something to take; none waits while the queue
   * holds something.
   */
  lemma Progress<T>(s: State<T>)
    requires Inv(s) && !s.aborted
    ensures (exists t :: t in s.threads && Can(s, Go(t)))
         || forall t | t in s.threads :: At(s, t).Idle? || (At(s, t).GetStarts? && s.queue == [])
  {
    if s.mutex.Held? {
      HolderGoes(s, s.mutex.thread);
    } else if t :| t in s.threads && !Waits(s.threads[t]) {
      assert Can(s, Go(t));
    } else if t :| t in s.threads && s.threads[t].GetStarts? && s.count > 0 {
      assert Can(s, Go(t));
    } else {
      assert OwedThreads(s.threads) == {};
    }
  }

  lemma HolderGoes<T>(s: State<T>, t: nat)
    requires Inv(s) && !s.aborted && s.mutex == Held(t)
    ensures t in s.threads && Can(s, Go(t))
  {
    if Owed(s.threads[t]) {
      NeverEmpty(s, t);
    }
  }
}

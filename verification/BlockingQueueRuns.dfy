/** What is put into the queue and what is got out of it, told from the turns that the threads take. */
module BlockingQueueRuns {
  import opened BlockingQueue
  import Counting

  /** The things of a thread's calls of Put that were taken up, in their order. */
  function PutBy<T>(capacity: nat, turns: seq<Action<T>>, t: nat): seq<T>
    decreases |turns|
  {
    if turns == [] then []
    else
      var before, a := turns[..|turns| - 1], turns[|turns| - 1];
      PutBy(capacity, before, t)
      + (if a.CallPut? && a.thread == t && Can(After(Initial(capacity), before), a) then [a.thing] else [])
  }

  /** The things that a thread's calls of GetBlocking have returned, in their order. */
  function GotBy<T>(capacity: nat, turns: seq<Action<T>>, t: nat): seq<T>
    decreases |turns|
  {
    if turns == [] then []
    else
      var before, a := turns[..|turns| - 1], turns[|turns| - 1];
      var s := After(Initial(capacity), before);
      GotBy(capacity, before, t) + (if a == Go(t) && Can(s, a) && At(s, t).GetPopped? then [At(s, t).taken] else [])
  }

  /** Those of a sequence that belong to a thread. */
  function Of<T>(things: seq<T>, owners: seq<nat>, t: nat): seq<T>
    requires |owners| == |things|
    decreases |things|
  {
    if things == [] then []
    else
      var n := |things| - 1;
      Of(things[..n], owners[..n], t) + (if owners[n] == t then [things[n]] else [])
  }

  /** What a thread that puts has not yet pushed. */
  function ToPush<T>(p: Place<T>): seq<T> {
    if p.PutStarts? || p.PutLocked? then [p.thing] else []
  }

  /** What a thread that gets has popped and not yet returned. */
  function ToReturn<T>(p: Place<T>): seq<T> {
    if p.GetPopped? then [p.taken] else []
  }

  lemma AfterMore<T>(capacity: nat, turns: seq<Action<T>>)
    requires turns != []
    ensures var s, a := After(Initial(capacity), turns[..|turns| - 1]), turns[|turns| - 1];
            After(Initial(capacity), turns) == if Can(s, a) then Do(s, a) else s
  {
  }

  lemma Regroup<T>(a: seq<T>, b: seq<T>, c: seq<T>, d: seq<T>, e: seq<T>)
    requires b + c == d + e
    ensures a + b + c == a + d + e
  {
    assert a + b + c == a + (b + c);
    assert a + d + e == a + (d + e);
  }

  lemma OfMore<T>(things: seq<T>, owners: seq<nat>, x: T, owner: nat, t: nat)
    requires |owners| == |things|
    ensures Of(things + [x], owners + [owner], t) == Of(things, owners, t) + (if owner == t then [x] else [])
  {
    assert (things + [x])[..|things|] == things && (owners + [owner])[..|owners|] == owners;
  }

  /** What a turn puts for a thread. */
  function Puts<T>(a: Action<T>, t: nat): seq<T> {
    if a.CallPut? && a.thread == t then [a.thing] else []
  }

  /** What a thread that is at the end of a get returns with the turn. */
  function Returns<T>(s: State<T>, a: Action<T>, t: nat): seq<T> {
    if a == Go(t) then ToReturn(At(s, t)) else []
  }

  /** For a thread: what was pushed for it, and what it is about to push. */
  function PutLine<T>(s: State<T>, owners: seq<nat>, t: nat): seq<T>
    requires |owners| == |s.pushed|
  {
    Of(s.pushed, owners, t) + ToPush(At(s, t))
  }

  /** The thread that pushes with a turn is the owner. */
  function OwnersAfter<T>(s: State<T>, a: Action<T>, owners: seq<nat>): (r: seq<nat>)
    requires Can(s, a) && |owners| == |s.pushed|
    ensures |r| == |Do(s, a).pushed|
  {
    if a.Go? && At(s, a.thread).PutLocked? then owners + [a.thread] else owners
  }

  /** What a turn pushes for a thread. */
  function Pushes<T>(s: State<T>, a: Action<T>, t: nat): seq<T> {
    if a == Go(t) && At(s, t).PutLocked? then [At(s, t).thing] else []
  }

  lemma PushedBy<T>(s: State<T>, a: Action<T>, owners: seq<nat>, t: nat)
    requires Can(s, a) && |owners| == |s.pushed|
    ensures Of(Do(s, a).pushed, OwnersAfter(s, a, owners), t) == Of(s.pushed, owners, t) + Pushes(s, a, t)
  {
    if a.Go? && At(s, a.thread).PutLocked? {
      OfMore(s.pushed, owners, At(s, a.thread).thing, a.thread, t);
    }
  }

  /** What a thread puts it has in hand until it pushes it. */
  lemma ToPushMoves<T>(s: State<T>, a: Action<T>, t: nat)
    requires Can(s, a)
    ensures Pushes(s, a, t) + ToPush(At(Do(s, a), t)) == ToPush(At(s, t)) + Puts(a, t)
  {
  }

  lemma StepPuts<T>(s: State<T>, a: Action<T>, owners: seq<nat>, t: nat)
    requires Can(s, a) && |owners| == |s.pushed|
    ensures PutLine(Do(s, a), OwnersAfter(s, a, owners), t) == PutLine(s, owners, t) + Puts(a, t)
  {
    PushedBy(s, a, owners, t);
    ToPushMoves(s, a, t);
    Regroup(Of(s.pushed, owners, t), Pushes(s, a, t), ToPush(At(Do(s, a), t)), ToPush(At(s, t)), Puts(a, t));
  }

  lemma PutMore<T>(capacity: nat, turns: seq<Action<T>>, t: nat)
    requires turns != []
    ensures var s, a := After(Initial(capacity), turns[..|turns| - 1]), turns[|turns| - 1];
            PutBy(capacity, turns, t) ==
            PutBy(capacity, turns[..|turns| - 1], t) + (if Can(s, a) then Puts(a, t) else [])
  {
  }

  /**
   * Over every run each thing that was pushed can be given to a thread so that, for every thread, the things
   * of its calls of Put are those pushed for it, in that order, and then the one it is about to push.
   */
  lemma {:induction false} PutsInOrder<T>(capacity: nat, turns: seq<Action<T>>) returns (owners: seq<nat>)
    ensures var s := After(Initial(capacity), turns);
            && |owners| == |s.pushed|
            && forall t: nat :: PutLine(s, owners, t) == PutBy(capacity, turns, t)
    decreases |turns|
  {
    owners := [];
    if turns != [] {
      var before, a := turns[..|turns| - 1], turns[|turns| - 1];
      owners := PutsInOrder(capacity, before);
      AfterMore(capacity, turns);
      var s := After(Initial(capacity), before);
      if Can(s, a) {
        forall t: nat ensures PutLine(Do(s, a), OwnersAfter(s, a, owners), t) == PutBy(capacity, turns, t) {
          StepPuts(s, a, owners, t);
          PutMore(capacity, turns, t);
        }
        owners := OwnersAfter(s, a, owners);
      }
    }
  }

  // ----- All threads together

  /** The things of all calls of Put that were taken up. */
  function Offered<T>(capacity: nat, turns: seq<Action<T>>): seq<T>
    decreases |turns|
  {
    if turns == [] then []
    else
      var before, a := turns[..|turns| - 1], turns[|turns| - 1];
      Offered(capacity, before)
      + (if a.CallPut? && Can(After(Initial(capacity), before), a) then [a.thing] else [])
  }

  /** What these threads have not yet pushed. */
  function AllToPush<T>(s: State<T>, threads: seq<nat>): seq<T>
    decreases |threads|
  {
    if threads == [] then [] else AllToPush(s, threads[..|threads| - 1]) + ToPush(At(s, threads[|threads| - 1]))
  }

  /** Just the threads that have something to push, each once. */
  ghost predicate Pushing<T>(s: State<T>, threads: seq<nat>) {
    && Counting.Distinct(threads)
    && forall t: nat :: t in threads <==> At(s, t).PutStarts? || At(s, t).PutLocked?
  }

  lemma {:induction false} SameToPush<T>(s: State<T>, u: State<T>, threads: seq<nat>)
    requires forall t | t in threads :: ToPush(At(s, t)) == ToPush(At(u, t))
    ensures AllToPush(s, threads) == AllToPush(u, threads)
    decreases |threads|
  {
    if threads != [] {
      SameToPush(s, u, threads[..|threads| - 1]);
    }
  }

  lemma {:induction false} AllJoin<T>(s: State<T>, a: seq<nat>, b: seq<nat>)
    ensures AllToPush(s, a + b) == AllToPush(s, a) + AllToPush(s, b)
    decreases |b|
  {
    if b == [] {
      assert a + b == a;
    } else {
      assert (a + b)[..|a + b| - 1] == a + b[..|b| - 1];
      AllJoin(s, a, b[..|b| - 1]);
    }
  }

  lemma OneLess<T>(s: State<T>, a: seq<nat>, t: nat, b: seq<nat>)
    ensures multiset(AllToPush(s, a + [t] + b)) == multiset(AllToPush(s, a + b)) + multiset(ToPush(At(s, t)))
  {
    AllJoin(s, a + [t], b);
    AllJoin(s, a, b);
    assert (a + [t])[..|a|] == a;
    Between(AllToPush(s, a), ToPush(At(s, t)), AllToPush(s, b));
  }

  lemma Between<T>(a: seq<T>, x: seq<T>, b: seq<T>)
    ensures multiset(a + x + b) == multiset(a + b) + multiset(x)
  {
  }

  lemma WithoutMember(threads: seq<nat>, j: nat, r: nat)
    requires Counting.Distinct(threads) && j < |threads|
    ensures r in threads[..j] + threads[j + 1..] <==> r in threads && r != threads[j]
  {
    var less := threads[..j] + threads[j + 1..];
    if r in less {
      var i :| 0 <= i < |less| && less[i] == r;
      assert r == threads[if i < j then i else i + 1];
    }
    if r in threads && r != threads[j] {
      var i :| 0 <= i < |threads| && threads[i] == r;
      assert r == less[if i < j then i else i - 1];
    }
  }

  lemma WithoutOne(threads: seq<nat>, t: nat) returns (a: seq<nat>, b: seq<nat>)
    requires Counting.Distinct(threads) && t in threads
    ensures threads == a + [t] + b && Counting.Distinct(a + b)
    ensures forall r :: r in a + b <==> r in threads && r != t
  {
    var j :| 0 <= j < |threads| && threads[j] == t;
    a, b := threads[..j], threads[j + 1..];
    forall r: nat ensures r in a + b <==> r in threads && r != t {
      WithoutMember(threads, j, r);
    }
  }

  /** A thing is pushed by a thread that had it to push. */
  lemma StepPushes<T>(s: State<T>, t: nat, threads: seq<nat>) returns (now: seq<nat>)
    requires Can(s, Go(t)) && At(s, t).PutLocked? && Pushing(s, threads)
    ensures var u := Do(s, Go(t));
            Pushing(u, now) && u.pushed == s.pushed + [At(s, t).thing]
            && multiset(AllToPush(s, threads)) == multiset(AllToPush(u, now)) + multiset([At(s, t).thing])
  {
    var u := Do(s, Go(t));
    var a, b := WithoutOne(threads, t);
    now := a + b;
    OneLess(s, a, t, b);
    SameToPush(s, u, now);
  }

  lemma StepOffers<T>(s: State<T>, a: Action<T>, threads: seq<nat>) returns (now: seq<nat>)
    requires Can(s, a) && a.CallPut? && Pushing(s, threads)
    ensures Pushing(Do(s, a), now) && Do(s, a).pushed == s.pushed
    ensures AllToPush(Do(s, a), now) == AllToPush(s, threads) + [a.thing]
  {
    now := threads + [a.thread];
    assert now[..|threads|] == threads;
    SameToPush(s, Do(s, a), threads);
  }

  lemma StepElse<T>(s: State<T>, a: Action<T>, threads: seq<nat>)
    requires Can(s, a) && Pushing(s, threads) && !a.CallPut? && !(a.Go? && At(s, a.thread).PutLocked?)
    ensures Pushing(Do(s, a), threads) && Do(s, a).pushed == s.pushed
    ensures AllToPush(Do(s, a), threads) == AllToPush(s, threads)
  {
    SameToPush(s, Do(s, a), threads);
  }

  /** Over every run what was put is what was pushed and what some threads are about to push, each just once. */
  lemma {:induction false} NothingLost<T>(capacity: nat, turns: seq<Action<T>>) returns (threads: seq<nat>)
    ensures var s := After(Initial(capacity), turns);
            && Pushing(s, threads)
            && multiset(Offered(capacity, turns)) == multiset(s.pushed) + multiset(AllToPush(s, threads))
    decreases |turns|
  {
    threads := [];
    if turns != [] {
      var before, a := turns[..|turns| - 1], turns[|turns| - 1];
      threads := NothingLost(capacity, before);
      AfterMore(capacity, turns);
      var s := After(Initial(capacity), before);
      if Can(s, a) {
        if a.CallPut? {
          threads := StepOffers(s, a, threads);
        } else if a.Go? && At(s, a.thread).PutLocked? {
          threads := StepPushes(s, a.thread, threads);
        } else {
          StepElse(s, a, threads);
        }
      }
    }
  }

  // ----- Getting

  /** What a turn pops for a thread. */
  function Pops<T>(s: State<T>, a: Action<T>, t: nat): seq<T>
    requires Can(s, a)
  {
    if a == Go(t) && At(s, t).GetRead? then [s.queue[0]] else []
  }

  lemma StepGets<T>(s: State<T>, a: Action<T>, takers: seq<nat>) returns (now: seq<nat>)
    requires Can(s, a) && |takers| == |s.popped|
    ensures |now| == |Do(s, a).popped|
    ensures forall t: nat :: Of(Do(s, a).popped, now, t) == Of(s.popped, takers, t) + Pops(s, a, t)
  {
    if a.Go? && At(s, a.thread).GetRead? {
      now := takers + [a.thread];
      forall t: nat ensures Of(Do(s, a).popped, now, t) == Of(s.popped, takers, t) + Pops(s, a, t) {
        OfMore(s.popped, takers, s.queue[0], a.thread, t);
      }
    } else {
      now := takers;
    }
  }

  /** What a thread pops it has in hand until it returns it. */
  lemma InHand<T>(s: State<T>, a: Action<T>, t: nat)
    requires Inv(s) && Can(s, a)
    ensures ToReturn(At(s, t)) + Pops(s, a, t) == Returns(s, a, t) + ToReturn(At(Do(s, a), t))
  {
    if a == Go(t) && At(s, t).GetRead? {
      TakesFront(s, t);
    }
  }

  lemma GotMore<T>(capacity: nat, turns: seq<Action<T>>, t: nat)
    requires turns != []
    ensures var s, a := After(Initial(capacity), turns[..|turns| - 1]), turns[|turns| - 1];
            GotBy(capacity, turns, t) ==
            GotBy(capacity, turns[..|turns| - 1], t) + (if Can(s, a) then Returns(s, a, t) else [])
  {
  }

  /** Over every run what each thread has got back, and what it is about to, are the things popped for it, in order. */
  lemma {:induction false} GetsInOrder<T>(capacity: nat, turns: seq<Action<T>>) returns (takers: seq<nat>)
    ensures var s := After(Initial(capacity), turns);
            && |takers| == |s.popped|
            && forall t: nat :: Of(s.popped, takers, t) == GotBy(capacity, turns, t) + ToReturn(At(s, t))
    decreases |turns|
  {
    takers := [];
    if turns != [] {
      var before, a := turns[..|turns| - 1], turns[|turns| - 1];
      takers := GetsInOrder(capacity, before);
      AfterMore(capacity, turns);
      RunKeeps(capacity, before);
      var s := After(Initial(capacity), before);
      if Can(s, a) {
        takers := StepGets(s, a, takers);
        forall t: nat
          ensures Of(Do(s, a).popped, takers, t) == GotBy(capacity, turns, t) + ToReturn(At(Do(s, a), t))
        {
          GotMore(capacity, turns, t);
          InHand(s, a, t);
          Regroup(GotBy(capacity, before, t), ToReturn(At(s, t)), Pops(s, a, t), Returns(s, a, t),
                  ToReturn(At(Do(s, a), t)));
        }
      }
    }
  }
}

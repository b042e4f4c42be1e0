/**
 * Packets that are sent again until they are acknowledged, run out of tries or time out. The clock
 * is read once for each update.
 */
module Reliable {

  /** A packet that waits for its acknowledgement; a time of zero means never. */
  datatype Outgoing = Outgoing(seqNo: nat, retryInterval: real, timeout: real, tries: nat, firstSentTime: real,
                               lastSentTime: real)

  function NewOutgoing(seqNo: nat, retryInterval: real, timeout: real, tries: nat): Outgoing {
    Outgoing(seqNo, retryInterval, timeout, tries, 0.0, 0.0)
  }

  predicate TimedOut(p: Outgoing, now: real) {
    p.timeout > 0.0 && p.firstSentTime > 0.0 && now - p.firstSentTime >= p.timeout
  }

  predicate Stays(p: Outgoing, now: real) {
    !TimedOut(p, now) && p.tries > 0
  }

  predicate Sends(p: Outgoing, now: real) {
    Stays(p, now) && now - p.lastSentTime >= p.retryInterval
  }

  /** A packet that stays has a try less; one that is sent keeps the time. */
  function Tried(p: Outgoing, now: real): Outgoing
    requires Stays(p, now)
  {
    var q := p.(tries := p.tries - 1);
    if Sends(p, now) then
      q.(lastSentTime := now, firstSentTime := if p.firstSentTime == 0.0 then now else p.firstSentTime)
    else q
  }

  /** The packet when it stays. */
  function Kept(p: Outgoing, now: real): seq<Outgoing> {
    if Stays(p, now) then [Tried(p, now)] else []
  }

  /** The packet when it is sent. */
  function Sent(p: Outgoing, now: real): seq<Outgoing> {
    if Sends(p, now) then [Tried(p, now)] else []
  }

  function Updated(q: seq<Outgoing>, now: real): seq<Outgoing> {
    if q == [] then [] else Kept(q[0], now) + Updated(q[1..], now)
  }

  function ToSend(q: seq<Outgoing>, now: real): seq<Outgoing> {
    if q == [] then [] else Sent(q[0], now) + ToSend(q[1..], now)
  }

  function Unacked(q: seq<Outgoing>, acked: set<nat>): seq<Outgoing> {
    if q == [] then [] else (if q[0].seqNo in acked then [] else [q[0]]) + Unacked(q[1..], acked)
  }

  // ----- The loops

  class ReliableQueue {
    var reliablePackets: seq<Outgoing>
    /** The delays with which an update was posted to the message thread. */
    var posted: seq<real>

    constructor ()
      ensures reliablePackets == [] && posted == []
    {
      reliablePackets, posted := [], [];
    }

    method SendPacketReliably(seqNo: nat, retryInterval: real, timeout: real, tries: nat)
      requires tries < 256
      modifies this
      ensures reliablePackets == old(reliablePackets) + [NewOutgoing(seqNo, retryInterval, timeout, tries)]
      ensures posted == old(posted) + (if timeout > 0.0 then [0.0, timeout] else [0.0])
    {
      reliablePackets := reliablePackets + [NewOutgoing(seqNo, retryInterval, timeout, tries)];
      posted := posted + [0.0];
      if timeout > 0.0 {
        posted := posted + [timeout];
      }
    }

    /** What is to be sent now; packets that timed out or have no tries left are removed. */
    method UpdateReliablePackets(now: real) returns (packetsToSend: seq<Outgoing>)
      modifies this
      ensures reliablePackets == Updated(old(reliablePackets), now)
              && packetsToSend == ToSend(old(reliablePackets), now)
      ensures posted == old(posted) + Intervals(packetsToSend)
    {
      packetsToSend := [];
      ghost var q := reliablePackets;
      var k := 0;
      ghost var done := 0;
      while k < |reliablePackets|
        invariant done <= |q| && 0 <= k <= |reliablePackets|
        invariant reliablePackets[k..] == q[done..]
        invariant reliablePackets[..k] + Updated(q[done..], now) == Updated(q, now)
        invariant packetsToSend + ToSend(q[done..], now) == ToSend(q, now)
        invariant posted == old(posted) + Intervals(packetsToSend)
        decreases |q| - done
      {
        UpdateStep(q, done, now);
        Regroup(reliablePackets[..k], Kept(q[done], now), Updated(q[done + 1..], now));
        Regroup(packetsToSend, Sent(q[done], now), ToSend(q[done + 1..], now));
        IntervalsJoin(old(posted), packetsToSend, Sent(q[done], now));
        assert reliablePackets[k] == q[done];
        var sent;
        k, sent := UpdateAt(k, now);
        packetsToSend := packetsToSend + sent;
        done := done + 1;
      }
    }

    /** One packet of the list; next is the place of the one behind it. */
    method UpdateAt(k: nat, now: real) returns (next: nat, sent: seq<Outgoing>)
      requires k < |reliablePackets|
      modifies this
      ensures next <= |reliablePackets| && sent == Sent(old(reliablePackets)[k], now)
      ensures reliablePackets[..next] == old(reliablePackets)[..k] + Kept(old(reliablePackets)[k], now)
      ensures reliablePackets[next..] == old(reliablePackets)[k + 1..]
      ensures posted == old(posted) + Intervals(sent)
    {
      next, sent := k, [];
      var qp := reliablePackets[k];
      if qp.timeout > 0.0 && qp.firstSentTime > 0.0 && now - qp.firstSentTime >= qp.timeout {
        Erase(k);
        return;
      }
      if qp.tries == 0 {
        Erase(k);
        return;
      }
      qp := qp.(tries := qp.tries - 1);
      if now - qp.lastSentTime >= qp.retryInterval {
        posted := posted + [qp.retryInterval];
        qp := qp.(lastSentTime := now);
        if qp.firstSentTime == 0.0 {
          qp := qp.(firstSentTime := qp.lastSentTime);
        }
        sent := [qp];
      }
      Replace(k, qp);
      next := k + 1;
    }

    method Erase(k: nat)
      requires k < |reliablePackets|
      modifies this`reliablePackets
      ensures |reliablePackets| == |old(reliablePackets)| - 1
      ensures reliablePackets[..k] == old(reliablePackets[..k]) && reliablePackets[k..] == old(reliablePackets[k + 1..])
    {
      reliablePackets := reliablePackets[..k] + reliablePackets[k + 1..];
    }

    method Replace(k: nat, p: Outgoing)
      requires k < |reliablePackets|
      modifies this`reliablePackets
      ensures |reliablePackets| == |old(reliablePackets)|
      ensures reliablePackets[..k + 1] == old(reliablePackets[..k]) + [p]
      ensures reliablePackets[k + 1..] == old(reliablePackets[k + 1..])
    {
      reliablePackets := reliablePackets[k := p];
    }

    /** Acknowledged packets are removed. */
    method HandleReliablePackets(acked: set<nat>)
      modifies this`reliablePackets
      ensures reliablePackets == Unacked(old(reliablePackets), acked)
    {
      ghost var q := reliablePackets;
      var k := 0;
      ghost var done := 0;
      while k < |reliablePackets|
        invariant done <= |q| && 0 <= k <= |reliablePackets|
        invariant reliablePackets[k..] == q[done..]
        invariant reliablePackets[..k] + Unacked(q[done..], acked) == Unacked(q, acked)
        decreases |q| - done
      {
        assert q[done..][1..] == q[done + 1..];
        var stays := HandleAt(k, acked);
        k := if stays then k + 1 else k;
        done := done + 1;
      }
    }

    method HandleAt(k: nat, acked: set<nat>) returns (stays: bool)
      requires k < |reliablePackets|
      modifies this`reliablePackets
      ensures var p := old(reliablePackets)[k];
              && stays == (p.seqNo !in acked)
              && (if stays then reliablePackets == old(reliablePackets)
                  && reliablePackets[..k + 1] == old(reliablePackets)[..k] + [p]
                  else |reliablePackets| == |old(reliablePackets)| - 1
                       && reliablePackets[..k] == old(reliablePackets)[..k]
                       && reliablePackets[k..] == old(reliablePackets)[k + 1..])
    {
      stays := reliablePackets[k].seqNo !in acked;
      if !stays {
        Erase(k);
      }
    }
  }

  function Intervals(q: seq<Outgoing>): (r: seq<real>)
    ensures |r| == |q| && forall k | 0 <= k < |q| :: r[k] == q[k].retryInterval
  {
    seq(|q|, k requires 0 <= k < |q| => q[k].retryInterval)
  }

  lemma Regroup(a: seq<Outgoing>, b: seq<Outgoing>, c: seq<Outgoing>)
    ensures a + (b + c) == a + b + c
  {
  }

  lemma IntervalsJoin(before: seq<real>, a: seq<Outgoing>, b: seq<Outgoing>)
    ensures before + Intervals(a + b) == before + Intervals(a) + Intervals(b)
  {
    assert Intervals(a + b) == Intervals(a) + Intervals(b);
  }

  lemma UpdateStep(q: seq<Outgoing>, done: nat, now: real)
    requires done < |q|
    ensures Updated(q[done..], now) == Kept(q[done], now) + Updated(q[done + 1..], now)
    ensures ToSend(q[done..], now) == Sent(q[done], now) + ToSend(q[done + 1..], now)
  {
    assert q[done..][1..] == q[done + 1..];
  }

  // ----- Runs of the list

  datatype Event = Queued(p: Outgoing) | Update(now: real) | Acknowledged(acked: set<nat>)

  function After(q: seq<Outgoing>, e: Event): seq<Outgoing> {
    match e
    case Queued(p) => q + [p]
    case Update(now) => Updated(q, now)
    case Acknowledged(acked) => Unacked(q, acked)
  }

  function List(q: seq<Outgoing>, events: seq<Event>): seq<Outgoing>
    decreases |events|
  {
    if events == [] then q else After(List(q, events[..|events| - 1]), events[|events| - 1])
  }

  /** The run without what is queued in it. */
  function Quiet(events: seq<Event>): seq<Event>
    decreases |events|
  {
    if events == [] then []
    else
      var before, e := Quiet(events[..|events| - 1]), events[|events| - 1];
      if e.Queued? then before else before + [e]
  }

  /** What becomes of a packet that is in the list when a run begins. */
  function Life(p: Outgoing, events: seq<Event>): seq<Outgoing> {
    List([p], Quiet(events))
  }

  lemma ListMore(q: seq<Outgoing>, events: seq<Event>, e: Event)
    ensures List(q, events + [e]) == After(List(q, events), e)
  {
    assert (events + [e])[..|events + [e]| - 1] == events;
  }

  lemma QuietMore(events: seq<Event>, e: Event)
    ensures Quiet(events + [e]) == if e.Queued? then Quiet(events) else Quiet(events) + [e]
  {
    assert (events + [e])[..|events + [e]| - 1] == events;
  }

  lemma {:induction false} UpdatedJoins(a: seq<Outgoing>, b: seq<Outgoing>, now: real)
    ensures Updated(a + b, now) == Updated(a, now) + Updated(b, now)
    decreases |a|
  {
    if a == [] {
      assert a + b == b;
    } else {
      assert (a + b)[0] == a[0] && (a + b)[1..] == a[1..] + b;
      UpdatedJoins(a[1..], b, now);
      Regroup(Kept(a[0], now), Updated(a[1..], now), Updated(b, now));
    }
  }

  lemma {:induction false} UnackedJoins(a: seq<Outgoing>, b: seq<Outgoing>, acked: set<nat>)
    ensures Unacked(a + b, acked) == Unacked(a, acked) + Unacked(b, acked)
    decreases |a|
  {
    if a == [] {
      assert a + b == b;
    } else {
      assert (a + b)[0] == a[0] && (a + b)[1..] == a[1..] + b;
      UnackedJoins(a[1..], b, acked);
      Regroup(if a[0].seqNo in acked then [] else [a[0]], Unacked(a[1..], acked), Unacked(b, acked));
    }
  }

  lemma {:induction false} ToSendJoins(a: seq<Outgoing>, b: seq<Outgoing>, now: real)
    ensures ToSend(a + b, now) == ToSend(a, now) + ToSend(b, now)
    decreases |a|
  {
    if a == [] {
      assert a + b == b;
    } else {
      assert (a + b)[0] == a[0] && (a + b)[1..] == a[1..] + b;
      ToSendJoins(a[1..], b, now);
      Regroup(Sent(a[0], now), ToSend(a[1..], now), ToSend(b, now));
    }
  }

  /** The front of the list does not see what is queued behind it. */
  lemma AfterJoins(a: seq<Outgoing>, b: seq<Outgoing>, e: Event)
    ensures After(a + b, e) == (if e.Queued? then a else After(a, e)) + After(b, e)
  {
    match e
    case Queued(p) => Regroup(a, b, [p]);
    case Update(now) => UpdatedJoins(a, b, now);
    case Acknowledged(acked) => UnackedJoins(a, b, acked);
  }

  /**
   * For a given sequence of updates packets in the list do not touch each other, over every run in which
   * more are queued. Where the updates come from is another matter: queueing a packet posts one at once,
   * and so takes a try from every other packet.
   */
  lemma {:induction false} ListJoins(a: seq<Outgoing>, b: seq<Outgoing>, events: seq<Event>)
    ensures List(a + b, events) == List(a, Quiet(events)) + List(b, events)
    decreases |events|
  {
    if events != [] {
      var before, e := events[..|events| - 1], events[|events| - 1];
      ListJoins(a, b, before);
      AfterJoins(List(a, Quiet(before)), List(b, before), e);
      if !e.Queued? {
        ListMore(a, Quiet(before), e);
      }
    }
  }

  /**
   * A packet in the middle of the list, for a given sequence of updates: the list is what became of those
   * in front of it, of the packet, and of those behind it and queued since, and so is what is sent.
   */
  lemma MiddleOfRun(a: seq<Outgoing>, p: Outgoing, b: seq<Outgoing>, events: seq<Event>, now: real)
    ensures var q := List(a + [p] + b, events);
            && q == List(a, Quiet(events)) + Life(p, events) + List(b, events)
            && ToSend(q, now)
            == ToSend(List(a, Quiet(events)), now) + ToSend(Life(p, events), now) + ToSend(List(b, events), now)
  {
    var front, middle, back := List(a, Quiet(events)), Life(p, events), List(b, events);
    Regroup(a, [p], b);
    ListJoins(a, [p] + b, events);
    ListJoins([p], b, events);
    Regroup(front, middle, back);
    ToSendJoins(front, middle + back, now);
    ToSendJoins(middle, back, now);
    Regroup(ToSend(front, now), ToSend(middle, now), ToSend(back, now));
  }

  // ----- The life of a packet

  /** When a packet that is in the list when a run begins is sent. */
  function SendTimes(p: Outgoing, events: seq<Event>): seq<real>
    decreases |events|
  {
    if events == [] then []
    else
      var before, e := events[..|events| - 1], events[|events| - 1];
      SendTimes(p, before) + (if e.Update? && ToSend(Life(p, before), e.now) != [] then [e.now] else [])
  }

  function Updates(events: seq<Event>): nat
    decreases |events|
  {
    if events == [] then 0
    else Updates(events[..|events| - 1]) + (if events[|events| - 1].Update? then 1 else 0)
  }

  /** The clock never shows zero. */
  predicate Clock(events: seq<Event>) {
    forall k | 0 <= k < |events| && events[k].Update? :: events[k].now > 0.0
  }

  predicate Apart(times: seq<real>, interval: real) {
    forall k | 1 <= k < |times| :: times[k] - times[k - 1] >= interval
  }

  predicate WithinTimeout(times: seq<real>, timeout: real) {
    timeout > 0.0 ==> forall k | 1 <= k < |times| :: times[k] - times[0] < timeout
  }

  /** Where a packet stands: its tries and times tell when it was sent. */
  predicate Stands(p: Outgoing, q: Outgoing, times: seq<real>, updates: nat) {
    && q.seqNo == p.seqNo && q.retryInterval == p.retryInterval && q.timeout == p.timeout
    && q.tries + updates == p.tries
    && (if times == [] then q.firstSentTime == 0.0 && q.lastSentTime == 0.0
        else q.firstSentTime == times[0] && q.lastSentTime == times[|times| - 1] && times[0] > 0.0)
  }

  predicate Lives(p: Outgoing, q: seq<Outgoing>, times: seq<real>, updates: nat) {
    && |q| <= 1 && (q != [] ==> Stands(p, q[0], times, updates))
    && |times| <= p.tries && |times| <= updates && Apart(times, p.retryInterval) && WithinTimeout(times, p.timeout)
  }

  lemma One(q: seq<Outgoing>, now: real)
    requires |q| <= 1
    ensures Updated(q, now) == if q == [] then [] else Kept(q[0], now)
    ensures ToSend(q, now) == if q == [] then [] else Sent(q[0], now)
  {
    if q != [] {
      assert q[1..] == [];
    }
  }

  lemma OneUnacked(q: seq<Outgoing>, acked: set<nat>)
    requires |q| <= 1
    ensures Unacked(q, acked) == (if q != [] && q[0].seqNo !in acked then q else [])
  {
    if q != [] {
      assert q[1..] == [] && q == [q[0]];
    }
  }

  lemma LivesUpdate(p: Outgoing, q: seq<Outgoing>, times: seq<real>, updates: nat, now: real)
    requires Lives(p, q, times, updates) && now > 0.0
    ensures Lives(p, Updated(q, now), times + (if ToSend(q, now) != [] then [now] else []), updates + 1)
  {
    One(q, now);
    if q != [] && Sends(q[0], now) {
      SentAgain(p, q[0], times, updates, now);
    } else {
      assert times + [] == times;
    }
  }

  /** One time more. */
  lemma SentAgain(p: Outgoing, q: Outgoing, times: seq<real>, updates: nat, now: real)
    requires Stands(p, q, times, updates) && Sends(q, now) && now > 0.0
    requires Apart(times, p.retryInterval) && WithinTimeout(times, p.timeout)
    ensures Stands(p, Tried(q, now), times + [now], updates + 1)
    ensures Apart(times + [now], p.retryInterval) && WithinTimeout(times + [now], p.timeout)
  {
  }

  /** A packet as it is queued. */
  predicate New(p: Outgoing) {
    p == NewOutgoing(p.seqNo, p.retryInterval, p.timeout, p.tries)
  }

  lemma {:induction false} LivesAlways(p: Outgoing, events: seq<Event>)
    requires New(p) && Clock(events)
    ensures Lives(p, Life(p, events), SendTimes(p, events), Updates(events))
    decreases |events|
  {
    if events != [] {
      var before, e := events[..|events| - 1], events[|events| - 1];
      LivesAlways(p, before);
      LivesEvent(p, before, e, events);
    }
  }

  lemma LifeMore(p: Outgoing, events: seq<Event>, e: Event)
    ensures Life(p, events + [e]) == if e.Queued? then Life(p, events) else After(Life(p, events), e)
  {
    QuietMore(events, e);
    if !e.Queued? {
      ListMore([p], Quiet(events), e);
    }
  }

  lemma LivesEvent(p: Outgoing, events: seq<Event>, e: Event, all: seq<Event>)
    requires all == events + [e] && (e.Update? ==> e.now > 0.0)
    requires Lives(p, Life(p, events), SendTimes(p, events), Updates(events))
    ensures Lives(p, Life(p, all), SendTimes(p, all), Updates(all))
  {
    var q, times := Life(p, events), SendTimes(p, events);
    LifeMore(p, events, e);
    SendTimesMore(p, events, e);
    UpdatesMore(events, e);
    assert times + [] == times;
    match e
    case Queued(_) =>
    case Update(now) => LivesUpdate(p, q, times, Updates(events), now);
    case Acknowledged(acked) => OneUnacked(q, acked);
  }

  lemma {:induction false} StaysGone(p: Outgoing, events: seq<Event>, more: seq<Event>)
    requires Life(p, events) == []
    ensures Life(p, events + more) == [] && SendTimes(p, events + more) == SendTimes(p, events)
    decreases |more|
  {
    if more == [] {
      assert events + more == events;
    } else {
      var before, e := more[..|more| - 1], more[|more| - 1];
      StaysGone(p, events, before);
      assert (events + more)[..|events + more| - 1] == events + before;
      if !e.Queued? {
        ListMore([p], Quiet(events + before), e);
      }
    }
  }

  // ----- A packet among others

  /** When a packet with the number is sent, in a run of the whole list. */
  function TimesOf(seqNo: nat, events: seq<Event>): seq<real>
    decreases |events|
  {
    if events == [] then []
    else
      var before, e := events[..|events| - 1], events[|events| - 1];
      TimesOf(seqNo, before) + (if e.Update? && Has(ToSend(List([], before), e.now), seqNo) then [e.now] else [])
  }

  predicate Has(q: seq<Outgoing>, seqNo: nat) {
    exists k | 0 <= k < |q| :: q[k].seqNo == seqNo
  }

  /** No packet with the number is queued. */
  predicate Without(events: seq<Event>, seqNo: nat) {
    forall k | 0 <= k < |events| && events[k].Queued? :: events[k].p.seqNo != seqNo
  }

  lemma HasJoins(a: seq<Outgoing>, b: seq<Outgoing>, seqNo: nat)
    ensures Has(a + b, seqNo) <==> Has(a, seqNo) || Has(b, seqNo)
  {
    forall k | 0 <= k < |b| ensures (a + b)[|a| + k] == b[k] {
    }
    forall k | 0 <= k < |a| ensures (a + b)[k] == a[k] {
    }
  }

  lemma {:induction false} UpdateHas(q: seq<Outgoing>, now: real, seqNo: nat)
    ensures Has(Updated(q, now), seqNo) || Has(ToSend(q, now), seqNo) ==> Has(q, seqNo)
    decreases |q|
  {
    if q != [] {
      UpdateHas(q[1..], now, seqNo);
      HasJoins([q[0]], q[1..], seqNo);
      assert q == [q[0]] + q[1..];
      HasJoins(Kept(q[0], now), Updated(q[1..], now), seqNo);
      HasJoins(Sent(q[0], now), ToSend(q[1..], now), seqNo);
    }
  }

  lemma {:induction false} UnackedHas(q: seq<Outgoing>, acked: set<nat>, seqNo: nat)
    ensures Has(Unacked(q, acked), seqNo) <==> seqNo !in acked && Has(q, seqNo)
    decreases |q|
  {
    if q != [] {
      UnackedHas(q[1..], acked, seqNo);
      HasJoins([q[0]], q[1..], seqNo);
      assert q == [q[0]] + q[1..];
      HasJoins(if q[0].seqNo in acked then [] else [q[0]], Unacked(q[1..], acked), seqNo);
    }
  }

  lemma AfterHas(q: seq<Outgoing>, e: Event, seqNo: nat)
    requires e.Queued? ==> e.p.seqNo != seqNo
    ensures Has(After(q, e), seqNo) ==> Has(q, seqNo)
  {
    match e
    case Queued(p) => HasJoins(q, [p], seqNo);
    case Update(now) => UpdateHas(q, now, seqNo);
    case Acknowledged(acked) => UnackedHas(q, acked, seqNo);
  }

  /** A number that is not in the list comes into it by being queued only, and is not sent before. */
  lemma {:induction false} NotSent(events: seq<Event>, more: seq<Event>, seqNo: nat)
    requires Without(more, seqNo) && !Has(List([], events), seqNo)
    ensures !Has(List([], events + more), seqNo) && TimesOf(seqNo, events + more) == TimesOf(seqNo, events)
    decreases |more|
  {
    if more == [] {
      assert events + more == events;
    } else {
      var before, e := more[..|more| - 1], more[|more| - 1];
      NotSent(events, before, seqNo);
      assert (events + more)[..|events + more| - 1] == events + before;
      var q := List([], events + before);
      AfterHas(q, e, seqNo);
      if e.Update? {
        UpdateHas(q, e.now, seqNo);
      }
    }
  }

  /** The packet is queued once with its number, after some events and before others. */
  predicate Once(before: seq<Event>, p: Outgoing, after: seq<Event>) {
    Without(before, p.seqNo) && Without(after, p.seqNo)
  }

  /** Of all that is in the list only what became of the packet has its number. */
  lemma {:induction false} OthersDiffer(q: seq<Outgoing>, events: seq<Event>, seqNo: nat)
    requires !Has(q, seqNo) && Without(events, seqNo)
    ensures !Has(List(q, events), seqNo) && !Has(List(q, Quiet(events)), seqNo)
    decreases |events|
  {
    if events != [] {
      var before, e := events[..|events| - 1], events[|events| - 1];
      OthersDiffer(q, before, seqNo);
      AfterHas(List(q, before), e, seqNo);
      if !e.Queued? {
        ListMore(q, Quiet(before), e);
        AfterHas(List(q, Quiet(before)), e, seqNo);
      }
    }
  }

  /** Whether the number is in the list, and whether it is sent, depends on the packet alone. */
  lemma Among(before: seq<Event>, p: Outgoing, after: seq<Event>, now: real)
    requires Once(before, p, after)
    ensures var q := List([], before + [Queued(p)] + after);
            && (Has(q, p.seqNo) <==> Has(Life(p, after), p.seqNo))
            && (Has(ToSend(q, now), p.seqNo) <==> Has(ToSend(Life(p, after), now), p.seqNo))
  {
    var a := List([], before);
    OthersDiffer([], before, p.seqNo);
    OthersDiffer([], after, p.seqNo);
    OthersDiffer(a, after, p.seqNo);
    ListMore([], before, Queued(p));
    ListFrom([], before + [Queued(p)], after);
    assert a + [p] + [] == a + [p];
    MiddleOfRun(a, p, [], after, now);
    var front, middle, back := List(a, Quiet(after)), Life(p, after), List([], after);
    HasJoins(front + middle, back, p.seqNo);
    HasJoins(front, middle, p.seqNo);
    UpdateHas(front, now, p.seqNo);
    UpdateHas(back, now, p.seqNo);
    HasJoins(ToSend(front, now) + ToSend(middle, now), ToSend(back, now), p.seqNo);
    HasJoins(ToSend(front, now), ToSend(middle, now), p.seqNo);
  }

  lemma {:induction false} ListFrom(q: seq<Outgoing>, events: seq<Event>, more: seq<Event>)
    ensures List(q, events + more) == List(List(q, events), more)
    decreases |more|
  {
    if more == [] {
      assert events + more == events;
    } else {
      assert (events + more)[..|events + more| - 1] == events + more[..|more| - 1];
      ListFrom(q, events, more[..|more| - 1]);
    }
  }

  lemma LifeHas(p: Outgoing, events: seq<Event>, now: real)
    requires New(p) && Clock(events)
    ensures Has(Life(p, events), p.seqNo) <==> Life(p, events) != []
    ensures Has(ToSend(Life(p, events), now), p.seqNo) <==> ToSend(Life(p, events), now) != []
  {
    LivesAlways(p, events);
    var q := Life(p, events);
    One(q, now);
    if q != [] {
      assert q[0].seqNo == p.seqNo;
      assert Sends(q[0], now) ==> ToSend(q, now)[0].seqNo == p.seqNo;
    }
  }

  /** The times at which the whole list sends the number are those of the packet. */
  lemma {:induction false} TimesAmong(before: seq<Event>, p: Outgoing, after: seq<Event>)
    requires New(p) && Once(before, p, after) && Clock(after)
    ensures TimesOf(p.seqNo, before + [Queued(p)] + after) == SendTimes(p, after)
    decreases |after|
  {
    if after == [] {
      NotSentBefore(before, p);
      assert before + [Queued(p)] + after == before + [Queued(p)];
    } else {
      var less, e := after[..|after| - 1], after[|after| - 1];
      TimesAmong(before, p, less);
      OneEventMore(before, p, less, e, after);
    }
  }

  lemma NotSentBefore(before: seq<Event>, p: Outgoing)
    requires Without(before, p.seqNo)
    ensures TimesOf(p.seqNo, before + [Queued(p)]) == []
  {
    TimesMore(p.seqNo, before, Queued(p));
    assert [] + before == before;
    assert !Has(List([], []), p.seqNo);
    NotSent([], before, p.seqNo);
  }

  lemma TimesMore(seqNo: nat, events: seq<Event>, e: Event)
    ensures TimesOf(seqNo, events + [e]) ==
            TimesOf(seqNo, events) + (if e.Update? && Has(ToSend(List([], events), e.now), seqNo) then [e.now] else [])
  {
    assert (events + [e])[..|events + [e]| - 1] == events;
  }

  lemma SendTimesMore(p: Outgoing, events: seq<Event>, e: Event)
    ensures SendTimes(p, events + [e]) ==
            SendTimes(p, events) + (if e.Update? && ToSend(Life(p, events), e.now) != [] then [e.now] else [])
  {
    assert (events + [e])[..|events + [e]| - 1] == events;
  }

  lemma OneEventMore(before: seq<Event>, p: Outgoing, after: seq<Event>, e: Event, more: seq<Event>)
    requires more == after + [e]
    requires New(p) && Once(before, p, after) && Clock(after)
    requires TimesOf(p.seqNo, before + [Queued(p)] + after) == SendTimes(p, after)
    ensures TimesOf(p.seqNo, before + [Queued(p)] + more) == SendTimes(p, more)
  {
    var events := before + [Queued(p)] + after;
    assert before + [Queued(p)] + more == events + [e];
    TimesMore(p.seqNo, events, e);
    SendTimesMore(p, after, e);
    if e.Update? {
      Among(before, p, after, e.now);
      LifeHas(p, after, e.now);
    }
  }

  /**
   * In every run of the list, with any other packets before, beside and after it, a packet is sent at
   * most as often as it has tries, with the retry interval between, and not when its time is over
   * since it was sent first.
   */
  lemma SentWithin(before: seq<Event>, p: Outgoing, after: seq<Event>)
    requires New(p) && Once(before, p, after) && Clock(after)
    ensures var times := TimesOf(p.seqNo, before + [Queued(p)] + after);
            |times| <= p.tries && Apart(times, p.retryInterval) && WithinTimeout(times, p.timeout)
  {
    TimesAmong(before, p, after);
    LivesAlways(p, after);
  }

  /** After one update more than it has tries a packet is gone from the list. */
  lemma GoneAfterTries(before: seq<Event>, p: Outgoing, after: seq<Event>)
    requires New(p) && Once(before, p, after) && Clock(after) && Updates(after) > p.tries
    ensures !Has(List([], before + [Queued(p)] + after), p.seqNo)
  {
    Among(before, p, after, 0.0);
    LivesAlways(p, after);
  }

  /** An update at which the timeout has passed since the first send removes the packet for good. */
  lemma GoneAfterTimeout(before: seq<Event>, p: Outgoing, after: seq<Event>, now: real, more: seq<Event>)
    requires New(p) && Once(before, p, after + [Update(now)] + more) && Clock(after + [Update(now)] + more)
    requires p.timeout > 0.0
    requires var times := TimesOf(p.seqNo, before + [Queued(p)] + after); times != [] && now - times[0] >= p.timeout
    ensures !Has(List([], before + [Queued(p)] + (after + [Update(now)] + more)), p.seqNo)
    ensures TimesOf(p.seqNo, before + [Queued(p)] + (after + [Update(now)] + more))
         == TimesOf(p.seqNo, before + [Queued(p)] + after)
  {
    var all := after + [Update(now)];
    FrontOf(after, Update(now), more, p.seqNo);
    TimesAmong(before, p, after);
    LivesAlways(p, after);
    LifeMore(p, after, Update(now));
    SendTimesMore(p, after, Update(now));
    One(Life(p, after), now);
    assert SendTimes(p, after) + [] == SendTimes(p, after);
    StaysGone(p, all, more);
    TimesAmong(before, p, all + more);
    Among(before, p, all + more, now);
  }

  lemma FrontOf(after: seq<Event>, e: Event, more: seq<Event>, seqNo: nat)
    requires Without(after + [e] + more, seqNo) && Clock(after + [e] + more)
    ensures Without(after, seqNo) && Clock(after)
  {
    var all := after + [e] + more;
    assert forall k | 0 <= k < |after| :: all[k] == after[k];
  }

  /**
   * Once its acknowledgement has been handled, a number is not in the list and never sent again, unless it
   * is queued anew.
   */
  lemma NotAfterAck(events: seq<Event>, acked: set<nat>, more: seq<Event>, seqNo: nat)
    requires seqNo in acked && Without(more, seqNo)
    ensures var all := events + [Acknowledged(acked)];
            && !Has(List([], all + more), seqNo)
            && TimesOf(seqNo, all + more) == TimesOf(seqNo, events)
  {
    var all := events + [Acknowledged(acked)];
    assert all[..|all| - 1] == events;
    UnackedHas(List([], events), acked, seqNo);
    NotSent(all, more, seqNo);
  }

  // ----- All tries

  /** When the list is updated. */
  function UpdateTimes(events: seq<Event>): (r: seq<real>)
    ensures |r| == Updates(events)
    decreases |events|
  {
    if events == [] then []
    else
      var before, e := events[..|events| - 1], events[|events| - 1];
      UpdateTimes(before) + (if e.Update? then [e.now] else [])
  }

  /** Up to the n-th update, or all when there are fewer. */
  function Head(events: seq<Event>, n: nat): (r: seq<Event>)
    ensures r <= events && Updates(r) <= n
    decreases |events|
  {
    if Updates(events) <= n && (events == [] || Updates(events[..|events| - 1]) < n) then events
    else if events == [] then []
    else Head(events[..|events| - 1], n)
  }

  predicate Acks(events: seq<Event>, seqNo: nat) {
    exists k :: 0 <= k < |events| && events[k].Acknowledged? && seqNo in events[k].acked
  }

  /** The time of the update before the k-th, or when the packet was sent before. */
  function TimeBefore(p: Outgoing, times: seq<real>, k: nat): real
    requires k < |times|
  {
    if k == 0 then p.lastSentTime else times[k - 1]
  }

  /** Each update comes a retry interval after the one before, the first after the start, and none too late. */
  predicate InStep(p: Outgoing, times: seq<real>) {
    && (forall k | 0 <= k < |times| :: times[k] - TimeBefore(p, times, k) >= p.retryInterval)
    && (p.timeout > 0.0 ==> forall k | 1 <= k < |times| :: times[k] - times[0] < p.timeout)
  }

  lemma UpdatesMore(events: seq<Event>, e: Event)
    ensures Updates(events + [e]) == Updates(events) + (if e.Update? then 1 else 0)
    ensures UpdateTimes(events + [e]) == UpdateTimes(events) + (if e.Update? then [e.now] else [])
  {
    assert (events + [e])[..|events + [e]| - 1] == events;
  }

  lemma AcksMore(events: seq<Event>, e: Event, seqNo: nat)
    ensures Acks(events + [e], seqNo) <==> Acks(events, seqNo) || (e.Acknowledged? && seqNo in e.acked)
  {
    var all := events + [e];
    if Acks(events, seqNo) {
      var k :| 0 <= k < |events| && events[k].Acknowledged? && seqNo in events[k].acked;
      assert all[k] == events[k];
    }
    if e.Acknowledged? && seqNo in e.acked {
      assert all[|events|] == e;
    }
  }

  /** Every update so far has sent the packet, and it still waits unless it was acknowledged. */
  predicate SentEachTime(p: Outgoing, events: seq<Event>) {
    SendTimes(p, events) == UpdateTimes(events)
  }

  /** Updates never lag behind sends, and a missed one is never made up for. */
  lemma MissedStays(p: Outgoing, events: seq<Event>, e: Event)
    requires New(p) && Clock(events) && SentEachTime(p, events + [e])
    ensures SentEachTime(p, events)
  {
    LivesAlways(p, events);
    UpdatesMore(events, e);
    SendTimesMore(p, events, e);
    var s, u := SendTimes(p, events), UpdateTimes(events);
    if e.Update? && ToSend(Life(p, events), e.now) != [] {
      assert (s + [e.now])[..|s|] == (u + [e.now])[..|u|];
    } else if !e.Update? {
      assert s + [] == s && u + [] == u;
    }
  }

  lemma InStepBefore(p: Outgoing, before: seq<real>, times: seq<real>)
    requires before <= times && InStep(p, times)
    ensures InStep(p, before)
  {
    forall k | 0 <= k < |before|
      ensures before[k] == times[k] && TimeBefore(p, before, k) == TimeBefore(p, times, k)
    {
    }
  }

  /** A waiting packet with a try left that is not acknowledged and has not timed out goes on waiting. */
  lemma LifeGoesOn(p: Outgoing, events: seq<Event>, e: Event)
    requires New(p) && Clock(events) && Life(p, events) != [] && SentEachTime(p, events)
    requires Lives(p, Life(p, events), SendTimes(p, events), Updates(events))
    requires !(e.Acknowledged? && p.seqNo in e.acked)
    requires e.Update? ==> Updates(events) < p.tries && InStep(p, UpdateTimes(events) + [e.now])
    ensures Life(p, events + [e]) != []
    ensures e.Update? ==> ToSend(Life(p, events), e.now) != []
  {
    LifeMore(p, events, e);
    var q := Life(p, events);
    match e
    case Queued(_) =>
    case Acknowledged(acked) => OneUnacked(q, acked);
    case Update(now) =>
      One(q, now);
      SendsNext(p, q[0], SendTimes(p, events), now);
  }

  /** In step, a packet with a try left is sent. */
  lemma SendsNext(p: Outgoing, q: Outgoing, times: seq<real>, now: real)
    requires New(p) && Stands(p, q, times, |times|) && |times| < p.tries && InStep(p, times + [now])
    ensures Sends(q, now)
  {
    var all := times + [now];
    assert all[|times|] - TimeBefore(p, all, |times|) >= p.retryInterval;
    assert times != [] ==> all[|times| - 1] == times[|times| - 1] && all[0] == times[0];
  }

  /** Out of step, it is not. */
  lemma {:induction false} SentInStep(p: Outgoing, events: seq<Event>)
    requires New(p) && Clock(events) && SentEachTime(p, events)
    ensures Updates(events) <= p.tries && InStep(p, UpdateTimes(events))
    ensures events != [] && events[|events| - 1].Update? ==> !Acks(events, p.seqNo)
    decreases |events|
  {
    LivesAlways(p, events);
    if events != [] {
      var before, e := events[..|events| - 1], events[|events| - 1];
      assert events == before + [e];
      MissedStays(p, before, e);
      SentInStep(p, before);
      UpdatesMore(before, e);
      SendTimesMore(p, before, e);
      LivesAlways(p, before);
      AcksMore(before, e, p.seqNo);
      if e.Update? {
        assert |SendTimes(p, events)| == |SendTimes(p, before)| + 1;
        One(Life(p, before), e.now);
        NextInStep(p, Life(p, before)[0], SendTimes(p, before), e.now);
        NotAcked(p, before);
      } else {
        assert UpdateTimes(before) + [] == UpdateTimes(before);
      }
    }
  }

  lemma NextInStep(p: Outgoing, q: Outgoing, times: seq<real>, now: real)
    requires New(p) && Stands(p, q, times, |times|) && Sends(q, now) && InStep(p, times)
    ensures InStep(p, times + [now])
  {
    var all := times + [now];
    forall k | 0 <= k < |all|
      ensures all[k] - TimeBefore(p, all, k) >= p.retryInterval
    {
      if k < |times| {
        assert times[k] - TimeBefore(p, times, k) >= p.retryInterval;
      }
    }
  }

  /** A packet that still waits has not been acknowledged. */
  lemma {:induction false} NotAcked(p: Outgoing, events: seq<Event>)
    requires New(p) && Clock(events) && Life(p, events) != []
    ensures !Acks(events, p.seqNo)
    decreases |events|
  {
    if events != [] {
      var before, e := events[..|events| - 1], events[|events| - 1];
      assert events == before + [e];
      LivesAlways(p, before);
      AcksMore(before, e, p.seqNo);
      LifeMore(p, before, e);
      if e.Acknowledged? {
        OneUnacked(Life(p, before), e.acked);
      }
      if e.Update? {
        One(Life(p, before), e.now);
      }
      NotAcked(p, before);
    }
  }

  /** A run that ends with its n-th update sends the packet n times just when it is in step and not acknowledged. */
  lemma {:induction false} EachTimeIff(p: Outgoing, events: seq<Event>)
    requires New(p) && Clock(events) && Updates(events) <= p.tries
    requires events == [] || events[|events| - 1].Update?
    ensures SentEachTime(p, events) <==> InStep(p, UpdateTimes(events)) && !Acks(events, p.seqNo)
  {
    if SentEachTime(p, events) {
      SentInStep(p, events);
    }
    if InStep(p, UpdateTimes(events)) && !Acks(events, p.seqNo) {
      InStepSent(p, events);
    }
  }

  lemma {:induction false} InStepSent(p: Outgoing, events: seq<Event>)
    requires New(p) && Clock(events) && Updates(events) <= p.tries
    requires InStep(p, UpdateTimes(events)) && !Acks(events, p.seqNo)
    ensures SentEachTime(p, events) && Life(p, events) != []
    decreases |events|
  {
    if events == [] {
      assert Life(p, []) == [p];
    } else {
      var before, e := events[..|events| - 1], events[|events| - 1];
      assert events == before + [e];
      UpdatesMore(before, e);
      SendTimesMore(p, before, e);
      AcksMore(before, e, p.seqNo);
      InStepBefore(p, UpdateTimes(before), UpdateTimes(events));
      InStepSent(p, before);
      LivesAlways(p, before);
      LifeGoesOn(p, before, e);
    }
  }

  /** After the tries are used up nothing is sent any more. */
  lemma NoMoreSends(p: Outgoing, events: seq<Event>, e: Event, all: seq<Event>)
    requires New(p) && Clock(events) && Updates(events) >= p.tries && all == events + [e]
    ensures SendTimes(p, all) == SendTimes(p, events)
  {
    LivesAlways(p, events);
    SendTimesMore(p, events, e);
    if e.Update? {
      One(Life(p, events), e.now);
    }
    assert SendTimes(p, events) + [] == SendTimes(p, events);
  }

  lemma {:induction false} HeadSends(p: Outgoing, events: seq<Event>)
    requires New(p) && Clock(events)
    ensures var head := Head(events, p.tries);
            |SendTimes(p, events)| == p.tries <==> Updates(head) == p.tries && SentEachTime(p, head)
    decreases |events|
  {
    if Head(events, p.tries) == events {
      LivesAlways(p, events);
      SameCount(p, events);
    } else {
      var before, e := events[..|events| - 1], events[|events| - 1];
      HeadShorter(events, p.tries);
      HeadSends(p, before);
      NoMoreSends(p, before, e, events);
    }
  }

  lemma HeadShorter(events: seq<Event>, n: nat)
    requires Head(events, n) != events
    ensures events != [] && Head(events, n) == Head(events[..|events| - 1], n) && Updates(events[..|events| - 1]) >= n
  {
  }

  lemma {:induction false} SameCount(p: Outgoing, events: seq<Event>)
    requires New(p) && Clock(events)
    ensures |SendTimes(p, events)| == Updates(events) <==> SentEachTime(p, events)
    decreases |events|
  {
    if events != [] {
      var before, e := events[..|events| - 1], events[|events| - 1];
      assert events == before + [e];
      SameCount(p, before);
      LivesAlways(p, before);
      UpdatesMore(before, e);
      SendTimesMore(p, before, e);
      if SentEachTime(p, events) {
        MissedStays(p, before, e);
      }
    }
  }

  lemma {:induction false} HeadEnds(events: seq<Event>, n: nat)
    requires Updates(Head(events, n)) == n
    ensures Head(events, n) == [] || Head(events, n)[|Head(events, n)| - 1].Update?
    decreases |events|
  {
    if events != [] && Head(events, n) != events {
      HeadEnds(events[..|events| - 1], n);
    }
  }

  /**
   * Whatever else is in the list, a packet is sent as often as it has tries if and only if there are that
   * many updates, each of the first of them a retry interval after the one before, none after the timeout,
   * and no acknowledgement before the last of them. An update that comes sooner uses up a try.
   */
  lemma AllTriesIff(before: seq<Event>, p: Outgoing, after: seq<Event>)
    requires New(p) && Once(before, p, after) && Clock(after)
    ensures var head := Head(after, p.tries);
            |TimesOf(p.seqNo, before + [Queued(p)] + after)| == p.tries <==>
            Updates(head) == p.tries && InStep(p, UpdateTimes(head)) && !Acks(head, p.seqNo)
  {
    var head := Head(after, p.tries);
    TimesAmong(before, p, after);
    HeadSends(p, after);
    if Updates(head) == p.tries {
      HeadEnds(after, p.tries);
      EachTimeIff(p, head);
    }
  }

  /**
   * Queueing a packet comes with an update at once, and so another one, which has two tries, is sent only
   * once.
   */
  lemma TriesUsedUp()
    ensures var p, q := NewOutgoing(1, 1.0, 0.0, 2), NewOutgoing(2, 1.0, 0.0, 2);
            var events := [Queued(p), Update(5.0), Queued(q), Update(5.1), Update(5.2)];
            TimesOf(1, events) == [5.0] && !Has(List([], events), 1)
  {
    var p, q := NewOutgoing(1, 1.0, 0.0, 2), NewOutgoing(2, 1.0, 0.0, 2);
    var after := [Update(5.0), Queued(q), Update(5.1), Update(5.2)];
    OneSend(p, q);
    TimesAmong([], p, after);
    GoneAfterTries([], p, after);
    assert [] + [Queued(p)] + after == [Queued(p), Update(5.0), Queued(q), Update(5.1), Update(5.2)];
  }

  /** The packet waits, with so many sends and updates behind it. */
  predicate Waits(p: Outgoing, events: seq<Event>, q: Outgoing, times: seq<real>, updates: nat) {
    Life(p, events) == [q] && SendTimes(p, events) == times && Updates(events) == updates
  }

  lemma FirstSend(p: Outgoing, q: Outgoing, sent: Outgoing)
    requires p == NewOutgoing(1, 1.0, 0.0, 2) && sent == p.(tries := 1, firstSentTime := 5.0, lastSentTime := 5.0)
    ensures Waits(p, [Update(5.0), Queued(q)], sent, [5.0], 1)
  {
    SentAtOnce(p, sent);
    OneMore(p, [Update(5.0)], Queued(q), sent, [Update(5.0), Queued(q)]);
  }

  lemma SentAtOnce(p: Outgoing, sent: Outgoing)
    requires p == NewOutgoing(1, 1.0, 0.0, 2) && sent == p.(tries := 1, firstSentTime := 5.0, lastSentTime := 5.0)
    ensures Waits(p, [Update(5.0)], sent, [5.0], 1)
  {
    assert Life(p, []) == [p] && SendTimes(p, []) == [];
    OneMore(p, [], Update(5.0), p, [Update(5.0)]);
  }

  lemma TryWasted(p: Outgoing, events: seq<Event>, sent: Outgoing, all: seq<Event>)
    requires sent == Outgoing(1, 1.0, 0.0, 1, 5.0, 5.0) && Waits(p, events, sent, [5.0], 1)
    requires all == events + [Update(5.1)]
    ensures Waits(p, all, sent.(tries := 0), [5.0], 2)
  {
    OneMore(p, events, Update(5.1), sent, all);
  }

  lemma OneSend(p: Outgoing, q: Outgoing)
    requires p == NewOutgoing(1, 1.0, 0.0, 2)
    ensures var after := [Update(5.0), Queued(q), Update(5.1), Update(5.2)];
            SendTimes(p, after) == [5.0] && Updates(after) == 3
  {
    var sent := Outgoing(1, 1.0, 0.0, 1, 5.0, 5.0);
    var two := [Update(5.0), Queued(q)];
    var three := [Update(5.0), Queued(q), Update(5.1)];
    FirstSend(p, q, sent);
    TryWasted(p, two, sent, three);
    OneMore(p, three, Update(5.2), sent.(tries := 0), [Update(5.0), Queued(q), Update(5.1), Update(5.2)]);
  }

  /** What an event makes of a packet that waits. */
  lemma OneMore(p: Outgoing, events: seq<Event>, e: Event, q: Outgoing, all: seq<Event>)
    requires all == events + [e] && Life(p, events) == [q] && !e.Acknowledged?
    ensures Life(p, all) == if e.Update? then Kept(q, e.now) else [q]
    ensures SendTimes(p, all) == SendTimes(p, events) + (if e.Update? && Sends(q, e.now) then [e.now] else [])
    ensures Updates(all) == Updates(events) + (if e.Update? then 1 else 0)
  {
    LifeMore(p, events, e);
    SendTimesMore(p, events, e);
    UpdatesMore(events, e);
    if e.Update? {
      One([q], e.now);
    }
  }
}

/**
 * Timed messages: a queue ordered by delivery time, batches of what is due, and every run of posting,
 * cancelling and delivering. Times are exact numbers.
 */
module Messages {

  datatype Message = Message(id: nat, deliverAt: real, interval: real)

  /** Ordered by time of delivery. */
  predicate Sorted(q: seq<Message>) {
    forall i, j | 0 <= i < j < |q| :: q[i].deliverAt <= q[j].deliverAt
  }

  /** The message goes behind all that are due no later. */
  function Insert(q: seq<Message>, m: Message): (r: seq<Message>)
    ensures |r| == |q| + 1
  {
    if q == [] || q[0].deliverAt > m.deliverAt then [m] + q else [q[0]] + Insert(q[1..], m)
  }

  function Without(q: seq<Message>, id: nat): (r: seq<Message>)
    ensures forall m | m in r :: m in q && m.id != id
  {
    if q == [] then [] else if q[0].id == id then Without(q[1..], id) else [q[0]] + Without(q[1..], id)
  }

  predicate Due(m: Message, now: real) {
    m.deliverAt == 0.0 || now >= m.deliverAt
  }

  function DueOf(q: seq<Message>, now: real): seq<Message> {
    if q == [] then [] else if Due(q[0], now) then [q[0]] + DueOf(q[1..], now) else DueOf(q[1..], now)
  }

  function LaterOf(q: seq<Message>, now: real): seq<Message> {
    if q == [] then [] else if Due(q[0], now) then LaterOf(q[1..], now) else [q[0]] + LaterOf(q[1..], now)
  }

  /** Where a message goes: behind those due no later, before those due later. */
  function InsertAt(q: seq<Message>, m: Message): (k: nat)
    ensures k <= |q|
  {
    if q == [] || q[0].deliverAt > m.deliverAt then 0 else 1 + InsertAt(q[1..], m)
  }

  /** Inserting keeps the order, and messages with the same time stay in the order in which they came. */
  lemma {:induction false} InsertStable(q: seq<Message>, m: Message)
    requires Sorted(q)
    ensures var k := InsertAt(q, m);
            && Insert(q, m) == q[..k] + [m] + q[k..]
            && (forall i | 0 <= i < k :: q[i].deliverAt <= m.deliverAt)
            && (forall i | k <= i < |q| :: m.deliverAt < q[i].deliverAt)
    decreases |q|
  {
    if q != [] && q[0].deliverAt <= m.deliverAt {
      var k := InsertAt(q[1..], m);
      InsertStable(q[1..], m);
      assert q == [q[0]] + q[1..];
      assert [q[0]] + (q[1..][..k] + [m] + q[1..][k..]) == q[..k + 1] + [m] + q[k + 1..];
    }
  }

  lemma InsertSorted(q: seq<Message>, m: Message)
    requires Sorted(q)
    ensures Sorted(Insert(q, m))
  {
    InsertStable(q, m);
  }

  lemma {:induction false} WithoutSorted(q: seq<Message>, id: nat)
    requires Sorted(q)
    ensures Sorted(Without(q, id))
    decreases |q|
  {
    if q != [] {
      WithoutSorted(q[1..], id);
    }
  }

  predicate Timed(q: seq<Message>) {
    forall k | 0 <= k < |q| :: q[k].deliverAt >= 0.0
  }

  /** What is due is at the front of the queue. */
  lemma {:induction false} BatchIsPrefix(q: seq<Message>, now: real)
    requires Sorted(q) && Timed(q) && now >= 0.0
    ensures q == DueOf(q, now) + LaterOf(q, now)
    ensures forall k | 0 <= k < |DueOf(q, now)| :: Due(DueOf(q, now)[k], now)
    ensures forall k | 0 <= k < |LaterOf(q, now)| :: !Due(LaterOf(q, now)[k], now)
    decreases |q|
  {
    if q != [] {
      BatchIsPrefix(q[1..], now);
      if Due(q[0], now) {
        assert q == [q[0]] + q[1..];
      } else {
        NothingDue(q[1..], now);
      }
    }
  }

  lemma {:induction false} NothingDue(q: seq<Message>, now: real)
    requires forall k | 0 <= k < |q| :: !Due(q[k], now)
    ensures DueOf(q, now) == [] && LaterOf(q, now) == q
    decreases |q|
  {
    if q != [] {
      NothingDue(q[1..], now);
    }
  }
}

/**
 * Admission control for uploads: a shared counter of POST requests in
 * progress, checked and incremented on admission and decremented when the
 * request is over. The server front end (server.py) and the alternative
 * request handler (request_handler.py) both guard it with the same limit.
 *
 * The counter is a process-shared integer behind a lock; the model is the
 * sequential object that the lock makes of it, plus a trace model in which
 * the critical sections of many connections interleave.
 */
module Admission {

  /** Most POST requests admitted at once. */
  const PostLimit: nat := 5

  /** The counter and the verdict after one test-and-increment. */
  function Acquire(active: int): (int, bool)
  {
    if active >= PostLimit then (active, false) else (active + 1, true)
  }

  /** `active_posts`: one counter shared by every connection of a server. */
  class PostCounter {
    var active: int

    ghost predicate Valid()
      reads this
    {
      0 <= active <= PostLimit
    }

    constructor ()
      ensures Valid() && active == 0
    {
      active := 0;
    }

    /** Test-and-increment under the lock: a request is admitted exactly when
        fewer than `PostLimit` are in progress, and only then is the counter
        raised, by one. */
    method TryAcquire() returns (admitted: bool)
      modifies this
      ensures (active, admitted) == Acquire(old(active))
      ensures admitted <==> old(active) < PostLimit
      ensures active == if admitted then old(active) + 1 else old(active)
      ensures old(Valid()) ==> Valid()
    {
      if active >= PostLimit {
        admitted := false;
      } else {
        active := active + 1;
        admitted := true;
      }
    }

    /** The decrement in the `finally` of an admitted request. */
    method Release()
      requires Valid() && active > 0
      modifies this
      ensures Valid()
      ensures active == old(active) - 1
    {
      active := active - 1;
    }
  }

  /** What the counter sees of one connection: its admission attempt, and its
      end, after which an admitted request gives its slot back. */
  datatype GateEvent = Arrive(id: nat) | Finish(id: nat)

  /** The counter together with the requests holding a slot (each carries a
      `post_request` flag set on admission) and the number turned away. */
  datatype Gate = Gate(active: int, holders: multiset<nat>, rejected: nat)

  const Idle: Gate := Gate(0, multiset{}, 0)

  /** One critical section. A request that was never admitted has its flag
      clear and leaves the counter alone when it finishes. */
  function GateStep(g: Gate, e: GateEvent): Gate
  {
    match e
    case Arrive(id) =>
      if g.active >= PostLimit then g.(rejected := g.rejected + 1)
      else g.(active := g.active + 1, holders := g.holders + multiset{id})
    case Finish(id) =>
      if id in g.holders then g.(active := g.active - 1, holders := g.holders - multiset{id})
      else g
  }

  /** The state after the critical sections in `events`, in the order the lock
      serialised them. */
  function Replay(events: seq<GateEvent>): Gate
  {
    if events == [] then Idle else GateStep(Replay(events[..|events| - 1]), events[|events| - 1])
  }

  /** Whatever the interleaving, the counter equals the number of requests
      holding a slot and never exceeds the limit. */
  lemma {:induction false} ReplayKeepsBound(events: seq<GateEvent>)
    ensures Replay(events).active == |Replay(events).holders|
    ensures 0 <= Replay(events).active <= PostLimit
  {
    if events != [] {
      ReplayKeepsBound(events[..|events| - 1]);
    }
  }

  /** The trace model's critical sections do to the counter what the
      counter's methods do: an arrival is `TryAcquire`, and it takes a slot
      exactly when `TryAcquire` admits; the finish of a holder is `Release`,
      and the finish of any other request leaves the counter alone. */
  lemma StepsAreCounterMethods(g: Gate, id: nat)
    ensures GateStep(g, Arrive(id)).active == Acquire(g.active).0
    ensures GateStep(g, Arrive(id)).holders == if Acquire(g.active).1 then g.holders + multiset{id} else g.holders
    ensures GateStep(g, Finish(id)).active == if id in g.holders then g.active - 1 else g.active
  {
  }

  /** A request that arrives while a slot is free and then finishes leaves the
      counter and the holders as they were. */
  lemma AdmitThenFinish(g: Gate, id: nat)
    requires g.active < PostLimit
    ensures GateStep(GateStep(g, Arrive(id)), Finish(id)).active == g.active
    ensures GateStep(GateStep(g, Arrive(id)), Finish(id)).holders == g.holders
  {
    assert (g.holders + multiset{id}) - multiset{id} == g.holders;
  }

  /** `n` connections arriving one after another, none finishing yet. */
  function Burst(n: nat): seq<GateEvent>
  {
    if n == 0 then [] else Burst(n - 1) + [Arrive(n - 1)]
  }

  /** A burst of arrivals with nothing finishing admits the first `PostLimit`
      and turns the rest away. */
  lemma {:induction false} BurstAdmitsLimit(n: nat)
    ensures Replay(Burst(n)).active == if n <= PostLimit then n else PostLimit
    ensures Replay(Burst(n)).rejected == if n <= PostLimit then 0 else n - PostLimit
  {
    if n > 0 {
      var before := Burst(n - 1);
      assert Burst(n)[..|before|] == before;
      BurstAdmitsLimit(n - 1);
    }
  }
}

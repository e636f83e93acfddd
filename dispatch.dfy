/**
 * Round-robin choice of the worker process that serves the next request
 * (`HTTPServer.get_next_worker`).
 */
module Dispatch {
  import opened Wrappers

  /** `(x + 1) % n` for an index `x` below `n`, written as the wrap it is. */
  function Advance(x: nat, n: nat): (r: nat)
    requires x < n
    ensures r < n
    ensures r == (x + 1) % n
  {
    if x + 1 == n then
      assert (x + 1) % n == 0;
      0
    else
      assert (x + 1) % n == x + 1;
      x + 1
  }

  /** The index after `k` requests, starting from `x`. */
  function At(x: nat, n: nat, k: nat): (r: nat)
    requires x < n
    ensures r < n
  {
    if k == 0 then x else Advance(At(x, n, k - 1), n)
  }

  /** The workers the first `k` requests go to, starting from `x`. */
  function Round(x: nat, n: nat, k: nat): (r: seq<nat>)
    requires x < n
    ensures |r| == k
  {
    if k == 0 then [] else Round(x, n, k - 1) + [At(x, n, k - 1)]
  }

  /** Within one lap the index is `x + k`, wrapped once past the end. */
  lemma {:induction false} AtWithinLap(x: nat, n: nat, k: nat)
    requires x < n && k < n
    ensures At(x, n, k) == if x + k < n then x + k else x + k - n
  {
    if k > 0 {
      AtWithinLap(x, n, k - 1);
    }
  }

  /** Element `i` of a round is the index after `i` requests. */
  lemma {:induction false} RoundAt(x: nat, n: nat, k: nat, i: nat)
    requires x < n && i < k
    ensures Round(x, n, k)[i] == At(x, n, i)
  {
    if i < k - 1 {
      RoundAt(x, n, k - 1, i);
    }
  }

  /** Requests `a` to `a + b` continue from where the first `a` left off. */
  lemma {:induction false} RoundSplit(x: nat, n: nat, a: nat, b: nat)
    requires x < n
    ensures At(x, n, a + b) == At(At(x, n, a), n, b)
    ensures Round(x, n, a + b)[a..] == Round(At(x, n, a), n, b)
  {
    if b > 0 {
      RoundSplit(x, n, a, b - 1);
      var whole := Round(x, n, a + b - 1);
      assert Round(x, n, a + b)[a..] == whole[a..] + [At(x, n, a + b - 1)];
    }
  }

  /** Any `n` consecutive picks visit every worker exactly once: every worker
      appears, and no two of the picks coincide. */
  lemma LapCoversEachOnce(x: nat, n: nat)
    requires x < n
    ensures forall w :: 0 <= w < n ==> w in Round(x, n, n)
    ensures forall i, j :: 0 <= i < j < n ==> Round(x, n, n)[i] != Round(x, n, n)[j]
  {
    var lap := Round(x, n, n);
    forall w | 0 <= w < n
      ensures w in lap
    {
      var i := if x <= w then w - x else w + n - x;
      AtWithinLap(x, n, i);
      RoundAt(x, n, n, i);
      assert lap[i] == w;
    }
    forall i, j | 0 <= i < j < n
      ensures lap[i] != lap[j]
    {
      AtWithinLap(x, n, i);
      AtWithinLap(x, n, j);
      RoundAt(x, n, n, i);
      RoundAt(x, n, n, j);
    }
  }

  /** `current_worker` and the worker count it wraps at. */
  class RoundRobin {
    var current: int
    const workers: nat
    /** The workers handed out so far, oldest first. */
    ghost var issued: seq<nat>

    ghost predicate Valid()
      reads this
    {
      && (workers > 0 ==> 0 <= current < workers && issued == Round(0, workers, |issued|) && current == At(0, workers, |issued|))
      && (workers == 0 ==> current == 0 && issued == [])
    }

    constructor (n: nat)
      ensures Valid() && workers == n && current == 0 && issued == []
    {
      workers := n;
      current := 0;
      issued := [];
    }

    /** Hand out the current index and advance it modulo the worker count.
        With no workers the modulo raises `ZeroDivisionError` before the
        index moves: no worker, and nothing changes. */
    method NextWorker() returns (w: Option<nat>)
      requires Valid()
      modifies this`current, this`issued
      ensures Valid()
      ensures workers == 0 ==> w == None && current == old(current) && issued == old(issued)
      ensures workers > 0 ==> w == Some(old(current)) && w.value < workers
      ensures workers > 0 ==> current == (old(current) + 1) % workers && issued == old(issued) + [w.value]
    {
      if workers == 0 {
        w := None;
      } else {
        w := Some(current);
        issued := issued + [current];
        current := Advance(current, workers);
      }
    }
  }

  /** Whatever has been handed out before, the next `n` requests of a
      dispatcher over `n` workers go to every worker exactly once. */
  lemma WindowIsLap(issued: seq<nat>, n: nat, m: nat, window: seq<nat>)
    requires n > 0 && issued == Round(0, n, |issued|) && m + n <= |issued|
    requires window == issued[m..m + n]
    ensures forall w :: 0 <= w < n ==> w in window
    ensures forall i, j :: 0 <= i < j < n ==> window[i] != window[j]
  {
    RoundSplit(0, n, m, n);
    RoundPrefix(0, n, |issued|, m + n);
    assert window == issued[..m + n][m..];
    LapCoversEachOnce(At(0, n, m), n);
  }

  /** A round of `k` requests begins with the round of its first `j`. */
  lemma {:induction false} RoundPrefix(x: nat, n: nat, k: nat, j: nat)
    requires x < n && j <= k
    ensures Round(x, n, k)[..j] == Round(x, n, j)
  {
    if j < k {
      RoundPrefix(x, n, k - 1, j);
      assert Round(x, n, k)[..k - 1] == Round(x, n, k - 1);
    }
  }
}

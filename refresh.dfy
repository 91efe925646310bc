/**
 * The refresh scheduler's view of the SPI device queue. A queued transfer is
 * a descriptor that points at one digit record, digits[bank][slot]; the bus
 * sends whatever frame that record holds when it gets to it. Once refresh is
 * running, every completion re-queues its own position from the bank that is
 * active at that moment, so the queue always holds exactly one transfer per
 * digit position.
 */
module Refresh {
  import opened Frames

  /** Depth of the SPI device queue (`queue_size` in the device configuration). */
  const QueueDepth: nat := 12

  /** A queued descriptor: the transfer of record `slot` of bank `bank`. */
  datatype Transfer = Transfer(bank: nat, slot: nat)

  /** Number of queued transfers for position `p`. */
  function Count(q: seq<Transfer>, p: nat): nat {
    if q == [] then 0 else (if q[0].slot == p then 1 else 0) + Count(q[1..], p)
  }

  /** Number of queued transfers for positions below `n`. */
  function Below(q: seq<Transfer>, n: nat): nat {
    if q == [] then 0 else (if q[0].slot < n then 1 else 0) + Below(q[1..], n)
  }

  /** Number of queued transfers that do not read bank `b`. */
  function Stale(q: seq<Transfer>, b: nat): nat {
    if q == [] then 0 else (if q[0].bank != b then 1 else 0) + Stale(q[1..], b)
  }

  /** Every queued transfer names a real position, and each position has exactly one. */
  ghost predicate OnePerPosition(q: seq<Transfer>) {
    && (forall k :: 0 <= k < |q| ==> q[k].slot < Positions)
    && (forall p :: 0 <= p < Positions ==> Count(q, p) == 1)
  }

  /** The transfers of positions 0..n-1 of bank `b`, in position order. */
  function Sweep(b: nat, n: nat): (r: seq<Transfer>)
    ensures |r| == n
    ensures forall k :: 0 <= k < n ==> r[k] == Transfer(b, k)
  {
    if n == 0 then [] else Sweep(b, n - 1) + [Transfer(b, n - 1)]
  }

  /** The queue without its entry `i` (the transfer that just completed). */
  function Without(q: seq<Transfer>, i: nat): seq<Transfer>
    requires i < |q|
  {
    q[..i] + q[i + 1..]
  }

  /** Entry `i` completed and its position was re-queued from bank `b`. */
  function Requeue(q: seq<Transfer>, i: nat, b: nat): (r: seq<Transfer>)
    requires i < |q|
    ensures |r| == |q| && r[|q| - 1] == Transfer(b, q[i].slot)
    ensures forall k :: 0 <= k < i ==> r[k] == q[k]
    ensures forall k :: i <= k < |q| - 1 ==> r[k] == q[k + 1]
  {
    Without(q, i) + [Transfer(b, q[i].slot)]
  }

  /** The same transfers, all pointed at bank `b`. */
  function Retarget(q: seq<Transfer>, b: nat): (r: seq<Transfer>)
    ensures |r| == |q|
    ensures forall k :: 0 <= k < |q| ==> r[k] == Transfer(b, q[k].slot)
  {
    if q == [] then [] else [Transfer(b, q[0].slot)] + Retarget(q[1..], b)
  }

  /** `n` completions at the head of the queue (the bus sends in queue order), re-queued from bank `b`. */
  function Rotate(q: seq<Transfer>, b: nat, n: nat): seq<Transfer>
    requires n <= |q|
  {
    if n == 0 then q else Requeue(Rotate(q, b, n - 1), 0, b)
  }

  lemma {:induction false} CountAppend(q: seq<Transfer>, r: seq<Transfer>, p: nat)
    ensures Count(q + r, p) == Count(q, p) + Count(r, p)
  {
    if q != [] {
      assert (q + r)[1..] == q[1..] + r;
      CountAppend(q[1..], r, p);
    } else {
      assert q + r == r;
    }
  }

  lemma {:induction false} StaleAppend(q: seq<Transfer>, r: seq<Transfer>, b: nat)
    ensures Stale(q + r, b) == Stale(q, b) + Stale(r, b)
  {
    if q != [] {
      assert (q + r)[1..] == q[1..] + r;
      StaleAppend(q[1..], r, b);
    } else {
      assert q + r == r;
    }
  }

  lemma {:induction false} CountWithout(q: seq<Transfer>, i: nat, p: nat)
    requires i < |q|
    ensures Count(Without(q, i), p) == Count(q, p) - (if q[i].slot == p then 1 else 0)
  {
    assert q == q[..i] + [q[i]] + q[i + 1..];
    CountAppend(q[..i] + [q[i]], q[i + 1..], p);
    CountAppend(q[..i], [q[i]], p);
    CountAppend(q[..i], q[i + 1..], p);
  }

  lemma {:induction false} StaleWithout(q: seq<Transfer>, i: nat, b: nat)
    requires i < |q|
    ensures Stale(Without(q, i), b) == Stale(q, b) - (if q[i].bank != b then 1 else 0)
  {
    assert q == q[..i] + [q[i]] + q[i + 1..];
    StaleAppend(q[..i] + [q[i]], q[i + 1..], b);
    StaleAppend(q[..i], [q[i]], b);
    StaleAppend(q[..i], q[i + 1..], b);
  }

  /** The kick-off sweep of bank `b` queues positions 0..n-1, each once. */
  lemma {:induction false} SweepCounts(b: nat, n: nat, p: nat)
    ensures |Sweep(b, n)| == n
    ensures Count(Sweep(b, n), p) == if p < n then 1 else 0
  {
    if n > 0 {
      SweepCounts(b, n - 1, p);
      CountAppend(Sweep(b, n - 1), [Transfer(b, n - 1)], p);
    }
  }

  /** Right after `display()` starts refresh, there is one transfer per position, all of bank `b`. */
  lemma KickOffOnePerPosition(b: nat)
    ensures |Sweep(b, Positions)| == Positions
    ensures forall k :: 0 <= k < Positions ==> Sweep(b, Positions)[k] == Transfer(b, k)
    ensures OnePerPosition(Sweep(b, Positions))
    ensures Stale(Sweep(b, Positions), b) == 0
  {
    forall p | 0 <= p < Positions
      ensures Count(Sweep(b, Positions), p) == 1
    {
      SweepCounts(b, Positions, p);
    }
    SweepFresh(b, Positions);
  }

  lemma {:induction false} SweepFresh(b: nat, n: nat)
    ensures Stale(Sweep(b, n), b) == 0
  {
    if n > 0 {
      SweepFresh(b, n - 1);
      StaleAppend(Sweep(b, n - 1), [Transfer(b, n - 1)], b);
    }
  }

  /**
   * A completion keeps one transfer per position: the completed entry was the
   * only one of its position, so the re-queued transfer is for a position that
   * has nothing else outstanding.
   */
  lemma RequeuePreserves(q: seq<Transfer>, i: nat, b: nat)
    requires OnePerPosition(q) && i < |q|
    ensures Count(Without(q, i), q[i].slot) == 0
    ensures OnePerPosition(Requeue(q, i, b))
  {
    var r := Requeue(q, i, b);
    forall p | 0 <= p < Positions
      ensures Count(r, p) == 1
    {
      CountWithout(q, i, p);
      CountAppend(Without(q, i), [Transfer(b, q[i].slot)], p);
    }
    CountWithout(q, i, q[i].slot);
    forall k | 0 <= k < |r|
      ensures r[k].slot < Positions
    {
      if k < i {
        assert r[k] == q[k];
      } else if k < |q| - 1 {
        assert r[k] == q[k + 1];
      }
    }
  }

  /**
   * A completion re-targets at most one transfer: completing a transfer of
   * another bank leaves one fewer transfer not reading the active bank `b`.
   */
  lemma RequeueRetiresStale(q: seq<Transfer>, i: nat, b: nat)
    requires i < |q|
    ensures Stale(Requeue(q, i, b), b) == Stale(q, b) - (if q[i].bank != b then 1 else 0)
  {
    StaleWithout(q, i, b);
    StaleAppend(Without(q, i), [Transfer(b, q[i].slot)], b);
  }

  lemma {:induction false} BelowStep(q: seq<Transfer>, n: nat)
    ensures Below(q, n + 1) == Below(q, n) + Count(q, n)
  {
    if q != [] {
      BelowStep(q[1..], n);
    }
  }

  lemma {:induction false} BelowAll(q: seq<Transfer>)
    requires forall k :: 0 <= k < |q| ==> q[k].slot < Positions
    ensures Below(q, Positions) == |q|
  {
    if q != [] {
      BelowAll(q[1..]);
    }
  }

  lemma {:induction false} BelowOnePerPosition(q: seq<Transfer>, n: nat)
    requires OnePerPosition(q) && n <= Positions
    ensures Below(q, n) == n
  {
    if n == 0 {
      BelowNone(q);
    } else {
      BelowOnePerPosition(q, n - 1);
      BelowStep(q, n - 1);
    }
  }

  lemma {:induction false} BelowNone(q: seq<Transfer>)
    ensures Below(q, 0) == 0
  {
    if q != [] {
      BelowNone(q[1..]);
    }
  }

  /** One transfer per position means exactly nine transfers: within the queue depth of 12. */
  lemma QueueSize(q: seq<Transfer>)
    requires OnePerPosition(q)
    ensures |q| == Positions <= QueueDepth
  {
    BelowAll(q);
    BelowOnePerPosition(q, Positions);
  }

  /** After `n` head completions the first `n` transfers have moved to the back, re-targeted at `b`. */
  lemma {:induction false} RotateShape(q: seq<Transfer>, b: nat, n: nat)
    requires n <= |q|
    ensures Rotate(q, b, n) == q[n..] + Retarget(q[..n], b)
  {
    if n > 0 {
      RotateShape(q, b, n - 1);
      RotateStep(q, b, n);
    }
  }

  /** The n-th head completion, once the first n - 1 have moved to the back. */
  lemma RotateStep(q: seq<Transfer>, b: nat, n: nat)
    requires 0 < n <= |q|
    ensures Requeue(q[n - 1..] + Retarget(q[..n - 1], b), 0, b) == q[n..] + Retarget(q[..n], b)
  {
    var moved := Retarget(q[..n - 1], b);
    assert q[n - 1..] + moved == [q[n - 1]] + (q[n..] + moved);
    RequeueFront(q[n - 1], q[n..] + moved, b);
    RetargetSnoc(q, b, n);
    assert (q[n..] + moved) + [Transfer(b, q[n - 1].slot)] == q[n..] + Retarget(q[..n], b);
  }

  /** Completing the head of the queue moves its position to the back. */
  lemma RequeueFront(t: Transfer, rest: seq<Transfer>, b: nat)
    ensures Requeue([t] + rest, 0, b) == rest + [Transfer(b, t.slot)]
  {
    assert Without([t] + rest, 0) == rest;
  }

  /** Re-targeting a prefix one entry longer appends that entry, re-targeted. */
  lemma RetargetSnoc(q: seq<Transfer>, b: nat, n: nat)
    requires 0 < n <= |q|
    ensures Retarget(q[..n - 1], b) + [Transfer(b, q[n - 1].slot)] == Retarget(q[..n], b)
  {
    var lhs, rhs := Retarget(q[..n - 1], b) + [Transfer(b, q[n - 1].slot)], Retarget(q[..n], b);
    assert |lhs| == n == |rhs|;
    forall k | 0 <= k < n
      ensures lhs[k] == rhs[k]
    {
      if k < n - 1 {
        assert lhs[k] == Transfer(b, q[..n - 1][k].slot);
      }
    }
  }

  /**
   * After a bank swap, one full pass of completions in queue order (nine, once
   * refresh runs) leaves every position queued exactly once, in the same order,
   * and every transfer reading the new active bank `b`.
   */
  lemma FullPass(q: seq<Transfer>, b: nat)
    requires OnePerPosition(q)
    ensures var r := Rotate(q, b, |q|);
      && |r| == |q| == Positions
      && (forall k :: 0 <= k < |q| ==> r[k] == Transfer(b, q[k].slot))
      && Stale(r, b) == 0 && OnePerPosition(r)
  {
    RotateAll(q, b);
    QueueSize(q);
    RetargetFresh(q, b);
    RetargetCounts(q, b);
  }

  /** A pass of as many completions as there are transfers re-targets the whole queue. */
  lemma RotateAll(q: seq<Transfer>, b: nat)
    ensures Rotate(q, b, |q|) == Retarget(q, b)
  {
    RotateShape(q, b, |q|);
    assert q[|q|..] == [] && q[..|q|] == q;
  }

  lemma {:induction false} RetargetFresh(q: seq<Transfer>, b: nat)
    ensures Stale(Retarget(q, b), b) == 0
  {
    if q != [] {
      RetargetFresh(q[1..], b);
    }
  }

  lemma {:induction false} RetargetCounts(q: seq<Transfer>, b: nat)
    ensures forall p :: Count(Retarget(q, b), p) == Count(q, p)
  {
    if q != [] {
      RetargetCounts(q[1..], b);
    }
  }
}

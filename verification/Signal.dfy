/** The bounded payload ring of one signal number. */
module SignalRing {

  const SIGQUEUE_MAX_PER_SIGNO: nat := 4
  const SIGQUEUE_RING_CAP: nat := 5

  datatype Ring = Ring(values: seq<nat>, head: nat, tail: nat, count: nat)

  /** The position i places behind `head`. */
  function Slot(head: nat, i: nat): (p: nat)
    requires head < SIGQUEUE_RING_CAP && i <= SIGQUEUE_RING_CAP
    ensures p < SIGQUEUE_RING_CAP
  {
    if head + i < SIGQUEUE_RING_CAP then head + i else head + i - SIGQUEUE_RING_CAP
  }

  ghost predicate RingOk(r: Ring) {
    && |r.values| == SIGQUEUE_RING_CAP && r.head < SIGQUEUE_RING_CAP && r.count <= SIGQUEUE_RING_CAP
    && r.tail == Slot(r.head, r.count)
  }

  /** The queued payloads, oldest first. */
  function Fifo(r: Ring): (q: seq<nat>)
    requires RingOk(r)
    ensures |q| == r.count && forall i :: 0 <= i < |q| ==> q[i] == r.values[Slot(r.head, i)]
  {
    seq(r.count, i requires 0 <= i < r.count => r.values[Slot(r.head, i)])
  }

  const EMPTY: Ring := Ring([0, 0, 0, 0, 0], 0, 0, 0)

  /** Producers stop one slot short of the ring: the last slot is for a rollback. */
  function Push(r: Ring, v: nat): Ring
    requires RingOk(r)
  {
    if r.count >= SIGQUEUE_MAX_PER_SIGNO then r
    else Ring(r.values[r.tail := v], r.head, (r.tail + 1) % SIGQUEUE_RING_CAP, r.count + 1)
  }

  function Pop(r: Ring): Ring
    requires RingOk(r)
  {
    if r.count == 0 then r
    else Ring(r.values, (r.head + 1) % SIGQUEUE_RING_CAP, r.tail, r.count - 1)
  }

  function PushHead(r: Ring, v: nat): Ring
    requires RingOk(r)
  {
    if r.count >= SIGQUEUE_RING_CAP then r
    else
      var h := (r.head + SIGQUEUE_RING_CAP - 1) % SIGQUEUE_RING_CAP;
      Ring(r.values[h := v], h, r.tail, r.count + 1)
  }

  /** The ring's remainders are its positions. */
  lemma Position(head: nat, i: nat)
    requires head < SIGQUEUE_RING_CAP && i <= SIGQUEUE_RING_CAP
    ensures (head + i) % SIGQUEUE_RING_CAP == Slot(head, i)
  {
  }

  lemma PushFifo(r: Ring, v: nat)
    requires RingOk(r)
    ensures RingOk(Push(r, v))
    ensures Fifo(Push(r, v)) == if r.count < SIGQUEUE_MAX_PER_SIGNO then Fifo(r) + [v] else Fifo(r)
  {
    if r.count < SIGQUEUE_MAX_PER_SIGNO {
      var r' := Push(r, v);
      Position(r.head, r.count);
      Position(r.tail, 1);
      Position(r.head, r.count + 1);
      forall i | 0 <= i < r.count
        ensures Fifo(r')[i] == Fifo(r)[i]
      {
        assert Slot(r.head, i) != r.tail;
      }
      assert Fifo(r')[r.count] == v;
      assert Fifo(r') == Fifo(r) + [v];
    }
  }

  lemma PopFifo(r: Ring)
    requires RingOk(r)
    ensures RingOk(Pop(r))
    ensures Fifo(Pop(r)) == if r.count > 0 then Fifo(r)[1..] else []
    ensures r.count > 0 ==> r.values[r.head] == Fifo(r)[0]
  {
    if r.count > 0 {
      var r' := Pop(r);
      Position(r.head, 1);
      Position(r.head, r.count);
      Position(r'.head, r.count - 1);
      forall i | 0 <= i < r.count - 1
        ensures Fifo(r')[i] == Fifo(r)[i + 1]
      {
        assert Slot(r'.head, i) == Slot(r.head, i + 1);
      }
      assert Fifo(r') == Fifo(r)[1..];
    }
  }

  lemma PushHeadFifo(r: Ring, v: nat)
    requires RingOk(r)
    ensures RingOk(PushHead(r, v))
    ensures Fifo(PushHead(r, v)) == if r.count < SIGQUEUE_RING_CAP then [v] + Fifo(r) else Fifo(r)
  {
    if r.count < SIGQUEUE_RING_CAP {
      var r' := PushHead(r, v);
      Position(r.head, SIGQUEUE_RING_CAP - 1);
      Position(r.head, r.count);
      Position(r'.head, r.count + 1);
      forall i | 0 <= i < r.count
        ensures Fifo(r')[i + 1] == Fifo(r)[i]
      {
        assert Slot(r'.head, i + 1) == Slot(r.head, i) != r'.head;
      }
      assert Fifo(r')[0] == v;
    }
  }

  /** A burst of sends, and those of them that are accepted. */
  function PushAll(r: Ring, vs: seq<nat>): (r': Ring)
    requires RingOk(r)
    ensures RingOk(r')
    decreases vs
  {
    PushFifo(r, if vs == [] then 0 else vs[0]);
    if vs == [] then r else PushAll(Push(r, vs[0]), vs[1..])
  }

  function Accepted(r: Ring, vs: seq<nat>): seq<nat>
    requires RingOk(r)
    decreases vs
  {
    PushFifo(r, if vs == [] then 0 else vs[0]);
    if vs == [] then []
    else if r.count < SIGQUEUE_MAX_PER_SIGNO then [vs[0]] + Accepted(Push(r, vs[0]), vs[1..])
    else Accepted(r, vs[1..])
  }

  lemma {:induction false} PushAllFifo(r: Ring, vs: seq<nat>)
    requires RingOk(r)
    ensures Fifo(PushAll(r, vs)) == Fifo(r) + Accepted(r, vs)
    ensures PushAll(r, vs).count <= if r.count < SIGQUEUE_MAX_PER_SIGNO then SIGQUEUE_MAX_PER_SIGNO else r.count
    decreases vs
  {
    if vs != [] {
      PushFifo(r, vs[0]);
      PushAllFifo(Push(r, vs[0]), vs[1..]);
    }
  }

  /** How many more payloads producers may queue. */
  function Room(r: Ring): nat {
    if r.count < SIGQUEUE_MAX_PER_SIGNO then SIGQUEUE_MAX_PER_SIGNO - r.count else 0
  }

  function Min(a: nat, b: nat): nat { if a < b then a else b }

  /** Of a burst, the first payloads are accepted, as many as there is room for. */
  lemma {:induction false} AcceptedPrefix(r: Ring, vs: seq<nat>)
    requires RingOk(r)
    ensures Accepted(r, vs) == vs[..Min(|vs|, Room(r))]
    decreases vs
  {
    if vs != [] {
      PushFifo(r, vs[0]);
      AcceptedPrefix(Push(r, vs[0]), vs[1..]);
    }
  }

  /** A payload taken, the sends vs, and the payload put back. */
  function RolledBack(r: Ring, vs: seq<nat>): Ring
    requires RingOk(r) && r.count > 0
  {
    PopFifo(r);
    PushHead(PushAll(Pop(r), vs), r.values[r.head])
  }

  /** A rollback drops nothing: the queue is what it was, in order, followed by the sends
      accepted meanwhile. */
  lemma RollbackKeepsAll(r: Ring, vs: seq<nat>)
    requires RingOk(r) && r.count > 0
    ensures PushAll(Pop(r), vs).count < SIGQUEUE_RING_CAP && RingOk(RolledBack(r, vs))
    ensures Fifo(RolledBack(r, vs)) == Fifo(r) + Accepted(Pop(r), vs)
  {
    PopFifo(r);
    PushAllFifo(Pop(r), vs);
    PushHeadFifo(PushAll(Pop(r), vs), r.values[r.head]);
    HeadBack(Fifo(r), Accepted(Pop(r), vs));
  }

  /** When the claim might as well not have happened: exactly when the ring had room for all
      sends anyway, or held a payload in its rollback slot. Otherwise exactly one more send
      was accepted, in the place the claim left free. */
  lemma RollbackInvisibleExactly(r: Ring, vs: seq<nat>)
    requires RingOk(r) && r.count > 0
    ensures RingOk(RolledBack(r, vs))
    ensures Fifo(RolledBack(r, vs)) == Fifo(PushAll(r, vs))
            <==> r.count + |vs| <= SIGQUEUE_MAX_PER_SIGNO || r.count == SIGQUEUE_RING_CAP
    ensures r.count + |vs| > SIGQUEUE_MAX_PER_SIGNO && r.count < SIGQUEUE_RING_CAP ==>
              Room(r) < |vs| && Fifo(RolledBack(r, vs)) == Fifo(PushAll(r, vs)) + [vs[Room(r)]]
  {
    RollbackKeepsAll(r, vs);
    PushAllFifo(r, vs);
    PopFifo(r);
    AcceptedPrefix(r, vs);
    AcceptedPrefix(Pop(r), vs);
    if r.count + |vs| > SIGQUEUE_MAX_PER_SIGNO && r.count < SIGQUEUE_RING_CAP {
      OneMore(Fifo(r), vs, Room(r));
    }
  }

  lemma OneMore(q: seq<nat>, vs: seq<nat>, n: nat)
    requires n < |vs|
    ensures q + vs[..n + 1] == (q + vs[..n]) + [vs[n]] && q + vs[..n + 1] != q + vs[..n]
  {
    assert |q + vs[..n + 1]| != |q + vs[..n]|;
  }

  /** The smallest case: four payloads queued and one send. Without the claim the send is
      refused; with the claim and its rollback there are five. */
  lemma RollbackLetsOneIn(r: Ring, v: nat)
    requires RingOk(r) && r.count == SIGQUEUE_MAX_PER_SIGNO
    ensures Fifo(PushAll(r, [v])) == Fifo(r) && RingOk(RolledBack(r, [v])) && Fifo(RolledBack(r, [v])) == Fifo(r) + [v]
  {
    RollbackInvisibleExactly(r, [v]);
    PushAllFifo(r, [v]);
    AcceptedPrefix(r, [v]);
  }

  lemma HeadBack(q: seq<nat>, more: seq<nat>)
    requires q != []
    ensures [q[0]] + (q[1..] + more) == q + more
  {
  }
}

/** Process-directed pending signals: plain instances, queued payloads, and the summary
    mask the lock-free fast path reads. A 32-bit mask is the set of its bit numbers. */
module SignalPending {
  import opened SignalRing

  const SIG_MAX: nat := 32
  const EINVAL: int := -22
  const EAGAIN: int := -11

  predicate SigValid(signo: int) {
    0 < signo < SIG_MAX
  }

  class SignalState {
    var procPending: set<int>
    var plain: set<int>
    var queued: seq<Ring>
    /** Payloads claimed by a consumer that may still put them back, per signal. */
    ghost var outstanding: seq<nat>
    /** A second payload of the signal was once claimed while one was outstanding. */
    ghost var crowded: set<int>

    /** The summary has a bit exactly when a plain instance or a payload exists; with one
        consumer at a time, every ring keeps room for the payload that may come back. */
    ghost predicate Valid()
      reads this
    {
      && |queued| == SIG_MAX == |outstanding|
      && (forall s :: 0 <= s < SIG_MAX ==>
            && RingOk(queued[s])
            && (s !in crowded ==> outstanding[s] <= 1 && queued[s].count + outstanding[s] <= SIGQUEUE_RING_CAP))
      && forall s :: s in procPending <==> SigValid(s) && (s in plain || queued[s].count > 0)
    }

    ghost function Payloads(s: int): seq<nat>
      reads this
      requires Valid() && SigValid(s)
    {
      Fifo(queued[s])
    }

    constructor ()
      ensures Valid() && procPending == {} && plain == {} && crowded == {}
      ensures forall s :: SigValid(s) ==> Payloads(s) == [] && outstanding[s] == 0
    {
      procPending, plain, crowded := {}, {}, {};
      queued := seq(SIG_MAX, _ => EMPTY);
      outstanding := seq(SIG_MAX, _ => 0);
    }

    /** `sig_refresh_proc_pending_locked`. */
    method Refresh(s: int)
      requires SigValid(s) && |queued| == SIG_MAX
      modifies this`procPending
      ensures procPending == if s in plain || queued[s].count > 0 then old(procPending) + {s} else old(procPending) - {s}
    {
      if s in plain || queued[s].count > 0 {
        procPending := procPending + {s};
      } else {
        procPending := procPending - {s};
      }
    }

    /** `signal_send` under the signal lock of a live process. */
    method Send(s: int) returns (rc: int)
      requires Valid()
      modifies this`procPending, this`plain
      ensures Valid()
      ensures !SigValid(s) ==> rc == EINVAL && plain == old(plain)
      ensures SigValid(s) ==> rc == 0 && plain == old(plain) + {s} && s in procPending
    {
      if !SigValid(s) {
        return EINVAL;
      }
      plain := plain + {s};
      Refresh(s);
      return 0;
    }

    /** `signal_queue_send`: refused exactly when the user-visible limit is reached. */
    method QueueSend(s: int, value: nat) returns (rc: int)
      requires Valid()
      modifies this`procPending, this`queued
      ensures Valid()
      ensures rc == if !SigValid(s) then EINVAL
                    else if |old(Payloads(s))| >= SIGQUEUE_MAX_PER_SIGNO then EAGAIN else 0
      ensures rc != 0 ==> queued == old(queued) && procPending == old(procPending)
      ensures rc == 0 ==> Payloads(s) == old(Payloads(s)) + [value]
      ensures forall x :: SigValid(x) && x != s ==> queued[x] == old(queued[x])
    {
      if !SigValid(s) {
        return EINVAL;
      }
      PushFifo(queued[s], value);
      if queued[s].count >= SIGQUEUE_MAX_PER_SIGNO {
        return EAGAIN;
      }
      queued := queued[s := Push(queued[s], value)];
      Refresh(s);
      return 0;
    }

    /** `signal_claim_proc_pending_locked`: takes exactly one instance, the oldest payload
        if there is one, else the plain one. */
    method Claim(s: int) returns (claimed: bool, value: nat, hasValue: bool)
      requires Valid()
      modifies this
      ensures Valid()
      ensures claimed <==> SigValid(s) && (s in old(plain) || old(Payloads(s)) != [])
      ensures hasValue <==> claimed && old(Payloads(s)) != []
      ensures !claimed ==> plain == old(plain) && queued == old(queued) && outstanding == old(outstanding)
      ensures hasValue ==> old(Payloads(s)) == [value] + Payloads(s) && plain == old(plain)
                           && outstanding == old(outstanding)[s := old(outstanding[s]) + 1]
      ensures crowded == if hasValue && old(outstanding[s]) > 0 then old(crowded) + {s} else old(crowded)
      ensures claimed && !hasValue ==> plain == old(plain) - {s} && queued == old(queued) && outstanding == old(outstanding)
      ensures forall x :: SigValid(x) && x != s ==> queued[x] == old(queued[x])
    {
      value, hasValue := 0, false;
      if !SigValid(s) || s !in procPending {
        return false, value, hasValue;
      }
      PopFifo(queued[s]);
      if queued[s].count > 0 {
        value, hasValue := queued[s].values[queued[s].head], true;
        queued := queued[s := Pop(queued[s])];
        crowded := if outstanding[s] > 0 then crowded + {s} else crowded;
        outstanding := outstanding[s := outstanding[s] + 1];
      } else if s in plain {
        plain := plain - {s};
      }
      Refresh(s);
      return true, value, hasValue;
    }

    /** The consumer of a claimed payload is done with it. */
    ghost method Commit(s: int)
      requires Valid() && SigValid(s) && outstanding[s] > 0
      modifies this`outstanding
      ensures Valid() && outstanding == old(outstanding)[s := old(outstanding[s]) - 1]
    {
      outstanding := outstanding[s := outstanding[s] - 1];
    }

    /** `signal_restore_proc_pending_locked` after a claim. The payload goes back to the
        front unless the ring is full, which needs two consumers at once; then a plain
        instance stands in for it. */
    method Restore(s: int, value: nat, hadValue: bool) returns (dropped: bool)
      requires Valid() && (hadValue && SigValid(s) ==> outstanding[s] > 0)
      modifies this
      ensures Valid() && crowded == old(crowded)
      ensures dropped <==> SigValid(s) && hadValue && |old(Payloads(s))| == SIGQUEUE_RING_CAP
      ensures dropped ==> s in crowded && plain == old(plain) + {s} && queued == old(queued)
      ensures SigValid(s) && hadValue && !dropped ==> Payloads(s) == [value] + old(Payloads(s)) && plain == old(plain)
      ensures SigValid(s) && hadValue ==> outstanding == old(outstanding)[s := old(outstanding[s]) - 1]
      ensures SigValid(s) && !hadValue ==> plain == old(plain) + {s} && queued == old(queued)
      ensures SigValid(s) ==> s in procPending
      ensures !SigValid(s) ==> plain == old(plain) && queued == old(queued)
      ensures forall x :: SigValid(x) && x != s ==> queued[x] == old(queued[x])
    {
      dropped := false;
      if !SigValid(s) {
        return;
      }
      if hadValue {
        PushHeadFifo(queued[s], value);
        if queued[s].count >= SIGQUEUE_RING_CAP {
          plain := plain + {s};
          dropped := true;
        } else {
          queued := queued[s := PushHead(queued[s], value)];
        }
        outstanding := outstanding[s := outstanding[s] - 1];
      } else {
        plain := plain + {s};
      }
      Refresh(s);
    }
  }
}

/** Priority order of queued messages: highest priority first, oldest first within one. */
module MessageOrder {

  datatype Msg = Msg(data: seq<bv8>, prio: nat)

  ghost predicate Sorted(q: seq<Msg>) {
    forall i, j :: 0 <= i < j < |q| ==> q[i].prio >= q[j].prio
  }

  /** The messages of one priority, in order. */
  function OfPrio(q: seq<Msg>, p: nat): seq<Msg> {
    if q == [] then []
    else if q[0].prio == p then [q[0]] + OfPrio(q[1..], p)
    else OfPrio(q[1..], p)
  }

  lemma {:induction false} OfPrioConcat(a: seq<Msg>, b: seq<Msg>, p: nat)
    ensures OfPrio(a + b, p) == OfPrio(a, p) + OfPrio(b, p)
  {
    if a == [] {
      assert a + b == b;
    } else {
      OfPrioConcat(a[1..], b, p);
      assert (a + b)[1..] == a[1..] + b;
    }
  }

  lemma OfPrioSnoc(a: seq<Msg>, m: Msg, p: nat)
    ensures OfPrio(a + [m], p) == if m.prio == p then OfPrio(a, p) + [m] else OfPrio(a, p)
  {
    OfPrioConcat(a, [m], p);
    assert [m][1..] == [];
    assert OfPrio([m], p) == if m.prio == p then [m] else [];
  }

  lemma {:induction false} OfPrioNone(q: seq<Msg>, p: nat)
    requires forall i :: 0 <= i < |q| ==> q[i].prio != p
    ensures OfPrio(q, p) == []
  {
    if q != [] { OfPrioNone(q[1..], p); }
  }

  /** k is where `msg_insert_priority` stops: before the first strictly lower priority. */
  ghost predicate InsertPoint(q: seq<Msg>, m: Msg, k: nat) {
    && k <= |q|
    && (forall i :: 0 <= i < k ==> q[i].prio >= m.prio)
    && (k < |q| ==> q[k].prio < m.prio)
  }

  ghost function InsertAt(q: seq<Msg>, k: nat, m: Msg): seq<Msg>
    requires k <= |q|
  {
    q[..k] + [m] + q[k..]
  }

  /** Insertion keeps the order and makes m the youngest of its priority. */
  lemma InsertKeepsOrder(q: seq<Msg>, m: Msg, k: nat)
    requires Sorted(q) && InsertPoint(q, m, k)
    ensures Sorted(InsertAt(q, k, m))
    ensures forall p :: OfPrio(InsertAt(q, k, m), p) == OfPrio(q, p) + OfPrio([m], p)
  {
    forall p
      ensures OfPrio(InsertAt(q, k, m), p) == OfPrio(q, p) + OfPrio([m], p)
    {
      OfPrioConcat(q[..k] + [m], q[k..], p);
      OfPrioConcat(q[..k], [m], p);
      OfPrioConcat(q[..k], q[k..], p);
      assert q[..k] + q[k..] == q;
      if p == m.prio {
        OfPrioNone(q[k..], p);
      }
    }
  }

  lemma Reassociate<T>(a: seq<T>, x: T, b: seq<T>)
    ensures a + ([x] + b) == (a + [x]) + b
  {
  }

  /** At priority p, what was sent is what was received, then what is queued. */
  ghost predicate HistoryAt(q: seq<Msg>, sent: seq<Msg>, received: seq<Msg>, p: nat) {
    OfPrio(sent, p) == OfPrio(received, p) + OfPrio(q, p)
  }

  ghost predicate History(q: seq<Msg>, sent: seq<Msg>, received: seq<Msg>) {
    forall p: nat {:trigger HistoryAt(q, sent, received, p)} :: HistoryAt(q, sent, received, p)
  }

  lemma EmptyHistory()
    ensures History([], [], [])
  {
  }

  lemma DequeueKeepsHistory(q: seq<Msg>, sent: seq<Msg>, received: seq<Msg>, p: nat)
    requires q != [] && HistoryAt(q, sent, received, p)
    ensures HistoryAt(q[1..], sent, received + [q[0]], p)
  {
    OfPrioSnoc(received, q[0], p);
    if q[0].prio == p { Reassociate(OfPrio(received, p), q[0], OfPrio(q[1..], p)); }
  }

  lemma EnqueueKeepsHistory(q: seq<Msg>, m: Msg, k: nat, sent: seq<Msg>, received: seq<Msg>)
    requires Sorted(q) && InsertPoint(q, m, k) && History(q, sent, received)
    ensures Sorted(InsertAt(q, k, m)) && History(InsertAt(q, k, m), sent + [m], received)
  {
    InsertKeepsOrder(q, m, k);
    forall p: nat
      ensures HistoryAt(InsertAt(q, k, m), sent + [m], received, p)
    {
      assert HistoryAt(q, sent, received, p);
      OfPrioSnoc(sent, m, p);
      OfPrioSnoc(q, m, p);
      OfPrioConcat(q, [m], p);
    }
  }

  /** What leaves the queue: the head is of the highest queued priority and is the
      oldest message of that priority not yet received. */
  lemma HeadIsOldestHighest(q: seq<Msg>, sent: seq<Msg>, received: seq<Msg>)
    requires Sorted(q) && q != [] && History(q, sent, received)
    ensures forall i :: 0 <= i < |q| ==> q[i].prio <= q[0].prio
    ensures var p := q[0].prio;
            |OfPrio(received, p)| < |OfPrio(sent, p)| && OfPrio(sent, p)[|OfPrio(received, p)|] == q[0]
    ensures History(q[1..], sent, received + [q[0]])
  {
    forall p: nat
      ensures HistoryAt(q[1..], sent, received + [q[0]], p)
    {
      assert HistoryAt(q, sent, received, p);
      DequeueKeepsHistory(q, sent, received, p);
    }
    assert HistoryAt(q, sent, received, q[0].prio);
    var h := OfPrio(received, q[0].prio);
    var rest := OfPrio(q[1..], q[0].prio);
    assert (h + ([q[0]] + rest))[|h|] == q[0];
  }
}

/** The message queue protocol. Every method below is one region executed under the
    queue lock; a run is any interleaving of them by any number of threads. */
module MessageQueue {
  import opened Lists
  import opened MessageOrder

  const MQ_MAX_MSGS: nat := 16
  const MQ_MAX_MSG_SIZE: nat := 256
  const EBADF: int := -9
  const EAGAIN: int := -11
  const ETIMEDOUT: int := -110
  const EMSGSIZE: int := -90
  const EINVAL: int := -22

  type Tid = nat

  datatype Slot = Slot(msg: Msg, inUse: bool)
  datatype Op = Send(msg: Msg) | Recv(bufSize: nat)

  /** A blocked call: what it wants to do when it resumes. */
  datatype Waiter = Waiter(op: Op, timed: bool, gen: nat, woken: bool, timedOut: bool)

  datatype Ret = Sent | Got(msg: Msg) | Blocked | Fail(err: int)

  ghost predicate SlotsInRange(slots: seq<Slot>, msgs: seq<nat>) {
    forall i :: 0 <= i < |msgs| ==> msgs[i] < |slots|
  }

  function QueueOf(slots: seq<Slot>, msgs: seq<nat>): (q: seq<Msg>)
    requires SlotsInRange(slots, msgs)
    ensures |q| == |msgs| && forall i :: 0 <= i < |q| ==> q[i] == slots[msgs[i]].msg
  {
    seq(|msgs|, i requires 0 <= i < |msgs| => slots[msgs[i]].msg)
  }

  /** The slots in use are exactly the listed ones, and the list is in priority order. */
  ghost predicate Stored(slots: seq<Slot>, msgs: seq<nat>) {
    && |slots| == MQ_MAX_MSGS && SlotsInRange(slots, msgs) && NoDup(msgs)
    && (forall s: nat :: s < |slots| ==> (slots[s].inUse <==> s in msgs))
    && Sorted(QueueOf(slots, msgs))
  }

  /** A listed waiter is of the open generation and nobody has released it. */
  ghost predicate ListedOk(waiters: map<Tid, Waiter>, gen: nat, inUse: bool, recv: bool, t: Tid) {
    && t in waiters && waiters[t].op.Recv? == recv
    && !waiters[t].woken && !waiters[t].timedOut && waiters[t].gen == gen && inUse
  }

  ghost predicate Parked(waiters: map<Tid, Waiter>, q: seq<Tid>, gen: nat, inUse: bool, recv: bool) {
    && NoDup(q)
    && forall t {:trigger ListedOk(waiters, gen, inUse, recv, t)} :: t in q ==> ListedOk(waiters, gen, inUse, recv, t)
  }

  ghost predicate WaiterOk(waiters: map<Tid, Waiter>, sendq: seq<Tid>, recvq: seq<Tid>, gen: nat, inUse: bool, t: Tid) {
    t in waiters ==>
      && !(waiters[t].woken && waiters[t].timedOut)
      && (t !in sendq && t !in recvq ==> waiters[t].woken || waiters[t].timedOut)
      && waiters[t].gen <= gen
      && (!waiters[t].timed ==> waiters[t].gen == gen && inUse && !waiters[t].timedOut)
  }

  ghost predicate Waiting(waiters: map<Tid, Waiter>, sendq: seq<Tid>, recvq: seq<Tid>, gen: nat, inUse: bool) {
    && Parked(waiters, sendq, gen, inUse, false)
    && Parked(waiters, recvq, gen, inUse, true)
    && (!inUse ==> sendq == [] && recvq == [])
    && forall t {:trigger WaiterOk(waiters, sendq, recvq, gen, inUse, t)} :: WaiterOk(waiters, sendq, recvq, gen, inUse, t)
  }

  /** A changed wait state is right if every thread's part of it is. */
  lemma WaitingStep(waiters: map<Tid, Waiter>, sendq: seq<Tid>, recvq: seq<Tid>, gen: nat, inUse: bool,
                    waiters': map<Tid, Waiter>, sendq': seq<Tid>, recvq': seq<Tid>, gen': nat, inUse': bool)
    requires Waiting(waiters, sendq, recvq, gen, inUse)
    requires NoDup(sendq') && NoDup(recvq') && (!inUse' ==> sendq' == [] && recvq' == [])
    requires forall t ::
               WaiterOk(waiters, sendq, recvq, gen, inUse, t)
               && (t in sendq ==> ListedOk(waiters, gen, inUse, false, t))
               && (t in recvq ==> ListedOk(waiters, gen, inUse, true, t))
               ==> WaiterOk(waiters', sendq', recvq', gen', inUse', t)
                   && (t in sendq' ==> ListedOk(waiters', gen', inUse', false, t))
                   && (t in recvq' ==> ListedOk(waiters', gen', inUse', true, t))
    ensures Waiting(waiters', sendq', recvq', gen', inUse')
  {
    forall t
      ensures WaiterOk(waiters', sendq', recvq', gen', inUse', t)
      ensures t in sendq' ==> ListedOk(waiters', gen', inUse', false, t)
      ensures t in recvq' ==> ListedOk(waiters', gen', inUse', true, t)
    {
      assert WaiterOk(waiters, sendq, recvq, gen, inUse, t);
      assert t in sendq ==> ListedOk(waiters, gen, inUse, false, t);
      assert t in recvq ==> ListedOk(waiters, gen, inUse, true, t);
    }
  }

  /** Nobody waits untimed on a free queue, so a new generation inherits no waiter. */
  lemma OpenWaiting(waiters: map<Tid, Waiter>, gen: nat)
    requires Waiting(waiters, [], [], gen, false)
    ensures Waiting(waiters, [], [], gen + 1, true)
    ensures forall t :: t in waiters ==> waiters[t].gen <= gen
  {
    WaitingStep(waiters, [], [], gen, false, waiters, [], [], gen + 1, true);
    forall t | t in waiters
      ensures waiters[t].gen <= gen
    {
      assert WaiterOk(waiters, [], [], gen, false, t);
    }
  }

  /** Closing a queue whose waiters have all been released. */
  lemma CloseWaiting(waiters: map<Tid, Waiter>, gen: nat)
    requires Waiting(waiters, [], [], gen, true) && forall t :: t in waiters ==> waiters[t].timed
    ensures Waiting(waiters, [], [], gen, false)
  {
    WaitingStep(waiters, [], [], gen, true, waiters, [], [], gen, false);
  }

  /** With both lists empty every waiter has been released. */
  lemma AllReleased(waiters: map<Tid, Waiter>, gen: nat, inUse: bool)
    requires Waiting(waiters, [], [], gen, inUse)
    ensures forall t :: t in waiters ==> waiters[t].woken || waiters[t].timedOut
  {
    forall t | t in waiters
      ensures waiters[t].woken || waiters[t].timedOut
    {
      assert WaiterOk(waiters, [], [], gen, inUse, t);
    }
  }

  /** The first thread of a list is handed a wake-up and leaves the list. */
  lemma WakeKeeps(waiters: map<Tid, Waiter>, sendq: seq<Tid>, recvq: seq<Tid>, gen: nat, inUse: bool, recv: bool)
    requires Waiting(waiters, sendq, recvq, gen, inUse)
    ensures var q := if recv then recvq else sendq;
            && (q != [] ==> ListedOk(waiters, gen, inUse, recv, q[0]))
            && Waiting(WokenFirst(waiters, q), if recv then sendq else Rest(q), if recv then Rest(q) else recvq, gen, inUse)
  {
    var q := if recv then recvq else sendq;
    if q != [] {
      assert q[0] in q;
      assert ListedOk(waiters, gen, inUse, recv, q[0]);
      assert forall t :: t in q <==> t == q[0] || t in q[1..];
      assert q[0] !in (if recv then sendq else recvq) by {
        assert q[0] in (if recv then sendq else recvq) ==> ListedOk(waiters, gen, inUse, !recv, q[0]);
      }
      WaitingStep(waiters, sendq, recvq, gen, inUse, WokenFirst(waiters, q),
                  if recv then sendq else q[1..], if recv then q[1..] else recvq, gen, inUse);
    }
  }

  /** A thread that blocks joins the end of its list. */
  lemma ParkKeeps(waiters: map<Tid, Waiter>, sendq: seq<Tid>, recvq: seq<Tid>, gen: nat, inUse: bool, t: Tid, w: Waiter)
    requires Waiting(waiters, sendq, recvq, gen, inUse) && t !in waiters
    requires inUse && w.gen == gen && !w.woken && !w.timedOut
    ensures Waiting(waiters[t := w], if w.op.Send? then sendq + [t] else sendq,
                    if w.op.Recv? then recvq + [t] else recvq, gen, inUse)
  {
    assert t in sendq ==> ListedOk(waiters, gen, inUse, false, t);
    assert t in recvq ==> ListedOk(waiters, gen, inUse, true, t);
    WaitingStep(waiters, sendq, recvq, gen, inUse, waiters[t := w],
                if w.op.Send? then sendq + [t] else sendq, if w.op.Recv? then recvq + [t] else recvq, gen, inUse);
  }

  ghost predicate OpFits(op: Op, size: nat) {
    if op.Send? then |op.msg.data| <= size else op.bufSize >= size
  }

  /** The blocked calls of the open generation hold messages and buffers of the right size. */
  ghost predicate Roomy(waiters: map<Tid, Waiter>, gen: nat, size: nat) {
    forall t :: t in waiters && waiters[t].gen == gen ==> OpFits(waiters[t].op, size)
  }

  ghost predicate AllWithin(q: seq<Msg>, size: nat) {
    forall i :: 0 <= i < |q| ==> |q[i].data| <= size
  }

  lemma InsertWithin(q: seq<Msg>, k: nat, m: Msg, size: nat)
    requires k <= |q| && AllWithin(q, size) && |m.data| <= size
    ensures AllWithin(InsertAt(q, k, m), size)
  {
  }

  /** Waking or removing waiters keeps their sizes right. */
  lemma StillRoomy(waiters: map<Tid, Waiter>, after: map<Tid, Waiter>, gen: nat, size: nat)
    requires Roomy(waiters, gen, size)
    requires forall t :: t in after ==> t in waiters && after[t].op == waiters[t].op && after[t].gen == waiters[t].gen
    ensures Roomy(after, gen, size)
  {
  }

  /** What the handle and size checks of a timed call saw before it took the lock. */
  datatype Seen = Seen(inUse: bool, maxMsgSize: nat)

  /** A resumed thread that goes round its wait loop again: an untimed one always, a timed
      one after a wake-up. */
  predicate Retries(w: Waiter) {
    !w.timed || w.woken
  }

  /** A timed thread that resumed without cause goes back to sleep where it was. */
  predicate Sleeps(w: Waiter, abort: int) {
    w.timed && !w.woken && !w.timedOut && abort >= 0
  }

  /** The waiters after `wake_one` on list q. */
  ghost function WokenFirst(waiters: map<Tid, Waiter>, q: seq<Tid>): map<Tid, Waiter>
    requires q != [] ==> q[0] in waiters
  {
    if q == [] then waiters else waiters[q[0] := waiters[q[0]].(woken := true)]
  }

  ghost function Rest(q: seq<Tid>): seq<Tid> {
    if q == [] then [] else q[1..]
  }

  /** The threads of the open generation that were handed a wake-up and have not resumed. */
  ghost function Woken(waiters: map<Tid, Waiter>, gen: nat, recv: bool): set<Tid> {
    set t | t in waiters && waiters[t].op.Recv? == recv && waiters[t].woken && waiters[t].gen == gen
  }

  /** What is listed after an insertion, and where. */
  lemma InsertedAt(msgs: seq<nat>, s: nat, k: nat)
    requires k <= |msgs|
    ensures var msgs' := msgs[..k] + [s] + msgs[k..];
            && |msgs'| == |msgs| + 1
            && (forall i :: 0 <= i < |msgs'| ==> msgs'[i] == if i < k then msgs[i] else if i == k then s else msgs[i - 1])
  {
  }

  lemma InsertedMembers(msgs: seq<nat>, s: nat, k: nat, x: nat)
    requires k <= |msgs|
    ensures x in msgs[..k] + [s] + msgs[k..] <==> x == s || x in msgs
  {
    assert msgs == msgs[..k] + msgs[k..];
  }

  lemma InsertedNoDup(msgs: seq<nat>, s: nat, k: nat)
    requires k <= |msgs| && NoDup(msgs) && s !in msgs
    ensures NoDup(msgs[..k] + [s] + msgs[k..])
  {
    InsertedAt(msgs, s, k);
    assert forall i :: 0 <= i < |msgs| ==> msgs[i] in msgs;
  }

  lemma InsertedQueue(slots: seq<Slot>, msgs: seq<nat>, s: nat, m: Msg, k: nat)
    requires SlotsInRange(slots, msgs) && s < |slots| && s !in msgs && k <= |msgs|
    ensures var slots', msgs' := slots[s := Slot(m, true)], msgs[..k] + [s] + msgs[k..];
            SlotsInRange(slots', msgs') && QueueOf(slots', msgs') == InsertAt(QueueOf(slots, msgs), k, m)
  {
    InsertedAt(msgs, s, k);
    assert forall i :: 0 <= i < |msgs| ==> msgs[i] in msgs;
  }

  /** Listing a fresh slot at an insertion point. */
  lemma PutStored(slots: seq<Slot>, msgs: seq<nat>, s: nat, m: Msg, k: nat)
    requires Stored(slots, msgs) && s < |slots| && !slots[s].inUse && k <= |msgs|
    ensures var slots', msgs' := slots[s := Slot(m, true)], msgs[..k] + [s] + msgs[k..];
            && SlotsInRange(slots', msgs') && NoDup(msgs')
            && (forall x: nat :: x < |slots'| ==> (slots'[x].inUse <==> x in msgs'))
            && QueueOf(slots', msgs') == InsertAt(QueueOf(slots, msgs), k, m)
  {
    InsertedNoDup(msgs, s, k);
    InsertedQueue(slots, msgs, s, m, k);
    forall x: nat | x < |slots|
      ensures x in msgs[..k] + [s] + msgs[k..] <==> x == s || x in msgs
    {
      InsertedMembers(msgs, s, k, x);
    }
  }

  /** Unlisting the head and freeing its slot. */
  lemma TakeStored(slots: seq<Slot>, msgs: seq<nat>)
    requires Stored(slots, msgs) && msgs != []
    ensures var slots', msgs' := slots[msgs[0] := Slot(Msg([], 0), false)], msgs[1..];
            Stored(slots', msgs') && QueueOf(slots', msgs') == QueueOf(slots, msgs)[1..]
  {
    var slots', msgs' := slots[msgs[0] := Slot(Msg([], 0), false)], msgs[1..];
    assert forall x :: x in msgs <==> x == msgs[0] || x in msgs';
    assert msgs[0] !in msgs';
    assert QueueOf(slots', msgs') == QueueOf(slots, msgs)[1..];
  }

  lemma WokenShrinks(waiters: map<Tid, Waiter>, t: Tid, gen: nat)
    requires t in waiters
    ensures forall recv :: |Woken(waiters, gen, recv)| ==
                           |Woken(waiters - {t}, gen, recv)| + (if t in Woken(waiters, gen, recv) then 1 else 0)
  {
    forall recv
      ensures |Woken(waiters, gen, recv)| ==
              |Woken(waiters - {t}, gen, recv)| + (if t in Woken(waiters, gen, recv) then 1 else 0)
    {
      assert Woken(waiters, gen, recv) - {t} == Woken(waiters - {t}, gen, recv);
    }
  }

  /** A waiter that times out leaves its list and takes no wake-up with it. */
  lemma GiveUpKeeps(waiters: map<Tid, Waiter>, sendq: seq<Tid>, recvq: seq<Tid>, t: Tid, gen: nat, inUse: bool)
    requires Waiting(waiters, sendq, recvq, gen, inUse) && t in waiters && waiters[t].timed && !waiters[t].woken
    ensures var after := waiters[t := waiters[t].(timedOut := true)];
            && Waiting(after, Without(sendq, t), Without(recvq, t), gen, inUse)
            && forall recv :: Woken(after, gen, recv) == Woken(waiters, gen, recv)
  {
    WithoutNoDup(sendq, t);
    WithoutNoDup(recvq, t);
    assert WaiterOk(waiters, sendq, recvq, gen, inUse, t);
    WaitingStep(waiters, sendq, recvq, gen, inUse, waiters[t := waiters[t].(timedOut := true)],
                Without(sendq, t), Without(recvq, t), gen, inUse);
  }

  /** A waiter that leaves altogether. */
  lemma LeaveKeeps(waiters: map<Tid, Waiter>, sendq: seq<Tid>, recvq: seq<Tid>, t: Tid, gen: nat, inUse: bool)
    requires Waiting(waiters, sendq, recvq, gen, inUse)
    ensures Waiting(waiters - {t}, Without(sendq, t), Without(recvq, t), gen, inUse)
  {
    WithoutNoDup(sendq, t);
    WithoutNoDup(recvq, t);
    WaitingStep(waiters, sendq, recvq, gen, inUse, waiters - {t}, Without(sendq, t), Without(recvq, t), gen, inUse);
  }

  lemma WokenGrows(waiters: map<Tid, Waiter>, t: Tid, gen: nat)
    requires t in waiters && !waiters[t].woken && waiters[t].gen == gen
    ensures var recv, after := waiters[t].op.Recv?, waiters[t := waiters[t].(woken := true)];
            && |Woken(after, gen, recv)| == |Woken(waiters, gen, recv)| + 1
            && Woken(after, gen, !recv) == Woken(waiters, gen, !recv)
  {
    var recv, after := waiters[t].op.Recv?, waiters[t := waiters[t].(woken := true)];
    assert Woken(after, gen, recv) == Woken(waiters, gen, recv) + {t};
  }

  lemma WokenSame(waiters: map<Tid, Waiter>, t: Tid, w: Waiter, gen: nat)
    requires t !in waiters && !w.woken
    ensures forall recv :: Woken(waiters[t := w], gen, recv) == Woken(waiters, gen, recv)
  {
  }

  class MQueue {
    var slots: seq<Slot>
    var msgs: seq<nat>
    var msgCount: nat
    var maxMsgs: nat
    var maxMsgSize: nat
    var inUse: bool
    var gen: nat
    var sendq: seq<Tid>
    var recvq: seq<Tid>
    var waiters: map<Tid, Waiter>
    /** Messages enqueued and dequeued since the queue was opened. */
    ghost var sent: seq<Msg>
    ghost var received: seq<Msg>
    /** Some receive since opening was refused because its buffer was too short. */
    ghost var refused: bool
    /** Since opening, every receive was called with a buffer of at least maxMsgSize, and
        every message handed to a send was at most that long. */
    ghost var ample: bool

    ghost predicate StorageOk()
      reads this`slots, this`msgs, this`msgCount, this`maxMsgs, this`inUse, this`sent, this`received
    {
      && Stored(slots, msgs) && msgCount == |msgs| <= maxMsgs <= MQ_MAX_MSGS
      && History(QueueOf(slots, msgs), sent, received)
      && (!inUse ==> msgs == [])
    }

    /** No lost wake-up, up to the credit of a thread that has just resumed: while a
        receiver waits there are no more messages than receivers already woken for
        them, and while a sender waits no more free slots than senders woken. */
    ghost predicate Handed(sendCredit: nat, recvCredit: nat)
      reads this`msgs, this`maxMsgs, this`sendq, this`recvq, this`waiters, this`gen, this`refused
    {
      && (recvq != [] && !refused ==> |msgs| <= |Woken(waiters, gen, true)| + recvCredit)
      && (sendq != [] ==> maxMsgs - |msgs| <= |Woken(waiters, gen, false)| + sendCredit)
    }

    /** With ample buffers nothing queued or about to be queued is too long for anybody, so
        no receive is refused. */
    ghost predicate AmpleOk()
      reads this`slots, this`msgs, this`maxMsgSize, this`waiters, this`gen, this`refused, this`ample
    {
      ample ==>
        && !refused && SlotsInRange(slots, msgs) && AllWithin(QueueOf(slots, msgs), maxMsgSize)
        && Roomy(waiters, gen, maxMsgSize)
    }

    ghost predicate WaitOk()
      reads this`waiters, this`sendq, this`recvq, this`gen, this`inUse
    {
      Waiting(waiters, sendq, recvq, gen, inUse)
    }

    ghost predicate Valid()
      reads this
    {
      StorageOk() && WaitOk() && Handed(0, 0) && AmpleOk()
    }

    ghost function Queue(): seq<Msg>
      reads this`slots, this`msgs, this`msgCount, this`maxMsgs, this`inUse, this`sent, this`received
      requires StorageOk()
    {
      QueueOf(slots, msgs)
    }

    constructor ()
      ensures Valid() && !inUse && waiters == map[]
    {
      slots := seq(MQ_MAX_MSGS, _ => Slot(Msg([], 0), false));
      msgs, msgCount, maxMsgs, maxMsgSize := [], 0, 0, 0;
      inUse, gen, sendq, recvq, waiters := false, 0, [], [], map[];
      sent, received, refused, ample := [], [], false, true;
    }

    /** `msg_alloc`: the first slot not in use. */
    method MsgAlloc() returns (s: nat)
      requires Stored(slots, msgs)
      ensures s <= |slots| && (s < |slots| ==> !slots[s].inUse)
      ensures s == |slots| ==> forall i :: 0 <= i < |slots| ==> slots[i].inUse
    {
      s := 0;
      while s < |slots| && slots[s].inUse
        invariant s <= |slots| && forall i :: 0 <= i < s ==> slots[i].inUse
      {
        s := s + 1;
      }
    }

    /** `msg_insert_priority`: where the new message goes. */
    method FindPlace(m: Msg) returns (k: nat)
      requires Stored(slots, msgs)
      ensures InsertPoint(QueueOf(slots, msgs), m, k)
    {
      k := 0;
      while k < |msgs|
        invariant k <= |msgs| && forall i :: 0 <= i < k ==> slots[msgs[i]].msg.prio >= m.prio
      {
        if m.prio > slots[msgs[k]].msg.prio {
          return;
        }
        k := k + 1;
      }
    }

    /** Copy a message into a free slot and list it. With fewer than maxMsgs messages a
        slot is always free, so the out-of-slots error is never returned. */
    method Put(m: Msg)
      requires StorageOk() && inUse && |msgs| < maxMsgs
      modifies this`slots, this`msgs, this`msgCount, this`sent
      ensures StorageOk() && sent == old(sent) + [m] && |msgs| == |old(msgs)| + 1
      ensures exists k: nat :: InsertPoint(old(Queue()), m, k) && Queue() == InsertAt(old(Queue()), k, m)
    {
      var s := MsgAlloc();
      SomeMissing(msgs, MQ_MAX_MSGS);
      assert s < |slots|;
      var k := FindPlace(m);
      ghost var q := Queue();
      EnqueueKeepsHistory(q, m, k, sent, received);
      PutStored(slots, msgs, s, m, k);
      slots := slots[s := Slot(m, true)];
      msgs := msgs[..k] + [s] + msgs[k..];
      msgCount := msgCount + 1;
      sent := sent + [m];
    }

    /** `wake_one(&mq->recv_waitq)` or, for recv == false, `wake_one(&mq->send_waitq)`. */
    method WakeOne(recv: bool)
      requires WaitOk()
      modifies this`sendq, this`recvq, this`waiters
      ensures WaitOk()
      ensures var q := if recv then old(recvq) else old(sendq);
              && (q != [] ==> q[0] in old(waiters)) && waiters == WokenFirst(old(waiters), q)
              && recvq == (if recv then Rest(q) else old(recvq))
              && sendq == (if recv then old(sendq) else Rest(q))
              && |Woken(waiters, gen, recv)| == |old(Woken(waiters, gen, recv))| + (if q == [] then 0 else 1)
      ensures Woken(waiters, gen, !recv) == old(Woken(waiters, gen, !recv))
    {
      WakeKeeps(waiters, sendq, recvq, gen, inUse, recv);
      if recv && recvq != [] {
        var t := recvq[0];
        WokenGrows(waiters, t, gen);
        recvq := recvq[1..];
        waiters := waiters[t := waiters[t].(woken := true)];
      } else if !recv && sendq != [] {
        var t := sendq[0];
        WokenGrows(waiters, t, gen);
        sendq := sendq[1..];
        waiters := waiters[t := waiters[t].(woken := true)];
      }
    }

    /** Append a thread to the wait list its operation belongs to. */
    method Park(t: Tid, w: Waiter)
      requires WaitOk() && t !in waiters && inUse && w.gen == gen && !w.woken && !w.timedOut
      modifies this`sendq, this`recvq, this`waiters
      ensures WaitOk() && waiters == old(waiters)[t := w]
      ensures sendq == if w.op.Send? then old(sendq) + [t] else old(sendq)
      ensures recvq == if w.op.Recv? then old(recvq) + [t] else old(recvq)
      ensures forall recv :: Woken(waiters, gen, recv) == old(Woken(waiters, gen, recv))
    {
      WokenSame(waiters, t, w, gen);
      ParkKeeps(waiters, sendq, recvq, gen, inUse, t, w);
      waiters := waiters[t := w];
      if w.op.Send? {
        sendq := sendq + [t];
      } else {
        recvq := recvq + [t];
      }
    }

    /** The end of every send form: the message is stored and a receiver is woken. */
    method SendNow(m: Msg, ghost credit: nat)
      requires StorageOk() && WaitOk() && Handed(credit, 0) && credit <= 1 && AmpleOk()
      requires inUse && |msgs| < maxMsgs && (ample ==> |m.data| <= maxMsgSize)
      modifies this`slots, this`msgs, this`msgCount, this`sent, this`sendq, this`recvq, this`waiters
      ensures Valid() && sent == old(sent) + [m] && |msgs| == |old(msgs)| + 1 && sendq == old(sendq)
      ensures (old(recvq) != [] ==> old(recvq)[0] in old(waiters)) && waiters == WokenFirst(old(waiters), old(recvq))
      ensures recvq == Rest(old(recvq))
      ensures exists k: nat :: InsertPoint(old(Queue()), m, k) && Queue() == InsertAt(old(Queue()), k, m)
    {
      ghost var q := Queue();
      Put(m);
      if ample {
        ghost var k: nat :| InsertPoint(q, m, k) && Queue() == InsertAt(q, k, m);
        InsertWithin(q, k, m, maxMsgSize);
      }
      WakeReceiver();
    }

    /** `wake_one(&mq->recv_waitq)` after a message was stored. */
    method WakeReceiver()
      requires StorageOk() && WaitOk() && AmpleOk()
      requires recvq != [] && !refused ==> |msgs| <= |Woken(waiters, gen, true)| + 1
      requires sendq != [] ==> maxMsgs - |msgs| <= |Woken(waiters, gen, false)|
      modifies this`sendq, this`recvq, this`waiters
      ensures Valid() && sendq == old(sendq) && recvq == Rest(old(recvq))
      ensures (old(recvq) != [] ==> old(recvq)[0] in old(waiters)) && waiters == WokenFirst(old(waiters), old(recvq))
    {
      WakeOne(true);
      if ample { StillRoomy(old(waiters), waiters, gen, maxMsgSize); }
    }

    /** The wait loop of the send forms from its head, for a thread that holds the lock. */
    method SendLoop(t: Tid, m: Msg, timed: bool, g: nat, abort: int, ghost credit: nat) returns (r: Ret)
      requires StorageOk() && WaitOk() && Handed(credit, 0) && AmpleOk() && t !in waiters
      requires credit <= 1 && g <= gen && (credit == 1 ==> g == gen) && (!timed ==> inUse && g == gen)
      requires ample && g == gen ==> |m.data| <= maxMsgSize
      modifies this`slots, this`msgs, this`msgCount, this`sent, this`sendq, this`recvq, this`waiters
      ensures Valid()
      ensures r.Sent? <==> |old(msgs)| < maxMsgs && inUse && g == gen
      ensures r.Sent? ==> sent == old(sent) + [m] && |msgs| == |old(msgs)| + 1 && sendq == old(sendq) && t !in waiters
      ensures !r.Sent? ==> sent == old(sent) && slots == old(slots) && msgs == old(msgs) && recvq == old(recvq)
      ensures r.Blocked? <==> |old(msgs)| >= maxMsgs && inUse && g == gen && abort >= 0
      ensures r.Blocked? ==> waiters == old(waiters)[t := Waiter(Send(m), timed, g, false, false)] && sendq == old(sendq) + [t]
      ensures r.Fail? ==> waiters == old(waiters) && sendq == old(sendq)
                          && (r.err == EBADF || (r.err == abort && abort < 0))
      ensures !r.Got?
    {
      if msgCount >= maxMsgs {
        if !inUse || gen != g {
          return Fail(EBADF);
        }
        if abort < 0 {
          return Fail(abort);
        }
        Park(t, Waiter(Send(m), timed, g, false, false));
        return Blocked;
      }
      if timed && (!inUse || gen != g) {
        return Fail(EBADF);
      }
      SendNow(m, credit);
      return Sent;
    }

    /** `mqueue_do_receive` on a non-empty queue: the head goes out if it fits. */
    method DoReceive(bufSize: nat, ghost credit: nat) returns (r: Ret)
      requires StorageOk() && WaitOk() && Handed(0, credit) && AmpleOk() && credit <= 1 && inUse && msgs != []
      requires ample ==> bufSize >= maxMsgSize
      modifies this`slots, this`msgs, this`msgCount, this`received, this`refused, this`sendq, this`recvq, this`waiters
      ensures Valid() && recvq == old(recvq) && (old(ample) ==> refused == old(refused))
      ensures var m := old(Queue())[0];
              if |m.data| <= bufSize then
                && r == Got(m) && Queue() == old(Queue())[1..] && received == old(received) + [m] && refused == old(refused)
                && (old(sendq) != [] ==> old(sendq)[0] in old(waiters))
                && waiters == WokenFirst(old(waiters), old(sendq)) && sendq == Rest(old(sendq))
              else
                && r == Fail(EMSGSIZE) && msgs == old(msgs) && slots == old(slots) && received == old(received)
                && refused && waiters == old(waiters) && sendq == old(sendq)
    {
      var s := msgs[0];
      var m := slots[s].msg;
      assert m == Queue()[0];
      if |m.data| > bufSize {
        refused := true;
        return Fail(EMSGSIZE);
      }
      Take();
      WakeSender();
      return Got(m);
    }

    /** `wake_one(&mq->send_waitq)` after a message was taken. */
    method WakeSender()
      requires StorageOk() && WaitOk() && AmpleOk()
      requires recvq != [] && !refused ==> |msgs| <= |Woken(waiters, gen, true)|
      requires sendq != [] ==> maxMsgs - |msgs| <= |Woken(waiters, gen, false)| + 1
      modifies this`sendq, this`recvq, this`waiters
      ensures Valid() && recvq == old(recvq) && sendq == Rest(old(sendq))
      ensures (old(sendq) != [] ==> old(sendq)[0] in old(waiters)) && waiters == WokenFirst(old(waiters), old(sendq))
    {
      WakeOne(false);
      if ample { StillRoomy(old(waiters), waiters, gen, maxMsgSize); }
    }

    /** The head leaves the list and its slot is freed. */
    method Take()
      requires StorageOk() && msgs != []
      modifies this`slots, this`msgs, this`msgCount, this`received
      ensures StorageOk() && Queue() == old(Queue())[1..] && received == old(received) + [old(Queue())[0]]
    {
      HeadIsOldestHighest(Queue(), sent, received);
      TakeStored(slots, msgs);
      received := received + [slots[msgs[0]].msg];
      slots := slots[msgs[0] := Slot(Msg([], 0), false)];
      msgs := msgs[1..];
      msgCount := msgCount - 1;
    }

    /** The wait loop of the receive forms from its head. */
    method ReceiveLoop(t: Tid, bufSize: nat, timed: bool, g: nat, abort: int, ghost credit: nat) returns (r: Ret)
      requires StorageOk() && WaitOk() && Handed(0, credit) && AmpleOk() && t !in waiters
      requires credit <= 1 && g <= gen && (credit == 1 ==> g == gen) && (!timed ==> inUse && g == gen)
      requires ample && g == gen ==> bufSize >= maxMsgSize
      modifies this`slots, this`msgs, this`msgCount, this`received, this`refused, this`sendq, this`recvq, this`waiters
      ensures Valid()
      ensures r.Got? <==> old(msgs) != [] && inUse && g == gen && |old(Queue())[0].data| <= bufSize
      ensures r.Got? ==> r.msg == old(Queue())[0] && Queue() == old(Queue())[1..] && received == old(received) + [r.msg]
                         && recvq == old(recvq) && t !in waiters
      ensures !r.Got? ==> received == old(received) && slots == old(slots) && msgs == old(msgs) && sendq == old(sendq)
      ensures r.Blocked? <==> old(msgs) == [] && inUse && g == gen && abort >= 0
      ensures r.Blocked? ==> waiters == old(waiters)[t := Waiter(Recv(bufSize), timed, g, false, false)]
                             && recvq == old(recvq) + [t]
      ensures r.Fail? ==> waiters == old(waiters) && recvq == old(recvq)
      ensures r.Fail? ==> r.err == (if !inUse || g != gen then EBADF else if old(msgs) == [] then abort else EMSGSIZE)
      ensures refused == (old(refused) || (r == Fail(EMSGSIZE) && inUse && g == gen && old(msgs) != []))
      ensures !r.Sent?
    {
      if msgs == [] {
        if !inUse || gen != g {
          return Fail(EBADF);
        }
        if abort < 0 {
          return Fail(abort);
        }
        Park(t, Waiter(Recv(bufSize), timed, g, false, false));
        return Blocked;
      }
      if timed && (!inUse || gen != g) {
        return Fail(EBADF);
      }
      r := DoReceive(bufSize, credit);
    }

    /** A resuming thread leaves its wait list; its wake-up, if any, becomes its credit. */
    method Unpark(t: Tid) returns (w: Waiter, ghost sendCredit: nat, ghost recvCredit: nat)
      requires WaitOk() && Handed(0, 0) && AmpleOk() && t in waiters
      modifies this`sendq, this`recvq, this`waiters
      ensures w == old(waiters[t]) && waiters == old(waiters) - {t} && WaitOk() && AmpleOk()
      ensures sendq == Without(old(sendq), t) && recvq == Without(old(recvq), t)
      ensures sendCredit == (if w.op.Send? && w.woken && w.gen == gen then 1 else 0)
      ensures recvCredit == (if w.op.Recv? && w.woken && w.gen == gen then 1 else 0)
      ensures Handed(sendCredit, recvCredit)
    {
      w := waiters[t];
      sendCredit := if w.op.Send? && w.woken && w.gen == gen then 1 else 0;
      recvCredit := if w.op.Recv? && w.woken && w.gen == gen then 1 else 0;
      WokenShrinks(waiters, t, gen);
      LeaveKeeps(waiters, sendq, recvq, t, gen, inUse);
      if ample { StillRoomy(waiters, waiters - {t}, gen, maxMsgSize); }
      sendq := Without(sendq, t);
      recvq := Without(recvq, t);
      waiters := waiters - {t};
    }

    /** `mqueue_send` up to its first unlock; the handle check sees the same queue. */
    method SendEnter(t: Tid, m: Msg, abort: int) returns (r: Ret)
      requires Valid() && t !in waiters
      modifies this`slots, this`msgs, this`msgCount, this`sent, this`sendq, this`recvq, this`waiters
      ensures Valid()
      ensures r.Sent? <==> inUse && |m.data| <= maxMsgSize && |old(msgs)| < maxMsgs
      ensures r.Blocked? <==> inUse && |m.data| <= maxMsgSize && |old(msgs)| >= maxMsgs && abort >= 0
      ensures r.Sent? ==> sent == old(sent) + [m] && sendq == old(sendq) && t !in waiters
      ensures !r.Sent? ==> sent == old(sent) && msgs == old(msgs) && slots == old(slots) && recvq == old(recvq)
      ensures r.Blocked? ==> waiters == old(waiters)[t := Waiter(Send(m), false, gen, false, false)] && sendq == old(sendq) + [t]
      ensures r.Fail? ==> waiters == old(waiters) && sendq == old(sendq)
      ensures !r.Got?
    {
      if !inUse {
        return Fail(EBADF);
      }
      if |m.data| > maxMsgSize {
        return Fail(EMSGSIZE);
      }
      r := SendLoop(t, m, false, gen, abort, 0);
    }

    /** `mqueue_trysend`. */
    method TrySend(m: Msg) returns (r: Ret)
      requires Valid()
      modifies this`slots, this`msgs, this`msgCount, this`sent, this`sendq, this`recvq, this`waiters
      ensures Valid() && sendq == old(sendq)
      ensures r.Sent? <==> inUse && |m.data| <= maxMsgSize && |old(msgs)| < maxMsgs
      ensures r.Sent? ==>
                && sent == old(sent) + [m] && |msgs| == |old(msgs)| + 1
                && (exists k: nat :: InsertPoint(old(Queue()), m, k) && Queue() == InsertAt(old(Queue()), k, m))
                && (old(recvq) != [] ==> old(recvq)[0] in old(waiters))
                && waiters == WokenFirst(old(waiters), old(recvq)) && recvq == Rest(old(recvq))
      ensures !r.Sent? ==> r.Fail? && sent == old(sent) && msgs == old(msgs) && waiters == old(waiters) && recvq == old(recvq)
    {
      if !inUse {
        return Fail(EBADF);
      }
      if |m.data| > maxMsgSize {
        return Fail(EMSGSIZE);
      }
      if msgCount >= maxMsgs {
        return Fail(EAGAIN);
      }
      SendNow(m, 0);
      return Sent;
    }

    /** `mqueue_timedsend` up to its first unlock. Its handle and size checks are made before
        the lock is taken, so the queue may by now be closed, or reopened with another size
        limit: only then can a message longer than the limit be stored. */
    method TimedSendEnter(t: Tid, m: Msg, seen: Seen, abort: int) returns (r: Ret)
      requires Valid() && t !in waiters
      modifies this`slots, this`msgs, this`msgCount, this`sent, this`sendq, this`recvq, this`waiters, this`ample
      ensures Valid() && (|m.data| <= maxMsgSize || seen.maxMsgSize <= maxMsgSize ==> ample == old(ample))
      ensures r.Sent? <==> seen.inUse && |m.data| <= seen.maxMsgSize && inUse && |old(msgs)| < maxMsgs
      ensures r.Blocked? <==> seen.inUse && |m.data| <= seen.maxMsgSize && inUse && |old(msgs)| >= maxMsgs && abort >= 0
      ensures r.Sent? ==> sent == old(sent) + [m] && sendq == old(sendq) && t !in waiters
      ensures !r.Sent? ==> sent == old(sent) && msgs == old(msgs) && slots == old(slots) && recvq == old(recvq)
      ensures r.Blocked? ==> waiters == old(waiters)[t := Waiter(Send(m), true, gen, false, false)] && sendq == old(sendq) + [t]
      ensures r.Fail? ==> waiters == old(waiters) && sendq == old(sendq)
      ensures !r.Got?
    {
      if !seen.inUse {
        return Fail(EBADF);
      }
      if |m.data| > seen.maxMsgSize {
        return Fail(EMSGSIZE);
      }
      ample := ample && |m.data| <= maxMsgSize;
      r := SendLoop(t, m, true, gen, abort, 0);
    }

    /** `mqueue_receive` up to its first unlock; the handle check sees the same queue. */
    method ReceiveEnter(t: Tid, bufSize: nat, abort: int) returns (r: Ret)
      requires Valid() && t !in waiters
      modifies this`slots, this`msgs, this`msgCount, this`received, this`refused, this`sendq, this`recvq, this`waiters,
               this`ample
      ensures Valid() && (bufSize >= maxMsgSize ==> ample == old(ample))
      ensures r.Got? <==> inUse && old(msgs) != [] && |old(Queue())[0].data| <= bufSize
      ensures r.Got? ==> r.msg == old(Queue())[0] && Queue() == old(Queue())[1..] && received == old(received) + [r.msg]
      ensures !r.Got? ==> received == old(received) && msgs == old(msgs) && slots == old(slots) && sendq == old(sendq)
      ensures r.Blocked? <==> inUse && old(msgs) == [] && abort >= 0
      ensures r.Blocked? ==> waiters == old(waiters)[t := Waiter(Recv(bufSize), false, gen, false, false)]
                             && recvq == old(recvq) + [t]
      ensures r.Fail? ==> waiters == old(waiters) && recvq == old(recvq)
      ensures !r.Sent?
    {
      if !inUse {
        return Fail(EBADF);
      }
      ample := ample && bufSize >= maxMsgSize;
      r := ReceiveLoop(t, bufSize, false, gen, abort, 0);
    }

    /** `mqueue_tryreceive`. */
    method TryReceive(bufSize: nat) returns (r: Ret)
      requires Valid()
      modifies this`slots, this`msgs, this`msgCount, this`received, this`refused, this`sendq, this`recvq, this`waiters,
               this`ample
      ensures Valid() && recvq == old(recvq) && (bufSize >= maxMsgSize ==> ample == old(ample))
      ensures r.Got? <==> inUse && old(msgs) != [] && |old(Queue())[0].data| <= bufSize
      ensures r.Got? ==> r.msg == old(Queue())[0] && Queue() == old(Queue())[1..] && received == old(received) + [r.msg]
      ensures !r.Got? ==> r.Fail? && received == old(received) && msgs == old(msgs) && waiters == old(waiters)
    {
      if !inUse {
        return Fail(EBADF);
      }
      if msgs == [] {
        return Fail(EAGAIN);
      }
      ample := ample && bufSize >= maxMsgSize;
      r := DoReceive(bufSize, 0);
    }

    /** `mqueue_timedreceive` up to its first unlock, after a handle check made before the
        lock was taken. */
    method TimedReceiveEnter(t: Tid, bufSize: nat, seenOpen: bool, abort: int) returns (r: Ret)
      requires Valid() && t !in waiters
      modifies this`slots, this`msgs, this`msgCount, this`received, this`refused, this`sendq, this`recvq, this`waiters,
               this`ample
      ensures Valid() && (bufSize >= maxMsgSize ==> ample == old(ample))
      ensures r.Got? <==> seenOpen && inUse && old(msgs) != [] && |old(Queue())[0].data| <= bufSize
      ensures r.Blocked? <==> seenOpen && inUse && old(msgs) == [] && abort >= 0
      ensures r.Got? ==> r.msg == old(Queue())[0] && Queue() == old(Queue())[1..] && received == old(received) + [r.msg]
      ensures !r.Got? ==> received == old(received) && msgs == old(msgs) && slots == old(slots) && sendq == old(sendq)
      ensures r.Blocked? ==> waiters == old(waiters)[t := Waiter(Recv(bufSize), true, gen, false, false)]
                             && recvq == old(recvq) + [t]
      ensures r.Fail? ==> waiters == old(waiters) && recvq == old(recvq)
      ensures !r.Sent?
    {
      if !seenOpen {
        return Fail(EBADF);
      }
      ample := ample && bufSize >= maxMsgSize;
      r := ReceiveLoop(t, bufSize, true, gen, abort, 0);
    }

    /** A blocked thread takes the lock again: after a wake-up, after its timeout, or
        spuriously. A timed call whose queue was closed, or closed and reopened, since
        it blocked neither enqueues nor dequeues. */
    method Resume(t: Tid, abort: int) returns (r: Ret)
      requires Valid() && t in waiters
      modifies this`slots, this`msgs, this`msgCount, this`sent, this`received, this`refused,
               this`sendq, this`recvq, this`waiters
      ensures Valid()
      ensures var w := old(waiters[t]);
              && (r.Sent? <==> w.op.Send? && Retries(w) && inUse && w.gen == gen && |old(msgs)| < maxMsgs)
              && (r.Got? <==> w.op.Recv? && Retries(w) && inUse && w.gen == gen && old(msgs) != []
                              && |old(Queue())[0].data| <= w.op.bufSize)
              && (r.Blocked? <==> Sleeps(w, abort)
                                  || (Retries(w) && inUse && w.gen == gen && abort >= 0
                                      && if w.op.Send? then |old(msgs)| >= maxMsgs else old(msgs) == []))
              && (w.gen != gen || !inUse ==> r.Fail?)
              && (w.timedOut ==> r == Fail(ETIMEDOUT))
              && (r.Sent? ==> sent == old(sent) + [w.op.msg])
              && (r.Got? ==> r.msg == old(Queue())[0] && Queue() == old(Queue())[1..] && received == old(received) + [r.msg])
              && (r.Blocked? ==> waiters == old(waiters)[t := w.(woken := false)])
              && (Sleeps(w, abort) ==> sendq == old(sendq) && recvq == old(recvq))
              && (r.Blocked? && Retries(w) ==>
                    && sendq == Without(old(sendq), t) + (if w.op.Send? then [t] else [])
                    && recvq == Without(old(recvq), t) + (if w.op.Recv? then [t] else []))
              && (w.op.Recv? && Retries(w) && w.gen == gen && inUse && old(msgs) != [] && r.Fail? ==> r.err == EMSGSIZE)
      ensures !r.Sent? ==> sent == old(sent)
      ensures !r.Got? ==> received == old(received)
      ensures r.Blocked? || r.Fail? ==> msgs == old(msgs) && slots == old(slots)
      ensures r.Fail? ==> waiters == old(waiters) - {t}
                          && sendq == Without(old(sendq), t) && recvq == Without(old(recvq), t)
    {
      var w := waiters[t];
      WaiterOf(t);
      if w.timed && !w.woken && !w.timedOut && abort >= 0 {
        return Blocked;
      }
      if w.timed && !w.woken {
        ghost var sendCredit, recvCredit;
        w, sendCredit, recvCredit := Unpark(t);
        return Fail(if w.timedOut then ETIMEDOUT else abort);
      }
      if w.op.Send? {
        r := RetrySend(t, abort);
      } else {
        r := RetryReceive(t, abort);
      }
    }

    /** A resumed sender goes round its wait loop again. */
    method RetrySend(t: Tid, abort: int) returns (r: Ret)
      requires Valid() && t in waiters && waiters[t].op.Send? && Retries(waiters[t])
      modifies this`slots, this`msgs, this`msgCount, this`sent, this`sendq, this`recvq, this`waiters
      ensures Valid() && !r.Got?
      ensures var w := old(waiters[t]);
              && (r.Sent? <==> inUse && w.gen == gen && |old(msgs)| < maxMsgs)
              && (r.Blocked? <==> inUse && w.gen == gen && |old(msgs)| >= maxMsgs && abort >= 0)
              && (r.Sent? ==> sent == old(sent) + [w.op.msg])
              && (r.Blocked? ==> waiters == old(waiters)[t := w.(woken := false)] && sendq == Without(old(sendq), t) + [t])
      ensures !r.Sent? ==> sent == old(sent) && msgs == old(msgs) && slots == old(slots) && recvq == Without(old(recvq), t)
      ensures r.Fail? ==> waiters == old(waiters) - {t} && sendq == Without(old(sendq), t)
    {
      WaiterOf(t);
      var w, sendCredit, recvCredit := Unpark(t);
      r := SendLoop(t, w.op.msg, w.timed, w.gen, abort, sendCredit);
    }

    /** A resumed receiver goes round its wait loop again. */
    method RetryReceive(t: Tid, abort: int) returns (r: Ret)
      requires Valid() && t in waiters && waiters[t].op.Recv? && Retries(waiters[t])
      modifies this`slots, this`msgs, this`msgCount, this`received, this`refused, this`sendq, this`recvq, this`waiters
      ensures Valid() && !r.Sent?
      ensures var w := old(waiters[t]);
              && (r.Got? <==> inUse && w.gen == gen && old(msgs) != [] && |old(Queue())[0].data| <= w.op.bufSize)
              && (r.Blocked? <==> inUse && w.gen == gen && old(msgs) == [] && abort >= 0)
              && (r.Got? ==> r.msg == old(Queue())[0] && Queue() == old(Queue())[1..] && received == old(received) + [r.msg])
              && (r.Blocked? ==> waiters == old(waiters)[t := w.(woken := false)] && recvq == Without(old(recvq), t) + [t])
              && (w.gen == gen && inUse && old(msgs) != [] && r.Fail? ==> r.err == EMSGSIZE)
      ensures !r.Got? ==> received == old(received) && msgs == old(msgs) && slots == old(slots) && sendq == Without(old(sendq), t)
      ensures r.Fail? ==> waiters == old(waiters) - {t} && recvq == Without(old(recvq), t)
    {
      WaiterOf(t);
      var w, sendCredit, recvCredit := Unpark(t);
      r := ReceiveLoop(t, w.op.bufSize, w.timed, w.gen, abort, recvCredit);
    }

    /** `mq_send_timeout_fn` and `mq_timeout_fn`: a waiter nobody has woken gives up. */
    method Timeout(t: Tid)
      requires Valid() && t in waiters && waiters[t].timed
      modifies this`sendq, this`recvq, this`waiters
      ensures Valid()
      ensures waiters == if old(waiters[t].woken) then old(waiters)
                         else old(waiters)[t := old(waiters[t]).(timedOut := true)]
      ensures t !in sendq && t !in recvq
    {
      WaiterOf(t);
      if (t in sendq || t in recvq) && !waiters[t].woken {
        GiveUp(t);
      }
    }

    /** What holds of one waiter. */
    lemma WaiterOf(t: Tid)
      requires WaitOk()
      ensures WaiterOk(waiters, sendq, recvq, gen, inUse, t)
      ensures t in sendq ==> ListedOk(waiters, gen, inUse, false, t)
      ensures t in recvq ==> ListedOk(waiters, gen, inUse, true, t)
    {
    }

    method GiveUp(t: Tid)
      requires WaitOk() && Handed(0, 0) && AmpleOk() && t in waiters && waiters[t].timed && !waiters[t].woken
      modifies this`sendq, this`recvq, this`waiters
      ensures WaitOk() && Handed(0, 0) && AmpleOk()
      ensures waiters == old(waiters)[t := old(waiters[t]).(timedOut := true)]
      ensures sendq == Without(old(sendq), t) && recvq == Without(old(recvq), t)
    {
      GiveUpKeeps(waiters, sendq, recvq, t, gen, inUse);
      if ample { StillRoomy(waiters, waiters[t := waiters[t].(timedOut := true)], gen, maxMsgSize); }
      sendq := Without(sendq, t);
      recvq := Without(recvq, t);
      waiters := waiters[t := waiters[t].(timedOut := true)];
    }

    /** The drain loops of `mqueue_destroy_locked`. */
    method WakeAll()
      requires WaitOk()
      modifies this`sendq, this`recvq, this`waiters
      ensures WaitOk() && sendq == [] && recvq == [] && waiters.Keys == old(waiters.Keys)
      ensures forall t :: t in waiters ==> waiters[t] == old(waiters)[t].(woken := waiters[t].woken)
    {
      while recvq != []
        invariant WaitOk() && waiters.Keys == old(waiters.Keys)
        invariant forall t :: t in waiters ==> waiters[t] == old(waiters)[t].(woken := waiters[t].woken)
        decreases |recvq|
      {
        WakeOne(true);
      }
      while sendq != []
        invariant WaitOk() && recvq == [] && waiters.Keys == old(waiters.Keys)
        invariant forall t :: t in waiters ==> waiters[t] == old(waiters)[t].(woken := waiters[t].woken)
        decreases |sendq|
      {
        WakeOne(false);
      }
    }

    /** `mqueue_reset_storage_locked`. */
    method ResetStorage()
      requires StorageOk()
      modifies this`msgs, this`msgCount, this`slots, this`sent, this`received
      ensures StorageOk() && msgs == [] && forall s :: 0 <= s < |slots| ==> !slots[s].inUse
    {
      msgs, msgCount := [], 0;
      slots := seq(MQ_MAX_MSGS, _ => Slot(Msg([], 0), false));
      sent, received := [], [];
      EmptyHistory();
      assert QueueOf(slots, msgs) == [];
    }

    /** `mqueue_close`, while no untimed call is blocked. Storage is reset and every
        waiter is released; nothing of the old generation stays queued. */
    method Close() returns (r: Ret)
      requires Valid() && forall t :: t in waiters ==> waiters[t].timed
      modifies this
      ensures Valid() && !inUse && gen == old(gen)
      ensures r.Fail? <==> !old(inUse)
      ensures msgs == [] && sendq == [] && recvq == [] && waiters.Keys == old(waiters.Keys)
      ensures forall s :: 0 <= s < |slots| ==> !slots[s].inUse
      ensures forall t :: t in waiters ==> waiters[t].woken || waiters[t].timedOut
    {
      if !inUse {
        AllReleased(waiters, gen, false);
        return Fail(EBADF);
      }
      ResetStorage();
      Release();
      return Sent;
    }

    /** Every waiter is released and the queue is marked free. */
    method Release()
      requires WaitOk() && inUse && msgs == [] && AmpleOk() && forall t :: t in waiters ==> waiters[t].timed
      modifies this`sendq, this`recvq, this`waiters, this`inUse
      ensures WaitOk() && AmpleOk() && !inUse && sendq == [] && recvq == [] && waiters.Keys == old(waiters.Keys)
      ensures forall t :: t in waiters ==> waiters[t].woken || waiters[t].timedOut
    {
      WakeAll();
      CloseWaiting(waiters, gen);
      AllReleased(waiters, gen, true);
      if ample { StillRoomy(old(waiters), waiters, gen, maxMsgSize); }
      inUse := false;
    }

    /** `mqueue_open` of a free queue: a new generation with nothing in it. */
    method Open(maxMsgs: nat, maxMsgSize: nat) returns (r: Ret)
      requires Valid() && !inUse
      modifies this
      ensures Valid()
      ensures r.Fail? <==> !(0 < maxMsgs <= MQ_MAX_MSGS && 0 < maxMsgSize <= MQ_MAX_MSG_SIZE)
      ensures r.Fail? ==> !inUse && gen == old(gen)
      ensures !r.Fail? ==> inUse && gen == old(gen) + 1 && msgs == [] && sent == [] && received == [] && !refused && ample
                           && this.maxMsgs == maxMsgs && this.maxMsgSize == maxMsgSize && sendq == [] && recvq == []
      ensures waiters == old(waiters)
    {
      if maxMsgs == 0 || maxMsgs > MQ_MAX_MSGS || maxMsgSize == 0 || maxMsgSize > MQ_MAX_MSG_SIZE {
        return Fail(EINVAL);
      }
      ResetLists();
      OpenWaiting(waiters, gen);
      inUse, gen, ample := true, gen + 1, true;
      this.maxMsgs, this.maxMsgSize := maxMsgs, maxMsgSize;
      return Sent;
    }

    /** The lists of a free queue, emptied. */
    method ResetLists()
      requires Valid() && !inUse
      modifies this`msgs, this`msgCount, this`sendq, this`recvq, this`sent, this`received, this`refused
      ensures Valid() && msgs == [] && sendq == [] && recvq == []
      ensures sent == [] && received == [] && !refused
    {
      msgs, msgCount, sendq, recvq := [], 0, [], [];
      sent, received, refused := [], [], false;
      EmptyHistory();
      assert Queue() == [];
    }

    /** The bound for the callers' own conditions: with ample buffers, a waiting receiver
        means that every queued message has a woken receiver coming for it. */
    lemma AmpleReceiversHanded()
      requires Valid() && ample && recvq != []
      ensures |msgs| <= |Woken(waiters, gen, true)| && !refused
    {
    }

    /** With every woken thread resumed, nobody waits for what is already there. */
    lemma QuiescentNobodyStranded()
      requires Valid() && !refused && forall t :: t in waiters ==> !waiters[t].woken
      ensures recvq != [] ==> msgs == []
      ensures sendq != [] ==> |msgs| == maxMsgs
    {
      assert Woken(waiters, gen, true) == {} && Woken(waiters, gen, false) == {};
    }
  }

  /** Ample buffers are needed: for every size limit and every shorter buffer there is a run
      after which a receiver waits, a message that it could take is queued, and no wake-up is
      on its way. Two receivers block, one message wakes the first, whose buffer is too
      short. */
  method ShortBufferStrands(maxMsgSize: nat, short: nat) returns (q: MQueue)
    requires short < maxMsgSize <= MQ_MAX_MSG_SIZE
    ensures fresh(q) && q.Valid() && q.inUse && q.maxMsgSize == maxMsgSize
    ensures q.recvq == [2] && 2 in q.waiters && q.waiters[2].op == Recv(maxMsgSize)
    ensures |q.msgs| == 1 && |q.Queue()[0].data| <= maxMsgSize
    ensures forall t :: t in q.waiters ==> !q.waiters[t].woken
  {
    q := TwoReceivers(maxMsgSize, short);
    var m := Msg(seq(maxMsgSize, _ => 0), 0);
    SendToFirst(q, m);
    var resumed := q.Resume(1, 0);
    assert Without([2], 1) == [2];
  }

  /** Receiver 1 with a buffer of `short` and receiver 2 with one of maxMsgSize both wait. */
  method TwoReceivers(maxMsgSize: nat, short: nat) returns (q: MQueue)
    requires 0 < maxMsgSize <= MQ_MAX_MSG_SIZE
    ensures fresh(q) && q.Valid() && q.inUse && q.maxMsgs == 1 && q.maxMsgSize == maxMsgSize
    ensures q.msgs == [] && q.recvq == [1, 2]
    ensures q.waiters == map[1 := Waiter(Recv(short), false, q.gen, false, false),
                             2 := Waiter(Recv(maxMsgSize), false, q.gen, false, false)]
  {
    q := new MQueue();
    var r := q.Open(1, maxMsgSize);
    r := q.ReceiveEnter(1, short, 0);
    r := q.ReceiveEnter(2, maxMsgSize, 0);
  }

  /** A message sent to an empty queue wakes the first receiver. */
  method SendToFirst(q: MQueue, m: Msg)
    requires q.Valid() && q.inUse && q.msgs == [] && q.maxMsgs > 0 && |m.data| <= q.maxMsgSize
    requires q.recvq != [] && q.recvq[0] in q.waiters
    modifies q
    ensures q.Valid() && q.inUse && q.gen == old(q.gen) && q.maxMsgSize == old(q.maxMsgSize) && |q.msgs| == 1
    ensures q.Queue() == [m] && q.recvq == old(q.recvq)[1..] && q.waiters == WokenFirst(old(q.waiters), old(q.recvq))
  {
    var r := q.TrySend(m);
    ghost var k: nat :| k <= 0 && q.Queue() == InsertAt([], k, m);
    assert q.Queue() == [m];
  }
}

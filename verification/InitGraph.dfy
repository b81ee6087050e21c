/** The dependency graph of init tasks: a task depends on every active task that
    entails a stage it requires. */
module InitGraphSpec {
  import opened Lists

  const MAX_TASKS: nat := 32
  const MAX_STAGES: nat := 8
  const STAGE_NONE: nat := 0xFF

  datatype Task = Task(req0: nat, req1: nat, ent0: nat, ent1: nat, flags: bv32)

  predicate StageOk(s: nat) {
    s < MAX_STAGES || s == STAGE_NONE
  }

  ghost predicate TasksOk(ts: seq<Task>) {
    forall i :: 0 <= i < |ts| ==>
      StageOk(ts[i].req0) && StageOk(ts[i].req1) && StageOk(ts[i].ent0) && StageOk(ts[i].ent1)
  }

  /** How often a task requires a stage, and how often it entails one. */
  function Uses(t: Task, s: nat): nat {
    if s == STAGE_NONE then 0 else (if t.req0 == s then 1 else 0) + (if t.req1 == s then 1 else 0)
  }

  function Entails(t: Task, s: nat): nat {
    if s == STAGE_NONE then 0 else (if t.ent0 == s then 1 else 0) + (if t.ent1 == s then 1 else 0)
  }

  /** The multiplicity of the edge from provider a to consumer b. */
  function Edge(a: Task, b: Task): nat {
    Uses(b, a.ent0) + Uses(b, a.ent1)
  }

  /** The same edges, counted from the consumer's side. */
  lemma EdgeFromConsumer(a: Task, b: Task)
    ensures Edge(a, b) == Entails(a, b.req0) + Entails(a, b.req1)
  {
  }

  /** One task depends on another exactly when it requires a stage the other entails. */
  lemma EdgeMeans(a: Task, b: Task)
    ensures Edge(a, b) > 0 <==> {a.ent0, a.ent1} * {b.req0, b.req1} - {STAGE_NONE} != {}
  {
    var shared := {a.ent0, a.ent1} * {b.req0, b.req1} - {STAGE_NONE};
    assert Edge(a, b) > 0 ==> a.ent0 in shared || a.ent1 in shared;
    assert shared != {} ==> exists s :: s in shared;
  }

  /** The number of (task, slot) pairs among the first k tasks that entail s. */
  function Providers(ts: seq<Task>, s: nat, k: nat): nat
    requires k <= |ts|
  {
    if k == 0 then 0 else Providers(ts, s, k - 1) + Entails(ts[k - 1], s)
  }

  /** The provider table asserts that no stage has more than MAX_TASKS providing slots. */
  ghost predicate ProvidersFit(ts: seq<Task>) {
    forall s :: 0 <= s < MAX_STAGES ==> Providers(ts, s, |ts|) <= MAX_TASKS
  }

  lemma {:induction false} ProvidersGrow(ts: seq<Task>, s: nat, j: nat, k: nat)
    requires j <= k <= |ts|
    ensures Providers(ts, s, j) <= Providers(ts, s, k)
    decreases k
  {
    if j < k { ProvidersGrow(ts, s, j, k - 1); }
  }

  /** The edges into b from those of the first k tasks that are not done. */
  function Waiting(ts: seq<Task>, done: set<nat>, b: Task, k: nat): nat
    requires k <= |ts|
  {
    if k == 0 then 0
    else Waiting(ts, done, b, k - 1) + (if k - 1 in done then 0 else Edge(ts[k - 1], b))
  }

  lemma {:induction false} NoneEntailsNothing(ts: seq<Task>, k: nat)
    requires k <= |ts|
    ensures Providers(ts, STAGE_NONE, k) == 0
  {
    if k > 0 { NoneEntailsNothing(ts, k - 1); }
  }

  /** With nothing done, what is waited for is the sum of the provider counts. */
  lemma {:induction false} WaitingAtStart(ts: seq<Task>, b: Task, k: nat)
    requires k <= |ts|
    ensures Waiting(ts, {}, b, k) == Providers(ts, b.req0, k) + Providers(ts, b.req1, k)
  {
    if k > 0 {
      WaitingAtStart(ts, b, k - 1);
      EdgeFromConsumer(ts[k - 1], b);
    }
  }

  /** Finishing a task releases exactly its own edges. */
  lemma {:induction false} WaitingAfter(ts: seq<Task>, done: set<nat>, a: nat, b: Task, k: nat)
    requires k <= |ts| && a < |ts| && a !in done
    ensures Waiting(ts, done, b, k) == Waiting(ts, done + {a}, b, k) + (if a < k then Edge(ts[a], b) else 0)
  {
    if k > 0 { WaitingAfter(ts, done, a, b, k - 1); }
  }

  /** Something is waited for exactly when some provider is not done. */
  lemma {:induction false} WaitingWitness(ts: seq<Task>, done: set<nat>, b: Task, k: nat) returns (a: nat)
    requires k <= |ts| && Waiting(ts, done, b, k) > 0
    ensures a < k && a !in done && Edge(ts[a], b) > 0
  {
    if k - 1 !in done && Edge(ts[k - 1], b) > 0 {
      a := k - 1;
    } else {
      a := WaitingWitness(ts, done, b, k - 1);
    }
  }

  lemma {:induction false} WaitingZero(ts: seq<Task>, done: set<nat>, b: Task, k: nat, a: nat)
    requires a < k <= |ts| && Waiting(ts, done, b, k) == 0 && a !in done
    ensures Edge(ts[a], b) == 0
  {
    if a < k - 1 { WaitingZero(ts, done, b, k - 1, a); }
  }

  ghost predicate DependsOn(ts: seq<Task>, b: nat, a: nat) {
    a < |ts| && b < |ts| && Edge(ts[a], ts[b]) > 0
  }

  /** Each task of the walk depends on the next. */
  ghost predicate Chain(ts: seq<Task>, c: seq<nat>) {
    |c| <= 1 || (DependsOn(ts, c[0], c[1]) && Chain(ts, c[1..]))
  }

  /** A closed walk: each task needs the next, and the last needs the first. */
  ghost predicate Cycle(ts: seq<Task>, c: seq<nat>) {
    c != [] && Chain(ts, c) && DependsOn(ts, c[|c| - 1], c[0])
  }

  ghost predicate Acyclic(ts: seq<Task>) {
    forall c :: !Cycle(ts, c)
  }

  /** An order in which every task comes after everything it depends on. */
  ghost predicate Respects(ts: seq<Task>, order: seq<nat>) {
    forall j: nat, a: nat :: j < |order| && DependsOn(ts, order[j], a) ==> a in order[..j]
  }

  /** Along a chain of dependencies that starts in a respected order, positions fall. */
  lemma {:induction false} ChainDescends(ts: seq<Task>, order: seq<nat>, c: seq<nat>, p: nat) returns (q: nat)
    requires Respects(ts, order) && c != [] && Chain(ts, c) && p < |order| && order[p] == c[0]
    ensures q <= p && order[q] == c[|c| - 1]
    decreases |c|
  {
    if |c| == 1 {
      q := p;
    } else {
      assert c[1] in order[..p];
      var p1 :| 0 <= p1 < p && order[p1] == c[1];
      q := ChainDescends(ts, order, c[1..], p1);
    }
  }

  /** No task that starts a cycle can be in a respected order. */
  lemma {:induction false} CycleNeverRuns(ts: seq<Task>, order: seq<nat>, c: seq<nat>, p: nat)
    requires Respects(ts, order) && Cycle(ts, c) && p < |order|
    ensures order[p] != c[0]
  {
    if order[p] == c[0] {
      var q := ChainDescends(ts, order, c, p);
      var r :| 0 <= r < q && order[r] == c[0];
      CycleNeverRuns(ts, order, c, r);
    }
  }

  lemma {:induction false} ChainSlice(ts: seq<Task>, w: seq<nat>, i: nat, j: nat)
    requires Chain(ts, w) && i <= j <= |w|
    ensures Chain(ts, w[i..j])
    decreases |w|
  {
    if i > 0 {
      ChainSlice(ts, w[1..], i - 1, j - 1);
      assert w[1..][i - 1..j - 1] == w[i..j];
    } else if j > 1 {
      ChainSlice(ts, w[1..], 0, j - 1);
      assert w[1..][0..j - 1] == w[0..j][1..];
    }
  }

  lemma {:induction false} ChainStep(ts: seq<Task>, w: seq<nat>, i: nat)
    requires Chain(ts, w) && i + 1 < |w|
    ensures DependsOn(ts, w[i], w[i + 1])
  {
    if i > 0 { ChainStep(ts, w[1..], i - 1); }
  }

  ghost predicate NeedsMember(ts: seq<Task>, stuck: set<nat>, x: nat) {
    exists a :: a in stuck && DependsOn(ts, x, a)
  }

  /** Every member depends on a member. */
  ghost predicate Stuck(ts: seq<Task>, stuck: set<nat>) {
    forall x {:trigger NeedsMember(ts, stuck, x)} :: x in stuck ==> NeedsMember(ts, stuck, x)
  }

  /** A walk of k + 1 tasks inside a stuck set. */
  lemma {:induction false} StuckWalk(ts: seq<Task>, stuck: set<nat>, b: nat, k: nat) returns (w: seq<nat>)
    requires Stuck(ts, stuck) && b in stuck
    ensures |w| == k + 1 && w[0] == b && Chain(ts, w) && forall i :: 0 <= i < |w| ==> w[i] in stuck
    decreases k
  {
    if k == 0 {
      w := [b];
    } else {
      assert NeedsMember(ts, stuck, b);
      var a :| a in stuck && DependsOn(ts, b, a);
      var rest := StuckWalk(ts, stuck, a, k - 1);
      w := [b] + rest;
      assert w[1..] == rest;
    }
  }

  /** A finite set in which everyone depends on a member contains a cycle. */
  lemma StuckHasCycle(ts: seq<Task>, stuck: set<nat>) returns (c: seq<nat>)
    requires stuck != {} && Stuck(ts, stuck)
    ensures Cycle(ts, c) && forall i :: 0 <= i < |c| ==> c[i] in stuck
  {
    var b :| b in stuck;
    var w := StuckWalk(ts, stuck, b, |stuck|);
    if NoDup(w) {
      NoDupSize(w);
      SubsetSize((set x | x in w), stuck);
    }
    var i, j :| 0 <= i < j < |w| && w[i] == w[j];
    c := w[i..j];
    ChainSlice(ts, w, i, j);
    ChainStep(ts, w, j - 1);
  }
}

/** `initgraph_run` over its static work arrays. */
module InitGraph {
  import opened Lists
  import opened InitGraphSpec

  /** The queue holds exactly the tasks whose in-degree is zero, each once. */
  ghost predicate QueueOk(n: nat, deg: seq<nat>, q: seq<nat>) {
    && n <= |deg| && NoDup(q) && (forall x :: x in q ==> x < n)
    && forall c: nat :: c < n ==> (deg[c] == 0 <==> c in q)
  }

  /** A duplicate-free queue that misses a task has room for it. */
  lemma QueueHasRoom(n: nat, q: seq<nat>, c: nat)
    requires NoDup(q) && (forall x :: x in q ==> x < n) && c < n && c !in q
    ensures |q| < n
  {
    NoDupSize(q);
    var members := set x | x in q;
    SubsetSize(members + {c}, Upto(n));
  }

  ghost function Prefix(s: seq<nat>): set<nat> {
    set x | x in s
  }

  lemma ReleaseKeepsQueue(n: nat, deg: seq<nat>, q: seq<nat>, c: nat)
    requires QueueOk(n, deg, q) && c < n && deg[c] > 0
    ensures QueueOk(n, deg[c := deg[c] - 1], if deg[c] == 1 then q + [c] else q)
  {
  }

  class Runner {
    const ts: seq<Task>
    const inDegree: array<nat>
    const queue: array<nat>
    const providers: array<nat>
    var head: nat
    var tail: nat

    ghost predicate Shape()
      reads this
    {
      && |ts| <= MAX_TASKS && TasksOk(ts)
      && inDegree.Length == MAX_TASKS && queue.Length == MAX_TASKS && providers.Length == MAX_STAGES
      && inDegree != queue && inDegree != providers && queue != providers
      && head <= tail <= |ts|
    }

    constructor (ts: seq<Task>)
      requires |ts| <= MAX_TASKS && TasksOk(ts)
      ensures Shape() && this.ts == ts && head == tail == 0 && fresh(inDegree) && fresh(queue) && fresh(providers)
    {
      this.ts := ts;
      inDegree := new nat[MAX_TASKS];
      queue := new nat[MAX_TASKS];
      providers := new nat[MAX_STAGES];
      head, tail := 0, 0;
    }

    /** The provider table: per stage, how many slots of active tasks entail it. */
    method CountProviders()
      requires Shape() && ProvidersFit(ts)
      modifies providers
      ensures forall s :: 0 <= s < MAX_STAGES ==> providers[s] == Providers(ts, s, |ts|)
    {
      for s := 0 to MAX_STAGES
        invariant forall j :: 0 <= j < s ==> providers[j] == 0
      {
        providers[s] := 0;
      }
      for a := 0 to |ts|
        invariant forall s :: 0 <= s < MAX_STAGES ==> providers[s] == Providers(ts, s, a)
      {
        ProvidersGrow(ts, ts[a].ent0, a + 1, |ts|);
        ProvidersGrow(ts, ts[a].ent1, a + 1, |ts|);
        if ts[a].ent0 != STAGE_NONE {
          assert providers[ts[a].ent0] < MAX_TASKS;
          providers[ts[a].ent0] := providers[ts[a].ent0] + 1;
        }
        if ts[a].ent1 != STAGE_NONE {
          assert providers[ts[a].ent1] < MAX_TASKS;
          providers[ts[a].ent1] := providers[ts[a].ent1] + 1;
        }
      }
    }

    method CountInDegrees()
      requires Shape() && forall s :: 0 <= s < MAX_STAGES ==> providers[s] == Providers(ts, s, |ts|)
      modifies inDegree
      ensures forall b :: 0 <= b < |ts| ==> inDegree[b] == Waiting(ts, {}, ts[b], |ts|)
    {
      for b := 0 to |ts|
        invariant forall j :: 0 <= j < b ==> inDegree[j] == Waiting(ts, {}, ts[j], |ts|)
      {
        inDegree[b] := 0;
        if ts[b].req0 != STAGE_NONE {
          inDegree[b] := inDegree[b] + providers[ts[b].req0];
        }
        if ts[b].req1 != STAGE_NONE {
          inDegree[b] := inDegree[b] + providers[ts[b].req1];
        }
        WaitingAtStart(ts, ts[b], |ts|);
        NoneEntailsNothing(ts, |ts|);
      }
    }

    method SeedQueue()
      requires Shape() && head == tail == 0
      modifies queue, this`tail
      ensures Shape() && QueueOk(|ts|, inDegree[..], queue[..tail])
    {
      for c := 0 to |ts|
        invariant Shape() && head == 0 && tail <= c
        invariant NoDup(queue[..tail])
        invariant forall x: nat :: x in queue[..tail] <==> x < c && inDegree[x] == 0
      {
        if inDegree[c] == 0 {
          ghost var before := queue[..tail];
          queue[tail] := c;
          tail := tail + 1;
          assert queue[..tail] == before + [c];
        }
      }
    }

    /** One decrement: the in-degree is positive, and the queue has room when it falls
        to zero. */
    method Release(c: nat)
      requires Shape() && c < |ts| && inDegree[c] > 0 && QueueOk(|ts|, inDegree[..], queue[..tail])
      modifies inDegree, queue, this`tail
      ensures Shape() && QueueOk(|ts|, inDegree[..], queue[..tail])
      ensures inDegree[..] == old(inDegree[..])[c := old(inDegree[c]) - 1]
      ensures old(tail) <= tail && queue[..old(tail)] == old(queue[..tail])
    {
      ReleaseKeepsQueue(|ts|, inDegree[..], queue[..tail], c);
      ghost var q := queue[..tail];
      QueueHasRoom(|ts|, q, c);
      inDegree[c] := inDegree[c] - 1;
      if inDegree[c] == 0 {
        queue[tail] := c;
        tail := tail + 1;
        assert queue[..tail] == q + [c];
      }
    }

    /** A stage entailed by the task just run: every use of it is released. */
    method Satisfy(stage: nat)
      requires Shape() && QueueOk(|ts|, inDegree[..], queue[..tail])
      requires forall c :: 0 <= c < |ts| ==> inDegree[c] >= Uses(ts[c], stage)
      modifies inDegree, queue, this`tail
      ensures Shape() && QueueOk(|ts|, inDegree[..], queue[..tail])
      ensures forall c :: 0 <= c < |ts| ==> inDegree[c] == old(inDegree[c]) - Uses(ts[c], stage)
      ensures old(tail) <= tail && queue[..old(tail)] == old(queue[..tail])
    {
      if stage == STAGE_NONE {
        return;
      }
      for c := 0 to |ts|
        invariant Shape() && QueueOk(|ts|, inDegree[..], queue[..tail])
        invariant forall j :: 0 <= j < c ==> inDegree[j] == old(inDegree[j]) - Uses(ts[j], stage)
        invariant forall j :: c <= j < |ts| ==> inDegree[j] == old(inDegree[j])
        invariant old(tail) <= tail && queue[..old(tail)] == old(queue[..tail])
      {
        ghost var before := inDegree[..];
        assert forall j :: 0 <= j < |ts| ==> inDegree[j] == before[j];
        if ts[c].req0 == stage {
          Release(c);
        }
        if ts[c].req1 == stage {
          Release(c);
        }
        assert inDegree[..] == before[c := before[c] - Uses(ts[c], stage)];
        assert forall j :: 0 <= j < |ts| ==> inDegree[j] == inDegree[..][j];
      }
    }

    method SatisfyBoth(a: nat)
      requires Shape() && a < |ts| && QueueOk(|ts|, inDegree[..], queue[..tail])
      requires forall c :: 0 <= c < |ts| ==> inDegree[c] >= Edge(ts[a], ts[c])
      modifies inDegree, queue, this`tail
      ensures Shape() && QueueOk(|ts|, inDegree[..], queue[..tail])
      ensures forall c :: 0 <= c < |ts| ==> inDegree[c] == old(inDegree[c]) - Edge(ts[a], ts[c])
      ensures old(tail) <= tail && queue[..old(tail)] == old(queue[..tail])
    {
      Satisfy(ts[a].ent0);
      Satisfy(ts[a].ent1);
    }

    /** Kahn's loop. Whatever the tasks' stages, repeated ones included: every task runs
        at most once and after all its providers, and all of them run exactly when the
        dependency graph is acyclic; otherwise a cycle lies among the tasks not run. */
    method Run() returns (order: seq<nat>)
      requires Shape() && ProvidersFit(ts) && head == tail == 0
      modifies inDegree, queue, providers, this`head, this`tail
      ensures NoDup(order) && (forall x :: x in order ==> x < |ts|) && Respects(ts, order)
      ensures |order| == |ts| <==> Acyclic(ts)
      ensures |order| < |ts| ==> exists c :: Cycle(ts, c) && forall i :: 0 <= i < |c| ==> c[i] !in order
    {
      CountProviders();
      CountInDegrees();
      SeedQueue();
      assert Prefix(queue[..0]) == {};
      assert forall c :: 0 <= c < |ts| ==> inDegree[c] == Waiting(ts, Prefix(queue[..0]), ts[c], |ts|);
      while head < tail
        invariant Shape() && QueueOk(|ts|, inDegree[..], queue[..tail])
        invariant forall c :: 0 <= c < |ts| ==> inDegree[c] == Waiting(ts, Prefix(queue[..head]), ts[c], |ts|)
        invariant Respects(ts, queue[..head])
        decreases |ts| - head
      {
        RunOne();
      }
      order := queue[..head];
      Verdict(ts, inDegree[..], order);
    }

    /** One turn: the task at the head runs, then its stages release their users. */
    method RunOne()
      requires Shape() && head < tail && QueueOk(|ts|, inDegree[..], queue[..tail])
      requires forall c :: 0 <= c < |ts| ==> inDegree[c] == Waiting(ts, Prefix(queue[..head]), ts[c], |ts|)
      requires Respects(ts, queue[..head])
      modifies inDegree, queue, this`head, this`tail
      ensures Shape() && head == old(head) + 1 && QueueOk(|ts|, inDegree[..], queue[..tail])
      ensures forall c :: 0 <= c < |ts| ==> inDegree[c] == Waiting(ts, Prefix(queue[..head]), ts[c], |ts|)
      ensures Respects(ts, queue[..head])
    {
      var a := queue[head];
      ghost var done := queue[..head];
      HeadIsNew(queue[..tail], head);
      assert a == queue[..tail][head] && done == queue[..tail][..head];
      RespectsNext(ts, inDegree[..], done, a);
      ReleasesItsEdges(ts, inDegree[..], done, a);
      head := head + 1;
      SatisfyBoth(a);
      assert queue[..head] == done + [a] by {
        assert queue[..old(tail)][..head] == queue[..head];
      }
      assert Prefix(done + [a]) == Prefix(done) + {a};
    }
  }

  lemma HeadIsNew(q: seq<nat>, h: nat)
    requires NoDup(q) && h < |q|
    ensures q[h] in q && q[h] !in q[..h]
  {
  }

  lemma ReleasesItsEdges(ts: seq<Task>, deg: seq<nat>, done: seq<nat>, a: nat)
    requires |ts| <= |deg| && a < |ts| && a !in done
    requires forall c :: 0 <= c < |ts| ==> deg[c] == Waiting(ts, Prefix(done), ts[c], |ts|)
    ensures forall c :: 0 <= c < |ts| ==> deg[c] == Waiting(ts, Prefix(done) + {a}, ts[c], |ts|) + Edge(ts[a], ts[c])
  {
    forall c | 0 <= c < |ts|
      ensures deg[c] == Waiting(ts, Prefix(done) + {a}, ts[c], |ts|) + Edge(ts[a], ts[c])
    {
      WaitingAfter(ts, Prefix(done), a, ts[c], |ts|);
    }
  }

  lemma RespectsNext(ts: seq<Task>, deg: seq<nat>, done: seq<nat>, a: nat)
    requires |ts| <= |deg| && a < |ts| && deg[a] == 0 && Respects(ts, done)
    requires deg[a] == Waiting(ts, Prefix(done), ts[a], |ts|)
    ensures Respects(ts, done + [a])
  {
    forall j: nat, b: nat | j < |done + [a]| && DependsOn(ts, (done + [a])[j], b)
      ensures b in (done + [a])[..j]
    {
      if j < |done| {
        assert (done + [a])[..j] == done[..j];
      } else {
        assert (done + [a])[..j] == done;
        if b !in Prefix(done) { WaitingZero(ts, Prefix(done), ts[a], |ts|, b); }
      }
    }
  }

  /** An order of all tasks that respects the dependencies leaves no room for a cycle. */
  lemma AllRunAcyclic(ts: seq<Task>, order: seq<nat>)
    requires Respects(ts, order) && forall x: nat :: x < |ts| ==> x in order
    ensures Acyclic(ts)
  {
    forall c
      ensures !Cycle(ts, c)
    {
      if Cycle(ts, c) {
        assert DependsOn(ts, c[|c| - 1], c[0]);
        assert c[0] in order;
        var p :| 0 <= p < |order| && order[p] == c[0];
        CycleNeverRuns(ts, order, c, p);
      }
    }
  }

  /** When the queue has run dry, the tasks left over all wait for one another. */
  lemma LeftOverStuck(ts: seq<Task>, deg: seq<nat>, order: seq<nat>)
    requires QueueOk(|ts|, deg, order)
    requires forall c :: 0 <= c < |ts| ==> deg[c] == Waiting(ts, Prefix(order), ts[c], |ts|)
    ensures Stuck(ts, Upto(|ts|) - Prefix(order))
  {
    var stuck := Upto(|ts|) - Prefix(order);
    forall x | x in stuck
      ensures NeedsMember(ts, stuck, x)
    {
      var a := WaitingWitness(ts, Prefix(order), ts[x], |ts|);
      assert a in stuck && DependsOn(ts, x, a);
    }
  }

  lemma Verdict(ts: seq<Task>, deg: seq<nat>, order: seq<nat>)
    requires QueueOk(|ts|, deg, order) && Respects(ts, order)
    requires forall c :: 0 <= c < |ts| ==> deg[c] == Waiting(ts, Prefix(order), ts[c], |ts|)
    ensures |order| == |ts| <==> Acyclic(ts)
    ensures |order| < |ts| ==> exists c :: Cycle(ts, c) && forall i :: 0 <= i < |c| ==> c[i] !in order
  {
    NoDupSize(order);
    SubsetSize(Prefix(order), Upto(|ts|));
    if |order| == |ts| {
      SameSizeSubset(Prefix(order), Upto(|ts|));
      forall x: nat | x < |ts|
        ensures x in order
      {
        assert x in Upto(|ts|);
      }
      AllRunAcyclic(ts, order);
    } else {
      LeftOverStuck(ts, deg, order);
      var c := StuckHasCycle(ts, Upto(|ts|) - Prefix(order));
      assert forall i :: 0 <= i < |c| ==> c[i] !in order;
    }
  }

  predicate Matches(t: Task, flag: bv32) {
    t.flags & flag != 0
  }

  /** The tasks whose flags meet the lifecycle flag, in table order. */
  function Selected(tasks: seq<Task>, flag: bv32, k: nat): (r: seq<nat>)
    requires k <= |tasks|
    ensures NoDup(r) && |r| <= k && (forall j :: 0 <= j < |r| ==> r[j] < k)
    ensures forall i: nat :: i in r <==> i < k && Matches(tasks[i], flag)
  {
    if k == 0 then []
    else if Matches(tasks[k - 1], flag) then Selected(tasks, flag, k - 1) + [k - 1]
    else Selected(tasks, flag, k - 1)
  }

  ghost predicate Rising(s: seq<nat>) {
    forall i, j :: 0 <= i < j < |s| ==> s[i] < s[j]
  }

  method Filter(tasks: seq<Task>, flag: bv32) returns (active: seq<nat>)
    ensures active == Selected(tasks, flag, |tasks|) && Rising(active)
    ensures forall i: nat :: i in active <==> i < |tasks| && tasks[i].flags & flag != 0
  {
    active := [];
    for i := 0 to |tasks|
      invariant active == Selected(tasks, flag, i) && Rising(active)
    {
      if Matches(tasks[i], flag) {
        active := active + [i];
      }
    }
  }

  function ActiveTasks(tasks: seq<Task>, active: seq<nat>): (ts: seq<Task>)
    requires forall i :: 0 <= i < |active| ==> active[i] < |tasks|
    ensures |ts| == |active| && forall i :: 0 <= i < |ts| ==> ts[i] == tasks[active[i]]
  {
    seq(|active|, i requires 0 <= i < |active| => tasks[active[i]])
  }

  /** The lifecycle filter, then the run: the order indexes the active tasks. */
  method InitGraphRun(tasks: seq<Task>, flag: bv32) returns (active: seq<nat>, order: seq<nat>)
    requires |tasks| <= MAX_TASKS && TasksOk(tasks) && flag != 0
    requires ProvidersFit(ActiveTasks(tasks, Selected(tasks, flag, |tasks|)))
    ensures active == Selected(tasks, flag, |tasks|)
    ensures var ts := ActiveTasks(tasks, active);
            && NoDup(order) && (forall x :: x in order ==> x < |ts|) && Respects(ts, order)
            && (|order| == |ts| <==> Acyclic(ts))
            && (|order| < |ts| ==> exists c :: Cycle(ts, c) && forall i :: 0 <= i < |c| ==> c[i] !in order)
  {
    active := Filter(tasks, flag);
    var runner := new Runner(ActiveTasks(tasks, active));
    order := runner.Run();
  }
}

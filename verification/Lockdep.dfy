/** Lock levels held by one CPU, as a 16-bit mask: a word is its sixteen bits, bit 0 first. */
module LockMask {

  const LOCK_LEVEL_NONE: nat := 255
  const LEVELS: nat := 16

  type Word = w: seq<bool> | |w| == LEVELS
    witness [false, false, false, false, false, false, false, false, false, false, false, false, false, false, false, false]

  const ZERO: Word :=
    [false, false, false, false, false, false, false, false, false, false, false, false, false, false, false, false]
  const ONES: Word :=
    [true, true, true, true, true, true, true, true, true, true, true, true, true, true, true, true]

  function And(a: Word, b: Word): Word { seq(LEVELS, i requires 0 <= i < LEVELS => a[i] && b[i]) }

  function Or(a: Word, b: Word): Word { seq(LEVELS, i requires 0 <= i < LEVELS => a[i] || b[i]) }

  function Not(a: Word): Word { seq(LEVELS, i requires 0 <= i < LEVELS => !a[i]) }

  /** a << k, losing the bits beyond the word. */
  function Shl(a: Word, k: nat): Word { seq(LEVELS, i requires 0 <= i < LEVELS => i >= k && a[i - k]) }

  /** 1 << k. */
  function One(k: nat): Word { Shl(ZERO[0 := true], k) }

  predicate Has(m: Word, k: nat)
    requires k < LEVELS
  {
    And(m, One(k)) != ZERO
  }

  lemma HasBit(m: Word, k: nat)
    requires k < LEVELS
    ensures Has(m, k) <==> m[k]
  {
    var a := And(m, One(k));
    assert a[k] == m[k];
    assert !m[k] ==> a == ZERO;
  }

  /** The bits at `level` and above. */
  function ViolationMask(level: nat): Word { Shl(ONES, level) }

  /** A passing acquire check means that no level at or above is held. */
  lemma CheckMeans(m: Word, level: nat, k: nat)
    requires level <= k < LEVELS && And(m, ViolationMask(level)) == ZERO
    ensures !Has(m, k)
  {
    assert And(m, ViolationMask(level))[k] == m[k];
    HasBit(m, k);
  }

  /** A failing check points at a held level. */
  lemma FailedCheckMeans(m: Word, level: nat)
    requires level < LEVELS && And(m, ViolationMask(level)) != ZERO
    ensures exists k :: level <= k < LEVELS && Has(m, k)
  {
    var a := And(m, ViolationMask(level));
    var k :| 0 <= k < LEVELS && a[k] != ZERO[k];
    HasBit(m, k);
  }

  /** The acquire check passes: no level at or above is held. */
  ghost predicate Passes(m: Word, level: nat) {
    forall k :: level <= k < LEVELS ==> !Has(m, k)
  }

  function WithLevel(m: Word, level: nat): Word { Or(m, One(level)) }

  function WithoutLevel(m: Word, level: nat): Word { And(m, Not(One(level))) }

  lemma UpdateBits(m: Word, level: nat, k: nat)
    requires level < LEVELS && k < LEVELS
    ensures Has(WithLevel(m, level), k) <==> k == level || Has(m, k)
    ensures Has(WithoutLevel(m, level), k) <==> k != level && Has(m, k)
  {
    HasBit(m, k);
    HasBit(WithLevel(m, level), k);
    HasBit(WithoutLevel(m, level), k);
    assert One(level)[k] == (k == level);
  }
}

/** `lockdep_acquire` and `lockdep_release` on one CPU's mask. */
module Lockdep {
  import opened LockMask

  class Pcpu {
    var heldLocks: Word

    constructor ()
      ensures heldLocks == ZERO
    {
      heldLocks := ZERO;
    }

    /** Returns false where the debug assertion stops the kernel. */
    method Acquire(level: nat) returns (ok: bool)
      requires level < LEVELS || level == LOCK_LEVEL_NONE
      modifies this
      ensures level == LOCK_LEVEL_NONE ==> ok && heldLocks == old(heldLocks)
      ensures level < LEVELS ==> (ok <==> Passes(old(heldLocks), level))
      ensures level < LEVELS && ok ==>
                forall k :: 0 <= k < LEVELS ==> (Has(heldLocks, k) <==> k == level || old(Has(heldLocks, k)))
      ensures !ok ==> heldLocks == old(heldLocks)
    {
      if level == LOCK_LEVEL_NONE {
        return true;
      }
      if And(heldLocks, ViolationMask(level)) != ZERO {
        FailedCheckMeans(heldLocks, level);
        return false;
      }
      forall k | 0 <= k < LEVELS
        ensures level <= k ==> !Has(heldLocks, k)
        ensures Has(WithLevel(heldLocks, level), k) <==> k == level || Has(heldLocks, k)
      {
        UpdateBits(heldLocks, level, k);
        if level <= k { CheckMeans(heldLocks, level, k); }
      }
      heldLocks := WithLevel(heldLocks, level);
      return true;
    }

    method Release(level: nat) returns (ok: bool)
      requires level < LEVELS || level == LOCK_LEVEL_NONE
      modifies this
      ensures level == LOCK_LEVEL_NONE ==> ok && heldLocks == old(heldLocks)
      ensures level < LEVELS ==> (ok <==> old(Has(heldLocks, level)))
      ensures level < LEVELS && !ok ==> heldLocks == old(heldLocks)
      ensures level < LEVELS && ok ==>
                forall k :: 0 <= k < LEVELS ==> (Has(heldLocks, k) <==> k != level && old(Has(heldLocks, k)))
    {
      if level == LOCK_LEVEL_NONE {
        return true;
      }
      if And(heldLocks, One(level)) == ZERO {
        return false;
      }
      forall k | 0 <= k < LEVELS
        ensures Has(WithoutLevel(heldLocks, level), k) <==> k != level && Has(heldLocks, k)
      {
        UpdateBits(heldLocks, level, k);
      }
      heldLocks := WithoutLevel(heldLocks, level);
      return true;
    }
  }
}

/** Any number of CPUs taking spin locks under the lockdep discipline. */
module LockMachine {
  import opened LockMask
  import opened Options

  datatype Lock = Lock(id: nat, level: nat)

  /** `leaving` holds the locks already unlocked whose level is not yet released. */
  datatype Cpu = Cpu(mask: Word, held: set<Lock>, waiting: Option<Lock>, leaving: set<Lock>)

  type Sys = map<nat, Cpu>

  ghost predicate Free(s: Sys, l: Lock) {
    forall c :: c in s ==> l !in s[c].held
  }

  /** The check passes and the CPU starts to spin on the lock. */
  ghost predicate Request(s: Sys, s': Sys, c: nat, l: Lock) {
    && c in s && s[c].waiting.None? && l.level < LEVELS
    && And(s[c].mask, ViolationMask(l.level)) == ZERO
    && s' == s[c := s[c].(mask := WithLevel(s[c].mask, l.level), waiting := Some(l))]
  }

  ghost predicate Grant(s: Sys, s': Sys, c: nat, l: Lock) {
    && c in s && s[c].waiting == Some(l) && Free(s, l)
    && s' == s[c := s[c].(held := s[c].held + {l}, waiting := None)]
  }

  ghost predicate Unlock(s: Sys, s': Sys, c: nat, l: Lock) {
    && c in s && s[c].waiting.None? && l in s[c].held
    && s' == s[c := s[c].(held := s[c].held - {l}, leaving := s[c].leaving + {l})]
  }

  ghost predicate Release(s: Sys, s': Sys, c: nat, l: Lock) {
    && c in s && s[c].waiting.None? && l in s[c].leaving && l.level < LEVELS
    && s' == s[c := s[c].(mask := WithoutLevel(s[c].mask, l.level), leaving := s[c].leaving - {l})]
  }

  ghost predicate StepBy(s: Sys, s': Sys, c: nat, l: Lock) {
    Request(s, s', c, l) || Grant(s, s', c, l) || Unlock(s, s', c, l) || Release(s, s', c, l)
  }

  ghost predicate Next(s: Sys, s': Sys) {
    exists c, l :: StepBy(s, s', c, l)
  }

  ghost predicate Init(s: Sys) {
    forall c :: c in s ==> s[c] == Cpu(ZERO, {}, None, {})
  }

  ghost predicate Run(run: seq<Sys>) {
    run != [] && Init(run[0]) && forall i :: 0 <= i < |run| - 1 ==> Next(run[i], run[i + 1])
  }

  /** The locks a CPU holds, waits for, or has just unlocked. */
  ghost function Tracked(c: Cpu): set<Lock> {
    c.held + c.leaving + (if c.waiting.Some? then {c.waiting.value} else {})
  }

  /** The mask is exactly the levels tracked, one lock per level, and the lock waited
      for is above all others. */
  ghost predicate CpuOk(c: Cpu) {
    && (forall l :: l in Tracked(c) ==> l.level < LEVELS)
    && (forall k :: 0 <= k < LEVELS ==> (Has(c.mask, k) <==> exists l :: l in Tracked(c) && l.level == k))
    && (forall l, m :: l in Tracked(c) && m in Tracked(c) && l.level == m.level ==> l == m)
    && (c.waiting.Some? ==> forall l :: l in c.held + c.leaving ==> l.level < c.waiting.value.level)
    && c.held !! c.leaving
  }

  ghost predicate AllOk(s: Sys) {
    forall c {:trigger CpuOk(s[c])} :: c in s ==> CpuOk(s[c])
  }

  /** No lock has two holders. */
  ghost predicate Exclusive(s: Sys) {
    forall c, d, l :: c in s && d in s && l in s[c].held && l in s[d].held ==> c == d
  }

  ghost predicate Inv(s: Sys) {
    AllOk(s) && Exclusive(s)
  }

  lemma StepKeepsCpuOk(s: Sys, s': Sys, c: nat, l: Lock)
    requires AllOk(s) && StepBy(s, s', c, l)
    ensures CpuOk(s'[c])
  {
    var a, b := s[c], s'[c];
    assert CpuOk(a);
    if Request(s, s', c, l) {
      RequestKeeps(a, l);
    } else if Grant(s, s', c, l) || Unlock(s, s', c, l) {
      assert Tracked(b) == Tracked(a);
    } else {
      ReleaseKeeps(a, l);
    }
  }

  lemma RequestKeeps(a: Cpu, l: Lock)
    requires CpuOk(a) && a.waiting.None? && l.level < LEVELS && And(a.mask, ViolationMask(l.level)) == ZERO
    ensures CpuOk(a.(mask := WithLevel(a.mask, l.level), waiting := Some(l)))
  {
    var b := a.(mask := WithLevel(a.mask, l.level), waiting := Some(l));
    assert Tracked(b) == Tracked(a) + {l};
    forall m | m in Tracked(a)
      ensures m.level < l.level
    {
      assert Has(a.mask, m.level);
      if l.level <= m.level { CheckMeans(a.mask, l.level, m.level); }
    }
    forall k | 0 <= k < LEVELS
      ensures Has(b.mask, k) <==> exists m :: m in Tracked(b) && m.level == k
    {
      UpdateBits(a.mask, l.level, k);
      assert l in Tracked(b);
    }
  }

  lemma ReleaseKeeps(a: Cpu, l: Lock)
    requires CpuOk(a) && a.waiting.None? && l in a.leaving
    ensures CpuOk(a.(mask := WithoutLevel(a.mask, l.level), leaving := a.leaving - {l}))
  {
    var b := a.(mask := WithoutLevel(a.mask, l.level), leaving := a.leaving - {l});
    assert Tracked(b) == Tracked(a) - {l};
    forall k | 0 <= k < LEVELS
      ensures Has(b.mask, k) <==> exists m :: m in Tracked(b) && m.level == k
    {
      UpdateBits(a.mask, l.level, k);
      assert l in Tracked(a);
    }
  }

  lemma NextKeepsInv(s: Sys, s': Sys)
    requires Inv(s) && Next(s, s')
    ensures Inv(s')
  {
    var c, l :| StepBy(s, s', c, l);
    StepKeepsCpuOk(s, s', c, l);
    forall d | d in s'
      ensures CpuOk(s'[d])
    {
      assert d != c ==> CpuOk(s[d]);
    }
    StepKeepsExclusive(s, s', c, l);
  }

  lemma StepKeepsExclusive(s: Sys, s': Sys, c: nat, l: Lock)
    requires Exclusive(s) && StepBy(s, s', c, l)
    ensures Exclusive(s')
  {
    assert forall d :: d in s' && d != c ==> s'[d].held == s[d].held;
    assert s'[c].held <= s[c].held || (Free(s, l) && s'[c].held == s[c].held + {l});
  }

  lemma EmptyMask(k: nat)
    requires k < LEVELS
    ensures !Has(ZERO, k)
  {
  }

  lemma {:induction false} RunKeepsInv(run: seq<Sys>, i: nat)
    requires Run(run) && i < |run|
    ensures Inv(run[i])
    decreases i
  {
    if i == 0 {
      forall k | 0 <= k < LEVELS
        ensures !Has(ZERO, k)
      {
        EmptyMask(k);
      }
    } else {
      RunKeepsInv(run, i - 1);
      assert Next(run[i - 1], run[i - 1 + 1]);
      NextKeepsInv(run[i - 1], run[i]);
    }
  }

  /** The release assertion never fires: a lock being left still has its bit set. */
  lemma ReleaseNeverFires(run: seq<Sys>, i: nat, c: nat, l: Lock)
    requires Run(run) && i < |run| && c in run[i] && l in run[i][c].leaving
    ensures l.level < LEVELS && Has(run[i][c].mask, l.level)
  {
    RunKeepsInv(run, i);
    assert CpuOk(run[i][c]) && l in Tracked(run[i][c]);
  }

  /** c spins on a lock that d holds. */
  ghost predicate WaitsFor(s: Sys, c: nat, d: nat) {
    c in s && d in s && s[c].waiting.Some? && s[c].waiting.value in s[d].held
  }

  /** Along the wait-for graph the awaited levels strictly rise. */
  lemma WaitsRise(s: Sys, c: nat, d: nat)
    requires Inv(s) && WaitsFor(s, c, d) && s[d].waiting.Some?
    ensures s[c].waiting.value.level < s[d].waiting.value.level
  {
    assert CpuOk(s[d]);
  }

  ghost predicate WaitChain(s: Sys, p: seq<nat>) {
    |p| <= 1 || (WaitsFor(s, p[0], p[1]) && WaitChain(s, p[1..]))
  }

  lemma {:induction false} ChainRises(s: Sys, p: seq<nat>)
    requires Inv(s) && |p| >= 1 && WaitChain(s, p) && p[|p| - 1] in s && s[p[|p| - 1]].waiting.Some?
    ensures p[0] in s && s[p[0]].waiting.Some?
    ensures s[p[0]].waiting.value.level + |p| - 1 <= s[p[|p| - 1]].waiting.value.level
    decreases |p|
  {
    if |p| > 1 {
      ChainRises(s, p[1..]);
      WaitsRise(s, p[0], p[1]);
    }
  }

  /** The wait-for graph is acyclic in every state of every run. */
  lemma NoWaitCycle(run: seq<Sys>, i: nat, p: seq<nat>)
    requires Run(run) && i < |run| && |p| >= 1 && WaitChain(run[i], p)
    ensures !WaitsFor(run[i], p[|p| - 1], p[0])
  {
    RunKeepsInv(run, i);
    var s := run[i];
    if WaitsFor(s, p[|p| - 1], p[0]) {
      ChainRises(s, p);
      WaitsRise(s, p[|p| - 1], p[0]);
    }
  }

  /** One CPU's record is replaced, and no other. */
  ghost predicate Changed(s: Sys, s': Sys, c: nat, to: Cpu) {
    c in s && s' == s[c := to]
  }

  /** A request is possible exactly when the CPU does not spin and the acquire check passes
      on its mask, that is, when all its locks have lower levels. */
  lemma RequestEnabled(s: Sys, c: nat, l: Lock)
    requires Inv(s) && c in s && s[c].waiting.None? && l.level < LEVELS
    ensures Passes(s[c].mask, l.level) <==> forall m :: m in Tracked(s[c]) ==> m.level < l.level
    ensures (exists s': Sys :: StepBy(s, s', c, l) && s'[c].waiting == Some(l)) <==> Passes(s[c].mask, l.level)
  {
    var a := s[c];
    assert CpuOk(a);
    assert forall m :: m in Tracked(a) ==> Has(a.mask, m.level);
    if Passes(a.mask, l.level) {
      if And(a.mask, ViolationMask(l.level)) != ZERO { FailedCheckMeans(a.mask, l.level); }
      var s' := s[c := a.(mask := WithLevel(a.mask, l.level), waiting := Some(l))];
      assert Request(s, s', c, l);
      assert StepBy(s, s', c, l) && s'[c].waiting == Some(l);
    }
    if s': Sys :| StepBy(s, s', c, l) && s'[c].waiting == Some(l) {
      forall k | l.level <= k < LEVELS
        ensures !Has(a.mask, k)
      {
        CheckMeans(a.mask, l.level, k);
      }
    }
  }

  /** A spin on a lock that nobody holds ends with the lock held. */
  lemma SpinEnds(s: Sys, c: nat, l: Lock) returns (s': Sys)
    requires c in s && s[c].waiting == Some(l) && Free(s, l)
    ensures StepBy(s, s', c, l) && Changed(s, s', c, s[c].(held := s[c].held + {l}, waiting := None))
  {
    s' := s[c := s[c].(held := s[c].held + {l}, waiting := None)];
    assert Grant(s, s', c, l);
  }

  /** A CPU that does not spin can unlock any lock it holds. */
  lemma CanUnlock(s: Sys, c: nat, l: Lock) returns (s': Sys)
    requires c in s && s[c].waiting.None? && l in s[c].held
    ensures StepBy(s, s', c, l)
    ensures Changed(s, s', c, s[c].(held := s[c].held - {l}, leaving := s[c].leaving + {l}))
  {
    s' := s[c := s[c].(held := s[c].held - {l}, leaving := s[c].leaving + {l})];
    assert Unlock(s, s', c, l);
  }

  /** A CPU that does not spin can release the level of any lock it unlocked; its mask loses
      that level and no other. */
  lemma CanRelease(s: Sys, c: nat, l: Lock) returns (s': Sys)
    requires Inv(s) && c in s && s[c].waiting.None? && l in s[c].leaving
    ensures StepBy(s, s', c, l)
    ensures Changed(s, s', c, s[c].(mask := s'[c].mask, leaving := s[c].leaving - {l}))
    ensures forall k :: 0 <= k < LEVELS ==> (Has(s'[c].mask, k) <==> k != l.level && Has(s[c].mask, k))
  {
    assert CpuOk(s[c]) && l in Tracked(s[c]);
    s' := s[c := s[c].(mask := WithoutLevel(s[c].mask, l.level), leaving := s[c].leaving - {l})];
    assert Release(s, s', c, l);
    forall k | 0 <= k < LEVELS
      ensures Has(s'[c].mask, k) <==> k != l.level && Has(s[c].mask, k)
    {
      UpdateBits(s[c].mask, l.level, k);
    }
  }

  /** A run may go on from s through `more`. */
  ghost predicate Leads(s: Sys, more: seq<Sys>) {
    more != [] && more[0] == s && forall i :: 0 <= i < |more| - 1 ==> Next(more[i], more[i + 1])
  }

  lemma LeadsJoin(s: Sys, more: seq<Sys>, rest: seq<Sys>)
    requires Leads(s, more) && Leads(more[|more| - 1], rest)
    ensures Leads(s, more + rest[1..]) && (more + rest[1..])[|more + rest[1..]| - 1] == rest[|rest| - 1]
  {
    var all := more + rest[1..];
    forall k | 0 <= k < |all| - 1
      ensures Next(all[k], all[k + 1])
    {
      if k < |more| - 1 {
        assert Next(more[k], more[k + 1]);
      } else {
        assert all[k] == rest[k - |more| + 1] && all[k + 1] == rest[k - |more| + 2];
      }
    }
  }

  lemma {:induction false} LeadsKeepsInv(s: Sys, more: seq<Sys>, i: nat)
    requires Inv(s) && Leads(s, more) && i < |more|
    ensures Inv(more[i])
  {
    if i > 0 {
      LeadsKeepsInv(s, more, i - 1);
      assert Next(more[i - 1], more[i - 1 + 1]);
      NextKeepsInv(more[i - 1], more[i]);
    }
  }

  /** c got the lock it was waiting for, and no CPU that waits for a lock of this level or
      a lower one was touched meanwhile. */
  ghost predicate Served(s: Sys, c: nat, s': Sys)
    requires c in s && s[c].waiting.Some?
  {
    && c in s' && s'[c] == s[c].(held := s[c].held + {s[c].waiting.value}, waiting := None)
    && forall d :: d in s && d != c && s[d].waiting.Some? && s[d].waiting.value.level <= s[c].waiting.value.level ==>
         d in s' && s'[d] == s[d]
  }

  /** The holder of the lock waited for lets it go, and the waiter gets it. */
  lemma HandOver(s: Sys, c: nat, e: nat) returns (more: seq<Sys>)
    requires Inv(s) && WaitsFor(s, c, e) && s[e].waiting.None?
    ensures Leads(s, more) && Served(s, c, more[|more| - 1])
  {
    var l := s[c].waiting.value;
    var s1 := CanUnlock(s, e, l);
    var s2 := SpinEnds(s1, c, l);
    assert Next(s, s1) && Next(s1, s2);
    more := [s, s1, s2];
  }

  /** The wait chain above c is served first, from its end down. */
  lemma {:induction false} Serve(s: Sys, c: nat) returns (more: seq<Sys>)
    requires Inv(s) && c in s && s[c].waiting.Some?
    ensures Leads(s, more) && Served(s, c, more[|more| - 1])
    decreases LEVELS - s[c].waiting.value.level
  {
    var l := s[c].waiting.value;
    if Free(s, l) {
      var s' := SpinEnds(s, c, l);
      assert Next(s, s');
      more := [s, s'];
    } else {
      var e :| e in s && l in s[e].held;
      if s[e].waiting.None? {
        more := HandOver(s, c, e);
      } else {
        WaitsRise(s, c, e);
        assert CpuOk(s[e]) && s[e].waiting.value in Tracked(s[e]);
        var first := Serve(s, e);
        more := ServeNext(s, c, e, first);
      }
    }
  }

  /** Once the holder has been served, it hands over. */
  lemma ServeNext(s: Sys, c: nat, e: nat, first: seq<Sys>) returns (more: seq<Sys>)
    requires Inv(s) && WaitsFor(s, c, e) && s[e].waiting.Some? && s[c].waiting.value.level < s[e].waiting.value.level
    requires Leads(s, first) && Served(s, e, first[|first| - 1])
    ensures Leads(s, more) && Served(s, c, more[|more| - 1])
  {
    var mid := first[|first| - 1];
    LeadsKeepsInv(s, first, |first| - 1);
    assert mid[c] == s[c] && s[c].waiting.value in mid[e].held;
    var rest := HandOver(mid, c, e);
    LeadsJoin(s, first, rest);
    more := first + rest[1..];
  }

  /** Deadlock freedom: in every state of every run, a CPU that waits can be served: some
      continuation of the run ends with it holding the lock. So there is always a step. */
  lemma DeadlockFree(run: seq<Sys>, i: nat, c: nat) returns (more: seq<Sys>)
    requires Run(run) && i < |run| && c in run[i] && run[i][c].waiting.Some?
    ensures |more| > 1 && Run(run[..i] + more) && more[0] == run[i]
    ensures c in more[|more| - 1] && run[i][c].waiting.value in more[|more| - 1][c].held && more[|more| - 1][c].waiting.None?
    ensures exists d, l :: StepBy(run[i], more[1], d, l)
  {
    RunKeepsInv(run, i);
    more := Serve(run[i], c);
    assert Next(more[0], more[0 + 1]);
    forall k | 0 <= k < |run[..i] + more| - 1
      ensures Next((run[..i] + more)[k], (run[..i] + more)[k + 1])
    {
      if k < i {
        assert Next(run[k], run[k + 1]);
      } else {
        assert Next(more[k - i], more[k - i + 1]);
      }
    }
  }

  /** The mask of every CPU is exactly the levels it holds, awaits or is leaving. */
  lemma MaskIsExact(run: seq<Sys>, i: nat, c: nat, k: nat)
    requires Run(run) && i < |run| && c in run[i] && k < LEVELS
    ensures Has(run[i][c].mask, k) <==> exists l :: l in Tracked(run[i][c]) && l.level == k
  {
    RunKeepsInv(run, i);
    assert CpuOk(run[i][c]);
  }
}

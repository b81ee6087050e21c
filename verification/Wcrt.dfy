/** Fixed-priority response-time analysis: the recurrence, its least fixed point, and
    the bounded iteration that looks for it. */
module Wcrt {
  import opened Powers

  datatype Task = Task(period: nat, runtime: nat, deadline: nat)

  /** What the command line accepts: positive parameters, runtime within the deadline. */
  predicate TaskOk(t: Task) {
    t.runtime > 0 && t.period > 0 && 0 < t.runtime <= t.deadline
  }

  ghost predicate TasksOk(ts: seq<Task>) {
    forall i :: 0 <= i < |ts| ==> TaskOk(ts[i])
  }

  /** The instants below w at which a task is released, the first being 0. */
  ghost function Releases(h: Task, w: nat): set<nat>
    requires h.period > 0
  {
    set t: nat | t < w && t % h.period == 0
  }

  /** Interference of one higher-priority task over a window of length w. */
  function Interference(h: Task, w: nat): nat
    requires h.period > 0
  {
    (w + h.period - 1) / h.period * h.runtime
  }

  ghost function Instant(h: Task, t: nat): nat
    requires h.period > 0
  {
    if t % h.period == 0 then 1 else 0
  }

  lemma ReleasesNext(h: Task, t: nat)
    requires h.period > 0
    ensures |Releases(h, t + 1)| == |Releases(h, t)| + Instant(h, t)
  {
    if t % h.period == 0 {
      assert Releases(h, t + 1) == Releases(h, t) + {t};
    } else {
      assert Releases(h, t + 1) == Releases(h, t);
    }
  }

  /** The quotient rounded up grows at exactly the multiples. */
  lemma CeilNext(t: nat, d: nat)
    requires d > 0
    ensures (t + d) / d == (t + d - 1) / d + (if t % d == 0 then 1 else 0)
  {
    var q, r := t / d, t % d;
    assert (q + 1) * d == q * d + d;
    DivModUnique(t + d, d, q + 1, r);
    if r == 0 {
      DivModUnique(t + d - 1, d, q, d - 1);
    } else {
      DivModUnique(t + d - 1, d, q + 1, r - 1);
    }
  }

  /** The rounded-up quotient is the number of releases. */
  lemma {:induction false} ReleaseCount(h: Task, w: nat)
    requires h.period > 0
    ensures |Releases(h, w)| == (w + h.period - 1) / h.period
  {
    if w == 0 {
      DivModUnique(h.period - 1, h.period, 0, h.period - 1);
    } else {
      ReleaseCount(h, w - 1);
      ReleasesNext(h, w - 1);
      CeilNext(w - 1, h.period);
    }
  }

  /** The higher-priority work released before w. */
  ghost function Released(hp: seq<Task>, w: nat): nat
    requires TasksOk(hp)
  {
    if hp == [] then 0
    else Released(hp[..|hp| - 1], w) + |Releases(hp[|hp| - 1], w)| * hp[|hp| - 1].runtime
  }

  function Demand(c: nat, hp: seq<Task>, w: nat): nat
    requires forall i :: 0 <= i < |hp| ==> hp[i].period > 0
  {
    if hp == [] then c
    else Demand(c, hp[..|hp| - 1], w) + Interference(hp[|hp| - 1], w)
  }

  lemma InterferenceMonotone(h: Task, w: nat, x: nat)
    requires h.period > 0 && w <= x
    ensures Interference(h, w) <= Interference(h, x)
  {
    DivMonotone(w + h.period - 1, x + h.period - 1, h.period);
    var p, q := (w + h.period - 1) / h.period, (x + h.period - 1) / h.period;
    assert p * h.runtime <= q * h.runtime;
  }

  /** The recurrence is monotone. */
  lemma {:induction false} DemandMonotone(c: nat, hp: seq<Task>, w: nat, x: nat)
    requires TasksOk(hp) && w <= x
    ensures c <= Demand(c, hp, w) <= Demand(c, hp, x)
  {
    if hp != [] {
      DemandMonotone(c, hp[..|hp| - 1], w, x);
      InterferenceMonotone(hp[|hp| - 1], w, x);
    }
  }

  /** What the recurrence computes is the runtime and the work released. */
  lemma {:induction false} DemandIsWork(c: nat, hp: seq<Task>, w: nat)
    requires TasksOk(hp)
    ensures Demand(c, hp, w) == c + Released(hp, w)
  {
    if hp != [] {
      DemandIsWork(c, hp[..|hp| - 1], w);
      ReleaseCount(hp[|hp| - 1], w);
    }
  }

  ghost predicate FixedPoint(c: nat, hp: seq<Task>, w: nat)
    requires TasksOk(hp)
  {
    Demand(c, hp, w) == w
  }

  ghost predicate LeastFixedPoint(c: nat, hp: seq<Task>, w: nat)
    requires TasksOk(hp)
  {
    FixedPoint(c, hp, w) && forall x: nat :: FixedPoint(c, hp, x) ==> w <= x
  }

  /** w lies below every fixed point. */
  ghost predicate BelowAll(c: nat, hp: seq<Task>, w: nat)
    requires TasksOk(hp)
  {
    forall x: nat :: FixedPoint(c, hp, x) ==> w <= x
  }

  lemma StartBelowAll(c: nat, hp: seq<Task>)
    requires TasksOk(hp)
    ensures BelowAll(c, hp, c)
  {
    forall x: nat | FixedPoint(c, hp, x)
      ensures c <= x
    {
      DemandMonotone(c, hp, 0, x);
    }
  }

  lemma StepBelowAll(c: nat, hp: seq<Task>, w: nat)
    requires TasksOk(hp) && BelowAll(c, hp, w)
    ensures BelowAll(c, hp, Demand(c, hp, w))
  {
    forall x: nat | FixedPoint(c, hp, x)
      ensures Demand(c, hp, w) <= x
    {
      DemandMonotone(c, hp, w, x);
    }
  }

  /** The inner loop. */
  method ComputeDemand(c: nat, hp: seq<Task>, w: nat) returns (d: nat)
    requires TasksOk(hp)
    ensures d == Demand(c, hp, w)
  {
    d := c;
    for i := 0 to |hp|
      invariant d == Demand(c, hp[..i], w)
    {
      assert hp[..i + 1][..i] == hp[..i];
      d := d + Interference(hp[i], w);
    }
    assert hp[..|hp|] == hp;
  }

  /** The work the higher-priority tasks release at instant t. */
  ghost function Arrivals(hp: seq<Task>, t: nat): nat
    requires TasksOk(hp)
  {
    if hp == [] then 0
    else Arrivals(hp[..|hp| - 1], t) + Instant(hp[|hp| - 1], t) * hp[|hp| - 1].runtime
  }

  lemma {:induction false} ReleasedNext(hp: seq<Task>, t: nat)
    requires TasksOk(hp)
    ensures Released(hp, t + 1) == Released(hp, t) + Arrivals(hp, t)
  {
    if hp != [] {
      var h := hp[|hp| - 1];
      ReleasedNext(hp[..|hp| - 1], t);
      ReleasesNext(h, t);
      assert |Releases(h, t + 1)| * h.runtime == |Releases(h, t)| * h.runtime + Instant(h, t) * h.runtime;
    }
  }

  lemma {:induction false} NothingReleased(hp: seq<Task>)
    requires TasksOk(hp)
    ensures Released(hp, 0) == 0
  {
    if hp != [] {
      NothingReleased(hp[..|hp| - 1]);
      assert Releases(hp[|hp| - 1], 0) == {};
    }
  }

  /** A processor: higher-priority work released and not done, and ticks given to the task. */
  datatype Load = Load(pending: nat, served: nat)

  /** The processor after t ticks when all tasks are released at 0: each tick goes to
      higher-priority work if any is pending, otherwise to the task. */
  ghost function After(hp: seq<Task>, t: nat): Load
    requires TasksOk(hp)
  {
    if t == 0 then Load(0, 0)
    else
      var s := After(hp, t - 1);
      var pending := s.pending + Arrivals(hp, t - 1);
      if pending > 0 then Load(pending - 1, s.served) else Load(0, s.served + 1)
  }

  /** A task of runtime c is done after w ticks and not before. */
  ghost predicate CompletesAt(c: nat, hp: seq<Task>, w: nat)
    requires TasksOk(hp)
  {
    c <= After(hp, w).served && forall t: nat :: t < w ==> After(hp, t).served < c
  }

  /** No tick is lost: what was served and what was done of the released work add up. */
  lemma {:induction false} TicksAddUp(hp: seq<Task>, t: nat)
    requires TasksOk(hp)
    ensures t + After(hp, t).pending == After(hp, t).served + Released(hp, t)
  {
    if t == 0 {
      NothingReleased(hp);
    } else {
      TicksAddUp(hp, t - 1);
      ReleasedNext(hp, t - 1);
    }
  }

  /** A response time is the least fixed point. */
  lemma CompletionIsLeast(c: nat, hp: seq<Task>, w: nat)
    requires c > 0 && TasksOk(hp) && CompletesAt(c, hp, w)
    ensures LeastFixedPoint(c, hp, w)
  {
    TicksAddUp(hp, w);
    assert w > 0 && After(hp, w - 1).served < c;
    DemandIsWork(c, hp, w);
    forall x: nat | FixedPoint(c, hp, x)
      ensures w <= x
    {
      DemandIsWork(c, hp, x);
      TicksAddUp(hp, x);
    }
  }

  /** By any fixed point the task is done. */
  lemma FixedPointCompletes(c: nat, hp: seq<Task>, x: nat) returns (w: nat)
    requires TasksOk(hp) && FixedPoint(c, hp, x)
    ensures w <= x && CompletesAt(c, hp, w)
  {
    DemandIsWork(c, hp, x);
    TicksAddUp(hp, x);
    w := FirstDone(c, hp, x);
  }

  lemma {:induction false} FirstDone(c: nat, hp: seq<Task>, x: nat) returns (w: nat)
    requires TasksOk(hp) && c <= After(hp, x).served
    ensures w <= x && CompletesAt(c, hp, w)
  {
    if t: nat :| t < x && c <= After(hp, t).served {
      w := FirstDone(c, hp, t);
    } else {
      w := x;
    }
  }

  /** The least fixed point of the recurrence is the tick at which the task is done. */
  lemma ResponseTime(c: nat, hp: seq<Task>, w: nat)
    requires c > 0 && TasksOk(hp)
    ensures LeastFixedPoint(c, hp, w) <==> CompletesAt(c, hp, w)
  {
    if CompletesAt(c, hp, w) {
      CompletionIsLeast(c, hp, w);
    } else if LeastFixedPoint(c, hp, w) {
      var v := FixedPointCompletes(c, hp, w);
      CompletionIsLeast(c, hp, v);
    }
  }

  /** The task, released together with all others, is done by its deadline. */
  ghost predicate Meets(task: Task, hp: seq<Task>)
    requires TasksOk(hp)
  {
    exists w: nat :: w <= task.deadline && CompletesAt(task.runtime, hp, w)
  }

  lemma MeetsMeans(task: Task, hp: seq<Task>)
    requires TaskOk(task) && TasksOk(hp)
    ensures Meets(task, hp) <==> exists x: nat :: x <= task.deadline && FixedPoint(task.runtime, hp, x)
  {
    if x: nat :| x <= task.deadline && FixedPoint(task.runtime, hp, x) {
      var w := FixedPointCompletes(task.runtime, hp, x);
    }
    if w: nat :| w <= task.deadline && CompletesAt(task.runtime, hp, w) {
      CompletionIsLeast(task.runtime, hp, w);
    }
  }

  datatype Stop = Converged | Exceeded | Capped

  /** The analysis of one task. Converged: W is the tick at which the task is done.
      Exceeded: it is not done by the deadline. So the verdict W <= D is exact unless the
      cap of 1000 rounds is hit, which takes a deadline at least 1000 above the runtime. */
  method Analyse(task: Task, hp: seq<Task>) returns (w: nat, stop: Stop)
    requires TaskOk(task) && TasksOk(hp)
    ensures BelowAll(task.runtime, hp, w) && w == Analysed(task.runtime, task.deadline, hp, task.runtime, 1000)
    ensures stop.Converged? ==> CompletesAt(task.runtime, hp, w) && LeastFixedPoint(task.runtime, hp, w) && w <= task.deadline
    ensures stop.Exceeded? ==> w > task.deadline && !Meets(task, hp)
    ensures stop.Capped? ==> task.runtime + 1000 <= w <= task.deadline
    ensures !stop.Capped? ==> (w <= task.deadline <==> Meets(task, hp))
  {
    var c, d := task.runtime, task.deadline;
    w := c;
    StartBelowAll(c, hp);
    DemandMonotone(c, hp, 0, c);
    var round := 0;
    while round < 1000
      invariant 0 <= round <= 1000
      invariant BelowAll(c, hp, w) && c + round <= w <= Demand(c, hp, w) && w <= d
      invariant Analysed(c, d, hp, c, 1000) == Analysed(c, d, hp, w, 1000 - round)
    {
      var next := ComputeDemand(c, hp, w);
      if next == w {
        ResponseTime(c, hp, w);
        return w, Converged;
      }
      StepBelowAll(c, hp, w);
      if next > d {
        MeetsMeans(task, hp);
        return next, Exceeded;
      }
      DemandMonotone(c, hp, w, next);
      w := next;
      round := round + 1;
    }
    stop := Capped;
  }

  /** What the analysis returns, as a function: at most `rounds` more rounds from w. */
  ghost function Analysed(c: nat, d: nat, hp: seq<Task>, w: nat, rounds: nat): nat
    requires TasksOk(hp)
    decreases rounds
  {
    if rounds == 0 then w
    else
      var next := Demand(c, hp, w);
      if next == w || next > d then next else Analysed(c, d, hp, next, rounds - 1)
  }

  /** The verdict drawn from the result w is right. */
  ghost predicate VerdictRight(task: Task, hp: seq<Task>, w: nat)
    requires TasksOk(hp)
  {
    w <= task.deadline <==> Meets(task, hp)
  }

  /** With fewer ticks to the deadline than rounds left, the iteration ends by itself. */
  lemma {:induction false} EnoughRounds(task: Task, hp: seq<Task>, w: nat, rounds: nat)
    requires TaskOk(task) && TasksOk(hp)
    requires BelowAll(task.runtime, hp, w) && w <= Demand(task.runtime, hp, w) && w <= task.deadline
    requires task.deadline < w + rounds
    ensures VerdictRight(task, hp, Analysed(task.runtime, task.deadline, hp, w, rounds))
    decreases rounds
  {
    var next := Demand(task.runtime, hp, w);
    StepBelowAll(task.runtime, hp, w);
    MeetsMeans(task, hp);
    if next == w {
      assert FixedPoint(task.runtime, hp, w);
    } else if next <= task.deadline {
      DemandMonotone(task.runtime, hp, w, next);
      EnoughRounds(task, hp, next, rounds - 1);
    }
  }

  /** One higher-priority task that always runs: there is no fixed point. */
  const BUSY: seq<Task> := [Task(1, 1, 1)]

  lemma BusyDemand(c: nat, w: nat)
    ensures Demand(c, BUSY, w) == c + w
  {
    assert BUSY[..0] == [];
    assert Demand(c, BUSY[..0], w) == c;
  }

  lemma {:induction false} BusyRounds(d: nat, w: nat, rounds: nat)
    requires w + rounds <= d
    ensures Analysed(1, d, BUSY, w, rounds) == w + rounds
    decreases rounds
  {
    if rounds > 0 {
      BusyDemand(1, w);
      BusyRounds(d, w + 1, rounds - 1);
    }
  }

  /** The verdict is right for every task whose deadline is `slack` beyond its runtime,
      among any higher-priority tasks. */
  ghost predicate SafeSlack(slack: nat) {
    forall task: Task, hp: seq<Task> {:trigger TaskOk(task), TasksOk(hp)} ::
      TaskOk(task) && TasksOk(hp) && task.deadline == task.runtime + slack ==>
        VerdictRight(task, hp, Analysed(task.runtime, task.deadline, hp, task.runtime, 1000))
  }

  /** The cap of 1000 rounds is harmless exactly below 1000 ticks of slack: from there on a
      task of runtime 1 below one that always runs is called schedulable. */
  lemma CapBoundIsExact(slack: nat)
    ensures SafeSlack(slack) <==> slack < 1000
  {
    if slack < 1000 {
      forall task: Task, hp: seq<Task> | TaskOk(task) && TasksOk(hp) && task.deadline == task.runtime + slack
        ensures VerdictRight(task, hp, Analysed(task.runtime, task.deadline, hp, task.runtime, 1000))
      {
        StartBelowAll(task.runtime, hp);
        DemandMonotone(task.runtime, hp, task.runtime, task.runtime);
        EnoughRounds(task, hp, task.runtime, 1000);
      }
    } else {
      var task := Task(1, 1, 1 + slack);
      assert TaskOk(task) && TasksOk(BUSY);
      BusyRounds(task.deadline, 1, 1000);
      forall x: nat
        ensures !FixedPoint(1, BUSY, x)
      {
        BusyDemand(1, x);
      }
      MeetsMeans(task, BUSY);
      assert !VerdictRight(task, BUSY, Analysed(1, task.deadline, BUSY, 1, 1000));
    }
  }

  datatype Row = Row(wcrt: nat, deadline: nat, schedulable: bool, stop: Stop)

  /** `wcrt_fixed_priority` on a list already in priority order: each task is analysed
      against all tasks before it. */
  method AnalyseAll(sorted: seq<Task>) returns (rows: seq<Row>)
    requires TasksOk(sorted)
    ensures |rows| == |sorted|
    ensures forall i :: 0 <= i < |rows| ==>
              && rows[i].deadline == sorted[i].deadline && rows[i].schedulable == (rows[i].wcrt <= sorted[i].deadline)
              && (rows[i].stop.Converged? ==> CompletesAt(sorted[i].runtime, sorted[..i], rows[i].wcrt))
              && (!rows[i].stop.Capped? ==> (rows[i].schedulable <==> Meets(sorted[i], sorted[..i])))
  {
    rows := [];
    for i := 0 to |sorted|
      invariant |rows| == i
      invariant forall j :: 0 <= j < i ==>
                  && rows[j].deadline == sorted[j].deadline && rows[j].schedulable == (rows[j].wcrt <= sorted[j].deadline)
                  && (rows[j].stop.Converged? ==> CompletesAt(sorted[j].runtime, sorted[..j], rows[j].wcrt))
                  && (!rows[j].stop.Capped? ==> (rows[j].schedulable <==> Meets(sorted[j], sorted[..j])))
    {
      var w, stop := Analyse(sorted[i], sorted[..i]);
      rows := rows + [Row(w, sorted[i].deadline, w <= sorted[i].deadline, stop)];
    }
  }
}

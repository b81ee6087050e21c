/** The sequence lock of the PMTU cache and ARP table entries, as interleaved steps.

    An entry is a list of cells, each loaded and stored atomically (address bytes,
    flags, numbers). A writer holds the table lock: it bumps the counter, stores any
    cells in any order, bumps the counter again. A reader loads the counter, the
    cells in order, and the counter again, and retries unless both loads agree. */
module Seqlock {

  const U32: nat := 0x100000000

  type Cell = nat

  /** A reader that loaded the counter as seq0 at moment `begin` and has loaded the
      cells in snap so far; or one that has returned. */
  datatype Reader =
    | Idle
    | Reading(seq0: nat, snap: seq<Cell>, begin: nat)
    | Returned(snap: seq<Cell>, begin: nat)

  /** `count` is the number of counter bumps so far; the u32 counter holds count % 2^32. */
  datatype State = State(now: nat, count: nat, writing: bool, cells: seq<Cell>, reader: Reader)

  function Seq(s: State): nat {
    s.count % U32
  }

  ghost predicate WriteBegin(s: State, s': State) {
    !s.writing && s' == s.(now := s.now + 1, count := s.count + 1, writing := true)
  }

  ghost predicate WriteCell(s: State, s': State) {
    s.writing && exists i: nat, v: Cell :: StoreOf(s, s', i, v)
  }

  ghost predicate StoreOf(s: State, s': State, i: nat, v: Cell) {
    i < |s.cells| && s' == s.(now := s.now + 1, cells := s.cells[i := v])
  }

  ghost predicate WriteEnd(s: State, s': State) {
    s.writing && s' == s.(now := s.now + 1, count := s.count + 1, writing := false)
  }

  /** The first load of the counter; an odd value sends the reader back to it. */
  ghost predicate ReadSeq0(s: State, s': State) {
    && (s.reader.Idle? || s.reader.Returned?)
    && s' == s.(now := s.now + 1, reader := if Seq(s) % 2 == 1 then Idle else Reading(Seq(s), [], s.now))
  }

  ghost predicate ReadCell(s: State, s': State) {
    && s.reader.Reading? && |s.reader.snap| < |s.cells|
    && s' == s.(now := s.now + 1,
                reader := Reading(s.reader.seq0, s.reader.snap + [s.cells[|s.reader.snap|]], s.reader.begin))
  }

  ghost predicate ReadSeq1(s: State, s': State) {
    && s.reader.Reading? && |s.reader.snap| == |s.cells|
    && s' == s.(now := s.now + 1,
                reader := if Seq(s) == s.reader.seq0 then Returned(s.reader.snap, s.reader.begin) else Idle)
  }

  ghost predicate Next(s: State, s': State) {
    || WriteBegin(s, s') || WriteCell(s, s') || WriteEnd(s, s')
    || ReadSeq0(s, s') || ReadCell(s, s') || ReadSeq1(s, s')
  }

  ghost predicate Init(s: State) {
    s.now == 0 && s.count == 0 && !s.writing && s.reader.Idle?
  }

  ghost predicate Run(run: seq<State>) {
    && run != [] && Init(run[0])
    && forall i :: 0 <= i < |run| - 1 ==> Next(run[i], run[i + 1])
  }

  /** A writer is never held up by the reader: it can begin when no write is in progress,
      and then store any cell or end. */
  lemma WriterCanGoOn(s: State, i: nat, v: Cell) returns (begun: State, stored: State, ended: State)
    ensures !s.writing ==> Next(s, begun) && begun == s.(now := s.now + 1, count := s.count + 1, writing := true)
    ensures s.writing && i < |s.cells| ==> Next(s, stored) && stored == s.(now := s.now + 1, cells := s.cells[i := v])
    ensures s.writing ==> Next(s, ended) && ended == s.(now := s.now + 1, count := s.count + 1, writing := false)
  {
    begun := s.(now := s.now + 1, count := s.count + 1, writing := true);
    stored := if i < |s.cells| then s.(now := s.now + 1, cells := s.cells[i := v]) else s;
    ended := s.(now := s.now + 1, count := s.count + 1, writing := false);
    assert i < |s.cells| ==> StoreOf(s, stored, i, v);
  }

  /** Nor is the reader held up by a writer: it can always make its next load, of whatever
      the cell holds then. */
  lemma ReaderCanGoOn(s: State) returns (s': State)
    requires s.reader.Reading? ==> |s.reader.snap| <= |s.cells|
    ensures Next(s, s') && s' == s.(now := s.now + 1, reader := s'.reader)
    ensures s.reader.Reading? && |s.reader.snap| < |s.cells| ==>
              s'.reader == Reading(s.reader.seq0, s.reader.snap + [s.cells[|s.reader.snap|]], s.reader.begin)
  {
    if !s.reader.Reading? {
      s' := s.(now := s.now + 1, reader := if Seq(s) % 2 == 1 then Idle else Reading(Seq(s), [], s.now));
    } else if |s.reader.snap| < |s.cells| {
      s' := s.(now := s.now + 1, reader := Reading(s.reader.seq0, s.reader.snap + [s.cells[|s.reader.snap|]], s.reader.begin));
    } else {
      s' := s.(now := s.now + 1, reader := if Seq(s) == s.reader.seq0 then Returned(s.reader.snap, s.reader.begin) else Idle);
    }
  }

  /** While the counter has not moved since the reader began, nothing has. */
  ghost predicate Stable(s0: State, s: State, snap: seq<Cell>) {
    && s0.count <= s.count && !s0.writing && |snap| <= |s0.cells| == |s.cells|
    && (s.count == s0.count ==> !s.writing && s.cells == s0.cells && snap == s0.cells[..|snap|])
  }

  ghost predicate Inv(run: seq<State>, i: nat)
    requires i < |run|
  {
    var s := run[i];
    && s.now == i && (s.writing <==> s.count % 2 == 1)
    && (s.reader.Reading? ==>
          && s.reader.begin < i && s.reader.seq0 == Seq(run[s.reader.begin])
          && Stable(run[s.reader.begin], s, s.reader.snap))
  }

  ghost predicate Writes(s: State, s': State) {
    WriteBegin(s, s') || WriteCell(s, s') || WriteEnd(s, s')
  }

  /** A writer's step keeps the parity of the counter and what a read in progress relies on. */
  lemma WriterKeeps(s0: State, s: State, s': State, snap: seq<Cell>)
    requires Writes(s, s') && (s.writing <==> s.count % 2 == 1)
    ensures s'.reader == s.reader && s'.now == s.now + 1 && (s'.writing <==> s'.count % 2 == 1)
    ensures Stable(s0, s, snap) ==> Stable(s0, s', snap)
  {
  }

  /** So does a reader's step, which lengthens the snapshot by a cell that is still valid. */
  lemma ReaderKeeps(s0: State, s: State, s': State)
    requires ReadCell(s, s') && Stable(s0, s, s.reader.snap)
    ensures Stable(s0, s', s'.reader.snap)
  {
  }

  lemma {:induction false} RunKeepsInv(run: seq<State>, i: nat)
    requires Run(run) && i < |run|
    ensures Inv(run, i)
    decreases i
  {
    if i > 0 {
      RunKeepsInv(run, i - 1);
      var s, s' := run[i - 1], run[i - 1 + 1];
      assert Next(s, s');
      if Writes(s, s') {
        WriterKeeps(s, s, s', []);
        if s.reader.Reading? { WriterKeeps(run[s.reader.begin], s, s', s.reader.snap); }
      } else if ReadCell(s, s') {
        ReaderKeeps(run[s.reader.begin], s, s');
      }
    }
  }

  /** Counter bumps since the read in progress at i began. */
  ghost function Bumps(run: seq<State>, i: nat): int
    requires i < |run| && run[i].reader.Reading?
  {
    var b := run[i].reader.begin;
    if b < |run| then run[i].count - run[b].count else 0
  }

  /** At step i of a run the reader makes its last counter load, having loaded all cells. */
  ghost predicate LastLoad(run: seq<State>, i: nat) {
    && Run(run) && i + 1 < |run|
    && run[i].reader.Reading? && |run[i].reader.snap| == |run[i].cells| && !run[i + 1].reader.Reading?
  }

  /** What the reader loaded is the entry's complete value at some moment k of the read. */
  ghost predicate WasValue(run: seq<State>, i: nat, k: nat)
    requires i < |run| && run[i].reader.Reading?
  {
    run[i].reader.begin <= k <= i && run[k].cells == run[i].reader.snap
  }

  /** A read returns its snapshot exactly when a multiple of 2^32 counter bumps fell
      within it. */
  lemma AcceptedExactly(run: seq<State>, i: nat)
    requires LastLoad(run, i)
    ensures Bumps(run, i) >= 0
    ensures run[i + 1].reader.Returned? <==> Bumps(run, i) % U32 == 0
    ensures run[i + 1].reader.Returned? ==> run[i + 1].reader.snap == run[i].reader.snap
  {
    RunKeepsInv(run, i);
    assert Next(run[i], run[i + 1]);
    SameResidue(run[run[i].reader.begin].count, run[i].count);
  }

  lemma SameResidue(a: nat, b: nat)
    requires a <= b
    ensures a % U32 == b % U32 <==> (b - a) % U32 == 0
  {
  }

  /** Every snapshot a read returns is the entry's complete value at one instant of that
      read, with no write in progress, for every interleaving in which fewer than 2^32
      counter bumps (2^31 writes) fall within the read. */
  lemma SnapshotIsAnInstant(run: seq<State>, i: nat)
    requires LastLoad(run, i) && run[i + 1].reader.Returned? && Bumps(run, i) < U32
    ensures var r := run[i + 1].reader;
            r.begin < i && r.snap == run[r.begin].cells && !run[r.begin].writing && r.snap == run[i].cells
  {
    RunKeepsInv(run, i);
    AcceptedExactly(run, i);
    assert Next(run[i], run[i + 1]);
  }

  /** The cells loaded one after the other, while nothing else happens. */
  lemma {:induction false} LoadRest(run: seq<State>) returns (more: seq<State>)
    requires Run(run) && run[|run| - 1].reader.Reading?
    requires var s := run[|run| - 1]; |s.reader.snap| <= |s.cells| && s.reader.snap == s.cells[..|s.reader.snap|]
    ensures Run(run + more)
    ensures var s, t := run[|run| - 1], (run + more)[|run + more| - 1];
            t == s.(now := t.now, reader := Reading(s.reader.seq0, s.cells, s.reader.begin))
    decreases |run[|run| - 1].cells| - |run[|run| - 1].reader.snap|
  {
    var s := run[|run| - 1];
    var n := |s.reader.snap|;
    if n == |s.cells| {
      more := [];
      assert run + more == run && s.cells[..n] == s.cells;
    } else {
      var t := s.(now := s.now + 1, reader := Reading(s.reader.seq0, s.reader.snap + [s.cells[n]], s.reader.begin));
      assert ReadCell(s, t);
      Extend(run, t);
      assert t.reader.snap == t.cells[..n + 1];
      var rest := LoadRest(run + [t]);
      more := [t] + rest;
      assert run + more == run + [t] + rest;
    }
  }

  /** A read that no write disturbs returns the entry: from any state of any run without a
      write in progress, the reader's own steps end with the cells as they are. */
  lemma UndisturbedReadReturns(run: seq<State>) returns (more: seq<State>)
    requires Run(run) && !run[|run| - 1].writing && !run[|run| - 1].reader.Reading?
    ensures Run(run + more) && more != []
    ensures var s, t := run[|run| - 1], more[|more| - 1];
            t.reader == Returned(s.cells, s.now) && t.cells == s.cells && t.count == s.count && !t.writing
  {
    var s := run[|run| - 1];
    RunKeepsInv(run, |run| - 1);
    var a := s.(now := s.now + 1, reader := Reading(Seq(s), [], s.now));
    assert Seq(s) % 2 == 0;
    assert ReadSeq0(s, a);
    Extend(run, a);
    var rest := LoadRest(run + [a]);
    var b := (run + [a] + rest)[|run + [a] + rest| - 1];
    var c := b.(now := b.now + 1, reader := Returned(s.cells, s.now));
    assert ReadSeq1(b, c);
    Extend(run + [a] + rest, c);
    more := [a] + rest + [c];
    assert run + more == run + [a] + rest + [c];
  }

  /** A read that starts while a write is in progress goes back to the start. */
  lemma ReadWaitsForWriter(run: seq<State>, i: nat)
    requires Run(run) && i + 1 < |run| && run[i].writing && !run[i].reader.Reading? && run[i + 1].reader != run[i].reader
    ensures run[i + 1].reader.Idle?
  {
    RunKeepsInv(run, i);
    assert Next(run[i], run[i + 1]);
    assert Seq(run[i]) % 2 == 1;
  }

  // The bound is needed: a run in which one read spans 2^31 writes.

  /** A run extended by one step. */
  lemma Extend(run: seq<State>, s: State)
    requires Run(run) && Next(run[|run| - 1], s)
    ensures Run(run + [s])
  {
    var r := run + [s];
    forall i | 0 <= i < |r| - 1
      ensures Next(r[i], r[i + 1])
    {
      if i < |run| - 1 { assert Next(run[i], run[i + 1]); }
    }
  }

  const HALF_READ: Reader := Reading(0, [0], 0)

  /** A read has begun at moment 0 on the cells 0, 0 and loaded the first of them; since
      then `writes` writes have completed, which left the cells 1, 1; the cells were never
      0, 1. */
  ghost predicate Spanned(run: seq<State>, writes: nat) {
    && Run(run) && run[|run| - 1] == State(|run| - 1, 2 * writes, false, [1, 1], HALF_READ)
    && run[0].cells == [0, 0] && run[0].count == 0
    && forall k :: 0 <= k < |run| ==> run[k].cells != [0, 1]
  }

  /** The first write, which stores both cells while the reader has loaded one. */
  lemma FirstWrite() returns (run: seq<State>)
    ensures Spanned(run, 1)
  {
    var s0 := State(0, 0, false, [0, 0], Idle);
    var s1 := State(1, 0, false, [0, 0], Reading(0, [], 0));
    var s2 := State(2, 0, false, [0, 0], HALF_READ);
    var s3 := State(3, 1, true, [0, 0], HALF_READ);
    var s4 := State(4, 1, true, [1, 0], HALF_READ);
    var s5 := State(5, 1, true, [1, 1], HALF_READ);
    var s6 := State(6, 2, false, [1, 1], HALF_READ);
    assert ReadSeq0(s0, s1);
    assert s1.reader.snap + [s1.cells[0]] == [0];
    assert ReadCell(s1, s2);
    assert WriteBegin(s2, s3);
    assert StoreOf(s3, s4, 0, 1);
    assert StoreOf(s4, s5, 1, 1);
    assert WriteEnd(s5, s6);
    run := [s0, s1, s2, s3, s4, s5, s6];
  }

  /** Any number of further writes. */
  lemma {:induction false} MoreWrites(writes: nat) returns (run: seq<State>)
    requires writes > 0
    ensures Spanned(run, writes)
  {
    if writes == 1 {
      run := FirstWrite();
    } else {
      run := MoreWrites(writes - 1);
      var s := run[|run| - 1];
      var a := s.(now := s.now + 1, count := s.count + 1, writing := true);
      var b := a.(now := a.now + 1, count := a.count + 1, writing := false);
      assert WriteBegin(s, a) && WriteEnd(a, b);
      Extend(run, a);
      Extend(run + [a], b);
      run := run + [a] + [b];
    }
  }

  /** For every number of writes there is a run whose read spans them and ends with a
      snapshot that was never the entry's value; it is returned if and only if the counter
      has come round to where it was. */
  lemma TornRead(writes: nat) returns (run: seq<State>, i: nat)
    requires writes > 0
    ensures LastLoad(run, i) && Bumps(run, i) == 2 * writes
    ensures forall k :: !WasValue(run, i, k)
    ensures run[i + 1].reader.Returned? <==> 2 * writes % U32 == 0
  {
    var before := MoreWrites(writes);
    var s := before[|before| - 1];
    var a := s.(now := s.now + 1, reader := Reading(0, [0, 1], 0));
    var b := a.(now := a.now + 1, reader := if Seq(a) == 0 then Returned([0, 1], 0) else Idle);
    assert s.reader.snap + [s.cells[1]] == [0, 1];
    assert ReadCell(s, a);
    assert ReadSeq1(a, b);
    Extend(before, a);
    Extend(before + [a], b);
    run, i := before + [a] + [b], |before|;
    AcceptedExactly(run, i);
  }

  /** Whatever is returned within b counter bumps is a value the entry had. */
  ghost predicate SafeWithin(b: nat) {
    forall run: seq<State>, i: nat {:trigger LastLoad(run, i)} ::
      LastLoad(run, i) && run[i + 1].reader.Returned? && Bumps(run, i) <= b ==> exists k :: WasValue(run, i, k)
  }

  /** The exact bound: reads are right for all writers up to b counter bumps if and only if
      b is below 2^32. */
  lemma WrapBoundIsExact(b: nat)
    ensures SafeWithin(b) <==> b < U32
  {
    if b < U32 {
      forall run: seq<State>, i: nat | LastLoad(run, i) && run[i + 1].reader.Returned? && Bumps(run, i) <= b
        ensures exists k :: WasValue(run, i, k)
      {
        SnapshotIsAnInstant(run, i);
        AcceptedExactly(run, i);
        assert WasValue(run, i, i);
      }
    } else {
      var run, i := TornRead(0x80000000);
      assert LastLoad(run, i);
    }
  }
}

/** The path-MTU cache. Times are u64 milliseconds; ages wrap like the source's. */
module PmtuCache {
  import opened Lists

  const PMTU_CACHE_SIZE: nat := 16
  const PMTU_CACHE_AGE_MS: nat := 600000
  const PMTU_MIN: nat := 576
  const U64: nat := 0x10000000000000000
  const U32: nat := 0x100000000

  type Addr = nat

  datatype Entry = Entry(seqno: nat, dest: Addr, pmtu: nat, valid: bool, updated: nat)

  predicate Expired(e: Entry, now: nat) {
    (now - e.updated) % U64 >= PMTU_CACHE_AGE_MS
  }

  /** At most one valid entry per destination, none below the minimum, and every
      sequence counter even: no write is in progress outside the lock. */
  ghost predicate Good(c: seq<Entry>) {
    && |c| == PMTU_CACHE_SIZE
    && (forall i :: 0 <= i < |c| ==> c[i].seqno % 2 == 0 && (c[i].valid ==> c[i].pmtu >= PMTU_MIN))
    && forall i, j :: 0 <= i < j < |c| && c[i].valid && c[j].valid ==> c[i].dest != c[j].dest
  }

  datatype Rec = Rec(pmtu: nat, updated: nat)

  /** The cache as a table from destination to record. */
  ghost function Table(c: seq<Entry>): map<Addr, Rec>
    requires Good(c)
  {
    map i | 0 <= i < |c| && c[i].valid :: c[i].dest := Rec(c[i].pmtu, c[i].updated)
  }

  lemma TableAt(c: seq<Entry>, i: nat)
    requires Good(c) && i < |c| && c[i].valid
    ensures c[i].dest in Table(c) && Table(c)[c[i].dest] == Rec(c[i].pmtu, c[i].updated)
  {
  }

  lemma SlotOf(c: seq<Entry>, d: Addr) returns (i: nat)
    requires Good(c) && d in Table(c)
    ensures i < |c| && c[i].valid && c[i].dest == d && Table(c)[d] == Rec(c[i].pmtu, c[i].updated)
  {
    i :| 0 <= i < |c| && c[i].valid && c[i].dest == d;
  }

  predicate RecExpired(r: Rec, now: nat) {
    (now - r.updated) % U64 >= PMTU_CACHE_AGE_MS
  }

  /** `pmtu_entry_set` on slot i: one complete write, so the counter moves by two. */
  function SetEntry(e: Entry, dest: Addr, pmtu: nat, now: nat): Entry {
    Entry((e.seqno + 2) % U32, dest, pmtu, true, now)
  }

  lemma SetGood(c: seq<Entry>, i: nat, dest: Addr, pmtu: nat, now: nat)
    requires Good(c) && i < |c| && pmtu >= PMTU_MIN
    requires forall j :: 0 <= j < |c| && j != i && c[j].valid ==> c[j].dest != dest
    ensures Good(c[i := SetEntry(c[i], dest, pmtu, now)])
  {
  }

  /** The table after slot i is rewritten for dest: what the slot held is gone. */
  ghost function After(c: seq<Entry>, i: nat, dest: Addr, r: Rec): map<Addr, Rec>
    requires Good(c) && i < |c|
  {
    (Table(c) - (if c[i].valid then {c[i].dest} else {}))[dest := r]
  }

  lemma SetTable(c: seq<Entry>, i: nat, dest: Addr, pmtu: nat, now: nat)
    requires Good(c) && i < |c| && pmtu >= PMTU_MIN
    requires forall j :: 0 <= j < |c| && j != i && c[j].valid ==> c[j].dest != dest
    requires Good(c[i := SetEntry(c[i], dest, pmtu, now)])
    ensures Table(c[i := SetEntry(c[i], dest, pmtu, now)]) == After(c, i, dest, Rec(pmtu, now))
  {
    var c', t := c[i := SetEntry(c[i], dest, pmtu, now)], After(c, i, dest, Rec(pmtu, now));
    forall d
      ensures d in Table(c') ==> d in t && Table(c')[d] == t[d]
      ensures d in t ==> d in Table(c')
    {
      if d in Table(c') {
        var j := SlotOf(c', d);
        if j != i { TableAt(c, j); }
      }
      if d in t {
        if d == dest {
          TableAt(c', i);
        } else {
          var j := SlotOf(c, d);
          TableAt(c', j);
        }
      }
    }
  }

  /** Whom a newcomer may displace: an expired record, or, in a full cache in which none
      is expired, the one updated longest ago. */
  ghost predicate MayEvict(t: map<Addr, Rec>, gone: set<Addr>, now: nat) {
    && gone <= t.Keys && |gone| <= 1
    && (forall d :: d in gone ==> RecExpired(t[d], now) || |t| == PMTU_CACHE_SIZE)
    && forall d, e :: d in gone && e in t ==>
         RecExpired(t[d], now) || (!RecExpired(t[e], now) && t[d].updated <= t[e].updated)
  }

  /** A cache whose entries are all valid holds that many destinations. */
  lemma FullSize(c: seq<Entry>)
    requires Good(c) && forall i :: 0 <= i < |c| ==> c[i].valid
    ensures |Table(c)| == PMTU_CACHE_SIZE
  {
    var dests := seq(|c|, i requires 0 <= i < |c| => c[i].dest);
    NoDupSize(dests);
    forall x
      ensures x in Table(c).Keys <==> x in dests
    {
      if x in Table(c) { var i := SlotOf(c, x); assert dests[i] == x; }
    }
    assert Table(c).Keys == set x | x in dests;
  }

  /** The specification of `pmtu_update`. */
  ghost predicate Updated(t: map<Addr, Rec>, t': map<Addr, Rec>, dest: Addr, mtu: nat, now: nat, ret: nat) {
    && ret == (if dest in t && !RecExpired(t[dest], now) && t[dest].pmtu <= mtu then t[dest].pmtu else mtu)
    && if dest in t then t' == t[dest := Rec(ret, now)]
       else exists gone :: MayEvict(t, gone, now) && t' == (t - gone)[dest := Rec(ret, now)]
  }

  /** A live record never grows and never falls below the minimum, whoever is updated. */
  lemma LiveNeverIncreases(t: map<Addr, Rec>, t': map<Addr, Rec>, dest: Addr, mtu: nat, now: nat, ret: nat, d: Addr)
    requires Updated(t, t', dest, mtu, now, ret) && mtu >= PMTU_MIN
    requires forall x :: x in t ==> t[x].pmtu >= PMTU_MIN
    requires d in t && !RecExpired(t[d], now) && d in t'
    ensures PMTU_MIN <= t'[d].pmtu <= t[d].pmtu
    ensures d != dest ==> t'[d] == t[d]
  {
  }

  lemma NotInTable(c: seq<Entry>, d: Addr)
    requires Good(c) && forall i :: 0 <= i < |c| ==> !(c[i].valid && c[i].dest == d)
    ensures d !in Table(c)
  {
  }

  lemma VictimMayGo(c: seq<Entry>, v: nat, now: nat)
    requires Good(c) && v < |c|
    requires c[v].valid && !Expired(c[v], now) ==>
               forall j :: 0 <= j < |c| ==> c[j].valid && !Expired(c[j], now) && c[v].updated <= c[j].updated
    ensures MayEvict(Table(c), if c[v].valid then {c[v].dest} else {}, now)
  {
    var t := Table(c);
    if c[v].valid { TableAt(c, v); }
    if c[v].valid && !Expired(c[v], now) { FullSize(c); }
    forall e | e in t && c[v].valid
      ensures RecExpired(t[c[v].dest], now) || (!RecExpired(t[e], now) && t[c[v].dest].updated <= t[e].updated)
    {
      var j := SlotOf(c, e);
    }
  }

  class Cache {
    var cache: seq<Entry>

    ghost predicate Valid()
      reads this
    {
      Good(cache)
    }

    constructor ()
      ensures Valid() && Table(cache) == map[]
    {
      cache := seq(PMTU_CACHE_SIZE, _ => Entry(0, 0, 0, false, 0));
      new;
      assert forall i :: 0 <= i < |cache| ==> !cache[i].valid;
    }

    /** `pmtu_update`: a live record is only ever lowered and never below the minimum;
        an expired or missing one is written afresh; a new destination takes a free or
        expired slot, and only in a full cache the slot updated longest ago. */
    method Update(dest: Addr, newMtu: nat, now: nat) returns (ret: nat)
      requires Valid()
      modifies this
      ensures Valid()
      ensures Updated(old(Table(cache)), Table(cache), dest, if newMtu < PMTU_MIN then PMTU_MIN else newMtu, now, ret)
    {
      var mtu := if newMtu < PMTU_MIN then PMTU_MIN else newMtu;
      var i := Find(dest);
      if i < PMTU_CACHE_SIZE {
        ret := if !Expired(cache[i], now) && cache[i].pmtu <= mtu then cache[i].pmtu else mtu;
        TableAt(cache, i);
        Store(i, dest, ret, now);
        return;
      }
      var victim := FindVictim(now);
      NotInTable(cache, dest);
      VictimMayGo(cache, victim, now);
      Store(victim, dest, mtu, now);
      ret := mtu;
    }

    /** One complete write of a slot, for a destination no other slot holds. */
    method Store(i: nat, dest: Addr, pmtu: nat, now: nat)
      requires Valid() && i < |cache| && pmtu >= PMTU_MIN
      requires forall j :: 0 <= j < |cache| && j != i && cache[j].valid ==> cache[j].dest != dest
      modifies this
      ensures Valid() && Table(cache) == old(After(cache, i, dest, Rec(pmtu, now)))
    {
      SetGood(cache, i, dest, pmtu, now);
      SetTable(cache, i, dest, pmtu, now);
      cache := cache[i := SetEntry(cache[i], dest, pmtu, now)];
    }

    method Find(dest: Addr) returns (i: nat)
      requires Valid()
      ensures i <= PMTU_CACHE_SIZE && forall j :: 0 <= j < i ==> !(cache[j].valid && cache[j].dest == dest)
      ensures i < PMTU_CACHE_SIZE ==> cache[i].valid && cache[i].dest == dest
    {
      i := 0;
      while i < PMTU_CACHE_SIZE && !(cache[i].valid && cache[i].dest == dest)
        invariant i <= PMTU_CACHE_SIZE
        invariant forall j :: 0 <= j < i ==> !(cache[j].valid && cache[j].dest == dest)
      {
        i := i + 1;
      }
    }

    /** The first free or expired slot, else the one updated longest ago. */
    method FindVictim(now: nat) returns (v: nat)
      requires Valid()
      ensures v < |cache|
      ensures cache[v].valid && !Expired(cache[v], now) ==>
                forall j :: 0 <= j < |cache| ==>
                  cache[j].valid && !Expired(cache[j], now) && cache[v].updated <= cache[j].updated
    {
      var i := 0;
      while i < PMTU_CACHE_SIZE
        invariant i <= PMTU_CACHE_SIZE
        invariant forall j :: 0 <= j < i ==> cache[j].valid && !Expired(cache[j], now)
      {
        if !cache[i].valid || Expired(cache[i], now) {
          return i;
        }
        i := i + 1;
      }
      v := 0;
      i := 1;
      while i < PMTU_CACHE_SIZE
        invariant 1 <= i <= PMTU_CACHE_SIZE && v < i
        invariant forall j :: 0 <= j < i ==> cache[v].updated <= cache[j].updated
      {
        if cache[i].updated < cache[v].updated {
          v := i;
        }
        i := i + 1;
      }
    }

    /** `pmtu_lookup`: the live record of the destination, or 0. */
    method Lookup(dest: Addr, now: nat) returns (pmtu: nat)
      requires Valid()
      ensures var t := Table(cache);
              pmtu == if dest in t && !RecExpired(t[dest], now) then t[dest].pmtu else 0
    {
      var i := Find(dest);
      if i < PMTU_CACHE_SIZE {
        TableAt(cache, i);
        return if Expired(cache[i], now) then 0 else cache[i].pmtu;
      }
      NotInTable(cache, dest);
      return 0;
    }
  }

  /** A clock reading dt milliseconds later, on the 64-bit clock. */
  function Later(now: nat, dt: nat): nat {
    (now + dt) % U64
  }

  /** A record is expired from ten minutes on, also when the clock wraps meanwhile; an entry
      is when its record is. */
  lemma ExpiredFrom(r: Rec, dt: nat)
    requires r.updated < U64 && dt < U64
    ensures RecExpired(r, Later(r.updated, dt)) <==> dt >= 10 * 60 * 1000
    ensures forall e: Entry, now :: e.updated == r.updated ==> (Expired(e, now) <==> RecExpired(r, now))
  {
    assert (Later(r.updated, dt) - r.updated) % U64 == dt;
  }

  /** What was reported is answered for exactly ten minutes. */
  method UpdateThenLookup(c: Cache, dest: Addr, mtu: nat, now: nat, dt: nat) returns (ret: nat, found: nat)
    requires c.Valid() && now < U64 && dt < U64
    modifies c
    ensures c.Valid() && found == if dt < 10 * 60 * 1000 then ret else 0
  {
    ret := c.Update(dest, mtu, now);
    ExpiredFrom(Rec(ret, now), dt);
    found := c.Lookup(dest, Later(now, dt));
  }
}

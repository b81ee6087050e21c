/** The block buffer cache as values: bufs, the disk behind them, and the logical content
    a reader of the cache sees. */
module CacheSpec {

  datatype Buf<T> = Buf(sector: nat, valid: bool, dirty: bool, meta: bool, refcount: nat, data: T)

  /** One sector write that reached the device. */
  datatype DiskWrite<T> = DiskWrite(sector: nat, data: T, meta: bool)

  predicate Cached<T>(bufs: seq<Buf<T>>, i: int, sector: nat) {
    0 <= i < |bufs| && bufs[i].valid && bufs[i].sector == sector
  }

  predicate Absent<T>(bufs: seq<Buf<T>>, sector: nat) {
    forall j :: 0 <= j < |bufs| && bufs[j].valid ==> bufs[j].sector != sector
  }

  /** `bcache_lookup`: the first valid buf of the sector, or |bufs|. */
  function FirstBuf<T>(bufs: seq<Buf<T>>, sector: nat, k: nat := 0): (r: nat)
    requires k <= |bufs|
    ensures k <= r <= |bufs| && (r < |bufs| ==> Cached(bufs, r, sector))
    ensures forall j :: k <= j < r ==> !Cached(bufs, j, sector)
    decreases |bufs| - k
  {
    if k == |bufs| || Cached(bufs, k, sector) then k else FirstBuf(bufs, sector, k + 1)
  }

  /** At most one valid buf per sector; a dirty or pinned buf is valid; a clean valid buf
      agrees with the disk. */
  ghost predicate Coherent<T>(bufs: seq<Buf<T>>, disk: seq<T>) {
    && (forall i :: 0 <= i < |bufs| ==>
          && (bufs[i].dirty || bufs[i].refcount > 0 ==> bufs[i].valid)
          && (bufs[i].valid ==> bufs[i].sector < |disk|)
          && (bufs[i].valid && !bufs[i].dirty ==> bufs[i].data == disk[bufs[i].sector]))
    && forall i, j :: 0 <= i < j < |bufs| && bufs[i].valid && bufs[j].valid ==> bufs[i].sector != bufs[j].sector
  }

  /** What sector s holds: the valid buf's data, else the disk's. */
  ghost function LogicalAt<T>(bufs: seq<Buf<T>>, disk: seq<T>, s: nat): T
    requires s < |disk|
  {
    var i := FirstBuf(bufs, s);
    if i < |bufs| then bufs[i].data else disk[s]
  }

  ghost function Logical<T>(bufs: seq<Buf<T>>, disk: seq<T>): (r: seq<T>)
    ensures |r| == |disk| && forall s :: 0 <= s < |r| ==> r[s] == LogicalAt(bufs, disk, s)
  {
    seq(|disk|, s requires 0 <= s < |disk| => LogicalAt(bufs, disk, s))
  }

  lemma LogicalCached<T>(bufs: seq<Buf<T>>, disk: seq<T>, i: nat)
    requires Coherent(bufs, disk) && i < |bufs| && bufs[i].valid
    ensures LogicalAt(bufs, disk, bufs[i].sector) == bufs[i].data
  {
    assert Cached(bufs, i, bufs[i].sector);
    var j := FirstBuf(bufs, bufs[i].sector);
    assert Cached(bufs, j, bufs[i].sector);
  }

  /** Writing a buf back to its sector, which clears the dirty flag. */
  function FlushBufs<T>(bufs: seq<Buf<T>>, i: nat): seq<Buf<T>>
    requires i < |bufs|
  {
    bufs[i := bufs[i].(dirty := false)]
  }

  function FlushDisk<T>(bufs: seq<Buf<T>>, disk: seq<T>, i: nat): seq<T>
    requires i < |bufs| && bufs[i].sector < |disk|
  {
    disk[bufs[i].sector := bufs[i].data]
  }

  /** A write-back changes no logical content. */
  lemma FlushInvisible<T>(bufs: seq<Buf<T>>, disk: seq<T>, i: nat)
    requires Coherent(bufs, disk) && i < |bufs| && bufs[i].valid
    ensures Coherent(FlushBufs(bufs, i), FlushDisk(bufs, disk, i))
    ensures Logical(FlushBufs(bufs, i), FlushDisk(bufs, disk, i)) == Logical(bufs, disk)
  {
    var b', d' := FlushBufs(bufs, i), FlushDisk(bufs, disk, i);
    forall s | 0 <= s < |disk|
      ensures LogicalAt(b', d', s) == LogicalAt(bufs, disk, s)
    {
      SameLookup(bufs, b', s, 0);
      if s == bufs[i].sector { LogicalCached(bufs, disk, i); }
    }
  }

  /** Two buf lists that cache the same sectors find the same buf. */
  lemma {:induction false} SameLookup<T>(a: seq<Buf<T>>, b: seq<Buf<T>>, s: nat, k: nat)
    requires |a| == |b| && k <= |a| && forall j :: 0 <= j < |a| ==> a[j].valid == b[j].valid && a[j].sector == b[j].sector
    ensures FirstBuf(a, s, k) == FirstBuf(b, s, k)
    decreases |a| - k
  {
    if k < |a| { SameLookup(a, b, s, k + 1); }
  }

  /** Giving a clean, unpinned buf to another sector and loading that sector. */
  function Reload<T>(bufs: seq<Buf<T>>, disk: seq<T>, i: nat, s: nat): seq<Buf<T>>
    requires i < |bufs| && s < |disk|
  {
    bufs[i := Buf(s, true, false, false, 1, disk[s])]
  }

  lemma ReloadInvisible<T>(bufs: seq<Buf<T>>, disk: seq<T>, i: nat, s: nat)
    requires Coherent(bufs, disk) && i < |bufs| && !bufs[i].dirty && s < |disk|
    requires Absent(bufs, s)
    ensures Coherent(Reload(bufs, disk, i, s), disk)
    ensures Logical(Reload(bufs, disk, i, s), disk) == Logical(bufs, disk)
  {
    var b' := Reload(bufs, disk, i, s);
    forall t | 0 <= t < |disk|
      ensures LogicalAt(b', disk, t) == LogicalAt(bufs, disk, t)
    {
      var j, k := FirstBuf(b', t), FirstBuf(bufs, t);
      if j < |b'| && j != i { LogicalCached(bufs, disk, j); }
      if k < |bufs| && k != i { LogicalCached(b', disk, k); }
    }
  }

  /** Changing a buf's reference count or meta flag. */
  lemma TagInvisible<T>(bufs: seq<Buf<T>>, disk: seq<T>, i: nat, refcount: nat, meta: bool)
    requires Coherent(bufs, disk) && i < |bufs| && (bufs[i].valid || refcount == 0)
    ensures var b' := bufs[i := bufs[i].(refcount := refcount, meta := meta)];
            Coherent(b', disk) && Logical(b', disk) == Logical(bufs, disk)
  {
    var b' := bufs[i := bufs[i].(refcount := refcount, meta := meta)];
    forall t | 0 <= t < |disk|
      ensures LogicalAt(b', disk, t) == LogicalAt(bufs, disk, t)
    {
      SameLookup(bufs, b', t, 0);
    }
  }

  /** New data in a buf, marked dirty, is a logical write to its sector alone. */
  lemma StoreVisible<T>(bufs: seq<Buf<T>>, disk: seq<T>, i: nat, data: T)
    requires Coherent(bufs, disk) && i < |bufs| && bufs[i].valid
    ensures var b' := bufs[i := bufs[i].(data := data, dirty := true)];
            Coherent(b', disk) && Logical(b', disk) == Logical(bufs, disk)[bufs[i].sector := data]
  {
    var b' := bufs[i := bufs[i].(data := data, dirty := true)];
    forall t | 0 <= t < |disk|
      ensures LogicalAt(b', disk, t) == if t == bufs[i].sector then data else LogicalAt(bufs, disk, t)
    {
      SameLookup(bufs, b', t, 0);
      if t == bufs[i].sector { LogicalCached(b', disk, i); }
    }
  }

  /** With nothing dirty, the disk is the logical content. */
  lemma CleanIsSynced<T>(bufs: seq<Buf<T>>, disk: seq<T>)
    requires Coherent(bufs, disk) && forall i :: 0 <= i < |bufs| ==> !bufs[i].dirty
    ensures Logical(bufs, disk) == disk
  {
    forall s | 0 <= s < |disk|
      ensures LogicalAt(bufs, disk, s) == disk[s]
    {
      var j := FirstBuf(bufs, s);
    }
  }
}

/** The cache itself, over a device whose transfers succeed. */
module BufferCache {
  import opened Lists
  import opened CacheSpec
  import opened Options

  /** The recency list is a permutation of the buf indices, most recent first. */
  ghost predicate LruOk(lru: seq<nat>, n: nat) {
    NoDup(lru) && (forall i: nat :: i in lru <==> i < n)
  }

  lemma LruFresh(lru: seq<nat>, n: nat)
    requires |lru| == n && forall i :: 0 <= i < n ==> lru[i] == i
    ensures LruOk(lru, n)
  {
    forall i: nat | i < n
      ensures i in lru
    {
      assert lru[i] == i;
    }
  }

  lemma LruTouched(lru: seq<nat>, n: nat, i: nat)
    requires LruOk(lru, n) && i < n
    ensures LruOk([i] + Without(lru, i), n)
  {
    WithoutNoDup(lru, i);
    var rest := Without(lru, i);
    assert forall j :: 0 <= j < |rest| ==> rest[j] in rest;
  }

  lemma LruEntry(lru: seq<nat>, n: nat, k: nat)
    requires LruOk(lru, n) && k < |lru|
    ensures lru[k] < n
  {
    assert lru[k] in lru;
  }

  /** Buf i is unpinned and every buf behind it on the recency list is pinned. */
  ghost predicate LeastRecent<T>(lru: seq<nat>, bufs: seq<Buf<T>>, i: nat) {
    && i < |bufs| && bufs[i].refcount == 0
    && exists k :: 0 <= k < |lru| && lru[k] == i
                   && forall j :: k < j < |lru| ==> lru[j] < |bufs| && bufs[lru[j]].refcount > 0
  }

  /** The write is the write-back of a dirty buf. */
  ghost predicate WriteBack<T>(bufs: seq<Buf<T>>, w: DiskWrite<T>) {
    exists i :: 0 <= i < |bufs| && bufs[i].dirty && w == DiskWrite(bufs[i].sector, bufs[i].data, bufs[i].meta)
  }

  ghost predicate WriteBacks<T>(bufs: seq<Buf<T>>, w: seq<DiskWrite<T>>) {
    forall j :: 0 <= j < |w| ==> WriteBack(bufs, w[j])
  }

  /** Writes of one sync pass carry one meta flag. */
  ghost predicate AllMeta<T>(w: seq<DiskWrite<T>>, meta: bool) {
    forall i :: 0 <= i < |w| ==> w[i].meta == meta
  }

  /** All data writes come before all metadata writes. */
  ghost predicate DataFirst<T>(w: seq<DiskWrite<T>>) {
    forall i, j :: 0 <= i < j < |w| && w[i].meta ==> w[j].meta
  }

  lemma TwoPasses<T>(a: seq<DiskWrite<T>>, b: seq<DiskWrite<T>>)
    requires AllMeta(a, false) && AllMeta(b, true)
    ensures DataFirst(a + b)
  {
  }

  class BCache<T> {
    var disk: seq<T>
    var bufs: seq<Buf<T>>
    var lru: seq<nat>
    var hits: nat
    var misses: nat
    /** Every sector write the device has seen. */
    ghost var log: seq<DiskWrite<T>>

    ghost predicate Valid()
      reads this
    {
      Coherent(bufs, disk) && LruOk(lru, |bufs|)
    }

    ghost function Content(): (c: seq<T>)
      reads this
    {
      Logical(bufs, disk)
    }

    /** `bcache_init`: n invalid bufs, all on the recency list. */
    constructor (disk: seq<T>, n: nat, blank: T)
      requires n > 0
      ensures Valid() && |bufs| == n && this.disk == disk && Content() == disk && log == []
      ensures forall i :: 0 <= i < n ==> !bufs[i].valid && bufs[i].refcount == 0
    {
      this.disk := disk;
      bufs := seq(n, _ => Buf(0, false, false, false, 0, blank));
      lru := seq(n, i => i);
      hits, misses, log := 0, 0, [];
      new;
      LruFresh(lru, n);
      CleanIsSynced(bufs, disk);
    }

    /** `bcache_touch`. */
    method Touch(i: nat)
      requires LruOk(lru, |bufs|) && i < |bufs|
      modifies this`lru
      ensures LruOk(lru, |bufs|) && lru == [i] + Without(old(lru), i)
    {
      LruTouched(lru, |bufs|, i);
      lru := [i] + Without(lru, i);
    }

    /** `bcache_flush_buf`. */
    method FlushBuf(i: nat)
      requires Valid() && i < |bufs| && bufs[i].valid
      modifies this`disk, this`bufs, this`log
      ensures Valid() && Content() == old(Content()) && |disk| == |old(disk)|
      ensures bufs == if old(bufs[i].dirty) then FlushBufs(old(bufs), i) else old(bufs)
      ensures log == old(log) + if old(bufs[i].dirty)
                                then [DiskWrite(old(bufs[i].sector), old(bufs[i].data), old(bufs[i].meta))] else []
    {
      if bufs[i].dirty {
        FlushInvisible(bufs, disk, i);
        log := log + [DiskWrite(bufs[i].sector, bufs[i].data, bufs[i].meta)];
        disk := FlushDisk(bufs, disk, i);
        bufs := FlushBufs(bufs, i);
      }
    }

    /** `bcache_evict`: the least recently used unpinned buf, written back if dirty. It
        fails exactly when every buf is pinned. */
    method Evict() returns (r: Option<nat>)
      requires Valid()
      modifies this`disk, this`bufs, this`log
      ensures Valid() && Content() == old(Content()) && |disk| == |old(disk)| && |bufs| == |old(bufs)|
      ensures r.None? <==> forall i :: 0 <= i < |bufs| ==> old(bufs[i].refcount) > 0
      ensures r.None? ==> bufs == old(bufs)
      ensures r.Some? ==> LeastRecent(lru, old(bufs), r.value)
                          && bufs == old(bufs)[r.value := old(bufs[r.value]).(dirty := false)]
    {
      var k := |lru|;
      forall j | 0 <= j < |lru|
        ensures lru[j] < |bufs|
      {
        LruEntry(lru, |bufs|, j);
      }
      while k > 0
        invariant 0 <= k <= |lru| && bufs == old(bufs) && disk == old(disk)
        invariant forall j :: k <= j < |lru| ==> bufs[lru[j]].refcount > 0
      {
        var i := lru[k - 1];
        if bufs[i].refcount == 0 {
          if bufs[i].dirty {
            FlushBuf(i);
          }
          return Some(i);
        }
        k := k - 1;
      }
      forall i | 0 <= i < |bufs|
        ensures bufs[i].refcount > 0
      {
        assert i in lru;
      }
      return None;
    }

    /** The miss path of `bcache_read`: the evicted buf is loaded with the sector. */
    method Load(sector: nat) returns (r: Option<nat>)
      requires Valid() && sector < |disk| && Absent(bufs, sector)
      modifies this
      ensures Valid() && Content() == old(Content()) && |disk| == |old(disk)| && |bufs| == |old(bufs)|
      ensures r.None? <==> forall i :: 0 <= i < |bufs| ==> old(bufs[i].refcount) > 0
      ensures r.None? ==> bufs == old(bufs)
      ensures r.Some? ==> r.value < |bufs| && LeastRecent(old(lru), old(bufs), r.value)
      ensures r.Some? ==> bufs == old(bufs)[r.value := Buf(sector, true, false, false, 1, Content()[sector])]
                          && lru == [r.value] + Without(old(lru), r.value)
    {
      misses := misses + 1;
      r := Evict();
      if r.None? {
        return;
      }
      Touch(r.value);
      Refill(r.value, sector);
    }

    /** A clean buf takes over an absent sector and its content from the disk. */
    method Refill(i: nat, sector: nat)
      requires Valid() && i < |bufs| && !bufs[i].dirty && sector < |disk| && Absent(bufs, sector)
      modifies this`bufs
      ensures Valid() && Content() == old(Content())
      ensures bufs == old(bufs)[i := Buf(sector, true, false, false, 1, Content()[sector])]
    {
      ReloadInvisible(bufs, disk, i, sector);
      bufs := Reload(bufs, disk, i, sector);
      LogicalCached(bufs, disk, i);
    }

    /** The hit path of `bcache_read`. */
    method Hit(i: nat)
      requires Valid() && i < |bufs| && bufs[i].valid
      modifies this
      ensures Valid() && Content() == old(Content()) && |disk| == |old(disk)|
      ensures bufs == old(bufs)[i := old(bufs[i]).(refcount := old(bufs[i].refcount) + 1)]
      ensures lru == [i] + Without(old(lru), i)
    {
      hits := hits + 1;
      Touch(i);
      TagInvisible(bufs, disk, i, bufs[i].refcount + 1, bufs[i].meta);
      bufs := bufs[i := bufs[i].(refcount := bufs[i].refcount + 1)];
    }

    /** `bcache_read`: a pinned buf holding the sector. No sector's logical content
        changes, no other buf changes, and a buf that was pinned keeps its sector, its
        data and its flags. */
    method Read(sector: nat) returns (r: Option<nat>)
      requires Valid() && sector < |disk|
      modifies this
      ensures Valid() && Content() == old(Content()) && |disk| == |old(disk)| && |bufs| == |old(bufs)|
      ensures r.None? <==> Absent(old(bufs), sector) && forall i :: 0 <= i < |bufs| ==> old(bufs[i].refcount) > 0
      ensures r.None? ==> bufs == old(bufs)
      ensures r.Some? ==> Cached(bufs, r.value, sector) && bufs[r.value].data == Content()[sector]
                          && bufs[r.value].refcount == old(bufs[r.value].refcount) + 1
      ensures r.Some? ==> bufs == old(bufs)[r.value := bufs[r.value]] && lru == [r.value] + Without(old(lru), r.value)
      ensures r.Some? && old(bufs[r.value].refcount) == 0 && Absent(old(bufs), sector) ==>
                bufs[r.value] == Buf(sector, true, false, false, 1, Content()[sector])
      ensures r.Some? && !Absent(old(bufs), sector) ==>
                bufs[r.value] == old(bufs[r.value]).(refcount := old(bufs[r.value].refcount) + 1)
      ensures r.Some? && old(bufs[r.value].refcount) > 0 ==>
                bufs[r.value] == old(bufs[r.value]).(refcount := old(bufs[r.value].refcount) + 1)
    {
      var i := FindBuf(sector);
      if i < |bufs| {
        Hit(i);
        LogicalCached(bufs, disk, i);
        return Some(i);
      }
      r := Load(sector);
    }

    method FindBuf(sector: nat) returns (i: nat)
      ensures i <= |bufs| && (i < |bufs| ==> Cached(bufs, i, sector))
      ensures i == |bufs| ==> Absent(bufs, sector)
    {
      i := 0;
      while i < |bufs| && !(bufs[i].valid && bufs[i].sector == sector)
        invariant 0 <= i <= |bufs|
        invariant forall j :: 0 <= j < i && bufs[j].valid ==> bufs[j].sector != sector
      {
        i := i + 1;
      }
    }

    /** A caller's store into a pinned buf, with `bcache_mark_dirty` and optionally
        `bcache_mark_meta`. */
    method Store(i: nat, data: T, meta: bool)
      requires Valid() && i < |bufs| && bufs[i].refcount > 0
      modifies this`bufs
      ensures Valid() && Content() == old(Content())[old(bufs[i].sector) := data]
      ensures bufs == old(bufs)[i := old(bufs[i]).(data := data, dirty := true, meta := old(bufs[i].meta) || meta)]
    {
      StoreVisible(bufs, disk, i, data);
      ghost var stored := bufs[i := bufs[i].(data := data, dirty := true)];
      assert bufs[i := bufs[i].(data := data, dirty := true, meta := bufs[i].meta || meta)]
          == stored[i := stored[i].(refcount := bufs[i].refcount, meta := bufs[i].meta || meta)];
      TagInvisible(stored, disk, i, bufs[i].refcount, bufs[i].meta || meta);
      bufs := bufs[i := bufs[i].(data := data, dirty := true, meta := bufs[i].meta || meta)];
    }

    /** `bcache_release`. */
    method Release(i: nat)
      requires Valid() && i < |bufs| && bufs[i].refcount > 0
      modifies this`bufs
      ensures Valid() && Content() == old(Content())
      ensures bufs == old(bufs)[i := old(bufs[i]).(refcount := old(bufs[i].refcount) - 1)]
    {
      TagInvisible(bufs, disk, i, bufs[i].refcount - 1, bufs[i].meta);
      bufs := bufs[i := bufs[i].(refcount := bufs[i].refcount - 1)];
    }

    /** One pass of `bcache_sync`: every dirty buf with that meta flag is written. */
    method FlushPass(meta: bool)
      requires Valid()
      modifies this`disk, this`bufs, this`log
      ensures Valid() && Content() == old(Content()) && |disk| == |old(disk)| && |bufs| == |old(bufs)|
      ensures forall i :: 0 <= i < |bufs| ==> bufs[i] == old(bufs[i]).(dirty := old(bufs[i].dirty) && old(bufs[i].meta) != meta)
      ensures |log| >= |old(log)| && log[..|old(log)|] == old(log) && AllMeta(log[|old(log)|..], meta)
      ensures WriteBacks(old(bufs), log[|old(log)|..])
    {
      var i := 0;
      while i < |bufs|
        invariant 0 <= i <= |bufs| == |old(bufs)| && Valid() && Content() == old(Content()) && |disk| == |old(disk)|
        invariant forall j :: 0 <= j < i ==> bufs[j] == old(bufs[j]).(dirty := old(bufs[j].dirty) && old(bufs[j].meta) != meta)
        invariant forall j :: i <= j < |bufs| ==> bufs[j] == old(bufs[j])
        invariant |log| >= |old(log)| && log[..|old(log)|] == old(log) && AllMeta(log[|old(log)|..], meta)
        invariant WriteBacks(old(bufs), log[|old(log)|..])
      {
        if bufs[i].dirty && bufs[i].meta == meta {
          assert WriteBack(old(bufs), DiskWrite(bufs[i].sector, bufs[i].data, bufs[i].meta));
          FlushBuf(i);
        }
        i := i + 1;
      }
    }

    /** `bcache_sync`: afterwards the disk is the logical content, and all data writes of
        the sync came before all its metadata writes. */
    method Sync()
      requires Valid()
      modifies this`disk, this`bufs, this`log
      ensures Valid() && Content() == old(Content()) && disk == Content() && |bufs| == |old(bufs)|
      ensures forall i :: 0 <= i < |bufs| ==> bufs[i] == old(bufs[i]).(dirty := false)
      ensures |old(log)| <= |log| && log[..|old(log)|] == old(log) && WriteBacks(old(bufs), log[|old(log)|..])
      ensures DataFirst(log[|old(log)|..])
    {
      FlushPass(false);
      ghost var first, between := log[|old(log)|..], bufs;
      FlushPass(true);
      CleanIsSynced(bufs, disk);
      ghost var second := log[|old(log)| + |first|..];
      forall j | 0 <= j < |second|
        ensures WriteBack(old(bufs), second[j])
      {
        assert WriteBack(between, second[j]);
      }
      assert log[|old(log)|..] == first + second;
      TwoPasses(first, second);
    }
  }
}

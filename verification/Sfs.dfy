/** The simple filesystem over the buffer cache. Every access is a cache read or a store
    into a cached sector; `view` is what the sectors say. */
module Sfs {
  import opened CacheSpec
  import opened BufferCache
  import opened SfsImage
  import opened SfsPaths
  import opened SfsExtents
  import opened Unfolding

  datatype Errno = ENOENT | EEXIST | EISDIR | ENOTDIR | ENOTEMPTY | ENOSPC | ENAMETOOLONG

  datatype Result<+T> = Ok(value: T) | Err(errno: Errno)

  /** No buf is pinned. */
  ghost predicate Idle<T>(bufs: seq<Buf<T>>) {
    forall i :: 0 <= i < |bufs| ==> bufs[i].refcount == 0
  }

  /** A dirty buf carries the meta flag exactly when its sector is below the data region. */
  ghost predicate Flagged(total: nat, bufs: seq<Buf<Sector>>) {
    forall i :: 0 <= i < |bufs| && bufs[i].valid ==>
      if bufs[i].sector < DataStart(total) then bufs[i].dirty ==> bufs[i].meta else !bufs[i].meta
  }

  /** Sector writes to the data region come before those to the metadata. */
  ghost predicate DataBeforeMetadata(total: nat, w: seq<DiskWrite<Sector>>) {
    forall i, j :: 0 <= i < j < |w| && w[i].sector < DataStart(total) ==> w[j].sector < DataStart(total)
  }

  lemma OrderedBySector(total: nat, bufs: seq<Buf<Sector>>, disk: seq<Sector>, w: seq<DiskWrite<Sector>>)
    requires Coherent(bufs, disk) && Flagged(total, bufs) && WriteBacks(bufs, w) && DataFirst(w)
    ensures DataBeforeMetadata(total, w)
  {
    forall j | 0 <= j < |w|
      ensures w[j].meta == (w[j].sector < DataStart(total))
    {
      assert WriteBack(bufs, w[j]);
    }
  }

  /** Sizes stay below the point where 32-bit sector counts fail. */
  ghost predicate SmallFiles(dir: seq<Dirent>) {
    forall i :: 0 <= i < |dir| ==> dir[i].size <= 0x1_0000_0000 - SECTOR
  }

  /** w is v with one entry made for the path, in a free slot. */
  ghost predicate MadeEntry(v: View, w: View, slot: nat, path: string, kind: Kind) {
    && |v.dir| == MAX_DIRENTS && slot < MAX_DIRENTS && v.dir[slot].kind.Free?
    && w == v.(dir := v.dir[slot := Dirent(CString(BaseName(path)), kind, LookupParent(v.dir, path), 0, 0)])
  }

  /** Whether an entry can be made for the path, and if not, why. */
  ghost function MakeOutcome(dir: seq<Dirent>, path: string): Result<()>
    requires |dir| == MAX_DIRENTS
  {
    if Lookup(dir, path) < MAX_DIRENTS then Err(EEXIST)
    else if LookupParent(dir, path) == MAX_DIRENTS then Err(ENOENT)
    else if !(0 < |BaseName(path)| <= NAME_MAX) then Err(ENAMETOOLONG)
    else if forall i :: 0 <= i < MAX_DIRENTS ==> !dir[i].kind.Free? then Err(ENOSPC)
    else Ok(())
  }

  /** w is v with file i gone: its extent and its entry are free, every other file keeps
      its bytes, and the path no longer resolves. */
  ghost predicate Unlinked(total: nat, v: View, w: View, i: nat, path: string) {
    && SpaceOk(total, v) && SpaceOk(total, w) && i < MAX_DIRENTS
    && w == View(Freed(v, i), v.dir[i := v.dir[i].(kind := Free)], v.data)
    && (forall j :: 0 <= j < MAX_DIRENTS && j != i && v.dir[j].kind.File? ==> FileBytes(total, w, j) == FileBytes(total, v, j))
    && Gone(v.dir, w.dir, path)
  }

  /** The path no longer resolves, and names stay unique. */
  ghost predicate Gone(dir: seq<Dirent>, dir': seq<Dirent>, path: string)
    requires |dir| == |dir'| == MAX_DIRENTS
  {
    Unique(dir) ==> Unique(dir') && Lookup(dir', path) == MAX_DIRENTS
  }

  ghost predicate Childless(dir: seq<Dirent>, i: nat) {
    forall j :: 0 <= j < |dir| && !dir[j].kind.Free? ==> dir[j].parent != i
  }

  lemma UnlinkIsRight(total: nat, v: View, w: View, depth: seq<nat>, i: nat, path: string)
    requires SpaceOk(total, v) && Tree(v.dir, depth) && i < MAX_DIRENTS && v.dir[i].kind.File? && Lookup(v.dir, path) == i
    requires w == View(Freed(v, i), v.dir[i := v.dir[i].(kind := Free)], v.data)
    ensures Unlinked(total, v, w, i, path) && Tree(w.dir, depth)
  {
    UnlinkKeeps(total, v, w, i);
    FileHasNoChild(v.dir, depth, i);
    RemoveKeepsTree(v.dir, depth, i);
    if Unique(v.dir) { RemovedIsNotFound(v.dir, i, path); }
    forall j | 0 <= j < MAX_DIRENTS && j != i && v.dir[j].kind.File?
      ensures FileBytes(total, w, j) == FileBytes(total, v, j)
    {
      SameFile(total, v, w, j);
    }
  }

  lemma RmdirIsRight(total: nat, v: View, depth: seq<nat>, i: nat, path: string)
    requires SpaceOk(total, v) && Tree(v.dir, depth) && 0 < i < MAX_DIRENTS && v.dir[i].kind.Dir?
    requires Childless(v.dir, i) && Lookup(v.dir, path) == i
    ensures var w := v.(dir := v.dir[i := v.dir[i].(kind := Free)]);
            SpaceOk(total, w) && Tree(w.dir, depth) && Gone(v.dir, w.dir, path)
  {
    var w := v.(dir := v.dir[i := v.dir[i].(kind := Free)]);
    RemoveKeepsTree(v.dir, depth, i);
    if Unique(v.dir) { RemovedIsNotFound(v.dir, i, path); }
    SameCovers(total, v, w);
  }

  /** Stored names read back without a NUL. */
  ghost predicate CleanNames(dir: seq<Dirent>) {
    forall i :: 0 <= i < |dir| ==> '\0' !in dir[i].name
  }

  /** The operations a run is made of. */
  datatype Op =
    | Creat(path: string)
    | MakeDir(path: string)
    | Remove(path: string)
    | RemoveDir(path: string)
    | Store(path: string, off: nat, data: seq<Byte>)
  {
    /** Below the size where 32-bit sector counts fail. */
    predicate Small() { Store? ==> off + |data| <= 0x1_0000_0000 - SECTOR }

    /** New entries come from paths without a doubled slash before the last component and
        without a NUL in it. */
    predicate Plain() { Creat? || MakeDir? ==> SfsPaths.Plain(path) }
  }

  /** w is v with an entry made for the path; or v, if there cannot be one. */
  ghost predicate Makes(v: View, path: string, kind: Kind, w: View)
    requires |v.dir| == |w.dir| == MAX_DIRENTS
  {
    if MakeOutcome(v.dir, path).Err? then w == v
    else exists slot :: MadeEntry(v, w, slot, path, kind) && NamesAfter(v.dir, w.dir, slot, path)
  }

  /** The directory i may be removed. */
  ghost predicate Removable(dir: seq<Dirent>, i: nat) {
    0 < i < |dir| && dir[i].kind.Dir? && Childless(dir, i)
  }

  /** There is room for the file to reach that size. */
  ghost predicate HasRoom(total: nat, v: View, i: nat, size: nat)
    requires Sized(total, v) && i < MAX_DIRENTS
  {
    Sectors(size) <= Sectors(v.dir[i].size) || !NoRun(Freed(v, i), DataStart(total), total, Sectors(size))
  }

  /** What one operation does to the view. */
  ghost predicate Steps(total: nat, v: View, op: Op, w: View)
    requires Sized(total, v) && Sized(total, w)
  {
    match op
    case Creat(path) => Makes(v, path, File, w)
    case MakeDir(path) => Makes(v, path, Dir, w)
    case Remove(path) =>
      var i := Lookup(v.dir, path);
      if i < MAX_DIRENTS && v.dir[i].kind.File? then Unlinked(total, v, w, i, path) else w == v
    case RemoveDir(path) =>
      var i := Lookup(v.dir, path);
      if Removable(v.dir, i) then w == v.(dir := v.dir[i := v.dir[i].(kind := Free)]) && Gone(v.dir, w.dir, path)
      else w == v
    case Store(path, off, data) =>
      var i := Lookup(v.dir, path);
      if i < MAX_DIRENTS && v.dir[i].kind.File? && HasRoom(total, v, i, off + |data|) then Wrote(total, v, w, i, off, data)
      else w == v
  }

  /** The k-th operation leads from the k-th view to the next. */
  ghost predicate StepAt(total: nat, views: seq<View>, ops: seq<Op>, k: nat) {
    && k < |ops| && k + 1 < |views| && Sized(total, views[k]) && Sized(total, views[k + 1])
    && Steps(total, views[k], ops[k], views[k + 1])
  }

  /** The root is the only entry. */
  ghost predicate RootOnly(total: nat, v: View) {
    Sized(total, v) && forall i :: 0 <= i < MAX_DIRENTS ==> (v.dir[i].kind.Free? <==> i > 0)
  }

  /** The views a run goes through: from the root alone, one operation at a time. */
  ghost predicate History(total: nat, views: seq<View>, ops: seq<Op>) {
    && |views| == |ops| + 1 && RootOnly(total, views[0])
    && forall k {:trigger StepAt(total, views, ops, k)} :: 0 <= k < |ops| ==> StepAt(total, views, ops, k)
  }

  lemma HistoryNext(total: nat, views: seq<View>, ops: seq<Op>, op: Op, w: View)
    requires History(total, views, ops) && Sized(total, views[|ops|]) && Sized(total, w)
    requires Steps(total, views[|ops|], op, w)
    ensures History(total, views + [w], ops + [op])
  {
    forall k | 0 <= k < |ops| + 1
      ensures StepAt(total, views + [w], ops + [op], k)
    {
      if k < |ops| { assert StepAt(total, views, ops, k); }
    }
  }

  const BLANK: Dirent := Dirent("", Free, 0, 0, 0)

  class Filesystem {
    const cache: BCache<Sector>
    const total: nat
    /** The superblock's free sector counter. */
    var free: int
    ghost var view: View
    ghost var depth: seq<nat>

    /** The cache is idle and its sectors have the filesystem's shape. */
    ghost predicate Attached()
      reads cache
    {
      && cache.Valid() && |cache.bufs| >= 3 && Idle(cache.bufs) && Flagged(total, cache.bufs)
      && Shaped(total, cache.Content())
    }

    /** The view is what the cached sectors say. */
    ghost predicate Backed()
      reads this`view, cache
    {
      Attached() && view == ViewOf(total, cache.Content())
    }

    /** Between accesses. Only the sector accessors look at what backs the view; every method
        above them reasons about the view alone. */
    ghost predicate Ready()
      reads this`view, cache
    {
      Sized(total, view) && forall k {:trigger Opened(k)} :: Opened(k) ==> Backed()
    }

    /** The invariant of every run. */
    ghost predicate Valid()
      reads this`view, this`depth, cache
    {
      Ready() && SpaceOk(total, view) && Tree(view.dir, depth) && SmallFiles(view.dir) && CleanNames(view.dir)
    }

    /** `sfs_format`: an empty tree on sectors of any content. */
    constructor Format(cache: BCache<Sector>, total: nat)
      requires cache.Valid() && |cache.bufs| >= 3 && Idle(cache.bufs) && Flagged(total, cache.bufs)
      requires Shaped(total, cache.Content())
      modifies cache
      ensures this.cache == cache && this.total == total
      ensures Valid() && Unique(view.dir) && cache.disk == cache.Content()
      ensures forall i :: 0 < i < MAX_DIRENTS ==> view.dir[i].kind.Free?
      ensures forall s :: 0 <= s < total ==> view.bits[s] == (s < DataStart(total))
      ensures free == total - DataStart(total)
    {
      this.cache, this.total := cache, total;
      free := total - DataStart(total);
      view := ViewOf(total, cache.Content());
      depth := seq(MAX_DIRENTS, _ => 0);
      new;
      WriteSuper();
      ZeroBitmap();
      MarkRange(0, DataStart(total), true);
      ZeroEntries();
      WriteDirent(0, Dirent("/", Dir, ROOT_PARENT, 0, 0));
      Sync();
      EmptySpaceOk(total, view);
      RootOnlyOk(view.dir, depth);
    }

    method ZeroBitmap()
      requires Ready()
      modifies cache, this`view
      ensures Ready() && view.dir == old(view).dir && view.data == old(view).data
      ensures forall s :: 0 <= s < total ==> !view.bits[s]
    {
      var zero := seq(BITS, _ => false);
      var b := 0;
      while b < BitmapSectors(total)
        invariant 0 <= b <= BitmapSectors(total) && Ready()
        invariant view.dir == old(view).dir && view.data == old(view).data
        invariant forall s :: 0 <= s < total && s < b * BITS ==> !view.bits[s]
      {
        assert Opened(0);
        ZeroBitmapView(total, cache.Content(), b, zero);
        PutSector(1 + b, BitmapSec(zero), true);
        view := view.(bits := SetRange(view.bits, b * BITS, BITS, false));
        b := b + 1;
      }
    }

    method ZeroEntries()
      requires Ready()
      modifies cache, this`view
      ensures Ready() && view.bits == old(view).bits && view.data == old(view).data
      ensures forall i :: 0 <= i < MAX_DIRENTS ==> view.dir[i] == BLANK
    {
      var b := 0;
      while b < DIR_SECTORS
        invariant 0 <= b <= DIR_SECTORS && Ready()
        invariant view.bits == old(view).bits && view.data == old(view).data
        invariant forall i :: 0 <= i < b * PER_SECTOR ==> view.dir[i] == BLANK
      {
        ZeroDirSector(b);
        b := b + 1;
      }
    }

    method ZeroDirSector(b: nat)
      requires Ready() && b < DIR_SECTORS
      modifies cache, this`view
      ensures Ready() && view.bits == old(view).bits && view.data == old(view).data
      ensures forall i :: 0 <= i < MAX_DIRENTS ==>
                view.dir[i] == if b * PER_SECTOR <= i < (b + 1) * PER_SECTOR then BLANK else old(view).dir[i]
    {
      var zero := seq(PER_SECTOR, _ => BLANK);
      assert Opened(0);
      ZeroEntriesView(total, cache.Content(), b, BLANK, zero);
      PutSector(DirStart(total) + b, DirSec(zero), true);
      view := ViewOf(total, cache.Content());
    }

    method GetSector(b: nat) returns (s: Sector)
      requires Backed() && b < |cache.disk|
      modifies cache
      ensures Backed() && |cache.disk| == |old(cache.disk)|
      ensures cache.Content() == old(cache.Content()) && s == cache.Content()[b]
    {
      assert cache.bufs[0].refcount == 0;
      var r := cache.Read(b);
      s := cache.bufs[r.value].data;
      cache.Release(r.value);
    }

    /** A store of a sector through a pinned buf. */
    method PutSector(b: nat, s: Sector, meta: bool)
      requires Backed() && b < |cache.disk| && Shaped(total, cache.Content()[b := s])
      requires meta == (b < DataStart(total))
      modifies cache
      ensures Attached() && cache.Content() == old(cache.Content())[b := s]
    {
      assert cache.bufs[0].refcount == 0;
      var r := cache.Read(b);
      cache.Store(r.value, s, meta);
      cache.Release(r.value);
    }

    /** `bitmap_get`. */
    method BitmapGet(s: nat) returns (taken: bool)
      requires Ready() && s < total
      modifies cache
      ensures Ready() && taken == view.bits[s]
    {
      assert Opened(0);
      BitSectorIn(total, s);
      var sec := GetSector(BitSector(s));
      taken := sec.bits[s % BITS];
    }

    /** `bitmap_set`. */
    method BitmapSet(s: nat, v: bool)
      requires Ready() && s < total
      modifies cache, this`view
      ensures Ready() && view == old(view).(bits := old(view).bits[s := v])
    {
      assert Opened(0);
      BitSectorIn(total, s);
      var sec := GetSector(BitSector(s));
      PutBitView(total, cache.Content(), s, v);
      PutSector(BitSector(s), BitmapSec(sec.bits[s % BITS := v]), true);
      view := view.(bits := view.bits[s := v]);
    }

    method ReadDirent(i: nat) returns (e: Dirent)
      requires Ready() && i < MAX_DIRENTS
      modifies cache
      ensures Ready() && e == view.dir[i]
    {
      assert Opened(0);
      var sec := GetSector(DirentSector(total, i));
      e := sec.entries[i % PER_SECTOR];
    }

    method WriteDirent(i: nat, e: Dirent)
      requires Ready() && i < MAX_DIRENTS
      modifies cache, this`view
      ensures Ready() && view == old(view).(dir := old(view).dir[i := e])
    {
      assert Opened(0);
      var sec := GetSector(DirentSector(total, i));
      PutDirentView(total, cache.Content(), i, e);
      PutSector(DirentSector(total, i), DirSec(sec.entries[i % PER_SECTOR := e]), true);
      view := view.(dir := view.dir[i := e]);
    }

    method ReadData(s: nat) returns (bytes: seq<Byte>)
      requires Ready() && DataStart(total) <= s < total
      modifies cache
      ensures Ready() && bytes == view.data[s] && |bytes| == SECTOR
    {
      assert Opened(0);
      var sec := GetSector(s);
      bytes := sec.bytes;
    }

    method WriteData(s: nat, bytes: seq<Byte>)
      requires Ready() && DataStart(total) <= s < total && |bytes| == SECTOR
      modifies cache, this`view
      ensures Ready() && view == old(view).(data := old(view).data[s := bytes])
    {
      assert Opened(0);
      PutDataView(total, cache.Content(), s, bytes);
      PutSector(s, DataSec(bytes), false);
      view := view.(data := view.data[s := bytes]);
    }

    method WriteSuper()
      requires Ready()
      modifies cache
      ensures Ready() && cache.Content() != [] && cache.Content()[0] == SuperSec(free)
    {
      assert Opened(0);
      PutSuperView(total, cache.Content(), free);
      PutSector(0, SuperSec(free), true);
    }

    /** Every sector that is cached dirty goes to the disk, data before metadata. */
    method Sync()
      requires Ready()
      modifies cache
      ensures Ready() && cache.disk == cache.Content() == old(cache.Content())
      ensures |old(cache.log)| <= |cache.log| && cache.log[..|old(cache.log)|] == old(cache.log)
      ensures DataBeforeMetadata(total, cache.log[|old(cache.log)|..])
    {
      assert Opened(0);
      ghost var bufs, disk := cache.bufs, cache.disk;
      cache.Sync();
      OrderedBySector(total, bufs, disk, cache.log[|old(cache.log)|..]);
    }

    /** The marking loops of `bitmap_alloc` and of the failed grow. */
    method MarkRange(start: nat, n: nat, v: bool)
      requires Ready() && start + n <= total
      modifies cache, this`view
      ensures Ready() && view == old(view).(bits := SetRange(old(view).bits, start, n, v))
    {
      var i := start;
      assert SetRange(view.bits, start, 0, v) == view.bits;
      while i < start + n
        invariant start <= i <= start + n && Ready()
        invariant view == old(view).(bits := SetRange(old(view).bits, start, i - start, v))
      {
        BitmapSet(i, v);
        i := i + 1;
        assert view.bits == SetRange(old(view).bits, start, i - start, v);
      }
    }

    /** `bitmap_free`. */
    method BitmapFree(start: nat, n: nat)
      requires Ready() && start + n <= total
      modifies cache, this`view, this`free
      ensures Ready() && view == old(view).(bits := SetRange(old(view).bits, start, n, false))
      ensures free == old(free) + n
    {
      var i := start;
      assert SetRange(view.bits, start, 0, false) == view.bits;
      while i < start + n
        invariant start <= i <= start + n && Ready() && free == old(free) + (i - start)
        invariant view == old(view).(bits := SetRange(old(view).bits, start, i - start, false))
      {
        BitmapSet(i, false);
        free := free + 1;
        i := i + 1;
        assert view.bits == SetRange(old(view).bits, start, i - start, false);
      }
    }

    /** The scan of `bitmap_alloc`: the first run of `count` free sectors, or 0. */
    method FindRun(count: nat) returns (r: nat)
      requires Ready() && count > 0
      modifies cache
      ensures Ready()
      ensures r == 0 <==> NoRun(view.bits, DataStart(total), total, count)
      ensures r > 0 ==> DataStart(total) <= r && RunFree(view.bits, r, count) && LeftMaximal(view.bits, DataStart(total), r)
    {
      var from := DataStart(total);
      ghost var bits := view.bits;
      var runStart: nat, runLen: nat, s := from, 0, from;
      while s < total
        invariant Ready() && Scanning(bits, from, s, count, runStart, runLen)
      {
        var taken := BitmapGet(s);
        if !taken {
          ScanFree(bits, from, s, count, runStart, runLen);
          if runLen == 0 {
            runStart := s;
          }
          runLen := runLen + 1;
          if runLen == count {
            RunRefutes(bits, from, runStart, count);
            return runStart;
          }
        } else {
          ScanTaken(bits, from, s, count, runStart, runLen);
          runLen := 0;
        }
        s := s + 1;
      }
      return 0;
    }

    /** `bitmap_alloc`. */
    method BitmapAlloc(count: nat) returns (r: nat)
      requires Ready() && count > 0
      modifies cache, this`view, this`free
      ensures Ready()
      ensures r == 0 <==> NoRun(old(view).bits, DataStart(total), total, count)
      ensures r == 0 ==> view == old(view) && free == old(free)
      ensures r > 0 ==> DataStart(total) <= r && RunFree(old(view).bits, r, count)
                        && LeftMaximal(old(view).bits, DataStart(total), r)
                        && view == old(view).(bits := SetRange(old(view).bits, r, count, true))
                        && free == old(free) - count
    {
      r := FindRun(count);
      if r > 0 {
        MarkRange(r, count, true);
        free := free - count;
      }
    }

    /** The ascending copy of a grow. It is right although the two ranges may overlap. */
    method CopySectors(from: nat, to: nat, n: nat)
      requires Ready() && DataStart(total) <= from && from + n <= total && DataStart(total) <= to && to + n <= total
      requires to <= from || from + n <= to
      modifies cache, this`view
      ensures Ready() && view == old(view).(data := CopyTo(old(view).data, from, to, n))
    {
      var s := 0;
      assert CopyTo(view.data, from, to, 0) == view.data;
      while s < n
        invariant 0 <= s <= n && Ready()
        invariant view == old(view).(data := CopyTo(old(view).data, from, to, s))
      {
        CopyStep(old(view).data, from, to, s);
        var bytes := ReadData(from + s);
        WriteData(to + s, bytes);
        s := s + 1;
      }
    }

    /** The grow path of `sfs_vfs_write`: the old extent is freed, a run is allocated first
        fit, the old sectors are copied over; without a run the bits are restored. */
    method Grow(idx: nat, size: nat) returns (r: nat)
      requires Ready() && SpaceOk(total, view) && idx < MAX_DIRENTS && view.dir[idx].kind.File?
      requires Sectors(view.dir[idx].size) < Sectors(size)
      modifies cache, this`view, this`free
      ensures Ready() && (r == 0 ==> view == old(view))
      ensures r == 0 <==> NoRun(Freed(old(view), idx), DataStart(total), total, Sectors(size))
      ensures r > 0 ==> DataStart(total) <= r && RunFree(Freed(old(view), idx), r, Sectors(size))
                        && view.bits == SetRange(Freed(old(view), idx), r, Sectors(size), true)
                        && view.dir == old(view).dir
      ensures r > 0 && old(view).dir[idx].size == 0 ==> view.data == old(view).data
      ensures r > 0 && old(view).dir[idx].size > 0 ==>
                && old(view).dir[idx].start + Sectors(old(view).dir[idx].size) <= total
                && view.data == CopyTo(old(view).data, old(view).dir[idx].start, r, Sectors(old(view).dir[idx].size))
      ensures free == old(free) + Sectors(old(view).dir[idx].size) - if r == 0 then 0 else Sectors(size)
    {
      var e := ReadDirent(idx);
      var oldN := Sectors(e.size);
      if oldN > 0 {
        ExtentHolds(total, view, idx);
        BitmapFree(e.start, oldN);
      }
      assert view.bits == Freed(old(view), idx);
      r := BitmapAlloc(Sectors(size));
      if r == 0 {
        if oldN > 0 {
          MarkRange(e.start, oldN, true);
        }
        RestoredBits(total, old(view), idx);
      } else if oldN > 0 {
        FirstFitStartsBefore(Freed(old(view), idx), DataStart(total), e.start, oldN, r);
        CopySectors(e.start, r, oldN);
      }
    }

    /** The size change of `sfs_vfs_write`, growing the extent if it must. */
    method Resize(idx: nat, size: nat) returns (ok: bool)
      requires Valid() && idx < MAX_DIRENTS && view.dir[idx].kind.File?
      requires view.dir[idx].size <= size <= 0x1_0000_0000 - SECTOR
      modifies cache, this`view, this`free
      ensures Valid() && (!ok ==> view == old(view))
      ensures !ok <==> Sectors(size) > Sectors(old(view).dir[idx].size)
                       && NoRun(Freed(old(view), idx), DataStart(total), total, Sectors(size))
      ensures ok ==> Keeps(total, old(view), view, idx)
                     && view.dir == Moved(old(view).dir, idx, view.dir[idx].start, size)
    {
      var e := ReadDirent(idx);
      Sectors32Enough(size);
      Sectors32Enough(e.size);
      var newN, oldN, start := Sectors32(size), Sectors32(e.size), e.start;
      SectorsMonotone(e.size, size);
      if newN > oldN {
        start := Grow(idx, size);
        if start == 0 {
          return false;
        }
      }
      WriteDirent(idx, e.(start := start, size := size));
      if newN > oldN {
        GrowKeeps(total, old(view), view, idx, start, size);
        GrowMoves(total, old(view), view, idx, size);
      } else {
        ResizeKeeps(total, old(view), view, idx, size);
        ResizeMoves(total, old(view), view, idx, size);
      }
      SameTree(old(view).dir, view.dir, depth);
      if newN != oldN {
        WriteSuper();
      }
      return true;
    }

    /** One chunk of a write, within one sector. */
    method WriteChunk(sector: nat, at: nat, piece: seq<Byte>)
      requires Ready() && DataStart(total) <= sector < total && at + |piece| <= SECTOR
      modifies cache, this`view
      ensures Ready() && view == old(view).(data := old(view).data[sector := Splice(old(view).data[sector], at, piece)])
    {
      var bytes := ReadData(sector);
      WriteData(sector, Splice(bytes, at, piece));
    }

    /** The data loop of `sfs_vfs_write`. */
    method WriteBytes(start: nat, n: nat, off: nat, data: seq<Byte>)
      requires Ready() && off + |data| <= n * SECTOR
      requires n > 0 ==> DataStart(total) <= start && start + n <= total
      modifies cache, this`view
      ensures Ready() && view == old(view).(data := view.data)
      ensures Overlay(old(view).data, view.data, start, n, off, data)
    {
      var written := 0;
      ghost var before := view.data;
      assert data[..0] == [] && data[..|data|] == data;
      while written < |data|
        invariant 0 <= written <= |data| && Ready() && view == old(view).(data := view.data)
        invariant Overlay(before, view.data, start, n, off, data[..written])
      {
        written := WriteStep(start, n, off, data, written, before);
      }
    }

    /** One turn of the data loop: as many of the remaining bytes as the sector holds. */
    method WriteStep(start: nat, n: nat, off: nat, data: seq<Byte>, written: nat, ghost before: seq<seq<Byte>>)
      returns (next: nat)
      requires Ready() && off + |data| <= n * SECTOR && written < |data|
      requires DataStart(total) <= start && start + n <= total
      requires Overlay(before, view.data, start, n, off, data[..written])
      modifies cache, this`view
      ensures Ready() && view == old(view).(data := view.data) && written < next <= |data|
      ensures Overlay(before, view.data, start, n, off, data[..next])
    {
      var fileOff := off + written;
      ByteIn(fileOff, n);
      var chunk := Chunk(fileOff, |data| - written);
      var piece := data[written..written + chunk];
      OverlayStep(before, view.data, start, n, off, data[..written], piece);
      SliceJoin(data, 0, written, written + chunk);
      WriteChunk(start + fileOff / SECTOR, fileOff % SECTOR, piece);
      next := written + chunk;
    }

    /** `sfs_vfs_write` through a handle of a live entry. */
    method Write(idx: nat, off: nat, data: seq<Byte>) returns (r: Result<nat>)
      requires Valid() && idx < MAX_DIRENTS && !view.dir[idx].kind.Free?
      requires off + |data| <= 0x1_0000_0000 - SECTOR
      modifies cache, this`view, this`free
      ensures Valid()
      ensures r.Err? ==> view == old(view)
      ensures r == Err(EISDIR) <==> old(view).dir[idx].kind.Dir?
      ensures r == Err(ENOSPC) <==>
                old(view).dir[idx].kind.File?
                && Sectors(off + |data|) > Sectors(old(view).dir[idx].size)
                && NoRun(Freed(old(view), idx), DataStart(total), total, Sectors(off + |data|))
      ensures r.Ok? || r == Err(EISDIR) || r == Err(ENOSPC)
      ensures r.Ok? ==> r.value == |data| && Wrote(total, old(view), view, idx, off, data) && cache.disk == cache.Content()
    {
      var e := ReadDirent(idx);
      if e.kind.Dir? {
        return Err(EISDIR);
      }
      var size := Max(off + |data|, e.size);
      SectorsMonotone(e.size, size);
      var ok := Resize(idx, size);
      if !ok {
        return Err(ENOSPC);
      }
      ghost var resized := view;
      e := ReadDirent(idx);
      if size > 0 { ExtentHolds(total, view, idx); }
      WriteBytes(e.start, Sectors(size), off, data);
      SameCovers(total, resized, view);
      WriteIsRight(total, old(view), resized, view, idx, off, data);
      Sync();
      return Ok(|data|);
    }

    /** `sfs_vfs_read` into a buffer with `avail` bytes of room. */
    method Read(idx: nat, off: nat, avail: nat) returns (r: Result<seq<Byte>>)
      requires Valid() && idx < MAX_DIRENTS && !view.dir[idx].kind.Free?
      modifies cache
      ensures Valid()
      ensures view.dir[idx].kind.Dir? <==> r == Err(EISDIR)
      ensures view.dir[idx].kind.File? ==>
                var left := if off >= view.dir[idx].size then 0 else view.dir[idx].size - off;
                r == Ok(if left == 0 then [] else FileBytes(total, view, idx)[off..off + if left > avail then avail else left])
    {
      var e := ReadDirent(idx);
      if e.kind.Dir? {
        return Err(EISDIR);
      }
      if off >= e.size {
        return Ok([]);
      }
      var toRead := e.size - off;
      if toRead > avail {
        toRead := avail;
      }
      ExtentHolds(total, view, idx);
      var out := ReadBytes(e.start, e.size, off, toRead);
      return Ok(out);
    }

    /** The copy loop of `sfs_vfs_read`. */
    method ReadBytes(start: nat, size: nat, off: nat, n: nat) returns (out: seq<Byte>)
      requires Ready() && off + n <= size && DataStart(total) <= start && start + Sectors(size) <= total
      requires Holds(view.data, start, Sectors(size))
      modifies cache
      ensures Ready() && out == Bytes(view.data, start, size)[off..off + n]
    {
      ghost var all := Bytes(view.data, start, size);
      out := [];
      var fileOff := off;
      while |out| < n
        invariant Ready() && |out| <= n && fileOff == off + |out| && out == all[off..fileOff]
      {
        var piece := ReadChunk(start, size, fileOff, n - |out|);
        SliceJoin(all, off, fileOff, fileOff + |piece|);
        out := out + piece;
        fileOff := fileOff + |piece|;
      }
    }

    /** The part of one sector that a read needs. */
    method ReadChunk(start: nat, size: nat, fileOff: nat, left: nat) returns (piece: seq<Byte>)
      requires Ready() && left > 0 && fileOff + left <= size && DataStart(total) <= start && start + Sectors(size) <= total
      requires Holds(view.data, start, Sectors(size))
      modifies cache
      ensures Ready() && 0 < |piece| <= left && piece == Bytes(view.data, start, size)[fileOff..fileOff + |piece|]
    {
      var chunk := Chunk(fileOff, left);
      ChunkIs(view.data, start, size, fileOff, chunk);
      var bytes := ReadData(start + fileOff / SECTOR);
      piece := bytes[fileOff % SECTOR..fileOff % SECTOR + chunk];
    }

    /** `sfs_fsck`: succeeds exactly when every sector of a live file is marked. */
    method Fsck() returns (ok: bool)
      requires Ready() && Inside(total, view.dir)
      modifies cache
      ensures Ready() && (ok <==> Marked(view))
    {
      var i := 0;
      while i < MAX_DIRENTS
        invariant 0 <= i <= MAX_DIRENTS && Ready()
        invariant forall j, s :: Covers(view.dir, j, s) && j < i ==> view.bits[s]
      {
        var e := ReadDirent(i);
        if e.kind.File? && e.size > 0 {
          ExtentHolds(total, view, i);
          var s := e.start;
          while s < e.start + Sectors(e.size)
            invariant e.start <= s <= e.start + Sectors(e.size) && Ready()
            invariant forall t :: e.start <= t < s ==> view.bits[t]
          {
            var taken := BitmapGet(s);
            if !taken {
              assert Covers(view.dir, i, s);
              return false;
            }
            s := s + 1;
          }
        }
        i := i + 1;
      }
      return true;
    }

    /** The entry scan of the lookups. */
    method FindChild(dirsOnly: bool, parent: nat, name: string) returns (r: nat)
      requires Ready()
      modifies cache
      ensures Ready() && r == Child(view.dir, dirsOnly, parent, name)
    {
      r := 0;
      while r < MAX_DIRENTS
        invariant 0 <= r <= MAX_DIRENTS && Ready()
        invariant Child(view.dir, dirsOnly, parent, name) == Child(view.dir, dirsOnly, parent, name, r)
      {
        var e := ReadDirent(r);
        if Matches(e, dirsOnly, parent, name) {
          return;
        }
        r := r + 1;
      }
    }

    static method FindSep(path: string) returns (k: nat)
      ensures k == Sep(path)
    {
      k := 0;
      while k < |path| && path[k] != '/'
        invariant 0 <= k <= |path| && forall j :: 0 <= j < k ==> path[j] != '/'
      {
        k := k + 1;
      }
      SepIs(path, k);
    }

    /** The component loop of the lookups. */
    method WalkPath(dirsOnly: bool, path: string) returns (at: nat)
      requires Ready()
      modifies cache
      ensures Ready() && at == Walk(view.dir, dirsOnly, 0, path)
    {
      at := 0;
      var rest := path;
      while rest != ""
        invariant Ready() && at < MAX_DIRENTS && Walk(view.dir, dirsOnly, 0, path) == Walk(view.dir, dirsOnly, at, rest)
        decreases |rest|
      {
        var k := FindSep(rest);
        var c := FindChild(dirsOnly, at, rest[..k]);
        if c == MAX_DIRENTS {
          return MAX_DIRENTS;
        }
        at := c;
        rest := Rest(rest);
      }
    }

    static method Strip(path: string) returns (p: string)
      ensures p == Stripped(path)
    {
      p := path;
      if |p| > 0 && p[0] == '/' {
        p := p[1..];
      }
      if |p| > 0 && p[|p| - 1] == '/' {
        p := p[..|p| - 1];
      }
    }

    /** `sfs_lookup`. */
    method LookupPath(path: string) returns (r: nat)
      requires Ready()
      modifies cache
      ensures Ready() && r == Lookup(view.dir, path) && Resolves(view.dir, path, r)
    {
      PathMeans(view.dir, path);
      var p := Strip(path);
      r := WalkPath(false, p);
    }

    static method FindNameStart(p: string) returns (n: nat)
      ensures n == NameStart(p)
    {
      n := 0;
      for i := 0 to |p|
        invariant n <= i && (n > 0 ==> p[n - 1] == '/') && forall j :: n <= j < i ==> p[j] != '/'
      {
        if p[i] == '/' {
          n := i + 1;
        }
      }
      NameStartIs(p, n);
    }

    /** `sfs_lookup_parent`. */
    method ParentDir(path: string) returns (r: nat, name: string)
      requires Ready()
      modifies cache
      ensures Ready() && r == LookupParent(view.dir, path) && name == BaseName(path) && Divides(view.dir, path, r, name)
    {
      ParentMeans(view.dir, path);
      var p := Strip(path);
      var n := FindNameStart(p);
      name := p[n..];
      if n == 0 {
        return 0, name;
      }
      r := WalkPath(true, p[..n - 1]);
    }

    /** `sfs_alloc_dirent`: the first free entry. */
    method AllocDirent() returns (r: nat)
      requires Ready()
      modifies cache
      ensures Ready() && r <= MAX_DIRENTS && (r < MAX_DIRENTS ==> view.dir[r].kind.Free?)
      ensures forall i :: 0 <= i < r ==> !view.dir[i].kind.Free?
    {
      r := 0;
      while r < MAX_DIRENTS
        invariant 0 <= r <= MAX_DIRENTS && Ready()
        invariant forall i :: 0 <= i < r ==> !view.dir[i].kind.Free?
      {
        var e := ReadDirent(r);
        if e.kind.Free? {
          return;
        }
        r := r + 1;
      }
    }

    /** The new entry is stored and everything synced. */
    method PlaceEntry(slot: nat, e: Dirent, ghost path: string)
      requires Valid() && slot < MAX_DIRENTS && view.dir[slot].kind.Free?
      requires !e.kind.Free? && e.parent == LookupParent(view.dir, path) < MAX_DIRENTS && e.size == 0 && '\0' !in e.name
      requires Lookup(view.dir, path) == MAX_DIRENTS && BaseName(path) != "" && e.name == CString(BaseName(path))
      modifies cache, this`view, this`depth
      ensures Valid() && view == old(view).(dir := old(view).dir[slot := e]) && cache.disk == cache.Content()
      ensures NamesAfter(old(view).dir, view.dir, slot, path)
    {
      NamesAfterCreate(view.dir, depth, slot, e, path);
      EmptyEntryKeeps(total, view, slot, e);
      StoreEntry(slot, e, depth[slot := depth[e.parent] + 1]);
    }

    /** An entry that keeps the invariant is stored and everything synced. */
    method StoreEntry(slot: nat, e: Dirent, ghost ranks: seq<nat>)
      requires Ready() && slot < MAX_DIRENTS
      requires SpaceOk(total, view.(dir := view.dir[slot := e])) && Tree(view.dir[slot := e], ranks)
      requires SmallFiles(view.dir[slot := e]) && CleanNames(view.dir[slot := e])
      modifies cache, this`view, this`depth
      ensures Valid() && view == old(view).(dir := old(view).dir[slot := e]) && cache.disk == cache.Content()
    {
      WriteDirent(slot, e);
      depth := ranks;
      Sync();
    }

    /** `sfs_vfs_create` and `sfs_vfs_mkdir`, which differ in the kind of the new entry. */
    method Make(path: string, kind: Kind) returns (r: Result<()>, ghost slot: nat)
      requires Valid() && !kind.Free?
      modifies cache, this`view, this`depth
      ensures Valid() && (r.Err? ==> view == old(view))
      ensures r == Err(EEXIST) <==> Lookup(old(view).dir, path) < MAX_DIRENTS
      ensures r == Err(ENOENT) <==>
                Lookup(old(view).dir, path) == MAX_DIRENTS && LookupParent(old(view).dir, path) == MAX_DIRENTS
      ensures r == Err(ENAMETOOLONG) <==>
                Lookup(old(view).dir, path) == MAX_DIRENTS && LookupParent(old(view).dir, path) < MAX_DIRENTS
                && !(0 < |BaseName(path)| <= NAME_MAX)
      ensures r == Err(ENOSPC) <==>
                Lookup(old(view).dir, path) == MAX_DIRENTS && LookupParent(old(view).dir, path) < MAX_DIRENTS
                && 0 < |BaseName(path)| <= NAME_MAX && forall i :: 0 <= i < MAX_DIRENTS ==> !old(view).dir[i].kind.Free?
      ensures r.Err? ==> r.errno in {EEXIST, ENOENT, ENAMETOOLONG, ENOSPC}
      ensures r == MakeOutcome(old(view).dir, path)
      ensures r.Ok? ==> MadeEntry(old(view), view, slot, path, kind)
      ensures r.Ok? ==> NamesAfter(old(view).dir, view.dir, slot, path)
      ensures r.Ok? ==> cache.disk == cache.Content()
    {
      slot := 0;
      var existing := LookupPath(path);
      if existing != MAX_DIRENTS {
        r := Err(EEXIST);
        return;
      }
      var parent, name := ParentDir(path);
      if parent == MAX_DIRENTS {
        r := Err(ENOENT);
        return;
      }
      if |name| == 0 || |name| > NAME_MAX {
        r := Err(ENAMETOOLONG);
        return;
      }
      var s := AllocDirent();
      if s == MAX_DIRENTS {
        r := Err(ENOSPC);
        return;
      }
      slot := s;
      PlaceEntry(s, Dirent(CString(name), kind, parent, 0, 0), path);
      r := Ok(());
    }

    /** `sfs_vfs_create`. */
    method Create(path: string) returns (r: Result<()>, ghost slot: nat)
      requires Valid()
      modifies cache, this`view, this`depth
      ensures Valid() && (r.Err? ==> view == old(view)) && r == MakeOutcome(old(view).dir, path)
      ensures r.Ok? ==> MadeEntry(old(view), view, slot, path, File) && FileBytes(total, view, slot) == []
      ensures r.Ok? ==> NamesAfter(old(view).dir, view.dir, slot, path)
    {
      r, slot := Make(path, File);
    }

    /** `sfs_vfs_mkdir`. */
    method Mkdir(path: string) returns (r: Result<()>, ghost slot: nat)
      requires Valid()
      modifies cache, this`view, this`depth
      ensures Valid() && (r.Err? ==> view == old(view)) && r == MakeOutcome(old(view).dir, path)
      ensures r.Ok? ==> MadeEntry(old(view), view, slot, path, Dir) && Childless(view.dir, slot)
      ensures r.Ok? ==> NamesAfter(old(view).dir, view.dir, slot, path)
    {
      ghost var before, ranks := view.dir, depth;
      r, slot := Make(path, Dir);
      if r.Ok? {
        FreshIsChildless(before, ranks, slot, view.dir[slot]);
      }
    }

    /** The extent and the entry of one file are given up. */
    method Erase(i: nat, e: Dirent, ghost path: string)
      requires Valid() && i < MAX_DIRENTS && view.dir[i] == e && e.kind.File? && Lookup(view.dir, path) == i
      modifies cache, this`view, this`free
      ensures Valid() && Unlinked(total, old(view), view, i, path)
    {
      if e.size > 0 {
        ExtentHolds(total, view, i);
        BitmapFree(e.start, Sectors(e.size));
      }
      assert view.bits == Freed(old(view), i);
      WriteDirent(i, e.(kind := Free));
      UnlinkIsRight(total, old(view), view, depth, i, path);
    }

    /** `sfs_vfs_unlink`. */
    method Unlink(path: string) returns (r: Result<()>)
      requires Valid()
      modifies cache, this`view, this`free
      ensures Valid() && (r.Err? ==> view == old(view))
      ensures r == Err(ENOENT) <==> Lookup(old(view).dir, path) == MAX_DIRENTS
      ensures r == Err(EISDIR) <==>
                Lookup(old(view).dir, path) < MAX_DIRENTS && old(view).dir[Lookup(old(view).dir, path)].kind.Dir?
      ensures r.Err? ==> r.errno in {ENOENT, EISDIR}
      ensures r.Ok? ==> Unlinked(total, old(view), view, Lookup(old(view).dir, path), path) && cache.disk == cache.Content()
    {
      var i := LookupPath(path);
      if i == MAX_DIRENTS {
        return Err(ENOENT);
      }
      WalkIsLive(view.dir, false, 0, Stripped(path));
      var e := ReadDirent(i);
      if e.kind.Dir? {
        return Err(EISDIR);
      }
      Erase(i, e, path);
      WriteSuper();
      Sync();
      return Ok(());
    }

    /** The emptiness scan of `sfs_vfs_rmdir`. */
    method HasChildren(i: nat) returns (found: bool)
      requires Ready()
      modifies cache
      ensures Ready() && found == !Childless(view.dir, i)
    {
      var j := 0;
      while j < MAX_DIRENTS
        invariant 0 <= j <= MAX_DIRENTS && Ready()
        invariant forall k :: 0 <= k < j && !view.dir[k].kind.Free? ==> view.dir[k].parent != i
      {
        var e := ReadDirent(j);
        if !e.kind.Free? && e.parent == i {
          return true;
        }
        j := j + 1;
      }
      return false;
    }

    /** `sfs_vfs_rmdir`. */
    method Rmdir(path: string) returns (r: Result<()>)
      requires Valid()
      modifies cache, this`view
      ensures Valid() && (r.Err? ==> view == old(view))
      ensures var i := Lookup(old(view).dir, path);
              && (r == Err(ENOENT) <==> i == MAX_DIRENTS || i == 0)
              && (r == Err(ENOTDIR) <==> 0 < i < MAX_DIRENTS && old(view).dir[i].kind.File?)
              && (r == Err(ENOTEMPTY) <==> 0 < i < MAX_DIRENTS && old(view).dir[i].kind.Dir? && !Childless(old(view).dir, i))
              && (r.Err? ==> r.errno in {ENOENT, ENOTDIR, ENOTEMPTY})
              && (r.Ok? ==> view == old(view).(dir := old(view).dir[i := old(view).dir[i].(kind := Free)])
                            && Gone(old(view).dir, view.dir, path) && cache.disk == cache.Content())
    {
      var i := LookupPath(path);
      if i == MAX_DIRENTS || i == 0 {
        return Err(ENOENT);
      }
      WalkIsLive(view.dir, false, 0, Stripped(path));
      var e := ReadDirent(i);
      if !e.kind.Dir? {
        return Err(ENOTDIR);
      }
      var found := HasChildren(i);
      if found {
        return Err(ENOTEMPTY);
      }
      RmdirIsRight(total, view, depth, i, path);
      e := ReadDirent(i);
      WriteDirent(i, e.(kind := Free));
      Sync();
      return Ok(());
    }

    /** A write opens the path first. */
    method WritePath(path: string, off: nat, data: seq<Byte>)
      requires Valid() && Store(path, off, data).Small()
      modifies cache, this`view, this`free
      ensures Valid() && Steps(total, old(view), Store(path, off, data), view)
      ensures Unique(old(view).dir) ==> Unique(view.dir)
    {
      var i := LookupPath(path);
      if i < MAX_DIRENTS {
        WalkIsLive(view.dir, false, 0, Stripped(path));
        var r := Write(i, off, data);
        if r.Ok? { SameTree(old(view).dir, view.dir, depth); }
      }
    }

    /** One operation by path. */
    method Apply(op: Op)
      requires Valid() && op.Small()
      modifies cache, this`view, this`depth, this`free
      ensures Valid() && (Unique(old(view).dir) && op.Plain() ==> Unique(view.dir))
      ensures Steps(total, old(view), op, view)
    {
      match op
      case Creat(path) =>
        var r, slot := Create(path);
      case MakeDir(path) =>
        var r, slot := Mkdir(path);
      case Remove(path) =>
        var r := Unlink(path);
        WalkIsLive(old(view).dir, false, 0, Stripped(path));
      case RemoveDir(path) =>
        var r := Rmdir(path);
        WalkIsLive(old(view).dir, false, 0, Stripped(path));
      case Store(path, off, data) =>
        WritePath(path, off, data);
    }
  }

  lemma FreshIsChildless(dir: seq<Dirent>, depth: seq<nat>, slot: nat, e: Dirent)
    requires Tree(dir, depth) && slot < MAX_DIRENTS && dir[slot].kind.Free? && e.parent != slot
    ensures Childless(dir[slot := e], slot)
  {
    assert forall j :: 0 < j < MAX_DIRENTS && !dir[j].kind.Free? ==> HangsBelow(dir, depth, j);
  }

  ghost predicate AllPlain(ops: seq<Op>) {
    forall i {:trigger ops[i].Plain()} :: 0 <= i < |ops| ==> ops[i].Plain()
  }

  /** A run that is plain with one more operation is plain without it. */
  lemma AllPlainNext(ops: seq<Op>, op: Op)
    requires AllPlain(ops + [op])
    ensures AllPlain(ops) && op.Plain()
  {
    assert (ops + [op])[|ops|].Plain();
    forall j | 0 <= j < |ops|
      ensures ops[j].Plain()
    {
      assert (ops + [op])[j].Plain();
    }
  }

  /** The filesystem is where the history has led. Only a mention of `Opened` unfolds this,
      so the run carries it along without looking inside. */
  ghost predicate RunState(fs: Filesystem, views: seq<View>, ops: seq<Op>)
    reads fs, fs.cache
  {
    forall u {:trigger Opened(u)} :: Opened(u) ==>
      && fs.Valid() && History(fs.total, views, ops) && fs.view == views[|ops|]
      && (AllPlain(ops) ==> Unique(fs.view.dir))
  }

  /** A history goes on with one operation. */
  method ApplyNext(fs: Filesystem, op: Op, ghost views: seq<View>, ghost ops: seq<Op>)
    requires RunState(fs, views, ops) && op.Small()
    modifies fs, fs.cache
    ensures RunState(fs, views + [fs.view], ops + [op])
  {
    assert Opened(0);
    fs.Apply(op);
    HistoryNext(fs.total, views, ops, op, fs.view);
    if AllPlain(ops + [op]) { AllPlainNext(ops, op); }
  }

  /** A run on a freshly formatted filesystem. */
  method RunOps(fs: Filesystem, ops: seq<Op>) returns (ghost views: seq<View>)
    requires RunState(fs, [fs.view], [])
    requires forall i :: 0 <= i < |ops| ==> ops[i].Small()
    modifies fs, fs.cache
    ensures RunState(fs, views, ops)
  {
    views := [fs.view];
    assert ops[..0] == [];
    for i := 0 to |ops|
      invariant RunState(fs, views, ops[..i])
    {
      ApplyNext(fs, ops[i], views, ops[..i]);
      views := views + [fs.view];
      assert ops[..i + 1] == ops[..i] + [ops[i]];
    }
    assert ops[..|ops|] == ops;
  }

  /** Every run from a fresh cache over a disk of any content, failed operations included,
      goes through the specified views and keeps the invariant, so the check finds nothing;
      with plain paths sibling names stay unique. */
  method RunFromFormat(disk: seq<Sector>, nBufs: nat, total: nat, ops: seq<Op>)
    returns (fs: Filesystem, ok: bool, ghost views: seq<View>)
    requires Shaped(total, disk) && nBufs >= 3
    requires forall i :: 0 <= i < |ops| ==> ops[i].Small()
    ensures fresh(fs) && fresh(fs.cache) && fs.total == total && fs.Valid() && ok
    ensures History(total, views, ops) && fs.view == views[|ops|]
    ensures AllPlain(ops) ==> Unique(fs.view.dir)
    ensures forall i :: 0 <= i < MAX_DIRENTS && !fs.view.dir[i].kind.Free? ==> ReachesRoot(fs.view.dir, i, fs.depth[i])
  {
    var cache := new BCache(disk, nBufs, SuperSec(0));
    fs := new Filesystem.Format(cache, total);
    views := RunOps(fs, ops);
    assert Opened(0);
    ok := fs.Fsck();
    forall i | 0 <= i < MAX_DIRENTS && !fs.view.dir[i].kind.Free?
      ensures ReachesRoot(fs.view.dir, i, fs.depth[i])
    {
      ParentChainsReachRoot(fs.view.dir, fs.depth, i);
    }
  }
}

/** Contiguous extents, the allocation bitmap, and what growing a file does to both. */
module SfsExtents {
  import opened SfsImage

  /** Sectors for a size, rounded up. */
  function Sectors(size: nat): (n: nat)
    ensures size <= n * SECTOR < size + SECTOR
  {
    (size + SECTOR - 1) / SECTOR
  }

  /** The same in the 32-bit arithmetic of `sfs_vfs_write`. */
  function Sectors32(size: nat): nat {
    ((size % 0x1_0000_0000 + SECTOR - 1) % 0x1_0000_0000) / SECTOR
  }

  /** The 32-bit form allocates enough exactly up to the last full sector below 4 GiB. */
  lemma Sectors32Enough(size: nat)
    ensures Sectors32(size) * SECTOR >= size <==> size <= 0x1_0000_0000 - SECTOR
    ensures size <= 0x1_0000_0000 - SECTOR ==> Sectors32(size) == Sectors(size)
  {
    if size <= 0x1_0000_0000 - SECTOR {
      assert size % 0x1_0000_0000 == size;
      assert (size + SECTOR - 1) % 0x1_0000_0000 == size + SECTOR - 1;
    } else {
      assert (size % 0x1_0000_0000 + SECTOR - 1) % 0x1_0000_0000 <= 0xFFFF_FFFF;
      assert Sectors32(size) <= 0xFFFF_FFFF / SECTOR;
    }
  }

  /** Sector s belongs to the extent of live file i. */
  ghost predicate Covers(dir: seq<Dirent>, i: int, s: int) {
    0 <= i < |dir| && dir[i].kind.File? && dir[i].start <= s < dir[i].start + Sectors(dir[i].size)
  }

  ghost predicate Sized(total: nat, v: View) {
    && DataStart(total) <= total && |v.bits| == total && |v.dir| == MAX_DIRENTS && |v.data| == total
    && forall s :: DataStart(total) <= s < total ==> |v.data[s]| == SECTOR
  }

  /** Extents lie in the data region. */
  ghost predicate Inside(total: nat, dir: seq<Dirent>) {
    forall i, s {:trigger Covers(dir, i, s)} :: Covers(dir, i, s) ==> DataStart(total) <= s < total
  }

  /** No sector belongs to two files. */
  ghost predicate Disjoint(dir: seq<Dirent>) {
    forall i, j, s {:trigger Covers(dir, i, s), Covers(dir, j, s)} :: Covers(dir, i, s) && Covers(dir, j, s) ==> i == j
  }

  /** What `sfs_fsck` checks: every sector of a live file is marked. */
  ghost predicate Marked(v: View) {
    forall i, s {:trigger Covers(v.dir, i, s)} :: Covers(v.dir, i, s) && 0 <= s < |v.bits| ==> v.bits[s]
  }

  /** Nothing else in the data region is marked: no sector leaks. */
  ghost predicate NoLeak(total: nat, v: View)
    requires |v.bits| == total
  {
    forall s :: DataStart(total) <= s < total && v.bits[s] ==> exists i :: Covers(v.dir, i, s)
  }

  ghost predicate Reserved(total: nat, bits: seq<bool>) {
    forall s :: 0 <= s < DataStart(total) && s < |bits| ==> bits[s]
  }

  /** The space invariant: extents are inside the data region and disjoint, and the bitmap
      marks exactly the reserved sectors and the extents. */
  ghost predicate SpaceOk(total: nat, v: View) {
    && Sized(total, v) && Inside(total, v.dir) && Disjoint(v.dir)
    && Marked(v) && NoLeak(total, v) && Reserved(total, v.bits)
  }

  ghost predicate RunFree(bits: seq<bool>, start: nat, n: nat) {
    start + n <= |bits| && forall s :: start <= s < start + n ==> !bits[s]
  }

  /** The run begins at the data region or right behind a marked sector. */
  ghost predicate LeftMaximal(bits: seq<bool>, from: nat, r: nat) {
    r == from || (0 < r <= |bits| && bits[r - 1])
  }

  ghost predicate NoRun(bits: seq<bool>, from: nat, upto: nat, n: nat) {
    forall a: nat {:trigger RunFree(bits, a, n)} :: from <= a && a + n <= upto ==> !RunFree(bits, a, n)
  }

  /** The scan passed sector s without completing a run: if s is free, the current free
      stretch begins at `runStart` and is still shorter than n. */
  lemma NoRunStep(bits: seq<bool>, from: nat, s: nat, n: nat, runStart: nat)
    requires from <= s < |bits| && n > 0 && NoRun(bits, from, s, n)
    requires bits[s] || (s + 1 - n < runStart <= s && LeftMaximal(bits, from, runStart))
    ensures NoRun(bits, from, s + 1, n)
  {
    forall a: nat | from <= a && a + n <= s + 1
      ensures !RunFree(bits, a, n)
    {
      assert a + n == s + 1 && !bits[s] ==> a <= runStart - 1 && bits[runStart - 1];
    }
  }

  /** The scan state of `bitmap_alloc` before sector s. */
  ghost predicate Scanning(bits: seq<bool>, from: nat, s: nat, n: nat, runStart: nat, runLen: nat) {
    && from <= s <= |bits| && runLen < n && NoRun(bits, from, s, n)
    && (if runLen == 0 then LeftMaximal(bits, from, s)
        else from <= runStart && runStart + runLen == s && RunFree(bits, runStart, runLen) && LeftMaximal(bits, from, runStart))
  }

  lemma ScanFree(bits: seq<bool>, from: nat, s: nat, n: nat, runStart: nat, runLen: nat)
    requires Scanning(bits, from, s, n, runStart, runLen) && s < |bits| && !bits[s]
    ensures var r := if runLen == 0 then s else runStart;
            && from <= r && RunFree(bits, r, runLen + 1) && LeftMaximal(bits, from, r)
            && (runLen + 1 < n ==> Scanning(bits, from, s + 1, n, r, runLen + 1))
  {
    if runLen + 1 < n { NoRunStep(bits, from, s, n, if runLen == 0 then s else runStart); }
  }

  /** A complete run refutes that there is none. */
  lemma RunRefutes(bits: seq<bool>, from: nat, r: nat, n: nat)
    requires from <= r && RunFree(bits, r, n)
    ensures !NoRun(bits, from, |bits|, n)
  {
  }

  lemma ScanTaken(bits: seq<bool>, from: nat, s: nat, n: nat, runStart: nat, runLen: nat)
    requires Scanning(bits, from, s, n, runStart, runLen) && s < |bits| && bits[s]
    ensures Scanning(bits, from, s + 1, n, runStart, 0)
  {
    NoRunStep(bits, from, s, n, s);
  }

  /** The data after the first n sectors of an ascending copy. */
  ghost function CopyTo<T>(data: seq<T>, from: nat, to: nat, n: nat): (r: seq<T>)
    requires from + n <= |data| && to + n <= |data|
    ensures |r| == |data|
    ensures forall t :: 0 <= t < |r| ==> r[t] == if to <= t < to + n then data[from + (t - to)] else data[t]
  {
    seq(|data|, t requires 0 <= t < |data| => if to <= t < to + n then data[from + (t - to)] else data[t])
  }

  /** The sector copied next has not been overwritten yet. */
  lemma CopyStep<T>(data: seq<T>, from: nat, to: nat, s: nat)
    requires from + s < |data| && to + s < |data| && (to <= from || from + s < to)
    ensures CopyTo(data, from, to, s)[from + s] == data[from + s]
    ensures CopyTo(data, from, to, s)[to + s := data[from + s]] == CopyTo(data, from, to, s + 1)
  {
  }

  /** First fit never starts strictly inside a free stretch: a run that meets the just
      freed extent starts at or before it. */
  lemma FirstFitStartsBefore(bits: seq<bool>, from: nat, start: nat, oldN: nat, r: nat)
    requires from <= start && start + oldN <= |bits| && RunFree(bits, start, oldN)
    requires LeftMaximal(bits, from, r) && from <= r
    ensures r <= start || start + oldN <= r
  {
  }

  /** Byte k of the extent that begins at `start`. */
  ghost function ByteAt(data: seq<seq<Byte>>, start: nat, k: nat): Byte
    requires start + k / SECTOR < |data| && |data[start + k / SECTOR]| == SECTOR
  {
    data[start + k / SECTOR][k % SECTOR]
  }

  ghost predicate Holds(data: seq<seq<Byte>>, start: nat, n: nat) {
    (n > 0 ==> start + n <= |data|) && forall s :: start <= s < start + n && s < |data| ==> |data[s]| == SECTOR
  }

  lemma ByteIn(k: nat, n: nat)
    requires k < n * SECTOR
    ensures k / SECTOR < n
  {
  }

  ghost function Bytes(data: seq<seq<Byte>>, start: nat, size: nat): (b: seq<Byte>)
    requires Holds(data, start, Sectors(size))
    ensures |b| == size
    ensures forall k :: 0 <= k < size ==> start + k / SECTOR < |data| && |data[start + k / SECTOR]| == SECTOR
                                          && b[k] == ByteAt(data, start, k)
  {
    forall k | 0 <= k < size
      ensures start + k / SECTOR < |data| && |data[start + k / SECTOR]| == SECTOR
    {
      ByteIn(k, Sectors(size));
    }
    seq(size, k requires 0 <= k < size => ByteAt(data, start, k))
  }

  /** The extent of entry e is in the data region and of whole sectors. */
  lemma ExtentHolds(total: nat, v: View, i: nat)
    requires Sized(total, v) && Inside(total, v.dir) && i < |v.dir| && v.dir[i].kind.File? && v.dir[i].size > 0
    ensures DataStart(total) <= v.dir[i].start && v.dir[i].start + Sectors(v.dir[i].size) <= total
    ensures Holds(v.data, v.dir[i].start, Sectors(v.dir[i].size))
  {
    assert Covers(v.dir, i, v.dir[i].start);
    assert Covers(v.dir, i, v.dir[i].start + Sectors(v.dir[i].size) - 1);
  }

  /** The content of live file i. */
  ghost function FileBytes(total: nat, v: View, i: nat): (b: seq<Byte>)
    requires Sized(total, v) && Inside(total, v.dir) && i < |v.dir| && v.dir[i].kind.File?
    ensures |b| == v.dir[i].size
  {
    if v.dir[i].size == 0 then []
    else
      ExtentHolds(total, v, i);
      Bytes(v.data, v.dir[i].start, v.dir[i].size)
  }

  lemma SameBytes(a: seq<seq<Byte>>, start: nat, b: seq<seq<Byte>>, start': nat, size: nat)
    requires Holds(a, start, Sectors(size)) && Holds(b, start', Sectors(size))
    requires start + Sectors(size) <= |a| && start' + Sectors(size) <= |b|
    requires a[start..start + Sectors(size)] == b[start'..start' + Sectors(size)]
    ensures Bytes(a, start, size) == Bytes(b, start', size)
  {
    forall k | 0 <= k < size
      ensures Bytes(a, start, size)[k] == Bytes(b, start', size)[k]
    {
      ByteIn(k, Sectors(size));
      assert a[start + k / SECTOR] == a[start..start + Sectors(size)][k / SECTOR];
    }
  }

  /** The entry of idx after its file got the run [r, r + Sectors(size)). */
  ghost function Moved(dir: seq<Dirent>, idx: nat, r: nat, size: nat): seq<Dirent>
    requires idx < |dir|
  {
    dir[idx := dir[idx].(start := r, size := size)]
  }

  /** The bits after the old extent of idx was freed. */
  ghost function Freed(v: View, idx: nat): seq<bool>
    requires idx < |v.dir|
  {
    SetRange(v.bits, v.dir[idx].start, Sectors(v.dir[idx].size), false)
  }

  /** A sector that is free once idx gave up its extent belongs to no other file. */
  lemma FreedIsUnowned(total: nat, v: View, idx: nat, i: nat, s: nat)
    requires SpaceOk(total, v) && idx < MAX_DIRENTS && v.dir[idx].kind.File?
    requires s < total && !Freed(v, idx)[s] && Covers(v.dir, i, s)
    ensures i == idx
  {
    assert v.bits[s];
    assert Covers(v.dir, idx, s);
  }

  /** Freeing a file's extent, taking a free run and pointing the entry at it keeps the
      space invariant. */
  lemma GrowKeeps(total: nat, v: View, w: View, idx: nat, r: nat, size: nat)
    requires SpaceOk(total, v) && idx < MAX_DIRENTS && v.dir[idx].kind.File?
    requires DataStart(total) <= r && RunFree(Freed(v, idx), r, Sectors(size))
    requires Sized(total, w) && w.dir == Moved(v.dir, idx, r, size)
    requires w.bits == SetRange(Freed(v, idx), r, Sectors(size), true)
    ensures SpaceOk(total, w)
  {
    assert forall i, s :: i != idx ==> Covers(w.dir, i, s) == Covers(v.dir, i, s);
    forall i, s | Covers(w.dir, i, s) && i != idx
      ensures DataStart(total) <= s < total && !Covers(w.dir, idx, s) && w.bits[s]
    {
      assert Covers(v.dir, i, s);
      assert !Covers(v.dir, idx, s);
      if !Freed(v, idx)[s] { FreedIsUnowned(total, v, idx, i, s); }
    }
    assert Inside(total, w.dir);
    assert Disjoint(w.dir);
    assert Marked(w);
    forall s | DataStart(total) <= s < total && w.bits[s]
      ensures exists i :: Covers(w.dir, i, s)
    {
      if r <= s < r + Sectors(size) {
        assert Covers(w.dir, idx, s);
      } else {
        assert v.bits[s] && !Covers(v.dir, idx, s);
        var i :| Covers(v.dir, i, s);
        assert Covers(w.dir, i, s);
      }
    }
    forall s | 0 <= s < DataStart(total)
      ensures w.bits[s]
    {
      assert !Covers(v.dir, idx, s);
    }
  }

  /** The same with the extent kept: only the size changes, within the same sectors. */
  lemma ResizeKeeps(total: nat, v: View, w: View, idx: nat, size: nat)
    requires SpaceOk(total, v) && idx < MAX_DIRENTS && v.dir[idx].kind.File?
    requires Sized(total, w) && w.dir == v.dir[idx := v.dir[idx].(size := size)] && w.bits == v.bits
    requires Sectors(size) == Sectors(v.dir[idx].size)
    ensures SpaceOk(total, w)
  {
    SameCovers(total, v, w);
  }

  /** Entries with the same extents carry the space invariant over. */
  lemma SameCovers(total: nat, v: View, w: View)
    requires SpaceOk(total, v) && Sized(total, w) && w.bits == v.bits
    requires forall i, s :: Covers(w.dir, i, s) == Covers(v.dir, i, s)
    ensures SpaceOk(total, w)
  {
    forall s | DataStart(total) <= s < total && w.bits[s]
      ensures exists i :: Covers(w.dir, i, s)
    {
      var i :| Covers(v.dir, i, s);
      assert Covers(w.dir, i, s);
    }
  }

  /** Freeing a file's extent together with its entry keeps the space invariant. */
  lemma UnlinkKeeps(total: nat, v: View, w: View, idx: nat)
    requires SpaceOk(total, v) && idx < MAX_DIRENTS && v.dir[idx].kind.File?
    requires w == View(Freed(v, idx), v.dir[idx := v.dir[idx].(kind := Free)], v.data)
    ensures SpaceOk(total, w)
  {
    assert forall i, s :: Covers(w.dir, i, s) == (i != idx && Covers(v.dir, i, s));
    forall i, s | Covers(w.dir, i, s)
      ensures DataStart(total) <= s < total && w.bits[s]
    {
      assert Covers(v.dir, i, s);
      assert !Covers(v.dir, idx, s);
    }
    assert Inside(total, w.dir);
    assert Disjoint(w.dir);
    assert Marked(w);
    forall s | DataStart(total) <= s < total && w.bits[s]
      ensures exists i :: Covers(w.dir, i, s)
    {
      assert v.bits[s] && !Covers(v.dir, idx, s);
      var i :| Covers(v.dir, i, s);
      assert Covers(w.dir, i, s);
    }
    forall s | 0 <= s < DataStart(total)
      ensures w.bits[s]
    {
      assert !Covers(v.dir, idx, s);
    }
  }

  /** Storing only into the sectors of idx changes no other file's content. */
  lemma OthersKeep(total: nat, v: View, w: View, idx: nat, j: nat)
    requires SpaceOk(total, v) && SpaceOk(total, w) && idx < MAX_DIRENTS && j < MAX_DIRENTS && j != idx
    requires w.dir[j] == v.dir[j] && v.dir[j].kind.File?
    requires forall s :: 0 <= s < total && !Covers(w.dir, idx, s) ==> w.data[s] == v.data[s]
    ensures FileBytes(total, w, j) == FileBytes(total, v, j)
  {
    if v.dir[j].size > 0 {
      ExtentHolds(total, v, j);
      ExtentHolds(total, w, j);
      var a, n := v.dir[j].start, Sectors(v.dir[j].size);
      forall s | a <= s < a + n
        ensures w.data[s] == v.data[s]
      {
        assert Covers(w.dir, j, s);
      }
      assert v.data[a..a + n] == w.data[a..a + n];
      SameBytes(v.data, a, w.data, a, v.dir[j].size);
    }
  }

  /** A piece of bytes stored at an offset of one sector. */
  function Splice(sector: seq<Byte>, at: nat, piece: seq<Byte>): (r: seq<Byte>)
    requires at + |piece| <= |sector|
    ensures |r| == |sector|
    ensures forall k :: 0 <= k < |r| ==> r[k] == if at <= k < at + |piece| then piece[k - at] else sector[k]
  {
    sector[..at] + piece + sector[at + |piece|..]
  }

  lemma SameSector(k: nat, off: nat, n: nat)
    requires off % SECTOR + n <= SECTOR
    ensures off <= k < off + n <==> k / SECTOR == off / SECTOR && off % SECTOR <= k % SECTOR < off % SECTOR + n
    ensures off <= k < off + n ==> k % SECTOR - off % SECTOR == k - off
  {
  }

  /** Byte k of an extent of n sectors. */
  ghost function ExtentByte(data: seq<seq<Byte>>, start: nat, n: nat, k: nat): Byte
    requires Holds(data, start, n) && k < n * SECTOR
  {
    ByteIn(k, n);
    ByteAt(data, start, k)
  }

  /** b is a with the bytes d stored at offset `off` of the extent, and nothing else. */
  ghost predicate Overlay(a: seq<seq<Byte>>, b: seq<seq<Byte>>, start: nat, n: nat, off: nat, d: seq<Byte>) {
    && |a| == |b| && Holds(a, start, n) && Holds(b, start, n)
    && (forall s :: 0 <= s < |a| && !(start <= s < start + n) ==> b[s] == a[s])
    && forall k: nat :: k < n * SECTOR ==>
         ExtentByte(b, start, n, k) == if off <= k < off + |d| then d[k - off] else ExtentByte(a, start, n, k)
  }

  /** One chunk of the write loop, seen as bytes of the extent. */
  lemma SpliceBytes(data: seq<seq<Byte>>, start: nat, n: nat, off: nat, piece: seq<Byte>, k: nat)
    requires Holds(data, start, n) && off / SECTOR < n && off % SECTOR + |piece| <= SECTOR && k < n * SECTOR
    ensures var b := start + off / SECTOR;
            var data' := data[b := Splice(data[b], off % SECTOR, piece)];
            Holds(data', start, n)
            && ExtentByte(data', start, n, k)
            == if off <= k < off + |piece| then piece[k - off] else ExtentByte(data, start, n, k)
  {
    ByteIn(k, n);
    SameSector(k, off, |piece|);
  }

  lemma OverlayStep(a: seq<seq<Byte>>, b: seq<seq<Byte>>, start: nat, n: nat, off: nat, d: seq<Byte>, piece: seq<Byte>)
    requires Overlay(a, b, start, n, off, d)
    requires (off + |d|) / SECTOR < n && (off + |d|) % SECTOR + |piece| <= SECTOR
    ensures var s := start + (off + |d|) / SECTOR;
            Overlay(a, b[s := Splice(b[s], (off + |d|) % SECTOR, piece)], start, n, off, d + piece)
  {
    var s := start + (off + |d|) / SECTOR;
    var b' := b[s := Splice(b[s], (off + |d|) % SECTOR, piece)];
    forall k: nat | k < n * SECTOR
      ensures Holds(b', start, n)
      ensures ExtentByte(b', start, n, k)
           == if off <= k < off + |d + piece| then (d + piece)[k - off] else ExtentByte(a, start, n, k)
    {
      SpliceBytes(b, start, n, off + |d|, piece, k);
    }
  }

  /** A grow carries the old bytes along and stores only into the new extent. */
  lemma GrowMoves(total: nat, v: View, w: View, idx: nat, size: nat)
    requires SpaceOk(total, v) && SpaceOk(total, w) && idx < MAX_DIRENTS && v.dir[idx].kind.File?
    requires w.dir == Moved(v.dir, idx, w.dir[idx].start, size) && Sectors(v.dir[idx].size) < Sectors(size)
    requires v.dir[idx].size == 0 ==> w.data == v.data
    requires v.dir[idx].size > 0 ==>
               v.dir[idx].start + Sectors(v.dir[idx].size) <= total && w.dir[idx].start + Sectors(v.dir[idx].size) <= total
               && w.data == CopyTo(v.data, v.dir[idx].start, w.dir[idx].start, Sectors(v.dir[idx].size))
    ensures Keeps(total, v, w, idx)
  {
    var e, r := v.dir[idx], w.dir[idx].start;
    assert forall s :: r <= s < r + Sectors(e.size) ==> Covers(w.dir, idx, s);
    if e.size > 0 { GrowCopies(total, v, w, idx, size); }
  }

  lemma GrowCopies(total: nat, v: View, w: View, idx: nat, size: nat)
    requires SpaceOk(total, v) && SpaceOk(total, w) && idx < MAX_DIRENTS && v.dir[idx].kind.File? && v.dir[idx].size > 0
    requires w.dir == Moved(v.dir, idx, w.dir[idx].start, size) && Sectors(v.dir[idx].size) < Sectors(size)
    requires v.dir[idx].start + Sectors(v.dir[idx].size) <= total && w.dir[idx].start + Sectors(v.dir[idx].size) <= total
    requires w.data == CopyTo(v.data, v.dir[idx].start, w.dir[idx].start, Sectors(v.dir[idx].size))
    ensures v.dir[idx].size <= size && FileBytes(total, w, idx)[..v.dir[idx].size] == FileBytes(total, v, idx)
  {
    var e, r := v.dir[idx], w.dir[idx].start;
    var n := Sectors(e.size);
    ExtentHolds(total, w, idx);
    ExtentHolds(total, v, idx);
    CopiedSlice(v.data, e.start, r, n);
    SameBytes(v.data, e.start, w.data, r, e.size);
    BytesPrefix(w.data, r, e.size, size);
  }

  lemma CopiedSlice<T>(data: seq<T>, from: nat, to: nat, n: nat)
    requires from + n <= |data| && to + n <= |data|
    ensures CopyTo(data, from, to, n)[to..to + n] == data[from..from + n]
  {
  }

  lemma BytesPrefix(data: seq<seq<Byte>>, start: nat, small: nat, large: nat)
    requires small <= large && Holds(data, start, Sectors(large)) && Holds(data, start, Sectors(small))
    ensures Bytes(data, start, large)[..small] == Bytes(data, start, small)
  {
  }

  /** The bytes file idx had are the first bytes it has, and only its sectors changed. */
  ghost predicate Keeps(total: nat, v: View, w: View, idx: nat) {
    && SpaceOk(total, v) && SpaceOk(total, w) && idx < MAX_DIRENTS
    && v.dir[idx].kind.File? && w.dir[idx].kind.File? && v.dir[idx].size <= w.dir[idx].size
    && FileBytes(total, w, idx)[..v.dir[idx].size] == FileBytes(total, v, idx)
    && forall s :: 0 <= s < total && !Covers(w.dir, idx, s) ==> w.data[s] == v.data[s]
  }

  /** A change of size within the same sectors keeps the bytes. */
  lemma ResizeMoves(total: nat, v: View, w: View, idx: nat, size: nat)
    requires SpaceOk(total, v) && SpaceOk(total, w) && idx < MAX_DIRENTS && v.dir[idx].kind.File?
    requires w == v.(dir := v.dir[idx := v.dir[idx].(size := size)])
    requires Sectors(size) == Sectors(v.dir[idx].size) && v.dir[idx].size <= size
    ensures Keeps(total, v, w, idx)
  {
    var e := v.dir[idx];
    if e.size > 0 {
      ExtentHolds(total, v, idx);
      ExtentHolds(total, w, idx);
      SameBytes(v.data, e.start, w.data, e.start, e.size);
      assert FileBytes(total, w, idx)[..e.size] == Bytes(w.data, e.start, e.size);
    }
  }

  /** What a write promises: the file has the new bytes, its other old bytes, at least the
      old size; every other file has the same bytes. */
  ghost predicate Wrote(total: nat, v: View, w: View, idx: nat, off: nat, data: seq<Byte>) {
    && SpaceOk(total, v) && SpaceOk(total, w) && idx < MAX_DIRENTS && v.dir[idx].kind.File?
    && w.dir == Moved(v.dir, idx, w.dir[idx].start, Max(off + |data|, v.dir[idx].size))
    && (forall k :: 0 <= k < |data| ==> FileBytes(total, w, idx)[off + k] == data[k])
    && (forall k :: 0 <= k < v.dir[idx].size && !(off <= k < off + |data|) ==>
          FileBytes(total, w, idx)[k] == FileBytes(total, v, idx)[k])
    && forall j :: 0 <= j < MAX_DIRENTS && j != idx && v.dir[j].kind.File? ==>
         FileBytes(total, w, j) == FileBytes(total, v, j)
  }

  function Max(a: nat, b: nat): nat { if a > b then a else b }

  /** The bytes of an overlaid file. */
  lemma OverlayFile(total: nat, w1: View, w: View, idx: nat, off: nat, data: seq<Byte>)
    requires SpaceOk(total, w1) && SpaceOk(total, w) && idx < MAX_DIRENTS && w1.dir[idx].kind.File?
    requires w == w1.(data := w.data) && off + |data| <= w1.dir[idx].size
    requires Overlay(w1.data, w.data, w1.dir[idx].start, Sectors(w1.dir[idx].size), off, data)
    ensures forall k :: 0 <= k < w1.dir[idx].size ==>
              FileBytes(total, w, idx)[k] == if off <= k < off + |data| then data[k - off] else FileBytes(total, w1, idx)[k]
  {
    var e := w1.dir[idx];
    if e.size > 0 {
      ExtentHolds(total, w1, idx);
      ExtentHolds(total, w, idx);
      forall k | 0 <= k < e.size
        ensures FileBytes(total, w, idx)[k] == if off <= k < off + |data| then data[k - off] else FileBytes(total, w1, idx)[k]
      {
        assert FileBytes(total, w, idx)[k] == ExtentByte(w.data, e.start, Sectors(e.size), k);
        assert FileBytes(total, w1, idx)[k] == ExtentByte(w1.data, e.start, Sectors(e.size), k);
      }
    }
  }

  lemma WriteIsRight(total: nat, v: View, w1: View, w: View, idx: nat, off: nat, data: seq<Byte>)
    requires Keeps(total, v, w1, idx) && SpaceOk(total, w)
    requires w1.dir == Moved(v.dir, idx, w1.dir[idx].start, Max(off + |data|, v.dir[idx].size))
    requires w == w1.(data := w.data)
    requires Overlay(w1.data, w.data, w1.dir[idx].start, Sectors(w1.dir[idx].size), off, data)
    ensures Wrote(total, v, w, idx, off, data)
  {
    OverlayFile(total, w1, w, idx, off, data);
    var size := v.dir[idx].size;
    assert forall k :: 0 <= k < size ==> FileBytes(total, w1, idx)[..size][k] == FileBytes(total, w1, idx)[k];
    forall j | 0 <= j < MAX_DIRENTS && j != idx && v.dir[j].kind.File?
      ensures FileBytes(total, w, j) == FileBytes(total, v, j)
    {
      OthersKeep(total, v, w, idx, j);
    }
  }

  /** With no file, the bitmap of a formatted disk is right. */
  lemma EmptySpaceOk(total: nat, v: View)
    requires Sized(total, v) && forall i :: 0 <= i < MAX_DIRENTS ==> !v.dir[i].kind.File?
    requires forall s :: 0 <= s < total ==> v.bits[s] == (s < DataStart(total))
    ensures SpaceOk(total, v)
  {
    assert forall i, s :: !Covers(v.dir, i, s);
  }

  lemma SectorsMonotone(a: nat, b: nat)
    requires a <= b
    ensures Sectors(a) <= Sectors(b)
  {
  }

  /** Marking a freed extent again gives back the bits. */
  lemma RestoredBits(total: nat, v: View, idx: nat)
    requires SpaceOk(total, v) && idx < MAX_DIRENTS && v.dir[idx].kind.File?
    ensures SetRange(Freed(v, idx), v.dir[idx].start, Sectors(v.dir[idx].size), true) == v.bits
  {
    var e := v.dir[idx];
    var r := SetRange(Freed(v, idx), e.start, Sectors(e.size), true);
    forall s | 0 <= s < |r|
      ensures r[s] == v.bits[s]
    {
      assert e.start <= s < e.start + Sectors(e.size) ==> Covers(v.dir, idx, s);
    }
  }

  /** Adjacent slices. */
  lemma SliceJoin<T>(s: seq<T>, a: nat, b: nat, c: nat)
    requires a <= b <= c <= |s|
    ensures s[a..b] + s[b..c] == s[a..c]
  {
  }

  /** How much of the next `left` bytes fits in the sector of offset `off`. */
  function Chunk(off: nat, left: nat): (c: nat)
    ensures c <= left && off % SECTOR + c <= SECTOR && (left > 0 ==> c > 0)
  {
    var room := SECTOR - off % SECTOR;
    if room > left then left else room
  }

  /** One chunk of the read loop. */
  lemma ChunkIs(data: seq<seq<Byte>>, start: nat, size: nat, off: nat, n: nat)
    requires Holds(data, start, Sectors(size)) && off < size && off + n <= size && off % SECTOR + n <= SECTOR
    ensures off / SECTOR < Sectors(size)
    ensures data[start + off / SECTOR][off % SECTOR..off % SECTOR + n] == Bytes(data, start, size)[off..off + n]
  {
    ByteIn(off, Sectors(size));
    var a, b := data[start + off / SECTOR][off % SECTOR..off % SECTOR + n], Bytes(data, start, size)[off..off + n];
    forall t | 0 <= t < n
      ensures a[t] == b[t]
    {
      SameSector(off + t, off, n);
      assert b[t] == ByteAt(data, start, off + t);
    }
  }

  /** A file's content depends on its entry and the data alone. */
  lemma SameFile(total: nat, v: View, w: View, j: nat)
    requires SpaceOk(total, v) && SpaceOk(total, w) && w.data == v.data
    requires j < MAX_DIRENTS && v.dir[j].kind.File? && w.dir[j] == v.dir[j]
    ensures FileBytes(total, w, j) == FileBytes(total, v, j)
  {
  }

  /** An entry without sectors takes none. */
  lemma EmptyEntryKeeps(total: nat, v: View, i: nat, e: Dirent)
    requires SpaceOk(total, v) && i < MAX_DIRENTS && !v.dir[i].kind.File? && e.size == 0
    ensures SpaceOk(total, v.(dir := v.dir[i := e]))
  {
    SameCovers(total, v, v.(dir := v.dir[i := e]));
  }
}

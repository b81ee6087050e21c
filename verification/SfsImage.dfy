/** The on-disk format of the simple filesystem, sector by sector, and the view of it
    that the filesystem code works on: one bit per sector, one entry per file. */
module SfsImage {

  const SECTOR: nat := 512
  const BITS: nat := 4096
  const PER_SECTOR: nat := 8
  const MAX_DIRENTS: nat := 256
  const NAME_MAX: nat := 47
  const ROOT_PARENT: nat := 0xFFFF
  const DIR_SECTORS: nat := 32

  type Byte = x: int | 0 <= x < 256

  datatype Kind = Free | File | Dir

  /** A directory entry; the name is the text before the terminating NUL. */
  datatype Dirent = Dirent(name: string, kind: Kind, parent: nat, start: nat, size: nat)

  /** The 512 bytes of a sector, read as the record its position holds. */
  datatype Sector =
    | SuperSec(free: int)
    | BitmapSec(bits: seq<bool>)
    | DirSec(entries: seq<Dirent>)
    | DataSec(bytes: seq<Byte>)

  function BitmapSectors(total: nat): (n: nat)
    ensures total <= n * BITS < total + BITS
  {
    (total + BITS - 1) / BITS
  }

  function DirStart(total: nat): nat { 1 + BitmapSectors(total) }

  function DataStart(total: nat): nat { DirStart(total) + DIR_SECTORS }

  ghost predicate Shaped(total: nat, img: seq<Sector>) {
    && DataStart(total) <= total <= |img|
    && img[0].SuperSec?
    && (forall b :: 1 <= b < DirStart(total) ==> img[b].BitmapSec? && |img[b].bits| == BITS)
    && (forall b :: DirStart(total) <= b < DataStart(total) ==> img[b].DirSec? && |img[b].entries| == PER_SECTOR)
    && forall b :: DataStart(total) <= b < total ==> img[b].DataSec? && |img[b].bytes| == SECTOR
  }

  datatype View = View(bits: seq<bool>, dir: seq<Dirent>, data: seq<seq<Byte>>)

  /** The sector and the position in it of sector s's allocation bit. */
  function BitSector(s: nat): (b: nat)
    ensures b >= 1
  {
    1 + s / BITS
  }

  lemma BitSectorIn(total: nat, s: nat)
    requires s < total
    ensures BitSector(s) < DirStart(total)
  {
  }

  function DirentSector(total: nat, i: nat): nat { DirStart(total) + i / PER_SECTOR }

  ghost function BitOf(total: nat, img: seq<Sector>, s: nat): bool
    requires Shaped(total, img) && s < total
  {
    BitSectorIn(total, s);
    img[BitSector(s)].bits[s % BITS]
  }

  ghost function DirentOf(total: nat, img: seq<Sector>, i: nat): Dirent
    requires Shaped(total, img) && i < MAX_DIRENTS
  {
    img[DirentSector(total, i)].entries[i % PER_SECTOR]
  }

  ghost function DataOf(total: nat, img: seq<Sector>, s: nat): (d: seq<Byte>)
    requires Shaped(total, img) && s < total
    ensures s >= DataStart(total) ==> |d| == SECTOR
  {
    if s < DataStart(total) then [] else img[s].bytes
  }

  ghost function ViewOf(total: nat, img: seq<Sector>): (v: View)
    requires Shaped(total, img)
    ensures |v.bits| == total && |v.dir| == MAX_DIRENTS && |v.data| == total
    ensures forall s :: 0 <= s < total ==> v.bits[s] == BitOf(total, img, s)
    ensures forall i :: 0 <= i < MAX_DIRENTS ==> v.dir[i] == DirentOf(total, img, i)
    ensures forall s :: 0 <= s < total ==> v.data[s] == DataOf(total, img, s)
  {
    View(seq(total, s requires 0 <= s < total => BitOf(total, img, s)),
         seq(MAX_DIRENTS, i requires 0 <= i < MAX_DIRENTS => DirentOf(total, img, i)),
         seq(total, s requires 0 <= s < total => DataOf(total, img, s)))
  }

  /** A range of bits given one value. */
  ghost function SetRange(bits: seq<bool>, start: int, n: nat, v: bool): (r: seq<bool>)
    ensures |r| == |bits|
    ensures forall i :: 0 <= i < |r| ==> r[i] == if start <= i < start + n then v else bits[i]
  {
    seq(|bits|, i requires 0 <= i < |bits| => if start <= i < start + n then v else bits[i])
  }

  lemma SameView(a: View, b: View)
    requires |a.bits| == |b.bits| && |a.dir| == |b.dir| && |a.data| == |b.data|
    requires forall i :: 0 <= i < |a.bits| ==> a.bits[i] == b.bits[i]
    requires forall i :: 0 <= i < |a.dir| ==> a.dir[i] == b.dir[i]
    requires forall i :: 0 <= i < |a.data| ==> a.data[i] == b.data[i]
    ensures a == b
  {
    assert a.bits == b.bits && a.dir == b.dir && a.data == b.data;
  }

  lemma PutBitmap(total: nat, img: seq<Sector>, b: nat, bits: seq<bool>)
    requires Shaped(total, img) && 1 <= b < DirStart(total) && |bits| == BITS
    ensures var img' := img[b := BitmapSec(bits)];
            Shaped(total, img') && ViewOf(total, img').dir == ViewOf(total, img).dir
            && ViewOf(total, img').data == ViewOf(total, img).data
            && forall s :: 0 <= s < total ==>
                 ViewOf(total, img').bits[s] == if BitSector(s) == b then bits[s % BITS] else ViewOf(total, img).bits[s]
  {
    var img' := img[b := BitmapSec(bits)];
    assert Shaped(total, img');
    assert ViewOf(total, img').dir == ViewOf(total, img).dir;
    assert ViewOf(total, img').data == ViewOf(total, img).data;
    forall s | 0 <= s < total
      ensures ViewOf(total, img').bits[s] == if BitSector(s) == b then bits[s % BITS] else ViewOf(total, img).bits[s]
    {
      BitSectorIn(total, s);
      assert ViewOf(total, img').bits[s] == BitOf(total, img', s);
    }
  }

  lemma SameBit(s: nat, t: nat)
    ensures BitSector(s) == BitSector(t) && s % BITS == t % BITS ==> s == t
  {
  }

  /** `bitmap_set` on the view. */
  lemma PutBitView(total: nat, img: seq<Sector>, s: nat, v: bool)
    requires Shaped(total, img) && s < total && BitSector(s) < DirStart(total)
    ensures var img' := img[BitSector(s) := BitmapSec(img[BitSector(s)].bits[s % BITS := v])];
            Shaped(total, img')
            && ViewOf(total, img') == ViewOf(total, img).(bits := ViewOf(total, img).bits[s := v])
  {
    var bits := img[BitSector(s)].bits[s % BITS := v];
    var img' := img[BitSector(s) := BitmapSec(bits)];
    PutBitmap(total, img, BitSector(s), bits);
    forall t | 0 <= t < total
      ensures ViewOf(total, img').bits[t] == if t == s then v else ViewOf(total, img).bits[t]
    {
      SameBit(s, t);
      assert ViewOf(total, img).bits[t] == BitOf(total, img, t);
    }
    SameView(ViewOf(total, img'), ViewOf(total, img).(bits := ViewOf(total, img).bits[s := v]));
  }

  /** A bitmap sector set to zero. */
  lemma ZeroBitmapView(total: nat, img: seq<Sector>, b: nat, zero: seq<bool>)
    requires Shaped(total, img) && b < BitmapSectors(total)
    requires |zero| == BITS && forall i :: 0 <= i < BITS ==> !zero[i]
    ensures var img' := img[1 + b := BitmapSec(zero)];
            Shaped(total, img') && ViewOf(total, img')
            == ViewOf(total, img).(bits := SetRange(ViewOf(total, img).bits, b * BITS, BITS, false))
  {
    var img' := img[1 + b := BitmapSec(zero)];
    PutBitmap(total, img, 1 + b, zero);
    forall t | 0 <= t < total
      ensures BitSector(t) == 1 + b <==> b * BITS <= t < b * BITS + BITS
    {
    }
    SameView(ViewOf(total, img'), ViewOf(total, img).(bits := SetRange(ViewOf(total, img).bits, b * BITS, BITS, false)));
  }

  lemma PutEntries(total: nat, img: seq<Sector>, b: nat, entries: seq<Dirent>)
    requires Shaped(total, img) && DirStart(total) <= b < DataStart(total) && |entries| == PER_SECTOR
    ensures var img' := img[b := DirSec(entries)];
            Shaped(total, img') && ViewOf(total, img').bits == ViewOf(total, img).bits
            && ViewOf(total, img').data == ViewOf(total, img).data
            && forall i :: 0 <= i < MAX_DIRENTS ==>
                 ViewOf(total, img').dir[i] ==
                 if DirentSector(total, i) == b then entries[i % PER_SECTOR] else ViewOf(total, img).dir[i]
  {
    var img' := img[b := DirSec(entries)];
    assert Shaped(total, img');
    forall s | 0 <= s < total
      ensures BitOf(total, img', s) == BitOf(total, img, s)
    {
      BitSectorIn(total, s);
    }
    assert ViewOf(total, img').bits == ViewOf(total, img).bits;
    assert ViewOf(total, img').data == ViewOf(total, img).data;
    assert forall i :: 0 <= i < MAX_DIRENTS ==> ViewOf(total, img').dir[i] == DirentOf(total, img', i);
  }

  /** A directory sector set to zero. */
  lemma ZeroEntriesView(total: nat, img: seq<Sector>, b: nat, blank: Dirent, zero: seq<Dirent>)
    requires Shaped(total, img) && b < DIR_SECTORS
    requires |zero| == PER_SECTOR && forall i :: 0 <= i < PER_SECTOR ==> zero[i] == blank
    ensures var img' := img[DirStart(total) + b := DirSec(zero)];
            Shaped(total, img') && ViewOf(total, img').bits == ViewOf(total, img).bits
            && ViewOf(total, img').data == ViewOf(total, img).data
            && forall i :: 0 <= i < MAX_DIRENTS ==>
                 ViewOf(total, img').dir[i] ==
                 if b * PER_SECTOR <= i < (b + 1) * PER_SECTOR then blank else ViewOf(total, img).dir[i]
  {
    PutEntries(total, img, DirStart(total) + b, zero);
    assert forall i: nat :: DirentSector(total, i) == DirStart(total) + b <==> b * PER_SECTOR <= i < (b + 1) * PER_SECTOR;
  }

  lemma SameEntry(total: nat, i: nat, j: nat)
    ensures DirentSector(total, i) == DirentSector(total, j) && i % PER_SECTOR == j % PER_SECTOR ==> i == j
  {
  }

  /** A store into one directory entry. */
  lemma PutDirentView(total: nat, img: seq<Sector>, i: nat, e: Dirent)
    requires Shaped(total, img) && i < MAX_DIRENTS
    ensures var b := DirentSector(total, i);
            var img' := img[b := DirSec(img[b].entries[i % PER_SECTOR := e])];
            Shaped(total, img')
            && ViewOf(total, img') == ViewOf(total, img).(dir := ViewOf(total, img).dir[i := e])
  {
    var b := DirentSector(total, i);
    var entries := img[b].entries[i % PER_SECTOR := e];
    var img' := img[b := DirSec(entries)];
    PutEntries(total, img, b, entries);
    forall j | 0 <= j < MAX_DIRENTS
      ensures ViewOf(total, img').dir[j] == if j == i then e else ViewOf(total, img).dir[j]
    {
      SameEntry(total, i, j);
      assert ViewOf(total, img).dir[j] == DirentOf(total, img, j);
    }
    SameView(ViewOf(total, img'), ViewOf(total, img).(dir := ViewOf(total, img).dir[i := e]));
  }

  /** A store of a whole data sector. */
  lemma PutDataView(total: nat, img: seq<Sector>, s: nat, bytes: seq<Byte>)
    requires Shaped(total, img) && DataStart(total) <= s < total && |bytes| == SECTOR
    ensures var img' := img[s := DataSec(bytes)];
            Shaped(total, img')
            && ViewOf(total, img') == ViewOf(total, img).(data := ViewOf(total, img).data[s := bytes])
  {
    var img' := img[s := DataSec(bytes)];
    assert Shaped(total, img');
    forall t | 0 <= t < total
      ensures BitOf(total, img', t) == BitOf(total, img, t)
    {
      BitSectorIn(total, t);
    }
    SameView(ViewOf(total, img'), ViewOf(total, img).(data := ViewOf(total, img).data[s := bytes]));
  }

  /** The superblock is not part of the view. */
  lemma PutSuperView(total: nat, img: seq<Sector>, free: int)
    requires Shaped(total, img)
    ensures var img' := img[0 := SuperSec(free)];
            Shaped(total, img') && ViewOf(total, img') == ViewOf(total, img)
  {
    var img' := img[0 := SuperSec(free)];
    assert Shaped(total, img');
    forall t | 0 <= t < total
      ensures BitOf(total, img', t) == BitOf(total, img, t)
    {
      BitSectorIn(total, t);
    }
    SameView(ViewOf(total, img'), ViewOf(total, img));
  }
}

/** Sv39 page-table entries and trees. An entry is a 64-bit number: permission bits
    in 0..9, the physical page number in 10..53 (section 4.4.1 of the RISC-V
    Privileged Architecture, version 20211203). */
module Sv39 {
  import opened Powers

  const PAGE_SIZE: nat := 4096
  const SUPERPAGE: nat := 0x200000
  const PT_ENTRIES: nat := 512
  const PT_POOL_PAGES: nat := 32
  const PADDR_LIMIT: nat := 0x100000000000000
  const PPN_LIMIT: nat := 0x100000000000

  const PTE_V: nat := 1
  const PTE_R: nat := 2
  const PTE_W: nat := 4
  const PTE_X: nat := 8
  const PTE_U: nat := 16
  const PTE_G: nat := 32
  const PTE_A: nat := 64
  const PTE_D: nat := 128
  const PTE_KERN_RWX: nat := PTE_V + PTE_R + PTE_W + PTE_X + PTE_G + PTE_A + PTE_D
  const PTE_KERN_RW: nat := PTE_V + PTE_R + PTE_W + PTE_G + PTE_A + PTE_D

  /** A physical page address: page-aligned and within 56 bits. */
  predicate PagePaddr(a: nat) {
    a % PAGE_SIZE == 0 && a < PADDR_LIMIT
  }

  function PteMake(paddr: nat, flags: nat): nat {
    paddr / PAGE_SIZE * 1024 + flags
  }

  function PpnAddr(pte: nat): nat {
    pte / 1024 % PPN_LIMIT * PAGE_SIZE
  }

  function Flags(pte: nat): nat {
    pte % 1024
  }

  /** The permission bit of weight d. */
  predicate Has(pte: nat, d: nat)
    requires d > 0
  {
    pte / d % 2 == 1
  }

  predicate Valid(pte: nat) {
    Has(pte, PTE_V)
  }

  predicate IsLeaf(pte: nat) {
    Valid(pte) && (Has(pte, PTE_R) || Has(pte, PTE_W) || Has(pte, PTE_X))
  }

  /** User pages are never writable and executable at once. */
  predicate WxOk(pte: nat) {
    !(Has(pte, PTE_U) && Has(pte, PTE_W) && Has(pte, PTE_X))
  }

  function Vpn2(va: nat): (i: nat)
    ensures i < PT_ENTRIES
  {
    va / 0x40000000 % 512
  }

  function Vpn1(va: nat): (i: nat)
    ensures i < PT_ENTRIES
  {
    va / 0x200000 % 512
  }

  function Vpn0(va: nat): (i: nat)
    ensures i < PT_ENTRIES
  {
    va / 0x1000 % 512
  }

  /** The page of an address, numbered in the 39-bit space. */
  function PageNumber(va: nat): nat {
    va / PAGE_SIZE % 0x8000000
  }

  /** The 2 MiB page of an address. */
  function SuperpageNumber(va: nat): nat {
    va / SUPERPAGE % 0x40000
  }

  /** The three indices are the digits of the page number. */
  lemma IndicesAreDigits(va: nat)
    ensures SuperpageNumber(va) == Vpn2(va) * 512 + Vpn1(va)
    ensures PageNumber(va) == (Vpn2(va) * 512 + Vpn1(va)) * 512 + Vpn0(va)
    ensures Vpn0(va) * PAGE_SIZE + va % PAGE_SIZE == va % SUPERPAGE
  {
    var p, r := va / PAGE_SIZE, va % PAGE_SIZE;
    var q := p / 512;
    var t := q / 512;
    var u := t / 512;
    DivModUnique(va, SUPERPAGE, q, p % 512 * PAGE_SIZE + r);
    DivModUnique(va, 0x40000000, t, q % 512 * SUPERPAGE + p % 512 * PAGE_SIZE + r);
    DivModUnique(q, 0x40000, u, t % 512 * 512 + q % 512);
    DivModUnique(p, 0x8000000, u, (t % 512 * 512 + q % 512) * 512 + p % 512);
  }

  lemma LowBit(n: nat, f: nat, d: nat)
    requires d == 1 || d == 2 || d == 4 || d == 8 || d == 16
    ensures Has(n * 1024 + f, d) == Has(f, d)
  {
    if d == 1 { EvenShift(n * 512, f); }
    if d == 2 { ShiftedSum(n * 512, f, 2); EvenShift(n * 256, f / 2); }
    if d == 4 { ShiftedSum(n * 256, f, 4); EvenShift(n * 128, f / 4); }
    if d == 8 { ShiftedSum(n * 128, f, 8); EvenShift(n * 64, f / 8); }
    if d == 16 { ShiftedSum(n * 64, f, 16); EvenShift(n * 32, f / 16); }
  }

  lemma EvenShift(m: nat, q: nat)
    ensures (2 * m + q) % 2 == q % 2
  {
  }

  lemma ShiftedSum(m: nat, f: nat, d: nat)
    requires d > 0
    ensures (m * d + f) / d == m + f / d
  {
    DivModUnique(m * d + f, d, m + f / d, f % d);
  }

  ghost predicate SameBits(a: nat, b: nat) {
    forall d :: d == 1 || d == 2 || d == 4 || d == 8 || d == 16 ==> Has(a, d) == Has(b, d)
  }

  lemma LowBits(n: nat, f: nat)
    ensures SameBits(n * 1024 + f, f)
  {
    forall d | d == 1 || d == 2 || d == 4 || d == 8 || d == 16
      ensures Has(n * 1024 + f, d) == Has(f, d)
    {
      LowBit(n, f, d);
    }
  }

  /** Packing loses neither the address nor the flags, and the permission bits of the
      packed entry are those of the flags. */
  lemma PteMakeFields(paddr: nat, flags: nat)
    requires PagePaddr(paddr) && flags < 1024
    ensures var e := PteMake(paddr, flags);
            && e / 1024 == paddr / PAGE_SIZE && e % 1024 == flags
            && PpnAddr(e) == paddr && Flags(e) == flags && SameBits(e, flags)
  {
    LowBits(paddr / PAGE_SIZE, flags);
  }

  lemma FlagsDecide(a: nat, b: nat)
    requires Flags(a) == Flags(b)
    ensures SameBits(a, b)
  {
    LowBits(a / 1024, Flags(a));
    LowBits(b / 1024, Flags(b));
  }
}

/** Trees of page tables. Tables are pages of the pool, numbered in allocation order;
    page 0 is the root. */
module PageTree {
  import opened Options
  import opened Sv39

  datatype Entry = Invalid | Leaf(pa: nat, flags: nat) | Ptr(page: nat)

  /** Where a table hangs: its level, and the entry that points to it. */
  datatype Node = Node(level: nat, up: nat, idx: nat)

  /** What one 4 KiB page maps to. */
  datatype Mapping = Mapping(pa: nat, flags: nat)

  type Tables = seq<seq<Entry>>

  ghost predicate LeafOk(level: nat, pa: nat, flags: nat) {
    && flags < 1024 && IsLeaf(flags) && Has(flags, PTE_R) && WxOk(flags)
    && PagePaddr(pa) && (level == 1 ==> pa % SUPERPAGE == 0) && level < 2
  }

  ghost predicate EntryOk(t: Tables, node: seq<Node>, n: nat, i: nat)
    requires n < |t| == |node| && i < |t[n]|
  {
    match t[n][i]
    case Invalid => true
    case Leaf(pa, flags) => LeafOk(node[n].level, pa, flags)
    case Ptr(m) => node[n].level > 0 && 0 < m < |t| && node[m] == Node(node[n].level - 1, n, i)
  }

  /** Every table is full-size and every entry fits its level; an entry that points to
      a table is the only one that does. */
  ghost predicate Tree(t: Tables, node: seq<Node>) {
    && 1 <= |t| == |node| && node[0] == Node(2, 0, 0)
    && (forall n :: 0 <= n < |t| ==> |t[n]| == PT_ENTRIES && (n > 0 ==> node[n].level < 2))
    && forall n, i :: 0 <= n < |t| && 0 <= i < |t[n]| ==> EntryOk(t, node, n, i)
  }

  /** The translation of the page (i2, i1, i0). */
  function View(t: Tables, i2: nat, i1: nat, i0: nat): Option<Mapping>
    requires 1 <= |t| && forall n :: 0 <= n < |t| ==> |t[n]| == PT_ENTRIES
    requires i2 < PT_ENTRIES && i1 < PT_ENTRIES && i0 < PT_ENTRIES
  {
    if !t[0][i2].Ptr? || t[0][i2].page >= |t| then None else
    match t[t[0][i2].page][i1]
    case Invalid => None
    case Leaf(pa, flags) => Some(Mapping(pa + i0 * PAGE_SIZE, flags))
    case Ptr(n) =>
      if n >= |t| || !t[n][i0].Leaf? then None
      else Some(Mapping(t[n][i0].pa, t[n][i0].flags))
  }

  ghost predicate Sized(t: Tables) {
    1 <= |t| && forall n :: 0 <= n < |t| ==> |t[n]| == PT_ENTRIES
  }

  ghost predicate SameViews(t: Tables, t': Tables) {
    && Sized(t) && Sized(t')
    && forall i2: nat, i1: nat, i0: nat :: i2 < PT_ENTRIES && i1 < PT_ENTRIES && i0 < PT_ENTRIES ==>
         View(t, i2, i1, i0) == View(t', i2, i1, i0)
  }

  function Store(t: Tables, n: nat, i: nat, e: Entry): Tables
    requires n < |t| && i < |t[n]|
  {
    t[n := t[n][i := e]]
  }

  /** Storing an entry that is not a pointer keeps the tree; a table it pointed to before is
      no longer reached. */
  lemma StoreKeepsTree(t: Tables, node: seq<Node>, n: nat, i: nat, e: Entry)
    requires Tree(t, node) && n < |t| && i < PT_ENTRIES && !e.Ptr?
    requires e.Leaf? ==> LeafOk(node[n].level, e.pa, e.flags)
    ensures Tree(Store(t, n, i, e), node)
  {
    var t' := Store(t, n, i, e);
    forall m, j | 0 <= m < |t'| && 0 <= j < |t'[m]|
      ensures EntryOk(t', node, m, j)
    {
      assert EntryOk(t, node, m, j);
    }
  }

  /** A level-0 entry is the translation of exactly one page. */
  lemma StoreL0Views(t: Tables, node: seq<Node>, i2: nat, i1: nat, i0: nat, e: Entry)
    requires Tree(t, node) && i2 < PT_ENTRIES && i1 < PT_ENTRIES && i0 < PT_ENTRIES && !e.Ptr?
    requires t[0][i2].Ptr? && t[0][i2].page < |t|
    requires t[t[0][i2].page][i1].Ptr? && t[t[0][i2].page][i1].page < |t|
    ensures var t' := Store(t, t[t[0][i2].page][i1].page, i0, e);
            Sized(t') &&
            forall j2: nat, j1: nat, j0: nat :: j2 < PT_ENTRIES && j1 < PT_ENTRIES && j0 < PT_ENTRIES ==>
              View(t', j2, j1, j0) ==
                if j2 == i2 && j1 == i1 && j0 == i0 then (if e.Leaf? then Some(Mapping(e.pa, e.flags)) else None)
                else View(t, j2, j1, j0)
  {
    var m := t[0][i2].page;
    assert EntryOk(t, node, 0, i2);
    assert EntryOk(t, node, m, i1);
    var n := t[m][i1].page;
    var t' := Store(t, n, i0, e);
    forall j2: nat, j1: nat, j0: nat | j2 < PT_ENTRIES && j1 < PT_ENTRIES && j0 < PT_ENTRIES
      ensures View(t', j2, j1, j0) ==
                if j2 == i2 && j1 == i1 && j0 == i0 then (if e.Leaf? then Some(Mapping(e.pa, e.flags)) else None)
                else View(t, j2, j1, j0)
    {
      assert EntryOk(t, node, 0, j2);
      if t[0][j2].Ptr? {
        assert EntryOk(t, node, t[0][j2].page, j1);
      }
    }
  }

  /** A 2 MiB leaf is the translation of its 512 pages and of no other, whatever the entry
      held before. */
  lemma StoreL1Views(t: Tables, node: seq<Node>, i2: nat, i1: nat, pa: nat, flags: nat)
    requires Tree(t, node) && i2 < PT_ENTRIES && i1 < PT_ENTRIES
    requires t[0][i2].Ptr? && t[0][i2].page < |t|
    ensures var t' := Store(t, t[0][i2].page, i1, Leaf(pa, flags));
            Sized(t') &&
            forall j2: nat, j1: nat, j0: nat :: j2 < PT_ENTRIES && j1 < PT_ENTRIES && j0 < PT_ENTRIES ==>
              View(t', j2, j1, j0) ==
                if j2 == i2 && j1 == i1 then Some(Mapping(pa + j0 * PAGE_SIZE, flags)) else View(t, j2, j1, j0)
  {
    assert EntryOk(t, node, 0, i2);
    var t' := Store(t, t[0][i2].page, i1, Leaf(pa, flags));
    forall j2: nat, j1: nat, j0: nat | j2 < PT_ENTRIES && j1 < PT_ENTRIES && j0 < PT_ENTRIES
      ensures View(t', j2, j1, j0) ==
                if j2 == i2 && j1 == i1 then Some(Mapping(pa + j0 * PAGE_SIZE, flags)) else View(t, j2, j1, j0)
    {
      assert EntryOk(t, node, 0, j2);
      if t[0][j2].Ptr? {
        assert EntryOk(t, node, t[0][j2].page, j1);
      }
    }
  }

  /** Hanging a fresh table under entry (n, i). */
  function Hang(t: Tables, n: nat, i: nat, table: seq<Entry>): Tables
    requires n < |t| && i < |t[n]|
  {
    Store(t, n, i, Ptr(|t|)) + [table]
  }

  ghost predicate TableOk(level: nat, table: seq<Entry>) {
    forall k :: 0 <= k < |table| ==>
      table[k].Invalid? || (table[k].Leaf? && LeafOk(level, table[k].pa, table[k].flags))
  }

  lemma HangKeepsTree(t: Tables, node: seq<Node>, n: nat, i: nat, table: seq<Entry>)
    requires Tree(t, node) && n < |t| && i < PT_ENTRIES && node[n].level > 0 && !t[n][i].Ptr?
    requires |table| == PT_ENTRIES && TableOk(node[n].level - 1, table)
    ensures Tree(Hang(t, n, i, table), node + [Node(node[n].level - 1, n, i)])
  {
    var t', node' := Hang(t, n, i, table), node + [Node(node[n].level - 1, n, i)];
    forall m, j | 0 <= m < |t'| && 0 <= j < |t'[m]|
      ensures EntryOk(t', node', m, j)
    {
      if m < |t| {
        assert EntryOk(t, node, m, j);
      }
    }
  }

  /** An empty table where nothing was mapped changes no translation. */
  lemma HangEmptyInvisible(t: Tables, node: seq<Node>, n: nat, i: nat)
    requires Tree(t, node) && n < |t| && i < PT_ENTRIES && node[n].level > 0 && t[n][i].Invalid?
    ensures SameViews(t, Hang(t, n, i, seq(PT_ENTRIES, _ => Invalid)))
  {
    var t' := Hang(t, n, i, seq(PT_ENTRIES, _ => Invalid));
    forall j2: nat, j1: nat, j0: nat | j2 < PT_ENTRIES && j1 < PT_ENTRIES && j0 < PT_ENTRIES
      ensures View(t, j2, j1, j0) == View(t', j2, j1, j0)
    {
      assert EntryOk(t, node, 0, j2);
      if t[0][j2].Ptr? {
        assert EntryOk(t, node, t[0][j2].page, j1);
      }
    }
  }

  /** The 512 entries that replace a 2 MiB leaf. */
  function Shattered(pa: nat, flags: nat): seq<Entry> {
    seq(PT_ENTRIES, k requires 0 <= k < PT_ENTRIES => Leaf(pa + k * PAGE_SIZE, flags))
  }

  /** Shattering a 2 MiB leaf changes no translation and no permission. */
  lemma ShatterInvisible(t: Tables, node: seq<Node>, m: nat, i: nat)
    requires Tree(t, node) && m < |t| && i < PT_ENTRIES && node[m].level == 1 && t[m][i].Leaf?
    ensures SameViews(t, Hang(t, m, i, Shattered(t[m][i].pa, t[m][i].flags)))
  {
    var t' := Hang(t, m, i, Shattered(t[m][i].pa, t[m][i].flags));
    forall j2: nat, j1: nat, j0: nat | j2 < PT_ENTRIES && j1 < PT_ENTRIES && j0 < PT_ENTRIES
      ensures View(t, j2, j1, j0) == View(t', j2, j1, j0)
    {
      assert EntryOk(t, node, 0, j2);
      if t[0][j2].Ptr? {
        assert EntryOk(t, node, t[0][j2].page, j1);
      }
    }
  }

  lemma ShatteredOk(pa: nat, flags: nat)
    requires LeafOk(1, pa, flags)
    ensures forall k :: 0 <= k < PT_ENTRIES ==> LeafOk(0, pa + k * PAGE_SIZE, flags)
  {
    forall k | 0 <= k < PT_ENTRIES
      ensures LeafOk(0, pa + k * PAGE_SIZE, flags)
    {
      assert PADDR_LIMIT % SUPERPAGE == 0;
      assert pa + SUPERPAGE <= PADDR_LIMIT;
    }
  }

  lemma SameViewsTrans(a: Tables, b: Tables, c: Tables)
    requires SameViews(a, b) && SameViews(b, c)
    ensures SameViews(a, c)
  {
  }
}

/** The page-table functions of the kernel, over raw 64-bit entries in the pool. */
module PageTables {
  import opened Lists
  import opened Options
  import opened Powers
  import opened Sv39
  import opened PageTree

  const PT_FLAG_RW: nat := 2
  const PT_FLAG_USER: nat := 4
  const PT_FLAG_EXEC: nat := 8

  predicate PoolBase(base: nat) {
    base % PAGE_SIZE == 0 && base + PT_POOL_PAGES * PAGE_SIZE <= PADDR_LIMIT
  }

  /** How a raw entry reads: a pointer names the pool page at its address. */
  function Decode(base: nat, pte: nat): Entry {
    if !Sv39.Valid(pte) then Invalid
    else if IsLeaf(pte) then Leaf(PpnAddr(pte), Flags(pte))
    else Ptr(if PpnAddr(pte) < base then 0 else (PpnAddr(pte) - base) / PAGE_SIZE)
  }

  function DecodeTable(base: nat, raw: seq<nat>): (r: seq<Entry>)
    ensures |r| == |raw| && forall i :: 0 <= i < |raw| ==> r[i] == Decode(base, raw[i])
  {
    seq(|raw|, i requires 0 <= i < |raw| => Decode(base, raw[i]))
  }

  function DecodeAll(base: nat, raw: seq<seq<nat>>): (r: Tables)
    ensures |r| == |raw| && forall n :: 0 <= n < |raw| ==> r[n] == DecodeTable(base, raw[n])
  {
    seq(|raw|, n requires 0 <= n < |raw| => DecodeTable(base, raw[n]))
  }

  function SetEntry(raw: seq<seq<nat>>, n: nat, i: nat, pte: nat): (r: seq<seq<nat>>)
    requires n < |raw| && i < |raw[n]|
  {
    var table: seq<nat> := raw[n][i := pte];
    raw[n := table]
  }

  lemma DecodeLeaf(base: nat, pa: nat, flags: nat)
    requires PagePaddr(pa) && flags < 1024 && IsLeaf(flags)
    ensures Decode(base, PteMake(pa, flags)) == Leaf(pa, flags)
  {
    PteMakeFields(pa, flags);
  }

  lemma DecodePtr(base: nat, m: nat)
    requires PoolBase(base) && m < PT_POOL_PAGES
    ensures Decode(base, PteMake(base + m * PAGE_SIZE, PTE_V)) == Ptr(m)
  {
    PteMakeFields(base + m * PAGE_SIZE, PTE_V);
  }

  lemma DecodeZero(base: nat)
    ensures Decode(base, 0) == Invalid
  {
  }

  /** A raw store is a store of the decoded entry. */
  lemma DecodeStore(base: nat, raw: seq<seq<nat>>, n: nat, i: nat, pte: nat)
    requires n < |raw| && i < |raw[n]|
    ensures DecodeAll(base, SetEntry(raw, n, i, pte)) == Store(DecodeAll(base, raw), n, i, Decode(base, pte))
  {
    assert DecodeTable(base, raw[n][i := pte]) == DecodeTable(base, raw[n])[i := Decode(base, pte)];
  }

  /** Allocating a table and linking it is hanging its decoded contents. */
  lemma DecodeHang(base: nat, raw: seq<seq<nat>>, n: nat, i: nat, table: seq<nat>)
    requires PoolBase(base) && |raw| < PT_POOL_PAGES && n < |raw| && i < |raw[n]|
    ensures DecodeAll(base, SetEntry(raw + [table], n, i, PteMake(base + |raw| * PAGE_SIZE, PTE_V)))
            == Hang(DecodeAll(base, raw), n, i, DecodeTable(base, table))
  {
    var pte := PteMake(base + |raw| * PAGE_SIZE, PTE_V);
    DecodePtr(base, |raw|);
    DecodeStore(base, raw, n, i, pte);
    assert SetEntry(raw + [table], n, i, pte) == SetEntry(raw, n, i, pte) + [table];
  }

  /** The hardware walk of section 4.3.2: leaf if R or X, fault on V clear, on W
      without R, on a misaligned superpage, and past the last level. */
  function HwWalk(base: nat, raw: seq<seq<nat>>, level: nat, page: nat, va: nat): Option<Mapping>
    requires level <= 2
    decreases level
  {
    var i := if level == 2 then Vpn2(va) else if level == 1 then Vpn1(va) else Vpn0(va);
    if page >= |raw| || i >= |raw[page]| then None else
    var pte := raw[page][i];
    if !Sv39.Valid(pte) || (!Has(pte, PTE_R) && Has(pte, PTE_W)) then None
    else if Has(pte, PTE_R) || Has(pte, PTE_X) then
      if level == 2 && PpnAddr(pte) % 0x40000000 != 0 then None
      else if level == 1 && PpnAddr(pte) % SUPERPAGE != 0 then None
      else Some(Mapping(PpnAddr(pte) + (if level == 2 then Vpn1(va) * SUPERPAGE + Vpn0(va) * PAGE_SIZE
                                        else if level == 1 then Vpn0(va) * PAGE_SIZE else 0), Flags(pte)))
    else if level == 0 || PpnAddr(pte) < base then None
    else HwWalk(base, raw, level - 1, (PpnAddr(pte) - base) / PAGE_SIZE, va)
  }

  lemma HardwareAtLevel0(base: nat, raw: seq<seq<nat>>, node: seq<Node>, n: nat, va: nat)
    requires Tree(DecodeAll(base, raw), node) && n < |raw| && node[n].level == 0
    ensures var e := DecodeAll(base, raw)[n][Vpn0(va)];
            HwWalk(base, raw, 0, n, va) == if e.Leaf? then Some(Mapping(e.pa, e.flags)) else None
  {
    var t, i0 := DecodeAll(base, raw), Vpn0(va);
    assert EntryOk(t, node, n, i0);
    FlagsDecide(raw[n][i0], Flags(raw[n][i0]));
  }

  lemma HardwareAtLevel1(base: nat, raw: seq<seq<nat>>, node: seq<Node>, m: nat, va: nat)
    requires Tree(DecodeAll(base, raw), node) && m < |raw| && node[m].level == 1
    ensures var e := DecodeAll(base, raw)[m][Vpn1(va)];
            HwWalk(base, raw, 1, m, va) ==
              if e.Leaf? then Some(Mapping(e.pa + Vpn0(va) * PAGE_SIZE, e.flags))
              else if e.Ptr? then HwWalk(base, raw, 0, e.page, va)
              else None
  {
    var t, i1 := DecodeAll(base, raw), Vpn1(va);
    assert EntryOk(t, node, m, i1);
    FlagsDecide(raw[m][i1], Flags(raw[m][i1]));
  }

  /** On every tree these functions build, the hardware sees the modelled translation. */
  lemma HardwareSeesView(base: nat, raw: seq<seq<nat>>, node: seq<Node>, va: nat)
    requires Tree(DecodeAll(base, raw), node)
    ensures HwWalk(base, raw, 2, 0, va) == View(DecodeAll(base, raw), Vpn2(va), Vpn1(va), Vpn0(va))
  {
    var t := DecodeAll(base, raw);
    assert EntryOk(t, node, 0, Vpn2(va));
    if t[0][Vpn2(va)].Ptr? {
      var m := t[0][Vpn2(va)].page;
      HardwareAtLevel1(base, raw, node, m, va);
      assert EntryOk(t, node, m, Vpn1(va));
      if t[m][Vpn1(va)].Ptr? {
        HardwareAtLevel0(base, raw, node, t[m][Vpn1(va)].page, va);
      }
    }
  }

  datatype Access = Load | Save | Fetch

  /** The privilege of an access; `sum` is the SUM bit of sstatus. MXR is clear. */
  datatype Mode = User | Supervisor(sum: bool)

  /** The checks of a leaf (steps 5 and 7 of section 4.3.2 of the RISC-V Privileged
      Architecture, version 20211203), where A and D are not set by the hardware. */
  predicate Permits(flags: nat, access: Access, mode: Mode) {
    && Has(flags, PTE_V) && Has(flags, PTE_A)
    && (match access case Load => Has(flags, PTE_R) case Save => Has(flags, PTE_W) && Has(flags, PTE_D)
                     case Fetch => Has(flags, PTE_X))
    && (match mode case User => Has(flags, PTE_U)
                   case Supervisor(sum) => !Has(flags, PTE_U) || (sum && !access.Fetch?))
  }

  /** The accesses that requested permissions name: reading always, writing and fetching as
      asked; by user mode on a user page, by the kernel on the others, and by the kernel on a
      user page when it opens user memory, though it never fetches there. */
  predicate Named(perms: nat, access: Access, mode: Mode) {
    && (access.Save? ==> Has(perms, PT_FLAG_RW))
    && (access.Fetch? ==> Has(perms, PT_FLAG_EXEC))
    && if Has(perms, PT_FLAG_USER) then mode.User? || (mode.sum && !access.Fetch?) else mode.Supervisor?
  }

  predicate WxnReject(perms: nat) {
    Has(perms, PT_FLAG_USER) && Has(perms, PT_FLAG_RW) && Has(perms, PT_FLAG_EXEC)
  }

  function PermsToPteFlags(perms: nat): nat {
    PTE_V + PTE_R + PTE_A + PTE_D
    + (if Has(perms, PT_FLAG_USER) then PTE_U else PTE_G)
    + (if Has(perms, PT_FLAG_RW) then PTE_W else 0)
    + (if Has(perms, PT_FLAG_EXEC) then PTE_X else 0)
  }

  /** The flags written for accepted permissions are a readable leaf without W and X
      together on a user page, and carry exactly the requested rights. */
  lemma PermsOk(perms: nat)
    requires !WxnReject(perms)
    ensures var f := PermsToPteFlags(perms);
            && f < 1024 && IsLeaf(f) && Has(f, PTE_R) && WxOk(f)
            && (Has(f, PTE_U) <==> Has(perms, PT_FLAG_USER)) && (Has(f, PTE_W) <==> Has(perms, PT_FLAG_RW))
            && (Has(f, PTE_X) <==> Has(perms, PT_FLAG_EXEC))
  {
  }

  /** The hardware lets through exactly the accesses the permissions name. */
  lemma PermsGrant(perms: nat, access: Access, mode: Mode)
    ensures Permits(PermsToPteFlags(perms), access, mode) <==> Named(perms, access, mode)
    ensures Has(PermsToPteFlags(perms), PTE_G) <==> !Has(perms, PT_FLAG_USER)
  {
  }

  /** What is refused: exactly the permissions by which user mode could both write and fetch. */
  lemma RejectMeans(perms: nat)
    ensures WxnReject(perms) <==> Named(perms, Save, User) && Named(perms, Fetch, User)
  {
  }

  /** The flags of a kernel superpage. */
  function KernelFlags(exec: bool): nat {
    if exec then PTE_KERN_RWX else PTE_KERN_RW
  }

  /** The kernel may read and write its superpages, and fetch from the code; user mode has no
      access. */
  lemma KernelGrants(exec: bool, access: Access, mode: Mode)
    ensures Permits(KernelFlags(exec), access, mode) <==> mode.Supervisor? && (access.Fetch? ==> exec)
    ensures Has(KernelFlags(exec), PTE_G)
  {
  }

  /** The numbers stored for a user code page, kernel code and kernel data. */
  lemma StoredFlags()
    ensures PermsToPteFlags(PT_FLAG_USER + PT_FLAG_EXEC) == 0xDB && KernelFlags(true) == 0xEF && KernelFlags(false) == 0xE7
  {
  }

  /** Two addresses in the same 4 KiB page of the 39-bit space. */
  ghost predicate SamePage(va: nat, wa: nat) {
    Vpn2(va) == Vpn2(wa) && Vpn1(va) == Vpn1(wa) && Vpn0(va) == Vpn0(wa)
  }

  lemma SamePageMeans(va: nat, wa: nat)
    ensures SamePage(va, wa) <==> PageNumber(va) == PageNumber(wa)
    ensures SameSuperpage(va, wa) <==> SuperpageNumber(va) == SuperpageNumber(wa)
  {
    IndicesAreDigits(va);
    IndicesAreDigits(wa);
  }

  /** The entry loop of `sv39_shatter_2m`. */
  method ShatterTable(base: nat, pa: nat, flags: nat) returns (table: seq<nat>)
    requires LeafOk(1, pa, flags)
    ensures |table| == PT_ENTRIES && DecodeTable(base, table) == Shattered(pa, flags)
    ensures TableOk(0, DecodeTable(base, table))
  {
    ShatteredOk(pa, flags);
    table := [];
    for k := 0 to PT_ENTRIES
      invariant |table| == k
      invariant forall j :: 0 <= j < k ==> Decode(base, table[j]) == Leaf(pa + j * PAGE_SIZE, flags)
    {
      DecodeLeaf(base, pa + k * PAGE_SIZE, flags);
      table := table + [PteMake(pa + k * PAGE_SIZE, flags)];
    }
    assert DecodeTable(base, table) == Shattered(pa, flags);
  }

  ghost predicate SameSuperpage(va: nat, wa: nat) {
    Vpn2(va) == Vpn2(wa) && Vpn1(va) == Vpn1(wa)
  }

  lemma KernelLeafOk(addr: nat, flags: nat)
    requires addr % SUPERPAGE == 0 && addr < PADDR_LIMIT && (flags == PTE_KERN_RWX || flags == PTE_KERN_RW)
    ensures LeafOk(1, addr, flags)
  {
    SuperpageIsPage(addr);
    KernelFlagsOk();
  }

  lemma SuperpageIsPage(addr: nat)
    requires addr % SUPERPAGE == 0
    ensures addr % PAGE_SIZE == 0
  {
    var q := addr / SUPERPAGE;
    assert addr == (q * 512) * PAGE_SIZE;
  }

  lemma KernelFlagsOk()
    ensures IsLeaf(PTE_KERN_RWX) && Has(PTE_KERN_RWX, PTE_R) && WxOk(PTE_KERN_RWX)
    ensures IsLeaf(PTE_KERN_RW) && Has(PTE_KERN_RW, PTE_R) && WxOk(PTE_KERN_RW)
  {
  }

  datatype Outcome = Done | Rejected | NotMapped | OutOfPages

  /** The generation and the raw tables at one moment. */
  datatype Moment = Moment(gen: nat, tables: seq<seq<nat>>)

  /** The calls that change mappings once paging is on. */
  datatype Op = Map(va: nat, pa: nat, perms: nat) | Unmap(va: nat) | Update(va: nat, perms: nat)

  predicate OpOk(op: Op) {
    op.va % PAGE_SIZE == 0 && (op.Map? ==> PagePaddr(op.pa))
  }

  ghost function Walked(base: nat, m: Moment, va: nat): Option<Mapping> {
    HwWalk(base, m.tables, 2, 0, va)
  }

  ghost predicate SameMappings(base: nat, a: Moment, b: Moment) {
    forall va :: Walked(base, a, va) == Walked(base, b, va)
  }

  /** The physical address an access reaches, or a page fault. */
  ghost function Reach(base: nat, m: Moment, va: nat, access: Access, mode: Mode): Option<nat> {
    var w := Walked(base, m, va);
    if w.Some? && Permits(w.value.flags, access, mode) then Some(w.value.pa + va % PAGE_SIZE) else None
  }

  /** On va's page exactly the accesses that the permissions name go through, to the frame
      pa; the entry is global if and only if the page is not a user page. */
  ghost predicate Grants(base: nat, m: Moment, va: nat, pa: nat, perms: nat) {
    && (forall wa: nat, access, mode :: PageNumber(wa) == PageNumber(va) ==>
          Reach(base, m, wa, access, mode) == if Named(perms, access, mode) then Some(pa + wa % PAGE_SIZE) else None)
    && Walked(base, m, va).Some? && (Has(Walked(base, m, va).value.flags, PTE_G) <==> !Has(perms, PT_FLAG_USER))
  }

  lemma MappingGrants(base: nat, m: Moment, va: nat, pa: nat, perms: nat)
    requires forall wa :: SamePage(va, wa) ==> Walked(base, m, wa) == Some(Mapping(pa, PermsToPteFlags(perms)))
    ensures Grants(base, m, va, pa, perms)
  {
    PermsGrant(perms, Load, User);
    assert SamePage(va, va);
    forall wa: nat, access, mode | PageNumber(wa) == PageNumber(va)
      ensures Reach(base, m, wa, access, mode) == if Named(perms, access, mode) then Some(pa + wa % PAGE_SIZE) else None
    {
      SamePageMeans(va, wa);
      PermsGrant(perms, access, mode);
    }
  }

  /** No access to va's page goes through. */
  ghost predicate Refuses(base: nat, m: Moment, va: nat) {
    forall wa: nat, access, mode :: PageNumber(wa) == PageNumber(va) ==> Reach(base, m, wa, access, mode) == None
  }

  /** What a successful call does to the accesses of its page. */
  ghost predicate Regranted(base: nat, a: Moment, op: Op, b: Moment) {
    match op
    case Map(va, pa, perms) => Grants(base, b, va, pa, perms)
    case Unmap(va) => Refuses(base, b, va)
    case Update(va, perms) => Walked(base, a, va).Some? && Grants(base, b, va, Walked(base, a, va).value.pa, perms)
  }

  lemma OnePageRegrants(base: nat, a: Moment, op: Op, b: Moment)
    requires OnePage(base, a, op, b) && Succeeds(base, a, op)
    ensures Regranted(base, a, op, b)
  {
    match op
    case Map(va, pa, perms) => MappingGrants(base, b, va, pa, perms);
    case Unmap(va) =>
      forall wa: nat | PageNumber(wa) == PageNumber(va)
        ensures Walked(base, b, wa) == None
      {
        SamePageMeans(va, wa);
      }
    case Update(va, perms) => MappingGrants(base, b, va, Walked(base, a, va).value.pa, perms);
  }

  /** What the page of a successful call translates to afterwards. */
  ghost function Target(op: Op, before: Option<Mapping>): Option<Mapping> {
    match op
    case Map(_, pa, perms) => Some(Mapping(pa, PermsToPteFlags(perms)))
    case Unmap(_) => None
    case Update(_, perms) => if before.None? then None else Some(Mapping(before.value.pa, PermsToPteFlags(perms)))
  }

  ghost predicate OnePage(base: nat, a: Moment, op: Op, b: Moment) {
    forall va :: Walked(base, b, va) ==
                 if SamePage(op.va, va) then Target(op, Walked(base, a, op.va)) else Walked(base, a, va)
  }

  /** The root entries that lead to a table. */
  ghost function Roots(t: Tables): set<nat> {
    set j: nat | 0 < |t| && j < |t[0]| && t[0][j].Ptr?
  }

  /** The pages a walk to va's last level has to add. */
  ghost function Needed(t: Tables, va: nat): nat {
    if !(0 < |t| && Vpn2(va) < |t[0]| && t[0][Vpn2(va)].Ptr? && t[0][Vpn2(va)].page < |t|) then 2
    else
      var m := t[0][Vpn2(va)].page;
      if Vpn1(va) < |t[m]| && t[m][Vpn1(va)].Ptr? then 0 else 1
  }

  ghost predicate EnoughPages(base: nat, tables: seq<seq<nat>>, va: nat) {
    |tables| + Needed(DecodeAll(base, tables), va) <= PT_POOL_PAGES
  }

  /** The call goes through: its permissions are allowed, the pool has the pages its walk
      needs, and an update finds the page mapped. */
  ghost predicate Succeeds(base: nat, a: Moment, op: Op) {
    && (op.Map? || op.Update? ==> !WxnReject(op.perms))
    && EnoughPages(base, a.tables, op.va)
    && (op.Update? ==> Walked(base, a, op.va).Some?)
  }

  /** One call: if it goes through it changes its page's mapping alone and moves the
      generation, otherwise it changes no mapping. */
  ghost predicate Step(base: nat, a: Moment, op: Op, b: Moment) {
    if Succeeds(base, a, op) then b.gen == a.gen + 1 && OnePage(base, a, op, b) && Regranted(base, a, op, b)
    else b.gen == a.gen && SameMappings(base, a, b)
  }

  /** Each moment follows from the one before by the call between them. */
  ghost predicate Steps(base: nat, moments: seq<Moment>, ops: seq<Op>) {
    |moments| == |ops| + 1 && forall k :: 0 <= k < |ops| ==> Step(base, moments[k], ops[k], moments[k + 1])
  }

  /** No mapping is user, writable and executable. */
  ghost predicate NeverWx(base: nat, m: Moment) {
    forall va :: Walked(base, m, va).Some? ==> WxOk(Walked(base, m, va).value.flags)
  }

  /** Table n is the level-0 table on va's path. */
  ghost predicate AtL0(t: Tables, node: seq<Node>, va: nat, n: nat)
    requires Sized(t)
  {
    var e2 := t[0][Vpn2(va)];
    && e2.Ptr? && e2.page < |t| && t[e2.page][Vpn1(va)] == Ptr(n) && n < |t| == |node| && node[n].level == 0
  }

  lemma SameViewsHardware(base: nat, a: seq<seq<nat>>, an: seq<Node>, b: seq<seq<nat>>, bn: seq<Node>)
    requires Tree(DecodeAll(base, a), an) && Tree(DecodeAll(base, b), bn)
    requires SameViews(DecodeAll(base, a), DecodeAll(base, b))
    ensures forall va :: HwWalk(base, a, 2, 0, va) == HwWalk(base, b, 2, 0, va)
  {
    forall va
      ensures HwWalk(base, a, 2, 0, va) == HwWalk(base, b, 2, 0, va)
    {
      HardwareSeesView(base, a, an, va);
      HardwareSeesView(base, b, bn, va);
    }
  }

  /** A superpage that initialisation maps. */
  datatype Superpage = Superpage(addr: nat, exec: bool) {
    function flags(): nat { KernelFlags(exec) }
  }

  predicate SuperpageOk(p: Superpage) {
    p.addr % SUPERPAGE == 0 && p.addr < PADDR_LIMIT
  }

  /** One superpage is mapped anew. */
  ghost predicate Replaced(base: nat, a: Moment, p: Superpage, b: Moment) {
    forall va :: Walked(base, b, va) ==
                 if SameSuperpage(p.addr, va) then Some(Mapping(p.addr + Vpn0(va) * PAGE_SIZE, p.flags()))
                 else Walked(base, a, va)
  }

  /** A 2 MiB leaf stored in a middle table, as the hardware sees it. */
  lemma LeafReplaces(base: nat, a: Moment, b: Moment, node: seq<Node>, p: Superpage)
    requires var t, t' := DecodeAll(base, a.tables), DecodeAll(base, b.tables);
             && Tree(t, node) && Tree(t', node) && t[0][Vpn2(p.addr)].Ptr? && t[0][Vpn2(p.addr)].page < |t|
             && t' == Store(t, t[0][Vpn2(p.addr)].page, Vpn1(p.addr), Leaf(p.addr, p.flags()))
    ensures Replaced(base, a, p, b)
  {
    StoreL1Views(DecodeAll(base, a.tables), node, Vpn2(p.addr), Vpn1(p.addr), p.addr, p.flags());
    forall va
      ensures Walked(base, b, va) ==
              if SameSuperpage(p.addr, va) then Some(Mapping(p.addr + Vpn0(va) * PAGE_SIZE, p.flags()))
              else Walked(base, a, va)
    {
      HardwareSeesView(base, a.tables, node, va);
      HardwareSeesView(base, b.tables, node, va);
    }
  }

  class AddressSpace {
    const base: nat
    var tables: seq<seq<nat>>
    var gen: nat
    ghost var node: seq<Node>

    ghost predicate Valid()
      reads this
    {
      && PoolBase(base) && 1 <= |tables| <= PT_POOL_PAGES
      && Tree(DecodeAll(base, tables), node)
    }

    ghost function Abs(): Tables
      reads this
    {
      DecodeAll(base, tables)
    }

    /** What the hardware translates va's page to. */
    ghost function At(va: nat): Option<Mapping>
      reads this
    {
      HwWalk(base, tables, 2, 0, va)
    }

    ghost function Now(): Moment
      reads this
    {
      Moment(gen, tables)
    }

    /** The pool with its first page as an empty root. */
    constructor (base: nat)
      requires PoolBase(base)
      ensures Valid() && this.base == base && gen == 1 && |tables| == 1 && Roots(Abs()) == {}
      ensures forall va :: At(va) == None
    {
      this.base := base;
      tables := [seq(PT_ENTRIES, _ => 0)];
      gen := 1;
      node := [Node(2, 0, 0)];
      new;
      DecodeZero(base);
      assert Abs()[0] == seq(PT_ENTRIES, _ => Invalid);
    }

    /** `pt_alloc_page` and the store of the pointer to the new page. Fails when the
        pool is used up, where the kernel stops on an assertion. */
    method HangTable(n: nat, i: nat, table: seq<nat>) returns (ok: bool)
      requires Valid() && n < |tables| && i < PT_ENTRIES && node[n].level > 0 && !Abs()[n][i].Ptr?
      requires |table| == PT_ENTRIES
      requires TableOk(node[n].level - 1, DecodeTable(base, table))
      modifies this`tables, this`node
      ensures Valid() && (ok <==> |old(tables)| < PT_POOL_PAGES)
      ensures !ok ==> tables == old(tables) && node == old(node)
      ensures ok ==> Abs() == Hang(old(Abs()), n, i, DecodeTable(base, table))
      ensures ok ==> node == old(node) + [Node(old(node[n].level) - 1, n, i)]
    {
      if |tables| >= PT_POOL_PAGES {
        return false;
      }
      HangKeepsTree(Abs(), node, n, i, DecodeTable(base, table));
      DecodeHang(base, tables, n, i, table);
      tables := SetEntry(tables + [table], n, i, PteMake(base + |tables| * PAGE_SIZE, PTE_V));
      node := node + [Node(node[n].level - 1, n, i)];
      return true;
    }

    /** A zeroed table under an invalid entry. */
    method HangEmpty(n: nat, i: nat) returns (ok: bool)
      requires Valid() && n < |tables| && i < PT_ENTRIES && node[n].level > 0 && Abs()[n][i].Invalid?
      modifies this`tables, this`node
      ensures Valid() && SameViews(old(Abs()), Abs()) && (ok <==> |old(tables)| < PT_POOL_PAGES)
      ensures ok ==> |tables| == |old(tables)| + 1 && Abs() == Hang(old(Abs()), n, i, seq(PT_ENTRIES, _ => Invalid))
      ensures !ok ==> tables == old(tables) && node == old(node)
    {
      DecodeZero(base);
      HangEmptyInvisible(Abs(), node, n, i);
      var empty: seq<nat> := seq(PT_ENTRIES, _ => 0);
      assert DecodeTable(base, empty) == seq(PT_ENTRIES, _ => Invalid);
      ok := HangTable(n, i, empty);
    }

    /** `sv39_ensure_l1`. */
    method EnsureL1(i2: nat) returns (ok: bool)
      requires Valid() && i2 < PT_ENTRIES
      modifies this`tables, this`node
      ensures Valid() && SameViews(old(Abs()), Abs())
      ensures ok <==> old(Abs())[0][i2].Ptr? || |old(tables)| < PT_POOL_PAGES
      ensures old(Abs())[0][i2].Ptr? || !ok ==> tables == old(tables) && node == old(node)
      ensures ok && !old(Abs())[0][i2].Ptr? ==>
                |tables| == |old(tables)| + 1 && Abs() == Hang(old(Abs()), 0, i2, seq(PT_ENTRIES, _ => Invalid))
    {
      assert EntryOk(Abs(), node, 0, i2);
      if !Sv39.Valid(tables[0][i2]) {
        ok := HangEmpty(0, i2);
      } else {
        ok := true;
      }
    }

    /** The table an entry points to. */
    method Follow(n: nat, i: nat) returns (m: nat)
      requires Valid() && n < |tables| && i < PT_ENTRIES && Abs()[n][i].Ptr?
      ensures Abs()[n][i] == Ptr(m) && 0 < m < |tables| && node[m].level + 1 == node[n].level
    {
      assert EntryOk(Abs(), node, n, i);
      m := (PpnAddr(tables[n][i]) - base) / PAGE_SIZE;
    }

    /** `sv39_shatter_2m`. */
    method Shatter(m: nat, i1: nat) returns (ok: bool)
      requires Valid() && m < |tables| && i1 < PT_ENTRIES && node[m].level == 1 && Abs()[m][i1].Leaf?
      modifies this`tables, this`node
      ensures Valid() && SameViews(old(Abs()), Abs()) && (ok <==> |old(tables)| < PT_POOL_PAGES)
      ensures ok ==> |tables| == |old(tables)| + 1 && Abs()[m][i1].Ptr? && Abs()[0] == old(Abs()[0])
      ensures !ok ==> tables == old(tables) && node == old(node)
    {
      assert EntryOk(Abs(), node, m, i1);
      var pte := tables[m][i1];
      var pa, flags := PpnAddr(pte), Flags(pte);
      ShatterInvisible(Abs(), node, m, i1);
      var table := ShatterTable(base, pa, flags);
      ok := HangTable(m, i1, table);
    }

    /** `sv39_walk_l0`: the position of va's level-0 entry, making tables on the way.
        No translation changes, whether it succeeds or runs out of pool pages, and it runs
        out exactly when the pool lacks the pages it needs. */
    method WalkL0(va: nat) returns (pos: Option<(nat, nat)>)
      requires Valid()
      modifies this`tables, this`node
      ensures Valid() && SameViews(old(Abs()), Abs())
      ensures pos.Some? <==> EnoughPages(base, old(tables), va)
      ensures |tables| == if pos.Some? then |old(tables)| + Needed(old(Abs()), va) else PT_POOL_PAGES
      ensures pos.Some? ==> AtL0(Abs(), node, va, pos.value.0) && pos.value.1 == Vpn0(va)
    {
      assert EntryOk(Abs(), node, 0, Vpn2(va));
      var ok := EnsureL1(Vpn2(va));
      if !ok {
        return None;
      }
      var i1 := Vpn1(va);
      var m := Follow(0, Vpn2(va));
      ghost var mid := Abs();
      ok := EnsureL0(m, i1);
      SameViewsTrans(old(Abs()), mid, Abs());
      if !ok {
        return None;
      }
      var n := Follow(m, i1);
      return Some((n, Vpn0(va)));
    }

    /** The second half of the walk: a 2 MiB leaf is shattered, an empty entry gets a table. */
    method EnsureL0(m: nat, i1: nat) returns (ok: bool)
      requires Valid() && m < |tables| && i1 < PT_ENTRIES && node[m].level == 1
      modifies this`tables, this`node
      ensures Valid() && SameViews(old(Abs()), Abs())
      ensures ok <==> old(Abs())[m][i1].Ptr? || |old(tables)| < PT_POOL_PAGES
      ensures old(Abs())[m][i1].Ptr? || !ok ==> tables == old(tables) && node == old(node)
      ensures ok ==> |tables| == |old(tables)| + (if old(Abs())[m][i1].Ptr? then 0 else 1)
                     && Abs()[m][i1].Ptr? && Abs()[0] == old(Abs())[0]
    {
      assert EntryOk(Abs(), node, m, i1);
      ok := true;
      if IsLeaf(tables[m][i1]) {
        ok := Shatter(m, i1);
      } else if !Sv39.Valid(tables[m][i1]) {
        ok := HangEmpty(m, i1);
      }
    }

    /** Writing one level-0 entry after a walk. */
    method StoreL0(va: nat, n: nat, pte: nat)
      requires Valid() && AtL0(Abs(), node, va, n)
      requires !Decode(base, pte).Ptr?
      requires Decode(base, pte).Leaf? ==> LeafOk(0, Decode(base, pte).pa, Decode(base, pte).flags)
      modifies this`tables
      ensures Valid()
      ensures forall wa :: At(wa) ==
                if !SamePage(va, wa) then old(At(wa))
                else var e := Decode(base, pte); if e.Leaf? then Some(Mapping(e.pa, e.flags)) else None
    {
      var e := Decode(base, pte);
      StoreKeepsTree(Abs(), node, n, Vpn0(va), e);
      StoreL0Views(Abs(), node, Vpn2(va), Vpn1(va), Vpn0(va), e);
      DecodeStore(base, tables, n, Vpn0(va), pte);
      tables := SetEntry(tables, n, Vpn0(va), pte);
      forall wa
        ensures At(wa) == if !SamePage(va, wa) then old(At(wa))
                          else if e.Leaf? then Some(Mapping(e.pa, e.flags)) else None
      {
        HardwareSeesView(base, old(tables), node, wa);
        HardwareSeesView(base, tables, node, wa);
      }
    }

    lemma MappedGrants(va: nat, pa: nat, perms: nat)
      requires forall wa :: SamePage(va, wa) ==> At(wa) == Some(Mapping(pa, PermsToPteFlags(perms)))
      ensures Grants(base, Now(), va, pa, perms)
    {
      assert forall wa :: Walked(base, Now(), wa) == At(wa);
      MappingGrants(base, Now(), va, pa, perms);
    }

    /** `paging_unmap_page`. */
    method UnmapPage(va: nat) returns (r: Outcome)
      requires Valid() && va % PAGE_SIZE == 0
      modifies this
      ensures Valid() && gen == old(gen) + (if r.Done? then 1 else 0)
      ensures r.Done? ==> forall wa :: At(wa) == if SamePage(va, wa) then None else old(At(wa))
      ensures r.Done? <==> EnoughPages(base, old(tables), va)
      ensures !r.Done? ==> r.OutOfPages? && forall wa :: At(wa) == old(At(wa))
    {
      var pos := WalkL0(va);
      SameViewsHardware(base, old(tables), old(node), tables, node);
      if pos.None? {
        return OutOfPages;
      }
      DecodeZero(base);
      StoreL0(va, pos.value.0, 0);
      gen := gen + 1;
      return Done;
    }

    /** `paging_map_page`. */
    method MapPage(va: nat, pa: nat, perms: nat) returns (r: Outcome)
      requires Valid() && va % PAGE_SIZE == 0 && PagePaddr(pa)
      modifies this
      ensures Valid() && gen == old(gen) + (if r.Done? then 1 else 0)
      ensures r.Rejected? <==> Named(perms, Save, User) && Named(perms, Fetch, User)
      ensures r.Done? ==>
                forall wa :: At(wa) == if SamePage(va, wa) then Some(Mapping(pa, PermsToPteFlags(perms))) else old(At(wa))
      ensures r.Done? ==> Grants(base, Now(), va, pa, perms)
      ensures r.OutOfPages? <==> !WxnReject(perms) && !EnoughPages(base, old(tables), va)
      ensures !r.Done? ==> !r.NotMapped? && forall wa :: At(wa) == old(At(wa))
    {
      if WxnReject(perms) {
        return Rejected;
      }
      var pos := WalkL0(va);
      SameViewsHardware(base, old(tables), old(node), tables, node);
      if pos.None? {
        return OutOfPages;
      }
      PermsOk(perms);
      DecodeLeaf(base, pa, PermsToPteFlags(perms));
      StoreL0(va, pos.value.0, PteMake(pa, PermsToPteFlags(perms)));
      gen := gen + 1;
      MappedGrants(va, pa, perms);
      return Done;
    }

    /** `paging_update_page_perms`: same physical page, new rights. */
    method UpdatePagePerms(va: nat, perms: nat) returns (r: Outcome)
      requires Valid() && va % PAGE_SIZE == 0
      modifies this
      ensures Valid() && gen == old(gen) + (if r.Done? then 1 else 0)
      ensures r.Rejected? <==> Named(perms, Save, User) && Named(perms, Fetch, User)
      ensures r.OutOfPages? <==> !WxnReject(perms) && !EnoughPages(base, old(tables), va)
      ensures r.NotMapped? <==> !WxnReject(perms) && EnoughPages(base, old(tables), va) && old(At(va)) == None
      ensures r.Done? ==>
                forall wa :: At(wa) == if SamePage(va, wa) then Some(Mapping(old(At(va)).value.pa, PermsToPteFlags(perms)))
                                       else old(At(wa))
      ensures r.Done? ==> Grants(base, Now(), va, old(At(va)).value.pa, perms)
      ensures !r.Done? ==> forall wa :: At(wa) == old(At(wa))
    {
      if WxnReject(perms) {
        return Rejected;
      }
      var pos := WalkL0(va);
      SameViewsHardware(base, old(tables), old(node), tables, node);
      if pos.None? {
        return OutOfPages;
      }
      var pte := tables[pos.value.0][pos.value.1];
      HardwareSeesView(base, tables, node, va);
      assert EntryOk(Abs(), node, pos.value.0, pos.value.1);
      if !Sv39.Valid(pte) {
        return NotMapped;
      }
      PermsOk(perms);
      DecodeLeaf(base, PpnAddr(pte), PermsToPteFlags(perms));
      StoreL0(va, pos.value.0, PteMake(PpnAddr(pte), PermsToPteFlags(perms)));
      gen := gen + 1;
      MappedGrants(va, PpnAddr(pte), perms);
      return Done;
    }

    /** `sv39_lookup_leaf` finds the entry the hardware would use, and only that one. */
    method LookupLeaf(va: nat) returns (leaf: Option<nat>)
      requires Valid()
      ensures leaf.Some? <==> At(va).Some?
      ensures leaf.Some? ==> Flags(leaf.value) == At(va).value.flags
    {
      assert At(va) == View(Abs(), Vpn2(va), Vpn1(va), Vpn0(va)) by { HardwareSeesView(base, tables, node, va); }
      assert EntryOk(Abs(), node, 0, Vpn2(va));
      var e2 := tables[0][Vpn2(va)];
      if !Sv39.Valid(e2) {
        return None;
      }
      var m := Follow(0, Vpn2(va));
      var e1 := tables[m][Vpn1(va)];
      if !Sv39.Valid(e1) {
        return None;
      }
      if IsLeaf(e1) {
        return Some(e1);
      }
      var n := Follow(m, Vpn1(va));
      leaf := LeafIn(n, Vpn0(va));
    }

    /** The leaf in a last-level table, if there is one. */
    method LeafIn(n: nat, i0: nat) returns (leaf: Option<nat>)
      requires Valid() && n < |tables| && i0 < PT_ENTRIES && node[n].level == 0
      ensures leaf.Some? <==> Abs()[n][i0].Leaf?
      ensures leaf.Some? ==> Flags(leaf.value) == Abs()[n][i0].flags
    {
      assert EntryOk(Abs(), node, n, i0);
      var e0 := tables[n][i0];
      if !Sv39.Valid(e0) || !IsLeaf(e0) {
        return None;
      }
      return Some(e0);
    }

    /** `sv39_map_2m`: the 2 MiB around addr become the identity mapping and nothing else
        changes. The generation does not move: only initialisation maps this way. */
    method Map2M(p: Superpage) returns (ok: bool)
      requires Valid() && SuperpageOk(p)
      modifies this`tables, this`node
      ensures Valid()
      ensures if ok then Replaced(base, old(Now()), p, Now()) else SameMappings(base, old(Now()), Now())
      ensures ok <==> Vpn2(p.addr) in old(Roots(Abs())) || |old(tables)| < PT_POOL_PAGES
      ensures ok ==> Roots(Abs()) == old(Roots(Abs())) + {Vpn2(p.addr)}
      ensures ok ==> |tables| == |old(tables)| + (if Vpn2(p.addr) in old(Roots(Abs())) then 0 else 1)
    {
      ok := EnsureL1(Vpn2(p.addr));
      SameViewsHardware(base, old(tables), old(node), tables, node);
      if !ok {
        return;
      }
      var m := Follow(0, Vpn2(p.addr));
      StoreL1(m, p);
    }

    method StoreL1(m: nat, p: Superpage)
      requires Valid() && SuperpageOk(p) && m < |tables| && Abs()[0][Vpn2(p.addr)] == Ptr(m)
      modifies this`tables
      ensures Valid() && |tables| == |old(tables)| && Abs()[0] == old(Abs())[0]
      ensures Replaced(base, old(Now()), p, Now())
    {
      assert EntryOk(Abs(), node, 0, Vpn2(p.addr));
      KernelLeafOk(p.addr, p.flags());
      DecodeLeaf(base, p.addr, p.flags());
      DecodeStore(base, tables, m, Vpn1(p.addr), PteMake(p.addr, p.flags()));
      StoreKeepsTree(Abs(), node, m, Vpn1(p.addr), Leaf(p.addr, p.flags()));
      tables := SetEntry(tables, m, Vpn1(p.addr), PteMake(p.addr, p.flags()));
      LeafReplaces(base, old(Now()), Now(), node, p);
    }

    /** One call, whichever it is. */
    method Apply(op: Op)
      requires Valid() && OpOk(op)
      modifies this
      ensures Valid() && Step(base, old(Now()), op, Now())
    {
      ghost var before := Now();
      ghost var done := false;
      match op {
        case Map(va, pa, perms) =>
          var r := MapPage(va, pa, perms);
          done := r.Done?;
        case Unmap(va) =>
          var r := UnmapPage(va);
          done := r.Done?;
        case Update(va, perms) =>
          var r := UpdatePagePerms(va, perms);
          done := r.Done?;
      }
      assert forall va :: Walked(base, before, va) == old(At(va)) && Walked(base, Now(), va) == At(va);
      assert if done then OnePage(base, before, op, Now()) else SameMappings(base, before, Now());
      if done {
        OnePageRegrants(base, before, op, Now());
      }
    }

    lemma NoUserWriteExecNow()
      requires Valid()
      ensures NeverWx(base, Now())
    {
      forall va | Walked(base, Now(), va).Some?
        ensures WxOk(Walked(base, Now(), va).value.flags)
      {
        NoUserWriteExec(va);
      }
    }

    /** No reachable mapping of a user page is writable and executable. */
    lemma NoUserWriteExec(va: nat)
      requires Valid() && At(va).Some?
      ensures WxOk(At(va).value.flags)
    {
      HardwareSeesView(base, tables, node, va);
      assert EntryOk(Abs(), node, 0, Vpn2(va));
      assert EntryOk(Abs(), node, Abs()[0][Vpn2(va)].page, Vpn1(va));
      if Abs()[Abs()[0][Vpn2(va)].page][Vpn1(va)].Ptr? {
        assert EntryOk(Abs(), node, Abs()[Abs()[0][Vpn2(va)].page][Vpn1(va)].page, Vpn0(va));
      }
    }
  }

  /** Equal validation generations mean equal mappings, at any two moments of any run. */
  lemma {:induction false} EqualGenerationsEqualMappings(base: nat, moments: seq<Moment>, ops: seq<Op>, i: nat, j: nat)
    requires Steps(base, moments, ops) && i <= j < |moments|
    ensures moments[i].gen <= moments[j].gen
    ensures moments[i].gen == moments[j].gen ==> SameMappings(base, moments[i], moments[j])
  {
    if i < j {
      EqualGenerationsEqualMappings(base, moments, ops, i, j - 1);
      assert Step(base, moments[j - 1], ops[j - 1], moments[j - 1 + 1]);
    }
  }

  /** What an access reaches after the superpages are mapped: on the last one over va, the
      kernel may read, write and, on code, fetch, and the address is its own translation
      within the superpage; nothing else is reached. */
  ghost function BootReach(boot: seq<Superpage>, va: nat, access: Access, mode: Mode): Option<nat> {
    if boot == [] then None
    else
      var p := boot[|boot| - 1];
      if SuperpageNumber(va) != SuperpageNumber(p.addr) then BootReach(boot[..|boot| - 1], va, access, mode)
      else if mode.Supervisor? && (access.Fetch? ==> p.exec) then Some(p.addr + va % SUPERPAGE)
      else None
  }

  lemma {:induction false} BootMappingReach(boot: seq<Superpage>, va: nat, access: Access, mode: Mode)
    ensures var w := BootMapping(boot, va);
            BootReach(boot, va, access, mode) ==
              if w.Some? && Permits(w.value.flags, access, mode) then Some(w.value.pa + va % PAGE_SIZE) else None
  {
    if boot != [] {
      var p := boot[|boot| - 1];
      BootMappingReach(boot[..|boot| - 1], va, access, mode);
      SamePageMeans(p.addr, va);
      IndicesAreDigits(va);
      KernelGrants(p.exec, access, mode);
    }
  }

  /** Initialisation maps every superpage to itself. */
  lemma IdentityMapped(addr: nat, va: nat)
    requires addr % SUPERPAGE == 0
    ensures addr <= va < addr + SUPERPAGE ==> SuperpageNumber(va) == SuperpageNumber(addr) && addr + va % SUPERPAGE == va
  {
    if addr <= va < addr + SUPERPAGE {
      DivModUnique(va, SUPERPAGE, addr / SUPERPAGE, va - addr);
    }
  }

  /** What the mapped superpages translate va to; a later one replaces an earlier one. */
  ghost function BootMapping(boot: seq<Superpage>, va: nat): Option<Mapping> {
    if boot == [] then None
    else
      var p := boot[|boot| - 1];
      if SameSuperpage(p.addr, va) then Some(Mapping(p.addr + Vpn0(va) * PAGE_SIZE, p.flags()))
      else BootMapping(boot[..|boot| - 1], va)
  }

  ghost predicate Booted(base: nat, m: Moment, boot: seq<Superpage>) {
    forall va :: Walked(base, m, va) == BootMapping(boot, va)
  }

  /** Every access reaches what the superpages give it. */
  ghost predicate BootGrants(base: nat, m: Moment, boot: seq<Superpage>) {
    forall va, access, mode :: Reach(base, m, va, access, mode) == BootReach(boot, va, access, mode)
  }

  lemma BootedGrants(base: nat, m: Moment, boot: seq<Superpage>)
    requires Booted(base, m, boot)
    ensures BootGrants(base, m, boot)
  {
    forall va, access, mode
      ensures Reach(base, m, va, access, mode) == BootReach(boot, va, access, mode)
    {
      BootMappingReach(boot, va, access, mode);
    }
  }

  /** The gigapages the superpages lie in, each of which takes one middle table. */
  ghost function Gigapages(boot: seq<Superpage>): set<nat> {
    set p | p in boot :: Vpn2(p.addr)
  }

  lemma GigapagesNext(boot: seq<Superpage>, p: Superpage)
    ensures Gigapages(boot + [p]) == Gigapages(boot) + {Vpn2(p.addr)}
    ensures |Gigapages(boot + [p])| == |Gigapages(boot)| + if Vpn2(p.addr) in Gigapages(boot) then 0 else 1
  {
    assert Gigapages(boot + [p]) == Gigapages(boot) + {Vpn2(p.addr)};
    if Vpn2(p.addr) in Gigapages(boot) {
      assert Gigapages(boot + [p]) == Gigapages(boot);
    }
  }

  /** The superpages of `boot` are mapped, with one middle table for each gigapage. */
  ghost predicate BootState(space: AddressSpace, boot: seq<Superpage>)
    reads space
  {
    && space.Valid() && Booted(space.base, space.Now(), boot)
    && Roots(space.Abs()) == Gigapages(boot) && |space.tables| == 1 + |Gigapages(boot)|
  }

  /** The superpage mapping of `paging_init`: completed if and only if the pool has a table
      for the root and for each gigapage. */
  method Boot(base: nat, boot: seq<Superpage>) returns (space: AddressSpace, ok: bool)
    requires PoolBase(base)
    requires forall i :: 0 <= i < |boot| ==> SuperpageOk(boot[i])
    ensures fresh(space) && space.base == base && space.Valid()
    ensures ok ==> BootState(space, boot) && BootGrants(base, space.Now(), boot)
    ensures ok <==> 1 + |Gigapages(boot)| <= PT_POOL_PAGES
  {
    space := new AddressSpace(base);
    ok := true;
    assert boot[..0] == [] && forall va :: Walked(base, space.Now(), va) == space.At(va);
    assert 1 + |Gigapages(boot[..0])| <= PT_POOL_PAGES;
    for i := 0 to |boot|
      invariant fresh(space) && space.base == base && ok
      invariant BootState(space, boot[..i]) && 1 + |Gigapages(boot[..i])| <= PT_POOL_PAGES
    {
      assert boot[..i + 1] == boot[..i] + [boot[i]];
      ok := BootOne(space, boot[i], boot[..i]);
      if !ok {
        SubsetSize(Gigapages(boot[..i + 1]), Gigapages(boot));
        return;
      }
    }
    assert boot[..|boot|] == boot;
    BootedGrants(base, space.Now(), boot);
  }

  /** One more superpage. */
  method BootOne(space: AddressSpace, p: Superpage, ghost boot: seq<Superpage>) returns (ok: bool)
    requires SuperpageOk(p) && BootState(space, boot) && |space.tables| <= PT_POOL_PAGES
    modifies space
    ensures space.Valid() && (ok ==> BootState(space, boot + [p]))
    ensures ok <==> 1 + |Gigapages(boot + [p])| <= PT_POOL_PAGES
  {
    ghost var before := space.Now();
    assert (boot + [p])[..|boot|] == boot;
    GigapagesNext(boot, p);
    ok := space.Map2M(p);
    if ok {
      BootedNext(space.base, before, space.Now(), boot + [p]);
    }
  }

  lemma BootedNext(base: nat, a: Moment, b: Moment, boot: seq<Superpage>)
    requires boot != [] && Booted(base, a, boot[..|boot| - 1]) && Replaced(base, a, boot[|boot| - 1], b)
    ensures Booted(base, b, boot)
  {
  }

  /** Paging from its initialisation on, with any superpages mapped at first and any calls
      afterwards: exactly the calls that are allowed and find pages go through, every call
      changes at most its own page, the generation moves with every change, so moments of
      equal generation have equal mappings and permissions, and at no moment is any mapping
      user, writable and executable. */
  method RunPaging(base: nat, boot: seq<Superpage>, ops: seq<Op>)
    returns (space: AddressSpace, booted: bool, ghost moments: seq<Moment>)
    requires PoolBase(base)
    requires forall i :: 0 <= i < |boot| ==> SuperpageOk(boot[i])
    requires forall i :: 0 <= i < |ops| ==> OpOk(ops[i])
    ensures fresh(space) && space.base == base && space.Valid()
    ensures Steps(base, moments, ops) && moments[|ops|] == space.Now()
    ensures booted <==> 1 + |Gigapages(boot)| <= PT_POOL_PAGES
    ensures booted ==> Booted(base, moments[0], boot) && BootGrants(base, moments[0], boot)
    ensures forall i, j :: 0 <= i <= j < |moments| ==>
              && moments[i].gen <= moments[j].gen
              && (moments[i].gen == moments[j].gen ==> SameMappings(base, moments[i], moments[j]))
    ensures forall i :: 0 <= i < |moments| ==> NeverWx(base, moments[i])
  {
    space, booted := Boot(base, boot);
    space.NoUserWriteExecNow();
    moments := [space.Now()];
    for i := 0 to |ops|
      invariant fresh(space) && space.base == base && space.Valid()
      invariant Steps(base, moments, ops[..i]) && moments[i] == space.Now()
      invariant booted ==> Booted(base, moments[0], boot) && BootGrants(base, moments[0], boot)
      invariant forall k :: 0 <= k <= i ==> NeverWx(base, moments[k])
    {
      ghost var before := moments;
      space.Apply(ops[i]);
      space.NoUserWriteExecNow();
      moments := moments + [space.Now()];
      StepsSnoc(base, before, ops[..i], ops[i], space.Now());
      assert ops[..i + 1] == ops[..i] + [ops[i]];
    }
    assert ops[..|ops|] == ops;
    forall i, j | 0 <= i <= j < |moments|
      ensures moments[i].gen <= moments[j].gen
      ensures moments[i].gen == moments[j].gen ==> SameMappings(base, moments[i], moments[j])
    {
      EqualGenerationsEqualMappings(base, moments, ops, i, j);
    }
  }

  lemma StepsSnoc(base: nat, moments: seq<Moment>, ops: seq<Op>, op: Op, m: Moment)
    requires Steps(base, moments, ops) && Step(base, moments[|ops|], op, m)
    ensures Steps(base, moments + [m], ops + [op])
  {
    var ms, os := moments + [m], ops + [op];
    forall k | 0 <= k < |os|
      ensures Step(base, ms[k], os[k], ms[k + 1])
    {
      if k < |ops| { assert Step(base, moments[k], ops[k], moments[k + 1]); }
    }
  }
}

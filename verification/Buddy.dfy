/** The page-block model of the buddy allocator: who owns each page, what the free
    lists and the availability bitmap say about it, and why coalescing is sound.

    Pages are numbered from the allocator's base; a block of order k is Pow2(k)
    pages long. `Held` is a block that is inside a running alloc or free: on no
    list, in no caller's hands, with unspecified bitmap bits. */
module BuddySpec {
  import opened Lists
  import opened Options
  import opened Powers


  datatype Own = Free(base: nat, ord: nat) | Live(base: nat, ord: nat) | Held(base: nat, ord: nat)

  const N_FREE_LISTS: nat := 52

  /** Page p's owner is an aligned block around p, and every page of that block agrees. */
  ghost predicate BlockAround(maxOrd: nat, own: seq<Own>, p: nat)
    requires p < |own|
  {
    var o := own[p];
    && o.ord <= maxOrd && Aligned(o.base, o.ord)
    && o.base <= p < o.base + Pow2(o.ord) <= |own|
    && forall q :: o.base <= q < o.base + Pow2(o.ord) ==> own[q] == o
  }

  /** The blocks tile the 2^maxOrd pages: every page lies in exactly one block. */
  ghost predicate Tiled(maxOrd: nat, own: seq<Own>) {
    && |own| == Pow2(maxOrd)
    && forall p :: 0 <= p < |own| ==> BlockAround(maxOrd, own, p)
  }

  ghost predicate IsFreeBlock(own: seq<Own>, a: nat, k: nat) {
    a < |own| && own[a] == Free(a, k)
  }

  /** List k holds exactly the free blocks of order k, each once. */
  ghost predicate Listed(maxOrd: nat, own: seq<Own>, avail: seq<seq<nat>>) {
    && maxOrd < |avail| == N_FREE_LISTS
    && (forall k :: 0 <= k < |avail| ==> NoDup(avail[k]))
    && forall k: nat, a: nat :: k < |avail| ==> (a in avail[k] <==> IsFreeBlock(own, a, k))
  }

  /** Bitmap agreement below the top order. */
  ghost predicate Mapped(maxOrd: nat, own: seq<Own>, bits: seq<bool>) {
    && |own| <= |bits|
    && forall p :: 0 <= p < |own| ==>
         && (own[p].Free? && own[p].ord < maxOrd ==> bits[p])
         && (own[p].Live? ==> !bits[p])
  }

  /** A free block of the top order has its bits set. Initialisation lists that block without
      setting them; every free that coalesces up to it does. */
  ghost predicate TopMarked(maxOrd: nat, own: seq<Own>, bits: seq<bool>) {
    |own| <= |bits| && forall p :: 0 <= p < |own| && own[p].Free? && own[p].ord == maxOrd ==> bits[p]
  }

  /** The region as initialised: one free block, every bit clear. */
  ghost predicate Untouched(maxOrd: nat, own: seq<Own>, bits: seq<bool>) {
    && (forall p :: 0 <= p < |own| ==> own[p] == Free(0, maxOrd))
    && forall p :: 0 <= p < |bits| ==> !bits[p]
  }

  /** `get_buddy`; None is the crash on a misaligned block. */
  function GetBuddy(a: nat, k: nat): (r: Option<nat>)
  {
    if a % Pow2(k + 1) == 0 then Some(a + Pow2(k))
    else if a % Pow2(k + 1) == Pow2(k) && Pow2(k) <= a then Some(a - Pow2(k))
    else None
  }

  ghost predicate HalvesFree(own: seq<Own>, m: nat, k: nat) {
    IsFreeBlock(own, m, k) && IsFreeBlock(own, m + Pow2(k), k)
  }

  /** The halves of one aligned block of order k + 1 are never both free at order k. */
  ghost predicate Coalesced(maxOrd: nat, own: seq<Own>) {
    forall m: nat, k: nat {:trigger HalvesFree(own, m, k)} ::
      k < maxOrd && Aligned(m, k + 1) ==> !HalvesFree(own, m, k)
  }

  /** At most the one block (a, k) is in transit. */
  ghost predicate OnlyHeld(own: seq<Own>, a: nat, k: nat) {
    forall p :: 0 <= p < |own| && own[p].Held? ==> own[p] == Held(a, k)
  }

  ghost predicate NoneHeld(own: seq<Own>) {
    forall p :: 0 <= p < |own| ==> !own[p].Held?
  }

  /** b is the other half of the aligned block of order k + 1 around a. */
  ghost predicate Buddies(a: nat, b: nat, k: nat) {
    || (b == a + Pow2(k) && Aligned(a, k + 1))
    || (a == b + Pow2(k) && Aligned(b, k + 1))
  }

  /** `get_buddy` never crashes on an aligned block and finds its other half. */
  lemma BuddyOfAligned(a: nat, k: nat)
    requires Aligned(a, k)
    ensures GetBuddy(a, k).Some?
    ensures var b := GetBuddy(a, k).value; Aligned(b, k) && Buddies(a, b, k)
  {
    AlignedIsMultiple(a, k);
    MultipleParity(a, Pow2(k), Pow2(k + 1));
    if a % Pow2(k + 1) == 0 {
      AlignedIsMultiple(a, k + 1);
      AlignedHalves(a, k + 1);
    } else {
      AlignedIsMultiple(a - Pow2(k), k + 1);
      AlignedHalves(a - Pow2(k), k + 1);
    }
  }

  /** `get_buddy` crashes exactly on a block that is not aligned to its order. */
  lemma BuddyExists(a: nat, k: nat)
    ensures GetBuddy(a, k).Some? <==> Aligned(a, k)
  {
    AlignedIsMultiple(a, k);
    ModDouble(a, Pow2(k));
    if Aligned(a, k) { BuddyOfAligned(a, k); }
  }

  lemma BuddyUnique(a: nat, b: nat, k: nat)
    requires Buddies(a, b, k)
    ensures forall c: nat :: Buddies(a, c, k) ==> c == b
  {
    forall c: nat | Buddies(a, c, k)
      ensures c == b
    {
      Laminar(if a < b then a else b, k + 1, if a < c then a else c, k + 1);
    }
  }

  lemma BuddyInRange(maxOrd: nat, a: nat, b: nat, k: nat)
    requires Buddies(a, b, k) && k < maxOrd && a < Pow2(maxOrd)
    ensures b + Pow2(k) <= Pow2(maxOrd)
  {
    AlignedZero(maxOrd);
    Laminar(if a < b then a else b, k + 1, 0, maxOrd);
  }

  /** An aligned run whose pages are all free in blocks no larger than the run IS a
      single free block: two free halves would be free buddies. */
  lemma {:induction false} FreeRunIsBlock(maxOrd: nat, own: seq<Own>, a: nat, k: nat)
    requires Tiled(maxOrd, own) && Coalesced(maxOrd, own)
    requires k <= maxOrd && Aligned(a, k) && a + Pow2(k) <= |own|
    requires forall p :: a <= p < a + Pow2(k) ==> own[p].Free? && own[p].ord <= k
    ensures own[a] == Free(a, k)
    decreases k
  {
    assert BlockAround(maxOrd, own, a);
    if own[a].ord == k {
      Laminar(own[a].base, k, a, k);
    } else {
      forall p | a <= p < a + Pow2(k)
        ensures own[p].ord <= k - 1
      {
        assert BlockAround(maxOrd, own, p);
        if own[p].ord == k { Laminar(own[p].base, k, a, k); }
      }
      AlignedHalves(a, k);
      NoFreeHalves(maxOrd, own, a, k - 1);
      FreeRunIsBlock(maxOrd, own, a, k - 1);
      FreeRunIsBlock(maxOrd, own, a + Pow2(k - 1), k - 1);
    }
  }

  lemma NoFreeHalves(maxOrd: nat, own: seq<Own>, a: nat, k: nat)
    requires Coalesced(maxOrd, own) && k < maxOrd && Aligned(a, k + 1) && a + Pow2(k + 1) <= |own|
    ensures !(own[a] == Free(a, k) && own[a + Pow2(k)] == Free(a + Pow2(k), k))
  {
    assert !HalvesFree(own, a, k);
  }

  /** Coalescing is sound: while the block (a, k) is being freed, a buddy range
      whose bits are all set is a listed free block of exactly order k, although
      the code never looks at the buddy's order. */
  lemma AvailableBuddyIsWholeBlock(maxOrd: nat, own: seq<Own>, bits: seq<bool>, a: nat, k: nat, b: nat)
    requires Tiled(maxOrd, own) && Coalesced(maxOrd, own) && Mapped(maxOrd, own, bits)
    requires k < maxOrd && a < |own| && own[a] == Held(a, k) && OnlyHeld(own, a, k)
    requires Buddies(a, b, k) && b + Pow2(k) <= |own|
    requires forall p :: b <= p < b + Pow2(k) ==> bits[p]
    ensures own[b] == Free(b, k)
  {
    assert BlockAround(maxOrd, own, a);
    AlignedHalves(if a < b then a else b, k + 1);
    forall p | b <= p < b + Pow2(k)
      ensures own[p].Free? && own[p].ord <= k
    {
      assert BlockAround(maxOrd, own, p);
      var o := own[p];
      if o.ord > k {
        Laminar(if a < b then a else b, k + 1, o.base, o.ord);
      }
    }
    FreeRunIsBlock(maxOrd, own, b, k);
  }

  /** Every aligned all-free run lies inside one free block, of at least its order. */
  lemma {:induction false} FreeRunInsideBlock(maxOrd: nat, own: seq<Own>, a: nat, k: nat)
    requires Tiled(maxOrd, own) && Coalesced(maxOrd, own)
    requires k <= maxOrd && Aligned(a, k) && a + Pow2(k) <= |own|
    requires forall p :: a <= p < a + Pow2(k) ==> own[p].Free?
    ensures own[a].Free? && k <= own[a].ord
  {
    if forall p :: a <= p < a + Pow2(k) ==> own[p].ord <= k {
      FreeRunIsBlock(maxOrd, own, a, k);
    } else {
      var p :| a <= p < a + Pow2(k) && own[p].ord > k;
      assert BlockAround(maxOrd, own, p);
      Laminar(a, k, own[p].base, own[p].ord);
    }
  }

  ghost predicate FreeRun(own: seq<Own>, a: nat, k: nat) {
    Aligned(a, k) && a + Pow2(k) <= |own| && forall p :: a <= p < a + Pow2(k) ==> own[p].Free?
  }

  lemma SingletonList(s: seq<nat>, x: nat)
    requires NoDup(s) && x in s && forall y :: y in s ==> y == x
    ensures s == [x]
  {
    assert s[0] in s && s[|s| - 1] in s;
  }

  /** With nothing live, the allocator is back to one free block of the top order. */
  lemma AllFreeIsOneBlock(maxOrd: nat, own: seq<Own>, avail: seq<seq<nat>>)
    requires Tiled(maxOrd, own) && Coalesced(maxOrd, own) && Listed(maxOrd, own, avail)
    requires forall p :: 0 <= p < |own| ==> own[p].Free?
    ensures avail[maxOrd] == [0]
    ensures forall k: nat, a: nat :: k < |avail| && a in avail[k] ==> k == maxOrd && a == 0
  {
    AlignedZero(maxOrd);
    FreeRunInsideBlock(maxOrd, own, 0, maxOrd);
    assert BlockAround(maxOrd, own, 0);
    assert own[0] == Free(0, maxOrd);
    forall k: nat, a: nat | k < |avail| && a in avail[k]
      ensures k == maxOrd && a == 0
    {
      assert IsFreeBlock(own, a, k);
      assert own[a] == own[0];
    }
    assert IsFreeBlock(own, 0, maxOrd);
    assert 0 in avail[maxOrd];
    SingletonList(avail[maxOrd], 0);
  }

  /** Re-freeing inside a free block below the top order always meets set bits. */
  lemma FreeRunBitsSet(maxOrd: nat, own: seq<Own>, bits: seq<bool>, a: nat, k: nat)
    requires Tiled(maxOrd, own) && Coalesced(maxOrd, own) && Mapped(maxOrd, own, bits)
    requires k <= maxOrd && FreeRun(own, a, k) && (own[a].ord < maxOrd || TopMarked(maxOrd, own, bits))
    ensures forall p :: a <= p < a + Pow2(k) ==> bits[p]
  {
    FreeRunInsideBlock(maxOrd, own, a, k);
    assert BlockAround(maxOrd, own, a);
    Laminar(a, k, own[a].base, own[a].ord);
  }

  lemma ClearBitNotFree(maxOrd: nat, own: seq<Own>, bits: seq<bool>, b: nat, k: nat)
    requires Tiled(maxOrd, own) && Mapped(maxOrd, own, bits) && k < maxOrd && b + Pow2(k) <= |own|
    requires !forall p :: b <= p < b + Pow2(k) ==> bits[p]
    ensures own[b] != Free(b, k)
  {
    assert BlockAround(maxOrd, own, b);
  }

  lemma RunNeedsBlock(maxOrd: nat, own: seq<Own>, avail: seq<seq<nat>>, a: nat, k: nat)
    requires Tiled(maxOrd, own) && Coalesced(maxOrd, own) && Listed(maxOrd, own, avail)
    requires k <= maxOrd && FreeRun(own, a, k)
    ensures exists j :: k <= j <= maxOrd && avail[j] != []
  {
    FreeRunInsideBlock(maxOrd, own, a, k);
    assert BlockAround(maxOrd, own, a);
    var j := own[a].ord;
    assert IsFreeBlock(own, own[a].base, j);
    assert own[a].base in avail[j];
  }

  /** With all lists of order at least k empty, no aligned free run of that order exists. */
  lemma NoBlockNoRun(maxOrd: nat, own: seq<Own>, avail: seq<seq<nat>>, k: nat)
    requires Tiled(maxOrd, own) && Coalesced(maxOrd, own) && Listed(maxOrd, own, avail)
    requires k <= maxOrd && forall j :: k <= j <= maxOrd ==> avail[j] == []
    ensures forall a: nat :: !FreeRun(own, a, k)
  {
    forall a: nat
      ensures !FreeRun(own, a, k)
    {
      if FreeRun(own, a, k) { RunNeedsBlock(maxOrd, own, avail, a, k); }
    }
  }

  /** The page heads a free block of at least order k, and no free block has an order from k
      up to below that block's. */
  ghost predicate SmallestFit(own: seq<Own>, a: nat, k: nat) {
    && a < |own| && own[a].Free? && own[a].base == a && k <= own[a].ord
    && forall b: nat, j: nat :: IsFreeBlock(own, b, j) && k <= j ==> own[a].ord <= j
  }

  lemma FirstListFits(maxOrd: nat, own: seq<Own>, avail: seq<seq<nat>>, k: nat, ord: nat, a: nat)
    requires Tiled(maxOrd, own) && Listed(maxOrd, own, avail) && k <= ord <= maxOrd
    requires (forall j :: k <= j < ord ==> avail[j] == []) && IsFreeBlock(own, a, ord)
    ensures SmallestFit(own, a, k)
  {
    forall b: nat, j: nat | IsFreeBlock(own, b, j) && k <= j
      ensures ord <= j
    {
      assert j < |avail| ==> b in avail[j];
    }
  }

  lemma FreeBlockHasRun(maxOrd: nat, own: seq<Own>, a: nat, k: nat, j: nat)
    requires Tiled(maxOrd, own) && IsFreeBlock(own, a, k) && j <= k
    ensures FreeRun(own, a, j)
  {
    assert BlockAround(maxOrd, own, a);
    AlignedFiner(a, j, k);
    Pow2Monotone(j, k);
  }

  /** The owner map with the Pow2(k) pages from b handed to o. */
  ghost function Paint(own: seq<Own>, b: nat, k: nat, o: Own): (r: seq<Own>)
    ensures |r| == |own|
    ensures forall p :: 0 <= p < |own| ==> r[p] == if b <= p < b + Pow2(k) then o else own[p]
  {
    seq(|own|, p requires 0 <= p < |own| => if b <= p < b + Pow2(k) then o else own[p])
  }

  /** Two different blocks have disjoint page intervals. */
  lemma BlockApart(maxOrd: nat, own: seq<Own>, p: nat, a: nat, k: nat)
    requires Tiled(maxOrd, own) && p < |own| && a < |own| && own[a].base == a && own[a].ord == k
    requires !(a <= p < a + Pow2(k))
    ensures own[p].base + Pow2(own[p].ord) <= a || a + Pow2(k) <= own[p].base
  {
    assert BlockAround(maxOrd, own, p) && BlockAround(maxOrd, own, a);
    var q := if own[p].base < a then a else own[p].base;
    assert own[p].base <= q < own[p].base + Pow2(own[p].ord) ==> own[q] == own[p];
    assert a <= q < a + Pow2(k) ==> own[q] == own[a];
  }

  /** Handing a block over as a whole keeps the tiling. */
  lemma PaintWhole(maxOrd: nat, own: seq<Own>, a: nat, k: nat, o: Own)
    requires Tiled(maxOrd, own) && a < |own| && own[a].base == a && own[a].ord == k
    requires o.base == a && o.ord == k
    ensures Tiled(maxOrd, Paint(own, a, k, o))
  {
    var own' := Paint(own, a, k, o);
    assert BlockAround(maxOrd, own, a);
    forall p | 0 <= p < |own|
      ensures BlockAround(maxOrd, own', p)
    {
      assert BlockAround(maxOrd, own, p);
      if !(a <= p < a + Pow2(k)) { BlockApart(maxOrd, own, p, a, k); }
    }
  }

  ghost function SplitHeld(own: seq<Own>, a: nat, k: nat): seq<Own>
    requires k > 0
  {
    Paint(Paint(own, a, k - 1, Held(a, k - 1)), a + Pow2(k - 1), k - 1, Free(a + Pow2(k - 1), k - 1))
  }

  lemma SplitTiled(maxOrd: nat, own: seq<Own>, a: nat, k: nat)
    requires Tiled(maxOrd, own) && 0 < k && a < |own| && own[a] == Held(a, k)
    ensures Tiled(maxOrd, SplitHeld(own, a, k)) && SplitHeld(own, a, k)[a] == Held(a, k - 1)
  {
    var own' := SplitHeld(own, a, k);
    assert BlockAround(maxOrd, own, a);
    AlignedHalves(a, k);
    forall p | 0 <= p < |own|
      ensures BlockAround(maxOrd, own', p)
    {
      assert BlockAround(maxOrd, own, p);
      if !(a <= p < a + Pow2(k)) { BlockApart(maxOrd, own, p, a, k); }
    }
  }

  lemma SplitCoalesced(maxOrd: nat, own: seq<Own>, a: nat, k: nat)
    requires Tiled(maxOrd, own) && Coalesced(maxOrd, own)
    requires 0 < k && a < |own| && own[a] == Held(a, k)
    ensures Coalesced(maxOrd, SplitHeld(own, a, k))
  {
    var own' := SplitHeld(own, a, k);
    var h := a + Pow2(k - 1);
    assert BlockAround(maxOrd, own, a);
    if Aligned(h, k) { Laminar(h, k, a, k); }
    forall m: nat, j: nat | j < maxOrd && Aligned(m, j + 1)
      ensures !HalvesFree(own', m, j)
    {
      assert !HalvesFree(own, m, j);
    }
  }

  /** One split: the lower half stays in transit, the upper half becomes free. */
  lemma SplitKeeps(maxOrd: nat, own: seq<Own>, a: nat, k: nat)
    requires Tiled(maxOrd, own) && Coalesced(maxOrd, own) && OnlyHeld(own, a, k)
    requires 0 < k && a < |own| && own[a] == Held(a, k)
    ensures var own' := SplitHeld(own, a, k);
            && Tiled(maxOrd, own') && Coalesced(maxOrd, own') && OnlyHeld(own', a, k - 1)
            && own'[a] == Held(a, k - 1)
  {
    var own' := SplitHeld(own, a, k);
    SplitTiled(maxOrd, own, a, k);
    forall p | 0 <= p < |own|
      ensures own'[p].Held? ==> own'[p] == Held(a, k - 1)
    {
      assert BlockAround(maxOrd, own, p);
    }
    SplitCoalesced(maxOrd, own, a, k);
  }

  /** Repeated splitting of the block in transit, from order k down to order j. */
  ghost function SplitTo(own: seq<Own>, a: nat, k: nat, j: nat): seq<Own>
    requires j <= k
    decreases k
  {
    if j == k then own else SplitTo(SplitHeld(own, a, k), a, k - 1, j)
  }

  lemma {:induction false} SplitToEffect(own: seq<Own>, a: nat, k: nat, j: nat)
    requires j <= k && a + Pow2(k) <= |own|
    requires forall p :: a <= p < a + Pow2(k) ==> own[p] == Held(a, k)
    ensures var r := SplitTo(own, a, k, j);
            |r| == |own| &&
            forall p :: 0 <= p < |own| ==>
              if a <= p < a + Pow2(j) then r[p] == Held(a, j)
              else if a <= p < a + Pow2(k) then r[p].Free?
              else r[p] == own[p]
    decreases k
  {
    if j < k {
      SplitToEffect(SplitHeld(own, a, k), a, k - 1, j);
      Pow2Monotone(j, k - 1);
    }
  }

  /** From `own` to `own'` the block in transit grew from (a, k) to (b, j) by absorbing
      only free pages, and nothing else changed. */
  ghost predicate Absorbed(own: seq<Own>, own': seq<Own>, a: nat, k: nat, b: nat, j: nat) {
    && |own'| == |own| && b <= a && a + Pow2(k) <= b + Pow2(j) <= |own|
    && forall p :: 0 <= p < |own| ==>
         if b <= p < b + Pow2(j) then own'[p] == Held(b, j) && (a <= p < a + Pow2(k) || own[p].Free?)
         else own'[p] == own[p]
  }

  lemma AbsorbedTrans(own: seq<Own>, own1: seq<Own>, own2: seq<Own>, a: nat, k: nat, b: nat, j: nat, c: nat)
    requires Absorbed(own, own1, a, k, b, j) && Absorbed(own1, own2, b, j, c, j + 1)
    ensures Absorbed(own, own2, a, k, c, j + 1)
  {
    forall p | 0 <= p < |own|
      ensures if c <= p < c + Pow2(j + 1) then own2[p] == Held(c, j + 1) && (a <= p < a + Pow2(k) || own[p].Free?)
              else own2[p] == own[p]
    {
      assert own1[p] == own1[p];
    }
  }

  ghost function MergeHeld(own: seq<Own>, a: nat, b: nat, k: nat): seq<Own> {
    var m := if b < a then b else a;
    Paint(own, m, k + 1, Held(m, k + 1))
  }

  lemma MergeTiled(maxOrd: nat, own: seq<Own>, a: nat, b: nat, k: nat)
    requires Tiled(maxOrd, own) && k < maxOrd && a < |own| && b < |own|
    requires own[a] == Held(a, k) && own[b] == Free(b, k) && Buddies(a, b, k)
    ensures Tiled(maxOrd, MergeHeld(own, a, b, k))
  {
    var own', m := MergeHeld(own, a, b, k), if b < a then b else a;
    assert BlockAround(maxOrd, own, a) && BlockAround(maxOrd, own, b);
    forall p | 0 <= p < |own|
      ensures BlockAround(maxOrd, own', p)
    {
      assert BlockAround(maxOrd, own, p);
      if !(m <= p < m + Pow2(k + 1)) {
        BlockApart(maxOrd, own, p, a, k);
        BlockApart(maxOrd, own, p, b, k);
      }
    }
  }

  /** One coalescing step: the block in transit absorbs its free buddy. */
  lemma MergeKeeps(maxOrd: nat, own: seq<Own>, a: nat, b: nat, k: nat)
    requires Tiled(maxOrd, own) && Coalesced(maxOrd, own) && OnlyHeld(own, a, k)
    requires k < maxOrd && a < |own| && own[a] == Held(a, k)
    requires b < |own| && own[b] == Free(b, k) && Buddies(a, b, k)
    ensures var own', m := MergeHeld(own, a, b, k), if b < a then b else a;
            && Tiled(maxOrd, own') && Coalesced(maxOrd, own') && OnlyHeld(own', m, k + 1)
            && own'[m] == Held(m, k + 1)
  {
    var own', m := MergeHeld(own, a, b, k), if b < a then b else a;
    MergeTiled(maxOrd, own, a, b, k);
    forall p | 0 <= p < |own|
      ensures own'[p].Held? ==> own'[p] == Held(m, k + 1)
    {
      assert BlockAround(maxOrd, own, p);
    }
    assert forall x: nat, j: nat :: HalvesFree(own', x, j) ==> HalvesFree(own, x, j);
  }

  /** Taking a free block in transit keeps lists coalesced. */
  lemma TakeKeeps(maxOrd: nat, own: seq<Own>, a: nat, k: nat)
    requires Tiled(maxOrd, own) && Coalesced(maxOrd, own) && NoneHeld(own)
    requires a < |own| && own[a].base == a && own[a].ord == k
    ensures var own' := Paint(own, a, k, Held(a, k));
            Tiled(maxOrd, own') && Coalesced(maxOrd, own') && OnlyHeld(own', a, k)
  {
    PaintWhole(maxOrd, own, a, k, Held(a, k));
    var own' := Paint(own, a, k, Held(a, k));
    assert forall m: nat, j: nat :: HalvesFree(own', m, j) ==> HalvesFree(own, m, j);
  }

  /** Handing the block in transit to a caller, or listing it when its buddy is not free. */
  lemma SettleKeeps(maxOrd: nat, own: seq<Own>, a: nat, k: nat, o: Own)
    requires Tiled(maxOrd, own) && Coalesced(maxOrd, own) && OnlyHeld(own, a, k)
    requires a < |own| && own[a] == Held(a, k) && o.base == a && o.ord == k
    requires o.Live? || (o.Free? && (k < maxOrd ==> forall b :: 0 <= b < |own| && Buddies(a, b, k) ==> own[b] != Free(b, k)))
    ensures var own' := Paint(own, a, k, o);
            Tiled(maxOrd, own') && Coalesced(maxOrd, own') && NoneHeld(own')
  {
    var own' := Paint(own, a, k, o);
    PaintWhole(maxOrd, own, a, k, o);
    forall p | 0 <= p < |own|
      ensures !own'[p].Held?
    {
      assert BlockAround(maxOrd, own, p);
    }
    forall m: nat, j: nat | j < maxOrd && Aligned(m, j + 1)
      ensures !HalvesFree(own', m, j)
    {
      var y := m + Pow2(j);
      assert !HalvesFree(own, m, j);
      assert Buddies(m, y, j) && Buddies(y, m, j);
    }
  }

  /** The bits of a block in transit are clear. */
  ghost predicate ClearRun(bits: seq<bool>, a: nat, n: nat) {
    forall p :: a <= p < a + n && p < |bits| ==> !bits[p]
  }

  /** Splitting a block in transit makes its upper half the one new free block. */
  lemma SplitFrees(maxOrd: nat, own: seq<Own>, a: nat, k: nat)
    requires Tiled(maxOrd, own) && a < |own| && own[a] == Held(a, k + 1)
    ensures a + Pow2(k) < |own| && !IsFreeBlock(own, a + Pow2(k), k)
    ensures forall b: nat, j: nat ::
              IsFreeBlock(SplitHeld(own, a, k + 1), b, j) <==> IsFreeBlock(own, b, j) || (b == a + Pow2(k) && j == k)
  {
    assert BlockAround(maxOrd, own, a);
  }

  /** The bits after the upper half of a block in transit was marked. */
  lemma SplitMapped(maxOrd: nat, own: seq<Own>, bits: seq<bool>, bits': seq<bool>, a: nat, k: nat)
    requires Mapped(maxOrd, own, bits) && |bits'| == |bits| && a + Pow2(k + 1) <= |own|
    requires ClearRun(bits, a, Pow2(k + 1))
    requires forall p :: 0 <= p < |bits| ==> bits'[p] == if a + Pow2(k) <= p < a + Pow2(k) + Pow2(k) then true else bits[p]
    requires TopMarked(maxOrd, own, bits)
    ensures Mapped(maxOrd, SplitHeld(own, a, k + 1), bits') && ClearRun(bits', a, Pow2(k))
    ensures TopMarked(maxOrd, SplitHeld(own, a, k + 1), bits')
  {
  }

  /** One split: the partition, the absence of free buddies and the lists. */
  lemma SplitListed(maxOrd: nat, own: seq<Own>, avail: seq<seq<nat>>, a: nat, k: nat)
    requires Tiled(maxOrd, own) && Coalesced(maxOrd, own) && Listed(maxOrd, own, avail) && OnlyHeld(own, a, k + 1)
    requires a < |own| && own[a] == Held(a, k + 1) && k + 1 <= maxOrd
    ensures var own', avail' := SplitHeld(own, a, k + 1), avail[k := [a + Pow2(k)] + avail[k]];
            && Tiled(maxOrd, own') && Coalesced(maxOrd, own') && Listed(maxOrd, own', avail')
            && OnlyHeld(own', a, k) && own'[a] == Held(a, k)
  {
    SplitKeeps(maxOrd, own, a, k + 1);
    SplitFrees(maxOrd, own, a, k);
    LinkListed(maxOrd, own, SplitHeld(own, a, k + 1), avail, a + Pow2(k), k);
  }

  /** `list_del` takes a node off whatever list it is on. */
  function Unlink(avail: seq<seq<nat>>, b: nat): (r: seq<seq<nat>>)
    ensures |r| == |avail| && forall k :: 0 <= k < |avail| ==> r[k] == Without(avail[k], b)
  {
    seq(|avail|, k requires 0 <= k < |avail| => Without(avail[k], b))
  }

  /** Unlinking a listed block when it goes into transit. */
  lemma UnlinkListed(maxOrd: nat, own: seq<Own>, own': seq<Own>, avail: seq<seq<nat>>, b: nat)
    requires Listed(maxOrd, own, avail)
    requires forall a: nat, k: nat :: IsFreeBlock(own', a, k) <==> IsFreeBlock(own, a, k) && a != b
    ensures Listed(maxOrd, own', Unlink(avail, b))
  {
    forall k | 0 <= k < |avail|
      ensures NoDup(Unlink(avail, b)[k])
    {
      WithoutNoDup(avail[k], b);
    }
  }

  /** Listing a block that has just become free. */
  lemma LinkListed(maxOrd: nat, own: seq<Own>, own': seq<Own>, avail: seq<seq<nat>>, b: nat, k: nat)
    requires Listed(maxOrd, own, avail) && k <= maxOrd && !IsFreeBlock(own, b, k)
    requires forall a: nat, j: nat :: IsFreeBlock(own', a, j) <==> IsFreeBlock(own, a, j) || (a == b && j == k)
    ensures Listed(maxOrd, own', avail[k := [b] + avail[k]])
  {
  }

  ghost function FreePages(own: seq<Own>): set<nat> {
    set p | 0 <= p < |own| && own[p].Free?
  }

  ghost function LivePages(own: seq<Own>): set<nat> {
    set p | 0 <= p < |own| && own[p].Live?
  }

  ghost function FreePagesBelow(own: seq<Own>, k: nat): set<nat> {
    set p | 0 <= p < |own| && own[p].Free? && own[p].ord < k
  }

  ghost function Interval(lo: nat, n: nat): (r: set<nat>)
    ensures |r| == n && forall p :: p in r <==> lo <= p < lo + n
  {
    if n == 0 then {} else Interval(lo, n - 1) + {lo + n - 1}
  }

  /** The pages of the order-k free blocks whose heads are in s. */
  ghost function ListPages(own: seq<Own>, s: seq<nat>, k: nat): set<nat> {
    set p | 0 <= p < |own| && own[p].Free? && own[p].ord == k && own[p].base in s
  }

  /** The pages of a free block are those that name its head. */
  lemma BlockPages(maxOrd: nat, own: seq<Own>, x: nat, k: nat, p: nat)
    requires Tiled(maxOrd, own) && IsFreeBlock(own, x, k)
    ensures x <= p < x + Pow2(k) <==> p < |own| && own[p].Free? && own[p].ord == k && own[p].base == x
  {
    assert BlockAround(maxOrd, own, x);
    if p < |own| { assert BlockAround(maxOrd, own, p); }
  }

  lemma ListPagesStep(maxOrd: nat, own: seq<Own>, s: seq<nat>, k: nat)
    requires Tiled(maxOrd, own) && NoDup(s) && s != [] && IsFreeBlock(own, s[0], k)
    ensures ListPages(own, s, k) == Interval(s[0], Pow2(k)) + ListPages(own, s[1..], k)
    ensures Interval(s[0], Pow2(k)) !! ListPages(own, s[1..], k)
  {
    var x, rest := s[0], s[1..];
    assert x !in rest;
    forall p: nat
      ensures p in Interval(x, Pow2(k)) <==> p < |own| && own[p].Free? && own[p].ord == k && own[p].base == x
    {
      BlockPages(maxOrd, own, x, k, p);
    }
    assert forall y :: y in s <==> y == x || y in rest;
  }

  lemma {:induction false} ListPagesSize(maxOrd: nat, own: seq<Own>, s: seq<nat>, k: nat)
    requires Tiled(maxOrd, own) && NoDup(s) && forall x :: x in s ==> IsFreeBlock(own, x, k)
    ensures |ListPages(own, s, k)| == |s| * Pow2(k)
  {
    if s == [] {
      assert ListPages(own, s, k) == {};
    } else {
      var rest := s[1..];
      assert s[0] in s && forall x :: x in rest ==> x in s;
      ListPagesSize(maxOrd, own, rest, k);
      ListPagesStep(maxOrd, own, s, k);
      UnionSize(Interval(s[0], Pow2(k)), ListPages(own, rest, k), |rest|, Pow2(k));
    }
  }

  lemma UnionSize(a: set<nat>, b: set<nat>, n: nat, m: nat)
    requires a !! b && |a| == m && |b| == n * m
    ensures |a + b| == (n + 1) * m
  {
  }

  lemma LevelPages(maxOrd: nat, own: seq<Own>, avail: seq<seq<nat>>, k: nat)
    requires Tiled(maxOrd, own) && Listed(maxOrd, own, avail) && k <= maxOrd
    ensures |FreePagesBelow(own, k + 1)| == |FreePagesBelow(own, k)| + |avail[k]| * Pow2(k)
  {
    ListPagesSize(maxOrd, own, avail[k], k);
    var level := ListPages(own, avail[k], k);
    forall p | p in FreePagesBelow(own, k + 1) && p !in FreePagesBelow(own, k)
      ensures p in level
    {
      assert BlockAround(maxOrd, own, p);
      assert IsFreeBlock(own, own[p].base, k);
    }
    assert FreePagesBelow(own, k + 1) == FreePagesBelow(own, k) + level;
  }

  lemma PagesSplit(maxOrd: nat, own: seq<Own>)
    requires Tiled(maxOrd, own) && NoneHeld(own)
    ensures FreePagesBelow(own, maxOrd + 1) == FreePages(own)
    ensures |FreePages(own)| + |LivePages(own)| == |own|
  {
    forall p | p in FreePages(own)
      ensures p in FreePagesBelow(own, maxOrd + 1)
    {
      assert BlockAround(maxOrd, own, p);
    }
    assert FreePages(own) + LivePages(own) == Interval(0, |own|);
  }
}

module BuddyAllocator {
  import opened Options
  import opened Unfolding
  import opened Powers
  import opened ByteBits
  import opened BuddySpec

  datatype FreeResult = Freed | Ignored | DoubleFree

  datatype Stats = Stats(totalPages: nat, freePages: nat)

  class Buddy {
    const maxOrd: nat
    var avail: seq<seq<nat>>
    const bitmap: array<bv8>
    ghost var own: seq<Own>
    /** An allocation has succeeded. */
    ghost var used: bool

    ghost function Bits(): (r: seq<bool>)
      reads bitmap
    {
      BitsOf(bitmap[..])
    }

    /** What holds at every lock-protected point, including inside alloc and free. */
    ghost predicate Consistent()
      reads this, bitmap
    {
      && Tiled(maxOrd, own)
      && Coalesced(maxOrd, own)
      && Listed(maxOrd, own, avail)
      && Mapped(maxOrd, own, Bits())
      && (used ==> TopMarked(maxOrd, own, Bits()))
    }

    ghost predicate Valid()
      reads this, bitmap
    {
      Consistent() && NoneHeld(own) && (!used ==> Untouched(maxOrd, own, Bits()))
    }

    /** The block (a, k) is the only one in transit. */
    ghost predicate Carrying(a: nat, k: nat)
      reads this, bitmap
    {
      Consistent() && used && OnlyHeld(own, a, k) && a < |own| && own[a] == Held(a, k) && k <= maxOrd
    }

    /** The block (a, k) lies in a region nothing was ever allocated from. */
    ghost predicate Blank(a: nat, k: nat)
      reads this, bitmap
    {
      && !used && Untouched(maxOrd, own, Bits()) && |own| == Pow2(maxOrd) <= 8 * bitmap.Length
      && Aligned(a, k) && a + Pow2(k) <= |own| && k <= maxOrd < |avail|
    }

    /** The block in transit has its bits clear. Only a mention of `Opened` unfolds this, so
        the splitting loop carries it along without looking inside. */
    ghost predicate Splitting(a: nat, k: nat)
      reads this, bitmap
    {
      forall u {:trigger Opened(u)} :: Opened(u) ==> Carrying(a, k) && ClearRun(Bits(), a, Pow2(k))
    }

    ghost predicate IsLive(a: nat, k: nat)
      reads this
    {
      a < |own| && own[a] == Live(a, k)
    }

    /** `buddy_init` on a region of 2^maxOrd pages: one listed block, no bit set. */
    constructor (maxOrd: nat)
      requires maxOrd < N_FREE_LISTS
      ensures Valid() && this.maxOrd == maxOrd && fresh(bitmap)
      ensures own == seq(Pow2(maxOrd), _ => Free(0, maxOrd)) && !used
    {
      this.maxOrd := maxOrd;
      bitmap := new bv8[(Pow2(maxOrd) + 7) / 8](_ => 0);
      avail := seq(N_FREE_LISTS, k => if k == maxOrd then [0] else []);
      own := seq(Pow2(maxOrd), _ => Free(0, maxOrd));
      used := false;
      new;
      AlignedZero(maxOrd);
      assert forall p :: 0 <= p < |own| ==> BlockAround(maxOrd, own, p);
    }

    method PutBitAt(i: nat, value: bool)
      requires i < 8 * bitmap.Length
      modifies bitmap
      ensures forall j :: 0 <= j < 8 * bitmap.Length ==> Bits()[j] == if j == i then value else old(Bits())[j]
    {
      bitmap[i / 8] := PutBit(bitmap[i / 8], i % 8, value);
      assert bitmap[..] == WithBit(old(bitmap[..]), i, value);
      forall j | 0 <= j < 8 * bitmap.Length
        ensures Bits()[j] == if j == i then value else old(Bits())[j]
      {
        BitAtWithBit(old(bitmap[..]), i, value, j);
      }
    }

    method SetBitmap(a: nat, k: nat, value: bool)
      requires a + Pow2(k) <= 8 * bitmap.Length
      modifies bitmap
      ensures forall i :: 0 <= i < 8 * bitmap.Length ==>
                Bits()[i] == if a <= i < a + Pow2(k) then value else old(Bits())[i]
    {
      var i := a;
      while i < a + Pow2(k)
        invariant a <= i <= a + Pow2(k)
        invariant forall j :: 0 <= j < 8 * bitmap.Length ==>
                    Bits()[j] == if a <= j < i then value else old(Bits())[j]
      {
        PutBitAt(i, value);
        i := i + 1;
      }
    }

    method IsAvail(a: nat, k: nat) returns (r: bool)
      requires a + Pow2(k) <= 8 * bitmap.Length
      ensures r <==> forall i :: a <= i < a + Pow2(k) ==> Bits()[i]
    {
      var i := a;
      while i < a + Pow2(k)
        invariant a <= i <= a + Pow2(k)
        invariant forall j :: a <= j < i ==> Bits()[j]
      {
        assert Bits()[i] == Bit(bitmap[i / 8], i % 8);
        if !Bit(bitmap[i / 8], i % 8) {
          return false;
        }
        i := i + 1;
      }
      return true;
    }

    /** `buddy_alloc_raw`: fails exactly when no naturally aligned run of 2^req free
        pages exists; otherwise a wholly free aligned block becomes live and no
        other page changes hands. */
    method AllocRaw(req: int) returns (r: Option<nat>)
      requires Valid()
      modifies this, bitmap
      ensures Valid()
      ensures r.None? <==> !(0 <= req <= maxOrd && exists a :: FreeRun(old(own), a, req))
      ensures r.None? ==> own == old(own) && avail == old(avail) && Bits() == old(Bits())
      ensures r.Some? ==> FreeRun(old(own), r.value, req) && IsLive(r.value, req)
      ensures used == (old(used) || r.Some?)
      ensures r.Some? ==> SmallestFit(old(own), r.value, req)
      ensures r.Some? ==> forall p :: 0 <= p < |own| && !(r.value <= p < r.value + Pow2(req)) ==>
                            own[p].Free? == old(own)[p].Free? && (own[p].Live? || old(own)[p].Live? ==> own[p] == old(own)[p])
    {
      if req < 0 || req > maxOrd {
        return None;
      }
      var ord := req;
      while ord <= maxOrd && avail[ord] == []
        invariant req <= ord <= maxOrd + 1
        invariant forall k :: req <= k < ord ==> avail[k] == []
      {
        ord := ord + 1;
      }
      if ord > maxOrd {
        NoBlockNoRun(maxOrd, own, avail, req);
        return None;
      }

      var ret := Carve(ord, req);
      FirstListFits(maxOrd, old(own), old(avail), req, ord, ret);
      return Some(ret);
    }

    /** The first block of order `ord`, split down to order `req` and handed out. */
    method Carve(ord: nat, req: nat) returns (ret: nat)
      requires Valid() && req <= ord <= maxOrd && avail[ord] != []
      modifies this, bitmap
      ensures Valid() && used && FreeRun(old(own), ret, req) && IsLive(ret, req) && IsFreeBlock(old(own), ret, ord)
      ensures forall p :: 0 <= p < |own| && !(ret <= p < ret + Pow2(req)) ==>
                own[p].Free? == old(own)[p].Free? && (own[p].Live? || old(own)[p].Live? ==> own[p] == old(own)[p])
    {
      ret := TakeFirst(ord);
      FreeBlockHasRun(maxOrd, old(own), ret, ord, req);
      SplitToEffect(own, ret, ord, req);
      SplitDown(ret, ord, req);
      assert Opened(0);
      ghost var own1 := own;
      assert BlockAround(maxOrd, own, ret);
      own := Paint(own, ret, req, Live(ret, req));
      SettleKeeps(maxOrd, own1, ret, req, Live(ret, req));
    }

    /** The first block of a non-empty list leaves the list, its bits cleared. */
    method TakeFirst(ord: nat) returns (ret: nat)
      requires Valid() && ord <= maxOrd && avail[ord] != []
      modifies this, bitmap
      ensures ret == old(avail)[ord][0] && IsFreeBlock(old(own), ret, ord)
      ensures Carrying(ret, ord) && own == Paint(old(own), ret, ord, Held(ret, ord))
      ensures ret + Pow2(ord) <= |own|
      ensures ClearRun(Bits(), ret, Pow2(ord))
      ensures forall p :: ret <= p < ret + Pow2(ord) ==> old(own)[p].Free?
    {
      ret := avail[ord][0];
      assert ret in avail[ord];
      assert IsFreeBlock(own, ret, ord);
      assert BlockAround(maxOrd, own, ret);
      SetBitmap(ret, ord, false);
      avail := Unlink(avail, ret);
      own := Paint(own, ret, ord, Held(ret, ord));
      used := true;
      TakeKeeps(maxOrd, old(own), ret, ord);
      UnlinkListed(maxOrd, old(own), own, old(avail), ret);
    }

    /** One turn of the splitting loop, from order `ord + 1` to `ord`. */
    method SplitOnce(ret: nat, ord: nat)
      requires Splitting(ret, ord + 1)
      modifies this, bitmap
      ensures Splitting(ret, ord) && own == SplitHeld(old(own), ret, ord + 1)
    {
      assert Opened(0);
      var rem := ret + Pow2(ord);
      assert BlockAround(maxOrd, own, ret);
      SetBitmap(rem, ord, true);
      SplitMapped(maxOrd, own, old(Bits()), Bits(), ret, ord);
      SplitListed(maxOrd, own, avail, ret, ord);
      avail := avail[ord := [rem] + avail[ord]];
      own := SplitHeld(own, ret, ord + 1);
    }

    /** The splitting loop: the upper halves go back on the lists, the block in
        transit shrinks to the requested order at the same address. */
    method SplitDown(ret: nat, from: nat, req: nat)
      requires req <= from && Splitting(ret, from)
      modifies this, bitmap
      ensures Splitting(ret, req) && own == SplitTo(old(own), ret, from, req)
    {
      var ord := from;
      while ord > req
        invariant req <= ord <= from
        invariant Splitting(ret, ord)
        invariant SplitTo(own, ret, ord, req) == SplitTo(old(own), ret, from, req)
      {
        ghost var before := own;
        ord := ord - 1;
        SplitOnce(ret, ord);
        assert SplitTo(before, ret, ord + 1, req) == SplitTo(own, ret, ord, req);
      }
    }

    /** `buddy_free_raw` on a block the caller owns gives its pages back and coalesces. On a
        block that is already free it reports a double free and changes nothing, unless
        nothing was ever allocated: then the free goes unnoticed and a block inside the top
        block is listed beside it. */
    method FreeRaw(a: nat, k: int) returns (r: FreeResult)
      requires Valid()
      requires 0 <= k <= maxOrd ==> IsLive(a, k) || FreeRun(own, a, k)
      modifies this, bitmap
      ensures r.Ignored? <==> !(0 <= k <= maxOrd)
      ensures r.DoubleFree? <==> 0 <= k <= maxOrd && !old(IsLive(a, k)) && (old(own)[a].ord < maxOrd || old(used))
      ensures !r.Freed? ==> own == old(own) && avail == old(avail) && Bits() == old(Bits())
      ensures !r.Freed? || old(IsLive(a, k)) ==> Valid() && used == old(used)
      ensures r.Freed? && old(IsLive(a, k)) ==> forall p :: 0 <= p < |own| ==>
                if a <= p < a + Pow2(k) then own[p].Free?
                else own[p].Free? == old(own)[p].Free? && (old(own)[p].Live? ==> own[p] == old(own)[p])
      ensures r.Freed? && !old(IsLive(a, k)) ==> own == old(own) && avail == old(avail)[k := [a] + old(avail)[k]]
    {
      if k < 0 || k > maxOrd {
        return Ignored;
      }
      assert BlockAround(maxOrd, own, a);
      if !IsLive(a, k) && (own[a].ord < maxOrd || used) {
        FreeRunBitsSet(maxOrd, own, Bits(), a, k);
      }
      var already := IsAvail(a, k);
      if already {
        assert Bits()[a];
        return DoubleFree;
      }
      if used {
        Withdraw(a, k);
      }
      var block, ord := Coalesce(a, k);
      Finish(block, ord);
      return Freed;
    }

    /** A live block goes into transit. */
    ghost method Withdraw(a: nat, k: nat)
      requires Valid() && used && k <= maxOrd && IsLive(a, k)
      modifies this`own
      ensures Carrying(a, k) && own == Paint(old(own), a, k, Held(a, k))
    {
      assert BlockAround(maxOrd, own, a);
      TakeKeeps(maxOrd, own, a, k);
      own := Paint(own, a, k, Held(a, k));
      assert forall b: nat, j: nat :: IsFreeBlock(own, b, j) <==> IsFreeBlock(old(own), b, j);
    }

    /** The coalesced block goes on the list of its order with its bits set. */
    method Finish(block: nat, ord: nat)
      requires Carrying(block, ord) || Blank(block, ord)
      requires used && ord < maxOrd ==> forall b: nat :: b < |own| && Buddies(block, b, ord) ==> own[b] != Free(b, ord)
      modifies this, bitmap
      ensures avail == old(avail)[ord := [block] + old(avail)[ord]] && used == old(used)
      ensures used ==> Valid() && own == Paint(old(own), block, ord, Free(block, ord))
      ensures !used ==> own == old(own)
    {
      if used { assert BlockAround(maxOrd, own, block); }
      SetBitmap(block, ord, true);
      avail := avail[ord := [block] + avail[ord]];
      if used {
        own := Paint(own, block, ord, Free(block, ord));
        SettleKeeps(maxOrd, old(own), block, ord, Free(block, ord));
        LinkListed(maxOrd, old(own), own, old(avail), block, ord);
      }
    }

    /** The coalescing loop. It stops at the top order or at a buddy that is not free. */
    method Coalesce(a: nat, k: nat) returns (block: nat, ord: nat)
      requires Carrying(a, k) || Blank(a, k)
      modifies this
      ensures used == old(used)
      ensures used ==> k <= ord && Carrying(block, ord) && Absorbed(old(own), own, a, k, block, ord)
      ensures used && ord < maxOrd ==> forall b: nat :: b < |own| && Buddies(block, b, ord) ==> own[b] != Free(b, ord)
      ensures !used ==> block == a && ord == k && own == old(own) && avail == old(avail)
    {
      block, ord := a, k;
      if used { assert BlockAround(maxOrd, own, block); }
      while ord < maxOrd
        invariant used == old(used)
        invariant used ==> k <= ord && Carrying(block, ord) && Absorbed(old(own), own, a, k, block, ord)
        invariant !used ==> block == a && ord == k && own == old(own) && avail == old(avail)
      {
        ghost var own1, block1 := own, block;
        var merged;
        merged, block := CoalesceOnce(block, ord);
        if !merged {
          return;
        }
        AbsorbedTrans(old(own), own1, own, a, k, block1, ord, block);
        ord := ord + 1;
      }
    }

    /** One turn: if the buddy's bits are all set, unlink it and absorb it. What is
        unlinked is on the list of the current order, although its order is not read. */
    method CoalesceOnce(block: nat, ord: nat) returns (merged: bool, next: nat)
      requires (Carrying(block, ord) || Blank(block, ord)) && ord < maxOrd
      modifies this
      ensures used == old(used) && (merged ==> used)
      ensures merged ==> Carrying(next, ord + 1) && Absorbed(old(own), own, block, ord, next, ord + 1)
      ensures !merged ==> next == block && own == old(own) && avail == old(avail)
      ensures used && !merged ==> forall b: nat :: b < |own| && Buddies(block, b, ord) ==> own[b] != Free(b, ord)
    {
      if used { assert BlockAround(maxOrd, own, block); }
      BuddyOfAligned(block, ord);
      var buddyBlock: nat := GetBuddy(block, ord).value;
      BuddyInRange(maxOrd, block, buddyBlock, ord);
      var free := IsAvail(buddyBlock, ord);
      if !free {
        BuddyUnique(block, buddyBlock, ord);
        if used { ClearBitNotFree(maxOrd, own, Bits(), buddyBlock, ord); }
        return false, block;
      }
      assert Bits()[buddyBlock];
      AvailableBuddyIsWholeBlock(maxOrd, own, Bits(), block, ord, buddyBlock);
      assert IsFreeBlock(own, buddyBlock, ord) && buddyBlock in avail[ord];
      next := Merge(block, buddyBlock, ord);
      return true, next;
    }

    method Merge(block: nat, buddyBlock: nat, ord: nat) returns (merged: nat)
      requires Carrying(block, ord) && ord < maxOrd
      requires buddyBlock < |own| && own[buddyBlock] == Free(buddyBlock, ord) && Buddies(block, buddyBlock, ord)
      modifies this
      ensures merged == if buddyBlock < block then buddyBlock else block
      ensures Carrying(merged, ord + 1) && own == MergeHeld(old(own), block, buddyBlock, ord)
      ensures Absorbed(old(own), own, block, ord, merged, ord + 1)
    {
      assert BlockAround(maxOrd, own, block) && BlockAround(maxOrd, own, buddyBlock);
      avail := Unlink(avail, buddyBlock);
      own := MergeHeld(own, block, buddyBlock, ord);
      MergeKeeps(maxOrd, old(own), block, buddyBlock, ord);
      UnlinkListed(maxOrd, old(own), own, old(avail), buddyBlock);
      merged := if buddyBlock < block then buddyBlock else block;
    }

    /** `buddy_stats_get`: the lists account for exactly the free pages, so free and
        live pages add up to the total. */
    method StatsGet() returns (s: Stats)
      requires Valid()
      ensures s.totalPages == |own|
      ensures s.freePages == |FreePages(own)| && s.freePages + |LivePages(own)| == s.totalPages
    {
      var free, k := 0, 0;
      assert FreePagesBelow(own, 0) == {};
      while k <= maxOrd
        invariant 0 <= k <= maxOrd + 1
        invariant free == |FreePagesBelow(own, k)|
      {
        var i := 0;
        while i < |avail[k]|
          invariant 0 <= i <= |avail[k]|
          invariant free == |FreePagesBelow(own, k)| + i * Pow2(k)
        {
          free := free + Pow2(k);
          i := i + 1;
        }
        LevelPages(maxOrd, own, avail, k);
        k := k + 1;
      }
      PagesSplit(maxOrd, own);
      s := Stats(Pow2(maxOrd), free);
    }
  }
}

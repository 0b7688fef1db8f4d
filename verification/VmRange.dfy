/** Mapping ranges of 4 KB pages: the translations, and what they cost in tables. */
module VmRange {
  import opened Wrappers
  import opened Sets
  import opened PmmSpec
  import opened Paging
  import opened PageTree
  import opened VmSpec
  import opened VmProofs

  const PAGE_COUNT: nat := 0x10_0000_0000   // pages of the 48-bit address space
  const SPACE: nat := 0x1_0000_0000_0000    // its bytes

  // How many pages w lies after v, around the address space.
  function PagesAfter(v: nat, w: nat): (k: nat)
    ensures k < PAGE_COUNT
  {
    (w / 0x1000 - v / 0x1000) % PAGE_COUNT
  }

  // w lies in one of the pages a map_range of size bytes from v visits.
  predicate InRange(v: nat, size: nat, w: nat) {
    4096 * PagesAfter(v, w) < size
  }

  lemma {:induction false} PageAfter(v: nat, k: nat, w: nat)
    requires k < PAGE_COUNT
    ensures SamePage(v + 4096 * k, w) <==> PagesAfter(v, w) == k
  {
    var a, b := v / 0x1000, w / 0x1000;
    assert (v + 4096 * k) / 0x1000 == a + k;
    assert (b - a) % PAGE_COUNT == k <==> (a + k) % PAGE_COUNT == b % PAGE_COUNT;
  }

  // The places of the tables for the pages from offset on.
  function RangePlaces(v: nat, size: nat, offset: nat): set<Pos>
    decreases size - offset
  {
    if offset >= size then {}
    else PathPlaces(v + offset, 0, 3) + RangePlaces(v, size, offset + FRAME_SIZE)
  }

  // From a to b the pages k, k + 1, .. of the range were mapped, and nothing else.
  ghost predicate RangeMapped(a: Vm, b: Vm, v: nat, phys: nat, size: nat, flags: Flags, k: nat) {
    forall w :: Walk(b.mem, b.root, w) ==
      if InRange(v, size, w) && k <= PagesAfter(v, w)
      then PageTranslation(phys + 4096 * PagesAfter(v, w), flags)
      else Walk(a.mem, a.root, w)
  }

  ghost predicate NoHugeLeafIn(vm: Vm, v: nat, size: nat) {
    forall w :: InRange(v, size, w) ==> NoHugeLeafAt(vm, w)
  }

  // Addresses no 2 MB leaf maps in a, none maps in b.
  ghost predicate ClearKept(a: Vm, b: Vm) {
    forall w :: NoHugeLeafAt(a, w) ==> NoHugeLeafAt(b, w)
  }

  lemma {:induction false} NoHugeLeafKept(a: Vm, b: Vm, v: nat, phys: nat, flags: Flags, w: nat)
    requires Grew(a, b, PathPlaces(v, 0, 3), {}) && PageMapped(a, b, v, phys, flags)
    requires NoHugeLeafAt(a, w)
    ensures NoHugeLeafAt(b, w)
  {
    assert PosOf(v, 3) in PathPlaces(v, 0, 3);
    SamePageSlots(v, w);
  }

  lemma {:induction false} RangeStep(a: Vm, b: Vm, c: Vm, v: nat, phys: nat, size: nat, flags: Flags, k: nat)
    requires 4096 * k < size <= SPACE
    requires PageMapped(a, b, v + 4096 * k, phys + 4096 * k, flags)
    requires RangeMapped(b, c, v, phys, size, flags, k + 1)
    ensures RangeMapped(a, c, v, phys, size, flags, k)
  {
    forall w
      ensures Walk(c.mem, c.root, w) ==
        if InRange(v, size, w) && k <= PagesAfter(v, w)
        then PageTranslation(phys + 4096 * PagesAfter(v, w), flags)
        else Walk(a.mem, a.root, w)
    {
      PageAfter(v, k, w);
    }
  }

  // vmm_map_range: exactly the pages of the range get the intended frames, in order.
  lemma {:induction false} MapRangeCorrect(vm: Vm, v: nat, phys: nat, size: nat, flags: Flags, k: nat)
    requires VmInv(vm) && size <= SPACE && NoHugeLeafIn(vm, v, size)
    requires Fits(vm, RangePlaces(v, size, 4096 * k))
    ensures var b := MapRange(vm, v, phys, size, flags, 4096 * k);
      && VmInv(b) && Grew(vm, b, RangePlaces(v, size, 4096 * k), {})
      && RangeMapped(vm, b, v, phys, size, flags, k) && ClearKept(vm, b)
    decreases size - 4096 * k
  {
    hide VmInv, Grew, Fits, NoHugeLeafAt, NoHugeLeafIn, PageMapped, RangeMapped, InRange, ClearKept, PathPlaces, MapPage, IsTree;
    if 4096 * k >= size {
      GrewRefl(vm);
      EmptyRange(vm, v, phys, size, flags, k);
    } else {
      var here, rest := PathPlaces(v + 4096 * k, 0, 3), RangePlaces(v, size, 4096 * k + FRAME_SIZE);
      var b := MapPage(vm, v + 4096 * k, phys + 4096 * k, flags);
      FitsPart(vm, here, rest);
      FirstPage(vm, v, size, k);
      MapPageCorrect(vm, v + 4096 * k, phys + 4096 * k, flags);
      InvIsTree(b);
      FitsRest(vm, b, here, rest);
      PageKeepsClear(vm, b, v + 4096 * k, phys + 4096 * k, flags);
      StaysClear(vm, b, v, size);
      MapRangeCorrect(b, v, phys, size, flags, k + 1);
      var c := MapRange(b, v, phys, size, flags, 4096 * (k + 1));
      GrewThen(vm, b, c, here, rest, here + rest);
      RangeStep(vm, b, c, v, phys, size, flags, k);
      ClearTrans(vm, b, c);
    }
  }

  lemma {:induction false} InvIsTree(vm: Vm)
    requires VmInv(vm)
    ensures IsTree(vm.mem, vm.root)
  {
  }

  lemma {:induction false} EmptyRange(vm: Vm, v: nat, phys: nat, size: nat, flags: Flags, k: nat)
    requires 4096 * k >= size
    ensures RangeMapped(vm, vm, v, phys, size, flags, k) && ClearKept(vm, vm)
  {
  }

  lemma {:induction false} FitsPart(vm: Vm, s: set<Pos>, t: set<Pos>)
    requires Fits(vm, s + t)
    ensures Fits(vm, s)
  {
    assert Missing(vm, s) <= Missing(vm, s + t);
    SubsetSize(Missing(vm, s), Missing(vm, s + t));
  }

  lemma {:induction false} FirstPage(vm: Vm, v: nat, size: nat, k: nat)
    requires 4096 * k < size <= SPACE && NoHugeLeafIn(vm, v, size)
    ensures NoHugeLeafAt(vm, v + 4096 * k)
  {
    PageAfter(v, k, v + 4096 * k);
  }

  lemma {:induction false} PageKeepsClear(a: Vm, b: Vm, v: nat, phys: nat, flags: Flags)
    requires Grew(a, b, PathPlaces(v, 0, 3), {}) && PageMapped(a, b, v, phys, flags)
    ensures ClearKept(a, b)
  {
    forall w | NoHugeLeafAt(a, w)
      ensures NoHugeLeafAt(b, w)
    {
      NoHugeLeafKept(a, b, v, phys, flags, w);
    }
  }

  lemma {:induction false} StaysClear(a: Vm, b: Vm, v: nat, size: nat)
    requires ClearKept(a, b) && NoHugeLeafIn(a, v, size)
    ensures NoHugeLeafIn(b, v, size)
  {
  }

  lemma {:induction false} ClearTrans(a: Vm, b: Vm, c: Vm)
    requires ClearKept(a, b) && ClearKept(b, c)
    ensures ClearKept(a, c)
  {
  }

  // ---- how many tables a range needs ---------------------------------------------------------

  // Pages of a range, and bytes and pages a table of depth d (1: PDPT .. 3: PT) spans.
  function Pages(size: nat): nat {
    (size + FRAME_SIZE - 1) / FRAME_SIZE
  }

  // One table more than the pages fill, at each of the three depths.
  function TableBound(n: nat): nat {
    ((n + 511) / 512 + 1) + ((n + 0x3_ffff) / 0x4_0000 + 1) + ((n + 0x7ff_ffff) / 0x800_0000 + 1)
  }

  // The table of depth d that is the x-th of its depth.
  function PlaceOf(x: nat, d: nat): Pos
    requires 1 <= d <= 3
  {
    if d == 1 then Child(Root, x % 512)
    else if d == 2 then Child(Child(Root, x / 512 % 512), x % 512)
    else Child(Child(Child(Root, x / 512 / 512 % 512), x / 512 % 512), x % 512)
  }

  function Ordinal(v: nat, d: nat): nat
    requires 1 <= d <= 3
  {
    if d == 1 then v / 0x80_0000_0000 else if d == 2 then v / 0x4000_0000 else v / 0x20_0000
  }

  lemma {:induction false} PosIsPlace(v: nat, d: nat)
    requires 1 <= d <= 3
    ensures PosOf(v, d) == PlaceOf(Ordinal(v, d), d)
  {
    ShiftSteps(v);
  }

  function Places(lo: nat, n: nat, d: nat): set<Pos>
    requires 1 <= d <= 3
  {
    if n == 0 then {} else Places(lo, n - 1, d) + {PlaceOf(lo + n - 1, d)}
  }

  lemma {:induction false} PlacesSize(lo: nat, n: nat, d: nat)
    requires 1 <= d <= 3
    ensures |Places(lo, n, d)| <= n
  {
    if n > 0 {
      PlacesSize(lo, n - 1, d);
    }
  }

  lemma {:induction false} PlacesMember(lo: nat, n: nat, d: nat, x: nat)
    requires 1 <= d <= 3 && lo <= x < lo + n
    ensures PlaceOf(x, d) in Places(lo, n, d)
  {
    if x < lo + n - 1 {
      PlacesMember(lo, n - 1, d, x);
    }
  }

  // All tables of depth d between those of v and of the last of n pages from v.
  function Spanned(v: nat, n: nat, d: nat): set<Pos>
    requires 1 <= d <= 3 && n > 0
  {
    Places(Ordinal(v, d), Ordinal(v + 4096 * (n - 1), d) - Ordinal(v, d) + 1, d)
  }

  // How many pages a table of depth d spans.
  function PagesPer(d: nat): nat
    requires 1 <= d <= 3
  {
    if d == 1 then 0x800_0000 else if d == 2 then 0x4_0000 else 512
  }

  lemma {:induction false} SpannedSize(v: nat, n: nat, d: nat)
    requires n > 0 && 1 <= d <= 3
    ensures |Spanned(v, n, d)| <= (n + PagesPer(d) - 1) / PagesPer(d) + 1
  {
    hide Places;
    PlacesSize(Ordinal(v, d), Ordinal(v + 4096 * (n - 1), d) - Ordinal(v, d) + 1, d);
    if d == 1 {
      OrdinalSpan1(v, n);
    } else if d == 2 {
      OrdinalSpan2(v, n);
    } else {
      OrdinalSpan3(v, n);
    }
  }

  lemma {:induction false} OrdinalSpan1(v: nat, n: nat)
    requires n > 0
    ensures (v + 4096 * (n - 1)) / 0x80_0000_0000 - v / 0x80_0000_0000 <= (n + 0x7ff_ffff) / 0x800_0000
  {
  }

  lemma {:induction false} OrdinalSpan2(v: nat, n: nat)
    requires n > 0
    ensures (v + 4096 * (n - 1)) / 0x4000_0000 - v / 0x4000_0000 <= (n + 0x3_ffff) / 0x4_0000
  {
  }

  lemma {:induction false} OrdinalSpan3(v: nat, n: nat)
    requires n > 0
    ensures (v + 4096 * (n - 1)) / 0x20_0000 - v / 0x20_0000 <= (n + 511) / 512
  {
  }

  lemma {:induction false} PageWithin(v: nat, n: nat, k: nat)
    requires k < n
    ensures PathPlaces(v + 4096 * k, 0, 3) <= Spanned(v, n, 1) + Spanned(v, n, 2) + Spanned(v, n, 3)
  {
    var w := v + 4096 * k;
    forall d | 1 <= d <= 3
      ensures PosOf(w, d) in Spanned(v, n, d)
    {
      PosIsPlace(w, d);
      PlacesMember(Ordinal(v, d), Ordinal(v + 4096 * (n - 1), d) - Ordinal(v, d) + 1, d, Ordinal(w, d));
    }
    PathIs(w);
  }

  lemma {:induction false} PathIs(v: nat)
    ensures PathPlaces(v, 0, 3) == {PosOf(v, 1), PosOf(v, 2), PosOf(v, 3)}
  {
    assert PathPlaces(v, 0, 3) == {PosOf(v, 1)} + PathPlaces(v, 1, 3);
    assert PathPlaces(v, 1, 3) == {PosOf(v, 2)} + PathPlaces(v, 2, 3);
    assert PathPlaces(v, 2, 3) == {PosOf(v, 3)} + PathPlaces(v, 3, 3);
  }

  lemma {:induction false} RangeWithin(v: nat, size: nat, k: nat)
    requires size > 0
    ensures RangePlaces(v, size, 4096 * k) <= Spanned(v, Pages(size), 1) + Spanned(v, Pages(size), 2) + Spanned(v, Pages(size), 3)
    decreases size - 4096 * k
  {
    hide PathPlaces, Spanned, Pages;
    if 4096 * k < size {
      PageCounted(size, k);
      PageWithin(v, Pages(size), k);
      RangeWithin(v, size, k + 1);
    }
  }

  lemma {:induction false} PageCounted(size: nat, k: nat)
    requires 4096 * k < size
    ensures k < Pages(size)
  {
  }

  // n pages need at most TableBound(n) tables, wherever the range lies.
  lemma {:induction false} RangePlacesSize(v: nat, size: nat)
    ensures |RangePlaces(v, size, 0)| <= TableBound(Pages(size))
  {
    if size > 0 {
      var n := Pages(size);
      RangeWithin(v, size, 0);
      SpannedSize(v, n, 1);
      SpannedSize(v, n, 2);
      SpannedSize(v, n, 3);
      SubsetSize(RangePlaces(v, size, 0), Spanned(v, n, 1) + Spanned(v, n, 2) + Spanned(v, n, 3));
    }
  }

  // vmm_map_range of n pages, given room for TableBound(n) tables: the translations, and no
  // more frames than that.
  lemma {:induction false} MapRangeBound(vm: Vm, v: nat, phys: nat, size: nat, flags: Flags)
    requires VmInv(vm) && size <= SPACE && NoHugeLeafIn(vm, v, size)
    requires TableBound(Pages(size)) <= |vm.pmm.free|
    ensures var b := MapRange(vm, v, phys, size, flags, 0);
      && VmInv(b) && Grew(vm, b, RangePlaces(v, size, 0), {})
      && RangeMapped(vm, b, v, phys, size, flags, 0) && ClearKept(vm, b)
      && |vm.pmm.free| - |b.pmm.free| == |Missing(vm, RangePlaces(v, size, 0))| <= TableBound(Pages(size))
  {
    hide VmInv, Grew, NoHugeLeafIn, RangeMapped, ClearKept, RangePlaces, MapRange, IsTree;
    RangePlacesSize(v, size);
    SubsetSize(Missing(vm, RangePlaces(v, size, 0)), RangePlaces(v, size, 0));
    assert 4096 * 0 == 0;
    MapRangeCorrect(vm, v, phys, size, flags, 0);
    var b := MapRange(vm, v, phys, size, flags, 0);
    InvIsTree(b);
    GrewSize(vm, b, RangePlaces(v, size, 0), {});
  }
}

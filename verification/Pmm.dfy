/** Physical page allocator: a bitmap with a usage counter (src/kernel/pmm.cpp). */
module Pmm {
  import opened Common

  /** A firmware memory-map entry; available means type 1. */
  datatype Region = Region(base: u64, length: u64, available: bool)

  // ---------------------------------------------------------------------
  // Specification on the page states: pages[i] is true when page i is used.
  // ---------------------------------------------------------------------

  function CountUsed(pages: seq<bool>): nat { CountUpTo(pages, |pages|) }

  function CountUpTo(pages: seq<bool>, n: nat): nat
    requires n <= |pages|
  {
    if n == 0 then 0 else CountUpTo(pages, n - 1) + if pages[n - 1] then 1 else 0
  }

  lemma {:induction false} CountBound(pages: seq<bool>, n: nat)
    requires n <= |pages|
    ensures CountUpTo(pages, n) <= n
  {
    if n > 0 { CountBound(pages, n - 1); }
  }

  predicate FreeRun(pages: seq<bool>, s: nat, n: nat) {
    1 <= s && s + n <= |pages| && forall i :: s <= i < s + n ==> !pages[i]
  }

  /** The lowest start, at or above s, of n consecutive free pages. */
  ghost function FirstRun(pages: seq<bool>, n: nat, s: nat): Option<nat>
    decreases |pages| - s
  {
    if s + n > |pages| || s >= |pages| then None
    else if FreeRun(pages, s, n) then Some(s)
    else FirstRun(pages, n, s + 1)
  }

  function SetRange(pages: seq<bool>, s: nat, n: nat): (r: seq<bool>)
    requires s + n <= |pages|
    ensures |r| == |pages|
  {
    if n == 0 then pages else SetRange(pages, s, n - 1)[s + n - 1 := true]
  }

  function ClearRange(pages: seq<bool>, lo: nat, hi: nat): (r: seq<bool>)
    ensures |r| == |pages|
    decreases hi
  {
    if hi <= lo then pages
    else
      var rest := ClearRange(pages, lo, hi - 1);
      if hi - 1 < |pages| then rest[hi - 1 := false] else rest
  }

  /** How many pages of [lo, hi) were free already. */
  function Recleared(pages: seq<bool>, lo: nat, hi: nat): nat
    decreases hi
  {
    if hi <= lo then 0
    else Recleared(pages, lo, hi - 1) + if hi - 1 < |pages| && !pages[hi - 1] then 1 else 0
  }

  function StartPage(r: Region): nat { PageOf(Wrap64(r.base + 4095)) }

  function EndPage(r: Region): nat { PageOf(Wrap64(r.base + r.length)) }

  predicate Covers(r: Region, page: nat) {
    r.available && StartPage(r) <= page < EndPage(r)
  }

  /** Page states once the first k regions of the memory map have been released. */
  function Release(pages: seq<bool>, regions: seq<Region>, k: nat): (r: seq<bool>)
    requires k <= |regions|
    ensures |r| == |pages|
  {
    if k == 0 then pages
    else
      var before, region := Release(pages, regions, k - 1), regions[k - 1];
      if region.available then ClearRange(before, StartPage(region), EndPage(region)) else before
  }

  /** How often the release loop frees a page that an earlier region had freed. */
  function Excess(pages: seq<bool>, regions: seq<Region>, k: nat): nat
    requires k <= |regions|
  {
    if k == 0 then 0
    else
      var region := regions[k - 1];
      Excess(pages, regions, k - 1) +
      if region.available
      then Recleared(Release(pages, regions, k - 1), StartPage(region), EndPage(region))
      else 0
  }

  function AllUsed(n: nat): seq<bool> { seq(n, _ => true) }

  // ---------------------------------------------------------------------
  // Facts about the specification.
  // ---------------------------------------------------------------------

  lemma CountUpdate(pages: seq<bool>, i: nat, b: bool)
    requires i < |pages|
    ensures CountUsed(pages[i := b]) ==
            CountUsed(pages) - (if pages[i] then 1 else 0) + (if b then 1 else 0)
  {
    CountUpToUpdate(pages, |pages|, i, b);
  }

  lemma {:induction false} CountUpToUpdate(pages: seq<bool>, n: nat, i: nat, b: bool)
    requires n <= |pages| && i < |pages|
    ensures CountUpTo(pages[i := b], n) ==
            CountUpTo(pages, n) +
            if i < n then (if b then 1 else 0) - (if pages[i] then 1 else 0) else 0
  {
    if n > 0 { CountUpToUpdate(pages, n - 1, i, b); }
  }

  lemma {:induction false} CountAllUsed(n: nat, m: nat)
    requires n <= m
    ensures CountUpTo(AllUsed(m), n) == n
  {
    if n > 0 { CountAllUsed(n - 1, m); }
  }

  lemma {:induction false} SetRangeAt(pages: seq<bool>, s: nat, n: nat, i: nat)
    requires s + n <= |pages| && i < |pages|
    ensures SetRange(pages, s, n)[i] == (pages[i] || s <= i < s + n)
  {
    if n > 0 { SetRangeAt(pages, s, n - 1, i); }
  }

  /** Taking a free run raises the number of used pages by exactly its length. */
  lemma {:induction false} SetRangeCount(pages: seq<bool>, s: nat, n: nat)
    requires FreeRun(pages, s, n)
    ensures CountUsed(SetRange(pages, s, n)) == CountUsed(pages) + n
  {
    if n > 0 {
      SetRangeCount(pages, s, n - 1);
      SetRangeAt(pages, s, n - 1, s + n - 1);
      CountUpdate(SetRange(pages, s, n - 1), s + n - 1, true);
    }
  }

  lemma {:induction false} ClearRangeAt(pages: seq<bool>, lo: nat, hi: nat, i: nat)
    requires i < |pages|
    ensures ClearRange(pages, lo, hi)[i] == (pages[i] && !(lo <= i < hi))
    decreases hi
  {
    if hi > lo { ClearRangeAt(pages, lo, hi - 1, i); }
  }

  lemma {:induction false} ReclearedZero(pages: seq<bool>, lo: nat, hi: nat)
    ensures Recleared(pages, lo, hi) == 0 <==> forall i :: lo <= i < hi && i < |pages| ==> pages[i]
    decreases hi
  {
    if hi > lo { ReclearedZero(pages, lo, hi - 1); }
  }

  lemma {:induction false} ReleaseAt(pages: seq<bool>, regions: seq<Region>, k: nat, i: nat)
    requires k <= |regions| && i < |pages|
    ensures Release(pages, regions, k)[i] <==>
            pages[i] && forall j :: 0 <= j < k ==> !Covers(regions[j], i)
  {
    if k > 0 {
      ReleaseAt(pages, regions, k - 1, i);
      var region := regions[k - 1];
      if region.available {
        ClearRangeAt(Release(pages, regions, k - 1), StartPage(region), EndPage(region), i);
      }
    }
  }

  /** Some managed page lies in two of the first k available regions. */
  ghost predicate CoveredTwice(n: nat, regions: seq<Region>, k: nat)
    requires k <= |regions|
  {
    exists a, b, i :: 0 <= a < b < k && 0 <= i < n && Covers(regions[a], i) && Covers(regions[b], i)
  }

  /** The counter set up at boot is exact precisely when no managed page lies in
      two available regions. */
  lemma {:induction false} ExcessZero(n: nat, regions: seq<Region>, k: nat)
    requires k <= |regions|
    ensures Excess(AllUsed(n), regions, k) == 0 <==> !CoveredTwice(n, regions, k)
  {
    if k > 0 {
      ExcessZero(n, regions, k - 1);
      if regions[k - 1].available { ReclearedCovered(n, regions, k - 1); }
      if CoveredTwice(n, regions, k - 1) {
        var a, b, i :| 0 <= a < b < k - 1 && 0 <= i < n && Covers(regions[a], i) && Covers(regions[b], i);
        assert CoveredTwice(n, regions, k);
      }
    }
  }

  lemma {:induction false} ReclearedBound(pages: seq<bool>, lo: nat, hi: nat)
    ensures Recleared(pages, lo, hi) <= |pages| && Recleared(pages, lo, hi) <= hi
    decreases hi
  {
    if hi > lo { ReclearedBound(pages, lo, hi - 1); }
  }

  lemma {:induction false} ExcessBound(n: nat, regions: seq<Region>, k: nat)
    requires k <= |regions|
    ensures Excess(AllUsed(n), regions, k) <= k * n
  {
    if k > 0 {
      ExcessBound(n, regions, k - 1);
      var region := regions[k - 1];
      ReclearedBound(Release(AllUsed(n), regions, k - 1), StartPage(region), EndPage(region));
      assert k * n == (k - 1) * n + n;
    }
  }

  /** The 64-bit counter that starts at the true count minus the pages freed more than once is
      exact if and only if their number is a multiple of 2^64. When regions times pages stay
      below 2^64, that is if and only if no managed page lies in two available regions. */
  lemma CounterExact(n: nat, regions: seq<Region>, count: nat, counter: u64)
    requires count <= n < 0x1_0000_0000_0000_0000
    requires counter == Wrap64(count - Excess(AllUsed(n), regions, |regions|))
    ensures counter == count <==> Excess(AllUsed(n), regions, |regions|) % 0x1_0000_0000_0000_0000 == 0
    ensures |regions| * n < 0x1_0000_0000_0000_0000 ==> (counter == count <==> !CoveredTwice(n, regions, |regions|))
  {
    WrapDifference(count, Excess(AllUsed(n), regions, |regions|));
    ExcessBound(n, regions, |regions|);
    ExcessZero(n, regions, |regions|);
  }

  lemma CheckCounter(pages: seq<bool>, regions: seq<Region>, counter: u64, lag: nat)
    requires |pages| < 0x1_0000_0000_0000_0000 && lag == Excess(AllUsed(|pages|), regions, |regions|)
    requires counter == Wrap64(CountUsed(pages) - lag)
    ensures counter == CountUsed(pages) <==> lag % 0x1_0000_0000_0000_0000 == 0
    ensures |regions| * |pages| < 0x1_0000_0000_0000_0000 ==>
      (counter == CountUsed(pages) <==> !CoveredTwice(|pages|, regions, |regions|))
  {
    CountBound(pages, |pages|);
    CounterExact(|pages|, regions, CountUsed(pages), counter);
  }

  lemma WrapDifference(x: u64, d: nat)
    ensures Wrap64(x - d) == x <==> d % 0x1_0000_0000_0000_0000 == 0
    ensures d < 0x1_0000_0000_0000_0000 ==> (Wrap64(x - d) == x <==> d == 0)
  {
    var q, r := d / 0x1_0000_0000_0000_0000, d % 0x1_0000_0000_0000_0000;
    assert x - d == (x - r) - q * 0x1_0000_0000_0000_0000;
  }

  lemma ReclearedCovered(n: nat, regions: seq<Region>, k: nat)
    requires k < |regions| && regions[k].available
    ensures Recleared(Release(AllUsed(n), regions, k), StartPage(regions[k]), EndPage(regions[k])) > 0 <==>
            exists j, i :: 0 <= j < k && 0 <= i < n && Covers(regions[j], i) && Covers(regions[k], i)
  {
    var before, lo, hi := Release(AllUsed(n), regions, k), StartPage(regions[k]), EndPage(regions[k]);
    ReclearedZero(before, lo, hi);
    if i: nat :| lo <= i < hi && i < n && !before[i] {
      ReleaseAt(AllUsed(n), regions, k, i);
      var j :| 0 <= j < k && Covers(regions[j], i);
      assert Covers(regions[k], i);
    }
    if j, i :| 0 <= j < k && 0 <= i < n && Covers(regions[j], i) && Covers(regions[k], i) {
      ReleaseAt(AllUsed(n), regions, k, i);
      assert lo <= i < hi && !before[i];
    }
  }

  /** The search finds the lowest run, and fails only when there is none. */
  lemma {:induction false} FirstRunLeftmost(pages: seq<bool>, n: nat, s: nat)
    requires n > 0
    ensures match FirstRun(pages, n, s)
            case Some(t) => s <= t && FreeRun(pages, t, n) &&
                            forall u: nat :: s <= u < t ==> !FreeRun(pages, u, n)
            case None => forall u: nat :: s <= u ==> !FreeRun(pages, u, n)
    decreases |pages| - s
  {
    if s + n <= |pages| && !FreeRun(pages, s, n) {
      FirstRunLeftmost(pages, n, s + 1);
    }
  }

  /** Every page that may be handed out is taken. */
  ghost predicate Exhausted(pages: seq<bool>) {
    forall i :: 1 <= i < |pages| ==> pages[i]
  }

  /** A single page can be had unless all are taken. */
  lemma OnePage(pages: seq<bool>)
    ensures FirstRun(pages, 1, 1).None? <==> Exhausted(pages)
  {
    FirstRunLeftmost(pages, 1, 1);
    if FirstRun(pages, 1, 1).None? {
      forall i | 1 <= i < |pages| ensures pages[i] { assert !FreeRun(pages, i, 1); }
    } else {
      assert !pages[FirstRun(pages, 1, 1).value];
    }
  }

  lemma {:induction false} FirstRunIs(pages: seq<bool>, n: nat, s: nat, t: nat)
    requires n > 0 && s <= t && FreeRun(pages, t, n)
    requires forall u: nat :: s <= u < t ==> !FreeRun(pages, u, n)
    ensures FirstRun(pages, n, s) == Some(t)
    decreases t - s
  {
    if s < t { FirstRunIs(pages, n, s + 1, t); }
  }

  /** State of the linear scan before page i: the last run pages are free, the run
      cannot be extended to the left, and no run of n pages has been passed. */
  ghost predicate Scanning(pages: seq<bool>, n: nat, i: nat, run: nat) {
    1 <= i && run < n && run < i &&
    (i <= |pages| ==>
      (forall u :: i - run <= u < i ==> !pages[u]) &&
      (i - run == 1 || pages[i - run - 1])) &&
    forall u: nat :: u < i - run ==> !FreeRun(pages, u, n)
  }

  lemma ScanStep(pages: seq<bool>, n: nat, i: nat, run: nat)
    requires Scanning(pages, n, i, run) && i < |pages|
    ensures pages[i] ==> Scanning(pages, n, i + 1, 0)
    ensures !pages[i] && run + 1 < n ==> Scanning(pages, n, i + 1, run + 1)
    ensures !pages[i] && run + 1 == n ==>
            FreeRun(pages, i - run, n) && FirstRun(pages, n, 1) == Some(i - run)
  {
    if pages[i] {
      forall u: nat | u < i + 1 ensures !FreeRun(pages, u, n) {
        if FreeRun(pages, u, n) && u >= i - run { assert false; }
      }
    } else if run + 1 == n {
      FirstRunIs(pages, n, 1, i - run);
    }
  }

  lemma ScanEnd(pages: seq<bool>, n: nat, i: nat, run: nat)
    requires Scanning(pages, n, i, run) && i >= |pages|
    requires i == |pages| || i == 1
    ensures FirstRun(pages, n, 1).None?
  {
    FirstRunLeftmost(pages, n, 1);
  }

  // ---------------------------------------------------------------------
  // Bits inside bytes.
  // ---------------------------------------------------------------------

  function Mask(k: nat): bv8
    requires k < 8
  {
    (1 as bv8) << k
  }

  predicate TestBit(bitmap: seq<bv8>, i: nat)
    requires i < 8 * |bitmap|
  {
    bitmap[i / 8] & Mask(i % 8) != 0
  }

  /** Page i is bit i % 8 of byte i / 8, counted from the least. */
  lemma BitOrder(bitmap: seq<bv8>, i: nat)
    requires i < 8 * |bitmap|
    ensures TestBit(bitmap, i) <==> bitmap[i / 8] & [1, 2, 4, 8, 16, 32, 64, 128][i % 8] != 0
  {
    MaskIs(i % 8);
  }

  lemma MaskIs(k: nat)
    requires k < 8
    ensures Mask(k) == [1, 2, 4, 8, 16, 32, 64, 128][k]
  {}

  lemma MaskAt(b: bv8, j: nat, k: nat)
    requires j < 8 && k < 8
    ensures ((b | Mask(k)) & Mask(j) != 0) == (j == k || b & Mask(j) != 0)
    ensures ((b & !Mask(k)) & Mask(j) != 0) == (j != k && b & Mask(j) != 0)
  {}

  lemma MaskFull(j: nat)
    requires j < 8
    ensures 0xFF & Mask(j) != 0
  {}

  /** The first n bits of the bitmap. */
  function Unpack(bitmap: seq<bv8>, n: nat): (pages: seq<bool>)
    requires n <= 8 * |bitmap|
    ensures |pages| == n
  {
    if n == 0 then [] else Unpack(bitmap, n - 1) + [TestBit(bitmap, n - 1)]
  }

  lemma {:induction false} UnpackAt(bitmap: seq<bv8>, n: nat, i: nat)
    requires i < n <= 8 * |bitmap|
    ensures Unpack(bitmap, n)[i] == TestBit(bitmap, i)
  {
    if i < n - 1 { UnpackAt(bitmap, n - 1, i); }
  }

  lemma TestBitUpdate(bitmap: seq<bv8>, i: nat, b: bool, j: nat)
    requires i < 8 * |bitmap| && j < 8 * |bitmap|
    ensures TestBit(bitmap[i / 8 := WithBit(bitmap[i / 8], i % 8, b)], j) ==
            if j == i then b else TestBit(bitmap, j)
  {
    var q, r, q', r' := i / 8, i % 8, j / 8, j % 8;
    assert i == 8 * q + r && j == 8 * q' + r';
    MaskAt(bitmap[q], r', r);
    if q == q' {
      assert j == i <==> r' == r;
    } else {
      assert bitmap[q := WithBit(bitmap[q], r, b)][q'] == bitmap[q'];
    }
  }

  function WithBit(b: bv8, k: nat, on: bool): bv8
    requires k < 8
  {
    if on then b | Mask(k) else b & !Mask(k)
  }

  /** Rewriting one byte with one bit changed rewrites exactly that page. */
  lemma UnpackUpdate(bitmap: seq<bv8>, n: nat, i: nat, b: bool)
    requires n <= 8 * |bitmap| && i < n
    ensures Unpack(bitmap[i / 8 := WithBit(bitmap[i / 8], i % 8, b)], n) == Unpack(bitmap, n)[i := b]
  {
    var bitmap' := bitmap[i / 8 := WithBit(bitmap[i / 8], i % 8, b)];
    forall j: nat | j < n
      ensures Unpack(bitmap', n)[j] == Unpack(bitmap, n)[i := b][j]
    {
      TestBitUpdate(bitmap, i, b, j);
      UnpackAt(bitmap, n, j);
      UnpackAt(bitmap', n, j);
    }
  }

  // ---------------------------------------------------------------------
  // The allocator.
  // ---------------------------------------------------------------------

  lemma ReleasedAll(n: nat, regions: seq<Region>, pages: seq<bool>)
    requires pages == Release(AllUsed(n), regions, |regions|)
    ensures |pages| == n && forall i :: 0 <= i < n ==>
              (pages[i] <==> forall k :: 0 <= k < |regions| ==> !Covers(regions[k], i))
  {
    forall i: nat | i < n ensures pages[i] <==> forall k :: 0 <= k < |regions| ==> !Covers(regions[k], i) {
      ReleaseAt(AllUsed(n), regions, |regions|, i);
    }
  }

  class PageAllocator {
    var bitmap: array<bv8>
    var totalPages: nat
    var usedPages: u64
    /** How many pages the boot-time set-up freed more than once. */
    ghost var lag: nat

    ghost predicate Shape()
      reads this
    {
      bitmap.Length == (totalPages + 7) / 8
    }

    /** Which managed pages are used. */
    ghost function Pages(): (pages: seq<bool>)
      requires Shape()
      reads this, bitmap
      ensures |pages| == totalPages
    {
      Unpack(bitmap[..], totalPages)
    }

    /** The counter holds, modulo 2^64, the number of used pages less the lag. */
    ghost predicate Valid()
      reads this, bitmap
    {
      Shape() && usedPages == Wrap64(CountUsed(Pages()) - lag)
    }

    method Set(i: nat)
      requires Shape() && i < totalPages
      modifies bitmap
      ensures Pages() == old(Pages())[i := true]
    {
      UnpackUpdate(bitmap[..], totalPages, i, true);
      bitmap[i / 8] := bitmap[i / 8] | Mask(i % 8);
      assert bitmap[..] == old(bitmap[..])[i / 8 := WithBit(old(bitmap[i / 8]), i % 8, true)];
    }

    method Clear(i: nat)
      requires Shape() && i < totalPages
      modifies bitmap
      ensures Pages() == old(Pages())[i := false]
    {
      UnpackUpdate(bitmap[..], totalPages, i, false);
      bitmap[i / 8] := bitmap[i / 8] & !Mask(i % 8);
      assert bitmap[..] == old(bitmap[..])[i / 8 := WithBit(old(bitmap[i / 8]), i % 8, false)];
    }

    method Test(i: nat) returns (used: bool)
      requires Shape() && i < totalPages
      ensures used == Pages()[i]
    {
      UnpackAt(bitmap[..], totalPages, i);
      used := bitmap[i / 8] & Mask(i % 8) != 0;
    }

    /** Marks one page and steps the counter. */
    method Take(i: nat)
      requires Valid() && i < totalPages && !Pages()[i]
      modifies bitmap, this`usedPages
      ensures Valid() && Pages() == old(Pages())[i := true]
      ensures usedPages == Wrap64(old(usedPages) + 1)
    {
      CountUpdate(Pages(), i, true);
      WrapAdd(CountUsed(Pages()) - lag, 1);
      Set(i);
      usedPages := Wrap64(usedPages + 1);
    }

    /** Unmarks one used page and steps the counter back. */
    method Drop(i: nat)
      requires Valid() && i < totalPages && Pages()[i]
      modifies bitmap, this`usedPages
      ensures Valid() && Pages() == old(Pages())[i := false]
      ensures usedPages == Wrap64(old(usedPages) - 1)
    {
      CountUpdate(Pages(), i, false);
      WrapAdd(CountUsed(Pages()) - lag, -1);
      Clear(i);
      usedPages := Wrap64(usedPages - 1);
    }

    /** Boot-time set-up. safeStart is the end of the kernel image and of the boot
        information, whichever is higher. A page ends up free exactly when an available
        region covers it and it lies outside the kernel-and-bitmap range; the counter
        misses the true number of used pages by the pages freed more than once. */
    constructor (regions: seq<Region>, safeStart: u64)
      ensures Valid() && fresh(bitmap)
      ensures totalPages == ManagedPages(regions)
      ensures forall i :: 0 <= i < totalPages ==>
        (Pages()[i] <==>
          (forall k :: 0 <= k < |regions| ==> !Covers(regions[k], i)) ||
          KERNEL_PAGE <= i <= BitmapEndPage(safeStart, (totalPages + 7) / 8))
      ensures safeStart <= 0xFFFF_FFFF_FFFF_F000 ==>
        forall a: nat {:trigger Occupied(safeStart, (totalPages + 7) / 8, a)} ::
          Occupied(safeStart, (totalPages + 7) / 8, a) && a / 4096 < totalPages ==> Pages()[a / 4096]
      ensures lag == Excess(AllUsed(totalPages), regions, |regions|)
      ensures usedPages == CountUsed(Pages()) <==> lag % 0x1_0000_0000_0000_0000 == 0
      ensures |regions| * totalPages < 0x1_0000_0000_0000_0000 ==>
        (usedPages == CountUsed(Pages()) <==> !CoveredTwice(totalPages, regions, |regions|))
    {
      var total := CountPages(regions);
      totalPages, usedPages, lag := total, total, 0;
      bitmap := new bv8[(total + 7) / 8];
      new;
      MarkPages(regions, safeStart);
      CheckCounter(Pages(), regions, usedPages, lag);
    }

    /** Fills the new bitmap: everything used, the available regions freed, the kernel taken. */
    method MarkPages(regions: seq<Region>, safeStart: u64)
      requires Shape() && totalPages == usedPages && lag == 0
      modifies bitmap, this`usedPages, this`lag
      ensures Valid() && lag == Excess(AllUsed(totalPages), regions, |regions|)
      ensures forall i :: 0 <= i < totalPages ==>
        (Pages()[i] <==>
          (forall k :: 0 <= k < |regions| ==> !Covers(regions[k], i)) ||
          KERNEL_PAGE <= i <= BitmapEndPage(safeStart, (totalPages + 7) / 8))
      ensures safeStart <= 0xFFFF_FFFF_FFFF_F000 ==>
        forall a: nat {:trigger Occupied(safeStart, (totalPages + 7) / 8, a)} ::
          Occupied(safeStart, (totalPages + 7) / 8, a) && a / 4096 < totalPages ==> Pages()[a / 4096]
    {
      FillUsed();
      ReleaseRegions(regions);
      ReleasedAll(totalPages, regions, Pages());
      ReserveKernel(BitmapEndPage(safeStart, (totalPages + 7) / 8));
      if safeStart <= 0xFFFF_FFFF_FFFF_F000 { OccupiedUsed(Pages(), safeStart, (totalPages + 7) / 8); }
    }

    /** The loop over the memory map that frees every available region. */
    method ReleaseRegions(regions: seq<Region>)
      requires Valid() && Pages() == AllUsed(totalPages) && lag == 0
      modifies bitmap, this`usedPages, this`lag
      ensures Valid() && Pages() == Release(AllUsed(totalPages), regions, |regions|)
      ensures lag == Excess(AllUsed(totalPages), regions, |regions|)
    {
      ghost var all := AllUsed(totalPages);
      for k := 0 to |regions|
        invariant Valid()
        invariant Pages() == Release(all, regions, k) && lag == Excess(all, regions, k)
      {
        if regions[k].available {
          ReleaseRegion(StartPage(regions[k]), EndPage(regions[k]));
        }
      }
    }

    method FillUsed()
      requires Shape() && totalPages == usedPages && lag == 0
      modifies bitmap
      ensures Valid() && Pages() == AllUsed(totalPages)
    {
      for i := 0 to bitmap.Length
        invariant forall j :: 0 <= j < i ==> bitmap[j] == 0xFF
      {
        bitmap[i] := 0xFF;
      }
      forall i: nat | i < totalPages ensures Pages()[i] {
        UnpackAt(bitmap[..], totalPages, i);
        MaskFull(i % 8);
      }
      assert Pages() == AllUsed(totalPages);
      CountAllUsed(totalPages, totalPages);
      WrapSmall(totalPages);
    }

    /** Frees a page without asking whether it was used, as the boot-time loop does. */
    method ReleasePage(i: nat)
      requires Valid() && i < totalPages
      modifies bitmap, this`usedPages, this`lag
      ensures Valid() && Pages() == old(Pages())[i := false]
      ensures lag == old(lag) + if old(Pages())[i] then 0 else 1
    {
      CountUpdate(Pages(), i, false);
      WrapAdd(CountUsed(Pages()) - lag, -1);
      ghost var was := Pages()[i];
      Clear(i);
      usedPages := Wrap64(usedPages - 1);
      lag := lag + if was then 0 else 1;
    }

    /** The loop that frees the pages of one available region. */
    method ReleaseRegion(startPage: nat, endPage: nat)
      requires Valid()
      modifies bitmap, this`usedPages, this`lag
      ensures Valid() && Pages() == ClearRange(old(Pages()), startPage, endPage)
      ensures lag == old(lag) + Recleared(old(Pages()), startPage, endPage)
    {
      var page := startPage;
      ghost var before := Pages();
      while page < endPage
        invariant page <= startPage || page <= endPage
        invariant startPage <= page
        invariant Valid() && Pages() == ClearRange(before, startPage, page)
        invariant lag == old(lag) + Recleared(before, startPage, page)
      {
        if page < totalPages {
          ClearRangeAt(before, startPage, page, page);
          ReleasePage(page);
        }
        page := page + 1;
      }
    }

    /** The loop that takes the pages of the kernel image and of the bitmap. */
    method ReserveKernel(bitmapEndPage: nat)
      requires Valid()
      modifies bitmap, this`usedPages
      ensures Valid()
      ensures forall i :: 0 <= i < totalPages ==>
        (Pages()[i] <==> old(Pages())[i] || KERNEL_PAGE <= i <= bitmapEndPage)
    {
      ghost var before := Pages();
      var page := KERNEL_PAGE;
      while page <= bitmapEndPage
        invariant KERNEL_PAGE <= page && (page <= KERNEL_PAGE || page <= bitmapEndPage + 1)
        invariant Valid()
        invariant forall i :: 0 <= i < totalPages ==>
          (Pages()[i] <==> before[i] || KERNEL_PAGE <= i < page)
      {
        if page < totalPages {
          var used := Test(page);
          if !used { Take(page); }
        }
        page := page + 1;
      }
    }

    /** Allocates the lowest run of n free pages; 0 stands for the null pointer. */
    method AllocContiguous(n: nat) returns (addr: nat)
      requires Valid()
      modifies bitmap, this`usedPages
      ensures Valid()
      ensures match if n == 0 then None else FirstRun(old(Pages()), n, 1)
              case None => addr == 0 && Pages() == old(Pages()) && usedPages == old(usedPages)
              case Some(s) =>
                s > 0 && s + n <= totalPages && addr == PageAddr(s) &&
                Pages() == SetRange(old(Pages()), s, n) && usedPages == Wrap64(old(usedPages) + n)
    {
      if n == 0 { return 0; }
      var start := FindRun(n);
      if start.None? { return 0; }
      FirstRunLeftmost(Pages(), n, 1);
      TakeRun(start.value, n);
      addr := PageAddr(start.value);
    }

    /** The scan: counts free pages in a row and stops at the first n. */
    method FindRun(n: nat) returns (start: Option<nat>)
      requires Valid() && n > 0
      ensures start == FirstRun(Pages(), n, 1)
      ensures start.Some? ==> start.value > 0 && FreeRun(Pages(), start.value, n)
    {
      var run, runStart := 0, 0;
      var i := 1;
      while i < totalPages
        invariant i <= totalPages || i == 1
        invariant Scanning(Pages(), n, i, run) && (run > 0 ==> runStart == i - run)
        decreases totalPages - i
      {
        ScanStep(Pages(), n, i, run);
        var used := Test(i);
        if !used {
          if run == 0 { runStart := i; }
          run := run + 1;
          if run >= n { return Some(runStart); }
        } else {
          run := 0;
        }
        i := i + 1;
      }
      ScanEnd(Pages(), n, i, run);
      start := None;
    }

    method TakeRun(s: nat, n: nat)
      requires Valid() && FreeRun(Pages(), s, n)
      modifies bitmap, this`usedPages
      ensures Valid() && Pages() == SetRange(old(Pages()), s, n)
      ensures usedPages == Wrap64(old(usedPages) + n)
    {
      ghost var before := Pages();
      WrapSmall(usedPages);
      var j := s;
      while j < s + n
        invariant s <= j <= s + n
        invariant Valid() && Pages() == SetRange(before, s, j - s)
        invariant usedPages == Wrap64(old(usedPages) + (j - s))
      {
        SetRangeAt(before, s, j - s, j);
        WrapAdd(old(usedPages) + (j - s), 1);
        Take(j);
        j := j + 1;
      }
    }

    /** Allocates one page; 0 stands for the null pointer. */
    method AllocPage() returns (addr: nat)
      requires Valid()
      modifies bitmap, this`usedPages
      ensures Valid()
      ensures match FirstRun(old(Pages()), 1, 1)
              case None => addr == 0 && Pages() == old(Pages()) && usedPages == old(usedPages)
              case Some(s) =>
                0 < s < totalPages && addr == PageAddr(s) && !old(Pages())[s] &&
                Pages() == old(Pages())[s := true] && usedPages == Wrap64(old(usedPages) + 1)
    {
      ghost var before := Pages();
      FirstRunLeftmost(before, 1, 1);
      var i := 1;
      while i < totalPages
        invariant 1 <= i
        invariant Valid() && Pages() == before && usedPages == old(usedPages)
        invariant forall u: nat :: u < i ==> !FreeRun(before, u, 1)
      {
        var used := Test(i);
        if !used {
          FirstRunIs(before, 1, 1, i);
          Take(i);
          return PageAddr(i);
        }
        i := i + 1;
      }
      assert FirstRun(before, 1, 1).None?;
      addr := 0;
    }

    /** Frees one page. An address outside the managed range and a page that is
        free already are rejected without any change. */
    method FreePage(addr: nat)
      requires Valid()
      modifies bitmap, this`usedPages
      ensures Valid()
      ensures var i := PageOf(addr);
              if i < totalPages && old(Pages())[i]
              then Pages() == old(Pages())[i := false] && usedPages == Wrap64(old(usedPages) - 1)
              else Pages() == old(Pages()) && usedPages == old(usedPages)
    {
      var i := PageOf(addr);
      if i >= totalPages { return; }
      var used := Test(i);
      if !used { return; }
      Drop(i);
    }

    /** pmm_get_free_memory. With an exact counter, free and used memory add up to the managed memory. */
    method FreeMemory() returns (bytes: u64)
      requires Valid() && totalPages < 0x10_0000_0000_0000
      ensures lag == 0 ==> bytes + PageAddr(CountUsed(Pages())) == PageAddr(totalPages)
    {
      CountBound(Pages(), |Pages()|);
      var free: int := totalPages - usedPages;
      if lag == 0 {
        WrapSmall(CountUsed(Pages()));
        WrapSmall(free);
        WrapSmall(PageAddr(free));
      }
      bytes := Wrap64(PageAddr(Wrap64(free)));
    }
  }

  /** The loop over the memory map that sizes the bitmap. */
  method CountPages(regions: seq<Region>) returns (total: nat)
    ensures total == ManagedPages(regions) < 0x10_0000_0000_0000
  {
    var highest, usable: u64 := 0, 0;
    for k := 0 to |regions|
      invariant highest == HighestAddr(regions, k) && usable == UsableMemory(regions, k)
    {
      var endAddr := Wrap64(regions[k].base + regions[k].length);
      if endAddr > highest { highest := endAddr; }
      if regions[k].available { usable := Wrap64(usable + regions[k].length); }
    }
    total := if highest > Wrap64(usable * 2) then PageOf(Wrap64(usable * 2)) else PageOf(highest);
  }

  const KERNEL_PAGE: nat := 256

  function HighestAddr(regions: seq<Region>, k: nat): u64
    requires k <= |regions|
  {
    if k == 0 then 0
    else
      var rest := HighestAddr(regions, k - 1);
      var endAddr := Wrap64(regions[k - 1].base + regions[k - 1].length);
      if endAddr > rest then endAddr else rest
  }

  function UsableMemory(regions: seq<Region>, k: nat): u64
    requires k <= |regions|
  {
    if k == 0 then 0
    else if regions[k - 1].available then Wrap64(UsableMemory(regions, k - 1) + regions[k - 1].length)
    else UsableMemory(regions, k - 1)
  }

  /** The number of pages the bitmap covers, capped at twice the usable memory. */
  function ManagedPages(regions: seq<Region>): nat {
    var highest := HighestAddr(regions, |regions|);
    var twice := Wrap64(UsableMemory(regions, |regions|) * 2);
    if highest > twice then PageOf(twice) else PageOf(highest)
  }

  function BitmapEndPage(safeStart: u64, bitmapSize: nat): nat {
    PageOf(PageAddr(PageOf(Wrap64(safeStart + 4095))) + bitmapSize + 4095)
  }

  // ---------------------------------------------------------------------
  // The same in byte addresses.
  // ---------------------------------------------------------------------

  /** An available region covers the pages that lie in it as a whole. */
  lemma CoversBytes(r: Region, page: nat)
    requires r.base <= 0xFFFF_FFFF_FFFF_F000 && r.base + r.length < 0x1_0000_0000_0000_0000
    ensures Covers(r, page) <==> r.available && r.base <= 4096 * page && 4096 * page + 4096 <= r.base + r.length
  {
    WrapSmall(r.base + 4095);
    WrapSmall(r.base + r.length);
  }

  /** The bitmap starts at the first page boundary at or above safeStart. The pages reserved reach
      from 1 MiB to the page in which the bitmap ends, or the one after it. */
  lemma ReservedBytes(safeStart: u64, size: nat, start: nat, page: nat)
    requires safeStart <= 0xFFFF_FFFF_FFFF_F000 && start % 4096 == 0 && safeStart <= start < safeStart + 4096
    ensures KERNEL_PAGE <= page <= BitmapEndPage(safeStart, size) <==>
            0x10_0000 <= 4096 * page && 4096 * page < start + size + 4096
  {
    WrapSmall(safeStart + 4095);
    assert start == 4096 * (start / 4096);
    assert PageAddr(PageOf(safeStart + 4095)) == start;
  }

  /** Byte a lies in [1 MiB, end of the bitmap). */
  predicate Occupied(safeStart: nat, size: nat, a: nat) {
    0x10_0000 <= a < (safeStart + 4095) / 4096 * 4096 + size
  }

  lemma OccupiedReserved(safeStart: u64, size: nat, a: nat)
    requires safeStart <= 0xFFFF_FFFF_FFFF_F000 && Occupied(safeStart, size, a)
    ensures KERNEL_PAGE <= a / 4096 <= BitmapEndPage(safeStart, size)
  {
    var start := (safeStart + 4095) / 4096 * 4096;
    ReservedBytes(safeStart, size, start, a / 4096);
  }

  lemma OccupiedUsed(pages: seq<bool>, safeStart: u64, size: nat)
    requires safeStart <= 0xFFFF_FFFF_FFFF_F000
    requires forall i :: 0 <= i < |pages| && KERNEL_PAGE <= i <= BitmapEndPage(safeStart, size) ==> pages[i]
    ensures forall a: nat {:trigger Occupied(safeStart, size, a)} ::
      Occupied(safeStart, size, a) && a / 4096 < |pages| ==> pages[a / 4096]
  {
    forall a: nat | Occupied(safeStart, size, a) && a / 4096 < |pages| ensures pages[a / 4096] {
      OccupiedReserved(safeStart, size, a);
    }
  }

  /** The memory map ends where its last region does. */
  lemma {:induction false} HighestIs(regions: seq<Region>, k: nat)
    requires k <= |regions|
    ensures forall i :: 0 <= i < k ==> Wrap64(regions[i].base + regions[i].length) <= HighestAddr(regions, k)
    ensures HighestAddr(regions, k) == 0 ||
            exists i :: 0 <= i < k && Wrap64(regions[i].base + regions[i].length) == HighestAddr(regions, k)
  {
    if k > 0 { HighestIs(regions, k - 1); }
  }

  /** The bitmap covers all pages below the highest address, but no more than twice the usable
      memory. */
  lemma ManagedIs(regions: seq<Region>, page: nat)
    requires UsableMemory(regions, |regions|) < 0x8000_0000_0000_0000
    ensures page < ManagedPages(regions) <==>
            4096 * page + 4096 <= HighestAddr(regions, |regions|) &&
            4096 * page + 4096 <= 2 * UsableMemory(regions, |regions|)
  {
    WrapSmall(UsableMemory(regions, |regions|) * 2);
  }
}

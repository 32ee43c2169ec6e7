/** The kernel heap as the list of blocks its headers describe (src/kernel/heap.cpp). */
module HeapBlocks {
  import opened Common

  /** A block: its 17-byte header sits at addr, its payload of size bytes after it. */
  datatype Block = Block(addr: nat, size: nat, free: bool) {
    function Payload(): nat { addr + 17 }

    function End(): nat { addr + 17 + size }
  }

  /** Where block i starts; the position after the last block is the end of the heap. */
  function AddrOf(bs: seq<Block>, i: nat, end: nat): nat
    requires i <= |bs|
  {
    if i < |bs| then bs[i].addr else end
  }

  /** Block i ends where the next one starts. */
  ghost predicate Abuts(bs: seq<Block>, i: nat, end: nat)
    requires i < |bs|
  {
    bs[i].End() == AddrOf(bs, i + 1, end)
  }

  /** The blocks tile [base, end) in address order. */
  ghost predicate Tiles(bs: seq<Block>, base: nat, end: nat) {
    |bs| > 0 && bs[0].addr == base &&
    forall i :: 0 <= i < |bs| ==> Abuts(bs, i, end)
  }

  ghost predicate FreePair(bs: seq<Block>, i: nat)
    requires 0 < i < |bs|
  {
    bs[i - 1].free && bs[i].free
  }

  ghost predicate NoFreeNeighbours(bs: seq<Block>) {
    forall i :: 0 < i < |bs| ==> !FreePair(bs, i)
  }

  ghost predicate ValidHeap(bs: seq<Block>, base: nat, end: nat) {
    Tiles(bs, base, end) && NoFreeNeighbours(bs)
  }

  ghost function Live(bs: seq<Block>): set<Block> { set b | b in bs && !b.free }

  // ---------------------------------------------------------------------
  // The operations.
  // ---------------------------------------------------------------------

  /** Request sizes are rounded up to a multiple of 8 in 64-bit arithmetic. */
  function Round8(n: u64): nat { Wrap64(n + 7) / 8 * 8 }

  /** Index of the first free block from i on that holds n bytes, or |bs|. */
  function FirstFit(bs: seq<Block>, n: nat, i: nat): (k: nat)
    requires i <= |bs|
    ensures i <= k <= |bs|
    ensures k < |bs| ==> bs[k].free && bs[k].size >= n
    ensures forall j :: i <= j < k ==> !(bs[j].free && bs[j].size >= n)
    decreases |bs| - i
  {
    if i == |bs| || (bs[i].free && bs[i].size >= n) then i else FirstFit(bs, n, i + 1)
  }

  /** Turns free block k into a live one, splitting off what is left when a header
      and at least 8 bytes remain. */
  function Carve(bs: seq<Block>, k: nat, n: nat): seq<Block>
    requires k < |bs| && bs[k].size >= n
  {
    var b := bs[k];
    if b.size >= n + 17 + 8
    then seq(|bs| + 1, i requires 0 <= i <= |bs| =>
               if i < k then bs[i]
               else if i == k then Block(b.addr, n, false)
               else if i == k + 1 then Block(b.addr + 17 + n, b.size - n - 17, true)
               else bs[i - 1])
    else bs[k := b.(free := false)]
  }

  /** kmalloc on the block list: the new list and the payload address, 0 on failure. */
  function Malloc(bs: seq<Block>, request: u64): (seq<Block>, nat) {
    if request == 0 then (bs, 0)
    else
      var n := Round8(request);
      var k := FirstFit(bs, n, 0);
      if k == |bs| then (bs, 0) else (Carve(bs, k, n), bs[k].Payload())
  }

  /** Absorbs block i + 1 into block i. */
  function Merge(bs: seq<Block>, i: nat): (cs: seq<Block>)
    requires i + 1 < |bs|
    ensures |cs| == |bs| - 1
  {
    seq(|bs| - 1, j requires 0 <= j < |bs| - 1 =>
          if j < i then bs[j]
          else if j == i then bs[i].(size := bs[i].size + 17 + bs[i + 1].size)
          else bs[j + 1])
  }

  function Freed(bs: seq<Block>, k: nat): seq<Block>
    requires k < |bs|
  {
    bs[k := bs[k].(free := true)]
  }

  function JoinNext(bs: seq<Block>, k: nat): (cs: seq<Block>)
    requires k < |bs|
    ensures k < |cs|
  {
    if k + 1 < |bs| && bs[k + 1].free then Merge(bs, k) else bs
  }

  function JoinPrevious(bs: seq<Block>, k: nat): seq<Block>
    requires k < |bs|
  {
    if k > 0 && bs[k - 1].free then Merge(bs, k - 1) else bs
  }

  /** kfree of block k: release it, then coalesce with the next and the previous block. */
  function Free(bs: seq<Block>, k: nat): seq<Block>
    requires k < |bs|
  {
    JoinPrevious(JoinNext(Freed(bs, k), k), k)
  }

  // ---------------------------------------------------------------------
  // Address order.
  // ---------------------------------------------------------------------

  lemma {:induction false} Ordered(bs: seq<Block>, base: nat, end: nat, i: nat, j: nat)
    requires Tiles(bs, base, end) && i < j <= |bs|
    ensures bs[i].End() <= AddrOf(bs, j, end)
    decreases j
  {
    assert Abuts(bs, j - 1, end);
    if i + 1 < j { Ordered(bs, base, end, i, j - 1); }
  }

  lemma SameAddrSameIndex(bs: seq<Block>, base: nat, end: nat, i: nat, j: nat)
    requires Tiles(bs, base, end) && i < |bs| && j < |bs| && bs[i].addr == bs[j].addr
    ensures i == j
  {
    if i < j { Ordered(bs, base, end, i, j); }
    if j < i { Ordered(bs, base, end, j, i); }
  }

  /** Payloads of distinct blocks are disjoint, and disjoint from every header. */
  lemma BlocksDisjoint(bs: seq<Block>, base: nat, end: nat, i: nat, j: nat)
    requires Tiles(bs, base, end) && i < |bs| && j < |bs| && i != j
    ensures bs[i].End() <= bs[j].addr || bs[j].End() <= bs[i].addr
  {
    if i < j { Ordered(bs, base, end, i, j); } else { Ordered(bs, base, end, j, i); }
  }

  lemma WithinHeap(bs: seq<Block>, base: nat, end: nat, i: nat)
    requires Tiles(bs, base, end) && i < |bs|
    ensures base <= bs[i].addr && bs[i].End() <= end
  {
    if i > 0 { Ordered(bs, base, end, 0, i); }
    Ordered(bs, base, end, i, |bs|);
  }

  function TotalSize(bs: seq<Block>, n: nat): nat
    requires n <= |bs|
  {
    if n == 0 then 0 else TotalSize(bs, n - 1) + bs[n - 1].size + 17
  }

  /** Payload sizes plus one header per block add up to the whole heap. */
  lemma {:induction false} SizesAddUp(bs: seq<Block>, base: nat, end: nat, n: nat)
    requires Tiles(bs, base, end) && n <= |bs|
    ensures base + TotalSize(bs, n) == AddrOf(bs, n, end)
  {
    if n > 0 {
      SizesAddUp(bs, base, end, n - 1);
      assert Abuts(bs, n - 1, end);
    }
  }

  // ---------------------------------------------------------------------
  // The block list is determined by the live blocks.
  // ---------------------------------------------------------------------

  lemma {:induction false} CanonicalPrefix(bs: seq<Block>, cs: seq<Block>, base: nat, end: nat, n: nat)
    requires ValidHeap(bs, base, end) && ValidHeap(cs, base, end) && Live(bs) == Live(cs)
    requires n <= |bs|
    ensures n <= |cs| && AddrOf(bs, n, end) == AddrOf(cs, n, end)
    ensures forall i :: 0 <= i < n ==> bs[i] == cs[i]
  {
    if n > 0 {
      var k := n - 1;
      CanonicalPrefix(bs, cs, base, end, k);
      Ordered(bs, base, end, k, |bs|);
      assert k < |cs|;
      assert Abuts(bs, k, end) && Abuts(cs, k, end);
      if !bs[k].free {
        LiveAtSameIndex(bs, cs, base, end, k);
      } else if !cs[k].free {
        LiveAtSameIndex(cs, bs, base, end, k);
      } else {
        FreeNotShorter(bs, cs, base, end, k);
        FreeNotShorter(cs, bs, base, end, k);
      }
    }
  }

  lemma LiveAtSameIndex(bs: seq<Block>, cs: seq<Block>, base: nat, end: nat, k: nat)
    requires Tiles(cs, base, end) && Live(bs) <= Live(cs)
    requires k < |bs| && k < |cs| && bs[k].addr == cs[k].addr && !bs[k].free
    ensures bs[k] == cs[k]
  {
    assert bs[k] in Live(bs);
    var j :| 0 <= j < |cs| && cs[j] == bs[k];
    SameAddrSameIndex(cs, base, end, j, k);
  }

  lemma FreeNotShorter(bs: seq<Block>, cs: seq<Block>, base: nat, end: nat, k: nat)
    requires ValidHeap(bs, base, end) && Tiles(cs, base, end) && Live(bs) <= Live(cs)
    requires k < |bs| && k < |cs| && bs[k].addr == cs[k].addr && bs[k].free && cs[k].free
    ensures bs[k].size >= cs[k].size
  {
    if bs[k].size < cs[k].size {
      Ordered(cs, base, end, k, |cs|);
      assert Abuts(bs, k, end);
      assert k + 1 < |bs|;
      assert !FreePair(bs, k + 1);
      assert bs[k + 1] in Live(bs);
      var j :| 0 <= j < |cs| && cs[j] == bs[k + 1];
      if j < k { Ordered(cs, base, end, j, k); }
      if j > k { Ordered(cs, base, end, k, j); }
    }
  }

  /** Two heaps over the same memory with the same live blocks are the same heap. */
  lemma Canonical(bs: seq<Block>, cs: seq<Block>, base: nat, end: nat)
    requires ValidHeap(bs, base, end) && ValidHeap(cs, base, end) && Live(bs) == Live(cs)
    ensures bs == cs
  {
    CanonicalPrefix(bs, cs, base, end, |bs|);
    if |bs| < |cs| { Ordered(cs, base, end, |bs|, |cs|); }
  }

  // ---------------------------------------------------------------------
  // What the operations do to validity and to the live blocks.
  // ---------------------------------------------------------------------

  lemma CarveSplitAt(bs: seq<Block>, k: nat, n: nat, i: nat)
    requires k < |bs| && bs[k].size >= n + 17 + 8 && i < |bs| + 1
    ensures Carve(bs, k, n)[i] ==
            if i < k then bs[i]
            else if i == k then Block(bs[k].addr, n, false)
            else if i == k + 1 then Block(bs[k].addr + 17 + n, bs[k].size - n - 17, true)
            else bs[i - 1]
  {}

  /** The block that Carve hands out. */
  function Handed(b: Block, n: nat): Block {
    Block(b.addr, if b.size >= n + 17 + 8 then n else b.size, false)
  }

  lemma CarveTiles(bs: seq<Block>, base: nat, end: nat, k: nat, n: nat)
    requires ValidHeap(bs, base, end) && k < |bs| && bs[k].free && bs[k].size >= n
    ensures ValidHeap(Carve(bs, k, n), base, end)
  {
    var cs := Carve(bs, k, n);
    if bs[k].size >= n + 17 + 8 {
      forall i: nat | i < |cs| ensures Abuts(cs, i, end) {
        CarveSplitAt(bs, k, n, i);
        if i + 1 < |cs| { CarveSplitAt(bs, k, n, i + 1); }
        assert Abuts(bs, if i <= k then i else i - 1, end);
      }
      forall i: nat | 0 < i < |cs| ensures !FreePair(cs, i) {
        CarveSplitAt(bs, k, n, i - 1);
        CarveSplitAt(bs, k, n, i);
        if 0 < i < k { assert !FreePair(bs, i); }
        if i > k + 1 { assert !FreePair(bs, i - 1); }
      }
      CarveSplitAt(bs, k, n, 0);
    } else {
      forall i: nat | i < |cs| ensures Abuts(cs, i, end) { assert Abuts(bs, i, end); }
      forall i: nat | 0 < i < |cs| ensures !FreePair(cs, i) { assert !FreePair(bs, i); }
    }
  }

  lemma CarveLive(bs: seq<Block>, k: nat, n: nat)
    requires k < |bs| && bs[k].free && bs[k].size >= n
    ensures Live(Carve(bs, k, n)) == Live(bs) + {Handed(bs[k], n)}
  {
    var cs := Carve(bs, k, n);
    var extra := |cs| - |bs|;
    assert cs[k] == Handed(bs[k], n);
    forall b | b in Live(bs) ensures b in Live(cs) {
      var i :| 0 <= i < |bs| && bs[i] == b;
      assert cs[if i < k then i else i + extra] == b;
    }
    forall b | b in Live(cs) ensures b == cs[k] || b in Live(bs) {
      var i :| 0 <= i < |cs| && cs[i] == b;
      assert i == k || bs[if i < k then i else i - extra] == b;
    }
  }

  lemma CarveValid(bs: seq<Block>, base: nat, end: nat, k: nat, n: nat)
    requires ValidHeap(bs, base, end) && k < |bs| && bs[k].free && bs[k].size >= n
    ensures ValidHeap(Carve(bs, k, n), base, end)
    ensures Live(Carve(bs, k, n)) == Live(bs) + {Handed(bs[k], n)}
    ensures Handed(bs[k], n) !in Live(bs)
  {
    CarveTiles(bs, base, end, k, n);
    CarveLive(bs, k, n);
    if Handed(bs[k], n) in bs {
      var j :| 0 <= j < |bs| && bs[j] == Handed(bs[k], n);
      SameAddrSameIndex(bs, base, end, j, k);
    }
  }

  lemma MergeAt(bs: seq<Block>, i: nat, j: nat)
    requires i + 1 < |bs| && j < |bs| - 1
    ensures |Merge(bs, i)| == |bs| - 1
    ensures Merge(bs, i)[j] ==
            if j < i then bs[j]
            else if j == i then bs[i].(size := bs[i].size + 17 + bs[i + 1].size)
            else bs[j + 1]
  {}

  /** Merging two free blocks keeps the tiling and the live blocks. */
  lemma MergeTiles(bs: seq<Block>, base: nat, end: nat, i: nat)
    requires Tiles(bs, base, end) && i + 1 < |bs| && bs[i].free && bs[i + 1].free
    ensures Tiles(Merge(bs, i), base, end) && Live(Merge(bs, i)) == Live(bs)
  {
    var cs := Merge(bs, i);
    assert Abuts(bs, i, end);
    forall j: nat | j < |cs| ensures Abuts(cs, j, end) {
      MergeAt(bs, i, j);
      if j + 1 < |cs| { MergeAt(bs, i, j + 1); }
      assert Abuts(bs, if j < i then j else j + 1, end);
    }
    MergeAt(bs, i, 0);
    MergeLive(bs, i);
  }

  lemma MergeLive(bs: seq<Block>, i: nat)
    requires i + 1 < |bs| && bs[i].free && bs[i + 1].free
    ensures Live(Merge(bs, i)) == Live(bs)
  {
    var cs := Merge(bs, i);
    forall b | b in Live(bs) ensures b in Live(cs) {
      var j :| 0 <= j < |bs| && bs[j] == b;
      MergeAt(bs, i, if j < i then j else j - 1);
      assert cs[if j < i then j else j - 1] == b;
    }
    forall b | b in Live(cs) ensures b in Live(bs) {
      var j :| 0 <= j < |cs| && cs[j] == b;
      MergeAt(bs, i, j);
      assert bs[if j < i then j else j + 1] == b;
    }
  }

  lemma FreedTiles(bs: seq<Block>, base: nat, end: nat, k: nat)
    requires Tiles(bs, base, end) && k < |bs| && !bs[k].free
    ensures Tiles(Freed(bs, k), base, end) && Live(Freed(bs, k)) == Live(bs) - {bs[k]}
  {
    var freed := Freed(bs, k);
    forall i: nat | i < |freed| ensures Abuts(freed, i, end) { assert Abuts(bs, i, end); }
    forall b ensures b in Live(freed) <==> b in Live(bs) - {bs[k]} {
      if b in Live(bs) && b != bs[k] {
        var j :| 0 <= j < |bs| && bs[j] == b;
        assert freed[j] == b;
      }
      if b in Live(freed) {
        var j :| 0 <= j < |freed| && freed[j] == b;
        assert j != k && bs[j] == b;
        if bs[j] == bs[k] { SameAddrSameIndex(bs, base, end, j, k); }
      }
    }
  }

  lemma FreeValid(bs: seq<Block>, base: nat, end: nat, k: nat)
    requires ValidHeap(bs, base, end) && k < |bs| && !bs[k].free
    ensures ValidHeap(Free(bs, k), base, end)
    ensures Live(Free(bs, k)) == Live(bs) - {bs[k]}
  {
    var freed := Freed(bs, k);
    FreedTiles(bs, base, end, k);
    var joined := JoinNext(freed, k);
    if k + 1 < |bs| && bs[k + 1].free { MergeTiles(freed, base, end, k); }
    if k > 0 && bs[k - 1].free { MergeTiles(joined, base, end, k - 1); }
    FreeNoFreeNeighbours(bs, k);
  }

  /** The only neighbours that may both be free are (k - 1, k) and, if right, (k, k + 1). */
  ghost predicate PairsOnlyAt(bs: seq<Block>, k: nat, right: bool) {
    forall i :: 0 < i < |bs| && FreePair(bs, i) ==> i == k || (right && i == k + 1)
  }

  lemma FreedPairs(bs: seq<Block>, k: nat)
    requires NoFreeNeighbours(bs) && k < |bs|
    ensures PairsOnlyAt(Freed(bs, k), k, true)
  {
    forall i: nat | 0 < i < |bs| && FreePair(Freed(bs, k), i) ensures i == k || i == k + 1 {
      assert !FreePair(bs, i);
    }
  }

  lemma JoinNextPairs(bs: seq<Block>, k: nat)
    requires k < |bs| && bs[k].free && PairsOnlyAt(bs, k, true)
    ensures JoinNext(bs, k)[k].free && PairsOnlyAt(JoinNext(bs, k), k, false)
  {
    var cs := JoinNext(bs, k);
    forall i: nat | 0 < i < |cs| && i != k ensures !FreePair(cs, i) {
      if |cs| == |bs| {
        assert !FreePair(bs, i);
      } else {
        MergeAt(bs, k, i - 1);
        MergeAt(bs, k, i);
        assert !FreePair(bs, if i < k then i else i + 1);
      }
    }
  }

  lemma JoinPreviousPairs(bs: seq<Block>, k: nat)
    requires k < |bs| && bs[k].free && PairsOnlyAt(bs, k, false)
    ensures NoFreeNeighbours(JoinPrevious(bs, k))
  {
    var cs := JoinPrevious(bs, k);
    forall i: nat | 0 < i < |cs| ensures !FreePair(cs, i) {
      if |cs| < |bs| {
        MergeAt(bs, k - 1, i - 1);
        MergeAt(bs, k - 1, i);
        assert !FreePair(bs, if i < k then i else i + 1);
      } else {
        assert !FreePair(bs, i);
      }
    }
  }

  lemma FreeNoFreeNeighbours(bs: seq<Block>, k: nat)
    requires NoFreeNeighbours(bs) && k < |bs|
    ensures NoFreeNeighbours(Free(bs, k))
  {
    FreedPairs(bs, k);
    JoinNextPairs(Freed(bs, k), k);
    JoinPreviousPairs(JoinNext(Freed(bs, k), k), k);
  }

  // ---------------------------------------------------------------------
  // Main results.
  // ---------------------------------------------------------------------

  /** kmalloc keeps the heap valid, adds exactly one live block, which is new and large
      enough, and fails precisely when no free block holds the rounded size. */
  lemma MallocSpec(bs: seq<Block>, base: nat, end: nat, request: u64)
    requires ValidHeap(bs, base, end) && request > 0
    ensures var (cs, p) := Malloc(bs, request);
            var n := Round8(request);
            ValidHeap(cs, base, end) &&
            (p == 0 <==> forall b :: b in bs && b.free ==> b.size < n) &&
            (p == 0 ==> cs == bs) &&
            (p != 0 ==> exists b :: b !in Live(bs) && b.Payload() == p && !b.free && b.size >= n &&
                                    Live(cs) == Live(bs) + {b})
  {
    var n := Round8(request);
    var k := FirstFit(bs, n, 0);
    if k < |bs| {
      CarveValid(bs, base, end, k, n);
      assert bs[k] in bs;
      assert Handed(bs[k], n).Payload() == bs[k].Payload();
    }
  }

  /** Rounding gives the least multiple of 8 that is large enough, as long as that fits into 64
      bits; above it gives 0. */
  lemma RoundedUp(n: u64)
    ensures n <= 0xFFFF_FFFF_FFFF_FFF8 ==> Round8(n) % 8 == 0 && n <= Round8(n)
    ensures n <= 0xFFFF_FFFF_FFFF_FFF8 ==> forall m: nat :: m % 8 == 0 && n <= m ==> Round8(n) <= m
    ensures n > 0xFFFF_FFFF_FFFF_FFF8 ==> Round8(n) == 0
  {
    if n <= 0xFFFF_FFFF_FFFF_FFF8 {
      WrapSmall(n + 7);
    } else {
      assert n + 7 == 0x1_0000_0000_0000_0000 + (n - 0xFFFF_FFFF_FFFF_FFF9);
    }
  }

  /** Free block k, the first that holds request bytes in whole units of 8, was handed out; when
      25 bytes or more were left over, the rest became a free block. */
  ghost predicate TakenAt(bs: seq<Block>, cs: seq<Block>, p: nat, k: nat, request: nat) {
    k < |bs| && bs[k].free && request <= bs[k].size / 8 * 8 && p == bs[k].addr + 17 &&
    (forall j: nat :: j < k && bs[j].free ==> bs[j].size / 8 * 8 < request) &&
    Live(cs) == Live(bs) + {Block(bs[k].addr, Granted(bs[k].size, request), false)}
  }

  /** The size of the block handed out. */
  function Granted(size: nat, request: nat): nat {
    if size >= request + (8 - request % 8) % 8 + 25 then request + (8 - request % 8) % 8 else size
  }

  /** kmalloc in terms of the request: it fails exactly when no free block holds it in whole
      units of 8, and otherwise takes the first that does. A request whose rounding wraps around
      fails exactly when no block is free. */
  lemma MallocOutcome(bs: seq<Block>, base: nat, end: nat, request: u64)
    requires ValidHeap(bs, base, end) && request > 0
    ensures var (cs, p) := Malloc(bs, request);
            if request <= 0xFFFF_FFFF_FFFF_FFF8 then
              if p == 0 then cs == bs && forall b :: b in bs && b.free ==> b.size / 8 * 8 < request
              else exists k: nat :: TakenAt(bs, cs, p, k, request)
            else p == 0 <==> forall b :: b in bs ==> !b.free
  {
    RoundedUp(request);
    FirstFitTaken(bs, base, end, request, Round8(request), FirstFit(bs, Round8(request), 0));
  }

  /** n is the request rounded up, or 0 after a wrap-around. */
  lemma FirstFitTaken(bs: seq<Block>, base: nat, end: nat, request: u64, n: nat, k: nat)
    requires ValidHeap(bs, base, end) && k == FirstFit(bs, n, 0)
    requires if request > 0xFFFF_FFFF_FFFF_FFF8 then n == 0
             else n % 8 == 0 && request <= n && forall m: nat :: m % 8 == 0 && request <= m ==> n <= m
    ensures request <= 0xFFFF_FFFF_FFFF_FFF8 && k == |bs| ==> forall b :: b in bs && b.free ==> b.size / 8 * 8 < request
    ensures request <= 0xFFFF_FFFF_FFFF_FFF8 && k < |bs| ==> TakenAt(bs, Carve(bs, k, n), bs[k].Payload(), k, request)
    ensures request > 0xFFFF_FFFF_FFFF_FFF8 ==> (k == |bs| <==> forall b :: b in bs ==> !b.free)
  {
    if request <= 0xFFFF_FFFF_FFFF_FFF8 {
      forall j: nat | j < |bs| ensures bs[j].size >= n <==> bs[j].size / 8 * 8 >= request {
        HoldsRounded(bs[j].size, request, n);
      }
      if k < |bs| {
        HoldsRounded(bs[k].size, request, n);
        CarveValid(bs, base, end, k, n);
      }
    } else if k < |bs| {
      assert bs[k] in bs;
    }
  }

  lemma HoldsRounded(size: nat, request: u64, n: nat)
    requires n % 8 == 0 && request <= n && forall m: nat :: m % 8 == 0 && request <= m ==> n <= m
    ensures size >= n <==> size / 8 * 8 >= request
    ensures n == request + (8 - request % 8) % 8
  {
    NextMultiple(request, request + (8 - request % 8) % 8);
    InOneUnit(request, n, request + (8 - request % 8) % 8);
    WholeUnits(size, request, n / 8, n);
  }

  lemma NextMultiple(request: nat, u: nat)
    requires u == request + (8 - request % 8) % 8
    ensures u % 8 == 0 && request <= u < request + 8
  {}

  lemma InOneUnit(request: nat, n: nat, u: nat)
    requires n % 8 == 0 && u % 8 == 0 && request <= n <= u < request + 8
    ensures n == u
  {}

  lemma WholeUnits(size: nat, request: nat, k: nat, n: nat)
    requires n == 8 * k && request <= n < request + 8
    ensures size >= n <==> size / 8 * 8 >= request
  {}

  /** The index of the block with the given payload address, or |bs|. */
  function IndexOf(bs: seq<Block>, p: nat, i: nat): (k: nat)
    requires i <= |bs|
    ensures i <= k <= |bs|
    ensures k < |bs| ==> bs[k].Payload() == p
    ensures forall j :: i <= j < k ==> bs[j].Payload() != p
    decreases |bs| - i
  {
    if i == |bs| || bs[i].Payload() == p then i else IndexOf(bs, p, i + 1)
  }

  /** kfree undoes kmalloc: the exact block list comes back. */
  lemma FreeUndoesMalloc(bs: seq<Block>, base: nat, end: nat, request: u64)
    requires ValidHeap(bs, base, end)
    ensures var (cs, p) := Malloc(bs, request);
            p != 0 ==> IndexOf(cs, p, 0) < |cs| && Free(cs, IndexOf(cs, p, 0)) == bs
  {
    var (cs, p) := Malloc(bs, request);
    if p != 0 {
      var n := Round8(request);
      var k := FirstFit(bs, n, 0);
      CarveValid(bs, base, end, k, n);
      assert cs[k] == Handed(bs[k], n);
      var j := IndexOf(cs, p, 0);
      assert j <= k;
      SameAddrSameIndex(cs, base, end, j, k);
      FreeValid(cs, base, end, k);
      Canonical(Free(cs, k), bs, base, end);
    }
  }

  /** With no live block left, the heap is the single block it started as. */
  lemma Drained(bs: seq<Block>, base: nat, end: nat)
    requires ValidHeap(bs, base, end) && Live(bs) == {}
    ensures |bs| == 1 && bs[0].addr == base && bs[0].End() == end && bs[0].free
  {
    WithinHeap(bs, base, end, 0);
    Canonical(bs, [Block(base, end - base - 17, true)], base, end);
  }

  /** A request is honoured with a block at least as large precisely when rounding it
      up does not overflow: a larger request yields a block of a few bytes. */
  lemma RequestHonoured(bs: seq<Block>, base: nat, end: nat, request: u64)
    requires ValidHeap(bs, base, end) && end <= 0xFFFF_FFFF_FFFF_FFF8 && request > 0
    requires FirstFit(bs, Round8(request), 0) < |bs|
    ensures var k := FirstFit(bs, Round8(request), 0);
            Handed(bs[k], Round8(request)).size >= request <==> request <= 0xFFFF_FFFF_FFFF_FFF8
  {
    var k := FirstFit(bs, Round8(request), 0);
    WithinHeap(bs, base, end, k);
  }

  /** The block that kmalloc(request) would hand out, if any, holds size bytes. */
  predicate RoomFor(bs: seq<Block>, size: nat, request: u64) {
    var k := FirstFit(bs, Round8(request), 0);
    k < |bs| ==> size <= Handed(bs[k], Round8(request)).size
  }

  /** Resizing the block at p either keeps it in place or moves it into a block that holds it. */
  predicate CanResize(bs: seq<Block>, p: nat, request: u64) {
    var k := IndexOf(bs, p, 0);
    k < |bs| && bs[k].size < request ==> RoomFor(bs, bs[k].size, request)
  }

  /** krealloc can copy a block of the given size unless rounding the request overflows. Then
      the first free block is taken and cut to at most 24 bytes, and the copy stays inside it
      exactly when the old block is no larger. */
  lemma MoveFits(bs: seq<Block>, size: nat, request: u64)
    requires size < request
    ensures request <= 0xFFFF_FFFF_FFFF_FFF8 ==> RoomFor(bs, size, request)
    ensures request > 0xFFFF_FFFF_FFFF_FFF8 && FirstFit(bs, 0, 0) < |bs| ==>
            var b := Handed(bs[FirstFit(bs, 0, 0)], 0);
            b.size <= 24 && (RoomFor(bs, size, request) <==> size <= b.size) &&
            (RoomFor(bs, size, request) <==> b.Payload() + size <= b.End())
  {}

  // ---------------------------------------------------------------------
  // Whole runs.
  // ---------------------------------------------------------------------

  ghost predicate IsLive(bs: seq<Block>, p: nat) {
    exists b :: b in Live(bs) && b.Payload() == p
  }

  lemma LiveIndex(bs: seq<Block>, base: nat, end: nat, p: nat)
    requires Tiles(bs, base, end) && IsLive(bs, p)
    ensures IndexOf(bs, p, 0) < |bs| && !bs[IndexOf(bs, p, 0)].free
    ensures bs[IndexOf(bs, p, 0)] in Live(bs)
  {
    var b :| b in Live(bs) && b.Payload() == p;
    var j :| 0 <= j < |bs| && bs[j] == b;
    var k := IndexOf(bs, p, 0);
    assert k <= j;
    SameAddrSameIndex(bs, base, end, k, j);
  }

  /** krealloc on the block list: the new list and the payload address. */
  function Realloc(bs: seq<Block>, p: nat, request: u64): (seq<Block>, nat)
    requires p != 0 ==> IndexOf(bs, p, 0) < |bs|
  {
    if p == 0 then Malloc(bs, request)
    else if request == 0 then (Free(bs, IndexOf(bs, p, 0)), 0)
    else if bs[IndexOf(bs, p, 0)].size >= request then (bs, p)
    else
      var (cs, q) := Malloc(bs, request);
      if q == 0 || IndexOf(cs, p, 0) == |cs| then (bs, 0) else (Free(cs, IndexOf(cs, p, 0)), q)
  }

  lemma LiveIndexOf(bs: seq<Block>, base: nat, end: nat, b: Block)
    requires Tiles(bs, base, end) && b in Live(bs)
    ensures IndexOf(bs, b.Payload(), 0) < |bs| && bs[IndexOf(bs, b.Payload(), 0)] == b && !b.free
  {
    LiveIndex(bs, base, end, b.Payload());
    var i :| 0 <= i < |bs| && bs[i] == b;
    SameAddrSameIndex(bs, base, end, i, IndexOf(bs, b.Payload(), 0));
  }

  /** Live block b was replaced by the larger one that now stands at q. */
  ghost predicate Replaced(bs: seq<Block>, cs: seq<Block>, b: Block, q: nat, request: nat, b': Block) {
    b' !in Live(bs) && !b'.free && b'.Payload() == q && b'.size >= request && Live(cs) == Live(bs) - {b} + {b'}
  }

  /** krealloc of live block b: a request of 0 frees it; a request that fits leaves everything as
      it is; otherwise a new block that holds the request takes its place, or, when no free
      block does, null is returned and everything stays. A null pointer means kmalloc. */
  lemma ReallocOutcome(bs: seq<Block>, base: nat, end: nat, b: Block, request: u64)
    requires ValidHeap(bs, base, end) && b in Live(bs) && request <= 0xFFFF_FFFF_FFFF_FFF8
    ensures Realloc(bs, 0, request) == Malloc(bs, request)
    ensures IndexOf(bs, b.Payload(), 0) < |bs|
    ensures var (cs, q) := Realloc(bs, b.Payload(), request);
            if request == 0 then q == 0 && Live(cs) == Live(bs) - {b}
            else if b.size >= request then q == b.Payload() && cs == bs
            else if q == 0 then cs == bs && forall f :: f in bs && f.free ==> f.size / 8 * 8 < request
            else exists b' :: Replaced(bs, cs, b, q, request, b')
  {
    LiveIndexOf(bs, base, end, b);
    var k := IndexOf(bs, b.Payload(), 0);
    if request == 0 {
      FreeValid(bs, base, end, k);
    } else if b.size < request {
      var (cs, q) := Malloc(bs, request);
      GrowOutcome(bs, base, end, b, request, cs, q);
    }
  }

  lemma GrowOutcome(bs: seq<Block>, base: nat, end: nat, b: Block, request: u64, cs: seq<Block>, q: nat)
    requires ValidHeap(bs, base, end) && b in Live(bs) && 0 < request <= 0xFFFF_FFFF_FFFF_FFF8
    requires (cs, q) == Malloc(bs, request)
    ensures IndexOf(cs, b.Payload(), 0) < |cs|
    ensures q == 0 ==> forall f :: f in bs && f.free ==> f.size / 8 * 8 < request
    ensures q != 0 ==> exists b' :: Replaced(bs, Free(cs, IndexOf(cs, b.Payload(), 0)), b, q, request, b')
  {
    MallocOutcome(bs, base, end, request);
    MallocValid(bs, base, end, request);
    LiveIndexOf(cs, base, end, b);
    if q != 0 { Moved(bs, base, end, b, request, cs, q, Free(cs, IndexOf(cs, b.Payload(), 0))); }
  }

  lemma Moved(bs: seq<Block>, base: nat, end: nat, b: Block, request: u64, cs: seq<Block>, q: nat, ds: seq<Block>)
    requires ValidHeap(bs, base, end) && ValidHeap(cs, base, end) && b in Live(bs) && Live(bs) <= Live(cs)
    requires exists j: nat :: TakenAt(bs, cs, q, j, request)
    requires IndexOf(cs, b.Payload(), 0) < |cs| && ds == Free(cs, IndexOf(cs, b.Payload(), 0))
    ensures exists b' :: Replaced(bs, ds, b, q, request, b')
  {
    var j: nat :| TakenAt(bs, cs, q, j, request);
    LiveIndexOf(cs, base, end, b);
    FreeValid(cs, base, end, IndexOf(cs, b.Payload(), 0));
    TakenIsNew(bs, base, end, cs, q, j, request);
    Swapped(bs, cs, ds, b, q, request, Block(bs[j].addr, Granted(bs[j].size, request), false));
  }

  lemma TakenIsNew(bs: seq<Block>, base: nat, end: nat, cs: seq<Block>, q: nat, j: nat, request: nat)
    requires Tiles(bs, base, end) && TakenAt(bs, cs, q, j, request)
    ensures Block(bs[j].addr, Granted(bs[j].size, request), false) !in Live(bs)
    ensures Granted(bs[j].size, request) >= request
  {
    var b := Block(bs[j].addr, Granted(bs[j].size, request), false);
    if b in bs {
      var i :| 0 <= i < |bs| && bs[i] == b;
      SameAddrSameIndex(bs, base, end, i, j);
    }
  }

  lemma Swapped(bs: seq<Block>, cs: seq<Block>, ds: seq<Block>, b: Block, q: nat, request: nat, b': Block)
    requires b in Live(bs) && b' !in Live(bs) && Live(cs) == Live(bs) + {b'} && Live(ds) == Live(cs) - {b}
    requires !b'.free && b'.Payload() == q && b'.size >= request
    ensures Replaced(bs, ds, b, q, request, b')
  {}

  datatype Op = Alloc(request: u64) | Release(p: nat) | Resize(p: nat, request: u64)

  /** One call; calls that pass a pointer that is not live, or whose copy would run over the
      new block, have no meaning and are skipped. */
  ghost function Step(bs: seq<Block>, op: Op): (cs: seq<Block>) {
    match op
    case Alloc(request) => Malloc(bs, request).0
    case Release(p) =>
      if IsLive(bs, p) && IndexOf(bs, p, 0) < |bs| then Free(bs, IndexOf(bs, p, 0)) else bs
    case Resize(p, request) =>
      if p == 0 || (IsLive(bs, p) && IndexOf(bs, p, 0) < |bs| && CanResize(bs, p, request))
      then Realloc(bs, p, request).0 else bs
  }

  ghost function Run(bs: seq<Block>, ops: seq<Op>, n: nat): seq<Block>
    requires n <= |ops|
  {
    if n == 0 then bs else Step(Run(bs, ops, n - 1), ops[n - 1])
  }

  lemma MallocValid(bs: seq<Block>, base: nat, end: nat, request: u64)
    requires ValidHeap(bs, base, end)
    ensures ValidHeap(Malloc(bs, request).0, base, end)
    ensures Live(bs) <= Live(Malloc(bs, request).0)
  {
    if request > 0 { MallocSpec(bs, base, end, request); }
  }

  lemma StepValid(bs: seq<Block>, base: nat, end: nat, op: Op)
    requires ValidHeap(bs, base, end)
    ensures ValidHeap(Step(bs, op), base, end)
  {
    match op
    case Alloc(request) => MallocValid(bs, base, end, request);
    case Release(p) =>
      if IsLive(bs, p) {
        LiveIndex(bs, base, end, p);
        FreeValid(bs, base, end, IndexOf(bs, p, 0));
      }
    case Resize(p, request) =>
      MallocValid(bs, base, end, request);
      if p != 0 && IsLive(bs, p) {
        var (cs, q) := Malloc(bs, request);
        LiveIndex(bs, base, end, p);
        LiveIndex(cs, base, end, p);
        FreeValid(bs, base, end, IndexOf(bs, p, 0));
        FreeValid(cs, base, end, IndexOf(cs, p, 0));
      }
  }

  /** Every heap reachable by any run of calls tiles its memory with no two free
      neighbours, and its sizes add up. */
  lemma {:induction false} RunValid(bs: seq<Block>, base: nat, end: nat, ops: seq<Op>, n: nat)
    requires ValidHeap(bs, base, end) && n <= |ops|
    ensures var cs := Run(bs, ops, n);
            ValidHeap(cs, base, end) && base + TotalSize(cs, |cs|) == end
  {
    if n > 0 {
      RunValid(bs, base, end, ops, n - 1);
      StepValid(Run(bs, ops, n - 1), base, end, ops[n - 1]);
    }
    SizesAddUp(Run(bs, ops, n), base, end, |Run(bs, ops, n)|);
  }

  /** However two runs went, and in whatever order blocks were freed, the same live
      blocks mean the same heap; with none left it is the initial single block. */
  lemma RunsConverge(bs: seq<Block>, base: nat, end: nat, ops: seq<Op>, ops': seq<Op>)
    requires ValidHeap(bs, base, end)
    requires Live(Run(bs, ops, |ops|)) == Live(Run(bs, ops', |ops'|))
    ensures Run(bs, ops, |ops|) == Run(bs, ops', |ops'|)
    ensures Live(Run(bs, ops, |ops|)) == {} ==>
            var cs := Run(bs, ops, |ops|);
            |cs| == 1 && cs[0].free && cs[0].addr == base && cs[0].End() == end
  {
    RunValid(bs, base, end, ops, |ops|);
    RunValid(bs, base, end, ops', |ops'|);
    Canonical(Run(bs, ops, |ops|), Run(bs, ops', |ops'|), base, end);
    if Live(Run(bs, ops, |ops|)) == {} { Drained(Run(bs, ops, |ops|), base, end); }
  }
}

/** The kernel heap in memory: kmalloc, kfree and krealloc on bytes (src/kernel/heap.cpp). */
module Heap {
  import opened Common
  import opened HeapBlocks
  import opened Pmm

  // ---------------------------------------------------------------------
  // Packed 17-byte headers: 8 bytes of size, 1 flag byte, 8 bytes of next.
  // ---------------------------------------------------------------------

  /** The header at b.addr describes block b and points to next. */
  ghost predicate HeaderIs(m: seq<byte>, b: Block, next: nat) {
    b.addr + 17 <= |m| && Load(m, b.addr, 8) == b.size &&
    (b.free <==> m[b.addr + 8] != 0) && Load(m, b.addr + 9, 8) == next
  }

  lemma HeaderAgree(m: seq<byte>, m': seq<byte>, b: Block, next: nat)
    requires HeaderIs(m, b, next) && Agree(m, m', b.addr, b.addr + 17)
    ensures HeaderIs(m', b, next)
  {
    LoadAgree(m, m', b.addr, 8);
    LoadAgree(m, m', b.addr + 9, 8);
  }

  ghost predicate HeaderAt(m: seq<byte>, bs: seq<Block>, i: nat)
    requires i < |bs|
  {
    HeaderIs(m, bs[i], AddrOf(bs, i + 1, 0))
  }

  /** The chain of headers in memory is the block list. */
  ghost predicate Encodes(m: seq<byte>, bs: seq<Block>) {
    forall i :: 0 <= i < |bs| ==> HeaderAt(m, bs, i)
  }

  /** The size bytes from q on are those that were at p. */
  ghost predicate SameBytes(m: seq<byte>, p: nat, m': seq<byte>, q: nat, size: nat) {
    p + size <= |m| && q + size <= |m'| && forall a :: q <= a < q + size ==> m'[a] == m[p + (a - q)]
  }

  /** Every byte inside a block that is live in bs is the same in both memories. */
  ghost predicate PayloadsKept(m: seq<byte>, m': seq<byte>, live: set<Block>) {
    forall b :: b in live ==> Agree(m, m', b.Payload(), b.End())
  }

  /** Writing the size and next fields of a header. */
  function WithSpan(m: seq<byte>, addr: nat, size: nat, next: nat): seq<byte>
    requires addr + 17 <= |m|
  {
    Store(Store(m, addr, size, 8), addr + 9, next, 8)
  }

  function WithFree(m: seq<byte>, addr: nat, free: bool): seq<byte>
    requires addr + 17 <= |m|
  {
    m[addr + 8 := if free then 1 else 0]
  }

  lemma WithSpanHeader(m: seq<byte>, addr: nat, size: nat, next: nat)
    requires addr + 17 <= |m| && size < 0x1_0000_0000_0000_0000 && next < 0x1_0000_0000_0000_0000
    ensures var m' := WithSpan(m, addr, size, next);
            OnlyIn(m, m', addr, addr + 17) &&
            HeaderIs(m', Block(addr, size, m[addr + 8] != 0), next)
  {
    Pow256Values();
    var m1 := Store(m, addr, size, 8);
    StoreLoad(m, addr, size, 8);
    StoreLoad(m1, addr + 9, next, 8);
    LoadAgree(m1, WithSpan(m, addr, size, next), addr, 8);
  }

  lemma WithFreeHeader(m: seq<byte>, b: Block, next: nat, free: bool)
    requires HeaderIs(m, b, next)
    ensures var m' := WithFree(m, b.addr, free);
            OnlyIn(m, m', b.addr, b.addr + 17) && HeaderIs(m', b.(free := free), next)
  {
    LoadAgree(m, WithFree(m, b.addr, free), b.addr, 8);
    LoadAgree(m, WithFree(m, b.addr, free), b.addr + 9, 8);
  }

  /** Memory after splitting the block at addr: a new free header behind n payload
      bytes, then the shortened header in front, then its flag. */
  function SplitWrites(m: seq<byte>, addr: nat, n: nat, size: nat, next: nat): seq<byte>
    requires n + 17 <= size && addr + 17 + size <= |m|
  {
    var rest := addr + 17 + n;
    WithFree(WithSpan(WithSpan(WithFree(m, rest, true), rest, size - n - 17, next), addr, n, rest), addr, false)
  }

  /** The new free header behind the split. */
  lemma SplitRest(m: seq<byte>, rest: nat, size: nat, next: nat, m': seq<byte>)
    requires rest + 17 <= |m| && size < 0x1_0000_0000_0000_0000 && next < 0x1_0000_0000_0000_0000
    requires m' == WithSpan(WithFree(m, rest, true), rest, size, next)
    ensures OnlyIn(m, m', rest, rest + 17) && HeaderIs(m', Block(rest, size, true), next)
  {
    WithSpanHeader(WithFree(m, rest, true), rest, size, next);
  }

  /** The shortened header in front of it. */
  lemma SplitFront(m: seq<byte>, addr: nat, n: nat, rest: nat, m': seq<byte>)
    requires addr + 17 <= |m| && n < 0x1_0000_0000_0000_0000 && rest < 0x1_0000_0000_0000_0000
    requires m' == WithFree(WithSpan(m, addr, n, rest), addr, false)
    ensures OnlyIn(m, m', addr, addr + 17) && HeaderIs(m', Block(addr, n, false), rest)
  {
    WithSpanHeader(m, addr, n, rest);
    WithFreeHeader(WithSpan(m, addr, n, rest), Block(addr, n, m[addr + 8] != 0), rest, false);
  }

  lemma SplitHeaders(m: seq<byte>, b: Block, next: nat, n: nat)
    requires HeaderIs(m, b, next) && n + 17 <= b.size && b.End() <= |m| < 0x1_0000_0000_0000_0000
    requires next < 0x1_0000_0000_0000_0000
    ensures var m' := SplitWrites(m, b.addr, n, b.size, next);
            var rest := b.addr + 17 + n;
            OnlyInside(m, m', b) &&
            HeaderIs(m', Block(b.addr, n, false), rest) &&
            HeaderIs(m', Block(rest, b.size - n - 17, true), next)
  {
    var rest := b.addr + 17 + n;
    var m2, m4 := WithSpan(WithFree(m, rest, true), rest, b.size - n - 17, next), SplitWrites(m, b.addr, n, b.size, next);
    SplitRest(m, rest, b.size - n - 17, next, m2);
    SplitFront(m2, b.addr, n, rest, m4);
    HeaderAgree(m2, m4, Block(rest, b.size - n - 17, true), next);
  }

  /** Only bytes of block b differ. */
  ghost predicate OnlyInside(m: seq<byte>, m': seq<byte>, b: Block) {
    OnlyIn(m, m', b.addr, b.End())
  }

  /** A write inside one block leaves the other headers and payloads alone. */
  lemma OthersKept(m: seq<byte>, m': seq<byte>, bs: seq<Block>, base: nat, end: nat, k: nat)
    requires Tiles(bs, base, end) && Encodes(m, bs) && k < |bs| && OnlyInside(m, m', bs[k])
    ensures forall i :: 0 <= i < |bs| && i != k ==> HeaderAt(m', bs, i)
    ensures PayloadsKept(m, m', Live(bs) - {bs[k]})
  {
    forall i: nat | i < |bs| && i != k ensures HeaderAt(m', bs, i) {
      assert HeaderAt(m, bs, i);
      BlocksDisjoint(bs, base, end, i, k);
      HeaderAgree(m, m', bs[i], AddrOf(bs, i + 1, 0));
    }
    forall b | b in Live(bs) - {bs[k]} ensures Agree(m, m', b.Payload(), b.End()) {
      var i :| 0 <= i < |bs| && bs[i] == b;
      BlocksDisjoint(bs, base, end, i, k);
    }
  }

  lemma KeptPart(m: seq<byte>, m': seq<byte>, live: set<Block>, part: set<Block>)
    requires PayloadsKept(m, m', live) && part <= live
    ensures PayloadsKept(m, m', part)
  {}

  lemma SamePayload(m: seq<byte>, m': seq<byte>, live: set<Block>, b: Block, n: nat)
    requires PayloadsKept(m, m', live) && b in live && b.End() <= |m| && n <= b.size
    ensures |m| == |m'| && m[b.Payload()..b.Payload() + n] == m'[b.Payload()..b.Payload() + n]
  {
    assert Agree(m, m', b.Payload(), b.End());
  }

  lemma KeptTrans(m: seq<byte>, m': seq<byte>, m'': seq<byte>, live: set<Block>)
    requires PayloadsKept(m, m', live) && PayloadsKept(m', m'', live) && |m| == |m'| == |m''|
    ensures PayloadsKept(m, m'', live)
  {
    forall b | b in live ensures Agree(m, m'', b.Payload(), b.End()) {
      assert Agree(m, m', b.Payload(), b.End()) && Agree(m', m'', b.Payload(), b.End());
    }
  }

  lemma CarveEncodes(m: seq<byte>, m': seq<byte>, bs: seq<Block>, base: nat, end: nat, k: nat, n: nat)
    requires Tiles(bs, base, end) && Encodes(m, bs) && k < |bs| && bs[k].size >= n
    requires OnlyInside(m, m', bs[k])
    requires var cs := Carve(bs, k, n);
             HeaderAt(m', cs, k) && (|cs| > |bs| ==> HeaderAt(m', cs, k + 1))
    ensures Encodes(m', Carve(bs, k, n))
  {
    var cs := Carve(bs, k, n);
    OthersKept(m, m', bs, base, end, k);
    forall i: nat | i < |cs| ensures HeaderAt(m', cs, i) {
      if bs[k].size >= n + 17 + 8 {
        CarveSplitAt(bs, k, n, i);
        if i + 1 < |cs| { CarveSplitAt(bs, k, n, i + 1); }
        if i < k { assert HeaderAt(m', bs, i); }
        if i > k + 1 { assert HeaderAt(m', bs, i - 1); }
      } else if i != k {
        assert HeaderAt(m', bs, i);
      }
    }
  }

  lemma MergeEncodes(m: seq<byte>, m': seq<byte>, bs: seq<Block>, base: nat, end: nat, i: nat)
    requires Tiles(bs, base, end) && Encodes(m, bs) && i + 1 < |bs| && OnlyInside(m, m', bs[i])
    requires HeaderIs(m', Merge(bs, i)[i], AddrOf(bs, i + 2, 0))
    ensures Encodes(m', Merge(bs, i))
  {
    var cs := Merge(bs, i);
    OthersKept(m, m', bs, base, end, i);
    forall j: nat | j < |cs| ensures HeaderAt(m', cs, j) {
      MergeAt(bs, i, j);
      if j + 1 < |cs| { MergeAt(bs, i, j + 1); }
      if j < i { assert HeaderAt(m', bs, j); }
      if j > i { assert HeaderAt(m', bs, j + 1); }
    }
  }

  /** Memory after handing out n bytes of the free block at addr. */
  function TakeWrites(m: seq<byte>, addr: nat, n: nat, size: nat, next: nat): seq<byte>
    requires n <= size && addr + 17 + size <= |m|
  {
    if size >= n + 17 + 8 then SplitWrites(m, addr, n, size, next) else WithFree(m, addr, false)
  }

  /** The header, or the two headers, that handing out writes. */
  lemma TakeHeaders(m: seq<byte>, bs: seq<Block>, base: nat, end: nat, k: nat, n: nat, m': seq<byte>)
    requires Tiles(bs, base, end) && Encodes(m, bs) && end <= |m| < 0x1_0000_0000_0000_0000
    requires k < |bs| && n <= bs[k].size && bs[k].End() <= |m|
    requires m' == TakeWrites(m, bs[k].addr, n, bs[k].size, AddrOf(bs, k + 1, 0))
    ensures OnlyInside(m, m', bs[k]) && HeaderAt(m', Carve(bs, k, n), k)
    ensures |Carve(bs, k, n)| > |bs| ==> HeaderAt(m', Carve(bs, k, n), k + 1)
  {
    var b, next := bs[k], AddrOf(bs, k + 1, 0);
    assert HeaderAt(m, bs, k);
    if k + 1 < |bs| { WithinHeap(bs, base, end, k + 1); }
    if b.size >= n + 17 + 8 {
      SplitHeaders(m, b, next, n);
      CarveSplitAt(bs, k, n, k);
      CarveSplitAt(bs, k, n, k + 1);
      if k + 1 < |bs| { CarveSplitAt(bs, k, n, k + 2); }
    } else {
      WithFreeHeader(m, b, next, false);
    }
  }

  lemma TakeEncodes(m: seq<byte>, bs: seq<Block>, base: nat, end: nat, k: nat, n: nat)
    requires ValidHeap(bs, base, end) && Encodes(m, bs) && end <= |m| < 0x1_0000_0000_0000_0000
    requires k < |bs| && bs[k].free && n <= bs[k].size && bs[k].End() <= |m|
    ensures var m' := TakeWrites(m, bs[k].addr, n, bs[k].size, AddrOf(bs, k + 1, 0));
            OnlyInside(m, m', bs[k]) && Encodes(m', Carve(bs, k, n)) && PayloadsKept(m, m', Live(bs))
  {
    var m' := TakeWrites(m, bs[k].addr, n, bs[k].size, AddrOf(bs, k + 1, 0));
    TakeHeaders(m, bs, base, end, k, n, m');
    assert Live(bs) - {bs[k]} == Live(bs);
    OthersKept(m, m', bs, base, end, k);
    CarveEncodes(m, m', bs, base, end, k, n);
  }

  lemma ReleaseEncodes(m: seq<byte>, bs: seq<Block>, base: nat, end: nat, k: nat)
    requires Tiles(bs, base, end) && Encodes(m, bs) && k < |bs| && bs[k].End() <= |m| && !bs[k].free
    ensures var m' := WithFree(m, bs[k].addr, true);
            OnlyInside(m, m', bs[k]) && Tiles(Freed(bs, k), base, end) && Encodes(m', Freed(bs, k)) &&
            PayloadsKept(m, m', Live(bs) - {bs[k]}) && Live(Freed(bs, k)) == Live(bs) - {bs[k]}
  {
    var m', cs := WithFree(m, bs[k].addr, true), Freed(bs, k);
    assert HeaderAt(m, bs, k);
    WithFreeHeader(m, bs[k], AddrOf(bs, k + 1, 0), true);
    OthersKept(m, m', bs, base, end, k);
    FreedTiles(bs, base, end, k);
    forall i: nat | i < |cs| ensures HeaderAt(m', cs, i) {
      if i != k { assert HeaderAt(m', bs, i); }
    }
  }

  /** Writes inside the payload of one live block keep the headers. */
  lemma PayloadWrite(m: seq<byte>, m': seq<byte>, bs: seq<Block>, base: nat, end: nat, k: nat)
    requires Tiles(bs, base, end) && Encodes(m, bs) && k < |bs|
    requires OnlyIn(m, m', bs[k].Payload(), bs[k].End())
    ensures Encodes(m', bs) && PayloadsKept(m, m', Live(bs) - {bs[k]})
  {
    OthersKept(m, m', bs, base, end, k);
    assert HeaderAt(m, bs, k);
    HeaderAgree(m, m', bs[k], AddrOf(bs, k + 1, 0));
    assert HeaderAt(m', bs, k);
  }

  /** After a successful kmalloc a block that was live still is, and the new one is another. */
  lemma NewBlock(bs: seq<Block>, base: nat, end: nat, request: u64, k: nat)
    requires ValidHeap(bs, base, end) && request > 0 && k < |bs| && !bs[k].free
    requires RoomFor(bs, bs[k].size, request) && Malloc(bs, request).1 != 0
    ensures var (cs, q) := Malloc(bs, request);
            var kOld, kNew := IndexOf(cs, bs[k].Payload(), 0), IndexOf(cs, q, 0);
            ValidHeap(cs, base, end) && kOld < |cs| && kNew < |cs| &&
            cs[kOld] == bs[k] && cs[kNew].size >= bs[k].size && cs[kNew] !in Live(bs) &&
            Live(cs) == Live(bs) + {cs[kNew]} && !cs[kNew].free
  {
    var (cs, q) := Malloc(bs, request);
    var n := Round8(request);
    var f := FirstFit(bs, n, 0);
    var b := Handed(bs[f], n);
    CarveValid(bs, base, end, f, n);
    assert bs[k] in Live(cs) && b in Live(cs) && b.Payload() == q;
    LiveIndexOf(cs, base, end, bs[k]);
    LiveIndexOf(cs, base, end, b);
  }

  lemma ReallocGrows(bs: seq<Block>, p: nat, request: u64)
    requires p != 0 && IndexOf(bs, p, 0) < |bs| && bs[IndexOf(bs, p, 0)].size < request
    requires IndexOf(Malloc(bs, request).0, p, 0) < |Malloc(bs, request).0|
    ensures var (cs, q) := Malloc(bs, request);
            Realloc(bs, p, request) == if q == 0 then (bs, 0) else (Free(cs, IndexOf(cs, p, 0)), q)
  {}

  lemma FreeLive(bs: seq<Block>, base: nat, end: nat, k: nat)
    requires ValidHeap(bs, base, end) && k < |bs| && !bs[k].free
    ensures Live(Free(bs, k)) == Live(bs) - {bs[k]}
  {
    FreeValid(bs, base, end, k);
  }

  /** Length in pages of the run the heap gets: the first of n, n / 2, ... down to 16
      for which a run of free pages exists; 0 when there is none. */
  ghost function HeapPages(pages: seq<bool>, n: nat): nat
    decreases n, pages
  {
    if n < 16 then 0
    else if FirstRun(pages, n, 1).Some? then n
    else HeapPages(pages, n / 2)
  }

  lemma SingleBlock(m: seq<byte>, b: Block)
    requires HeaderIs(m, b, 0)
    ensures Encodes(m, [b]) && ValidHeap([b], b.addr, b.End()) && Live([b]) == if b.free then {} else {b}
  {
    assert HeaderAt(m, [b], 0) && Abuts([b], 0, b.End());
  }

  class KernelHeap {
    var mem: array<byte>
    var heapStart: nat
    var heapSize: nat
    ghost var blocks: seq<Block>

    ghost function End(): nat
      reads this
    {
      heapStart + heapSize
    }

    ghost predicate Valid()
      reads this, mem
    {
      0 < heapStart && End() <= mem.Length && mem.Length < 0x1_0000_0000_0000_0000 &&
      ValidHeap(blocks, heapStart, End()) && Encodes(mem[..], blocks)
    }

    /** heap_init: take the largest of the page runs tried and make it one free block. */
    constructor (memory: array<byte>, pmm: PageAllocator)
      requires pmm.Valid() && PageAddr(pmm.totalPages) <= memory.Length < 0x1_0000_0000_0000_0000
      modifies memory, pmm.bitmap, pmm`usedPages
      ensures pmm.Valid() && mem == memory
      ensures var n := HeapPages(old(pmm.Pages()), 4096);
              if n == 0 then heapStart == 0 && pmm.Pages() == old(pmm.Pages()) && mem[..] == old(memory[..])
              else
                var run := FirstRun(old(pmm.Pages()), n, 1);
                run.Some? && run.value + n <= pmm.totalPages && Valid() &&
                mem[..heapStart] == old(memory[..])[..heapStart] && mem[End()..] == old(memory[..])[End()..] &&
                heapStart == PageAddr(run.value) && heapSize == PageAddr(n) &&
                blocks == [Block(heapStart, heapSize - 17, true)] &&
                pmm.Pages() == SetRange(old(pmm.Pages()), run.value, n)
    {
      var base, n := FindHeapRun(pmm);
      mem, heapStart, heapSize, blocks := memory, base, PageAddr(n), [];
      new;
      ghost var pages := pmm.Pages();
      if base != 0 { FirstBlock(); }
      assert pmm.Valid() && pmm.Pages() == pages;
    }

    static method FindHeapRun(pmm: PageAllocator) returns (base: nat, n: nat)
      requires pmm.Valid()
      modifies pmm.bitmap, pmm`usedPages
      ensures pmm.Valid()
      ensures base == 0 <==> HeapPages(old(pmm.Pages()), 4096) == 0
      ensures base == 0 ==> pmm.Pages() == old(pmm.Pages())
      ensures base != 0 ==>
              n == HeapPages(old(pmm.Pages()), 4096) && n >= 16 &&
              var run := FirstRun(old(pmm.Pages()), n, 1);
              run.Some? && base == PageAddr(run.value) && run.value + n <= pmm.totalPages &&
              pmm.Pages() == SetRange(old(pmm.Pages()), run.value, n)
    {
      n := 4096;
      base := pmm.AllocContiguous(n);
      if base == 0 {
        n := n / 2;
        while n >= 16
          invariant pmm.Valid() && pmm.Pages() == old(pmm.Pages())
          invariant HeapPages(old(pmm.Pages()), 4096) == HeapPages(old(pmm.Pages()), n)
        {
          base := pmm.AllocContiguous(n);
          if base != 0 { break; }
          n := n / 2;
        }
      }
    }

    method FirstBlock()
      requires 0 < heapStart && 17 <= heapSize && End() <= mem.Length < 0x1_0000_0000_0000_0000
      modifies mem, this`blocks
      ensures Valid() && blocks == [Block(heapStart, heapSize - 17, true)]
      ensures mem[..heapStart] == old(mem[..heapStart]) && mem[End()..] == old(mem[End()..])
    {
      ghost var b := Block(heapStart, heapSize - 17, mem[heapStart + 8] != 0);
      WithSpanHeader(mem[..], heapStart, heapSize - 17, 0);
      SetSpan(heapStart, heapSize - 17, 0);
      WithFreeHeader(mem[..], b, 0, true);
      SetFree(heapStart, true);
      blocks := [b.(free := true)];
      SingleBlock(mem[..], blocks[0]);
    }

    method SetFree(addr: nat, free: bool)
      requires addr + 17 <= mem.Length
      modifies mem
      ensures mem[..] == WithFree(old(mem[..]), addr, free)
    {
      mem[addr + 8] := if free then 1 else 0;
    }

    method SetSpan(addr: nat, size: nat, next: nat)
      requires addr + 17 <= mem.Length
      modifies mem
      ensures mem[..] == WithSpan(old(mem[..]), addr, size, next)
    {
      StoreWord(mem, addr, size, 8);
      StoreWord(mem, addr + 9, next, 8);
    }

    /** The block at addr swallows the block that follows it. */
    method Absorb(ghost bs: seq<Block>, ghost i: nat, addr: nat)
      requires 0 < heapStart && End() <= mem.Length < 0x1_0000_0000_0000_0000
      requires Tiles(bs, heapStart, End()) && Encodes(mem[..], bs)
      requires i + 1 < |bs| && addr == bs[i].addr && bs[i].free && bs[i + 1].free
      modifies mem
      ensures Tiles(Merge(bs, i), heapStart, End()) && Encodes(mem[..], Merge(bs, i))
      ensures OnlyIn(old(mem[..]), mem[..], heapStart, End())
      ensures Live(Merge(bs, i)) == Live(bs) && PayloadsKept(old(mem[..]), mem[..], Live(bs))
    {
      ghost var m := mem[..];
      assert HeaderAt(m, bs, i) && HeaderAt(m, bs, i + 1);
      WithinHeap(bs, heapStart, End(), i);
      WithinHeap(bs, heapStart, End(), i + 1);
      if i + 2 < |bs| { WithinHeap(bs, heapStart, End(), i + 2); }
      assert Abuts(bs, i, End());
      var after := Load(mem[..], addr + 9, 8);
      var size := Load(mem[..], addr, 8) + 17 + Load(mem[..], after, 8);
      var next := Load(mem[..], after + 9, 8);
      WithSpanHeader(m, addr, size, next);
      SetSpan(addr, size, next);
      MergeAt(bs, i, i);
      MergeTiles(bs, heapStart, End(), i);
      MergeEncodes(m, mem[..], bs, heapStart, End(), i);
      OthersKept(m, mem[..], bs, heapStart, End(), i);
      assert Live(bs) - {bs[i]} == Live(bs);
    }

    /** First fit with splitting: the new block list and the returned address are those of
        Malloc, and no byte outside the chosen free block changes. */
    method Kmalloc(request: u64) returns (p: nat)
      requires Valid()
      modifies mem, this`blocks
      ensures Valid() && (blocks, p) == Malloc(old(blocks), request)
      ensures PayloadsKept(old(mem[..]), mem[..], Live(old(blocks)))
      ensures OnlyIn(old(mem[..]), mem[..], heapStart, End())
    {
      if request == 0 { return 0; }
      var n := Round8(request);
      var cur := heapStart;
      ghost var k := 0;
      while cur != 0
        invariant Valid() && mem[..] == old(mem[..]) && blocks == old(blocks)
        invariant k <= |blocks| && cur == AddrOf(blocks, k, 0)
        invariant FirstFit(blocks, n, 0) == FirstFit(blocks, n, k)
        decreases |blocks| - k
      {
        WithinHeap(blocks, heapStart, End(), k);
        assert HeaderAt(mem[..], blocks, k);
        if mem[cur + 8] != 0 && Load(mem[..], cur, 8) >= n {
          TakeBlock(cur, n, k);
          p := cur + 17;
          return;
        }
        cur := Load(mem[..], cur + 9, 8);
        k := k + 1;
        if k < |blocks| { WithinHeap(blocks, heapStart, End(), k); }
      }
      if k < |blocks| { WithinHeap(blocks, heapStart, End(), k); }
      p := 0;
    }

    /** The body of the search loop once a fitting block is found. */
    method TakeBlock(cur: nat, n: nat, ghost k: nat)
      requires Valid() && k < |blocks| && cur == blocks[k].addr
      requires blocks[k].free && blocks[k].size >= n
      modifies mem, this`blocks
      ensures Valid() && blocks == Carve(old(blocks), k, n)
      ensures PayloadsKept(old(mem[..]), mem[..], Live(old(blocks)))
      ensures OnlyIn(old(mem[..]), mem[..], heapStart, End())
    {
      assert HeaderAt(mem[..], blocks, k);
      WithinHeap(blocks, heapStart, End(), k);
      TakeEncodes(mem[..], blocks, heapStart, End(), k, n);
      CarveValid(blocks, heapStart, End(), k, n);
      var size, next := Load(mem[..], cur, 8), Load(mem[..], cur + 9, 8);
      if size >= n + 17 + 8 {
        var rest := cur + 17 + n;
        SetFree(rest, true);
        SetSpan(rest, size - n - 17, next);
        SetSpan(cur, n, rest);
      }
      SetFree(cur, false);
      blocks := Carve(blocks, k, n);
    }

    /** Releases the block of a live payload and coalesces it with its free neighbours. */
    method Kfree(p: nat)
      requires Valid() && (p != 0 ==> IsLive(blocks, p))
      modifies mem, this`blocks
      ensures Valid()
      ensures p == 0 ==> blocks == old(blocks)
      ensures p != 0 ==> IndexOf(old(blocks), p, 0) < |old(blocks)| &&
                         blocks == Free(old(blocks), IndexOf(old(blocks), p, 0))
      ensures PayloadsKept(old(mem[..]), mem[..], Live(blocks))
      ensures OnlyIn(old(mem[..]), mem[..], heapStart, End())
    {
      if p == 0 { return; }
      ghost var m, bs := mem[..], blocks;
      ghost var k := IndexOf(bs, p, 0);
      LiveIndex(bs, heapStart, End(), p);
      FreeValid(bs, heapStart, End(), k);
      WithinHeap(bs, heapStart, End(), k);
      ReleaseEncodes(m, bs, heapStart, End(), k);
      var block := p - 17;
      SetFree(block, true);
      ghost var m1 := mem[..];
      JoinWithNext(Freed(bs, k), k, block);
      ghost var m2 := mem[..];
      JoinWithPrevious(JoinNext(Freed(bs, k), k), k, block);
      blocks := Free(bs, k);
      KeptTrans(m, m1, m2, Live(blocks));
      KeptTrans(m, m2, mem[..], Live(blocks));
    }

    method JoinWithNext(ghost bs: seq<Block>, ghost k: nat, block: nat)
      requires 0 < heapStart && End() <= mem.Length < 0x1_0000_0000_0000_0000
      requires Tiles(bs, heapStart, End()) && Encodes(mem[..], bs)
      requires k < |bs| && block == bs[k].addr && bs[k].free
      modifies mem
      ensures var cs := JoinNext(bs, k);
              Tiles(cs, heapStart, End()) && Encodes(mem[..], cs) && Live(cs) == Live(bs) &&
              cs[k].free && cs[k].addr == block
      ensures OnlyIn(old(mem[..]), mem[..], heapStart, End())
      ensures PayloadsKept(old(mem[..]), mem[..], Live(bs))
    {
      assert HeaderAt(mem[..], bs, k);
      WithinHeap(bs, heapStart, End(), k);
      if k + 1 < |bs| {
        assert HeaderAt(mem[..], bs, k + 1);
        WithinHeap(bs, heapStart, End(), k + 1);
        MergeAt(bs, k, k);
      }
      var next := Load(mem[..], block + 9, 8);
      if next != 0 && mem[next + 8] != 0 { Absorb(bs, k, block); }
    }

    /** Looks for the block in front of block k and lets it swallow block k if it is free. */
    method JoinWithPrevious(ghost bs: seq<Block>, ghost k: nat, block: nat)
      requires 0 < heapStart && End() <= mem.Length < 0x1_0000_0000_0000_0000
      requires Tiles(bs, heapStart, End()) && Encodes(mem[..], bs)
      requires k < |bs| && block == bs[k].addr && bs[k].free
      modifies mem
      ensures var cs := JoinPrevious(bs, k);
              Tiles(cs, heapStart, End()) && Encodes(mem[..], cs)
      ensures OnlyIn(old(mem[..]), mem[..], heapStart, End())
      ensures PayloadsKept(old(mem[..]), mem[..], Live(bs))
    {
      var cur := heapStart;
      ghost var i := 0;
      WithinHeap(bs, heapStart, End(), 0);
      assert HeaderAt(mem[..], bs, 0);
      while cur != 0 && Load(mem[..], cur + 9, 8) != block
        invariant mem[..] == old(mem[..])
        invariant i <= |bs| && cur == AddrOf(bs, i, 0)
        invariant cur != 0 ==> i < |bs| && cur + 17 <= mem.Length && HeaderAt(mem[..], bs, i)
        invariant i < |bs| ==> cur != 0
        invariant k == 0 || i < k
        decreases |bs| - i
      {
        i := i + 1;
        cur := Load(mem[..], cur + 9, 8);
        if i < |bs| {
          WithinHeap(bs, heapStart, End(), i);
          assert HeaderAt(mem[..], bs, i);
        }
      }
      if i < |bs| {
        WithinHeap(bs, heapStart, End(), k);
        if i + 1 < |bs| { SameAddrSameIndex(bs, heapStart, End(), i + 1, k); }
      }
      if cur != 0 && mem[cur + 8] != 0 { Absorb(bs, k - 1, cur); }
    }

    /** Keeps a block in place when it is large enough, otherwise moves it: the old payload
        bytes are all in the new payload, and no other live payload changes. A move needs a
        block that holds the old bytes; MoveFits tells when kmalloc hands out a smaller one. */
    method Krealloc(p: nat, request: u64) returns (q: nat)
      requires Valid() && (p != 0 ==> IsLive(blocks, p) && CanResize(blocks, p, request))
      modifies mem, this`blocks
      ensures Valid()
      ensures (p != 0 ==> IndexOf(old(blocks), p, 0) < |old(blocks)|) &&
              (blocks, q) == Realloc(old(blocks), p, request)
      ensures p != 0 && q != 0 ==>
              var size := old(blocks)[IndexOf(old(blocks), p, 0)].size;
              SameBytes(old(mem[..]), p, mem[..], q, size)
      ensures PayloadsKept(old(mem[..]), mem[..], Live(old(blocks)) * Live(blocks))
      ensures OnlyIn(old(mem[..]), mem[..], heapStart, End())
    {
      if p == 0 { q := Kmalloc(request); return; }
      LiveIndex(blocks, heapStart, End(), p);
      q := KreallocLive(p, request, IndexOf(blocks, p, 0));
    }

    /** krealloc of a live block. */
    method KreallocLive(p: nat, request: u64, ghost k: nat) returns (q: nat)
      requires Valid() && k < |blocks| && k == IndexOf(blocks, p, 0) && !blocks[k].free && p == blocks[k].Payload()
      requires p != 0 && IsLive(blocks, p) && (blocks[k].size < request ==> RoomFor(blocks, blocks[k].size, request))
      modifies mem, this`blocks
      ensures Valid() && (blocks, q) == Realloc(old(blocks), p, request)
      ensures q != 0 ==> SameBytes(old(mem[..]), p, mem[..], q, old(blocks)[k].size)
      ensures PayloadsKept(old(mem[..]), mem[..], Live(old(blocks)) * Live(blocks))
      ensures OnlyIn(old(mem[..]), mem[..], heapStart, End())
    {
      if request == 0 { Kfree(p); return 0; }
      q := Resize(p, request, k);
    }

    /** krealloc of a live block to a size other than 0. */
    method Resize(p: nat, request: u64, ghost k: nat) returns (q: nat)
      requires Valid() && k < |blocks| && k == IndexOf(blocks, p, 0) && !blocks[k].free && p == blocks[k].Payload()
      requires p != 0 && request > 0 && (blocks[k].size < request ==> RoomFor(blocks, blocks[k].size, request))
      modifies mem, this`blocks
      ensures Valid() && (blocks, q) == Realloc(old(blocks), p, request)
      ensures q != 0 ==> SameBytes(old(mem[..]), p, mem[..], q, old(blocks)[k].size)
      ensures PayloadsKept(old(mem[..]), mem[..], Live(old(blocks)) * Live(blocks))
      ensures OnlyIn(old(mem[..]), mem[..], heapStart, End())
    {
      WithinHeap(blocks, heapStart, End(), k);
      assert HeaderAt(mem[..], blocks, k);
      var size := Load(mem[..], p - 17, 8);
      if size >= request { return p; }
      q := Grow(p, size, request, k);
    }

    /** The part of krealloc that needs a larger block. */
    method Grow(p: nat, size: nat, request: u64, ghost k: nat) returns (q: nat)
      requires Valid() && k < |blocks| && !blocks[k].free && p == blocks[k].Payload()
      requires k == IndexOf(blocks, p, 0) && blocks[k].End() <= mem.Length
      requires size == blocks[k].size < request && RoomFor(blocks, size, request)
      modifies mem, this`blocks
      ensures Valid() && (blocks, q) == Realloc(old(blocks), p, request)
      ensures q != 0 ==> SameBytes(old(mem[..]), p, mem[..], q, size)
      ensures PayloadsKept(old(mem[..]), mem[..], Live(old(blocks)) * Live(blocks))
      ensures OnlyIn(old(mem[..]), mem[..], heapStart, End())
    {
      ghost var m, bs := mem[..], blocks;
      q := Kmalloc(request);
      if q == 0 { return; }
      NewBlock(bs, heapStart, End(), request, k);
      ReallocGrows(bs, p, request);
      KeptPart(m, mem[..], Live(bs), Live(bs) - {bs[k]});
      SamePayload(m, mem[..], Live(bs), bs[k], size);
      Move(p, q, size, m, Live(bs) - {bs[k]});
    }

    /** The second half of krealloc: copy the old payload, then release it. */
    method Move(p: nat, q: nat, size: nat, ghost m: seq<byte>, ghost kept: set<Block>)
      requires Valid() && IndexOf(blocks, p, 0) < |blocks| && IndexOf(blocks, q, 0) < |blocks|
      requires var old', new' := blocks[IndexOf(blocks, p, 0)], blocks[IndexOf(blocks, q, 0)];
               !old'.free && !new'.free && old' != new' && size == old'.size <= new'.size &&
               Live(blocks) == kept + {old', new'} && old' !in kept && new' !in kept
      requires |m| == mem.Length && PayloadsKept(m, mem[..], kept)
      modifies mem, this`blocks
      ensures Valid() && blocks == Free(old(blocks), IndexOf(old(blocks), p, 0))
      ensures SameBytes(old(mem[..]), p, mem[..], q, size)
      ensures PayloadsKept(m, mem[..], kept) && Live(blocks) == kept + {old(blocks[IndexOf(blocks, q, 0)])}
      ensures OnlyIn(old(mem[..]), mem[..], heapStart, End())
    {
      ghost var kOld, kNew, new' := IndexOf(blocks, p, 0), IndexOf(blocks, q, 0), blocks[IndexOf(blocks, q, 0)];
      ghost var m1, whole := mem[..], Live(blocks) - {new'};
      CopyPayload(q, p, size, kNew, kOld);
      KeptPart(m1, mem[..], whole, kept);
      KeptTrans(m, m1, mem[..], kept);
      assert blocks[kOld] in Live(blocks);
      WithinHeap(blocks, heapStart, End(), kNew);
      FreeLive(blocks, heapStart, End(), kOld);
      assert Live(blocks) - {blocks[kOld]} == kept + {new'};
      ReleaseKeeping(p, q, size, m, kept, new');
    }

    method ReleaseKeeping(p: nat, q: nat, size: nat, ghost m: seq<byte>, ghost kept: set<Block>, ghost b: Block)
      requires Valid() && p != 0 && IsLive(blocks, p) && IndexOf(blocks, p, 0) < |blocks|
      requires Live(Free(blocks, IndexOf(blocks, p, 0))) == kept + {b}
      requires q == b.Payload() && size <= b.size && b.End() <= mem.Length
      requires |m| == mem.Length && PayloadsKept(m, mem[..], kept)
      modifies mem, this`blocks
      ensures Valid() && blocks == Free(old(blocks), IndexOf(old(blocks), p, 0))
      ensures SameBytes(old(mem[..]), q, mem[..], q, size)
      ensures PayloadsKept(m, mem[..], kept)
      ensures OnlyIn(old(mem[..]), mem[..], heapStart, End())
    {
      ghost var m2 := mem[..];
      Kfree(p);
      KeptPart(m2, mem[..], Live(blocks), kept);
      KeptTrans(m, m2, mem[..], kept);
      SamePayload(m2, mem[..], Live(blocks), b, size);
    }

    /** The byte loop of krealloc, from one live payload into another. */
    method CopyPayload(dst: nat, src: nat, size: nat, ghost kDst: nat, ghost kSrc: nat)
      requires Valid() && kDst < |blocks| && kSrc < |blocks| && kDst != kSrc
      requires dst == blocks[kDst].Payload() && size <= blocks[kDst].size
      requires src == blocks[kSrc].Payload() && size <= blocks[kSrc].size
      modifies mem
      ensures Valid()
      ensures SameBytes(old(mem[..]), src, mem[..], dst, size)
      ensures PayloadsKept(old(mem[..]), mem[..], Live(blocks) - {blocks[kDst]})
      ensures OnlyIn(old(mem[..]), mem[..], heapStart, End())
    {
      ghost var m := mem[..];
      WithinHeap(blocks, heapStart, End(), kDst);
      WithinHeap(blocks, heapStart, End(), kSrc);
      BlocksDisjoint(blocks, heapStart, End(), kDst, kSrc);
      CopyBytes(dst, src, size);
      PayloadWrite(m, mem[..], blocks, heapStart, End(), kDst);
    }

    /** The copy loop, between ranges that do not overlap. */
    method CopyBytes(dst: nat, src: nat, size: nat)
      requires dst + size <= mem.Length && src + size <= mem.Length && (dst + size <= src || src + size <= dst)
      modifies mem
      ensures OnlyIn(old(mem[..]), mem[..], dst, dst + size)
      ensures SameBytes(old(mem[..]), src, mem[..], dst, size)
    {
      for i := 0 to size
        invariant forall a :: 0 <= a < mem.Length ==>
          mem[a] == if dst <= a < dst + i then old(mem[src + (a - dst)]) else old(mem[a])
      {
        mem[dst + i] := mem[src + i];
      }
    }
  }
}

/** Mapping, unmapping and looking up pages (src/kernel/paging.cpp). */
module Paging {
  import opened Common
  import opened PageTables
  import opened Pmm

  /** The tables themselves are unchanged. */
  ghost predicate SameTables(m: seq<u64>, m': seq<u64>, owner: map<nat, seq<nat>>) {
    forall p, i :: p in owner && 0 <= i < 512 ==> Entry(m, p, i) == Entry(m', p, i)
  }

  ghost predicate Cleared(m: seq<u64>, table: nat) {
    forall j :: 0 <= j < 512 ==> Entry(m, table, j) == 0
  }

  /** At most k more pages are used, and no used page became free. */
  ghost predicate TakesAtMost(k: nat, pages: seq<bool>, pages': seq<bool>) {
    |pages'| == |pages| && CountUsed(pages') <= CountUsed(pages) + k &&
    forall i :: 0 <= i < |pages| && pages[i] ==> pages'[i]
  }

  /** v lies behind a two-megabyte page, and the word the source takes for its entry. */
  predicate TwoMegabytes(m: seq<u64>, root: nat, v: u64) {
    !HugeAt(m, root, Indices(v), 1) && HugeAt(m, root, Indices(v), 2)
  }

  function DataWord(m: seq<u64>, root: nat, v: u64): nat
    requires TwoMegabytes(m, root, v)
  {
    512 * Frame(LargeAt(m, root, Indices(v), 2).value) + Indices(v)[3]
  }

  lemma SameTwoMegabytes(m: seq<u64>, m': seq<u64>, root: nat, v: u64)
    requires SameView(m, m', root)
    ensures TwoMegabytes(m', root, v) <==> TwoMegabytes(m, root, v)
    ensures TwoMegabytes(m, root, v) ==> DataWord(m', root, v) == DataWord(m, root, v)
    ensures Leaf(m', root, Indices(v)) == Leaf(m, root, Indices(v))
  {
    SameViewAt(m, m', root, v);
  }

  /** The word at the place found is what the walk of the source reads for v. */
  ghost predicate ReadAt(m: seq<u64>, root: nat, v: u64, pte: Option<nat>) {
    (pte.Some? ==> pte.value < |m|) &&
    SourceReads(m, root, v) ==
      if pte.Some? && Present(m[pte.value]) then Some(PteAddr(m[pte.value]) + v % 0x1000) else None
  }

  /** The same for the last two levels below pd, and for the first two. */
  ghost predicate ReadBelow(m: seq<u64>, pd: nat, v: u64, pte: Option<nat>) {
    (pte.Some? ==> pte.value < |m|) &&
    SourceBelow(m, pd, v) ==
      if pte.Some? && Present(m[pte.value]) then Some(PteAddr(m[pte.value]) + v % 0x1000) else None
  }

  ghost predicate ReadAbove(m: seq<u64>, root: nat, v: u64, pd: Option<nat>) {
    SourceReads(m, root, v) == match pd case None => None case Some(p) => SourceBelow(m, p, v)
  }

  lemma ReadThrough(m: seq<u64>, root: nat, v: u64, pd: Option<nat>, pte: Option<nat>)
    requires ReadAbove(m, root, v, pd) && if pd.Some? then ReadBelow(m, pd.value, v, pte) else pte.None?
    ensures ReadAt(m, root, v, pte)
  {}

  lemma MissingUpper(m: seq<u64>, root: nat, v: u64)
    ensures !Present(Entry(m, root, Indices(v)[0])) ==>
            !HugeOnPath(m, root, Indices(v)) && Walk(m, root, Indices(v), 2).None? && SourceReads(m, root, v).None?
    ensures Walk(m, root, Indices(v), 1).None? ==> !Present(Entry(m, root, Indices(v)[0]))
  {
    var idx := Indices(v);
    assert Walk(m, root, idx, 0) == Some(root);
    var w1 := Walk(m, root, idx, 1);
    var w2 := Walk(m, root, idx, 2);
  }

  /** at is the place of v's last-level entry, or lies outside the tables behind a large page. */
  ghost predicate PteAt(m: seq<u64>, root: nat, owner: map<nat, seq<nat>>, v: u64, at: nat) {
    at < |m| &&
    if HugeOnPath(m, root, Indices(v)) then at / 512 !in owner
    else Walk(m, root, Indices(v), 3).Some? && at == 512 * Walk(m, root, Indices(v), 3).value + Indices(v)[3]
  }

  lemma PteInMemory(m: seq<u64>, root: nat, owner: map<nat, seq<nat>>, v: u64, pt: nat, at: nat)
    requires Tree(m, root, owner) && at == 512 * pt + Indices(v)[3]
    requires if HugeOnPath(m, root, Indices(v)) then NoTable(m, owner, pt) else Walk(m, root, Indices(v), 3) == Some(pt)
    ensures PteAt(m, root, owner, v, at)
  {
    WalkOwned(m, root, owner, Indices(v), 3);
    if pt in owner { assert TableOk(m, owner, pt); }
    assert at / 512 == pt;
  }

  lemma LowerLarge(m: seq<u64>, root: nat, v: u64, pd: nat)
    requires TwoMegabytes(m, root, v) && Walk(m, root, Indices(v), 2) == Some(pd)
    ensures Present(Entry(m, pd, Indices(v)[2]))
    ensures DataWord(m, root, v) == 512 * Frame(Entry(m, pd, Indices(v)[2])) + Indices(v)[3]
  {}

  lemma LowerRead(m: seq<u64>, pd: nat, v: u64, pt: Option<nat>, at: nat)
    requires var e := Entry(m, pd, Indices(v)[2]); pt == if Present(e) then Some(Frame(e)) else None
    requires pt.Some? ==> at == 512 * pt.value + Indices(v)[3] < |m|
    ensures ReadBelow(m, pd, v, if pt.Some? then Some(at) else None)
  {}

  /** Storing at the place of the entry changes v's page alone, or nothing behind a large page. */
  lemma EntryStored(m: seq<u64>, root: nat, owner: map<nat, seq<nat>>, v: u64, at: nat, e: u64)
    requires Tree(m, root, owner) && PteAt(m, root, owner, v, at)
    ensures Tree(m[at := e], root, owner)
    ensures !HugeOnPath(m, root, Indices(v)) ==> OneLeaf(m, m[at := e], root, v, e)
    ensures HugeOnPath(m, root, Indices(v)) ==> SameLeaves(m, m[at := e], root)
  {
    if HugeOnPath(m, root, Indices(v)) {
      OutsideTree(m, m[at := e], root, owner);
    } else {
      WriteLeaf(m, root, owner, Indices(v), e, Walk(m, root, Indices(v), 3).value);
      forall w: u64 ensures Vpn(w) == Vpn(v) <==> Indices(w) == Indices(v) { SameIndices(v, w); }
    }
  }

  lemma ThenOneLeaf(m0: seq<u64>, m1: seq<u64>, m2: seq<u64>, root: nat, v: u64, e: u64)
    requires SameView(m0, m1, root)
    ensures OneLeaf(m1, m2, root, v, e) ==> OneLeaf(m0, m2, root, v, e)
    ensures SameLeaves(m1, m2, root) ==> SameLeaves(m0, m2, root)
    ensures HugeOnPath(m1, root, Indices(v)) == HugeOnPath(m0, root, Indices(v))
  {
    forall w: u64
      ensures Leaf(m1, root, Indices(w)) == Leaf(m0, root, Indices(w)) && SameLarge(m0, m1, root, Indices(w))
    {
      SameViewAt(m0, m1, root, w);
    }
  }

  lemma MissingTable(m: seq<u64>, root: nat, idx: seq<nat>, n: nat)
    requires ValidIndices(idx) && 1 <= n <= 3
    ensures Walk(m, root, idx, n).None? ==> Leaf(m, root, idx) == 0
  {
    if n == 1 { assert Walk(m, root, idx, 1).None? ==> Walk(m, root, idx, 2).None?; }
  }

  lemma IdentityEntry(w: u64, flags: u64)
    requires w < 0x1_0000_0000_0000 && Present(flags) && Frame(flags) == 0
    ensures var e := LeafEntry(Vpn(w) * 0x1000, flags);
            Present(e) && PteAddr(e) + w % 0x1000 == w
  {
    var phys := Vpn(w) * 0x1000;
    assert Vpn(w) == w / 0x1000;
    assert Frame(phys) == Vpn(w);
    assert BitOr(Frame(phys), 0) == Frame(phys);
  }

  /** Between the two memories only the page of v changed its entry, to e. */
  ghost predicate OneLeaf(m: seq<u64>, m': seq<u64>, root: nat, v: u64, e: u64) {
    forall w: u64 ::
      Leaf(m', root, Indices(w)) == (if Vpn(w) == Vpn(v) then e else Leaf(m, root, Indices(w))) &&
      SameLarge(m, m', root, Indices(w))
  }

  ghost predicate SameLeaves(m: seq<u64>, m': seq<u64>, root: nat) {
    forall w: u64 ::
      Leaf(m', root, Indices(w)) == Leaf(m, root, Indices(w)) &&
      SameLarge(m, m', root, Indices(w))
  }

  /** A changed entry is what the processor sees at v, and all it sees differently: every other
      address, large pages included, translates as before. */
  lemma OneLeafProcessor(m: seq<u64>, m': seq<u64>, root: nat, v: u64, e: u64, w: u64)
    requires OneLeaf(m, m', root, v, e) && !HugeOnPath(m, root, Indices(v))
    ensures Processor(m', root, w) ==
            if Vpn(w) != Vpn(v) then Processor(m, root, w)
            else if Present(e) then Some(PteAddr(e) + w % 0x1000) else None
  {
    if Vpn(w) == Vpn(v) {
      SameIndices(w, v);
      ProcessorIs(m', root, w);
    } else {
      SameProcessorAt(m, m', root, w);
    }
  }

  /** With the same entries and large pages the processor translates every address as before. */
  lemma SameLeavesProcessor(m: seq<u64>, m': seq<u64>, root: nat)
    requires SameLeaves(m, m', root)
    ensures forall w: u64 :: Processor(m', root, w) == Processor(m, root, w)
  {
    forall w: u64 ensures Processor(m', root, w) == Processor(m, root, w) { SameProcessorAt(m, m', root, w); }
  }

  /** No address of pages lo up to hi goes through a large page. */
  ghost predicate NoLargePages(m: seq<u64>, root: nat, lo: nat, hi: nat) {
    forall w: u64 :: lo <= Vpn(w) < hi ==> !HugeOnPath(m, root, Indices(w))
  }

  lemma PageInRange(m: seq<u64>, root: nat, lo: nat, hi: nat, page: nat)
    requires NoLargePages(m, root, lo, hi) && lo <= page < hi <= 0x10_0000_0000
    ensures !HugeOnPath(m, root, Indices(page * 0x1000))
  {
    assert Vpn(page * 0x1000) == page;
  }

  /** Pages lo up to hi map to themselves with the given flags. */
  ghost predicate Identity(m: seq<u64>, root: nat, lo: nat, hi: nat, flags: u64) {
    forall w: u64 :: lo <= Vpn(w) < hi ==>
      Leaf(m, root, Indices(w)) == LeafEntry(Vpn(w) * 0x1000, flags)
  }

  ghost predicate SameOutside(m: seq<u64>, m': seq<u64>, root: nat, lo: nat, hi: nat) {
    forall w: u64 ::
      (!(lo <= Vpn(w) < hi) ==> Leaf(m', root, Indices(w)) == Leaf(m, root, Indices(w))) &&
      SameLarge(m, m', root, Indices(w))
  }

  lemma IdentityStep(m0: seq<u64>, m: seq<u64>, m': seq<u64>, root: nat, lo: nat, page: nat, flags: u64, ok: bool)
    requires lo <= page < 0x10_0000_0000 && SameOutside(m0, m, root, lo, page)
    requires if ok then OneLeaf(m, m', root, page * 0x1000, LeafEntry(page * 0x1000, flags)) else SameLeaves(m, m', root)
    ensures SameOutside(m0, m', root, lo, page + 1)
    ensures ok && Identity(m, root, lo, page, flags) ==> Identity(m', root, lo, page + 1, flags)
  {
    assert Vpn(page * 0x1000) == page;
  }

  lemma IdentityTranslates(m: seq<u64>, root: nat, start: u64, size: u64, flags: u64, hi: nat)
    requires start + size + 0xFFF < 0x1_0000_0000_0000 && (start + size + 0xFFF) / 0x1000 <= hi
    requires Present(flags) && Frame(flags) == 0 && Identity(m, root, start / 0x1000, hi, flags)
    ensures forall w: u64 :: start <= w < start + size ==> Translation(m, root, w) == Some(w)
  {
    forall w: u64 | start <= w < start + size ensures Translation(m, root, w) == Some(w) {
      assert start / 0x1000 <= Vpn(w) < hi;
      IdentityEntry(w, flags);
    }
  }

  // ---------------------------------------------------------------------
  // The flat map.
  // ---------------------------------------------------------------------

  datatype Call = MapPage(v: u64, phys: u64, flags: u64) | UnmapPage(v: u64)

  /** The entry of page vpn in a flat map that held e before the first n calls; done
      tells which calls succeeded. */
  function FlatEntry(calls: seq<Call>, done: seq<bool>, n: nat, vpn: nat, e: u64): u64
    requires n <= |calls| && n <= |done|
  {
    if n == 0 then e
    else
      match calls[n - 1]
      case MapPage(v, phys, flags) =>
        if done[n - 1] && Vpn(v) == vpn then LeafEntry(phys, flags)
        else FlatEntry(calls, done, n - 1, vpn, e)
      case UnmapPage(v) =>
        if Vpn(v) == vpn then 0 else FlatEntry(calls, done, n - 1, vpn, e)
  }

  lemma {:induction false} FlatEntryPrefix(calls: seq<Call>, done: seq<bool>, more: seq<bool>, n: nat, vpn: nat, e: u64)
    requires n <= |calls| && n <= |done|
    ensures FlatEntry(calls, done + more, n, vpn, e) == FlatEntry(calls, done, n, vpn, e)
  {
    if n > 0 { FlatEntryPrefix(calls, done, more, n - 1, vpn, e); }
  }

  ghost predicate Replayed(m0: seq<u64>, m: seq<u64>, root: nat, calls: seq<Call>, done: seq<bool>, n: nat)
    requires n <= |calls| && n <= |done|
  {
    forall w: u64 ::
      Leaf(m, root, Indices(w)) == FlatEntry(calls, done, n, Vpn(w), Leaf(m0, root, Indices(w))) &&
      SameLarge(m0, m, root, Indices(w))
  }

  lemma ReplayStep(m0: seq<u64>, m: seq<u64>, m': seq<u64>, root: nat, calls: seq<Call>, done: seq<bool>, ok: bool, n: nat)
    requires n < |calls| && n == |done| && Replayed(m0, m, root, calls, done, n)
    requires match calls[n]
             case MapPage(v, phys, flags) =>
               if ok then OneLeaf(m, m', root, v, LeafEntry(phys, flags)) else SameLeaves(m, m', root)
             case UnmapPage(v) => OneLeaf(m, m', root, v, 0)
    ensures Replayed(m0, m', root, calls, done + [ok], n + 1)
  {
    forall w: u64
      ensures Leaf(m', root, Indices(w)) ==
              FlatEntry(calls, done + [ok], n + 1, Vpn(w), Leaf(m0, root, Indices(w))) &&
              SameLarge(m0, m', root, Indices(w))
    {
      FlatEntryPrefix(calls, done, [ok], n, Vpn(w), Leaf(m0, root, Indices(w)));
    }
  }

  lemma TakesOne(pages: seq<bool>, i: nat)
    requires i < |pages|
    ensures TakesAtMost(1, pages, pages[i := true])
  {
    CountUpdate(pages, i, true);
  }

  lemma StillExhausted(pages: seq<bool>, pages': seq<bool>)
    requires TakesAtMost(3, pages, pages') && Exhausted(pages)
    ensures Exhausted(pages')
  {}

  class AddressSpace {
    var mem: array<u64>         // physical memory in words, 512 to a page
    const pmm: PageAllocator
    const root: nat             // page of the current top-level table
    ghost var owner: map<nat, seq<nat>>

    ghost predicate Valid()
      reads this, mem, pmm, pmm.bitmap
    {
      pmm.Valid() && 512 * pmm.totalPages <= mem.Length && pmm.totalPages <= 0x100_0000_0000 &&
      Tree(mem[..], root, owner) &&
      forall p :: p in owner && p < pmm.totalPages ==> pmm.Pages()[p]
    }

    ghost function Leaves(idx: seq<nat>): u64
      requires |idx| == 4
      reads this, mem
    {
      Leaf(mem[..], root, idx)
    }

    /** What the tables translate v to. */
    ghost function Translate(v: u64): Option<nat>
      reads this, mem
    {
      Translation(mem[..], root, v)
    }

    ghost predicate Reachable(v: u64)
      reads this, mem
    {
      !HugeOnPath(mem[..], root, Indices(v))
    }

    /** Adopts the tables the boot code left, together with a proof that they form a tree. */
    constructor (memory: array<u64>, pages: PageAllocator, pml4: nat, ghost tables: map<nat, seq<nat>>)
      requires pages.Valid() && 512 * pages.totalPages <= memory.Length && pages.totalPages <= 0x100_0000_0000
      requires Tree(memory[..], pml4, tables)
      requires forall p :: p in tables && p < pages.totalPages ==> pages.Pages()[p]
      ensures Valid() && mem == memory && pmm == pages && root == pml4
    {
      mem, pmm, root, owner := memory, pages, pml4, tables;
    }

    method ClearTable(table: nat)
      requires 512 * table + 512 <= mem.Length
      modifies mem
      ensures forall k :: 0 <= k < mem.Length ==>
        mem[k] == (if 512 * table <= k < 512 * table + 512 then 0 else old(mem[k]))
    {
      for i := 0 to 512
        invariant forall k :: 0 <= k < mem.Length ==>
          mem[k] == (if 512 * table <= k < 512 * table + i then 0 else old(mem[k]))
      {
        mem[512 * table + i] := 0;
      }
    }

    method ClearNewTable(table: nat)
      requires Valid() && table !in owner && 512 * table + 512 <= mem.Length
      modifies mem
      ensures Valid() && SameView(old(mem[..]), mem[..], root)
      ensures SameTables(old(mem[..]), mem[..], owner) && Cleared(mem[..], table)
    {
      ghost var m := mem[..];
      ClearTable(table);
      assert SameTables(m, mem[..], owner);
      OutsideTree(m, mem[..], root, owner);
    }

    /** Allocates a page and clears it. */
    method AllocPageTable() returns (table: nat)
      requires Valid()
      modifies mem, pmm.bitmap, pmm`usedPages
      ensures Valid() && SameView(old(mem[..]), mem[..], root)
      ensures SameTables(old(mem[..]), mem[..], owner)
      ensures table == 0 ==> Exhausted(pmm.Pages())
      ensures table != 0 ==> table !in owner && 512 * table + 512 <= mem.Length &&
                             table < pmm.totalPages && pmm.Pages()[table] && Cleared(mem[..], table)
      ensures TakesAtMost(1, old(pmm.Pages()), pmm.Pages())
    {
      ghost var pages := pmm.Pages();
      OnePage(pages);
      var addr := pmm.AllocPage();
      table := PageOf(addr);
      if addr != 0 { TakesOne(pages, table); }
      if addr != 0 { ClearNewTable(table); }
    }

    /** The pages that the source takes for tables behind a large page are in memory and are
        not tables. Nothing is asked for addresses that are not behind a large page. */
    ghost predicate Walkable(v: u64)
      reads this, mem
    {
      var m, idx := mem[..], Indices(v);
      (HugeAt(m, root, idx, 1) ==>
         (var q := Frame(LargeAt(m, root, idx, 1).value);
          NoTable(m, owner, q) && (Present(Entry(m, q, idx[2])) ==> NoTable(m, owner, Frame(Entry(m, q, idx[2])))))) &&
      (HugeAt(m, root, idx, 2) ==> NoTable(m, owner, Frame(LargeAt(m, root, idx, 2).value)))
    }

    /** One level of the descent: the page behind entry i, created if asked for. The page at
        hand is the table that the first n indices lead to, or data of a large page. */
    method NextTable(table: nat, i: nat, create: bool, ghost idx: seq<nat>, ghost n: nat) returns (next: Option<nat>)
      requires Valid() && i < 512 && ValidIndices(idx) && n < 3 && i == idx[n]
      requires Walk(mem[..], root, idx, n) == Some(table) || NoTable(mem[..], owner, table)
      requires table !in owner && Present(Entry(mem[..], table, i)) ==>
                 NoTable(mem[..], owner, Frame(Entry(mem[..], table, i)))
      modifies mem, `owner, pmm.bitmap, pmm`usedPages
      ensures Valid() && SameView(old(mem[..]), mem[..], root) && TakesAtMost(1, old(pmm.Pages()), pmm.Pages())
      ensures var e := old(Entry(mem[..], table, i));
              if Present(e) then next == Some(Frame(e)) && mem[..] == old(mem[..]) && owner == old(owner) &&
                                 pmm.Pages() == old(pmm.Pages())
              else if !create then next.None? && mem[..] == old(mem[..]) && owner == old(owner) &&
                                   pmm.Pages() == old(pmm.Pages())
              else next.None? ==> Exhausted(pmm.Pages())
      ensures old(table in owner) && next.Some? && (n == 0 || !HugeAt(old(mem[..]), root, idx, n)) ==>
              Walk(mem[..], root, idx, n + 1) == next
      ensures old(table in owner) && next.None? && !create ==> Walk(mem[..], root, idx, n + 1).None?
      ensures old(table !in owner) && next.Some? ==> NoTable(mem[..], owner, next.value)
    {
      WalkOwned(mem[..], root, owner, idx, n);
      assert table in owner ==> TableOk(mem[..], owner, table);
      var e := mem[512 * table + i];
      if e % 2 == 1 { return Some(Frame(e)); }
      if !create { return None; }
      next := LinkNew(table, i, idx, n);
    }

    /** Allocates a table and links it at an entry that is not present. */
    method LinkNew(table: nat, i: nat, ghost idx: seq<nat>, ghost n: nat) returns (next: Option<nat>)
      requires Valid() && i < 512 && ValidIndices(idx) && n < 3 && i == idx[n] && !Present(Entry(mem[..], table, i))
      requires Walk(mem[..], root, idx, n) == Some(table) || NoTable(mem[..], owner, table)
      modifies mem, `owner, pmm.bitmap, pmm`usedPages
      ensures Valid() && SameView(old(mem[..]), mem[..], root) && TakesAtMost(1, old(pmm.Pages()), pmm.Pages())
      ensures next.None? ==> Exhausted(pmm.Pages())
      ensures old(table in owner) && next.Some? ==> Walk(mem[..], root, idx, n + 1) == next
      ensures old(table !in owner) && next.Some? ==> NoTable(mem[..], owner, next.value)
    {
      WalkOwned(mem[..], root, owner, idx, n);
      assert table in owner ==> TableOk(mem[..], owner, table);
      ghost var m := mem[..];
      var page := AllocPageTable();
      if page == 0 { return None; }
      ghost var m1 := mem[..];
      SameViewTrans(m, m1, m1, root);
      if table in owner {
        WalkSame(m, m1, root, owner, idx, n);
        LinkTable(m1, root, owner, table, i, page);
        WalkAdded(m1, root, owner, table, i, page, idx, n);
        EntryUpdate(m1, table, i, TableEntry(page), table, i);
        TableEntryBits(page, n);
      } else {
        StrayStore(m1, root, owner, table, i, TableEntry(page));
      }
      mem[512 * table + i] := TableEntry(page);
      assert mem[..] == m1[512 * table + i := TableEntry(page)];
      SameViewTrans(m, m1, mem[..], root);
      if table in owner { owner := owner[page := owner[table] + [i]]; }
      next := Some(page);
    }

    /** The first two levels of the descent: the page directory, or what the source takes for it. */
    method UpperTables(v: u64, create: bool) returns (pd: Option<nat>)
      requires Valid() && Walkable(v)
      modifies mem, `owner, pmm.bitmap, pmm`usedPages
      ensures Valid() && Walkable(v) && SameView(old(mem[..]), mem[..], root) && TakesAtMost(2, old(pmm.Pages()), pmm.Pages())
      ensures !create || old(!Reachable(v)) ==>
              mem[..] == old(mem[..]) && owner == old(owner) && pmm.Pages() == old(pmm.Pages())
      ensures old(!Reachable(v)) ==> pd.Some?
      ensures match pd
              case None => if create then Exhausted(pmm.Pages()) else Leaves(Indices(v)) == 0
              case Some(p) =>
                if HugeAt(mem[..], root, Indices(v), 1) then p == Frame(LargeAt(mem[..], root, Indices(v), 1).value)
                else Walk(mem[..], root, Indices(v), 2) == pd
      ensures !create ==> ReadAbove(mem[..], root, v, pd)
    {
      var idx := Indices(v);
      assert Walk(mem[..], root, idx, 0) == Some(root);
      var pdpt := NextTable(root, idx[0], create, idx, 0);
      if pdpt.None? {
        MissingUpper(old(mem[..]), root, v);
        MissingUpper(mem[..], root, v);
        MissingTable(mem[..], root, idx, 2);
        SameViewAt(old(mem[..]), mem[..], root, v);
        return None;
      }
      WalkOwned(mem[..], root, owner, idx, 1);
      pd := NextTable(pdpt.value, idx[1], create, idx, 1);
      MissingTable(mem[..], root, idx, 2);
      SameViewAt(old(mem[..]), mem[..], root, v);
    }

    /** The last two levels below pd: the position of the entry. */
    method LowerTables(v: u64, pd: nat, create: bool) returns (pte: Option<nat>)
      requires Valid() && Walkable(v)
      requires if HugeAt(mem[..], root, Indices(v), 1) then pd == Frame(LargeAt(mem[..], root, Indices(v), 1).value)
               else Walk(mem[..], root, Indices(v), 2) == Some(pd)
      modifies mem, `owner, pmm.bitmap, pmm`usedPages
      ensures Valid() && SameView(old(mem[..]), mem[..], root) && TakesAtMost(1, old(pmm.Pages()), pmm.Pages())
      ensures !create || TwoMegabytes(old(mem[..]), root, v) ==>
              mem[..] == old(mem[..]) && pmm.Pages() == old(pmm.Pages())
      ensures TwoMegabytes(old(mem[..]), root, v) ==> pte == Some(DataWord(old(mem[..]), root, v))
      ensures match pte
              case None => if create then Exhausted(pmm.Pages()) else Leaves(Indices(v)) == 0
              case Some(at) => PteAt(mem[..], root, owner, v, at)
      ensures !create ==> ReadBelow(mem[..], pd, v, pte)
    {
      var idx := Indices(v);
      WalkOwned(mem[..], root, owner, idx, 2);
      ghost var m := mem[..];
      ghost var large := TwoMegabytes(m, root, v);
      if large { LowerLarge(m, root, v, pd); }
      var pt := NextTable(pd, idx[2], create, idx, 2);
      assert large ==> pt == Some(Frame(Entry(m, pd, idx[2]))) && mem[..] == m;
      SameTwoMegabytes(m, mem[..], root, v);
      if pt.None? {
        MissingTable(mem[..], root, idx, 3);
        if !create { LowerRead(mem[..], pd, v, pt, 0); }
        return None;
      }
      var at := 512 * pt.value + idx[3];
      PteInMemory(mem[..], root, owner, v, pt.value, at);
      if !create { LowerRead(mem[..], pd, v, pt, at); }
      pte := Some(at);
    }

    /** The position of the word the source takes for the last-level entry of v, with tables
        created on the way if asked for. Behind a large page it lies in no table. */
    method GetOrCreatePte(v: u64, create: bool) returns (pte: Option<nat>)
      requires Valid() && Walkable(v)
      modifies mem, `owner, pmm.bitmap, pmm`usedPages
      ensures Valid() && SameView(old(mem[..]), mem[..], root) && TakesAtMost(3, old(pmm.Pages()), pmm.Pages())
      ensures pte.Some? ==> PteAt(mem[..], root, owner, v, pte.value)
      ensures TwoMegabytes(old(mem[..]), root, v) ==>
              (mem[..] == old(mem[..]) && pmm.Pages() == old(pmm.Pages()) && pte == Some(DataWord(mem[..], root, v)))
      ensures pte.None? ==> if create then Exhausted(pmm.Pages()) else Leaves(Indices(v)) == 0
      ensures !create ==> mem[..] == old(mem[..]) && pmm.Pages() == old(pmm.Pages())
      ensures !create ==> ReadAt(mem[..], root, v, pte)
    {
      ghost var m0 := mem[..];
      var pd := UpperTables(v, create);
      ghost var m1 := mem[..];
      SameTwoMegabytes(m0, m1, root, v);
      if pd.None? {
        if !create { ReadThrough(mem[..], root, v, pd, None); }
        return None;
      }
      pte := LowerTables(v, pd.value, create);
      if !create { ReadThrough(mem[..], root, v, pd, pte); }
      SameViewTrans(m0, m1, mem[..], root);
    }

    /** Maps the page of v. On success v's page gets the new entry and no other page's
        translation changes; when memory for a table runs out, no translation changes. Behind a
        large page the entry is stored into data and no translation changes at all. */
    method Map(v: u64, phys: u64, flags: u64) returns (ok: bool)
      requires Valid() && Walkable(v)
      modifies mem, `owner, pmm.bitmap, pmm`usedPages
      ensures Valid()
      ensures ok && old(Reachable(v)) ==> OneLeaf(old(mem[..]), mem[..], root, v, LeafEntry(phys, flags))
      ensures !ok || old(!Reachable(v)) ==>
              SameLeaves(old(mem[..]), mem[..], root) &&
              forall w: u64 :: Processor(mem[..], root, w) == Processor(old(mem[..]), root, w)
      ensures TwoMegabytes(old(mem[..]), root, v) ==>
              (var at := DataWord(old(mem[..]), root, v);
               ok && at < mem.Length && mem[..] == old(mem[..])[at := LeafEntry(phys, flags)])
      ensures TakesAtMost(3, old(pmm.Pages()), pmm.Pages())
      ensures !ok ==> Exhausted(pmm.Pages())
    {
      ghost var m0 := mem[..];
      var pte := GetOrCreatePte(v, true);
      ThenOneLeaf(m0, mem[..], mem[..], root, v, 0);
      if pte.None? {
        SameLeavesProcessor(m0, mem[..], root);
        return false;
      }
      ghost var m1 := mem[..];
      SetEntry(v, pte.value, LeafEntry(phys, flags));
      ThenOneLeaf(m0, m1, mem[..], root, v, LeafEntry(phys, flags));
      if SameLeaves(m0, mem[..], root) { SameLeavesProcessor(m0, mem[..], root); }
      ok := true;
    }

    /** Unmaps the page of v, and no other. Behind a large page a word of data is cleared and
        no translation changes. */
    method Unmap(v: u64)
      requires Valid() && Walkable(v)
      modifies mem, `owner, pmm.bitmap, pmm`usedPages
      ensures Valid() && pmm.Pages() == old(pmm.Pages())
      ensures old(Reachable(v)) ==> OneLeaf(old(mem[..]), mem[..], root, v, 0)
      ensures old(!Reachable(v)) ==> SameLeaves(old(mem[..]), mem[..], root)
    {
      var pte := GetOrCreatePte(v, false);
      if pte.None? {
        forall w: u64 | Vpn(w) == Vpn(v) ensures Leaf(mem[..], root, Indices(w)) == 0 { SameIndices(v, w); }
        return;
      }
      SetEntry(v, pte.value, 0);
    }

    method SetEntry(v: u64, at: nat, e: u64)
      requires Valid() && PteAt(mem[..], root, owner, v, at)
      modifies mem
      ensures Valid() && mem[..] == old(mem[..])[at := e]
      ensures old(Reachable(v)) ==> OneLeaf(old(mem[..]), mem[..], root, v, e)
      ensures old(!Reachable(v)) ==> SameLeaves(old(mem[..]), mem[..], root)
    {
      EntryStored(mem[..], root, owner, v, at, e);
      mem[at] := e;
      assert mem[..] == old(mem[..])[at := e];
    }

    /** What the walk that ignores large pages reads for v, 0 when it finds nothing: the
        processor's translation when v is not behind a large page. */
    method GetPhysical(v: u64) returns (phys: nat)
      requires Valid() && Walkable(v)
      modifies mem, `owner, pmm.bitmap, pmm`usedPages
      ensures Valid() && mem[..] == old(mem[..]) && pmm.Pages() == old(pmm.Pages())
      ensures phys == match SourceReads(mem[..], root, v) case None => 0 case Some(a) => a
      ensures Reachable(v) ==> SourceReads(mem[..], root, v) == Translate(v) == Processor(mem[..], root, v)
    {
      if Reachable(v) { ProcessorAgrees(mem[..], root, v); SourceAgrees(mem[..], root, v); }
      var pte := GetOrCreatePte(v, false);
      if pte.None? || mem[pte.value] % 2 == 0 { return 0; }
      phys := PteAddr(mem[pte.value]) + v % 0x1000;
    }

    method MapToItself(addr: u64, flags: u64, ghost m0: seq<u64>, ghost lo: nat, ghost page: nat) returns (done: bool)
      requires Valid() && lo <= page < 0x10_0000_0000 && addr == page * 0x1000
      requires SameOutside(m0, mem[..], root, lo, page) && !HugeOnPath(m0, root, Indices(addr))
      modifies mem, `owner, pmm.bitmap, pmm`usedPages
      ensures Valid() && SameOutside(m0, mem[..], root, lo, page + 1)
      ensures done && Identity(old(mem[..]), root, lo, page, flags) ==>
              Identity(mem[..], root, lo, page + 1, flags)
      ensures TakesAtMost(3, old(pmm.Pages()), pmm.Pages()) && (!done ==> Exhausted(pmm.Pages()))
    {
      ghost var m := mem[..];
      done := Map(addr, addr, flags);
      IdentityStep(m0, m, mem[..], root, lo, page, flags, done);
    }

    /** Maps every page of [start, start + size) to itself. ok tells whether every paging_map
        succeeded, which the source does not look at; if one failed, memory is exhausted. */
    method IdentityMapRegion(start: u64, size: u64, flags: u64) returns (ghost ok: bool)
      requires Valid() && start + size + 0xFFF < 0x1_0000_0000_0000
      requires NoLargePages(mem[..], root, start / 0x1000, (start + size + 0xFFF) / 0x1000)
      modifies mem, `owner, pmm.bitmap, pmm`usedPages
      ensures Valid()
      ensures ok && Present(flags) && Frame(flags) == 0 ==>
              forall w: u64 :: start <= w < start + size ==> Translate(w) == Some(w)
      ensures SameOutside(old(mem[..]), mem[..], root, start / 0x1000, (start + size + 0xFFF) / 0x1000)
      ensures !ok ==> Exhausted(pmm.Pages())
    {
      var addr, end := start / 0x1000 * 0x1000, (start + size + 0xFFF) / 0x1000 * 0x1000;
      ghost var m0, lo, hi, page := mem[..], start / 0x1000, (start + size + 0xFFF) / 0x1000, start / 0x1000;
      assert lo <= hi <= 0x10_0000_0000;
      ok := true;
      while addr < end
        invariant lo <= page <= hi && addr == page * 0x1000
        invariant Valid() && SameOutside(m0, mem[..], root, lo, page)
        invariant ok ==> Identity(mem[..], root, lo, page, flags)
        invariant !ok ==> Exhausted(pmm.Pages())
      {
        PageInRange(m0, root, lo, hi, page);
        var done := MapToItself(addr, flags, m0, lo, page);
        ok := ok && done;
        addr, page := addr + 0x1000, page + 1;
      }
      assert page == hi;
      if ok && Present(flags) && Frame(flags) == 0 {
        IdentityTranslates(mem[..], root, start, size, flags, page);
      }
    }

    method Execute(call: Call) returns (ok: bool)
      requires Valid() && Reachable(call.v)
      modifies mem, `owner, pmm.bitmap, pmm`usedPages
      ensures Valid() && TakesAtMost(3, old(pmm.Pages()), pmm.Pages())
      ensures match call
              case MapPage(v, phys, flags) =>
                if ok then OneLeaf(old(mem[..]), mem[..], root, v, LeafEntry(phys, flags))
                else SameLeaves(old(mem[..]), mem[..], root)
              case UnmapPage(v) => OneLeaf(old(mem[..]), mem[..], root, v, 0)
      ensures !ok ==> call.MapPage? && Exhausted(pmm.Pages())
    {
      ok := true;
      match call {
        case MapPage(v, phys, flags) => ok := Map(v, phys, flags);
        case UnmapPage(v) => Unmap(v);
      }
    }

    /** Executes any sequence of calls on addresses not behind large pages. Afterwards every
        address has the entry that the same calls leave in a flat map from page numbers to
        entries, and if any call failed, no page is left. */
    method Replay(calls: seq<Call>) returns (done: seq<bool>)
      requires Valid() && forall k :: 0 <= k < |calls| ==> Reachable(calls[k].v)
      modifies mem, `owner, pmm.bitmap, pmm`usedPages
      ensures Valid() && |done| == |calls|
      ensures forall w: u64 ::
        Leaves(Indices(w)) == FlatEntry(calls, done, |calls|, Vpn(w), old(Leaves(Indices(w))))
      ensures forall k :: 0 <= k < |calls| && !done[k] ==> calls[k].MapPage? && Exhausted(pmm.Pages())
    {
      done := [];
      ghost var m0 := mem[..];
      for k := 0 to |calls|
        invariant Valid() && |done| == k && Replayed(m0, mem[..], root, calls, done, k)
        invariant forall j :: 0 <= j < k && !done[j] ==> calls[j].MapPage? && Exhausted(pmm.Pages())
      {
        var ok := ReplayOne(calls, k, m0, done);
        done := done + [ok];
      }
    }

    method ReplayOne(calls: seq<Call>, k: nat, ghost m0: seq<u64>, ghost done: seq<bool>) returns (ok: bool)
      requires Valid() && |done| == k < |calls| && Replayed(m0, mem[..], root, calls, done, k)
      requires !HugeOnPath(m0, root, Indices(calls[k].v))
      modifies mem, `owner, pmm.bitmap, pmm`usedPages
      ensures Valid() && Replayed(m0, mem[..], root, calls, done + [ok], k + 1)
      ensures !ok ==> calls[k].MapPage? && Exhausted(pmm.Pages())
      ensures old(Exhausted(pmm.Pages())) ==> Exhausted(pmm.Pages())
    {
      ghost var m, pages := mem[..], pmm.Pages();
      assert SameLarge(m0, m, root, Indices(calls[k].v));
      ok := Execute(calls[k]);
      if Exhausted(pages) { StillExhausted(pages, pmm.Pages()); }
      ReplayStep(m0, m, mem[..], root, calls, done, ok, k);
    }
  }
}

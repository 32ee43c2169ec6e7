/** Process control blocks and the resources they hold (src/kernel/process.cpp). */
module Processes {
  import opened Common
  import opened HeapBlocks
  import opened Heap
  import opened Pmm

  datatype State = Ready | Running | Blocked | Terminated

  const MAX_PROCESSES := 64
  /** Size in bytes of a process control block. */
  const PCB_SIZE: u64 := 232

  class Process {
    const addr: nat               // heap address of the control block
    ghost const block: Block      // the heap block behind it
    const idle: bool              // the idle process has no stacks of its own
    var pid: u32
    var name: string
    var state: State
    var kernelStack: nat
    var userStack: nat
    var rip: u64
    var rsp: nat
    var next: Process?

    constructor (addr: nat, ghost block: Block, idle: bool, pid: u32, name: string, state: State)
      ensures this.addr == addr && this.block == block && this.idle == idle && this.pid == pid &&
              this.name == name && this.state == state && next == null
    {
      this.addr, this.block, this.idle := addr, block, idle;
      this.pid, this.name, this.state, this.next := pid, name, state, null;
      kernelStack, userStack, rip, rsp := 0, 0, 0, 0;
    }

    ghost function KernelPage(): nat
      reads this
    {
      if kernelStack >= 4096 then PageOf(kernelStack - 4096) else 0
    }

    ghost function UserPage(): nat
      reads this
    {
      if userStack >= 4096 then PageOf(userStack - 4096) else 0
    }

    /** Both stacks are single pages of the page allocator; the pointers point past them. */
    ghost predicate HoldsStacks(k: nat, u: nat)
      reads this
    {
      0 < k && 0 < u && k != u && kernelStack == PageAddr(k) + 4096 && userStack == PageAddr(u) + 4096
    }
  }

  /** Two pages that were free are taken, and nothing else changes. */
  ghost predicate TwoTaken(pages: seq<bool>, pages': seq<bool>, k: nat, u: nat) {
    k < |pages| && u < |pages| && k != u && !pages[k] && !pages[u] && pages' == pages[k := true][u := true]
  }

  /** No two pages above page 0 are free. */
  ghost predicate NoTwoFree(pages: seq<bool>) {
    forall i, j :: 1 <= i < j < |pages| ==> pages[i] || pages[j]
  }

  lemma OneTaken(pages: seq<bool>, k: nat)
    requires 0 < k < |pages| && !pages[k]
    ensures Exhausted(pages[k := true]) <==> NoTwoFree(pages)
  {
    var rest := pages[k := true];
    if NoTwoFree(pages) {
      forall i | 1 <= i < |rest| ensures rest[i] {}
    }
    if Exhausted(rest) {
      forall i, j | 1 <= i < j < |pages| ensures pages[i] || pages[j] {
        assert rest[i] && rest[j];
      }
    }
  }

  lemma NoneFree(pages: seq<bool>)
    requires Exhausted(pages)
    ensures NoTwoFree(pages)
  {}

  /** No free block of the heap holds a control block. */
  ghost predicate NoRoom(bs: seq<Block>) { forall b :: b in bs && b.free ==> b.size < 232 }

  lemma PcbRoom(bs: seq<Block>, base: nat, end: nat)
    requires ValidHeap(bs, base, end)
    ensures Malloc(bs, PCB_SIZE).1 == 0 <==> NoRoom(bs)
  {
    MallocOutcome(bs, base, end, PCB_SIZE);
    if Malloc(bs, PCB_SIZE).1 != 0 {
      var k: nat :| TakenAt(bs, Malloc(bs, PCB_SIZE).0, Malloc(bs, PCB_SIZE).1, k, PCB_SIZE);
      assert bs[k] in bs && bs[k].size >= 232;
    }
  }

  /** The name as stored: at most 31 characters. */
  function StoredName(name: string): string { if |name| <= 31 then name else name[..31] }

  lemma StackPage(page: nat)
    ensures PageOf(PageAddr(page) + 4096 - 4096) == page
  {}

  /** The block behind a fresh control block. */
  lemma NewPcb(bs: seq<Block>, base: nat, end: nat) returns (b: Block)
    requires ValidHeap(bs, base, end) && Malloc(bs, PCB_SIZE).1 != 0
    ensures b !in Live(bs) && b.Payload() == Malloc(bs, PCB_SIZE).1 && !b.free && b.size >= PCB_SIZE
    ensures Live(Malloc(bs, PCB_SIZE).0) == Live(bs) + {b}
  {
    MallocSpec(bs, base, end, PCB_SIZE);
    b :| b !in Live(bs) && b.Payload() == Malloc(bs, PCB_SIZE).1 && !b.free && b.size >= Round8(PCB_SIZE) &&
         Live(Malloc(bs, PCB_SIZE).0) == Live(bs) + {b};
  }

  /** The table with the first entry for proc, from i on, cleared. */
  ghost function Removed(table: seq<Process?>, proc: Process, i: nat): seq<Process?>
    requires i <= |table|
    decreases |table| - i
  {
    if i == |table| then table
    else if table[i] == proc then table[i := null]
    else Removed(table, proc, i + 1)
  }

  ghost predicate FirstFree(table: seq<Process?>, slot: nat) {
    slot < |table| && table[slot] == null && forall i :: 0 <= i < slot ==> table[i] != null
  }

  // ---------------------------------------------------------------------
  // The ledger: what the processes of a script hold beyond what was held before.
  // ---------------------------------------------------------------------

  datatype Holding = Holding(block: Block, kernelPage: nat, userPage: nat) {
    predicate Has(page: nat) { page == kernelPage || page == userPage }
  }

  datatype Action = Spawn(name: string, entry: u64) | Kill(slot: nat)

  ghost predicate HasBlock(ledger: seq<Option<Holding>>, b: Block) {
    exists i :: 0 <= i < |ledger| && ledger[i].Some? && ledger[i].value.block == b
  }

  ghost predicate HasPage(ledger: seq<Option<Holding>>, page: nat) {
    exists i :: 0 <= i < |ledger| && ledger[i].Some? && ledger[i].value.Has(page)
  }

  /** Holding h is disjoint from what was held at the start. */
  ghost predicate Extra(h: Holding, live0: set<Block>, pages0: seq<bool>) {
    h.block !in live0 && h.kernelPage != h.userPage &&
    h.kernelPage < |pages0| && !pages0[h.kernelPage] && h.userPage < |pages0| && !pages0[h.userPage]
  }

  ghost predicate Disjoint(h: Holding, h': Holding) {
    h.block != h'.block && !h.Has(h'.kernelPage) && !h.Has(h'.userPage)
  }

  /** What is held now is what was held at the start plus, without overlap, the ledger. */
  ghost predicate Balanced(ledger: seq<Option<Holding>>, live0: set<Block>, pages0: seq<bool>,
                           live: set<Block>, pages: seq<bool>) {
    |pages| == |pages0| &&
    (forall b :: b in live <==> b in live0 || HasBlock(ledger, b)) &&
    (forall x :: 0 <= x < |pages| ==> (pages[x] <==> pages0[x] || HasPage(ledger, x))) &&
    (forall i :: 0 <= i < |ledger| && ledger[i].Some? ==> Extra(ledger[i].value, live0, pages0)) &&
    (forall i, j :: 0 <= i < |ledger| && 0 <= j < |ledger| && i != j && ledger[i].Some? && ledger[j].Some? ==>
      Disjoint(ledger[i].value, ledger[j].value))
  }

  lemma BalancedAdd(ledger: seq<Option<Holding>>, live0: set<Block>, pages0: seq<bool>,
                    live: set<Block>, pages: seq<bool>, slot: nat, h: Holding, pages': seq<bool>)
    requires Balanced(ledger, live0, pages0, live, pages)
    requires slot < |ledger| && ledger[slot].None? && h.block !in live
    requires TwoTaken(pages, pages', h.kernelPage, h.userPage)
    ensures Balanced(ledger[slot := Some(h)], live0, pages0, live + {h.block}, pages')
  {
    var ledger' := ledger[slot := Some(h)];
    forall b ensures HasBlock(ledger', b) <==> HasBlock(ledger, b) || b == h.block {
      if HasBlock(ledger, b) {
        var i :| 0 <= i < |ledger| && ledger[i].Some? && ledger[i].value.block == b;
        assert ledger'[i].Some? && ledger'[i].value.block == b;
      }
      if b == h.block { assert ledger'[slot].value.block == b; }
    }
    forall x: nat ensures HasPage(ledger', x) <==> HasPage(ledger, x) || h.Has(x) {
      if HasPage(ledger, x) {
        var i :| 0 <= i < |ledger| && ledger[i].Some? && ledger[i].value.Has(x);
        assert ledger'[i].Some? && ledger'[i].value.Has(x);
      }
      if h.Has(x) { assert ledger'[slot].value.Has(x); }
    }
    assert Extra(h, live0, pages0);
    forall i | 0 <= i < |ledger| && ledger[i].Some?
      ensures Disjoint(ledger[i].value, h) && Disjoint(h, ledger[i].value)
    {
      var g := ledger[i].value;
      assert HasBlock(ledger, g.block) && HasPage(ledger, g.kernelPage) && HasPage(ledger, g.userPage);
      assert Extra(g, live0, pages0);
      assert pages[g.kernelPage] && pages[g.userPage];
    }
  }

  lemma BlockRemoved(ledger: seq<Option<Holding>>, slot: nat, h: Holding, b: Block)
    requires slot < |ledger| && ledger[slot] == Some(h)
    requires forall i :: 0 <= i < |ledger| && i != slot && ledger[i].Some? ==> Disjoint(ledger[i].value, h)
    ensures HasBlock(ledger[slot := None], b) <==> HasBlock(ledger, b) && b != h.block
  {
    var ledger' := ledger[slot := None];
    if HasBlock(ledger, b) && b != h.block {
      var i :| 0 <= i < |ledger| && ledger[i].Some? && ledger[i].value.block == b;
      assert ledger'[i].Some? && ledger'[i].value.block == b;
    }
    if HasBlock(ledger', b) {
      var i :| 0 <= i < |ledger| && ledger'[i].Some? && ledger'[i].value.block == b;
      assert ledger[i].Some? && ledger[i].value.block == b && Disjoint(ledger[i].value, h);
    }
  }

  lemma PageRemoved(ledger: seq<Option<Holding>>, slot: nat, h: Holding, x: nat)
    requires slot < |ledger| && ledger[slot] == Some(h)
    requires forall i :: 0 <= i < |ledger| && i != slot && ledger[i].Some? ==> Disjoint(ledger[i].value, h)
    ensures HasPage(ledger[slot := None], x) <==> HasPage(ledger, x) && !h.Has(x)
  {
    var ledger' := ledger[slot := None];
    if HasPage(ledger, x) && !h.Has(x) {
      var i :| 0 <= i < |ledger| && ledger[i].Some? && ledger[i].value.Has(x);
      assert ledger'[i].Some? && ledger'[i].value.Has(x);
    }
    if HasPage(ledger', x) {
      var i :| 0 <= i < |ledger| && ledger'[i].Some? && ledger'[i].value.Has(x);
      assert ledger[i].Some? && ledger[i].value.Has(x) && Disjoint(ledger[i].value, h);
    }
  }

  lemma BalancedRemove(ledger: seq<Option<Holding>>, live0: set<Block>, pages0: seq<bool>,
                       live: set<Block>, pages: seq<bool>, slot: nat, h: Holding)
    requires Balanced(ledger, live0, pages0, live, pages)
    requires slot < |ledger| && ledger[slot] == Some(h)
    ensures h.block in live && h.kernelPage < |pages| && h.userPage < |pages|
    ensures pages[h.kernelPage] && pages[h.userPage]
    ensures Balanced(ledger[slot := None], live0, pages0, live - {h.block},
                     pages[h.kernelPage := false][h.userPage := false])
  {
    assert Extra(h, live0, pages0);
    assert HasBlock(ledger, h.block);
    assert h.Has(h.kernelPage) && h.Has(h.userPage);
    assert HasPage(ledger, h.kernelPage) && HasPage(ledger, h.userPage);
    forall b ensures HasBlock(ledger[slot := None], b) <==> HasBlock(ledger, b) && b != h.block {
      BlockRemoved(ledger, slot, h, b);
    }
    forall x: nat ensures HasPage(ledger[slot := None], x) <==> HasPage(ledger, x) && !h.Has(x) {
      PageRemoved(ledger, slot, h, x);
    }
  }

  /** With an empty ledger nothing more is held than at the start. */
  lemma BalancedEmpty(ledger: seq<Option<Holding>>, live0: set<Block>, pages0: seq<bool>,
                      live: set<Block>, pages: seq<bool>)
    requires Balanced(ledger, live0, pages0, live, pages)
    requires forall i :: 0 <= i < |ledger| ==> ledger[i].None?
    ensures live == live0 && pages == pages0
  {}

  class ProcessTable {
    const heap: KernelHeap
    const pmm: PageAllocator
    const table: array<Process?>
    var nextPid: u32

    /** process_init: an empty table but for the idle process in slot 0, whose stack fields
        the source leaves unset. */
    constructor (heap: KernelHeap, pmm: PageAllocator)
      requires heap.Valid() && pmm.Valid() && heap.mem as object != pmm.bitmap
      modifies heap.mem, heap`blocks
      ensures Valid() && this.heap == heap && this.pmm == pmm && fresh(table) && nextPid == 1
      ensures table.Length == 64 && forall i :: 0 < i < 64 ==> table[i] == null
      ensures table[0] == null <==> NoRoom(old(heap.blocks))
      ensures table[0] == null ==> heap.blocks == old(heap.blocks)
      ensures pmm.Pages() == old(pmm.Pages())
      ensures table[0] != null ==>
              fresh(table[0]) && table[0].idle && table[0].pid == 0 && table[0].name == "idle" && table[0].state == Running &&
              table[0].block !in Live(old(heap.blocks)) && table[0].block.Payload() == table[0].addr &&
              table[0].block.size >= 232 && Live(heap.blocks) == Live(old(heap.blocks)) + {table[0].block}
    {
      this.heap, this.pmm, nextPid := heap, pmm, 1;
      table := new Process?[MAX_PROCESSES](_ => null);
      new;
      var addr, b := AllocPcb();
      if addr == 0 { return; }
      table[0] := new Process(addr, b, true, 0, "idle", Running);
    }

    ghost predicate Valid()
      reads this, heap, heap.mem, pmm, pmm.bitmap, table
    {
      heap.Valid() && pmm.Valid() && table.Length == MAX_PROCESSES &&
      heap.mem as object != pmm.bitmap && table as object != pmm.bitmap && table as object != heap.mem
    }

    /** Creates a process in the first free slot, with a control block and two stack pages.
        A failure at any point gives everything back. */
    method Create(name: string, entry: u64) returns (proc: Process?)
      requires Valid()
      modifies `nextPid, heap.mem, heap`blocks, pmm.bitmap, pmm`usedPages, table
      ensures Valid()
      ensures proc == null <==> null !in old(table[..]) || NoRoom(old(heap.blocks)) || NoTwoFree(old(pmm.Pages()))
      ensures nextPid == if null !in old(table[..]) || NoRoom(old(heap.blocks)) then old(nextPid)
                         else (old(nextPid) + 1) % 0x1_0000_0000
      ensures proc == null ==>
              heap.blocks == old(heap.blocks) && pmm.Pages() == old(pmm.Pages()) &&
              pmm.usedPages == old(pmm.usedPages) && table[..] == old(table[..])
      ensures proc != null ==>
              fresh(proc) && !proc.idle && proc.state == Ready && proc.next == null &&
              proc.pid == old(nextPid) && proc.rip == entry && proc.rsp == proc.userStack
      ensures proc != null ==> proc.name <= name && |proc.name| == if |name| < 31 then |name| else 31
      ensures proc != null ==>
              exists slot: nat :: FirstFree(old(table[..]), slot) && table[..] == old(table[..])[slot := proc]
      ensures proc != null ==>
              proc.block !in Live(old(heap.blocks)) && !proc.block.free && proc.block.Payload() == proc.addr &&
              proc.block.size >= PCB_SIZE && Live(heap.blocks) == Live(old(heap.blocks)) + {proc.block}
      ensures proc != null ==>
              proc.HoldsStacks(proc.KernelPage(), proc.UserPage()) &&
              TwoTaken(old(pmm.Pages()), pmm.Pages(), proc.KernelPage(), proc.UserPage())
      ensures PayloadsKept(old(heap.mem[..]), heap.mem[..], Live(old(heap.blocks)))
    {
      var slot := FreeSlot();
      if slot >= MAX_PROCESSES {
        assert null !in table[..];
        return null;
      }
      assert FirstFree(table[..], slot) && table[..][slot] == null;
      proc := Build(name, entry);
      if proc != null { table[slot] := proc; }
    }

    /** The allocations behind a new process. */
    method Build(name: string, entry: u64) returns (proc: Process?)
      requires Valid()
      modifies `nextPid, heap.mem, heap`blocks, pmm.bitmap, pmm`usedPages
      ensures Valid() && (proc == null <==> NoRoom(old(heap.blocks)) || NoTwoFree(old(pmm.Pages())))
      ensures nextPid == if NoRoom(old(heap.blocks)) then old(nextPid) else (old(nextPid) + 1) % 0x1_0000_0000
      ensures proc == null ==>
              heap.blocks == old(heap.blocks) && pmm.Pages() == old(pmm.Pages()) &&
              pmm.usedPages == old(pmm.usedPages)
      ensures proc != null ==>
              fresh(proc) && !proc.idle && proc.state == Ready && proc.next == null && proc.name == StoredName(name) &&
              proc.pid == old(nextPid) && proc.rip == entry && proc.rsp == proc.userStack
      ensures proc != null ==>
              proc.block !in Live(old(heap.blocks)) && !proc.block.free && proc.block.Payload() == proc.addr &&
              proc.block.size >= PCB_SIZE && Live(heap.blocks) == Live(old(heap.blocks)) + {proc.block}
      ensures proc != null ==>
              proc.HoldsStacks(proc.KernelPage(), proc.UserPage()) &&
              TwoTaken(old(pmm.Pages()), pmm.Pages(), proc.KernelPage(), proc.UserPage())
      ensures PayloadsKept(old(heap.mem[..]), heap.mem[..], Live(old(heap.blocks)))
    {
      ghost var bs, m := heap.blocks, heap.mem[..];
      var p := MakePcb(name);
      if p == null { return null; }
      var ok := AllocStacks(p);
      if !ok {
        DropPcb(p, bs, m);
        return null;
      }
      p.rip, p.rsp := entry, p.userStack;
      proc := p;
    }

    /** The control block, with the next process number. */
    method MakePcb(name: string) returns (p: Process?)
      requires Valid()
      modifies `nextPid, heap.mem, heap`blocks
      ensures Valid() && (p == null <==> NoRoom(old(heap.blocks)))
      ensures nextPid == if p == null then old(nextPid) else (old(nextPid) + 1) % 0x1_0000_0000
      ensures p == null ==> heap.blocks == old(heap.blocks)
      ensures p != null ==>
              fresh(p) && !p.idle && p.state == Ready && p.next == null && p.name == StoredName(name) &&
              p.pid == old(nextPid) && p.block !in Live(old(heap.blocks)) && !p.block.free && p.block.Payload() == p.addr &&
              p.block.size >= PCB_SIZE && Live(heap.blocks) == Live(old(heap.blocks)) + {p.block}
      ensures PayloadsKept(old(heap.mem[..]), heap.mem[..], Live(old(heap.blocks)))
    {
      var addr, b := AllocPcb();
      if addr == 0 { return null; }
      p := new Process(addr, b, false, nextPid, StoredName(name), Ready);
      nextPid := (nextPid + 1) % 0x1_0000_0000;
    }

    /** Gives the control block back on the failing path: the heap is as it was before. */
    method DropPcb(p: Process, ghost bs: seq<Block>, ghost m: seq<byte>)
      requires heap.Valid() && ValidHeap(bs, heap.heapStart, heap.End())
      requires p.block in Live(heap.blocks) && p.block.Payload() == p.addr
      requires p.block !in Live(bs) && Live(heap.blocks) == Live(bs) + {p.block}
      requires |m| == heap.mem.Length && PayloadsKept(m, heap.mem[..], Live(bs))
      modifies heap.mem, heap`blocks
      ensures heap.Valid() && heap.blocks == bs && PayloadsKept(m, heap.mem[..], Live(bs))
    {
      ghost var m1 := heap.mem[..];
      FreePcb(p);
      assert Live(bs) + {p.block} - {p.block} == Live(bs);
      Canonical(heap.blocks, bs, heap.heapStart, heap.End());
      KeptTrans(m, m1, heap.mem[..], Live(bs));
    }

    method FreeSlot() returns (slot: nat)
      requires table.Length == MAX_PROCESSES
      ensures slot <= MAX_PROCESSES && (slot < MAX_PROCESSES ==> table[slot] == null)
      ensures forall i :: 0 <= i < slot ==> table[i] != null
    {
      slot := 0;
      while slot < MAX_PROCESSES && table[slot] != null
        invariant 0 <= slot <= MAX_PROCESSES
        invariant forall i :: 0 <= i < slot ==> table[i] != null
      {
        slot := slot + 1;
      }
    }

    /** One stack page; the result points past it, or is 0 when there is none. */
    method TakeStack() returns (top: nat)
      requires pmm.Valid()
      modifies pmm.bitmap, pmm`usedPages
      ensures pmm.Valid() && (top == 0 <==> Exhausted(old(pmm.Pages())))
      ensures top == 0 ==> pmm.Pages() == old(pmm.Pages()) && pmm.usedPages == old(pmm.usedPages)
      ensures top != 0 ==>
              top >= 8192 && var k := PageOf(top - 4096);
              0 < k < pmm.totalPages && top == PageAddr(k) + 4096 &&
              !old(pmm.Pages())[k] && pmm.Pages() == old(pmm.Pages())[k := true]
    {
      OnePage(pmm.Pages());
      top := pmm.AllocPage();
      if top != 0 { top := top + 4096; }
    }

    /** Gives a new process its two stack pages; when the second cannot be had the first
        is returned. */
    method AllocStacks(p: Process) returns (ok: bool)
      requires pmm.Valid()
      modifies p`kernelStack, p`userStack, pmm.bitmap, pmm`usedPages
      ensures pmm.Valid() && (ok <==> !NoTwoFree(old(pmm.Pages())))
      ensures !ok ==> pmm.Pages() == old(pmm.Pages()) && pmm.usedPages == old(pmm.usedPages)
      ensures ok ==> p.HoldsStacks(p.KernelPage(), p.UserPage()) &&
                     TwoTaken(old(pmm.Pages()), pmm.Pages(), p.KernelPage(), p.UserPage())
    {
      p.kernelStack := TakeStack();
      if p.kernelStack == 0 {
        NoneFree(pmm.Pages());
        return false;
      }
      ok := AllocUserStack(p, p.KernelPage(), old(pmm.Pages()));
    }

    method AllocUserStack(p: Process, ghost k: nat, ghost pages: seq<bool>) returns (ok: bool)
      requires pmm.Valid() && 0 < k < |pages| && p.kernelStack == PageAddr(k) + 4096
      requires !pages[k] && pmm.Pages() == pages[k := true]
      modifies p`userStack, pmm.bitmap, pmm`usedPages
      ensures pmm.Valid() && (ok <==> !NoTwoFree(pages))
      ensures !ok ==> pmm.Pages() == pages
      ensures ok ==> p.HoldsStacks(k, p.UserPage()) && TwoTaken(pages, pmm.Pages(), k, p.UserPage())
    {
      OneTaken(pages, k);
      p.userStack := TakeStack();
      if p.userStack == 0 {
        assert pages[k := true][k := false] == pages;
        ReturnStack(p.kernelStack, k);
        return false;
      }
      ok := true;
    }

    method AllocPcb() returns (addr: nat, ghost b: Block)
      requires heap.Valid()
      modifies heap.mem, heap`blocks
      ensures heap.Valid() && (addr == 0 <==> NoRoom(old(heap.blocks)))
      ensures addr == 0 ==> heap.blocks == old(heap.blocks)
      ensures addr != 0 ==>
              b !in Live(old(heap.blocks)) && b.Payload() == addr && !b.free && b.size >= PCB_SIZE &&
              Live(heap.blocks) == Live(old(heap.blocks)) + {b}
      ensures PayloadsKept(old(heap.mem[..]), heap.mem[..], Live(old(heap.blocks)))
    {
      ghost var bs := heap.blocks;
      MallocSpec(bs, heap.heapStart, heap.End(), PCB_SIZE);
      PcbRoom(bs, heap.heapStart, heap.End());
      b := Block(0, 0, false);
      addr := heap.Kmalloc(PCB_SIZE);
      if addr != 0 { b := NewPcb(bs, heap.heapStart, heap.End()); }
    }

    /** Clears the table entry, then frees the stacks and the control block; a null pointer is
        ignored. */
    method Destroy(proc: Process?)
      requires Valid() && (proc != null ==> Destroyable(proc))
      modifies heap.mem, heap`blocks, pmm.bitmap, pmm`usedPages, table
      ensures Valid()
      ensures proc == null ==>
              heap.blocks == old(heap.blocks) && pmm.Pages() == old(pmm.Pages()) && table[..] == old(table[..])
      ensures proc != null ==>
              Live(heap.blocks) == Live(old(heap.blocks)) - {proc.block} &&
              pmm.Pages() == old(pmm.Pages())[proc.KernelPage() := false][proc.UserPage() := false] &&
              table[..] == Removed(old(table[..]), proc, 0)
      ensures PayloadsKept(old(heap.mem[..]), heap.mem[..], Live(heap.blocks))
    {
      if proc == null { return; }
      ClearSlot(proc);
      FreeStacks(proc);
      FreePcb(proc);
    }

    /** The process owns a live heap block and two used pages. */
    ghost predicate Destroyable(proc: Process)
      requires Valid()
      reads this, heap, pmm, pmm.bitmap, proc, heap.mem, table
    {
      proc.block in Live(heap.blocks) && proc.block.Payload() == proc.addr &&
      var k, u := proc.KernelPage(), proc.UserPage();
      !proc.idle && proc.HoldsStacks(k, u) && k < pmm.totalPages && u < pmm.totalPages &&
      pmm.Pages()[k] && pmm.Pages()[u]
    }

    method FreeStacks(proc: Process)
      requires pmm.Valid()
      requires var k, u := proc.KernelPage(), proc.UserPage();
               proc.HoldsStacks(k, u) && k < pmm.totalPages && u < pmm.totalPages && pmm.Pages()[k] && pmm.Pages()[u]
      modifies pmm.bitmap, pmm`usedPages
      ensures pmm.Valid()
      ensures pmm.Pages() == old(pmm.Pages())[proc.KernelPage() := false][proc.UserPage() := false]
    {
      if proc.kernelStack != 0 { ReturnStack(proc.kernelStack, proc.KernelPage()); }
      if proc.userStack != 0 { ReturnStack(proc.userStack, proc.UserPage()); }
    }

    method ReturnStack(top: nat, ghost k: nat)
      requires pmm.Valid() && top == PageAddr(k) + 4096 && k < pmm.totalPages && pmm.Pages()[k]
      modifies pmm.bitmap, pmm`usedPages
      ensures pmm.Valid() && pmm.Pages() == old(pmm.Pages())[k := false]
    {
      pmm.FreePage(top - 4096);
    }

    method ClearSlot(proc: Process)
      requires table.Length == MAX_PROCESSES
      modifies table
      ensures table[..] == Removed(old(table[..]), proc, 0)
    {
      var i := 0;
      while i < MAX_PROCESSES
        invariant 0 <= i <= MAX_PROCESSES && table[..] == old(table[..])
        invariant Removed(old(table[..]), proc, 0) == Removed(old(table[..]), proc, i)
      {
        if table[i] == proc {
          table[i] := null;
          break;
        }
        i := i + 1;
      }
    }

    method FreePcb(proc: Process)
      requires heap.Valid() && proc.block in Live(heap.blocks) && proc.block.Payload() == proc.addr
      modifies heap.mem, heap`blocks
      ensures heap.Valid() && Live(heap.blocks) == Live(old(heap.blocks)) - {proc.block}
      ensures PayloadsKept(old(heap.mem[..]), heap.mem[..], Live(heap.blocks))
    {
      LiveIndexOf(heap.blocks, heap.heapStart, heap.End(), proc.block);
      FreeLive(heap.blocks, heap.heapStart, heap.End(), IndexOf(heap.blocks, proc.addr, 0));
      heap.Kfree(proc.addr);
    }

    /** Slot i holds what it held at the start, or a process of the script that the ledger
        records. */
    ghost predicate Tracks(start: seq<Process?>, ledger: seq<Option<Holding>>)
      reads table, set p | p in table[..]
    {
      |start| == |ledger| == table.Length == MAX_PROCESSES &&
      forall i :: 0 <= i < MAX_PROCESSES ==> SlotOk(start[i], table[i], ledger[i])
    }

    method SpawnTracked(name: string, entry: u64, start: seq<Process?>, ghost ledger: seq<Option<Holding>>,
                        ghost live0: set<Block>, ghost pages0: seq<bool>)
      returns (ghost ledger': seq<Option<Holding>>)
      requires Valid() && Tracks(start, ledger)
      requires Balanced(ledger, live0, pages0, Live(heap.blocks), pmm.Pages())
      modifies `nextPid, heap.mem, heap`blocks, pmm.bitmap, pmm`usedPages, table
      ensures Valid() && Tracks(start, ledger')
      ensures Balanced(ledger', live0, pages0, Live(heap.blocks), pmm.Pages())
      ensures forall i :: 0 <= i < MAX_PROCESSES && ledger'[i].Some? ==>
        (ledger[i] == ledger'[i] && table[i] == old(table[i])) || fresh(table[i])
    {
      ledger' := ledger;
      ghost var live, pages, before := Live(heap.blocks), pmm.Pages(), table[..];
      var proc := Create(name, entry);
      if proc == null {
        assert forall i :: 0 <= i < MAX_PROCESSES ==> table[i] == before[i];
        return;
      }
      ghost var slot: nat :| FirstFree(before, slot) && table[..] == before[slot := proc];
      ghost var h := Holding(proc.block, proc.KernelPage(), proc.UserPage());
      assert SlotOk(start[slot], before[slot], ledger[slot]);
      BalancedAdd(ledger, live0, pages0, live, pages, slot, h, pmm.Pages());
      ledger' := ledger[slot := Some(h)];
      TracksAdded(start, before, ledger, slot, proc, h);
    }

    lemma TracksAdded(start: seq<Process?>, before: seq<Process?>, ledger: seq<Option<Holding>>, slot: nat, proc: Process,
        h: Holding)
      requires |start| == |before| == |ledger| == table.Length == MAX_PROCESSES && slot < MAX_PROCESSES
      requires table[..] == before[slot := proc] && SlotOk(start[slot], proc, Some(h))
      requires forall i :: 0 <= i < MAX_PROCESSES && i != slot ==> SlotOk(start[i], before[i], ledger[i])
      ensures Tracks(start, ledger[slot := Some(h)])
    {
      forall i | 0 <= i < MAX_PROCESSES ensures SlotOk(start[i], table[i], ledger[slot := Some(h)][i]) {
        assert table[i] == before[slot := proc][i];
      }
    }

    method KillTracked(slot: nat, start: seq<Process?>, ghost ledger: seq<Option<Holding>>,
                       ghost live0: set<Block>, ghost pages0: seq<bool>)
      returns (ghost ledger': seq<Option<Holding>>)
      requires Valid() && Tracks(start, ledger)
      requires Balanced(ledger, live0, pages0, Live(heap.blocks), pmm.Pages())
      requires forall i, j :: 0 <= i < MAX_PROCESSES && 0 <= j < MAX_PROCESSES && ledger[i].Some? ==> table[i] != start[j]
      modifies heap.mem, heap`blocks, pmm.bitmap, pmm`usedPages, table
      ensures Valid() && Tracks(start, ledger')
      ensures Balanced(ledger', live0, pages0, Live(heap.blocks), pmm.Pages())
      ensures forall i :: 0 <= i < MAX_PROCESSES && ledger'[i].Some? ==>
        ledger[i] == ledger'[i] && table[i] == old(table[i])
    {
      ledger' := ledger;
      if slot >= MAX_PROCESSES { return; }
      assert SlotOk(start[slot], table[slot], ledger[slot]);
      var proc := table[slot];
      if proc == null || start[slot] != null { return; }
      ghost var h := ledger[slot].value;
      BalancedRemove(ledger, live0, pages0, Live(heap.blocks), pmm.Pages(), slot, h);
      OnlySlot(start, ledger, slot);
      DestroyHeld(slot, proc, start, ledger, h);
      ledger' := ledger[slot := None];
    }

    /** Destroys the process in one slot, which holds what the ledger says. */
    method DestroyHeld(slot: nat, proc: Process, start: seq<Process?>, ghost ledger: seq<Option<Holding>>,
                       ghost h: Holding)
      requires Valid() && Tracks(start, ledger) && slot < MAX_PROCESSES
      requires table[slot] == proc && ledger[slot] == Some(h) && start[slot] == null
      requires h.block in Live(heap.blocks) && h.kernelPage < pmm.totalPages && h.userPage < pmm.totalPages
      requires pmm.Pages()[h.kernelPage] && pmm.Pages()[h.userPage]
      requires forall i :: 0 <= i < MAX_PROCESSES && i != slot ==> table[i] != proc
      modifies heap.mem, heap`blocks, pmm.bitmap, pmm`usedPages, table
      ensures Valid() && Tracks(start, ledger[slot := None])
      ensures Live(heap.blocks) == Live(old(heap.blocks)) - {h.block}
      ensures pmm.Pages() == old(pmm.Pages())[h.kernelPage := false][h.userPage := false]
      ensures forall i :: 0 <= i < MAX_PROCESSES && i != slot ==> table[i] == old(table[i])
    {
      assert SlotOk(start[slot], table[slot], ledger[slot]);
      ghost var before := table[..];
      RemovedIs(before, proc, slot, 0);
      Destroy(proc);
      forall i | 0 <= i < MAX_PROCESSES ensures SlotOk(start[i], table[i], ledger[slot := None][i]) {
        assert table[i] == before[slot := null][i];
        assert i != slot ==> SlotOk(start[i], before[i], ledger[i]);
      }
    }

    /** The process in a tracked slot is in no other slot. */
    lemma OnlySlot(start: seq<Process?>, ledger: seq<Option<Holding>>, slot: nat)
      requires Tracks(start, ledger) && slot < MAX_PROCESSES && ledger[slot].Some?
      requires forall i, j ::
        (0 <= i < MAX_PROCESSES && 0 <= j < MAX_PROCESSES && i != j && ledger[i].Some? && ledger[j].Some?) ==>
        Disjoint(ledger[i].value, ledger[j].value)
      requires forall j :: 0 <= j < MAX_PROCESSES ==> table[slot] != start[j]
      ensures forall i :: 0 <= i < MAX_PROCESSES && i != slot ==> table[i] != table[slot]
    {
      assert SlotOk(start[slot], table[slot], ledger[slot]);
      forall i | 0 <= i < MAX_PROCESSES && i != slot ensures table[i] != table[slot] {
        assert SlotOk(start[i], table[i], ledger[i]);
        if ledger[i].Some? { assert Disjoint(ledger[i].value, ledger[slot].value); }
      }
    }

    /** Runs any script of process creations and destructions; a destruction names a slot and
        applies to processes the script created. In every state the resources in use are
        those at the start plus those of the live processes of the script, so once the table
        is back to what it was, so are the heap, the page bitmap and the page counter. */
    method Churn(script: seq<Action>)
      requires Valid()
      modifies `nextPid, heap.mem, heap`blocks, pmm.bitmap, pmm`usedPages, table
      ensures Valid()
      ensures table[..] == old(table[..]) ==>
              heap.blocks == old(heap.blocks) && pmm.Pages() == old(pmm.Pages()) &&
              pmm.usedPages == old(pmm.usedPages)
    {
      var start := table[..];
      ghost var bs0, live0, pages0 := heap.blocks, Live(heap.blocks), pmm.Pages();
      ghost var ledger: seq<Option<Holding>> := seq(MAX_PROCESSES, _ => None);
      for n := 0 to |script|
        invariant Valid() && Tracks(start, ledger)
        invariant Balanced(ledger, live0, pages0, Live(heap.blocks), pmm.Pages())
        invariant forall i :: 0 <= i < MAX_PROCESSES && ledger[i].Some? ==> fresh(table[i])
      {
        match script[n] {
          case Spawn(name, entry) => ledger := SpawnTracked(name, entry, start, ledger, live0, pages0);
          case Kill(slot) => ledger := KillTracked(slot, start, ledger, live0, pages0);
        }
      }
      if table[..] == start {
        forall i | 0 <= i < MAX_PROCESSES ensures ledger[i].None? {
          assert SlotOk(start[i], table[i], ledger[i]);
          assert table[i] == start[i];
        }
        BalancedEmpty(ledger, live0, pages0, Live(heap.blocks), pmm.Pages());
        Canonical(heap.blocks, bs0, heap.heapStart, heap.End());
      }
    }
  }

  ghost predicate SlotOk(before: Process?, now: Process?, entry: Option<Holding>)
    reads if now == null then {} else {now}
  {
    match entry
    case None => now == before
    case Some(h) =>
      before == null && now != null && !now.idle && now.block == h.block && now.block.Payload() == now.addr &&
      now.HoldsStacks(h.kernelPage, h.userPage)
  }

  lemma {:induction false} RemovedIs(table: seq<Process?>, proc: Process, slot: nat, i: nat)
    requires i <= slot < |table| && table[slot] == proc
    requires forall j :: i <= j < |table| && j != slot ==> table[j] != proc
    ensures Removed(table, proc, i) == table[slot := null]
    decreases slot - i
  {
    if i < slot { RemovedIs(table, proc, slot, i + 1); }
  }
}

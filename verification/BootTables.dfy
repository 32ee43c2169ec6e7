/** The page tables that the boot code leaves (src/boot/boot.asm). */
module BootTables {
  import opened Common
  import opened PageTables
  import opened Paging
  import opened Pmm

  // Six pages one behind the other: the top-level table at p4, the one below it at p4 + 1, and
  // four page directories from p4 + 2 on, which map the first 4 GiB with two-megabyte pages.

  /** The address of a table with the present, write and user bits. */
  function BootLink(page: nat): nat { page * 0x1000 + 7 }

  /** Entry i of the page directories: the address with the present, write, user and size bits. */
  function BootPage(i: nat): nat { i * 0x20_0000 + 0x87 }

  function BootWord(p4: nat, k: nat): nat {
    if k == 0 then BootLink(p4 + 1)
    else if 512 <= k < 516 then BootLink(p4 + 2 + (k - 512))
    else if 1024 <= k < 3072 then BootPage(k - 1024)
    else 0
  }

  ghost predicate InLowMemory(p4: nat, size: nat) { 512 * p4 + 3072 <= size && p4 + 6 <= 0x10_0000 }

  /** The 3072 words of the six tables. */
  ghost predicate BootTables(m: seq<u64>, p4: nat) {
    InLowMemory(p4, |m|) && forall a: nat :: 512 * p4 <= a < 512 * p4 + 3072 ==> m[a] == BootWord(p4, a - 512 * p4)
  }

  /** setup_page_tables, on tables that are zero. */
  method SetupPageTables(mem: array<u64>, p4: nat)
    requires InLowMemory(p4, mem.Length) && forall a :: 512 * p4 <= a < 512 * p4 + 3072 ==> mem[a] == 0
    modifies mem
    ensures BootTables(mem[..], p4)
    ensures forall a :: 0 <= a < mem.Length && !(512 * p4 <= a < 512 * p4 + 3072) ==> mem[a] == old(mem[a])
  {
    mem[512 * p4] := BootLink(p4 + 1);
    mem[512 * p4 + 512] := BootLink(p4 + 2);
    mem[512 * p4 + 513] := BootLink(p4 + 3);
    mem[512 * p4 + 514] := BootLink(p4 + 4);
    mem[512 * p4 + 515] := BootLink(p4 + 5);
    for i := 0 to 2048
      invariant forall a: nat :: 512 * p4 <= a < 512 * p4 + 3072 ==>
        mem[a] == if a < 512 * p4 + 1024 + i then BootWord(p4, a - 512 * p4) else 0
      invariant forall a :: 0 <= a < mem.Length && !(512 * p4 <= a < 512 * p4 + 3072) ==> mem[a] == old(mem[a])
    {
      mem[512 * p4 + 1024 + i] := BootPage(i);
    }
  }

  lemma BootEntry(m: seq<u64>, p4: nat, t: nat, i: nat)
    requires BootTables(m, p4) && t < 6 && i < 512
    ensures Entry(m, p4 + t, i) == BootWord(p4, 512 * t + i)
  {
    assert m[512 * p4 + (512 * t + i)] == BootWord(p4, 512 * t + i);
  }

  lemma BootLinkBits(page: nat)
    requires page < 0x10_0000
    ensures BootLink(page) < 0x1_0000_0000_0000_0000 && Present(BootLink(page)) && !Huge(BootLink(page)) &&
            Frame(BootLink(page)) == page
  {
    assert BootLink(page) / 0x80 == 32 * page;
  }

  lemma BootPageBits(i: nat)
    requires i < 2048
    ensures BootPage(i) < 0x1_0000_0000_0000_0000 && Present(BootPage(i)) && Huge(BootPage(i))
    ensures BootPage(i) / 0x20_0000 == i
  {
    Bit7(BootPage(i), 0x4000 * i + 1, 7);
    OddNumber(BootPage(i), i * 0x10_0000 + 0x43);
    OddNumber(0x4000 * i + 1, 0x2000 * i);
    BigPage(BootPage(i), i);
  }

  /** The tables are present, writable and open to user code, and nothing else; the large pages
      have the size bit on top. */
  lemma BootFlags(page: nat, i: nat, k: nat)
    requires k < 12
    ensures Bit(BootLink(page), k) <==> k <= 2
    ensures Bit(BootPage(i), k) <==> k <= 2 || k == 7
  {
    LowTwelve(BootLink(page), page, 7);
    LowBit(BootLink(page), 12, k);
    SevenBits(k);
    LowTwelve(BootPage(i), 0x200 * i, 0x87);
    LowBit(BootPage(i), 12, k);
    SizeBits(k);
  }

  lemma HalfBit(x: nat, k: nat)
    requires k > 0
    ensures Bit(x, k) == Bit(x / 2, k - 1)
  {}

  lemma SevenBits(k: nat)
    ensures Bit(7, k) <==> k <= 2
  {
    if k > 0 {
      HalfBit(7, k);
      LowThree(3, k - 1);
    }
  }

  lemma {:induction false} SizeBits(k: nat)
    ensures Bit(0x87, k) <==> k <= 2 || k == 7
  {
    if k > 0 { HalfBit(0x87, k); }
    if k > 1 { HalfBit(67, k - 1); }
    if k > 2 { HalfBit(33, k - 2); }
    if k > 3 { HalfBit(16, k - 3); }
    if k > 4 { HalfBit(8, k - 4); }
    if k > 5 { HalfBit(4, k - 5); }
    if k > 6 { HalfBit(2, k - 6); }
    if k > 7 { HalfBit(1, k - 7); NoBits(k - 8); }
  }

  lemma Bit7(e: nat, q: nat, r: nat)
    requires e == q * 0x80 + r && r < 0x80
    ensures e / 0x80 == q
  {}

  lemma OddNumber(e: nat, h: nat)
    requires e == 2 * h + 1
    ensures e % 2 == 1
  {}

  lemma BigPage(e: nat, i: nat)
    requires e == i * 0x20_0000 + 0x87
    ensures e / 0x20_0000 == i
  {}

  /** The indices that lead to the six tables. */
  function BootOwner(p4: nat): map<nat, seq<nat>> {
    map[p4 := [], p4 + 1 := [0], p4 + 2 := [0, 0], p4 + 3 := [0, 1], p4 + 4 := [0, 2], p4 + 5 := [0, 3]]
  }

  lemma BootLinkOk(m: seq<u64>, p4: nat, t: nat, i: nat)
    requires BootTables(m, p4) && t < 6 && i < 512
    ensures LinkOk(m, BootOwner(p4), p4 + t, i)
  {
    BootEntry(m, p4, t, i);
    if t == 0 && i == 0 { BootLinkBits(p4 + 1); }
    if t == 1 && i < 4 { BootLinkBits(p4 + 2 + i); }
    if t >= 2 { BootPageBits(512 * t + i - 1024); }
  }

  /** The six tables form a tree. */
  lemma BootTree(m: seq<u64>, p4: nat)
    requires BootTables(m, p4)
    ensures Tree(m, p4, BootOwner(p4))
  {
    var owner := BootOwner(p4);
    forall p | p in owner ensures TableOk(m, owner, p) {
      forall i | 0 <= i < 512 ensures LinkOk(m, owner, p, i) { BootLinkOk(m, p4, p - p4, i); }
    }
  }

  lemma BootWalk(m: seq<u64>, p4: nat, idx: seq<nat>)
    requires BootTables(m, p4) && ValidIndices(idx)
    ensures Walk(m, p4, idx, 1) == if idx[0] == 0 then Some(p4 + 1) else None
    ensures Walk(m, p4, idx, 2) == if idx[0] == 0 && idx[1] < 4 then Some(p4 + 2 + idx[1]) else None
  {
    BootTop(m, p4, idx);
    BootEntry(m, p4, 1, idx[1]);
    if idx[1] < 4 { BootLinkBits(p4 + 2 + idx[1]); }
  }

  lemma BootTop(m: seq<u64>, p4: nat, idx: seq<nat>)
    requires BootTables(m, p4) && ValidIndices(idx)
    ensures Walk(m, p4, idx, 1) == if idx[0] == 0 then Some(p4 + 1) else None
  {
    assert Walk(m, p4, idx, 0) == Some(p4);
    BootEntry(m, p4, 0, idx[0]);
    BootLinkBits(p4 + 1);
  }

  lemma BootLarge(m: seq<u64>, p4: nat, idx: seq<nat>)
    requires BootTables(m, p4) && ValidIndices(idx)
    ensures LargeAt(m, p4, idx, 1).None?
    ensures LargeAt(m, p4, idx, 2) == if idx[0] == 0 && idx[1] < 4 then Some(BootPage(512 * idx[1] + idx[2])) else None
  {
    BootWalk(m, p4, idx);
    BootEntry(m, p4, 1, idx[1]);
    if idx[1] < 4 {
      BootLinkBits(p4 + 2 + idx[1]);
      BootEntry(m, p4, 2 + idx[1], idx[2]);
      BootPageBits(512 * idx[1] + idx[2]);
    }
  }

  lemma LowPages(v: u64)
    ensures v % 0x1_0000_0000_0000 < 0x1_0000_0000 <==> Vpn(v) < 0x10_0000
  {
    var a := v / 0x1000;
    LowMod(v, a / 0x10_0000_0000, a % 0x10_0000_0000 * 0x1000 + v % 0x1000);
  }

  lemma LowMod(v: nat, q: nat, low: nat)
    requires v == q * 0x1_0000_0000_0000 + low && low < 0x1_0000_0000_0000
    ensures v % 0x1_0000_0000_0000 == low
  {}

  lemma LowIndices(v: u64)
    ensures Indices(v)[0] == 0 && Indices(v)[1] < 4 <==> v % 0x1_0000_0000_0000 < 0x1_0000_0000
  {
    LowPages(v);
    VpnDigits(v);
    var i := Indices(v);
    assert i[0] < 512 && i[1] < 512 && i[2] < 512 && i[3] < 512;
  }

  lemma LowPage(v: u64, i: nat)
    requires v < 0x1_0000_0000 && i == 512 * Indices(v)[1] + Indices(v)[2]
    ensures i < 2048 && v == i * 0x20_0000 + v % 0x20_0000
  {
    var a := v / 0x20_0000;
    assert a / 512 == v / 0x4000_0000 < 4;
  }

  /** After boot exactly the addresses of the first 4 GiB are behind large pages. */
  lemma BootReach(m: seq<u64>, p4: nat, v: u64)
    requires BootTables(m, p4)
    ensures HugeOnPath(m, p4, Indices(v)) <==> v % 0x1_0000_0000_0000 < 0x1_0000_0000
  {
    BootLarge(m, p4, Indices(v));
    LowIndices(v);
  }

  /** And the processor maps each of them to itself. */
  lemma BootIdentity(m: seq<u64>, p4: nat, v: u64)
    requires BootTables(m, p4) && v < 0x1_0000_0000
    ensures Processor(m, p4, v) == Some(v)
  {
    var i := 512 * Indices(v)[1] + Indices(v)[2];
    BootAddress(v, i);
    BootBehind(m, p4, v, i);
    BehindLarge(m, p4, v, BootPage(i));
  }

  lemma BootBehind(m: seq<u64>, p4: nat, v: u64, i: nat)
    requires BootTables(m, p4) && v < 0x1_0000_0000 && i == 512 * Indices(v)[1] + Indices(v)[2]
    ensures LargeAt(m, p4, Indices(v), 1).None? && LargeAt(m, p4, Indices(v), 2) == Some(BootPage(i))
  {
    LowIndices(v);
    BootLarge(m, p4, Indices(v));
  }

  lemma BehindLarge(m: seq<u64>, root: nat, v: u64, e: u64)
    requires LargeAt(m, root, Indices(v), 1).None? && LargeAt(m, root, Indices(v), 2) == Some(e)
    ensures Processor(m, root, v) == Some(InTwoMegabytes(e, v))
  {
    ProcessorIs(m, root, v);
  }

  lemma BootAddress(v: u64, i: nat)
    requires v < 0x1_0000_0000 && i == 512 * Indices(v)[1] + Indices(v)[2]
    ensures i < 2048 && BootPage(i) < 0x1_0000_0000_0000_0000 && InTwoMegabytes(BootPage(i), v) == v
  {
    LowPage(v, i);
    BootPageBits(i);
  }

  /** paging_init: the mapping operations take over these tables, and all calls outside the
      first 4 GiB act on them as on a flat map. */
  method Adopt(memory: array<u64>, pages: PageAllocator, p4: nat) returns (space: AddressSpace)
    requires pages.Valid() && 512 * pages.totalPages <= memory.Length && pages.totalPages <= 0x100_0000_0000
    requires BootTables(memory[..], p4)
    requires forall p :: p4 <= p < p4 + 6 && p < pages.totalPages ==> pages.Pages()[p]
    ensures space.Valid() && space.mem == memory && space.pmm == pages && space.root == p4
    ensures forall v: u64 :: space.Reachable(v) <==> v % 0x1_0000_0000_0000 >= 0x1_0000_0000
  {
    BootTree(memory[..], p4);
    space := new AddressSpace(memory, pages, p4, BootOwner(p4));
    forall v: u64 ensures space.Reachable(v) <==> v % 0x1_0000_0000_0000 >= 0x1_0000_0000 {
      BootReach(memory[..], p4, v);
    }
  }
}

/** Four-level page tables as a tree of 512-entry pages (src/kernel/paging.cpp). */
module PageTables {
  import opened Common

  // ---------------------------------------------------------------------
  // Entries and addresses.
  // ---------------------------------------------------------------------

  predicate Present(e: u64) { e % 2 == 1 }

  /** Bit 7, the page-size bit. */
  predicate Huge(e: u64) { e / 0x80 % 2 == 1 }

  /** Page number held in bits 12 to 51. */
  function Frame(e: u64): nat { e / 0x1000 % 0x100_0000_0000 }

  /** The entry with the bits outside 12 to 51 cleared. */
  function PteAddr(e: u64): u64 { Frame(e) * 0x1000 }

  /** The four 9-bit table indices of a virtual address, top level first. */
  function Indices(v: u64): (idx: seq<nat>)
    ensures |idx| == 4 && forall j :: 0 <= j < 4 ==> idx[j] < 512
  {
    [v / 0x80_0000_0000 % 512, v / 0x4000_0000 % 512, v / 0x20_0000 % 512, v / 0x1000 % 512]
  }

  /** Virtual page number: bits 12 to 47. */
  function Vpn(v: u64): nat { v / 0x1000 % 0x10_0000_0000 }

  lemma VpnDigits(v: u64)
    ensures var i := Indices(v);
            Vpn(v) == ((i[0] * 512 + i[1]) * 512 + i[2]) * 512 + i[3]
  {
    var a := v / 0x1000;
    var b := a / 512;
    var c := b / 512;
    var d := c / 512;
    ByteDigits(v, a, b, c, d);
    FourDigits(a, b, c, d);
  }

  lemma ByteDigits(v: u64, a: nat, b: nat, c: nat, d: nat)
    requires a == v / 0x1000 && b == a / 512 && c == b / 512 && d == c / 512
    ensures b == v / 0x20_0000 && c == v / 0x4000_0000 && d == v / 0x80_0000_0000
  {}

  lemma FourDigits(a: nat, b: nat, c: nat, d: nat)
    requires b == a / 512 && c == b / 512 && d == c / 512
    ensures a % 0x10_0000_0000 == ((d % 512 * 512 + c % 512) * 512 + b % 512) * 512 + a % 512
  {
    var i, j, k, l := d % 512, c % 512, b % 512, a % 512;
    assert a == 512 * b + l && b == 512 * c + k && c == 512 * d + j;
    Mod36(a, d / 512, ((i * 512 + j) * 512 + k) * 512 + l);
  }

  lemma Mod36(a: nat, q: nat, low: nat)
    requires a == q * 0x10_0000_0000 + low && low < 0x10_0000_0000
    ensures a % 0x10_0000_0000 == low
  {}

  lemma SameIndices(v: u64, w: u64)
    ensures Indices(v) == Indices(w) <==> Vpn(v) == Vpn(w)
  {
    VpnDigits(v);
    VpnDigits(w);
    var i, j := Indices(v), Indices(w);
    if Vpn(v) == Vpn(w) {
      Digit((i[0] * 512 + i[1]) * 512 + i[2], i[3], (j[0] * 512 + j[1]) * 512 + j[2], j[3]);
      Digit(i[0] * 512 + i[1], i[2], j[0] * 512 + j[1], j[2]);
      Digit(i[0], i[1], j[0], j[1]);
    }
  }

  lemma Digit(p: nat, d: nat, p': nat, d': nat)
    requires p * 512 + d == p' * 512 + d' && d < 512 && d' < 512
    ensures p == p' && d == d'
  {}

  // ---------------------------------------------------------------------
  // Bitwise or.
  // ---------------------------------------------------------------------

  function BitOr(x: nat, y: nat): nat {
    if x == 0 then y else if y == 0 then x
    else 2 * BitOr(x / 2, y / 2) + if x % 2 == 1 || y % 2 == 1 then 1 else 0
  }

  function Pow2(k: nat): nat { if k == 0 then 1 else 2 * Pow2(k - 1) }

  /** x without its k lowest bits, and those bits. */
  function High(x: nat, k: nat): nat
    decreases k, x
  {
    if k == 0 then x else High(x / 2, k - 1)
  }

  function Low(x: nat, k: nat): nat
    decreases k, x
  {
    if k == 0 then 0 else 2 * Low(x / 2, k - 1) + x % 2
  }

  lemma {:induction false} HighLow(x: nat, k: nat)
    ensures x == High(x, k) * Pow2(k) + Low(x, k) && Low(x, k) < Pow2(k)
  {
    if k > 0 {
      HighLow(x / 2, k - 1);
      TwiceProduct(High(x / 2, k - 1), Pow2(k - 1));
    }
  }

  lemma TwiceProduct(a: nat, b: nat)
    ensures a * (2 * b) == 2 * (a * b) && (2 * b) * a == 2 * (b * a)
  {}

  lemma {:induction false} OrParts(x: nat, y: nat, k: nat)
    ensures High(BitOr(x, y), k) == BitOr(High(x, k), High(y, k))
    ensures Low(BitOr(x, y), k) == BitOr(Low(x, k), Low(y, k))
  {
    if k > 0 {
      OrParts(x / 2, y / 2, k - 1);
      OrHalf(x, y);
      OrHalf(Low(x, k), Low(y, k));
    }
  }

  lemma OrHalf(x: nat, y: nat)
    ensures BitOr(x, y) / 2 == BitOr(x / 2, y / 2)
    ensures BitOr(x, y) % 2 == if x % 2 == 1 || y % 2 == 1 then 1 else 0
    ensures BitOr(x, y) == 2 * BitOr(x / 2, y / 2) + if x % 2 == 1 || y % 2 == 1 then 1 else 0
  {}

  lemma {:induction false} OrBound(x: nat, y: nat, k: nat)
    requires x < Pow2(k) && y < Pow2(k)
    ensures BitOr(x, y) < Pow2(k)
  {
    if k > 0 { OrBound(x / 2, y / 2, k - 1); OrHalf(x, y); }
  }

  lemma {:induction false} Pow2Add(j: nat, k: nat)
    ensures Pow2(j + k) == Pow2(j) * Pow2(k)
  {
    if j > 0 {
      Pow2Add(j - 1, k);
      TwiceProduct(Pow2(k), Pow2(j - 1));
    }
  }

  lemma Pow2Values()
    ensures Pow2(12) == 0x1000 && Pow2(40) == 0x100_0000_0000 && Pow2(64) == 0x1_0000_0000_0000_0000
  {
    assert Pow2(8) == 0x100;
    Pow2Add(8, 4);
    Pow2Add(8, 8);
    Pow2Add(16, 16);
    Pow2Add(32, 8);
    Pow2Add(32, 32);
  }

  lemma FrameBits(x: u64)
    ensures Frame(x) == Low(High(x, 12), 40)
  {
    HighIs(x);
    LowIs(High(x, 12));
  }

  lemma HighIs(x: nat)
    ensures High(x, 12) == x / 0x1000
  {
    Pow2Values();
    HighLow(x, 12);
    var h, l := High(x, 12), Low(x, 12);
    assert h * Pow2(12) == h * 0x1000;
    assert x == h * 0x1000 + l && l < 0x1000;
  }

  lemma LowIs(x: nat)
    ensures Low(x, 40) == x % 0x100_0000_0000
  {
    Pow2Values();
    HighLow(x, 40);
    var h, l := High(x, 40), Low(x, 40);
    assert h * Pow2(40) == h * 0x100_0000_0000;
    Mod40(x, h, l);
  }

  lemma Mod40(x: nat, h: nat, l: nat)
    requires x == h * 0x100_0000_0000 + l && l < 0x100_0000_0000
    ensures x % 0x100_0000_0000 == l
  {}

  /** The frame and the presence of a word put together with |. */
  lemma OrFrame(x: u64, y: u64)
    ensures BitOr(x, y) < 0x1_0000_0000_0000_0000
    ensures Frame(BitOr(x, y)) == BitOr(Frame(x), Frame(y))
    ensures Present(BitOr(x, y)) == (Present(x) || Present(y))
  {
    Pow2Values();
    OrBound(x, y, 64);
    OrHalf(x, y);
    OrParts(x, y, 12);
    OrParts(High(x, 12), High(y, 12), 40);
    FrameBits(x);
    FrameBits(y);
    FrameBits(BitOr(x, y));
  }

  lemma PteAddrBits(e: u64)
    ensures Frame(PteAddr(e)) == Frame(e) && !Present(PteAddr(e))
  {}

  /** The word paging_map stores. */
  function LeafEntry(phys: u64, flags: u64): (e: u64)
    ensures Present(e) == Present(flags)
    ensures Frame(e) == BitOr(Frame(phys), Frame(flags))
  {
    OrFrame(PteAddr(phys), flags);
    PteAddrBits(phys);
    BitOr(PteAddr(phys), flags)
  }

  /** Bit k of x. */
  predicate Bit(x: nat, k: nat) { High(x, k) % 2 == 1 }

  lemma OrBit(x: nat, y: nat, k: nat)
    ensures Bit(BitOr(x, y), k) <==> Bit(x, k) || Bit(y, k)
  {
    OrParts(x, y, k);
    OrHalf(High(x, k), High(y, k));
  }

  lemma {:induction false} HighHigh(x: nat, j: nat, k: nat)
    ensures High(High(x, j), k) == High(x, j + k)
    decreases j
  {
    if j > 0 { HighHigh(x / 2, j - 1, k); }
  }

  lemma {:induction false} LowBit(x: nat, n: nat, k: nat)
    ensures Bit(Low(x, n), k) <==> k < n && Bit(x, k)
    decreases n
  {
    if n == 0 {
      NoBits(k);
    } else if k > 0 {
      LowBit(x / 2, n - 1, k - 1);
      assert Low(x, n) / 2 == Low(x / 2, n - 1);
    }
  }

  lemma {:induction false} NoBits(k: nat)
    ensures !Bit(0, k)
    decreases k
  {
    if k > 0 { NoBits(k - 1); }
  }

  lemma {:induction false} ShiftBit(x: nat, j: nat, k: nat)
    ensures Bit(x * Pow2(j), k) <==> k >= j && Bit(x, k - j)
    decreases j
  {
    if j > 0 {
      TwiceProduct(x, Pow2(j - 1));
      var y := x * Pow2(j - 1);
      assert x * Pow2(j) == 2 * y;
      if k > 0 { ShiftBit(x, j - 1, k - 1); }
    }
  }

  lemma AddressBit(e: u64, k: nat)
    ensures Bit(PteAddr(e), k) <==> 12 <= k < 52 && Bit(e, k)
  {
    FrameBits(e);
    Pow2Values();
    ShiftBit(Frame(e), 12, k);
    if k >= 12 {
      LowBit(High(e, 12), 40, k - 12);
      HighHigh(e, 12, k - 12);
    }
  }

  /** Bit by bit: the entry has every flag, and from the physical address bits 12 to 51. */
  lemma LeafBit(phys: u64, flags: u64, k: nat)
    ensures Bit(LeafEntry(phys, flags), k) <==> Bit(flags, k) || (12 <= k < 52 && Bit(phys, k))
  {
    OrBit(PteAddr(phys), flags, k);
    AddressBit(phys, k);
  }

  // ---------------------------------------------------------------------
  // The tree. Memory is a sequence of words, 512 to a page.
  // ---------------------------------------------------------------------

  function Entry(m: seq<u64>, page: nat, i: nat): u64 {
    if 512 * page + i < |m| then m[512 * page + i] else 0
  }

  /** An entry at depth n that leads to a table: present, and not a large page, which
      only depths 1 and 2 may hold. */
  predicate Link(e: u64, n: nat) { Present(e) && !(1 <= n <= 2 && Huge(e)) }

  /** The table reached from the root by the first n indices. */
  function Walk(m: seq<u64>, root: nat, idx: seq<nat>, n: nat): Option<nat>
    requires n <= |idx|
  {
    if n == 0 then Some(root)
    else
      match Walk(m, root, idx, n - 1)
      case None => None
      case Some(p) =>
        var e := Entry(m, p, idx[n - 1]);
        if Link(e, n - 1) then Some(Frame(e)) else None
  }

  /** The last-level entry for the four indices; 0 when a table is missing. */
  function Leaf(m: seq<u64>, root: nat, idx: seq<nat>): u64
    requires |idx| == 4
  {
    match Walk(m, root, idx, 3)
    case None => 0
    case Some(p) => Entry(m, p, idx[3])
  }

  predicate HugeAt(m: seq<u64>, root: nat, idx: seq<nat>, n: nat)
    requires n < |idx|
  {
    var w := Walk(m, root, idx, n);
    w.Some? && Present(Entry(m, w.value, idx[n])) && Huge(Entry(m, w.value, idx[n]))
  }

  /** A large page on the way down. */
  predicate HugeOnPath(m: seq<u64>, root: nat, idx: seq<nat>)
    requires |idx| == 4
  {
    HugeAt(m, root, idx, 1) || HugeAt(m, root, idx, 2)
  }

  /** The entry of a large page at depth n of the way down. */
  function LargeAt(m: seq<u64>, root: nat, idx: seq<nat>, n: nat): Option<u64>
    requires n < |idx|
  {
    if HugeAt(m, root, idx, n) then Some(Entry(m, Walk(m, root, idx, n).value, idx[n])) else None
  }

  /** Both memories show the same large pages on the way. */
  ghost predicate SameLarge(m: seq<u64>, m': seq<u64>, root: nat, idx: seq<nat>)
    requires |idx| == 4
  {
    LargeAt(m', root, idx, 1) == LargeAt(m, root, idx, 1) && LargeAt(m', root, idx, 2) == LargeAt(m, root, idx, 2)
  }

  /** What a virtual address translates to. */
  function Translation(m: seq<u64>, root: nat, v: u64): Option<nat> {
    var e := Leaf(m, root, Indices(v));
    if Present(e) then Some(PteAddr(e) + v % 0x1000) else None
  }

  /** owner gives, for every table page, the indices that lead to it. Every link goes to
      a table owned by the extended path, so no table has two parents. */
  ghost predicate Tree(m: seq<u64>, root: nat, owner: map<nat, seq<nat>>) {
    root in owner && owner[root] == [] &&
    forall p :: p in owner ==> TableOk(m, owner, p)
  }

  ghost predicate TableOk(m: seq<u64>, owner: map<nat, seq<nat>>, p: nat)
    requires p in owner
  {
    512 * p + 512 <= |m| && |owner[p]| <= 3 &&
    forall i :: 0 <= i < 512 ==> LinkOk(m, owner, p, i)
  }

  ghost predicate LinkOk(m: seq<u64>, owner: map<nat, seq<nat>>, p: nat, i: nat)
    requires p in owner
  {
    var e := Entry(m, p, i);
    |owner[p]| < 3 && Link(e, |owner[p]|) ==> Frame(e) in owner && owner[Frame(e)] == owner[p] + [i]
  }

  ghost predicate ValidIndices(idx: seq<nat>) {
    |idx| == 4 && forall j :: 0 <= j < 4 ==> idx[j] < 512
  }

  lemma {:induction false} WalkOwned(m: seq<u64>, root: nat, owner: map<nat, seq<nat>>, idx: seq<nat>, n: nat)
    requires Tree(m, root, owner) && ValidIndices(idx) && n <= 3
    ensures Walk(m, root, idx, n).Some? ==>
            var p := Walk(m, root, idx, n).value;
            p in owner && |owner[p]| == n && forall j :: 0 <= j < n ==> owner[p][j] == idx[j]
  {
    if n > 0 && Walk(m, root, idx, n).Some? {
      WalkOwned(m, root, owner, idx, n - 1);
      var p := Walk(m, root, idx, n - 1).value;
      assert TableOk(m, owner, p) && LinkOk(m, owner, p, idx[n - 1]);
    }
  }

  /** Walks read only the upper tables of the tree. */
  lemma {:induction false} WalkSame(m: seq<u64>, m': seq<u64>, root: nat, owner: map<nat, seq<nat>>, idx: seq<nat>, n: nat)
    requires Tree(m, root, owner) && ValidIndices(idx) && n <= 3
    requires forall p, i :: p in owner && |owner[p]| < 3 && 0 <= i < 512 ==> Entry(m, p, i) == Entry(m', p, i)
    ensures Walk(m, root, idx, n) == Walk(m', root, idx, n)
  {
    if n > 0 {
      WalkSame(m, m', root, owner, idx, n - 1);
      WalkOwned(m, root, owner, idx, n - 1);
    }
  }

  /** Storing a last-level entry changes the leaf of its own indices only. */
  lemma WriteLeaf(m: seq<u64>, root: nat, owner: map<nat, seq<nat>>, idx: seq<nat>, e: u64, p: nat)
    requires Tree(m, root, owner) && ValidIndices(idx) && Walk(m, root, idx, 3) == Some(p)
    requires 512 * p + idx[3] < |m|
    ensures var m' := m[512 * p + idx[3] := e];
            Tree(m', root, owner) &&
            forall other :: ValidIndices(other) ==>
              Leaf(m', root, other) == (if other == idx then e else Leaf(m, root, other)) &&
              SameLarge(m, m', root, other)
  {
    var m' := m[512 * p + idx[3] := e];
    WalkOwned(m, root, owner, idx, 3);
    forall q, i | q in owner && |owner[q]| < 3 && 0 <= i < 512
      ensures Entry(m, q, i) == Entry(m', q, i)
    {
      assert q != p;
    }
    forall q | q in owner ensures TableOk(m', owner, q) {
      assert TableOk(m, owner, q);
      forall i | 0 <= i < 512 ensures LinkOk(m', owner, q, i) { assert LinkOk(m, owner, q, i); }
    }
    forall other | ValidIndices(other)
      ensures Leaf(m', root, other) == if other == idx then e else Leaf(m, root, other)
      ensures SameLarge(m, m', root, other)
    {
      WalkSame(m, m', root, owner, other, 1);
      WalkSame(m, m', root, owner, other, 2);
      WalkSame(m, m', root, owner, other, 3);
      WalkOwned(m, root, owner, other, 1);
      WalkOwned(m, root, owner, other, 2);
      WalkOwned(m, root, owner, other, 3);
      if Walk(m, root, other, 3) == Some(p) && other[3] == idx[3] {
        assert other == idx;
      }
    }
  }

  /** Two memories that show the same translations and the same large pages. */
  ghost predicate SameView(m: seq<u64>, m': seq<u64>, root: nat) {
    forall idx :: ValidIndices(idx) ==>
      Leaf(m', root, idx) == Leaf(m, root, idx) && SameLarge(m, m', root, idx)
  }

  /** Changing pages that are not tables changes nothing. */
  lemma OutsideTree(m: seq<u64>, m': seq<u64>, root: nat, owner: map<nat, seq<nat>>)
    requires Tree(m, root, owner) && |m| == |m'|
    requires forall p, i :: p in owner && 0 <= i < 512 ==> Entry(m, p, i) == Entry(m', p, i)
    ensures Tree(m', root, owner) && SameView(m, m', root)
  {
    forall q | q in owner ensures TableOk(m', owner, q) {
      assert TableOk(m, owner, q);
      forall i | 0 <= i < 512 ensures LinkOk(m', owner, q, i) { assert LinkOk(m, owner, q, i); }
    }
    forall idx | ValidIndices(idx)
      ensures Leaf(m', root, idx) == Leaf(m, root, idx) && SameLarge(m, m', root, idx)
    {
      SameWalks(m, m', root, owner, idx);
      WalkOwned(m, root, owner, idx, 1);
      WalkOwned(m, root, owner, idx, 2);
      WalkOwned(m, root, owner, idx, 3);
    }
  }

  lemma SameWalks(m: seq<u64>, m': seq<u64>, root: nat, owner: map<nat, seq<nat>>, idx: seq<nat>)
    requires Tree(m, root, owner) && ValidIndices(idx)
    requires forall p, i :: p in owner && 0 <= i < 512 ==> Entry(m, p, i) == Entry(m', p, i)
    ensures forall n: nat :: n <= 3 ==> Walk(m', root, idx, n) == Walk(m, root, idx, n)
  {
    forall n: nat | n <= 3 ensures Walk(m', root, idx, n) == Walk(m, root, idx, n) {
      WalkSame(m, m', root, owner, idx, n);
    }
  }

  /** The entry that links a table: its address with the present and write bits. */
  function TableEntry(page: nat): u64
    requires page < 0x100_0000_0000
  {
    page * 0x1000 + 3
  }

  lemma TableEntryBits(page: nat, n: nat)
    requires page < 0x100_0000_0000
    ensures Link(TableEntry(page), n) && Frame(TableEntry(page)) == page && !Huge(TableEntry(page))
  {
    assert TableEntry(page) / 0x80 == 32 * page;
  }

  /** Present and writable, nothing else. */
  lemma TableEntryFlags(page: nat, k: nat)
    requires page < 0x100_0000_0000 && k < 12
    ensures Bit(TableEntry(page), k) <==> k <= 1
  {
    LowTwelve(TableEntry(page), page, 3);
    LowBit(TableEntry(page), 12, k);
    LowThree(3, k);
  }

  lemma LowTwelve(x: nat, h: nat, l: nat)
    requires x == h * 0x1000 + l && l < 0x1000
    ensures Low(x, 12) == l
  {
    HighLow(x, 12);
    Pow2Values();
    HighIs(x);
  }

  lemma LowThree(x: nat, k: nat)
    requires x == 3
    ensures Bit(x, k) <==> k <= 1
  {
    if k == 0 {
      assert High(x, 0) == 3;
    } else {
      assert High(x, k) == High(1, k - 1);
      if k == 1 { assert High(1, 0) == 1; } else { assert High(1, k - 1) == High(0, k - 2); NoBits(k - 2); }
    }
  }

  /** Linking the empty table c at entry i of table p. */
  ghost predicate Linkable(m: seq<u64>, root: nat, owner: map<nat, seq<nat>>, p: nat, i: nat, c: nat) {
    Tree(m, root, owner) && p in owner && |owner[p]| < 3 && i < 512 && !Present(Entry(m, p, i)) &&
    c !in owner && 512 * c + 512 <= |m| && c < 0x100_0000_0000 &&
    forall j :: 0 <= j < 512 ==> Entry(m, c, j) == 0
  }

  lemma EntryUpdate(m: seq<u64>, p: nat, i: nat, e: u64, q: nat, j: nat)
    requires 512 * p + i < |m| && i < 512 && j < 512
    ensures Entry(m[512 * p + i := e], q, j) == if q == p && j == i then e else Entry(m, q, j)
  {}

  lemma {:induction false} WalkAdded(m: seq<u64>, root: nat, owner: map<nat, seq<nat>>, p: nat, i: nat, c: nat,
                                     idx: seq<nat>, n: nat)
    requires Linkable(m, root, owner, p, i, c) && ValidIndices(idx) && n <= 3
    requires 512 * p + i < |m|
    ensures var m' := m[512 * p + i := TableEntry(c)];
            match Walk(m, root, idx, n)
            case Some(q) => Walk(m', root, idx, n) == Some(q)
            case None => Walk(m', root, idx, n).None? || Walk(m', root, idx, n) == Some(c)
  {
    if n > 0 {
      WalkAdded(m, root, owner, p, i, c, idx, n - 1);
      WalkOwned(m, root, owner, idx, n - 1);
      TableEntryBits(c, n - 1);
      EntryUpdate(m, p, i, TableEntry(c), c, idx[n - 1]);
      var w := Walk(m, root, idx, n - 1);
      if w.Some? { EntryUpdate(m, p, i, TableEntry(c), w.value, idx[n - 1]); }
    }
  }

  lemma LinkTableTree(m: seq<u64>, root: nat, owner: map<nat, seq<nat>>, p: nat, i: nat, c: nat)
    requires Linkable(m, root, owner, p, i, c) && 512 * p + i < |m|
    ensures Tree(m[512 * p + i := TableEntry(c)], root, owner[c := owner[p] + [i]])
  {
    var m', owner' := m[512 * p + i := TableEntry(c)], owner[c := owner[p] + [i]];
    forall q | q in owner' ensures TableOk(m', owner', q) {
      if q in owner { assert TableOk(m, owner, q); }
      forall j | 0 <= j < 512 ensures LinkOk(m', owner', q, j) {
        EntryUpdate(m, p, i, TableEntry(c), q, j);
        TableEntryBits(c, |owner[p]|);
        if q != c { assert LinkOk(m, owner, q, j); }
      }
    }
  }

  /** Linking an empty table keeps the tree and changes no translation. */
  lemma LinkTable(m: seq<u64>, root: nat, owner: map<nat, seq<nat>>, p: nat, i: nat, c: nat)
    requires Linkable(m, root, owner, p, i, c) && 512 * p + i < |m|
    ensures Tree(m[512 * p + i := TableEntry(c)], root, owner[c := owner[p] + [i]])
    ensures SameView(m, m[512 * p + i := TableEntry(c)], root)
  {
    LinkTableTree(m, root, owner, p, i, c);
    forall idx | ValidIndices(idx)
      ensures var m' := m[512 * p + i := TableEntry(c)];
              Leaf(m', root, idx) == Leaf(m, root, idx) && SameLarge(m, m', root, idx)
    {
      LinkTableLeaf(m, root, owner, p, i, c, idx);
      LinkTableHuge(m, root, owner, p, i, c, idx, 1);
      LinkTableHuge(m, root, owner, p, i, c, idx, 2);
    }
  }

  lemma LinkTableLeaf(m: seq<u64>, root: nat, owner: map<nat, seq<nat>>, p: nat, i: nat, c: nat, idx: seq<nat>)
    requires Linkable(m, root, owner, p, i, c) && 512 * p + i < |m| && ValidIndices(idx)
    ensures Leaf(m[512 * p + i := TableEntry(c)], root, idx) == Leaf(m, root, idx)
  {
    WalkAdded(m, root, owner, p, i, c, idx, 3);
    WalkOwned(m, root, owner, idx, 3);
    EntryUpdate(m, p, i, TableEntry(c), c, idx[3]);
    var w := Walk(m, root, idx, 3);
    if w.Some? { EntryUpdate(m, p, i, TableEntry(c), w.value, idx[3]); }
  }

  lemma LinkTableHuge(m: seq<u64>, root: nat, owner: map<nat, seq<nat>>, p: nat, i: nat, c: nat,
                      idx: seq<nat>, n: nat)
    requires Linkable(m, root, owner, p, i, c) && 512 * p + i < |m| && ValidIndices(idx) && n <= 2
    ensures LargeAt(m[512 * p + i := TableEntry(c)], root, idx, n) == LargeAt(m, root, idx, n)
  {
    WalkAdded(m, root, owner, p, i, c, idx, n);
    TableEntryBits(c, n);
    EntryUpdate(m, p, i, TableEntry(c), c, idx[n]);
    var w := Walk(m, root, idx, n);
    if w.Some? { EntryUpdate(m, p, i, TableEntry(c), w.value, idx[n]); }
  }

  // ---------------------------------------------------------------------
  // The translation the processor performs, large pages included.
  // ---------------------------------------------------------------------

  function Processor(m: seq<u64>, root: nat, v: u64): Option<nat> {
    var idx := Indices(v);
    var e4 := Entry(m, root, idx[0]);
    if !Present(e4) then None
    else
      var e3 := Entry(m, Frame(e4), idx[1]);
      if !Present(e3) then None
      else if Huge(e3) then Some(InGigabyte(e3, v))
      else
        var e2 := Entry(m, Frame(e3), idx[2]);
        if !Present(e2) then None
        else if Huge(e2) then Some(InTwoMegabytes(e2, v))
        else
          var e1 := Entry(m, Frame(e2), idx[3]);
          if Present(e1) then Some(PteAddr(e1) + v % 0x1000) else None
  }

  /** The address in a one-gigabyte page, and in a two-megabyte page. */
  function InGigabyte(e: u64, v: u64): nat { e / 0x4000_0000 % 0x40_0000 * 0x4000_0000 + v % 0x4000_0000 }

  function InTwoMegabytes(e: u64, v: u64): nat { e / 0x20_0000 % 0x8000_0000 * 0x20_0000 + v % 0x20_0000 }

  /** The processor's translation in terms of the large pages and the last-level entry found. */
  lemma ProcessorIs(m: seq<u64>, root: nat, v: u64)
    ensures var idx := Indices(v);
            Processor(m, root, v) ==
              match LargeAt(m, root, idx, 1)
              case Some(e) => Some(InGigabyte(e, v))
              case None =>
                match LargeAt(m, root, idx, 2)
                case Some(e) => Some(InTwoMegabytes(e, v))
                case None => Translation(m, root, v)
  {
    var idx := Indices(v);
    assert Walk(m, root, idx, 0) == Some(root);
    var w1 := Walk(m, root, idx, 1);
    var w2 := Walk(m, root, idx, 2);
    var w3 := Walk(m, root, idx, 3);
  }

  /** With no large page on the way, the tables mean to the processor what they mean here. */
  lemma ProcessorAgrees(m: seq<u64>, root: nat, v: u64)
    requires !HugeOnPath(m, root, Indices(v))
    ensures Processor(m, root, v) == Translation(m, root, v)
  {
    ProcessorIs(m, root, v);
  }

  lemma SameViewAt(m: seq<u64>, m': seq<u64>, root: nat, v: u64)
    requires SameView(m, m', root)
    ensures Leaf(m', root, Indices(v)) == Leaf(m, root, Indices(v)) && SameLarge(m, m', root, Indices(v))
  {
    assert ValidIndices(Indices(v));
  }

  lemma SameProcessorAt(m: seq<u64>, m': seq<u64>, root: nat, v: u64)
    requires Leaf(m', root, Indices(v)) == Leaf(m, root, Indices(v)) && SameLarge(m, m', root, Indices(v))
    ensures Processor(m', root, v) == Processor(m, root, v)
  {
    ProcessorIs(m, root, v);
    ProcessorIs(m', root, v);
  }

  /** Memories that show the same view translate alike, large pages included. */
  lemma SameProcessor(m: seq<u64>, m': seq<u64>, root: nat)
    requires SameView(m, m', root)
    ensures forall v: u64 :: Processor(m', root, v) == Processor(m, root, v)
  {
    forall v: u64 ensures Processor(m', root, v) == Processor(m, root, v) {
      SameViewAt(m, m', root, v);
      SameProcessorAt(m, m', root, v);
    }
  }

  /** After a successful map, v translates into the given frame exactly when the flags mark the
      entry present and bring no address bits of their own. */
  lemma MapEstablishes(m: seq<u64>, root: nat, v: u64, phys: u64, flags: u64)
    requires Leaf(m, root, Indices(v)) == LeafEntry(phys, flags)
    ensures Translation(m, root, v) == Some(PteAddr(phys) + v % 0x1000) <==>
            Present(flags) && BitOr(Frame(phys), Frame(flags)) == Frame(phys)
  {
    var e := LeafEntry(phys, flags);
    assert PteAddr(e) == PteAddr(phys) <==> Frame(e) == Frame(phys);
  }

  // ---------------------------------------------------------------------
  // What the source reads when a large page lies on the way: it does not look at bit 7.
  // ---------------------------------------------------------------------

  /** paging_get_physical on any tables; None where it returns 0 for a missing entry. */
  function SourceReads(m: seq<u64>, root: nat, v: u64): Option<nat> {
    var idx := Indices(v);
    var e4 := Entry(m, root, idx[0]);
    if !Present(e4) then None
    else
      var e3 := Entry(m, Frame(e4), idx[1]);
      if !Present(e3) then None else SourceBelow(m, Frame(e3), v)
  }

  /** The last two levels, pd being taken for a page directory. */
  function SourceBelow(m: seq<u64>, pd: nat, v: u64): Option<nat> {
    var e2 := Entry(m, pd, Indices(v)[2]);
    if Present(e2) then SourceLast(m, Frame(e2), v) else None
  }

  function SourceLast(m: seq<u64>, pt: nat, v: u64): Option<nat> {
    var e1 := Entry(m, pt, Indices(v)[3]);
    if Present(e1) then Some(PteAddr(e1) + v % 0x1000) else None
  }

  lemma SourceAgrees(m: seq<u64>, root: nat, v: u64)
    requires !HugeOnPath(m, root, Indices(v))
    ensures SourceReads(m, root, v) == Translation(m, root, v)
  {
    var idx := Indices(v);
    assert Walk(m, root, idx, 0) == Some(root);
    var w1 := Walk(m, root, idx, 1);
    var w2 := Walk(m, root, idx, 2);
    var w3 := Walk(m, root, idx, 3);
  }

  /** The frame that large page entry e gives to the page of v. */
  function LargeFrame(e: u64, v: u64): nat { e / 0x20_0000 % 0x8000_0000 * 512 + Indices(v)[3] }

  function GiantFrame(e: u64, v: u64): nat {
    (e / 0x4000_0000 % 0x40_0000 * 512 + Indices(v)[2]) * 512 + Indices(v)[3]
  }

  lemma LargeOffset(v: u64, base: nat)
    ensures base * 0x20_0000 + v % 0x20_0000 == (base * 512 + v / 0x1000 % 512) * 0x1000 + v % 0x1000
  {
    var a, r := v / 0x1000, v % 0x1000;
    Mod21(v, a / 512, a % 512 * 0x1000 + r);
  }

  lemma Mod21(v: nat, q: nat, low: nat)
    requires v == q * 0x20_0000 + low && low < 0x20_0000
    ensures v % 0x20_0000 == low
  {}

  lemma GiantOffset(v: u64, base: nat)
    ensures base * 0x4000_0000 + v % 0x4000_0000 ==
            ((base * 512 + v / 0x20_0000 % 512) * 512 + v / 0x1000 % 512) * 0x1000 + v % 0x1000
  {
    LargeOffset(v, base * 512 + v / 0x20_0000 % 512);
    var a, r := v / 0x20_0000, v % 0x20_0000;
    Mod30(v, a / 512, a % 512 * 0x20_0000 + r);
  }

  lemma Mod30(v: nat, q: nat, low: nat)
    requires v == q * 0x4000_0000 + low && low < 0x4000_0000
    ensures v % 0x4000_0000 == low
  {}

  /** Behind a two-megabyte page the source takes the page's own words for entries. It agrees
      with the processor exactly when the word it happens to read names the right frame. */
  lemma LargePageMisread(m: seq<u64>, root: nat, v: u64)
    requires !HugeAt(m, root, Indices(v), 1) && HugeAt(m, root, Indices(v), 2)
    ensures var e2 := LargeAt(m, root, Indices(v), 2).value;
            var e1 := Entry(m, Frame(e2), Indices(v)[3]);
            Processor(m, root, v) == Some(LargeFrame(e2, v) * 0x1000 + v % 0x1000) &&
            SourceReads(m, root, v) == (if Present(e1) then Some(PteAddr(e1) + v % 0x1000) else None) &&
            (SourceReads(m, root, v) == Processor(m, root, v) <==> Present(e1) && Frame(e1) == LargeFrame(e2, v))
  {
    ProcessorIs(m, root, v);
    var idx := Indices(v);
    assert Walk(m, root, idx, 0) == Some(root);
    var w1 := Walk(m, root, idx, 1);
    LargeOffset(v, LargeAt(m, root, idx, 2).value / 0x20_0000 % 0x8000_0000);
  }

  /** Behind a one-gigabyte page it takes two words of data for entries, of which the second
      may lie anywhere. */
  lemma GigabytePageMisread(m: seq<u64>, root: nat, v: u64)
    requires HugeAt(m, root, Indices(v), 1)
    ensures var e3 := LargeAt(m, root, Indices(v), 1).value;
            var e2 := Entry(m, Frame(e3), Indices(v)[2]);
            var e1 := Entry(m, Frame(e2), Indices(v)[3]);
            Processor(m, root, v) == Some(GiantFrame(e3, v) * 0x1000 + v % 0x1000) &&
            SourceReads(m, root, v) ==
              (if Present(e2) && Present(e1) then Some(PteAddr(e1) + v % 0x1000) else None) &&
            (SourceReads(m, root, v) == Processor(m, root, v) <==>
             Present(e2) && Present(e1) && Frame(e1) == GiantFrame(e3, v))
  {
    ProcessorIs(m, root, v);
    var idx := Indices(v);
    assert Walk(m, root, idx, 0) == Some(root);
    GiantOffset(v, LargeAt(m, root, idx, 1).value / 0x4000_0000 % 0x40_0000);
  }

  /** A store behind a two-megabyte page lands in the page's data: no translation of the
      processor changes, while the source reads the new word back as an entry. */
  lemma LargePageStore(m: seq<u64>, root: nat, owner: map<nat, seq<nat>>, v: u64, e: u64)
    requires Tree(m, root, owner) && !HugeAt(m, root, Indices(v), 1) && HugeAt(m, root, Indices(v), 2)
    requires var q := Frame(LargeAt(m, root, Indices(v), 2).value); q !in owner && 512 * q + 512 <= |m|
    ensures var q := Frame(LargeAt(m, root, Indices(v), 2).value);
            var m' := m[512 * q + Indices(v)[3] := e];
            Tree(m', root, owner) && SameView(m, m', root) &&
            (forall w: u64 :: Processor(m', root, w) == Processor(m, root, w)) &&
            SourceReads(m', root, v) == if Present(e) then Some(PteAddr(e) + v % 0x1000) else None
  {
    var idx := Indices(v);
    var q := Frame(LargeAt(m, root, idx, 2).value);
    var m' := m[512 * q + idx[3] := e];
    StrayStore(m, root, owner, q, idx[3], e);
    SameProcessor(m, m', root);
    EntryUpdate(m, q, idx[3], e, q, idx[3]);
    StoredIsRead(m, m', root, v, e);
  }

  lemma StoredIsRead(m: seq<u64>, m': seq<u64>, root: nat, v: u64, e: u64)
    requires SameView(m, m', root) && !HugeAt(m, root, Indices(v), 1) && HugeAt(m, root, Indices(v), 2)
    requires Entry(m', Frame(LargeAt(m, root, Indices(v), 2).value), Indices(v)[3]) == e
    ensures SourceReads(m', root, v) == if Present(e) then Some(PteAddr(e) + v % 0x1000) else None
  {
    SameViewAt(m, m', root, v);
    LargePageMisread(m', root, v);
  }

  /** So behind a large page a map takes effect for the processor exactly when the page was
      already mapped to the frame asked for. */
  lemma LargePageMap(m: seq<u64>, root: nat, owner: map<nat, seq<nat>>, v: u64, phys: u64, flags: u64)
    requires Tree(m, root, owner) && !HugeAt(m, root, Indices(v), 1) && HugeAt(m, root, Indices(v), 2)
    requires var q := Frame(LargeAt(m, root, Indices(v), 2).value); q !in owner && 512 * q + 512 <= |m|
    ensures var e2 := LargeAt(m, root, Indices(v), 2).value;
            var m' := m[512 * Frame(e2) + Indices(v)[3] := LeafEntry(phys, flags)];
            Processor(m', root, v) == Some(PteAddr(phys) + v % 0x1000) <==> Frame(phys) == LargeFrame(e2, v)
  {
    LargePageStore(m, root, owner, v, LeafEntry(phys, flags));
    LargePageMisread(m, root, v);
  }

  /** If the large page starts with the last-level table of other addresses, the store remaps the
      one that has the same last index, and no other. */
  lemma LargePageAlias(m: seq<u64>, root: nat, owner: map<nat, seq<nat>>, v: u64, e: u64, other: seq<nat>)
    requires Tree(m, root, owner) && !HugeAt(m, root, Indices(v), 1) && HugeAt(m, root, Indices(v), 2)
    requires ValidIndices(other) && other[3] == Indices(v)[3]
    requires Walk(m, root, other, 3) == Some(Frame(LargeAt(m, root, Indices(v), 2).value))
    ensures var at := 512 * Frame(LargeAt(m, root, Indices(v), 2).value) + Indices(v)[3];
            at < |m| && Tree(m[at := e], root, owner) &&
            forall idx :: ValidIndices(idx) ==>
              Leaf(m[at := e], root, idx) == (if idx == other then e else Leaf(m, root, idx)) &&
              SameLarge(m, m[at := e], root, idx)
  {
    var q := Frame(LargeAt(m, root, Indices(v), 2).value);
    WalkOwned(m, root, owner, other, 3);
    assert TableOk(m, owner, q);
    WriteLeaf(m, root, owner, other, e, q);
  }

  ghost predicate NoTable(m: seq<u64>, owner: map<nat, seq<nat>>, q: nat) { q !in owner && 512 * q + 512 <= |m| }

  /** What paging_map leaves when q, the start of a one-gigabyte page, is taken for a page
      directory: e goes behind the word found there, or behind the fresh table c linked there. */
  function BehindGigabyte(m: seq<u64>, q: nat, i: nat, j: nat, e: u64, c: nat): seq<u64>
    requires i < 512 && j < 512 && 512 * q + 512 <= |m| && c < 0x100_0000_0000
    requires 512 * (if Present(Entry(m, q, i)) then Frame(Entry(m, q, i)) else c) + 512 <= |m|
  {
    if Present(Entry(m, q, i)) then m[512 * Frame(Entry(m, q, i)) + j := e]
    else m[512 * q + i := TableEntry(c)][512 * c + j := e]
  }

  lemma GigabytePageStore(m: seq<u64>, root: nat, owner: map<nat, seq<nat>>, q: nat, i: nat, j: nat, e: u64, c: nat)
    requires Tree(m, root, owner) && i < 512 && j < 512 && c < 0x100_0000_0000 && NoTable(m, owner, q)
    requires NoTable(m, owner, if Present(Entry(m, q, i)) then Frame(Entry(m, q, i)) else c)
    ensures Tree(BehindGigabyte(m, q, i, j, e, c), root, owner) && SameView(m, BehindGigabyte(m, q, i, j, e, c), root)
  {
    if Present(Entry(m, q, i)) {
      StrayStore(m, root, owner, Frame(Entry(m, q, i)), j, e);
    } else {
      var m1 := m[512 * q + i := TableEntry(c)];
      StrayStore(m, root, owner, q, i, TableEntry(c));
      StrayStore(m1, root, owner, c, j, e);
      SameViewTrans(m, m1, m1[512 * c + j := e], root);
    }
  }

  /** A map behind a one-gigabyte page changes no translation of the processor either, so it
      takes effect exactly when the page was already mapped to the frame asked for. */
  lemma GigabytePageMap(m: seq<u64>, root: nat, owner: map<nat, seq<nat>>, v: u64, phys: u64, flags: u64, c: nat, e3: u64)
    requires Tree(m, root, owner) && LargeAt(m, root, Indices(v), 1) == Some(e3) && c < 0x100_0000_0000
    requires var e2 := Entry(m, Frame(e3), Indices(v)[2]);
             NoTable(m, owner, Frame(e3)) && NoTable(m, owner, if Present(e2) then Frame(e2) else c)
    ensures var m' := BehindGigabyte(m, Frame(e3), Indices(v)[2], Indices(v)[3], LeafEntry(phys, flags), c);
            Tree(m', root, owner) && SameView(m, m', root) &&
            (forall w: u64 :: Processor(m', root, w) == Processor(m, root, w)) &&
            (Processor(m', root, v) == Some(PteAddr(phys) + v % 0x1000) <==> Frame(phys) == GiantFrame(e3, v))
  {
    var idx, e := Indices(v), LeafEntry(phys, flags);
    GigabytePageStore(m, root, owner, Frame(e3), idx[2], idx[3], e, c);
    SameProcessor(m, BehindGigabyte(m, Frame(e3), idx[2], idx[3], e, c), root);
    GigabytePageMisread(m, root, v);
  }

  lemma SameViewTrans(m: seq<u64>, m1: seq<u64>, m2: seq<u64>, root: nat)
    requires SameView(m, m1, root) && SameView(m1, m2, root)
    ensures SameView(m, m2, root)
  {}

  /** A store into a page that is not a table. */
  lemma StrayStore(m: seq<u64>, root: nat, owner: map<nat, seq<nat>>, q: nat, i: nat, e: u64)
    requires Tree(m, root, owner) && q !in owner && i < 512 && 512 * q + 512 <= |m|
    ensures Tree(m[512 * q + i := e], root, owner) && SameView(m, m[512 * q + i := e], root)
  {
    OutsideTree(m, m[512 * q + i := e], root, owner);
  }

  /** On tables like those of the boot code, whose page directory holds large pages, a mapped
      address reads as unmapped. */
  lemma LargePageExample()
    ensures exists m: seq<u64>, v: u64 :: Processor(m, 0, v) == Some(v) && SourceReads(m, 0, v).None?
  {
    var m: seq<u64> := seq<u64>(1536, (i: nat) =>
      if i == 0 then 0x1003 else if i == 512 then 0x2003 else if i == 1024 then 0x83 else 0);
    var v: u64 := 0x1000;
    assert Indices(v) == [0, 0, 0, 1];
    assert Entry(m, 0, 0) == 0x1003 && Entry(m, 1, 0) == 0x2003 && Entry(m, 2, 0) == 0x83 && Entry(m, 0, 1) == 0;
    assert Processor(m, 0, v) == Some(v) && SourceReads(m, 0, v).None?;
  }
}

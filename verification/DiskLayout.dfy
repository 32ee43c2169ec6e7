/** The on-disk format: superblock and data sectors (src/kernel/diskfs.cpp). */
module DiskLayout {
  import opened Common

  // Sectors 100 to 102 hold the superblock with its 16 entries; from sector 103 on each entry
  // has eight sectors (4096 bytes) of data, the last of them sector 230.

  const MAGIC: u32 := 0x50465356
  const VERSION: u32 := 1

  type Sector = s: seq<byte> | |s| == 512 witness seq(512, _ => 0)

  const ZERO_SECTOR: Sector := seq(512, _ => 0)

  /** A disk is its sectors; each sector is written as a whole. */
  type Disk = d: seq<Sector> | |d| >= 231 witness seq<Sector>(231, _ => ZERO_SECTOR)

  type PathField = p: seq<byte> | |p| == 64 witness seq(64, _ => 0)

  datatype Entry = Entry(path: PathField, size: u32, flags: u32)

  const BLANK_ENTRY: Entry := Entry(seq(64, _ => 0), 0, 0)

  /** An entry of 72 zero bytes. */
  predicate IsBlank(e: Entry) { e.size == 0 && e.flags == 0 && ZeroPath(e.path) }

  predicate ZeroPath(p: PathField) { forall r :: 0 <= r < 64 ==> p[r] == 0 }

  type Entries = es: seq<Entry> | |es| == 16 witness seq(16, _ => BLANK_ENTRY)

  datatype Super = Super(magic: u32, version: u32, count: u32, reserved: u32, entries: Entries)

  function BlankSuper(): (sb: Super)
    ensures forall i :: 0 <= i < 16 ==> IsBlank(sb.entries[i])
  {
    Super(MAGIC, VERSION, 0, 0, seq(16, _ => BLANK_ENTRY))
  }

  // ---------------------------------------------------------------------
  // The packed superblock: 16 header bytes, then 72 bytes per entry.
  // ---------------------------------------------------------------------

  /** Byte k of a little-endian word. */
  function ByteOf(v: u32, k: nat): byte
    requires k < 4
  {
    if k == 0 then v % 0x100
    else if k == 1 then v / 0x100 % 0x100
    else if k == 2 then v / 0x100 / 0x100 % 0x100
    else v / 0x100 / 0x100 / 0x100
  }

  function Word(b0: byte, b1: byte, b2: byte, b3: byte): u32 {
    b0 + 0x100 * b1 + 0x1_0000 * b2 + 0x100_0000 * b3
  }

  lemma WordOfBytes(v: u32)
    ensures Word(ByteOf(v, 0), ByteOf(v, 1), ByteOf(v, 2), ByteOf(v, 3)) == v
  {
    var a := v / 0x100;
    var b := a / 0x100;
    assert v == 0x100 * a + v % 0x100 && a == 0x100 * b + a % 0x100;
  }

  function EntryByte(e: Entry, r: nat): byte
    requires r < 72
  {
    if r < 64 then e.path[r] else if r < 68 then ByteOf(e.size, r - 64) else ByteOf(e.flags, r - 68)
  }

  /** Byte off of the packed superblock; the rest of its three sectors is zero. */
  function SuperByte(sb: Super, off: nat): byte {
    if off < 4 then ByteOf(sb.magic, off)
    else if off < 8 then ByteOf(sb.version, off - 4)
    else if off < 12 then ByteOf(sb.count, off - 8)
    else if off < 16 then ByteOf(sb.reserved, off - 12)
    else if off < 1168 then EntryByte(sb.entries[(off - 16) / 72], (off - 16) % 72)
    else 0
  }

  function SuperSector(sb: Super, i: nat): (s: Sector)
    ensures forall j :: 0 <= j < 512 ==> s[j] == SuperByte(sb, 512 * i + j)
  {
    var s := seq<byte>(512, (j: nat) => SuperByte(sb, 512 * i + j));
    assert forall j :: 0 <= j < 512 ==> s[j] == SuperByte(sb, 512 * i + j);
    s
  }

  /** Byte off of the superblock area of the disk. */
  function DiskByte(d: Disk, off: nat): byte
    requires off < 1536
  {
    d[100 + off / 512][off % 512]
  }

  function DiskWord(d: Disk, off: nat): u32
    requires off + 3 < 1536
  {
    Word(DiskByte(d, off), DiskByte(d, off + 1), DiskByte(d, off + 2), DiskByte(d, off + 3))
  }

  function ReadPath(d: Disk, i: nat): (p: PathField)
    requires i < 16
    ensures forall r :: 0 <= r < 64 ==> p[r] == DiskByte(d, 16 + 72 * i + r)
  {
    var p := seq<byte>(64, (r: nat) requires r < 64 => DiskByte(d, 16 + 72 * i + r));
    assert forall r :: 0 <= r < 64 ==> p[r] == DiskByte(d, 16 + 72 * i + r);
    p
  }

  function ReadEntry(d: Disk, i: nat): Entry
    requires i < 16
  {
    Entry(ReadPath(d, i),
          DiskWord(d, 16 + 72 * i + 64), DiskWord(d, 16 + 72 * i + 68))
  }

  function ReadSuper(d: Disk): Super {
    Super(DiskWord(d, 0), DiskWord(d, 4), DiskWord(d, 8), DiskWord(d, 12),
          seq(16, i requires 0 <= i < 16 => ReadEntry(d, i)))
  }

  /** The disk after the first n of the three superblock sectors were written. */
  function WriteSuper(d: Disk, sb: Super, n: nat): (d': Disk)
    requires n <= 3
    ensures |d'| == |d|
  {
    if n == 0 then d else WriteSuper(d, sb, n - 1)[100 + (n - 1) := SuperSector(sb, n - 1)]
  }

  lemma WriteSuperAt(d: Disk, sb: Super, n: nat, lba: nat)
    requires n <= 3 && lba < |d|
    ensures WriteSuper(d, sb, n)[lba] == if 100 <= lba < 100 + n then SuperSector(sb, lba - 100) else d[lba]
  {}

  lemma WriteSuperByte(d: Disk, sb: Super, n: nat, off: nat)
    requires n <= 3 && off < 1536
    ensures DiskByte(WriteSuper(d, sb, n), off) == if off < 512 * n then SuperByte(sb, off) else DiskByte(d, off)
  {
    WriteSuperAt(d, sb, n, 100 + off / 512);
    assert off == 512 * (off / 512) + off % 512;
  }

  /** What a first boot writes: the letters VSFP, the version 1 and zeros. */
  lemma FormattedByte(d: Disk, n: nat, off: nat)
    requires n <= 3 && off < 512 * n
    ensures DiskByte(WriteSuper(d, BlankSuper(), n), off) ==
            if off < 4 then "VSFP"[off] as int else if off == 4 then 1 else 0
  {
    WriteSuperByte(d, BlankSuper(), n, off);
    if 16 <= off < 1168 {
      assert IsBlank(BlankSuper().entries[(off - 16) / 72]);
      BlankByte(BlankSuper().entries[(off - 16) / 72], (off - 16) % 72);
    }
  }

  lemma BlankByte(e: Entry, r: nat)
    requires IsBlank(e) && r < 72
    ensures EntryByte(e, r) == 0
  {}

  lemma EntryOffset(i: nat, r: nat)
    requires i < 16 && r < 72
    ensures var off := 16 + 72 * i + r;
            16 <= off < 1168 && (off - 16) / 72 == i && (off - 16) % 72 == r
  {}

  lemma SuperEntryByte(sb: Super, i: nat, r: nat)
    requires i < 16 && r < 72
    ensures SuperByte(sb, 16 + 72 * i + r) == EntryByte(sb.entries[i], r)
  {
    EntryOffset(i, r);
  }

  /** The path of entry i, and its size and flags, lie in the first n superblock sectors. */
  predicate PathDone(i: nat, n: nat) { 16 + 72 * i + 64 <= 512 * n }

  predicate TailDone(i: nat, n: nat) { 16 + 72 * i + 72 <= 512 * n }

  /** In d' the first n superblock sectors are those of sb, the others those of d. */
  ghost predicate SuperWritten(d: Disk, d': Disk, sb: Super, n: nat) {
    forall off: nat :: off < 1536 ==> DiskByte(d', off) == if off < 512 * n then SuperByte(sb, off) else DiskByte(d, off)
  }

  lemma WriteSuperWritten(d: Disk, sb: Super, n: nat)
    requires n <= 3
    ensures SuperWritten(d, WriteSuper(d, sb, n), sb, n)
  {
    forall off: nat | off < 1536
      ensures DiskByte(WriteSuper(d, sb, n), off) == if off < 512 * n then SuperByte(sb, off) else DiskByte(d, off)
    {
      WriteSuperByte(d, sb, n, off);
    }
  }

  lemma PathByteAfter(d: Disk, d': Disk, sb: Super, n: nat, i: nat, r: nat)
    requires n <= 3 && i < 16 && r < 64 && SuperWritten(d, d', sb, n)
    ensures ReadPath(d', i)[r] == if PathDone(i, n) then sb.entries[i].path[r] else ReadPath(d, i)[r]
  {
    var off := 16 + 72 * i + r;
    EntryOffset(i, r);
    SuperEntryByte(sb, i, r);
    assert off < 512 * n <==> PathDone(i, n);
    assert DiskByte(d', off) == if off < 512 * n then SuperByte(sb, off) else DiskByte(d, off);
  }

  lemma PathAfter(d: Disk, d': Disk, sb: Super, n: nat, i: nat)
    requires n <= 3 && i < 16 && SuperWritten(d, d', sb, n)
    ensures ReadPath(d', i) == if PathDone(i, n) then sb.entries[i].path else ReadPath(d, i)
  {
    var p, q := ReadPath(d', i), if PathDone(i, n) then sb.entries[i].path else ReadPath(d, i);
    forall r: nat | r < 64 ensures p[r] == q[r] { PathByteAfter(d, d', sb, n, i, r); }
    assert p == q;
  }

  lemma TailByteAfter(d: Disk, d': Disk, sb: Super, n: nat, i: nat, r: nat)
    requires n <= 3 && i < 16 && 64 <= r < 72 && SuperWritten(d, d', sb, n)
    ensures DiskByte(d', 16 + 72 * i + r) ==
            if TailDone(i, n) then EntryByte(sb.entries[i], r) else DiskByte(d, 16 + 72 * i + r)
  {
    var off := 16 + 72 * i + r;
    EntryOffset(i, r);
    SuperEntryByte(sb, i, r);
    assert off < 512 * n <==> TailDone(i, n);
    assert DiskByte(d', off) == if off < 512 * n then SuperByte(sb, off) else DiskByte(d, off);
  }

  lemma TailWordAfter(d: Disk, d': Disk, sb: Super, n: nat, i: nat, r: nat)
    requires n <= 3 && i < 16 && (r == 64 || r == 68) && SuperWritten(d, d', sb, n)
    ensures DiskWord(d', 16 + 72 * i + r) ==
            if TailDone(i, n) then (if r == 64 then sb.entries[i].size else sb.entries[i].flags)
            else DiskWord(d, 16 + 72 * i + r)
  {
    TailByteAfter(d, d', sb, n, i, r);
    TailByteAfter(d, d', sb, n, i, r + 1);
    TailByteAfter(d, d', sb, n, i, r + 2);
    TailByteAfter(d, d', sb, n, i, r + 3);
    WordOfBytes(if r == 64 then sb.entries[i].size else sb.entries[i].flags);
  }

  /** Entry i once n superblock sectors were written. */
  lemma EntryAfter(d: Disk, d': Disk, sb: Super, n: nat, i: nat)
    requires n <= 3 && i < 16 && SuperWritten(d, d', sb, n)
    ensures var old', new' := ReadEntry(d, i), sb.entries[i];
            ReadEntry(d', i) == Entry(if PathDone(i, n) then new'.path else old'.path,
                                      if TailDone(i, n) then new'.size else old'.size,
                                      if TailDone(i, n) then new'.flags else old'.flags)
  {
    PathAfter(d, d', sb, n, i);
    SizeAfter(d, d', sb, n, i);
  }

  lemma SizeAfter(d: Disk, d': Disk, sb: Super, n: nat, i: nat)
    requires n <= 3 && i < 16 && SuperWritten(d, d', sb, n)
    ensures var e, old', new' := ReadEntry(d', i), ReadEntry(d, i), sb.entries[i];
            e.size == (if TailDone(i, n) then new'.size else old'.size) &&
            e.flags == if TailDone(i, n) then new'.flags else old'.flags
  {
    TailWordAfter(d, d', sb, n, i, 64);
    TailWordAfter(d, d', sb, n, i, 68);
  }

  /** Only entry 6 can be part old, part new: its path ends sector 0, its size starts sector 1. */
  lemma OnlyEntrySixStraddles(i: nat, n: nat)
    requires i < 16 && n <= 3
    ensures PathDone(i, n) && !TailDone(i, n) <==> i == 6 && n == 1
    ensures n == 3 ==> TailDone(i, n)
    ensures n == 0 ==> !PathDone(i, n)
  {}

  lemma HeaderAfter(d: Disk, d': Disk, sb: Super, n: nat)
    requires n <= 3 && SuperWritten(d, d', sb, n)
    ensures var s, s0 := ReadSuper(d'), if n == 0 then ReadSuper(d) else sb;
            s.magic == s0.magic && s.version == s0.version && s.count == s0.count && s.reserved == s0.reserved
  {
    if n > 0 {
      forall off: nat | off < 16 ensures DiskByte(d', off) == SuperByte(sb, off) {}
    } else {
      forall off: nat | off < 16 ensures DiskByte(d', off) == DiskByte(d, off) {}
    }
    WordOfBytes(sb.magic);
    WordOfBytes(sb.version);
    WordOfBytes(sb.count);
    WordOfBytes(sb.reserved);
  }

  /** Reading the superblock back gives what was written. */
  lemma ReadWriteSuper(d: Disk, sb: Super)
    ensures ReadSuper(WriteSuper(d, sb, 3)) == sb
  {
    var d' := WriteSuper(d, sb, 3);
    WriteSuperWritten(d, sb, 3);
    HeaderAfter(d, d', sb, 3);
    forall i | 0 <= i < 16 ensures ReadSuper(d').entries[i] == sb.entries[i] {
      EntryAfter(d, d', sb, 3, i);
      OnlyEntrySixStraddles(i, 3);
    }
    assert ReadSuper(d').entries == sb.entries;
  }
}

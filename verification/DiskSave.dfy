/** Saving a file, sector by sector, and what a restart finds after any number of those
    writes (src/kernel/diskfs.cpp). */
module DiskSave {
  import opened Common
  import opened DiskLayout

  // ---------------------------------------------------------------------
  // Path fields hold C strings.
  // ---------------------------------------------------------------------

  /** Strings of non-zero 8-bit characters. */
  predicate CChars(s: string) { forall i :: 0 <= i < |s| ==> CChar(s[i]) }

  predicate CChar(c: char) { c != '\0' && c < 256 as char }

  /** Position of the first zero byte from i on, or the end. */
  function CEnd(p: seq<byte>, i: nat): (n: nat)
    requires i <= |p|
    ensures i <= n <= |p|
    ensures forall j :: i <= j < n ==> p[j] != 0
    ensures n < |p| ==> p[n] == 0
    decreases |p| - i
  {
    if i == |p| || p[i] == 0 then i else CEnd(p, i + 1)
  }

  function Text(p: seq<byte>): (s: string)
    ensures |s| == CEnd(p, 0)
  {
    seq(CEnd(p, 0), (i: nat) requires i < CEnd(p, 0) => p[i] as char)
  }

  predicate PathString(s: string) { 0 < |s| < 64 && CChars(s) }

  /** A 64-byte field into which a path and its terminator were copied. */
  function Overlay(p: PathField, s: string): (q: PathField)
    requires |s| < 64 && CChars(s)
    ensures forall i :: 0 <= i < 64 ==> q[i] == if i < |s| then s[i] as int else if i == |s| then 0 else p[i]
  {
    var q := seq<byte>(64, (i: nat) requires i < 64 => if i < |s| then s[i] as int else if i == |s| then 0 else p[i]);
    assert forall i :: 0 <= i < 64 ==> q[i] == if i < |s| then s[i] as int else if i == |s| then 0 else p[i];
    q
  }

  /** Any text of at most 63 bytes other than zero can be stored. */
  lemma StoredText(p: PathField, s: string)
    requires |s| < 64 && forall i :: 0 <= i < |s| ==> 0 < s[i] as int < 256
    ensures CChars(s) && Text(Overlay(p, s)) == s
  {
    forall i | 0 <= i < |s| ensures CChar(s[i]) {}
    TextOverlay(p, s);
  }

  lemma TextOverlay(p: PathField, s: string)
    requires |s| < 64 && CChars(s)
    ensures Text(Overlay(p, s)) == s
  {
    var q := Overlay(p, s);
    assert q[|s|] == 0;
    assert forall i :: 0 <= i < |s| ==> CChar(s[i]) && q[i] != 0;
    assert CEnd(q, 0) == |s|;
  }

  lemma TextBlank(e: Entry)
    requires IsBlank(e)
    ensures Text(e.path) == ""
  {
    assert e.path[0] == 0;
  }

  // ---------------------------------------------------------------------
  // Slots.
  // ---------------------------------------------------------------------

  /** The first entry from i on whose path is s, or the count. */
  function FindSlot(sb: Super, s: string, i: nat): (k: nat)
    requires i <= sb.count <= 16
    ensures i <= k <= sb.count
    ensures k < sb.count ==> Text(sb.entries[k].path) == s
    ensures forall j :: i <= j < k ==> Text(sb.entries[j].path) != s
    decreases sb.count - i
  {
    if i == sb.count || Text(sb.entries[i].path) == s then i else FindSlot(sb, s, i + 1)
  }

  /** Two entries store the same, non-empty path. */
  ghost predicate Twins(sb: Super, i: nat, j: nat)
    requires i < 16 && j < 16
  {
    Text(sb.entries[i].path) == Text(sb.entries[j].path) && |Text(sb.entries[i].path)| > 0
  }

  /** A well-formed superblock: entries not yet handed out are zero, and no path is stored
      twice. Every save keeps this; a first boot that was cut short need not establish it. */
  ghost predicate SuperOk(sb: Super) {
    sb.magic == MAGIC && sb.version == VERSION && sb.count <= 16 &&
    (forall i :: sb.count <= i < 16 ==> IsBlank(sb.entries[i])) &&
    (forall i: nat, j: nat :: i < j < sb.count ==> !Twins(sb, i, j))
  }

  function CutLen(n: nat): nat { if n > 4096 then 4096 else n }

  function Cut(content: seq<byte>): seq<byte> { if |content| > 4096 then content[..4096] else content }

  /** The entry a save uses and the superblock it leaves in memory; None when all slots are taken. */
  function SaveSuper(sb: Super, s: string, size: u32): Option<(Super, nat)>
    requires sb.count <= 16 && PathString(s)
  {
    var k := FindSlot(sb, s, 0);
    if k < sb.count then
      Some((sb.(entries := sb.entries[k := sb.entries[k].(size := size)]), k))
    else if k == 16 then None
    else Some((sb.(count := k + 1, entries := sb.entries[k := Entry(Overlay(sb.entries[k].path, s), size, 0)]), k))
  }

  /** A save is refused exactly when all sixteen slots hold other paths. */
  lemma RefusedWhenFull(sb: Super, s: string, size: u32)
    requires sb.count <= 16 && PathString(s)
    ensures SaveSuper(sb, s, size).None? <==>
            sb.count == 16 && forall i: nat :: i < 16 ==> Text(sb.entries[i].path) != s
  {
    var k := FindSlot(sb, s, 0);
    if k < sb.count { assert Text(sb.entries[k].path) == s; }
  }

  // ---------------------------------------------------------------------
  // The first boot.
  // ---------------------------------------------------------------------

  /** A disk that this system has not used yet. */
  predicate Foreign(d: Disk) { ReadSuper(d).magic != MAGIC || ReadSuper(d).version != VERSION }

  /** The bytes of all entries from superblock sector n on are zero. */
  ghost predicate EntriesZeroFrom(d: Disk, n: nat) {
    forall off: nat :: 512 * n <= off < 1168 ==> DiskByte(d, off) == 0
  }

  lemma WordZero(b0: byte, b1: byte, b2: byte, b3: byte)
    ensures Word(b0, b1, b2, b3) == 0 <==> b0 == 0 && b1 == 0 && b2 == 0 && b3 == 0
  {}

  function EntryByteAt(d: Disk, i: nat, r: nat): byte
    requires i < 16 && r < 72
  {
    DiskByte(d, 16 + 72 * i + r)
  }

  ghost predicate ZeroBytes(d: Disk, i: nat)
    requires i < 16
  {
    forall r: nat :: r < 72 ==> EntryByteAt(d, i, r) == 0
  }

  ghost predicate FourZero(d: Disk, i: nat, r: nat)
    requires i < 16 && r + 3 < 72
  {
    EntryByteAt(d, i, r) == 0 && EntryByteAt(d, i, r + 1) == 0 && EntryByteAt(d, i, r + 2) == 0 &&
    EntryByteAt(d, i, r + 3) == 0
  }

  lemma SizeZeroAt(d: Disk, i: nat)
    requires i < 16
    ensures DiskWord(d, 16 + 72 * i + 64) == 0 <==> FourZero(d, i, 64)
  {
    WordZero(EntryByteAt(d, i, 64), EntryByteAt(d, i, 65), EntryByteAt(d, i, 66), EntryByteAt(d, i, 67));
  }

  lemma FlagsZeroAt(d: Disk, i: nat)
    requires i < 16
    ensures DiskWord(d, 16 + 72 * i + 68) == 0 <==> FourZero(d, i, 68)
  {
    WordZero(EntryByteAt(d, i, 68), EntryByteAt(d, i, 69), EntryByteAt(d, i, 70), EntryByteAt(d, i, 71));
  }

  ghost predicate PathZero(d: Disk, i: nat)
    requires i < 16
  {
    forall r: nat :: r < 64 ==> EntryByteAt(d, i, r) == 0
  }

  lemma PathZeroAt(d: Disk, i: nat, p: PathField)
    requires i < 16 && p == ReadPath(d, i)
    ensures ZeroPath(p) <==> PathZero(d, i)
  {
    assert forall r: nat :: r < 64 ==> p[r] == EntryByteAt(d, i, r);
  }

  lemma ThreeParts(d: Disk, i: nat)
    requires i < 16
    ensures ZeroBytes(d, i) <==> PathZero(d, i) && FourZero(d, i, 64) && FourZero(d, i, 68)
  {
    if PathZero(d, i) && FourZero(d, i, 64) && FourZero(d, i, 68) {
      forall r: nat | r < 72 ensures EntryByteAt(d, i, r) == 0 {
        if r == 64 || r == 65 || r == 66 || r == 67 {} else if r == 68 || r == 69 || r == 70 || r == 71 {}
      }
    }
  }

  lemma EntryZeroAt(d: Disk, i: nat, e: Entry)
    requires i < 16 && e == ReadEntry(d, i)
    ensures ZeroPath(e.path) <==> PathZero(d, i)
    ensures e.size == 0 <==> FourZero(d, i, 64)
    ensures e.flags == 0 <==> FourZero(d, i, 68)
  {
    PathZeroAt(d, i, e.path);
    SizeZeroAt(d, i);
    FlagsZeroAt(d, i);
  }

  lemma BlankFromParts(d: Disk, i: nat, e: Entry)
    requires i < 16 && (ZeroPath(e.path) <==> PathZero(d, i))
    requires (e.size == 0 <==> FourZero(d, i, 64)) && (e.flags == 0 <==> FourZero(d, i, 68))
    ensures IsBlank(e) <==> ZeroBytes(d, i)
  {
    ThreeParts(d, i);
  }

  lemma BlankBytes(d: Disk, i: nat, e: Entry)
    requires i < 16 && e == ReadEntry(d, i)
    ensures IsBlank(e) <==> ZeroBytes(d, i)
  {
    EntryZeroAt(d, i, e);
    BlankFromParts(d, i, e);
  }

  /** Byte r of entry i after n writes of the blank superblock. */
  lemma BlankPrefixByte(d: Disk, n: nat, i: nat, r: nat)
    requires n <= 3 && i < 16 && r < 72
    ensures EntryByteAt(WriteSuper(d, BlankSuper(), n), i, r) ==
            if 16 + 72 * i + r < 512 * n then 0 else EntryByteAt(d, i, r)
  {
    WriteSuperByte(d, BlankSuper(), n, 16 + 72 * i + r);
    SuperEntryByte(BlankSuper(), i, r);
    assert IsBlank(BlankSuper().entries[i]);
  }

  lemma BlankEntries(d: Disk, n: nat)
    requires n <= 3 && EntriesZeroFrom(d, n)
    ensures forall i :: 0 <= i < 16 ==> IsBlank(ReadSuper(WriteSuper(d, BlankSuper(), n)).entries[i])
  {
    var d' := WriteSuper(d, BlankSuper(), n);
    forall i: nat | i < 16 ensures IsBlank(ReadSuper(d').entries[i]) {
      forall r: nat | r < 72 ensures EntryByteAt(d', i, r) == 0 {
        BlankPrefixByte(d, n, i, r);
        EntryOffset(i, r);
      }
      BlankBytes(d', i, ReadEntry(d', i));
      assert ReadSuper(d').entries[i] == ReadEntry(d', i);
    }
  }

  lemma StaleByte(d: Disk, n: nat, off: nat)
    requires 1 <= n <= 3 && 512 * n <= off < 1168
    requires forall i :: 0 <= i < 16 ==> IsBlank(ReadSuper(WriteSuper(d, BlankSuper(), n)).entries[i])
    ensures DiskByte(d, off) == 0
  {
    var d' := WriteSuper(d, BlankSuper(), n);
    var i, r := (off - 16) / 72, (off - 16) % 72;
    BlankEntryByte(d', ReadSuper(d'), i, r);
    BlankPrefixByte(d, n, i, r);
  }

  lemma BlankEntryByte(d: Disk, sb: Super, i: nat, r: nat)
    requires ReadSuper(d) == sb && i < 16 && r < 72 && IsBlank(sb.entries[i])
    ensures EntryByteAt(d, i, r) == 0
  {
    assert sb.entries[i] == ReadEntry(d, i);
    BlankBytes(d, i, sb.entries[i]);
  }

  /** When the first boot on a foreign disk stops after n of its three superblock writes, the
      next boot finds a well-formed superblock if and only if at least one was made and the
      entry bytes in the sectors not written are zero. Otherwise the disk is still foreign
      (n = 0) or accepted with stale entries. */
  lemma FirstBootCut(d: Disk, n: nat)
    requires Foreign(d) && n <= 3
    ensures SuperOk(ReadSuper(WriteSuper(d, BlankSuper(), n))) <==> n >= 1 && EntriesZeroFrom(d, n)
    ensures n >= 1 ==> !Foreign(WriteSuper(d, BlankSuper(), n)) && ReadSuper(WriteSuper(d, BlankSuper(), n)).count == 0
  {
    if n >= 1 { CutHeader(d, n, ReadSuper(WriteSuper(d, BlankSuper(), n))); }
    if n >= 1 && EntriesZeroFrom(d, n) { BlankEntries(d, n); }
    if n >= 1 && SuperOk(ReadSuper(WriteSuper(d, BlankSuper(), n))) { StaleBytes(d, n); }
  }

  lemma CutHeader(d: Disk, n: nat, sb: Super)
    requires 1 <= n <= 3 && sb == ReadSuper(WriteSuper(d, BlankSuper(), n))
    ensures sb.magic == MAGIC && sb.version == VERSION && sb.count == 0
  {
    WriteSuperWritten(d, BlankSuper(), n);
    HeaderAfter(d, WriteSuper(d, BlankSuper(), n), BlankSuper(), n);
  }

  lemma StaleBytes(d: Disk, n: nat)
    requires 1 <= n <= 3
    requires forall i :: 0 <= i < 16 ==> IsBlank(ReadSuper(WriteSuper(d, BlankSuper(), n)).entries[i])
    ensures EntriesZeroFrom(d, n)
  {
    forall off: nat | 512 * n <= off < 1168 ensures DiskByte(d, off) == 0 { StaleByte(d, n, off); }
  }

  // ---------------------------------------------------------------------
  // Data sectors.
  // ---------------------------------------------------------------------

  /** Sector s of a file: its bytes, then zeros. */
  function DataSector(content: seq<byte>, s: nat): (d: Sector)
    ensures forall j :: 0 <= j < 512 ==>
      d[j] == if 512 * s + j < CutLen(|content|) then content[512 * s + j] else 0
  {
    var d := seq<byte>(512, (j: nat) => if 512 * s + j < CutLen(|content|) then content[512 * s + j] else 0);
    assert forall j :: 0 <= j < 512 ==>
      d[j] == if 512 * s + j < CutLen(|content|) then content[512 * s + j] else 0;
    d
  }

  function DataLba(i: nat, s: nat): nat { 103 + 8 * i + s }

  /** The disk after the first n of the eight data sectors of slot i were written. */
  function WriteData(d: Disk, i: nat, content: seq<byte>, n: nat): (d': Disk)
    requires i < 16 && n <= 8
    ensures |d'| == |d|
  {
    if n == 0 then d else WriteData(d, i, content, n - 1)[DataLba(i, n - 1) := DataSector(content, n - 1)]
  }

  lemma WriteDataAt(d: Disk, i: nat, content: seq<byte>, n: nat, lba: nat)
    requires i < 16 && n <= 8 && lba < |d|
    ensures WriteData(d, i, content, n)[lba] ==
            if DataLba(i, 0) <= lba < DataLba(i, n) then DataSector(content, lba - DataLba(i, 0)) else d[lba]
  {
    if n > 0 { WriteDataAt(d, i, content, n - 1, lba); }
  }

  /** The disk after the first n of the eleven sector writes of a save: eight of data, then
      the three of the superblock. */
  function SaveWrites(d: Disk, sb: Super, i: nat, content: seq<byte>, n: nat): (d': Disk)
    requires i < 16 && n <= 11
    ensures |d'| == |d|
  {
    if n <= 8 then WriteData(d, i, content, n)
    else WriteSuper(WriteData(d, i, content, 8), sb, n - 8)
  }

  /** Byte k of the file in slot i. */
  function DataByte(d: Disk, i: nat, k: nat): byte
    requires i < 16 && k < 4096
  {
    d[DataLba(i, k / 512)][k % 512]
  }

  function FileData(d: Disk, i: nat, size: nat): (c: seq<byte>)
    requires i < 16
    ensures |c| == CutLen(size) && forall k :: 0 <= k < |c| ==> c[k] == DataByte(d, i, k)
  {
    var c := seq<byte>(CutLen(size), (k: nat) requires k < CutLen(size) => DataByte(d, i, k));
    assert forall k :: 0 <= k < |c| ==> c[k] == DataByte(d, i, k);
    c
  }

  lemma SaveByte(d: Disk, sb: Super, i: nat, content: seq<byte>, n: nat, j: nat, k: nat)
    requires i < 16 && n <= 11 && j < 16 && k < 4096
    ensures DataByte(SaveWrites(d, sb, i, content, n), j, k) ==
            if j == i && k < 512 * n then (if k < CutLen(|content|) then content[k] else 0)
            else DataByte(d, j, k)
  {
    var m := if n <= 8 then n else 8;
    var lba := DataLba(j, k / 512);
    WriteDataAt(d, i, content, m, lba);
    if n > 8 { WriteSuperAt(WriteData(d, i, content, 8), sb, n - 8, lba); }
    assert k == 512 * (k / 512) + k % 512;
    assert j != i ==> !(DataLba(i, 0) <= lba < DataLba(i, m));
    assert j == i ==> (DataLba(i, 0) <= lba < DataLba(i, m) <==> k < 512 * m);
  }

  lemma DataKeepsSuper(d: Disk, i: nat, content: seq<byte>, n: nat)
    requires i < 16 && n <= 8
    ensures ReadSuper(WriteData(d, i, content, n)) == ReadSuper(d)
  {
    var d' := WriteData(d, i, content, n);
    forall off: nat | off < 1536 ensures DiskByte(d', off) == DiskByte(d, off) {
      WriteDataAt(d, i, content, n, 100 + off / 512);
    }
    SameSuper(d, d');
  }

  lemma SameSuper(d: Disk, d': Disk)
    requires forall off: nat :: off < 1536 ==> DiskByte(d', off) == DiskByte(d, off)
    ensures ReadSuper(d') == ReadSuper(d)
  {
    forall i | 0 <= i < 16 ensures ReadEntry(d', i) == ReadEntry(d, i) {
      assert ReadPath(d', i) == ReadPath(d, i);
    }
    assert ReadSuper(d').entries == ReadSuper(d).entries;
  }

  // ---------------------------------------------------------------------
  // What a restart finds.
  // ---------------------------------------------------------------------

  // A file is known by the paths that lead to it, of which a save stores one. Bytes left by
  // another system may spell any of them.

  /** Entry j has data for the file with these paths. */
  ghost predicate Names(sb: Super, paths: iset<string>, j: nat)
    requires j < 16
  {
    sb.entries[j].size != 0 && Text(sb.entries[j].path) in paths
  }

  /** The last of the first n entries that has data for the file: the one that wins in the
      restore loop. */
  ghost function LastNaming(sb: Super, paths: iset<string>, n: nat): (r: Option<nat>)
    requires n <= 16
    ensures r.Some? ==> r.value < n && Names(sb, paths, r.value)
    ensures forall j: nat :: (if r.Some? then r.value < j else true) && j < n ==> !Names(sb, paths, j)
  {
    if n == 0 then None else if Names(sb, paths, n - 1) then Some(n - 1) else LastNaming(sb, paths, n - 1)
  }

  /** The content a restart restores for the file with these paths, if any. */
  ghost function Stored(d: Disk, paths: iset<string>): Option<seq<byte>>
    requires ReadSuper(d).count <= 16
  {
    StoredIn(d, ReadSuper(d), paths)
  }

  ghost function StoredIn(d: Disk, sb: Super, paths: iset<string>): Option<seq<byte>>
    requires sb.count <= 16
  {
    match LastNaming(sb, paths, sb.count)
    case None => None
    case Some(j) => Some(FileData(d, j, sb.entries[j].size))
  }

  lemma StoredAt(d: Disk, sb: Super, paths: iset<string>, k: nat)
    requires k < sb.count <= 16 && Names(sb, paths, k)
    requires forall j: nat :: k < j < sb.count ==> !Names(sb, paths, j)
    ensures StoredIn(d, sb, paths) == Some(FileData(d, k, sb.entries[k].size))
  {}

  lemma StoredNowhere(d: Disk, sb: Super, paths: iset<string>)
    requires sb.count <= 16 && forall j: nat :: j < sb.count ==> !Names(sb, paths, j)
    ensures StoredIn(d, sb, paths).None?
  {}

  /** The same entry wins on both disks, with the same data. */
  lemma StoredSame(d: Disk, d': Disk, sb: Super, sb2: Super, paths: iset<string>)
    requires sb.count <= sb2.count <= 16
    requires forall j: nat :: j < sb.count ==>
      (Names(sb2, paths, j) <==> Names(sb, paths, j)) &&
      (Names(sb, paths, j) ==> sb2.entries[j].size == sb.entries[j].size &&
                               FileData(d', j, sb.entries[j].size) == FileData(d, j, sb.entries[j].size))
    requires forall j: nat :: sb.count <= j < sb2.count ==> !Names(sb2, paths, j)
    ensures StoredIn(d', sb2, paths) == StoredIn(d, sb, paths)
  {
    var r := LastNaming(sb, paths, sb.count);
    if r.Some? {
      StoredAt(d', sb2, paths, r.value);
    } else {
      StoredNowhere(d', sb2, paths);
    }
  }

  lemma SlotIs(sb: Super, s: string, i: nat)
    requires SuperOk(sb) && s != "" && i < sb.count && Text(sb.entries[i].path) == s
    ensures FindSlot(sb, s, 0) == i
  {
    var k := FindSlot(sb, s, 0);
    assert k <= i;
    assert k < i ==> !Twins(sb, k, i);
  }

  /** The slot found for a path is the only one that holds it. */
  lemma OnlySlot(sb: Super, s: string, k: nat)
    requires SuperOk(sb) && s != "" && k < sb.count
    ensures Text(sb.entries[k].path) == s <==> k == FindSlot(sb, s, 0)
  {
    if Text(sb.entries[k].path) == s { SlotIs(sb, s, k); }
  }

  /** An entry of which the parts that lie in the first m superblock sectors are new. */
  function Mixed(old': Entry, new': Entry, i: nat, m: nat): Entry {
    Entry(if PathDone(i, m) then new'.path else old'.path,
          if TailDone(i, m) then new'.size else old'.size,
          if TailDone(i, m) then new'.flags else old'.flags)
  }

  lemma MixedEntry(d: Disk, d': Disk, sb: Super, sb': Super, m: nat, j: nat)
    requires m <= 3 && j < 16 && SuperWritten(d, d', sb', m) && ReadSuper(d) == sb
    ensures ReadSuper(d').entries[j] == Mixed(sb.entries[j], sb'.entries[j], j, m)
  {
    EntryAfter(d, d', sb', m, j);
    assert ReadSuper(d).entries[j] == ReadEntry(d, j);
  }

  /** The superblock found after m >= 1 of its sectors were written, when only entry i differs. */
  lemma SuperAfter(d: Disk, d': Disk, sb: Super, sb': Super, i: nat, m: nat)
    requires 1 <= m <= 3 && i < 16 && SuperWritten(d, d', sb', m) && ReadSuper(d) == sb
    requires forall j :: 0 <= j < 16 && j != i ==> sb'.entries[j] == sb.entries[j]
    ensures ReadSuper(d') == sb'.(entries := sb'.entries[i := Mixed(sb.entries[i], sb'.entries[i], i, m)])
  {
    HeaderAfter(d, d', sb', m);
    var es, target := ReadSuper(d').entries, sb'.entries[i := Mixed(sb.entries[i], sb'.entries[i], i, m)];
    forall j: nat | j < 16 ensures es[j] == target[j] { MixedEntry(d, d', sb, sb', m, j); }
    assert es == target;
  }
}

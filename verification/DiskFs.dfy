/** The steps of src/kernel/diskfs.cpp: sector buffers, byte copies and disk writes. */
module DiskFs {
  import opened Common
  import opened DiskLayout
  import opened DiskSave
  import opened DiskWorld
  import opened VfsTree

  /** The block device. Writes reach the disk one sector at a time until the power (or the
      medium) fails, after which none does. */
  class BlockDevice {
    var sectors: Disk
    var power: nat     // writes left before the failure
    var online: bool   // reads succeed

    method Read(lba: nat, buf: array<byte>, at: nat) returns (ok: bool)
      requires lba < |sectors| && at + 512 <= buf.Length
      modifies buf
      ensures ok == online
      ensures forall j :: 0 <= j < buf.Length ==>
        buf[j] == if ok && at <= j < at + 512 then sectors[lba][j - at] else old(buf[j])
    {
      if online {
        forall j | 0 <= j < 512 { buf[at + j] := sectors[lba][j]; }
      }
      return online;
    }

    method Write(lba: nat, buf: array<byte>, at: nat) returns (ok: bool)
      requires lba < |sectors| && at + 512 <= buf.Length
      modifies this
      ensures ok == (old(power) > 0) && online == old(online)
      ensures sectors == if ok then old(sectors)[lba := buf[at..at + 512]] else old(sectors)
      ensures power == if ok then old(power) - 1 else 0
    {
      ok := power > 0;
      if ok { sectors, power := sectors[lba := buf[at..at + 512]], power - 1; }
    }
  }

  function Min(a: nat, b: nat): nat { if a < b then a else b }

  /** The packed structure that 1168 bytes denote. */
  function Unpack(raw: seq<byte>): Super
    requires |raw| == 1168
  {
    Super(WordAt(raw, 0), WordAt(raw, 4), WordAt(raw, 8), WordAt(raw, 12),
          seq(16, i requires 0 <= i < 16 => EntryAt(raw, i)))
  }

  function WordAt(raw: seq<byte>, off: nat): u32
    requires off + 3 < |raw|
  {
    Word(raw[off], raw[off + 1], raw[off + 2], raw[off + 3])
  }

  function EntryAt(raw: seq<byte>, i: nat): Entry
    requires |raw| == 1168 && i < 16
  {
    Entry(raw[16 + 72 * i..16 + 72 * i + 64], WordAt(raw, 16 + 72 * i + 64), WordAt(raw, 16 + 72 * i + 68))
  }

  /** The bytes are those of the superblock area of the disk. */
  ghost predicate RawOf(raw: seq<byte>, d: Disk) {
    |raw| == 1168 && forall off: nat {:trigger DiskByte(d, off)} :: off < 1168 ==> raw[off] == DiskByte(d, off)
  }

  lemma WordReads(raw: seq<byte>, d: Disk, off: nat)
    requires RawOf(raw, d) && off + 3 < 1168
    ensures WordAt(raw, off) == DiskWord(d, off)
  {
    assert raw[off] == DiskByte(d, off) && raw[off + 1] == DiskByte(d, off + 1);
    assert raw[off + 2] == DiskByte(d, off + 2) && raw[off + 3] == DiskByte(d, off + 3);
  }

  lemma PathReads(raw: seq<byte>, d: Disk, i: nat)
    requires RawOf(raw, d) && i < 16
    ensures EntryAt(raw, i).path == ReadPath(d, i)
  {
    var p, q := EntryAt(raw, i).path, ReadPath(d, i);
    forall r: nat | r < 64 ensures p[r] == q[r] {
      assert raw[16 + 72 * i + r] == DiskByte(d, 16 + 72 * i + r);
    }
    assert p == q;
  }

  lemma EntryReads(raw: seq<byte>, d: Disk, i: nat)
    requires RawOf(raw, d) && i < 16
    ensures EntryAt(raw, i) == ReadEntry(d, i)
  {
    PathReads(raw, d, i);
    WordReads(raw, d, 16 + 72 * i + 64);
    WordReads(raw, d, 16 + 72 * i + 68);
  }

  lemma UnpackReads(raw: seq<byte>, d: Disk)
    requires RawOf(raw, d)
    ensures Unpack(raw) == ReadSuper(d)
  {
    WordReads(raw, d, 0);
    WordReads(raw, d, 4);
    WordReads(raw, d, 8);
    WordReads(raw, d, 12);
    SameEntries(raw, d, Unpack(raw).entries, ReadSuper(d).entries);
  }

  lemma SameEntries(raw: seq<byte>, d: Disk, es: Entries, es': Entries)
    requires RawOf(raw, d)
    requires forall i: nat :: i < 16 ==> es[i] == EntryAt(raw, i) && es'[i] == ReadEntry(d, i)
    ensures es == es'
  {
    forall i: nat | i < 16 ensures es[i] == es'[i] { EntryReads(raw, d, i); }
  }

  class DiskFs {
    const dev: BlockDevice
    const sector: array<byte>
    const raw: array<byte>
    const buf: array<byte>
    var super: Super
    var loaded: bool

    ghost predicate Valid() {
      sector.Length == 512 && raw.Length == 1168 && buf.Length == 4096 &&
      sector != raw && sector != buf && raw != buf
    }

    constructor (dev: BlockDevice)
      ensures Valid() && this.dev == dev && !loaded && fresh(sector) && fresh(raw) && fresh(buf)
    {
      this.dev := dev;
      sector, raw, buf := new byte[512], new byte[1168], new byte[4096];
      super, loaded := BlankSuper(), false;
    }

    method CopyIn(i: nat)
      requires Valid() && i < 3
      modifies raw
      ensures forall j :: 0 <= j < 1168 ==>
        raw[j] == if 512 * i <= j < 512 * i + 512 then sector[j - 512 * i] else old(raw[j])
    {
      var off := 512 * i;
      var want := Min(1168 - off, 512);
      for j := 0 to want
        invariant forall k :: 0 <= k < 1168 ==>
          raw[k] == if off <= k < off + j then sector[k - off] else old(raw[k])
      {
        raw[off + j] := sector[j];
      }
    }

    /** read_super. */
    method LoadSuper() returns (ok: bool)
      requires Valid()
      modifies `super, sector, raw
      ensures ok == dev.online
      ensures super == if ok then ReadSuper(dev.sectors) else old(super)
    {
      for i := 0 to 3
        invariant forall off: nat :: off < Min(512 * i, 1168) ==> raw[off] == DiskByte(dev.sectors, off)
        invariant i > 0 ==> dev.online
        invariant super == old(super)
      {
        ok := dev.Read(100 + i, sector, 0);
        if !ok { return; }
        CopyIn(i);
      }
      super := Unpack(raw[..]);
      UnpackReads(raw[..], dev.sectors);
      return true;
    }

    method CopyOut(i: nat)
      requires Valid() && i < 3
      modifies sector
      ensures sector[..] == SuperSector(super, i)
    {
      for j := 0 to 512
        invariant forall k :: 0 <= k < j ==> sector[k] == 0
      {
        sector[j] := 0;
      }
      var off := 512 * i;
      var want := Min(1168 - off, 512);
      for j := 0 to want
        invariant forall k :: 0 <= k < 512 ==> sector[k] == if k < j then SuperByte(super, off + k) else 0
      {
        sector[j] := SuperByte(super, off + j);
      }
      assert forall k :: 0 <= k < 512 ==> sector[..][k] == SuperByte(super, 512 * i + k);
    }

    /** write_super. */
    method StoreSuper() returns (ok: bool)
      requires Valid()
      modifies sector, dev
      ensures dev.online == old(dev.online) && ok == (old(dev.power) >= 3)
      ensures var n := Min(old(dev.power), 3);
              dev.power == old(dev.power) - n && dev.sectors == WriteSuper(old(dev.sectors), super, n)
    {
      for i := 0 to 3
        invariant dev.online == old(dev.online) && dev.power == old(dev.power) - i
        invariant dev.sectors == WriteSuper(old(dev.sectors), super, i)
      {
        CopyOut(i);
        ok := dev.Write(100 + i, sector, 0);
        if !ok { return; }
        assert sector[0..512] == sector[..];
      }
      return true;
    }

    /** Whether a path field holds the string. */
    static method SameText(p: PathField, s: string) returns (same: bool)
      requires CChars(s)
      ensures same == (Text(p) == s)
    {
      var i := 0;
      while i < 64 && p[i] != 0 && i < |s| && p[i] == s[i] as int
        invariant 0 <= i <= 64 && i <= |s|
        invariant forall k :: 0 <= k < i ==> p[k] != 0 && p[k] == s[k] as int
      {
        i := i + 1;
      }
      same := (i == 64 || p[i] == 0) && i == |s|;
      FirstDifference(p, s, i);
    }

    /** find_slot; None for -1. */
    method SearchSlot(path: string) returns (k: Option<nat>)
      requires Valid() && super.count <= 16 && CChars(path)
      ensures k == var f := FindSlot(super, path, 0); if f < super.count then Some(f) else None
    {
      for i := 0 to super.count
        invariant FindSlot(super, path, 0) == FindSlot(super, path, i)
      {
        var same := SameText(super.entries[i].path, path);
        if same { return Some(i); }
      }
      return None;
    }

    /** alloc_slot; None for -1. */
    method AllocSlot(path: string) returns (k: Option<nat>)
      requires Valid() && super.count <= 16 && PathString(path)
      modifies `super
      ensures k == if old(super.count) == 16 then None else Some(old(super.count))
      ensures super == match k case None => old(super)
                               case Some(i) => old(super).(count := i + 1,
                                 entries := old(super).entries[i := Entry(Overlay(old(super).entries[i].path, path), 0, 0)])
    {
      if super.count >= 16 { return None; }
      var i := super.count;
      var stale := super.entries[i].path;
      var field := stale;
      super := super.(count := i + 1);
      var n := if |path| >= 64 then 63 else |path|;
      for j := 0 to n
        invariant |field| == 64
        invariant forall r :: 0 <= r < 64 ==> field[r] == if r < j then path[r] as int else stale[r]
      {
        assert CChar(path[j]);
        field := field[j := path[j] as int];
      }
      field := field[n := 0];
      assert field == Overlay(stale, path);
      super := super.(entries := super.entries[i := Entry(field, 0, 0)]);
      return Some(i);
    }

    /** The data buffer: the content, cut, then zeros. */
    method FillBuffer(content: seq<byte>, size: nat)
      requires Valid() && size == CutLen(|content|)
      modifies buf
      ensures forall s :: 0 <= s < 8 ==> buf[512 * s..512 * s + 512] == DataSector(content, s)
    {
      for i := 0 to 4096
        invariant forall k :: 0 <= k < i ==> buf[k] == 0
      {
        buf[i] := 0;
      }
      for i := 0 to size
        invariant forall k :: 0 <= k < 4096 ==> buf[k] == if k < i then content[k] else 0
      {
        buf[i] := content[i];
      }
      forall s | 0 <= s < 8 ensures buf[512 * s..512 * s + 512] == DataSector(content, s) {
        var slice := buf[512 * s..512 * s + 512];
        assert forall j :: 0 <= j < 512 ==> slice[j] == buf[512 * s + j];
        assert slice == DataSector(content, s);
      }
    }

    /** The eight data writes; the first that fails stops the rest. */
    method StoreData(i: nat, content: seq<byte>) returns (ok: bool)
      requires Valid() && i < 16
      requires forall s :: 0 <= s < 8 ==> buf[512 * s..512 * s + 512] == DataSector(content, s)
      modifies dev
      ensures dev.online == old(dev.online) && ok == (old(dev.power) >= 8)
      ensures var n := Min(old(dev.power), 8);
              dev.power == old(dev.power) - n && dev.sectors == WriteData(old(dev.sectors), i, content, n)
    {
      ok := true;
      ghost var d, n := dev.sectors, 0;
      for s := 0 to 8
        invariant dev.online == old(dev.online) && ok == (old(dev.power) >= s) && n == Min(old(dev.power), s)
        invariant dev.power == old(dev.power) - n && dev.sectors == WriteData(d, i, content, n)
      {
        if ok {
          ok := StoreSector(i, s, content, d);
          n := if ok then n + 1 else n;
        }
      }
    }

    method StoreSector(i: nat, s: nat, content: seq<byte>, ghost d: Disk) returns (ok: bool)
      requires Valid() && i < 16 && s < 8 && buf[512 * s..512 * s + 512] == DataSector(content, s)
      requires dev.sectors == WriteData(d, i, content, s)
      modifies dev
      ensures dev.online == old(dev.online) && ok == (old(dev.power) > 0)
      ensures dev.power == (if ok then old(dev.power) - 1 else 0)
      ensures dev.sectors == WriteData(d, i, content, if ok then s + 1 else s)
    {
      ok := dev.Write(DataLba(i, s), buf, 512 * s);
    }

    /** diskfs_save of a file with the given path and content. Whatever happens, the disk holds
        a prefix of the eleven writes, and the superblock in memory is the one after the save,
        even when the save fails. */
    method Save(path: string, content: seq<byte>) returns (ok: bool)
      requires Valid() && super.count <= 16 && PathString(path)
      modifies `super, sector, buf, dev
      ensures dev.online == old(dev.online)
      ensures !loaded || SaveSuper(old(super), path, CutLen(|content|)).None? ==>
        !ok && super == old(super) && dev.sectors == old(dev.sectors)
      ensures loaded && SaveSuper(old(super), path, CutLen(|content|)).Some? ==>
        var (sb, k) := SaveSuper(old(super), path, CutLen(|content|)).value;
        k < 16 && super == sb && ok == (old(dev.power) >= 11) &&
        dev.sectors == SaveWrites(old(dev.sectors), sb, k, content, Min(old(dev.power), 11))
    {
      if !loaded { return false; }
      var slot := TakeSlot(path, CutLen(|content|));
      if slot.None? { return false; }
      ok := StoreAll(slot.value, content);
    }

    /** Finds or allocates the entry and sets its size. */
    method TakeSlot(path: string, size: u32) returns (slot: Option<nat>)
      requires Valid() && super.count <= 16 && PathString(path)
      modifies `super
      ensures match SaveSuper(old(super), path, size)
              case None => slot.None? && super == old(super)
              case Some((sb, k)) => k < 16 && slot == Some(k) && super == sb
    {
      slot := SearchSlot(path);
      if slot.None? {
        slot := AllocSlot(path);
        if slot.None? { return; }
      }
      var k := slot.value;
      super := super.(entries := super.entries[k := super.entries[k].(size := size)]);
    }

    /** The eleven writes of a save. */
    method StoreAll(k: nat, content: seq<byte>) returns (ok: bool)
      requires Valid() && k < 16
      modifies sector, buf, dev
      ensures dev.online == old(dev.online) && ok == (old(dev.power) >= 11)
      ensures dev.sectors == SaveWrites(old(dev.sectors), super, k, content, Min(old(dev.power), 11))
    {
      FillBuffer(content, CutLen(|content|));
      ok := StoreData(k, content);
      if !ok { return false; }
      ok := StoreSuper();
    }

    method LoadData(i: nat) returns (ok: bool)
      requires Valid() && i < 16
      modifies buf
      ensures ok == dev.online
      ensures ok ==> forall k :: 0 <= k < 4096 ==> buf[k] == DataByte(dev.sectors, i, k)
    {
      ok := true;
      for s := 0 to 8
        invariant ok == (s == 0 || dev.online)
        invariant ok ==> forall k :: 0 <= k < 512 * s ==> buf[k] == DataByte(dev.sectors, i, k)
      {
        if ok { ok := dev.Read(DataLba(i, s), buf, 512 * s); }
      }
    }

    /** One round of the restore loop. */
    method RestoreEntry<N(!new)>(e: Setting<N>, i: nat, text: map<N, seq<byte>>) returns (text': map<N, seq<byte>>)
      requires Valid() && dev.online && super == ReadSuper(dev.sectors) && i < 16
      modifies buf
      ensures text' == RestoreSlot(e, dev.sectors, i, text)
    {
      var entry := super.entries[i];
      if entry.size == 0 || entry.path[0] == 0 { return text; }
      var path := Text(entry.path);
      var n := HomeFile(e.tree, e.root, path);
      if n.None? { return text; }
      var ok := LoadData(i);
      if !ok { return text; }
      var size := if entry.size > 4096 then 4096 else entry.size;
      assert buf[..size] == FileData(dev.sectors, i, entry.size);
      text' := text;
      if n.value in e.tree && e.tree[n.value].kind == File { text' := text[n.value := buf[..size]]; }
    }

    /** diskfs_init over a freshly built tree. A foreign disk is left with a prefix of the three
        writes of a blank superblock; any other disk is not written at all. */
    method Init<N(!new)>(e: Setting<N>) returns (text: map<N, seq<byte>>)
      requires Valid()
      requires Bootable(dev.sectors)
      modifies this, sector, raw, buf, dev
      ensures dev.online == old(dev.online)
      ensures !dev.online ==>
        text == e.defaults && super == old(super) && loaded == old(loaded) && dev.sectors == old(dev.sectors)
      ensures dev.online ==>
        loaded && super == Boot(e, old(dev.sectors)).super && text == Boot(e, old(dev.sectors)).text
      ensures dev.online ==> dev.sectors == CutBoot(old(dev.sectors), Min(old(dev.power), 3))
      ensures dev.online && old(dev.power) >= 3 ==> dev.sectors == Boot(e, old(dev.sectors)).disk
    {
      text := e.defaults;
      var ok := LoadSuper();
      if !ok { return; }
      if super.magic != MAGIC || super.version != VERSION {
        super := BlankSuper();
        ok := StoreSuper();
        loaded := true;
        return;
      }
      text := RestoreAll(e);
      loaded := true;
    }

    /** The restore loop. */
    method RestoreAll<N(!new)>(e: Setting<N>) returns (text: map<N, seq<byte>>)
      requires Valid() && dev.online && super == ReadSuper(dev.sectors) && super.count <= 16
      modifies buf
      ensures text == Restored(e, dev.sectors, 0, e.defaults)
    {
      text := e.defaults;
      for i := 0 to super.count
        invariant Restored(e, dev.sectors, i, text) == Restored(e, dev.sectors, 0, e.defaults)
      {
        text := RestoreEntry(e, i, text);
      }
    }
  }

  /** Where the comparison of a path field and a string stops decides whether they are equal. */
  lemma FirstDifference(p: PathField, s: string, i: nat)
    requires i <= 64 && i <= |s| && CChars(s)
    requires forall k :: 0 <= k < i ==> p[k] != 0 && p[k] == s[k] as int
    requires i == 64 || p[i] == 0 || i == |s| || p[i] != s[i] as int
    ensures (i == 64 || p[i] == 0) && i == |s| <==> Text(p) == s
  {
    assert CEnd(p, 0) >= i;
    if CEnd(p, 0) == |s| == i { assert Text(p) == s; }
    if i < CEnd(p, 0) && i < |s| { assert Text(p)[i] == p[i] as char != s[i]; }
  }
}

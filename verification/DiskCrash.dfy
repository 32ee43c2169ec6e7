/** Crash consistency of a save: what a restart finds after any prefix of its sector writes
    (src/kernel/diskfs.cpp). */
module DiskCrash {
  import opened Common
  import opened DiskLayout
  import opened DiskSave

  /** A save of content under path s uses slot k and leaves superblock sb' in memory; the
      superblock in memory was in step with disk d before. Nothing is asked of the entries:
      those at or above the count may hold anything. */
  ghost predicate Saving(d: Disk, s: string, content: seq<byte>, sb': Super, k: nat) {
    PathString(s) && ReadSuper(d).count <= 16 &&
    SaveSuper(ReadSuper(d), s, CutLen(|content|)) == Some((sb', k))
  }

  lemma SavingSlot(d: Disk, s: string, content: seq<byte>, sb': Super, k: nat)
    requires Saving(d, s, content, sb', k)
    ensures var sb := ReadSuper(d);
            k < 16 && k <= sb.count && FindSlot(sb, s, 0) == k &&
            sb'.magic == sb.magic && sb'.version == sb.version && sb'.reserved == sb.reserved &&
            sb'.count == (if k == sb.count then k + 1 else sb.count) &&
            (forall j :: 0 <= j < 16 && j != k ==> sb'.entries[j] == sb.entries[j]) &&
            Text(sb'.entries[k].path) == s && sb'.entries[k].size == CutLen(|content|) &&
            (k < sb.count ==> sb'.entries[k].path == sb.entries[k].path)
  {
    if k == ReadSuper(d).count { TextOverlay(ReadSuper(d).entries[k].path, s); }
  }

  /** The superblock a restart reads after n writes. */
  function SuperThen(sb: Super, sb': Super, k: nat, n: nat): Super
    requires k < 16
  {
    if n <= 8 then sb else sb'.(entries := sb'.entries[k := Mixed(sb.entries[k], sb'.entries[k], k, n - 8)])
  }

  lemma ReadAfter(d: Disk, s: string, content: seq<byte>, sb': Super, k: nat, n: nat)
    requires Saving(d, s, content, sb', k) && n <= 11
    ensures k < 16 && ReadSuper(SaveWrites(d, sb', k, content, n)) == SuperThen(ReadSuper(d), sb', k, n)
    ensures ReadSuper(SaveWrites(d, sb', k, content, n)).count <= 16
    ensures Foreign(SaveWrites(d, sb', k, content, n)) == Foreign(d)
  {
    SavingSlot(d, s, content, sb', k);
    if n <= 8 {
      DataKeepsSuper(d, k, content, n);
    } else {
      var d0 := WriteData(d, k, content, 8);
      DataKeepsSuper(d, k, content, 8);
      WriteSuperWritten(d0, sb', n - 8);
      SuperAfter(d0, WriteSuper(d0, sb', n - 8), ReadSuper(d), sb', k, n - 8);
    }
  }

  /** Only entry k differs, and only it can be new. */
  ghost predicate OnlyEntry(sb: Super, sb2: Super, k: nat) {
    k < 16 && sb.count <= 16 && (sb2.count == sb.count || sb2.count == sb.count + 1 == k + 1) &&
    forall j: nat :: j < 16 && j != k ==> sb2.entries[j] == sb.entries[j]
  }

  lemma OnlyEntryThen(d: Disk, s: string, content: seq<byte>, sb': Super, k: nat, n: nat, sb2: Super)
    requires Saving(d, s, content, sb', k) && n <= 11
    requires k < 16 ==> sb2 == SuperThen(ReadSuper(d), sb', k, n)
    ensures k < 16 && ReadSuper(SaveWrites(d, sb', k, content, n)) == sb2 && OnlyEntry(ReadSuper(d), sb2, k)
  {
    SavingSlot(d, s, content, sb', k);
    ReadAfter(d, s, content, sb', k, n);
  }

  lemma AllWritten(sb: Super, sb': Super, k: nat)
    requires k < 16
    ensures SuperThen(sb, sb', k, 11) == sb'
  {
    OnlyEntrySixStraddles(k, 3);
    assert Mixed(sb.entries[k], sb'.entries[k], k, 3) == sb'.entries[k];
    assert sb'.entries[k := sb'.entries[k]] == sb'.entries;
  }

  // ---------------------------------------------------------------------
  // Well-formed superblocks stay well formed.
  // ---------------------------------------------------------------------

  /** The path found in slot k after n writes: of a slot new to this save, nothing or all of it. */
  lemma PathThen(d: Disk, s: string, content: seq<byte>, sb': Super, k: nat, n: nat)
    requires Saving(d, s, content, sb', k) && SuperOk(ReadSuper(d)) && 8 < n <= 11
    ensures k < 16
    ensures var sb := ReadSuper(d);
            var path := Text(SuperThen(sb, sb', k, n).entries[k].path);
            path == if k < sb.count || PathDone(k, n - 8) then s else ""
  {
    SavingSlot(d, s, content, sb', k);
    if k == ReadSuper(d).count { TextBlank(ReadSuper(d).entries[k]); }
  }

  /** The path found in slot j after n writes. */
  lemma PathsThen(d: Disk, s: string, content: seq<byte>, sb': Super, k: nat, n: nat, j: nat)
    requires Saving(d, s, content, sb', k) && SuperOk(ReadSuper(d)) && 8 < n <= 11 && j < 16
    ensures k < 16
    ensures var sb := ReadSuper(d);
            var path := Text(SuperThen(sb, sb', k, n).entries[j].path);
            path == if j == k && (k < sb.count || PathDone(k, n - 8)) then s
                    else if j == k then "" else Text(sb.entries[j].path)
  {
    SavingSlot(d, s, content, sb', k);
    PathThen(d, s, content, sb', k, n);
  }

  /** Every superblock a restart can read is well formed if the one before the save was. */
  lemma SuperThenOk(d: Disk, s: string, content: seq<byte>, sb': Super, k: nat, n: nat)
    requires Saving(d, s, content, sb', k) && SuperOk(ReadSuper(d)) && n <= 11
    ensures k < 16 && SuperOk(SuperThen(ReadSuper(d), sb', k, n))
  {
    SavingSlot(d, s, content, sb', k);
    if n > 8 {
      var sb2 := SuperThen(ReadSuper(d), sb', k, n);
      assert sb2.magic == sb'.magic && sb2.version == sb'.version && sb2.count == sb'.count;
      forall j | sb2.count <= j < 16 ensures IsBlank(sb2.entries[j]) {
        BlankThen(d, s, content, sb', k, n, j);
      }
      forall i: nat, j: nat | i < j < sb2.count ensures !Twins(sb2, i, j) {
        NoTwinsThen(d, s, content, sb', k, n, i, j);
      }
    }
  }

  lemma BlankThen(d: Disk, s: string, content: seq<byte>, sb': Super, k: nat, n: nat, j: nat)
    requires Saving(d, s, content, sb', k) && SuperOk(ReadSuper(d)) && 8 < n <= 11 && sb'.count <= j < 16
    ensures k < 16 && IsBlank(SuperThen(ReadSuper(d), sb', k, n).entries[j])
  {
    SavingSlot(d, s, content, sb', k);
    assert SuperThen(ReadSuper(d), sb', k, n).entries[j] == ReadSuper(d).entries[j];
  }

  lemma NoTwinsThen(d: Disk, s: string, content: seq<byte>, sb': Super, k: nat, n: nat, i: nat, j: nat)
    requires Saving(d, s, content, sb', k) && SuperOk(ReadSuper(d)) && 8 < n <= 11 && i < j < sb'.count && j < 16
    ensures k < 16 && !Twins(SuperThen(ReadSuper(d), sb', k, n), i, j)
  {
    SavingSlot(d, s, content, sb', k);
    PathsThen(d, s, content, sb', k, n, i);
    PathsThen(d, s, content, sb', k, n, j);
    var sb := ReadSuper(d);
    if k < sb.count || j < k { assert !Twins(sb, i, j); }
  }

  // ---------------------------------------------------------------------
  // Data after a prefix of the writes.
  // ---------------------------------------------------------------------

  /** What a restart restores after a finished save. */
  function Target(content: seq<byte>): Option<seq<byte>> { if content == [] then None else Some(Cut(content)) }

  /** Byte x of the slot after a finished save. */
  function NewByte(content: seq<byte>, x: nat): byte { if x < CutLen(|content|) then content[x] else 0 }

  /** What a stale size makes of the content: cut or padded with zeros. */
  function Padded(content: seq<byte>, size: nat): (b: seq<byte>)
    ensures |b| == CutLen(size) && forall x :: 0 <= x < |b| ==> b[x] == NewByte(content, x)
  {
    seq<byte>(CutLen(size), (x: nat) => NewByte(content, x))
  }

  /** The old content with its first n sectors overwritten. */
  function Blend(before: seq<byte>, content: seq<byte>, n: nat): (b: seq<byte>)
    ensures |b| == |before|
    ensures forall x :: 0 <= x < |b| ==> b[x] == if x < 512 * n then NewByte(content, x) else before[x]
  {
    seq<byte>(|before|, (x: nat) requires x < |before| => if x < 512 * n then NewByte(content, x) else before[x])
  }

  lemma CutBytes(content: seq<byte>)
    ensures |Cut(content)| == CutLen(|content|)
    ensures forall x: nat :: x < |Cut(content)| ==> Cut(content)[x] == NewByte(content, x)
  {}

  lemma PaddedTarget(content: seq<byte>, size: nat)
    ensures CutLen(size) == CutLen(|content|) ==> Padded(content, size) == Cut(content)
    ensures size != 0 ==> (Some(Padded(content, size)) == Target(content) <==> CutLen(size) == CutLen(|content|))
  {
    CutBytes(content);
    if CutLen(size) == CutLen(|content|) { assert Padded(content, size) == Cut(content); }
  }

  lemma OtherData(d: Disk, sb': Super, k: nat, content: seq<byte>, n: nat, i: nat, size: nat)
    requires k < 16 && i < 16 && i != k && n <= 11
    ensures FileData(SaveWrites(d, sb', k, content, n), i, size) == FileData(d, i, size)
  {
    var old', new' := FileData(d, i, size), FileData(SaveWrites(d, sb', k, content, n), i, size);
    forall x: nat | x < |old'| ensures new'[x] == old'[x] { SaveByte(d, sb', k, content, n, i, x); }
    assert new' == old';
  }

  /** Once the eight data sectors are written the slot holds the content and zeros. */
  lemma PaddedData(d: Disk, sb': Super, k: nat, content: seq<byte>, n: nat, size: nat)
    requires k < 16 && 8 <= n <= 11
    ensures FileData(SaveWrites(d, sb', k, content, n), k, size) == Padded(content, size)
  {
    var c := FileData(SaveWrites(d, sb', k, content, n), k, size);
    forall x: nat | x < |c| ensures c[x] == NewByte(content, x) { SaveByte(d, sb', k, content, n, k, x); }
    assert c == Padded(content, size);
  }

  lemma BlendData(d: Disk, sb': Super, k: nat, content: seq<byte>, n: nat, size: nat, before: seq<byte>)
    requires k < 16 && n <= 11 && before == FileData(d, k, size)
    ensures FileData(SaveWrites(d, sb', k, content, n), k, size) == Blend(before, content, n)
  {
    var after, blend := FileData(SaveWrites(d, sb', k, content, n), k, size), Blend(before, content, n);
    forall x: nat | x < |before| ensures after[x] == blend[x] { SaveByte(d, sb', k, content, n, k, x); }
    assert after == blend;
  }

  // ---------------------------------------------------------------------
  // The other files.
  // ---------------------------------------------------------------------

  /** After n writes the count covers entry k, which still has its old path and size, and
      these give data to the file. */
  ghost predicate Exposed(sb: Super, paths: iset<string>, k: nat, n: nat)
    requires k < 16
  {
    k == sb.count && n > 8 && !PathDone(k, n - 8) && Names(sb, paths, k)
  }

  /** What a restart finds for another file after n writes: what it found before, unless the
      save exposes a stale entry. Then the other file has the saved bytes. */
  lemma OthersThen(d: Disk, s: string, content: seq<byte>, sb': Super, k: nat, n: nat, paths: iset<string>)
    requires Saving(d, s, content, sb', k) && n <= 11 && s !in paths
    ensures k < 16 && ReadSuper(SaveWrites(d, sb', k, content, n)).count <= 16
    ensures Stored(SaveWrites(d, sb', k, content, n), paths) ==
            if Exposed(ReadSuper(d), paths, k, n) then Some(Padded(content, ReadSuper(d).entries[k].size))
            else Stored(d, paths)
  {
    SavingSlot(d, s, content, sb', k);
    var sb, d' := ReadSuper(d), SaveWrites(d, sb', k, content, n);
    var sb2 := SuperThen(sb, sb', k, n);
    OnlyEntryThen(d, s, content, sb', k, n, sb2);
    if Exposed(sb, paths, k, n) {
      StoredAt(d', sb2, paths, k);
      PaddedData(d, sb', k, content, n, sb.entries[k].size);
    } else {
      forall j: nat | j < sb.count && j != k
        ensures FileData(d', j, sb.entries[j].size) == FileData(d, j, sb.entries[j].size)
      {
        OtherData(d, sb', k, content, n, j, sb.entries[j].size);
      }
      assert k < sb2.count ==> !Names(sb2, paths, k);
      assert k < sb.count ==> !Names(sb, paths, k);
      OthersSame(d, d', sb, sb2, k, paths);
    }
  }

  lemma OthersSame(d: Disk, d': Disk, sb: Super, sb2: Super, k: nat, paths: iset<string>)
    requires OnlyEntry(sb, sb2, k) && (k < sb2.count ==> !Names(sb2, paths, k)) && (k < sb.count ==> !Names(sb, paths, k))
    requires forall j: nat :: j < sb.count && j != k ==>
      FileData(d', j, sb.entries[j].size) == FileData(d, j, sb.entries[j].size)
    ensures StoredIn(d', sb2, paths) == StoredIn(d, sb, paths)
  {
    StoredSame(d, d', sb, sb2, paths);
  }

  /** Interrupting a save after any number of writes leaves another file as it was, if and only
      if the save overwrites a slot, or uses one of the first seven, or the entry found there
      does not name the file, or names it with just the content it has. Entries that are
      zero, as in every well-formed superblock, name nothing. */
  lemma OtherFilesKept(d: Disk, s: string, content: seq<byte>, sb': Super, k: nat, paths: iset<string>)
    requires Saving(d, s, content, sb', k) && s !in paths
    ensures k < 16 && forall n: nat :: n <= 11 ==> ReadSuper(SaveWrites(d, sb', k, content, n)).count <= 16
    ensures (forall n: nat :: n <= 11 ==> Stored(SaveWrites(d, sb', k, content, n), paths) == Stored(d, paths)) <==>
            k < ReadSuper(d).count || k <= 6 || !Names(ReadSuper(d), paths, k) ||
            Stored(d, paths) == Some(Padded(content, ReadSuper(d).entries[k].size))
  {
    SavingSlot(d, s, content, sb', k);
    forall n: nat | n <= 11
      ensures ReadSuper(SaveWrites(d, sb', k, content, n)).count <= 16
      ensures Stored(SaveWrites(d, sb', k, content, n), paths) ==
              if Exposed(ReadSuper(d), paths, k, n) then Some(Padded(content, ReadSuper(d).entries[k].size))
              else Stored(d, paths)
    {
      OthersThen(d, s, content, sb', k, n, paths);
    }
    if k >= 7 && k == ReadSuper(d).count && Names(ReadSuper(d), paths, k) {
      var n: nat := 9;
      assert Exposed(ReadSuper(d), paths, k, n) && n <= 11;
    }
  }

  // ---------------------------------------------------------------------
  // The saved file.
  // ---------------------------------------------------------------------

  /** Outside slot k no entry has data for the file. */
  ghost predicate Alone(sb: Super, paths: iset<string>, k: nat)
    requires sb.count <= 16
  {
    forall j: nat :: j < sb.count && j != k ==> !Names(sb, paths, j)
  }

  /** A later entry has data for the file, and wins. */
  ghost predicate Shadowed(sb: Super, paths: iset<string>, k: nat)
    requires sb.count <= 16
  {
    exists j: nat :: k < j < sb.count && Names(sb, paths, j)
  }

  /** A single path is in no entry before the slot found for it. */
  lemma AloneOrShadowed(sb: Super, s: string)
    requires sb.count <= 16
    ensures Alone(sb, iset{s}, FindSlot(sb, s, 0)) <==> !Shadowed(sb, iset{s}, FindSlot(sb, s, 0))
  {}

  lemma WellFormedAlone(sb: Super, s: string)
    requires SuperOk(sb) && PathString(s)
    ensures Alone(sb, iset{s}, FindSlot(sb, s, 0))
  {
    forall j: nat | j < sb.count && j != FindSlot(sb, s, 0) ensures !Names(sb, iset{s}, j) { OnlySlot(sb, s, j); }
  }

  /** A save to a shadowed slot makes no difference to a restart, finished or not. */
  lemma ShadowedSave(d: Disk, s: string, content: seq<byte>, sb': Super, k: nat, n: nat, paths: iset<string>)
    requires Saving(d, s, content, sb', k) && n <= 11 && Shadowed(ReadSuper(d), paths, k)
    ensures k < 16 && ReadSuper(SaveWrites(d, sb', k, content, n)).count <= 16
    ensures Stored(SaveWrites(d, sb', k, content, n), paths) == Stored(d, paths)
  {
    SavingSlot(d, s, content, sb', k);
    var sb := ReadSuper(d);
    var sb2, j := SuperThen(sb, sb', k, n), LastNaming(sb, paths, sb.count).value;
    OnlyEntryThen(d, s, content, sb', k, n, sb2);
    OtherData(d, sb', k, content, n, j, sb.entries[j].size);
    LaterStored(d, SaveWrites(d, sb', k, content, n), sb, sb2, paths, k, j);
  }

  lemma LaterStored(d: Disk, d': Disk, sb: Super, sb2: Super, paths: iset<string>, k: nat, j: nat)
    requires OnlyEntry(sb, sb2, k) && k < j < sb.count && LastNaming(sb, paths, sb.count) == Some(j)
    requires FileData(d', j, sb.entries[j].size) == FileData(d, j, sb.entries[j].size)
    ensures StoredIn(d', sb2, paths) == StoredIn(d, sb, paths)
  {
    forall i: nat | j < i < sb2.count ensures !Names(sb2, paths, i) { assert !Names(sb, paths, i); }
    StoredAt(d', sb2, paths, j);
  }

  /** The data of slot k is all that can be restored, if its entry names the file. */
  lemma AloneStored(d: Disk, sb: Super, paths: iset<string>, k: nat)
    requires sb.count <= 16 && Alone(sb, paths, k)
    ensures StoredIn(d, sb, paths) ==
            if k < sb.count && Names(sb, paths, k) then Some(FileData(d, k, sb.entries[k].size)) else None
  {
    if k < sb.count && Names(sb, paths, k) { StoredAt(d, sb, paths, k); } else { StoredNowhere(d, sb, paths); }
  }

  lemma AloneThen(d: Disk, s: string, content: seq<byte>, sb': Super, k: nat, n: nat, paths: iset<string>, sb2: Super)
    requires Saving(d, s, content, sb', k) && n <= 11 && Alone(ReadSuper(d), paths, k)
    requires k < 16 ==> sb2 == SuperThen(ReadSuper(d), sb', k, n)
    ensures k < 16 && ReadSuper(SaveWrites(d, sb', k, content, n)) == sb2 && sb2.count <= 16
    ensures Stored(SaveWrites(d, sb', k, content, n), paths) ==
              if k < sb2.count && Names(sb2, paths, k)
              then Some(FileData(SaveWrites(d, sb', k, content, n), k, sb2.entries[k].size)) else None
  {
    OnlyEntryThen(d, s, content, sb', k, n, sb2);
    StillAlone(ReadSuper(d), sb2, paths, k);
    AloneStored(SaveWrites(d, sb', k, content, n), sb2, paths, k);
  }

  lemma StillAlone(sb: Super, sb2: Super, paths: iset<string>, k: nat)
    requires OnlyEntry(sb, sb2, k) && Alone(sb, paths, k)
    ensures Alone(sb2, paths, k)
  {
    forall j: nat | j < sb2.count && j != k ensures !Names(sb2, paths, j) {
      assert j < sb.count && !Names(sb, paths, j);
    }
  }

  /** What a restart finds for the saved file itself after n writes. */
  lemma OwnThen(d: Disk, s: string, content: seq<byte>, sb': Super, k: nat, n: nat, paths: iset<string>)
    requires Saving(d, s, content, sb', k) && n <= 11 && s in paths && Alone(ReadSuper(d), paths, k)
    ensures k < 16 && ReadSuper(SaveWrites(d, sb', k, content, n)).count <= 16
    ensures var sb, d' := ReadSuper(d), SaveWrites(d, sb', k, content, n);
            var e := sb.entries[k];
            Stored(d', paths) ==
              if n > 8 && TailDone(k, n - 8) then Target(content)
              else if e.size == 0 then None
              else if k < sb.count then Some(FileData(d', k, e.size))
              else if n > 8 && (PathDone(k, n - 8) || Text(e.path) in paths) then Some(Padded(content, e.size))
              else None
  {
    SavingSlot(d, s, content, sb', k);
    AloneThen(d, s, content, sb', k, n, paths, SuperThen(ReadSuper(d), sb', k, n));
    if n > 8 {
      OnlyEntrySixStraddles(k, n - 8);
      PaddedData(d, sb', k, content, n, CutLen(|content|));
      PaddedData(d, sb', k, content, n, ReadSuper(d).entries[k].size);
      PaddedTarget(content, CutLen(|content|));
    }
  }

  /** A finished save: a restart finds the content, cut at 4096 bytes, unless a later entry has
      data for the file. Saved empty content is indistinguishable from a file never saved, so
      there no entry at all may have data. */
  lemma SavedIsFound(d: Disk, s: string, content: seq<byte>, sb': Super, k: nat, paths: iset<string>)
    requires Saving(d, s, content, sb', k) && s in paths
    ensures k < 16 && ReadSuper(SaveWrites(d, sb', k, content, 11)) == sb' && sb'.count <= 16
    ensures Shadowed(ReadSuper(d), paths, k) ==> Stored(SaveWrites(d, sb', k, content, 11), paths) == Stored(d, paths)
    ensures !Shadowed(ReadSuper(d), paths, k) && (content != [] || Alone(ReadSuper(d), paths, k)) ==>
            Stored(SaveWrites(d, sb', k, content, 11), paths) == Target(content)
  {
    ReadAfter(d, s, content, sb', k, 11);
    AllWritten(ReadSuper(d), sb', k);
    OnlyEntrySixStraddles(k, 3);
    if Shadowed(ReadSuper(d), paths, k) {
      ShadowedSave(d, s, content, sb', k, 11, paths);
    } else if Alone(ReadSuper(d), paths, k) {
      OwnThen(d, s, content, sb', k, 11, paths);
    } else if content != [] {
      SaveSuperIs(ReadSuper(d), s, CutLen(|content|), sb', k);
      LastIsStored(SaveWrites(d, sb', k, content, 11), ReadSuper(d), sb', paths, k);
      PaddedData(d, sb', k, content, 11, CutLen(|content|));
      PaddedTarget(content, CutLen(|content|));
    }
  }

  lemma LastIsStored(d: Disk, sb: Super, sb2: Super, paths: iset<string>, k: nat)
    requires OnlyEntry(sb, sb2, k) && k < sb2.count && Names(sb2, paths, k) && !Shadowed(sb, paths, k)
    ensures StoredIn(d, sb2, paths) == Some(FileData(d, k, sb2.entries[k].size))
  {
    forall j: nat | k < j < sb2.count ensures !Names(sb2, paths, j) { assert !Names(sb, paths, j); }
    StoredAt(d, sb2, paths, k);
  }

  /** The entry found in slot k does no harm to a new file: it has no size, or the three writes
      of the superblock replace all of it at once, or its size is that of the content, or
      neither its path nor half of the new entry is ever read with its size. */
  ghost predicate NewFileSafe(e: Entry, paths: iset<string>, content: seq<byte>, k: nat) {
    e.size == 0 || k <= 5 || CutLen(e.size) == CutLen(|content|) || (k >= 7 && Text(e.path) !in paths)
  }

  /** A file with nothing stored before the save is, after a crash, there completely or not at
      all, if and only if the entry found in its slot does no harm. An entry without a size,
      as in every well-formed superblock, does none, not even in slot 6, whose path and
      size are in different sectors. */
  lemma AllOrNothing(d: Disk, s: string, content: seq<byte>, sb': Super, k: nat, paths: iset<string>)
    requires Saving(d, s, content, sb', k) && s in paths && Stored(d, paths).None?
    ensures k < 16 && forall n: nat :: n <= 11 ==> ReadSuper(SaveWrites(d, sb', k, content, n)).count <= 16
    ensures (forall n: nat :: n <= 11 ==> Stored(SaveWrites(d, sb', k, content, n), paths) in {None, Target(content)}) <==>
            NewFileSafe(ReadSuper(d).entries[k], paths, content, k)
    ensures ReadSuper(d).entries[k].size == 0 ==> forall n: nat :: n <= 11 ==>
              Stored(SaveWrites(d, sb', k, content, n), paths) ==
                if n > 8 && TailDone(k, n - 8) then Target(content) else None
  {
    SavingSlot(d, s, content, sb', k);
    var e := ReadSuper(d).entries[k];
    PaddedTarget(content, e.size);
    forall n: nat | n <= 11
      ensures ReadSuper(SaveWrites(d, sb', k, content, n)).count <= 16
      ensures Stored(SaveWrites(d, sb', k, content, n), paths) == NewFileThen(e, paths, content, k, n)
    {
      assert k < ReadSuper(d).count ==> !Names(ReadSuper(d), paths, k);
      OwnThen(d, s, content, sb', k, n, paths);
    }
    NewFileCases(e, paths, content, k);
  }

  /** What a restart finds for a new file in slot k, where entry e was, after n writes. */
  ghost function NewFileThen(e: Entry, paths: iset<string>, content: seq<byte>, k: nat, n: nat): Option<seq<byte>> {
    if n > 8 && TailDone(k, n - 8) then Target(content)
    else if n > 8 && e.size != 0 && (PathDone(k, n - 8) || Text(e.path) in paths) then Some(Padded(content, e.size))
    else None
  }

  lemma NewFileCases(e: Entry, paths: iset<string>, content: seq<byte>, k: nat)
    requires k < 16
    ensures (forall n: nat :: n <= 11 ==> NewFileThen(e, paths, content, k, n) in {None, Target(content)}) <==>
            NewFileSafe(e, paths, content, k)
  {
    PaddedTarget(content, e.size);
    if NewFileSafe(e, paths, content, k) {
      forall n: nat | n <= 11 ensures NewFileThen(e, paths, content, k, n) in {None, Target(content)} {
        if n > 8 { OnlyEntrySixStraddles(k, n - 8); }
      }
    } else {
      assert NewFileThen(e, paths, content, k, 9) == Some(Padded(content, e.size));
    }
  }

  // ---------------------------------------------------------------------
  // When is an overwrite atomic?
  // ---------------------------------------------------------------------

  /** After n writes a restart finds the old content blended with the new, or the new one. */
  lemma OverwriteIs(d: Disk, s: string, content: seq<byte>, sb': Super, k: nat, n: nat, before: seq<byte>, paths: iset<string>)
    requires Saving(d, s, content, sb', k) && s in paths && Alone(ReadSuper(d), paths, k) && n <= 11
    requires Stored(d, paths) == Some(before)
    ensures k < 16 && 0 < |before| <= 4096 && ReadSuper(SaveWrites(d, sb', k, content, n)).count <= 16
    ensures Stored(SaveWrites(d, sb', k, content, n), paths) ==
            if n > 8 && TailDone(k, n - 8) then Target(content) else Some(Blend(before, content, n))
  {
    AloneStored(d, ReadSuper(d), paths, k);
    OwnThen(d, s, content, sb', k, n, paths);
    BlendData(d, sb', k, content, n, ReadSuper(d).entries[k].size, before);
  }

  /** A file that had content is overwritten in place: after n writes its first n sectors are
      new, the rest old, and its length changes with the superblock sector that holds it. */
  lemma OverwriteBlends(d: Disk, s: string, content: seq<byte>, sb': Super, k: nat, n: nat, before: seq<byte>,
      paths: iset<string>)
    requires Saving(d, s, content, sb', k) && s in paths && Alone(ReadSuper(d), paths, k) && n <= 11
    requires Stored(d, paths) == Some(before)
    ensures k < 16 && ReadSuper(SaveWrites(d, sb', k, content, n)).count <= 16
    ensures var d' := SaveWrites(d, sb', k, content, n);
            var after := if Stored(d', paths).Some? then Stored(d', paths).value else [];
            |after| == (if n > 8 && TailDone(k, n - 8) then CutLen(|content|) else |before|) &&
            (forall x :: 0 <= x < |after| && x < 512 * n ==> after[x] == if x < |Cut(content)| then content[x] else 0) &&
            (forall x :: 512 * n <= x < |after| ==> after[x] == before[x])
  {
    OverwriteIs(d, s, content, sb', k, n, before, paths);
    BlendedBytes(before, content, n, Stored(SaveWrites(d, sb', k, content, n), paths), n > 8 && TailDone(k, n - 8));
  }

  lemma BlendedBytes(before: seq<byte>, content: seq<byte>, n: nat, found: Option<seq<byte>>, done: bool)
    requires found == (if done then Target(content) else Some(Blend(before, content, n)))
    requires |before| <= 4096 && (done ==> n > 8)
    ensures var after := if found.Some? then found.value else [];
            |after| == (if done then CutLen(|content|) else |before|) &&
            (forall x :: 0 <= x < |after| && x < 512 * n ==> after[x] == if x < |Cut(content)| then content[x] else 0) &&
            (forall x :: 512 * n <= x < |after| ==> after[x] == before[x])
  {
    CutBytes(content);
  }

  /** All bytes that change lie in one sector, and the length stays. */
  ghost predicate OneSector(before: seq<byte>, content: seq<byte>) {
    |before| == CutLen(|content|) &&
    forall x: nat, y: nat ::
      x < |before| && y < |before| && before[x] != NewByte(content, x) && before[y] != NewByte(content, y) ==>
      x / 512 == y / 512
  }

  /** The old content is what the new one, padded with zeros, has in its place. */
  ghost predicate Covered(before: seq<byte>, content: seq<byte>) {
    forall x: nat :: x < |before| ==> before[x] == NewByte(content, x)
  }

  ghost predicate Atomic(before: seq<byte>, content: seq<byte>) { OneSector(before, content) || Covered(before, content) }

  lemma BlendEither(before: seq<byte>, content: seq<byte>, n: nat)
    requires Atomic(before, content) && |before| > 0
    ensures Blend(before, content, n) == before || Target(content) == Some(Blend(before, content, n))
  {
    var b := Blend(before, content, n);
    CutBytes(content);
    if Covered(before, content) {
      assert b == before;
    } else {
      var x: nat :| x < |before| && before[x] != NewByte(content, x);
      if x < 512 * n {
        assert forall y: nat :: y < |before| && y >= 512 * n ==> before[y] == NewByte(content, y);
        assert b == Cut(content);
      } else {
        assert forall y: nat :: y < |before| && y < 512 * n ==> before[y] == NewByte(content, y);
        assert b == before;
      }
    }
  }

  /** The number of writes after which neither content is found. */
  lemma BlendTears(before: seq<byte>, content: seq<byte>) returns (n: nat)
    requires !Atomic(before, content) && 0 < |before| <= 4096
    ensures n <= 8 && Blend(before, content, n) != before && Target(content) != Some(Blend(before, content, n))
  {
    CutBytes(content);
    if |before| != CutLen(|content|) {
      var x: nat :| x < |before| && before[x] != NewByte(content, x);
      n := 8;
      assert Blend(before, content, n)[x] != before[x];
    } else {
      var x: nat, y: nat :| x < |before| && y < |before| && before[x] != NewByte(content, x) &&
                            before[y] != NewByte(content, y) && x / 512 < y / 512;
      n := x / 512 + 1;
      assert Blend(before, content, n)[x] != before[x] && Blend(before, content, n)[y] != Cut(content)[y];
    }
  }

  /** Overwriting a saved file is atomic, that is, a restart after any number of writes finds
      the old or the new content, if and only if the length stays and all changed bytes lie in
      one sector, or the old content is where it is what the new one brings. */
  lemma OverwriteAtomic(d: Disk, s: string, content: seq<byte>, sb': Super, k: nat, before: seq<byte>, paths: iset<string>)
    requires Saving(d, s, content, sb', k) && s in paths && Alone(ReadSuper(d), paths, k)
    requires Stored(d, paths) == Some(before)
    ensures k < 16 && forall n: nat :: n <= 11 ==> ReadSuper(SaveWrites(d, sb', k, content, n)).count <= 16
    ensures (forall n: nat :: n <= 11 ==>
               Stored(SaveWrites(d, sb', k, content, n), paths) in {Some(before), Target(content)}) <==>
            Atomic(before, content)
  {
    forall n: nat | n <= 11
      ensures k < 16 && 0 < |before| <= 4096 && ReadSuper(SaveWrites(d, sb', k, content, n)).count <= 16
      ensures Atomic(before, content) ==>
              Stored(SaveWrites(d, sb', k, content, n), paths) in {Some(before), Target(content)}
    {
      OverwriteIs(d, s, content, sb', k, n, before, paths);
      if Atomic(before, content) { BlendEither(before, content, n); }
    }
    if !Atomic(before, content) {
      var n := BlendTears(before, content);
      OverwriteIs(d, s, content, sb', k, n, before, paths);
      assert Stored(SaveWrites(d, sb', k, content, n), paths) !in {Some(before), Target(content)};
    }
  }

  /** So an interrupted overwrite can leave neither the old nor the new content. */
  lemma OverwriteTears(d: Disk, s: string, content: seq<byte>, sb': Super, k: nat, before: seq<byte>, paths: iset<string>)
    requires Saving(d, s, content, sb', k) && s in paths && Alone(ReadSuper(d), paths, k)
    requires Stored(d, paths) == Some(before)
    requires |before| > 512 && |content| > 512 && content[0] != before[0] && content[512] != before[512]
    ensures k < 16
    ensures var d' := SaveWrites(d, sb', k, content, 1);
            ReadSuper(d').count <= 16 && Stored(d', paths) != Some(before) && Stored(d', paths) != Some(Cut(content))
  {
    OverwriteIs(d, s, content, sb', k, 1, before, paths);
    var after := Blend(before, content, 1);
    assert after[0] != before[0] && after[512] != Cut(content)[512];
  }

  // ---------------------------------------------------------------------
  // A save that fails without a restart leaves its superblock in memory.
  // ---------------------------------------------------------------------

  /** The next save leaves the entry of the failed one alone. */
  lemma NextSuper(d: Disk, s: string, content: seq<byte>, sb': Super, k: nat,
      q: string, other: seq<byte>, sb2: Super, k2: nat, paths: iset<string>)
    requires Saving(d, s, content, sb', k) && s in paths && Alone(ReadSuper(d), paths, k)
    requires PathString(q) && q !in paths && content != []
    requires sb'.count <= 16 && SaveSuper(sb', q, CutLen(|other|)) == Some((sb2, k2))
    ensures k < sb2.count <= 16 && k2 < 16 && k2 != k && sb2.entries[k] == sb'.entries[k]
    ensures Names(sb2, paths, k) && Alone(sb2, paths, k)
  {
    SaveSuperIs(ReadSuper(d), s, CutLen(|content|), sb', k);
    SaveSuperIs(sb', q, CutLen(|other|), sb2, k2);
    StillAlone(ReadSuper(d), sb', paths, k);
    SlotTaken(sb', s, q, k);
    NextAlone(sb', sb2, q, k, k2, paths);
  }

  lemma SlotTaken(sb: Super, s: string, q: string, k: nat)
    requires k < sb.count <= 16 && Text(sb.entries[k].path) == s && q != s
    ensures FindSlot(sb, q, 0) != k
  {}

  lemma SaveSuperIs(sb: Super, s: string, size: u32, sb': Super, k: nat)
    requires sb.count <= 16 && PathString(s) && SaveSuper(sb, s, size) == Some((sb', k))
    ensures k == FindSlot(sb, s, 0) && k < 16 && OnlyEntry(sb, sb', k) && k < sb'.count
    ensures Text(sb'.entries[k].path) == s && sb'.entries[k].size == size
  {
    if k == sb.count { TextOverlay(sb.entries[k].path, s); }
  }

  lemma NextAlone(sb': Super, sb2: Super, q: string, k: nat, k2: nat, paths: iset<string>)
    requires OnlyEntry(sb', sb2, k2) && k < sb'.count && k != k2 && Names(sb', paths, k) && Alone(sb', paths, k)
    requires q !in paths && Text(sb2.entries[k2].path) == q
    ensures Names(sb2, paths, k) && Alone(sb2, paths, k)
  {
    forall j: nat | j < sb2.count && j != k ensures !Names(sb2, paths, j) {
      if j != k2 { assert !Names(sb', paths, j); }
    }
  }

  /** When a save fails after n of its eleven writes and the next save, of another file,
      succeeds, the disk presents the failed file as saved: the failed save's length, its
      first n sectors, and whatever the slot held before in the rest. That is the content
      asked for exactly when the rest agrees with it, so always once all data was written. */
  lemma FailedSaveIsPublished(d: Disk, s: string, content: seq<byte>, sb': Super, k: nat, n: nat,
      q: string, other: seq<byte>, sb2: Super, k2: nat, paths: iset<string>)
    requires Saving(d, s, content, sb', k) && s in paths && Alone(ReadSuper(d), paths, k)
    requires n <= 10 && PathString(q) && q !in paths && content != []
    requires sb'.count <= 16 && SaveSuper(sb', q, CutLen(|other|)) == Some((sb2, k2))
    ensures k < 16 && k2 < 16
    ensures var d2 := SaveWrites(SaveWrites(d, sb', k, content, n), sb2, k2, other, 11);
            ReadSuper(d2).count <= 16 && Stored(d2, paths).Some? &&
            |Stored(d2, paths).value| == CutLen(|content|) &&
            (Stored(d2, paths).value == Cut(content) <==>
             forall x :: 512 * n <= x < CutLen(|content|) ==> DataByte(d, k, x) == content[x])
  {
    SavingSlot(d, s, content, sb', k);
    NextSuper(d, s, content, sb', k, q, other, sb2, k2, paths);
    var d1 := SaveWrites(d, sb', k, content, n);
    var d2 := SaveWrites(d1, sb2, k2, other, 11);
    SavedSuperIsRead(d1, sb2, k2, other);
    AloneStored(d2, sb2, paths, k);
    PublishedBytes(d, content, sb', k, n, other, sb2, k2);
    PublishedIs(d, content, k, n, FileData(d2, k, CutLen(|content|)));
  }

  /** A finished save leaves its superblock on the disk. */
  lemma SavedSuperIsRead(d: Disk, sb: Super, k: nat, content: seq<byte>)
    requires k < 16
    ensures ReadSuper(SaveWrites(d, sb, k, content, 11)) == sb
  {
    ReadWriteSuper(WriteData(d, k, content, 8), sb);
  }

  lemma PublishedBytes(d: Disk, content: seq<byte>, sb': Super, k: nat, n: nat, other: seq<byte>, sb2: Super, k2: nat)
    requires k < 16 && k2 < 16 && k != k2 && n <= 11
    ensures var c := FileData(SaveWrites(SaveWrites(d, sb', k, content, n), sb2, k2, other, 11), k, CutLen(|content|));
            forall x :: 0 <= x < |c| ==> c[x] == if x < 512 * n then content[x] else DataByte(d, k, x)
  {
    var d1 := SaveWrites(d, sb', k, content, n);
    var d2 := SaveWrites(d1, sb2, k2, other, 11);
    forall x: nat | x < CutLen(|content|)
      ensures DataByte(d2, k, x) == if x < 512 * n then content[x] else DataByte(d, k, x)
    {
      SaveByte(d, sb', k, content, n, k, x);
      SaveByte(d1, sb2, k2, other, 11, k, x);
    }
  }

  lemma PublishedIs(d: Disk, content: seq<byte>, k: nat, n: nat, c: seq<byte>)
    requires k < 16 && |c| == CutLen(|content|)
    requires forall x :: 0 <= x < |c| ==> c[x] == if x < 512 * n then content[x] else DataByte(d, k, x)
    ensures c == Cut(content) <==>
            forall x :: 512 * n <= x < CutLen(|content|) ==> DataByte(d, k, x) == content[x]
  {
    var whole := Cut(content);
    assert forall x :: 0 <= x < |whole| ==> whole[x] == content[x];
    if c == whole {
      forall x | 512 * n <= x < CutLen(|content|) ensures DataByte(d, k, x) == content[x] {
        assert c[x] == whole[x];
      }
    }
  }

  // ---------------------------------------------------------------------
  // A first boot that stopped between its superblock writes.
  // ---------------------------------------------------------------------

  /** On a foreign disk whose bytes read as a size in entry i, a first boot that stops before
      the sector of that size leaves a superblock that the next boot accepts although it is
      not well formed. The entry has kept its path too, unless that is in a written sector. */
  lemma StaleAfterFirstBoot(d: Disk, n: nat, i: nat, sb: Super)
    requires Foreign(d) && 1 <= n <= 3 && i < 16 && !TailDone(i, n) && ReadSuper(d).entries[i].size != 0
    requires sb == ReadSuper(WriteSuper(d, BlankSuper(), n))
    ensures sb.magic == MAGIC && sb.version == VERSION && sb.count == 0 && !SuperOk(sb)
    ensures sb.entries[i].size == ReadSuper(d).entries[i].size && Text(sb.entries[i].path) == StalePath(ReadSuper(d), i, n)
  {
    CutHeader(d, n, sb);
    StaleSlot(d, n, i, sb.entries[i]);
    StaleIsWrong(sb, i);
  }

  lemma StaleSlot(d: Disk, n: nat, i: nat, e: Entry)
    requires n <= 3 && i < 16 && !TailDone(i, n) && e == ReadSuper(WriteSuper(d, BlankSuper(), n)).entries[i]
    ensures e.size == ReadSuper(d).entries[i].size && Text(e.path) == StalePath(ReadSuper(d), i, n)
  {
    WriteSuperWritten(d, BlankSuper(), n);
    StaleEntry(d, WriteSuper(d, BlankSuper(), n), ReadSuper(d), n, i, e);
  }

  /** The path that entry i has after n superblock writes of a first boot. */
  function StalePath(sb: Super, i: nat, n: nat): string
    requires i < 16
  {
    if PathDone(i, n) then "" else Text(sb.entries[i].path)
  }

  lemma StaleIsWrong(sb: Super, i: nat)
    requires sb.count <= i < 16 && sb.entries[i].size != 0
    ensures !SuperOk(sb)
  {
    assert !IsBlank(sb.entries[i]);
  }

  lemma StaleEntry(d: Disk, d': Disk, sb: Super, n: nat, i: nat, e: Entry)
    requires n <= 3 && i < 16 && SuperWritten(d, d', BlankSuper(), n) && ReadSuper(d) == sb && !TailDone(i, n)
    requires e == ReadSuper(d').entries[i]
    ensures e.size == sb.entries[i].size && Text(e.path) == StalePath(sb, i, n)
  {
    MixedEntry(d, d', sb, BlankSuper(), n, i);
    TextBlank(BlankSuper().entries[i]);
  }

  datatype Draft = Draft(path: string, content: seq<byte>)

  /** The disk after finished saves of the first n drafts. A refused save writes nothing. */
  ghost function SaveAll(d: Disk, drafts: seq<Draft>, n: nat): (d': Disk)
    requires n <= |drafts| && ReadSuper(d).count <= 16
    requires forall i :: 0 <= i < |drafts| ==> PathString(drafts[i].path)
    ensures ReadSuper(d').count <= 16
  {
    if n == 0 then d else SaveOne(SaveAll(d, drafts, n - 1), drafts[n - 1])
  }

  ghost function SaveOne(d: Disk, draft: Draft): (d': Disk)
    requires ReadSuper(d).count <= 16 && PathString(draft.path)
    ensures ReadSuper(d').count <= 16
  {
    match SaveSuper(ReadSuper(d), draft.path, CutLen(|draft.content|))
    case None => d
    case Some((sb, k)) =>
      SavedSuperIsRead(d, sb, k, draft.content);
      SaveWrites(d, sb, k, draft.content, 11)
  }

  /** The first n paths stand in order in the first n entries, the other entries are those of sb. */
  ghost predicate FilledInOrder(sb: Super, r: Super, drafts: seq<Draft>, n: nat) {
    n <= |drafts| && n <= 16 && r.count == n && r.magic == sb.magic && r.version == sb.version &&
    (forall j :: 0 <= j < n ==> Text(r.entries[j].path) == drafts[j].path) &&
    forall j :: n <= j < 16 ==> r.entries[j] == sb.entries[j]
  }

  ghost predicate Distinct(drafts: seq<Draft>) {
    (forall i :: 0 <= i < |drafts| ==> PathString(drafts[i].path)) &&
    forall i, j :: 0 <= i < j < |drafts| ==> drafts[i].path != drafts[j].path
  }

  /** Saves of distinct paths fill the slots in order and touch no slot behind, so stale bytes
      in a slot are still there when it is its turn. */
  lemma {:induction false} SavesFillInOrder(d: Disk, drafts: seq<Draft>, n: nat)
    requires Distinct(drafts) && n <= |drafts| && n <= 16 && ReadSuper(d).count == 0
    ensures FilledInOrder(ReadSuper(d), ReadSuper(SaveAll(d, drafts, n)), drafts, n)
  {
    if n > 0 {
      SavesFillInOrder(d, drafts, n - 1);
      NextInOrder(ReadSuper(d), SaveAll(d, drafts, n - 1), ReadSuper(SaveAll(d, drafts, n - 1)), drafts, n);
    }
  }

  lemma NextInOrder(sb: Super, d: Disk, before: Super, drafts: seq<Draft>, n: nat)
    requires Distinct(drafts) && 0 < n <= |drafts| && n <= 16 && ReadSuper(d) == before
    requires FilledInOrder(sb, before, drafts, n - 1)
    ensures FilledInOrder(sb, ReadSuper(SaveOne(d, drafts[n - 1])), drafts, n)
  {
    var s, size := drafts[n - 1].path, CutLen(|drafts[n - 1].content|);
    SlotInOrder(sb, before, drafts, n, size);
    var (after, k) := SaveSuper(before, s, size).value;
    SavedSuperIsRead(d, after, k, drafts[n - 1].content);
  }

  lemma SlotInOrder(sb: Super, before: Super, drafts: seq<Draft>, n: nat, size: u32)
    requires Distinct(drafts) && 0 < n <= |drafts| && n <= 16 && FilledInOrder(sb, before, drafts, n - 1)
    ensures var saved := SaveSuper(before, drafts[n - 1].path, size);
            saved.Some? && saved.value.1 < 16 && FilledInOrder(sb, saved.value.0, drafts, n)
  {
    assert forall j :: 0 <= j < n - 1 ==> Text(before.entries[j].path) != drafts[n - 1].path;
    TextOverlay(before.entries[n - 1].path, drafts[n - 1].path);
  }

  /** A whole run that tears: the first boot on a foreign disk stops after n superblock writes,
      |drafts| files are saved, and the save of a new file into the next slot k stops after m
      writes, before the size of its entry is written. If bytes of the foreign disk read as
      a size there, then every file named by that entry, be it the saved one or another, now has
      the saved bytes in the foreign length. */
  lemma FirstBootCrashTears(d: Disk, n: nat, drafts: seq<Draft>, s: string, content: seq<byte>, sb': Super, k: nat, m: nat,
      paths: iset<string>)
    requires Foreign(d) && 1 <= n <= 3 && |drafts| == k < 16 && Distinct(drafts)
    requires !TailDone(k, n) && ReadSuper(d).entries[k].size != 0
    requires ReadSuper(WriteSuper(d, BlankSuper(), n)).count <= 16
    requires Saving(SaveAll(WriteSuper(d, BlankSuper(), n), drafts, k), s, content, sb', k)
    requires 8 < m <= 11 && !TailDone(k, m - 8)
    ensures ReadSuper(SaveWrites(SaveAll(WriteSuper(d, BlankSuper(), n), drafts, k), sb', k, content, m)).count <= 16
    ensures (if PathDone(k, m - 8) then s else StalePath(ReadSuper(d), k, n)) in paths ==>
            Stored(SaveWrites(SaveAll(WriteSuper(d, BlankSuper(), n), drafts, k), sb', k, content, m), paths) ==
            Some(Padded(content, ReadSuper(d).entries[k].size))
  {
    var d0 := WriteSuper(d, BlankSuper(), n);
    StaleAfterFirstBoot(d, n, k, ReadSuper(d0));
    SavesFillInOrder(d0, drafts, k);
    StaleIsRead(SaveAll(d0, drafts, k), s, content, sb', k, m, paths);
  }

  lemma StaleIsRead(d: Disk, s: string, content: seq<byte>, sb': Super, k: nat, m: nat, paths: iset<string>)
    requires Saving(d, s, content, sb', k) && ReadSuper(d).count == k && 8 < m <= 11 && !TailDone(k, m - 8)
    requires k < 16 && ReadSuper(d).entries[k].size != 0
    ensures ReadSuper(SaveWrites(d, sb', k, content, m)).count <= 16
    ensures (if PathDone(k, m - 8) then s else Text(ReadSuper(d).entries[k].path)) in paths ==>
            Stored(SaveWrites(d, sb', k, content, m), paths) == Some(Padded(content, ReadSuper(d).entries[k].size))
  {
    SavingSlot(d, s, content, sb', k);
    ReadAfter(d, s, content, sb', k, m);
    var d', sb2 := SaveWrites(d, sb', k, content, m), SuperThen(ReadSuper(d), sb', k, m);
    if Names(sb2, paths, k) {
      StoredAt(d', sb2, paths, k);
      PaddedData(d, sb', k, content, m, ReadSuper(d).entries[k].size);
    }
  }
}

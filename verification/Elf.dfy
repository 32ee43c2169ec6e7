/** Loading a static ELF64 executable (src/kernel/elf.cpp). */
module Elf {
  import opened Common

  // ---------------------------------------------------------------------
  // The file's structures, read from memory at the image's address.
  // ---------------------------------------------------------------------

  datatype Segment = Segment(kind: nat, offset: nat, vaddr: nat, filesz: nat, memsz: nat) {
    /** A loadable segment occupies at least its file bytes. */
    function Span(): nat { if memsz > filesz then memsz else filesz }

    predicate Covers(a: nat) { kind == 1 && vaddr <= a < vaddr + Span() }
  }

  function SegmentAt(m: seq<byte>, ph: nat): Segment
    requires ph + 56 <= |m|
  {
    Segment(Load(m, ph, 4), Load(m, ph + 8, 8), Load(m, ph + 16, 8), Load(m, ph + 32, 8), Load(m, ph + 40, 8))
  }

  function Entry(m: seq<byte>, img: nat): nat requires img + 64 <= |m| { Load(m, img + 24, 8) }

  function TableOffset(m: seq<byte>, img: nat): nat requires img + 64 <= |m| { Load(m, img + 32, 8) }

  function TableCount(m: seq<byte>, img: nat): nat requires img + 64 <= |m| { Load(m, img + 56, 2) }

  /** The magic number, class, byte order, machine and type that the loader accepts. */
  predicate IdentOk(m: seq<byte>, img: nat)
    requires img + 64 <= |m|
  {
    m[img] == 0x7F && m[img + 1] == 0x45 && m[img + 2] == 0x4C && m[img + 3] == 0x46 &&
    m[img + 4] == 2 && m[img + 5] == 1 && Load(m, img + 18, 2) == 62 && Load(m, img + 16, 2) == 2
  }

  /** All checks before the segments; the sum is computed on 64 bits. */
  predicate HeaderOk(m: seq<byte>, img: nat, len: nat)
    requires img + len <= |m|
  {
    img != 0 && len >= 64 && IdentOk(m, img) && Wrap64(TableOffset(m, img) + 56 * TableCount(m, img)) <= len
  }

  /** The loader takes this segment: it is not loadable or its file bytes end inside the image. */
  predicate Accepted(s: Segment, len: nat) { s.kind != 1 || Wrap64(s.offset + s.filesz) <= len }

  /** The bounds check keeps the reads of an accepted segment inside the image exactly when its
      64-bit sum does not wrap around. */
  lemma CheckIsSound(s: Segment, len: u32)
    requires s.kind == 1 && Accepted(s, len)
    requires s.offset < 0x1_0000_0000_0000_0000 && s.filesz < 0x1_0000_0000_0000_0000
    ensures s.offset + s.filesz <= len <==> s.offset + s.filesz < 0x1_0000_0000_0000_0000
  {
    if s.offset + s.filesz < 0x1_0000_0000_0000_0000 { WrapSmall(s.offset + s.filesz); }
  }

  /** So does the check of the program header table. */
  lemma TableCheckIsSound(m: seq<byte>, img: nat, len: u32)
    requires img + len <= |m| && HeaderOk(m, img, len)
    ensures TableOffset(m, img) + 56 * TableCount(m, img) <= len <==>
            TableOffset(m, img) + 56 * TableCount(m, img) < 0x1_0000_0000_0000_0000
  {
    var end := TableOffset(m, img) + 56 * TableCount(m, img);
    if end < 0x1_0000_0000_0000_0000 { WrapSmall(end); }
  }

  /** For every image length some segment passes the check although its file bytes lie outside
      the image, and so does a table of one header at 2^64 - 56. */
  lemma WrappedSumAccepted(len: u32)
    ensures exists s: Segment :: s.kind == 1 && s.offset < 0x1_0000_0000_0000_0000 &&
                                 s.filesz < 0x1_0000_0000_0000_0000 && Accepted(s, len) && s.offset > len
    ensures Wrap64(0xFFFF_FFFF_FFFF_FFC8 + 56 * 1) <= len < 0xFFFF_FFFF_FFFF_FFC8
  {
    var s := Segment(1, 0xFFFF_FFFF_FFFF_FFFF, 0, 1, 1);
    assert Wrap64(s.offset + s.filesz) == 0;
    assert s.kind == 1 && Accepted(s, len) && s.offset > len;
  }

  /** What the loader relies on: sums do not wrap around, and loadable segments it accepts lie
      in memory and clear of the image. */
  ghost predicate Placed(s: Segment, img: nat, len: nat, size: nat) {
    s.kind == 1 && Wrap64(s.offset + s.filesz) <= len ==>
      s.offset + s.filesz < 0x1_0000_0000_0000_0000 && s.vaddr + s.Span() <= size &&
      (s.vaddr + s.Span() <= img || img + len <= s.vaddr || s.Span() == 0)
  }

  /** The program headers. */
  function Segments(m: seq<byte>, img: nat, len: nat): (ss: seq<Segment>)
    requires img + len <= |m| && len >= 64 && TableOffset(m, img) + 56 * TableCount(m, img) <= len
    ensures |ss| == TableCount(m, img)
    ensures forall i :: 0 <= i < |ss| ==> ss[i] == SegmentAt(m, img + TableOffset(m, img) + 56 * i)
  {
    seq(TableCount(m, img), i requires 0 <= i < TableCount(m, img) =>
      SegmentAt(m, img + TableOffset(m, img) + 56 * i))
  }

  /** The first segment from i on that is refused, or their number. */
  function FirstRefused(ss: seq<Segment>, len: nat, i: nat): (k: nat)
    requires i <= |ss|
    ensures i <= k <= |ss| && (forall j :: i <= j < k ==> Accepted(ss[j], len)) && (k < |ss| ==> !Accepted(ss[k], len))
    decreases |ss| - i
  {
    if i < |ss| && Accepted(ss[i], len) then FirstRefused(ss, len, i + 1) else i
  }

  /** What segment s puts at offset j: file bytes, then zeros. */
  function SegmentByte(m: seq<byte>, img: nat, s: Segment, j: nat): byte
    requires img + s.offset + s.filesz <= |m|
  {
    if j < s.filesz then m[img + s.offset + j] else 0
  }

  ghost predicate InImage(ss: seq<Segment>, n: nat, img: nat, size: nat)
    requires n <= |ss|
  {
    forall k :: 0 <= k < n && ss[k].kind == 1 ==> img + ss[k].offset + ss[k].filesz <= size
  }

  /** The byte at address a once the first n segments of the image in m were loaded: that of
      the last segment that covers it. */
  ghost function Loaded(m: seq<byte>, img: nat, ss: seq<Segment>, n: nat, a: nat): byte
    requires n <= |ss| && a < |m| && InImage(ss, n, img, |m|)
    decreases n, a
  {
    if n == 0 then m[a]
    else if ss[n - 1].Covers(a) then SegmentByte(m, img, ss[n - 1], a - ss[n - 1].vaddr)
    else Loaded(m, img, ss, n - 1, a)
  }

  /** Of the first n segments, k is the last that occupies address a. */
  ghost predicate LastAt(ss: seq<Segment>, n: nat, a: nat, k: nat) {
    k < n <= |ss| && forall j {:trigger ss[j]} :: k < j < n && ss[j].kind == 1 ==>
      !(ss[j].vaddr <= a < ss[j].vaddr + ss[j].filesz || ss[j].vaddr <= a < ss[j].vaddr + ss[j].memsz)
  }

  /** Each loadable segment that no later one overlaps holds its file bytes from its address on,
      then zeros up to its memory size; an address outside all segments is unchanged. */
  lemma {:induction false} LoadedIs(m: seq<byte>, img: nat, ss: seq<Segment>, n: nat, a: nat)
    requires n <= |ss| && a < |m| && InImage(ss, n, img, |m|)
    ensures forall k: nat {:trigger LastAt(ss, n, a, k)} :: LastAt(ss, n, a, k) && ss[k].kind == 1 ==>
      (ss[k].vaddr <= a < ss[k].vaddr + ss[k].filesz ==>
         img + ss[k].offset + (a - ss[k].vaddr) < |m| &&
         Loaded(m, img, ss, n, a) == m[img + ss[k].offset + (a - ss[k].vaddr)]) &&
      (ss[k].vaddr + ss[k].filesz <= a < ss[k].vaddr + ss[k].memsz ==> Loaded(m, img, ss, n, a) == 0)
    ensures (forall k :: 0 <= k < n && ss[k].kind == 1 ==>
               !(ss[k].vaddr <= a < ss[k].vaddr + ss[k].filesz || ss[k].vaddr <= a < ss[k].vaddr + ss[k].memsz)) ==>
            Loaded(m, img, ss, n, a) == m[a]
    decreases n
  {
    if n > 0 {
      LoadedIs(m, img, ss, n - 1, a);
      assert forall k: nat :: LastAt(ss, n, a, k) && k < n - 1 ==> LastAt(ss, n - 1, a, k);
    }
  }

  // ---------------------------------------------------------------------
  // The field order of the format.
  // ---------------------------------------------------------------------

  datatype Field = Field(width: nat, value: nat)

  /** From fs[i] on the fields stand one behind the other from address a on. */
  ghost predicate Fields(m: seq<byte>, a: nat, fs: seq<Field>, i: nat)
    requires i <= |fs|
    decreases |fs| - i
  {
    i == |fs| ||
    (a + fs[i].width <= |m| && Load(m, a, fs[i].width) == fs[i].value && Fields(m, a + fs[i].width, fs, i + 1))
  }

  lemma FieldsStep(m: seq<byte>, a: nat, fs: seq<Field>, i: nat)
    requires i < |fs| && Fields(m, a, fs, i)
    ensures a + fs[i].width <= |m| && Load(m, a, fs[i].width) == fs[i].value && Fields(m, a + fs[i].width, fs, i + 1)
  {}

  /** A program header is type, flags, offset, virtual and physical address, size in the file and
      in memory, and alignment. */
  lemma HeaderFields(m: seq<byte>, ph: nat, fs: seq<Field>, kind: nat, flags: nat, offset: nat, vaddr: nat, paddr: nat,
      filesz: nat, memsz: nat, align: nat)
    requires ph + 56 <= |m| && Fields(m, ph, fs, 0)
    requires fs == [Field(4, kind), Field(4, flags), Field(8, offset), Field(8, vaddr), Field(8, paddr),
                    Field(8, filesz), Field(8, memsz), Field(8, align)]
    ensures SegmentAt(m, ph) == Segment(kind, offset, vaddr, filesz, memsz)
  {
    FieldsStep(m, ph, fs, 0);
    FieldsStep(m, ph + 4, fs, 1);
    FieldsStep(m, ph + 8, fs, 2);
    FieldsStep(m, ph + 16, fs, 3);
    FieldsStep(m, ph + 24, fs, 4);
    FieldsStep(m, ph + 32, fs, 5);
    FieldsStep(m, ph + 40, fs, 6);
  }

  /** A file header is four bytes of magic number, class, byte order, ten bytes that the loader
      skips, type, machine, version, entry point, offset of the program and of the section
      headers, flags, three half words of which the last is the number of program headers. */
  lemma FileFields(m: seq<byte>, img: nat, fs: seq<Field>, ident: seq<nat>, rest: nat, type': nat, machine: nat,
      version: nat, entry: nat, phoff: nat, shoff: nat, flags: nat, ehsize: nat, phentsize: nat, phnum: nat)
    requires img + 64 <= |m| && |ident| == 6 && Fields(m, img, fs, 0)
    requires fs == [Field(1, ident[0]), Field(1, ident[1]), Field(1, ident[2]), Field(1, ident[3]), Field(1, ident[4]),
                    Field(1, ident[5]), Field(10, rest), Field(2, type'), Field(2, machine), Field(4, version),
                    Field(8, entry), Field(8, phoff), Field(8, shoff), Field(4, flags), Field(2, ehsize),
                    Field(2, phentsize), Field(2, phnum)]
    ensures Entry(m, img) == entry && TableOffset(m, img) == phoff && TableCount(m, img) == phnum
    ensures IdentOk(m, img) <==> ident == [0x7F, 'E' as nat, 'L' as nat, 'F' as nat, 2, 1] && type' == 2 && machine == 62
  {
    FileIdent(m, img, fs, ident);
    FieldsStep(m, img + 6, fs, 6);
    FieldsStep(m, img + 16, fs, 7);
    FieldsStep(m, img + 18, fs, 8);
    FieldsStep(m, img + 20, fs, 9);
    FieldsStep(m, img + 24, fs, 10);
    FieldsStep(m, img + 32, fs, 11);
    FieldsStep(m, img + 40, fs, 12);
    FieldsStep(m, img + 48, fs, 13);
    FieldsStep(m, img + 52, fs, 14);
    FieldsStep(m, img + 54, fs, 15);
    FieldsStep(m, img + 56, fs, 16);
  }

  lemma FileIdent(m: seq<byte>, img: nat, fs: seq<Field>, ident: seq<nat>)
    requires img + 64 <= |m| && |ident| == 6 && |fs| >= 6 && Fields(m, img, fs, 0)
    requires forall i :: 0 <= i < 6 ==> fs[i] == Field(1, ident[i])
    ensures Fields(m, img + 6, fs, 6) && forall i :: 0 <= i < 6 ==> ident[i] == m[img + i]
  {
    FieldsStep(m, img, fs, 0);
    FieldsStep(m, img + 1, fs, 1);
    FieldsStep(m, img + 2, fs, 2);
    FieldsStep(m, img + 3, fs, 3);
    FieldsStep(m, img + 4, fs, 4);
    FieldsStep(m, img + 5, fs, 5);
    OneByte(m, img);
    OneByte(m, img + 1);
    OneByte(m, img + 2);
    OneByte(m, img + 3);
    OneByte(m, img + 4);
    OneByte(m, img + 5);
  }

  lemma OneByte(m: seq<byte>, a: nat)
    requires a < |m|
    ensures Load(m, a, 1) == m[a]
  {
    assert Load(m, a + 1, 0) == 0;
  }

  lemma SegmentAgree(m: seq<byte>, m': seq<byte>, ph: nat)
    requires ph + 56 <= |m| && Agree(m, m', ph, ph + 56)
    ensures SegmentAt(m, ph) == SegmentAt(m', ph)
  {
    LoadAgree(m, m', ph, 4);
    LoadAgree(m, m', ph + 8, 8);
    LoadAgree(m, m', ph + 16, 8);
    LoadAgree(m, m', ph + 32, 8);
    LoadAgree(m, m', ph + 40, 8);
  }

  // ---------------------------------------------------------------------
  // The loader.
  // ---------------------------------------------------------------------

  /** Copies a segment's file bytes and zeros the rest of it. */
  method CopySegment(mem: array<byte>, img: nat, len: nat, s: Segment)
    requires s.kind == 1 && s.offset + s.filesz <= len && img + len <= mem.Length && s.vaddr + s.Span() <= mem.Length
    requires s.vaddr + s.Span() <= img || img + len <= s.vaddr || s.Span() == 0
    modifies mem
    ensures forall a :: 0 <= a < mem.Length ==>
      mem[a] == if s.Covers(a) then SegmentByte(old(mem[..]), img, s, a - s.vaddr) else old(mem[a])
  {
    for j := 0 to s.filesz
      invariant forall a :: 0 <= a < mem.Length ==>
        mem[a] == if s.vaddr <= a < s.vaddr + j then old(mem[img + s.offset + (a - s.vaddr)]) else old(mem[a])
    {
      mem[s.vaddr + j] := mem[img + s.offset + j];
    }
    for j := s.filesz to s.Span()
      invariant forall a :: 0 <= a < mem.Length ==>
        mem[a] == if s.vaddr <= a < s.vaddr + j then SegmentByte(old(mem[..]), img, s, a - s.vaddr) else old(mem[a])
    {
      mem[s.vaddr + j] := 0;
    }
  }

  /** The memory after n segments, and the image in it still as it was. */
  ghost predicate State(m: seq<byte>, m': seq<byte>, img: nat, len: nat, ss: seq<Segment>, n: nat) {
    |m'| == |m| && n <= |ss| && InImage(ss, n, img, |m|) && Agree(m, m', img, img + len) &&
    forall a :: 0 <= a < |m| ==> m'[a] == Loaded(m, img, ss, n, a)
  }

  /** A segment's bytes can be taken from the current memory: the image did not change. */
  lemma SameByte(m: seq<byte>, m': seq<byte>, img: nat, len: nat, s: Segment, j: nat)
    requires s.offset + s.filesz <= len && img + len <= |m| && Agree(m, m', img, img + len)
    ensures SegmentByte(m', img, s, j) == SegmentByte(m, img, s, j)
  {}

  lemma Copied(m: seq<byte>, m1: seq<byte>, m2: seq<byte>, img: nat, len: nat, ss: seq<Segment>, n: nat)
    requires img + len <= |m| && n < |ss| && State(m, m1, img, len, ss, n) && |m2| == |m|
    requires ss[n].kind == 1 && ss[n].offset + ss[n].filesz <= len
    requires ss[n].vaddr + ss[n].Span() <= img || img + len <= ss[n].vaddr || ss[n].Span() == 0
    requires forall a :: 0 <= a < |m| ==>
      m2[a] == if ss[n].Covers(a) then SegmentByte(m1, img, ss[n], a - ss[n].vaddr) else m1[a]
    ensures State(m, m2, img, len, ss, n + 1)
  {
    forall a | 0 <= a < |m| ensures m2[a] == Loaded(m, img, ss, n + 1, a) {
      if ss[n].Covers(a) { SameByte(m, m1, img, len, ss[n], a - ss[n].vaddr); }
    }
  }

  /** One round of the program header loop. */
  method LoadSegment(mem: array<byte>, img: nat, len: nat, ph: nat, ghost m: seq<byte>, ghost ss: seq<Segment>,
                     ghost i: nat)
    returns (ok: bool)
    requires img + len <= mem.Length && img <= ph && ph + 56 <= img + len
    requires State(m, mem[..], img, len, ss, i) && i < |ss| && ss[i] == SegmentAt(m, ph)
    requires Placed(ss[i], img, len, mem.Length)
    modifies mem
    ensures ok == Accepted(ss[i], len)
    ensures State(m, mem[..], img, len, ss, if ok then i + 1 else i)
  {
    ghost var m1 := mem[..];
    SegmentAgree(m, m1, ph);
    var s := SegmentAt(mem[..], ph);
    if s.kind == 1 {
      if Wrap64(s.offset + s.filesz) > len { return false; }
      CopySegment(mem, img, len, s);
      Copied(m, m1, mem[..], img, len, ss, i);
    }
    return true;
  }

  ghost predicate TableIs(m: seq<byte>, ph: nat, ss: seq<Segment>) {
    ph + 56 * |ss| <= |m| && forall i :: 0 <= i < |ss| ==> ss[i] == SegmentAt(m, ph + 56 * i)
  }

  method LoadSegments(mem: array<byte>, img: nat, len: nat, table: nat, count: nat, ghost ss: seq<Segment>)
    returns (ok: bool)
    requires img + len <= mem.Length && table + 56 * count <= len && |ss| == count
    requires TableIs(mem[..], img + table, ss)
    requires forall i :: 0 <= i < count ==> Placed(ss[i], img, len, mem.Length)
    modifies mem
    ensures State(old(mem[..]), mem[..], img, len, ss, FirstRefused(ss, len, 0))
    ensures ok == (FirstRefused(ss, len, 0) == count)
  {
    ghost var m := mem[..];
    for i := 0 to count
      invariant State(m, mem[..], img, len, ss, i) && FirstRefused(ss, len, 0) == FirstRefused(ss, len, i)
    {
      ok := LoadSegment(mem, img, len, img + table + 56 * i, m, ss, i);
      if !ok { return; }
    }
    return true;
  }

  /** elf_load: the entry point, or 0. A refused header changes nothing; a refused segment
      stops the load after the segments before it. */
  method LoadElf(mem: array<byte>, img: nat, len: u32) returns (entry: nat)
    requires img + len <= mem.Length <= 0x1_0000_0000_0000_0000
    requires HeaderOk(mem[..], img, len) ==>
      TableOffset(mem[..], img) + 56 * TableCount(mem[..], img) <= len &&
      forall k :: 0 <= k < TableCount(mem[..], img) ==> Placed(Segments(mem[..], img, len)[k], img, len, mem.Length)
    modifies mem
    ensures !HeaderOk(old(mem[..]), img, len) ==> entry == 0 && mem[..] == old(mem[..])
    ensures HeaderOk(old(mem[..]), img, len) ==>
      var m, ss := old(mem[..]), Segments(old(mem[..]), img, len);
      var n := FirstRefused(ss, len, 0);
      entry == (if n == |ss| then Entry(m, img) else 0) && InImage(ss, n, img, |m|) &&
      forall a :: 0 <= a < |m| ==> mem[a] == Loaded(m, img, ss, n, a)
  {
    if img == 0 || len < 64 { return 0; }
    if mem[img] != 0x7F || mem[img + 1] != 0x45 || mem[img + 2] != 0x4C || mem[img + 3] != 0x46 { return 0; }
    if mem[img + 4] != 2 || mem[img + 5] != 1 { return 0; }
    if Load(mem[..], img + 18, 2) != 62 { return 0; }
    if Load(mem[..], img + 16, 2) != 2 { return 0; }
    var table, count := TableOffset(mem[..], img), TableCount(mem[..], img);
    if Wrap64(table + 56 * count) > len { return 0; }
    entry := Entry(mem[..], img);
    var ok := LoadSegments(mem, img, len, table, count, Segments(mem[..], img, len));
    if !ok { entry := 0; }
  }
}

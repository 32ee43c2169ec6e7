/** Whole histories of edits, saves, crashes and restarts over a file tree (src/kernel/diskfs.cpp). */
module DiskWorld {
  import opened Common
  import opened DiskLayout
  import opened DiskSave
  import opened DiskCrash
  import opened VfsTree

  /** The disk, the superblock in memory, the content of every node in memory, and whether
      diskfs_init has run since the machine was switched on. */
  datatype World<N> = World(disk: Disk, super: Super, text: map<N, seq<byte>>, loaded: bool)

  /** The tree every boot builds, with the initial contents of its files. */
  datatype Setting<N> = Setting(tree: Tree<N>, root: N, defaults: map<N, seq<byte>>)

  ghost predicate SettingOk<N(!new)>(e: Setting<N>) {
    IsTree(e.tree, e.root) && WellNamed(e.tree, e.root) && e.defaults.Keys == e.tree.Keys
  }

  /** Nodes whose path fits the 64-byte field. */
  ghost predicate Storable<N(!new)>(e: Setting<N>, n: N)
    requires SettingOk(e)
  {
    n in e.tree && e.tree[n].depth <= DEPTH_MAX && |FullPath(e.tree, e.root, n)| < 64 &&
    PathString(SavePath(e, n))
  }

  /** The path diskfs_save stores for n. */
  ghost function SavePath<N(!new)>(e: Setting<N>, n: N): string
    requires SettingOk(e) && n in e.tree
  {
    PathOf(e.tree, e.root, n, 64)
  }

  /** The paths by which the restore loop finds n. Besides the stored one they include, for
      example, that path with a slash at its end. */
  ghost function NodePaths<N(!new)>(e: Setting<N>, n: N): iset<string> {
    iset p: string | |p| > 0 && HomeFile(e.tree, e.root, p) == Some(n)
  }

  lemma SavePathNames<N(!new)>(e: Setting<N>, m: N, n: N)
    requires SettingOk(e) && Storable(e, m)
    ensures SavePath(e, m) in NodePaths(e, n) <==> m == n
  {
    LookupPathOf(e.tree, e.root, m, 64);
  }

  /** A disk this system reads: one of another system, which it sets up, or one with at most
      sixteen entries. */
  predicate Bootable(d: Disk) { Foreign(d) || ReadSuper(d).count <= 16 }

  /** The memory is in step with the disk once diskfs_init has run. */
  ghost predicate WorldOk<N(!new)>(e: Setting<N>, w: World<N>) {
    SettingOk(e) && w.text.Keys == e.tree.Keys && Bootable(w.disk) &&
    (w.loaded ==> !Foreign(w.disk) && ReadSuper(w.disk) == w.super)
  }

  // ---------------------------------------------------------------------
  // Restart.
  // ---------------------------------------------------------------------

  /** The contents once entry i of the disk has been restored. */
  ghost function RestoreSlot<N(!new)>(e: Setting<N>, d: Disk, i: nat, text: map<N, seq<byte>>): map<N, seq<byte>>
    requires i < 16
  {
    var entry := ReadSuper(d).entries[i];
    var path := Text(entry.path);
    if entry.size == 0 || |path| == 0 then text
    else
      match HomeFile(e.tree, e.root, path)
      case None => text
      case Some(n) =>
        if n in e.tree && e.tree[n].kind == File then text[n := FileData(d, i, entry.size)] else text
  }

  /** The contents once the entries from i up to the count have been restored. */
  ghost function Restored<N(!new)>(e: Setting<N>, d: Disk, i: nat, text: map<N, seq<byte>>): map<N, seq<byte>>
    requires i <= ReadSuper(d).count <= 16
    decreases ReadSuper(d).count - i
  {
    if i == ReadSuper(d).count then text else Restored(e, d, i + 1, RestoreSlot(e, d, i, text))
  }

  /** The machine just switched on, before diskfs_init. */
  ghost function Off<N(!new)>(e: Setting<N>, d: Disk): World<N> { World(d, BlankSuper(), e.defaults, false) }

  /** diskfs_init on a freshly built tree. A foreign disk gets a blank superblock. */
  ghost function Boot<N(!new)>(e: Setting<N>, d: Disk): World<N>
    requires Bootable(d)
  {
    if Foreign(d) then World(WriteSuper(d, BlankSuper(), 3), BlankSuper(), e.defaults, true)
    else World(d, ReadSuper(d), Restored(e, d, 0, e.defaults), true)
  }

  /** The disk after a boot that stopped after n sector writes. */
  function CutBoot(d: Disk, n: nat): Disk
    requires n <= 3
  {
    if Foreign(d) then WriteSuper(d, BlankSuper(), n) else d
  }

  // ---------------------------------------------------------------------
  // Events.
  // ---------------------------------------------------------------------

  /** Interrupt is a save, and BootCut a boot, that loses power after some of its sector writes;
      the machine is then off until the next restart. */
  datatype Event<N> =
    | Edit(n: N, text: seq<byte>)
    | Save(n: N)
    | Interrupt(n: N, writes: nat)
    | Restart
    | BootCut(writes: nat)

  ghost predicate Possible<N(!new)>(e: Setting<N>, v: Event<N>)
    requires SettingOk(e)
  {
    match v
    case Edit(n, text) => n in e.tree
    case Save(n) => Storable(e, n)
    case Interrupt(n, writes) => Storable(e, n) && writes <= 11
    case Restart => true
    case BootCut(writes) => writes <= 3
  }

  /** What a save of n would write; None before diskfs_init has run or when all slots are taken. */
  ghost function Attempt<N(!new)>(e: Setting<N>, w: World<N>, n: N): (r: Option<(Super, nat)>)
    requires WorldOk(e, w) && Storable(e, n)
    ensures r.Some? ==> r.value.1 < 16 && Saving(w.disk, SavePath(e, n), w.text[n], r.value.0, r.value.1)
  {
    if w.loaded then SaveSuper(w.super, SavePath(e, n), CutLen(|w.text[n]|)) else None
  }

  ghost function Step<N(!new)>(e: Setting<N>, w: World<N>, v: Event<N>): World<N>
    requires WorldOk(e, w) && Possible(e, v)
  {
    match v
    case Edit(n, text) => w.(text := w.text[n := text])
    case Save(n) =>
      (match Attempt(e, w, n)
       case None => w
       case Some((sb, k)) => World(SaveWrites(w.disk, sb, k, w.text[n], 11), sb, w.text, true))
    case Interrupt(n, writes) =>
      (match Attempt(e, w, n)
       case None => Off(e, w.disk)
       case Some((sb, k)) => Off(e, SaveWrites(w.disk, sb, k, w.text[n], writes)))
    case Restart => Boot(e, w.disk)
    case BootCut(writes) => Off(e, CutBoot(w.disk, writes))
  }

  /** A boot leaves the memory in step with the disk, and writes to a foreign disk only. */
  lemma BootOk<N(!new)>(e: Setting<N>, d: Disk)
    requires SettingOk(e) && Bootable(d)
    ensures WorldOk(e, Boot(e, d)) && Boot(e, d).loaded
    ensures if Foreign(d) then Boot(e, d).super.count == 0 else Boot(e, d).disk == d
  {
    if Foreign(d) { ReadWriteSuper(d, BlankSuper()); } else { RestoredKeys(e, d, 0, e.defaults); }
  }

  lemma CutBootOk(d: Disk, n: nat)
    requires Bootable(d) && n <= 3
    ensures Bootable(CutBoot(d, n)) && (!Foreign(d) ==> CutBoot(d, n) == d)
    ensures Foreign(d) ==> Foreign(CutBoot(d, n)) || ReadSuper(CutBoot(d, n)).count == 0
  {
    if Foreign(d) { FirstBootCut(d, n); }
  }

  lemma RestoreSlotKeys<N(!new)>(e: Setting<N>, d: Disk, i: nat, text: map<N, seq<byte>>)
    requires i < 16 && text.Keys == e.tree.Keys
    ensures RestoreSlot(e, d, i, text).Keys == e.tree.Keys
  {}

  lemma {:induction false} RestoredKeys<N(!new)>(e: Setting<N>, d: Disk, i: nat, text: map<N, seq<byte>>)
    requires i <= ReadSuper(d).count <= 16 && text.Keys == e.tree.Keys
    ensures Restored(e, d, i, text).Keys == e.tree.Keys
    decreases ReadSuper(d).count - i
  {
    if i < ReadSuper(d).count {
      RestoreSlotKeys(e, d, i, text);
      RestoredKeys(e, d, i + 1, RestoreSlot(e, d, i, text));
    }
  }

  lemma SaveBootable<N(!new)>(e: Setting<N>, w: World<N>, n: N, m: nat)
    requires WorldOk(e, w) && Storable(e, n) && Attempt(e, w, n).Some? && m <= 11
    ensures var (sb, k) := Attempt(e, w, n).value;
            var d' := SaveWrites(w.disk, sb, k, w.text[n], m);
            Bootable(d') && !Foreign(d') && (m == 11 ==> ReadSuper(d') == sb)
  {
    var (sb, k) := Attempt(e, w, n).value;
    ReadAfter(w.disk, SavePath(e, n), w.text[n], sb, k, m);
    if m == 11 { SavedSuperIsRead(w.disk, sb, k, w.text[n]); }
  }

  /** Every event, a boot or save cut short included, keeps the memory in step with the disk. */
  lemma StepOk<N(!new)>(e: Setting<N>, w: World<N>, v: Event<N>)
    requires WorldOk(e, w) && Possible(e, v)
    ensures WorldOk(e, Step(e, w, v))
  {
    match v
    case Edit(n, text) =>
    case Save(n) =>
      if Attempt(e, w, n).Some? { SaveBootable(e, w, n, 11); }
    case Interrupt(n, writes) =>
      if Attempt(e, w, n).Some? { SaveBootable(e, w, n, writes); }
    case Restart => BootOk(e, w.disk);
    case BootCut(writes) => CutBootOk(w.disk, writes);
  }

  ghost predicate AllPossible<N(!new)>(e: Setting<N>, events: seq<Event<N>>)
    requires SettingOk(e)
  {
    forall i :: 0 <= i < |events| ==> Possible(e, events[i])
  }

  /** The world after the events from position i on. */
  ghost function Run<N(!new)>(e: Setting<N>, w: World<N>, events: seq<Event<N>>, i: nat): (r: World<N>)
    requires WorldOk(e, w) && AllPossible(e, events) && i <= |events|
    ensures WorldOk(e, r)
    decreases |events| - i
  {
    if i == |events| then w
    else
      StepOk(e, w, events[i]);
      Run(e, Step(e, w, events[i]), events, i + 1)
  }

  // ---------------------------------------------------------------------
  // What a restart restores.
  // ---------------------------------------------------------------------

  /** What the disk holds for the file with these paths, as a restart reads it. */
  ghost function Kept(d: Disk, paths: iset<string>): Option<seq<byte>>
    requires Bootable(d)
  {
    if Foreign(d) then None else Stored(d, paths)
  }

  /** The content a restart should give n: what the disk holds for it, else the default. */
  ghost function Expected<N(!new)>(e: Setting<N>, d: Disk, n: N): seq<byte>
    requires n in e.tree && n in e.defaults && Bootable(d)
  {
    var c := Kept(d, NodePaths(e, n));
    if e.tree[n].kind == File && c.Some? then c.value else e.defaults[n]
  }

  /** Restoring an entry changes the node it names and no other. */
  lemma RestoreSlotNode<N(!new)>(e: Setting<N>, d: Disk, n: N, i: nat, sb: Super, text: map<N, seq<byte>>)
    requires n in e.tree && i < 16 && text.Keys == e.tree.Keys && ReadSuper(d) == sb
    ensures n in RestoreSlot(e, d, i, text)
    ensures RestoreSlot(e, d, i, text)[n] ==
            if Names(sb, NodePaths(e, n), i) && e.tree[n].kind == File then FileData(d, i, sb.entries[i].size) else text[n]
  {}

  /** What restoring the first k entries gives n. */
  ghost function FromEntries<N(!new)>(e: Setting<N>, d: Disk, n: N, k: nat, sb: Super): seq<byte>
    requires k <= 16 && n in e.tree && n in e.defaults
  {
    match LastNaming(sb, NodePaths(e, n), k)
    case None => e.defaults[n]
    case Some(j) => if e.tree[n].kind == File then FileData(d, j, sb.entries[j].size) else e.defaults[n]
  }

  lemma FromEntriesStep<N(!new)>(e: Setting<N>, d: Disk, n: N, k: nat, sb: Super)
    requires k < 16 && n in e.tree && n in e.defaults
    ensures FromEntries(e, d, n, k + 1, sb) ==
            if Names(sb, NodePaths(e, n), k) && e.tree[n].kind == File then FileData(d, k, sb.entries[k].size)
            else FromEntries(e, d, n, k, sb)
  {
    var last := LastNaming(sb, NodePaths(e, n), k + 1);
  }

  lemma {:induction false} RestoredNode<N(!new)>(e: Setting<N>, d: Disk, n: N, i: nat, sb: Super, text: map<N, seq<byte>>)
    requires n in e.tree && n in e.defaults && ReadSuper(d) == sb && i <= sb.count <= 16
    requires text.Keys == e.tree.Keys && text[n] == FromEntries(e, d, n, i, sb)
    ensures n in Restored(e, d, i, text) && Restored(e, d, i, text)[n] == FromEntries(e, d, n, sb.count, sb)
    decreases sb.count - i
  {
    if i < sb.count {
      RestoreSlotNode(e, d, n, i, sb, text);
      FromEntriesStep(e, d, n, i, sb);
      RestoreSlotKeys(e, d, i, text);
      RestoredNode(e, d, n, i + 1, sb, RestoreSlot(e, d, i, text));
    }
  }

  lemma FromAllEntries<N(!new)>(e: Setting<N>, d: Disk, n: N, sb: Super)
    requires n in e.tree && n in e.defaults && !Foreign(d) && ReadSuper(d) == sb && sb.count <= 16
    ensures FromEntries(e, d, n, sb.count, sb) == Expected(e, d, n)
  {}

  /** A restart gives every node what the disk holds for it, else its default, whatever bytes
      are in the entries. */
  lemma BootGives<N(!new)>(e: Setting<N>, d: Disk, n: N)
    requires SettingOk(e) && Bootable(d) && n in e.tree
    ensures n in Boot(e, d).text && Boot(e, d).text[n] == Expected(e, d, n)
  {
    if !Foreign(d) {
      RestoredNode(e, d, n, 0, ReadSuper(d), e.defaults);
      FromAllEntries(e, d, n, ReadSuper(d));
    }
  }

  // ---------------------------------------------------------------------
  // Histories.
  // ---------------------------------------------------------------------

  /** What may be on the disk for a file: one of some contents (None for nothing), or anything
      once a save that is not atomic was interrupted. */
  datatype Fate = OneOf(contents: set<Option<seq<byte>>>) | Torn

  ghost predicate Fits(stored: Option<seq<byte>>, fate: Fate) { fate.OneOf? ==> stored in fate.contents }

  /** A save of text into slot k over c leaves c or the text, whenever it is interrupted. */
  ghost predicate Safe(sb: Super, paths: iset<string>, k: nat, c: Option<seq<byte>>, text: seq<byte>)
    requires k < 16
  {
    if c.Some? then Atomic(c.value, text) else k == sb.count ==> NewFileSafe(sb.entries[k], paths, text, k)
  }

  /** Whether v is a save, finished or not, of some m that writes to the disk. */
  ghost predicate Writes<N(!new)>(e: Setting<N>, w: World<N>, v: Event<N>)
    requires WorldOk(e, w) && Possible(e, v)
  {
    (v.Save? || v.Interrupt?) && Attempt(e, w, v.n).Some?
  }

  /** An interrupted save of another file makes a stale entry that names n readable. */
  ghost predicate Exposes<N(!new)>(e: Setting<N>, w: World<N>, v: Event<N>, n: N)
    requires WorldOk(e, w) && Possible(e, v)
  {
    v.Interrupt? && v.n != n && Writes(e, w, v) &&
    Exposed(w.super, NodePaths(e, n), Attempt(e, w, v.n).value.1, v.writes)
  }

  /** The fate of n after event v. An event that neither saves n nor exposes a stale entry of it
      changes nothing. */
  ghost function AfterEvent<N(!new)>(e: Setting<N>, w: World<N>, v: Event<N>, n: N, fate: Fate): Fate
    requires WorldOk(e, w) && Possible(e, v)
  {
    if Writes(e, w, v) && v.n == n then
      var k, paths := Attempt(e, w, n).value.1, NodePaths(e, n);
      if Shadowed(w.super, paths, k) then fate
      else if v.Save? && (w.text[n] != [] || Alone(w.super, paths, k)) then OneOf({Target(w.text[n])})
      else if v.Interrupt? && Alone(w.super, paths, k) && fate.OneOf? &&
              forall c :: c in fate.contents ==> Safe(w.super, paths, k, c, w.text[n])
      then OneOf(fate.contents + {Target(w.text[n])})
      else Torn
    else if Exposes(e, w, v, n) then Torn
    else fate
  }

  /** The fate of n after the events from position i on. */
  ghost function FateOf<N(!new)>(e: Setting<N>, w: World<N>, events: seq<Event<N>>, i: nat, n: N, fate: Fate): Fate
    requires WorldOk(e, w) && AllPossible(e, events) && i <= |events|
    decreases |events| - i
  {
    if i == |events| then fate
    else
      StepOk(e, w, events[i]);
      FateOf(e, Step(e, w, events[i]), events, i + 1, n, AfterEvent(e, w, events[i], n, fate))
  }

  /** What the disk holds for n before and after an event. */
  ghost predicate Changes<N(!new)>(e: Setting<N>, w: World<N>, v: Event<N>, n: N,
      before: Option<seq<byte>>, after: Option<seq<byte>>)
    requires WorldOk(e, w) && Possible(e, v)
  {
    if Writes(e, w, v) && v.n == n then
      var k, paths := Attempt(e, w, n).value.1, NodePaths(e, n);
      (Shadowed(w.super, paths, k) ==> after == before) &&
      (v.Save? && !Shadowed(w.super, paths, k) && (w.text[n] != [] || Alone(w.super, paths, k)) ==>
         after == Target(w.text[n])) &&
      (Alone(w.super, paths, k) && Safe(w.super, paths, k, before, w.text[n]) ==>
         after == before || after == Target(w.text[n]))
    else if Exposes(e, w, v, n) then
      after == Some(Padded(w.text[v.n], w.super.entries[Attempt(e, w, v.n).value.1].size))
    else after == before
  }

  /** An event changes what the disk holds for the node it saves, and for the nodes named by a
      stale entry that an interrupted save exposes, which get the saved bytes. */
  lemma StepKept<N(!new)>(e: Setting<N>, w: World<N>, v: Event<N>, n: N)
    requires WorldOk(e, w) && Possible(e, v)
    ensures WorldOk(e, Step(e, w, v))
    ensures Changes(e, w, v, n, Kept(w.disk, NodePaths(e, n)), Kept(Step(e, w, v).disk, NodePaths(e, n)))
  {
    StepOk(e, w, v);
    if Writes(e, w, v) {
      SaveKept(e, w, v.n, if v.Save? then 11 else v.writes, n);
    } else if v.BootCut? {
      CutBootOk(w.disk, v.writes);
    } else if v.Restart? {
      BootOk(e, w.disk);
    }
  }

  lemma SaveKept<N(!new)>(e: Setting<N>, w: World<N>, saved: N, m: nat, n: N)
    requires WorldOk(e, w) && Storable(e, saved) && Attempt(e, w, saved).Some? && m <= 11
    ensures var (sb, k) := Attempt(e, w, saved).value;
            !Foreign(SaveWrites(w.disk, sb, k, w.text[saved], m)) &&
            ReadSuper(SaveWrites(w.disk, sb, k, w.text[saved], m)).count <= 16
    ensures var ((sb, k), paths) := (Attempt(e, w, saved).value, NodePaths(e, n));
            var (before, after) := (Stored(w.disk, paths), Stored(SaveWrites(w.disk, sb, k, w.text[saved], m), paths));
            if saved != n then
              after == if Exposed(w.super, paths, k, m) then Some(Padded(w.text[saved], w.super.entries[k].size)) else before
            else
              (Shadowed(w.super, paths, k) ==> after == before) &&
              (m == 11 && !Shadowed(w.super, paths, k) && (w.text[n] != [] || Alone(w.super, paths, k)) ==>
                 after == Target(w.text[n])) &&
              (Alone(w.super, paths, k) && Safe(w.super, paths, k, before, w.text[n]) ==>
                 after == before || after == Target(w.text[n]))
  {
    var (sb, k) := Attempt(e, w, saved).value;
    var s, paths := SavePath(e, saved), NodePaths(e, n);
    SavePathNames(e, saved, n);
    SaveBootable(e, w, saved, m);
    if saved != n {
      OthersThen(w.disk, s, w.text[saved], sb, k, m, paths);
    } else {
      if Shadowed(w.super, paths, k) { ShadowedSave(w.disk, s, w.text[n], sb, k, m, paths); }
      if m == 11 { SavedIsFound(w.disk, s, w.text[n], sb, k, paths); }
      if Alone(w.super, paths, k) { OwnFate(w.disk, s, w.text[n], sb, k, m, paths, ReadSuper(w.disk)); }
    }
  }

  /** What any prefix of a save leaves for the saved file itself. */
  lemma OwnFate(d: Disk, s: string, content: seq<byte>, sb': Super, k: nat, m: nat, paths: iset<string>, sb: Super)
    requires Saving(d, s, content, sb', k) && s in paths && m <= 11 && k < 16 && ReadSuper(d) == sb && Alone(sb, paths, k)
    ensures ReadSuper(SaveWrites(d, sb', k, content, m)).count <= 16
    ensures var (before, after) := (Stored(d, paths), Stored(SaveWrites(d, sb', k, content, m), paths));
            Safe(sb, paths, k, before, content) ==> after == before || after == Target(content)
  {
    var before := Stored(d, paths);
    if before.None? {
      SavingSlot(d, s, content, sb', k);
      assert k < sb.count ==> !Names(sb, paths, k);
      AllOrNothing(d, s, content, sb', k, paths);
    } else {
      OverwriteAtomic(d, s, content, sb', k, before.value, paths);
    }
  }

  /** The disk holds for n what its fate allows. */
  ghost predicate Holds<N(!new)>(e: Setting<N>, w: World<N>, n: N, fate: Fate) {
    WorldOk(e, w) && Fits(Kept(w.disk, NodePaths(e, n)), fate)
  }

  lemma EventHolds<N(!new)>(e: Setting<N>, w: World<N>, v: Event<N>, n: N, fate: Fate)
    requires Holds(e, w, n, fate) && Possible(e, v)
    ensures Holds(e, Step(e, w, v), n, AfterEvent(e, w, v, n, fate))
  {
    StepKept(e, w, v, n);
  }

  lemma {:induction false} HistoryHolds<N(!new)>(e: Setting<N>, w: World<N>, events: seq<Event<N>>, i: nat, n: N, fate: Fate)
    requires Holds(e, w, n, fate) && AllPossible(e, events) && i <= |events|
    ensures Holds(e, Run(e, w, events, i), n, FateOf(e, w, events, i, n, fate))
    decreases |events| - i
  {
    if i < |events| {
      EventHolds(e, w, events[i], n, fate);
      HistoryHolds(e, Step(e, w, events[i]), events, i + 1, n, AfterEvent(e, w, events[i], n, fate));
    }
  }

  /** What a restart makes of n, given its fate. */
  ghost predicate RestoredAs(text: seq<byte>, fate: Fate, default': seq<byte>) {
    fate.OneOf? ==> exists c :: c in fate.contents && text == if c.Some? then c.value else default'
  }

  lemma RestartFrom<N(!new)>(e: Setting<N>, w: World<N>, n: N, fate: Fate)
    requires Holds(e, w, n, fate) && n in e.tree && e.tree[n].kind == File
    ensures n in Boot(e, w.disk).text && RestoredAs(Boot(e, w.disk).text[n], fate, e.defaults[n])
  {
    BootGives(e, w.disk, n);
  }

  /** After any history from power-on with any disk, boots and saves cut short included, a
      restart gives each file what was on the disk for it if it was never saved, the first 4096
      bytes of its last save if that finished (its default if that was empty), and one of the
      possible contents if saves of it were interrupted that were atomic. Crashes during saves
      of other files make no difference unless they expose a stale entry of the file. */
  lemma RestartAfterHistory<N(!new)>(e: Setting<N>, d: Disk, events: seq<Event<N>>, n: N)
    requires SettingOk(e) && Bootable(d) && n in e.tree && e.tree[n].kind == File && AllPossible(e, events)
    ensures var w', fate := Run(e, Off(e, d), events, 0),
                            FateOf(e, Off(e, d), events, 0, n, OneOf({Kept(d, NodePaths(e, n))}));
            n in Boot(e, w'.disk).text && RestoredAs(Boot(e, w'.disk).text[n], fate, e.defaults[n])
  {
    var fate := OneOf({Kept(d, NodePaths(e, n))});
    HistoryHolds(e, Off(e, d), events, 0, n, fate);
    RestartFrom(e, Run(e, Off(e, d), events, 0), n, FateOf(e, Off(e, d), events, 0, n, fate));
  }

  // ---------------------------------------------------------------------
  // Histories without stale entries.
  // ---------------------------------------------------------------------

  ghost predicate KnownPath<N(!new)>(e: Setting<N>, path: string)
    requires SettingOk(e)
  {
    |path| == 0 || exists n :: Storable(e, n) && SavePath(e, n) == path
  }

  /** A disk of another system, or a well-formed one that holds paths of this tree only. */
  ghost predicate Clean<N(!new)>(e: Setting<N>, d: Disk)
    requires SettingOk(e)
  {
    Foreign(d) || (SuperOk(ReadSuper(d)) && AllKnown(e, ReadSuper(d)))
  }

  ghost predicate AllKnown<N(!new)>(e: Setting<N>, sb: Super)
    requires SettingOk(e)
  {
    sb.count <= 16 && forall i: nat :: i < sb.count ==> KnownPath(e, Text(sb.entries[i].path))
  }

  /** Every prefix of a save keeps the disk clean. */
  lemma SaveClean<N(!new)>(e: Setting<N>, w: World<N>, n: N, m: nat)
    requires WorldOk(e, w) && Storable(e, n) && Attempt(e, w, n).Some? && m <= 11 && Clean(e, w.disk)
    ensures var (sb, k) := Attempt(e, w, n).value;
            Clean(e, SaveWrites(w.disk, sb, k, w.text[n], m))
  {
    var (sb, k) := Attempt(e, w, n).value;
    var s := SavePath(e, n);
    SavingSlot(w.disk, s, w.text[n], sb, k);
    ReadAfter(w.disk, s, w.text[n], sb, k, m);
    SuperThenOk(w.disk, s, w.text[n], sb, k, m);
    var sb2 := SuperThen(w.super, sb, k, m);
    if m > 8 {
      forall i: nat | i < sb2.count ensures KnownPath(e, Text(sb2.entries[i].path)) {
        PathsThen(w.disk, s, w.text[n], sb, k, m, i);
        assert KnownPath(e, s);
        if i != k { assert KnownPath(e, Text(w.super.entries[i].path)); }
      }
    }
  }

  /** Every event keeps the disk clean, except a first boot cut where bytes of entries not yet
      written are not zero. */
  lemma StepClean<N(!new)>(e: Setting<N>, w: World<N>, v: Event<N>)
    requires WorldOk(e, w) && Possible(e, v) && Clean(e, w.disk)
    requires v.BootCut? && Foreign(w.disk) && v.writes >= 1 ==> EntriesZeroFrom(w.disk, v.writes)
    ensures Clean(e, Step(e, w, v).disk)
  {
    if Writes(e, w, v) {
      SaveClean(e, w, v.n, if v.Save? then 11 else v.writes);
    } else if v.BootCut? && Foreign(w.disk) {
      FirstBootCut(w.disk, v.writes);
    } else if v.Restart? && Foreign(w.disk) {
      FirstBootCut(w.disk, 3);
    }
  }

  /** A disk of another system stays as it is until a boot writes to it. */
  lemma StepForeign<N(!new)>(e: Setting<N>, w: World<N>, v: Event<N>)
    requires WorldOk(e, w) && Possible(e, v) && Foreign(Step(e, w, v).disk)
    ensures Step(e, w, v).disk == w.disk
  {
    if Writes(e, w, v) {
      SaveBootable(e, w, v.n, if v.Save? then 11 else v.writes);
    } else if v.BootCut? && Foreign(w.disk) {
      FirstBootCut(w.disk, v.writes);
    } else if v.Restart? && Foreign(w.disk) {
      FirstBootCut(w.disk, 3);
    }
  }

  ghost predicate ZeroArea(d: Disk) { forall off: nat {:trigger ZeroAt(d, off)} :: off < 1168 ==> ZeroAt(d, off) }

  predicate ZeroAt(d: Disk, off: nat)
    requires off < 1168
  {
    DiskByte(d, off) == 0
  }

  lemma ZeroFrom(d: Disk, n: nat)
    requires ZeroArea(d)
    ensures EntriesZeroFrom(d, n)
  {
    forall off: nat | 512 * n <= off < 1168 ensures DiskByte(d, off) == 0 { assert ZeroAt(d, off); }
  }

  /** A clean disk whose superblock area is zero if this system has not used it yet. */
  ghost predicate ZeroStart<N(!new)>(e: Setting<N>, d: Disk)
    requires SettingOk(e)
  {
    Clean(e, d) && (Foreign(d) ==> ZeroArea(d))
  }

  lemma StepZeroStart<N(!new)>(e: Setting<N>, w: World<N>, v: Event<N>)
    requires WorldOk(e, w) && Possible(e, v) && ZeroStart(e, w.disk)
    ensures ZeroStart(e, Step(e, w, v).disk)
  {
    StepZeroClean(e, w, v);
    StepZeroArea(e, w, v, Step(e, w, v).disk);
  }

  lemma StepZeroClean<N(!new)>(e: Setting<N>, w: World<N>, v: Event<N>)
    requires WorldOk(e, w) && Possible(e, v) && ZeroStart(e, w.disk)
    ensures Clean(e, Step(e, w, v).disk)
  {
    if v.BootCut? && Foreign(w.disk) { ZeroFrom(w.disk, v.writes); }
    StepClean(e, w, v);
  }

  lemma StepZeroArea<N(!new)>(e: Setting<N>, w: World<N>, v: Event<N>, d: Disk)
    requires WorldOk(e, w) && Possible(e, v) && (Foreign(w.disk) ==> ZeroArea(w.disk)) && d == Step(e, w, v).disk
    ensures Foreign(d) ==> ZeroArea(d)
  {
    if Foreign(d) {
      StepForeign(e, w, v);
      SameZeroArea(w.disk, d);
    }
  }

  lemma SameZeroArea(d: Disk, d': Disk)
    requires d' == d && (Foreign(d) ==> ZeroArea(d))
    ensures Foreign(d') ==> ZeroArea(d')
  {}

  /** On a disk whose superblock area is zero no history leaves stale entries, wherever boots
      and saves are cut. */
  lemma {:induction false} ZeroDiskStaysClean<N(!new)>(e: Setting<N>, w: World<N>, events: seq<Event<N>>, i: nat)
    requires WorldOk(e, w) && AllPossible(e, events) && i <= |events| && ZeroStart(e, w.disk)
    ensures Clean(e, Run(e, w, events, i).disk)
    decreases |events| - i
  {
    if i < |events| {
      StepZeroStart(e, w, events[i]);
      StepOk(e, w, events[i]);
      ZeroDiskStaysClean(e, Step(e, w, events[i]), events, i + 1);
    }
  }

  /** On a clean disk the rules for stale entries never apply: a finished save decides the fate
      of its file alone, and an interrupted one leaves it open only if some content it may
      meet is not overwritten atomically. */
  lemma CleanFate<N(!new)>(e: Setting<N>, w: World<N>, v: Event<N>, n: N, fate: Fate)
    requires WorldOk(e, w) && Possible(e, v) && Clean(e, w.disk)
    ensures AfterEvent(e, w, v, n, fate) ==
            if !Writes(e, w, v) || v.n != n then fate
            else if v.Save? then OneOf({Target(w.text[n])})
            else if fate.OneOf? && forall c :: c in fate.contents && c.Some? ==> Atomic(c.value, w.text[n])
            then OneOf(fate.contents + {Target(w.text[n])})
            else Torn
  {
    if Writes(e, w, v) {
      if v.n == n { CleanOwn(e, w, n, Attempt(e, w, n).value.1); } else { CleanHides(e, w, v, n); }
    }
  }

  lemma CleanHides<N(!new)>(e: Setting<N>, w: World<N>, v: Event<N>, n: N)
    requires WorldOk(e, w) && Possible(e, v) && Clean(e, w.disk) && Writes(e, w, v) && v.n != n
    ensures !Exposes(e, w, v, n)
  {
    var k := Attempt(e, w, v.n).value.1;
    assert k == w.super.count ==> IsBlank(w.super.entries[k]);
  }

  lemma CleanOwn<N(!new)>(e: Setting<N>, w: World<N>, n: N, k: nat)
    requires WorldOk(e, w) && Storable(e, n) && Clean(e, w.disk) && w.loaded && k == FindSlot(w.super, SavePath(e, n), 0) < 16
    ensures Alone(w.super, NodePaths(e, n), k) && !Shadowed(w.super, NodePaths(e, n), k)
    ensures forall c, text :: Safe(w.super, NodePaths(e, n), k, c, text) <==> (c.Some? ==> Atomic(c.value, text))
  {
    CleanAlone(e, w.super, n);
    assert k == w.super.count ==> IsBlank(w.super.entries[k]);
  }

  /** On a clean disk only the slot of its path can have data for a node. */
  lemma CleanAlone<N(!new)>(e: Setting<N>, sb: Super, n: N)
    requires SettingOk(e) && Storable(e, n) && SuperOk(sb) && AllKnown(e, sb)
    ensures Alone(sb, NodePaths(e, n), FindSlot(sb, SavePath(e, n), 0))
    ensures !Shadowed(sb, NodePaths(e, n), FindSlot(sb, SavePath(e, n), 0))
  {
    forall j: nat | j < sb.count && j != FindSlot(sb, SavePath(e, n), 0) ensures !Names(sb, NodePaths(e, n), j) {
      var path := Text(sb.entries[j].path);
      assert KnownPath(e, path);
      if path in NodePaths(e, n) {
        var m :| Storable(e, m) && SavePath(e, m) == path;
        SavePathNames(e, m, n);
      }
      OnlySlot(sb, SavePath(e, n), j);
    }
  }

  /** The first boot on a disk of another system leaves a world that stores nothing. */
  lemma FirstBoot<N(!new)>(e: Setting<N>, d: Disk)
    requires SettingOk(e) && Foreign(d)
    ensures WorldOk(e, Boot(e, d)) && Boot(e, d).super.count == 0 && Boot(e, d).text == e.defaults
    ensures Clean(e, Boot(e, d).disk)
  {
    BootOk(e, d);
    FirstBootCut(d, 3);
  }

  lemma NotForeign(d: Disk, n: nat, drafts: seq<Draft>, k: nat, d0: Disk)
    requires Foreign(d) && 1 <= n <= 3 && k == |drafts| <= 16 && Distinct(drafts)
    requires d0 == WriteSuper(d, BlankSuper(), n) && ReadSuper(d0).count <= 16
    ensures !Foreign(SaveAll(d0, drafts, k))
  {
    FirstBootCut(d, n);
    SavesFillInOrder(d0, drafts, k);
  }

  /** After the run of FirstBootCrashTears a restart gives the file the saved bytes in the
      length found on the foreign disk. */
  lemma FirstBootCrashRestored<N(!new)>(e: Setting<N>, d: Disk, n: nat, drafts: seq<Draft>, s: string, content: seq<byte>,
      sb': Super, k: nat, m: nat, file: N, d0: Disk)
    requires SettingOk(e) && file in e.tree && e.tree[file].kind == File
    requires Foreign(d) && 1 <= n <= 3 && |drafts| == k < 16 && Distinct(drafts)
    requires !TailDone(k, n) && ReadSuper(d).entries[k].size != 0
    requires d0 == WriteSuper(d, BlankSuper(), n) && ReadSuper(d0).count <= 16
    requires Saving(SaveAll(d0, drafts, k), s, content, sb', k)
    requires 8 < m <= 11 && !TailDone(k, m - 8)
    requires (if PathDone(k, m - 8) then s else StalePath(ReadSuper(d), k, n)) in NodePaths(e, file)
    ensures var d' := SaveWrites(SaveAll(d0, drafts, k), sb', k, content, m);
            Bootable(d') && file in Boot(e, d').text &&
            Boot(e, d').text[file] == Padded(content, ReadSuper(d).entries[k].size)
  {
    var d1 := SaveAll(d0, drafts, k);
    NotForeign(d, n, drafts, k, d0);
    FirstBootCrashTears(d, n, drafts, s, content, sb', k, m, NodePaths(e, file));
    ReadAfter(d1, s, content, sb', k, m);
    BootGives(e, SaveWrites(d1, sb', k, content, m), file);
  }

  /** Saving and restarting gives back exactly the saved text if and only if it fits in 4096
      bytes and is not empty, or it is empty and so is the default. This is for files that no
      other entry names, so for all files of a clean disk. */
  lemma SaveRestartExact<N(!new)>(e: Setting<N>, w: World<N>, n: N)
    requires WorldOk(e, w) && Storable(e, n) && e.tree[n].kind == File && Attempt(e, w, n).Some?
    requires Alone(w.super, NodePaths(e, n), Attempt(e, w, n).value.1)
    ensures WorldOk(e, Step(e, w, Save(n)))
    ensures var text := Boot(e, Step(e, w, Save(n)).disk).text;
            n in text &&
            (text[n] == w.text[n] <==>
             if w.text[n] == [] then e.defaults[n] == [] else |w.text[n]| <= 4096)
  {
    StepKept(e, w, Save(n), n);
    BootGives(e, Step(e, w, Save(n)).disk, n);
  }

  /** What is in memory after one event: an edit replaces the text of its file, a save changes no
      text, a restart reads the disk, and without power everything falls back to the defaults. */
  lemma MemoryAfter<N(!new)>(e: Setting<N>, w: World<N>, v: Event<N>, n: N)
    requires WorldOk(e, w) && Possible(e, v) && n in e.tree
    ensures WorldOk(e, Step(e, w, v))
    ensures var t := Step(e, w, v);
            match v
            case Edit(m, text) =>
              t.text[n] == (if m == n then text else w.text[n]) && t.disk == w.disk && t.super == w.super &&
              t.loaded == w.loaded
            case Save(_) => t.text == w.text && t.loaded == w.loaded
            case Restart => t.loaded && t.text[n] == Expected(e, w.disk, n)
            case _ => !t.loaded && t.text[n] == e.defaults[n]
  {
    StepOk(e, w, v);
    match v
    case Restart =>
      BootGives(e, w.disk, n);
      RestartGives(e, w, Step(e, w, v));
    case Interrupt(m, writes) => NoPower(e, w, v, Step(e, w, v));
    case BootCut(writes) => NoPower(e, w, v, Step(e, w, v));
    case _ =>
  }

  lemma NoPower<N(!new)>(e: Setting<N>, w: World<N>, v: Event<N>, t: World<N>)
    requires WorldOk(e, w) && Possible(e, v) && (v.Interrupt? || v.BootCut?) && t == Step(e, w, v)
    ensures !t.loaded && t.text == e.defaults
  {}

  /** A text that was typed and saved is there after a restart under the same condition. */
  lemma TypedAndSaved<N(!new)>(e: Setting<N>, w: World<N>, n: N, text: seq<byte>, w1: World<N>, w2: World<N>, w3: World<N>)
    requires WorldOk(e, w) && Storable(e, n) && e.tree[n].kind == File
    requires w1 == Step(e, w, Edit(n, text)) && WorldOk(e, w1)
    requires w2 == Step(e, w1, Save(n)) && WorldOk(e, w2)
    requires w3 == Step(e, w2, Restart)
    requires Attempt(e, w1, n).Some? && Alone(w1.super, NodePaths(e, n), Attempt(e, w1, n).value.1)
    ensures n in w3.text && (w3.text[n] == text <==> if text == [] then e.defaults[n] == [] else |text| <= 4096)
  {
    EditGives(e, w, n, text, w1);
    SaveRestartExact(e, w1, n);
    RestartGives(e, w2, w3);
  }

  lemma EditGives<N(!new)>(e: Setting<N>, w: World<N>, n: N, text: seq<byte>, t: World<N>)
    requires WorldOk(e, w) && n in e.tree && t == Step(e, w, Edit(n, text))
    ensures n in t.text && t.text[n] == text
  {}

  lemma RestartGives<N(!new)>(e: Setting<N>, w: World<N>, t: World<N>)
    requires WorldOk(e, w) && t == Step(e, w, Restart)
    ensures t.text == Boot(e, w.disk).text && t.loaded
  {}
}

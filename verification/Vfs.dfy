/** File nodes, their growable buffers and the in-memory tree (src/kernel/vfs.cpp). */
module Vfs {
  import opened Common
  import opened VfsTree

  /** Capacities are 64 doubled any number of times. */
  predicate IsCap(c: nat) { c == 64 || (c > 64 && c % 2 == 0 && IsCap(c / 2)) }

  function Doubled(c: nat, need: nat): (r: nat)
    requires c > 0
    ensures r >= need && r >= c
    decreases need - c
  {
    if c >= need then c else Doubled(2 * c, need)
  }

  /** The capacity after making room for need bytes. */
  function Grown(cap: nat, need: nat): (r: nat)
    ensures r >= need
  {
    if cap >= need then cap else Doubled(if cap == 0 then 64 else cap, need)
  }

  lemma {:induction false} IsCapAtLeast(c: nat)
    requires IsCap(c)
    ensures c >= 64
  {}

  lemma GrownOnce(cap: nat)
    requires cap > 0
    ensures Grown(cap, cap + 1) == 2 * cap
  {
    assert Doubled(2 * cap, cap + 1) == 2 * cap;
  }

  /** The 32-bit capacity after k doublings. */
  function Capacity(c: nat, k: nat): nat {
    if k == 0 then c else 2 * Capacity(c, k - 1) % 0x1_0000_0000
  }

  lemma TwiceCap(c: nat)
    requires IsCap(c)
    ensures IsCap(2 * c)
  {
    IsCapAtLeast(c);
    assert 2 * c / 2 == c;
  }

  lemma LargestCap()
    ensures IsCap(0x8000_0000)
  {
    assert IsCap(0x200);
    assert IsCap(0x1000);
    assert IsCap(0x8000);
    assert IsCap(0x4_0000);
    assert IsCap(0x20_0000);
    assert IsCap(0x100_0000);
    assert IsCap(0x800_0000);
    assert IsCap(0x4000_0000);
  }

  lemma {:induction false} NoCapBetween(b: nat, c: nat)
    requires IsCap(b) && IsCap(c) && b < c
    ensures 2 * b <= c
  {
    if b > 64 { NoCapBetween(b / 2, c / 2); }
  }

  predicate CapOrZero(c: nat) { c == 0 || (IsCap(c) && c <= 0x8000_0000) }

  lemma DoublingStep(c: nat)
    requires CapOrZero(c)
    ensures CapOrZero(2 * c % 0x1_0000_0000)
  {
    if 0 < c < 0x8000_0000 {
      LargestCap();
      NoCapBetween(c, 0x8000_0000);
      TwiceCap(c);
    }
  }

  lemma {:induction false} CapacityBound(c: nat, k: nat)
    requires CapOrZero(c)
    ensures CapOrZero(Capacity(c, k))
  {
    if k > 0 {
      CapacityBound(c, k - 1);
      DoublingStep(Capacity(c, k - 1));
    }
  }

  lemma {:induction false} CapacityShift(c: nat, k: nat)
    requires 2 * c < 0x1_0000_0000
    ensures Capacity(c, k + 1) == Capacity(2 * c, k)
  {
    if k > 0 { CapacityShift(c, k - 1); }
  }

  lemma {:induction false} CapacityReaches(c: nat, need: nat) returns (k: nat)
    requires IsCap(c) && c <= 0x8000_0000 && need <= 0x8000_0000
    ensures Capacity(c, k) >= need
    decreases 0x8000_0000 - c
  {
    if c >= need { return 0; }
    LargestCap();
    NoCapBetween(c, 0x8000_0000);
    TwiceCap(c);
    IsCapAtLeast(c);
    k := CapacityReaches(2 * c, need);
    CapacityShift(c, k);
    k := k + 1;
  }

  /** The loop that doubles the 32-bit capacity ends if and only if the need is at most 2^31;
      above, the capacity wraps around to 0 and stays there. */
  lemma DoublingEnds(c: nat, need: nat)
    requires IsCap(c) && c <= 0x8000_0000
    ensures (exists k :: Capacity(c, k) >= need) <==> need <= 0x8000_0000
  {
    if need <= 0x8000_0000 {
      var k := CapacityReaches(c, need);
    } else {
      forall k: nat ensures Capacity(c, k) < need { CapacityBound(c, k); }
    }
  }

  /** vfs_write computes its need, the length and a NUL, on 32 bits. Whenever its doubling loop
      ends, the buffer holds both, unless the data has 2^32 - 1 bytes: then the need is 0 and the
      buffer stays as it is. */
  lemma WriteRoom(cap: nat, len: u32, need: u32)
    requires cap == 0 || (IsCap(cap) && cap <= 0x8000_0000)
    requires need == (len + 1) % 0x1_0000_0000 && need <= 0x8000_0000
    ensures Grown(cap, need) >= len + 1 <==> len != 0xFFFF_FFFF
    ensures len == 0xFFFF_FFFF ==> Grown(cap, need) == cap
  {}

  datatype Edit = Append(c: byte) | Pop | Overwrite(data: seq<byte>)

  function EditText(text: seq<byte>, e: Edit): seq<byte> {
    match e
    case Append(c) => text + [c]
    case Pop => if text == [] then [] else text[..|text| - 1]
    case Overwrite(data) => data
  }

  /** The text after the first n edits. */
  function Edited(text: seq<byte>, edits: seq<Edit>, n: nat): seq<byte>
    requires n <= |edits|
  {
    if n == 0 then text else EditText(Edited(text, edits, n - 1), edits[n - 1])
  }

  function Appends(edits: seq<Edit>, n: nat): nat
    requires n <= |edits|
  {
    if n == 0 then 0 else Appends(edits, n - 1) + if edits[n - 1].Append? then 1 else 0
  }

  class Node {
    var name: string
    const kind: Kind
    var parent: Node?
    var firstChild: Node?
    var next: Node?
    var content: array?<byte>
    var len: nat
    var cap: nat
    /** Bytes moved from old buffers to larger ones so far. */
    ghost var copied: nat

    constructor (name: string, kind: Kind, parent: Node?)
      ensures this.name == name && this.kind == kind && this.parent == parent
      ensures firstChild == null && next == null && content == null && len == 0 && cap == 0 && copied == 0
    {
      this.name, this.kind, this.parent := name, kind, parent;
      firstChild, next, content, len, cap, copied := null, null, null, 0, 0, 0;
    }

    /** There is no buffer, or one of cap bytes that holds the text and a NUL after it. */
    ghost predicate Buffered()
      reads this, content
    {
      if content == null then len == 0 && cap == 0
      else content.Length == cap && IsCap(cap) && len < cap && content[len] == 0
    }

    function Text(): seq<byte>
      requires Buffered()
      reads this, content
    {
      if content == null then [] else content[..len]
    }

    method EnsureCap(need: nat, oom: bool) returns (ok: bool)
      requires Buffered() && 0 < need <= 0x8000_0000
      modifies `content, `cap, `copied
      ensures ok <==> !oom || need <= old(cap)
      ensures !ok ==> content == old(content) && cap == old(cap) && copied == old(copied)
      ensures ok ==> cap == Grown(old(cap), need) && content != null && content.Length == cap && IsCap(cap) &&
                     len <= cap && content[..len] == old(Text())
      ensures ok && need <= old(cap) ==> content == old(content) && copied == old(copied)
      ensures ok && need > old(cap) ==> fresh(content) && copied == old(copied) + len
    {
      if cap >= need { return true; }
      var newCap := NewCap(cap, need);
      if oom { return false; }
      var buffer := new byte[newCap];
      var before := content;
      if before != null {
        for i := 0 to len
          invariant buffer[..i] == before[..i]
          modifies buffer
        {
          buffer[i] := before[i];
        }
      }
      copied := copied + len;
      content := buffer;
      cap := newCap;
      ok := true;
    }

    /** The doubling loop, on 32-bit sizes. */
    static method NewCap(cap: nat, need: nat) returns (newCap: nat)
      requires cap < need <= 0x8000_0000 && (cap == 0 || IsCap(cap))
      ensures newCap == Grown(cap, need) && IsCap(newCap) && newCap < 0x1_0000_0000
    {
      newCap := if cap == 0 then 64 else cap;
      while newCap < need
        invariant IsCap(newCap) && newCap < 0x1_0000_0000
        invariant Doubled(newCap, need) == Grown(cap, need)
        decreases need - newCap
      {
        assert IsCap(2 * newCap) by { assert 2 * newCap / 2 == newCap && 2 * newCap % 2 == 0; IsCapAtLeast(newCap); }
        newCap := 2 * newCap;
      }
    }

    /** Replaces the text. */
    method Write(data: seq<byte>, oom: bool) returns (ok: bool)
      requires Buffered() && |data| < 0x8000_0000
      modifies this, content
      ensures Buffered() && name == old(name) && parent == old(parent) && firstChild == old(firstChild) && next == old(next)
      ensures content == old(content) || fresh(content)
      ensures ok <==> kind == File && (!oom || |data| < old(cap))
      ensures ok ==> Text() == data && cap == Grown(old(cap), |data| + 1)
      ensures !ok ==> Text() == old(Text()) && cap == old(cap)
    {
      if kind != File { return false; }
      ok := EnsureCap(|data| + 1, oom);
      if !ok { return; }
      var buffer := content;
      for i := 0 to |data|
        invariant buffer[..i] == data[..i]
        modifies buffer
      {
        buffer[i] := data[i];
      }
      buffer[|data|] := 0;
      len := |data|;
    }

    method AppendChar(c: byte, oom: bool) returns (ok: bool)
      requires Buffered() && len + 2 <= 0x8000_0000
      modifies this, content
      ensures Buffered() && name == old(name) && parent == old(parent) && firstChild == old(firstChild) && next == old(next)
      ensures content == old(content) || fresh(content)
      ensures ok <==> kind == File && (!oom || old(len) + 2 <= old(cap))
      ensures ok ==> Text() == old(Text()) + [c] && cap == Grown(old(cap), old(len) + 2) &&
                     copied == old(copied) + if old(len) + 2 > old(cap) then old(len) else 0
      ensures !ok ==> Text() == old(Text()) && cap == old(cap) && copied == old(copied)
    {
      if kind != File { return false; }
      ok := EnsureCap(len + 2, oom);
      if !ok { return; }
      content[len] := c;
      len := len + 1;
      content[len] := 0;
    }

    method PopChar() returns (ok: bool)
      requires Buffered()
      modifies `len, content
      ensures Buffered()
      ensures ok == (kind == File && old(len) > 0)
      ensures Text() == if ok then old(Text())[..old(len) - 1] else old(Text())
    {
      if kind != File || len == 0 { return false; }
      len := len - 1;
      if content != null { content[len] := 0; }
      ok := true;
    }

    /** Any mix of edits, with memory to be had, leaves the text those edits describe. When
        they only append and pop, starting from an empty file, at most two bytes are copied
        for every character appended. */
    method Replay(edits: seq<Edit>)
      requires Buffered() && kind == File
      requires forall k :: 0 <= k <= |edits| ==> |Edited(Text(), edits, k)| < 0x7FFF_FFFE
      modifies this, content
      ensures Buffered() && Text() == Edited(old(Text()), edits, |edits|)
      ensures old(content) == null && (forall e :: e in edits ==> !e.Overwrite?) ==>
              copied - old(copied) <= 2 * Appends(edits, |edits|)
    {
      ghost var text, cheap := Text(), content == null && forall e :: e in edits ==> !e.Overwrite?;
      for k := 0 to |edits|
        invariant Buffered() && Text() == Edited(text, edits, k)
        invariant content == old(content) || fresh(content)
        invariant cheap ==> Paid(old(copied), Appends(edits, k))
      {
        assert |Edited(text, edits, k)| < 0x7FFF_FFFE && |Edited(text, edits, k + 1)| < 0x7FFF_FFFE;
        Apply(edits[k], old(copied), Appends(edits, k));
      }
    }

    method Apply(e: Edit, ghost start: nat, ghost n: nat)
      requires Buffered() && kind == File && len < 0x7FFF_FFFE && |EditText(Text(), e)| < 0x7FFF_FFFE
      modifies this, content
      ensures Buffered() && Text() == EditText(old(Text()), e)
      ensures content == old(content) || fresh(content)
      ensures old(Paid(start, n)) && !e.Overwrite? ==> Paid(start, n + if e.Append? then 1 else 0)
    {
      if cap > 0 { GrownOnce(cap); }
      var ok;
      match e {
        case Append(c) => ok := AppendChar(c, false);
        case Pop => ok := PopChar();
        case Overwrite(data) => ok := Write(data, false);
      }
    }

    /** What appending n characters to an empty file has cost so far. */
    ghost predicate Paid(start: nat, n: nat)
      reads this
    {
      len <= n && start <= copied &&
      (if cap == 0 then copied == start
       else copied - start + 64 <= cap && (cap == 64 || cap <= 2 * n + 2))
    }
  }

  // ---------------------------------------------------------------------
  // The tree of nodes.
  // ---------------------------------------------------------------------

  /** Names are stored in 32 bytes with a terminator. */
  function StoredName(name: string): string { if |name| <= NAME_MAX then name else name[..NAME_MAX] }

  /** The components printed for a stack of names, from entry k - 1 down. */
  function Spell(names: seq<string>, k: nat): string
    requires k <= |names|
  {
    if k == 0 then "" else "/" + names[k - 1] + Spell(names, k - 1)
  }

  function Pointer(n: Option<Node>): Node? {
    match n case None => null case Some(m) => m
  }

  /** The fields of n say what the tree says about n. */
  ghost predicate StoredIn(t: Tree<Node>, root: Node, n: Node)
    requires n in t && (n == root || HasParent(t, n))
    reads n
  {
    n.name == t[n].name && n.kind == t[n].kind && |n.name| <= NAME_MAX &&
    n.firstChild == Pointer(FirstOf(t, n)) && n.parent == Pointer(t[n].parent) &&
    (n != root ==> n.next == Pointer(NextOf(t, n)))
  }

  /** The fields of m once n hangs after the last child of parent. */
  ghost predicate Relinked(t: Tree<Node>, root: Node, parent: Node, n: Node, m: Node)
    requires m in t && parent in t && (m == root || HasParent(t, m))
    reads m
  {
    var kids := t[parent].kids;
    m.name == t[m].name && m.kind == t[m].kind && |m.name| <= NAME_MAX && m.parent == Pointer(t[m].parent) &&
    m.firstChild == (if m == parent && kids == [] then n else Pointer(FirstOf(t, m))) &&
    (m != root ==> m.next == if kids != [] && m == kids[|kids| - 1] then n else Pointer(NextOf(t, m)))
  }

  lemma RelinkedIsStored(t: Tree<Node>, root: Node, parent: Node, n: Node, m: Node)
    requires IsTree(t, root) && parent in t && n !in t && m in t && (m == root || HasParent(t, m))
    requires Relinked(t, root, parent, n, m)
    ensures var t' := WithChild(t, parent, n, n.name, n.kind);
            (m == root || HasParent(t', m)) && StoredIn(t', root, m)
  {
    WithChildLinks(t, root, parent, n, n.name, n.kind, m);
  }

  lemma CompEndStep(path: string, p: nat, budget: nat)
    requires p < |path| && path[p] != '/' && budget > 0
    ensures CompEnd(path, p, budget) == CompEnd(path, p + 1, budget - 1)
  {}

  class FileTree {
    const root: Node
    ghost var tree: Tree<Node>

    ghost predicate Valid()
      reads this, tree.Keys
    {
      IsTree(tree, root) &&
      forall n {:trigger StoredIn(tree, root, n)} :: n in tree ==> (n == root || HasParent(tree, n)) && StoredIn(tree, root, n)
    }

    constructor ()
      ensures Valid() && fresh(root) && tree == map[root := Info("/", Dir, None, [], 0, 0)]
      ensures root.Buffered() && root.content == null
    {
      var n := new Node("/", Dir, null);
      root := n;
      tree := map[n := Info("/", Dir, None, [], 0, 0)];
    }

    /** alloc_node under a parent: the new node becomes its last child. */
    method AllocNode(name: string, kind: Kind, parent: Node, oom: bool) returns (n: Node?)
      requires Valid() && parent in tree
      modifies `tree, parent`firstChild, tree.Keys`next
      ensures Valid()
      ensures n == null <==> oom
      ensures oom ==> tree == old(tree)
      ensures !oom ==> fresh(n) && n.Buffered() && n.content == null && n !in old(tree) &&
                       tree == WithChild(old(tree), parent, n, n.name, kind) &&
                       n.name <= name && |n.name| == if |name| < 31 then |name| else 31
    {
      if oom { return null; }
      n := new Node(StoredName(name), kind, parent);
      Hang(parent, n);
      WithChildIsTree(tree, root, parent, n, StoredName(name), kind);
      ghost var before := tree;
      tree := WithChild(tree, parent, n, StoredName(name), kind);
      forall m | m in tree ensures (m == root || HasParent(tree, m)) && StoredIn(tree, root, m) {
        if m in before {
          RelinkedIsStored(before, root, parent, n, m);
        } else {
          assert HasParent(tree, m);
        }
      }
    }

    method Hang(parent: Node, n: Node)
      requires Valid() && parent in tree && n !in tree
      modifies parent`firstChild, tree.Keys`next
      ensures forall m :: m in tree ==> (m == root || HasParent(tree, m)) && Relinked(tree, root, parent, n, m)
    {
      Link(parent, n);
      forall m | m in tree ensures (m == root || HasParent(tree, m)) && Relinked(tree, root, parent, n, m) {
        assert (m == root || HasParent(tree, m)) && old(StoredIn(tree, root, m));
      }
    }

    /** Hangs n after the last child of parent. */
    method Link(parent: Node, n: Node)
      requires Valid() && parent in tree && n !in tree
      modifies parent`firstChild, tree.Keys`next
      ensures var kids := tree[parent].kids;
              parent.firstChild == (if kids == [] then n else old(parent.firstChild)) &&
              forall m :: m in tree ==>
                m.next == if kids != [] && m == kids[|kids| - 1] then n else old(m.next)
    {
      var last := LastKid(parent);
      if last == null { parent.firstChild := n; } else { last.next := n; }
    }

    /** Follows the links of the kids to the last one. */
    method LastKid(parent: Node) returns (last: Node?)
      requires Valid() && parent in tree
      ensures var kids := tree[parent].kids;
              last == (if kids == [] then null else kids[|kids| - 1]) && (kids != [] ==> last in tree)
    {
      ghost var kids, i := tree[parent].kids, 0;
      last := FirstKid(parent);
      if last == null { return; }
      var after := KidAfter(last, parent, i);
      while after != null
        invariant i < |kids| && last == kids[i] && after == if i + 1 < |kids| then kids[i + 1] else null
        decreases |kids| - i
      {
        last := after;
        i := i + 1;
        after := KidAfter(last, parent, i);
      }
      assert KidsOk(tree, parent);
    }

    /** The link of kid i of a node leads to kid i + 1. */
    method KidAfter(p: Node, parent: Node, ghost i: nat) returns (after: Node?)
      requires Valid() && parent in tree && i < |tree[parent].kids| && p == tree[parent].kids[i]
      ensures var kids := tree[parent].kids; after == if i + 1 < |kids| then kids[i + 1] else null
    {
      assert KidsOk(tree, parent);
      after := NextSibling(p);
    }

    method FirstKid(n: Node) returns (kid: Node?)
      requires Valid() && n in tree
      ensures var kids := tree[n].kids; kid == n.firstChild == if kids == [] then null else kids[0]
    {
      assert (n == root || HasParent(tree, n)) && StoredIn(tree, root, n) && KidsOk(tree, n);
      kid := n.firstChild;
    }

    method NextSibling(n: Node) returns (after: Node?)
      requires Valid() && n in tree && n != root
      ensures HasParent(tree, n) && after == n.next == Pointer(NextOf(tree, n))
    {
      assert HasParent(tree, n) && StoredIn(tree, root, n);
      after := n.next;
    }

    /** Reads one component of at most 31 characters and the slash after it. */
    static method Component(path: string, at: nat) returns (comp: string, p: nat)
      requires at <= |path|
      ensures var j := CompEnd(path, at, NAME_MAX);
              comp == path[at..j] && p == AfterComp(path, j)
    {
      comp, p := "", at;
      ghost var budget: nat, end := NAME_MAX, CompEnd(path, at, NAME_MAX);
      while p < |path| && path[p] != '/' && |comp| + 1 < 32
        invariant at <= p <= |path| && |comp| == p - at && |comp| + budget == NAME_MAX
        invariant comp == path[at..p] && CompEnd(path, p, budget) == end
      {
        assert path[at..p + 1] == path[at..p] + [path[p]];
        CompEndStep(path, p, budget);
        comp := comp + [path[p]];
        p, budget := p + 1, budget - 1;
      }
      assert p == end;
      if p < |path| && path[p] == '/' { p := p + 1; }
    }

    method FindChild(cur: Node, name: string) returns (child: Node?)
      requires Valid() && cur in tree
      ensures var k := Child(tree, tree[cur].kids, name, 0);
              child == (if k == |tree[cur].kids| then null else tree[cur].kids[k]) && (child != null ==> child in tree)
    {
      ghost var kids, i := tree[cur].kids, 0;
      assert StoredIn(tree, root, cur) && KidsOk(tree, cur);
      child := cur.firstChild;
      while child != null && child.name != name
        invariant i <= |kids| && child == (if i == |kids| then null else kids[i])
        invariant Child(tree, kids, name, 0) == Child(tree, kids, name, i)
        decreases |kids| - i
      {
        assert HasParent(tree, child) && StoredIn(tree, root, child);
        child := child.next;
        i := i + 1;
      }
      if child != null { assert StoredIn(tree, root, child); }
    }

    /** vfs_lookup on a C string, of which path is the part before the terminator. */
    method Lookup(path: string) returns (n: Node?)
      requires Valid()
      ensures n == Pointer(VfsTree.Lookup(tree, root, path)) && (n != null ==> n in tree)
    {
      if path == "" || path[0] != '/' { return null; }
      if |path| == 1 { return root; }
      var cur, p := root, 1;
      while p < |path|
        invariant p <= |path| && cur in tree
        invariant Resolve(tree, root, path, 1, true) == Resolve(tree, cur, path, p, true)
      {
        var comp, after := Component(path, p);
        assert StoredIn(tree, root, cur);
        if cur.kind != Dir { return null; }
        var child := FindChild(cur, comp);
        if child == null { return null; }
        cur, p := child, after;
      }
      n := cur;
    }

    /** ensure_home_file: the same walk without a look at node kinds. */
    method EnsureHomeFile(path: string) returns (n: Node?)
      requires Valid()
      ensures n == Pointer(HomeFile(tree, root, path)) && (n != null ==> n in tree)
    {
      if path == "" || path[0] != '/' { return null; }
      var cur, p := root, 1;
      while p < |path|
        invariant p <= |path| && cur in tree
        invariant Resolve(tree, root, path, 1, false) == Resolve(tree, cur, path, p, false)
      {
        var comp, after := Component(path, p);
        var child := FindChild(cur, comp);
        if child == null { return null; }
        cur, p := child, after;
      }
      n := cur;
    }

    /** vfs_path_of for a node of the tree: writes the path and its terminator. */
    method PathOf(n: Node, out: array<char>, cap: nat)
      requires Valid() && n in tree && cap <= out.Length
      modifies out
      ensures cap == 0 ==> out[..] == old(out[..])
      ensures cap > 0 ==> var s := VfsTree.PathOf(tree, root, n, cap);
                          |s| < cap && out[..|s|] == s && out[|s|] == '\0'
      ensures out[cap..] == old(out[cap..])
    {
      if cap == 0 { return; }
      if n == root {
        if cap >= 2 { out[0], out[1] := '/', '\0'; } else { out[0] := '\0'; }
        return;
      }
      var stack, names := ParentStack(n);
      var pos := WriteStack(stack, out, cap, names);
      if pos == 0 && cap >= 2 { assert false; }  // the stack is never empty here
      out[pos] := '\0';
    }

    method ParentOf(n: Node) returns (up: Node)
      requires Valid() && n in tree && n != root
      ensures HasParent(tree, n) && up == tree[n].parent.value && up in tree && n.name == tree[n].name
    {
      assert HasParent(tree, n) && StoredIn(tree, root, n);
      up := n.parent;
    }

    /** The parent of n, with one more name of the path spelled. */
    method StepUp(n: Node, ghost whole: string, ghost names: seq<string>, ghost left: nat) returns (up: Node)
      requires Valid() && n in tree && n != root && left > 0 && PathSplit(tree, root, whole, names, n, left)
      ensures up in tree && PathSplit(tree, root, whole, names + [n.name], up, left - 1)
    {
      up := ParentOf(n);
      PushPath(tree, root, whole, names, n, left);
    }

    /** n and the nodes above it, at most 16, without the root. */
    method ParentStack(n: Node) returns (stack: seq<Node>, ghost names: seq<string>)
      requires Valid() && n in tree && n != root
      ensures 0 < |stack| <= DEPTH_MAX && Labels(stack, names)
      ensures Spell(names, |names|) == LowPath(tree, root, n, DEPTH_MAX)
    {
      stack, names := [], [];
      var cur := n;
      ghost var whole, left: nat := LowPath(tree, root, n, DEPTH_MAX), DEPTH_MAX;
      SplitStart(tree, root, n, left);
      while cur != root && |stack| < DEPTH_MAX
        invariant cur in tree && |stack| + left == DEPTH_MAX && (stack == [] ==> cur == n)
        invariant Labels(stack, names)
        invariant PathSplit(tree, root, whole, names, cur, left)
        decreases left
      {
        var up := StepUp(cur, whole, names, left);
        PushLabel(stack, names, cur);
        stack, names, left := stack + [cur], names + [cur.name], left - 1;
        cur := up;
      }
      SplitEnd(tree, root, whole, names, cur, left);
    }

    static method WriteStack(stack: seq<Node>, out: array<char>, cap: nat, ghost names: seq<string>) returns (pos: nat)
      requires 0 < cap <= out.Length && Labels(stack, names)
      modifies out
      ensures pos < cap && out[..pos] == Cut(Spell(names, |names|), cap - 1)
      ensures out[cap..] == old(out[cap..])
    {
      pos := 0;
      ghost var whole, start := Spell(names, |names|), 0;
      for i := |stack| downto 0
        invariant start == SpellStart(names, i) && 0 <= start <= |whole|
        invariant pos == (if start < cap then start else cap - 1) && out[..pos] == whole[..pos]
        invariant out[cap..] == old(out[cap..])
      {
        if pos + 1 >= cap { break; }
        SpellPiece(names, i);
        pos := WriteName(stack[i], out, pos, cap, whole);
        start := start + 1 + |names[i]|;
      }
      if pos + 1 < cap { assert start == |whole|; }
    }

    /** A slash and the name of n, as far as there is room. */
    static method WriteName(n: Node, out: array<char>, at: nat, cap: nat, ghost whole: string) returns (pos: nat)
      requires cap <= out.Length && at + 1 < cap
      requires at + 1 + |n.name| <= |whole| && out[..at] == whole[..at]
      requires whole[at] == '/' && whole[at + 1..at + 1 + |n.name|] == n.name
      modifies out
      ensures pos == (if at + 1 + |n.name| < cap then at + 1 + |n.name| else cap - 1)
      ensures out[..pos] == whole[..pos]
      ensures out[cap..] == old(out[cap..])
    {
      out[at] := '/';
      pos := at + 1;
      var j := 0;
      while j < |n.name| && pos + 1 < cap
        invariant j <= |n.name| && pos == at + 1 + j < cap && out[..pos] == whole[..pos]
        invariant out[cap..] == old(out[cap..])
      {
        assert whole[pos] == whole[at + 1..at + 1 + |n.name|][j];
        out[pos] := n.name[j];
        pos := pos + 1;
        j := j + 1;
      }
    }
  }

  /** How much of the printed stack comes before the part of entries below i. */
  ghost function SpellStart(names: seq<string>, i: nat): int
    requires i <= |names|
  {
    |Spell(names, |names|)| - |Spell(names, i)|
  }

  lemma {:induction false} SpellSuffix(names: seq<string>, i: nat, k: nat)
    requires i <= k <= |names|
    ensures |Spell(names, i)| <= |Spell(names, k)|
    ensures Spell(names, k)[|Spell(names, k)| - |Spell(names, i)|..] == Spell(names, i)
    decreases k
  {
    if i < k {
      SpellSuffix(names, i, k - 1);
      var head, rest := "/" + names[k - 1], Spell(names, k - 1);
      DropConcat(head, rest, |rest| - |Spell(names, i)|);
    }
  }

  lemma DropConcat(a: string, b: string, x: nat)
    requires x <= |b|
    ensures (a + b)[|a| + x..] == b[x..]
  {}

  /** Entry i is printed where the part of the entries above it ends. */
  lemma SpellPiece(names: seq<string>, i: nat)
    requires i < |names|
    ensures var whole, at, name := Spell(names, |names|), SpellStart(names, i + 1), names[i];
            0 <= at && at + 1 + |name| == SpellStart(names, i) <= |whole| &&
            whole[at] == '/' && whole[at + 1..at + 1 + |name|] == name
  {
    SpellSuffix(names, i + 1, |names|);
    var whole, at, name := Spell(names, |names|), SpellStart(names, i + 1), names[i];
    TailPiece(whole, at, name, Spell(names, i));
  }

  lemma TailPiece(whole: string, at: nat, name: string, rest: string)
    requires at <= |whole| && whole[at..] == "/" + name + rest
    ensures at + 1 + |name| <= |whole| && whole[at] == '/' && whole[at + 1..at + 1 + |name|] == name
  {
    var tail := "/" + name + rest;
    forall j | 0 <= j < |name| ensures whole[at + 1 + j] == name[j] {
      assert whole[at..][1 + j] == tail[1 + j];
    }
    assert whole[at..][0] == tail[0];
  }

  /** The names of the nodes on the stack. */
  ghost predicate Labels(stack: seq<Node>, names: seq<string>)
    reads stack
  {
    |stack| == |names| && forall j :: 0 <= j < |stack| ==> stack[j].name == names[j]
  }

  lemma PushLabel(stack: seq<Node>, names: seq<string>, n: Node)
    requires Labels(stack, names)
    ensures Labels(stack + [n], names + [n.name])
  {}

  ghost predicate PathSplit(t: Tree<Node>, root: Node, whole: string, names: seq<string>, n: Node, k: nat)
    requires IsTree(t, root) && n in t
  {
    whole == LowPath(t, root, n, k) + Spell(names, |names|)
  }

  lemma SplitStart(t: Tree<Node>, root: Node, n: Node, k: nat)
    requires IsTree(t, root) && n in t
    ensures PathSplit(t, root, LowPath(t, root, n, k), [], n, k)
  {}

  lemma SplitEnd(t: Tree<Node>, root: Node, whole: string, names: seq<string>, n: Node, k: nat)
    requires IsTree(t, root) && n in t && PathSplit(t, root, whole, names, n, k) && (n == root || k == 0)
    ensures whole == Spell(names, |names|)
  {}

  lemma PushPath(t: Tree<Node>, root: Node, whole: string, names: seq<string>, n: Node, k: nat)
    requires IsTree(t, root) && n in t && n != root && k > 0
    requires PathSplit(t, root, whole, names, n, k)
    ensures HasParent(t, n) && PathSplit(t, root, whole, names + [t[n].name], t[n].parent.value, k - 1)
  {
    assert HasParent(t, n);
    SpellPrefix(names, t[n].name, |names|);
    var up, name, low := LowPath(t, root, t[n].parent.value, k - 1), t[n].name, Spell(names, |names|);
    assert (up + "/" + name) + low == up + ("/" + name + low);
  }

  lemma {:induction false} SpellPrefix(names: seq<string>, name: string, k: nat)
    requires k <= |names|
    ensures Spell(names + [name], k) == Spell(names, k)
  {
    if k > 0 { SpellPrefix(names, name, k - 1); }
  }
}

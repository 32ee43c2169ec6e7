/** The file tree and its path strings (src/kernel/vfs.cpp, src/kernel/diskfs.cpp). */
module VfsTree {
  import opened Common

  datatype Kind = Dir | File | Exec

  /** What a node stores, with its children in list order. The depth and the slot are not
      stored: one witnesses that parents lead to the root, the other is the position among
      the siblings. */
  datatype Info<N> = Info(name: string, kind: Kind, parent: Option<N>, kids: seq<N>, depth: nat, slot: nat)

  type Tree<N> = map<N, Info<N>>

  const NAME_MAX: nat := 31
  const DEPTH_MAX: nat := 16

  ghost predicate IsTree<N>(t: Tree<N>, root: N) {
    root in t && t[root].parent.None? && t[root].depth == 0 &&
    (forall n {:trigger HasParent(t, n)} :: n in t && n != root ==> HasParent(t, n)) &&
    (forall n {:trigger KidsOk(t, n)} :: n in t ==> KidsOk(t, n))
  }

  /** The children of n are nodes whose parent is n. */
  ghost predicate KidsOk<N>(t: Tree<N>, n: N)
    requires n in t
  {
    forall i :: 0 <= i < |t[n].kids| ==>
      t[n].kids[i] in t && t[t[n].kids[i]].parent == Some(n) && t[t[n].kids[i]].slot == i
  }

  ghost predicate HasParent<N>(t: Tree<N>, n: N)
    requires n in t
  {
    t[n].parent.Some? && t[n].parent.value in t &&
    t[n].slot < |t[t[n].parent.value].kids| && t[t[n].parent.value].kids[t[n].slot] == n &&
    t[n].depth == t[t[n].parent.value].depth + 1
  }

  /** Names are non-empty, slash-free, short, and unique among siblings. */
  ghost predicate WellNamed<N>(t: Tree<N>, root: N) {
    (forall n :: n in t && n != root ==> GoodName(t[n].name)) &&
    (forall n {:trigger UniqueKids(t, n)} :: n in t ==> UniqueKids(t, n))
  }

  ghost predicate UniqueKids<N>(t: Tree<N>, n: N)
    requires n in t
  {
    forall i, j :: 0 <= i < j < |t[n].kids| ==>
      t[n].kids[i] in t && t[n].kids[j] in t ==> t[t[n].kids[i]].name != t[t[n].kids[j]].name
  }

  predicate GoodName(name: string) { 0 < |name| <= NAME_MAX && '/' !in name }

  ghost predicate OnlyDirsHaveKids<N>(t: Tree<N>) {
    forall n :: n in t && t[n].kids != [] ==> t[n].kind == Dir
  }

  // ---------------------------------------------------------------------
  // Printing a path.
  // ---------------------------------------------------------------------

  /** The components from the root down to n; empty for the root. */
  ghost function FullPath<N>(t: Tree<N>, root: N, n: N): string
    requires IsTree(t, root) && n in t
    decreases t[n].depth
  {
    if n == root then ""
    else
      assert HasParent(t, n);
      FullPath(t, root, t[n].parent.value) + "/" + t[n].name
  }

  /** The lowest k components of the path of n. */
  ghost function LowPath<N>(t: Tree<N>, root: N, n: N, k: nat): string
    requires IsTree(t, root) && n in t
    decreases k, t[n].depth
  {
    if n == root || k == 0 then ""
    else
      assert HasParent(t, n);
      LowPath(t, root, t[n].parent.value, k - 1) + "/" + t[n].name
  }

  lemma {:induction false} LowPathIsFull<N>(t: Tree<N>, root: N, n: N, k: nat)
    requires IsTree(t, root) && n in t && t[n].depth <= k
    ensures LowPath(t, root, n, k) == FullPath(t, root, n)
    decreases k
  {
    if n != root {
      assert HasParent(t, n);
      LowPathIsFull(t, root, t[n].parent.value, k - 1);
    }
  }

  function Cut(s: string, k: nat): string { if |s| <= k then s else s[..k] }

  /** What vfs_path_of leaves in a buffer of cap bytes: the last 16 components at most, cut. */
  ghost function PathOf<N>(t: Tree<N>, root: N, n: N, cap: nat): string
    requires IsTree(t, root) && n in t && cap > 0
  {
    if n == root then Cut("/", cap - 1) else Cut(LowPath(t, root, n, DEPTH_MAX), cap - 1)
  }

  lemma {:induction false} LowPathShorter<N>(t: Tree<N>, root: N, n: N, k: nat)
    requires IsTree(t, root) && n in t && t[n].depth > k
    ensures |LowPath(t, root, n, k)| < |FullPath(t, root, n)|
    decreases k
  {
    assert HasParent(t, n);
    if k > 0 { LowPathShorter(t, root, t[n].parent.value, k - 1); }
  }

  /** The buffer holds the whole path exactly when that has at most 16 components and fits with
      its terminator. */
  lemma WholePath<N>(t: Tree<N>, root: N, n: N, cap: nat)
    requires IsTree(t, root) && n in t && n != root && cap > 0
    ensures PathOf(t, root, n, cap) == FullPath(t, root, n) <==>
            t[n].depth <= 16 && |FullPath(t, root, n)| < cap
  {
    if t[n].depth <= 16 {
      LowPathIsFull(t, root, n, DEPTH_MAX);
    } else {
      LowPathShorter(t, root, n, DEPTH_MAX);
    }
  }

  // ---------------------------------------------------------------------
  // Walking a path.
  // ---------------------------------------------------------------------

  /** Where the component at i stops: a slash, the end, or after budget characters. */
  function CompEnd(p: string, i: nat, budget: nat): (j: nat)
    requires i <= |p|
    ensures i <= j <= |p|
    ensures i < |p| && p[i] != '/' && budget > 0 ==> i < j
    decreases |p| - i
  {
    if i == |p| || p[i] == '/' || budget == 0 then i else CompEnd(p, i + 1, budget - 1)
  }

  /** Past the component and one slash. */
  function AfterComp(p: string, j: nat): nat
    requires j <= |p|
  {
    if j < |p| && p[j] == '/' then j + 1 else j
  }

  /** The first child with the given name, or |kids|. */
  function Child<N(==)>(t: Tree<N>, kids: seq<N>, name: string, i: nat): (k: nat)
    requires i <= |kids|
    ensures i <= k <= |kids|
    decreases |kids| - i
  {
    if i == |kids| || (kids[i] in t && t[kids[i]].name == name) then i else Child(t, kids, name, i + 1)
  }

  /** The node that the rest of the path, from position i, leads to from cur. */
  function Resolve<N(==)>(t: Tree<N>, cur: N, p: string, i: nat, dirsOnly: bool): Option<N>
    requires i <= |p|
    decreases |p| - i
  {
    if i == |p| then Some(cur)
    else if cur !in t || (dirsOnly && t[cur].kind != Dir) then None
    else
      var j := CompEnd(p, i, NAME_MAX);
      var k := Child(t, t[cur].kids, p[i..j], 0);
      if k == |t[cur].kids| then None
      else Resolve(t, t[cur].kids[k], p, AfterComp(p, j), dirsOnly)
  }

  function Lookup<N(==)>(t: Tree<N>, root: N, p: string): Option<N> {
    if p == "" || p[0] != '/' then None else Resolve(t, root, p, 1, true)
  }

  /** Path walking on restore, which does not look at node kinds. */
  function HomeFile<N(==)>(t: Tree<N>, root: N, p: string): Option<N> {
    if p == "" || p[0] != '/' then None else Resolve(t, root, p, 1, false)
  }

  // ---------------------------------------------------------------------
  // Walking undoes printing.
  // ---------------------------------------------------------------------

  lemma {:induction false} CompEndIs(p: string, i: nat, j: nat, budget: nat)
    requires i <= j <= |p| && j - i <= budget
    requires forall k :: i <= k < j ==> p[k] != '/'
    requires j == |p| || p[j] == '/'
    ensures CompEnd(p, i, budget) == j
    decreases j - i
  {
    if i < j { CompEndIs(p, i + 1, j, budget - 1); }
  }

  lemma {:induction false} ChildIs<N>(t: Tree<N>, kids: seq<N>, name: string, i: nat, k: nat)
    requires i <= k < |kids| && kids[k] in t && t[kids[k]].name == name
    requires forall j :: i <= j < k ==> kids[j] in t && t[kids[j]].name != name
    ensures Child(t, kids, name, i) == k
    decreases k - i
  {
    if i < k { ChildIs(t, kids, name, i + 1, k); }
  }

  /** One component of the path of n, seen from its parent. */
  lemma ResolveStep<N>(t: Tree<N>, root: N, n: N, p: string, i: nat, dirsOnly: bool)
    requires IsTree(t, root) && WellNamed(t, root) && n in t && n != root
    requires Spelled(p, i, t[n].name) && HasParent(t, n)
    requires dirsOnly ==> t[t[n].parent.value].kind == Dir
    ensures Resolve(t, t[n].parent.value, p, i, dirsOnly) ==
            Resolve(t, n, p, AfterComp(p, i + |t[n].name|), dirsOnly)
  {
    var m, name := t[n].parent.value, t[n].name;
    var j := i + |name|;
    assert HasParent(t, n);
    assert forall k :: i <= k < j ==> p[k] == p[i..j][k - i];
    CompEndIs(p, i, j, NAME_MAX);
    assert KidsOk(t, m) && UniqueKids(t, m);
    ChildIs(t, t[m].kids, name, 0, t[n].slot);
  }

  /** The name stands at position i of p, followed by a slash or the end. */
  ghost predicate Spelled(p: string, i: nat, name: string) {
    i + |name| <= |p| && p[i..i + |name|] == name && Stops(p, i + |name|)
  }

  ghost predicate Stops(p: string, j: nat) { j == |p| || (j < |p| && p[j] == '/') }

  /** A path that starts with the path of n starts with that of its parent, a slash, the name. */
  lemma FullPathParts<N>(t: Tree<N>, root: N, n: N, p: string)
    requires IsTree(t, root) && n in t && n != root
    requires FullPath(t, root, n) <= p && Stops(p, |FullPath(t, root, n)|)
    ensures t[n].parent.Some? && t[n].parent.value in t
    ensures var up := FullPath(t, root, t[n].parent.value);
            up <= p && |up| < |p| && p[|up|] == '/' && Spelled(p, |up| + 1, t[n].name) &&
            |FullPath(t, root, n)| == |up| + 1 + |t[n].name|
  {
    assert HasParent(t, n);
    var up, full := FullPath(t, root, t[n].parent.value), FullPath(t, root, n);
    assert full == up + "/" + t[n].name;
    assert p[..|full|] == full;
    assert p[..|up|] == full[..|up|] == up;
    assert p[|up|] == full[|up|] == '/';
    assert p[|up| + 1..|full|] == full[|up| + 1..] == t[n].name;
  }

  /** n and everything above it are directories. */
  ghost predicate AllDirs<N>(t: Tree<N>, root: N, n: N)
    requires IsTree(t, root) && n in t
    decreases t[n].depth
  {
    t[n].kind == Dir &&
    (n == root ||
     (assert HasParent(t, n);
      AllDirs(t, root, t[n].parent.value)))
  }

  lemma {:induction false} DirsAllTheWay<N>(t: Tree<N>, root: N, n: N)
    requires IsTree(t, root) && n in t && OnlyDirsHaveKids(t) && t[n].kids != []
    ensures AllDirs(t, root, n)
    decreases t[n].depth
  {
    if n != root {
      assert HasParent(t, n);
      DirsAllTheWay(t, root, t[n].parent.value);
    }
  }

  /** Walking a path that starts with the path of n arrives at n: the outcome of the rest
      of the walk from n is the outcome of the whole walk. */
  lemma {:induction false} ResolvePath<N>(t: Tree<N>, root: N, n: N, p: string, dirsOnly: bool, r: Option<N>)
    requires IsTree(t, root) && WellNamed(t, root) && n in t
    requires dirsOnly && n != root ==> HasParent(t, n) && AllDirs(t, root, t[n].parent.value)
    requires FullPath(t, root, n) <= p && Stops(p, |FullPath(t, root, n)|) && p != ""
    requires Resolve(t, n, p, AfterComp(p, |FullPath(t, root, n)|), dirsOnly) == r
    ensures Resolve(t, root, p, 1, dirsOnly) == r
    decreases t[n].depth
  {
    if n != root {
      ResolveHop(t, root, n, p, dirsOnly, r);
      ResolvePath(t, root, t[n].parent.value, p, dirsOnly, r);
    }
  }

  /** The last step of the walk to n. */
  lemma ResolveHop<N>(t: Tree<N>, root: N, n: N, p: string, dirsOnly: bool, r: Option<N>)
    requires IsTree(t, root) && WellNamed(t, root) && n in t && n != root
    requires FullPath(t, root, n) <= p && Stops(p, |FullPath(t, root, n)|)
    requires dirsOnly ==> HasParent(t, n) && t[t[n].parent.value].kind == Dir
    requires Resolve(t, n, p, AfterComp(p, |FullPath(t, root, n)|), dirsOnly) == r
    ensures HasParent(t, n)
    ensures var m := t[n].parent.value;
            FullPath(t, root, m) <= p && Stops(p, |FullPath(t, root, m)|) &&
            Resolve(t, m, p, AfterComp(p, |FullPath(t, root, m)|), dirsOnly) == r
  {
    assert HasParent(t, n);
    FullPathParts(t, root, n, p);
    HopAt(t, root, n, p, |FullPath(t, root, t[n].parent.value)|, |FullPath(t, root, n)|, dirsOnly, r);
  }

  lemma HopAt<N>(t: Tree<N>, root: N, n: N, p: string, up: nat, full: nat, dirsOnly: bool, r: Option<N>)
    requires IsTree(t, root) && WellNamed(t, root) && n in t && n != root && HasParent(t, n)
    requires up < full <= |p| && p[up] == '/' && full == up + 1 + |t[n].name| && Spelled(p, up + 1, t[n].name)
    requires dirsOnly ==> t[t[n].parent.value].kind == Dir
    requires Resolve(t, n, p, AfterComp(p, full), dirsOnly) == r
    ensures Resolve(t, t[n].parent.value, p, AfterComp(p, up), dirsOnly) == r
  {
    ResolveStep(t, root, n, p, up + 1, dirsOnly);
  }

  lemma {:induction false} FullPathHead<N>(t: Tree<N>, root: N, n: N)
    requires IsTree(t, root) && n in t && n != root
    ensures |FullPath(t, root, n)| > 0 && FullPath(t, root, n)[0] == '/'
    decreases t[n].depth
  {
    assert HasParent(t, n);
    if t[n].parent.value != root { FullPathHead(t, root, t[n].parent.value); }
  }

  /** Looking up the printed path of a node finds the node. */
  lemma LookupPathOf<N>(t: Tree<N>, root: N, n: N, cap: nat)
    requires IsTree(t, root) && WellNamed(t, root) && n in t && cap >= 2
    requires t[n].depth <= DEPTH_MAX && |FullPath(t, root, n)| < cap
    ensures HomeFile(t, root, PathOf(t, root, n, cap)) == Some(n)
    ensures OnlyDirsHaveKids(t) ==> Lookup(t, root, PathOf(t, root, n, cap)) == Some(n)
  {
    if n != root {
      LowPathIsFull(t, root, n, DEPTH_MAX);
      FullPathHead(t, root, n);
      ResolvePath(t, root, n, FullPath(t, root, n), false, Some(n));
      if OnlyDirsHaveKids(t) {
        assert HasParent(t, n);
        DirsAllTheWay(t, root, t[n].parent.value);
        ResolvePath(t, root, n, FullPath(t, root, n), true, Some(n));
      }
    }
  }

  /** Distinct nodes have distinct paths. */
  lemma PathsDiffer<N>(t: Tree<N>, root: N, n: N, m: N, cap: nat)
    requires IsTree(t, root) && WellNamed(t, root) && n in t && m in t && cap >= 2
    requires t[n].depth <= DEPTH_MAX && |FullPath(t, root, n)| < cap
    requires t[m].depth <= DEPTH_MAX && |FullPath(t, root, m)| < cap
    ensures PathOf(t, root, n, cap) == PathOf(t, root, m, cap) <==> n == m
  {
    LookupPathOf(t, root, n, cap);
    LookupPathOf(t, root, m, cap);
  }

  // ---------------------------------------------------------------------
  // Every path string leads where its components say, or nowhere.
  // ---------------------------------------------------------------------

  /** The components from position i on, each with a slash before it. A component ends at a slash,
      at the end, or after 31 characters; one slash at the end of the path is dropped. */
  function Canon(p: string, i: nat): string
    requires i <= |p|
    decreases |p| - i
  {
    if i == |p| then ""
    else
      var j := CompEnd(p, i, NAME_MAX);
      "/" + p[i..j] + Canon(p, AfterComp(p, j))
  }

  lemma CompEndStops(p: string, i: nat, budget: nat)
    requires i <= |p|
    ensures var j := CompEnd(p, i, budget);
            j <= i + budget && (forall k :: i <= k < j ==> p[k] != '/') &&
            (j == |p| || p[j] == '/' || j == i + budget)
    decreases |p| - i
  {
    if i < |p| && p[i] != '/' && budget > 0 { CompEndStops(p, i + 1, budget - 1); }
  }

  /** Every node above n is a directory. */
  ghost predicate DirsAbove<N>(t: Tree<N>, root: N, n: N)
    requires IsTree(t, root) && n in t
  {
    n == root ||
    (assert HasParent(t, n);
     AllDirs(t, root, t[n].parent.value))
  }

  lemma SamePathSameNode<N>(t: Tree<N>, root: N, n: N, m: N)
    requires IsTree(t, root) && WellNamed(t, root) && n in t && m in t && FullPath(t, root, n) == FullPath(t, root, m)
    ensures n == m
  {
    if n != root {
      FullPathHead(t, root, n);
      ResolvePath(t, root, n, FullPath(t, root, n), false, Some(n));
      if m != root { ResolvePath(t, root, m, FullPath(t, root, m), false, Some(m)); }
    } else if m != root {
      FullPathHead(t, root, m);
    }
  }

  /** A path that continues that of cur with a slash belongs to a node below a child of cur. */
  lemma {:induction false} BelowChild<N>(t: Tree<N>, root: N, cur: N, n: N) returns (c: N)
    requires IsTree(t, root) && WellNamed(t, root) && cur in t && n in t
    requires var p, q := FullPath(t, root, cur), FullPath(t, root, n); p < q && q[|p|] == '/'
    ensures c in t && c != root && t[c].parent == Some(cur)
    ensures FullPath(t, root, c) <= FullPath(t, root, n) && Stops(FullPath(t, root, n), |FullPath(t, root, c)|)
    ensures DirsAbove(t, root, n) ==> t[cur].kind == Dir
    decreases t[n].depth
  {
    assert HasParent(t, n);
    var m := t[n].parent.value;
    var p, up, q := FullPath(t, root, cur), FullPath(t, root, m), FullPath(t, root, n);
    assert q == up + "/" + t[n].name;
    assert forall k :: |up| < k < |q| ==> q[k] == t[n].name[k - |up| - 1];
    assert |p| <= |up|;
    if |p| == |up| {
      assert p == q[..|p|] == up;
      SamePathSameNode(t, root, cur, m);
      c := n;
    } else {
      assert up == q[..|up|] && p == up[..|p|] && up[|p|] == q[|p|];
      c := BelowChild(t, root, cur, m);
      assert q[|up|] == '/';
    }
  }

  /** The first component after the path of cur is the name of a child of cur. */
  lemma FirstComponent<N>(t: Tree<N>, root: N, cur: N, n: N, name: string, rest: string) returns (c: N)
    requires IsTree(t, root) && WellNamed(t, root) && cur in t && n in t && '/' !in name
    requires FullPath(t, root, n) == FullPath(t, root, cur) + ("/" + name + rest) && (rest == "" || rest[0] == '/')
    ensures c in t && c != root && t[c].parent == Some(cur) && t[c].name == name
    ensures DirsAbove(t, root, n) ==> t[cur].kind == Dir
  {
    var p, q := FullPath(t, root, cur), FullPath(t, root, n);
    assert q[|p|] == '/';
    c := BelowChild(t, root, cur, n);
    assert HasParent(t, c);
    var x := t[c].name;
    var full := FullPath(t, root, c);
    assert full == p + "/" + x;
    var tail := q[|full|..];
    assert q == p + ("/" + x + tail);
    SameTail(p, "/" + x + tail, "/" + name + rest);
    assert "/" + x + tail == "/" + (x + tail) && "/" + name + rest == "/" + (name + rest);
    SameTail("/", x + tail, name + rest);
    FirstWord(x, tail, name, rest);
  }

  lemma SameTail(p: string, a: string, b: string)
    requires p + a == p + b
    ensures a == b
  {
    assert (p + a)[|p|..] == a && (p + b)[|p|..] == b;
  }

  lemma FirstWord(x: string, tail: string, name: string, rest: string)
    requires x + tail == name + rest && '/' !in x && '/' !in name
    requires (tail == "" || tail[0] == '/') && (rest == "" || rest[0] == '/')
    ensures x == name
  {
    var w := x + tail;
    assert forall k :: 0 <= k < |x| ==> w[k] == x[k];
    assert w == name + rest && forall k :: 0 <= k < |name| ==> w[k] == name[k];
    CompEndIs(w, 0, |x|, |w|);
    CompEndIs(w, 0, |name|, |w|);
    assert w[..|x|] == x && w[..|name|] == name;
  }

  lemma CanonHead(p: string, i: nat)
    requires i <= |p|
    ensures Canon(p, i) == "" || Canon(p, i)[0] == '/'
  {}

  lemma ChildNamed<N>(t: Tree<N>, root: N, cur: N, name: string, k: nat)
    requires IsTree(t, root) && cur in t && k == Child(t, t[cur].kids, name, 0)
    ensures k < |t[cur].kids| ==>
      var c := t[cur].kids[k];
      c in t && c != root && t[c].parent == Some(cur) && t[c].name == name && HasParent(t, c)
    ensures k == |t[cur].kids| ==> forall c :: c in t && c != root && t[c].parent == Some(cur) ==> t[c].name != name
  {
    assert KidsOk(t, cur);
    ChildFound(t, t[cur].kids, name, 0);
    if k == |t[cur].kids| {
      forall c | c in t && c != root && t[c].parent == Some(cur) ensures t[c].name != name {
        assert HasParent(t, c);
        assert t[cur].kids[t[c].slot] == c;
      }
    }
  }

  lemma {:induction false} ChildFound<N>(t: Tree<N>, kids: seq<N>, name: string, i: nat)
    requires i <= |kids|
    ensures var k := Child(t, kids, name, i);
            (k < |kids| ==> kids[k] in t && t[kids[k]].name == name) &&
            forall j :: i <= j < k ==> !(kids[j] in t && t[kids[j]].name == name)
    decreases |kids| - i
  {
    if i < |kids| && !(kids[i] in t && t[kids[i]].name == name) { ChildFound(t, kids, name, i + 1); }
  }

  /** A node that the components from cur lead to is reached through a child of cur. */
  lemma NeedsChild<N>(t: Tree<N>, root: N, cur: N, p: string, i: nat, dirsOnly: bool, n: N, name: string, k: nat)
    requires IsTree(t, root) && WellNamed(t, root) && cur in t && i < |p|
    requires name == p[i..CompEnd(p, i, NAME_MAX)] && k == Child(t, t[cur].kids, name, 0)
    requires n in t && FullPath(t, root, n) == FullPath(t, root, cur) + Canon(p, i) && (dirsOnly ==> DirsAbove(t, root, n))
    ensures k < |t[cur].kids| && (dirsOnly ==> t[cur].kind == Dir)
  {
    var j := CompEnd(p, i, NAME_MAX);
    CompEndStops(p, i, NAME_MAX);
    CanonHead(p, AfterComp(p, j));
    CanonStep(p, i, j, AfterComp(p, j), Canon(p, AfterComp(p, j)));
    var c := FirstComponent(t, root, cur, n, name, Canon(p, AfterComp(p, j)));
    ChildNamed(t, root, cur, name, k);
  }

  /** The walk from cur over the rest of p arrives at n if and only if the components lead from
      the path of cur to that of n. */
  lemma {:induction false} ResolveExact<N>(t: Tree<N>, root: N, cur: N, p: string, i: nat, dirsOnly: bool, n: N)
    requires IsTree(t, root) && WellNamed(t, root) && cur in t && i <= |p| && (dirsOnly ==> DirsAbove(t, root, cur))
    ensures Resolve(t, cur, p, i, dirsOnly) == Some(n) <==>
            n in t && FullPath(t, root, n) == FullPath(t, root, cur) + Canon(p, i) && (dirsOnly ==> DirsAbove(t, root, n))
    decreases |p| - i
  {
    if i == |p| {
      assert FullPath(t, root, cur) + Canon(p, i) == FullPath(t, root, cur);
      if n in t && FullPath(t, root, n) == FullPath(t, root, cur) { SamePathSameNode(t, root, n, cur); }
    } else {
      var j := CompEnd(p, i, NAME_MAX);
      var k := Child(t, t[cur].kids, p[i..j], 0);
      if n in t && FullPath(t, root, n) == FullPath(t, root, cur) + Canon(p, i) && (dirsOnly ==> DirsAbove(t, root, n)) {
        NeedsChild(t, root, cur, p, i, dirsOnly, n, p[i..j], k);
      }
      if k < |t[cur].kids| && (dirsOnly ==> t[cur].kind == Dir) {
        ChildPath(t, root, cur, p, i, k);
        ResolveExact(t, root, t[cur].kids[k], p, AfterComp(p, j), dirsOnly, n);
      }
    }
  }

  lemma ChildPath<N>(t: Tree<N>, root: N, cur: N, p: string, i: nat, k: nat)
    requires IsTree(t, root) && cur in t && i < |p|
    requires k < |t[cur].kids| && k == Child(t, t[cur].kids, p[i..CompEnd(p, i, NAME_MAX)], 0)
    ensures var c := t[cur].kids[k];
            c in t && (DirsAbove(t, root, cur) && t[cur].kind == Dir ==> DirsAbove(t, root, c)) &&
            FullPath(t, root, c) + Canon(p, AfterComp(p, CompEnd(p, i, NAME_MAX))) == FullPath(t, root, cur) + Canon(p, i)
  {
    var j := CompEnd(p, i, NAME_MAX);
    var name, rest := p[i..j], Canon(p, AfterComp(p, j));
    ChildNamed(t, root, cur, name, k);
    CanonStep(p, i, j, AfterComp(p, j), rest);
    Extend(FullPath(t, root, cur), name, rest, FullPath(t, root, t[cur].kids[k]), Canon(p, i));
  }

  lemma Extend(path: string, name: string, rest: string, below: string, canon: string)
    requires below == path + "/" + name && canon == "/" + name + rest
    ensures below + rest == path + canon
  {}

  /** For every string: a lookup gives n if and only if the components spell the path of n and
      all nodes above n are directories; the restore walk does not look at kinds. So a path that
      names no node gives nothing. */
  lemma LookupExact<N>(t: Tree<N>, root: N, p: string, n: N)
    requires IsTree(t, root) && WellNamed(t, root)
    ensures Lookup(t, root, p) == Some(n) <==>
            |p| > 0 && p[0] == '/' && n in t && Canon(p, 1) == FullPath(t, root, n) && DirsAbove(t, root, n)
    ensures HomeFile(t, root, p) == Some(n) <==>
            |p| > 0 && p[0] == '/' && n in t && Canon(p, 1) == FullPath(t, root, n)
  {
    if |p| > 0 && p[0] == '/' {
      ResolveExact(t, root, root, p, 1, true, n);
      ResolveExact(t, root, root, p, 1, false, n);
      assert FullPath(t, root, root) + Canon(p, 1) == Canon(p, 1);
    }
  }

  /** No component is longer than a name: there is a slash in every stretch of 32 characters. */
  ghost predicate ShortComponents(p: string) {
    forall i: nat {:trigger SlashSoon(p, i)} :: i + NAME_MAX < |p| ==> SlashSoon(p, i)
  }

  predicate SlashSoon(p: string, i: nat)
    requires i + NAME_MAX < |p|
  {
    exists k :: i <= k <= i + NAME_MAX && p[k] == '/'
  }

  lemma ShortEnd(p: string, i: nat, j: nat)
    requires i <= |p| && j == CompEnd(p, i, NAME_MAX) && ShortComponents(p)
    ensures j == |p| || p[j] == '/'
  {
    CompEndStops(p, i, NAME_MAX);
    if i + NAME_MAX < |p| { assert SlashSoon(p, i); }
  }

  /** Then the components from i on, one at least, are the path itself but for a last slash. */
  lemma {:induction false} CanonShort(p: string, i: nat, slash: bool)
    requires i < |p| && ShortComponents(p) && slash == (p[|p| - 1] == '/')
    ensures "/" + p[i..] == if slash then Canon(p, i) + "/" else Canon(p, i)
    decreases |p| - i
  {
    var j := CompEnd(p, i, NAME_MAX);
    ShortEnd(p, i, j);
    var k := AfterComp(p, j);
    var rest := Canon(p, k);
    if k < |p| { CanonShort(p, k, slash); }
    CanonStep(p, i, j, k, rest);
    LastPart(p, i, j, k, rest, slash);
    Glue(p, i, j, rest, slash, Canon(p, i));
  }

  lemma LastPart(p: string, i: nat, j: nat, k: nat, rest: string, slash: bool)
    requires i < |p| && j == CompEnd(p, i, NAME_MAX) && (j == |p| || p[j] == '/') && slash == (p[|p| - 1] == '/')
    requires k == AfterComp(p, j) <= |p| && (k == |p| ==> rest == "")
    requires k < |p| ==> "/" + p[k..] == if slash then rest + "/" else rest
    ensures p[j..] == if slash then rest + "/" else rest
  {
    if j == |p| { LastIsOpen(p, i); } else { assert p[j..] == "/" + p[k..]; }
  }

  lemma Glue(p: string, i: nat, j: nat, rest: string, slash: bool, canon: string)
    requires i <= j <= |p| && p[j..] == if slash then rest + "/" else rest
    requires canon == "/" + p[i..j] + rest
    ensures "/" + p[i..] == if slash then canon + "/" else canon
  {
    assert p[i..] == p[i..j] + p[j..];
  }

  lemma CanonStep(p: string, i: nat, j: nat, k: nat, rest: string)
    requires i < |p| && j == CompEnd(p, i, NAME_MAX) && k == AfterComp(p, j) <= |p| && rest == Canon(p, k)
    ensures Canon(p, i) == "/" + p[i..j] + rest
  {}

  lemma LastIsOpen(p: string, i: nat)
    requires i < |p| && CompEnd(p, i, NAME_MAX) == |p|
    ensures p[|p| - 1] != '/'
  {
    CompEndStops(p, i, NAME_MAX);
  }

  lemma {:induction false} FullPathTail<N>(t: Tree<N>, root: N, n: N)
    requires IsTree(t, root) && WellNamed(t, root) && n in t && n != root
    ensures |FullPath(t, root, n)| > 1 && FullPath(t, root, n)[|FullPath(t, root, n)| - 1] != '/'
  {
    assert HasParent(t, n);
    var full, name := FullPath(t, root, n), t[n].name;
    assert GoodName(name) && full[|full| - 1] == name[|name| - 1];
  }

  /** So a path without long components leads to n exactly when it is the printed path of n, with
      or without a slash at its end (the root's is the slash alone). */
  lemma LookupShort<N>(t: Tree<N>, root: N, p: string, n: N)
    requires IsTree(t, root) && WellNamed(t, root) && n in t && ShortComponents(p)
    ensures Lookup(t, root, p) == Some(n) <==>
            p != "" && p in {FullPath(t, root, n), FullPath(t, root, n) + "/"} && DirsAbove(t, root, n)
    ensures HomeFile(t, root, p) == Some(n) <==>
            p != "" && p in {FullPath(t, root, n), FullPath(t, root, n) + "/"}
  {
    LookupExact(t, root, p, n);
    if n != root { FullPathHead(t, root, n); FullPathTail(t, root, n); }
    if |p| > 1 && p[0] == '/' { CanonShort(p, 1, p[|p| - 1] == '/'); }
    ShortIs(p, FullPath(t, root, n), if |p| > 0 then Canon(p, 1) else "");
  }

  lemma ShortIs(p: string, full: string, canon: string)
    requires full != "" ==> |full| > 1 && full[0] == '/' && full[|full| - 1] != '/'
    requires |p| <= 1 ==> canon == ""
    requires |p| > 1 && p[0] == '/' ==> "/" + p[1..] == if p[|p| - 1] == '/' then canon + "/" else canon
    ensures |p| > 0 && p[0] == '/' && canon == full <==> p != "" && (p == full || p == full + "/")
  {
    if |p| > 1 && p[0] == '/' {
      assert p == "/" + p[1..];
      CanonIs(p, canon, full);
    }
  }

  lemma CanonIs(p: string, canon: string, full: string)
    requires |p| > 1 && p == (if p[|p| - 1] == '/' then canon + "/" else canon)
    requires full != "" ==> full[|full| - 1] != '/'
    ensures canon == full <==> p == full || p == full + "/"
  {
    assert (canon + "/")[..|canon|] == canon && (full + "/")[..|full|] == full;
  }

  // ---------------------------------------------------------------------
  // The two ways of walking agree exactly when only directories have children.
  // ---------------------------------------------------------------------

  lemma {:induction false} ResolveAgrees<N>(t: Tree<N>, root: N, cur: N, p: string, i: nat)
    requires IsTree(t, root) && OnlyDirsHaveKids(t) && cur in t && i <= |p|
    ensures Resolve(t, cur, p, i, true) == Resolve(t, cur, p, i, false)
    decreases |p| - i
  {
    if i < |p| {
      assert KidsOk(t, cur);
      var j := CompEnd(p, i, NAME_MAX);
      var k := Child(t, t[cur].kids, p[i..j], 0);
      if k < |t[cur].kids| { ResolveAgrees(t, root, t[cur].kids[k], p, AfterComp(p, j)); }
    }
  }

  /** A walk that looks at kinds does not get past a node that is no directory. */
  lemma {:induction false} ResolveBlocked<N>(t: Tree<N>, root: N, n: N, p: string)
    requires IsTree(t, root) && WellNamed(t, root) && n in t && !AllDirs(t, root, n)
    requires FullPath(t, root, n) <= p && |p| > |FullPath(t, root, n)| + 1 && p[|FullPath(t, root, n)|] == '/'
    ensures Resolve(t, root, p, 1, true).None?
    decreases t[n].depth
  {
    if n != root {
      FullPathParts(t, root, n, p);
      assert HasParent(t, n);
      if !AllDirs(t, root, t[n].parent.value) {
        ResolveBlocked(t, root, t[n].parent.value, p);
        return;
      }
    }
    ResolvePath(t, root, n, p, true, None);
  }

  lemma WalksAgree<N>(t: Tree<N>, root: N)
    requires IsTree(t, root) && WellNamed(t, root)
    ensures (forall p :: HomeFile(t, root, p) == Lookup(t, root, p)) <==> OnlyDirsHaveKids(t)
  {
    if OnlyDirsHaveKids(t) {
      forall p ensures HomeFile(t, root, p) == Lookup(t, root, p) {
        if p != "" { ResolveAgrees(t, root, root, p, 1); }
      }
    } else {
      var n :| n in t && t[n].kids != [] && t[n].kind != Dir;
      var kid := t[n].kids[0];
      NotRoot(t, root, n);
      assert HasParent(t, kid);
      var p := FullPath(t, root, kid);
      FullPathHead(t, root, kid);
      FullPathParts(t, root, kid, p);
      ResolveBlocked(t, root, n, p);
      ResolvePath(t, root, kid, p, false, Some(kid));
      assert HomeFile(t, root, p) != Lookup(t, root, p);
    }
  }

  /** A child is never the root. */
  lemma NotRoot<N>(t: Tree<N>, root: N, n: N)
    requires IsTree(t, root) && n in t && t[n].kids != []
    ensures t[n].kids[0] in t && t[n].kids[0] != root && t[t[n].kids[0]].parent == Some(n)
  {
    assert KidsOk(t, n);
  }

  /** The sibling after n, and the first child of n. */
  ghost function NextOf<N>(t: Tree<N>, n: N): Option<N>
    requires n in t && HasParent(t, n)
  {
    var siblings := t[t[n].parent.value].kids;
    if t[n].slot + 1 < |siblings| then Some(siblings[t[n].slot + 1]) else None
  }

  ghost function FirstOf<N>(t: Tree<N>, n: N): Option<N>
    requires n in t
  {
    if t[n].kids == [] then None else Some(t[n].kids[0])
  }

  /** The tree with a new last child n under parent. */
  function WithChild<N>(t: Tree<N>, parent: N, n: N, name: string, kind: Kind): Tree<N>
    requires parent in t
  {
    t[parent := t[parent].(kids := t[parent].kids + [n])]
     [n := Info(name, kind, Some(parent), [], t[parent].depth + 1, |t[parent].kids|)]
  }

  /** The links that a new last child changes. */
  lemma WithChildLinks<N>(t: Tree<N>, root: N, parent: N, n: N, name: string, kind: Kind, m: N)
    requires IsTree(t, root) && parent in t && n !in t && m in t
    ensures var t', kids := WithChild(t, parent, n, name, kind), t[parent].kids;
            FirstOf(t', m) == (if m == parent && kids == [] then Some(n) else FirstOf(t, m)) &&
            (m != root ==>
              HasParent(t, m) && HasParent(t', m) &&
              NextOf(t', m) == if kids != [] && m == kids[|kids| - 1] then Some(n) else NextOf(t, m))
  {
    assert KidsOk(t, parent);
    if m != root { assert HasParent(t, m); }
  }

  lemma WithChildIsTree<N>(t: Tree<N>, root: N, parent: N, n: N, name: string, kind: Kind)
    requires IsTree(t, root) && parent in t && n !in t
    ensures IsTree(WithChild(t, parent, n, name, kind), root)
  {
    var t' := WithChild(t, parent, n, name, kind);
    assert t'[parent].kids[|t[parent].kids|] == n;
    forall m | m in t' ensures KidsOk(t', m) {
      if m in t { assert KidsOk(t, m); }
    }
    forall m | m in t' && m != root ensures HasParent(t', m) {
      if m in t {
        assert HasParent(t, m);
      }
    }
  }
}

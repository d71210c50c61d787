/// The names of the file system without their bytes: what every inode is, and the rooted
/// tree that the directories form.

module Namespace {
  import opened Wrappers
  import opened DirEntries

  const ROOT: nat := 1

  /// A directory is what "." and ".." name and the other entries. Garbled is a live
  /// directory whose slots are no such thing.
  datatype Node = Free | File | Folder(self: Target, parent: Target, kids: map<Name, Target>) | Garbled

  type Nodes = seq<Node>

  /// Parent and name of every attached inode but the root, and its depth.
  datatype Tree = Tree(up: map<nat, (nat, Name)>, depth: map<nat, nat>)

  ghost predicate Attached(t: Tree, n: nat) {
    n == ROOT || n in t.up
  }

  ghost function ParentOf(t: Tree, n: nat): nat {
    if n in t.up then t.up[n].0 else ROOT
  }

  ghost function Depth(t: Tree, n: nat): nat {
    if n in t.depth then t.depth[n] else 0
  }

  predicate IsDot(name: Name) {
    name == DOT || name == DOTDOT
  }

  predicate IsFolder(ns: Nodes, n: nat) {
    n < |ns| && ns[n].Folder?
  }

  function KindOf(node: Node): nat {
    if node.Folder? then 2 else 1
  }

  /// An attached directory names itself and its parent, and every other entry is the one
  /// link to an attached inode and says what kind that inode is.
  ghost predicate FolderOk(ns: Nodes, t: Tree, p: nat)
    requires IsFolder(ns, p)
  {
    var m := ns[p].kids;
    && ns[p].self == Target(p, 2)
    && ns[p].parent == Target(ParentOf(t, p), 2)
    && forall name | name in m ::
        && m[name].ino in t.up && t.up[m[name].ino] == (p, name)
        && m[name].ino < |ns| && m[name].kind == KindOf(ns[m[name].ino])
  }

  /// An attached inode other than the root is listed by its parent, which is less deep.
  ghost predicate LinkOk(ns: Nodes, t: Tree, c: nat)
    requires c in t.up
  {
    var (p, name) := t.up[c];
    && Attached(t, p) && IsFolder(ns, p)
    && name in ns[p].kids && ns[p].kids[name].ino == c
    && Depth(t, c) == Depth(t, p) + 1
  }

  ghost predicate TreeOk(ns: Nodes, t: Tree) {
    && ROOT !in t.up && t.depth.Keys == t.up.Keys && IsFolder(ns, ROOT)
    && (forall n: nat | Attached(t, n) :: n < |ns| && (ns[n].File? || ns[n].Folder?))
    && (forall p: nat {:trigger FolderOk(ns, t, p)} | Attached(t, p) && IsFolder(ns, p) :: FolderOk(ns, t, p))
    && (forall c: nat {:trigger LinkOk(ns, t, c)} | c in t.up :: LinkOk(ns, t, c))
  }

  ghost function Link(t: Tree, p: nat, name: Name, c: nat): Tree {
    Tree(t.up[c := (p, name)], t.depth[c := Depth(t, p) + 1])
  }

  ghost function Cut(t: Tree, c: nat): Tree {
    Tree(t.up - {c}, t.depth - {c})
  }

  /// Changing a detached inode does not concern the tree.
  lemma TreeDetached(ns: Nodes, t: Tree, c: nat, node: Node)
    requires TreeOk(ns, t) && c < |ns| && !Attached(t, c)
    ensures TreeOk(ns[c := node], t)
  {
    hide FolderOk, LinkOk;
    var ns' := ns[c := node];
    forall p: nat | Attached(t, p) && IsFolder(ns', p)
      ensures FolderOk(ns', t, p)
    {
      FolderKept(ns, t, c, node, p);
    }
    forall x: nat | x in t.up
      ensures LinkOk(ns', t, x)
    {
      LinkKept(ns, t, c, node, x);
    }
  }

  lemma FolderKept(ns: Nodes, t: Tree, c: nat, node: Node, p: nat)
    requires TreeOk(ns, t) && c < |ns| && !Attached(t, c) && Attached(t, p) && IsFolder(ns, p)
    ensures FolderOk(ns[c := node], t, p)
  {
    assert FolderOk(ns, t, p);
  }

  lemma LinkKept(ns: Nodes, t: Tree, c: nat, node: Node, x: nat)
    requires TreeOk(ns, t) && c < |ns| && !Attached(t, c) && x in t.up
    ensures LinkOk(ns[c := node], t, x)
  {
    assert LinkOk(ns, t, x);
  }

  // ---------- entering a name ----------

  ghost function Enter(ns: Nodes, p: nat, name: Name, c: nat): Nodes
    requires IsFolder(ns, p) && c < |ns|
  {
    ns[p := ns[p].(kids := ns[p].kids[name := Target(c, KindOf(ns[c]))])]
  }

  /// Inode c may be entered under this free name of p: it is detached, and a file or a
  /// directory with nothing but its two dots.
  ghost predicate Enterable(ns: Nodes, t: Tree, p: nat, name: Name, c: nat) {
    && TreeOk(ns, t) && Attached(t, p) && IsFolder(ns, p) && name !in ns[p].kids
    && c < |ns| && !Attached(t, c)
    && (ns[c].File? || ns[c] == Folder(Target(c, 2), Target(p, 2), map[]))
  }

  lemma EnterKeepsFolder(ns: Nodes, t: Tree, p: nat, name: Name, c: nat, x: nat)
    requires Enterable(ns, t, p, name, c)
    requires Attached(Link(t, p, name, c), x) && IsFolder(Enter(ns, p, name, c), x)
    ensures FolderOk(Enter(ns, p, name, c), Link(t, p, name, c), x)
  {
    if x != c {
      assert FolderOk(ns, t, x);
    }
  }

  lemma EnterKeepsLink(ns: Nodes, t: Tree, p: nat, name: Name, c: nat, x: nat)
    requires Enterable(ns, t, p, name, c) && x in Link(t, p, name, c).up
    ensures LinkOk(Enter(ns, p, name, c), Link(t, p, name, c), x)
  {
    if x != c {
      assert LinkOk(ns, t, x);
    }
  }

  lemma TreeEnter(ns: Nodes, t: Tree, p: nat, name: Name, c: nat)
    requires Enterable(ns, t, p, name, c)
    ensures TreeOk(Enter(ns, p, name, c), Link(t, p, name, c))
  {
    hide FolderOk, LinkOk;
    var ns', t' := Enter(ns, p, name, c), Link(t, p, name, c);
    assert forall x: nat :: Attached(t', x) <==> x == c || Attached(t, x);
    forall x: nat | Attached(t', x) && IsFolder(ns', x)
      ensures FolderOk(ns', t', x)
    {
      EnterKeepsFolder(ns, t, p, name, c, x);
    }
    forall x: nat | x in t'.up
      ensures LinkOk(ns', t', x)
    {
      EnterKeepsLink(ns, t, p, name, c, x);
    }
  }

  // ---------- removing a name ----------

  ghost function Remove(ns: Nodes, p: nat, name: Name, node: Node): Nodes
    requires IsFolder(ns, p) && name in ns[p].kids && ns[p].kids[name].ino < |ns|
  {
    ns[p := ns[p].(kids := ns[p].kids - {name})][ns[p].kids[name].ino := node]
  }

  /// The name leads to a file or to an empty directory.
  ghost predicate Removable(ns: Nodes, t: Tree, p: nat, name: Name) {
    && TreeOk(ns, t) && Attached(t, p) && IsFolder(ns, p) && name in ns[p].kids
    && ns[p].kids[name].ino < |ns|
    && (IsFolder(ns, ns[p].kids[name].ino) ==> ns[ns[p].kids[name].ino].kids == map[])
  }

  lemma RemovedIsLeaf(ns: Nodes, t: Tree, p: nat, name: Name)
    requires Removable(ns, t, p, name)
    ensures var c := ns[p].kids[name].ino;
      && c in t.up && t.up[c] == (p, name) && c != p
      && forall x | x in t.up :: t.up[x].0 != c
  {
    assert FolderOk(ns, t, p);
    var c := ns[p].kids[name].ino;
    assert LinkOk(ns, t, c);
    forall x | x in t.up
      ensures t.up[x].0 != c
    {
      assert LinkOk(ns, t, x);
    }
  }

  lemma RemoveKeepsFolder(ns: Nodes, t: Tree, p: nat, name: Name, node: Node, x: nat)
    requires Removable(ns, t, p, name)
    requires var c := ns[p].kids[name].ino;
      x != c && Attached(t, x) && IsFolder(Remove(ns, p, name, node), x)
    ensures FolderOk(Remove(ns, p, name, node), Cut(t, ns[p].kids[name].ino), x)
  {
    RemovedIsLeaf(ns, t, p, name);
    assert FolderOk(ns, t, x);
  }

  lemma RemoveKeepsLink(ns: Nodes, t: Tree, p: nat, name: Name, node: Node, x: nat)
    requires Removable(ns, t, p, name)
    requires x in t.up && x != ns[p].kids[name].ino
    ensures LinkOk(Remove(ns, p, name, node), Cut(t, ns[p].kids[name].ino), x)
  {
    RemovedIsLeaf(ns, t, p, name);
    assert LinkOk(ns, t, x);
  }

  /// Whatever becomes of the inode itself.
  lemma TreeRemove(ns: Nodes, t: Tree, p: nat, name: Name, node: Node)
    requires Removable(ns, t, p, name)
    ensures TreeOk(Remove(ns, p, name, node), Cut(t, ns[p].kids[name].ino))
  {
    hide FolderOk, LinkOk;
    var c := ns[p].kids[name].ino;
    var ns', t' := Remove(ns, p, name, node), Cut(t, c);
    RemovedIsLeaf(ns, t, p, name);
    assert forall x: nat :: Attached(t', x) <==> x != c && Attached(t, x);
    forall x: nat | Attached(t', x) && IsFolder(ns', x)
      ensures FolderOk(ns', t', x)
    {
      RemoveKeepsFolder(ns, t, p, name, node, x);
    }
    forall x: nat | x in t'.up
      ensures LinkOk(ns', t', x)
    {
      RemoveKeepsLink(ns, t, p, name, node, x);
    }
  }

  // ---------- paths ----------

  /// What a name in inode n leads to; only directories have names.
  function Step(ns: Nodes, n: nat, name: Name): Option<nat> {
    if !IsFolder(ns, n) then None
    else if name == DOT then Some(ns[n].self.ino)
    else if name == DOTDOT then Some(ns[n].parent.ino)
    else if name in ns[n].kids then Some(ns[n].kids[name].ino)
    else None
  }

  /// Following names from an inode.
  function Walk(ns: Nodes, n: nat, path: seq<Name>): Option<nat>
    decreases |path|
  {
    if path == [] then Some(n)
    else
      var next := Step(ns, n, path[0]);
      if next.None? then None else Walk(ns, next.value, path[1..])
  }

  lemma {:induction false} WalkAppend(ns: Nodes, n: nat, a: seq<Name>, b: seq<Name>)
    ensures Walk(ns, n, a + b) == if Walk(ns, n, a).Some? then Walk(ns, Walk(ns, n, a).value, b) else None
    decreases |a|
  {
    if a == [] {
      assert a + b == b;
    } else {
      assert (a + b)[0] == a[0] && (a + b)[1..] == a[1..] + b;
      var next := Step(ns, n, a[0]);
      if next.Some? {
        WalkAppend(ns, next.value, a[1..], b);
      }
    }
  }

  lemma StepStays(ns: Nodes, t: Tree, n: nat, name: Name)
    requires TreeOk(ns, t) && Attached(t, n) && Step(ns, n, name).Some?
    ensures Attached(t, Step(ns, n, name).value)
    ensures !IsDot(name) ==> Step(ns, n, name).value in t.up && t.up[Step(ns, n, name).value] == (n, name)
  {
    assert FolderOk(ns, t, n);
    if n in t.up {
      assert LinkOk(ns, t, n);
    }
  }

  /// Every walk from the tree, dots included, stays in the tree.
  lemma {:induction false} WalkStays(ns: Nodes, t: Tree, n: nat, path: seq<Name>)
    requires TreeOk(ns, t) && Attached(t, n)
    ensures Walk(ns, n, path).Some? ==> Attached(t, Walk(ns, n, path).value)
    decreases |path|
  {
    if path != [] && Step(ns, n, path[0]).Some? {
      StepStays(ns, t, n, path[0]);
      WalkStays(ns, t, Step(ns, n, path[0]).value, path[1..]);
    }
  }

  /// The names from the root down to an attached inode.
  ghost function PathOf(ns: Nodes, t: Tree, n: nat): seq<Name>
    requires TreeOk(ns, t) && Attached(t, n)
    decreases Depth(t, n)
  {
    if n == ROOT then []
    else
      assert LinkOk(ns, t, n);
      PathOf(ns, t, t.up[n].0) + [t.up[n].1]
  }

  /// No entry but the dots has the name of a dot.
  ghost predicate PlainKids(ns: Nodes) {
    forall n: nat, name | IsFolder(ns, n) && name in ns[n].kids :: !IsDot(name)
  }

  /// Every attached inode is reachable by its path.
  lemma {:induction false} PathReaches(ns: Nodes, t: Tree, n: nat)
    requires TreeOk(ns, t) && PlainKids(ns) && Attached(t, n)
    ensures DotFree(PathOf(ns, t, n)) && Walk(ns, ROOT, PathOf(ns, t, n)) == Some(n)
    decreases Depth(t, n)
  {
    if n != ROOT {
      assert LinkOk(ns, t, n);
      var (p, name) := t.up[n];
      PathReaches(ns, t, p);
      var up := PathOf(ns, t, p);
      WalkAppend(ns, ROOT, up, [name]);
      WalkOne(ns, p, name);
      assert !IsDot(name) && Step(ns, p, name) == Some(n);
      assert PathOf(ns, t, n) == up + [name];
    }
  }

  /// Each inode of the tree is reached by exactly one path without dots.
  lemma {:induction false} PathUnique(ns: Nodes, t: Tree, path: seq<Name>)
    requires TreeOk(ns, t) && DotFree(path) && Walk(ns, ROOT, path).Some?
    ensures Attached(t, Walk(ns, ROOT, path).value)
    ensures path == PathOf(ns, t, Walk(ns, ROOT, path).value)
    decreases |path|
  {
    if path != [] {
      var init, last := path[..|path| - 1], path[|path| - 1];
      assert path == init + [last];
      WalkAppend(ns, ROOT, init, [last]);
      assert forall k | 0 <= k < |init| :: init[k] == path[k];
      PathUnique(ns, t, init);
      var p := Walk(ns, ROOT, init).value;
      WalkOne(ns, p, last);
      StepStays(ns, t, p, last);
    }
  }

  /// The inodes reachable from the root are the attached ones.
  lemma ReachableIffAttached(ns: Nodes, t: Tree, n: nat)
    requires TreeOk(ns, t) && PlainKids(ns)
    ensures Attached(t, n) <==> exists path :: Walk(ns, ROOT, path) == Some(n)
  {
    if Attached(t, n) {
      PathReaches(ns, t, n);
    }
    forall path | Walk(ns, ROOT, path) == Some(n) ensures Attached(t, n) {
      WalkStays(ns, t, ROOT, path);
    }
  }

  lemma WalkOne(ns: Nodes, n: nat, name: Name)
    ensures Walk(ns, n, [name]) == Step(ns, n, name)
  {
    var path: seq<Name> := [name];
    assert path[1..] == [];
  }

  predicate DotFree(path: seq<Name>) {
    forall k | 0 <= k < |path| :: !IsDot(path[k])
  }

  /// p/x/.. is p, for a subdirectory x of p.
  lemma UpFromChild(ns: Nodes, t: Tree, path: seq<Name>, x: Name)
    requires TreeOk(ns, t) && !IsDot(x)
    requires var p := Walk(ns, ROOT, path);
      p.Some? && Step(ns, p.value, x).Some? && IsFolder(ns, Step(ns, p.value, x).value)
    ensures Walk(ns, ROOT, path + [x, DOTDOT]) == Walk(ns, ROOT, path)
  {
    var p := Walk(ns, ROOT, path).value;
    WalkStays(ns, t, ROOT, path);
    StepStays(ns, t, p, x);
    var c := Step(ns, p, x).value;
    assert FolderOk(ns, t, c);
    WalkAppend(ns, ROOT, path, [x, DOTDOT]);
    WalkAppend(ns, p, [x], [DOTDOT]);
    assert [x] + [DOTDOT] == [x, DOTDOT];
    WalkOne(ns, p, x);
    WalkOne(ns, c, DOTDOT);
    assert DOTDOT != DOT;
  }
}

/// Path resolution (src/directory.rs:232-294).

module PathWalk {
  import opened Wrappers
  import opened Bytes
  import opened Device
  import opened Superblock
  import opened Inodes
  import opened Volume
  import opened InodeTable
  import opened Removal
  import opened Ownership
  import opened FileData
  import opened DirEntries
  import opened Namespace
  import opened DirView
  import opened Invariant
  import opened Directory
  import opened FileSystem

  const SLASH: byte := 0x2F

  // ---------- components ----------

  function Flush(current: Name): seq<Name> {
    if current == [] then [] else [current]
  }

  /// `split('/')` and dropping the empty pieces, with a piece already begun.
  function ComponentsAfter(current: Name, path: seq<byte>): seq<Name>
    decreases |path|
  {
    if path == [] then Flush(current)
    else if path[0] == SLASH then Flush(current) + ComponentsAfter([], path[1..])
    else ComponentsAfter(current + [path[0]], path[1..])
  }

  function Components(path: seq<byte>): seq<Name> {
    ComponentsAfter([], path)
  }

  lemma {:induction false} ComponentsSplitAfter(current: Name, a: seq<byte>, b: seq<byte>)
    ensures ComponentsAfter(current, a + [SLASH] + b) == ComponentsAfter(current, a) + Components(b)
    decreases |a|
  {
    var path := a + [SLASH] + b;
    if a == [] {
      assert path[0] == SLASH && path[1..] == b;
    } else {
      assert path[0] == a[0] && path[1..] == a[1..] + [SLASH] + b;
      if a[0] == SLASH {
        ComponentsSplitAfter([], a[1..], b);
      } else {
        ComponentsSplitAfter(current + [a[0]], a[1..], b);
      }
    }
  }

  /// A slash ends a component, and nothing else about it matters: doubled, leading and
  /// trailing slashes add no component.
  lemma ComponentsSplit(a: seq<byte>, b: seq<byte>)
    ensures Components(a + [0x2F] + b) == Components(a) + Components(b)
  {
    ComponentsSplitAfter([], a, b);
  }

  /// Bytes other than slashes go into the piece begun.
  lemma {:induction false} PlainBytes(current: Name, name: Name, rest: seq<byte>)
    requires SLASH !in name
    ensures ComponentsAfter(current, name + rest) == ComponentsAfter(current + name, rest)
    decreases |name|
  {
    if name == [] {
      assert current + name == current && name + rest == rest;
    } else {
      assert (name + rest)[0] == name[0] && (name + rest)[1..] == name[1..] + rest;
      assert current + [name[0]] + name[1..] == current + name;
      PlainBytes(current + [name[0]], name[1..], rest);
    }
  }

  function Join(names: seq<Name>): seq<byte> {
    if names == [] then [] else [SLASH] + (names[0] + Join(names[1..]))
  }

  lemma {:induction false} JoinAfter(current: Name, names: seq<Name>)
    requires forall k | 0 <= k < |names| :: names[k] != [] && SLASH !in names[k]
    ensures ComponentsAfter(current, Join(names)) == Flush(current) + names
    decreases |names|
  {
    if names != [] {
      var path, rest := names[0] + Join(names[1..]), names[1..];
      assert Join(names)[0] == SLASH && Join(names)[1..] == path;
      PlainBytes([], names[0], Join(rest));
      assert [] + names[0] == names[0];
      JoinAfter(names[0], rest);
      assert [names[0]] + rest == names;
    }
  }

  /// Spelling out a list of names and splitting it gives the list back.
  lemma ComponentsOfJoin(names: seq<Name>)
    requires forall k | 0 <= k < |names| :: names[k] != [] && SLASH !in names[k]
    ensures Components(Join(names)) == names
  {
    JoinAfter([], names);
    assert [] + names == names;
  }

  // ---------- resolution ----------

  datatype Answer =
    | At(ino: nat, parent: nat, name: Name)
    | InvalidComponent
    | NotADirectory
    | NoSuchEntry
    | NoSuchDirectory

  /// The walk of path_resolve from a directory.
  function Resolve(ns: Nodes, cur: nat, path: seq<Name>): Answer
    requires path != []
    decreases |path|
  {
    if path[0] == [] || |path[0]| > MAX_NAME_LEN then InvalidComponent
    else
      var next := Step(ns, cur, path[0]);
      if next.None? then (if |path| == 1 then NoSuchEntry else NoSuchDirectory)
      else if |path| == 1 then At(next.value, cur, path[0])
      else if !IsFolder(ns, next.value) then NotADirectory
      else Resolve(ns, next.value, path[1..])
  }

  /// Names in directories have 1 to 28 bytes.
  ghost predicate ShortKids(ns: Nodes) {
    forall n: nat, name | IsFolder(ns, n) && name in ns[n].kids :: 1 <= |name| <= MAX_NAME_LEN
  }

  lemma KidsAreShort(s: Store)
    ensures ShortKids(NodesOf(s))
  {
    forall n: nat, name | IsFolder(NodesOf(s), n) && name in NodesOf(s)[n].kids
      ensures 1 <= |name| <= MAX_NAME_LEN
    {
      assert NodesOf(s)[n] == NodeAt(s, n);
      var ss := Slots(s, s.inodes[n]);
      assert name in Names(ss);
    }
  }

  /// path_resolve finds exactly what walking the directory maps finds, with the directory
  /// that holds the last name.
  lemma {:induction false} ResolveIsWalk(ns: Nodes, cur: nat, path: seq<Name>)
    requires path != [] && ShortKids(ns)
    ensures Resolve(ns, cur, path).At? <==> Walk(ns, cur, path).Some?
    ensures Resolve(ns, cur, path).At? ==>
      && Walk(ns, cur, path) == Some(Resolve(ns, cur, path).ino)
      && Walk(ns, cur, path[..|path| - 1]) == Some(Resolve(ns, cur, path).parent)
      && Resolve(ns, cur, path).name == path[|path| - 1]
    decreases |path|
  {
    var next := Step(ns, cur, path[0]);
    assert next.Some? ==> 1 <= |path[0]| <= MAX_NAME_LEN;
    if |path| == 1 {
      var one: seq<Name> := [path[0]];
      assert path == one;
      WalkOne(ns, cur, path[0]);
      assert path[..|path| - 1] == [];
    } else if next.Some? {
      var front, rest := path[..|path| - 1], path[1..];
      assert front != [] && front[0] == path[0] && front[1..] == rest[..|rest| - 1];
      ResolveIsWalk(ns, next.value, rest);
      assert Walk(ns, cur, path) == Walk(ns, next.value, rest);
      assert Walk(ns, cur, front) == Walk(ns, next.value, front[1..]);
    }
  }

  // ---------- why a path does not resolve ----------

  /// The components before k lead to a directory.
  ghost predicate Arrives(ns: Nodes, n: nat, path: seq<Name>, k: nat) {
    k < |path| && Walk(ns, n, path[..k]).Some? && IsFolder(ns, Walk(ns, n, path[..k]).value)
  }

  /// Component k is empty or has more than 28 bytes.
  ghost predicate Invalid(ns: Nodes, n: nat, path: seq<Name>, k: nat) {
    Arrives(ns, n, path, k) && !(1 <= |path[k]| <= 28)
  }

  /// Component k is no name of the directory it is looked up in.
  ghost predicate Missing(ns: Nodes, n: nat, path: seq<Name>, k: nat) {
    Arrives(ns, n, path, k) && 1 <= |path[k]| <= 28 && Walk(ns, n, path[..k + 1]).None?
  }

  /// Component k is not the last and leads to a file.
  ghost predicate Blocked(ns: Nodes, n: nat, path: seq<Name>, k: nat) {
    && k + 1 < |path| && Arrives(ns, n, path, k)
    && Walk(ns, n, path[..k + 1]).Some? && !IsFolder(ns, Walk(ns, n, path[..k + 1]).value)
  }

  /// Which error means what.
  ghost predicate ErrorSays(ns: Nodes, n: nat, path: seq<Name>, r: Answer) {
    && (r == InvalidComponent <==> exists k: nat :: Invalid(ns, n, path, k))
    && (r == NoSuchEntry <==> exists k: nat :: Missing(ns, n, path, k) && k + 1 == |path|)
    && (r == NoSuchDirectory <==> exists k: nat :: Missing(ns, n, path, k) && k + 1 < |path|)
    && (r == NotADirectory <==> exists k: nat :: Blocked(ns, n, path, k))
  }

  lemma WalkLater(ns: Nodes, n: nat, path: seq<Name>, k: nat)
    requires k < |path|
    ensures Walk(ns, n, path[..k + 1]) ==
      if Step(ns, n, path[0]).None? then None else Walk(ns, Step(ns, n, path[0]).value, path[1..][..k])
  {
    var front := path[..k + 1];
    assert front[0] == path[0] && front[1..] == path[1..][..k];
  }

  lemma Later(ns: Nodes, n: nat, path: seq<Name>, k: nat)
    requires path != []
    ensures var next, rest := Step(ns, n, path[0]), path[1..];
      && (Invalid(ns, n, path, k + 1) <==> next.Some? && Invalid(ns, next.value, rest, k))
      && (Missing(ns, n, path, k + 1) <==> next.Some? && Missing(ns, next.value, rest, k))
      && (Blocked(ns, n, path, k + 1) <==> next.Some? && Blocked(ns, next.value, rest, k))
  {
    hide Walk, Step;
    if k + 1 < |path| {
      WalkLater(ns, n, path, k);
      WalkLater(ns, n, path, k + 1);
    }
  }

  /// Nothing is looked up below a file.
  lemma NotBelow(ns: Nodes, n: nat, path: seq<Name>, k: nat)
    requires !IsFolder(ns, n)
    ensures !Invalid(ns, n, path, k) && !Missing(ns, n, path, k) && !Blocked(ns, n, path, k)
  {
    if k < |path| && k > 0 {
      WalkLater(ns, n, path, k - 1);
    } else if k < |path| {
      assert path[..0] == [];
    }
  }

  lemma AtOnce(ns: Nodes, n: nat, path: seq<Name>)
    requires IsFolder(ns, n) && path != []
    ensures Invalid(ns, n, path, 0) <==> !(1 <= |path[0]| <= 28)
    ensures Missing(ns, n, path, 0) <==> 1 <= |path[0]| <= 28 && Step(ns, n, path[0]).None?
    ensures Blocked(ns, n, path, 0) <==>
      |path| > 1 && Step(ns, n, path[0]).Some? && !IsFolder(ns, Step(ns, n, path[0]).value)
  {
    WalkLater(ns, n, path, 0);
    assert path[..0] == [] && path[1..][..0] == [];
  }

  /// The errors of path_resolve from a directory.
  lemma {:induction false} ResolveErrors(ns: Nodes, n: nat, path: seq<Name>)
    requires IsFolder(ns, n) && ShortKids(ns) && path != []
    ensures ErrorSays(ns, n, path, Resolve(ns, n, path))
    decreases |path|
  {
    hide Invalid, Missing, Blocked, Step, Walk, Arrives;
    var next, rest := Step(ns, n, path[0]), path[1..];
    AtOnce(ns, n, path);
    StepIsShort(ns, n, path[0]);
    forall k: nat
      ensures Invalid(ns, n, path, k + 1) <==> next.Some? && Invalid(ns, next.value, rest, k)
      ensures Missing(ns, n, path, k + 1) <==> next.Some? && Missing(ns, next.value, rest, k)
      ensures Blocked(ns, n, path, k + 1) <==> next.Some? && Blocked(ns, next.value, rest, k)
    {
      Later(ns, n, path, k);
    }
    if next.Some? && rest != [] && IsFolder(ns, next.value) {
      ResolveErrors(ns, next.value, rest);
      ErrorsLater(ns, n, path, next.value, Resolve(ns, next.value, rest));
    } else {
      forall k: nat
        ensures k > 0 ==> !Invalid(ns, n, path, k) && !Missing(ns, n, path, k) && !Blocked(ns, n, path, k)
      {
        if k > 0 && next.Some? {
          NoneLater(ns, next.value, rest, k - 1);
          Later(ns, n, path, k - 1);
        } else if k > 0 {
          Later(ns, n, path, k - 1);
        }
      }
    }
  }

  lemma StepIsShort(ns: Nodes, n: nat, name: Name)
    requires ShortKids(ns)
    ensures Step(ns, n, name).Some? ==> 1 <= |name| <= 28
  {
  }

  lemma NoneLater(ns: Nodes, n: nat, path: seq<Name>, k: nat)
    requires path == [] || !IsFolder(ns, n)
    ensures !Invalid(ns, n, path, k) && !Missing(ns, n, path, k) && !Blocked(ns, n, path, k)
  {
    if path != [] {
      NotBelow(ns, n, path, k);
    }
  }

  /// When the first component leads to a directory, the error is that of the rest.
  lemma ErrorsLater(ns: Nodes, n: nat, path: seq<Name>, next: nat, r: Answer)
    requires IsFolder(ns, n) && |path| > 1 && 1 <= |path[0]| <= 28
    requires Step(ns, n, path[0]) == Some(next) && IsFolder(ns, next)
    requires ErrorSays(ns, next, path[1..], r)
    ensures ErrorSays(ns, n, path, r)
  {
    hide Invalid, Missing, Blocked, Step, Walk, Arrives;
    var rest := path[1..];
    AtOnce(ns, n, path);
    forall k: nat | Invalid(ns, next, rest, k)
      ensures exists j: nat :: Invalid(ns, n, path, j)
    {
      Later(ns, n, path, k);
    }
    forall k: nat | Missing(ns, next, rest, k)
      ensures exists j: nat :: Missing(ns, n, path, j) && (j + 1 == |path| <==> k + 1 == |rest|) && j == k + 1
    {
      Later(ns, n, path, k);
    }
    forall k: nat | Blocked(ns, next, rest, k)
      ensures exists j: nat :: Blocked(ns, n, path, j)
    {
      Later(ns, n, path, k);
    }
    forall k: nat | Invalid(ns, n, path, k)
      ensures exists j: nat :: Invalid(ns, next, rest, j)
    {
      Later(ns, n, path, k - 1);
    }
    forall k: nat | Missing(ns, n, path, k)
      ensures exists j: nat :: Missing(ns, next, rest, j) && k == j + 1
    {
      Later(ns, n, path, k - 1);
    }
    forall k: nat | Blocked(ns, n, path, k)
      ensures exists j: nat :: Blocked(ns, next, rest, j)
    {
      Later(ns, n, path, k - 1);
    }
  }

  // ---------- what a file entry changes ----------

  /// ns' has one name more than ns: `name` in directory p, leading to what is no directory.
  ghost predicate OneMoreFile(ns: Nodes, ns': Nodes, p: nat, name: Name) {
    && (forall m: nat, x: Name | (m, x) != (p, name) :: Step(ns', m, x) == Step(ns, m, x))
    && (forall m: nat :: IsFolder(ns', m) <==> IsFolder(ns, m))
    && Step(ns, p, name).None? && Step(ns', p, name).Some? && !IsFolder(ns', Step(ns', p, name).value)
  }

  /// Component k of the path is the name, and the components before it lead to p.
  ghost predicate Meets(ns: Nodes, n: nat, path: seq<Name>, k: nat, p: nat, name: Name) {
    k < |path| && path[k] == name && Walk(ns, n, path[..k]) == Some(p)
  }

  ghost predicate ComesTo(ns: Nodes, n: nat, path: seq<Name>, p: nat, name: Name) {
    exists k: nat :: Meets(ns, n, path, k, p, name)
  }

  /// The answer at component k when the name is missing, and when it is a file.
  function AnswerAt(path: seq<Name>, k: nat, last: Answer, inner: Answer): Answer {
    if k + 1 == |path| then last else inner
  }

  lemma MeetsLater(ns: Nodes, n: nat, path: seq<Name>, k: nat, p: nat, name: Name)
    requires path != []
    ensures Meets(ns, n, path, k + 1, p, name) <==>
      Step(ns, n, path[0]).Some? && Meets(ns, Step(ns, n, path[0]).value, path[1..], k, p, name)
  {
    if k + 1 < |path| {
      var front := path[..k + 1];
      assert front[0] == path[0] && front[1..] == path[1..][..k];
    }
  }

  /// Resolution from n, with and without the entry: it differs only for a path that comes
  /// to the entry, and there the two answers are these.
  lemma {:induction false} ResolveWithFile(ns: Nodes, ns': Nodes, n: nat, path: seq<Name>, p: nat, name: Name)
    requires OneMoreFile(ns, ns', p, name) && ShortKids(ns) && 1 <= |name| <= MAX_NAME_LEN && path != []
    ensures !ComesTo(ns, n, path, p, name) ==> Resolve(ns', n, path) == Resolve(ns, n, path)
    ensures forall k: nat | Meets(ns, n, path, k, p, name) ::
      && Resolve(ns, n, path) == AnswerAt(path, k, NoSuchEntry, NoSuchDirectory)
      && Resolve(ns', n, path) == AnswerAt(path, k, At(Step(ns', p, name).value, p, name), NotADirectory)
    decreases |path|
  {
    var next := Step(ns, n, path[0]);
    assert path[..0] == [];
    if (n, path[0]) == (p, name) {
      assert Meets(ns, n, path, 0, p, name);
      forall k: nat | Meets(ns, n, path, k, p, name)
        ensures k == 0
      {
        if k > 0 {
          MeetsLater(ns, n, path, k - 1, p, name);
        }
      }
    } else {
      forall k: nat | Meets(ns, n, path, k, p, name)
        ensures k > 0 && next.Some? && Meets(ns, next.value, path[1..], k - 1, p, name)
      {
        if k > 0 {
          MeetsLater(ns, n, path, k - 1, p, name);
        }
      }
      if next.Some? && |path| > 1 && IsFolder(ns, next.value) {
        ResolveWithFile(ns, ns', next.value, path[1..], p, name);
        forall k: nat | Meets(ns, next.value, path[1..], k, p, name)
          ensures Meets(ns, n, path, k + 1, p, name)
        {
          MeetsLater(ns, n, path, k, p, name);
        }
      } else if next.Some? && |path| > 1 {
        NothingBelow(ns, next.value, path[1..], p, name);
      }
    }
  }

  lemma NothingBelow(ns: Nodes, n: nat, path: seq<Name>, p: nat, name: Name)
    requires !IsFolder(ns, n) && IsFolder(ns, p) && path != []
    ensures forall k: nat :: !Meets(ns, n, path, k, p, name)
  {
    assert path[..0] == [];
    forall k: nat
      ensures !Meets(ns, n, path, k, p, name)
    {
      if k > 0 {
        MeetsLater(ns, n, path, k - 1, p, name);
      }
    }
  }

  /// What resolution answers changes between ns and ns' exactly for the paths that come to
  /// the entry; which inode it finds, exactly for those that end there.
  ghost predicate ChangesItsPathsOnly(ns: Nodes, ns': Nodes, p: nat, name: Name, path: seq<Name>)
    requires path != []
  {
    var r, r' := Resolve(ns, ROOT, path), Resolve(ns', ROOT, path);
    && (r' != r <==> ComesTo(ns, ROOT, path, p, name))
    && (r' != r && (r'.At? || r.At?) <==> Meets(ns, ROOT, path, |path| - 1, p, name))
    && (r' != r ==> (r == NoSuchEntry && r'.At?) || (r == NoSuchDirectory && r' == NotADirectory))
  }

  lemma FileChangesItsPathsOnly(ns: Nodes, ns': Nodes, p: nat, name: Name, path: seq<Name>)
    requires OneMoreFile(ns, ns', p, name) && ShortKids(ns) && 1 <= |name| <= MAX_NAME_LEN && path != []
    ensures ChangesItsPathsOnly(ns, ns', p, name, path)
  {
    hide Resolve, Meets, OneMoreFile, ShortKids;
    ResolveWithFile(ns, ns', ROOT, path, p, name);
  }

  lemma CreatedIsOneMore(v0: Vol, v: Vol, t0: Tree, t: Tree, p: nat, name: Name, c: nat, now: i64, stamp: i64)
    requires Created(v0, v, t0, t, p, name, c, now, stamp)
    ensures OneMoreFile(NodesOf(v0.s), NodesOf(v.s), p, name) && ShortKids(NodesOf(v0.s)) && 1 <= |name| <= MAX_NAME_LEN
    ensures Step(NodesOf(v.s), p, name) == Some(c)
  {
    hide FolderOf, NodesOf, Frame, Content, HeldSet, Stamped, Enter, OneMoreFile, Step;
    assert NodesOf(v0.s)[c] == NodeAt(v0.s, c) == Free;
    EnterIsOneMore(NodesOf(v0.s), p, name, c);
    KidsAreShort(v0.s);
    KidsAreShort(v.s);
  }

  lemma EnterIsOneMore(ns: Nodes, p: nat, name: Name, c: nat)
    requires IsFolder(ns, p) && name !in ns[p].kids && !IsDot(name) && c < |ns| && ns[c] == Free
    ensures var ns' := Enter(ns[c := File], p, name, c);
      && OneMoreFile(ns, ns', p, name) && Step(ns', p, name) == Some(c)
      && IsFolder(ns', p) && name in ns'[p].kids
  {
  }

  /// Creating a file changes the answers for the paths that come to its entry, and what is
  /// found for those that end in it.
  lemma CreateChangesItsPathsOnly(v0: Vol, v: Vol, t0: Tree, t: Tree, p: nat, name: Name, c: nat, now: i64, stamp: i64,
                                  path: seq<Name>)
    requires Created(v0, v, t0, t, p, name, c, now, stamp) && path != []
    ensures ChangesItsPathsOnly(NodesOf(v0.s), NodesOf(v.s), p, name, path)
  {
    hide Created, ChangesItsPathsOnly, NodesOf, OneMoreFile;
    CreatedIsOneMore(v0, v, t0, t, p, name, c, now, stamp);
    FileChangesItsPathsOnly(NodesOf(v0.s), NodesOf(v.s), p, name, path);
  }

  /// Not only paths that end in the name: one that goes on after it has another error.
  lemma CreateChangesLongerPaths(v0: Vol, v: Vol, t0: Tree, t: Tree, name: Name, c: nat, now: i64, stamp: i64, x: Name)
    requires Created(v0, v, t0, t, ROOT, name, c, now, stamp)
    ensures Resolve(NodesOf(v0.s), ROOT, [name, x]) == NoSuchDirectory
    ensures Resolve(NodesOf(v.s), ROOT, [name, x]) == NotADirectory
  {
    hide Created, Resolve, NodesOf, OneMoreFile;
    CreatedIsOneMore(v0, v, t0, t, ROOT, name, c, now, stamp);
    ResolveWithFile(NodesOf(v0.s), NodesOf(v.s), ROOT, [name, x], ROOT, name);
    var none: seq<Name> := [name, x][..0];
    assert none == [];
    assert Meets(NodesOf(v0.s), ROOT, [name, x], 0, ROOT, name);
  }

  /// Removing a file changes them back, for the same paths.
  lemma UnlinkChangesItsPathsOnly(v0: Vol, v: Vol, p: nat, name: Name, c: nat, now: i64, path: seq<Name>)
    requires Removed(v0, v, p, name, c, now) && NodesOf(v0.s)[c].File? && path != []
    ensures ChangesItsPathsOnly(NodesOf(v.s), NodesOf(v0.s), p, name, path)
  {
    hide ChangesItsPathsOnly, NodesOf;
    RemovedIsOneLess(v0, v, p, name, c, now);
    FileChangesItsPathsOnly(NodesOf(v.s), NodesOf(v0.s), p, name, path);
  }

  lemma RemovedIsOneLess(v0: Vol, v: Vol, p: nat, name: Name, c: nat, now: i64)
    requires Removed(v0, v, p, name, c, now) && NodesOf(v0.s)[c].File?
    ensures OneMoreFile(NodesOf(v.s), NodesOf(v0.s), p, name) && ShortKids(NodesOf(v.s)) && 1 <= |name| <= MAX_NAME_LEN
  {
    hide NodesOf, Frame, HeldSet, Remove, OneMoreFile, NodeAt;
    KidsArePlain(v0.s);
    KidsAreShort(v0.s);
    KidsAreShort(v.s);
    RemoveIsOneLess(NodesOf(v0.s), p, name);
  }

  lemma RemoveIsOneLess(ns: Nodes, p: nat, name: Name)
    requires IsFolder(ns, p) && name in ns[p].kids && !IsDot(name)
    requires ns[p].kids[name].ino < |ns| && ns[ns[p].kids[name].ino].File?
    ensures OneMoreFile(Remove(ns, p, name, Free), ns, p, name)
  {
  }

  // ---------- path_resolve ----------

  datatype PathResult = Found(target: Inode, parent: Inode, name: Name) | Failed(why: Answer)

  /// The result of path_resolve as the namespace tells it.
  ghost predicate Resolved(s: Store, path: seq<Name>, r: PathResult) {
    if path == [] then
      ROOT < |s.inodes| && r == Found(s.inodes[ROOT], s.inodes[ROOT], [])
    else match Resolve(NodesOf(s), ROOT, path)
      case At(c, p, name) => c < |s.inodes| && p < |s.inodes| && r == Found(s.inodes[c], s.inodes[p], name)
      case why => r == Failed(why)
  }

  method PathResolve(fs: SimpleFS, path: seq<byte>) returns (r: PathResult)
    requires fs.Valid()
    ensures Resolved(V(fs.disk).s, Components(path), r)
    ensures r.Failed? ==> Components(path) != [] && ErrorSays(fs.Nodes(), ROOT, Components(path), r.why)
    ensures Components(path) == [] ==> r.Found? && r.target == r.parent && r.name == []
    ensures r.Found? && Components(path) != [] ==> var cs := Components(path);
      && r.name == cs[|cs| - 1] && Walk(fs.Nodes(), ROOT, cs[..|cs| - 1]).Some?
      && Walk(fs.Nodes(), ROOT, cs[..|cs| - 1]).value < |V(fs.disk).s.inodes|
      && r.parent == V(fs.disk).s.inodes[Walk(fs.Nodes(), ROOT, cs[..|cs| - 1]).value]
    ensures r.Found? <==> Walk(fs.Nodes(), ROOT, Components(path)).Some?
    ensures r.Found? ==> var c := Walk(fs.Nodes(), ROOT, Components(path)).value;
      c < |V(fs.disk).s.inodes| && r.target == V(fs.disk).s.inodes[c]
  {
    hide View, NodesOf, Owns, TreeOk, Sound, FolderOf, Slots, Components, And, ErrorSays, ShortKids;
    var components := if path == [SLASH] then [] else Components(path);
    RootPath();
    fs.RootHere();
    var current := ReadInode(fs.disk, fs.sb, fs.sb.rootInode);
    if components == [] {
      return Found(current, current, []);
    }
    ghost var ns := fs.Nodes();
    KidsAreShort(V(fs.disk).s);
    ResolveIsWalk(ns, ROOT, components);
    ResolveErrors(ns, ROOT, components);
    var idx := 0;
    while idx < |components|
      invariant 0 <= idx < |components|
      invariant fs.IsDirHere(current.no) && V(fs.disk).s.inodes[current.no] == current
      invariant Resolve(ns, ROOT, components) == Resolve(ns, current.no, components[idx..])
    {
      var component := components[idx];
      if component == [] || |component| > MAX_NAME_LEN {
        return Failed(InvalidComponent);
      }
      var parent := current;
      var found := fs.Lookup(current.no, component);
      if found.Ok? {
        var child := found.value;
        if idx == |components| - 1 {
          return Found(child, parent, component);
        }
        if And(child.mode, S_IFDIR) == 0 {
          return Failed(NotADirectory);
        }
        assert components[idx..][1..] == components[idx + 1..];
        current := child;
      } else {
        return Failed(if idx == |components| - 1 then NoSuchEntry else NoSuchDirectory);
      }
      idx := idx + 1;
    }
  }

  lemma RootPath()
    ensures Components([SLASH]) == []
  {
    var path: seq<byte> := [SLASH];
    assert path[1..] == [];
    assert Components([]) == [];
  }
}

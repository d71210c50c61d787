/// The file system operations (src/fs.rs).

module FileSystem {
  import opened Wrappers
  import opened Bytes
  import opened Device
  import opened Superblock
  import opened Inodes
  import opened Volume
  import opened Allocator
  import opened Bitmap
  import opened InodeTable
  import opened Ownership
  import opened FileData
  import opened DirEntries
  import opened Namespace
  import opened DirView
  import opened Invariant
  import opened Directory
  import opened Operations
  import opened Growth
  import opened Format
  import opened Removal
  import opened FileIO
  import opened Paging

  const FIRST_FILE: nat := 1000
  const LAST_FILE: nat := 2000
  const FIRST_DIR: nat := 500
  const LAST_DIR: nat := 900

  /// The table has a slot for every inode number that create and mkdir hand out.
  predicate LayoutOk(g: Geometry) {
    g.Ok() && LAST_FILE < INODES_PER_BLOCK * g.tableBlocks
  }

  datatype Errno = ENOENT | EEXIST | ENOSPC | ENOTDIR | ENOTEMPTY | EISDIR | EFBIG

  /// Panic is a Rust panic: the process halts and the disk stays as it is.
  datatype Reply<+T> = Ok(value: T) | Err(errno: Errno) | Panic

  /// Every inode number from lo to hi is taken.
  ghost predicate Exhausted(s: Store, lo: nat, hi: nat) {
    forall n: nat | lo <= n <= hi :: Live(s, n)
  }

  ghost predicate LeastUnused(s: Store, lo: nat, hi: nat, c: nat) {
    lo <= c <= hi && !Live(s, c) && forall n: nat | lo <= n < c :: Live(s, n)
  }

  /// The least free inode number from lo to hi.
  method FindFreeInode(disk: Disk, sb: SuperBlock, lo: nat, hi: nat) returns (r: Option<u32>)
    requires disk.Valid() && Describes(sb, disk.g) && lo <= hi && InTable(disk.g, hi)
    ensures r.None? <==> Exhausted(V(disk).s, lo, hi)
    ensures r.Some? ==> LeastUnused(V(disk).s, lo, hi, r.value)
  {
    hide View;
    ViewFacts(disk.blocks, disk.g);
    var candidate := lo;
    while true
      invariant lo <= candidate <= hi
      invariant forall n: nat | lo <= n < candidate :: Live(V(disk).s, n)
      decreases hi - candidate
    {
      var test := ReadInode(disk, sb, candidate);
      if test.nlink == 0 {
        assert !Live(V(disk).s, candidate);
        return Some(candidate);
      }
      candidate := candidate + 1;
      if candidate > hi {
        return None;
      }
    }
  }

  class SimpleFS {
    const disk: Disk
    var sb: SuperBlock
    /// The attached inodes and their places.
    ghost var tree: Tree

    ghost predicate Valid()
      reads this, disk
    {
      && disk.Valid() && LayoutOk(disk.g) && V(disk).sb == sb && sb.rootInode == ROOT
      && Sound(V(disk), disk.g) && TreeOk(NodesOf(V(disk).s), tree)
    }

    /// Opens a disk. A new image is formatted. An old one with the magic number is taken as
    /// it is; its tree is the one it was left with. Any other is taken for damaged and
    /// formatted over, which is right exactly if no old record holds blocks.
    constructor Mount(disk: Disk, isNew: bool, now: i64, ghost t: Tree)
      requires disk.Valid() && LayoutOk(disk.g)
      requires isNew ==> AllZero(disk.blocks)
      modifies disk
      ensures this.disk == disk && disk.Valid() && V(disk).sb == sb
      ensures isNew ==> Valid() && tree == EMPTY_TREE && Leaked(V(disk), disk.g) == {} && JustRoot(V(disk).s, now)
      ensures isNew ==> sb.freeBlocks == disk.g.maxBlocks - disk.g.DataStart() - 1
      ensures isNew || !IsValid(old(V(disk)).sb) ==>
        && 1 < |V(disk).s.inodes| && FreshDir(V(disk).s.inodes[1], 1, disk.g.DataStart(), now)
        && sb.rootInode == 1 && sb.totalBlocks == disk.g.maxBlocks && sb.dataStart == disk.g.DataStart()
      ensures !isNew && IsValid(old(V(disk)).sb) ==>
        && disk.blocks == old(disk.blocks) && disk.hist == old(disk.hist) && tree == t
        && (Valid() <==> Sound(V(disk), disk.g) && TreeOk(NodesOf(V(disk).s), t) && sb.rootInode == ROOT)
      ensures !isNew && !IsValid(old(V(disk)).sb) ==>
        && tree == EMPTY_TREE && TreeOk(NodesOf(V(disk).s), tree) && Describes(sb, disk.g)
        && ROOT < |old(V(disk)).s.inodes| && disk.g.DataStart() < 0x1_0000
        && V(disk).s == WithRoot(old(V(disk)).s, disk.g.DataStart(), now)
        && (Valid() <==> NoBlocksLeft(old(V(disk)).s))
    {
      hide View, NodesOf, Sound, TreeOk, AllZero, JustRoot, NoBlocksLeft, WithRoot, Leaked, IsValid, Below;
      var s;
      SuperOfView(disk.blocks, disk.g);
      RootSays(V(disk).s, disk.g.DataStart(), now);
      if isNew {
        s := FormatNewFs(disk, now);
        tree := EMPTY_TREE;
      } else {
        var r := ReadSuperblock(disk);
        if r.Some? {
          s := r.value;
          tree := t;
        } else {
          s := FormatNewFs(disk, now);
          tree := EMPTY_TREE;
        }
      }
      this.disk := disk;
      sb := s;
    }

    static lemma RootSays(s: Store, b: nat, now: i64)
      ensures ROOT < |s.inodes| && b < 0x1_0000_0000 ==>
        && |WithRoot(s, b, now).inodes| == |s.inodes|
        && FreshDir(WithRoot(s, b, now).inodes[1], 1, b, now)
    {
    }

    static lemma SuperOfView(d: seq<Block>, g: Geometry)
      requires Sized(d, g)
      ensures View(d, g).sb == Superblock.Decode(d[0])
    {
    }

    ghost function Nodes(): Nodes
      requires disk.Valid()
      reads this, disk
    {
      NodesOf(V(disk).s)
    }

    ghost predicate IsDirHere(n: nat)
      requires disk.Valid()
      reads this, disk
    {
      Attached(tree, n) && IsFolder(Nodes(), n)
    }

    /// The root directory is there.
    lemma RootHere()
      requires Valid()
      ensures IsDirHere(ROOT) && ROOT < |V(disk).s.inodes| && V(disk).s.inodes[ROOT].no == ROOT
      ensures InTable(disk.g, ROOT) && Describes(sb, disk.g) && sb.rootInode == ROOT
      ensures And(V(disk).s.inodes[ROOT].mode, S_IFDIR) != 0
    {
      hide And;
      ViewFacts(disk.blocks, disk.g);
      assert Nodes()[ROOT] == NodeAt(V(disk).s, ROOT);
    }

    /// An attached directory can be opened.
    lemma OpenDir(n: nat)
      requires Valid() && IsDirHere(n)
      ensures Opened(V(disk).s, V(disk).s.inodes[n]) && V(disk).s.inodes[n].no == n
      ensures NodeAt(V(disk).s, n) == Nodes()[n] == FolderOf(Slots(V(disk).s, V(disk).s.inodes[n]))
      ensures InTable(disk.g, n) && Describes(sb, disk.g)
    {
      ViewFacts(disk.blocks, disk.g);
    }

    // ---------- entering a name ----------

    /// dir_add_entry on a directory of the tree, for a detached inode c.
    method AddName(dir: Inode, name: Name, c: u32, isDir: bool, now: i64) returns (r: AddResult, dir': Inode)
      requires Valid() && Opened(V(disk).s, dir) && Enterable(Nodes(), tree, dir.no, name, c)
      requires 1 <= |name| <= MAX_NAME_LEN && isDir == Nodes()[c].Folder?
      modifies this, disk
      ensures Valid()
      ensures r == AddAnswer(old(Slots(V(disk).s, dir)), dir, name, old(sb.freeBlocks))
      ensures old(disk.hist) <= disk.hist && SafeSince(disk.g, disk.hist, old(|disk.hist|), old(tree), tree)
      ensures r != Added ==>
        disk.blocks == old(disk.blocks) && sb == old(sb) && tree == old(tree)
      ensures r == Added ==>
        && Nodes() == Enter(old(Nodes()), dir.no, name, c) && tree == Link(old(tree), dir.no, name, c)
        && EntryAdded(old(V(disk)), V(disk), dir, dir', name, Target(c, if isDir then 2 else 1), now)
    {
      hide View, NodesOf, Owns, TreeOk, Sound, NodeAt, FolderOf, Slots, Frame, Staged, HeldIn, Link, AddSays;
      ghost var v0, ns, t := V(disk), Nodes(), tree;
      NodesAreNodes(v0.s);
      SoundOwns(v0, disk.g);
      var sb';
      sb', dir', r := DirAddEntry(disk, sb, dir, name, c, isDir, now);
      sb := sb';
      if r == Added {
        ghost var target := Target(c, if isDir then 2 else 1);
        ghost var a, b := NodeAt(v0.s, dir.no), WithKid(NodeAt(v0.s, dir.no), name, target);
        tree := Link(t, dir.no, name, c);
        TreeEnter(ns, t, dir.no, name, c);
        assert ns[dir.no := a] == ns;
        assert ns[dir.no := b] == Enter(ns, dir.no, name, c);
        ChangedNodes(v0, V(disk), dir.no, b);
        StagedSafe(disk.g, disk.hist, |old(disk.hist)|, v0, dir.no, a, b, t, tree);
      }
    }

    static lemma NodesAreNodes(s: Store)
      ensures |NodesOf(s)| == |s.inodes|
      ensures forall n: nat | n < |s.inodes| :: NodesOf(s)[n] == NodeAt(s, n)
    {
    }

    static lemma SoundOwns(v: Vol, g: Geometry)
      requires Sound(v, g)
      ensures Owns(v.s) && HeldIn(v.s, v.alloc) && Describes(v.sb, g)
      ensures Counted(v.sb.freeBlocks, v.alloc, g.maxBlocks)
    {
    }

    static lemma ChangedNodes(v: Vol, v': Vol, n: nat, node: Node)
      requires Owns(v.s) && n < |v.s.inodes| && Changed(v, v', n, node)
      ensures NodesOf(v'.s) == NodesOf(v.s)[n := node]
    {
      hide Owns, HeldIn, NodeAt, Frame;
      FrameNodes(v.s, v'.s, n);
    }

    // ---------- create ----------

    static lemma StepNone(ns: Nodes, n: nat, name: Name)
      requires IsFolder(ns, n) && Step(ns, n, name).None?
      ensures name !in ns[n].kids && !IsDot(name)
    {
    }

    static lemma FreeIsDetached(ns: Nodes, t: Tree, c: nat)
      requires TreeOk(ns, t) && c < |ns| && ns[c] == Free
      ensures !Attached(t, c)
    {
    }

    /// Writes the record of a new file under a free number.
    method MakeFile(c: u32, now: i64)
      requires Valid() && LeastUnused(V(disk).s, FIRST_FILE, LAST_FILE, c)
      modifies disk
      ensures Valid() && LeftNameless(old(V(disk)), V(disk), c, now) && !Attached(tree, c)
      ensures old(disk.hist) <= disk.hist && SafeSince(disk.g, disk.hist, old(|disk.hist|), tree, tree)
    {
      hide View, NodesOf, Owns, TreeOk, HeldIn, Counted, And;
      ghost var v0, ns := V(disk), Nodes();
      ViewFacts(disk.blocks, disk.g);
      SoundOwns(v0, disk.g);
      NodesAreNodes(v0.s);
      FreeIsDetached(ns, tree, c);
      var i := NewFile(c, now);
      NewKinds(c, now);
      WriteInode(disk, sb, i);
      NewFileChange(v0, V(disk), i);
      ChangedSound(v0, V(disk), disk.g, c, File);
      ChangedNodes(v0, V(disk), c, File);
      TreeDetached(ns, tree, c, File);
      ChangedSafe(v0, V(disk), c, File, tree);
    }

    /// Creates an empty regular file. EEXIST when the name is taken; ENOSPC when no number
    /// is free, or when the directory cannot take the name, which leaves a nameless file.
    method Create(parent: u32, name: Name, now0: i64, now1: i64) returns (r: Reply<nat>)
      requires Valid() && IsDirHere(parent) && 1 <= |name| <= MAX_NAME_LEN
      modifies this, disk
      ensures Valid()
      ensures old(disk.hist) <= disk.hist && SafeSince(disk.g, disk.hist, old(|disk.hist|), old(tree), tree)
      ensures r == Err(EEXIST) <==> Step(old(Nodes()), parent, name).Some?
      ensures r.Ok? || r == Err(EEXIST) || r == Err(ENOSPC)
      ensures parent < |old(V(disk)).s.inodes|
      ensures r.Ok? <==>
        && Step(old(Nodes()), parent, name).None? && !Exhausted(old(V(disk)).s, 1000, 2000)
        && RoomFor(old(V(disk)), parent, 0)
      ensures r == Err(EEXIST) || (r.Err? && Exhausted(old(V(disk)).s, 1000, 2000)) ==>
        disk.blocks == old(disk.blocks) && sb == old(sb) && tree == old(tree)
      ensures r == Err(ENOSPC) && !Exhausted(old(V(disk)).s, 1000, 2000) ==>
        NamelessLeft(old(V(disk)), V(disk), old(tree), tree, now0)
      ensures r.Ok? ==> Created(old(V(disk)), V(disk), old(tree), tree, parent, name, r.value, now0, now1)
      ensures r.Ok? ==> CreateSays(old(V(disk)), V(disk), parent, r.value, now0, now1)
    {
      hide View, NodesOf, Owns, TreeOk, HeldIn, Counted, And, Sound, FolderOf, Slots, Frame, Enter, Link, NodeAt;
      ghost var v0, ns, t := V(disk), Nodes(), tree;
      OpenDir(parent);
      var dir := ReadInode(disk, sb, parent);
      FindIsStep(ns, parent, Slots(v0.s, dir), name);
      var found := DirFind(disk, dir, name);
      if found.Some? {
        return Err(EEXIST);
      }
      var free := FindFreeInode(disk, sb, FIRST_FILE, LAST_FILE);
      if free.None? {
        return Err(ENOSPC);
      }
      var c := free.value;
      MakeFile(c, now0);
      ghost var v1 := V(disk);
      ghost var h1 := disk.hist;
      StepNone(ns, parent, name);
      OpenDir(parent);
      DirUntouched(v0, v1, parent, c);
      var added, dir' := AddName(dir, name, c, false, now1);
      SafeSinceWider(disk.g, h1, old(|disk.hist|), t, tree);
      SafeSinceJoin(disk.g, h1, disk.hist, old(|disk.hist|), t, tree);
      if added != Added {
        return Err(ENOSPC);
      }
      CreatedNow(v0, v1, V(disk), t, parent, name, c, dir, dir', now0, now1);
      CreatedSays(v0, V(disk), t, tree, parent, name, c, now0, now1);
      return Ok(c);
    }

    // ---------- mkdir ----------

    /// Writes the block and the record of a new directory under a free number; false when
    /// there is no block.
    method MakeDir(c: u32, parent: u32, now: i64) returns (ok: bool)
      requires Valid() && LeastUnused(V(disk).s, FIRST_DIR, LAST_DIR, c)
      modifies this, disk
      ensures Valid() && tree == old(tree)
      ensures ok <==> old(sb.freeBlocks) > 0
      ensures !ok ==> disk.blocks == old(disk.blocks) && sb == old(sb)
      ensures ok ==> NamelessDir(old(V(disk)), V(disk), c, parent, now) && !Attached(tree, c)
      ensures old(disk.hist) <= disk.hist && SafeSince(disk.g, disk.hist, old(|disk.hist|), tree, tree)
    {
      hide View, NodesOf, Owns, TreeOk, HeldIn, Counted, And, DotBlock, Frame, FolderOf, Staged, DirRecord, Clean,
           IsDir, FileOk;
      ghost var v0, ns, h0 := V(disk), Nodes(), disk.hist;
      ghost var dots := Folder(Target(c, 2), Target(parent, 2), map[]);
      ViewFacts(disk.blocks, disk.g);
      SoundOwns(v0, disk.g);
      NodesAreNodes(v0.s);
      FreeIsDetached(ns, tree, c);
      ghost var mid;
      var r: Option<nat>;
      var sb';
      sb', r, mid := ReserveBlock(disk, sb);
      if r.None? {
        return false;
      }
      var b := r.value;
      sb := sb';
      ghost var h1 := disk.hist;
      ReservedStages(disk.g, h0, v0, mid, disk.blocks, c, dots);
      WriteDots(disk, b, c, parent);
      UnheldChanged(v0, V(disk), c, b, DotBlock(c, parent));
      StagedMore(disk.g, h1, |h0|, v0, c, Free, dots, disk.blocks);
      ghost var h2 := disk.hist;
      var i := DirRecord(c, b, now);
      DirRecordOk(c, b, now);
      WriteInode(disk, sb, i);
      NewDirChange(v0, V(disk), i, b, parent);
      DotBlockLayout(c, parent);
      StagedMore(disk.g, h2, |h0|, v0, c, Free, dots, disk.blocks);
      ChangedSound(v0, V(disk), disk.g, c, dots);
      ChangedNodes(v0, V(disk), c, dots);
      TreeDetached(ns, tree, c, dots);
      assert ns[c as int := Free] == ns;
      StagedSafe(disk.g, disk.hist, |h0|, v0, c, Free, dots, tree, tree);
      ok := true;
    }

    /// The two writes of allocate_block, seen from a free inode.
    static lemma ReservedStages(g: Geometry, h: seq<seq<Block>>, v: Vol, mid: seq<Block>, d: seq<Block>, n: nat,
                                b: Node)
      requires Accounted(v, g) && Sized(mid, g) && Sized(d, g) && n < |v.s.inodes|
      requires View(mid, g).s == v.s == View(d, g).s
      requires v.alloc <= View(mid, g).alloc && v.alloc <= View(d, g).alloc
      ensures Staged(g, h + [mid, d], |h|, v, n, NodeAt(v.s, n), b)
    {
      hide View, Changed, NodeAt, Staged, Owns, HeldIn;
      StagedNone(g, h, v, n);
      MarkedChanged(v, View(mid, g), n);
      MarkedChanged(v, View(d, g), n);
      StagedMore(g, h, |h|, v, n, NodeAt(v.s, n), b, mid);
      StagedMore(g, h + [mid], |h|, v, n, NodeAt(v.s, n), b, d);
      assert h + [mid] + [d] == h + [mid, d];
    }

    /// Creates an empty directory. EEXIST when the name is taken; ENOSPC when no number or
    /// no block is free. When the parent cannot take the name it panics, with the new
    /// directory on disk but under no name.
    method MkDir(parent: u32, name: Name, now0: i64, now1: i64) returns (r: Reply<nat>)
      requires Valid() && IsDirHere(parent) && 1 <= |name| <= MAX_NAME_LEN
      modifies this, disk
      ensures Valid()
      ensures old(disk.hist) <= disk.hist && SafeSince(disk.g, disk.hist, old(|disk.hist|), old(tree), tree)
      ensures r == Err(EEXIST) <==> Step(old(Nodes()), parent, name).Some?
      ensures r.Err? ==> disk.blocks == old(disk.blocks) && sb == old(sb) && tree == old(tree)
      ensures r.Err? ==> r.errno == EEXIST || r.errno == ENOSPC
      ensures r == Err(ENOSPC) <==>
        && Step(old(Nodes()), parent, name).None?
        && (old(sb.freeBlocks) == 0 || Exhausted(old(V(disk)).s, 500, 900))
      ensures parent < |old(V(disk)).s.inodes|
      ensures r.Ok? || r == Panic ==> (r.Ok? <==> RoomFor(old(V(disk)), parent, 1))
      ensures r == Panic ==>
        tree == old(tree) && exists c: nat :: NamelessDir(old(V(disk)), V(disk), c, parent, now0)
      ensures r.Ok? ==> MadeDir(old(V(disk)), V(disk), old(tree), tree, parent, name, r.value, now0, now1)
      ensures r.Ok? ==> MkDirSays(old(V(disk)), V(disk), parent, r.value, now0, now1)
    {
      hide View, NodesOf, Owns, TreeOk, HeldIn, Counted, And, Sound, FolderOf, Slots, Frame, Enter, Link, NodeAt,
           DirRecord, HeldSet;
      ghost var v0, ns, t := V(disk), Nodes(), tree;
      OpenDir(parent);
      SoundOwns(v0, disk.g);
      var dir := ReadInode(disk, sb, parent);
      FindIsStep(ns, parent, Slots(v0.s, dir), name);
      var found := DirFind(disk, dir, name);
      if found.Some? {
        return Err(EEXIST);
      }
      var free := FindFreeInode(disk, sb, FIRST_DIR, LAST_DIR);
      if free.None? {
        return Err(ENOSPC);
      }
      var c := free.value;
      var made := MakeDir(c, parent, now0);
      if !made {
        return Err(ENOSPC);
      }
      ghost var v1, h1 := V(disk), disk.hist;
      StepNone(ns, parent, name);
      DirUntouched(v0, v1, parent, c);
      OpenDir(parent);
      var added, dir' := AddName(dir, name, c, true, now1);
      SafeSinceWider(disk.g, h1, old(|disk.hist|), t, tree);
      SafeSinceJoin(disk.g, h1, disk.hist, old(|disk.hist|), t, tree);
      if added != Added {
        return Panic;
      }
      MadeDirNow(v0, v1, V(disk), t, parent, name, c, dir, dir', now0, now1);
      MadeDirSays(v0, V(disk), t, tree, parent, name, c, now0, now1);
      return Ok(c);
    }

    // ---------- unlink and rmdir ----------

    /// A name of a directory of the tree leads to an attached inode; a name of a file or
    /// subdirectory is not a dot.
    static lemma NamedChild(ns: Nodes, t: Tree, p: nat, name: Name)
      requires TreeOk(ns, t) && Attached(t, p) && IsFolder(ns, p) && Step(ns, p, name).Some?
      ensures var c := Step(ns, p, name).value;
        && Attached(t, c) && c < |ns| && (ns[c].File? || ns[c].Folder?)
        && (IsDot(name) ==> ns[c].Folder?)
        && (!IsDot(name) ==> name in ns[p].kids && ns[p].kids[name].ino == c && c != p)
    {
      StepStays(ns, t, p, name);
      assert FolderOk(ns, t, p);
      if p in t.up {
        assert LinkOk(ns, t, p);
      }
      if !IsDot(name) {
        assert LinkOk(ns, t, Step(ns, p, name).value);
      }
    }

    /// Removes a file. Its blocks, its record and its name go; all else stays.
    method Unlink(parent: u32, name: Name, now: i64) returns (r: Reply<()>)
      requires Valid() && IsDirHere(parent)
      modifies this, disk
      ensures Valid() && old(disk.hist) <= disk.hist
      ensures r.Ok? || r == Err(ENOENT) || r == Err(EISDIR)
      ensures r == Err(ENOENT) <==> Step(old(Nodes()), parent, name).None?
      ensures r == Err(EISDIR) <==>
        (Step(old(Nodes()), parent, name).Some? && IsFolder(old(Nodes()), Step(old(Nodes()), parent, name).value))
      ensures r.Err? ==> disk.blocks == old(disk.blocks) && sb == old(sb) && tree == old(tree)
      ensures r.Ok? ==>
        && Removed(old(V(disk)), V(disk), parent, name, Step(old(Nodes()), parent, name).value, now)
        && parent < |V(disk).s.inodes| == |old(V(disk)).s.inodes|
        && V(disk).s.inodes[parent] == old(V(disk)).s.inodes[parent].(mtime := now)
        && tree == Cut(old(tree), Step(old(Nodes()), parent, name).value)
    {
      hide View, NodesOf, Owns, TreeOk, HeldIn, Counted, And, Sound, FolderOf, Slots, Frame, Cut, NodeAt, HeldSet,
           Remove;
      ghost var v0, ns, t := V(disk), Nodes(), tree;
      OpenDir(parent);
      var dir := ReadInode(disk, sb, parent);
      FindIsStep(ns, parent, Slots(v0.s, dir), name);
      var found := DirFind(disk, dir, name);
      if found.None? {
        return Err(ENOENT);
      }
      var c := found.value.0.inode;
      NamedChild(ns, t, parent, name);
      ViewFacts(disk.blocks, disk.g);
      var i := ReadInode(disk, sb, c);
      NodeKind(v0.s, c);
      if And(i.mode, S_IFDIR) != 0 {
        return Err(EISDIR);
      }
      SoundIsAccounted(v0, disk.g);
      var sb' := FreeAll(disk, sb, i);
      sb := sb';
      i := i.(nlink := 0);
      ghost var v1 := v0.(s := v0.s.SetInode(i));
      WriteInode(disk, sb, i);
      RetiredDir(v0, v1, disk.g, i, dir);
      var dir', ok := DirRemoveEntry(disk, sb, dir, name, now);
      tree := Cut(t, c);
      ghost var node := WithoutKid(ns[parent], name);
      RetireThenUnlist(v0, v1, V(disk), dir, dir', node, c);
      FinishRemoval(v0, V(disk), disk.g, t, dir, dir', name, c, now);
      return Ok(());
    }

    static lemma NodeKind(s: Store, n: nat)
      requires n < |s.inodes| && (NodesOf(s)[n].File? || NodesOf(s)[n].Folder?)
      ensures Live(s, n) && (NodesOf(s)[n].Folder? <==> And(s.inodes[n].mode, S_IFDIR) != 0)
    {
      assert NodesOf(s)[n] == NodeAt(s, n);
      assert IsDir(s.inodes[n]) <==> And(s.inodes[n].mode, S_IFDIR) != 0;
    }

    static lemma SoundIsAccounted(v: Vol, g: Geometry)
      requires Sound(v, g)
      ensures Accounted(v, g)
    {
    }

    /// Retiring a file leaves the directory open.
    static lemma RetiredDir(v0: Vol, v1: Vol, g: Geometry, i: Inode, dir: Inode)
      requires Accounted(v0, g) && i.no < |v0.s.inodes| && v1.s == v0.s.SetInode(i) && !IsLive(i)
      requires Opened(v0.s, dir) && dir.no != i.no
      ensures Opened(v1.s, dir) && Slots(v1.s, dir) == Slots(v0.s, dir)
    {
      hide FolderOf;
      SetInodeFrame(v0.s, i);
      ChangeOne(v0.s, v1.s, i.no);
      assert Live(v0.s, dir.no) && Untouched(v0.s, v1.s, dir.no);
      UntouchedSlots(v0.s, v1.s, dir.no);
    }

    static lemma FinishRemoval(v0: Vol, v: Vol, g: Geometry, t: Tree, dir: Inode, dir': Inode, name: Name, c: nat,
                               now: i64)
      requires Sound(v0, g) && TreeOk(NodesOf(v0.s), t) && Removable(NodesOf(v0.s), t, dir.no, name)
      requires NodesOf(v0.s)[dir.no].kids[name].ino == c && dir' == dir.(mtime := now)
      requires Undone(v0, v, dir, dir', WithoutKid(NodesOf(v0.s)[dir.no], name), c)
      requires Describes(v.sb, g) && Counted(v.sb.freeBlocks, v.alloc, g.maxBlocks)
      requires v.sb == v0.sb.(freeBlocks := v.sb.freeBlocks)
      requires forall b | b in v0.s.data :: b >= g.DataStart()
      ensures Sound(v, g) && TreeOk(NodesOf(v.s), Cut(t, c)) && Removed(v0, v, dir.no, name, c, now)
    {
      hide FolderOf, Slots, FileOk, NodeAt, Owns, Held, HeldIn, HeldSet, TreeOk, Clean, Counted, NodesOf;
      SoundOwns(v0, g);
      UndoneSound(v0, v, g, dir, dir', WithoutKid(NodesOf(v0.s)[dir.no], name), c);
      UndoneNodes(v0, v, dir, dir', WithoutKid(NodesOf(v0.s)[dir.no], name), c);
      TreeRemove(NodesOf(v0.s), t, dir.no, name, Free);
    }

    /// Removes an empty directory. Its blocks, its record and its name go; all else stays.
    method RmDir(parent: u32, name: Name, now: i64) returns (r: Reply<()>)
      requires Valid() && IsDirHere(parent) && !IsDot(name)
      modifies this, disk
      ensures Valid() && old(disk.hist) <= disk.hist
      ensures r.Ok? || r == Err(ENOENT) || r == Err(ENOTDIR) || r == Err(ENOTEMPTY)
      ensures r == Err(ENOENT) <==> Step(old(Nodes()), parent, name).None?
      ensures r == Err(ENOTDIR) <==>
        (Step(old(Nodes()), parent, name).Some? && !IsFolder(old(Nodes()), Step(old(Nodes()), parent, name).value))
      ensures r == Err(ENOTEMPTY) <==>
        (Step(old(Nodes()), parent, name).Some? && IsFolder(old(Nodes()), Step(old(Nodes()), parent, name).value)
         && old(Nodes())[Step(old(Nodes()), parent, name).value].kids != map[])
      ensures r.Err? ==> disk.blocks == old(disk.blocks) && sb == old(sb) && tree == old(tree)
      ensures r.Ok? ==>
        && Removed(old(V(disk)), V(disk), parent, name, Step(old(Nodes()), parent, name).value, now)
        && parent < |V(disk).s.inodes| == |old(V(disk)).s.inodes|
        && V(disk).s.inodes[parent] == old(V(disk)).s.inodes[parent].(mtime := now)
        && tree == Cut(old(tree), Step(old(Nodes()), parent, name).value)
    {
      hide View, NodesOf, Owns, TreeOk, HeldIn, Counted, And, Sound, FolderOf, Slots, Frame, Cut, NodeAt, HeldSet,
           Remove, HeldBelow;
      ghost var v0, ns, t := V(disk), Nodes(), tree;
      OpenDir(parent);
      var dir := ReadInode(disk, sb, parent);
      FindIsStep(ns, parent, Slots(v0.s, dir), name);
      var found := DirFind(disk, dir, name);
      if found.None? {
        return Err(ENOENT);
      }
      var c := found.value.0.inode;
      NamedChild(ns, t, parent, name);
      ViewFacts(disk.blocks, disk.g);
      var child := ReadInode(disk, sb, c);
      NodeKind(v0.s, c);
      if And(child.mode, S_IFDIR) == 0 {
        return Err(ENOTDIR);
      }
      OpenDir(c);
      var entries := DirLookup(disk, child);
      EmptyIffTwo(Slots(v0.s, child));
      if |entries| > 2 {
        return Err(ENOTEMPTY);
      }
      SoundIsAccounted(v0, disk.g);
      DirHoldsPayload(v0.s, c);
      var sb' := FreePayload(disk, sb, child);
      sb := sb';
      var dir', ok := DirRemoveEntry(disk, sb, dir, name, now);
      ghost var v1 := V(disk);
      child := child.(nlink := 0);
      WriteInode(disk, sb, child);
      tree := Cut(t, c);
      ghost var node := WithoutKid(ns[parent], name);
      UnlistThenRetire(v0, v1, V(disk), dir, dir', node, c);
      FinishRemoval(v0, V(disk), disk.g, t, dir, dir', name, c, now);
      return Ok(());
    }

    // ---------- write and read ----------

    ghost predicate IsFileHere(n: nat)
      requires disk.Valid()
      reads this, disk
    {
      n < |Nodes()| && Nodes()[n].File?
    }

    lemma OpenFile(n: nat)
      requires Valid() && IsFileHere(n)
      ensures RegularFile(V(disk), n) && FileOk(V(disk).s, V(disk).s.inodes[n]) && V(disk).s.inodes[n].no == n
      ensures InTable(disk.g, n) && Accounted(V(disk), disk.g) && NodeAt(V(disk).s, n) == File
      ensures n < |V(disk).s.inodes|
      ensures V(disk).s.inodes[n].blockCount == PagesFor(V(disk).s.inodes[n].size) <= MAX_FILE_BLOCKS
    {
      ViewFacts(disk.blocks, disk.g);
      FileIsLive(V(disk).s, n);
      assert Shape(V(disk).s.inodes[n]);
    }

    /// Writes data at an offset of a file. A success splices the data into the file,
    /// zero-extended to the offset. EFBIG changes nothing; ENOSPC and the panic of the
    /// indirect block's allocation leave every file and directory as they were and leak
    /// the blocks already marked, which are all that were free.
    method Write(ino: u32, offset: nat, data: seq<byte>, now: i64) returns (r: Reply<nat>)
      requires Valid() && IsFileHere(ino)
      // The kernel keeps offsets below the point where the cast to u32 would truncate.
      requires offset + |data| + PAGE_SIZE - 1 < PAGE_SIZE * 0x1_0000_0000
      modifies this, disk
      ensures Valid() && tree == old(tree) && Nodes() == old(Nodes())
      ensures old(disk.hist) <= disk.hist && SafeSince(disk.g, disk.hist, old(|disk.hist|), tree, tree)
      ensures r == WriteAnswer(old(sb.freeBlocks), old(V(disk).s.inodes[ino].blockCount), offset, |data|)
      ensures WriteSays(r, old(sb.freeBlocks), old(V(disk).s.inodes[ino].blockCount), offset, |data|, sb.freeBlocks)
      ensures r == Err(EFBIG) || |data| == 0 ==> disk.blocks == old(disk.blocks) && sb == old(sb)
      ensures r == Err(ENOSPC) || r == Panic ==> OnlyLeaked(old(V(disk)), V(disk), disk.g) && sb.freeBlocks == 0
      ensures r.Ok? && |data| > 0 ==>
        && WroteFile(old(V(disk)), V(disk), ino, offset, data, now)
        && sb.freeBlocks ==
           old(sb.freeBlocks) - BlocksNeeded(old(V(disk).s.inodes[ino].blockCount), PagesFor(offset + |data|))
    {
      hide View, NodesOf, Owns, TreeOk, HeldIn, Counted, Sound, Frame, NodeAt, HeldSet, RegularFile, FileOk, Staged,
           GrowInv, Accounted, Stuck, Writing, Growing, Changed, WriteSays, WroteFile, Content, Written;
      ghost var v0, ns, from := V(disk), Nodes(), |disk.hist|;
      OpenFile(ino);
      var i := ReadInode(disk, sb, ino);
      WriteAnswerSays(sb.freeBlocks, i.blockCount, offset, |data|);
      if |data| == 0 {
        return Ok(0);
      }
      var required := (offset + |data| + PAGE_SIZE - 1) / PAGE_SIZE;
      if required > MAX_FILE_BLOCKS {
        return Err(EFBIG);
      }
      var sb', grown;
      sb', i, grown := GrowFile(disk, sb, i, required);
      sb := sb';
      if grown != Grew {
        StuckOutcome(v0, V(disk), disk.g, tree);
        StagedFileSafe(disk.g, disk.hist, from, v0, ino, tree);
        r := if grown == NoSpace then Err(ENOSPC) else Panic;
        return;
      }
      FinishWrite(i, offset, data, now, v0, from);
      return Ok(|data|);
    }

    /// The copy loop and the record of write, once the blocks are there.
    method FinishWrite(i: Inode, offset: nat, data: seq<byte>, now: i64, ghost v0: Vol, ghost from: nat)
      requires disk.Valid() && LayoutOk(disk.g) && V(disk).sb == sb && sb.rootInode == ROOT && |data| > 0
      requires Sound(v0, disk.g) && TreeOk(NodesOf(v0.s), tree) && GrowInv(v0, V(disk), disk.g, i)
      requires i.no < |v0.s.inodes| && NodeAt(v0.s, i.no) == File && FileOk(v0.s, v0.s.inodes[i.no])
      requires PagesFor(offset + |data|) <= i.blockCount <= MAX_FILE_BLOCKS
      requires i.blockCount == v0.s.inodes[i.no].blockCount || i.blockCount == PagesFor(offset + |data|)
      requires V(disk).sb == v0.sb.(freeBlocks := V(disk).sb.freeBlocks)
      requires Staged(disk.g, disk.hist, from, v0, i.no, File, File)
      modifies disk
      ensures Valid() && NodesOf(V(disk).s) == NodesOf(v0.s)
      ensures old(disk.hist) <= disk.hist && SafeSince(disk.g, disk.hist, from, tree, tree)
      ensures WroteFile(v0, V(disk), i.no, offset, data, now)
    {
      hide View, NodesOf, Owns, TreeOk, HeldIn, Counted, Sound, Frame, NodeAt, HeldSet, FileOk, Staged,
           GrowInv, Writing, Growing, Changed, Rest, WroteFile, Written, Content, SafeSince;
      ghost var v1 := V(disk);
      ViewFacts(disk.blocks, disk.g);
      GrewFacts(v0, v1, disk.g, i);
      WriteStart(v0, v1, i, offset, data);
      CopyData(disk, i, offset, data, v0, from);
      ghost var v2, h2 := V(disk), disk.hist;
      ViewFacts(disk.blocks, disk.g);
      var newSize := offset + |data|;
      var i' := i;
      if newSize > i'.size {
        i' := i'.(size := newSize);
      }
      i' := i'.(mtime := now);
      i' := i'.(atime := i'.mtime);
      WriteInode(disk, sb, i');
      WriteDone(v0, v2, V(disk), i, i', offset, data);
      StagedMore(disk.g, h2, from, v0, i.no, File, File, disk.blocks);
      StagedFileSafe(disk.g, disk.hist, from, v0, i.no, tree);
      WroteNow(v0, v1, V(disk), disk.g, i, i', offset, data, now, tree);
    }

    /// Reads a slice of a file.
    method Read(ino: u32, offset: nat, size: nat) returns (out: seq<byte>)
      requires Valid() && IsFileHere(ino)
      ensures var c := Content(V(disk).s, ino);
        out ==
          if offset >= |c| then [] else if offset + size <= |c| then c[offset..offset + size] else c[offset..]
    {
      hide View, NodesOf, RegularFile, FileOk, Content, Sound, TreeOk;
      OpenFile(ino);
      var i := ReadInode(disk, sb, ino);
      out := ReadFile(disk, i, offset, size);
    }

    // ---------- setattr, getattr, lookup, readdir ----------

    /// Changes the permission bits; the other bits of the mode, and so the kind, stay.
    method SetAttr(ino: u32, mode: Option<u32>, now: i64) returns (r: Inode)
      requires Valid() && Live(V(disk).s, ino)
      modifies disk
      ensures Valid() && Nodes() == old(Nodes())
      ensures old(disk.hist) <= disk.hist && SafeSince(disk.g, disk.hist, old(|disk.hist|), tree, tree)
      ensures r == old(V(disk)).s.inodes[ino].(mode := r.mode, mtime := now)
      ensures ModeSet(old(V(disk)).s.inodes[ino].mode, mode, r.mode)
      ensures V(disk) == old(V(disk)).(s := old(V(disk)).s.SetInode(r))
      ensures Frame(old(V(disk)).s, V(disk).s, {ino as nat})
      ensures Slots(V(disk).s, r) == old(Slots(V(disk).s, V(disk).s.inodes[ino]))
      ensures Content(V(disk).s, ino) == old(Content(V(disk).s, ino))
    {
      hide View, NodesOf, Owns, TreeOk, HeldIn, Counted, And, Or, Sound, Frame, NodeAt, FileOk, Slots, Content, Changed;
      ghost var v0, ns := V(disk), Nodes();
      ViewFacts(disk.blocks, disk.g);
      SoundOwns(v0, disk.g);
      NodesAreNodes(v0.s);
      var i := ReadInode(disk, sb, ino);
      r := i;
      if mode.Some? {
        Chmod(i.mode, mode.value);
        r := r.(mode := Or(And(i.mode, 0xF000), And(mode.value, 0x1FF)));
      }
      r := r.(mtime := now);
      SameKind(i, r);
      WriteInode(disk, sb, r);
      RecordOnly(v0, V(disk), disk.g, r);
      SetInodeFrame(v0.s, r);
      ChangedNodes(v0, V(disk), ino, NodeAt(v0.s, ino));
      assert ns[ino as int := NodeAt(v0.s, ino)] == ns;
      ChangedSafe(v0, V(disk), ino, NodeAt(v0.s, ino), tree);
    }

    method GetAttr(ino: u32) returns (r: Reply<Inode>)
      requires Valid() && InTable(disk.g, ino)
      ensures ino < |V(disk).s.inodes|
      ensures r == if Live(V(disk).s, ino) then Ok(V(disk).s.inodes[ino]) else Err(ENOENT)
    {
      hide View, Sound, TreeOk;
      ViewFacts(disk.blocks, disk.g);
      SoundOwns(V(disk), disk.g);
      var i := ReadInode(disk, sb, ino);
      if i.nlink == 0 {
        return Err(ENOENT);
      }
      return Ok(i);
    }

    /// One step of the namespace.
    method Lookup(parent: u32, name: Name) returns (r: Reply<Inode>)
      requires Valid() && IsDirHere(parent)
      ensures r.Ok? || r == Err(ENOENT)
      ensures r.Ok? <==> Step(Nodes(), parent, name).Some?
      ensures r.Ok? ==>
        && Step(Nodes(), parent, name) == Some(r.value.no as nat) && Attached(tree, r.value.no)
        && r.value.no < |Nodes()| && r.value == V(disk).s.inodes[r.value.no]
        && (Nodes()[r.value.no].Folder? || Nodes()[r.value.no].File?)
        && (Nodes()[r.value.no].Folder? <==> And(r.value.mode, S_IFDIR) != 0)
    {
      hide View, NodesOf, Owns, TreeOk, Sound, FolderOf, Slots, And;
      OpenDir(parent);
      var dir := ReadInode(disk, sb, parent);
      FindIsStep(Nodes(), parent, Slots(V(disk).s, dir), name);
      var found := DirFind(disk, dir, name);
      if found.None? {
        return Err(ENOENT);
      }
      NamedChild(Nodes(), tree, parent, name);
      ViewFacts(disk.blocks, disk.g);
      NodeKind(V(disk).s, found.value.0.inode);
      var child := ReadInode(disk, sb, found.value.0.inode);
      return Ok(child);
    }

    /// One page of a directory listing, from an offset, for a reply buffer of cap entries.
    method ReadDir(ino: u32, offset: int, cap: nat) returns (r: Reply<seq<ListedEntry>>)
      requires Valid() && Attached(tree, ino)
      ensures ino < |Nodes()|
      ensures r == Err(ENOTDIR) <==> !IsFolder(Nodes(), ino)
      ensures IsFolder(Nodes(), ino) ==>
        r == Ok(Page(LiveEntries(Slots(V(disk).s, V(disk).s.inodes[ino])), if offset < 0 then 0 else offset, cap))
    {
      hide View, NodesOf, Owns, TreeOk, Sound, FolderOf, Slots, And;
      ViewFacts(disk.blocks, disk.g);
      SoundOwns(V(disk), disk.g);
      AttachedKind(Nodes(), tree, ino);
      NodeKind(V(disk).s, ino);
      var dir := ReadInode(disk, sb, ino);
      if And(dir.mode, S_IFDIR) == 0 {
        return Err(ENOTDIR);
      }
      OpenDir(ino);
      var found := DirLookup(disk, dir);
      ghost var entries := LiveEntries(Slots(V(disk).s, dir));
      var reply: seq<ListedEntry> := [];
      var from := if offset < 0 then 0 else offset;
      var entryOffset := 0;
      while entryOffset < |found|
        invariant 0 <= entryOffset <= |found|
        invariant reply == Page(entries[..entryOffset], from, cap)
      {
        if entryOffset >= offset {
          var full := |reply| == cap;
          if full {
            PageFull(entries, entryOffset, from, cap);
            break;
          }
          reply := reply + [Listed(found[entryOffset].0, entryOffset)];
        }
        PageNext(entries, entryOffset, from, cap);
        entryOffset := entryOffset + 1;
      }
      assert entryOffset == |found| ==> entries[..entryOffset] == entries;
      return Ok(reply);
    }

    static lemma AttachedKind(ns: Nodes, t: Tree, n: nat)
      requires TreeOk(ns, t) && Attached(t, n)
      ensures n < |ns| && (ns[n].File? || ns[n].Folder?)
    {
    }
  }

  /// Nine bits from the request, four from the old mode.
  ghost predicate ModeSet(old_: u16, mode: Option<u32>, m: u16) {
    if mode.None? then m == old_
    else forall k: nat | k < 16 :: Bit(m, k) <==> (if k < 9 then Bit(mode.value, k) else k >= 12 && Bit(old_, k))
  }

  // ---------- what create leaves ----------

  /// A live file without a name was left behind; nothing else changed.
  ghost predicate LeftNameless(v0: Vol, v: Vol, c: nat, now: i64) {
    && LeastUnused(v0.s, FIRST_FILE, LAST_FILE, c) && c < |v0.s.inodes|
    && NodesOf(v.s) == NodesOf(v0.s)[c := File] && v.s.inodes == v0.s.inodes[c := NewFile(c, now)]
    && Frame(v0.s, v.s, {c}) && v.alloc == v0.alloc && v.sb == v0.sb
    && HeldSet(v.s, c) == {} && Content(v.s, c) == []
  }

  ghost predicate NamelessLeft(v0: Vol, v: Vol, t0: Tree, t: Tree, now: i64) {
    t == t0 && exists c: nat :: LeftNameless(v0, v, c, now)
  }

  /// The directory has a free slot, or room for one more block and a block for it once
  /// `taken` others are gone.
  ghost predicate RoomFor(v: Vol, p: nat, taken: nat)
    requires p < |v.s.inodes|
  {
    HasSlot(Slots(v.s, v.s.inodes[p])) || (v.s.inodes[p].blockCount < DIRECT_BLOCKS && v.sb.freeBlocks > taken)
  }

  /// The record of a directory that took a name: a new time, and one block more if it had
  /// no free slot.
  ghost predicate Stamped(v0: Vol, v: Vol, p: nat, now: i64)
    requires p < |v0.s.inodes| == |v.s.inodes|
  {
    var i, i' := v0.s.inodes[p], v.s.inodes[p];
    if HasSlot(Slots(v0.s, i)) then i' == i.(mtime := now)
    else i.blockCount < DIRECT_BLOCKS && exists b: u32 :: i' == WithBlock(i, b, now)
  }

  /// The file was made and entered.
  ghost predicate Created(v0: Vol, v: Vol, t0: Tree, t: Tree, parent: nat, name: Name, c: nat, now: i64, stamp: i64) {
    var ns0 := NodesOf(v0.s);
    && LeastUnused(v0.s, FIRST_FILE, LAST_FILE, c) && c < |v0.s.inodes| == |v.s.inodes|
    && IsFolder(ns0, parent) && parent != c && name !in ns0[parent].kids && !IsDot(name)
    && NodesOf(v.s) == Enter(ns0[c := File], parent, name, c) && t == Link(t0, parent, name, c)
    && v.s.inodes[c] == NewFile(c, now) && Stamped(v0, v, parent, stamp)
    && Frame(v0.s, v.s, {c, parent}) && Content(v.s, c) == [] && HeldSet(v.s, c) == {}
    && Rest(v, parent) == Rest(v0, parent) && v0.alloc <= v.alloc
    && v.sb == v0.sb.(freeBlocks := v.sb.freeBlocks)
    && (HasSlot(Slots(v0.s, v0.s.inodes[parent])) ==> v.alloc == v0.alloc && v.sb == v0.sb)
  }

  lemma UnusedIsDead(s: Store, lo: nat, hi: nat, c: nat)
    requires LeastUnused(s, lo, hi, c)
    ensures lo <= c <= hi && !Live(s, c) && !Exhausted(s, lo, hi)
  {
  }

  lemma CreatedNow(v0: Vol, v1: Vol, v: Vol, t: Tree, p: nat, name: Name, c: nat, dir: Inode, dir': Inode, now0: i64,
                   now1: i64)
    requires LeftNameless(v0, v1, c, now0) && p != c && Opened(v1.s, dir) && dir.no == p
    requires IsFolder(NodesOf(v0.s), p) && Owns(v0.s)
    requires EntryAdded(v1, v, dir, dir', name, Target(c, 1), now1)
    requires name !in NodesOf(v0.s)[p].kids && !IsDot(name)
    requires NodesOf(v.s) == Enter(NodesOf(v1.s), p, name, c)
    ensures Created(v0, v, t, Link(t, p, name, c), p, name, c, now0, now1)
  {
    hide NodesOf, FolderOf, Slots, NodeAt, Owns, HasSlot, LeastUnused;
    FrameTrans(v0.s, v1.s, v.s, {c}, {p}, {c, p});
    assert v.s.inodes[c] == v1.s.inodes[c];
    FolderIsLive(v0.s, p);
    UnusedIsDead(v0.s, FIRST_FILE, LAST_FILE, c);
    DirUntouched(v0, v1, p, c);
    FileIsLive(v1.s, c);
    assert Untouched(v0.s, v1.s, p) && Untouched(v1.s, v.s, c);
    UntouchedHeldSet(v0.s, v1.s, p);
    UntouchedHeldSet(v1.s, v.s, c);
  }

  // ---------- new records, field by field ----------

  /// What a new inode has: its number, owner 1000 and group 1000, one time for all three.
  ghost predicate FreshRecord(i: Inode, c: nat, mode: u16, links: u16, now: i64) {
    && i.no == c && i.mode == mode && i.uid == 1000 && i.gid == 1000 && i.nlink == links
    && i.mtime == now && i.atime == now && i.ctime == now && i.indirect == 0
  }

  /// A regular file of mode 0644, empty.
  ghost predicate FreshFile(i: Inode, c: nat, now: i64) {
    && FreshRecord(i, c, 0x81A4, 1, now) && i.size == 0 && i.blockCount == 0
    && i.direct == [0, 0, 0, 0, 0, 0, 0, 0, 0, 0]
  }

  /// A directory of mode 0755 in block b.
  ghost predicate FreshDir(i: Inode, c: nat, b: nat, now: i64) {
    && FreshRecord(i, c, 0x41ED, 2, now) && i.size == 510 && i.blockCount == 1
    && i.direct[0] == b && i.direct[1..] == [0, 0, 0, 0, 0, 0, 0, 0, 0]
  }

  /// A directory that took a name has the time; without a gap it has one more block too.
  ghost predicate TookName(i: Inode, i': Inode, gap: bool, now: i64) {
    && i' == i.(mtime := now, size := i'.size, blockCount := i'.blockCount, direct := i'.direct)
    && i'.blockCount == i.blockCount + (if gap then 0 else 1)
    && i'.size == (if gap then i.size else 510 * i'.blockCount)
    && forall k: nat | k < 10 && (gap || k != i.blockCount) :: i'.direct[k] == i.direct[k]
  }

  ghost predicate CreateSays(v0: Vol, v: Vol, p: nat, c: nat, now: i64, stamp: i64) {
    && p < |v0.s.inodes| == |v.s.inodes| && c < |v.s.inodes| && LeastUnused(v0.s, 1000, 2000, c)
    && FreshFile(v.s.inodes[c], c, now)
    && TookName(v0.s.inodes[p], v.s.inodes[p], HasSlot(Slots(v0.s, v0.s.inodes[p])), stamp)
  }

  ghost predicate MkDirSays(v0: Vol, v: Vol, p: nat, c: nat, now: i64, stamp: i64) {
    && p < |v0.s.inodes| == |v.s.inodes| && c < |v.s.inodes| && LeastUnused(v0.s, 500, 900, c)
    && FreshDir(v.s.inodes[c], c, v.s.inodes[c].direct[0], now) && NextBlock(v0.alloc, v.s.inodes[c].direct[0])
    && DotsIn(v, c, p)
    && TookName(v0.s.inodes[p], v.s.inodes[p], HasSlot(Slots(v0.s, v0.s.inodes[p])), stamp)
  }

  lemma StampedSays(v0: Vol, v: Vol, p: nat, now: i64)
    requires p < |v0.s.inodes| == |v.s.inodes| && Stamped(v0, v, p, now)
    ensures TookName(v0.s.inodes[p], v.s.inodes[p], HasSlot(Slots(v0.s, v0.s.inodes[p])), now)
  {
    hide HasSlot, Slots;
  }

  lemma CreatedSays(v0: Vol, v: Vol, t0: Tree, t: Tree, p: nat, name: Name, c: nat, now: i64, stamp: i64)
    requires Created(v0, v, t0, t, p, name, c, now, stamp)
    ensures CreateSays(v0, v, p, c, now, stamp)
  {
    hide NodesOf, HasSlot, Slots, Frame, Content, HeldSet, Stamped, Enter, Link, TookName;
    StampedSays(v0, v, p, stamp);
  }

  lemma MadeDirSays(v0: Vol, v: Vol, t0: Tree, t: Tree, p: nat, name: Name, c: nat, now: i64, stamp: i64)
    requires MadeDir(v0, v, t0, t, p, name, c, now, stamp)
    ensures MkDirSays(v0, v, p, c, now, stamp)
  {
    hide NodesOf, HasSlot, Slots, Frame, HeldSet, Stamped, Enter, Link, TookName, NextBlock, DotsIn, Rest, NodeAt,
         LeastUnused;
    StampedSays(v0, v, p, stamp);
  }

  /// Making the nameless file leaves the directory and its slots alone.
  lemma DirUntouched(v0: Vol, v1: Vol, p: nat, c: nat)
    requires Owns(v0.s) && Frame(v0.s, v1.s, {c}) && !Live(v0.s, c) && Live(v0.s, p)
    ensures p != c && v1.s.inodes[p] == v0.s.inodes[p]
    ensures Slots(v1.s, v1.s.inodes[p]) == Slots(v0.s, v0.s.inodes[p])
  {
    UntouchedSlots(v0.s, v1.s, p);
  }

  // ---------- what mkdir leaves ----------

  /// The first block of c has the two dots and is zero behind them.
  ghost predicate DotsIn(v: Vol, c: nat, parent: nat) {
    && c < |v.s.inodes| && c < 0x1_0000_0000 && parent < 0x1_0000_0000
    && DataAt(v.s, v.s.inodes[c].direct[0]) ==
       DirEntries.Encode(NewEntry(c, [0x2E], true)) + DirEntries.Encode(NewEntry(parent, [0x2E, 0x2E], true))
       + Zeros(444)
  }

  /// A directory with its two dots and one block, not yet entered anywhere.
  ghost predicate NamelessDir(v0: Vol, v: Vol, c: nat, parent: nat, now: i64) {
    && LeastUnused(v0.s, FIRST_DIR, LAST_DIR, c) && c < |v0.s.inodes|
    && NodesOf(v.s) == NodesOf(v0.s)[c := Folder(Target(c, 2), Target(parent, 2), map[])]
    && Frame(v0.s, v.s, {c})
    && exists b: u32 ::
      TookBlock(v0, v, b) && HeldSet(v.s, c) == {b as nat} && v.s.inodes == v0.s.inodes[c := DirRecord(c, b, now)]
      && DotsIn(v, c, parent)
  }

  /// Block b, the least free one, was marked and counted.
  ghost predicate TookBlock(v0: Vol, v: Vol, b: nat) {
    && NextBlock(v0.alloc, b) && v.alloc == v0.alloc + {b} && v0.sb.freeBlocks > 0
    && v.sb == v0.sb.(freeBlocks := v0.sb.freeBlocks - 1)
  }

  /// The directory was made and entered.
  ghost predicate MadeDir(v0: Vol, v: Vol, t0: Tree, t: Tree, parent: nat, name: Name, c: nat, now: i64, stamp: i64) {
    hide NodeAt, HeldSet;
    var ns0 := NodesOf(v0.s);
    && LeastUnused(v0.s, FIRST_DIR, LAST_DIR, c) && c < |v0.s.inodes| == |v.s.inodes|
    && IsFolder(ns0, parent) && parent != c && name !in ns0[parent].kids && !IsDot(name)
    && NodesOf(v.s) == Enter(ns0[c := Folder(Target(c, 2), Target(parent, 2), map[])], parent, name, c)
    && t == Link(t0, parent, name, c)
    && (exists b: u32 :: v.s.inodes[c] == DirRecord(c, b, now) && NextBlock(v0.alloc, b)) && DotsIn(v, c, parent)
    && Stamped(v0, v, parent, stamp)
    && Frame(v0.s, v.s, {c, parent}) && HeldSet(v.s, c) !! v0.alloc && |HeldSet(v.s, c)| == 1
    && Rest(v, parent) == Rest(v0, parent) + HeldSet(v.s, c) && v0.alloc + HeldSet(v.s, c) <= v.alloc
    && v.sb == v0.sb.(freeBlocks := v.sb.freeBlocks)
    && (HasSlot(Slots(v0.s, v0.s.inodes[parent])) ==>
      && v.alloc == v0.alloc + HeldSet(v.s, c)
      && v0.sb.freeBlocks > 0 && v.sb == v0.sb.(freeBlocks := v0.sb.freeBlocks - 1))
  }

  lemma MadeDirNow(v0: Vol, v1: Vol, v: Vol, t: Tree, p: nat, name: Name, c: nat, dir: Inode, dir': Inode, now0: i64,
                   now1: i64)
    requires NamelessDir(v0, v1, c, p, now0) && p != c && Opened(v1.s, dir) && dir.no == p
    requires IsFolder(NodesOf(v0.s), p) && Owns(v0.s) && HeldIn(v0.s, v0.alloc)
    requires EntryAdded(v1, v, dir, dir', name, Target(c, 2), now1)
    requires name !in NodesOf(v0.s)[p].kids && !IsDot(name)
    requires NodesOf(v.s) == Enter(NodesOf(v1.s), p, name, c)
    ensures MadeDir(v0, v, t, Link(t, p, name, c), p, name, c, now0, now1)
  {
    hide NodesOf, FolderOf, Slots, NodeAt, Owns, DirRecord, HeldIn, HasSlot, LeastUnused, DotsIn;
    FrameTrans(v0.s, v1.s, v.s, {c}, {p}, {c, p});
    DotsStay(v0, v1, v, c, p, now0);
    assert v.s.inodes[c] == v1.s.inodes[c];
    FolderIsLive(v0.s, p);
    UnusedIsDead(v0.s, FIRST_DIR, LAST_DIR, c);
    DirUntouched(v0, v1, p, c);
    NamelessIsLive(v0, v1, c, p, now0);
    assert Untouched(v0.s, v1.s, p) && Untouched(v1.s, v.s, c);
    UntouchedHeldSet(v0.s, v1.s, p);
    UntouchedHeldSet(v1.s, v.s, c);
    HeldSetAllocated(v0.s, v0.alloc, p);
  }

  lemma DotsStay(v0: Vol, v1: Vol, v: Vol, c: nat, p: nat, now: i64)
    requires NamelessDir(v0, v1, c, p, now) && p != c && Frame(v1.s, v.s, {p})
    ensures DotsIn(v, c, p)
  {
    hide NodesOf, HeldSet, DirEntries.Encode, NewEntry;
    assert Live(v1.s, c) && Untouched(v1.s, v.s, c);
    assert Has(v1.s.inodes[c], 0) && Held(v1.s, c, 0) == v1.s.inodes[c].direct[0];
  }

  lemma NamelessIsLive(v0: Vol, v: Vol, c: nat, p: nat, now: i64)
    requires NamelessDir(v0, v, c, p, now)
    ensures Live(v.s, c)
  {
    hide NodesOf, Frame, HeldSet;
  }

  // ---------- what write leaves ----------

  /// The answer of write, from the free blocks, the blocks of the file and the request.
  function WriteAnswer(free: nat, k: nat, offset: nat, len: nat): (r: Reply<nat>)
    ensures r.Err? ==> r.errno == EFBIG || r.errno == ENOSPC
  {
    if len == 0 then Ok(0)
    else if (offset + len + PAGE_SIZE - 1) / PAGE_SIZE > MAX_FILE_BLOCKS then Err(EFBIG)
    else match GrowAnswer(free, k, (offset + len + PAGE_SIZE - 1) / PAGE_SIZE)
      case Grew => Ok(len)
      case NoSpace => Err(ENOSPC)
      case GrowPanic => Panic
  }

  /// Blocks for a file of k blocks to have `pages`: one more when the eleventh is among them.
  ghost function Need(k: nat, pages: nat): nat {
    if pages <= k then 0 else if k <= 10 < pages then pages - k + 1 else pages - k
  }

  /// The answer of a write of len bytes to a file of k blocks, in numbers: a file has at most
  /// 20 blocks of 510 bytes, so 10200, and 10 of them, so 5100 bytes, without an indirect one.
  ghost predicate WriteSays(r: Reply<nat>, free: nat, k: nat, offset: nat, len: nat, free': nat) {
    var top := offset + len;
    var need := Need(k, (top + 509) / 510);
    && (r.Ok? <==> len == 0 || (top <= 10200 && free >= need))
    && (r.Ok? ==> r.value == len && free' == if len == 0 then free else free - need)
    && (r == Err(EFBIG) <==> len > 0 && top > 10200)
    && (r == Panic <==> len > 0 && k <= 10 && 5100 < top <= 10200 && free == 11 - k)
    && (r == Err(ENOSPC) <==> len > 0 && top <= 10200 && free < need && !(k <= 10 && 5100 < top && free == 11 - k))
    && (r == Err(EFBIG) ==> free' == free) && (r == Err(ENOSPC) || r == Panic ==> free' == 0)
  }

  lemma WriteAnswerSays(free: nat, k: nat, offset: nat, len: nat)
    ensures var r := WriteAnswer(free, k, offset, len);
      var free' := match r
        case Ok(_) => if len == 0 then free else free - BlocksNeeded(k, PagesFor(offset + len))
        case Err(e) => if e == EFBIG then free else 0
        case Panic => 0;
      free' >= 0 && WriteSays(r, free, k, offset, len, free')
  {
    GrowAnswerSays(free, k, (offset + len + PAGE_SIZE - 1) / PAGE_SIZE);
  }

  /// Every inode on disk reads as before; the blocks marked meanwhile belong to nobody.
  ghost predicate OnlyLeaked(v0: Vol, v: Vol, g: Geometry) {
    && Frame(v0.s, v.s, {}) && v.s.inodes == v0.s.inodes && v0.alloc <= v.alloc
    && Leaked(v, g) == Leaked(v0, g) + (v.alloc - v0.alloc)
    && v.sb == v0.sb.(freeBlocks := v.sb.freeBlocks)
  }

  /// The file has the data; the rest of the volume is untouched.
  ghost predicate WroteFile(v0: Vol, v: Vol, n: nat, offset: nat, data: seq<byte>, now: i64) {
    && n < |v0.s.inodes| == |v.s.inodes| && Frame(v0.s, v.s, {n})
    && Content(v.s, n) == Written(Content(v0.s, n), offset, data)
    && v.s.inodes[n] == v0.s.inodes[n].(size := v.s.inodes[n].size, blockCount := v.s.inodes[n].blockCount,
         direct := v.s.inodes[n].direct, indirect := v.s.inodes[n].indirect, mtime := now, atime := now)
    && Rest(v, n) == Rest(v0, n) && v0.alloc <= v.alloc
    && v.sb == v0.sb.(freeBlocks := v.sb.freeBlocks)
  }

  lemma StuckOutcome(v0: Vol, v: Vol, g: Geometry, t: Tree)
    requires Sound(v0, g) && TreeOk(NodesOf(v0.s), t) && Stuck(v0, v, g)
    ensures Sound(v, g) && NodesOf(v.s) == NodesOf(v0.s) && OnlyLeaked(v0, v, g)
  {
    hide TreeOk, Counted, NodesOf;
    FrameOwns(v0.s, v.s);
    FrameAllNodes(v0.s, v.s);
    FrameClean(v0.s, v.s, {});
    SameAllHeld(v0.s, v.s);
    assert AllHeld(v0.s) <= v0.alloc;
  }

  lemma SameAllHeld(s: Store, s': Store)
    requires Frame(s, s', {})
    ensures AllHeld(s') == AllHeld(s)
  {
    assert s'.inodes == s.inodes;
    forall n: nat, k: nat
      ensures Holds(s', n, k) <==> Holds(s, n, k)
      ensures Holds(s, n, k) ==> Held(s', n, k) == Held(s, n, k)
    {
      if Holds(s, n, k) {
        assert Untouched(s, s', n);
      }
    }
  }

  lemma StagedFileSafe(g: Geometry, hist: seq<seq<Block>>, from: nat, v: Vol, n: nat, t: Tree)
    requires Sound(v, g) && TreeOk(NodesOf(v.s), t) && n < |v.s.inodes| && NodeAt(v.s, n) == File
    requires Staged(g, hist, from, v, n, File, File)
    ensures SafeSince(g, hist, from, t, t)
  {
    hide View, Staged, TreeOk, Owns, NodeAt, Safe, Clean, HeldIn, Counted;
    assert NodesOf(v.s)[n := File] == NodesOf(v.s);
    StagedSafe(g, hist, from, v, n, File, File, t, t);
  }

  lemma GrewFacts(v0: Vol, v: Vol, g: Geometry, i: Inode)
    requires GrowInv(v0, v, g, i)
    ensures Growing(v0, v, i) && i.no < |v0.s.inodes| == |v.s.inodes| && v0.alloc <= v.alloc
    ensures Describes(v.sb, g) && Counted(v.sb.freeBlocks, v.alloc, g.maxBlocks) && Below(g.DataStart()) <= v.alloc
    ensures i == v0.s.inodes[i.no].(direct := i.direct, indirect := i.indirect, blockCount := i.blockCount)
  {
    hide Owns, HeldIn, HeldSet, Counted;
  }

  /// The copy loop and the record do not change which blocks are marked.
  lemma WroteNow(v0: Vol, v1: Vol, v: Vol, g: Geometry, i: Inode, i': Inode, offset: nat, data: seq<byte>, now: i64,
                 t: Tree)
    requires Sound(v0, g) && TreeOk(NodesOf(v0.s), t) && GrowInv(v0, v1, g, i)
    requires i.no < |v0.s.inodes| && NodeAt(v0.s, i.no) == File
    requires Changed(v0, v, i.no, File) && v.s.inodes[i.no] == i' && FileOk(v.s, i')
    requires Content(v.s, i.no) == Written(Content(v0.s, i.no), offset, data)
    requires Rest(v, i.no) == Rest(v0, i.no) && v.alloc == v1.alloc && v.sb == v1.sb
    requires i' == i.(size := i'.size, mtime := now, atime := now)
    requires v.sb == v0.sb.(freeBlocks := v.sb.freeBlocks)
    ensures Sound(v, g) && NodesOf(v.s) == NodesOf(v0.s)
    ensures WroteFile(v0, v, i.no, offset, data, now)
  {
    hide Owns, HeldIn, HeldSet, Counted, TreeOk, FileOk, Clean, Below, Written, Content, Growing;
    GrewFacts(v0, v1, g, i);
    KindKept(v0.s.inodes[i.no], i');
    ChangedSound(v0, v, g, i.no, File);
    FrameNodes(v0.s, v.s, i.no);
    assert NodesOf(v0.s)[i.no as int := File] == NodesOf(v0.s);
  }

  lemma KindKept(i: Inode, i': Inode)
    requires i'.mode == i.mode
    ensures IsDir(i') == IsDir(i)
  {
  }
}

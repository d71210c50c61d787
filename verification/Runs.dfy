/// Requests served one by one, and whole runs of them from a freshly formatted disk.

module Runs {
  import opened Wrappers
  import opened Bytes
  import opened Device
  import opened Superblock
  import opened Inodes
  import opened Volume
  import opened Allocator
  import opened Bitmap
  import opened InodeTable
  import opened Ownership
  import opened FileData
  import opened DirEntries
  import opened Namespace
  import opened DirView
  import opened Invariant
  import opened Format
  import opened Removal
  import opened Growth
  import opened FileIO
  import opened FileSystem
  import opened Conservation
  import opened Paging
  import opened Machine
  import opened Refinement

  /// Looks a path up from the root, one name at a time.
  method Reach(fs: SimpleFS, path: seq<Name>) returns (r: Option<Inode>)
    requires fs.Valid()
    ensures r.Some? <==> Walk(fs.Nodes(), ROOT, path).Some?
    ensures r.Some? ==> var n := r.value.no;
      && Walk(fs.Nodes(), ROOT, path) == Some(n as nat) && Attached(fs.tree, n)
      && n < |fs.Nodes()| && (fs.Nodes()[n].Folder? || fs.Nodes()[n].File?)
      && (fs.Nodes()[n].Folder? <==> And(r.value.mode, S_IFDIR) != 0)
  {
    hide View, NodesOf, Owns, TreeOk, Sound, And, Step, Walk, Attached;
    fs.RootHere();
    var current := ReadInode(fs.disk, fs.sb, fs.sb.rootInode);
    ghost var ns := fs.Nodes();
    assert path[0..] == path;
    var k := 0;
    while k < |path|
      invariant 0 <= k <= |path|
      invariant current.no < |ns| && Attached(fs.tree, current.no) && (ns[current.no].Folder? || ns[current.no].File?)
      invariant ns[current.no].Folder? <==> And(current.mode, S_IFDIR) != 0
      invariant Walk(ns, ROOT, path) == Walk(ns, current.no, path[k..])
    {
      WalkFrom(ns, current.no, path, k);
      if And(current.mode, S_IFDIR) == 0 {
        return None;
      }
      var found := fs.Lookup(current.no, path[k]);
      if !found.Ok? {
        return None;
      }
      current := found.value;
      k := k + 1;
    }
    WalkFrom(ns, current.no, path, k);
    return Some(current);
  }

  /// One step of the walk; only directories have names.
  lemma WalkFrom(ns: Nodes, n: nat, path: seq<Name>, k: nat)
    requires k <= |path|
    ensures k == |path| ==> Walk(ns, n, path[k..]) == Some(n)
    ensures k < |path| && !IsFolder(ns, n) ==> Walk(ns, n, path[k..]).None?
    ensures k < |path| && Step(ns, n, path[k]).None? ==> Walk(ns, n, path[k..]).None?
    ensures k < |path| && Step(ns, n, path[k]).Some? ==>
      Walk(ns, n, path[k..]) == Walk(ns, Step(ns, n, path[k]).value, path[k + 1..])
  {
    if k < |path| {
      assert path[k..][1..] == path[k + 1..];
    }
  }

  // ---------- one request ----------

  method ServeCreate(fs: SimpleFS, dir: seq<Name>, name: Name, now0: i64, now1: i64) returns (r: Answer)
    requires fs.Valid()
    modifies fs, fs.disk
    ensures fs.Valid() && OnCreate(old(Abstract(V(fs.disk))), dir, name, now0, now1, r, Abstract(V(fs.disk)))
    ensures old(fs.disk.hist) <= fs.disk.hist
    ensures SafeSince(fs.disk.g, fs.disk.hist, old(|fs.disk.hist|), old(fs.tree), fs.tree)
  {
    hide View, NodesOf, TreeOk, Sound, And, Step, Walk, Created, NamelessLeft, RoomFor, SafeSince, Named, Nameless,
         LeastNumber, NoNumber, Exhausted, Abstract, HeldIn, Owns, Slots, IsDot, Attached, Describes, Counted, Live,
         LayoutOk, IsDir, HasRoom;
    ghost var v0, t0 := V(fs.disk), fs.tree;
    TableHasAll(fs);
    NoWrites(fs);
    var p := Reach(fs, dir);
    if p.None? || And(p.value.mode, S_IFDIR) == 0 || !Fitting(name) {
      return Refused;
    }
    Numbers(v0.s, 1000, 2000);
    RoomIsRoom(v0, p.value.no, 0);
    var made := fs.Create(p.value.no, name, now0, now1);
    TableHasAll(fs);
    if made.Ok? {
      CreateRefines(v0, V(fs.disk), fs.disk.g, t0, fs.tree, p.value.no, name, made.value, now0, now1);
      return Answer.Made(made.value);
    }
    if made == Err(ENOSPC) && !Exhausted(v0.s, 1000, 2000) {
      LostFile(v0, V(fs.disk), fs.disk.g, t0, fs.tree, now0);
    }
    return Failed(made.errno);
  }

  lemma LostFile(v0: Vol, v: Vol, g: Geometry, t0: Tree, t: Tree, now: i64)
    requires Sound(v0, g) && NamelessLeft(v0, v, t0, t, now) && LAST_FILE < |v0.s.inodes|
    ensures exists c: nat ::
      LeastNumber(Abstract(v0).nodes, 1000, 2000, c) &&
      Nameless(Abstract(v0), Abstract(v), c, File, FileMeta(now), 0)
  {
    hide Sound, LeftNameless, NodesOf, Nameless, LeastNumber, Abstract;
    var c: nat :| LeftNameless(v0, v, c, now);
    NamelessRefines(v0, v, g, c, now);
  }

  /// The table has every number, and the image its magic number.
  lemma TableHasAll(fs: SimpleFS)
    requires fs.Valid()
    ensures LAST_FILE < |V(fs.disk).s.inodes| == |fs.Nodes()| && Sound(V(fs.disk), fs.disk.g)
    ensures IsValid(V(fs.disk).sb)
  {
    hide IsValid;
    ViewFacts(fs.disk.blocks, fs.disk.g);
    MagicKept(V(fs.disk), fs.disk.g);
  }

  lemma MagicKept(v: Vol, g: Geometry)
    requires Sound(v, g)
    ensures IsValid(v.sb)
  {
  }

  lemma NoWrites(fs: SimpleFS)
    ensures SafeSince(fs.disk.g, fs.disk.hist, |fs.disk.hist|, fs.tree, fs.tree)
  {
  }

  method ServeMkDir(fs: SimpleFS, dir: seq<Name>, name: Name, now0: i64, now1: i64) returns (r: Answer)
    requires fs.Valid()
    modifies fs, fs.disk
    ensures fs.Valid() && OnMkDir(old(Abstract(V(fs.disk))), dir, name, now0, now1, r, Abstract(V(fs.disk)))
    ensures old(fs.disk.hist) <= fs.disk.hist
    ensures SafeSince(fs.disk.g, fs.disk.hist, old(|fs.disk.hist|), old(fs.tree), fs.tree)
  {
    hide View, NodesOf, TreeOk, Sound, And, Step, Walk, MadeDir, NamelessDir, RoomFor, SafeSince, Named, Nameless,
         LeastNumber, NoNumber, Exhausted, Abstract, HeldIn, Owns, Slots, IsDot, Attached, Describes, Counted, Live,
         LayoutOk, IsDir, HasRoom, EmptyDir;
    ghost var v0, t0 := V(fs.disk), fs.tree;
    TableHasAll(fs);
    NoWrites(fs);
    var p := Reach(fs, dir);
    if p.None? || And(p.value.mode, S_IFDIR) == 0 || !Fitting(name) {
      return Refused;
    }
    Numbers(v0.s, 500, 900);
    RoomIsRoom(v0, p.value.no, 1);
    var made := fs.MkDir(p.value.no, name, now0, now1);
    TableHasAll(fs);
    match made
    case Ok(c) =>
      MkDirRefines(v0, V(fs.disk), fs.disk.g, t0, fs.tree, p.value.no, name, c, now0, now1);
      r := Answer.Made(c);
    case Err(e) =>
      r := Failed(e);
    case Panic =>
      LostDir(v0, V(fs.disk), fs.disk.g, p.value.no, now0);
      r := Halted;
  }

  lemma LostDir(v0: Vol, v: Vol, g: Geometry, p: nat, now: i64)
    requires Sound(v0, g) && LAST_DIR < |v0.s.inodes|
    requires exists c: nat :: NamelessDir(v0, v, c, p, now)
    ensures exists c: nat ::
      LeastNumber(Abstract(v0).nodes, 500, 900, c) &&
      Nameless(Abstract(v0), Abstract(v), c, EmptyDir(c, p), DirMeta(now), 1)
  {
    hide Sound, NamelessDir, NodesOf, Nameless, LeastNumber, Abstract, EmptyDir;
    var c: nat :| NamelessDir(v0, v, c, p, now);
    NamelessDirRefines(v0, v, g, p, c, now);
  }

  method ServeUnlink(fs: SimpleFS, dir: seq<Name>, name: Name, now: i64) returns (r: Answer)
    requires fs.Valid()
    modifies fs, fs.disk
    ensures fs.Valid() && OnUnlink(old(Abstract(V(fs.disk))), dir, name, now, r, Abstract(V(fs.disk)))
  {
    hide View, NodesOf, TreeOk, Sound, And, Step, Walk, Removed, Gone, Abstract;
    ghost var v0 := V(fs.disk);
    TableHasAll(fs);
    var p := Reach(fs, dir);
    if p.None? || And(p.value.mode, S_IFDIR) == 0 {
      return Refused;
    }
    ghost var ns := fs.Nodes();
    ghost var c := Step(ns, p.value.no, name);
    if c.Some? {
      SimpleFS.NamedChild(ns, fs.tree, p.value.no, name);
    }
    var gone := fs.Unlink(p.value.no, name, now);
    TableHasAll(fs);
    if gone.Ok? {
      RemovalRefines(v0, V(fs.disk), fs.disk.g, p.value.no, name, c.value, now);
      return Done;
    }
    return Failed(gone.errno);
  }

  method ServeRmDir(fs: SimpleFS, dir: seq<Name>, name: Name, now: i64) returns (r: Answer)
    requires fs.Valid()
    modifies fs, fs.disk
    ensures fs.Valid() && OnRmDir(old(Abstract(V(fs.disk))), dir, name, now, r, Abstract(V(fs.disk)))
  {
    hide View, NodesOf, TreeOk, Sound, And, Step, Walk, Removed, Gone, IsDot, Abstract, Cut, Attached;
    ghost var v0 := V(fs.disk);
    TableHasAll(fs);
    var p := Reach(fs, dir);
    if p.None? || And(p.value.mode, S_IFDIR) == 0 || IsDot(name) {
      return Refused;
    }
    ghost var c := Step(fs.Nodes(), p.value.no, name);
    var gone := fs.RmDir(p.value.no, name, now);
    TableHasAll(fs);
    if gone.Ok? {
      RemovalRefines(v0, V(fs.disk), fs.disk.g, p.value.no, name, c.value, now);
      return Done;
    }
    return Failed(gone.errno);
  }

  method ServeWrite(fs: SimpleFS, file: seq<Name>, offset: nat, data: seq<byte>, now: i64) returns (r: Answer)
    requires fs.Valid()
    modifies fs, fs.disk
    ensures fs.Valid() && OnWrite(old(Abstract(V(fs.disk))), file, offset, data, now, r, Abstract(V(fs.disk)))
    ensures old(fs.disk.hist) <= fs.disk.hist && fs.tree == old(fs.tree)
    ensures SafeSince(fs.disk.g, fs.disk.hist, old(|fs.disk.hist|), fs.tree, fs.tree)
  {
    hide View, NodesOf, TreeOk, Sound, And, Walk, WroteFile, OnlyLeaked, SafeSince, Written, Abstract,
         WriteAnswer, BlocksNeeded, PagesFor, Content, RegularFile, FileOk, Accounted;
    ghost var v0 := V(fs.disk);
    TableHasAll(fs);
    NoWrites(fs);
    var n := Reach(fs, file);
    if n.None? || And(n.value.mode, S_IFDIR) != 0 || !CanPass(offset, data) {
      return Refused;
    }
    fs.OpenFile(n.value.no);
    FileBytes(v0, n.value.no);
    var wrote := fs.Write(n.value.no, offset, data, now);
    match wrote
    case Ok(count) =>
      if |data| > 0 {
        WriteRefines(v0, V(fs.disk), fs.disk.g, n.value.no, offset, data, now);
      }
      r := Wrote(count);
    case Err(e) =>
      if e != EFBIG {
        LeakRefines(v0, V(fs.disk), fs.disk.g);
      }
      r := Failed(e);
    case Panic =>
      LeakRefines(v0, V(fs.disk), fs.disk.g);
      r := Halted;
  }

  lemma FileBytes(v: Vol, n: nat)
    requires n < |v.s.inodes| && NodesOf(v.s)[n] == File
    ensures Abstract(v).bytes[n] == Content(v.s, n) && |Content(v.s, n)| == v.s.inodes[n].size
  {
    hide NodesOf;
    FileIsLive(v.s, n);
  }

  method ServeRead(fs: SimpleFS, file: seq<Name>, offset: nat, size: nat) returns (r: Answer)
    requires fs.Valid()
    ensures OnRead(Abstract(V(fs.disk)), file, offset, size, r)
  {
    hide View, NodesOf, TreeOk, Sound, And, Walk, Content;
    TableHasAll(fs);
    var n := Reach(fs, file);
    if n.None? || And(n.value.mode, S_IFDIR) != 0 {
      return Refused;
    }
    FileIsLive(V(fs.disk).s, n.value.no);
    var out := fs.Read(n.value.no, offset, size);
    return Data(out);
  }

  /// Calls readdir from the last cookie on until a reply is empty.
  method ServeList(fs: SimpleFS, dir: seq<Name>, cap: nat) returns (r: Answer)
    requires fs.Valid()
    ensures OnList(Abstract(V(fs.disk)), dir, cap, r)
  {
    hide View, NodesOf, TreeOk, Sound, And, Walk, Slots, FolderOf, LiveEntries, Page, ListedAll, Lists, Abstract,
         Attached;
    var p := Reach(fs, dir);
    if p.None? || And(p.value.mode, S_IFDIR) == 0 || cap == 0 {
      return Refused;
    }
    var n := p.value.no;
    fs.OpenDir(n);
    ghost var ss := Slots(V(fs.disk).s, V(fs.disk).s.inodes[n]);
    ghost var entries := LiveEntries(ss);
    ListingComplete(ss);
    var list: seq<ListedEntry> := [];
    var offset := 0;
    while true
      invariant offset <= |entries| && list == ListedAll(entries)[..offset]
      decreases |entries| - offset
    {
      PageShape(entries, offset, cap);
      var page := fs.ReadDir(n, offset, cap);
      if page.value == [] {
        break;
      }
      list := list + page.value;
      offset := page.value[|page.value| - 1].cookie;
    }
    assert list == ListedAll(entries);
    return Entries(list);
  }

  method ServeStat(fs: SimpleFS, path: seq<Name>) returns (r: Answer)
    requires fs.Valid()
    ensures OnStat(Abstract(V(fs.disk)), path, r)
  {
    hide View, NodesOf, TreeOk, Sound, And, Walk, Content, Abstract, Attached, Pages, IsDir, Live, LayoutOk, NodeAt;
    TableHasAll(fs);
    var n := Reach(fs, path);
    if n.None? {
      return Refused;
    }
    ViewFacts(fs.disk.blocks, fs.disk.g);
    NodeTells(V(fs.disk).s, n.value.no);
    StatFacts(V(fs.disk), fs.disk.g, n.value.no);
    var i := fs.GetAttr(n.value.no);
    var a := i.value;
    return Attr(a.no, Meta(a.mode, a.uid, a.gid, a.nlink, a.mtime, a.atime, a.ctime), a.size, a.blockCount);
  }

  lemma StatFacts(v: Vol, g: Geometry, n: nat)
    requires Sound(v, g) && n < |v.s.inodes| && (NodesOf(v.s)[n].File? || NodesOf(v.s)[n].Folder?)
    ensures var a, i := Abstract(v), v.s.inodes[n];
      && i.no == n && a.metas[n] == Meta(i.mode, i.uid, i.gid, i.nlink, i.mtime, i.atime, i.ctime)
      && (NodesOf(v.s)[n].File? ==> i.size == |a.bytes[n]| && i.blockCount == Pages(|a.bytes[n]|))
      && (NodesOf(v.s)[n].Folder? ==> i.size == 510 * a.dirBlocks[n] && i.blockCount == a.dirBlocks[n])
  {
    hide NodesOf, Counted, IsDir, ByteAt;
    NodeTells(v.s, n);
  }

  method ServeSetAttr(fs: SimpleFS, path: seq<Name>, mode: Option<u32>, now: i64) returns (r: Answer)
    requires fs.Valid()
    modifies fs.disk
    ensures fs.Valid() && OnSetAttr(old(Abstract(V(fs.disk))), path, mode, now, r, Abstract(V(fs.disk)))
    ensures old(fs.disk.hist) <= fs.disk.hist && fs.tree == old(fs.tree)
    ensures SafeSince(fs.disk.g, fs.disk.hist, old(|fs.disk.hist|), fs.tree, fs.tree)
  {
    hide View, NodesOf, TreeOk, Sound, And, Walk, Content, Slots, ModeSet, SafeSince, SetAttrSpec, Abstract, Frame,
         Attached;
    ghost var v0 := V(fs.disk);
    TableHasAll(fs);
    NoWrites(fs);
    var n := Reach(fs, path);
    if n.None? {
      return Refused;
    }
    ViewFacts(fs.disk.blocks, fs.disk.g);
    NodeTells(v0.s, n.value.no);
    var i := fs.SetAttr(n.value.no, mode, now);
    SetAttrRefines(v0, V(fs.disk), fs.disk.g, n.value.no, mode, i, now);
    return Done;
  }

  /// Serves one request, with the checks a kernel makes before it calls the file system.
  method Serve(fs: SimpleFS, q: Request, now0: i64, now1: i64) returns (r: Answer)
    requires fs.Valid()
    modifies fs, fs.disk
    ensures fs.Valid() && Spec(old(Abstract(V(fs.disk))), q, (now0, now1), r, Abstract(V(fs.disk)))
    // The growing operations are safe at every single block write.
    ensures !q.DoUnlink? && !q.DoRmDir? ==>
      && old(fs.disk.hist) <= fs.disk.hist
      && SafeSince(fs.disk.g, fs.disk.hist, old(|fs.disk.hist|), old(fs.tree), fs.tree)
  {
    hide View, NodesOf, TreeOk, Sound, Walk, SafeSince, OnCreate, OnMkDir, OnUnlink, OnRmDir, OnWrite, OnRead, OnList,
         OnStat, OnSetAttr, Abstract;
    NoWrites(fs);
    match q
    case DoCreate(dir, name) => r := ServeCreate(fs, dir, name, now0, now1);
    case DoMkDir(dir, name) => r := ServeMkDir(fs, dir, name, now0, now1);
    case DoUnlink(dir, name) => r := ServeUnlink(fs, dir, name, now0);
    case DoRmDir(dir, name) => r := ServeRmDir(fs, dir, name, now0);
    case DoWrite(file, offset, data) => r := ServeWrite(fs, file, offset, data, now0);
    case DoRead(file, offset, size) => r := ServeRead(fs, file, offset, size);
    case DoList(dir, cap) => r := ServeList(fs, dir, cap);
    case DoStat(path) => r := ServeStat(fs, path);
    case DoSetAttr(path, mode) => r := ServeSetAttr(fs, path, mode, now0);
    case DoRemount => r := Done;
  }

  // ---------- whole runs ----------

  /// Every reachable state is valid, and the answers are a run of the machine that ends in
  /// what the disk means. A panic, and a remount, drop the object and mount the image again.
  method Run(g: Geometry, born: i64, requests: seq<Request>, clock: seq<(i64, i64)>)
    returns (fs: SimpleFS, answers: seq<Answer>, ghost states: seq<State>)
    requires LayoutOk(g) && |clock| == |requests|
    ensures fresh(fs) && fresh(fs.disk) && fs.disk.g == g && fs.Valid()
    ensures Trace(states, requests, clock, answers)
    ensures states[0] == NewState(g, born)
    ensures states[|requests|] == Abstract(V(fs.disk))
  {
    hide View, NodesOf, TreeOk, Sound, Spec, Abstract, NewState, JustRoot, IsValid, WithRoot, NoBlocksLeft, Trace,
         SafeSince;
    var disk := new Disk(g);
    fs := new SimpleFS.Mount(disk, true, born, EMPTY_TREE);
    ViewFacts(disk.blocks, g);
    NewRefines(V(disk), g, born);
    NoRequests(Abstract(V(disk)), requests, clock);
    answers, states := [], [Abstract(V(disk))];
    for k := 0 to |requests|
      invariant fresh(fs) && fs.disk == disk && fresh(disk) && disk.g == g && fs.Valid()
      invariant |answers| == k && |states| == k + 1 && Trace(states, requests[..k], clock, answers)
      invariant states[0] == NewState(g, born) && states[k] == Abstract(V(disk))
    {
      var r := Serve(fs, requests[k], clock[k].0, clock[k].1);
      if r.Halted? || requests[k].DoRemount? {
        TableHasAll(fs);
        fs := new SimpleFS.Mount(disk, false, 0, fs.tree);
      }
      TraceMore(states, requests, clock, answers, k, r, Abstract(V(disk)));
      answers, states := answers + [r], states + [Abstract(V(disk))];
    }
    assert requests[..|requests|] == requests;
  }

  lemma NoRequests(a: State, requests: seq<Request>, clock: seq<(i64, i64)>)
    requires Even(a)
    ensures Trace([a], requests[..0], clock, [])
  {
  }

  lemma TraceMore(states: seq<State>, requests: seq<Request>, clock: seq<(i64, i64)>, answers: seq<Answer>, k: nat,
                  r: Answer, a: State)
    requires k < |requests| <= |clock| && Trace(states, requests[..k], clock, answers)
    requires Even(a) && Spec(states[k], requests[k], clock[k], r, a)
    ensures Trace(states + [a], requests[..k + 1], clock, answers + [r])
  {
    hide Spec;
  }

  /// What a valid state promises about blocks: those in use are marked data blocks held
  /// once, the counter agrees with the bits, and the blocks in use add up.
  lemma ValidBlocks(fs: SimpleFS)
    requires fs.Valid()
    ensures var v, g := V(fs.disk), fs.disk.g;
      && (forall n: nat, k: nat | Holds(v.s, n, k) ::
            g.DataStart() <= Held(v.s, n, k) < g.maxBlocks && Held(v.s, n, k) in v.alloc)
      && (forall n: nat, k: nat, m: nat, j: nat |
            Holds(v.s, n, k) && Holds(v.s, m, j) && Held(v.s, n, k) == Held(v.s, m, j) :: n == m && k == j)
      && v.sb.freeBlocks == g.maxBlocks - |v.alloc|
      && g.maxBlocks - v.sb.freeBlocks == g.DataStart() + TotalUsage(v.s.inodes) + |Leaked(v, g)|
  {
    hide View, TreeOk, Clean, Held, Holds, TotalUsage, NodesOf, Describes, Leaked, Below;
    ViewFacts(fs.disk.blocks, fs.disk.g);
    BlocksConserved(V(fs.disk), fs.disk.g);
  }

  /// And about names: the reachable inodes are the attached ones, each reached by exactly
  /// one path without dots.
  lemma ValidNames(fs: SimpleFS, n: nat, path: seq<Name>)
    requires fs.Valid()
    ensures Attached(fs.tree, n) <==> exists way :: Walk(fs.Nodes(), ROOT, way) == Some(n)
    ensures TreeOk(fs.Nodes(), fs.tree)
    ensures DotFree(path) && Walk(fs.Nodes(), ROOT, path).Some? ==>
      && Attached(fs.tree, Walk(fs.Nodes(), ROOT, path).value)
      && path == PathOf(fs.Nodes(), fs.tree, Walk(fs.Nodes(), ROOT, path).value)
  {
    hide View, PathOf, NodesOf, TreeOk, Sound, Walk;
    KidsArePlain(V(fs.disk).s);
    ReachableIffAttached(fs.Nodes(), fs.tree, n);
    if DotFree(path) && Walk(fs.Nodes(), ROOT, path).Some? {
      PathUnique(fs.Nodes(), fs.tree, path);
    }
  }

  /// A mount of the image gives the volume the last one left.
  method Remount(fs: SimpleFS, now: i64) returns (again: SimpleFS)
    requires fs.Valid()
    modifies fs.disk
    ensures again.Valid() && again.disk == fs.disk && again.sb == fs.sb && again.tree == fs.tree
    ensures V(again.disk) == old(V(fs.disk)) && fs.disk.blocks == old(fs.disk.blocks)
  {
    hide View, NodesOf, Owns, TreeOk, Sound, IsValid, JustRoot, WithRoot, NoBlocksLeft;
    TableHasAll(fs);
    again := new SimpleFS.Mount(fs.disk, false, now, fs.tree);
  }
}

/// The volume on the disk refines the machine of names and bytes: what each operation
/// does to the blocks is what the machine says.

module Refinement {
  import opened Wrappers
  import opened Bytes
  import opened Device
  import opened Superblock
  import opened Inodes
  import opened Volume
  import opened Allocator
  import opened Bitmap
  import opened Ownership
  import opened FileData
  import opened DirEntries
  import opened Namespace
  import opened DirView
  import opened Invariant
  import opened Directory
  import opened Operations
  import opened Removal
  import opened Growth
  import opened Format
  import opened FileIO
  import opened FileSystem
  import opened Conservation
  import opened RoundTrip
  import opened Paging
  import opened Machine

  ghost function BytesOf(s: Store, n: nat): seq<byte>
    requires n < |s.inodes|
  {
    if Live(s, n) && !IsDir(s.inodes[n]) then Content(s, n) else []
  }

  ghost function MetaOf(s: Store, n: nat): Meta
    requires n < |s.inodes|
  {
    var i := s.inodes[n];
    if Live(s, n) then Meta(i.mode, i.uid, i.gid, i.nlink, i.mtime, i.atime, i.ctime) else NO_META
  }

  ghost function DirBlocksOf(s: Store, n: nat): nat
    requires n < |s.inodes|
  {
    if Live(s, n) && IsDir(s.inodes[n]) then s.inodes[n].blockCount else 0
  }

  ghost function Abstract(v: Vol): (a: State)
    ensures Even(a) && |a.nodes| == |v.s.inodes| && a.nodes == NodesOf(v.s) && a.free == v.sb.freeBlocks
  {
    State(NodesOf(v.s),
          seq(|v.s.inodes|, n requires 0 <= n < |v.s.inodes| => BytesOf(v.s, n)),
          seq(|v.s.inodes|, n requires 0 <= n < |v.s.inodes| => MetaOf(v.s, n)),
          seq(|v.s.inodes|, n requires 0 <= n < |v.s.inodes| => DirBlocksOf(v.s, n)),
          v.sb.freeBlocks)
  }

  /// Outside the frame the machine state stays.
  lemma SameOutside(s: Store, s': Store, X: set<nat>)
    requires Owns(s) && Clean(s) && Frame(s, s', X)
    ensures forall n: nat | n < |s.inodes| && n !in X ::
      BytesOf(s', n) == BytesOf(s, n) && MetaOf(s', n) == MetaOf(s, n) && DirBlocksOf(s', n) == DirBlocksOf(s, n)
  {
    hide Owns, Clean, Content, NodeAt, Slots;
    forall n: nat | n < |s.inodes| && n !in X
      ensures BytesOf(s', n) == BytesOf(s, n) && MetaOf(s', n) == MetaOf(s, n)
      ensures DirBlocksOf(s', n) == DirBlocksOf(s, n)
    {
      if Live(s, n) {
        OthersKeep(s, s', X, n);
      }
    }
  }

  /// A state of the machine is told by its nodes and its counter, and the rest one by one.
  lemma AbstractIs(v: Vol, a: State)
    requires Even(a) && a.nodes == NodesOf(v.s) && a.free == v.sb.freeBlocks
    requires forall n: nat | n < |v.s.inodes| ::
      a.bytes[n] == BytesOf(v.s, n) && a.metas[n] == MetaOf(v.s, n) && a.dirBlocks[n] == DirBlocksOf(v.s, n)
    ensures Abstract(v) == a
  {
    hide BytesOf, MetaOf, DirBlocksOf, NodesOf;
  }

  lemma AbstractAt(v: Vol)
    ensures forall n: nat | n < |v.s.inodes| ::
      && Abstract(v).bytes[n] == BytesOf(v.s, n) && Abstract(v).metas[n] == MetaOf(v.s, n)
      && Abstract(v).dirBlocks[n] == DirBlocksOf(v.s, n)
  {
    hide BytesOf, MetaOf, DirBlocksOf, NodesOf;
  }

  /// Nothing but inodes p and c differs.
  ghost predicate SameBut(a: State, a': State, p: nat, c: nat) {
    && Even(a) && Even(a') && |a'.nodes| == |a.nodes|
    && forall n: nat | n < |a.nodes| && n != p && n != c ::
      a'.bytes[n] == a.bytes[n] && a'.metas[n] == a.metas[n] && a'.dirBlocks[n] == a.dirBlocks[n]
  }

  lemma NamedIs(a: State, a': State, p: nat, name: Name, c: nat, node: Node, meta: Meta, blocks: nat, stamp: i64)
    requires SameBut(a, a', p, c) && IsFolder(a.nodes, p) && c < |a.nodes| && p != c
    requires a'.nodes == Enter(a.nodes[c := node], p, name, c)
    requires a'.bytes[c] == [] && a'.metas[c] == meta && a'.dirBlocks[c] == blocks
    requires a'.bytes[p] == a.bytes[p] && a'.metas[p] == a.metas[p].(mtime := stamp)
    requires var more := if HasGap(a, p) then 0 else 1;
      a'.dirBlocks[p] == a.dirBlocks[p] + more && a'.free + blocks + more == a.free
    ensures Named(a, a', p, name, c, node, meta, blocks, stamp)
  {
    hide HasGap, Enter;
    var b := With(a, c, node, meta, blocks);
    assert a'.bytes == b.bytes && a'.metas == b.metas[p := a'.metas[p]];
    assert a'.dirBlocks == b.dirBlocks[p := a'.dirBlocks[p]];
  }

  // ---------- counting blocks ----------

  /// The free blocks move with what one inode uses when the other blocks in use stay, but
  /// for `more` new ones.
  lemma FreeMoves(v0: Vol, v: Vol, g: Geometry, n: nat, more: set<nat>)
    requires Sound(v0, g) && Sound(v, g) && n < |v0.s.inodes| == |v.s.inodes|
    requires Rest(v, n) == Rest(v0, n) + more && more !! v0.alloc
    ensures v.sb.freeBlocks + Usage(v.s.inodes[n]) + |more| == v0.sb.freeBlocks + Usage(v0.s.inodes[n])
  {
    hide Owns, Clean, HeldSet, HeldIn, Usage, Describes, Below;
    HeldSetAllocated(v0.s, v0.alloc, n);
    HeldSetAllocated(v.s, v.alloc, n);
    HeldSetCount(v0.s, n);
    HeldSetCount(v.s, n);
    SizesMove(v0.alloc, HeldSet(v0.s, n), v.alloc, HeldSet(v.s, n), more);
  }

  lemma SizesMove(a: set<nat>, h: set<nat>, a': set<nat>, h': set<nat>, more: set<nat>)
    requires h <= a && h' <= a' && a' - h' == a - h + more && more !! a
    ensures |a'| - |h'| == |a| - |h| + |more|
  {
    assert a == (a - h) + h && a' == (a' - h') + h';
    assert |a - h + more| == |a - h| + |more|;
  }

  /// A directory has a free slot exactly if it has more slots than names and dots.
  lemma GapIsSlot(v: Vol, p: nat)
    requires IsFolder(NodesOf(v.s), p)
    ensures p < |v.s.inodes| && Live(v.s, p) && IsDir(v.s.inodes[p])
    ensures HasGap(Abstract(v), p) <==> HasSlot(Slots(v.s, v.s.inodes[p]))
    ensures Abstract(v).dirBlocks[p] == v.s.inodes[p].blockCount
  {
    hide FolderOf, IsDir, LiveEntries, HasSlot;
    FolderIsLive(v.s, p);
    assert NodesOf(v.s)[p] == NodeAt(v.s, p);
    var ss := Slots(v.s, v.s.inodes[p]);
    EntriesCount(ss);
    FullEntries(ss);
  }

  lemma RoomIsRoom(v: Vol, p: nat, taken: nat)
    requires IsFolder(NodesOf(v.s), p)
    ensures p < |v.s.inodes| && (HasRoom(Abstract(v), p, taken) <==> RoomFor(v, p, taken))
  {
    hide HasGap, HasSlot, Slots, NodesOf, Abstract;
    GapIsSlot(v, p);
  }

  // ---------- numbers and nodes ----------

  lemma Numbers(s: Store, lo: nat, hi: nat)
    requires hi < |s.inodes|
    ensures Exhausted(s, lo, hi) <==> NoNumber(NodesOf(s), lo, hi)
    ensures forall c: nat | LeastUnused(s, lo, hi, c) :: LeastNumber(NodesOf(s), lo, hi, c)
  {
    hide FolderOf;
    forall n: nat | n < |s.inodes|
      ensures NodesOf(s)[n] != Free <==> Live(s, n)
    {
      NodeTells(s, n);
    }
  }

  /// A node tells whether its inode is live, and of which kind.
  lemma NodeTells(s: Store, n: nat)
    requires n < |s.inodes|
    ensures NodesOf(s)[n] != Free <==> Live(s, n)
    ensures Live(s, n) ==> (NodesOf(s)[n] == File <==> !IsDir(s.inodes[n]))
  {
    hide FolderOf, IsDir;
    assert NodesOf(s)[n] == NodeAt(s, n);
    DirNode(Slots(s, s.inodes[n]));
  }

  lemma DirNode(ss: seq<DirEntry>)
    ensures FolderOf(ss).Folder? || FolderOf(ss).Garbled?
  {
  }

  /// The parent keeps its mode, has no bytes, and one block more if it had no gap.
  lemma ParentKept(v0: Vol, v: Vol, p: nat, now: i64)
    requires IsFolder(NodesOf(v0.s), p) && |v.s.inodes| == |v0.s.inodes| && Stamped(v0, v, p, now)
    ensures p < |v0.s.inodes| && BytesOf(v.s, p) == BytesOf(v0.s, p) == []
    ensures MetaOf(v.s, p) == MetaOf(v0.s, p).(mtime := now)
    ensures DirBlocksOf(v.s, p) == Abstract(v0).dirBlocks[p] + if HasGap(Abstract(v0), p) then 0 else 1
    ensures Usage(v0.s.inodes[p]) == Abstract(v0).dirBlocks[p] && Usage(v.s.inodes[p]) == DirBlocksOf(v.s, p)
  {
    hide NodesOf, HasSlot, Slots, HasGap, Abstract;
    GapIsSlot(v0, p);
    assert v.s.inodes[p].mode == v0.s.inodes[p].mode && v.s.inodes[p].nlink == v0.s.inodes[p].nlink;
  }

  lemma FileIsBare(s: Store, c: nat, now: i64)
    requires c < |s.inodes| && c < 0x1_0000_0000 && s.inodes[c] == NewFile(c, now) && Content(s, c) == []
    ensures BytesOf(s, c) == [] && MetaOf(s, c) == FileMeta(now) && DirBlocksOf(s, c) == 0
  {
    hide And;
    NewKinds(c, now);
  }

  lemma DirIsBare(s: Store, c: nat, b: u32, now: i64)
    requires c < |s.inodes| && c < 0x1_0000_0000 && s.inodes[c] == DirRecord(c, b, now)
    ensures BytesOf(s, c) == [] && MetaOf(s, c) == DirMeta(now) && DirBlocksOf(s, c) == 1
  {
    DirRecordOk(c, b, now);
  }

  lemma DeadIsBare(s: Store, c: nat)
    requires c < |s.inodes| && !Live(s, c)
    ensures BytesOf(s, c) == [] && MetaOf(s, c) == NO_META && DirBlocksOf(s, c) == 0
  {
  }

  lemma CreateRefines(v0: Vol, v: Vol, g: Geometry, t0: Tree, t: Tree, p: nat, name: Name, c: nat, now: i64, stamp: i64)
    requires Sound(v0, g) && Sound(v, g) && Created(v0, v, t0, t, p, name, c, now, stamp) && LAST_FILE < |v0.s.inodes|
    ensures LeastNumber(Abstract(v0).nodes, FIRST_FILE, LAST_FILE, c)
    ensures Named(Abstract(v0), Abstract(v), p, name, c, File, FileMeta(now), 0, stamp)
  {
    hide Owns, HeldIn, Counted, Frame, NodesOf, NodeAt, HasSlot, Slots, Content, Clean, HeldSet, Stamped, And, HasGap,
         Sound, Usage, Rest, Enter, BytesOf, MetaOf, DirBlocksOf, NewFile, DirRecord, Link, LeastUnused, NoNumber,
         LeastNumber, Exhausted, Describes, PagesFor, Abstract, EmptyDir, Named;
    UnusedIsDead(v0.s, FIRST_FILE, LAST_FILE, c);
    SoundParts(v0, g);
    SameOutside(v0.s, v.s, {c, p});
    Numbers(v0.s, FIRST_FILE, LAST_FILE);
    ParentKept(v0, v, p, stamp);
    FreeMoves(v0, v, g, p, {});
    FileIsBare(v.s, c, now);
    AbstractAt(v0);
    AbstractAt(v);
    NamedIs(Abstract(v0), Abstract(v), p, name, c, File, FileMeta(now), 0, stamp);
  }

  lemma SoundParts(v: Vol, g: Geometry)
    requires Sound(v, g)
    ensures Owns(v.s) && Clean(v.s)
  {
  }

  lemma NamelessRefines(v0: Vol, v: Vol, g: Geometry, c: nat, now: i64)
    requires Sound(v0, g) && LeftNameless(v0, v, c, now) && LAST_FILE < |v0.s.inodes|
    ensures LeastNumber(Abstract(v0).nodes, FIRST_FILE, LAST_FILE, c)
    ensures Nameless(Abstract(v0), Abstract(v), c, File, FileMeta(now), 0)
  {
    hide Owns, HeldIn, Counted, Frame, NodesOf, NodeAt, Slots, Content, Clean, HeldSet, And;
    SameOutside(v0.s, v.s, {c});
    Numbers(v0.s, FIRST_FILE, LAST_FILE);
    FileIsBare(v.s, c, now);
    AbstractIs(v, With(Abstract(v0), c, File, FileMeta(now), 0));
  }

  lemma IsEmptyDir(c: nat, p: nat)
    ensures EmptyDir(c, p) == Folder(Target(c, 2), Target(p, 2), map[])
  {
  }

  lemma MkDirRefines(v0: Vol, v: Vol, g: Geometry, t0: Tree, t: Tree, p: nat, name: Name, c: nat, now: i64, stamp: i64)
    requires Sound(v0, g) && Sound(v, g) && MadeDir(v0, v, t0, t, p, name, c, now, stamp) && LAST_DIR < |v0.s.inodes|
    ensures LeastNumber(Abstract(v0).nodes, FIRST_DIR, LAST_DIR, c)
    ensures Named(Abstract(v0), Abstract(v), p, name, c, EmptyDir(c, p), DirMeta(now), 1, stamp)
  {
    hide Owns, HeldIn, Counted, Frame, NodesOf, NodeAt, HasSlot, Slots, Content, Clean, HeldSet, Stamped, And, HasGap,
         Sound, Usage, Rest, Enter, BytesOf, MetaOf, DirBlocksOf, NewFile, DirRecord, Link, LeastUnused, NoNumber,
         LeastNumber, Exhausted, Describes, PagesFor, Abstract, EmptyDir, Named;
    UnusedIsDead(v0.s, FIRST_DIR, LAST_DIR, c);
    SoundParts(v0, g);
    SameOutside(v0.s, v.s, {c, p});
    Numbers(v0.s, FIRST_DIR, LAST_DIR);
    ParentKept(v0, v, p, stamp);
    FreeMoves(v0, v, g, p, HeldSet(v.s, c));
    var block: u32 :| v.s.inodes[c] == DirRecord(c, block, now);
    DirIsBare(v.s, c, block, now);
    AbstractAt(v0);
    AbstractAt(v);
    IsEmptyDir(c, p);
    NamedIs(Abstract(v0), Abstract(v), p, name, c, EmptyDir(c, p), DirMeta(now), 1, stamp);
  }

  lemma NamelessDirRefines(v0: Vol, v: Vol, g: Geometry, p: nat, c: nat, now: i64)
    requires Sound(v0, g) && NamelessDir(v0, v, c, p, now) && LAST_DIR < |v0.s.inodes|
    ensures LeastNumber(Abstract(v0).nodes, FIRST_DIR, LAST_DIR, c)
    ensures Nameless(Abstract(v0), Abstract(v), c, EmptyDir(c, p), DirMeta(now), 1)
  {
    hide Owns, HeldIn, Counted, Frame, NodesOf, NodeAt, Slots, Content, Clean, HeldSet, And;
    SameOutside(v0.s, v.s, {c});
    Numbers(v0.s, FIRST_DIR, LAST_DIR);
    var block: u32 :| v.s.inodes[c] == DirRecord(c, block, now);
    DirIsBare(v.s, c, block, now);
    AbstractIs(v, With(Abstract(v0), c, EmptyDir(c, p), DirMeta(now), 1).(free := v0.sb.freeBlocks - 1));
  }

  /// What a removed inode gives back is what it used.
  lemma HoldingIsUsage(v: Vol, g: Geometry, c: nat)
    requires Sound(v, g) && Live(v.s, c) && (IsFolder(NodesOf(v.s), c) || NodesOf(v.s)[c] == File)
    ensures Holding(Abstract(v), c) == Usage(v.s.inodes[c])
  {
    hide NodesOf, IsDir, Content, Counted, Owns, Clean;
    NodeTells(v.s, c);
  }

  lemma RemovalRefines(v0: Vol, v: Vol, g: Geometry, p: nat, name: Name, c: nat, now: i64)
    requires Sound(v0, g) && Sound(v, g) && Removed(v0, v, p, name, c, now)
    requires IsFolder(NodesOf(v0.s), c) || NodesOf(v0.s)[c] == File
    ensures Gone(Abstract(v0), p, name, now, Done, Abstract(v))
  {
    hide Owns, HeldIn, Counted, Frame, NodesOf, NodeAt, Slots, Content, Clean, HeldSet, And, Sound, Usage, Holding,
         Remove;
    var a := Abstract(v0);
    SoundParts(v0, g);
    SameOutside(v0.s, v.s, {p, c});
    FolderIsLive(v0.s, p);
    NodeTells(v0.s, c);
    HoldingIsUsage(v0, g, c);
    DeadHoldsNothing(v.s, c);
    FreeMoves(v0, v, g, c, {});
    DeadUsesNothing(v.s.inodes[c]);
    DeadIsBare(v.s, c);
    var b := With(a, c, Free, NO_META, 0);
    AbstractIs(v, b.(nodes := Remove(a.nodes, p, name, Free), metas := b.metas[p := a.metas[p].(mtime := now)],
                     free := a.free + Holding(a, c)));
  }

  lemma DeadUsesNothing(i: Inode)
    requires !IsLive(i)
    ensures Usage(i) == 0
  {
  }

  lemma WriteRefines(v0: Vol, v: Vol, g: Geometry, n: nat, offset: nat, data: seq<byte>, now: i64)
    requires Sound(v0, g) && WroteFile(v0, v, n, offset, data, now) && NodesOf(v.s) == NodesOf(v0.s)
    requires n < |v0.s.inodes| && NodesOf(v0.s)[n] == File
    ensures var a := Abstract(v0);
      Abstract(v) == a.(bytes := a.bytes[n := Written(a.bytes[n], offset, data)],
                        metas := a.metas[n := a.metas[n].(mtime := now, atime := now)], free := v.sb.freeBlocks)
  {
    hide Owns, HeldIn, Counted, Frame, NodesOf, NodeAt, Slots, Content, Clean, HeldSet, And, Written;
    var a := Abstract(v0);
    SameOutside(v0.s, v.s, {n});
    FileIsLive(v0.s, n);
    AbstractIs(v, a.(bytes := a.bytes[n := Written(a.bytes[n], offset, data)],
                     metas := a.metas[n := a.metas[n].(mtime := now, atime := now)], free := v.sb.freeBlocks));
  }

  lemma LeakRefines(v0: Vol, v: Vol, g: Geometry)
    requires Sound(v0, g) && OnlyLeaked(v0, v, g) && NodesOf(v.s) == NodesOf(v0.s)
    ensures Abstract(v) == Abstract(v0).(free := v.sb.freeBlocks)
  {
    hide Owns, HeldIn, Counted, Frame, NodesOf, Clean, BytesOf, MetaOf, DirBlocksOf;
    SameOutside(v0.s, v.s, {});
    AbstractIs(v, Abstract(v0).(free := v.sb.freeBlocks));
  }

  lemma SetAttrRefines(v0: Vol, v: Vol, g: Geometry, n: nat, mode: Option<u32>, i: Inode, now: i64)
    requires Sound(v0, g) && Live(v0.s, n) && Frame(v0.s, v.s, {n}) && NodesOf(v.s) == NodesOf(v0.s) && v.sb == v0.sb
    requires v.s.inodes[n] == i == v0.s.inodes[n].(mode := i.mode, mtime := now)
    requires Content(v.s, n) == Content(v0.s, n) && ModeSet(v0.s.inodes[n].mode, mode, i.mode)
    ensures SetAttrSpec(Abstract(v0), n, mode, now, Done, Abstract(v))
  {
    hide Owns, HeldIn, Counted, Frame, NodesOf, NodeAt, Slots, Content, Clean, ModeSet, IsDir;
    var a := Abstract(v0);
    SameOutside(v0.s, v.s, {n});
    NodeTells(v0.s, n);
    NodeTells(v.s, n);
    assert ModeSet(a.metas[n].mode, mode, i.mode);
    AbstractIs(v, a.(metas := a.metas[n := a.metas[n].(mode := i.mode, mtime := now)]));
  }

  /// The live entries of a directory are its names, each once.
  lemma ListingComplete(ss: seq<DirEntry>)
    requires FolderOf(ss).Folder?
    ensures Lists(ListedAll(LiveEntries(ss)), FolderOf(ss))
  {
    hide LiveEntries, ListedAll, Listing, HasEntry;
    var m := Listing(ss);
    forall name | name in m
      ensures HasEntry(ListedAll(LiveEntries(ss)), name, m[name])
    {
      NameListed(ss, name);
    }
    EntriesCount(ss);
  }

  lemma NameListed(ss: seq<DirEntry>, name: Name)
    requires name in Listing(ss)
    ensures HasEntry(ListedAll(LiveEntries(ss)), name, Listing(ss)[name])
  {
    FindInListing(ss, name);
    LiveEntriesMembers(ss);
    var e, list := ss[Find(ss, name)], ListedAll(LiveEntries(ss));
    assert IsNamed(e, name);
    var k :| 0 <= k < |LiveEntries(ss)| && LiveEntries(ss)[k] == e;
    assert list[k] == Listed(e, k);
  }

  /// A new file system: the root directory, empty, in one block, and nothing else.
  ghost function NewState(g: Geometry, now: i64): State
    requires g.Ok()
  {
    var n := INODES_PER_BLOCK * g.tableBlocks;
    var free := g.maxBlocks - g.DataStart() - 1;
    var none := State(seq(n, _ => Free), seq(n, _ => []), seq(n, _ => NO_META), seq(n, _ => 0), free);
    With(none, ROOT, EmptyDir(ROOT, ROOT), DirMeta(now), 1)
  }

  lemma NewRefines(v: Vol, g: Geometry, now: i64)
    requires g.Ok() && JustRoot(v.s, now) && |v.s.inodes| == INODES_PER_BLOCK * g.tableBlocks
    requires v.sb.freeBlocks == g.maxBlocks - g.DataStart() - 1
    ensures Abstract(v) == NewState(g, now)
  {
    hide FolderOf, And, NodesOf, NodeAt;
    NewKinds(ROOT, now);
    forall n: nat | n < |v.s.inodes|
      ensures Live(v.s, n) <==> n == ROOT
    {
      NodeTells(v.s, n);
    }
    AbstractIs(v, NewState(g, now));
  }
}

/// Giving blocks back and removing names (src/fs.rs:386-425, 526-558).

module Removal {
  import opened Wrappers
  import opened Bytes
  import opened Device
  import opened Superblock
  import opened Inodes
  import opened Volume
  import opened Allocator
  import opened Bitmap
  import opened InodeTable
  import opened Ownership
  import opened FileData
  import opened DirEntries
  import opened Namespace
  import opened DirView
  import opened Invariant
  import opened Directory

  /// The blocks of inode n below slot j.
  ghost function HeldBelow(s: Store, n: nat, j: nat): set<nat>
    requires n < |s.inodes|
  {
    if j == 0 then {} else HeldBelow(s, n, j - 1) + {Held(s, n, j - 1)}
  }

  lemma {:induction false} HeldBelowMembers(s: Store, n: nat, j: nat)
    requires n < |s.inodes| && j <= INDIRECT_SLOT
    ensures forall k: nat | k < j :: Held(s, n, k) in HeldBelow(s, n, j)
    ensures forall x | x in HeldBelow(s, n, j) :: exists k: nat :: k < j && Held(s, n, k) == x
  {
    if j > 0 {
      HeldBelowMembers(s, n, j - 1);
      forall x | x in HeldBelow(s, n, j) ensures exists k: nat :: k < j && Held(s, n, k) == x {
        if x in HeldBelow(s, n, j - 1) {
          var k: nat :| k < j - 1 && Held(s, n, k) == x;
        }
      }
    }
  }

  /// The payload blocks and the indirect block are all an inode holds.
  lemma HeldSetParts(s: Store, n: nat)
    requires Owns(s) && Live(s, n)
    ensures var i := s.inodes[n];
      HeldSet(s, n) == HeldBelow(s, n, i.blockCount) + if i.indirect != 0 then {i.indirect as nat} else {}
  {
    var i := s.inodes[n];
    HeldBelowMembers(s, n, i.blockCount);
    forall x | x in HeldBelow(s, n, i.blockCount) ensures x in HeldSet(s, n) {
      var k: nat :| k < i.blockCount && Held(s, n, k) == x;
      assert Holds(s, n, k);
    }
    assert i.indirect != 0 ==> Holds(s, n, INDIRECT_SLOT) && Held(s, n, INDIRECT_SLOT) == i.indirect;
  }

  /// The loop that marks the payload blocks of an inode free.
  method FreePayload(disk: Disk, sb: SuperBlock, i: Inode) returns (sb': SuperBlock)
    requires disk.Valid() && Accounted(V(disk), disk.g) && V(disk).sb == sb
    requires Live(V(disk).s, i.no) && V(disk).s.inodes[i.no] == i
    modifies disk
    ensures disk.Valid()
    ensures var v := old(V(disk));
      V(disk) == v.(sb := sb', alloc := v.alloc - HeldBelow(v.s, i.no, i.blockCount))
    ensures Describes(sb', disk.g) && Counted(sb'.freeBlocks, V(disk).alloc, disk.g.maxBlocks)
    ensures sb'.freeBlocks == sb.freeBlocks + i.blockCount && sb' == sb.(freeBlocks := sb'.freeBlocks)
    ensures old(disk.hist) <= disk.hist
  {
    hide View, HeldIn, Owns, BlockNo, Held, Counted, HeldBelow, Accounted, Below, Frees, Holds;
    ghost var v0, n := V(disk), i.no;
    AccountedParts(v0, disk.g);
    NoneBelow(v0.s, n);

    sb' := sb;
    for k := 0 to i.blockCount
      invariant disk.Valid() && old(disk.hist) <= disk.hist
      invariant V(disk) == v0.(sb := sb', alloc := v0.alloc - HeldBelow(v0.s, n, k))
      invariant Describes(sb', disk.g) && Counted(sb'.freeBlocks, V(disk).alloc, disk.g.maxBlocks)
      invariant sb'.freeBlocks == sb.freeBlocks + k && sb' == sb.(freeBlocks := sb'.freeBlocks)
    {
      PayloadBlock(v0, disk.g, n, k);
      var b := GetBlock(disk, i, k);
      if b.Some? {
        CountedRoom(sb'.freeBlocks, V(disk).alloc, disk.g.maxBlocks);
        CountedFree(sb'.freeBlocks, V(disk).alloc, disk.g.maxBlocks, b.value);
        sb' := MarkFree(disk, sb', b.value);
        NextBelow(v0.alloc, v0.s, n, k);
      }
    }
  }

  lemma NoneBelow(s: Store, n: nat)
    requires n < |s.inodes|
    ensures HeldBelow(s, n, 0) == {}
  {
  }

  lemma NextBelow(alloc: set<nat>, s: Store, n: nat, k: nat)
    requires n < |s.inodes|
    ensures alloc - HeldBelow(s, n, k + 1) == alloc - HeldBelow(s, n, k) - {Held(s, n, k)}
  {
  }

  lemma CountedRoom(free: nat, alloc: set<nat>, max: nat)
    requires Counted(free, alloc, max)
    ensures free <= max && forall b | b in alloc :: b < max
  {
  }

  lemma PayloadBlock(v: Vol, g: Geometry, n: nat, k: nat)
    requires Accounted(v, g) && Live(v.s, n) && k < v.s.inodes[n].blockCount
    ensures var i, b := v.s.inodes[n], Held(v.s, n, k);
      && b == BlockNo(v.s, i, k) && b != 0 && b in v.alloc && b !in HeldBelow(v.s, n, k)
      && (i.indirect != 0 ==> i.indirect in v.s.data) && i.blockCount <= MAX_FILE_BLOCKS
  {
    var i := v.s.inodes[n];
    assert Holds(v.s, n, k) && Held(v.s, n, k) in v.s.data;
    assert i.indirect != 0 ==> Holds(v.s, n, INDIRECT_SLOT) && Held(v.s, n, INDIRECT_SLOT) == i.indirect;
    assert Shape(i);
    HeldBelowMembers(v.s, n, k);
    forall j: nat | j < k ensures Held(v.s, n, j) != Held(v.s, n, k) {
      assert Holds(v.s, n, j);
    }
  }

  lemma IndirectBlock(v: Vol, g: Geometry, n: nat)
    requires Accounted(v, g) && Live(v.s, n) && v.s.inodes[n].indirect != 0
    ensures var i := v.s.inodes[n];
      i.indirect in v.alloc && i.indirect as nat !in HeldBelow(v.s, n, i.blockCount)
  {
    var i := v.s.inodes[n];
    assert Holds(v.s, n, INDIRECT_SLOT) && Held(v.s, n, INDIRECT_SLOT) == i.indirect;
    assert Shape(i);
    HeldBelowMembers(v.s, n, i.blockCount);
    forall j: nat | j < i.blockCount ensures Held(v.s, n, j) != i.indirect {
      assert Holds(v.s, n, j);
    }
  }

  // ---------- after the removal ----------

  /// The name is gone from directory p, which has the time, the record of c is free and its
  /// blocks are too.
  ghost predicate Removed(v0: Vol, v: Vol, p: nat, name: Name, c: nat, now: i64) {
    var ns0 := NodesOf(v0.s);
    && p != c && p < |v0.s.inodes| == |v.s.inodes| && c < |v0.s.inodes|
    && IsFolder(ns0, p) && name in ns0[p].kids && ns0[p].kids[name].ino == c
    && NodesOf(v.s) == Remove(ns0, p, name, Free)
    && Frame(v0.s, v.s, {p, c})
    && v.alloc == v0.alloc - HeldSet(v0.s, c)
    && v.sb == v0.sb.(freeBlocks := v.sb.freeBlocks)
    && HeldSet(v.s, p) == HeldSet(v0.s, p) && v.s.inodes[c] == v0.s.inodes[c].(nlink := 0)
    && v.s.inodes[p] == v0.s.inodes[p].(mtime := now)
  }

  /// What the two orders of writing come to.
  ghost predicate Undone(v0: Vol, v: Vol, dir: Inode, dir': Inode, node: Node, c: nat) {
    && dir.no < |v0.s.inodes| && v0.s.inodes[dir.no] == dir && IsLive(dir) && IsDir(dir)
    && dir.no != c && Live(v0.s, c)
    && |v.s.inodes| == |v0.s.inodes| && v.s.inodes[dir.no] == dir' && dir' == dir.(mtime := dir'.mtime)
    && v.s.inodes[c] == v0.s.inodes[c].(nlink := 0)
    && Frame(v0.s, v.s, {dir.no, c}) && Owns(v.s) && NodeAt(v.s, dir.no) == node
    && (forall k: nat :: Held(v.s, dir.no, k) == Held(v0.s, dir.no, k))
    && v.alloc == v0.alloc - HeldSet(v0.s, c)
  }

  lemma UndoneSound(v0: Vol, v: Vol, g: Geometry, dir: Inode, dir': Inode, node: Node, c: nat)
    requires Sound(v0, g) && Undone(v0, v, dir, dir', node, c)
    requires Describes(v.sb, g) && Counted(v.sb.freeBlocks, v.alloc, g.maxBlocks)
    requires forall b | b in v0.s.data :: b >= g.DataStart()
    ensures Sound(v, g) && HeldSet(v.s, dir.no) == HeldSet(v0.s, dir.no)
  {
    hide FolderOf, Slots, FileOk;
    UndoneHeldIn(v0, v, dir, dir', node, c);
    FrameClean(v0.s, v.s, {dir.no, c}) by {
      assert Live(v0.s, dir.no);
    }
    SameHeldSet(v0.s, v.s, dir.no);
    HeldSetInData(v0.s, c);
  }

  lemma HeldSetInData(s: Store, n: nat)
    requires Owns(s) && n < |s.inodes|
    ensures forall b | b in HeldSet(s, n) :: b in s.data
  {
  }

  lemma UndoneHeldIn(v0: Vol, v: Vol, dir: Inode, dir': Inode, node: Node, c: nat)
    requires Owns(v0.s) && HeldIn(v0.s, v0.alloc) && Undone(v0, v, dir, dir', node, c)
    ensures HeldIn(v.s, v.alloc)
  {
    hide FolderOf, Slots, NodeAt;
    forall m: nat, k: nat | Holds(v.s, m, k)
      ensures Held(v.s, m, k) in v.alloc
    {
      assert m != c && Holds(v0.s, m, k);
      if m != dir.no {
        assert Untouched(v0.s, v.s, m);
      }
      assert Held(v.s, m, k) == Held(v0.s, m, k);
    }
  }

  lemma UndoneNodes(v0: Vol, v: Vol, dir: Inode, dir': Inode, node: Node, c: nat)
    requires Owns(v0.s) && Undone(v0, v, dir, dir', node, c)
    ensures NodesOf(v.s) == NodesOf(v0.s)[dir.no as int := node][c := Free]
  {
    hide FolderOf;
    forall m: nat | m < |v0.s.inodes| && m != dir.no && m != c
      ensures NodeAt(v.s, m) == NodeAt(v0.s, m)
    {
      if Live(v0.s, m) {
        assert Untouched(v0.s, v.s, m);
        UntouchedSlots(v0.s, v.s, m);
      }
    }
  }

  /// unlink: the record is retired first, the name removed after.
  lemma RetireThenUnlist(v0: Vol, v1: Vol, v: Vol, dir: Inode, dir': Inode, node: Node, c: nat)
    requires Owns(v0.s) && Opened(v0.s, dir) && Live(v0.s, c) && dir.no != c
    requires v1.s == v0.s.SetInode(v0.s.inodes[c].(nlink := 0)) && v0.s.inodes[c].no == c
    requires Relisted(v1.s, v.s, dir, dir', node) && dir' == dir.(mtime := dir'.mtime)
    requires v.alloc == v0.alloc - HeldSet(v0.s, c)
    ensures Undone(v0, v, dir, dir', node, c)
  {
    hide FolderOf, Slots, HeldSet, NodeAt;
    SetInodeFrame(v0.s, v0.s.inodes[c].(nlink := 0));
    FrameTrans(v0.s, v1.s, v.s, {c}, {dir.no as nat}, {dir.no as nat, c});
  }

  /// rmdir: the other way round.
  lemma UnlistThenRetire(v0: Vol, v1: Vol, v: Vol, dir: Inode, dir': Inode, node: Node, c: nat)
    requires Owns(v0.s) && Opened(v0.s, dir) && Live(v0.s, c) && dir.no != c && v0.s.inodes[c].no == c
    requires Relisted(v0.s, v1.s, dir, dir', node) && dir' == dir.(mtime := dir'.mtime)
    requires v.s == v1.s.SetInode(v0.s.inodes[c].(nlink := 0))
    requires v.alloc == v0.alloc - HeldSet(v0.s, c)
    ensures Undone(v0, v, dir, dir', node, c)
  {
    hide FolderOf, Slots, HeldSet, NodeAt;
    var i := v0.s.inodes[c].(nlink := 0);
    SetInodeFrame(v1.s, i);
    FrameTrans(v0.s, v1.s, v.s, {dir.no as nat}, {c}, {dir.no as nat, c});
    ChangeOne(v1.s, v.s, c);
    RetiredElsewhere(v1.s, i, dir.no);
  }

  lemma RetiredElsewhere(s: Store, i: Inode, n: nat)
    requires Owns(s) && i.no < |s.inodes| && n < |s.inodes| && n != i.no && Live(s, n)
    ensures NodeAt(s.SetInode(i), n) == NodeAt(s, n)
  {
    SetInodeFrame(s, i);
    FrameNodes(s, s.SetInode(i), i.no);
    assert NodesOf(s.SetInode(i))[n] == NodesOf(s)[n];
  }

  /// unlink gives back the payload blocks and then the indirect block, if there is one.
  method FreeAll(disk: Disk, sb: SuperBlock, i: Inode) returns (sb': SuperBlock)
    requires disk.Valid() && Accounted(V(disk), disk.g) && V(disk).sb == sb
    requires Live(V(disk).s, i.no) && V(disk).s.inodes[i.no] == i
    modifies disk
    ensures disk.Valid()
    ensures V(disk) == old(V(disk)).(sb := sb', alloc := old(V(disk)).alloc - HeldSet(old(V(disk)).s, i.no))
    ensures Describes(sb', disk.g) && Counted(sb'.freeBlocks, V(disk).alloc, disk.g.maxBlocks)
    ensures sb' == sb.(freeBlocks := sb'.freeBlocks)
    ensures old(disk.hist) <= disk.hist
  {
    hide View, HeldIn, Owns, Held, Counted, HeldBelow, Accounted, Below, Frees, Holds, HeldSet;
    ghost var v0 := V(disk);
    AccountedParts(v0, disk.g);
    HeldSetParts(v0.s, i.no);
    sb' := FreePayload(disk, sb, i);
    if i.indirect != 0 {
      IndirectBlock(v0, disk.g, i.no);
      CountedRoom(sb'.freeBlocks, V(disk).alloc, disk.g.maxBlocks);
      CountedFree(sb'.freeBlocks, V(disk).alloc, disk.g.maxBlocks, i.indirect);
      sb' := MarkFree(disk, sb', i.indirect);
    }
  }

  /// rmdir gives back the payload blocks, which is all a directory holds.
  lemma DirHoldsPayload(s: Store, n: nat)
    requires Owns(s) && Live(s, n) && IsDir(s.inodes[n])
    ensures HeldSet(s, n) == HeldBelow(s, n, s.inodes[n].blockCount)
  {
    hide HeldBelow, HeldSet, Held;
    HeldSetParts(s, n);
    assert Shape(s.inodes[n]);
  }
}

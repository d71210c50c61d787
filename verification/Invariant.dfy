/// The invariant of a volume between operations, and what a crash may leave behind.

module Invariant {
  import opened Wrappers
  import opened Bytes
  import opened Device
  import opened Superblock
  import opened Inodes
  import opened Volume
  import opened Allocator
  import opened Bitmap
  import opened Ownership
  import opened FileData
  import opened Namespace
  import opened DirView

  /// The layout, the counter, and the ownership of blocks.
  ghost predicate Accounted(v: Vol, g: Geometry) {
    && Describes(v.sb, g)
    && Counted(v.sb.freeBlocks, v.alloc, g.maxBlocks)
    && Below(g.DataStart()) <= v.alloc
    && Owns(v.s) && HeldIn(v.s, v.alloc)
  }

  /// What holds between operations: all of that, and the shape of every file.
  ghost predicate Sound(v: Vol, g: Geometry) {
    Accounted(v, g) && Clean(v.s)
  }

  /// What holds after every single block write of a growing operation: no live inode
  /// points at a block that is free or held twice, and the names form the tree t.
  ghost predicate Safe(v: Vol, t: Tree) {
    Owns(v.s) && HeldIn(v.s, v.alloc) && TreeOk(NodesOf(v.s), t)
  }

  /// Facts about every volume read off a disk.
  lemma ViewFacts(d: seq<Block>, g: Geometry)
    requires Sized(d, g)
    ensures var v := View(d, g);
      && |v.s.inodes| == INODES_PER_BLOCK * g.tableBlocks
      && Formed(v.s)
      && (forall b: nat :: b in v.s.data <==> g.DataStart() <= b < g.maxBlocks)
      && (forall b | b in v.alloc :: b < g.maxBlocks)
  {
    hide Inodes.Decode, Superblock.Decode;
    var v := View(d, g);
    forall n: nat | n < |v.s.inodes|
      ensures v.s.inodes[n].no == n
    {
      NumberOf(n, RecordAt(d, g, n));
    }
  }

  lemma NumberOf(no: u32, data: seq<byte>)
    requires |data| == INODE_SIZE
    ensures Inodes.Decode(no, data).no == no
  {
  }

  /// The blocks in use that inode n does not account for.
  ghost function Rest(v: Vol, n: nat): set<nat>
    requires n < |v.s.inodes|
  {
    v.alloc - HeldSet(v.s, n)
  }

  /// The allocated data blocks that no live inode holds.
  ghost function Leaked(v: Vol, g: Geometry): set<nat> {
    v.alloc - Below(g.DataStart()) - AllHeld(v.s)
  }

  lemma HeldSetMembers(s: Store, n: nat, k: nat)
    requires Owns(s) && n < |s.inodes| && Holds(s, n, k)
    ensures Held(s, n, k) in HeldSet(s, n)
  {
    assert k <= INDIRECT_SLOT;
  }

  lemma SameHeldSet(s: Store, s': Store, n: nat)
    requires n < |s.inodes| == |s'.inodes| && IsLive(s.inodes[n]) == IsLive(s'.inodes[n])
    requires s'.inodes[n].blockCount == s.inodes[n].blockCount && s'.inodes[n].indirect == s.inodes[n].indirect
    requires forall k: nat | Holds(s, n, k) :: Held(s', n, k) == Held(s, n, k)
    ensures HeldSet(s', n) == HeldSet(s, n)
  {
    forall k: nat ensures Holds(s', n, k) <==> Holds(s, n, k) {
    }
  }

  /// Inode n holds what it held, and the blocks of the new slots K.
  lemma HeldSetGrows(s: Store, s': Store, n: nat, K: set<nat>)
    requires n < |s.inodes| == |s'.inodes| && forall k | k in K :: k <= INDIRECT_SLOT
    requires forall k: nat :: Holds(s', n, k) <==> Holds(s, n, k) || k in K
    requires forall k: nat | Holds(s, n, k) && k !in K :: Held(s', n, k) == Held(s, n, k)
    requires forall k: nat | k in K :: !Holds(s, n, k)
    ensures HeldSet(s', n) == HeldSet(s, n) + set k | k in K :: Held(s', n, k)
  {
    hide Holds, Held;
    var more := set k | k in K :: Held(s', n, k);
    forall x | x in HeldSet(s, n) ensures x in HeldSet(s', n) {
      var k: nat :| k <= INDIRECT_SLOT && Holds(s, n, k) && Held(s, n, k) == x;
      assert Holds(s', n, k);
    }
    forall x | x in more ensures x in HeldSet(s', n) {
      var k: nat :| k in K && Held(s', n, k) == x;
      assert Holds(s', n, k);
    }
    forall x | x in HeldSet(s', n) ensures x in HeldSet(s, n) + more {
      var k: nat :| k <= INDIRECT_SLOT && Holds(s', n, k) && Held(s', n, k) == x;
    }
  }

  lemma HeldSetAllocated(s: Store, alloc: set<nat>, n: nat)
    requires n < |s.inodes| && HeldIn(s, alloc)
    ensures HeldSet(s, n) <= alloc
  {
  }

  // ---------- one inode changes ----------

  /// From v to v' inode n became `node` and every other inode is untouched; no block in
  /// use is free or shared.
  ghost predicate Changed(v: Vol, v': Vol, n: nat, node: Node) {
    Frame(v.s, v'.s, {n}) && Owns(v'.s) && HeldIn(v'.s, v'.alloc) && NodeAt(v'.s, n) == node
  }

  /// Every state of the disk since `from` has inode n as node a or as node b.
  ghost predicate Staged(g: Geometry, hist: seq<seq<Block>>, from: nat, v: Vol, n: nat, a: Node, b: Node) {
    forall k | from <= k < |hist| ::
      && Sized(hist[k], g)
      && (Changed(v, View(hist[k], g), n, a) || Changed(v, View(hist[k], g), n, b))
  }

  lemma StagedMore(g: Geometry, hist: seq<seq<Block>>, from: nat, v: Vol, n: nat, a: Node, b: Node, d: seq<Block>)
    requires Staged(g, hist, from, v, n, a, b) && Sized(d, g)
    requires Changed(v, View(d, g), n, a) || Changed(v, View(d, g), n, b)
    ensures Staged(g, hist + [d], from, v, n, a, b)
  {
    hide View, Changed, Sized;
  }

  lemma StagedNone(g: Geometry, hist: seq<seq<Block>>, v: Vol, n: nat)
    ensures forall a, b :: Staged(g, hist, |hist|, v, n, a, b)
  {
    hide View, Changed, Sized;
  }

  /// Such states are safe with the tree that fits the node.
  lemma ChangedSafe(v: Vol, v': Vol, n: nat, node: Node, t: Tree)
    requires Owns(v.s) && n < |v.s.inodes| && Changed(v, v', n, node)
    requires TreeOk(NodesOf(v.s)[n := node], t)
    ensures Safe(v', t)
  {
    hide Owns, HeldIn, Frame, NodeAt, TreeOk;
    FrameNodes(v.s, v'.s, n);
  }

  /// Block b was free and unheld and is now marked and counted; nothing else changed.
  ghost predicate Reserved(v: Vol, v': Vol, g: Geometry, b: nat) {
    && b in v.s.data && Unheld(v.s, b) && b < 0x1_0000 && b !in v.alloc
    && v.sb.freeBlocks > 0
    && v' == v.(sb := v.sb.(freeBlocks := v.sb.freeBlocks - 1), alloc := v.alloc + {b})
    && Describes(v'.sb, g) && Counted(v'.sb.freeBlocks, v'.alloc, g.maxBlocks)
  }

  lemma FreshBlock(v: Vol, g: Geometry, d: seq<Block>, b: nat)
    requires Sized(d, g) && v == View(d, g) && Accounted(v, g) && LeastFree(v.alloc, g.maxBlocks, b)
    ensures b in v.s.data && Unheld(v.s, b) && b < 0x1_0000
    ensures v.sb.freeBlocks > 0 && Counted(v.sb.freeBlocks - 1, v.alloc + {b}, g.maxBlocks)
  {
    hide View, Owns;
    ViewFacts(d, g);
    FreshIsUnheld(v.s, v.alloc, b);
    CountedAlloc(v.sb.freeBlocks, v.alloc, g.maxBlocks, b);
  }

  lemma AccountedParts(v: Vol, g: Geometry)
    requires Accounted(v, g)
    ensures Describes(v.sb, g) && Counted(v.sb.freeBlocks, v.alloc, g.maxBlocks)
    ensures Owns(v.s) && HeldIn(v.s, v.alloc)
  {
  }

  lemma LeastIsFree(alloc: set<nat>, max: nat, b: nat)
    requires LeastFree(alloc, max, b)
    ensures b !in alloc && b < max
  {
  }

  lemma ReservedAccounted(v: Vol, v': Vol, g: Geometry, b: nat)
    requires Accounted(v, g) && Reserved(v, v', g, b)
    ensures Accounted(v', g)
  {
    hide Owns, Counted, Held;
  }

  /// allocate_block on an accounted volume: it fails exactly when the counter is 0, and
  /// a block it returns was held by nobody.
  method ReserveBlock(disk: Disk, sb: SuperBlock)
    returns (sb': SuperBlock, r: Option<nat>, ghost mid: seq<Block>)
    requires disk.Valid() && Accounted(V(disk), disk.g) && V(disk).sb == sb
    modifies disk
    ensures disk.Valid()
    ensures r.Some? <==> sb.freeBlocks > 0
    ensures Allocates(Below(disk.g.maxBlocks) - old(V(disk)).alloc, Below(disk.g.maxBlocks) - V(disk).alloc,
                      if r.Some? then Taken.Block(r.value) else NoBlock)
    ensures r.None? ==> disk.blocks == old(disk.blocks) && disk.hist == old(disk.hist) && sb' == sb
    ensures r.Some? ==>
      && Reserved(old(V(disk)), V(disk), disk.g, r.value) && V(disk).sb == sb'
      && LeastFree(old(V(disk)).alloc, disk.g.maxBlocks, r.value)
      && Accounted(V(disk), disk.g)
      && disk.hist == old(disk.hist) + [mid, disk.blocks]
      && Sized(mid, disk.g) && View(mid, disk.g) == old(V(disk)).(alloc := V(disk).alloc)
  {
    hide View, Owns, HeldIn, Unheld, Counted, Allocates, Below, Accounted, LeastFree;
    AccountedParts(V(disk), disk.g);
    ghost var v0, d0 := V(disk), disk.blocks;
    sb', r, mid := AllocateBlock(disk, sb);
    NoneIffFull(sb.freeBlocks, v0.alloc, disk.g.maxBlocks);
    ghost var taken := if r.Some? then Taken.Block(r.value) else NoBlock;
    FirstFitAllocates(sb.freeBlocks, v0.alloc, disk.g.maxBlocks, taken);
    if r.Some? {
      FreshBlock(v0, disk.g, d0, r.value);
      LeastIsFree(v0.alloc, disk.g.maxBlocks, r.value);
      ReservedAccounted(v0, V(disk), disk.g, r.value);
    }
  }

  /// Marking blocks changes no inode.
  lemma MarkedChanged(v: Vol, v': Vol, n: nat)
    requires Owns(v.s) && HeldIn(v.s, v.alloc) && v'.s == v.s && v.alloc <= v'.alloc
    ensures Changed(v, v', n, NodeAt(v.s, n))
  {
    hide Owns, NodeAt, Held;
  }

  /// Nor does writing a block that nobody holds.
  lemma UnheldChanged(v: Vol, v': Vol, n: nat, b: nat, block: Block)
    requires Owns(v.s) && HeldIn(v.s, v.alloc) && b in v.s.data && Unheld(v.s, b)
    requires v'.s == v.s.SetData(b, block) && v.alloc <= v'.alloc && n < |v.s.inodes|
    ensures Changed(v, v', n, NodeAt(v.s, n))
  {
    hide NodeAt;
    WriteUnheld(v.s, b, block);
    FrameOwns(v.s, v'.s);
    FrameAllNodes(v.s, v'.s);
    assert NodesOf(v'.s)[n] == NodesOf(v.s)[n];
  }

  /// Every state of the disk since `from` is safe with tree t0 or with tree t1.
  ghost predicate SafeSince(g: Geometry, hist: seq<seq<Block>>, from: nat, t0: Tree, t1: Tree) {
    forall k | from <= k < |hist| ::
      Sized(hist[k], g) && (Safe(View(hist[k], g), t0) || Safe(View(hist[k], g), t1))
  }

  lemma StagedSafe(g: Geometry, hist: seq<seq<Block>>, from: nat, v: Vol, n: nat, a: Node, b: Node, t0: Tree, t1: Tree)
    requires Owns(v.s) && n < |v.s.inodes| && Staged(g, hist, from, v, n, a, b)
    requires TreeOk(NodesOf(v.s)[n := a], t0) && TreeOk(NodesOf(v.s)[n := b], t1)
    ensures SafeSince(g, hist, from, t0, t1)
  {
    hide View, Changed, Safe, Owns, TreeOk, Sized, NodesOf;
    forall k | from <= k < |hist|
      ensures Sized(hist[k], g) && (Safe(View(hist[k], g), t0) || Safe(View(hist[k], g), t1))
    {
      if Changed(v, View(hist[k], g), n, a) {
        ChangedSafe(v, View(hist[k], g), n, a, t0);
      } else {
        ChangedSafe(v, View(hist[k], g), n, b, t1);
      }
    }
  }

  lemma SafeSinceJoin(g: Geometry, h1: seq<seq<Block>>, h2: seq<seq<Block>>, from: nat, t0: Tree, t1: Tree)
    requires SafeSince(g, h1, from, t0, t1) && h1 <= h2 && SafeSince(g, h2, |h1|, t0, t1)
    ensures SafeSince(g, h2, from, t0, t1)
  {
    hide View, Safe, Sized;
    forall k | from <= k < |h2|
      ensures Sized(h2[k], g) && (Safe(View(h2[k], g), t0) || Safe(View(h2[k], g), t1))
    {
      if k < |h1| {
        assert h2[k] == h1[k];
      }
    }
  }

  lemma SafeSinceWider(g: Geometry, hist: seq<seq<Block>>, from: nat, t0: Tree, t1: Tree)
    requires SafeSince(g, hist, from, t0, t0)
    ensures SafeSince(g, hist, from, t0, t1)
  {
    hide View, Safe, Sized;
  }

  lemma UntouchedHeldSet(s: Store, s': Store, n: nat)
    requires n < |s.inodes| == |s'.inodes| && Untouched(s, s', n)
    ensures HeldSet(s', n) == HeldSet(s, n)
  {
    SameHeldSet(s, s', n);
  }

  lemma FolderIsLive(s: Store, n: nat)
    requires IsFolder(NodesOf(s), n)
    ensures Live(s, n) && IsDir(s.inodes[n])
  {
    assert NodesOf(s)[n] == NodeAt(s, n);
  }

  lemma FileIsLive(s: Store, n: nat)
    requires n < |s.inodes| && NodesOf(s)[n] == File
    ensures Live(s, n) && !IsDir(s.inodes[n])
  {
    assert NodesOf(s)[n] == NodeAt(s, n);
  }
}

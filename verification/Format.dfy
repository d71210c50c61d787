/// Formatting an all-zero disk (src/fs.rs:603-648).

module Format {
  import opened Wrappers
  import opened Bytes
  import opened Device
  import opened Superblock
  import opened Inodes
  import opened Volume
  import opened Allocator
  import opened Bitmap
  import opened InodeTable
  import opened Ownership
  import opened FileData
  import opened DirEntries
  import opened Namespace
  import opened DirView
  import opened Invariant
  import opened Directory
  import opened Operations

  ghost predicate AllZero(d: seq<Block>) {
    forall b | 0 <= b < |d| :: d[b] == Zeros(BLOCK_SIZE)
  }

  /// No record of the table is live.
  ghost predicate NoneLive(s: Store) {
    forall n: nat :: !Live(s, n)
  }

  lemma ZeroDiskHasNoFiles(d: seq<Block>, g: Geometry)
    requires Sized(d, g) && AllZero(d)
    ensures NoneLive(View(d, g).s)
  {
    hide Inodes.Decode, Superblock.Decode;
    ViewFacts(d, g);
    forall n: nat | n < |View(d, g).s.inodes|
      ensures !IsLive(View(d, g).s.inodes[n])
    {
      assert RecordAt(d, g, n) == Zeros(INODE_SIZE);
      ZeroInodeIsFree(n);
    }
  }

  const EMPTY_TREE := Tree(map[], map[])

  lemma RootAlone(ns: Nodes)
    requires ROOT < |ns| && ns[ROOT] == Folder(Target(ROOT, 2), Target(ROOT, 2), map[])
    ensures TreeOk(ns, EMPTY_TREE)
  {
    assert FolderOk(ns, EMPTY_TREE, ROOT);
  }

  function RootRecord(b: u32, now: i64): Inode {
    NewDir(ROOT, now).(direct := NewDir(ROOT, now).direct[0 := b], blockCount := 1, size := PAGE_SIZE, nlink := 2)
  }

  lemma RootRecordOk(b: u32, now: i64)
    ensures var i := RootRecord(b, now);
      && IsLive(i) && IsDir(i) && i.no == ROOT && i.blockCount == 1 && i.indirect == 0
      && i.direct[0] == b && i.size == PAGE_SIZE
  {
    hide And;
    DirBit(RootRecord(b, now));
  }

  // ---------- what format makes of a table ----------

  /// The system blocks marked and counted, whatever the table and the data area hold.
  ghost predicate LaidOut(v: Vol, g: Geometry) {
    && Formed(v.s) && |v.s.inodes| == INODES_PER_BLOCK * g.tableBlocks
    && Describes(v.sb, g) && v.alloc == Below(g.DataStart())
    && v.sb.freeBlocks == g.maxBlocks - g.DataStart() && Counted(v.sb.freeBlocks, v.alloc, g.maxBlocks)
    && forall b: nat :: b in v.s.data <==> g.DataStart() <= b < g.maxBlocks
  }

  /// The root directory in the first data block, and nothing else touched.
  ghost function WithRoot(s: Store, b: u32, now: i64): Store
    requires ROOT < |s.inodes|
  {
    s.SetData(b, DotBlock(ROOT, ROOT)).SetInode(RootRecord(b, now))
  }

  /// v' is v with the root directory made in its first data block.
  ghost predicate Rooted(v: Vol, v': Vol, g: Geometry, now: i64) {
    && LaidOut(v, g) && ROOT < |v.s.inodes| && g.DataStart() < g.maxBlocks <= 0x1_0000
    && v'.s == WithRoot(v.s, g.DataStart(), now) && v'.alloc == v.alloc + {g.DataStart()}
    && Describes(v'.sb, g) && Counted(v'.sb.freeBlocks, v'.alloc, g.maxBlocks)
  }

  /// Every record that was live before, but for inode 1, is an empty file without blocks.
  ghost predicate NoBlocksLeft(s: Store) {
    forall n: nat | n != ROOT && Live(s, n) :: BareFile(s.inodes[n])
  }

  ghost predicate BareFile(i: Inode) {
    !IsDir(i) && i.size == 0 && i.blockCount == 0 && i.indirect == 0
  }

  lemma RootNode(v: Vol, v': Vol, g: Geometry, now: i64)
    requires Rooted(v, v', g, now)
    ensures NodeAt(v'.s, ROOT) == Folder(Target(ROOT, 2), Target(ROOT, 2), map[])
  {
    hide FolderOf, DotBlock, EntryAt, RootRecord;
    var b := g.DataStart();
    RootRecordOk(b, now);
    var ss := Slots(v'.s, v'.s.inodes[ROOT]);
    forall j: nat | j < ENTRIES_PER_BLOCK
      ensures ss[j] == EntryAt(DotBlock(ROOT, ROOT), j)
    {
      assert j / ENTRIES_PER_BLOCK == 0 && j % ENTRIES_PER_BLOCK == j;
    }
    DotBlockFolder(ss, ROOT, ROOT);
  }

  /// The live inodes after format are the root directory and those live before.
  lemma RootedInodes(v: Vol, v': Vol, g: Geometry, now: i64)
    requires Rooted(v, v', g, now)
    ensures |v'.s.inodes| == |v.s.inodes| && v'.s.data.Keys == v.s.data.Keys && Formed(v'.s)
    ensures forall n: nat | n != ROOT ::
      Live(v'.s, n) == Live(v.s, n) && (Live(v.s, n) ==> v'.s.inodes[n] == v.s.inodes[n])
    ensures Live(v'.s, ROOT) && IsDir(v'.s.inodes[ROOT]) && Shape(v'.s.inodes[ROOT])
    ensures v'.s.inodes[ROOT].size == PAGE_SIZE * v'.s.inodes[ROOT].blockCount
    ensures forall k: nat :: Holds(v'.s, ROOT, k) <==> k == 0
    ensures Held(v'.s, ROOT, 0) == g.DataStart()
  {
    hide DotBlock, RootRecord;
    RootRecordOk(g.DataStart(), now);
  }

  lemma BareIsSound(v: Vol, v': Vol, g: Geometry, now: i64)
    requires Rooted(v, v', g, now) && NoBlocksLeft(v.s)
    ensures Sound(v', g) && Leaked(v', g) == {}
  {
    hide DotBlock, IsDir, WithRoot;
    RootedInodes(v, v', g, now);
    forall n: nat, k: nat | Holds(v'.s, n, k)
      ensures n == ROOT && k == 0
    {
    }
    assert Held(v'.s, ROOT, 0) in AllHeld(v'.s);
  }

  lemma FirstHeld(s: Store, n: nat)
    requires Live(s, n)
    ensures s.inodes[n].blockCount > 0 ==> Holds(s, n, 0)
  {
  }

  lemma SoundIsBare(v: Vol, v': Vol, g: Geometry, now: i64)
    requires Rooted(v, v', g, now) && Sound(v', g)
    ensures NoBlocksLeft(v.s)
  {
    hide DotBlock, IsDir, ByteAt, WithRoot;
    RootedInodes(v, v', g, now);
    forall n: nat | n != ROOT && Live(v.s, n)
      ensures BareFile(v.s.inodes[n])
    {
      assert Shape(v'.s.inodes[n]);
      FirstHeld(v'.s, n);
      assert Holds(v'.s, ROOT, 0);
    }
  }

  /// Format is right exactly if no record of the old table holds a block; the names are
  /// right whatever it holds.
  lemma RootedSound(v: Vol, v': Vol, g: Geometry, now: i64)
    requires Rooted(v, v', g, now)
    ensures Sound(v', g) <==> NoBlocksLeft(v.s)
    ensures Sound(v', g) ==> Leaked(v', g) == {}
    ensures TreeOk(NodesOf(v'.s), EMPTY_TREE)
    ensures NoneLive(v.s) ==> NoBlocksLeft(v.s) && JustRoot(v'.s, now)
  {
    hide Sound, Rooted, NodeAt, Leaked, TreeOk, Live, NodesOf;
    if NoBlocksLeft(v.s) {
      BareIsSound(v, v', g, now);
    }
    if Sound(v', g) {
      SoundIsBare(v, v', g, now);
    }
    RootedNames(v, v', g, now);
  }

  /// The root directory, empty, is all there is.
  ghost predicate JustRoot(s: Store, now: i64) {
    && ROOT < |s.inodes| && (exists b: u32 :: s.inodes[ROOT] == RootRecord(b, now))
    && forall n | 0 <= n < |s.inodes| ::
      NodesOf(s)[n] == if n == ROOT then Folder(Target(ROOT, 2), Target(ROOT, 2), map[]) else Free
  }

  lemma RootedNames(v: Vol, v': Vol, g: Geometry, now: i64)
    requires Rooted(v, v', g, now)
    ensures TreeOk(NodesOf(v'.s), EMPTY_TREE)
    ensures NoneLive(v.s) ==> JustRoot(v'.s, now)
  {
    hide TreeOk, DotBlock, RootRecord, FolderOf, Slots;
    RootNode(v, v', g, now);
    RootedInodes(v, v', g, now);
    RootAlone(NodesOf(v'.s));
    RootRecordOk(g.DataStart(), now);
    forall n: nat | n < |v'.s.inodes| && n != ROOT && !Live(v'.s, n)
      ensures NodesOf(v'.s)[n] == Free
    {
      assert NodesOf(v'.s)[n] == NodeAt(v'.s, n);
    }
  }

  // ---------- format ----------

  /// The superblock and the bitmap of a new file system.
  method FormatLayout(disk: Disk) returns (sb: SuperBlock)
    requires disk.Valid()
    modifies disk
    ensures disk.Valid() && LaidOut(V(disk), disk.g) && V(disk).sb == sb && V(disk).s == old(V(disk)).s
  {
    hide View;
    sb := InitSuperblock(disk);
    ViewSetSuper(old(disk.blocks), disk.g, sb);
    InitBitmap(disk, sb);
    ViewFacts(disk.blocks, disk.g);
    BelowSize(disk.g.DataStart());
  }

  lemma FirstDataBlock(g: Geometry, b: nat)
    requires LeastFree(Below(g.DataStart()), g.maxBlocks, b)
    ensures b == g.DataStart()
  {
    assert g.DataStart() !in Below(g.DataStart());
  }

  /// The root directory on a volume with its system blocks marked.
  method FormatRoot(disk: Disk, sb: SuperBlock, now: i64) returns (sb': SuperBlock)
    requires disk.Valid() && LaidOut(V(disk), disk.g) && V(disk).sb == sb
    requires ROOT < INODES_PER_BLOCK * disk.g.tableBlocks
    modifies disk
    ensures disk.Valid() && Rooted(old(V(disk)), V(disk), disk.g, now) && V(disk).sb == sb'
    ensures sb'.rootInode == ROOT && sb'.freeBlocks == sb.freeBlocks - 1
  {
    hide View, DotBlock, IsDir, RootRecord, Counted, Below;
    ghost var v := V(disk);
    ghost var mid;
    var r: Option<nat>;
    sb', r, mid := AllocateBlock(disk, sb);
    NoneIffFull(v.sb.freeBlocks, v.alloc, disk.g.maxBlocks);
    var b := r.value;
    FirstDataBlock(disk.g, b);
    CountedAlloc(v.sb.freeBlocks, v.alloc, disk.g.maxBlocks, b);
    WriteDots(disk, b, ROOT, ROOT);
    var root := NewDir(ROOT, now);
    root := root.(direct := root.direct[0 := b]);
    root := root.(blockCount := 1);
    root := root.(size := PAGE_SIZE);
    root := root.(nlink := 2);
    RootRecordOk(b, now);
    RootRecordIs(root, b, now);
    WriteInode(disk, sb', root);
    sb' := sb'.(rootInode := ROOT);
    ViewSetSuper(disk.blocks, disk.g, sb');
    WriteSuperblock(disk, sb');
  }

  lemma RootRecordIs(i: Inode, b: u32, now: i64)
    requires var root := NewDir(ROOT, now);
      i == root.(direct := root.direct[0 := b], blockCount := 1, size := PAGE_SIZE, nlink := 2)
    ensures i == RootRecord(b, now)
  {
  }

  /// Formats whatever is on the disk. The table is not cleared, so the result is sound
  /// exactly if no old record, but for that of inode 1, holds blocks; on a zero disk it is.
  method FormatNewFs(disk: Disk, now: i64) returns (sb: SuperBlock)
    requires disk.Valid() && ROOT < INODES_PER_BLOCK * disk.g.tableBlocks
    modifies disk
    ensures disk.Valid() && V(disk).sb == sb && Describes(sb, disk.g)
    ensures sb.rootInode == ROOT && sb.freeBlocks == disk.g.maxBlocks - disk.g.DataStart() - 1
    ensures ROOT < |old(V(disk)).s.inodes| && disk.g.DataStart() < 0x1_0000
    ensures V(disk).s == WithRoot(old(V(disk)).s, disk.g.DataStart(), now)
    ensures V(disk).alloc == Below(disk.g.DataStart()) + {disk.g.DataStart()}
    ensures Sound(V(disk), disk.g) <==> NoBlocksLeft(old(V(disk)).s)
    ensures Sound(V(disk), disk.g) ==> Leaked(V(disk), disk.g) == {}
    ensures TreeOk(NodesOf(V(disk).s), EMPTY_TREE)
    ensures old(AllZero(disk.blocks)) ==> Sound(V(disk), disk.g) && JustRoot(V(disk).s, now)
  {
    hide View, NodesOf, Sound, TreeOk, AllZero, NodeAt, Leaked, JustRoot, NoBlocksLeft, WithRoot, NoneLive;
    ViewFacts(disk.blocks, disk.g);
    if old(AllZero(disk.blocks)) {
      ZeroDiskHasNoFiles(disk.blocks, disk.g);
    }
    sb := FormatLayout(disk);
    ghost var v := V(disk);
    sb := FormatRoot(disk, sb, now);
    RootedSound(v, V(disk), disk.g, now);
  }

  /// One old record with a block breaks it: that block is free again, or the root
  /// directory's.
  lemma OldBlocksBreakFormat(v: Vol, v': Vol, g: Geometry, now: i64, n: nat)
    requires Rooted(v, v', g, now) && n != ROOT && Live(v.s, n) && v.s.inodes[n].blockCount > 0
    ensures !Sound(v', g)
  {
    hide Sound, Rooted;
    RootedSound(v, v', g, now);
    assert !BareFile(v.s.inodes[n]);
  }

  /// A formatted disk of the shipped size: every record that mkdir or create writes, its
  /// mode not being zero, changes a block of the data area.
  method FormatShipped(now: i64) returns (disk: Disk)
    ensures fresh(disk) && disk.Valid() && disk.g == SHIPPED && JustRoot(V(disk).s, now)
    ensures forall i: Inode | Handed(i.no) && i.mode != 0 ::
      var m := SHIPPED.TableStart() + TableBlock(i.no);
      && m < |disk.blocks| && m in V(disk).s.data && m in View(RecordWritten(disk.blocks, SHIPPED, i), SHIPPED).s.data
      && View(RecordWritten(disk.blocks, SHIPPED, i), SHIPPED).s.data[m] != V(disk).s.data[m]
  {
    hide JustRoot, Sound, Leaked, TreeOk, NodesOf, Inodes.Encode, RecordWritten, View, WithRoot, NoBlocksLeft, Below;
    disk := new Disk(SHIPPED);
    ghost var d0, v0 := disk.blocks, V(disk);
    var sb := FormatNewFs(disk, now);
    forall i: Inode | Handed(i.no) && i.mode != 0
      ensures var m := SHIPPED.TableStart() + TableBlock(i.no);
        && m < |disk.blocks| && m in V(disk).s.data && m in View(RecordWritten(disk.blocks, SHIPPED, i), SHIPPED).s.data
        && View(RecordWritten(disk.blocks, SHIPPED, i), SHIPPED).s.data[m] != V(disk).s.data[m]
    {
      ShippedInodeHitsData(disk.blocks, i);
      ShippedSlotsAreDataBlocks(i.no);
      EncodedIsNotZero(i);
      StillZero(d0, SHIPPED, V(disk), SHIPPED.TableStart() + TableBlock(i.no), now);
      ZeroSlice(TableOffset(i.no), INODE_SIZE);
    }
  }

  /// Format writes one block of the data area only.
  lemma StillZero(d: seq<Block>, g: Geometry, v: Vol, m: nat, now: i64)
    requires Sized(d, g) && AllZero(d) && g.DataStart() < m < g.maxBlocks
    requires ROOT < |View(d, g).s.inodes| && v.s == WithRoot(View(d, g).s, g.DataStart(), now)
    ensures m in v.s.data && v.s.data[m] == Zeros(BLOCK_SIZE)
  {
    hide RootRecord, DotBlock, Superblock.Decode, Inodes.Decode, AllocSet;
  }

  lemma ZeroSlice(off: nat, len: nat)
    requires off + len <= BLOCK_SIZE
    ensures Zeros(BLOCK_SIZE)[off..off + len] == Zeros(len)
  {
  }

  /// Writes the first block of a directory.
  method WriteDots(disk: Disk, b: nat, self: u32, parent: u32)
    requires disk.Valid() && b in V(disk).s.data
    modifies disk
    ensures disk.Valid()
    ensures V(disk) == old(V(disk)).(s := old(V(disk)).s.SetData(b, DotBlock(self, parent)))
    ensures disk.hist == old(disk.hist) + [disk.blocks]
  {
    hide View, DirEntries.Encode, NewEntry;
    var buf := new byte[BLOCK_SIZE](_ => 0);
    assert buf[..] == Zeros(BLOCK_SIZE);
    var dot := DirEntries.ToBytes(NewEntry(self, DOT, true));
    CopyInto(buf, 0, dot[..]);
    var dotdot := DirEntries.ToBytes(NewEntry(parent, DOTDOT, true));
    CopyInto(buf, DIR_ENTRY_SIZE, dotdot[..]);
    WriteData(disk, b, buf);
  }
}

/// The directory operations on the disk (src/directory.rs:92-230).

module Directory {
  import opened Wrappers
  import opened Bytes
  import opened Device
  import opened Superblock
  import opened Inodes
  import opened Volume
  import opened Bitmap
  import opened InodeTable
  import opened Ownership
  import opened FileData
  import opened DirEntries
  import opened Namespace
  import opened DirView
  import opened Invariant

  /// The record in memory is that of a live directory of the store.
  ghost predicate Opened(s: Store, i: Inode) {
    && Owns(s) && i.no < |s.inodes| && s.inodes[i.no] == i
    && IsLive(i) && IsDir(i) && FolderOf(Slots(s, i)).Folder?
  }

  /// What is recorded in memory about a slot: its entry, its block and its byte offset.
  ghost predicate IsPlaceOf(s: Store, i: Inode, q: nat, block: nat, off: nat) {
    block == BlockNo(s, i, q / ENTRIES_PER_BLOCK) && off == DIR_ENTRY_SIZE * (q % ENTRIES_PER_BLOCK)
  }

  /// Reads the k-th block of an open directory.
  method ReadDirBlock(disk: Disk, i: Inode, k: nat, buf: array<byte>) returns (block: nat)
    requires disk.Valid() && Opened(V(disk).s, i) && k < i.blockCount && buf.Length == BLOCK_SIZE
    modifies buf
    ensures block == BlockNo(V(disk).s, i, k) && block in V(disk).s.data
    ensures buf[..] == DataAt(V(disk).s, block)
  {
    assert Holds(V(disk).s, i.no, k);
    assert Held(V(disk).s, i.no, k) in V(disk).s.data;
    var b := GetBlock(disk, i, k);
    block := b.value;
    ReadData(disk, block, buf);
  }

  lemma SlotInBlock(s: Store, i: Inode, k: nat, j: nat)
    requires k < i.blockCount && j < ENTRIES_PER_BLOCK
    ensures Slots(s, i)[ENTRIES_PER_BLOCK * k + j] == EntryAt(DataAt(s, BlockNo(s, i, k)), j)
    ensures (ENTRIES_PER_BLOCK * k + j) / ENTRIES_PER_BLOCK == k
    ensures (ENTRIES_PER_BLOCK * k + j) % ENTRIES_PER_BLOCK == j
  {
    assert (ENTRIES_PER_BLOCK * k + j) / ENTRIES_PER_BLOCK == k;
  }

  lemma FindIs(ss: seq<DirEntry>, name: Name, q: nat)
    requires q <= |ss| && forall p | 0 <= p < q :: !IsNamed(ss[p], name)
    requires q < |ss| ==> IsNamed(ss[q], name)
    ensures Find(ss, name) == q
  {
  }

  method DirFind(disk: Disk, i: Inode, name: Name) returns (r: Option<(DirEntry, nat, nat)>)
    requires disk.Valid() && Opened(V(disk).s, i)
    ensures var ss := Slots(V(disk).s, i);
      && (r.None? <==> Find(ss, name) == |ss|)
      && (r.Some? ==> r.value.0 == ss[Find(ss, name)])
      && (r.Some? ==> IsPlaceOf(V(disk).s, i, Find(ss, name), r.value.1, r.value.2))
  {
    hide EntryAt, DirEntries.Decode, View, Owns, FolderOf, BlockNo, Slots;
    ghost var ss := Slots(V(disk).s, i);
    var buf := new byte[BLOCK_SIZE](_ => 0);
    for k := 0 to i.blockCount
      invariant forall p | 0 <= p < ENTRIES_PER_BLOCK * k :: !IsNamed(ss[p], name)
    {
      var block := ReadDirBlock(disk, i, k, buf);
      for j := 0 to ENTRIES_PER_BLOCK
        invariant buf[..] == DataAt(V(disk).s, block)
        invariant forall p | 0 <= p < ENTRIES_PER_BLOCK * k + j :: !IsNamed(ss[p], name)
      {
        var off := j * DIR_ENTRY_SIZE;
        var e := EntryAt(buf[..], j);
        SlotInBlock(V(disk).s, i, k, j);
        if !IsEmpty(e) && NameOf(e) == name {
          FindIs(ss, name, ENTRIES_PER_BLOCK * k + j);
          return Some((e, block, off));
        }
      }
    }
    FindIs(ss, name, |ss|);
    return None;
  }

  /// The live ones of the first n slots, each with its block and its byte offset.
  ghost function Placed(s: Store, i: Inode, n: nat): seq<(DirEntry, nat, nat)>
    requires n <= |Slots(s, i)|
  {
    if n == 0 then []
    else
      var q, e := n - 1, Slots(s, i)[n - 1];
      var place := (e, BlockNo(s, i, q / ENTRIES_PER_BLOCK), DIR_ENTRY_SIZE * (q % ENTRIES_PER_BLOCK));
      Placed(s, i, q) + (if IsEmpty(e) then [] else [place])
  }

  lemma {:induction false} PlacedEntries(s: Store, i: Inode, n: nat)
    requires n <= |Slots(s, i)|
    ensures |Placed(s, i, n)| == |LiveEntries(Slots(s, i)[..n])|
    ensures forall k | 0 <= k < |Placed(s, i, n)| :: Placed(s, i, n)[k].0 == LiveEntries(Slots(s, i)[..n])[k]
  {
    hide Slots, BlockNo;
    if n > 0 {
      PlacedEntries(s, i, n - 1);
      assert Slots(s, i)[..n][..n - 1] == Slots(s, i)[..n - 1];
    }
  }

  lemma PlacedNext(s: Store, i: Inode, k: nat, j: nat, e: DirEntry)
    requires k < i.blockCount && j < ENTRIES_PER_BLOCK && e == Slots(s, i)[ENTRIES_PER_BLOCK * k + j]
    ensures Placed(s, i, ENTRIES_PER_BLOCK * k + j + 1) ==
      Placed(s, i, ENTRIES_PER_BLOCK * k + j) +
      (if IsEmpty(e) then [] else [(e, BlockNo(s, i, k), DIR_ENTRY_SIZE * j)])
  {
    hide SlotAt, BlockNo;
    SlotInBlock(s, i, k, j);
  }

  /// Every live entry with its place, in slot order.
  method DirLookup(disk: Disk, i: Inode) returns (entries: seq<(DirEntry, nat, nat)>)
    requires disk.Valid() && Opened(V(disk).s, i)
    ensures var ss := Slots(V(disk).s, i);
      && entries == Placed(V(disk).s, i, |ss|) && |entries| == |LiveEntries(ss)|
      && forall k | 0 <= k < |entries| :: entries[k].0 == LiveEntries(ss)[k]
  {
    hide EntryAt, DirEntries.Decode, View, Owns, FolderOf, BlockNo, Slots, Placed;
    ghost var s, ss := V(disk).s, Slots(V(disk).s, i);
    entries := [];
    var buf := new byte[BLOCK_SIZE](_ => 0);
    NothingPlaced(s, i);
    for k := 0 to i.blockCount
      invariant entries == Placed(s, i, ENTRIES_PER_BLOCK * k)
    {
      var block := ReadDirBlock(disk, i, k, buf);
      for j := 0 to ENTRIES_PER_BLOCK
        invariant buf[..] == DataAt(s, block)
        invariant entries == Placed(s, i, ENTRIES_PER_BLOCK * k + j)
      {
        var off := j * DIR_ENTRY_SIZE;
        var e := EntryAt(buf[..], j);
        SlotInBlock(s, i, k, j);
        PlacedNext(s, i, k, j, e);
        if !IsEmpty(e) {
          entries := entries + [(e, block, off)];
        }
      }
    }
    PlacedEntries(s, i, |ss|);
    assert ss[..|ss|] == ss;
  }

  lemma NothingPlaced(s: Store, i: Inode)
    ensures Placed(s, i, 0) == []
  {
  }

  // ---------- adding an entry ----------

  datatype AddResult = Added | AlreadyExists | NoFreeBlocks | TooLarge

  /// The first free slot of an open directory, by block and byte offset.
  method FindFreeSlot(disk: Disk, i: Inode) returns (r: Option<(nat, nat)>)
    requires disk.Valid() && Opened(V(disk).s, i)
    ensures var ss := Slots(V(disk).s, i);
      && (r.None? <==> FirstFree(ss) == |ss|)
      && (r.Some? ==> IsPlaceOf(V(disk).s, i, FirstFree(ss), r.value.0, r.value.1))
  {
    hide EntryAt, DirEntries.Decode, View, Owns, FolderOf, BlockNo, Slots, FirstFree;
    ghost var ss := Slots(V(disk).s, i);
    var buf := new byte[BLOCK_SIZE](_ => 0);
    for k := 0 to i.blockCount
      invariant forall p | 0 <= p < ENTRIES_PER_BLOCK * k :: !IsEmpty(ss[p])
    {
      var block := ReadDirBlock(disk, i, k, buf);
      for j := 0 to ENTRIES_PER_BLOCK
        invariant buf[..] == DataAt(V(disk).s, block)
        invariant forall p | 0 <= p < ENTRIES_PER_BLOCK * k + j :: !IsEmpty(ss[p])
      {
        var e := EntryAt(buf[..], j);
        SlotInBlock(V(disk).s, i, k, j);
        if IsEmpty(e) {
          assert FirstFree(ss) == ENTRIES_PER_BLOCK * k + j;
          return Some((block, j * DIR_ENTRY_SIZE));
        }
      }
    }
    return None;
  }

  /// From v to v' the directory n became `node` and every other inode is untouched.
  ghost predicate DirChange(v: Vol, v': Vol, n: nat, node: Node) {
    Changed(v, v', n, node) && Live(v'.s, n) && IsDir(v'.s.inodes[n])
  }

  /// Only the time of the record changed.
  lemma Touched(v: Vol, i: Inode, now: i64)
    requires Opened(v.s, i) && HeldIn(v.s, v.alloc)
    ensures var v' := v.(s := v.s.SetInode(i.(mtime := now)));
      && DirChange(v, v', i.no, NodeAt(v.s, i.no))
      && Slots(v'.s, v'.s.inodes[i.no]) == Slots(v.s, i)
      && HeldSet(v'.s, i.no) == HeldSet(v.s, i.no)
      && Opened(v'.s, i.(mtime := now))
  {
    hide EntryAt, FolderOf;
    var i' := i.(mtime := now);
    var s' := v.s.SetInode(i');
    DirBit(i);
    DirBit(i');
    SetSameMap(v.s, i');
    SameHeldSet(v.s, s', i.no);
    forall q: nat | q < ENTRIES_PER_BLOCK * i.blockCount
      ensures SlotAt(s', i', q) == SlotAt(v.s, i, q)
    {
      assert BlockNo(s', i', q / ENTRIES_PER_BLOCK) == BlockNo(v.s, i, q / ENTRIES_PER_BLOCK);
    }
    assert Slots(s', i') == Slots(v.s, i);
  }

  /// Slot q of directory n got the contents e.
  ghost predicate SlotSet(s: Store, s': Store, n: nat, q: nat, e: DirEntry) {
    && Frame(s, s', {n}) && Owns(s')
    && n < |s.inodes| && s'.inodes == s.inodes && (forall k: nat :: Held(s', n, k) == Held(s, n, k))
    && q < |Slots(s, s.inodes[n])| && Slots(s', s'.inodes[n]) == Slots(s, s.inodes[n])[q := e]
  }

  lemma SlotSetChange(v: Vol, v': Vol, i: Inode, q: nat, e: DirEntry)
    requires Opened(v.s, i) && HeldIn(v.s, v.alloc) && v'.alloc == v.alloc
    requires SlotSet(v.s, v'.s, i.no, q, e)
    requires FolderOf(Slots(v.s, i)[q := e]).Folder?
    ensures DirChange(v, v', i.no, FolderOf(Slots(v.s, i)[q := e]))
    ensures Opened(v'.s, i) && HeldSet(v'.s, i.no) == HeldSet(v.s, i.no)
  {
    hide FolderOf, Slots;
    SameHeldSet(v.s, v'.s, i.no);
    HeldInAfter(v.s, v'.s, i.no, v.alloc, v.alloc);
  }

  /// Writes entry bytes over slot q.
  method FillSlot(disk: Disk, i: Inode, block: nat, off: nat, e: DirEntry, ghost q: nat)
    requires disk.Valid() && Opened(V(disk).s, i)
    requires q < |Slots(V(disk).s, i)| && IsPlaceOf(V(disk).s, i, q, block, off)
    modifies disk
    ensures disk.Valid() && disk.hist == old(disk.hist) + [disk.blocks]
    ensures V(disk) == old(V(disk)).(s := V(disk).s)
    ensures SlotSet(old(V(disk)).s, V(disk).s, i.no, q, e)
  {
    hide EntryAt, DirEntries.Encode, DirEntries.Decode, View, FolderOf, Slots, Splice;
    ghost var s := V(disk).s;
    var buf := new byte[BLOCK_SIZE](_ => 0);
    SlotHeld(s, i, q);
    ReadData(disk, block, buf);
    var bytes := DirEntries.ToBytes(e);
    CopyInto(buf, off, bytes[..]);
    forall j: nat | j < ENTRIES_PER_BLOCK
      ensures EntryAt(buf[..], j) == if j == q % ENTRIES_PER_BLOCK then e else EntryAt(DataAt(s, block), j)
    {
      EntrySplice(DataAt(s, block), q % ENTRIES_PER_BLOCK, e, j);
    }
    SlotEdit(s, i.no, q, buf[..], e);
    WriteData(disk, block, buf);
  }

  lemma SlotHeld(s: Store, i: Inode, q: nat)
    requires Opened(s, i) && q < |Slots(s, i)|
    ensures var k := q / ENTRIES_PER_BLOCK;
      k < i.blockCount <= DIRECT_BLOCKS && Held(s, i.no, k) == BlockNo(s, i, k) && BlockNo(s, i, k) in s.data
  {
    assert Holds(s, i.no, q / ENTRIES_PER_BLOCK);
    assert Held(s, i.no, q / ENTRIES_PER_BLOCK) in s.data;
  }

  // ---------- dir_add_entry ----------

  ghost function WithKid(node: Node, name: Name, target: Target): Node
    requires node.Folder?
  {
    node.(kids := node.kids[name := target])
  }

  ghost predicate NewName(ss: seq<DirEntry>, e: DirEntry) {
    && FolderOf(ss).Folder? && NameOf(e) !in Listing(ss)
    && !IsEmpty(e) && e.nameLen <= MAX_NAME_LEN
  }

  lemma InsertedNode(ss: seq<DirEntry>, q: nat, e: DirEntry)
    requires NewName(ss, e) && q < |ss| && IsEmpty(ss[q])
    ensures FolderOf(ss[q := e]) == WithKid(FolderOf(ss), NameOf(e), TargetOf(e))
  {
    ListingInsert(ss, q, e);
    FolderInsert(Listing(ss), NameOf(e), TargetOf(e));
  }

  lemma ExtendedNode(ss: seq<DirEntry>, e: DirEntry, more: seq<DirEntry>)
    requires NewName(ss, e) && forall q | 0 <= q < |more| :: IsEmpty(more[q])
    ensures FolderOf(ss + ([e] + more)) == WithKid(FolderOf(ss), NameOf(e), TargetOf(e))
  {
    hide Listing, Names, WellFormed, FolderOfMap;
    var blank := [e.(nameLen := 0)] + more;
    ListingPadded(ss, blank);
    assert FolderOf(ss + blank) == FolderOf(ss);
    InsertedNode(ss + blank, |ss|, e);
    assert (ss + blank)[|ss| := e] == ss + ([e] + more);
  }

  lemma DirChangeTrans(a: Vol, b: Vol, c: Vol, n: nat, x: Node, y: Node)
    requires DirChange(a, b, n, x) && DirChange(b, c, n, y)
    ensures DirChange(a, c, n, y)
  {
    FrameTrans(a.s, b.s, c.s, {n}, {n}, {n});
  }

  /// Some slot is free.
  ghost predicate HasSlot(ss: seq<DirEntry>) {
    exists q :: 0 <= q < |ss| && IsEmpty(ss[q])
  }

  /// The least block not in use.
  ghost predicate NextBlock(alloc: set<nat>, b: nat) {
    b !in alloc && forall k: nat | k < b :: k in alloc
  }

  /// The outcome of a successful dir_add_entry.
  ghost predicate EntryAdded(v: Vol, v': Vol, i: Inode, i': Inode, name: Name, target: Target, now: i64)
    requires Opened(v.s, i)
  {
    && DirChange(v, v', i.no, WithKid(NodeAt(v.s, i.no), name, target))
    && Opened(v'.s, i') && i'.no == i.no
    && i'.mode == i.mode && i'.nlink == i.nlink && i'.mtime == now
    && Rest(v', i.no) == Rest(v, i.no) && v.alloc <= v'.alloc
    && v'.sb == v.sb.(freeBlocks := v'.sb.freeBlocks)
    && (if HasSlot(Slots(v.s, i)) then i' == i.(mtime := now) && v'.alloc == v.alloc && v'.sb == v.sb
        else i.blockCount < DIRECT_BLOCKS && exists b: u32 ::
          i' == WithBlock(i, b, now) && NextBlock(v.alloc, b) && v'.alloc == v.alloc + {b})
  }

  /// Block k of a directory has an entry in front and zeros behind it.
  ghost predicate OneEntry(s: Store, i: Inode, k: nat, e: DirEntry) {
    k < 10 && DataAt(s, i.direct[k]) == DirEntries.Encode(e) + Zeros(478)
  }

  /// Where a new entry goes: into the first free slot, or to the front of one more block.
  ghost predicate SlotsAdded(ss: seq<DirEntry>, tt: seq<DirEntry>, e: DirEntry) {
    if FirstFree(ss) < |ss| then tt == ss[FirstFree(ss) := e] else SlotsChained(ss, tt, e)
  }

  ghost predicate SlotsChained(ss: seq<DirEntry>, tt: seq<DirEntry>, e: DirEntry) {
    && |tt| == |ss| + ENTRIES_PER_BLOCK && tt[..|ss|] == ss && tt[|ss|] == e
    && forall q | |ss| < q < |tt| :: IsEmpty(tt[q])
  }

  lemma DirChangeSound(v: Vol, v': Vol, g: Geometry, n: nat, node: Node)
    requires Sound(v, g) && DirChange(v, v', n, node)
    requires v.alloc <= v'.alloc && Describes(v'.sb, g) && Counted(v'.sb.freeBlocks, v'.alloc, g.maxBlocks)
    requires v'.s.inodes[n].size == PAGE_SIZE * v'.s.inodes[n].blockCount
    ensures Sound(v', g)
  {
    hide Owns, Clean, Frame;
    DirChangeClean(v, v', n, node);
  }

  lemma DirChangeClean(v: Vol, v': Vol, n: nat, node: Node)
    requires Owns(v.s) && Clean(v.s) && DirChange(v, v', n, node)
    requires v'.s.inodes[n].size == PAGE_SIZE * v'.s.inodes[n].blockCount
    ensures Clean(v'.s)
  {
    hide Owns, FolderOf, Slots, FileOk, Frame;
    FrameClean(v.s, v'.s, {n});
  }

  /// The branch of dir_add_entry that reuses a free slot: two writes.
  method AddInSlot(disk: Disk, sb: SuperBlock, i: Inode, block: nat, off: nat, e: DirEntry, now: i64, ghost q: nat)
    returns (i': Inode)
    requires disk.Valid() && Sound(V(disk), disk.g) && V(disk).sb == sb && Opened(V(disk).s, i)
    requires q < |Slots(V(disk).s, i)| && IsPlaceOf(V(disk).s, i, q, block, off)
    requires NewName(Slots(V(disk).s, i), e) && IsEmpty(Slots(V(disk).s, i)[q])
    modifies disk
    ensures disk.Valid() && Sound(V(disk), disk.g) && V(disk).sb == sb
    ensures old(disk.hist) <= disk.hist
    ensures Slots(V(disk).s, i') == old(Slots(V(disk).s, i))[q := e]
    ensures EntryAdded(old(V(disk)), V(disk), i, i', NameOf(e), TargetOf(e), now)
    ensures var a := old(NodeAt(V(disk).s, i.no));
      Staged(disk.g, disk.hist, old(|disk.hist|), old(V(disk)), i.no, a, WithKid(a, NameOf(e), TargetOf(e)))
  {
    hide View, FolderOf, Slots, Owns, Frame, Clean, HeldIn, HeldSet;
    ghost var v0, ss := V(disk), Slots(V(disk).s, i);
    ViewFacts(disk.blocks, disk.g);
    FillSlot(disk, i, block, off, e, q);
    ghost var v1 := V(disk);
    ghost var node := WithKid(NodeAt(v0.s, i.no), NameOf(e), TargetOf(e));
    InsertedNode(ss, q, e);
    SlotSetChange(v0, v1, i, q, e);
    i' := i.(mtime := now);
    Touched(v1, i, now);
    WriteInode(disk, sb, i');
    DirChangeTrans(v0, v1, V(disk), i.no, node, node);
    DirSize(v0, i);
    DirChangeSound(v0, V(disk), disk.g, i.no, node);
  }

  lemma DirSize(v: Vol, i: Inode)
    requires Clean(v.s) && Opened(v.s, i)
    ensures i.size == PAGE_SIZE * i.blockCount
  {
    assert Live(v.s, i.no);
  }

  /// The store after a fresh block with one entry is chained on.
  lemma Extended(v: Vol, v': Vol, i: Inode, b: nat, e: DirEntry, now: i64)
    requires Opened(v.s, i) && HeldIn(v.s, v.alloc) && i.blockCount < DIRECT_BLOCKS
    requires NewName(Slots(v.s, i), e) && b in v.s.data && Unheld(v.s, b) && b < 0x1_0000 && b !in v.alloc
    requires v'.alloc == v.alloc + {b}
    requires v'.s == v.s.SetData(b, Splice(Zeros(BLOCK_SIZE), 0, DirEntries.Encode(e))).SetInode(WithBlock(i, b, now))
    ensures DirChange(v, v', i.no, WithKid(NodeAt(v.s, i.no), NameOf(e), TargetOf(e)))
    ensures Opened(v'.s, WithBlock(i, b, now)) && Rest(v', i.no) == Rest(v, i.no)
    ensures SlotsChained(Slots(v.s, i), Slots(v'.s, WithBlock(i, b, now)), e)
  {
    hide FolderOf, Slots, Splice, DirEntries.Encode;
    var n, i' := i.no, WithBlock(i, b, now);
    DirBit(i);
    DirBit(i');
    SlotsExtend(v.s, n, b, e, now);
    var tt := Slots(v'.s, i');
    ExtendedNode(Slots(v.s, i), e, tt[|Slots(v.s, i)| + 1..]);
    ExtendedHeld(v, v', i, b);
  }

  lemma ExtendedHeld(v: Vol, v': Vol, i: Inode, b: nat)
    requires Opened(v.s, i) && HeldIn(v.s, v.alloc) && v'.alloc == v.alloc + {b} && b !in v.alloc
    requires Frame(v.s, v'.s, {i.no}) && Owns(v'.s) && IsDir(v'.s.inodes[i.no]) && IsLive(v'.s.inodes[i.no])
    requires v'.s.inodes[i.no].blockCount == i.blockCount + 1
    requires forall k: nat | k <= i.blockCount ::
      Held(v'.s, i.no, k) == if k == i.blockCount then b else Held(v.s, i.no, k)
    ensures HeldIn(v'.s, v'.alloc) && Rest(v', i.no) == Rest(v, i.no)
  {
    var n := i.no;
    forall k: nat
      ensures Holds(v'.s, n, k) <==> Holds(v.s, n, k) || k in {i.blockCount as nat}
      ensures Holds(v.s, n, k) ==> k < i.blockCount && Held(v'.s, n, k) == Held(v.s, n, k)
    {
      assert Live(v'.s, n) && Live(v.s, n);
    }
    HeldInAfter(v.s, v'.s, n, v.alloc, v'.alloc);
    HeldSetGrows(v.s, v'.s, n, {i.blockCount as nat});
    HeldSetAllocated(v.s, v.alloc, n);
    var more := set k | k in {i.blockCount as nat} :: Held(v'.s, n, k);
    assert more == {b};
  }

  /// The branch of dir_add_entry that chains a new block on: four writes.
  method AddInBlock(disk: Disk, sb: SuperBlock, i: Inode, e: DirEntry, now: i64)
    returns (sb': SuperBlock, i': Inode, ok: bool)
    requires disk.Valid() && Sound(V(disk), disk.g) && V(disk).sb == sb && Opened(V(disk).s, i)
    requires NewName(Slots(V(disk).s, i), e) && i.blockCount < DIRECT_BLOCKS && !HasSlot(Slots(V(disk).s, i))
    modifies disk
    ensures disk.Valid() && Sound(V(disk), disk.g) && V(disk).sb == sb'
    ensures old(disk.hist) <= disk.hist
    ensures ok <==> sb.freeBlocks > 0
    ensures !ok ==> disk.blocks == old(disk.blocks) && disk.hist == old(disk.hist) && sb' == sb && i' == i
    ensures ok ==>
      && EntryAdded(old(V(disk)), V(disk), i, i', NameOf(e), TargetOf(e), now)
      && SlotsChained(old(Slots(V(disk).s, i)), Slots(V(disk).s, i'), e)
      && OneEntry(V(disk).s, i', i.blockCount, e)
    ensures ok ==> var a := old(NodeAt(V(disk).s, i.no));
      Staged(disk.g, disk.hist, old(|disk.hist|), old(V(disk)), i.no, a, WithKid(a, NameOf(e), TargetOf(e)))
  {
    hide View, FolderOf, Slots, Owns, Frame, Clean, HeldIn, HeldSet, Splice, DirEntries.Encode, Staged, NewName,
         SlotsChained, HasSlot, Counted, Describes;
    ViewFacts(disk.blocks, disk.g);
    ghost var v0, h0 := V(disk), |disk.hist|;
    StagedNone(disk.g, disk.hist, v0, i.no);
    ghost var a, b' := NodeAt(v0.s, i.no), WithKid(NodeAt(v0.s, i.no), NameOf(e), TargetOf(e));
    ghost var mid;
    var r: Option<nat>;
    sb', r, mid := ReserveBlock(disk, sb);
    if r.None? {
      return sb', i, false;
    }
    var b := r.value;
    MarkedChanged(v0, View(mid, disk.g), i.no);
    MarkedChanged(v0, V(disk), i.no);
    StagedMore(disk.g, old(disk.hist), h0, v0, i.no, a, b', mid);
    StagedMore(disk.g, old(disk.hist) + [mid], h0, v0, i.no, a, b', disk.blocks);
    assert old(disk.hist) + [mid] + [disk.blocks] == disk.hist;
    var buf := new byte[BLOCK_SIZE](_ => 0);
    assert buf[..] == Zeros(BLOCK_SIZE);
    var bytes := DirEntries.ToBytes(e);
    CopyInto(buf, 0, bytes[..]);
    ghost var h1 := disk.hist;
    WriteData(disk, b, buf);
    UnheldChanged(v0, V(disk), i.no, b, buf[..]);
    StagedMore(disk.g, h1, h0, v0, i.no, a, b', disk.blocks);
    i' := WithBlock(i, b, now);
    ghost var h2 := disk.hist;
    WriteInode(disk, sb', i');
    Extended(v0, V(disk), i, b, e, now);
    StagedMore(disk.g, h2, h0, v0, i.no, a, b', disk.blocks);
    DirChangeSound(v0, V(disk), disk.g, i.no, b');
    SpliceFillsZeros([], bytes[..], BLOCK_SIZE);
    assert [] + Zeros(BLOCK_SIZE) == Zeros(BLOCK_SIZE) && [] + bytes[..] == bytes[..];
    ok := true;
  }

  /// Which answer dir_add_entry gives, in terms of the directory before the call.
  ghost function AddAnswer(ss: seq<DirEntry>, i: Inode, name: Name, free: nat): AddResult {
    if Find(ss, name) < |ss| then AlreadyExists
    else if HasSlot(ss) then Added
    else if i.blockCount >= DIRECT_BLOCKS then TooLarge
    else if free == 0 then NoFreeBlocks
    else Added
  }

  /// The answer in numbers, for a directory of so many blocks: 15 names fit a block, and a
  /// directory has at most ten blocks, so 150 names.
  ghost predicate AddSays(r: AddResult, ss: seq<DirEntry>, blocks: nat, name: Name, free: nat) {
    var names := Listing(ss);
    && (r == AlreadyExists <==> name in names)
    && (r == TooLarge <==> name !in names && |names| == 150)
    && (r == NoFreeBlocks <==> name !in names && |names| == 15 * blocks && blocks < 10 && free == 0)
    && (r == Added <==> name !in names && (|names| < 15 * blocks || (blocks < 10 && free > 0)))
  }

  lemma AddAnswerSays(s: Store, i: Inode, name: Name, free: nat)
    requires Opened(s, i)
    ensures AddSays(AddAnswer(Slots(s, i), i, name, free), Slots(s, i), i.blockCount, name, free)
  {
    hide SlotAt, HasSlot, Listing, LiveEntries;
    var ss := Slots(s, i);
    assert Live(s, i.no) && Shape(i);
    FindInListing(ss, name);
    LiveEntriesCount(ss);
    FullEntries(ss);
  }

  /// As many live entries as slots means that none is free.
  lemma {:induction false} FullEntries(ss: seq<DirEntry>)
    ensures HasSlot(ss) <==> |LiveEntries(ss)| < |ss|
  {
    if ss != [] {
      var front := ss[..|ss| - 1];
      FullEntries(front);
      assert IsEmpty(ss[|ss| - 1]) ==> HasSlot(ss);
      if HasSlot(front) {
        var q :| 0 <= q < |front| && IsEmpty(front[q]);
        assert IsEmpty(ss[q]);
      }
      if HasSlot(ss) && !IsEmpty(ss[|ss| - 1]) {
        var q :| 0 <= q < |ss| && IsEmpty(ss[q]);
        assert IsEmpty(front[q]);
      }
    }
  }

  /// Adds a name to a directory. Every answer but Added leaves the disk as it was.
  method DirAddEntry(disk: Disk, sb: SuperBlock, i: Inode, name: Name, child: u32, isDir: bool, now: i64)
    returns (sb': SuperBlock, i': Inode, r: AddResult)
    requires disk.Valid() && Sound(V(disk), disk.g) && V(disk).sb == sb && Opened(V(disk).s, i)
    requires 1 <= |name| <= MAX_NAME_LEN
    modifies disk
    ensures disk.Valid() && Sound(V(disk), disk.g) && V(disk).sb == sb'
    ensures old(disk.hist) <= disk.hist
    ensures r == AddAnswer(old(Slots(V(disk).s, i)), i, name, sb.freeBlocks)
    ensures AddSays(r, old(Slots(V(disk).s, i)), i.blockCount, name, sb.freeBlocks)
    ensures r != Added ==> disk.blocks == old(disk.blocks) && disk.hist == old(disk.hist) && sb' == sb && i' == i
    ensures r == Added ==>
      && EntryAdded(old(V(disk)), V(disk), i, i', name, Target(child, if isDir then 2 else 1), now)
      && SlotsAdded(old(Slots(V(disk).s, i)), Slots(V(disk).s, i'), NewEntry(child, name, isDir))
      && (i'.blockCount == i.blockCount || OneEntry(V(disk).s, i', i.blockCount, NewEntry(child, name, isDir)))
    ensures r == Added ==> var a, target := old(NodeAt(V(disk).s, i.no)), Target(child, if isDir then 2 else 1);
      Staged(disk.g, disk.hist, old(|disk.hist|), old(V(disk)), i.no, a, WithKid(a, name, target))
  {
    hide View, FolderOf, Slots, Owns, Frame, Clean, HeldIn, HeldSet, Staged, NewEntry, EntryAdded, AddSays;
    ghost var ss := Slots(V(disk).s, i);
    AddAnswerSays(V(disk).s, i, name, sb.freeBlocks);
    var found := DirFind(disk, i, name);
    if found.Some? {
      return sb, i, AlreadyExists;
    }
    FindInListing(ss, name);
    var e := NewEntry(child, name, isDir);
    NewEntryNamed(child, name, isDir);
    NewEntryTarget(child, name, isDir);
    var free := FindFreeSlot(disk, i);
    if free.Some? {
      i' := AddInSlot(disk, sb, i, free.value.0, free.value.1, e, now, FirstFree(ss));
      return sb, i', Added;
    }
    if i.blockCount < DIRECT_BLOCKS {
      var ok;
      sb', i', ok := AddInBlock(disk, sb, i, e, now);
      r := if ok then Added else NoFreeBlocks;
    } else {
      return sb, i, TooLarge;
    }
  }

  lemma NewEntryTarget(child: u32, name: Name, isDir: bool)
    ensures TargetOf(NewEntry(child, name, isDir)) == Target(child, if isDir then 2 else 1)
  {
  }

  // ---------- dir_remove_entry ----------

  /// Clears the name length of slot q.
  method ClearSlot(disk: Disk, i: Inode, block: nat, off: nat, ghost q: nat)
    requires disk.Valid() && Opened(V(disk).s, i)
    requires q < |Slots(V(disk).s, i)| && IsPlaceOf(V(disk).s, i, q, block, off)
    modifies disk
    ensures disk.Valid() && disk.hist == old(disk.hist) + [disk.blocks]
    ensures V(disk) == old(V(disk)).(s := V(disk).s)
    ensures SlotSet(old(V(disk)).s, V(disk).s, i.no, q, old(Slots(V(disk).s, i))[q].(nameLen := 0))
  {
    hide EntryAt, DirEntries.Encode, DirEntries.Decode, View, FolderOf, Slots, Splice;
    ghost var s := V(disk).s;
    ghost var e := Slots(s, i)[q].(nameLen := 0);
    var buf := new byte[BLOCK_SIZE](_ => 0);
    SlotHeld(s, i, q);
    SlotInBlock(s, i, q / ENTRIES_PER_BLOCK, q % ENTRIES_PER_BLOCK);
    ReadData(disk, block, buf);
    ghost var was := buf[..];
    buf[off + 5] := 0;
    assert buf[..] == was[off + 5 := 0];
    forall j: nat | j < ENTRIES_PER_BLOCK
      ensures EntryAt(buf[..], j) == if j == q % ENTRIES_PER_BLOCK then e else EntryAt(DataAt(s, block), j)
    {
      EntryCleared(DataAt(s, block), q % ENTRIES_PER_BLOCK, j);
    }
    SlotEdit(s, i.no, q, buf[..], e);
    WriteData(disk, block, buf);
  }

  ghost function WithoutKid(node: Node, name: Name): Node
    requires node.Folder?
  {
    node.(kids := node.kids - {name})
  }

  lemma DeletedNode(ss: seq<DirEntry>, name: Name)
    requires FolderOf(ss).Folder? && !IsDot(name) && Find(ss, name) < |ss|
    ensures var q := Find(ss, name);
      FolderOf(ss[q := ss[q].(nameLen := 0)]) == WithoutKid(FolderOf(ss), name)
  {
    var q := Find(ss, name);
    ListingDelete(ss, q);
    FolderDelete(Listing(ss), name);
  }

  /// Directory n of s became `node` in s', with its blocks and everything else in place.
  ghost predicate Relisted(s: Store, s': Store, i: Inode, i': Inode, node: Node) {
    && Frame(s, s', {i.no}) && Owns(s') && i.no < |s.inodes| && s'.inodes == s.inodes[i.no := i']
    && Opened(s', i') && NodeAt(s', i.no) == node
    && forall k: nat :: Held(s', i.no, k) == Held(s, i.no, k)
  }

  /// Removes a name other than the dots; false when the directory has no such name.
  method DirRemoveEntry(disk: Disk, sb: SuperBlock, i: Inode, name: Name, now: i64)
    returns (i': Inode, ok: bool)
    requires disk.Valid() && Describes(sb, disk.g) && Opened(V(disk).s, i) && !IsDot(name)
    modifies disk
    ensures disk.Valid() && old(disk.hist) <= disk.hist
    ensures ok <==> name in FolderOf(old(Slots(V(disk).s, i))).kids
    ensures !ok ==> disk.blocks == old(disk.blocks) && i' == i
    ensures ok ==>
      && i' == i.(mtime := now)
      && V(disk) == old(V(disk)).(s := V(disk).s)
      && Relisted(old(V(disk)).s, V(disk).s, i, i', WithoutKid(FolderOf(old(Slots(V(disk).s, i))), name))
  {
    hide View, FolderOf, Slots, Owns, Frame, HeldSet, HeldIn;
    ghost var v0, ss := V(disk), Slots(V(disk).s, i);
    ViewFacts(disk.blocks, disk.g);
    NameInKids(ss, name);
    var found := DirFind(disk, i, name);
    if found.None? {
      return i, false;
    }
    ghost var q := Find(ss, name);
    var (_, block, off) := found.value;
    ClearSlot(disk, i, block, off, q);
    ghost var v1 := V(disk);
    DeletedNode(ss, name);
    i' := i.(mtime := now);
    WriteInode(disk, sb, i');
    Unlisted(v0.s, v1.s, i, q, ss[q].(nameLen := 0), now);
    ok := true;
  }

  lemma Unlisted(s0: Store, s1: Store, i: Inode, q: nat, e: DirEntry, now: i64)
    requires Opened(s0, i) && SlotSet(s0, s1, i.no, q, e) && FolderOf(Slots(s0, i)[q := e]).Folder?
    ensures Relisted(s0, s1.SetInode(i.(mtime := now)), i, i.(mtime := now), FolderOf(Slots(s0, i)[q := e]))
  {
    hide FolderOf, Slots, HeldSet;
    // Ownership alone does not ask which blocks are marked: all data blocks will do.
    var sb := SuperBlock(MAGIC, 0, 0, 0, 0, 0, 0, 0);
    var v0, v1 := Vol(sb, s0.data.Keys, s0), Vol(sb, s0.data.Keys, s1);
    var node := FolderOf(Slots(s0, i)[q := e]);
    SlotSetChange(v0, v1, i, q, e);
    Touched(v1, i, now);
    var v2 := v1.(s := s1.SetInode(i.(mtime := now)));
    DirChangeTrans(v0, v1, v2, i.no, node, node);
    SameHeld(s1, v2.s, i.no);
  }

  lemma NameInKids(ss: seq<DirEntry>, name: Name)
    requires FolderOf(ss).Folder? && !IsDot(name)
    ensures Find(ss, name) < |ss| <==> name in FolderOf(ss).kids
    ensures name in FolderOf(ss).kids ==> FolderOf(ss).kids[name] == TargetOf(ss[Find(ss, name)])
  {
    FindInListing(ss, name);
  }
}

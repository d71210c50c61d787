/// Directories inside a store: slots, the namespace they spell, and what an edit of one
/// slot or one more block does to them.

module DirView {
  import opened Wrappers
  import opened Bytes
  import opened Device
  import opened Inodes
  import opened Volume
  import opened Ownership
  import opened DirEntries
  import opened Namespace

  /// The slots of a directory, block after block.
  function Slots(s: Store, i: Inode): (ss: seq<DirEntry>)
    ensures |ss| == ENTRIES_PER_BLOCK * i.blockCount
  {
    seq(ENTRIES_PER_BLOCK * i.blockCount, q requires q >= 0 => SlotAt(s, i, q))
  }

  function SlotAt(s: Store, i: Inode, q: nat): DirEntry {
    EntryAt(DataAt(s, BlockNo(s, i, q / ENTRIES_PER_BLOCK)), q % ENTRIES_PER_BLOCK)
  }

  ghost function FolderOfMap(m: map<Name, Target>): Node {
    if DOT in m && DOTDOT in m then Folder(m[DOT], m[DOTDOT], m - {DOT, DOTDOT}) else Garbled
  }

  ghost function FolderOf(ss: seq<DirEntry>): Node {
    if WellFormed(ss) then FolderOfMap(Listing(ss)) else Garbled
  }

  ghost function NodeAt(s: Store, n: nat): Node {
    if !Live(s, n) then Free
    else if !IsDir(s.inodes[n]) then File
    else FolderOf(Slots(s, s.inodes[n]))
  }

  ghost function NodesOf(s: Store): (ns: Nodes)
    ensures |ns| == |s.inodes|
    ensures forall n | 0 <= n < |ns| :: ns[n] == NodeAt(s, n)
  {
    seq(|s.inodes|, n requires 0 <= n < |s.inodes| => NodeAt(s, n))
  }

  lemma UntouchedSlots(s: Store, s': Store, n: nat)
    requires Live(s, n) && |s'.inodes| == |s.inodes| && Untouched(s, s', n) && Shape(s.inodes[n])
    ensures Slots(s', s'.inodes[n]) == Slots(s, s.inodes[n])
  {
    var i := s.inodes[n];
    forall q: nat | q < ENTRIES_PER_BLOCK * i.blockCount
      ensures SlotAt(s', i, q) == SlotAt(s, i, q)
    {
      var k := q / ENTRIES_PER_BLOCK;
      assert Has(i, k);
      assert Held(s', n, k) == Held(s, n, k);
    }
  }

  /// Inodes outside the frame mean the same names.
  lemma FrameNodes(s: Store, s': Store, n: nat)
    requires Owns(s) && n < |s.inodes| && Frame(s, s', {n})
    ensures NodesOf(s') == NodesOf(s)[n := NodeAt(s', n)]
  {
    hide FolderOf;
    forall m: nat | m < |s.inodes| && m != n
      ensures NodeAt(s', m) == NodeAt(s, m)
    {
      if Live(s, m) {
        assert Untouched(s, s', m);
        UntouchedSlots(s, s', m);
      }
    }
  }

  lemma FrameAllNodes(s: Store, s': Store)
    requires Owns(s) && Frame(s, s', {})
    ensures NodesOf(s') == NodesOf(s)
  {
    hide FolderOf;
    forall m: nat | m < |s.inodes|
      ensures NodeAt(s', m) == NodeAt(s, m)
    {
      if Live(s, m) {
        assert Untouched(s, s', m);
        UntouchedSlots(s, s', m);
      }
    }
  }

  /// A directory never has an entry with the name of a dot besides the two dots.
  lemma KidsArePlain(s: Store)
    ensures PlainKids(NodesOf(s))
  {
    forall n: nat, name | IsFolder(NodesOf(s), n) && name in NodesOf(s)[n].kids
      ensures !IsDot(name)
    {
      assert NodesOf(s)[n] == NodeAt(s, n);
    }
  }

  // ---------- reading a directory ----------

  /// `dir_find` follows one step of the namespace.
  lemma FindIsStep(ns: Nodes, n: nat, ss: seq<DirEntry>, name: Name)
    requires IsFolder(ns, n) && ns[n] == FolderOf(ss)
    ensures Step(ns, n, name) == if Find(ss, name) < |ss| then Some(ss[Find(ss, name)].inode as nat) else None
    ensures !IsDot(name) ==> (Find(ss, name) < |ss| <==> name in ns[n].kids)
    ensures !IsDot(name) && name in ns[n].kids ==> ns[n].kids[name] == TargetOf(ss[Find(ss, name)])
  {
    FindInListing(ss, name);
  }

  /// The live entries are the names and the two dots.
  lemma EntriesCount(ss: seq<DirEntry>)
    requires FolderOf(ss).Folder?
    ensures |LiveEntries(ss)| == |FolderOf(ss).kids| + 2
  {
    LiveEntriesCount(ss);
    var m := Listing(ss);
    var kids := FolderOf(ss).kids;
    assert m.Keys == {DOT, DOTDOT} + kids.Keys;
    assert DOT != DOTDOT;
    assert |{DOT, DOTDOT}| == 2;
    assert |m.Keys| == 2 + |kids.Keys|;
  }

  /// The test of `rmdir`: at most two live entries means nothing but the two dots.
  lemma EmptyIffTwo(ss: seq<DirEntry>)
    requires FolderOf(ss).Folder?
    ensures |LiveEntries(ss)| <= 2 <==> FolderOf(ss).kids == map[]
  {
    EntriesCount(ss);
  }

  // ---------- editing slots ----------

  lemma FolderInsert(m: map<Name, Target>, name: Name, target: Target)
    requires FolderOfMap(m).Folder? && name !in m
    ensures !IsDot(name)
    ensures FolderOfMap(m[name := target]) == FolderOfMap(m).(kids := FolderOfMap(m).kids[name := target])
  {
    assert m[name := target] - {DOT, DOTDOT} == (m - {DOT, DOTDOT})[name := target];
  }

  lemma FolderDelete(m: map<Name, Target>, name: Name)
    requires FolderOfMap(m).Folder? && !IsDot(name)
    ensures FolderOfMap(m - {name}) == FolderOfMap(m).(kids := FolderOfMap(m).kids - {name})
  {
    assert m - {name} - {DOT, DOTDOT} == m - {DOT, DOTDOT} - {name};
  }

  /// Slot q of directory n after its block is replaced.
  lemma SlotEdit(s: Store, n: nat, q: nat, block: Block, e: DirEntry)
    requires Owns(s) && Live(s, n) && q < ENTRIES_PER_BLOCK * s.inodes[n].blockCount
    requires var k := q / ENTRIES_PER_BLOCK;
      forall j: nat | j < ENTRIES_PER_BLOCK ::
        EntryAt(block, j) == if j == q % ENTRIES_PER_BLOCK then e else EntryAt(DataAt(s, Held(s, n, k)), j)
    requires q / ENTRIES_PER_BLOCK < INDIRECT_SLOT
    ensures Held(s, n, q / ENTRIES_PER_BLOCK) in s.data
    ensures var s' := s.SetData(Held(s, n, q / ENTRIES_PER_BLOCK), block);
      && Frame(s, s', {n}) && Owns(s') && (forall j: nat :: Held(s', n, j) == Held(s, n, j))
      && Slots(s', s'.inodes[n]) == Slots(s, s.inodes[n])[q := e]
  {
    var i, k := s.inodes[n], q / ENTRIES_PER_BLOCK;
    assert Holds(s, n, k);
    WriteOwn(s, n, k, block);
    var s' := s.SetData(Held(s, n, k), block);
    var old_ := Slots(s, i);
    forall p: nat | p < ENTRIES_PER_BLOCK * i.blockCount
      ensures SlotAt(s', i, p) == if p == q then e else old_[p]
    {
      var j := p / ENTRIES_PER_BLOCK;
      assert Holds(s, n, j);
      assert Held(s', n, j) == Held(s, n, j);
      if j == k {
        assert p == q <==> p % ENTRIES_PER_BLOCK == q % ENTRIES_PER_BLOCK;
      }
    }
  }

  /// The directory record with one more block.
  function WithBlock(i: Inode, b: u32, now: i64): Inode
    requires i.blockCount < DIRECT_BLOCKS
  {
    i.(direct := i.direct[i.blockCount := b], blockCount := i.blockCount + 1,
       size := (i.blockCount + 1) * PAGE_SIZE, mtime := now)
  }

  /// Directory n after a fresh block with one entry is chained on.
  lemma SlotsExtend(s: Store, n: nat, b: nat, e: DirEntry, now: i64)
    requires Owns(s) && Live(s, n) && IsDir(s.inodes[n]) && s.inodes[n].blockCount < DIRECT_BLOCKS
    requires b in s.data && Unheld(s, b) && b < 0x1_0000
    ensures var block := Splice(Zeros(BLOCK_SIZE), 0, DirEntries.Encode(e));
      var i' := WithBlock(s.inodes[n], b, now);
      var s' := s.SetData(b, block).SetInode(i');
      && Frame(s, s', {n}) && Owns(s')
      && (forall k: nat | k < i'.blockCount ::
        Held(s', n, k) == if k == s.inodes[n].blockCount then b else Held(s, n, k))
      && Slots(s', i') ==
         Slots(s, s.inodes[n]) + ([e] + Slots(s', i')[ENTRIES_PER_BLOCK * s.inodes[n].blockCount + 1..])
      && (forall q | ENTRIES_PER_BLOCK * s.inodes[n].blockCount + 1 <= q < |Slots(s', i')| :: IsEmpty(Slots(s', i')[q]))
  {
    hide EntryAt, DirEntries.Encode, Splice;
    var i, k0 := s.inodes[n], s.inodes[n].blockCount;
    var block := Splice(Zeros(BLOCK_SIZE), 0, DirEntries.Encode(e));
    var i' := WithBlock(i, b, now);
    var m := s.SetData(b, block);
    var s' := m.SetInode(i');
    WriteUnheld(s, b, block);
    SetInodeFrame(m, i');
    FrameTrans(s, m, s', {}, {n}, {n});
    forall k: nat | k < k0
      ensures Held(s', n, k) == Held(s, n, k) && DataAt(s', Held(s, n, k)) == DataAt(s, Held(s, n, k))
    {
      assert Holds(s, n, k);
    }
    forall k: nat | Holds(s', n, k)
      ensures k <= k0 && (k < k0 ==> Holds(s, n, k))
    {
    }
    ChangeOne(s, s', n);
    ExtendedSlots(s, s', n, b, e);
  }

  lemma ExtendedSlots(s: Store, s': Store, n: nat, b: nat, e: DirEntry)
    requires Live(s, n) && |s'.inodes| == |s.inodes| && IsLive(s'.inodes[n])
    requires s.inodes[n].blockCount < DIRECT_BLOCKS
    requires s'.inodes[n].blockCount == s.inodes[n].blockCount + 1
    requires forall k: nat | k < s.inodes[n].blockCount ::
      Held(s', n, k) == Held(s, n, k) && DataAt(s', Held(s, n, k)) == DataAt(s, Held(s, n, k))
    requires Held(s', n, s.inodes[n].blockCount) == b
    requires DataAt(s', b) == Splice(Zeros(BLOCK_SIZE), 0, DirEntries.Encode(e))
    ensures var ss, tt := Slots(s, s.inodes[n]), Slots(s', s'.inodes[n]);
      && tt == ss + ([e] + tt[|ss| + 1..])
      && forall q | |ss| + 1 <= q < |tt| :: IsEmpty(tt[q])
  {
    hide EntryAt, DirEntries.Encode;
    var i, k0 := s.inodes[n], s.inodes[n].blockCount;
    var ss, tt := Slots(s, i), Slots(s', s'.inodes[n]);
    forall q: nat | q < |tt|
      ensures q < |ss| ==> tt[q] == ss[q]
      ensures q == |ss| ==> tt[q] == e
      ensures q > |ss| ==> IsEmpty(tt[q])
    {
      var k := q / ENTRIES_PER_BLOCK;
      if q >= |ss| {
        assert k == k0;
        EntrySplice(Zeros(BLOCK_SIZE), 0, e, q % ENTRIES_PER_BLOCK);
        ZeroEntry(q % ENTRIES_PER_BLOCK);
      } else {
        assert Held(s', n, k) == Held(s, n, k);
      }
    }
  }
}

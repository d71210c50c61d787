/// What the single steps of the operations do to a volume (src/fs.rs).

module Operations {
  import opened Bytes
  import opened Device
  import opened Superblock
  import opened Inodes
  import opened Volume
  import opened Allocator
  import opened Bitmap
  import opened Ownership
  import opened FileData
  import opened DirEntries
  import opened Namespace
  import opened DirView
  import opened Invariant
  import opened Directory

  /// A changed volume with a correct counter is sound again.
  lemma ChangedSound(v: Vol, v': Vol, g: Geometry, n: nat, node: Node)
    requires Sound(v, g) && n < |v.s.inodes| && Changed(v, v', n, node)
    requires Describes(v'.sb, g) && Counted(v'.sb.freeBlocks, v'.alloc, g.maxBlocks)
    requires Below(g.DataStart()) <= v'.alloc
    requires Live(v'.s, n) ==>
      if IsDir(v'.s.inodes[n]) then v'.s.inodes[n].size == PAGE_SIZE * v'.s.inodes[n].blockCount
      else FileOk(v'.s, v'.s.inodes[n])
    ensures Sound(v', g)
  {
    hide Owns, Frame, FileOk, NodeAt;
    FrameClean(v.s, v'.s, {n});
  }

  // ---------- a new file ----------

  lemma NewFileChange(v: Vol, v': Vol, i: Inode)
    requires Owns(v.s) && HeldIn(v.s, v.alloc) && i.no < |v.s.inodes| && !Live(v.s, i.no)
    requires IsLive(i) && !IsDir(i) && i.blockCount == 0 && i.indirect == 0 && i.size == 0
    requires v'.s == v.s.SetInode(i) && v'.alloc == v.alloc
    ensures Changed(v, v', i.no, File) && FileOk(v'.s, i) && Content(v'.s, i.no) == [] && HeldSet(v'.s, i.no) == {}
    ensures HeldSet(v.s, i.no) == {}
  {
    hide ByteAt;
    SetInodeFrame(v.s, i);
    forall k: nat ensures !Holds(v'.s, i.no, k) && !Holds(v.s, i.no, k) {
    }
    ChangeOne(v.s, v'.s, i.no);
    HeldInAfter(v.s, v'.s, i.no, v.alloc, v.alloc);
  }

  // ---------- a new directory ----------

  /// The first block of a directory: "." and "..", the rest free.
  function DotBlock(self: u32, parent: u32): Block {
    Splice(Splice(Zeros(BLOCK_SIZE), 0, DirEntries.Encode(NewEntry(self, DOT, true))),
           DIR_ENTRY_SIZE, DirEntries.Encode(NewEntry(parent, DOTDOT, true)))
  }

  /// The block of a new directory: two entries named by one dot and two dots, and zeros.
  lemma DotBlockLayout(self: u32, parent: u32)
    ensures DotBlock(self, parent) ==
      DirEntries.Encode(NewEntry(self, [0x2E], true)) +
      DirEntries.Encode(NewEntry(parent, [0x2E, 0x2E], true)) + Zeros(444)
  {
    hide DirEntries.Encode, NewEntry;
    var a, b := DirEntries.Encode(NewEntry(self, DOT, true)), DirEntries.Encode(NewEntry(parent, DOTDOT, true));
    SpliceFillsZeros([], a, 512);
    SpliceFillsZeros(a, b, 478);
    assert [] + Zeros(512) == Zeros(512) && [] + a == a;
  }

  lemma DotBlockEntries(self: u32, parent: u32, j: nat)
    requires j < ENTRIES_PER_BLOCK
    ensures EntryAt(DotBlock(self, parent), j) ==
      if j == 0 then NewEntry(self, DOT, true)
      else if j == 1 then NewEntry(parent, DOTDOT, true)
      else EntryAt(Zeros(BLOCK_SIZE), j)
  {
    hide EntryAt, DirEntries.Encode, NewEntry;
    var b := Splice(Zeros(BLOCK_SIZE), 0, DirEntries.Encode(NewEntry(self, DOT, true)));
    EntrySplice(Zeros(BLOCK_SIZE), 0, NewEntry(self, DOT, true), j);
    EntrySplice(b, 1, NewEntry(parent, DOTDOT, true), j);
  }

  /// Such a block lists the two dots and nothing else.
  lemma DotBlockFolder(ss: seq<DirEntry>, self: u32, parent: u32)
    requires |ss| == ENTRIES_PER_BLOCK
    requires forall j: nat | j < ENTRIES_PER_BLOCK :: ss[j] == EntryAt(DotBlock(self, parent), j)
    ensures FolderOf(ss) == Folder(Target(self, 2), Target(parent, 2), map[])
  {
    hide DirEntries.Encode, DirEntries.Decode, EntryAt, NewEntry, DotBlock, Listing, Names;
    var d, u := NewEntry(self, DOT, true), NewEntry(parent, DOTDOT, true);
    NewEntryNamed(self, DOT, true);
    NewEntryNamed(parent, DOTDOT, true);
    NewEntryTarget(self, DOT, true);
    NewEntryTarget(parent, DOTDOT, true);
    forall j: nat | j < ENTRIES_PER_BLOCK
      ensures ss[j] == if j == 0 then d else if j == 1 then u else EntryAt(Zeros(BLOCK_SIZE), j)
      ensures IsEmpty(EntryAt(Zeros(BLOCK_SIZE), j))
    {
      DotBlockEntries(self, parent, j);
      ZeroEntry(j);
    }
    assert ss == [d, u] + ss[2..];
    TwoEntries(d, u);
    ListingPadded([d, u], ss[2..]);
    DotsFolder(Listing(ss), Target(self, 2), Target(parent, 2));
  }

  lemma DotsFolder(m: map<Name, Target>, a: Target, b: Target)
    requires m == map[DOT := a, DOTDOT := b]
    ensures FolderOfMap(m) == Folder(a, b, map[])
  {
    assert DOT != DOTDOT;
    assert m - {DOT, DOTDOT} == map[];
  }

  lemma TwoEntries(d: DirEntry, u: DirEntry)
    requires !IsEmpty(d) && !IsEmpty(u) && d.nameLen <= MAX_NAME_LEN && u.nameLen <= MAX_NAME_LEN
    requires NameOf(d) == DOT && NameOf(u) == DOTDOT
    ensures WellFormed([d, u]) && Listing([d, u]) == map[DOT := TargetOf(d), DOTDOT := TargetOf(u)]
  {
    hide NameOf, Listing, Names, WellFormed;
    var e0, e1 := d.(nameLen := 0), u.(nameLen := 0);
    EmptyListing();
    ListingPadded([], [e0, e1]);
    assert [] + [e0, e1] == [e0, e1];
    ListingInsert([e0, e1], 0, d);
    assert [e0, e1][0 := d] == [d, e1];
    assert DOT != DOTDOT;
    ListingInsert([d, e1], 1, u);
    assert [d, e1][1 := u] == [d, u];
  }

  lemma EmptyListing()
    ensures WellFormed([]) && Listing([]) == map[]
  {
    assert Names([]) == {};
  }

  /// mkdir's record for a block b.
  function DirRecord(no: u32, b: u32, now: i64): Inode {
    NewDir(no, now).(direct := NewDir(no, now).direct[0 := b], blockCount := 1, size := PAGE_SIZE)
  }

  lemma DirRecordOk(no: u32, b: u32, now: i64)
    ensures var i := DirRecord(no, b, now);
      && IsLive(i) && IsDir(i) && i.no == no && i.blockCount == 1 && i.indirect == 0
      && i.direct[0] == b && i.size == PAGE_SIZE * i.blockCount
  {
    hide And;
    DirBit(DirRecord(no, b, now));
  }

  lemma NewDirChange(v: Vol, v': Vol, i: Inode, b: nat, parent: u32)
    requires Owns(v.s) && HeldIn(v.s, v.alloc) && i.no < |v.s.inodes| && !Live(v.s, i.no)
    requires b in v.s.data && Unheld(v.s, b) && b !in v.alloc
    requires IsLive(i) && IsDir(i) && i.blockCount == 1 && i.indirect == 0 && i.direct[0] == b
    requires v'.s == v.s.SetData(b, DotBlock(i.no, parent)).SetInode(i) && v'.alloc == v.alloc + {b}
    ensures Changed(v, v', i.no, Folder(Target(i.no, 2), Target(parent, 2), map[]))
    ensures HeldSet(v'.s, i.no) == {b} && HeldSet(v.s, i.no) == {}
  {
    hide FolderOf, DotBlock, EntryAt;
    var n, m := i.no, v.s.SetData(b, DotBlock(i.no, parent));
    WriteUnheld(v.s, b, DotBlock(i.no, parent));
    SetInodeFrame(m, i);
    FrameTrans(v.s, m, v'.s, {}, {n}, {n});
    forall k: nat
      ensures Holds(v'.s, n, k) <==> k == 0
      ensures !Holds(v.s, n, k)
    {
    }
    ChangeOne(v.s, v'.s, n);
    HeldInAfter(v.s, v'.s, n, v.alloc, v'.alloc);
    assert Holds(v'.s, n, 0) && Held(v'.s, n, 0) == b;
    var ss := Slots(v'.s, i);
    forall j: nat | j < ENTRIES_PER_BLOCK
      ensures ss[j] == EntryAt(DotBlock(i.no, parent), j)
    {
      assert j / ENTRIES_PER_BLOCK == 0 && j % ENTRIES_PER_BLOCK == j;
    }
    DotBlockFolder(ss, i.no, parent);
  }

  // ---------- setattr ----------

  /// `(mode & 0xF000) | (new_mode & 0o777)` takes the nine permission bits of the new mode
  /// and the four type bits of the old one.
  lemma Chmod(m: u16, n: u32)
    ensures And(m, 0xF000) <= m && And(n, 0x1FF) <= 0x1FF && Or(And(m, 0xF000), And(n, 0x1FF)) < 0x1_0000
    ensures forall k: nat | k < 16 ::
      Bit(Or(And(m, 0xF000), And(n, 0x1FF)), k) <==> (if k < 9 then Bit(n, k) else k >= 12 && Bit(m, k))
  {
    hide And, Or;
    AndAtMost(m, 0xF000);
    AndAtMost(n, 0x1FF);
    Pow2Of8();
    WidthKept(And(m, 0xF000), And(n, 0x1FF), 16);
    forall k: nat | k < 16
      ensures Bit(Or(And(m, 0xF000), And(n, 0x1FF)), k) <==> (if k < 9 then Bit(n, k) else k >= 12 && Bit(m, k))
    {
      OrBits(And(m, 0xF000), And(n, 0x1FF), k);
      AndBits(m, 0xF000, k);
      AndBits(n, 0x1FF, k);
      TypeBits(k);
      PermBits(k);
    }
  }

  lemma TypeBits(k: nat)
    requires k < 16
    ensures Bit(0xF000, k) <==> k >= 12
  {
    var j := k % 4;
    if k >= 4 {
      ShiftNibble(0xF000, k - 4);
      if k >= 8 {
        ShiftNibble(0xF00, k - 8);
        if k >= 12 {
          ShiftNibble(0xF0, k - 12);
          SmallBits(0xF, k - 12);
        } else {
          SmallBits(0xF0, k - 8);
        }
      } else {
        SmallBits(0xF00, k - 4);
      }
    } else {
      SmallBits(0xF000, k);
    }
  }

  lemma PermBits(k: nat)
    requires k < 16
    ensures Bit(0x1FF, k) <==> k < 9
  {
    if k >= 4 {
      ShiftNibble(0x1FF, k - 4);
      if k >= 8 {
        ShiftNibble(0x1F, k - 8);
        if k >= 12 {
          ShiftNibble(1, k - 12);
          ZeroHasNoBits(k - 12);
        } else {
          SmallBits(1, k - 8);
        }
      } else {
        SmallBits(0x1F, k - 4);
      }
    } else {
      SmallBits(0x1FF, k);
    }
  }

  /// The four lowest bits by arithmetic.
  lemma SmallBits(n: nat, k: nat)
    requires k < 4
    ensures Bit(n, k) <==> (n / (if k == 0 then 1 else if k == 1 then 2 else if k == 2 then 4 else 8)) % 2 == 1
  {
    assert n / 2 / 2 == n / 4 && n / 2 / 2 / 2 == n / 8;
    if k == 1 {
      assert Bit(n, 1) == Bit(n / 2, 0);
    } else if k == 2 {
      assert Bit(n, 2) == Bit(n / 2, 1) == Bit(n / 2 / 2, 0);
    } else if k == 3 {
      assert Bit(n, 3) == Bit(n / 2, 2) == Bit(n / 2 / 2, 1) == Bit(n / 2 / 2 / 2, 0);
    }
  }

  lemma SameKind(i: Inode, i': Inode)
    requires Bit(i'.mode, 14) <==> Bit(i.mode, 14)
    ensures IsDir(i') == IsDir(i)
  {
    hide And;
    Bit14(i.mode);
    Bit14(i'.mode);
    DirBit(i);
    DirBit(i');
  }

  /// A record that keeps its kind, size and blocks keeps what the inode means.
  lemma RecordOnly(v: Vol, v': Vol, g: Geometry, i: Inode)
    requires Sound(v, g) && Live(v.s, i.no) && v' == v.(s := v.s.SetInode(i))
    requires i == v.s.inodes[i.no].(mode := i.mode, mtime := i.mtime) && IsDir(i) == IsDir(v.s.inodes[i.no])
    ensures Changed(v, v', i.no, NodeAt(v.s, i.no)) && Sound(v', g)
    ensures Slots(v'.s, i) == Slots(v.s, v.s.inodes[i.no]) && Content(v'.s, i.no) == Content(v.s, i.no)
  {
    hide FolderOf, EntryAt, IsDir, Counted;
    var i0 := v.s.inodes[i.no];
    SetSameMap(v.s, i);
    assert forall k: nat :: BlockNo(v'.s, i, k) == BlockNo(v.s, i0, k);
    assert forall b: nat :: DataAt(v'.s, b) == DataAt(v.s, b);
    assert Slots(v'.s, i) == Slots(v.s, i0);
    assert forall p: nat :: ByteAt(v'.s, i, p) == ByteAt(v.s, i0, p);
    ChangedSound(v, v', g, i.no, NodeAt(v.s, i.no));
  }
}

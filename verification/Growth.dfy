/// The state of `write` between its steps: the disk, and the record it will become once
/// the inode in memory is written back (src/fs.rs:454-520).

module Growth {
  import opened Bytes
  import opened Device
  import opened Superblock
  import opened Inodes
  import opened Volume
  import opened Bitmap
  import opened Ownership
  import opened FileData
  import opened Namespace
  import opened DirView
  import opened Invariant

  /// Byte p of file n, 0 past its blocks.
  ghost function Base(v: Vol, n: nat, p: nat): byte
    requires n < |v.s.inodes|
  {
    if p < PAGE_SIZE * v.s.inodes[n].blockCount then ByteAt(v.s, v.s.inodes[n], p) else 0
  }

  /// The store as it would be with the record in memory written back.
  ghost function Pending(v: Vol, i: Inode): Store
    requires i.no < |v.s.inodes|
  {
    v.s.SetInode(i)
  }

  ghost predicate RegularFile(v: Vol, n: nat) {
    && Owns(v.s) && HeldIn(v.s, v.alloc) && Live(v.s, n) && !IsDir(v.s.inodes[n])
  }

  /// The record in memory extends the one on disk.
  ghost predicate Extends(s: Store, i: Inode) {
    && i.no < |s.inodes|
    && i == s.inodes[i.no].(direct := i.direct, indirect := i.indirect, blockCount := i.blockCount)
    && s.inodes[i.no].blockCount <= i.blockCount <= MAX_FILE_BLOCKS
    && (s.inodes[i.no].indirect != 0 ==> i.indirect == s.inodes[i.no].indirect)
  }

  /// Grow loop: every inode on disk is as it was; the pending store owns its blocks
  /// and the file reads as before, with zeros behind.
  ghost predicate Growing(v0: Vol, v: Vol, i: Inode) {
    var n := i.no;
    && RegularFile(v0, n) && Extends(v0.s, i)
    && Frame(v0.s, v.s, {}) && v0.alloc <= v.alloc
    && Owns(Pending(v, i)) && HeldIn(Pending(v, i), v.alloc) && Frame(v0.s, Pending(v, i), {n})
    && (forall j: nat | j < v0.s.inodes[n].blockCount :: Held(Pending(v, i), n, j) == Held(v0.s, n, j))
    && (forall p: nat | p < PAGE_SIZE * i.blockCount :: ByteAt(Pending(v, i), i, p) == Base(v0, n, p))
    && v.alloc - HeldSet(Pending(v, i), n) == Rest(v0, n)
  }

  lemma GrowStart(v: Vol, n: nat)
    requires RegularFile(v, n)
    ensures v.s.inodes[n].no == n && Growing(v, v, v.s.inodes[n])
  {
    hide ByteAt, HeldSet;
    assert v.s.SetInode(v.s.inodes[n]) == v.s;
    assert Shape(v.s.inodes[n]);
  }

  /// One more block for the pending record.
  lemma GrowStep(v0: Vol, v: Vol, v': Vol, i: Inode, i': Inode, b: nat, X: set<nat>)
    requires Growing(v0, v, i) && i'.no == i.no && i.no < |v'.s.inodes|
    requires Grown(Pending(v, i), Pending(v', i'), i.no, i.blockCount, b)
    requires Frame(v.s, v'.s, {})
    requires v'.alloc == v.alloc + X && X !! v.alloc
    requires HeldSet(Pending(v', i'), i.no) == HeldSet(Pending(v, i), i.no) + X
    ensures Growing(v0, v', i')
  {
    hide ByteAt, HeldSet, Owns, HeldIn;
    RecordKept(v0, v, i);
    var n, w, w' := i.no, Pending(v, i), Pending(v', i');
    FrameTrans(v0.s, v.s, v'.s, {}, {}, {});
    FrameTrans(v0.s, w, w', {n}, {n}, {n});
    GrownBytes(w, w', n, i.blockCount, b);
    HeldSetAllocated(w, v.alloc, n);
    forall k: nat | Holds(w', n, k)
      ensures Held(w', n, k) in v'.alloc
    {
      HeldSetMembers(w', n, k);
    }
    HeldInAfter(w, w', n, v.alloc, v'.alloc);
  }

  lemma RecordKept(v0: Vol, v: Vol, i: Inode)
    requires Growing(v0, v, i)
    ensures |v.s.inodes| == |v0.s.inodes| && v.s.inodes == v0.s.inodes && v.s.data.Keys == v0.s.data.Keys
    ensures Owns(v.s) && HeldIn(v.s, v.alloc)
    ensures Live(Pending(v, i), i.no) && !IsDir(i) && Shape(i)
  {
    hide ByteAt, HeldSet;
    DirBit(i);
    DirBit(v0.s.inodes[i.no]);
    FrameOwns(v0.s, v.s);
    assert Live(Pending(v, i), i.no);
  }

  // ---------- the three ways a block is chained on ----------

  lemma StepDirect(v0: Vol, v: Vol, v': Vol, i: Inode, b: nat)
    requires Growing(v0, v, i) && i.blockCount < DIRECT_BLOCKS
    requires b in v.s.data && Unheld(Pending(v, i), b) && Unheld(v.s, b) && b !in v.alloc && b < 0x1_0000
    requires v'.alloc == v.alloc + {b} && v'.s == v.s.SetData(b, Zeros(BLOCK_SIZE))
    ensures Growing(v0, v', i.(direct := i.direct[i.blockCount := b], blockCount := i.blockCount + 1))
  {
    hide ByteAt, HeldSet, Owns, HeldIn;
    RecordKept(v0, v, i);
    var n, k, w := i.no, i.blockCount, Pending(v, i);
    var i' := i.(direct := i.direct[k := b], blockCount := k + 1);
    GrowDirect(w, n, k, b);
    assert Pending(v', i') == WithDirect(w, n, k, b);
    WriteUnheld(v.s, b, Zeros(BLOCK_SIZE));
    GrownHeldSet(w, Pending(v', i'), n, k, b);
    GrowStep(v0, v, v', i, i', b, {b});
  }

  lemma GrownHeldSet(w: Store, w': Store, n: nat, k: nat, b: nat)
    requires Grown(w, w', n, k, b) && w'.inodes[n].indirect == w.inodes[n].indirect
    ensures HeldSet(w', n) == HeldSet(w, n) + {b}
  {
    hide Owns, Frame;
    forall j: nat
      ensures Holds(w', n, j) <==> Holds(w, n, j) || j in {k}
      ensures Holds(w, n, j) && j !in {k} ==> Held(w', n, j) == Held(w, n, j)
      ensures j in {k} ==> !Holds(w, n, j)
    {
    }
    HeldSetGrows(w, w', n, {k});
    var more := set j | j in {k} :: Held(w', n, j);
    assert more == {b};
  }

  /// Setting the next pointer of the pending record's indirect block is past the block
  /// count of the record on disk, so no inode on disk is touched.
  lemma PointerOnDisk(v0: Vol, v: Vol, i: Inode, b: u16)
    requires Growing(v0, v, i) && DIRECT_BLOCKS < i.blockCount < MAX_FILE_BLOCKS
    ensures i.indirect in v.s.data && i.indirect in v.alloc
    ensures var c := i.indirect;
      Frame(v.s, v.s.SetData(c, Splice(DataAt(v.s, c), (i.blockCount - DIRECT_BLOCKS) * 2, LE16(b))), {})
  {
    hide ByteAt, HeldSet, Splice, LE16, Pointer;
    RecordKept(v0, v, i);
    var n, c, k, w := i.no, i.indirect, i.blockCount, Pending(v, i);
    assert Holds(w, n, INDIRECT_SLOT) && Held(w, n, INDIRECT_SLOT) == c;
    var s' := v.s.SetData(c, Splice(DataAt(v.s, c), (k - DIRECT_BLOCKS) * 2, LE16(b)));
    forall m: nat | Live(v.s, m)
      ensures Untouched(v.s, s', m)
    {
      if m == n {
        PointerSameFile(v0, v, i, b);
      } else {
        OthersUntouched(v.s, w, n, c, s'.data[c], m);
      }
    }
  }

  /// A block held by n in the pending store is held by no other inode.
  lemma OthersUntouched(s: Store, w: Store, n: nat, c: nat, block: Block, m: nat)
    requires Owns(w) && |w.inodes| == |s.inodes| && w.data == s.data
    requires exists k: nat :: Holds(w, n, k) && Held(w, n, k) == c
    requires m != n && Live(s, m) && w.inodes[m] == s.inodes[m]
    ensures Untouched(s, s.SetData(c, block), m)
  {
    var k: nat :| Holds(w, n, k) && Held(w, n, k) == c;
    var s' := s.SetData(c, block);
    assert s.inodes[m].indirect != 0 ==>
      Holds(w, m, INDIRECT_SLOT) && Held(w, m, INDIRECT_SLOT) == s.inodes[m].indirect;
    SameHeld(s, s', m);
    forall j: nat | Has(s.inodes[m], j) ensures Held(s, m, j) != c {
      assert Holds(w, m, j) && Held(w, m, j) == Held(s, m, j);
    }
  }

  lemma PointerSameFile(v0: Vol, v: Vol, i: Inode, b: u16)
    requires Growing(v0, v, i) && DIRECT_BLOCKS < i.blockCount < MAX_FILE_BLOCKS && i.no < |v.s.inodes|
    ensures var c := i.indirect;
      Untouched(v.s, v.s.SetData(c, Splice(DataAt(v.s, c), (i.blockCount - DIRECT_BLOCKS) * 2, LE16(b))), i.no)
  {
    hide ByteAt, HeldSet, Splice, LE16, Pointer;
    RecordKept(v0, v, i);
    var n, c, k, w := i.no, i.indirect, i.blockCount, Pending(v, i);
    var r := v.s.inodes[n];
    var s' := v.s.SetData(c, Splice(DataAt(v.s, c), (k - DIRECT_BLOCKS) * 2, LE16(b)));
    assert Holds(w, n, INDIRECT_SLOT) && Held(w, n, INDIRECT_SLOT) == c;
    forall j: nat | Has(r, j)
      ensures Held(s', n, j) == Held(v.s, n, j)
      ensures j != INDIRECT_SLOT ==> Held(v.s, n, j) != c
    {
      if j != INDIRECT_SLOT {
        assert Holds(w, n, j) && Held(w, n, j) == Held(v0.s, n, j);
        assert Untouched(v0.s, v.s, n);
        assert Held(v.s, n, j) == Held(w, n, j);
        if j >= DIRECT_BLOCKS {
          PointerSplice(DataAt(v.s, c), k - DIRECT_BLOCKS, b, j - DIRECT_BLOCKS);
        }
      }
    }
  }

  lemma StepPointer(v0: Vol, v: Vol, v': Vol, i: Inode, b: nat)
    requires Growing(v0, v, i) && DIRECT_BLOCKS < i.blockCount < MAX_FILE_BLOCKS
    requires b in v.s.data && Unheld(Pending(v, i), b) && Unheld(v.s, b) && b !in v.alloc && b < 0x1_0000
    requires v'.alloc == v.alloc + {b}
    requires var c, at := i.indirect, (i.blockCount - DIRECT_BLOCKS) * 2;
      v'.s == v.s.SetData(c, Splice(DataAt(v.s, c), at, LE16(b))).SetData(b, Zeros(BLOCK_SIZE))
    ensures Growing(v0, v', i.(blockCount := i.blockCount + 1))
  {
    hide ByteAt, HeldSet, Owns, HeldIn, Splice, LE16, Pointer;
    RecordKept(v0, v, i);
    PointerOnDisk(v0, v, i, b);
    var n, k, c, w := i.no, i.blockCount, i.indirect, Pending(v, i);
    var i' := i.(blockCount := k + 1);
    var m := v.s.SetData(c, Splice(DataAt(v.s, c), (k - DIRECT_BLOCKS) * 2, LE16(b)));
    GrowPointer(w, n, k, b);
    assert Pending(v', i') == WithPointer(w, n, k, b);
    FrameOwns(v.s, m);
    UnheldAfter(v.s, m, b);
    WriteUnheld(m, b, Zeros(BLOCK_SIZE));
    FrameTrans(v.s, m, v'.s, {}, {}, {});
    GrownHeldSet(w, Pending(v', i'), n, k, b);
    GrowStep(v0, v, v', i, i', b, {b});
  }

  lemma UnheldAfter(s: Store, s': Store, b: nat)
    requires Frame(s, s', {}) && Unheld(s, b)
    ensures Unheld(s', b)
  {
    forall n: nat, k: nat | Holds(s', n, k)
      ensures Held(s', n, k) != b
    {
      assert Untouched(s, s', n);
      assert Holds(s, n, k);
    }
  }

  lemma StepIndirect(v0: Vol, v: Vol, v': Vol, i: Inode, b: nat, c: nat)
    requires Growing(v0, v, i) && i.blockCount == DIRECT_BLOCKS && b != c
    requires b in v.s.data && Unheld(Pending(v, i), b) && Unheld(v.s, b) && b !in v.alloc && b < 0x1_0000
    requires c in v.s.data && Unheld(Pending(v, i), c) && Unheld(v.s, c) && c !in v.alloc && c < 0x1_0000
    requires v'.alloc == v.alloc + {b, c}
    requires v'.s == v.s.SetData(c, Splice(Zeros(BLOCK_SIZE), 0, LE16(b))).SetData(b, Zeros(BLOCK_SIZE))
    ensures Growing(v0, v', i.(indirect := c, blockCount := DIRECT_BLOCKS + 1))
  {
    hide ByteAt, HeldSet, Owns, HeldIn, Splice, LE16, Pointer;
    RecordKept(v0, v, i);
    var n, k, w := i.no, i.blockCount, Pending(v, i);
    var i' := i.(indirect := c, blockCount := DIRECT_BLOCKS + 1);
    var m := v.s.SetData(c, Splice(Zeros(BLOCK_SIZE), 0, LE16(b)));
    GrowIndirect(w, n, b, c);
    assert Pending(v', i') == WithIndirect(w, n, b, c);
    WriteUnheld(v.s, c, Splice(Zeros(BLOCK_SIZE), 0, LE16(b)));
    FrameOwns(v.s, m);
    UnheldAfter(v.s, m, b);
    WriteUnheld(m, b, Zeros(BLOCK_SIZE));
    FrameTrans(v.s, m, v'.s, {}, {}, {});
    IndirectHeldSet(w, Pending(v', i'), n, b, c);
    GrowStep(v0, v, v', i, i', b, {b, c});
  }

  lemma IndirectHeldSet(w: Store, w': Store, n: nat, b: nat, c: nat)
    requires Grown(w, w', n, DIRECT_BLOCKS, b) && w.inodes[n].indirect == 0 && w'.inodes[n].indirect == c != 0
    ensures HeldSet(w', n) == HeldSet(w, n) + {b, c}
  {
    hide Owns, Frame;
    forall j: nat
      ensures Holds(w', n, j) <==> Holds(w, n, j) || j in {DIRECT_BLOCKS, INDIRECT_SLOT}
      ensures Holds(w, n, j) && j !in {DIRECT_BLOCKS, INDIRECT_SLOT} ==> Held(w', n, j) == Held(w, n, j)
      ensures j in {DIRECT_BLOCKS, INDIRECT_SLOT} ==> !Holds(w, n, j)
    {
    }
    HeldSetGrows(w, w', n, {DIRECT_BLOCKS, INDIRECT_SLOT});
    var more := set j | j in {DIRECT_BLOCKS, INDIRECT_SLOT} :: Held(w', n, j);
    assert Held(w', n, DIRECT_BLOCKS) in more && Held(w', n, INDIRECT_SLOT) in more;
    assert more == {b, c};
  }

  /// While growing, every state of the disk reads exactly as before.
  lemma GrowStage(v0: Vol, h: Vol, n: nat)
    requires RegularFile(v0, n) && Frame(v0.s, h.s, {}) && v0.alloc <= h.alloc
    ensures Changed(v0, h, n, File)
  {
    hide Owns;
    FrameOwns(v0.s, h.s);
  }

  // ---------- the copy loop ----------

  /// Byte p of the file once `done` bytes of data are in place at the offset.
  ghost function Wanted(v0: Vol, n: nat, offset: nat, data: seq<byte>, done: nat, p: nat): byte
    requires n < |v0.s.inodes| && done <= |data|
  {
    if offset <= p < offset + done then data[p - offset] else Base(v0, n, p)
  }

  /// Copy loop: the records on disk are as they were, and the pending file has the first
  /// `done` bytes of data at the offset.
  ghost predicate Writing(v0: Vol, v: Vol, i: Inode, offset: nat, data: seq<byte>, done: nat) {
    var n := i.no;
    && RegularFile(v0, n) && Extends(v0.s, i) && done <= |data|
    && v.s.inodes == v0.s.inodes && v0.alloc <= v.alloc
    && Changed(v0, v, n, File)
    && Owns(Pending(v, i)) && HeldIn(Pending(v, i), v.alloc) && Frame(v0.s, Pending(v, i), {n})
    && (forall p: nat | p < PAGE_SIZE * i.blockCount ::
      ByteAt(Pending(v, i), i, p) == Wanted(v0, n, offset, data, done, p))
    && v.alloc - HeldSet(Pending(v, i), n) == Rest(v0, n)
  }

  lemma WriteStart(v0: Vol, v: Vol, i: Inode, offset: nat, data: seq<byte>)
    requires Growing(v0, v, i)
    ensures Writing(v0, v, i, offset, data, 0)
  {
    hide ByteAt, HeldSet, Owns, HeldIn;
    RecordKept(v0, v, i);
    GrowStage(v0, v, i.no);
  }

  /// The block under the cursor belongs to the pending file.
  lemma CursorBlock(v0: Vol, v: Vol, i: Inode, offset: nat, data: seq<byte>, done: nat, k: nat)
    requires Writing(v0, v, i, offset, data, done) && k < i.blockCount
    ensures Holds(Pending(v, i), i.no, k) && Held(Pending(v, i), i.no, k) == BlockNo(v.s, i, k)
    ensures BlockNo(v.s, i, k) in v.s.data && BlockNo(v.s, i, k) != 0
    ensures i.indirect != 0 ==> i.indirect in v.s.data
  {
    hide ByteAt, HeldSet, HeldIn;
    var w := Pending(v, i);
    assert Holds(w, i.no, k);
    assert i.indirect != 0 ==> Holds(w, i.no, INDIRECT_SLOT);
  }

  lemma WriteStep(v0: Vol, v: Vol, v': Vol, i: Inode, offset: nat, data: seq<byte>, done: nat, len: nat)
    requires Writing(v0, v, i, offset, data, done) && done + len <= |data|
    requires var q := offset + done;
      && q / PAGE_SIZE < i.blockCount && q % PAGE_SIZE + len <= PAGE_SIZE
      && v'.alloc == v.alloc
      && v'.s == v.s.SetData(BlockNo(v.s, i, q / PAGE_SIZE),
           Splice(DataAt(v.s, BlockNo(v.s, i, q / PAGE_SIZE)), q % PAGE_SIZE, data[done..done + len]))
    ensures Writing(v0, v', i, offset, data, done + len)
  {
    hide ByteAt, HeldSet, HeldIn, Owns, Splice;
    var q := offset + done;
    var n, k, w := i.no, q / PAGE_SIZE, Pending(v, i);
    var b := BlockNo(v.s, i, k);
    CursorBlock(v0, v, i, offset, data, done, k);
    var block := Splice(DataAt(v.s, b), q % PAGE_SIZE, data[done..done + len]);
    WriteOwn(w, n, k, block);
    var w' := w.SetData(b, block);
    assert w' == Pending(v', i);
    FrameTrans(v0.s, w, w', {n}, {n}, {n});
    HeldStill(w, w', n, v.alloc);
    HeldInAfter(w, w', n, v.alloc, v.alloc);
    SameHeldSet(w, w', n);
    OnDiskWrite(v0, v, v', i, offset, data, done, k, block);
    WriteStepBytes(v0, v, w', i, offset, data, done, len);
  }

  lemma WriteStepBytes(v0: Vol, v: Vol, w': Store, i: Inode, offset: nat, data: seq<byte>, done: nat, len: nat)
    requires Writing(v0, v, i, offset, data, done) && done + len <= |data|
    requires var q, n := offset + done, i.no;
      && q / PAGE_SIZE < i.blockCount && q % PAGE_SIZE + len <= PAGE_SIZE
      && w'.inodes == Pending(v, i).inodes && (forall j: nat :: Held(w', n, j) == Held(Pending(v, i), n, j))
      && DataAt(w', Held(Pending(v, i), n, q / PAGE_SIZE))
         == Splice(DataAt(v.s, Held(Pending(v, i), n, q / PAGE_SIZE)), q % PAGE_SIZE, data[done..done + len])
      && forall x: nat | x != Held(Pending(v, i), n, q / PAGE_SIZE) :: DataAt(w', x) == DataAt(v.s, x)
    ensures forall p: nat | p < PAGE_SIZE * i.blockCount ::
      ByteAt(w', i, p) == Wanted(v0, i.no, offset, data, done + len, p)
  {
    hide ByteAt, HeldSet, HeldIn, Owns, Splice, Held, Frame, Changed, Base;
    var q := offset + done;
    forall p: nat | p < PAGE_SIZE * i.blockCount
      ensures ByteAt(w', i, p) == Wanted(v0, i.no, offset, data, done + len, p)
    {
      CursorBlock(v0, v, i, offset, data, done, p / PAGE_SIZE);
      WrittenByte(Pending(v, i), w', i, q, data[done..done + len], p);
    }
  }

  lemma HeldStill(w: Store, w': Store, n: nat, alloc: set<nat>)
    requires HeldIn(w, alloc) && n < |w.inodes| && w'.inodes == w.inodes
    requires forall j: nat :: Held(w', n, j) == Held(w, n, j)
    ensures forall k: nat | Holds(w', n, k) :: Held(w', n, k) in alloc
  {
    forall k: nat | Holds(w', n, k) ensures Held(w', n, k) in alloc {
      assert Holds(w, n, k);
    }
  }

  /// Byte p after the slice at q of its block is replaced.
  lemma WrittenByte(w: Store, w': Store, i: Inode, q: nat, piece: seq<byte>, p: nat)
    requires Owns(w) && Live(w, i.no) && w.inodes[i.no] == i && i.blockCount <= MAX_FILE_BLOCKS
    requires q / PAGE_SIZE < i.blockCount && p / PAGE_SIZE < i.blockCount && q % PAGE_SIZE + |piece| <= PAGE_SIZE
    requires w'.inodes == w.inodes && forall j: nat :: Held(w', i.no, j) == Held(w, i.no, j)
    requires var b := Held(w, i.no, q / PAGE_SIZE);
      && DataAt(w', b) == Splice(DataAt(w, b), q % PAGE_SIZE, piece)
      && forall x: nat | x != b :: DataAt(w', x) == DataAt(w, x)
    ensures ByteAt(w', i, p) == if q <= p < q + |piece| then piece[p - q] else ByteAt(w, i, p)
  {
    var n, k, j := i.no, q / PAGE_SIZE, p / PAGE_SIZE;
    assert Holds(w, n, k) && Holds(w, n, j);
    assert Held(w', n, j) == Held(w, n, j);
    assert BlockNo(w', i, j) == BlockNo(w, i, j) == Held(w, n, j);
    SamePage(p, q, |piece|);
    if j != k {
      assert Held(w, n, j) != Held(w, n, k);
    }
  }

  /// Positions on one page differ as their offsets do; a piece stays on its page.
  lemma SamePage(p: nat, q: nat, len: nat)
    requires q % PAGE_SIZE + len <= PAGE_SIZE
    ensures p / PAGE_SIZE == q / PAGE_SIZE ==> p - q == p % PAGE_SIZE - q % PAGE_SIZE
    ensures p / PAGE_SIZE != q / PAGE_SIZE ==> !(q <= p < q + len)
  {
  }

  /// On the disk, the write touches at most the file itself, whose record still stands.
  lemma OnDiskWrite(v0: Vol, v: Vol, v': Vol, i: Inode, offset: nat, data: seq<byte>, done: nat, k: nat, block: Block)
    requires Writing(v0, v, i, offset, data, done) && k < i.blockCount
    requires v'.alloc == v.alloc && v'.s == v.s.SetData(BlockNo(v.s, i, k), block)
    ensures Changed(v0, v', i.no, File)
  {
    hide ByteAt, HeldSet, FolderOf;
    var n, b, w := i.no, BlockNo(v.s, i, k), Pending(v, i);
    CursorBlock(v0, v, i, offset, data, done, k);
    var s, s' := v.s, v'.s;
    forall m: nat | Live(s, m) && m != n
      ensures Untouched(s, s', m)
    {
      OthersUntouched(s, w, n, b, block, m);
    }
    assert s.inodes[n].indirect != 0 ==>
      Holds(w, n, INDIRECT_SLOT) && Held(w, n, INDIRECT_SLOT) == s.inodes[n].indirect;
    SameHeld(s, s', n);
    forall m: nat, j: nat | Holds(s, m, j)
      ensures Held(s', m, j) == Held(s, m, j)
    {
      if m != n {
        assert Untouched(s, s', m);
      }
    }
    SameMapOwns(s, s');
    FrameTrans(v0.s, s, s', {n}, {n}, {n});
  }

  // ---------- the end of write ----------

  /// A byte string zero-extended to the offset, with the data put over it.
  ghost function Written(c: seq<byte>, offset: nat, data: seq<byte>): (r: seq<byte>)
    ensures |r| == if offset + |data| > |c| then offset + |data| else |c|
  {
    var size := if offset + |data| > |c| then offset + |data| else |c|;
    seq(size, p requires 0 <= p < size =>
      if offset <= p < offset + |data| then data[p - offset] else if p < |c| then c[p] else 0)
  }

  ghost function PagesFor(bytes: nat): nat {
    (bytes + PAGE_SIZE - 1) / PAGE_SIZE
  }

  /// The record written back: the new size and times.
  predicate Final(i: Inode, i': Inode, top: nat) {
    && i'.size == (if top > i.size then top else i.size)
    && i' == i.(size := i'.size, mtime := i'.mtime, atime := i'.atime)
  }

  lemma BaseIsContent(v0: Vol, n: nat, p: nat)
    requires RegularFile(v0, n) && FileOk(v0.s, v0.s.inodes[n])
    ensures Base(v0, n, p) == if p < |Content(v0.s, n)| then Content(v0.s, n)[p] else 0
  {
    hide ByteAt;
    var i := v0.s.inodes[n];
    assert i.size <= PAGE_SIZE * i.blockCount;
  }

  /// Writing the record back turns the pending file into the file on disk.
  lemma WriteDone(v0: Vol, v: Vol, v': Vol, i: Inode, i': Inode, offset: nat, data: seq<byte>)
    requires Writing(v0, v, i, offset, data, |data|) && FileOk(v0.s, v0.s.inodes[i.no]) && |data| > 0
    requires PagesFor(offset + |data|) <= i.blockCount
    requires i.blockCount == v0.s.inodes[i.no].blockCount || i.blockCount == PagesFor(offset + |data|)
    requires Final(i, i', offset + |data|) && v'.alloc == v.alloc && v'.s == v.s.SetInode(i')
    ensures Changed(v0, v', i.no, File)
    ensures FileOk(v'.s, i') && Content(v'.s, i.no) == Written(Content(v0.s, i.no), offset, data)
    ensures Rest(v', i.no) == Rest(v0, i.no) && v0.alloc <= v'.alloc
  {
    hide ByteAt, HeldSet, Owns, HeldIn;
    var n, w := i.no, Pending(v, i);
    WriteDoneMap(v0, v, v', i, i', offset, data);
    forall p: nat | p < PAGE_SIZE * i.blockCount
      ensures ByteAt(v'.s, i', p) == Wanted(v0, n, offset, data, |data|, p)
    {
      SameByte(w, v'.s, i, i', p);
    }
    var c := Content(v0.s, n);
    forall p: nat
      ensures Base(v0, n, p) == if p < |c| then c[p] else 0
    {
      BaseIsContent(v0, n, p);
    }
    assert i'.blockCount == PagesFor(i'.size);
    assert Content(v'.s, n) == Written(c, offset, data);
  }

  lemma SameByte(w: Store, s: Store, i: Inode, i': Inode, p: nat)
    requires w.data == s.data && i'.direct == i.direct && i'.indirect == i.indirect
    ensures ByteAt(s, i', p) == ByteAt(w, i, p)
  {
  }

  lemma WriteDoneMap(v0: Vol, v: Vol, v': Vol, i: Inode, i': Inode, offset: nat, data: seq<byte>)
    requires Writing(v0, v, i, offset, data, |data|)
    requires Final(i, i', offset + |data|) && v'.alloc == v.alloc && v'.s == v.s.SetInode(i')
    ensures Changed(v0, v', i.no, File) && Rest(v', i.no) == Rest(v0, i.no)
  {
    hide ByteAt, HeldSet;
    var n, w := i.no, Pending(v, i);
    DirBit(i);
    DirBit(i');
    DirBit(v0.s.inodes[n]);
    assert Live(w, n);
    assert v'.s == w.SetInode(i');
    SetSameMap(w, i');
    FrameTrans(v0.s, w, v'.s, {n}, {n}, {n});
    SameHeldSet(w, v'.s, n);
  }
}

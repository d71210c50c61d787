/// A regular file as a byte string over its block map, and what one round of the grow
/// loop of `write` does to it (src/fs.rs:454-488).

module FileData {
  import opened Bytes
  import opened Device
  import opened Inodes
  import opened Volume
  import opened Ownership

  function ByteAt(s: Store, i: Inode, p: nat): byte {
    DataAt(s, BlockNo(s, i, p / PAGE_SIZE))[p % PAGE_SIZE]
  }

  ghost function Content(s: Store, n: nat): (c: seq<byte>)
    requires n < |s.inodes|
    ensures |c| == s.inodes[n].size
  {
    seq(s.inodes[n].size, p requires 0 <= p < s.inodes[n].size => ByteAt(s, s.inodes[n], p))
  }

  /// The blocks cover the size exactly, and the bytes past the size are zero.
  ghost predicate FileOk(s: Store, i: Inode) {
    && i.blockCount == (i.size + PAGE_SIZE - 1) / PAGE_SIZE
    && forall p: nat | i.size <= p < PAGE_SIZE * i.blockCount :: ByteAt(s, i, p) == 0
  }

  ghost predicate Clean(s: Store) {
    forall n: nat | Live(s, n) ::
      if IsDir(s.inodes[n]) then s.inodes[n].size == PAGE_SIZE * s.inodes[n].blockCount
      else FileOk(s, s.inodes[n])
  }

  lemma UntouchedBytes(s: Store, s': Store, n: nat)
    requires Live(s, n) && |s'.inodes| == |s.inodes| && Untouched(s, s', n) && Shape(s.inodes[n])
    ensures forall p: nat | p < PAGE_SIZE * s.inodes[n].blockCount ::
      ByteAt(s', s'.inodes[n], p) == ByteAt(s, s.inodes[n], p)
  {
    forall p: nat | p < PAGE_SIZE * s.inodes[n].blockCount
      ensures ByteAt(s', s'.inodes[n], p) == ByteAt(s, s.inodes[n], p)
    {
      var k := p / PAGE_SIZE;
      assert Has(s.inodes[n], k);
      assert Held(s', n, k) == Held(s, n, k);
    }
  }

  lemma UntouchedFile(s: Store, s': Store, n: nat)
    requires Live(s, n) && |s'.inodes| == |s.inodes| && Untouched(s, s', n) && Shape(s.inodes[n])
    requires !IsDir(s.inodes[n]) ==> FileOk(s, s.inodes[n])
    ensures !IsDir(s.inodes[n]) ==> FileOk(s', s'.inodes[n]) && Content(s', n) == Content(s, n)
  {
    if !IsDir(s.inodes[n]) {
      UntouchedBytes(s, s', n);
    }
  }

  lemma FrameClean(s: Store, s': Store, X: set<nat>)
    requires Owns(s) && Clean(s) && Frame(s, s', X)
    requires forall n: nat | n in X && Live(s', n) ::
      if IsDir(s'.inodes[n]) then s'.inodes[n].size == PAGE_SIZE * s'.inodes[n].blockCount
      else FileOk(s', s'.inodes[n])
    ensures Clean(s')
  {
    forall n: nat | Live(s', n) && n !in X
      ensures Live(s, n) && s'.inodes[n] == s.inodes[n]
      ensures !IsDir(s.inodes[n]) ==> FileOk(s', s'.inodes[n])
    {
      assert Untouched(s, s', n);
      UntouchedFile(s, s', n);
    }
  }

  // ---------- one round of the grow loop ----------

  /// Inode n gained block k, all zero; its other blocks and everything else are as before.
  ghost predicate Grown(w: Store, w': Store, n: nat, k: nat, b: nat) {
    && Live(w, n) && |w'.inodes| == |w.inodes| && w.inodes[n].blockCount == k < MAX_FILE_BLOCKS
    && Frame(w, w', {n}) && Owns(w')
    && w'.inodes[n] ==
       w.inodes[n].(direct := w'.inodes[n].direct, indirect := w'.inodes[n].indirect, blockCount := k + 1)
    && (k != DIRECT_BLOCKS ==> w'.inodes[n].indirect == w.inodes[n].indirect)
    && (forall j: nat | j < k ::
      Held(w', n, j) == Held(w, n, j) && DataAt(w', Held(w, n, j)) == DataAt(w, Held(w, n, j)))
    && Held(w', n, k) == b && DataAt(w', b) == Zeros(BLOCK_SIZE)
  }

  ghost predicate Growable(w: Store, n: nat, k: nat, b: nat) {
    && Owns(w) && Live(w, n) && !IsDir(w.inodes[n])
    && w.inodes[n].blockCount == k < MAX_FILE_BLOCKS
    && b in w.data && Unheld(w, b)
  }

  ghost function WithDirect(w: Store, n: nat, k: nat, b: nat): Store
    requires Growable(w, n, k, b) && k < DIRECT_BLOCKS
  {
    var i := w.inodes[n];
    w.SetData(b, Zeros(BLOCK_SIZE)).SetInode(i.(direct := i.direct[k := b], blockCount := k + 1))
  }

  lemma GrowDirect(w: Store, n: nat, k: nat, b: nat)
    requires Growable(w, n, k, b) && k < DIRECT_BLOCKS
    ensures Grown(w, WithDirect(w, n, k, b), n, k, b)
  {
    var m, w' := w.SetData(b, Zeros(BLOCK_SIZE)), WithDirect(w, n, k, b);
    WriteUnheld(w, b, Zeros(BLOCK_SIZE));
    SetInodeFrame(m, w'.inodes[n]);
    FrameTrans(w, m, w', {}, {n}, {n});
    forall j: nat | j < k
      ensures Held(w', n, j) == Held(w, n, j) && DataAt(w', Held(w, n, j)) == DataAt(w, Held(w, n, j))
    {
      assert Holds(w, n, j);
    }
    GrownFits(w, w', n, k, b);
    ChangeOne(w, w', n);
  }

  /// All slots of the grown inode are old ones or the new block.
  lemma GrownFits(w: Store, w': Store, n: nat, k: nat, b: nat)
    requires Growable(w, n, k, b) && |w'.inodes| == |w.inodes|
    requires w'.inodes[n] == w.inodes[n].(direct := w'.inodes[n].direct, blockCount := k + 1)
    requires k != DIRECT_BLOCKS
    requires forall j: nat | j < k :: Held(w', n, j) == Held(w, n, j)
    requires Held(w', n, k) == b
    ensures FitsIn(w, w', n)
  {
    forall j: nat | Holds(w', n, j)
      ensures j == k || (Holds(w, n, j) && Held(w', n, j) == Held(w, n, j))
    {
    }
  }

  ghost function WithPointer(w: Store, n: nat, k: nat, b: nat): Store
    requires Growable(w, n, k, b) && k > DIRECT_BLOCKS
  {
    var i := w.inodes[n];
    w.SetData(i.indirect, Splice(DataAt(w, i.indirect), (k - DIRECT_BLOCKS) * 2, LE16(b)))
     .SetData(b, Zeros(BLOCK_SIZE)).SetInode(i.(blockCount := k + 1))
  }

  lemma PointerSplice(block: Block, at: nat, b: u16, j: nat)
    requires 2 * at + 2 <= BLOCK_SIZE && 2 * j + 2 <= BLOCK_SIZE
    ensures Pointer(Splice(block, at * 2, LE16(b)), j) == if j == at then b else Pointer(block, j)
  {
    if j == at {
      SpliceReadsBack(block, at * 2, LE16(b));
      Read16Back(b);
    } else {
      SpliceKeeps(block, at * 2, LE16(b), 2 * j, 2 * j + 2);
    }
  }

  lemma GrowPointer(w: Store, n: nat, k: nat, b: nat)
    requires Growable(w, n, k, b) && k > DIRECT_BLOCKS
    ensures Grown(w, WithPointer(w, n, k, b), n, k, b)
  {
    var i, w' := w.inodes[n], WithPointer(w, n, k, b);
    var c := i.indirect;
    assert Holds(w, n, INDIRECT_SLOT) && Held(w, n, INDIRECT_SLOT) == c;
    forall j: nat | j <= k
      ensures Held(w', n, j) == if j == k then b else Held(w, n, j)
    {
      if j >= DIRECT_BLOCKS {
        PointerSplice(DataAt(w, c), k - DIRECT_BLOCKS, b, j - DIRECT_BLOCKS);
      }
    }
    forall j: nat | j < k
      ensures DataAt(w', Held(w, n, j)) == DataAt(w, Held(w, n, j))
    {
      assert Holds(w, n, j);
    }
    TwoBlocks(w, w', n, c, b);
    GrownFits(w, w', n, k, b);
    ChangeOne(w, w', n);
  }

  /// Changing only inode n, its indirect block and an unheld block frames the rest.
  lemma TwoBlocks(w: Store, w': Store, n: nat, c: nat, b: nat)
    requires Owns(w) && n < |w.inodes| == |w'.inodes| && w'.data.Keys == w.data.Keys
    requires forall m: nat | m < |w.inodes| && m != n :: w'.inodes[m] == w.inodes[m]
    requires forall x: nat | x != b && x != c :: DataAt(w', x) == DataAt(w, x)
    requires Unheld(w, b) && forall m: nat, j: nat | m != n && Holds(w, m, j) :: Held(w, m, j) != c
    ensures Frame(w, w', {n})
  {
    forall m: nat | Live(w, m) && m != n
      ensures Untouched(w, w', m)
    {
      assert w.inodes[m].indirect != 0 ==>
        Holds(w, m, INDIRECT_SLOT) && Held(w, m, INDIRECT_SLOT) == w.inodes[m].indirect;
      SameHeld(w, w', m);
      forall j: nat | Has(w.inodes[m], j)
        ensures DataAt(w', Held(w, m, j)) == DataAt(w, Held(w, m, j))
      {
        assert Holds(w, m, j);
      }
    }
  }

  ghost function WithIndirect(w: Store, n: nat, b: nat, c: nat): Store
    requires Growable(w, n, DIRECT_BLOCKS, b) && c in w.data && c < 0x1_0000
  {
    w.SetData(c, Splice(Zeros(BLOCK_SIZE), 0, LE16(b))).SetData(b, Zeros(BLOCK_SIZE))
     .SetInode(w.inodes[n].(indirect := c, blockCount := DIRECT_BLOCKS + 1))
  }

  lemma GrowIndirect(w: Store, n: nat, b: nat, c: nat)
    requires Growable(w, n, DIRECT_BLOCKS, b) && c in w.data && Unheld(w, c) && b != c
    ensures Grown(w, WithIndirect(w, n, b, c), n, DIRECT_BLOCKS, b)
    ensures WithIndirect(w, n, b, c).inodes[n].indirect == c
  {
    var w' := WithIndirect(w, n, b, c);
    PointerSplice(Zeros(BLOCK_SIZE), 0, b, 0);
    TwoBlocks(w, w', n, c, b);
    forall j: nat | j < DIRECT_BLOCKS
      ensures Held(w', n, j) == Held(w, n, j) && DataAt(w', Held(w, n, j)) == DataAt(w, Held(w, n, j))
    {
      assert Holds(w, n, j);
    }
    forall j: nat | Holds(w', n, j)
      ensures j == DIRECT_BLOCKS || j == INDIRECT_SLOT || (Holds(w, n, j) && Held(w', n, j) == Held(w, n, j))
    {
    }
    ChangeOne(w, w', n);
  }

  /// Growing adds a page of zeros behind the bytes the blocks already held.
  lemma GrownBytes(w: Store, w': Store, n: nat, k: nat, b: nat)
    requires Grown(w, w', n, k, b)
    ensures forall p: nat | p < PAGE_SIZE * (k + 1) ::
      ByteAt(w', w'.inodes[n], p) == if p < PAGE_SIZE * k then ByteAt(w, w.inodes[n], p) else 0
  {
    forall p: nat | p < PAGE_SIZE * (k + 1)
      ensures ByteAt(w', w'.inodes[n], p) == if p < PAGE_SIZE * k then ByteAt(w, w.inodes[n], p) else 0
    {
      var j := p / PAGE_SIZE;
      if p < PAGE_SIZE * k {
        assert Held(w', n, j) == Held(w, n, j);
      } else {
        assert Held(w', n, k) == b;
      }
    }
  }
}

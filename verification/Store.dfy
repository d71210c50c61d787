/// The block map of an inode and who holds which block (src/inode.rs:176-196 and the
/// pointers kept by src/fs.rs).

module Ownership {
  import opened Bytes
  import opened Device
  import opened Inodes
  import opened Volume

  const MAX_FILE_BLOCKS: nat := 20
  /// Slot number of the indirect block among the blocks an inode holds.
  const INDIRECT_SLOT: nat := 20

  function DataAt(s: Store, b: nat): Block {
    if b in s.data then s.data[b] else Zeros(BLOCK_SIZE)
  }

  function Pointer(block: Block, j: nat): u16
    requires 2 * j + 2 <= BLOCK_SIZE
  {
    Read16(block[2 * j..2 * j + 2])
  }

  /// The block number of the k-th block of an inode, 0 for none.
  function BlockNo(s: Store, i: Inode, k: nat): nat {
    if k < DIRECT_BLOCKS then i.direct[k]
    else if i.indirect != 0 && 2 * (k - DIRECT_BLOCKS) + 2 <= PAGE_SIZE then
      Pointer(DataAt(s, i.indirect), k - DIRECT_BLOCKS)
    else 0
  }

  predicate Live(s: Store, n: nat) {
    n < |s.inodes| && IsLive(s.inodes[n])
  }

  /// Slot k of the inode is in use.
  predicate Has(i: Inode, k: nat) {
    k < i.blockCount || (k == INDIRECT_SLOT && i.indirect != 0)
  }

  predicate Holds(s: Store, n: nat, k: nat) {
    Live(s, n) && Has(s.inodes[n], k)
  }

  function Held(s: Store, n: nat, k: nat): nat
    requires n < |s.inodes|
  {
    if k == INDIRECT_SLOT then s.inodes[n].indirect else BlockNo(s, s.inodes[n], k)
  }

  predicate Shape(i: Inode) {
    && i.blockCount <= MAX_FILE_BLOCKS
    && (i.indirect != 0 <==> i.blockCount > DIRECT_BLOCKS)
    && (IsDir(i) ==> 1 <= i.blockCount <= DIRECT_BLOCKS)
  }

  ghost predicate Formed(s: Store) {
    && (forall n: nat | n < |s.inodes| :: s.inodes[n].no == n)
    && (forall b: nat | b in s.data :: 0 < b < 0x1_0000)
  }

  /// The blocks held by the live inodes are data blocks and pairwise distinct.
  ghost predicate Owns(s: Store) {
    && Formed(s)
    && (forall n: nat | Live(s, n) :: Shape(s.inodes[n]))
    && (forall n: nat, k: nat | Holds(s, n, k) :: Held(s, n, k) in s.data)
    && (forall n: nat, k: nat, m: nat, j: nat | Holds(s, n, k) && Holds(s, m, j) && Held(s, n, k) == Held(s, m, j) ::
      n == m && k == j)
  }

  ghost predicate HeldIn(s: Store, alloc: set<nat>) {
    forall n: nat, k: nat | Holds(s, n, k) :: Held(s, n, k) in alloc
  }

  ghost predicate Unheld(s: Store, b: nat) {
    forall n: nat, k: nat | Holds(s, n, k) :: Held(s, n, k) != b
  }

  lemma FreshIsUnheld(s: Store, alloc: set<nat>, b: nat)
    requires HeldIn(s, alloc) && b !in alloc
    ensures Unheld(s, b)
  {
  }

  // ---------- frames ----------

  /// Live inode n keeps its record, its blocks and what is in them.
  ghost predicate Untouched(s: Store, s': Store, n: nat)
    requires n < |s.inodes| == |s'.inodes|
  {
    && s'.inodes[n] == s.inodes[n]
    && forall k: nat | Has(s.inodes[n], k) ::
        && Held(s', n, k) == Held(s, n, k)
        && (k != INDIRECT_SLOT ==> DataAt(s', Held(s, n, k)) == DataAt(s, Held(s, n, k)))
  }

  /// Nothing but the inodes in X is touched.
  ghost predicate Frame(s: Store, s': Store, X: set<nat>) {
    && |s'.inodes| == |s.inodes|
    && s'.data.Keys == s.data.Keys
    && (forall n: nat | n < |s.inodes| && n !in X :: s'.inodes[n] == s.inodes[n])
    && (forall n: nat | Live(s, n) && n !in X :: Untouched(s, s', n))
  }

  lemma FrameTrans(a: Store, b: Store, c: Store, X: set<nat>, Y: set<nat>, Z: set<nat>)
    requires Frame(a, b, X) && Frame(b, c, Y) && X <= Z && Y <= Z
    ensures Frame(a, c, Z)
  {
    forall n: nat | Live(a, n) && n !in Z
      ensures Untouched(a, c, n)
    {
      assert Untouched(a, b, n) && Untouched(b, c, n);
    }
  }

  /// Writing a block that nobody holds touches no inode.
  lemma WriteUnheld(s: Store, b: nat, block: Block)
    requires b in s.data && Unheld(s, b) && Owns(s)
    ensures Frame(s, s.SetData(b, block), {})
  {
    var s' := s.SetData(b, block);
    forall n: nat | Live(s, n)
      ensures Untouched(s, s', n)
    {
      assert s.inodes[n].indirect != 0 ==> Holds(s, n, INDIRECT_SLOT);
      SameHeld(s, s', n);
    }
  }

  lemma SameHeld(s: Store, s': Store, n: nat)
    requires n < |s.inodes| == |s'.inodes|
    requires s'.inodes[n].direct == s.inodes[n].direct && s'.inodes[n].indirect == s.inodes[n].indirect
    requires s.inodes[n].indirect != 0 ==>
      DataAt(s', s.inodes[n].indirect) == DataAt(s, s.inodes[n].indirect)
    ensures forall k: nat :: Held(s', n, k) == Held(s, n, k)
  {
  }

  /// Writing a payload block of inode n touches only n, and n keeps its block map.
  lemma WriteOwn(s: Store, n: nat, k: nat, block: Block)
    requires Owns(s) && Holds(s, n, k) && k != INDIRECT_SLOT
    ensures Held(s, n, k) in s.data
    ensures var s' := s.SetData(Held(s, n, k), block);
      && Frame(s, s', {n}) && Owns(s')
      && (forall j: nat :: Held(s', n, j) == Held(s, n, j))
  {
    var b := Held(s, n, k);
    var s' := s.SetData(b, block);
    forall m: nat | Live(s, m) && m != n
      ensures Untouched(s, s', m)
    {
      assert s.inodes[m].indirect != 0 ==> Holds(s, m, INDIRECT_SLOT);
      forall j: nat | Has(s.inodes[m], j) ensures Held(s, m, j) != b {
        assert Holds(s, m, j);
      }
      SameHeld(s, s', m);
    }
    assert s.inodes[n].indirect != 0 ==> Holds(s, n, INDIRECT_SLOT);
    SameHeld(s, s', n);
    SameMapOwns(s, s');
  }

  /// Ownership depends only on the records and the block maps.
  lemma SameMapOwns(s: Store, s': Store)
    requires Owns(s) && s'.inodes == s.inodes && s'.data.Keys == s.data.Keys
    requires forall n: nat, k: nat | Holds(s, n, k) :: Held(s', n, k) == Held(s, n, k)
    ensures Owns(s')
    ensures forall alloc | HeldIn(s, alloc) :: HeldIn(s', alloc)
  {
    assert forall n: nat, k: nat :: Holds(s', n, k) <==> Holds(s, n, k);
  }

  lemma FrameOwns(s: Store, s': Store)
    requires Owns(s) && Frame(s, s', {})
    ensures Owns(s')
    ensures forall alloc | HeldIn(s, alloc) :: HeldIn(s', alloc)
  {
    assert s'.inodes == s.inodes;
    forall n: nat, k: nat | Holds(s, n, k)
      ensures Held(s', n, k) == Held(s, n, k)
    {
      assert Untouched(s, s', n);
    }
    SameMapOwns(s, s');
  }

  /// What inode n must satisfy for ownership to survive a change of that inode alone.
  ghost predicate FitsIn(s: Store, s': Store, n: nat)
    requires n < |s.inodes| == |s'.inodes|
  {
    && s'.inodes[n].no == n
    && (Live(s', n) ==> Shape(s'.inodes[n]))
    && (forall k: nat | Holds(s', n, k) :: Held(s', n, k) in s.data)
    && (forall k: nat, j: nat | Holds(s', n, k) && Holds(s', n, j) && Held(s', n, k) == Held(s', n, j) :: k == j)
    && (forall k: nat, m: nat, j: nat | Holds(s', n, k) && m != n && Holds(s, m, j) :: Held(s', n, k) != Held(s, m, j))
  }

  lemma ChangeOne(s: Store, s': Store, n: nat)
    requires Owns(s) && n < |s.inodes| && Frame(s, s', {n}) && FitsIn(s, s', n)
    ensures Owns(s')
  {
    forall m: nat, k: nat | m != n && Holds(s', m, k)
      ensures Holds(s, m, k) && Held(s', m, k) == Held(s, m, k)
    {
      assert Untouched(s, s', m);
    }
  }

  lemma HeldInAfter(s: Store, s': Store, n: nat, alloc: set<nat>, alloc': set<nat>)
    requires n < |s.inodes| && Frame(s, s', {n}) && HeldIn(s, alloc) && alloc <= alloc'
    requires forall k: nat | Holds(s', n, k) :: Held(s', n, k) in alloc'
    ensures HeldIn(s', alloc')
  {
    forall m: nat, k: nat | m != n && Holds(s', m, k)
      ensures Holds(s, m, k) && Held(s', m, k) == Held(s, m, k)
    {
      assert Untouched(s, s', m);
    }
  }

  /// Replacing a record by one with the same block map keeps ownership.
  lemma SetSameMap(s: Store, i: Inode)
    requires Owns(s) && Live(s, i.no) && IsLive(i) && Shape(i)
    requires i.direct == s.inodes[i.no].direct && i.indirect == s.inodes[i.no].indirect
    requires i.blockCount == s.inodes[i.no].blockCount
    ensures var s' := s.SetInode(i);
      && Frame(s, s', {i.no}) && Owns(s')
      && (forall alloc | HeldIn(s, alloc) :: HeldIn(s', alloc))
      && (forall k: nat :: Held(s', i.no, k) == Held(s, i.no, k))
  {
    var s' := s.SetInode(i);
    SetInodeFrame(s, i);
    SameHeld(s, s', i.no);
    forall n: nat, k: nat
      ensures Holds(s', n, k) <==> Holds(s, n, k)
      ensures Holds(s, n, k) ==> Held(s', n, k) == Held(s, n, k)
    {
    }
  }

  lemma SetInodeFrame(s: Store, i: Inode)
    requires i.no < |s.inodes|
    ensures Frame(s, s.SetInode(i), {i.no})
  {
  }

  // ---------- the sets of held blocks ----------

  ghost function HeldSet(s: Store, n: nat): set<nat>
    requires n < |s.inodes|
  {
    set k: nat | k <= INDIRECT_SLOT && Holds(s, n, k) :: Held(s, n, k)
  }

  ghost function AllHeld(s: Store): set<nat> {
    set n: nat, k: nat | n < |s.inodes| && k <= INDIRECT_SLOT && Holds(s, n, k) :: Held(s, n, k)
  }
}

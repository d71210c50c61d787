/// The inode record, its 84-byte encoding and its place in the inode table (src/inode.rs).

module Inodes {
  import opened Bytes
  import opened Device

  const DIRECT_BLOCKS: nat := 10
  const INODE_SIZE: nat := 84
  const INODES_PER_BLOCK: nat := 6 // BLOCK_SIZE / INODE_SIZE
  const S_IFDIR: u16 := 0x4000

  type Ptrs = p: seq<u32> | |p| == 10 witness seq(10, _ => 0)

  datatype Inode = Inode(
    no: u32,
    mode: u16,
    uid: u16,
    gid: u16,
    size: u32,
    nlink: u16,
    blockCount: u16,
    mtime: i64,
    atime: i64,
    ctime: i64,
    direct: Ptrs,
    indirect: u32)

  /// `mode & S_IFDIR != 0`
  predicate IsDir(i: Inode) {
    And(i.mode, S_IFDIR) != 0
  }

  predicate IsLive(i: Inode) {
    i.nlink != 0
  }

  /// The directory test reads bit 14 of the mode.
  lemma DirBit(i: Inode)
    ensures IsDir(i) <==> i.mode / 0x4000 % 2 == 1
  {
    hide And;
    Bit14(i.mode);
    AndMask(i.mode, 14);
  }

  // S_IFREG | 0o644
  function NewFile(no: u32, now: i64): Inode {
    Inode(no, 0x81A4, 1000, 1000, 0, 1, 0, now, now, now, seq(10, _ => 0), 0)
  }

  // S_IFDIR | 0o755
  function NewDir(no: u32, now: i64): Inode {
    Inode(no, 0x41ED, 1000, 1000, 0, 2, 0, now, now, now, seq(10, _ => 0), 0)
  }

  lemma NewKinds(no: u32, now: i64)
    ensures !IsDir(NewFile(no, now)) && IsDir(NewDir(no, now))
  {
    hide And;
    DirBit(NewFile(no, now));
    DirBit(NewDir(no, now));
  }

  // ---------- codec ----------

  function DirectBytes(p: seq<u32>): (s: seq<byte>)
    ensures |s| == 4 * |p|
  {
    if p == [] then [] else LE32(p[0]) + DirectBytes(p[1..])
  }

  function ReadDirect(data: seq<byte>, n: nat): (p: seq<u32>)
    requires |data| == 4 * n
    ensures |p| == n
  {
    seq(n, k requires 0 <= k < n => Read32(data[4 * k..4 * k + 4]))
  }

  lemma {:induction false} DirectAt(p: seq<u32>, k: nat)
    requires k < |p|
    ensures DirectBytes(p)[4 * k..4 * k + 4] == LE32(p[k])
  {
    var s := DirectBytes(p);
    if k == 0 {
      assert s[0..4] == LE32(p[0]);
    } else {
      DirectAt(p[1..], k - 1);
      assert s[4 * k..4 * k + 4] == DirectBytes(p[1..])[4 * (k - 1)..4 * (k - 1) + 4];
    }
  }

  lemma ReadDirectAt(p: seq<u32>, k: nat)
    requires k < |p|
    ensures Read32(DirectBytes(p)[4 * k..4 * k + 4]) == p[k]
  {
    DirectAt(p, k);
    Read32Back(p[k]);
  }

  lemma ReadDirectBack(p: seq<u32>)
    ensures ReadDirect(DirectBytes(p), |p|) == p
  {
    var q := ReadDirect(DirectBytes(p), |p|);
    forall k | 0 <= k < |p|
      ensures q[k] == p[k]
    {
      ReadDirectAt(p, k);
    }
  }

  function Decode(no: u32, data: seq<byte>): Inode
    requires |data| == INODE_SIZE
  {
    Inode(no, Read16(data[0..2]), Read16(data[2..4]), Read16(data[4..6]), Read32(data[6..10]),
          Read16(data[10..12]), Read16(data[12..14]), Read64(data[14..22]), Read64(data[22..30]),
          Read64(data[30..38]), ReadDirect(data[38..78], 10), Read32(data[78..82]))
  }

  function EncodeHead(i: Inode): (s: seq<byte>)
    ensures |s| == 38
  {
    LE16(i.mode) + LE16(i.uid) + LE16(i.gid) + LE32(i.size) + LE16(i.nlink) + LE16(i.blockCount)
    + LE64(i.mtime) + LE64(i.atime) + LE64(i.ctime)
  }

  function Encode(i: Inode): (s: seq<byte>)
    ensures |s| == INODE_SIZE
  {
    EncodeHead(i) + DirectBytes(i.direct) + LE32(i.indirect) + [0, 0]
  }

  lemma EncodedHeadFields(i: Inode)
    ensures var s := EncodeHead(i);
      && s[0..2] == LE16(i.mode) && s[2..4] == LE16(i.uid) && s[4..6] == LE16(i.gid)
      && s[6..10] == LE32(i.size) && s[10..12] == LE16(i.nlink) && s[12..14] == LE16(i.blockCount)
      && s[14..22] == LE64(i.mtime) && s[22..30] == LE64(i.atime) && s[30..38] == LE64(i.ctime)
  {
  }

  lemma EncodedFields(i: Inode)
    ensures var s := Encode(i);
      && s[0..2] == LE16(i.mode) && s[2..4] == LE16(i.uid) && s[4..6] == LE16(i.gid)
      && s[6..10] == LE32(i.size) && s[10..12] == LE16(i.nlink) && s[12..14] == LE16(i.blockCount)
      && s[14..22] == LE64(i.mtime) && s[22..30] == LE64(i.atime) && s[30..38] == LE64(i.ctime)
      && s[38..78] == DirectBytes(i.direct) && s[78..82] == LE32(i.indirect)
  {
    EncodedHeadFields(i);
    var h, s := EncodeHead(i), Encode(i);
    assert s[0..2] == h[0..2] && s[2..4] == h[2..4] && s[4..6] == h[4..6] && s[6..10] == h[6..10];
    assert s[10..12] == h[10..12] && s[12..14] == h[12..14] && s[14..22] == h[14..22];
    assert s[22..30] == h[22..30] && s[30..38] == h[30..38];
  }

  /// `from_bytes(to_bytes(i)) == i` over the full range of every field.
  lemma DecodeEncode(i: Inode)
    ensures Decode(i.no, Encode(i)) == i
  {
    EncodedFields(i);
    Read16Back(i.mode);
    Read16Back(i.uid);
    Read16Back(i.gid);
    Read32Back(i.size);
    Read16Back(i.nlink);
    Read16Back(i.blockCount);
    Read64Back(i.mtime);
    Read64Back(i.atime);
    Read64Back(i.ctime);
    ReadDirectBack(i.direct);
    Read32Back(i.indirect);
  }

  /// A zeroed record is a free inode.
  lemma ZeroInodeIsFree(no: u32)
    ensures !IsLive(Decode(no, Zeros(INODE_SIZE)))
  {
    assert Zeros(INODE_SIZE)[10..12] == Zeros(2);
    ZerosFromLE(2);
  }

  /// And a record with a mode is not a zeroed one.
  lemma EncodedIsNotZero(i: Inode)
    requires i.mode != 0
    ensures Encode(i) != Zeros(INODE_SIZE)
  {
    EncodedFields(i);
    Read16Back(i.mode);
    ZerosFromLE(2);
    assert Zeros(INODE_SIZE)[0..2] == Zeros(2);
  }

  /// `to_bytes` fills a zeroed buffer from the front, field after field.
  method Put(buf: array<byte>, ghost filled: seq<byte>, off: nat, data: seq<byte>)
    requires off == |filled| && off + |data| <= buf.Length
    requires buf[..] == filled + Zeros(buf.Length - off)
    modifies buf
    ensures buf[..] == (filled + data) + Zeros(buf.Length - off - |data|)
  {
    SpliceFillsZeros(filled, data, buf.Length - off);
    CopyInto(buf, off, data);
  }

  method ToBytes(i: Inode) returns (buf: array<byte>)
    ensures fresh(buf) && buf[..] == Encode(i)
  {
    buf := new byte[INODE_SIZE](_ => 0);
    assert buf[..] == [] + Zeros(84);
    PutHead(buf, i);
    ghost var filled := EncodeHead(i);
    for k := 0 to DIRECT_BLOCKS
      invariant filled == EncodeHead(i) + DirectBytes(i.direct[..k])
      invariant buf[..] == filled + Zeros(46 - 4 * k)
    {
      Put(buf, filled, 38 + 4 * k, LE32(i.direct[k]));
      DirectBytesSnoc(i.direct, k);
      filled := filled + LE32(i.direct[k]);
    }
    assert i.direct[..10] == i.direct;
    Put(buf, filled, 78, LE32(i.indirect));
    assert Zeros(2) == [0, 0];
  }

  method PutHead(buf: array<byte>, i: Inode)
    requires buf.Length == INODE_SIZE && buf[..] == [] + Zeros(84)
    modifies buf
    ensures buf[..] == EncodeHead(i) + Zeros(46)
  {
    ghost var f := [];
    Put(buf, f, 0, LE16(i.mode));
    f := f + LE16(i.mode);
    Put(buf, f, 2, LE16(i.uid));
    f := f + LE16(i.uid);
    Put(buf, f, 4, LE16(i.gid));
    f := f + LE16(i.gid);
    Put(buf, f, 6, LE32(i.size));
    f := f + LE32(i.size);
    Put(buf, f, 10, LE16(i.nlink));
    f := f + LE16(i.nlink);
    Put(buf, f, 12, LE16(i.blockCount));
    f := f + LE16(i.blockCount);
    Put(buf, f, 14, LE64(i.mtime));
    f := f + LE64(i.mtime);
    Put(buf, f, 22, LE64(i.atime));
    f := f + LE64(i.atime);
    Put(buf, f, 30, LE64(i.ctime));
    f := f + LE64(i.ctime);
    assert f == EncodeHead(i);
  }

  lemma {:induction false} DirectBytesSnoc(p: seq<u32>, k: nat)
    requires k < |p|
    ensures DirectBytes(p[..k + 1]) == DirectBytes(p[..k]) + LE32(p[k])
  {
    if k > 0 {
      DirectBytesSnoc(p[1..], k - 1);
      assert p[..k + 1][1..] == p[1..][..k] && p[..k][1..] == p[1..][..k - 1];
    }
  }

  // ---------- place in the table ----------

  function TableBlock(no: nat): nat {
    no / INODES_PER_BLOCK
  }

  function TableOffset(no: nat): nat {
    no % INODES_PER_BLOCK * INODE_SIZE
  }

  /// Two different inode numbers share no byte of the table.
  lemma SlotsDisjoint(a: nat, b: nat)
    requires a != b && TableBlock(a) == TableBlock(b)
    ensures TableOffset(a) + INODE_SIZE <= TableOffset(b) || TableOffset(b) + INODE_SIZE <= TableOffset(a)
    ensures TableOffset(a) + INODE_SIZE <= BLOCK_SIZE
  {
  }

  /// The slot of inode number `no` lies in the inode table exactly when the number is
  /// below six per table block.
  lemma SlotInTable(g: Geometry, no: nat)
    ensures g.TableStart() + TableBlock(no) < g.DataStart() <==> no < INODES_PER_BLOCK * g.tableBlocks
  {
  }

  /// Inode numbers that mkdir and create hand out (src/fs.rs:334-341, 278-285).
  predicate Handed(no: nat) {
    500 <= no <= 900 || 1000 <= no <= 2000
  }

  /// The shipped table has 25 blocks, while directories are numbered from 500 and files
  /// from 1000: every such slot is a block of the data area.
  lemma ShippedSlotsAreDataBlocks(no: nat)
    requires Handed(no)
    ensures SHIPPED.DataStart() == 31
    ensures 89 <= SHIPPED.TableStart() + TableBlock(no) < SHIPPED.maxBlocks
    ensures SHIPPED.TableStart() + TableBlock(500) == 89
  {
  }
}

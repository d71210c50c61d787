/// The format on the disk in numbers: which byte of which block holds what
/// (src/superblock.rs, src/bitmap.rs, src/inode.rs, src/directory.rs, simplefs.c).

module Layout {
  import opened Bytes
  import opened Device
  import opened Superblock
  import opened Inodes
  import opened Volume
  import opened Ownership
  import opened FileData
  import opened DirEntries
  import opened DirView
  import FreeList

  // ---------- numbers ----------

  lemma LittleEndian16(n: u16)
    ensures LE16(n) == [n % 0x100, n / 0x100]
  {
    var s := ToLE(n, 2);
    assert s == [n % 0x100] + ToLE(n / 0x100, 1);
    assert ToLE(n / 0x100, 1) == [n / 0x100 % 0x100] + ToLE(n / 0x100 / 0x100, 0);
  }

  lemma LittleEndian32(n: u32)
    ensures LE32(n) == [n % 0x100, n / 0x100 % 0x100, n / 0x1_0000 % 0x100, n / 0x100_0000]
  {
    var a, b, c := n / 0x100, n / 0x1_0000, n / 0x100_0000;
    assert a / 0x100 == b && b / 0x100 == c;
    assert ToLE(n, 4) == [n % 0x100] + ToLE(a, 3) && ToLE(a, 3) == [a % 0x100] + ToLE(b, 2);
    assert ToLE(b, 2) == [b % 0x100] + ToLE(c, 1) && ToLE(c, 1) == [c % 0x100] + ToLE(c / 0x100, 0);
  }

  /// Negative numbers in two's complement.
  lemma LittleEndian64(n: i64)
    ensures var m := if n < 0 then n + 0x1_0000_0000_0000_0000 else n;
      LE64(n) == LE32(m % 0x1_0000_0000) + LE32(m / 0x1_0000_0000)
  {
    var m := if n < 0 then n + 0x1_0000_0000_0000_0000 else n;
    Halved(m);
  }

  /// The lower four digits and the upper four.
  lemma Halved(n: nat)
    requires n < 0x1_0000_0000_0000_0000
    ensures ToLE(n, 8) == LE32(n % 0x1_0000_0000) + LE32(n / 0x1_0000_0000)
  {
    hide ToLE;
    var lo, hi := n % 0x1_0000_0000, n / 0x1_0000_0000;
    var l1 := lo / 0x100;
    var l2 := l1 / 0x100;
    Digits(lo % 0x100, l1 % 0x100, l2 % 0x100, l2 / 0x100, hi);
  }

  lemma Digits(a: byte, b: byte, c: byte, d: byte, hi: nat)
    ensures var lo := a + 0x100 * b + 0x1_0000 * c + 0x100_0000 * d;
      ToLE(lo + 0x1_0000_0000 * hi, 8) == ToLE(lo, 4) + ToLE(hi, 4)
  {
    hide ToLE;
    Digit(a, b + 0x100 * c + 0x1_0000 * d + 0x100_0000 * hi, 8);
    Digit(b, c + 0x100 * d + 0x1_0000 * hi, 7);
    Digit(c, d + 0x100 * hi, 6);
    Digit(d, hi, 5);
    Digit(a, b + 0x100 * c + 0x1_0000 * d, 4);
    Digit(b, c + 0x100 * d, 3);
    Digit(c, d, 2);
    Digit(d, 0, 1);
  }

  lemma Digit(d: byte, m: nat, w: nat)
    requires w > 0
    ensures ToLE(d + 0x100 * m, w) == [d] + ToLE(m, w - 1)
  {
    var n: int := d;
    assert (n + 0x100 * m) % 0x100 == n && (n + 0x100 * m) / 0x100 == m;
  }

  /// The number that two bytes stand for, and four.
  function Two(lo: byte, hi: byte): u16 {
    var n: int := lo;
    var m: int := hi;
    n + 0x100 * m
  }

  function Four(a: byte, b: byte, c: byte, d: byte): u32 {
    var lo: int := Two(a, b);
    var hi: int := Two(c, d);
    lo + 0x1_0000 * hi
  }

  lemma ReadsLittleEndian(s: seq<byte>)
    ensures |s| == 2 ==> Read16(s) == Two(s[0], s[1])
    ensures |s| == 4 ==> Read32(s) == Four(s[0], s[1], s[2], s[3])
  {
    if |s| == 2 {
      FromTwo(s);
    } else if |s| == 4 {
      FromTwo(s[2..]);
      assert s[1..][1..] == s[2..];
      assert FromLE(s) == s[0] + 0x100 * FromLE(s[1..]) && FromLE(s[1..]) == s[1] + 0x100 * FromLE(s[2..]);
    }
  }

  lemma FromTwo(s: seq<byte>)
    requires |s| == 2
    ensures FromLE(s) == Two(s[0], s[1])
  {
    assert s[1..][1..] == [] && FromLE(s[1..]) == s[1] + 0x100 * FromLE([]);
  }

  // ---------- superblock and layout ----------

  lemma SuperblockLayout(sb: SuperBlock)
    ensures var b := Superblock.Image(sb);
      && b[0..16] == sb.magic && b[16..20] == LE32(sb.totalBlocks) && b[20..24] == LE32(sb.freeBlocks)
      && b[24..28] == LE32(sb.bitmapBlocks) && b[28..32] == LE32(sb.inodeTableStart)
      && b[32..36] == LE32(sb.inodeTableBlocks) && b[36..40] == LE32(sb.dataStart)
      && b[40..44] == LE32(sb.rootInode) && b[44..512] == Zeros(468)
  {
    hide LE32;
    var s, b := Superblock.Encode(sb), Superblock.Image(sb);
    Superblock.EncodedFields(sb);
    assert b[..44] == s;
    assert b[0..16] == s[0..16] && b[16..20] == s[16..20] && b[20..24] == s[20..24] && b[24..28] == s[24..28];
    assert b[28..32] == s[28..32] && b[32..36] == s[32..36] && b[36..40] == s[36..40] && b[40..44] == s[40..44];
  }

  /// A superblock is valid exactly if its first thirteen bytes spell the name.
  lemma MagicSpelled(sb: SuperBlock)
    ensures IsValid(sb) <==> forall k: nat | k < 13 :: sb.magic[k] == "SIMPLEFS-RUST"[k] as int
    ensures MAGIC[13..] == [0, 0, 0]
  {
    assert forall k: nat | k < 13 :: MAGIC[..13][k] == "SIMPLEFS-RUST"[k] as int;
    if forall k: nat | k < 13 :: sb.magic[k] == "SIMPLEFS-RUST"[k] as int {
      assert sb.magic[..13] == MAGIC[..13];
    } else {
      var k: nat :| k < 13 && sb.magic[k] != "SIMPLEFS-RUST"[k] as int;
      assert sb.magic[..13][k] != MAGIC[..13][k];
    }
  }

  /// One bitmap block for 4096 blocks, then the table, then the data.
  lemma RegionLayout(g: Geometry)
    ensures g.TableStart() == 1 + (g.maxBlocks + 4095) / 4096
    ensures g.DataStart() == 1 + (g.maxBlocks + 4095) / 4096 + g.tableBlocks
    ensures SHIPPED.maxBlocks == 20480 && SHIPPED.TableStart() == 6 && SHIPPED.DataStart() == 31
  {
  }

  // ---------- bitmap ----------

  lemma {:induction false} BitIs(n: nat, k: nat)
    ensures Pow2(k) > 0 && (Bit(n, k) <==> n / Pow2(k) % 2 == 1)
  {
    if k == 0 {
      assert n / 1 == n;
    } else {
      BitIs(n / 2, k - 1);
      Halves(n, Pow2(k - 1));
    }
  }

  lemma DivIs(n: nat, d: nat, q: nat, r: nat)
    requires d > 0 && n == d * q + r && r < d
    ensures n / d == q && n % d == r
  {
    var x: int := n / d - q;
    assert d * (n / d) - d * q == d * x;
    assert d * x < d && 0 < d * x + d;
    assert x >= 1 ==> d * x >= d;
    assert x <= -1 ==> d * x + d <= 0;
  }

  lemma Halves(n: nat, p: nat)
    requires p > 0
    ensures n / (2 * p) == n / 2 / p
  {
    var a, b := n / 2, n % 2;
    var q, r := a / p, a % p;
    assert n == 2 * a + b && a == p * q + r;
    assert n == (2 * p) * q + (2 * r + b) by {
      assert 2 * (p * q) == (2 * p) * q;
    }
    DivIs(n, 2 * p, q, 2 * r + b);
  }

  lemma PowersOfTwo()
    ensures Pow2(0) == 1 && Pow2(1) == 2 && Pow2(2) == 4 && Pow2(3) == 8
    ensures Pow2(4) == 16 && Pow2(5) == 32 && Pow2(6) == 64 && Pow2(7) == 128
  {
    assert Pow2(3) == 8;
    assert Pow2(6) == 64;
  }

  /// Block k is in use exactly if its bit is set: bit k % 8, the lowest first, of byte
  /// k / 8 % 512 of block 1 + k / 4096.
  lemma BitmapLayout(d: seq<Block>, g: Geometry, k: nat)
    requires Sized(d, g) && k < g.maxBlocks
    ensures 1 + k / 4096 < |d| && Pow2(k % 8) > 0
    ensures k in AllocSet(d, g) <==> d[1 + k / 4096][k / 8 % 512] / Pow2(k % 8) % 2 == 1
  {
    BitmapFits(g, k);
    assert k / 8 / 512 == k / 4096;
    BitIs(d[1 + k / 4096][k / 8 % 512], k % 8);
  }

  // ---------- inodes and blocks ----------

  /// Inode `no` is 84 bytes in the table, six to a block.
  lemma TableLayout(d: seq<Block>, g: Geometry, no: nat)
    requires Sized(d, g) && no < 6 * g.tableBlocks
    ensures g.TableStart() + no / 6 < |d|
    ensures InodeAt(d, g, no) == Inodes.Decode(no, d[g.TableStart() + no / 6][no % 6 * 84..no % 6 * 84 + 84])
  {
    SlotInTable(g, no);
  }

  lemma InodeLayout(i: Inode)
    ensures var s := Inodes.Encode(i);
      && s[0..2] == LE16(i.mode) && s[2..4] == LE16(i.uid) && s[4..6] == LE16(i.gid)
      && s[6..10] == LE32(i.size) && s[10..12] == LE16(i.nlink) && s[12..14] == LE16(i.blockCount)
      && s[14..22] == LE64(i.mtime) && s[22..30] == LE64(i.atime) && s[30..38] == LE64(i.ctime)
      && (forall k: nat | k < 10 :: s[38 + 4 * k..42 + 4 * k] == LE32(i.direct[k]))
      && s[78..82] == LE32(i.indirect) && s[82..84] == [0, 0]
  {
    hide LE16, LE32, LE64, DirectBytes;
    Inodes.EncodedFields(i);
    var s := Inodes.Encode(i);
    forall k: nat | k < 10
      ensures s[38 + 4 * k..42 + 4 * k] == LE32(i.direct[k])
    {
      DirectAt(i.direct, k);
      assert s[38 + 4 * k..42 + 4 * k] == s[38..78][4 * k..4 * k + 4];
    }
  }

  /// Ten pointers in the record, the others in pairs of bytes in the indirect block, 0 for
  /// none; 510 bytes of a file to a block.
  lemma BlockMapLayout(s: Store, i: Inode, k: nat, p: nat)
    ensures k < 10 ==> BlockNo(s, i, k) == i.direct[k]
    ensures 10 <= k < 265 && i.indirect != 0 ==> var b := DataAt(s, i.indirect);
      BlockNo(s, i, k) == Two(b[2 * (k - 10)], b[2 * (k - 10) + 1])
    ensures k >= 265 || (k >= 10 && i.indirect == 0) ==> BlockNo(s, i, k) == 0
    ensures ByteAt(s, i, p) == DataAt(s, BlockNo(s, i, p / 510))[p % 510]
  {
    if 10 <= k < 265 && i.indirect != 0 {
      var b := DataAt(s, i.indirect);
      ReadsLittleEndian(b[2 * (k - 10)..2 * (k - 10) + 2]);
    }
  }

  // ---------- directories ----------

  lemma EntryLayout(e: DirEntry)
    ensures var s := DirEntries.Encode(e);
      && |s| == 34 && s[0..4] == LE32(e.inode) && s[4] == e.entryType && s[5] == e.nameLen && s[6..34] == e.name
  {
    hide LE32;
  }

  /// Slot q of a directory: 34 bytes, fifteen to a block.
  lemma SlotLayout(s: Store, i: Inode, q: nat)
    ensures SlotAt(s, i, q) ==
      DirEntries.Decode(DataAt(s, BlockNo(s, i, q / 15))[34 * (q % 15)..34 * (q % 15) + 34])
  {
    hide DirEntries.Decode, BlockNo, DataAt;
  }

  /// A new entry: type 2 for a directory and 1 for a file, the name cut off after 28 bytes
  /// and zeros behind it.
  lemma EntryFields(inode: u32, name: Name, isDir: bool)
    ensures var e, len := NewEntry(inode, name, isDir), if |name| <= 28 then |name| else 28;
      && e.inode == inode && e.entryType == (if isDir then 2 else 1) && e.nameLen == len
      && e.name[..len] == name[..len] && forall k: nat | len <= k < 28 :: e.name[k] == 0
  {
  }

  // ---------- the C version ----------

  lemma ChainedLayout(sb: FreeList.CSuper)
    ensures var b := FreeList.Image(sb);
      && b[0..2] == LE16(sb.firstFree) && b[2..4] == LE16(sb.rootDir) && b[4..8] == LE32(sb.totalBlocks)
      && b[8..12] == LE32(sb.freeBlocks) && b[12..28] == sb.magic && b[28..512] == Zeros(484)
    ensures forall k: nat | k < 8 :: FreeList.C_MAGIC[k] == "SIMPLEFS"[k] as int
    ensures FreeList.C_MAGIC[8..] == Zeros(8)
  {
    hide LE16, LE32;
  }

  /// The trailer of a block is its last two bytes.
  lemma TrailerLayout(block: Block)
    ensures FreeList.Next(block) == Two(block[510], block[511])
  {
    ReadsLittleEndian(block[510..512]);
  }
}

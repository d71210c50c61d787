/// Machine words, the bitwise operators, byte strings and the little-endian codec.

module Bytes {
  const BLOCK_SIZE: nat := 512
  /// Payload of a block: the last two bytes are kept for a block number.
  const PAGE_SIZE: nat := 510

  type byte = x: int | 0 <= x < 0x100
  type u16 = x: int | 0 <= x < 0x1_0000
  type u32 = x: int | 0 <= x < 0x1_0000_0000
  type i64 = x: int | -0x8000_0000_0000_0000 <= x < 0x8000_0000_0000_0000

  type Block = b: seq<byte> | |b| == 512 witness seq(512, _ => 0)

  function Zeros(n: nat): (z: seq<byte>)
    ensures |z| == n && forall i | 0 <= i < n :: z[i] == 0
  {
    seq(n, _ => 0)
  }

  function Min(a: int, b: int): int {
    if a <= b then a else b
  }

  // ---------- bitwise operators ----------

  function Pow2(k: nat): nat {
    if k == 0 then 1 else 2 * Pow2(k - 1)
  }

  /// Bit k of n, the least significant one first.
  predicate Bit(n: nat, k: nat) {
    if k == 0 then n % 2 == 1 else Bit(n / 2, k - 1)
  }

  function And(a: nat, b: nat): nat
    decreases a
  {
    if a == 0 then 0 else (if a % 2 == 1 && b % 2 == 1 then 1 else 0) + 2 * And(a / 2, b / 2)
  }

  function Or(a: nat, b: nat): nat
    decreases a
  {
    if a == 0 then b else (if a % 2 == 1 || b % 2 == 1 then 1 else 0) + 2 * Or(a / 2, b / 2)
  }

  /// a & !b
  function AndNot(a: nat, b: nat): nat
    decreases a
  {
    if a == 0 then 0 else (if a % 2 == 1 && b % 2 == 0 then 1 else 0) + 2 * AndNot(a / 2, b / 2)
  }

  lemma {:induction false} ZeroHasNoBits(k: nat)
    ensures !Bit(0, k)
  {
    if k > 0 {
      ZeroHasNoBits(k - 1);
    }
  }

  lemma {:induction false} AndBits(a: nat, b: nat, k: nat)
    ensures Bit(And(a, b), k) <==> Bit(a, k) && Bit(b, k)
    decreases k
  {
    if a == 0 {
      ZeroHasNoBits(k);
    } else if k > 0 {
      AndBits(a / 2, b / 2, k - 1);
      assert And(a, b) / 2 == And(a / 2, b / 2);
    }
  }

  lemma {:induction false} OrBits(a: nat, b: nat, k: nat)
    ensures Bit(Or(a, b), k) <==> Bit(a, k) || Bit(b, k)
    decreases k
  {
    if a == 0 {
      ZeroHasNoBits(k);
    } else if k > 0 {
      OrBits(a / 2, b / 2, k - 1);
      assert Or(a, b) / 2 == Or(a / 2, b / 2);
    }
  }

  lemma {:induction false} AndNotBits(a: nat, b: nat, k: nat)
    ensures Bit(AndNot(a, b), k) <==> Bit(a, k) && !Bit(b, k)
    decreases k
  {
    if a == 0 {
      ZeroHasNoBits(k);
    } else if k > 0 {
      AndNotBits(a / 2, b / 2, k - 1);
      assert AndNot(a, b) / 2 == AndNot(a / 2, b / 2);
    }
  }

  /// A mask 1 << k has bit k and no other.
  lemma {:induction false} MaskBits(k: nat, j: nat)
    ensures Bit(Pow2(k), j) <==> j == k
  {
    if k == 0 {
      if j > 0 {
        ZeroHasNoBits(j - 1);
      }
    } else if j > 0 {
      MaskBits(k - 1, j - 1);
    }
  }

  lemma ShiftNibble(n: nat, k: nat)
    ensures Bit(n, k + 4) == Bit(n / 16, k)
  {
    assert Bit(n, k + 4) == Bit(n / 2, k + 3) == Bit(n / 2 / 2, k + 2);
    assert Bit(n / 2 / 2, k + 2) == Bit(n / 2 / 2 / 2, k + 1) == Bit(n / 2 / 2 / 2 / 2, k);
  }

  /// Bit 14 of a 16-bit word, by arithmetic.
  lemma Bit14(n: nat)
    ensures Bit(n, 14) <==> n / 0x4000 % 2 == 1
    ensures Pow2(14) == 0x4000
  {
    assert Pow2(4) == 0x10 && Pow2(8) == 0x100;
    assert Pow2(12) == 0x1000;
    ShiftNibble(n, 10);
    ShiftNibble(n / 16, 6);
    ShiftNibble(n / 16 / 16, 2);
    var m := n / 16 / 16 / 16;
    assert Bit(m, 2) == Bit(m / 2, 1) == Bit(m / 2 / 2, 0);
    assert m / 2 / 2 == n / 0x4000;
  }

  /// Testing a byte against the mask 1 << k reads bit k.
  lemma {:induction false} AndMask(a: nat, k: nat)
    ensures And(a, Pow2(k)) == if Bit(a, k) then Pow2(k) else 0
    ensures And(a, Pow2(k)) != 0 <==> Bit(a, k)
  {
    if a == 0 {
      ZeroHasNoBits(k);
    } else if k == 0 {
      AndZero(a / 2);
    } else {
      AndMask(a / 2, k - 1);
    }
  }

  lemma {:induction false} AndZero(a: nat)
    ensures And(a, 0) == 0
  {
    if a > 0 {
      AndZero(a / 2);
    }
  }

  /// Bitwise results stay within the width of their operands.
  lemma {:induction false} WidthKept(a: nat, b: nat, w: nat)
    requires a < Pow2(w) && b < Pow2(w)
    ensures Or(a, b) < Pow2(w)
    ensures AndNot(a, b) <= a && And(a, b) <= a
  {
    if a > 0 {
      if w == 0 {
        assert false;
      } else {
        WidthKept(a / 2, b / 2, w - 1);
      }
    }
  }

  lemma {:induction false} AndAtMost(a: nat, b: nat)
    ensures And(a, b) <= a && And(a, b) <= b
    decreases a
  {
    if a > 0 {
      AndAtMost(a / 2, b / 2);
    }
  }

  lemma Pow2Of8()
    ensures Pow2(8) == 0x100 && Pow2(16) == 0x1_0000
  {
    assert Pow2(8) == 0x100;
  }

  lemma {:induction false} Pow2Monotone(j: nat, k: nat)
    requires j <= k
    ensures 0 < Pow2(j) <= Pow2(k)
    decreases k
  {
    if j < k {
      Pow2Monotone(j, k - 1);
    } else if j > 0 {
      Pow2Monotone(j - 1, k - 1);
    }
  }

  ghost predicate AllSet(n: nat, w: nat) {
    forall k: nat | k < w :: Bit(n, k)
  }

  /// The number with the lowest w bits set.
  ghost function Ones(w: nat): nat {
    if w == 0 then 0 else 1 + 2 * Ones(w - 1)
  }

  /// A byte with all eight bits set is 0xFF, and only that one.
  lemma FullByte(b: byte)
    ensures b == 0xFF <==> AllSet(b, 8)
  {
    Pow2Of8();
    assert Ones(8) == 0xFF;
    if AllSet(b, 8) {
      AllOnes(b, 8);
    } else {
      var k: nat :| k < 8 && !Bit(b, k);
      OnesHaveBits(8, k);
    }
  }

  lemma {:induction false} AllOnes(n: nat, w: nat)
    requires n < Pow2(w) && AllSet(n, w)
    ensures n == Ones(w)
  {
    if w > 0 {
      assert Bit(n, 0);
      forall k: nat | k < w - 1 ensures Bit(n / 2, k) {
        assert Bit(n, k + 1);
      }
      AllOnes(n / 2, w - 1);
    }
  }

  lemma {:induction false} OnesHaveBits(w: nat, k: nat)
    requires k < w
    ensures Bit(Ones(w), k)
  {
    if k > 0 {
      OnesHaveBits(w - 1, k - 1);
      assert Ones(w) / 2 == Ones(w - 1);
    }
  }

  // ---------- byte strings ----------

  /// `buf[off..off + data.len()].copy_from_slice(data)` on a value.
  function Splice(buf: seq<byte>, off: nat, data: seq<byte>): (r: seq<byte>)
    requires off + |data| <= |buf|
    ensures |r| == |buf|
    ensures forall i | 0 <= i < |buf| :: r[i] == if off <= i < off + |data| then data[i - off] else buf[i]
  {
    buf[..off] + data + buf[off + |data|..]
  }

  lemma SpliceReadsBack(buf: seq<byte>, off: nat, data: seq<byte>)
    requires off + |data| <= |buf|
    ensures Splice(buf, off, data)[off..off + |data|] == data
  {
  }

  lemma SpliceKeeps(buf: seq<byte>, off: nat, data: seq<byte>, lo: nat, hi: nat)
    requires off + |data| <= |buf| && lo <= hi <= |buf|
    requires hi <= off || off + |data| <= lo
    ensures Splice(buf, off, data)[lo..hi] == buf[lo..hi]
  {
  }

  /// Splicing in what is already there changes nothing.
  lemma SpliceSame(buf: seq<byte>, off: nat, data: seq<byte>)
    requires off + |data| <= |buf|
    ensures Splice(buf, off, data) == buf <==> buf[off..off + |data|] == data
  {
    SpliceReadsBack(buf, off, data);
    if buf[off..off + |data|] == data {
      assert buf == buf[..off] + data + buf[off + |data|..];
    }
  }

  lemma SpliceFillsZeros(filled: seq<byte>, data: seq<byte>, room: nat)
    requires |data| <= room
    ensures Splice(filled + Zeros(room), |filled|, data) == (filled + data) + Zeros(room - |data|)
  {
  }

  // ---------- little-endian numbers ----------

  function Pow256(w: nat): (p: nat)
    ensures p > 0
  {
    if w == 0 then 1 else 0x100 * Pow256(w - 1)
  }

  function ToLE(n: nat, w: nat): (s: seq<byte>)
    ensures |s| == w
  {
    if w == 0 then [] else [n % 0x100] + ToLE(n / 0x100, w - 1)
  }

  function FromLE(s: seq<byte>): (n: nat)
    ensures n < Pow256(|s|)
  {
    if s == [] then 0 else s[0] + 0x100 * FromLE(s[1..])
  }

  lemma {:induction false} FromToLE(n: nat, w: nat)
    requires n < Pow256(w)
    ensures FromLE(ToLE(n, w)) == n
  {
    if w > 0 {
      FromToLE(n / 0x100, w - 1);
      assert ToLE(n, w)[1..] == ToLE(n / 0x100, w - 1);
    }
  }

  lemma {:induction false} ZerosFromLE(w: nat)
    ensures FromLE(Zeros(w)) == 0
  {
    if w > 0 {
      assert Zeros(w)[1..] == Zeros(w - 1);
      ZerosFromLE(w - 1);
    }
  }

  lemma Widths()
    ensures Pow256(2) == 0x1_0000 && Pow256(4) == 0x1_0000_0000
    ensures Pow256(8) == 0x1_0000_0000_0000_0000
  {
    assert Pow256(4) == 0x1_0000_0000;
  }

  function LE16(n: u16): (s: seq<byte>)
    ensures |s| == 2
  {
    ToLE(n, 2)
  }

  function LE32(n: u32): (s: seq<byte>)
    ensures |s| == 4
  {
    ToLE(n, 4)
  }

  /// Two's complement, as `i64::to_le_bytes`.
  function LE64(n: i64): (s: seq<byte>)
    ensures |s| == 8
  {
    ToLE(if n < 0 then n + 0x1_0000_0000_0000_0000 else n, 8)
  }

  function Read16(s: seq<byte>): u16
    requires |s| == 2
  {
    Widths();
    FromLE(s)
  }

  function Read32(s: seq<byte>): u32
    requires |s| == 4
  {
    Widths();
    FromLE(s)
  }

  function Read64(s: seq<byte>): i64
    requires |s| == 8
  {
    Widths();
    var n := FromLE(s);
    if n < 0x8000_0000_0000_0000 then n else n - 0x1_0000_0000_0000_0000
  }

  lemma Read16Back(n: u16)
    ensures Read16(LE16(n)) == n
  {
    Widths();
    FromToLE(n, 2);
  }

  lemma Read32Back(n: u32)
    ensures Read32(LE32(n)) == n
  {
    Widths();
    FromToLE(n, 4);
  }

  lemma Read64Back(n: i64)
    ensures Read64(LE64(n)) == n
  {
    Widths();
    FromToLE(if n < 0 then n + 0x1_0000_0000_0000_0000 else n, 8);
  }
}

/// The older allocator: free blocks linked through their last two bytes (simplefs.c).

module FreeList {
  import opened Bytes
  import opened Allocator

  type CMagic = m: seq<byte> | |m| == 16 witness seq(16, _ => 0)

  // "SIMPLEFS"
  const C_MAGIC: CMagic := [0x53, 0x49, 0x4D, 0x50, 0x4C, 0x45, 0x46, 0x53, 0, 0, 0, 0, 0, 0, 0, 0]

  datatype CSuper = CSuper(firstFree: u16, rootDir: u16, totalBlocks: u32, freeBlocks: u32, magic: CMagic)

  const C_SUPER_SIZE: nat := 28

  function Encode(sb: CSuper): (s: seq<byte>)
    ensures |s| == C_SUPER_SIZE
  {
    LE16(sb.firstFree) + LE16(sb.rootDir) + LE32(sb.totalBlocks) + LE32(sb.freeBlocks) + sb.magic
  }

  function Decode(s: seq<byte>): CSuper
    requires |s| >= C_SUPER_SIZE
  {
    CSuper(Read16(s[0..2]), Read16(s[2..4]), Read32(s[4..8]), Read32(s[8..12]), s[12..28])
  }

  /// What the in-memory superblock looks like in block 0.
  function Image(sb: CSuper): Block {
    Encode(sb) + Zeros(BLOCK_SIZE - C_SUPER_SIZE)
  }

  lemma DecodeImage(sb: CSuper)
    ensures Decode(Image(sb)) == sb
  {
    var s := Image(sb);
    assert s[0..2] == LE16(sb.firstFree) && s[2..4] == LE16(sb.rootDir);
    assert s[4..8] == LE32(sb.totalBlocks) && s[8..12] == LE32(sb.freeBlocks) && s[12..28] == sb.magic;
    Read16Back(sb.firstFree);
    Read16Back(sb.rootDir);
    Read32Back(sb.totalBlocks);
    Read32Back(sb.freeBlocks);
  }

  /// `next_block_no` of a block.
  function Next(block: Block): u16 {
    Read16(block[PAGE_SIZE..BLOCK_SIZE])
  }

  function WithNext(block: Block, next: u16): Block {
    Splice(block, PAGE_SIZE, LE16(next))
  }

  lemma NextBack(block: Block, next: u16)
    ensures Next(WithNext(block, next)) == next
  {
    SpliceReadsBack(block, PAGE_SIZE, LE16(next));
    Read16Back(next);
  }

  /// A zeroed block has trailer 0, and only that one.
  lemma ZeroTrailer(block: Block)
    requires block[..510] == Zeros(510)
    ensures Next(block) == 0 <==> block == Zeros(512)
  {
    var s := block[510..512];
    assert s[1..] == [s[1]] && [s[1]][1..] == [];
    assert FromLE(s) == s[0] + 0x100 * FromLE([s[1]]);
    assert FromLE([s[1]]) == s[1];
    if Next(block) == 0 {
      assert s[0] == 0 && s[1] == 0;
      assert block == block[..510] + s;
    }
  }

  /// A zeroed block with a trailer.
  lemma ChainedBlock(block: Block, next: u16)
    requires block[..510] == Zeros(510)
    ensures var c := WithNext(block, next);
      Next(c) == next && c[..510] == Zeros(510) && (next == 0 ==> c == Zeros(512))
  {
    NextBack(block, next);
    SpliceKeeps(block, 510, LE16(next), 0, 510);
    ZeroTrailer(WithNext(block, next));
  }

  /// Following trailers from `first` visits the blocks of the list and ends at 0.
  predicate IsChain(blocks: seq<Block>, first: nat, list: seq<nat>)
    decreases |list|
  {
    if list == [] then first == 0
    else first == list[0] && 0 < first < |blocks| && IsChain(blocks, Next(blocks[first]), list[1..])
  }

  predicate Distinct(list: seq<nat>) {
    forall i, j | 0 <= i < j < |list| :: list[i] != list[j]
  }

  function Members(list: seq<nat>): set<nat> {
    set b | b in list
  }

  lemma {:induction false} ChainInRange(blocks: seq<Block>, first: nat, list: seq<nat>)
    requires IsChain(blocks, first, list)
    ensures forall b | b in list :: 0 < b < |blocks|
    decreases |list|
  {
    if list != [] {
      ChainInRange(blocks, Next(blocks[first]), list[1..]);
      assert list == [list[0]] + list[1..];
    }
  }

  /// A chain does not see changes outside it.
  lemma {:induction false} ChainKept(blocks: seq<Block>, blocks': seq<Block>, first: nat, list: seq<nat>)
    requires IsChain(blocks, first, list) && |blocks'| == |blocks|
    requires forall b | b in list && b < |blocks| :: blocks'[b] == blocks[b]
    ensures IsChain(blocks', first, list)
    decreases |list|
  {
    if list != [] {
      assert list[0] in list;
      ChainKept(blocks, blocks', Next(blocks[first]), list[1..]);
    }
  }

  /// The number of members of a chain is its length.
  lemma {:induction false} MembersCount(list: seq<nat>)
    requires Distinct(list)
    ensures |Members(list)| == |list|
    decreases |list|
  {
    if list == [] {
      assert Members(list) == {};
    } else {
      MembersCount(list[1..]);
      assert Members(list) == {list[0]} + Members(list[1..]);
      assert list[0] !in list[1..];
    }
  }

  function Upward(from: nat, to: nat): (list: seq<nat>)
    requires from <= to
    ensures |list| == to - from && forall k | 0 <= k < |list| :: list[k] == from + k
  {
    seq(to - from, k requires 0 <= k < to - from => from + k)
  }

  /// The chain that format lays out.
  lemma {:induction false} UpwardChain(blocks: seq<Block>, from: nat)
    requires 0 < from < |blocks|
    requires forall b | from <= b < |blocks| :: Next(blocks[b]) == if b == |blocks| - 1 then 0 else b + 1
    ensures IsChain(blocks, from, Upward(from, |blocks|))
    decreases |blocks| - from
  {
    var list := Upward(from, |blocks|);
    assert list[1..] == if from == |blocks| - 1 then [] else Upward(from + 1, |blocks|);
    if from < |blocks| - 1 {
      UpwardChain(blocks, from + 1);
    }
  }

  function Reverse(s: seq<nat>): (r: seq<nat>)
    ensures |r| == |s|
  {
    if s == [] then [] else Reverse(s[1..]) + [s[0]]
  }

  class ChainedDisk {
    var blocks: seq<Block>
    var sb: CSuper
    /// The free blocks in the order they will be handed out.
    ghost var chain: seq<nat>

    ghost predicate Valid()
      reads this
    {
      && 2 <= |blocks| < 0x1_0000
      && blocks[0] == Image(sb)
      && IsChain(blocks, sb.firstFree, chain) && Distinct(chain) && |chain| == sb.freeBlocks
    }

    ghost function Free(): set<nat>
      reads this
    {
      Members(chain)
    }

    /// format_disk on a disk of n blocks. The loop counter is a u16, so n is below 65536.
    constructor (n: nat)
      requires 2 <= n < 0x1_0000
      ensures Valid() && |blocks| == n && sb.totalBlocks == n && sb.magic == C_MAGIC
      ensures sb.rootDir == 1 && blocks[1] == Zeros(512) && chain == Upward(2, n)
      ensures forall b | 1 <= b < n :: blocks[b][..510] == Zeros(510)
    {
      sb := CSuper(1, 0, n, n - 1, C_MAGIC);
      blocks := seq(n, _ => Zeros(BLOCK_SIZE));
      chain := Upward(1, n);
      new;
      hide Next, WithNext, Distinct, Image;
      var block: Block := Zeros(BLOCK_SIZE);
      var i := 1;
      while i < n
        invariant 1 <= i <= n == |blocks| && sb == CSuper(1, 0, n, n - 1, C_MAGIC) && chain == Upward(1, n)
        invariant forall b | 1 <= b < i :: Next(blocks[b]) == if b == n - 1 then 0 else b + 1
        invariant forall b | 1 <= b < i :: blocks[b][..510] == Zeros(510)
        invariant |block| == 512 && block[..510] == Zeros(510) && (i == n ==> block == Zeros(512))
      {
        var next := if i == n - 1 then 0 else i + 1;
        ChainedBlock(block, next);
        block := WithNext(block, next);
        blocks := blocks[i := block];
        i := i + 1;
      }
      UpwardChain(blocks, 1);
      var root := AllocateFirst();
      assert chain == Upward(2, n);
      sb := sb.(rootDir := root);
      ChainKept(blocks, blocks[1 := block][0 := Image(sb)], sb.firstFree, chain);
      blocks := blocks[root as int := block];
      blocks := blocks[0 := Image(sb)];
    }

    /// allocate_block. 0 means that there is no free block.
    method AllocateBlock() returns (r: u16)
      requires Valid()
      modifies this
      ensures Valid() && |blocks| == |old(blocks)|
      ensures Allocates(old(Free()), Free(), if r == 0 then NoBlock else Block(r as nat))
      ensures r != 0 ==> old(chain) != [] && r == old(chain)[0] && chain == old(chain)[1..]
      ensures r == 0 ==> sb == old(sb) && blocks == old(blocks) && chain == old(chain)
      ensures sb == old(sb).(firstFree := sb.firstFree, freeBlocks := sb.freeBlocks)
      ensures forall b | 0 < b < |blocks| :: blocks[b] == old(blocks)[b]
    {
      if sb.freeBlocks == 0 {
        return 0;
      }
      ChainInRange(blocks, sb.firstFree, chain);
      r := AllocateFirst();
      HeadRemoved(old(chain));
    }

    /// The part of allocate_block after its test.
    method AllocateFirst() returns (r: u16)
      requires 2 <= |blocks| < 0x1_0000 && chain != []
      requires IsChain(blocks, sb.firstFree, chain) && Distinct(chain) && |chain| == sb.freeBlocks
      modifies this
      ensures Valid() && |blocks| == |old(blocks)|
      ensures r == old(chain)[0] && r != 0 && chain == old(chain)[1..]
      ensures sb == old(sb).(firstFree := sb.firstFree, freeBlocks := old(sb).freeBlocks - 1)
      ensures blocks == old(blocks)[0 := Image(sb)]
    {
      r := sb.firstFree;
      ChainInRange(blocks, r, chain);
      var next := Next(blocks[r]);
      assert forall b | b in chain[1..] :: b in chain;
      sb := sb.(firstFree := next);
      sb := sb.(freeBlocks := sb.freeBlocks - 1);
      ChainKept(blocks, blocks[0 := Image(sb)], next, chain[1..]);
      blocks := blocks[0 := Image(sb)];
      chain := chain[1..];
    }

    /// free_block of a block that is in use.
    method FreeBlock(b: u16)
      requires Valid() && 0 < b < |blocks| && b as nat !in chain
      modifies this
      ensures Valid() && |blocks| == |old(blocks)|
      ensures chain == [b as nat] + old(chain) && Frees(old(Free()), Free(), b)
      ensures sb == old(sb).(firstFree := b, freeBlocks := old(sb).freeBlocks + 1)
      ensures blocks[b] == WithNext(Zeros(BLOCK_SIZE), old(sb).firstFree)
      ensures forall x | 0 < x < |blocks| && x != b :: blocks[x] == old(blocks)[x]
    {
      var oldFirst := sb.firstFree;
      ChainBound(blocks, sb.firstFree, chain);
      sb := sb.(firstFree := b);
      var block := WithNext(Zeros(BLOCK_SIZE), oldFirst);
      NextBack(Zeros(BLOCK_SIZE), oldFirst);
      ghost var was := blocks;
      ChainInRange(blocks, oldFirst, chain);
      blocks := blocks[b as int := block];
      sb := sb.(freeBlocks := sb.freeBlocks + 1);
      blocks := blocks[0 := Image(sb)];
      ChainKept(was, blocks, oldFirst, chain);
      ghost var longer := [b as nat] + chain;
      assert longer[1..] == chain;
      chain := longer;
      assert Members(chain) == Members(old(chain)) + {b as nat};
    }

    /// write_block by the owner of a block, trailer and all.
    method WriteBlock(b: u16, block: Block)
      requires Valid() && 0 < b < |blocks| && b as nat !in chain
      modifies this
      ensures Valid() && blocks == old(blocks)[b as int := block] && sb == old(sb) && chain == old(chain)
    {
      ChainKept(blocks, blocks[b as int := block], sb.firstFree, chain);
      blocks := blocks[b as int := block];
    }

    /// The release loop of simplefs_unlink: a file chain disjoint from the free list goes
    /// back block by block, so the last block of the file is the first to be reused.
    method ReleaseChain(first: u16, ghost file: seq<nat>)
      requires Valid() && IsChain(blocks, first, file) && Distinct(file) && Members(file) !! Free()
      modifies this
      ensures Valid() && |blocks| == |old(blocks)|
      ensures chain == Reverse(file) + old(chain)
      ensures Free() == old(Free()) + Members(file) && sb.freeBlocks == old(sb).freeBlocks + |file|
      ensures forall x | 0 < x < |blocks| && x !in file :: blocks[x] == old(blocks)[x]
    {
      hide IsChain, Distinct, Members, Reverse, Next, Image;
      ReverseEmpty();
      var current := first;
      ghost var rest := file;
      ghost var freed := [];
      while current != 0
        invariant Valid() && |blocks| == |old(blocks)|
        invariant IsChain(blocks, current, rest) && Distinct(rest) && Members(rest) !! Members(chain)
        invariant file == freed + rest
        invariant chain == Reverse(freed) + old(chain)
        invariant sb.freeBlocks == old(sb).freeBlocks + |freed|
        invariant forall x | 0 < x < |blocks| && x !in freed :: blocks[x] == old(blocks)[x]
        decreases |rest|
      {
        ghost var was, list := blocks, chain;
        ChainTail(was, current, rest, chain);
        var next := Next(blocks[current]);
        FreeBlock(current);
        ChainKept(was, blocks, next, rest[1..]);
        ReverseSnoc(freed, current);
        assert [current as nat] + (Reverse(freed) + old(chain)) == [current as nat] + Reverse(freed) + old(chain);
        MembersCons(current, list);
        freed := freed + [current as nat];
        rest := rest[1..];
        current := next;
      }
      ChainEnd(blocks, rest);
      assert freed == file;
      ReverseMembers(file);
      MembersAppend(Reverse(file), old(chain));
    }

    /// A block given back is the next one handed out, and the list is as it was.
    method FreeThenAllocate(b: u16) returns (r: u16)
      requires Valid() && 0 < b < |blocks| && b as nat !in chain
      modifies this
      ensures Valid() && r == b && chain == old(chain) && sb == old(sb)
    {
      FreeBlock(b);
      r := AllocateBlock();
      assert chain == old(chain);
      ChainHead(blocks, sb.firstFree, chain);
      ChainHead(old(blocks), old(sb.firstFree), old(chain));
    }
  }

  lemma ReverseEmpty()
    ensures Reverse([]) == []
  {
  }

  lemma ChainEnd(blocks: seq<Block>, list: seq<nat>)
    requires IsChain(blocks, 0, list)
    ensures list == []
  {
  }

  lemma MembersAppend(a: seq<nat>, b: seq<nat>)
    ensures Members(a + b) == Members(a) + Members(b)
  {
  }

  lemma MembersCons(b: nat, list: seq<nat>)
    ensures Members([b] + list) == Members(list) + {b}
  {
  }

  lemma MembersSnoc(list: seq<nat>, b: nat)
    ensures Members(list + [b]) == Members(list) + {b}
  {
  }

  /// The first block of a chain and the chain behind it.
  lemma ChainTail(blocks: seq<Block>, first: nat, list: seq<nat>, others: seq<nat>)
    requires IsChain(blocks, first, list) && Distinct(list) && first != 0 && Members(list) !! Members(others)
    ensures list != [] && first < |blocks| && first !in others && list == [first] + list[1..]
    ensures IsChain(blocks, Next(blocks[first]), list[1..]) && Distinct(list[1..])
    ensures Members(list[1..]) !! Members(others) && first !in list[1..] && first !in Members(list[1..])
    ensures forall b | b in list[1..] :: 0 < b < |blocks| && b != first
  {
    ChainInRange(blocks, first, list);
    assert list[0] in list;
    assert forall b | b in list[1..] :: b in list;
    assert first in Members(list);
  }

  lemma HeadRemoved(list: seq<nat>)
    requires list != [] && Distinct(list)
    ensures Members(list[1..]) == Members(list) - {list[0]} && list[0] in Members(list)
  {
    assert list == [list[0]] + list[1..];
  }

  lemma ChainHead(blocks: seq<Block>, first: nat, list: seq<nat>)
    requires IsChain(blocks, first, list)
    ensures first == if list == [] then 0 else list[0]
  {
  }

  /// A distinct chain is shorter than the disk.
  lemma ChainBound(blocks: seq<Block>, first: nat, list: seq<nat>)
    requires IsChain(blocks, first, list) && Distinct(list)
    ensures |list| <= |blocks|
  {
    ChainInRange(blocks, first, list);
    MembersCount(list);
    BelowSize(|blocks|);
    assert Members(list) <= Below(|blocks|);
    assert |Below(|blocks|)| == |Members(list)| + |Below(|blocks|) - Members(list)| by {
      assert Below(|blocks|) == Members(list) + (Below(|blocks|) - Members(list));
    }
  }

  lemma {:induction false} ReverseSnoc(s: seq<nat>, x: nat)
    ensures Reverse(s + [x]) == [x] + Reverse(s)
  {
    if s == [] {
    } else {
      assert (s + [x])[1..] == s[1..] + [x];
      ReverseSnoc(s[1..], x);
    }
  }

  lemma {:induction false} ReverseMembers(s: seq<nat>)
    ensures Members(Reverse(s)) == Members(s)
  {
    if s != [] {
      ReverseMembers(s[1..]);
      assert s == [s[0]] + s[1..];
      MembersSnoc(Reverse(s[1..]), s[0]);
      MembersCons(s[0], s[1..]);
    }
  }

  // ---------- whole runs ----------

  datatype ListRequest = Take | Give(block: u16) | Store(block: u16, data: Block) | Release(file: seq<nat>)

  /// Refused is the answer to what no caller may ask: to free or write a block that is not
  /// in use, or to release what is no chain of such blocks.
  datatype ListAnswer = Got(block: nat) | Did | Refused

  /// The free blocks in order, and the trailers of the blocks in use.
  datatype ListState = ListState(chain: seq<nat>, next: map<nat, nat>)

  function First(list: seq<nat>): nat {
    if list == [] then 0 else list[0]
  }

  /// Following the trailers of blocks in use from `first` visits the file and ends at 0.
  ghost predicate Linked(next: map<nat, nat>, first: nat, file: seq<nat>)
    decreases |file|
  {
    if file == [] then first == 0
    else first == file[0] && first in next && Linked(next, next[first], file[1..])
  }

  /// Block 1 is the root directory, which is written but never freed.
  ghost predicate Legal(s: ListState, q: ListRequest) {
    match q
    case Take => true
    case Give(b) => b as nat in s.next
    case Store(b, _) => b == 1 || b as nat in s.next
    case Release(file) => Linked(s.next, First(file), file) && Distinct(file)
  }

  ghost function AnswerTo(s: ListState, q: ListRequest): ListAnswer {
    if !Legal(s, q) then Refused else if q.Take? then Got(First(s.chain)) else Did
  }

  /// A block taken keeps its trailer, which names the block behind it in the list.
  ghost function After(s: ListState, q: ListRequest): ListState {
    if !Legal(s, q) then s
    else match q
      case Take =>
        if s.chain == [] then s else ListState(s.chain[1..], s.next[s.chain[0] := First(s.chain[1..])])
      case Give(b) => ListState([b as nat] + s.chain, s.next - {b as nat})
      case Store(b, data) => if b == 1 then s else ListState(s.chain, s.next[b as nat := Next(data) as nat])
      case Release(file) => ListState(Reverse(file) + s.chain, s.next - Members(file))
  }

  /// The state of the list after the requests, on a disk of n blocks.
  ghost function StateAfter(n: nat, requests: seq<ListRequest>): ListState
    requires n >= 2
  {
    if requests == [] then ListState(Upward(2, n), map[])
    else After(StateAfter(n, requests[..|requests| - 1]), requests[|requests| - 1])
  }

  /// The blocks in use, told by the answers: those taken and not given back since.
  ghost function Used(requests: seq<ListRequest>, answers: seq<ListAnswer>): set<nat>
    requires |requests| == |answers|
  {
    if requests == [] then {}
    else
      var k := |requests| - 1;
      UsedNext(Used(requests[..k], answers[..k]), requests[k], answers[k])
  }

  ghost function UsedNext(used: set<nat>, q: ListRequest, r: ListAnswer): set<nat> {
    match (q, r)
    case (Take, Got(b)) => if b == 0 then used else used + {b}
    case (Give(b), Did) => used - {b as nat}
    case (Release(file), Did) => used - Members(file)
    case _ => used
  }

  /// The disk holds the state s: its chain is the list, and the other blocks but the two
  /// first are in use, with these trailers.
  ghost predicate Tells(d: ChainedDisk, s: ListState)
    reads d
  {
    && d.Valid() && d.chain == s.chain
    && Members(s.chain) <= Below(|d.blocks|) - {0, 1}
    && s.next.Keys == Below(|d.blocks|) - {0, 1} - Members(s.chain)
    && forall b | b in s.next && b < |d.blocks| :: Next(d.blocks[b]) == s.next[b]
  }

  lemma {:induction false} LinkedIsChain(blocks: seq<Block>, next: map<nat, nat>, first: nat, file: seq<nat>)
    requires forall b | b in next :: 0 < b < |blocks| && Next(blocks[b]) == next[b]
    ensures Linked(next, first, file) <==> IsChain(blocks, first, file) && forall b | b in file :: b in next
    decreases |file|
  {
    if file != [] {
      assert file == [file[0]] + file[1..];
      if first == file[0] && first in next {
        LinkedIsChain(blocks, next, next[first], file[1..]);
      }
    }
  }

  method ServeTake(d: ChainedDisk, used: set<nat>, ghost s: ListState) returns (r: ListAnswer, used': set<nat>)
    requires Tells(d, s) && used == s.next.Keys
    modifies d
    ensures Tells(d, After(s, Take)) && used' == After(s, Take).next.Keys && r == AnswerTo(s, Take)
    ensures |d.blocks| == |old(d.blocks)|
  {
    hide Distinct, Image;
    ChainHead(d.blocks, d.sb.firstFree, d.chain);
    if s.chain != [] {
      HeadRemoved(s.chain);
      ChainHead(d.blocks, Next(d.blocks[s.chain[0]]), s.chain[1..]);
    }
    var b := d.AllocateBlock();
    used' := if b == 0 then used else used + {b as nat};
    r := Got(b);
  }

  method ServeGive(d: ChainedDisk, b: u16, used: set<nat>, ghost s: ListState) returns (r: ListAnswer, used': set<nat>)
    requires Tells(d, s) && used == s.next.Keys
    modifies d
    ensures Tells(d, After(s, Give(b))) && used' == After(s, Give(b)).next.Keys && r == AnswerTo(s, Give(b))
    ensures |d.blocks| == |old(d.blocks)|
  {
    hide Distinct, Image, IsChain;
    if b as nat !in used {
      return Refused, used;
    }
    MembersCons(b, s.chain);
    d.FreeBlock(b);
    return Did, used - {b as nat};
  }

  method ServeStore(d: ChainedDisk, b: u16, data: Block, used: set<nat>, ghost s: ListState) returns (r: ListAnswer)
    requires Tells(d, s) && used == s.next.Keys
    modifies d
    ensures Tells(d, After(s, Store(b, data))) && used == After(s, Store(b, data)).next.Keys
    ensures r == AnswerTo(s, Store(b, data)) && |d.blocks| == |old(d.blocks)|
  {
    hide Distinct, Image, IsChain, Next;
    if b != 1 && b as nat !in used {
      return Refused;
    }
    d.WriteBlock(b, data);
    return Did;
  }

  method ServeRelease(d: ChainedDisk, file: seq<nat>, used: set<nat>, ghost s: ListState)
    returns (r: ListAnswer, used': set<nat>)
    requires Tells(d, s) && used == s.next.Keys
    modifies d
    ensures Tells(d, After(s, Release(file))) && used' == After(s, Release(file)).next.Keys
    ensures r == AnswerTo(s, Release(file)) && |d.blocks| == |old(d.blocks)|
  {
    hide Image, IsChain, Distinct, Linked, Next, Reverse;
    LinkedIsChain(d.blocks, s.next, First(file), file);
    assert file != [] ==> file[0] in file;
    if !IsChain(d.blocks, First(file), file) || !Distinct(file) || exists b :: b in file && b !in used {
      return Refused, used;
    }
    ReverseMembers(file);
    MembersAppend(Reverse(file), s.chain);
    ChainInRange(d.blocks, First(file), file);
    d.ReleaseChain(First(file), file);
    return Did, used - Members(file);
  }

  /// One request, with the check that a caller may ask it.
  method Serve(d: ChainedDisk, q: ListRequest, used: set<nat>, ghost s: ListState)
    returns (r: ListAnswer, used': set<nat>)
    requires Tells(d, s) && used == s.next.Keys
    modifies d
    ensures Tells(d, After(s, q)) && used' == After(s, q).next.Keys && r == AnswerTo(s, q)
    ensures |d.blocks| == |old(d.blocks)|
  {
    hide Tells, After, AnswerTo;
    used' := used;
    match q
    case Take => r, used' := ServeTake(d, used, s);
    case Give(b) => r, used' := ServeGive(d, b, used, s);
    case Store(b, data) => r := ServeStore(d, b, data, used, s);
    case Release(file) => r, used' := ServeRelease(d, file, used, s);
  }

  /// The answer is the head of the list, and 0 only when there is none.
  lemma TakeAnswer(s: ListState)
    requires 0 !in s.chain
    ensures AnswerTo(s, Take) == Got(0) <==> s.chain == []
    ensures s.chain != [] ==> AnswerTo(s, Take) == Got(s.chain[0])
  {
  }

  /// The answers so far: each is that of the state at its point, and a block asked for is
  /// the head of the list there, or 0 exactly when the list is empty.
  ghost predicate Answered(n: nat, requests: seq<ListRequest>, answers: seq<ListAnswer>)
    requires n >= 2
  {
    && |answers| <= |requests|
    && forall k | 0 <= k < |answers| ::
      var s := StateAfter(n, requests[..k]);
      && answers[k] == AnswerTo(s, requests[k])
      && (requests[k].Take? ==> (answers[k] == Got(0) <==> s.chain == []))
      && (requests[k].Take? && s.chain != [] ==> answers[k] == Got(s.chain[0]))
  }

  /// One more request in the folds.
  lemma RunSnoc(n: nat, requests: seq<ListRequest>, answers: seq<ListAnswer>, k: nat, r: ListAnswer)
    requires n >= 2 && k < |requests| && |answers| == k
    ensures StateAfter(n, requests[..k + 1]) == After(StateAfter(n, requests[..k]), requests[k])
    ensures Used(requests[..k + 1], answers + [r]) == UsedNext(Used(requests[..k], answers), requests[k], r)
    ensures var s := StateAfter(n, requests[..k]);
      Answered(n, requests, answers) && 0 !in s.chain && r == AnswerTo(s, requests[k]) ==>
        Answered(n, requests, answers + [r])
  {
    hide After, UsedNext, Legal;
    if 0 !in StateAfter(n, requests[..k]).chain {
      TakeAnswer(StateAfter(n, requests[..k]));
    }
    assert requests[..k + 1][..k] == requests[..k] && (answers + [r])[..k] == answers;
  }

  lemma NoRequests(n: nat, requests: seq<ListRequest>)
    requires n >= 2
    ensures StateAfter(n, requests[..0]) == ListState(Upward(2, n), map[]) && Used(requests[..0], []) == {}
    ensures Answered(n, requests, [])
  {
  }

  /// From format through any requests: the answers and the disk are those of the state, the
  /// list holds exactly the blocks not in use, each once, and the counter is their number.
  method RunList(n: nat, requests: seq<ListRequest>) returns (d: ChainedDisk, answers: seq<ListAnswer>)
    requires 2 <= n < 0x1_0000
    ensures d.Valid() && |d.blocks| == n && |answers| == |requests| && Answered(n, requests, answers)
    ensures Tells(d, StateAfter(n, requests))
    ensures var used := Used(requests, answers);
      && used == StateAfter(n, requests).next.Keys && used <= Below(n) - {0, 1}
      && d.Free() == Below(n) - {0, 1} - used && d.sb.freeBlocks == n - 2 - |used|
  {
    hide IsChain, Distinct, Members, Tells, Legal, Below, UsedNext, After, AnswerTo, Answered, StateAfter;
    d := new ChainedDisk(n);
    answers := [];
    var used := {};
    ghost var s := ListState(Upward(2, n), map[]);
    StartTells(d, n);
    NoRequests(n, requests);
    for k := 0 to |requests|
      invariant fresh(d) && |d.blocks| == n && |answers| == k
      invariant s == StateAfter(n, requests[..k]) && Tells(d, s) && used == s.next.Keys
      invariant used == Used(requests[..k], answers)
      invariant Answered(n, requests, answers)
    {
      var r;
      NoZero(d, s);
      UsedIsKeys(s, requests[k], used);
      RunSnoc(n, requests, answers, k, AnswerTo(s, requests[k]));
      r, used := Serve(d, requests[k], used, s);
      s := After(s, requests[k]);
      answers := answers + [r];
    }
    assert requests[..|requests|] == requests;
    FreeCount(d, n, s);
  }

  lemma StartTells(d: ChainedDisk, n: nat)
    requires d.Valid() && |d.blocks| == n && d.chain == Upward(2, n)
    ensures Tells(d, ListState(Upward(2, n), map[]))
  {
    forall b: nat | 2 <= b < n
      ensures b in Upward(2, n)
    {
      assert Upward(2, n)[b - 2] == b;
    }
  }

  /// The blocks in use follow from the answer.
  lemma UsedIsKeys(s: ListState, q: ListRequest, used: set<nat>)
    requires used == s.next.Keys && 0 !in s.chain
    ensures After(s, q).next.Keys == UsedNext(used, q, AnswerTo(s, q))
  {
  }

  lemma NoZero(d: ChainedDisk, s: ListState)
    requires Tells(d, s)
    ensures 0 !in s.chain
  {
    assert 0 !in Members(s.chain);
  }

  lemma FreeCount(d: ChainedDisk, n: nat, s: ListState)
    requires Tells(d, s) && |d.blocks| == n
    ensures d.Valid() && d.Free() == Below(n) - {0, 1} - s.next.Keys && s.next.Keys <= Below(n) - {0, 1}
    ensures d.sb.freeBlocks == n - 2 - |s.next.Keys|
  {
    hide IsChain, Next, Image, Members, Below;
    MembersCount(d.chain);
    BelowSize(n);
    TwoParts(Below(n), {0, 1}, s.next.Keys);
    FirstTwo(n);
  }

  lemma FirstTwo(n: nat)
    requires n >= 2
    ensures {0, 1} <= Below(n)
  {
  }

  lemma TwoParts(all: set<nat>, a: set<nat>, b: set<nat>)
    requires a == {0, 1} && b <= all - a
    ensures a <= all ==> |all - a - b| == |all| - 2 - |b|
    ensures b == all - a - (all - a - b)
  {
    if a <= all {
      assert all == (all - a - b) + (a + b);
      assert |a + b| == |a| + |b|;
      assert |a| == 2;
    }
  }
}

/// What pairs of operations undo, and what each leaves alone.

module RoundTrip {
  import opened Wrappers
  import opened Bytes
  import opened Device
  import opened Superblock
  import opened Inodes
  import opened Volume
  import opened Bitmap
  import opened Ownership
  import opened FileData
  import opened DirEntries
  import opened Namespace
  import opened DirView
  import opened Directory
  import opened Invariant
  import opened Operations
  import opened Removal
  import opened Growth
  import opened FileIO
  import opened FileSystem

  /// Inodes outside the frame of an operation keep their bytes and their entries.
  lemma OthersKeep(s: Store, s': Store, X: set<nat>, n: nat)
    requires Owns(s) && Clean(s) && Frame(s, s', X) && Live(s, n) && n !in X
    ensures s'.inodes[n] == s.inodes[n] && NodeAt(s', n) == NodeAt(s, n)
    ensures !IsDir(s.inodes[n]) ==> Content(s', n) == Content(s, n)
    ensures Slots(s', s'.inodes[n]) == Slots(s, s.inodes[n])
  {
    hide ByteAt, FolderOf;
    assert Untouched(s, s', n);
    UntouchedFile(s, s', n);
    UntouchedSlots(s, s', n);
  }

  /// The written data is there, the gap in front of it is zero, the rest is as it was.
  lemma WrittenShape(c: seq<byte>, offset: nat, data: seq<byte>)
    ensures var r := Written(c, offset, data);
      && |r| == (if offset + |data| < |c| then |c| else offset + |data|)
      && r[offset..offset + |data|] == data
      && (offset <= |c| ==> r[..offset] == c[..offset])
      && (offset > |c| ==> r[..|c|] == c && r[|c|..offset] == Zeros(offset - |c|))
      && (offset + |data| < |c| ==> r[offset + |data|..] == c[offset + |data|..])
  {
    var r := Written(c, offset, data);
    if offset <= |c| {
      assert r[..offset] == c[..offset];
    } else {
      assert r[..|c|] == c;
      assert r[|c|..offset] == Zeros(offset - |c|);
    }
  }

  lemma EnterThenRemove(ns: Nodes, t: Tree, p: nat, name: Name, c: nat, node: Node)
    requires TreeOk(ns, t) && IsFolder(ns, p) && name !in ns[p].kids && c < |ns| && ns[c] == Free && c != p
    ensures var ns' := Enter(ns[c := node], p, name, c);
      && IsFolder(ns', p) && name in ns'[p].kids && ns'[p].kids[name].ino == c
      && Remove(ns', p, name, Free) == ns
      && Cut(Link(t, p, name, c), c) == t
  {
    var ns' := Enter(ns[c := node], p, name, c);
    var kids := ns[p].kids;
    assert kids[name := Target(c, KindOf(node))] - {name} == kids;
    assert Remove(ns', p, name, Free) == ns;
    assert !Attached(t, c);
    var t' := Link(t, p, name, c);
    assert t'.up - {c} == t.up;
    assert t'.depth - {c} == t.depth;
  }

  lemma SameCounter(v: Vol, v': Vol, g: Geometry)
    requires Sound(v, g) && Sound(v', g) && v'.alloc == v.alloc
    requires v'.sb == v.sb.(freeBlocks := v'.sb.freeBlocks)
    ensures v'.sb == v.sb
  {
  }

  lemma CreatedName(ns: Nodes, p: nat, name: Name, c: nat, ns': Nodes)
    requires IsFolder(ns, p) && c < |ns| && ns' == Enter(ns, p, name, c) && !IsDot(name) && p != c
    ensures Step(ns', p, name) == Some(c) && IsFolder(ns', p) && ns'[c] == ns[c]
  {
  }

  ghost predicate Offsets(writes: seq<(nat, seq<byte>)>) {
    forall k | 0 <= k < |writes| :: writes[k].0 + |writes[k].1| + PAGE_SIZE - 1 < PAGE_SIZE * 0x1_0000_0000
  }

  lemma OffsetAt(writes: seq<(nat, seq<byte>)>, k: nat)
    requires Offsets(writes) && k < |writes|
    ensures writes[k].0 + |writes[k].1| + PAGE_SIZE - 1 < PAGE_SIZE * 0x1_0000_0000
  {
  }

  /// The most pages any of the writes reaches.
  ghost function Top(writes: seq<(nat, seq<byte>)>): nat {
    if writes == [] then 0 else Max(Reached(writes[0]), Top(writes[1..]))
  }

  ghost function Reached(w: (nat, seq<byte>)): nat {
    if |w.1| == 0 then 0 else PagesFor(w.0 + |w.1|)
  }

  ghost function Max(a: nat, b: nat): nat {
    if a >= b then a else b
  }

  /// A file of k blocks takes all the writes: none goes past the size limit, and the
  /// blocks for the farthest one are there.
  ghost predicate Fit(free: nat, k: nat, writes: seq<(nat, seq<byte>)>) {
    Top(writes) <= MAX_FILE_BLOCKS && free >= BlocksNeeded(k, Top(writes))
  }

  /// The bytes after all the writes; a write of nothing does nothing.
  ghost function WrittenAll(c: seq<byte>, writes: seq<(nat, seq<byte>)>): seq<byte>
    decreases |writes|
  {
    if writes == [] then c
    else WrittenAll(if |writes[0].1| == 0 then c else Written(c, writes[0].0, writes[0].1), writes[1..])
  }

  /// Taking the first write leaves the question to the others.
  lemma FitStep(free: nat, k: nat, writes: seq<(nat, seq<byte>)>)
    requires writes != []
    ensures var pages := Reached(writes[0]);
      if WriteAnswer(free, k, writes[0].0, |writes[0].1|).Ok? then
        && free >= BlocksNeeded(k, pages)
        && (Fit(free, k, writes) <==> Fit(free - BlocksNeeded(k, pages), Max(k, pages), writes[1..]))
      else !Fit(free, k, writes)
    ensures |writes[0].1| == 0 ==> BlocksNeeded(k, Reached(writes[0])) == 0
  {
    var pages, rest := Reached(writes[0]), Top(writes[1..]);
    NeededInSteps(k, pages, rest);
  }

  lemma NeededInSteps(k: nat, a: nat, b: nat)
    ensures BlocksNeeded(k, Max(a, b)) == BlocksNeeded(k, a) + BlocksNeeded(Max(k, a), b)
  {
  }

  /// How many of the writes succeed before the first that does not.
  ghost function Successes(free: nat, k: nat, writes: seq<(nat, seq<byte>)>): (n: nat)
    ensures n <= |writes|
    decreases |writes|
  {
    if writes == [] || !WriteAnswer(free, k, writes[0].0, |writes[0].1|).Ok? then 0
    else
      FitStep(free, k, writes);
      var pages := Reached(writes[0]);
      1 + Successes(free - BlocksNeeded(k, pages), Max(k, pages), writes[1..])
  }

  /// All of them do exactly if the farthest one fits.
  lemma {:induction false} AllIffFit(free: nat, k: nat, writes: seq<(nat, seq<byte>)>)
    ensures Successes(free, k, writes) == |writes| <==> Fit(free, k, writes)
    decreases |writes|
  {
    hide Fit, WriteAnswer, Max;
    if writes == [] {
      NothingFits(free, k);
    } else {
      FitStep(free, k, writes);
      var pages := Reached(writes[0]);
      if WriteAnswer(free, k, writes[0].0, |writes[0].1|).Ok? {
        AllIffFit(free - BlocksNeeded(k, pages), Max(k, pages), writes[1..]);
      }
    }
  }

  lemma NothingFits(free: nat, k: nat)
    ensures Fit(free, k, [])
  {
  }

  /// A run of writes to one file, up to the first that fails.
  method WriteAll(fs: SimpleFS, c: u32, writes: seq<(nat, seq<byte>)>, now: i64, ghost p: nat) returns (done: nat)
    requires fs.Valid() && fs.IsFileHere(c) && Offsets(writes) && p < |V(fs.disk).s.inodes| && p != c as nat
    modifies fs, fs.disk
    ensures fs.Valid() && fs.Nodes() == old(fs.Nodes()) && fs.tree == old(fs.tree)
    ensures c < |V(fs.disk).s.inodes| == |old(V(fs.disk)).s.inodes|
    ensures done == Successes(old(fs.sb.freeBlocks), PagesFor(|old(Content(V(fs.disk).s, c))|), writes)
    ensures Content(V(fs.disk).s, c) == WrittenAll(old(Content(V(fs.disk).s, c)), writes[..done])
    ensures V(fs.disk).s.inodes[p] == old(V(fs.disk)).s.inodes[p]
    ensures V(fs.disk).sb == old(V(fs.disk)).sb.(freeBlocks := V(fs.disk).sb.freeBlocks)
    ensures done == |writes| ==> Rest(V(fs.disk), c) == old(Rest(V(fs.disk), c))
    ensures done < |writes| && fs.sb.freeBlocks > 0 ==> Reached(writes[done]) > MAX_FILE_BLOCKS
  {
    hide View, NodesOf, Owns, TreeOk, Sound, Frame, HeldSet, WroteFile, Rest, OnlyLeaked, WriteAnswer, BlocksNeeded,
         PagesFor, Content, RegularFile, FileOk, Written, WrittenAll, SafeSince, Max, Accounted, Offsets, Successes;
    ghost var v0 := V(fs.disk);
    ViewFacts(fs.disk.blocks, fs.disk.g);
    fs.OpenFile(c);
    NoWrites(v0.sb.freeBlocks, Content(v0.s, c), writes);
    done := 0;
    while done < |writes|
      invariant 0 <= done <= |writes|
      invariant fs.Valid() && fs.Nodes() == old(fs.Nodes()) && fs.tree == old(fs.tree)
      invariant |V(fs.disk).s.inodes| == |v0.s.inodes| && c < |v0.s.inodes|
      invariant Rest(V(fs.disk), c) == Rest(v0, c)
      invariant V(fs.disk).s.inodes[p] == v0.s.inodes[p]
      invariant V(fs.disk).sb == v0.sb.(freeBlocks := V(fs.disk).sb.freeBlocks)
      invariant Content(V(fs.disk).s, c) == WrittenAll(Content(v0.s, c), writes[..done])
      invariant Successes(v0.sb.freeBlocks, PagesFor(|Content(v0.s, c)|), writes) ==
                done + Successes(fs.sb.freeBlocks, PagesFor(|Content(V(fs.disk).s, c)|), writes[done..])
    {
      ghost var v := V(fs.disk);
      fs.OpenFile(c);
      OffsetAt(writes, done);
      NextSuccess(v.sb.freeBlocks, Content(v.s, c), writes, done);
      var wrote := fs.Write(c, writes[done].0, writes[done].1, now);
      ViewFacts(fs.disk.blocks, fs.disk.g);
      if !wrote.Ok? {
        AfterFailure(v, V(fs.disk), fs.disk.g, c);
        return;
      }
      if |writes[done].1| > 0 {
        AfterWrite(v, V(fs.disk), c, writes[done].0, writes[done].1, now, p);
      }
      OneWrite(Content(v0.s, c), Content(v.s, c), Content(V(fs.disk).s, c), writes, done);
      done := done + 1;
    }
    NoMoreWrites(fs.sb.freeBlocks, PagesFor(|Content(V(fs.disk).s, c)|), writes);
  }

  /// The write at hand succeeds, and the rest goes on from what it leaves; or none more does.
  lemma NextSuccess(free: nat, c: seq<byte>, writes: seq<(nat, seq<byte>)>, k: nat)
    requires k < |writes|
    ensures var have, pages, w := PagesFor(|c|), Reached(writes[k]), writes[k];
      var r := WriteAnswer(free, have, w.0, |w.1|);
      if r.Ok? then
        && free >= BlocksNeeded(have, pages) && (|w.1| == 0 ==> BlocksNeeded(have, pages) == 0)
        && Successes(free, have, writes[k..]) ==
           1 + Successes(free - BlocksNeeded(have, pages), Max(have, pages), writes[k + 1..])
      else Successes(free, have, writes[k..]) == 0 && (r == Err(EFBIG) ==> pages > MAX_FILE_BLOCKS)
  {
    assert writes[k..][1..] == writes[k + 1..];
    FitStep(free, PagesFor(|c|), writes[k..]);
  }

  lemma NoWrites(free: nat, c: seq<byte>, writes: seq<(nat, seq<byte>)>)
    ensures WrittenAll(c, writes[..0]) == c && writes[0..] == writes
  {
  }

  lemma NoMoreWrites(free: nat, k: nat, writes: seq<(nat, seq<byte>)>)
    ensures Successes(free, k, writes[|writes|..]) == 0
  {
  }

  /// A write without success leaves the bytes as they were.
  lemma AfterFailure(v: Vol, v': Vol, g: Geometry, c: nat)
    requires Sound(v, g) && Live(v.s, c) && (v' == v || OnlyLeaked(v, v', g))
    ensures |v'.s.inodes| == |v.s.inodes| && v'.s.inodes == v.s.inodes
    ensures !IsDir(v.s.inodes[c]) ==> Content(v'.s, c) == Content(v.s, c)
    ensures v'.sb == v.sb.(freeBlocks := v'.sb.freeBlocks)
  {
    hide Owns, Clean, Content, IsDir, Counted, HeldIn;
    if OnlyLeaked(v, v', g) {
      OthersKeep(v.s, v'.s, {}, c);
    }
  }

  lemma OneWrite(c0: seq<byte>, c: seq<byte>, c': seq<byte>, writes: seq<(nat, seq<byte>)>, k: nat)
    requires k < |writes| && c == WrittenAll(c0, writes[..k])
    requires c' == if |writes[k].1| == 0 then c else Written(c, writes[k].0, writes[k].1)
    ensures c' == WrittenAll(c0, writes[..k + 1])
    ensures PagesFor(|c'|) == Max(PagesFor(|c|), Reached(writes[k]))
  {
    hide Written;
    assert writes[..k + 1] == writes[..k] + [writes[k]];
    WrittenSnoc(c0, writes[..k], writes[k]);
    WrittenLength(c, writes[k].0, writes[k].1);
  }

  lemma WrittenLength(c: seq<byte>, offset: nat, data: seq<byte>)
    ensures |data| > 0 ==> PagesFor(|Written(c, offset, data)|) == Max(PagesFor(|c|), PagesFor(offset + |data|))
  {
  }

  lemma {:induction false} WrittenSnoc(c: seq<byte>, writes: seq<(nat, seq<byte>)>, w: (nat, seq<byte>))
    ensures var before := WrittenAll(c, writes);
      WrittenAll(c, writes + [w]) == if |w.1| == 0 then before else Written(before, w.0, w.1)
    decreases |writes|
  {
    hide Written;
    if writes == [] {
      assert [w][1..] == [] && writes + [w] == [w];
    } else {
      assert (writes + [w])[0] == writes[0] && (writes + [w])[1..] == writes[1..] + [w];
      WrittenSnoc(if |writes[0].1| == 0 then c else Written(c, writes[0].0, writes[0].1), writes[1..], w);
    }
  }

  /// create, writes, unlink: when the directory has a free slot, all of them succeed
  /// exactly if the name is new, an inode number is free and the writes fit, and then the
  /// bitmap, the counter and all names are as before.
  method CreateWriteUnlink(fs: SimpleFS, parent: u32, name: Name, writes: seq<(nat, seq<byte>)>, now: i64)
    returns (ok: bool)
    requires fs.Valid() && fs.IsDirHere(parent) && 1 <= |name| <= MAX_NAME_LEN && Offsets(writes)
    modifies fs, fs.disk
    ensures fs.Valid() && parent < |V(fs.disk).s.inodes| == |old(V(fs.disk)).s.inodes|
    ensures ok ==> fs.Nodes() == old(fs.Nodes()) && fs.tree == old(fs.tree)
    ensures old(HasSlot(Slots(V(fs.disk).s, V(fs.disk).s.inodes[parent]))) ==>
      && (ok <==>
        && Step(old(fs.Nodes()), parent, name).None? && !Exhausted(old(V(fs.disk)).s, FIRST_FILE, LAST_FILE)
        && Fit(old(fs.sb.freeBlocks), 0, writes))
      && (ok ==> V(fs.disk).alloc == old(V(fs.disk)).alloc && fs.sb == old(fs.sb))
  {
    hide View, NodesOf, Owns, TreeOk, Sound, Frame, HeldSet, Content, Enter, Remove, Link, Cut, Created, Removed, Step,
         Rest, Offsets, NamelessLeft, Fit, HasSlot, Slots, Exhausted, PagesFor, WrittenAll, Successes, Reached;
    ghost var v0, ns0, t0 := V(fs.disk), fs.Nodes(), fs.tree;
    ViewFacts(fs.disk.blocks, fs.disk.g);
    fs.OpenDir(parent);
    var made := fs.Create(parent, name, now, now);
    ViewFacts(fs.disk.blocks, fs.disk.g);
    if !made.Ok? {
      return false;
    }
    ghost var v1 := V(fs.disk);
    AfterCreate(v0, v1, fs.disk.g, t0, fs.tree, parent, name, made.value, now);
    var c: u32 := made.value;
    AllIffFit(fs.sb.freeBlocks, 0, writes);
    var done := WriteAll(fs, c, writes, now, parent);
    ViewFacts(fs.disk.blocks, fs.disk.g);
    if done < |writes| {
      return false;
    }
    ghost var v2 := V(fs.disk);
    var gone := fs.Unlink(parent, name, now);
    ViewFacts(fs.disk.blocks, fs.disk.g);
    ok := gone.Ok?;
    AfterUnlink(v0, v1, v2, V(fs.disk), fs.disk.g, t0, parent, name, c, now);
  }

  lemma AfterCreate(v0: Vol, v1: Vol, g: Geometry, t0: Tree, t: Tree, p: nat, name: Name, c: nat, now: i64)
    requires Sound(v0, g) && TreeOk(NodesOf(v0.s), t0) && Created(v0, v1, t0, t, p, name, c, now, now)
    ensures c < |v0.s.inodes| == |v1.s.inodes| && p < |v0.s.inodes| && p != c && t == Link(t0, p, name, c)
    ensures Rest(v1, c) == v1.alloc && v1.sb == v0.sb.(freeBlocks := v1.sb.freeBlocks)
    ensures IsFolder(NodesOf(v1.s), p) && Step(NodesOf(v1.s), p, name) == Some(c) && NodesOf(v1.s)[c] == File
    ensures FIRST_FILE <= c <= LAST_FILE && Attached(Link(t0, p, name, c), p) == Attached(t0, p)
    ensures Content(v1.s, c) == [] && PagesFor(0) == 0
    ensures HasSlot(Slots(v0.s, v0.s.inodes[p])) ==> v1.sb == v0.sb
  {
    hide Owns, TreeOk, Frame, Content, Clean, Counted, NodesOf, Describes, HeldIn, HasSlot, Slots;
    var ns := NodesOf(v0.s)[c := File];
    CreatedName(ns, p, name, c, NodesOf(v1.s));
  }

  lemma AfterWrite(v: Vol, v': Vol, c: nat, offset: nat, data: seq<byte>, now: i64, p: nat)
    requires WroteFile(v, v', c, offset, data, now) && p < |v.s.inodes| && p != c
    ensures Rest(v', c) == Rest(v, c) && v'.s.inodes[p] == v.s.inodes[p] && |v'.s.inodes| == |v.s.inodes|
    ensures v'.sb == v.sb.(freeBlocks := v'.sb.freeBlocks)
    ensures Content(v'.s, c) == Written(Content(v.s, c), offset, data)
  {
    hide Content, Written;
  }

  lemma AfterUnlink(v0: Vol, v1: Vol, v2: Vol, v3: Vol, g: Geometry, t0: Tree, p: nat, name: Name, c: nat, now: i64)
    requires Sound(v0, g) && Sound(v3, g) && TreeOk(NodesOf(v0.s), t0)
    requires Created(v0, v1, t0, Link(t0, p, name, c), p, name, c, now, now)
    requires NodesOf(v2.s) == NodesOf(v1.s) && |v2.s.inodes| == |v1.s.inodes| && Rest(v2, c) == v1.alloc
    requires v2.s.inodes[p] == v1.s.inodes[p] && v2.sb == v0.sb.(freeBlocks := v2.sb.freeBlocks)
    requires Removed(v2, v3, p, name, c, now)
    ensures NodesOf(v3.s) == NodesOf(v0.s) && Cut(Link(t0, p, name, c), c) == t0
    ensures |v3.s.inodes| == |v0.s.inodes|
    ensures HasSlot(Slots(v0.s, v0.s.inodes[p])) ==> v3.alloc == v0.alloc && v3.sb == v0.sb
  {
    hide Owns, Content, Clean, Counted, HeldSet, NodeAt, Describes, HasSlot, Slots;
    var ns := NodesOf(v0.s);
    assert ns[c] == Free by {
      assert ns[c] == NodeAt(v0.s, c);
      NotLiveIsFree(v0.s, c);
    }
    EnterThenRemove(ns, t0, p, name, c, File);
    if v3.alloc == v0.alloc {
      SameCounter(v0, v3, g);
    }
  }

  lemma NotLiveIsFree(s: Store, n: nat)
    requires !Live(s, n)
    ensures NodeAt(s, n) == Free
  {
  }

  /// mkdir, rmdir: likewise, exactly if the name is new and a number and a block are free.
  method MkDirRmDir(fs: SimpleFS, parent: u32, name: Name, now: i64) returns (ok: bool)
    requires fs.Valid() && fs.IsDirHere(parent) && 1 <= |name| <= MAX_NAME_LEN && !IsDot(name)
    modifies fs, fs.disk
    ensures fs.Valid() && parent < |V(fs.disk).s.inodes| == |old(V(fs.disk)).s.inodes|
    ensures ok ==> fs.Nodes() == old(fs.Nodes()) && fs.tree == old(fs.tree)
    ensures old(HasSlot(Slots(V(fs.disk).s, V(fs.disk).s.inodes[parent]))) ==>
      && (ok <==>
        && Step(old(fs.Nodes()), parent, name).None? && !Exhausted(old(V(fs.disk)).s, FIRST_DIR, LAST_DIR)
        && old(fs.sb.freeBlocks) > 0)
      && (ok ==> V(fs.disk).alloc == old(V(fs.disk)).alloc && fs.sb == old(fs.sb))
  {
    hide View, NodesOf, Owns, TreeOk, Sound, Frame, HeldSet, Enter, Remove, Link, Cut, MadeDir, Removed, Step, Rest,
         NamelessDir, HasSlot, Slots, Exhausted;
    ghost var v0, t0 := V(fs.disk), fs.tree;
    ViewFacts(fs.disk.blocks, fs.disk.g);
    fs.OpenDir(parent);
    var made := fs.MkDir(parent, name, now, now);
    ViewFacts(fs.disk.blocks, fs.disk.g);
    if !made.Ok? {
      return false;
    }
    ghost var v1 := V(fs.disk);
    AfterMkDir(v0, v1, fs.disk.g, t0, fs.tree, parent, name, made.value, now);
    var gone := fs.RmDir(parent, name, now);
    ViewFacts(fs.disk.blocks, fs.disk.g);
    ok := gone.Ok?;
    AfterRmDir(v0, v1, V(fs.disk), fs.disk.g, t0, parent, name, made.value, now);
  }

  lemma AfterMkDir(v0: Vol, v1: Vol, g: Geometry, t0: Tree, t: Tree, p: nat, name: Name, c: nat, now: i64)
    requires Sound(v0, g) && TreeOk(NodesOf(v0.s), t0) && MadeDir(v0, v1, t0, t, p, name, c, now, now)
    ensures c < |v0.s.inodes| == |v1.s.inodes| && p < |v0.s.inodes| && p != c && t == Link(t0, p, name, c)
    ensures v1.sb == v0.sb.(freeBlocks := v1.sb.freeBlocks)
    ensures IsFolder(NodesOf(v1.s), p) && Step(NodesOf(v1.s), p, name) == Some(c)
    ensures IsFolder(NodesOf(v1.s), c) && NodesOf(v1.s)[c].kids == map[]
    ensures Attached(Link(t0, p, name, c), p) == Attached(t0, p)
  {
    hide Owns, TreeOk, Frame, Clean, Counted, NodesOf, Describes, HeldIn, HeldSet, DirRecord;
    var ns := NodesOf(v0.s)[c := Folder(Target(c, 2), Target(p, 2), map[])];
    CreatedName(ns, p, name, c, NodesOf(v1.s));
  }

  lemma AfterRmDir(v0: Vol, v1: Vol, v3: Vol, g: Geometry, t0: Tree, p: nat, name: Name, c: nat, now: i64)
    requires Sound(v0, g) && Sound(v3, g) && TreeOk(NodesOf(v0.s), t0)
    requires MadeDir(v0, v1, t0, Link(t0, p, name, c), p, name, c, now, now) && Removed(v1, v3, p, name, c, now)
    ensures NodesOf(v3.s) == NodesOf(v0.s) && Cut(Link(t0, p, name, c), c) == t0
    ensures |v3.s.inodes| == |v0.s.inodes|
    ensures HasSlot(Slots(v0.s, v0.s.inodes[p])) ==> v3.alloc == v0.alloc && v3.sb == v0.sb
  {
    hide Owns, Clean, Counted, HeldSet, NodeAt, Describes, DirRecord, HasSlot, Slots;
    var ns := NodesOf(v0.s);
    NotLiveIsFree(v0.s, c);
    assert ns[c] == NodeAt(v0.s, c);
    EnterThenRemove(ns, t0, p, name, c, Folder(Target(c, 2), Target(p, 2), map[]));
    if v3.alloc == v0.alloc {
      SameCounter(v0, v3, g);
    }
  }
}

/// The file system as its users see it: a tree of names, the bytes of the files, owners,
/// modes and times, and of the blocks only how many each directory has and how many are free;
/// and what each request answers and does (src/fs.rs).

module Machine {
  import opened Wrappers
  import opened Bytes
  import opened Inodes
  import opened Ownership
  import opened DirEntries
  import opened Namespace
  import opened Growth
  import opened FileIO
  import opened FileSystem
  import opened Paging

  datatype Meta =
    Meta(mode: u16, uid: u16, gid: u16, nlink: u16, mtime: i64, atime: i64, ctime: i64)

  /// What a free inode has.
  const NO_META := Meta(0, 0, 0, 0, 0, 0, 0)

  /// S_IFREG | 0o644, owned by 1000, one link.
  function FileMeta(now: i64): Meta {
    Meta(0x81A4, 1000, 1000, 1, now, now, now)
  }

  /// S_IFDIR | 0o755, owned by 1000, two links.
  function DirMeta(now: i64): Meta {
    Meta(0x41ED, 1000, 1000, 2, now, now, now)
  }

  /// One node, byte string, owner, mode and times, and number of directory blocks per inode
  /// number, and the number of free blocks.
  datatype State =
    State(nodes: Nodes, bytes: seq<seq<byte>>, metas: seq<Meta>, dirBlocks: seq<nat>, free: nat)

  /// Requests name directories and files by paths, as a kernel resolves them.
  datatype Request =
    | DoCreate(dir: seq<Name>, name: Name)
    | DoMkDir(dir: seq<Name>, name: Name)
    | DoUnlink(dir: seq<Name>, name: Name)
    | DoRmDir(dir: seq<Name>, name: Name)
    | DoWrite(file: seq<Name>, offset: nat, data: seq<byte>)
    | DoRead(file: seq<Name>, offset: nat, size: nat)
    | DoList(dir: seq<Name>, cap: nat)
    | DoStat(path: seq<Name>)
    | DoSetAttr(path: seq<Name>, mode: Option<u32>)
    | DoRemount

  /// Refused is the kernel's answer to a request it does not pass on.
  datatype Answer =
    | Refused
    | Done
    | Made(ino: nat)
    | Wrote(count: nat)
    | Data(data: seq<byte>)
    | Entries(list: seq<ListedEntry>)
    | Attr(no: nat, meta: Meta, size: nat, blocks: nat)
    | Failed(errno: Errno)
    | Halted

  ghost predicate Even(a: State) {
    |a.bytes| == |a.nodes| == |a.metas| == |a.dirBlocks|
  }

  /// Inode c became a node with no bytes and so many directory blocks.
  ghost function With(a: State, c: nat, node: Node, meta: Meta, blocks: nat): State
    requires Even(a) && c < |a.nodes|
  {
    a.(nodes := a.nodes[c := node], bytes := a.bytes[c := []], metas := a.metas[c := meta],
       dirBlocks := a.dirBlocks[c := blocks])
  }

  ghost predicate LeastNumber(ns: Nodes, lo: nat, hi: nat, c: nat) {
    lo <= c <= hi && c < |ns| && ns[c] == Free && forall n: nat | lo <= n < c :: ns[n] != Free
  }

  ghost predicate NoNumber(ns: Nodes, lo: nat, hi: nat) {
    hi < |ns| && forall n: nat | lo <= n <= hi :: ns[n] != Free
  }

  /// The slots of the directory are more than its names and the two dots.
  ghost predicate HasGap(a: State, p: nat)
    requires Even(a) && IsFolder(a.nodes, p)
  {
    |a.nodes[p].kids| + 2 < 15 * a.dirBlocks[p]
  }

  /// The directory can take a name once `taken` blocks are gone.
  ghost predicate HasRoom(a: State, p: nat, taken: nat)
    requires Even(a) && IsFolder(a.nodes, p)
  {
    HasGap(a, p) || (a.dirBlocks[p] < 10 && a.free > taken)
  }

  /// A new inode that took `blocks` blocks is there, under no name.
  ghost predicate Nameless(a: State, a': State, c: nat, node: Node, meta: Meta, blocks: nat)
    requires Even(a)
  {
    && c < |a.nodes| && blocks <= a.free
    && a' == With(a, c, node, meta, blocks).(free := a.free - blocks)
  }

  /// Or under the name; a directory without a gap takes a block for it.
  ghost predicate Named(a: State, a': State, p: nat, name: Name, c: nat, node: Node, meta: Meta, blocks: nat,
                        stamp: i64)
    requires Even(a) && IsFolder(a.nodes, p)
  {
    var more := if HasGap(a, p) then 0 else 1;
    && c < |a.nodes| && p != c && blocks + more <= a.free
    && var b := With(a, c, node, meta, blocks);
      a' == b.(nodes := Enter(a.nodes[c := node], p, name, c),
               metas := b.metas[p := a.metas[p].(mtime := stamp)],
               dirBlocks := b.dirBlocks[p := a.dirBlocks[p] + more],
               free := a.free - blocks - more)
  }

  ghost predicate CreateSpec(a: State, p: nat, name: Name, now: i64, stamp: i64, r: Answer, a': State)
    requires Even(a) && IsFolder(a.nodes, p)
  {
    if Step(a.nodes, p, name).Some? then r == Failed(EEXIST) && a' == a
    else if NoNumber(a.nodes, 1000, 2000) then r == Failed(ENOSPC) && a' == a
    else if HasRoom(a, p, 0) then
      && r.Made? && LeastNumber(a.nodes, 1000, 2000, r.ino)
      && Named(a, a', p, name, r.ino, File, FileMeta(now), 0, stamp)
    else
      && r == Failed(ENOSPC)
      && exists c: nat :: LeastNumber(a.nodes, 1000, 2000, c) && Nameless(a, a', c, File, FileMeta(now), 0)
  }

  function EmptyDir(c: nat, p: nat): Node {
    Folder(Target(c, 2), Target(p, 2), map[])
  }

  ghost predicate MkDirSpec(a: State, p: nat, name: Name, now: i64, stamp: i64, r: Answer, a': State)
    requires Even(a) && IsFolder(a.nodes, p)
  {
    if Step(a.nodes, p, name).Some? then r == Failed(EEXIST) && a' == a
    else if NoNumber(a.nodes, 500, 900) || a.free == 0 then r == Failed(ENOSPC) && a' == a
    else if HasRoom(a, p, 1) then
      && r.Made? && LeastNumber(a.nodes, 500, 900, r.ino)
      && Named(a, a', p, name, r.ino, EmptyDir(r.ino, p), DirMeta(now), 1, stamp)
    else
      && r == Halted
      && exists c: nat :: LeastNumber(a.nodes, 500, 900, c) && Nameless(a, a', c, EmptyDir(c, p), DirMeta(now), 1)
  }

  /// The blocks an inode gives back.
  ghost function Holding(a: State, c: nat): nat
    requires Even(a) && c < |a.nodes|
  {
    if IsFolder(a.nodes, c) then a.dirBlocks[c] else Need(0, Pages(|a.bytes[c]|))
  }

  ghost predicate Gone(a: State, p: nat, name: Name, now: i64, r: Answer, a': State)
    requires Even(a) && IsFolder(a.nodes, p)
  {
    && r == Done && name in a.nodes[p].kids && a.nodes[p].kids[name].ino < |a.nodes|
    && var c := a.nodes[p].kids[name].ino;
      var b := With(a, c, Free, NO_META, 0);
      a' == b.(nodes := Remove(a.nodes, p, name, Free), metas := b.metas[p := a.metas[p].(mtime := now)],
               free := a.free + Holding(a, c))
  }

  ghost predicate UnlinkSpec(a: State, p: nat, name: Name, now: i64, r: Answer, a': State)
    requires Even(a) && IsFolder(a.nodes, p)
  {
    var c := Step(a.nodes, p, name);
    if c.None? then r == Failed(ENOENT) && a' == a
    else if IsFolder(a.nodes, c.value) then r == Failed(EISDIR) && a' == a
    else Gone(a, p, name, now, r, a')
  }

  ghost predicate RmDirSpec(a: State, p: nat, name: Name, now: i64, r: Answer, a': State)
    requires Even(a) && IsFolder(a.nodes, p)
  {
    var c := Step(a.nodes, p, name);
    if c.None? then r == Failed(ENOENT) && a' == a
    else if !IsFolder(a.nodes, c.value) then r == Failed(ENOTDIR) && a' == a
    else if a.nodes[c.value].kids != map[] then r == Failed(ENOTEMPTY) && a' == a
    else Gone(a, p, name, now, r, a')
  }

  /// A file has at most 20 blocks of 510 bytes. A write that runs out of space changes no
  /// file and leaves no block free.
  ghost predicate WriteSpec(a: State, n: nat, offset: nat, data: seq<byte>, now: i64, r: Answer, a': State)
    requires Even(a) && n < |a.nodes|
  {
    var have, top := Pages(|a.bytes[n]|), Pages(offset + |data|);
    if data == [] then r == Wrote(0) && a' == a
    else if offset + |data| > 10200 then r == Failed(EFBIG) && a' == a
    else if a.free >= Need(have, top) then
      && r == Wrote(|data|)
      && a' == a.(bytes := a.bytes[n := Written(a.bytes[n], offset, data)],
                  metas := a.metas[n := a.metas[n].(mtime := now, atime := now)],
                  free := a.free - Need(have, top))
    else
      && r == (if have <= 10 < top && a.free == 11 - have then Halted else Failed(ENOSPC))
      && a' == a.(free := 0)
  }

  ghost function Pages(bytes: nat): nat {
    (bytes + 509) / 510
  }

  ghost function Slice(c: seq<byte>, offset: nat, size: nat): seq<byte> {
    if offset >= |c| then [] else if offset + size <= |c| then c[offset..offset + size] else c[offset..]
  }

  ghost predicate SetAttrSpec(a: State, n: nat, mode: Option<u32>, now: i64, r: Answer, a': State)
    requires Even(a) && n < |a.nodes|
  {
    && r == Done
    && exists m: u16 ::
      ModeSet(a.metas[n].mode, mode, m) && a' == a.(metas := a.metas[n := a.metas[n].(mode := m, mtime := now)])
  }

  /// The kernel passes a request on a name only for a directory.
  ghost predicate DirRequest(a: State, p: Option<nat>) {
    p.Some? && IsFolder(a.nodes, p.value)
  }

  predicate Fitting(name: Name) {
    1 <= |name| <= 28
  }

  ghost predicate FileRequest(a: State, n: Option<nat>) {
    n.Some? && n.value < |a.nodes| && a.nodes[n.value].File?
  }

  ghost predicate OnCreate(a: State, dir: seq<Name>, name: Name, now: i64, stamp: i64, r: Answer, a': State)
    requires Even(a)
  {
    var p := Walk(a.nodes, ROOT, dir);
    if DirRequest(a, p) && Fitting(name) then CreateSpec(a, p.value, name, now, stamp, r, a')
    else r == Refused && a' == a
  }

  ghost predicate OnMkDir(a: State, dir: seq<Name>, name: Name, now: i64, stamp: i64, r: Answer, a': State)
    requires Even(a)
  {
    var p := Walk(a.nodes, ROOT, dir);
    if DirRequest(a, p) && Fitting(name) then MkDirSpec(a, p.value, name, now, stamp, r, a')
    else r == Refused && a' == a
  }

  ghost predicate OnUnlink(a: State, dir: seq<Name>, name: Name, now: i64, r: Answer, a': State)
    requires Even(a)
  {
    var p := Walk(a.nodes, ROOT, dir);
    if DirRequest(a, p) then UnlinkSpec(a, p.value, name, now, r, a') else r == Refused && a' == a
  }

  ghost predicate OnRmDir(a: State, dir: seq<Name>, name: Name, now: i64, r: Answer, a': State)
    requires Even(a)
  {
    var p := Walk(a.nodes, ROOT, dir);
    if DirRequest(a, p) && !IsDot(name) then RmDirSpec(a, p.value, name, now, r, a') else r == Refused && a' == a
  }

  ghost predicate OnWrite(a: State, file: seq<Name>, offset: nat, data: seq<byte>, now: i64, r: Answer, a': State)
    requires Even(a)
  {
    var n := Walk(a.nodes, ROOT, file);
    if FileRequest(a, n) && CanPass(offset, data) then WriteSpec(a, n.value, offset, data, now, r, a')
    else r == Refused && a' == a
  }

  ghost predicate OnRead(a: State, file: seq<Name>, offset: nat, size: nat, r: Answer)
    requires Even(a)
  {
    var n := Walk(a.nodes, ROOT, file);
    r == if FileRequest(a, n) then Data(Slice(a.bytes[n.value], offset, size)) else Refused
  }

  ghost predicate HasEntry(list: seq<ListedEntry>, name: Name, target: Target) {
    exists k ::
      0 <= k < |list| && list[k].name == name && list[k].ino == target.ino && list[k].isDir == (target.kind == 2)
  }

  /// Every name of the directory, the two dots included, exactly once, by counting.
  ghost predicate Lists(list: seq<ListedEntry>, node: Node)
    requires node.Folder?
  {
    && HasEntry(list, DOT, node.self) && HasEntry(list, DOTDOT, node.parent)
    && (forall name | name in node.kids :: HasEntry(list, name, node.kids[name]))
    && |list| == |node.kids| + 2
  }

  /// A directory is listed in replies of cap entries.
  ghost predicate OnList(a: State, dir: seq<Name>, cap: nat, r: Answer)
    requires Even(a)
  {
    var p := Walk(a.nodes, ROOT, dir);
    if DirRequest(a, p) && cap > 0 then r.Entries? && Lists(r.list, a.nodes[p.value]) else r == Refused
  }

  ghost predicate OnSetAttr(a: State, path: seq<Name>, mode: Option<u32>, now: i64, r: Answer, a': State)
    requires Even(a)
  {
    var n := Walk(a.nodes, ROOT, path);
    if n.Some? && n.value < |a.nodes| then SetAttrSpec(a, n.value, mode, now, r, a') else r == Refused && a' == a
  }

  /// The attributes of an inode; a directory is as long as its blocks.
  ghost predicate OnStat(a: State, path: seq<Name>, r: Answer)
    requires Even(a)
  {
    var n := Walk(a.nodes, ROOT, path);
    if n.None? || n.value >= |a.nodes| then r == Refused
    else if a.nodes[n.value].File? then
      r == Attr(n.value, a.metas[n.value], |a.bytes[n.value]|, Pages(|a.bytes[n.value]|))
    else r == Attr(n.value, a.metas[n.value], 510 * a.dirBlocks[n.value], a.dirBlocks[n.value])
  }

  /// The answer r and the next state a' fit the request, which reads the clock up to twice.
  ghost predicate Spec(a: State, q: Request, clock: (i64, i64), r: Answer, a': State)
    requires Even(a)
  {
    match q
    case DoCreate(dir, name) => OnCreate(a, dir, name, clock.0, clock.1, r, a')
    case DoMkDir(dir, name) => OnMkDir(a, dir, name, clock.0, clock.1, r, a')
    case DoUnlink(dir, name) => OnUnlink(a, dir, name, clock.0, r, a')
    case DoRmDir(dir, name) => OnRmDir(a, dir, name, clock.0, r, a')
    case DoWrite(file, offset, data) => OnWrite(a, file, offset, data, clock.0, r, a')
    case DoRead(file, offset, size) => a' == a && OnRead(a, file, offset, size, r)
    case DoList(dir, cap) => a' == a && OnList(a, dir, cap, r)
    case DoStat(path) => a' == a && OnStat(a, path, r)
    case DoSetAttr(path, mode) => OnSetAttr(a, path, mode, clock.0, r, a')
    case DoRemount => r == Done && a' == a
  }

  /// The kernel keeps offsets below the point where the cast to u32 would truncate.
  predicate CanPass(offset: nat, data: seq<byte>) {
    offset + |data| + 509 < 510 * 0x1_0000_0000
  }

  /// A write succeeds exactly if it ends within 10200 bytes and the blocks for it are free;
  /// then it wrote all of the data, which reads back. Otherwise no file changed.
  lemma ReadAfterWrite(a: State, a': State, b: State, file: seq<Name>, offset: nat, data: seq<byte>,
                       clock: (i64, i64), w: Answer, r: Answer)
    requires Even(a) && Even(a') && data != []
    requires FileRequest(a, Walk(a.nodes, ROOT, file)) && CanPass(offset, data)
    requires Spec(a, DoWrite(file, offset, data), clock, w, a')
    requires Spec(a', DoRead(file, offset, |data|), clock, r, b)
    ensures var n := Walk(a.nodes, ROOT, file).value;
      if offset + |data| <= 10200 && a.free >= Need(Pages(|a.bytes[n]|), Pages(offset + |data|)) then
        w == Wrote(|data|) && r == Data(data)
      else !w.Wrote? && a'.bytes == a.bytes && a'.nodes == a.nodes
  {
    hide Walk;
    var n := Walk(a.nodes, ROOT, file).value;
    var c := Written(a.bytes[n], offset, data);
    assert c[offset..offset + |data|] == data;
  }

  /// The whole run: each step from one state to the next.
  ghost predicate Trace(states: seq<State>, requests: seq<Request>, clock: seq<(i64, i64)>, answers: seq<Answer>) {
    && |states| == |requests| + 1 && |answers| == |requests| <= |clock|
    && (forall k | 0 <= k < |states| :: Even(states[k]))
    && forall k | 0 <= k < |requests| :: Spec(states[k], requests[k], clock[k], answers[k], states[k + 1])
  }
}

/// Directory entries, their 34-byte encoding, and a directory's slots as a finite map
/// from names (src/directory.rs:31-140).

module DirEntries {
  import opened Bytes
  import opened Device

  const MAX_NAME_LEN: nat := 28
  const DIR_ENTRY_SIZE: nat := 34
  const ENTRIES_PER_BLOCK: nat := 15 // PAGE_SIZE / DIR_ENTRY_SIZE

  type Name = seq<byte>

  const DOT: Name := [0x2E]
  const DOTDOT: Name := [0x2E, 0x2E]

  type NameField = f: seq<byte> | |f| == 28 witness seq(28, _ => 0)

  datatype DirEntry = DirEntry(inode: u32, entryType: byte, nameLen: byte, name: NameField)

  /// `DirEntry::new` cuts a name off after 28 bytes.
  function NewEntry(inode: u32, name: Name, isDir: bool): DirEntry {
    var len := Min(|name|, MAX_NAME_LEN);
    DirEntry(inode, if isDir then 2 else 1, len, Splice(Zeros(MAX_NAME_LEN), 0, name[..len]))
  }

  predicate IsEmpty(e: DirEntry) {
    e.nameLen == 0
  }

  function NameOf(e: DirEntry): Name {
    e.name[..Min(e.nameLen, MAX_NAME_LEN)]
  }

  /// A new entry is a live one with the given name exactly for names of 1 to 28 bytes.
  lemma NewEntryNamed(inode: u32, name: Name, isDir: bool)
    ensures !IsEmpty(NewEntry(inode, name, isDir)) && NameOf(NewEntry(inode, name, isDir)) == name
      <==> 1 <= |name| <= MAX_NAME_LEN
    ensures NewEntry(inode, name, isDir).nameLen <= MAX_NAME_LEN
  {
    var e := NewEntry(inode, name, isDir);
    var len := Min(|name|, MAX_NAME_LEN);
    SpliceReadsBack(Zeros(MAX_NAME_LEN), 0, name[..len]);
    assert NameOf(e) == name[..len];
    if |name| <= MAX_NAME_LEN {
      assert name[..len] == name;
    }
  }

  // ---------- codec ----------

  function Decode(data: seq<byte>): DirEntry
    requires |data| == DIR_ENTRY_SIZE
  {
    DirEntry(Read32(data[0..4]), data[4], data[5], data[6..34])
  }

  function Encode(e: DirEntry): (s: seq<byte>)
    ensures |s| == DIR_ENTRY_SIZE
  {
    LE32(e.inode) + [e.entryType, e.nameLen] + e.name
  }

  lemma DecodeEncode(e: DirEntry)
    ensures Decode(Encode(e)) == e
  {
    var s := Encode(e);
    assert s[0..4] == LE32(e.inode) && s[6..34] == e.name;
    Read32Back(e.inode);
  }

  method ToBytes(e: DirEntry) returns (buf: array<byte>)
    ensures fresh(buf) && buf[..] == Encode(e)
  {
    buf := new byte[DIR_ENTRY_SIZE](_ => 0);
    CopyInto(buf, 0, LE32(e.inode));
    buf[4] := e.entryType;
    buf[5] := e.nameLen;
    CopyInto(buf, 6, e.name);
  }

  function EntryAt(block: Block, j: nat): DirEntry
    requires j < ENTRIES_PER_BLOCK
  {
    Decode(block[DIR_ENTRY_SIZE * j..DIR_ENTRY_SIZE * j + DIR_ENTRY_SIZE])
  }

  lemma EntrySplice(block: Block, q: nat, e: DirEntry, j: nat)
    requires q < ENTRIES_PER_BLOCK && j < ENTRIES_PER_BLOCK
    ensures EntryAt(Splice(block, DIR_ENTRY_SIZE * q, Encode(e)), j) == if j == q then e else EntryAt(block, j)
  {
    if j == q {
      SpliceReadsBack(block, DIR_ENTRY_SIZE * q, Encode(e));
      DecodeEncode(e);
    } else {
      SpliceKeeps(block, DIR_ENTRY_SIZE * q, Encode(e), DIR_ENTRY_SIZE * j, DIR_ENTRY_SIZE * j + DIR_ENTRY_SIZE);
    }
  }

  lemma EntryCleared(block: Block, q: nat, j: nat)
    requires q < ENTRIES_PER_BLOCK && j < ENTRIES_PER_BLOCK
    ensures EntryAt(block[DIR_ENTRY_SIZE * q + 5 := 0], j)
      == if j == q then EntryAt(block, j).(nameLen := 0) else EntryAt(block, j)
  {
    var c := block[DIR_ENTRY_SIZE * q + 5 := 0];
    var lo := DIR_ENTRY_SIZE * j;
    if j == q {
      assert c[lo..lo + 34][0..4] == block[lo..lo + 34][0..4];
      assert c[lo..lo + 34][6..34] == block[lo..lo + 34][6..34];
    } else {
      assert c[lo..lo + 34] == block[lo..lo + 34];
    }
  }

  lemma ZeroEntry(j: nat)
    requires j < ENTRIES_PER_BLOCK
    ensures IsEmpty(EntryAt(Zeros(BLOCK_SIZE), j))
  {
  }

  // ---------- slots ----------

  predicate IsNamed(e: DirEntry, name: Name) {
    !IsEmpty(e) && NameOf(e) == name
  }

  /// No two live slots have the same name.
  ghost predicate WellFormed(ss: seq<DirEntry>) {
    && (forall q | 0 <= q < |ss| :: ss[q].nameLen <= MAX_NAME_LEN)
    && forall p, q | 0 <= p < |ss| && 0 <= q < |ss| && !IsEmpty(ss[p]) && !IsEmpty(ss[q]) ::
      NameOf(ss[p]) == NameOf(ss[q]) ==> p == q
  }

  /// The first slot from `from` on with this name, |ss| if there is none.
  function FindFrom(ss: seq<DirEntry>, name: Name, from: nat): (r: nat)
    requires from <= |ss|
    ensures from <= r <= |ss|
    ensures r < |ss| ==> IsNamed(ss[r], name)
    ensures forall q | from <= q < r :: !IsNamed(ss[q], name)
    decreases |ss| - from
  {
    if from == |ss| then from
    else if IsNamed(ss[from], name) then from
    else FindFrom(ss, name, from + 1)
  }

  function Find(ss: seq<DirEntry>, name: Name): nat {
    FindFrom(ss, name, 0)
  }

  /// The first free slot, |ss| if there is none.
  function FirstFree(ss: seq<DirEntry>): (r: nat)
    ensures r <= |ss|
    ensures r < |ss| ==> IsEmpty(ss[r])
    ensures forall q | 0 <= q < r :: !IsEmpty(ss[q])
  {
    if ss == [] || IsEmpty(ss[0]) then 0 else 1 + FirstFree(ss[1..])
  }

  datatype Target = Target(ino: nat, kind: byte)

  function TargetOf(e: DirEntry): Target {
    Target(e.inode, e.entryType)
  }

  ghost function Names(ss: seq<DirEntry>): set<Name> {
    set q | 0 <= q < |ss| && !IsEmpty(ss[q]) :: NameOf(ss[q])
  }

  function LookupName(ss: seq<DirEntry>, name: Name): Target {
    var q := Find(ss, name);
    if q < |ss| then TargetOf(ss[q]) else Target(0, 0)
  }

  /// The directory: every name listed and what the first slot of that name points at.
  ghost function Listing(ss: seq<DirEntry>): (m: map<Name, Target>)
    ensures m.Keys == Names(ss)
  {
    map name | name in Names(ss) :: LookupName(ss, name)
  }

  lemma ListingAt(ss: seq<DirEntry>, q: nat)
    requires WellFormed(ss) && q < |ss| && !IsEmpty(ss[q])
    ensures NameOf(ss[q]) in Listing(ss) && Listing(ss)[NameOf(ss[q])] == TargetOf(ss[q])
  {
    assert NameOf(ss[q]) in Names(ss);
    var p := Find(ss, NameOf(ss[q]));
    assert IsNamed(ss[q], NameOf(ss[q]));
  }

  /// `dir_find` finds a slot exactly for the names of the map.
  lemma FindInListing(ss: seq<DirEntry>, name: Name)
    ensures Find(ss, name) < |ss| <==> name in Listing(ss)
    ensures name in Listing(ss) ==> Listing(ss)[name] == TargetOf(ss[Find(ss, name)])
  {
    if name in Names(ss) {
      var q :| 0 <= q < |ss| && !IsEmpty(ss[q]) && NameOf(ss[q]) == name;
      assert IsNamed(ss[q], name);
    }
  }

  lemma SameListing(ss: seq<DirEntry>, m: map<Name, Target>)
    requires WellFormed(ss) && Names(ss) == m.Keys
    requires forall q | 0 <= q < |ss| && !IsEmpty(ss[q]) && NameOf(ss[q]) in m :: m[NameOf(ss[q])] == TargetOf(ss[q])
    ensures Listing(ss) == m
  {
    forall name | name in m
      ensures Listing(ss)[name] == m[name]
    {
      FindInListing(ss, name);
      assert IsNamed(ss[Find(ss, name)], name);
    }
  }

  /// Filling a free slot with a new name is map insertion.
  lemma ListingInsert(ss: seq<DirEntry>, q: nat, e: DirEntry)
    requires WellFormed(ss) && q < |ss| && IsEmpty(ss[q])
    requires !IsEmpty(e) && e.nameLen <= MAX_NAME_LEN && NameOf(e) !in Listing(ss)
    ensures WellFormed(ss[q := e])
    ensures Listing(ss[q := e]) == Listing(ss)[NameOf(e) := TargetOf(e)]
  {
    var tt := ss[q := e];
    var m := Listing(ss)[NameOf(e) := TargetOf(e)];
    forall p | 0 <= p < |ss| && p != q && !IsEmpty(tt[p])
      ensures tt[p] == ss[p] && NameOf(tt[p]) != NameOf(e) && NameOf(tt[p]) in Listing(ss)
      ensures m[NameOf(tt[p])] == TargetOf(tt[p])
    {
      ListingAt(ss, p);
    }
    assert tt[q] == e;
    NamesInsert(ss, q, e);
    SameListing(tt, m);
  }

  lemma NamesInsert(ss: seq<DirEntry>, q: nat, e: DirEntry)
    requires q < |ss| && IsEmpty(ss[q]) && !IsEmpty(e)
    ensures Names(ss[q := e]) == Names(ss) + {NameOf(e)}
  {
    var tt := ss[q := e];
    forall name | name in Names(ss)
      ensures name in Names(tt)
    {
      var p :| 0 <= p < |ss| && !IsEmpty(ss[p]) && NameOf(ss[p]) == name;
      assert tt[p] == ss[p];
    }
    assert tt[q] == e;
    forall name | name in Names(tt)
      ensures name in Names(ss) + {NameOf(e)}
    {
      var p :| 0 <= p < |tt| && !IsEmpty(tt[p]) && NameOf(tt[p]) == name;
      assert p == q || tt[p] == ss[p];
    }
  }

  /// Clearing the name length of a slot is map deletion.
  lemma ListingDelete(ss: seq<DirEntry>, q: nat)
    requires WellFormed(ss) && q < |ss| && !IsEmpty(ss[q])
    ensures var tt := ss[q := ss[q].(nameLen := 0)];
      WellFormed(tt) && Listing(tt) == Listing(ss) - {NameOf(ss[q])}
  {
    var tt := ss[q := ss[q].(nameLen := 0)];
    DeletedSlots(ss, q);
    assert tt[q := ss[q]] == ss;
    ListingInsert(tt, q, ss[q]);
    InsertThenDelete(Listing(tt), NameOf(ss[q]), TargetOf(ss[q]));
  }

  lemma InsertThenDelete(m: map<Name, Target>, name: Name, target: Target)
    requires name !in m
    ensures m[name := target] - {name} == m
  {
  }

  lemma DeletedSlots(ss: seq<DirEntry>, q: nat)
    requires WellFormed(ss) && q < |ss| && !IsEmpty(ss[q])
    ensures var tt := ss[q := ss[q].(nameLen := 0)];
      WellFormed(tt) && NameOf(ss[q]) !in Names(tt)
  {
  }

  /// Free slots behind the others change nothing.
  lemma ListingPadded(ss: seq<DirEntry>, more: seq<DirEntry>)
    requires WellFormed(ss) && forall q | 0 <= q < |more| :: IsEmpty(more[q])
    ensures WellFormed(ss + more) && Listing(ss + more) == Listing(ss)
  {
    var tt := ss + more;
    forall p | 0 <= p < |tt| && !IsEmpty(tt[p])
      ensures p < |ss| && tt[p] == ss[p]
      ensures NameOf(tt[p]) in Listing(ss) && Listing(ss)[NameOf(tt[p])] == TargetOf(tt[p])
    {
      ListingAt(ss, p);
    }
    forall name | name in Names(ss)
      ensures name in Names(tt)
    {
      var p :| 0 <= p < |ss| && !IsEmpty(ss[p]) && NameOf(ss[p]) == name;
      assert tt[p] == ss[p];
    }
    SameListing(tt, Listing(ss));
  }

  // ---------- enumeration ----------

  /// The live entries in slot order, as `dir_lookup` collects them.
  function LiveEntries(ss: seq<DirEntry>): (r: seq<DirEntry>)
    ensures |r| <= |ss|
  {
    if ss == [] then []
    else LiveEntries(ss[..|ss| - 1]) + (if IsEmpty(ss[|ss| - 1]) then [] else [ss[|ss| - 1]])
  }

  /// The enumeration goes slot by slot, in order, over those whose name is not empty.
  lemma {:induction false} LiveEntriesInOrder(a: seq<DirEntry>, b: seq<DirEntry>)
    ensures LiveEntries(a + b) == LiveEntries(a) + LiveEntries(b)
    ensures |b| == 1 ==> LiveEntries(b) == if b[0].nameLen == 0 then [] else b
    decreases |b|
  {
    hide LiveEntries;
    if b == [] {
      assert a + b == a && LiveEntries(b) == [];
    } else {
      var front, e := b[..|b| - 1], b[|b| - 1];
      LiveEntriesInOrder(a, front);
      LiveEntriesSnoc(a, front, e, b);
      LiveEntriesSnoc([], front, e, b);
      JoinSnoc(LiveEntries(a), LiveEntries(front), if IsEmpty(e) then [] else [e]);
      assert |b| == 1 ==> front == [] && b == [e];
    }
  }

  lemma JoinSnoc<T>(a: seq<T>, b: seq<T>, c: seq<T>)
    ensures (a + b) + c == a + (b + c)
  {
  }

  lemma LiveEntriesSnoc(a: seq<DirEntry>, front: seq<DirEntry>, e: DirEntry, b: seq<DirEntry>)
    requires b == front + [e]
    ensures LiveEntries(a + b) == LiveEntries(a + front) + if IsEmpty(e) then [] else [e]
    ensures a == [] ==> a + b == b && a + front == front
  {
    assert (a + b)[..|a + b| - 1] == a + front;
  }

  lemma {:induction false} LiveEntriesMembers(ss: seq<DirEntry>)
    ensures forall e :: e in LiveEntries(ss) <==> e in ss && !IsEmpty(e)
  {
    if ss != [] {
      LiveEntriesMembers(ss[..|ss| - 1]);
      assert ss == ss[..|ss| - 1] + [ss[|ss| - 1]];
    }
  }

  /// Enumeration yields every name of the map exactly once.
  lemma {:induction false} LiveEntriesCount(ss: seq<DirEntry>)
    requires WellFormed(ss)
    ensures |LiveEntries(ss)| == |Listing(ss)|
  {
    if ss == [] {
      assert Names(ss) == {};
    } else {
      var front, last := ss[..|ss| - 1], ss[|ss| - 1];
      LiveEntriesCount(front);
      ListingSnoc(front, last, ss);
    }
  }

  lemma ListingSnoc(front: seq<DirEntry>, last: DirEntry, ss: seq<DirEntry>)
    requires WellFormed(ss) && ss == front + [last]
    ensures WellFormed(front)
    ensures |Listing(ss)| == |Listing(front)| + if IsEmpty(last) then 0 else 1
  {
    forall q | 0 <= q < |front| ensures front[q] == ss[q] {
    }
    if IsEmpty(last) {
      ListingPadded(front, [last]);
    } else {
      assert ss[|front|] == last;
      var blank := front + [last.(nameLen := 0)];
      ListingPadded(front, [last.(nameLen := 0)]);
      ListingInsert(blank, |front|, last);
      assert blank[|front| := last] == ss;
    }
  }
}

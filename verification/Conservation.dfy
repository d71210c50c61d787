/// Every block is accounted for: system area, files, directories and leaks add up.

module Conservation {
  import opened Bytes
  import opened Device
  import opened Superblock
  import opened Inodes
  import opened Volume
  import opened Allocator
  import opened Bitmap
  import opened Ownership
  import opened FileData
  import opened DirEntries
  import opened Namespace
  import opened DirView
  import opened Invariant
  import opened Operations
  import opened Removal
  import opened Growth
  import opened FileIO
  import opened FileSystem

  /// The blocks of an inode, told from its size alone when it is a file: one per 510
  /// bytes, and one more past 5100 bytes.
  ghost function Usage(i: Inode): nat {
    if !IsLive(i) then 0
    else if IsDir(i) then i.blockCount
    else (i.size + 509) / 510 + if i.size > 5100 then 1 else 0
  }

  ghost function TotalUsage(inodes: seq<Inode>): nat {
    if inodes == [] then 0 else TotalUsage(inodes[..|inodes| - 1]) + Usage(inodes[|inodes| - 1])
  }

  lemma {:induction false} HeldBelowCount(s: Store, n: nat, j: nat)
    requires Owns(s) && Live(s, n) && j <= s.inodes[n].blockCount
    ensures |HeldBelow(s, n, j)| == j
  {
    if j > 0 {
      HeldBelowCount(s, n, j - 1);
      assert Shape(s.inodes[n]);
      HeldBelowMembers(s, n, j - 1);
      assert Holds(s, n, j - 1);
      forall k: nat | k < j - 1 ensures Held(s, n, k) != Held(s, n, j - 1) {
        assert Holds(s, n, k);
      }
    }
  }

  /// An inode holds as many blocks as its size says.
  lemma HeldSetCount(s: Store, n: nat)
    requires Owns(s) && Clean(s) && n < |s.inodes|
    ensures |HeldSet(s, n)| == Usage(s.inodes[n])
  {
    hide ByteAt;
    var i := s.inodes[n];
    if Live(s, n) {
      HeldSetParts(s, n);
      HeldBelowCount(s, n, i.blockCount);
      assert Shape(i);
      HeldBelowMembers(s, n, i.blockCount);
      if i.indirect != 0 {
        assert Holds(s, n, INDIRECT_SLOT) && Held(s, n, INDIRECT_SLOT) == i.indirect;
        forall k: nat | k < i.blockCount ensures Held(s, n, k) != i.indirect {
          assert Holds(s, n, k);
        }
      }
    } else {
      assert HeldSet(s, n) == {};
    }
  }

  ghost function HeldByFirst(s: Store, m: nat): set<nat>
    requires m <= |s.inodes|
  {
    if m == 0 then {} else HeldByFirst(s, m - 1) + HeldSet(s, m - 1)
  }

  lemma {:induction false} HeldByFirstMembers(s: Store, m: nat)
    requires m <= |s.inodes|
    ensures forall b | b in HeldByFirst(s, m) :: exists n: nat, k: nat :: n < m && Holds(s, n, k) && Held(s, n, k) == b
    ensures forall n: nat | n < m :: HeldSet(s, n) <= HeldByFirst(s, m)
  {
    if m > 0 {
      HeldByFirstMembers(s, m - 1);
      forall b | b in HeldByFirst(s, m)
        ensures exists n: nat, k: nat :: n < m && Holds(s, n, k) && Held(s, n, k) == b
      {
        if b in HeldByFirst(s, m - 1) {
          var n: nat, k: nat :| n < m - 1 && Holds(s, n, k) && Held(s, n, k) == b;
        } else {
          var k: nat :| k <= INDIRECT_SLOT && Holds(s, m - 1, k) && Held(s, m - 1, k) == b;
        }
      }
    }
  }

  lemma {:induction false} HeldByFirstCount(s: Store, m: nat)
    requires Owns(s) && Clean(s) && m <= |s.inodes|
    ensures |HeldByFirst(s, m)| == TotalUsage(s.inodes[..m])
  {
    hide Usage, Clean, Owns, HeldSet;
    if m > 0 {
      HeldByFirstCount(s, m - 1);
      HeldSetCount(s, m - 1);
      DisjointFromFirst(s, m - 1);
      var front := s.inodes[..m];
      assert front[..m - 1] == s.inodes[..m - 1] && front[m - 1] == s.inodes[m - 1];
      assert TotalUsage(front) == TotalUsage(front[..m - 1]) + Usage(front[m - 1]);
    }
  }

  lemma DisjointFromFirst(s: Store, m: nat)
    requires Owns(s) && m < |s.inodes|
    ensures HeldByFirst(s, m) !! HeldSet(s, m)
  {
    HeldByFirstMembers(s, m);
  }

  lemma AllHeldIsFirst(s: Store)
    requires Owns(s)
    ensures AllHeld(s) == HeldByFirst(s, |s.inodes|)
  {
    HeldByFirstMembers(s, |s.inodes|);
    forall b | b in AllHeld(s) ensures b in HeldByFirst(s, |s.inodes|) {
      var n: nat, k: nat :| n < |s.inodes| && k <= INDIRECT_SLOT && Holds(s, n, k) && Held(s, n, k) == b;
      assert b in HeldSet(s, n);
    }
    forall b | b in HeldByFirst(s, |s.inodes|) ensures b in AllHeld(s) {
      var n: nat, k: nat :| n < |s.inodes| && Holds(s, n, k) && Held(s, n, k) == b;
      assert Shape(s.inodes[n]);
    }
  }

  /// The blocks in use are those of the system area, those the sizes of the live inodes
  /// ask for, and the leaked ones.
  lemma BlocksConserved(v: Vol, g: Geometry)
    requires Sound(v, g) && forall b | b in v.s.data :: b >= g.DataStart()
    ensures g.maxBlocks - v.sb.freeBlocks == g.DataStart() + TotalUsage(v.s.inodes) + |Leaked(v, g)|
  {
    hide Clean, Describes;
    AllHeldIsFirst(v.s);
    HeldByFirstCount(v.s, |v.s.inodes|);
    assert v.s.inodes[..|v.s.inodes|] == v.s.inodes;
    BelowSize(g.DataStart());
    HeldIsData(v);
    ThreeParts(v.alloc, Below(g.DataStart()), AllHeld(v.s));
  }

  lemma HeldIsData(v: Vol)
    requires Owns(v.s) && HeldIn(v.s, v.alloc)
    ensures forall b | b in AllHeld(v.s) :: b in v.s.data && b in v.alloc
  {
  }

  lemma ThreeParts(all: set<nat>, a: set<nat>, b: set<nat>)
    requires a <= all && b <= all && a !! b
    ensures |all| == |a| + |b| + |all - a - b|
  {
    assert all == a + b + (all - a - b);
    assert |a + b| == |a| + |b|;
  }

  /// The shape of every regular file.
  lemma FileShape(v: Vol, g: Geometry, n: nat)
    requires Sound(v, g) && Live(v.s, n) && !IsDir(v.s.inodes[n])
    ensures var i := v.s.inodes[n];
      && i.blockCount == (i.size + 509) / 510 <= 20
      && (i.indirect != 0 <==> i.size > 5100)
  {
    assert Shape(v.s.inodes[n]);
  }

  // ---------- which operations leak ----------

  /// What two inodes do not account for, of the blocks in use.
  ghost function RestOfTwo(v: Vol, a: nat, b: nat): set<nat>
    requires a < |v.s.inodes| && b < |v.s.inodes|
  {
    v.alloc - HeldSet(v.s, a) - HeldSet(v.s, b)
  }

  /// An operation on two inodes that keeps this remainder leaks nothing and mends nothing.
  lemma LeaksKept(v: Vol, v': Vol, g: Geometry, a: nat, b: nat)
    requires Owns(v.s) && Owns(v'.s) && a < |v.s.inodes| && b < |v.s.inodes|
    requires Frame(v.s, v'.s, {a, b}) && RestOfTwo(v', a, b) == RestOfTwo(v, a, b)
    ensures Leaked(v', g) == Leaked(v, g)
  {
    hide Owns;
    var o, o' := HeldByOthers(v.s, a, b), HeldByOthers(v'.s, a, b);
    OthersPart(v.s, a, b);
    OthersPart(v'.s, a, b);
    SameOthers(v.s, v'.s, a, b);
    forall x ensures x in Leaked(v, g) <==> x in RestOfTwo(v, a, b) && x !in Below(g.DataStart()) && x !in o {
    }
    forall x ensures x in Leaked(v', g) <==> x in RestOfTwo(v', a, b) && x !in Below(g.DataStart()) && x !in o' {
    }
  }

  ghost function HeldByOthers(s: Store, a: nat, b: nat): set<nat> {
    set n: nat, k: nat | n < |s.inodes| && k <= INDIRECT_SLOT && n != a && n != b && Holds(s, n, k) :: Held(s, n, k)
  }

  lemma OthersPart(s: Store, a: nat, b: nat)
    requires Owns(s) && a < |s.inodes| && b < |s.inodes|
    ensures AllHeld(s) == HeldByOthers(s, a, b) + HeldSet(s, a) + HeldSet(s, b)
  {
    hide Owns, Held, Holds;
    var o := HeldByOthers(s, a, b);
    forall x | x in AllHeld(s) ensures x in o + HeldSet(s, a) + HeldSet(s, b) {
      var n: nat, k: nat :| n < |s.inodes| && k <= INDIRECT_SLOT && Holds(s, n, k) && Held(s, n, k) == x;
      assert x in HeldSet(s, n);
    }
    forall x | x in o ensures x in AllHeld(s) {
      var n: nat, k: nat :|
        n < |s.inodes| && k <= INDIRECT_SLOT && n != a && n != b && Holds(s, n, k) && Held(s, n, k) == x;
    }
    forall x | x in HeldSet(s, a) ensures x in AllHeld(s) {
      var k: nat :| k <= INDIRECT_SLOT && Holds(s, a, k) && Held(s, a, k) == x;
    }
    forall x | x in HeldSet(s, b) ensures x in AllHeld(s) {
      var k: nat :| k <= INDIRECT_SLOT && Holds(s, b, k) && Held(s, b, k) == x;
    }
  }

  lemma SameOthers(s: Store, s': Store, a: nat, b: nat)
    requires Frame(s, s', {a, b})
    ensures HeldByOthers(s', a, b) == HeldByOthers(s, a, b)
  {
    forall n: nat, k: nat | n != a && n != b
      ensures Holds(s', n, k) <==> Holds(s, n, k)
      ensures Holds(s, n, k) ==> Held(s', n, k) == Held(s, n, k)
    {
      if Holds(s, n, k) {
        assert Untouched(s, s', n);
      }
    }
  }

  lemma DeadHoldsNothing(s: Store, n: nat)
    requires n < |s.inodes| && !Live(s, n)
    ensures HeldSet(s, n) == {}
  {
  }

  /// Operations that succeed leak nothing, and neither does removal.
  lemma WriteLeaksNothing(v: Vol, v': Vol, g: Geometry, n: nat, offset: nat, data: seq<byte>, now: i64)
    requires Owns(v.s) && Owns(v'.s) && WroteFile(v, v', n, offset, data, now)
    ensures Leaked(v', g) == Leaked(v, g)
  {
    hide Owns, HeldSet, Frame, Leaked, Content, Written;
    assert {n, n} == {n};
    LeaksKept(v, v', g, n, n);
  }

  lemma CreateLeaksNothing(v: Vol, v': Vol, g: Geometry, t: Tree, t': Tree, p: nat, name: Name, c: nat, now: i64,
                           stamp: i64)
    requires Owns(v.s) && Owns(v'.s) && Created(v, v', t, t', p, name, c, now, stamp)
    ensures Leaked(v', g) == Leaked(v, g)
  {
    hide Owns, HeldSet, Frame, Leaked, Content, NodesOf, NodeAt, NewFile, Enter, Link;
    DeadHoldsNothing(v.s, c);
    assert RestOfTwo(v', c, p) == Rest(v', p) && RestOfTwo(v, c, p) == Rest(v, p);
    LeaksKept(v, v', g, c, p);
  }

  lemma MkDirLeaksNothing(v: Vol, v': Vol, g: Geometry, t: Tree, t': Tree, p: nat, name: Name, c: nat, now: i64,
                          stamp: i64)
    requires Owns(v.s) && Owns(v'.s) && MadeDir(v, v', t, t', p, name, c, now, stamp)
    ensures Leaked(v', g) == Leaked(v, g)
  {
    hide Owns, HeldSet, Frame, Leaked, Content, NodesOf, NodeAt, DirRecord, Enter, Link;
    DeadHoldsNothing(v.s, c);
    assert RestOfTwo(v', c, p) == RestOfTwo(v, c, p);
    LeaksKept(v, v', g, c, p);
  }

  lemma RemovalLeaksNothing(v: Vol, v': Vol, g: Geometry, p: nat, name: Name, c: nat, now: i64)
    requires Owns(v.s) && Owns(v'.s) && Removed(v, v', p, name, c, now)
    ensures Leaked(v', g) == Leaked(v, g)
  {
    hide Owns, HeldSet, Frame, Leaked, NodesOf, NodeAt, Remove;
    DeadHoldsNothing(v'.s, c);
    LeaksKept(v, v', g, p, c);
  }
}

/// Directory listings in pages (src/fs.rs:160-181).

module Paging {
  import opened DirEntries

  /// What a reply holds of an entry: the cookie is the offset to resume at.
  datatype ListedEntry = ListedEntry(ino: nat, cookie: nat, isDir: bool, name: Name)

  function Listed(e: DirEntry, at: nat): ListedEntry {
    ListedEntry(e.inode, at + 1, e.entryType == 2, NameOf(e))
  }

  /// The whole listing.
  function ListedAll(entries: seq<DirEntry>): (r: seq<ListedEntry>)
    ensures |r| == |entries|
  {
    seq(|entries|, k requires 0 <= k < |entries| => Listed(entries[k], k))
  }

  function Window<T>(all: seq<T>, offset: nat, cap: nat): seq<T> {
    if offset >= |all| then []
    else if offset + cap <= |all| then all[offset..offset + cap]
    else all[offset..]
  }

  /// The entries from an offset on, at most cap of them.
  function Page(entries: seq<DirEntry>, offset: nat, cap: nat): seq<ListedEntry> {
    Window(ListedAll(entries), offset, cap)
  }

  /// A page has the entries from the offset on, as many as fit, each with the number, the
  /// kind and the name in its slot, and a cookie one past it.
  lemma PageEntries(entries: seq<DirEntry>, offset: nat, cap: nat)
    ensures var page := Page(entries, offset, cap);
      && |page| == (if offset >= |entries| then 0 else if offset + cap <= |entries| then cap else |entries| - offset)
      && forall k | 0 <= k < |page| :: var e := entries[offset + k];
        page[k] ==
          ListedEntry(e.inode, offset + k + 1, e.entryType == 2, e.name[..if e.nameLen < 28 then e.nameLen else 28])
  {
  }

  lemma ListedPrefix(entries: seq<DirEntry>, n: nat)
    requires n <= |entries|
    ensures ListedAll(entries[..n]) == ListedAll(entries)[..n]
  {
  }

  lemma PageNext(entries: seq<DirEntry>, at: nat, offset: nat, cap: nat)
    requires at < |entries|
    ensures var before, after := Page(entries[..at], offset, cap), Page(entries[..at + 1], offset, cap);
      after == if at >= offset && |before| < cap then before + [Listed(entries[at], at)] else before
  {
    ListedPrefix(entries, at);
    ListedPrefix(entries, at + 1);
    assert ListedAll(entries)[..at + 1] == ListedAll(entries)[..at] + [Listed(entries[at], at)];
  }

  lemma PageFull(entries: seq<DirEntry>, at: nat, offset: nat, cap: nat)
    requires offset <= at <= |entries| && |Page(entries[..at], offset, cap)| == cap
    ensures Page(entries[..at], offset, cap) == Page(entries, offset, cap)
  {
    ListedPrefix(entries, at);
  }

  /// What a reader collects who resumes at the cookie of the last entry of each reply and
  /// stops at the first empty one.
  function Collect(entries: seq<DirEntry>, offset: nat, caps: seq<nat>): seq<ListedEntry>
    decreases |caps|
  {
    if caps == [] then []
    else
      var page := Page(entries, offset, caps[0]);
      if page == [] then [] else page + Collect(entries, page[|page| - 1].cookie, caps[1..])
  }

  /// Whatever the capacities of the replies, as long as each takes an entry, the pages make
  /// up the rest of the listing: every live entry once, in slot order. At most one reply
  /// per entry is needed.
  lemma {:induction false} PagesMakeListing(entries: seq<DirEntry>, offset: nat, caps: seq<nat>)
    requires offset <= |entries| && |caps| >= |entries| - offset
    requires forall k | 0 <= k < |caps| :: caps[k] >= 1
    ensures Collect(entries, offset, caps) == ListedAll(entries)[offset..]
    decreases |caps|
  {
    hide Page, ListedAll;
    if caps != [] {
      PageShape(entries, offset, caps[0]);
      if offset < |entries| {
        var page := Page(entries, offset, caps[0]);
        PagesMakeListing(entries, offset + |page|, caps[1..]);
      }
    }
  }

  lemma WindowShape<T>(all: seq<T>, offset: nat, cap: nat)
    requires offset <= |all| && cap >= 1
    ensures var page := Window(all, offset, cap);
      && (page == [] <==> offset == |all|)
      && offset + |page| <= |all| && all[offset..] == page + all[offset + |page|..]
      && (page != [] ==> page[|page| - 1] == all[offset + |page| - 1])
  {
  }

  lemma PageShape(entries: seq<DirEntry>, offset: nat, cap: nat)
    requires offset <= |entries| && cap >= 1
    ensures var page, all := Page(entries, offset, cap), ListedAll(entries);
      && (page == [] <==> offset == |entries|)
      && offset + |page| <= |all| && all[offset..] == page + all[offset + |page|..]
      && (page != [] ==> page[|page| - 1].cookie == offset + |page|)
  {
    hide Window, NameOf;
    WindowShape(ListedAll(entries), offset, cap);
  }
}

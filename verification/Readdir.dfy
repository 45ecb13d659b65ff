/**
 Directory listing through FUSE: `readdir_async` builds the entries and skips to the asked
 offset (crates/racfs-fuse/src/async_fs.rs:469-499), and the reply loop adds entries until the
 reply buffer refuses one (async_fs.rs:897-903, crates/racfs-fuse/src/blocking_adapter.rs:86-95).
 The kernel resumes at the offset of the last entry it accepted and stops at an empty reply.
 */
module Readdir {
  import opened Common
  import opened InodeTable

  datatype Kind = Directory | Symlink | RegularFile

  datatype Dirent = Dirent(ino: Ino, kind: Kind, name: string)

  /** One entry of the server's answer: its path, the path's file name, the declared type, and
      whether the path's string ends in a slash. */
  datatype Listed = Listed(path: Path, name: string, fileType: Option<string>, slashed: bool)

  function KindOf(e: Listed): Kind {
    if e.fileType == Some("directory") then Directory
    else if e.fileType == Some("symlink") then Symlink
    else if e.slashed then Directory
    else RegularFile
  }

  /** The space an entry takes in a reply buffer. */
  type Cost = Dirent -> nat

  // ---------------------------------------------------------------------------
  // Building the listing
  // ---------------------------------------------------------------------------

  predicate AllNumbered(list: seq<Listed>, inoOf: map<Path, Ino>) {
    forall e <- list :: e.path in inoOf
  }

  /** The listing of directory `ino` under the given numbering. */
  function Listing(ino: Ino, list: seq<Listed>, inoOf: map<Path, Ino>): (r: seq<Dirent>)
    requires AllNumbered(list, inoOf)
    ensures |r| == |list| + 2
  {
    if list == [] then [Dirent(ino, Directory, "."), Dirent(ino, Directory, "..")] else
    var e := list[|list|-1];
    Listing(ino, list[..|list|-1], inoOf) + [Dirent(inoOf[e.path], KindOf(e), e.name)]
  }

  ghost predicate Extends(m: map<Path, Ino>, m': map<Path, Ino>) {
    forall p <- m :: p in m' && m'[p] == m[p]
  }

  /** Numbers given to further paths do not change a listing. */
  lemma {:induction false} ListingStable(ino: Ino, list: seq<Listed>, inoOf: map<Path, Ino>, inoOf': map<Path, Ino>)
    requires AllNumbered(list, inoOf) && AllNumbered(list, inoOf')
    requires Extends(inoOf, inoOf')
    ensures Listing(ino, list, inoOf') == Listing(ino, list, inoOf)
  {
    if list != [] {
      ListingStable(ino, list[..|list|-1], inoOf, inoOf');
    }
  }

  lemma ListingNext(ino: Ino, list: seq<Listed>, k: nat, inoOf: map<Path, Ino>, i: Ino)
    requires k < |list| && AllNumbered(list[..k], inoOf)
    requires list[k].path in inoOf ==> inoOf[list[k].path] == i
    ensures Extends(inoOf, inoOf[list[k].path := i]) && AllNumbered(list[..k + 1], inoOf[list[k].path := i])
    ensures Listing(ino, list[..k + 1], inoOf[list[k].path := i])
         == Listing(ino, list[..k], inoOf) + [Dirent(i, KindOf(list[k]), list[k].name)]
  {
    var inoOf' := inoOf[list[k].path := i];
    assert list[..k + 1] == list[..k] + [list[k]];
    ListingStable(ino, list[..k], inoOf, inoOf');
  }

  /** The entries of `readdir_async`: every known path keeps its number, every other gets one;
      listing the same paths again gives the same entries and leaves the table alone. */
  method BuildEntries(inodes: InodeManager, ino: Ino, list: seq<Listed>) returns (entries: seq<Dirent>)
    requires Inverse(inodes.View())
    modifies inodes
    ensures Inverse(inodes.View()) && AllNumbered(list, inodes.pathToInode)
    ensures entries == Listing(ino, list, inodes.pathToInode)
    ensures Extends(old(inodes.pathToInode), inodes.pathToInode)
    ensures AllNumbered(list, old(inodes.pathToInode)) ==> inodes.View() == old(inodes.View())
  {
    entries := [Dirent(ino, Directory, "."), Dirent(ino, Directory, "..")];
    assert list[..0] == [];
    for k := 0 to |list|
      invariant Inverse(inodes.View()) && AllNumbered(list[..k], inodes.pathToInode)
      invariant entries == Listing(ino, list[..k], inodes.pathToInode)
      invariant Extends(old(inodes.pathToInode), inodes.pathToInode)
      invariant AllNumbered(list, old(inodes.pathToInode)) ==> inodes.View() == old(inodes.View())
    {
      ghost var before := inodes.pathToInode;
      assert list[k] in list;
      var i := inodes.Allocate(list[k].path);
      ListingNext(ino, list, k, before, i);
      entries := entries + [Dirent(i, KindOf(list[k]), list[k].name)];
    }
    assert list[..|list|] == list;
  }

  // ---------------------------------------------------------------------------
  // Filling one reply
  // ---------------------------------------------------------------------------

  /** How many of the entries the buffer accepts before it refuses one. */
  function Fit(cost: Cost, entries: seq<Dirent>, room: nat): (n: nat)
    ensures n <= |entries|
  {
    if entries == [] || cost(entries[0]) > room then 0
    else 1 + Fit(cost, entries[1..], room - cost(entries[0]))
  }

  function Skip(listing: seq<Dirent>, offset: nat): seq<Dirent> {
    if offset <= |listing| then listing[offset..] else []
  }

  /** The entries of one reply, each with the offset at which to resume after it. */
  function Stamped(entries: seq<Dirent>, offset: nat): (r: seq<(Dirent, nat)>)
    ensures |r| == |entries|
  {
    if entries == [] then [] else Stamped(entries[..|entries|-1], offset) + [(entries[|entries|-1], offset + |entries|)]
  }

  function Replied(cost: Cost, listing: seq<Dirent>, offset: nat, room: nat): seq<Dirent> {
    var rest := Skip(listing, offset);
    rest[..Fit(cost, rest, room)]
  }

  class ReplyBuffer {
    const cost: Cost
    var room: nat
    var added: seq<(Dirent, nat)>

    constructor (cost: Cost, room: nat)
      ensures this.cost == cost && this.room == room && added == []
    {
      this.cost, this.room, added := cost, room, [];
    }

    /** Adds the entry, or answers that the buffer is full and leaves it out. */
    method Add(e: Dirent, next: nat) returns (full: bool)
      modifies this
      ensures full == (cost(e) > old(room))
      ensures added == if full then old(added) else old(added) + [(e, next)]
      ensures room == if full then old(room) else old(room) - cost(e)
    {
      full := cost(e) > room;
      if !full {
        room := room - cost(e);
        added := added + [(e, next)];
      }
    }
  }

  lemma {:induction false} FitStep(cost: Cost, entries: seq<Dirent>, k: nat, room: nat)
    requires k < |entries|
    ensures Fit(cost, entries[k..], room) ==
      if cost(entries[k]) > room then 0 else 1 + Fit(cost, entries[k + 1..], room - cost(entries[k]))
  {
    assert entries[k..][1..] == entries[k + 1..];
  }

  /** The reply loop (async_fs.rs:897-903, blocking_adapter.rs:86-95). */
  method FillReply(listing: seq<Dirent>, offset: nat, reply: ReplyBuffer)
    requires reply.added == []
    modifies reply
    ensures reply.added == Stamped(Replied(reply.cost, listing, offset, old(reply.room)), offset)
  {
    var entries := Skip(listing, offset);
    ghost var n := Fit(reply.cost, entries, reply.room);
    var i := 0;
    assert entries[..0] == [] && entries[0..] == entries;
    while i < |entries|
      invariant i <= n <= |entries| && n == i + Fit(reply.cost, entries[i..], reply.room)
      invariant reply.added == Stamped(entries[..i], offset)
    {
      FitStep(reply.cost, entries, i, reply.room);
      assert entries[..i + 1][..i] == entries[..i];
      var full := reply.Add(entries[i], offset + i + 1);
      if full {
        break;
      }
      i := i + 1;
    }
  }

  // ---------------------------------------------------------------------------
  // The whole listing
  // ---------------------------------------------------------------------------

  /** Where the kernel resumes: at the offset of the last entry it was given. */
  function Resume(offset: nat, added: seq<(Dirent, nat)>): nat {
    if added == [] then offset else added[|added|-1].1
  }

  function NextOffset(cost: Cost, listing: seq<Dirent>, offset: nat, room: nat): nat {
    Resume(offset, Stamped(Replied(cost, listing, offset, room), offset))
  }

  /** What a sequence of calls, one for each buffer size, delivers from `offset` on. */
  function Delivered(cost: Cost, listing: seq<Dirent>, offset: nat, rooms: seq<nat>): seq<Dirent>
    decreases |rooms|
  {
    if rooms == [] then []
    else Replied(cost, listing, offset, rooms[0])
         + Delivered(cost, listing, NextOffset(cost, listing, offset, rooms[0]), rooms[1..])
  }

  /** Where the call after these would resume. */
  function End(cost: Cost, listing: seq<Dirent>, offset: nat, rooms: seq<nat>): nat
    decreases |rooms|
  {
    if rooms == [] then offset else End(cost, listing, NextOffset(cost, listing, offset, rooms[0]), rooms[1..])
  }

  lemma ReplyIsSlice(cost: Cost, listing: seq<Dirent>, offset: nat, room: nat)
    requires offset <= |listing|
    ensures var next := NextOffset(cost, listing, offset, room);
            offset <= next <= |listing| && Replied(cost, listing, offset, room) == listing[offset..next]
  {
  }

  lemma SliceConcat<T>(s: seq<T>, i: nat, j: nat, k: nat)
    requires i <= j <= k <= |s|
    ensures s[i..j] + s[j..k] == s[i..k]
  {
  }

  /** Whatever the buffers, the deliveries are a stretch of the listing without gap or repeat. */
  lemma {:induction false} DeliversInOrder(cost: Cost, listing: seq<Dirent>, offset: nat, rooms: seq<nat>)
    requires offset <= |listing|
    ensures offset <= End(cost, listing, offset, rooms) <= |listing|
    ensures Delivered(cost, listing, offset, rooms) == listing[offset..End(cost, listing, offset, rooms)]
    decreases |rooms|
  {
    if rooms != [] {
      var next := NextOffset(cost, listing, offset, rooms[0]);
      ReplyIsSlice(cost, listing, offset, rooms[0]);
      DeliversInOrder(cost, listing, next, rooms[1..]);
      SliceConcat(listing, offset, next, End(cost, listing, next, rooms[1..]));
    }
  }

  /** Every entry of the listing fits into the buffer. */
  ghost predicate Roomy(cost: Cost, listing: seq<Dirent>, room: nat) {
    forall e <- listing :: cost(e) <= room
  }

  /** A reply is empty, which the kernel takes for the end, exactly at the end of the listing or
      when the next entry does not fit. */
  lemma EmptyReplyIff(cost: Cost, listing: seq<Dirent>, offset: nat, room: nat)
    ensures Replied(cost, listing, offset, room) == [] <==> offset >= |listing| || cost(listing[offset]) > room
  {
    var rest := Skip(listing, offset);
    if rest != [] && cost(rest[0]) <= room {
      assert Fit(cost, rest, room) >= 1;
    }
  }

  lemma {:induction false} ReachesEnd(cost: Cost, listing: seq<Dirent>, offset: nat, rooms: seq<nat>)
    requires offset <= |listing| && |rooms| >= |listing| - offset
    requires forall room <- rooms :: Roomy(cost, listing, room)
    ensures End(cost, listing, offset, rooms) == |listing|
    decreases |rooms|
  {
    if rooms != [] {
      assert rooms[0] in rooms && (offset < |listing| ==> listing[offset] in listing);
      EmptyReplyIff(cost, listing, offset, rooms[0]);
      ReplyIsSlice(cost, listing, offset, rooms[0]);
      ReachesEnd(cost, listing, NextOffset(cost, listing, offset, rooms[0]), rooms[1..]);
    }
  }

  /** With buffers that hold at least any one entry, the directory is read completely, each entry
      once and in order, after no more calls than there are entries; then the reply is empty. */
  lemma ReadsWholeDirectory(cost: Cost, listing: seq<Dirent>, rooms: seq<nat>, room: nat)
    requires |rooms| >= |listing| && forall room <- rooms :: Roomy(cost, listing, room)
    ensures Delivered(cost, listing, 0, rooms) == listing
    ensures Replied(cost, listing, End(cost, listing, 0, rooms), room) == []
  {
    DeliversInOrder(cost, listing, 0, rooms);
    ReachesEnd(cost, listing, 0, rooms);
    EmptyReplyIff(cost, listing, |listing|, room);
    assert listing[0..|listing|] == listing;
  }

  // ---------------------------------------------------------------------------
  // Entry by entry
  // ---------------------------------------------------------------------------

  /** Dot, dot-dot, then the server's entries in order: the declared type decides the kind, and for any
      other type a trailing slash makes a directory. */
  lemma {:induction false} ListingAt(ino: Ino, list: seq<Listed>, inoOf: map<Path, Ino>, k: nat)
    requires AllNumbered(list, inoOf) && k < |list|
    ensures list[k] in list
    ensures var r, e := Listing(ino, list, inoOf), list[k];
            && r[0] == Dirent(ino, Directory, ".") && r[1] == Dirent(ino, Directory, "..")
            && r[k + 2].ino == inoOf[e.path] && r[k + 2].name == e.name
            && (r[k + 2].kind == Symlink <==> e.fileType == Some("symlink"))
            && (r[k + 2].kind == Directory <==> e.fileType == Some("directory") || (e.fileType != Some("symlink") && e.slashed))
            && (r[k + 2].kind == RegularFile <==> e.fileType !in {Some("directory"), Some("symlink")} && !e.slashed)
  {
    TypesDiffer();
    var init := list[..|list|-1];
    if k < |init| {
      ListingAt(ino, init, inoOf, k);
    } else if |init| > 0 {
      ListingAt(ino, init, inoOf, 0);
    }
  }

  lemma TypesDiffer()
    ensures "directory" != "symlink"
  {
    assert "directory"[0] == 'd' && "symlink"[0] == 's';
  }

  function Total(cost: Cost, entries: seq<Dirent>): nat {
    if entries == [] then 0 else cost(entries[0]) + Total(cost, entries[1..])
  }

  /** A reply holds as many entries as fit: they do, and with the next one they would not. */
  lemma {:induction false} FitIsMost(cost: Cost, entries: seq<Dirent>, room: nat)
    ensures var n := Fit(cost, entries, room);
            && Total(cost, entries[..n]) <= room
            && (n < |entries| ==> Total(cost, entries[..n]) + cost(entries[n]) > room)
  {
    if entries != [] && cost(entries[0]) <= room {
      FitIsMost(cost, entries[1..], room - cost(entries[0]));
      var n := Fit(cost, entries, room);
      assert entries[..n][1..] == entries[1..][..n-1];
    }
  }

  /** Each entry carries the offset just after it. */
  lemma {:induction false} StampedAt(entries: seq<Dirent>, offset: nat, k: nat)
    requires k < |entries|
    ensures Stamped(entries, offset)[k] == (entries[k], offset + k + 1)
  {
    if k < |entries|-1 {
      StampedAt(entries[..|entries|-1], offset, k);
    }
  }
}

/**
 The advisory byte-range lock table of crates/racfs-fuse/src/advanced.rs, in the style of
 `fcntl()` in IEEE Std 1003.1.  Each call is one atomic step.

 Where POSIX splits a lock that is partly released, this table drops the whole entry;
 `UnlockIsPosixIff` says exactly when the two agree.
 */
module FileLocks {
  import opened Common

  const F_RDLCK: int := 0
  const F_WRLCK: int := 1
  const F_UNLCK: int := 2

  type Inode = nat
  type Owner = nat

  datatype LockEntry = LockEntry(start: nat, end: nat, typ: int, pid: nat, owner: Owner)

  type Table = map<Inode, seq<LockEntry>>

  datatype Status = Ok | Eagain

  predicate Overlaps(e: LockEntry, start: nat, end: nat) {
    start <= e.end && e.start <= end
  }

  /** Another owner's entry that a request cannot coexist with. */
  predicate Conflicts(e: LockEntry, start: nat, end: nat, typ: int, owner: Owner) {
    e.owner != owner && Overlaps(e, start, end) && (typ == F_WRLCK || e.typ == F_WRLCK)
  }

  function Entries(t: Table, ino: Inode): seq<LockEntry> {
    if ino in t then t[ino] else []
  }

  /** The request fits beside every lock held on the inode. */
  ghost predicate Compatible(t: Table, ino: Inode, start: nat, end: nat, typ: int, owner: Owner) {
    forall e <- Entries(t, ino) :: !Conflicts(e, start, end, typ, owner)
  }

  /** `e` stands at position `i`, conflicts, and nothing before it does. */
  ghost predicate FirstConflict(es: seq<LockEntry>, i: nat, e: LockEntry, start: nat, end: nat, typ: int, owner: Owner) {
    && i < |es| && es[i] == e && Conflicts(e, start, end, typ, owner)
    && forall j :: 0 <= j < i ==> !Conflicts(es[j], start, end, typ, owner)
  }

  /** `entries.retain(|e| e.owner != lock_owner || e.end < start || e.start > end)`. */
  function Retain(es: seq<LockEntry>, owner: Owner, start: nat, end: nat): seq<LockEntry> {
    if es == [] then []
    else
      var e := es[|es|-1];
      Retain(es[..|es|-1], owner, start, end) + if e.owner != owner || !Overlaps(e, start, end) then [e] else []
  }

  function WithoutOwner(es: seq<LockEntry>, owner: Owner): seq<LockEntry> {
    if es == [] then []
    else WithoutOwner(es[..|es|-1], owner) + if es[|es|-1].owner != owner then [es[|es|-1]] else []
  }

  function Unlocked(t: Table, ino: Inode, owner: Owner, start: nat, end: nat): Table {
    if ino !in t then t
    else
      var es := Retain(t[ino], owner, start, end);
      if es == [] then t - {ino} else t[ino := es]
  }

  function Granted(t: Table, ino: Inode, e: LockEntry): Table {
    t[ino := Retain(Entries(t, ino), e.owner, e.start, e.end) + [e]]
  }

  function OwnerRemoved(t: Table, owner: Owner): Table {
    map ino | ino in t && WithoutOwner(t[ino], owner) != [] :: WithoutOwner(t[ino], owner)
  }

  class FileLockState {
    var locks: Table

    constructor ()
      ensures locks == map[] && Safe(locks)
    {
      locks := map[];
    }

    /** `get_conflict` (advanced.rs:75-99): the first conflicting lock in the list. */
    method GetConflict(ino: Inode, start: nat, end: nat, typ: int, owner: Owner) returns (r: Option<LockEntry>)
      ensures r.None? <==> Compatible(locks, ino, start, end, typ, owner)
      ensures r.Some? ==> exists i :: FirstConflict(Entries(locks, ino), i, r.value, start, end, typ, owner)
    {
      if ino !in locks {
        return None;
      }
      var entries := locks[ino];
      for i := 0 to |entries|
        invariant forall j :: 0 <= j < i ==> !Conflicts(entries[j], start, end, typ, owner)
      {
        var e := entries[i];
        if e.owner == owner {
          continue;
        }
        if !(start <= e.end && e.start <= end) {
          continue;
        }
        if typ == F_WRLCK || e.typ == F_WRLCK {
          assert e in Entries(locks, ino) && FirstConflict(entries, i, e, start, end, typ, owner);
          return Some(e);
        }
      }
      r := None;
    }

    /** `set_lock` (advanced.rs:103-138); blocking requests are not waited for. */
    method SetLock(ino: Inode, owner: Owner, start: nat, end: nat, typ: int, pid: nat) returns (r: Status)
      requires Safe(locks)
      modifies this
      ensures Safe(locks)
      ensures typ == F_UNLCK ==> r == Ok && locks == Unlocked(old(locks), ino, owner, start, end)
      ensures typ != F_UNLCK ==> (r == Ok <==> Compatible(old(locks), ino, start, end, typ, owner))
      ensures typ != F_UNLCK ==>
        locks == if r == Ok then Granted(old(locks), ino, LockEntry(start, end, typ, pid, owner)) else old(locks)
    {
      if typ == F_UNLCK {
        Unlock(ino, owner, start, end);
        return Ok;
      }
      var conflict := GetConflict(ino, start, end, typ, owner);
      if conflict.Some? {
        return Eagain;
      }
      GrantKeepsSafe(locks, ino, LockEntry(start, end, typ, pid, owner));
      var entries := if ino in locks then locks[ino] else [];
      entries := Retain(entries, owner, start, end);
      locks := locks[ino := entries + [LockEntry(start, end, typ, pid, owner)]];
      r := Ok;
    }

    /** `unlock` (advanced.rs:141-149). */
    method Unlock(ino: Inode, owner: Owner, start: nat, end: nat)
      requires Safe(locks)
      modifies this
      ensures Safe(locks) && locks == Unlocked(old(locks), ino, owner, start, end)
    {
      UnlockKeepsSafe(locks, ino, owner, start, end);
      if ino in locks {
        var entries := Retain(locks[ino], owner, start, end);
        if entries == [] {
          locks := locks - {ino};
        } else {
          locks := locks[ino := entries];
        }
      }
    }

    /** `remove_owner` (advanced.rs:152-158): filter every list, then drop the empty ones. */
    method RemoveOwner(owner: Owner)
      requires Safe(locks)
      modifies this
      ensures Safe(locks) && locks == OwnerRemoved(old(locks), owner)
    {
      RemoveOwnerKeepsSafe(locks, owner);
      var filtered := map ino | ino in locks :: WithoutOwner(locks[ino], owner);
      locks := map ino | ino in filtered && filtered[ino] != [] :: filtered[ino];
      assert locks == OwnerRemoved(old(locks), owner);
    }
  }

  // ---------------------------------------------------------------------------
  // Safety
  // ---------------------------------------------------------------------------

  /** Two entries of one inode may stand side by side: one owner's ranges are disjoint, and
      different owners overlap only when neither writes. */
  ghost predicate Peaceful(a: LockEntry, b: LockEntry) {
    Overlaps(a, b.start, b.end) ==> a.owner != b.owner && a.typ != F_WRLCK && b.typ != F_WRLCK
  }

  ghost predicate SafeList(es: seq<LockEntry>) {
    forall i, j :: 0 <= i < j < |es| ==> Peaceful(es[i], es[j])
  }

  ghost predicate Safe(t: Table) {
    forall ino <- t :: t[ino] != [] && SafeList(t[ino])
  }

  lemma {:induction false} RetainSafe(es: seq<LockEntry>, owner: Owner, start: nat, end: nat)
    requires SafeList(es)
    ensures SafeList(Retain(es, owner, start, end))
    ensures forall e :: e in Retain(es, owner, start, end) <==> e in es && (e.owner != owner || !Overlaps(e, start, end))
  {
    if es != [] {
      var init, last := es[..|es|-1], es[|es|-1];
      RetainSafe(init, owner, start, end);
      assert es == init + [last];
      PushSafe(init, last, Retain(init, owner, start, end));
    }
  }

  lemma {:induction false} WithoutOwnerSafe(es: seq<LockEntry>, owner: Owner)
    requires SafeList(es)
    ensures SafeList(WithoutOwner(es, owner))
    ensures forall e :: e in WithoutOwner(es, owner) <==> e in es && e.owner != owner
  {
    if es != [] {
      var init, last := es[..|es|-1], es[|es|-1];
      WithoutOwnerSafe(init, owner);
      assert es == init + [last];
      PushSafe(init, last, WithoutOwner(init, owner));
    }
  }

  lemma PushSafe(init: seq<LockEntry>, last: LockEntry, kept: seq<LockEntry>)
    requires SafeList(init + [last]) && SafeList(kept) && forall e <- kept :: e in init
    ensures SafeList(kept + [last])
  {
    forall i | 0 <= i < |kept| ensures Peaceful(kept[i], last) {
      assert kept[i] in init;
      var k :| 0 <= k < |init| && init[k] == kept[i];
      assert (init + [last])[k] == init[k] && (init + [last])[|init|] == last;
    }
  }

  lemma GrantKeepsSafe(t: Table, ino: Inode, e: LockEntry)
    requires Safe(t) && Compatible(t, ino, e.start, e.end, e.typ, e.owner)
    ensures Safe(Granted(t, ino, e))
  {
    var es := Entries(t, ino);
    var kept := Retain(es, e.owner, e.start, e.end);
    RetainSafe(es, e.owner, e.start, e.end);
    forall i | 0 <= i < |kept| ensures Peaceful(kept[i], e) {
      assert kept[i] in kept;
    }
  }

  lemma UnlockKeepsSafe(t: Table, ino: Inode, owner: Owner, start: nat, end: nat)
    requires Safe(t)
    ensures Safe(Unlocked(t, ino, owner, start, end))
  {
    if ino in t {
      RetainSafe(t[ino], owner, start, end);
    }
  }

  lemma RemoveOwnerKeepsSafe(t: Table, owner: Owner)
    requires Safe(t)
    ensures Safe(OwnerRemoved(t, owner))
  {
    forall ino | ino in t ensures SafeList(WithoutOwner(t[ino], owner)) {
      WithoutOwnerSafe(t[ino], owner);
    }
  }

  // ---------------------------------------------------------------------------
  // Runs
  // ---------------------------------------------------------------------------

  datatype Call =
    | SetCall(ino: Inode, e: LockEntry)
    | UnlockCall(ino: Inode, owner: Owner, start: nat, end: nat)
    | RemoveCall(owner: Owner)

  ghost function Do(t: Table, c: Call): Table {
    match c
    case SetCall(ino, e) =>
      if e.typ == F_UNLCK then Unlocked(t, ino, e.owner, e.start, e.end)
      else if Compatible(t, ino, e.start, e.end, e.typ, e.owner) then Granted(t, ino, e)
      else t
    case UnlockCall(ino, owner, start, end) => Unlocked(t, ino, owner, start, end)
    case RemoveCall(owner) => OwnerRemoved(t, owner)
  }

  ghost function Run(calls: seq<Call>): Table {
    if calls == [] then map[] else Do(Run(calls[..|calls|-1]), calls[|calls|-1])
  }

  /** After every sequence of calls: no empty list, one owner's ranges pairwise disjoint, and
      no overlap between owners when either holds a write lock. */
  lemma {:induction false} EveryRunIsSafe(calls: seq<Call>)
    ensures Safe(Run(calls))
  {
    if calls != [] {
      var t, c := Run(calls[..|calls|-1]), calls[|calls|-1];
      EveryRunIsSafe(calls[..|calls|-1]);
      match c
      case SetCall(ino, e) =>
        UnlockKeepsSafe(t, ino, e.owner, e.start, e.end);
        if Compatible(t, ino, e.start, e.end, e.typ, e.owner) {
          GrantKeepsSafe(t, ino, e);
        }
      case UnlockCall(ino, owner, start, end) => UnlockKeepsSafe(t, ino, owner, start, end);
      case RemoveCall(owner) => RemoveOwnerKeepsSafe(t, owner);
    }
  }

  // ---------------------------------------------------------------------------
  // What the table means, byte by byte
  // ---------------------------------------------------------------------------

  /** `owner` holds a lock of this type on byte `b`. */
  ghost predicate HoldsAs(t: Table, ino: Inode, owner: Owner, b: nat, typ: int) {
    exists e <- Entries(t, ino) :: e.owner == owner && e.start <= b <= e.end && e.typ == typ
  }

  /** Every range is non-empty, as the kernel sends them. */
  ghost predicate ProperRanges(t: Table) {
    forall ino <- t :: forall e <- t[ino] :: e.start <= e.end
  }

  predicate InRange(b: nat, start: nat, end: nat) { start <= b <= end }

  /** A request conflicts with an entry exactly if another owner holds a byte it asks for and one of
      the two is a write lock. */
  lemma ConflictIsSharedByte(e: LockEntry, start: nat, end: nat, typ: int, owner: Owner)
    requires e.start <= e.end && start <= end
    ensures Conflicts(e, start, end, typ, owner) <==>
      && e.owner != owner && (typ == F_WRLCK || e.typ == F_WRLCK)
      && exists b: nat :: InRange(b, e.start, e.end) && InRange(b, start, end)
  {
    if Overlaps(e, start, end) {
      var b := if e.start < start then start else e.start;
      assert InRange(b, e.start, e.end) && InRange(b, start, end);
    }
  }

  /** Another owner holds this byte in a way the requested type cannot share. */
  ghost predicate HeldAgainst(t: Table, ino: Inode, owner: Owner, b: nat, typ: int) {
    exists e <- Entries(t, ino) :: e.owner != owner && InRange(b, e.start, e.end) && (typ == F_WRLCK || e.typ == F_WRLCK)
  }

  /** A request is compatible exactly if none of its bytes is held against it. */
  lemma CompatibleIffNoByteHeld(t: Table, ino: Inode, start: nat, end: nat, typ: int, owner: Owner)
    requires ProperRanges(t) && start <= end
    ensures Compatible(t, ino, start, end, typ, owner) <==>
            forall b: nat :: InRange(b, start, end) ==> !HeldAgainst(t, ino, owner, b, typ)
  {
    if Compatible(t, ino, start, end, typ, owner) {
      forall b: nat | InRange(b, start, end) ensures !HeldAgainst(t, ino, owner, b, typ) {
        forall e | e in Entries(t, ino) && e.owner != owner && InRange(b, e.start, e.end)
          ensures typ != F_WRLCK && e.typ != F_WRLCK
        {
          ConflictIsSharedByte(e, start, end, typ, owner);
        }
      }
    } else {
      var e :| e in Entries(t, ino) && Conflicts(e, start, end, typ, owner);
      ConflictIsSharedByte(e, start, end, typ, owner);
      var b: nat :| InRange(b, e.start, e.end) && InRange(b, start, end);
      assert HeldAgainst(t, ino, owner, b, typ);
    }
  }

  lemma LastPeaceful(kept: seq<LockEntry>, e: LockEntry, i: nat)
    requires SafeList(kept + [e]) && i < |kept|
    ensures Peaceful(kept[i], e)
  {
    assert (kept + [e])[i] == kept[i] && (kept + [e])[|kept|] == e;
  }

  /** A request is granted exactly if granting it keeps the table safe. */
  lemma CompatibleIffSafe(t: Table, ino: Inode, e: LockEntry)
    requires Safe(t)
    ensures Compatible(t, ino, e.start, e.end, e.typ, e.owner) <==> Safe(Granted(t, ino, e))
  {
    var es := Entries(t, ino);
    var kept := Retain(es, e.owner, e.start, e.end);
    RetainSafe(es, e.owner, e.start, e.end);
    if Compatible(t, ino, e.start, e.end, e.typ, e.owner) {
      GrantKeepsSafe(t, ino, e);
    } else {
      var f :| f in es && Conflicts(f, e.start, e.end, e.typ, e.owner);
      assert f in kept;
      var i :| 0 <= i < |kept| && kept[i] == f;
      if Safe(Granted(t, ino, e)) {
        assert Granted(t, ino, e)[ino] == kept + [e];
        LastPeaceful(kept, e, i);
      }
    }
  }

  /** After every run two owners that hold the same byte both hold it for reading. */
  lemma SharedBytesAreRead(calls: seq<Call>, ino: Inode, b: nat, a: LockEntry, c: LockEntry)
    requires a in Entries(Run(calls), ino) && c in Entries(Run(calls), ino)
    requires a.start <= b <= a.end && c.start <= b <= c.end
    ensures a == c || (a.owner != c.owner && a.typ != F_WRLCK && c.typ != F_WRLCK)
  {
    EveryRunIsSafe(calls);
    var es := Entries(Run(calls), ino);
    var i :| 0 <= i < |es| && es[i] == a;
    var j :| 0 <= j < |es| && es[j] == c;
    assert i == j || Peaceful(es[if i < j then i else j], es[if i < j then j else i]);
  }

  lemma {:induction false} WithoutOwnerMembers(es: seq<LockEntry>, owner: Owner)
    ensures forall e :: e in WithoutOwner(es, owner) <==> e in es && e.owner != owner
  {
    if es != [] {
      WithoutOwnerMembers(es[..|es|-1], owner);
      assert forall e :: e in es <==> e in es[..|es|-1] || e == es[|es|-1];
    }
  }

  /** Afterwards the owner holds nothing on any inode, and every other owner what it held. */
  lemma RemoveOwnerReleases(t: Table, owner: Owner, ino: Inode, other: Owner, b: nat, typ: int)
    ensures HoldsAs(OwnerRemoved(t, owner), ino, other, b, typ) <==> other != owner && HoldsAs(t, ino, other, b, typ)
  {
    WithoutOwnerMembers(Entries(t, ino), owner);
    var t' := OwnerRemoved(t, owner);
    assert forall e :: e in Entries(t', ino) <==> e in WithoutOwner(Entries(t, ino), owner);
  }

  // ---------------------------------------------------------------------------
  // Comparison with POSIX
  // ---------------------------------------------------------------------------

  /** `owner` holds a lock on byte `b` of the inode. */
  ghost predicate Holds(t: Table, ino: Inode, owner: Owner, b: nat) {
    exists e <- Entries(t, ino) :: e.owner == owner && e.start <= b <= e.end
  }

  /** POSIX: afterwards the owner holds what it held, less the released range. */
  ghost predicate PosixUnlock(t: Table, ino: Inode, owner: Owner, start: nat, end: nat) {
    forall b: nat :: Holds(Unlocked(t, ino, owner, start, end), ino, owner, b) <==>
                     Holds(t, ino, owner, b) && !(start <= b <= end)
  }

  lemma UnlockedEntries(t: Table, ino: Inode, owner: Owner, start: nat, end: nat)
    requires Safe(t)
    ensures forall e :: e in Entries(Unlocked(t, ino, owner, start, end), ino) <==>
                        e in Entries(t, ino) && (e.owner != owner || !Overlaps(e, start, end))
  {
    RetainSafe(Entries(t, ino), owner, start, end);
  }

  /** An unlock never leaves a released byte locked, and never touches other owners. */
  lemma UnlockReleases(t: Table, ino: Inode, owner: Owner, start: nat, end: nat, b: nat)
    requires Safe(t)
    ensures start <= b <= end ==> !Holds(Unlocked(t, ino, owner, start, end), ino, owner, b)
    ensures forall other :: other != owner ==>
      (Holds(Unlocked(t, ino, owner, start, end), ino, other, b) <==> Holds(t, ino, other, b))
  {
    UnlockedEntries(t, ino, owner, start, end);
  }

  /** It releases exactly what POSIX releases if and only if every lock of the owner that meets
      the range lies inside it; otherwise it releases too much. */
  lemma UnlockIsPosixIff(t: Table, ino: Inode, owner: Owner, start: nat, end: nat)
    requires Safe(t)
    ensures PosixUnlock(t, ino, owner, start, end) <==>
      forall e <- Entries(t, ino) :: e.owner == owner && Overlaps(e, start, end) ==> start <= e.start && e.end <= end
  {
    if forall e <- Entries(t, ino) :: e.owner == owner && Overlaps(e, start, end) ==> start <= e.start && e.end <= end {
      UnlockExact(t, ino, owner, start, end);
    } else {
      var e :| e in Entries(t, ino) && e.owner == owner && Overlaps(e, start, end) && !(start <= e.start && e.end <= end);
      var b := if e.start < start then e.start else e.end;
      assert Holds(t, ino, owner, b) && !(start <= b <= end);
      LostByte(t, ino, owner, e, start, end, b);
    }
  }

  lemma UnlockExact(t: Table, ino: Inode, owner: Owner, start: nat, end: nat)
    requires Safe(t)
    requires forall e <- Entries(t, ino) :: e.owner == owner && Overlaps(e, start, end) ==> start <= e.start && e.end <= end
    ensures PosixUnlock(t, ino, owner, start, end)
  {
    UnlockedEntries(t, ino, owner, start, end);
    var t' := Unlocked(t, ino, owner, start, end);
    forall b: nat ensures Holds(t', ino, owner, b) <==> Holds(t, ino, owner, b) && !(start <= b <= end) {
      if Holds(t, ino, owner, b) && !(start <= b <= end) {
        var e :| e in Entries(t, ino) && e.owner == owner && e.start <= b <= e.end;
        assert e in Entries(t', ino);
      }
    }
  }

  lemma LostByte(t: Table, ino: Inode, owner: Owner, e: LockEntry, start: nat, end: nat, b: nat)
    requires Safe(t) && e in Entries(t, ino) && e.owner == owner
    requires Overlaps(e, start, end) && e.start <= b <= e.end
    ensures !Holds(Unlocked(t, ino, owner, start, end), ino, owner, b)
  {
    UnlockedEntries(t, ino, owner, start, end);
    var es := Entries(t, ino);
    forall f | f in es && f.owner == owner && f.start <= b <= f.end ensures f == e {
      var i :| 0 <= i < |es| && es[i] == e;
      var j :| 0 <= j < |es| && es[j] == f;
      assert i == j || Peaceful(es[if i < j then i else j], es[if i < j then j else i]);
    }
  }

  /** POSIX: a granted lock sets the type of its range and leaves the owner's other bytes as they
      were. */
  ghost predicate PosixGrant(t: Table, ino: Inode, e: LockEntry) {
    forall b: nat, typ: int :: HoldsAs(Granted(t, ino, e), ino, e.owner, b, typ) <==>
                               if e.start <= b <= e.end then typ == e.typ else HoldsAs(t, ino, e.owner, b, typ)
  }

  lemma GrantedEntries(t: Table, ino: Inode, e: LockEntry)
    requires Safe(t)
    ensures forall f :: f in Entries(Granted(t, ino, e), ino) <==>
                        f == e || (f in Entries(t, ino) && (f.owner != e.owner || !Overlaps(f, e.start, e.end)))
  {
    RetainSafe(Entries(t, ino), e.owner, e.start, e.end);
  }

  /** Taking a lock does what POSIX says if and only if every lock of the owner that meets the range
      lies inside it; otherwise it gives up bytes the owner held. */
  lemma GrantIsPosixIff(t: Table, ino: Inode, e: LockEntry)
    requires Safe(t)
    ensures PosixGrant(t, ino, e) <==>
      forall f <- Entries(t, ino) :: f.owner == e.owner && Overlaps(f, e.start, e.end) ==> e.start <= f.start && f.end <= e.end
  {
    GrantedEntries(t, ino, e);
    var t' := Granted(t, ino, e);
    if forall f <- Entries(t, ino) :: f.owner == e.owner && Overlaps(f, e.start, e.end) ==> e.start <= f.start && f.end <= e.end {
      forall b: nat, typ: int
        ensures HoldsAs(t', ino, e.owner, b, typ) <==>
                if e.start <= b <= e.end then typ == e.typ else HoldsAs(t, ino, e.owner, b, typ)
      {
        assert e in Entries(t', ino);
      }
    } else {
      var f :| f in Entries(t, ino) && f.owner == e.owner && Overlaps(f, e.start, e.end) && !(e.start <= f.start && f.end <= e.end);
      var b := if f.start < e.start then f.start else f.end;
      assert HoldsAs(t, ino, e.owner, b, f.typ) && !(e.start <= b <= e.end);
      GrantLoses(t, ino, e, f, b);
    }
  }

  lemma GrantLoses(t: Table, ino: Inode, e: LockEntry, f: LockEntry, b: nat)
    requires Safe(t) && f in Entries(t, ino) && f.owner == e.owner
    requires Overlaps(f, e.start, e.end) && f.start <= b <= f.end && !(e.start <= b <= e.end)
    ensures !HoldsAs(Granted(t, ino, e), ino, e.owner, b, f.typ)
  {
    GrantedEntries(t, ino, e);
    var es := Entries(t, ino);
    forall g | g in es && g.owner == e.owner && g.start <= b <= g.end ensures g == f {
      var i :| 0 <= i < |es| && es[i] == f;
      var j :| 0 <= j < |es| && es[j] == g;
      assert i == j || Peaceful(es[if i < j then i else j], es[if i < j then j else i]);
    }
  }
}

/**
 MountableFS (crates/racfs-vfs/src/mountable_fs.rs): filesystems mounted at paths and found by
 longest prefix.  The mount points are kept twice, in a map by path and in a trie by string;
 `resolve_fs` searches both.  Mount points are canonical absolute paths.

 The search of the trie slices the key at every byte offset, so it panics for every key with a
 character outside ASCII; `ResolveFs` returns exactly for the others.
 */
module MountRouter {
  import opened Common
  import opened Paths
  import opened Utf8

  type Fs(==, !new)

  datatype MountError = InvalidInput | AlreadyExists | NotFound

  type Mounts = map<Path, Fs>
  type Trie = map<string, Fs>

  /** The map and the trie hold the same mounts; nothing is mounted at the root. */
  ghost predicate Agree(mounts: Mounts, trie: Trie) {
    && [] !in mounts
    && (forall m <- mounts :: Join(m) in trie && trie[Join(m)] == mounts[m])
    && (forall k <- trie :: exists m <- mounts :: k == Join(m))
  }

  // ---------------------------------------------------------------------------
  // Normalisation
  // ---------------------------------------------------------------------------

  /** What `Path::components` yields. */
  datatype Component = RootDir | ParentDir | CurDir | Normal(name: Name)

  datatype PathBuf = PathBuf(absolute: bool, names: Path)

  function PushComponent(p: PathBuf, c: Component): PathBuf {
    match c
    case RootDir => PathBuf(true, [])
    case ParentDir => if p.names == [] then p else PathBuf(p.absolute, p.names[..|p.names|-1])
    case CurDir => p
    case Normal(n) => PathBuf(p.absolute, p.names + [n])
  }

  function Folded(raw: seq<Component>): PathBuf {
    if raw == [] then PathBuf(false, []) else PushComponent(Folded(raw[..|raw|-1]), raw[|raw|-1])
  }

  /** `normalize_path`: an empty result becomes the root. */
  function Normalize(raw: seq<Component>): PathBuf {
    var p := Folded(raw);
    if p == PathBuf(false, []) then PathBuf(true, []) else p
  }

  function NameComponents(p: Path): seq<Component> {
    if p == [] then [] else NameComponents(p[..|p|-1]) + [Normal(p[|p|-1])]
  }

  function Components(p: PathBuf): seq<Component> {
    (if p.absolute then [RootDir] else []) + NameComponents(p.names)
  }

  lemma FoldedPush(raw: seq<Component>, c: Component)
    ensures Folded(raw + [c]) == PushComponent(Folded(raw), c)
  {
    assert (raw + [c])[..|raw + [c]|-1] == raw;
  }

  lemma FoldedNext(raw: seq<Component>, absolute: bool, init: Path, n: Name, raw': seq<Component>, p: Path)
    requires Folded(raw) == PathBuf(absolute, init)
    requires raw' == raw + [Normal(n)] && p == init + [n]
    ensures Folded(raw') == PathBuf(absolute, p)
  {
    FoldedPush(raw, Normal(n));
  }

  lemma {:induction false} FoldedNames(start: seq<Component>, absolute: bool, p: Path)
    requires Folded(start) == PathBuf(absolute, [])
    ensures Folded(start + NameComponents(p)) == PathBuf(absolute, p)
  {
    if p == [] {
      assert start + NameComponents(p) == start;
    } else {
      var init, n := p[..|p|-1], p[|p|-1];
      var before := start + NameComponents(init);
      FoldedNames(start, absolute, init);
      assert NameComponents(p) == NameComponents(init) + [Normal(n)];
      assert start + NameComponents(p) == before + [Normal(n)];
      FoldedNext(before, absolute, init, n, start + NameComponents(p), p);
    }
  }

  /** Normalising twice is normalising once. */
  lemma NormalizeIdempotent(raw: seq<Component>)
    ensures Normalize(Components(Normalize(raw))) == Normalize(raw)
  {
    var p := Normalize(raw);
    var start: seq<Component> := if p.absolute then [RootDir] else [];
    assert start != [] ==> start[..0] == [];
    FoldedNames(start, p.absolute, p.names);
  }

  lemma {:induction false} FoldedSuffix(a: seq<Component>, b: seq<Component>, rest: seq<Component>)
    requires Folded(a) == Folded(b)
    ensures Folded(a + rest) == Folded(b + rest)
  {
    if rest == [] {
      assert a + rest == a && b + rest == b;
    } else {
      var init, last := rest[..|rest|-1], rest[|rest|-1];
      FoldedSuffix(a, b, init);
      FoldedPush(a + init, last);
      FoldedPush(b + init, last);
      assert a + rest == a + init + [last] && b + rest == b + init + [last];
    }
  }

  /** A name followed by `..` might as well not be there, wherever it stands. */
  lemma ParentCancelsName(before: seq<Component>, n: Name, after: seq<Component>)
    ensures Normalize(before + [Normal(n)] + [ParentDir] + after) == Normalize(before + after)
  {
    FoldedPush(before, Normal(n));
    FoldedPush(before + [Normal(n)], ParentDir);
    assert (Folded(before).names + [n])[..|Folded(before).names|] == Folded(before).names;
    FoldedSuffix(before + [Normal(n)] + [ParentDir], before, after);
  }

  /** A `.` anywhere, and a `..` right below the root, change nothing. */
  lemma DotsIgnored(before: seq<Component>, after: seq<Component>)
    ensures Normalize(before + [CurDir] + after) == Normalize(before + after)
    ensures Normalize(before + [RootDir] + [ParentDir] + after) == Normalize(before + [RootDir] + after)
  {
    FoldedPush(before, CurDir);
    FoldedSuffix(before + [CurDir], before, after);
    FoldedPush(before, RootDir);
    FoldedPush(before + [RootDir], ParentDir);
    FoldedSuffix(before + [RootDir] + [ParentDir], before + [RootDir], after);
  }

  /** Whatever collapses to nothing is the root. */
  lemma NothingIsRoot(raw: seq<Component>)
    ensures Normalize(raw).names == [] ==> Normalize(raw) == PathBuf(true, [])
    ensures Normalize([]) == PathBuf(true, [])
  {
  }

  /** A plain absolute path stays as it is, and its key is its string. */
  lemma PlainPathStays(names: Path)
    ensures Normalize([RootDir] + NameComponents(names)) == PathBuf(true, names)
    ensures KeyOf(PathBuf(true, names)) == Join(names)
  {
    FoldedPush([], RootDir);
    assert [] + [RootDir] == [RootDir];
    FoldedNames([RootDir], true, names);
  }

  /** `path_to_key`: the string without a trailing slash. */
  function KeyOf(p: PathBuf): string {
    if p.absolute || p.names == [] then Join(p.names) else Join(p.names)[1..]
  }

  // ---------------------------------------------------------------------------
  // Longest prefix
  // ---------------------------------------------------------------------------

  /** `m` is mounted, its string starts the key, and no longer mount's string does. */
  ghost predicate Longest(mounts: Mounts, key: string, m: Path) {
    && m in mounts && Join(m) <= key
    && forall q <- mounts :: Join(q) <= key ==> |Join(q)| <= |Join(m)|
  }

  lemma LongestUnique(mounts: Mounts, key: string, m: Path, q: Path)
    requires Longest(mounts, key, m) && Longest(mounts, key, q)
    ensures m == q
  {
    assert Join(m) == key[..|Join(m)|] && Join(q) == key[..|Join(q)|];
    JoinInjective(m, q);
  }

  /** The path handed to the mounted filesystem: the rest after a component-wise prefix, or
      the whole path if the match ended inside a component. */
  function Relative(names: Path, m: Path): Path {
    if m <= names then names[|m|..] else names
  }

  datatype Resolution = Panicked | NotMounted | Routed(fs: Fs, path: Path)

  /** A resolution: a panic exactly for a key outside ASCII, else the longest matching mount's
      filesystem and the path below it. */
  ghost predicate Resolved(mounts: Mounts, raw: seq<Component>, r: Resolution) {
    var key := KeyOf(Normalize(raw));
    (r.Panicked? <==> !Ascii(key)) &&
    match r
    case Panicked => true
    case NotMounted => forall m <- mounts :: !(Join(m) <= key)
    case Routed(fs, path) =>
      exists m :: Longest(mounts, key, m) && fs == mounts[m] && path == Relative(Normalize(raw).names, m)
  }

  // ---------------------------------------------------------------------------
  // The mount table
  // ---------------------------------------------------------------------------

  datatype Table = Table(mounts: Mounts, trie: Trie)

  datatype Op = DoMount(at: Path, fs: Fs) | DoUnmount(at: Path)

  function Next(t: Table, op: Op): Table {
    match op
    case DoMount(m, fs) =>
      if m == [] || m in t.mounts then t else Table(t.mounts[m := fs], t.trie[Join(m) := fs])
    case DoUnmount(m) =>
      if m in t.mounts then Table(t.mounts - {m}, t.trie - {Join(m)}) else t
  }

  function Run(ops: seq<Op>): Table {
    if ops == [] then Table(map[], map[]) else Next(Run(ops[..|ops|-1]), ops[|ops|-1])
  }

  datatype Search = SearchPanicked | Absent | Found(len: nat)

  /** No prefix of more than `i` bytes is in the trie. */
  ghost predicate NoneAbove(trie: Trie, key: string, i: int) {
    forall k :: 0 <= k <= |key| && i < ByteLength(key[..k]) ==> key[..k] !in trie
  }

  lemma NoneLonger(trie: Trie, key: string)
    ensures NoneAbove(trie, key, ByteLength(key))
  {
    forall k | 0 <= k <= |key| ensures ByteLength(key[..k]) <= ByteLength(key) {
      LongerPrefix(key, k);
    }
  }

  lemma NoneAtCut(trie: Trie, key: string, i: nat)
    requires Cut(key, i).Some? && key[..Cut(key, i).value] !in trie
    ensures forall k :: 0 <= k <= |key| && ByteLength(key[..k]) == i ==> key[..k] !in trie
  {
    forall k | 0 <= k <= |key| && ByteLength(key[..k]) == i ensures key[..k] !in trie {
      CutAtPrefix(key, k);
    }
  }

  /** In terms of characters. */
  lemma AllPrefixes(trie: Trie, key: string, i: int)
    requires NoneAbove(trie, key, i)
    ensures i < 0 ==> forall k :: 0 <= k <= |key| ==> key[..k] !in trie
    ensures forall n, k :: 0 <= n < k <= |key| && i == ByteLength(key[..n]) ==> key[..k] !in trie
  {
    forall n, k | 0 <= n < k <= |key| && i == ByteLength(key[..n]) ensures key[..k] !in trie {
      LongerPrefix(key[..k], n);
      assert key[..k][..n] == key[..n];
    }
  }

  class MountTable {
    var mounts: Mounts
    var trie: Trie

    function View(): Table
      reads this
    {
      Table(mounts, trie)
    }

    constructor ()
      ensures mounts == map[] && trie == map[] && Agree(mounts, trie)
    {
      mounts, trie := map[], map[];
    }

    /** `mount` (mountable_fs.rs:53-93). */
    method Mount(m: Path, fs: Fs) returns (err: Option<MountError>)
      requires Agree(mounts, trie)
      modifies this
      ensures Agree(mounts, trie)
      ensures err == if m == [] then Some(InvalidInput) else if m in old(mounts) then Some(AlreadyExists) else None
      ensures View() == Next(old(View()), DoMount(m, fs))
    {
      if m == [] {
        return Some(InvalidInput);
      }
      if m in mounts {
        return Some(AlreadyExists);
      }
      MountAgrees(mounts, trie, m, fs);
      mounts := mounts[m := fs];
      trie := trie[Join(m) := fs];
      err := None;
    }

    /** `unmount` (mountable_fs.rs:96-118). */
    method Unmount(m: Path) returns (err: Option<MountError>)
      requires Agree(mounts, trie)
      modifies this
      ensures Agree(mounts, trie)
      ensures err == if m in old(mounts) then None else Some(NotFound)
      ensures View() == Next(old(View()), DoUnmount(m))
    {
      if m !in mounts {
        return Some(NotFound);
      }
      UnmountAgrees(mounts, trie, m);
      mounts := mounts - {m};
      trie := trie - {Join(m)};
      err := None;
    }

    /** The first search of `resolve_fs` (mountable_fs.rs:127-147): slices at ever smaller byte
        offsets.  The length found is in characters. */
    method SearchTrie(key: string) returns (r: Search)
      ensures r.SearchPanicked? <==> !Ascii(key)
      ensures r.Absent? ==> forall k :: 0 <= k <= |key| ==> key[..k] !in trie
      ensures r.Found? ==> r.len <= |key| && key[..r.len] in trie
      ensures r.Found? ==> forall k :: r.len < k <= |key| ==> key[..k] !in trie
    {
      AllCutsIff(key);
      r := Absent;
      var bestLen := 0;
      var i: int := ByteLength(key);
      NoneLonger(trie, key);
      while i >= 0
        invariant -1 <= i <= ByteLength(key) && !r.SearchPanicked?
        invariant forall j: nat :: i < j <= ByteLength(key) ==> Cut(key, j).Some?
        invariant r.Absent? ==> NoneAbove(trie, key, i)
        invariant r.Found? ==> r.len <= |key| && key[..r.len] in trie && bestLen == ByteLength(key[..r.len]) > i
        invariant r.Found? ==> NoneAbove(trie, key, bestLen)
      {
        var cut := Cut(key, i);
        if cut.None? {
          return SearchPanicked;
        }
        if key[..cut.value] in trie {
          if r.Absent? || i >= bestLen {
            bestLen := i;
            r := Found(cut.value);
          }
        } else {
          NoneAtCut(trie, key, i);
        }
        i := i - 1;
      }
      AllPrefixes(trie, key, if r.Found? then bestLen else -1);
    }

    /** The second search (mountable_fs.rs:151-167): all mounts, keeping the longest match.  It is
        reached only with an ASCII key, whose prefixes have as many bytes as characters. */
    method SearchMounts(key: string) returns (best: Option<Path>)
      requires [] !in mounts
      ensures best.None? ==> forall m <- mounts :: !(Join(m) <= key)
      ensures best.Some? ==> Longest(mounts, key, best.value)
    {
      best := None;
      var bestLen := 0;
      var todo := mounts.Keys;
      while todo != {}
        invariant todo <= mounts.Keys
        invariant best.None? ==> bestLen == 0 && forall m <- mounts :: m !in todo ==> !(Join(m) <= key)
        invariant best.Some? ==> best.value in mounts && Join(best.value) <= key && bestLen == |Join(best.value)|
        invariant best.Some? ==> forall m <- mounts :: m !in todo && Join(m) <= key ==> |Join(m)| <= bestLen
        decreases todo
      {
        var m :| m in todo;
        todo := todo - {m};
        JoinStartsWithSlash(m);
        if Join(m) <= key && |Join(m)| > bestLen {
          bestLen := |Join(m)|;
          best := Some(m);
        }
      }
    }

    /** `resolve_fs` (mountable_fs.rs:121-189): both searches find the same mount. */
    method ResolveFs(raw: seq<Component>) returns (r: Resolution)
      requires Agree(mounts, trie)
      ensures Resolved(mounts, raw, r)
    {
      var normalized := Normalize(raw);
      var key := KeyOf(normalized);
      var best := SearchTrie(key);
      if best.SearchPanicked? {
        return Panicked;
      }
      if best.Absent? {
        forall m | m in mounts ensures !(Join(m) <= key) {
          if Join(m) <= key {
            PrefixIsSlice(Join(m), key);
          }
        }
        return NotMounted;
      }
      var fs := trie[key[..best.len]];
      var mountPoint := SearchMounts(key);
      SameMount(mounts, trie, key, best.len);
      ghost var m :| m in mounts && Join(m) == key[..best.len] && Longest(mounts, key, m);
      if mountPoint.None? {
        assert false;
      }
      LongestUnique(mounts, key, m, mountPoint.value);
      r := Routed(fs, Relative(normalized.names, mountPoint.value));
    }
  }

  lemma PrefixIsSlice(a: string, b: string)
    requires a <= b
    ensures b[..|a|] == a
  {
  }

  lemma MountAgrees(mounts: Mounts, trie: Trie, m: Path, fs: Fs)
    requires Agree(mounts, trie) && m != [] && m !in mounts
    ensures Agree(mounts[m := fs], trie[Join(m) := fs])
  {
    forall q | q in mounts ensures Join(q) != Join(m) {
      if Join(q) == Join(m) {
        JoinInjective(q, m);
      }
    }
    var mounts', trie' := mounts[m := fs], trie[Join(m) := fs];
    forall k | k in trie' ensures exists q <- mounts' :: k == Join(q) {
      if k == Join(m) {
        assert m in mounts';
      } else {
        var q :| q in mounts && k == Join(q);
        assert q in mounts';
      }
    }
  }

  lemma UnmountAgrees(mounts: Mounts, trie: Trie, m: Path)
    requires Agree(mounts, trie) && m in mounts
    ensures Agree(mounts - {m}, trie - {Join(m)})
  {
    var mounts', trie' := mounts - {m}, trie - {Join(m)};
    forall q | q in mounts' ensures Join(q) in trie' && trie'[Join(q)] == mounts'[q] {
      if Join(q) == Join(m) {
        JoinInjective(q, m);
      }
    }
    forall k | k in trie' ensures exists q <- mounts' :: k == Join(q) {
      var q :| q in mounts && k == Join(q);
      assert q in mounts';
    }
  }

  /** Map and trie agree after every sequence of mounts and unmounts. */
  lemma {:induction false} RunAgrees(ops: seq<Op>)
    ensures Agree(Run(ops).mounts, Run(ops).trie)
  {
    if ops != [] {
      var t, op := Run(ops[..|ops|-1]), ops[|ops|-1];
      RunAgrees(ops[..|ops|-1]);
      match op
      case DoMount(m, fs) =>
        if m != [] && m !in t.mounts {
          MountAgrees(t.mounts, t.trie, m, fs);
        }
      case DoUnmount(m) =>
        if m in t.mounts {
          UnmountAgrees(t.mounts, t.trie, m);
        }
    }
  }

  /** What is mounted at a path after a run: the filesystem of the first mount there since the last
      unmount. */
  function MountedAt(ops: seq<Op>, at: Path): Option<Fs> {
    if ops == [] then None
    else
      var before, op := MountedAt(ops[..|ops|-1], at), ops[|ops|-1];
      if op.at != at || (at == [] && op.DoMount?) then before
      else if op.DoUnmount? then None
      else if before.Some? then before
      else Some(op.fs)
  }

  function MountOf(t: Table, at: Path): Option<Fs> {
    if at in t.mounts then Some(t.mounts[at]) else None
  }

  lemma NextMounts(t: Table, op: Op, at: Path)
    ensures MountOf(Next(t, op), at) ==
            if op.at != at || (at == [] && op.DoMount?) then MountOf(t, at)
            else if op.DoUnmount? then None
            else if MountOf(t, at).Some? then MountOf(t, at)
            else Some(op.fs)
  {
  }

  lemma {:induction false} RunMounts(ops: seq<Op>, at: Path)
    ensures MountOf(Run(ops), at) == MountedAt(ops, at)
  {
    if ops != [] {
      RunMounts(ops[..|ops|-1], at);
      NextMounts(Run(ops[..|ops|-1]), ops[|ops|-1], at);
    }
  }

  /** The longest prefix found in the trie belongs to the longest matching mount. */
  lemma SameMount(mounts: Mounts, trie: Trie, key: string, i: nat)
    requires Agree(mounts, trie) && i <= |key| && key[..i] in trie
    requires forall j :: i < j <= |key| ==> key[..j] !in trie
    ensures exists m :: m in mounts && Join(m) == key[..i] && Longest(mounts, key, m)
  {
    var m :| m in mounts && key[..i] == Join(m);
    forall q | q in mounts && Join(q) <= key ensures |Join(q)| <= |Join(m)| {
      assert key[..|Join(q)|] == Join(q);
    }
    assert Longest(mounts, key, m);
  }

  // ---------------------------------------------------------------------------
  // What routing means
  // ---------------------------------------------------------------------------

  /** A path has one resolution, and its normal form has the same one. */
  lemma ResolvesAsNormalized(mounts: Mounts, raw: seq<Component>, a: Resolution, b: Resolution)
    requires Resolved(mounts, raw, a) && Resolved(mounts, Components(Normalize(raw)), b)
    ensures a == b
  {
    NormalizeIdempotent(raw);
    var key := KeyOf(Normalize(raw));
    if a.Routed? && b.Routed? {
      var m :| Longest(mounts, key, m) && a.fs == mounts[m] && a.path == Relative(Normalize(raw).names, m);
      var q :| Longest(mounts, key, q) && b.fs == mounts[q] && b.path == Relative(Normalize(raw).names, q);
      LongestUnique(mounts, key, m, q);
    }
  }

  /** The right mount for a path: the deepest ancestor, component by component. */
  ghost predicate Deepest(mounts: Mounts, names: Path, m: Path) {
    && m in mounts && m <= names
    && forall q <- mounts :: q <= names ==> |q| <= |m|
  }

  lemma {:induction false} LongerJoin(p: Path, q: Path)
    requires p <= q
    ensures |Join(p)| <= |Join(q)| && (|Join(p)| == |Join(q)| ==> p == q)
  {
    var rest := q[|p|..];
    assert q == p + rest;
    JoinConcat(p, rest);
    JoinStartsWithSlash(rest);
  }

  /** For an absolute path the mount found is the deepest ancestor, and mount and relative path
      together give back the path, exactly when the match ends on a component boundary. */
  lemma RoutesCorrectlyIff(mounts: Mounts, names: Path, m: Path)
    requires Longest(mounts, Join(names), m)
    ensures var key, len := Join(names), |Join(m)|;
            && (Deepest(mounts, names, m) <==> len == |key| || key[len] == '/')
            && (m + Relative(names, m) == names <==> Deepest(mounts, names, m))
            && (!Deepest(mounts, names, m) ==> Relative(names, m) == names)
  {
    PrefixAtBoundary(m, names);
    if m <= names {
      forall q | q in mounts && q <= names ensures |q| <= |m| {
        var rest := names[|q|..];
        assert names == q + rest;
        JoinConcat(q, rest);
        if |m| < |q| {
          assert m <= q;
          LongerJoin(m, q);
        }
      }
    }
  }

  /** End to end, for every plain absolute path and its answer: the filesystem is that of the deepest
      mount above the path, with the rest of the path, exactly if the longest mount whose string starts
      the path's string ends on a component boundary. */
  lemma ResolvesToDeepestIff(mounts: Mounts, names: Path, r: Resolution)
    requires Resolved(mounts, [RootDir] + NameComponents(names), r) && r.Routed?
    ensures exists m :: Longest(mounts, Join(names), m) && r.fs == mounts[m] &&
                        (m + r.path == names <==> Deepest(mounts, names, m)) &&
                        (Deepest(mounts, names, m) <==> |Join(m)| == |Join(names)| || Join(names)[|Join(m)|] == '/')
  {
    PlainPathStays(names);
    var m :| Longest(mounts, Join(names), m) && r.fs == mounts[m] && r.path == Relative(names, m);
    RoutesCorrectlyIff(mounts, names, m);
  }

  /** A path makes `resolve_fs` panic exactly if one of its names has a character outside ASCII. */
  lemma {:induction false} JoinAscii(names: Path)
    ensures Ascii(Join(names)) <==> forall n <- names :: Ascii(n)
  {
    if names != [] {
      var n, rest := names[0], names[1..];
      JoinAscii(rest);
      AsciiConcat("/" + n, Join(rest));
      AsciiConcat("/", n);
      assert forall x :: x in names <==> x == n || x in rest;
    }
  }

  lemma AsciiConcat(s: string, t: string)
    ensures Ascii(s + t) <==> Ascii(s) && Ascii(t)
  {
    if Ascii(s + t) {
      assert forall i :: 0 <= i < |s| ==> s[i] == (s + t)[i];
      assert forall i :: 0 <= i < |t| ==> t[i] == (s + t)[|s| + i];
    }
  }

  /** The exception: a mount point that is a string prefix inside a component. */
  lemma MidComponentMatch()
    ensures ValidName("memfs") && ValidName("memfs2") && ValidName("x")
    ensures Join(["memfs"]) <= Join(["memfs2", "x"]) && !(["memfs"] <= ["memfs2", "x"])
    ensures Relative(["memfs2", "x"], ["memfs"]) == ["memfs2", "x"]
  {
    var a: Name := "memfs";
    var b: Name := "memfs2";
    var x: Name := "x";
    JoinCons(a, []);
    assert [a] == [a] + [];
    JoinCons(b, [x]);
    assert [b, x] == [b] + [x];
    assert Join([]) == "";
    assert Join([a]) == "/memfs" && Join([b, x])[..6] == "/memfs";
    assert a != b by { assert |a| == 5 && |b| == 6; }
    assert [a][0] != [b, x][0];
  }

  /** A relative path is never routed: mount points start with a slash, its key does not. */
  lemma RelativeIsNotRouted(mounts: Mounts, raw: seq<Component>, r: Resolution)
    requires [] !in mounts && !Normalize(raw).absolute && Resolved(mounts, raw, r)
    ensures !r.Routed?
  {
    var p := Normalize(raw);
    RelativeKey(p);
    forall m | m in mounts ensures !(Join(m) <= KeyOf(p)) {
      NotAPrefix(m, KeyOf(p));
    }
  }

  lemma NotAPrefix(m: Path, key: string)
    requires m != [] && (key == "" || key[0] != '/')
    ensures !(Join(m) <= key)
  {
    JoinStartsWithSlash(m);
  }

  lemma RelativeKey(p: PathBuf)
    requires !p.absolute
    ensures KeyOf(p) == "" || KeyOf(p)[0] != '/'
  {
    if p.names != [] {
      assert Join(p.names)[1..] == p.names[0] + Join(p.names[1..]);
      assert Join(p.names)[1] == p.names[0][0];
    }
  }
}

/**
 CachedFs (crates/racfs-vfs/src/cached_fs.rs) over HashMapCache (crates/racfs-core/src/cache.rs)
 over MemFS: cached answers agree with the filesystem behind them.

 Cache keys are strings, `<prefix><kind>:<path>`, so that invalidation by key prefix reaches
 every descendant.
 */
module CachedFs {
  import opened Common
  import opened Paths
  import opened MemFs

  datatype Kind = ReadKind | StatKind | ReaddirKind

  /** What a cache entry holds; metadata is stored as JSON with millisecond times. */
  datatype Blob = Content(bytes: Bytes) | Json(meta: Meta) | Listing(id: nat)

  type Cache = map<string, Blob>

  // ---------------------------------------------------------------------------
  // Keys
  // ---------------------------------------------------------------------------

  function KindName(k: Kind): string {
    match k
    case ReadKind => "read"
    case StatKind => "stat"
    case ReaddirKind => "readdir"
  }

  /** `key` (cached_fs.rs:46-49). */
  function Key(prefix: string, k: Kind, p: Path): string {
    prefix + (KindName(k) + ":" + Render(p))
  }

  lemma KindsDiffer(k: Kind, l: Kind, s: string, t: string)
    requires KindName(k) + ":" + s == KindName(l) + ":" + t
    ensures k == l && s == t
  {
    var a, b := KindName(k) + ":" + s, KindName(l) + ":" + t;
    assert a[0] == KindName(k)[0] && b[0] == KindName(l)[0];
    assert a[4] == (if k == ReaddirKind then 'd' else ':');
    assert b[4] == (if l == ReaddirKind then 'd' else ':');
    assert s == a[|KindName(k)| + 1..] && t == b[|KindName(l)| + 1..];
  }

  /** Different questions never share a cache key. */
  lemma KeyInjective(prefix: string, k: Kind, p: Path, l: Kind, q: Path)
    requires Key(prefix, k, p) == Key(prefix, l, q)
    ensures k == l && p == q
  {
    assert Key(prefix, k, p)[|prefix|..] == KindName(k) + ":" + Render(p);
    assert Key(prefix, l, q)[|prefix|..] == KindName(l) + ":" + Render(q);
    KindsDiffer(k, l, Render(p), Render(q));
    RenderInjective(p, q);
  }

  /** A descendant's key starts with its ancestor's key. */
  lemma KeyPrefix(prefix: string, k: Kind, p: Path, q: Path)
    requires p <= q
    ensures Key(prefix, k, p) <= Key(prefix, k, q)
  {
    RenderPrefix(p, q);
  }

  // ---------------------------------------------------------------------------
  // HashMapCache
  // ---------------------------------------------------------------------------

  function WithoutPrefix(cache: Cache, pre: string): Cache {
    map k | k in cache && !(pre <= k) :: cache[k]
  }

  class HashMapCache {
    var inner: Cache

    constructor ()
      ensures inner == map[]
    {
      inner := map[];
    }

    method Get(key: string) returns (r: Option<Blob>)
      ensures r == if key in inner then Some(inner[key]) else None
    {
      r := if key in inner then Some(inner[key]) else None;
    }

    method Put(key: string, value: Blob)
      modifies this
      ensures inner == old(inner)[key := value]
    {
      inner := inner[key := value];
    }

    method RemoveKey(key: string)
      modifies this
      ensures inner == old(inner) - {key}
    {
      inner := inner - {key};
    }

    /** `invalidate_prefix` (cache.rs:103-113): collect the matching keys, then remove each. */
    method InvalidatePrefix(pre: string)
      modifies this
      ensures inner == WithoutPrefix(old(inner), pre)
    {
      var keys := set k | k in inner && pre <= k;
      ghost var all := keys;
      while keys != {}
        invariant keys <= all
        invariant inner == old(inner) - (all - keys)
        decreases keys
      {
        var k :| k in keys;
        inner := inner - {k};
        keys := keys - {k};
      }
    }
  }

  // ---------------------------------------------------------------------------
  // CachedFs
  // ---------------------------------------------------------------------------

  datatype State = State(files: Files, cache: Cache)

  datatype Call =
    | Mutate(op: Op)
    | ReadCall(p: Path, offset: int, size: int)
    | StatCall(p: Path)
    | ReadDirCall(p: Path, listing: nat)

  /** Drops the cached directory listing of the parent; the root has no parent. */
  function DropParentListing(cache: Cache, prefix: string, p: Path): Cache {
    if p == [] then cache else cache - {Key(prefix, ReaddirKind, p[..|p|-1])}
  }

  function InvalidatePath(cache: Cache, prefix: string, p: Path): Cache {
    DropParentListing(cache - {Key(prefix, ReadKind, p)} - {Key(prefix, StatKind, p)} - {Key(prefix, ReaddirKind, p)},
                      prefix, p)
  }

  function InvalidateTree(cache: Cache, prefix: string, p: Path): Cache {
    DropParentListing(
      WithoutPrefix(WithoutPrefix(WithoutPrefix(cache, Key(prefix, ReadKind, p)), Key(prefix, StatKind, p)),
                    Key(prefix, ReaddirKind, p)),
      prefix, p)
  }

  function Invalidate(cache: Cache, prefix: string, op: Op): Cache {
    match op
    case RemoveAll(p) => InvalidateTree(cache, prefix, p)
    case Rename(p, to) => InvalidatePath(InvalidatePath(cache, prefix, p), prefix, to)
    case _ => InvalidatePath(cache, prefix, op.p)
  }

  /** The slice CachedFs cuts out of a whole file (cached_fs.rs:88-97). */
  function Slice(d: Bytes, offset: int, size: int): Bytes {
    var start := if offset < 0 then 0 else offset;
    if start >= |d| then []
    else if size < 0 then d[start..]
    else
      var end := if offset + size < 0 then 0 else if offset + size < |d| then offset + size else |d|;
      d[start..end]
  }

  /** A timestamp after a round trip through the cache. */
  function Millis(t: nat): nat { t - t % NANOS_PER_MILLI }

  function Truncated(m: Meta): Meta {
    m.(created := Millis(m.created), modified := Millis(m.modified), accessed := Millis(m.accessed))
  }

  function Step(prefix: string, st: State, c: Call): (State, Outcome) {
    match c
    case Mutate(op) =>
      var (files, r) := Apply(st.files, op);
      (State(files, if r.Failed? then st.cache else Invalidate(st.cache, prefix, op)), r)
    case ReadCall(p, offset, size) =>
      var key := Key(prefix, ReadKind, p);
      if key in st.cache && st.cache[key].Content? then (st, Data(Slice(st.cache[key].bytes, offset, size)))
      else
        var whole := Read(st.files, p, 0, -1);
        if !whole.Data? then (st, whole)
        else (st.(cache := st.cache[key := Content(whole.bytes)]), Data(Slice(whole.bytes, offset, size)))
    case StatCall(p) =>
      var key := Key(prefix, StatKind, p);
      if key in st.cache && st.cache[key].Json? then (st, Info(st.cache[key].meta))
      else
        var r := Stat(st.files, p);
        (if r.Info? then st.(cache := st.cache[key := Json(Truncated(r.meta))]) else st, r)
    case ReadDirCall(p, listing) =>
      var key := Key(prefix, ReaddirKind, p);
      (if key in st.cache then st else st.(cache := st.cache[key := Listing(listing)]), Done)
  }

  class CachedFileSystem {
    const inner: MemFileSystem
    const cache: HashMapCache
    const keyPrefix: string

    function View(): State
      reads inner, cache
    {
      State(inner.files, cache.inner)
    }

    constructor (inner: MemFileSystem, cache: HashMapCache, keyPrefix: string)
      ensures this.inner == inner && this.cache == cache && this.keyPrefix == keyPrefix
    {
      this.inner, this.cache, this.keyPrefix := inner, cache, keyPrefix;
    }

    /** `invalidate_path` (cached_fs.rs:51-64). */
    method DropPath(p: Path)
      modifies cache
      ensures cache.inner == InvalidatePath(old(cache.inner), keyPrefix, p)
    {
      cache.RemoveKey(Key(keyPrefix, ReadKind, p));
      cache.RemoveKey(Key(keyPrefix, StatKind, p));
      cache.RemoveKey(Key(keyPrefix, ReaddirKind, p));
      if p != [] {
        cache.RemoveKey(Key(keyPrefix, ReaddirKind, p[..|p|-1]));
      }
    }

    /** `invalidate_prefix` (cached_fs.rs:66-80). */
    method DropTree(p: Path)
      modifies cache
      ensures cache.inner == InvalidateTree(old(cache.inner), keyPrefix, p)
    {
      cache.InvalidatePrefix(Key(keyPrefix, ReadKind, p));
      cache.InvalidatePrefix(Key(keyPrefix, StatKind, p));
      cache.InvalidatePrefix(Key(keyPrefix, ReaddirKind, p));
      if p != [] {
        cache.RemoveKey(Key(keyPrefix, ReaddirKind, p[..|p|-1]));
      }
    }

    /** `read` (cached_fs.rs:85-111). */
    method ReadAt(p: Path, offset: int, size: int) returns (r: Outcome)
      modifies cache
      ensures (View(), r) == Step(keyPrefix, old(View()), ReadCall(p, offset, size))
    {
      var key := Key(keyPrefix, ReadKind, p);
      var hit := cache.Get(key);
      if hit.Some? && hit.value.Content? {
        return Data(Slice(hit.value.bytes, offset, size));
      }
      r := Read(inner.files, p, 0, -1);
      if r.Data? {
        cache.Put(key, Content(r.bytes));
        r := Data(Slice(r.bytes, offset, size));
      }
    }

    /** `stat` (cached_fs.rs:113-125). */
    method StatAt(p: Path) returns (r: Outcome)
      modifies cache
      ensures (View(), r) == Step(keyPrefix, old(View()), StatCall(p))
    {
      var key := Key(keyPrefix, StatKind, p);
      var hit := cache.Get(key);
      if hit.Some? && hit.value.Json? {
        return Info(hit.value.meta);
      }
      r := Stat(inner.files, p);
      if r.Info? {
        cache.Put(key, Json(Truncated(r.meta)));
      }
    }

    /** `create` (cached_fs.rs:130-134). */
    method Create(p: Path, now: nat) returns (r: Outcome)
      modifies inner, cache
      ensures (View(), r) == Step(keyPrefix, old(View()), Mutate(Op.Create(p, now)))
    {
      r := inner.DoCreate(p, now);
      if !r.Failed? {
        DropPath(p);
      }
    }

    /** `write` (cached_fs.rs:136-146). */
    method Write(p: Path, data: Bytes, offset: int, append: bool, now: nat) returns (r: Outcome)
      modifies inner, cache
      ensures (View(), r) == Step(keyPrefix, old(View()), Mutate(Op.Write(p, data, offset, append, now)))
    {
      r := inner.DoWrite(p, data, offset, append, now);
      if !r.Failed? {
        DropPath(p);
      }
    }

    /** `mkdir` (cached_fs.rs:151-155). */
    method Mkdir(p: Path, perm: nat, now: nat) returns (r: Outcome)
      modifies inner, cache
      ensures (View(), r) == Step(keyPrefix, old(View()), Mutate(Op.Mkdir(p, perm, now)))
    {
      r := inner.DoMkdir(p, perm, now);
      if !r.Failed? {
        DropPath(p);
      }
    }

    /** `remove` (cached_fs.rs:171-175). */
    method Remove(p: Path) returns (r: Outcome)
      modifies inner, cache
      ensures (View(), r) == Step(keyPrefix, old(View()), Mutate(Op.Remove(p)))
    {
      r := inner.DoRemove(p);
      if !r.Failed? {
        DropPath(p);
      }
    }

    /** `chmod` (cached_fs.rs:193-197). */
    method Chmod(p: Path, perm: nat, now: nat) returns (r: Outcome)
      modifies inner, cache
      ensures (View(), r) == Step(keyPrefix, old(View()), Mutate(Op.Chmod(p, perm, now)))
    {
      r := inner.DoChmod(p, perm, now);
      if !r.Failed? {
        DropPath(p);
      }
    }

    /** `truncate` (cached_fs.rs:202-208). */
    method Truncate(p: Path, size: nat, now: nat) returns (r: Outcome)
      modifies inner, cache
      ensures (View(), r) == Step(keyPrefix, old(View()), Mutate(Op.Truncate(p, size, now)))
    {
      r := inner.DoTruncate(p, size, now);
      if !r.Failed? {
        DropPath(p);
      }
    }

    /** `touch` (cached_fs.rs:210-216). */
    method Touch(p: Path, now: nat) returns (r: Outcome)
      modifies inner, cache
      ensures (View(), r) == Step(keyPrefix, old(View()), Mutate(Op.Touch(p, now)))
    {
      r := inner.DoTouch(p, now);
      if !r.Failed? {
        DropPath(p);
      }
    }

    /** `remove_all` (cached_fs.rs:177-181). */
    method RemoveTree(p: Path) returns (r: Outcome)
      modifies inner, cache
      ensures (View(), r) == Step(keyPrefix, old(View()), Mutate(RemoveAll(p)))
    {
      r := inner.DoRemoveAll(p);
      if !r.Failed? {
        DropTree(p);
      }
    }

    /** `rename` (cached_fs.rs:183-188). */
    method Rename(p: Path, to: Path) returns (r: Outcome)
      modifies inner, cache
      ensures (View(), r) == Step(keyPrefix, old(View()), Mutate(Op.Rename(p, to)))
    {
      r := inner.DoRename(p, to);
      if !r.Failed? {
        DropPath(p);
        DropPath(to);
      }
    }
  }

  // ---------------------------------------------------------------------------
  // Coherence
  // ---------------------------------------------------------------------------

  /** Cached contents are the file's contents. */
  ghost predicate ReadOk(prefix: string, st: State, p: Path) {
    var key := Key(prefix, ReadKind, p);
    key in st.cache ==>
      p in st.files && !st.files[p].meta.isDir && st.cache[key] == Content(st.files[p].data)
  }

  /** Cached metadata of an existing path is its metadata, to the millisecond. */
  ghost predicate StatOk(prefix: string, st: State, p: Path) {
    var key := Key(prefix, StatKind, p);
    key in st.cache ==>
      st.cache[key].Json? && (p in st.files ==> st.cache[key].meta == Truncated(st.files[p].meta))
  }

  /** Metadata is cached for a path that no longer exists. */
  ghost predicate Stale(prefix: string, st: State, p: Path) {
    Key(prefix, StatKind, p) in st.cache && p !in st.files
  }

  ghost predicate Coherent(prefix: string, st: State) {
    && (forall p: Path :: ReadOk(prefix, st, p))
    && (forall p: Path :: StatOk(prefix, st, p))
  }

  lemma InvalidatedPath(cache: Cache, prefix: string, p: Path, q: Path, k: Kind)
    ensures Key(prefix, k, p) !in InvalidatePath(cache, prefix, p)
    ensures forall key <- InvalidatePath(cache, prefix, p) ::
      key in cache && InvalidatePath(cache, prefix, p)[key] == cache[key]
  {
  }

  lemma InvalidatedTree(cache: Cache, prefix: string, p: Path, q: Path, k: Kind)
    ensures p <= q ==> Key(prefix, k, q) !in InvalidateTree(cache, prefix, p)
    ensures forall key <- InvalidateTree(cache, prefix, p) ::
      key in cache && InvalidateTree(cache, prefix, p)[key] == cache[key]
  {
    if p <= q {
      KeyPrefix(prefix, k, p, q);
    }
  }

  /** A successful mutation forgets every path it touches and adds nothing. */
  lemma Invalidated(cache: Cache, prefix: string, op: Op, q: Path, k: Kind)
    ensures Touches(op, q) ==> Key(prefix, k, q) !in Invalidate(cache, prefix, op)
    ensures forall key <- Invalidate(cache, prefix, op) ::
      key in cache && Invalidate(cache, prefix, op)[key] == cache[key]
  {
    match op
    case RemoveAll(p) => InvalidatedTree(cache, prefix, p, q, k);
    case Rename(p, to) =>
      InvalidatedPath(cache, prefix, p, q, k);
      InvalidatedPath(InvalidatePath(cache, prefix, p), prefix, to, q, k);
    case _ => InvalidatedPath(cache, prefix, op.p, q, k);
  }

  lemma MutateKeeps(prefix: string, st: State, op: Op, q: Path)
    requires ReadOk(prefix, st, q) && StatOk(prefix, st, q)
    ensures var st' := Step(prefix, st, Mutate(op)).0;
            ReadOk(prefix, st', q) && StatOk(prefix, st', q)
  {
    Invalidated(st.cache, prefix, op, q, ReadKind);
    Invalidated(st.cache, prefix, op, q, StatKind);
    if !Touches(op, q) {
      OnlyTouched(st.files, op, q);
    } else if Apply(st.files, op).1.Failed? {
      FailureChangesNothing(st.files, op);
    }
  }

  lemma QueryKeeps(prefix: string, st: State, c: Call, q: Path)
    requires !c.Mutate? && ReadOk(prefix, st, q) && StatOk(prefix, st, q)
    ensures var st' := Step(prefix, st, c).0;
            ReadOk(prefix, st', q) && StatOk(prefix, st', q)
  {
    var kind := match c case ReadCall(_, _, _) => ReadKind case StatCall(_) => StatKind case _ => ReaddirKind;
    if Key(prefix, kind, c.p) == Key(prefix, ReadKind, q) {
      KeyInjective(prefix, kind, c.p, ReadKind, q);
    }
    if Key(prefix, kind, c.p) == Key(prefix, StatKind, q) {
      KeyInjective(prefix, kind, c.p, StatKind, q);
    }
  }

  lemma StepCoherent(prefix: string, st: State, c: Call)
    requires Coherent(prefix, st)
    ensures Coherent(prefix, Step(prefix, st, c).0)
  {
    forall q: Path ensures ReadOk(prefix, Step(prefix, st, c).0, q) && StatOk(prefix, Step(prefix, st, c).0, q) {
      assert ReadOk(prefix, st, q) && StatOk(prefix, st, q);
      if c.Mutate? {
        MutateKeeps(prefix, st, c.op, q);
      } else {
        QueryKeeps(prefix, st, c, q);
      }
    }
  }

  // ---------------------------------------------------------------------------
  // Whole runs
  // ---------------------------------------------------------------------------

  function Fresh(now: nat): State {
    State(map[[] := NewDir([], 0x1ED, now)], map[])
  }

  function Run(prefix: string, now: nat, calls: seq<Call>): State {
    if calls == [] then Fresh(now) else Step(prefix, Run(prefix, now, calls[..|calls|-1]), calls[|calls|-1]).0
  }

  /** After any sequence of operations the cache is coherent with the filesystem. */
  lemma {:induction false} RunCoherent(prefix: string, now: nat, calls: seq<Call>)
    ensures Coherent(prefix, Run(prefix, now, calls))
  {
    if calls != [] {
      RunCoherent(prefix, now, calls[..|calls|-1]);
      StepCoherent(prefix, Run(prefix, now, calls[..|calls|-1]), calls[|calls|-1]);
    }
  }

  /** After a call that was answered with data or metadata the cache holds what it needs to answer again:
      the next one neither asks the filesystem nor changes anything. */
  lemma SecondAnswerFromCache(prefix: string, st: State, p: Path, offset: int, size: int, files: Files)
    requires Coherent(prefix, st) && p in st.files
    ensures !st.files[p].meta.isDir ==>
      var (st', r) := Step(prefix, st, ReadCall(p, offset, size));
      Step(prefix, st'.(files := files), ReadCall(p, offset, size)) == (st'.(files := files), r)
    ensures var st' := Step(prefix, st, StatCall(p)).0;
            Step(prefix, st'.(files := files), StatCall(p)).0 == st'.(files := files) &&
            Step(prefix, st'.(files := files), StatCall(p)).1 == Step(prefix, st', StatCall(p)).1
    ensures forall listing :: Key(prefix, ReaddirKind, p) in Step(prefix, st, ReadDirCall(p, listing)).0.cache
  {
    assert ReadOk(prefix, st, p) && StatOk(prefix, st, p);
  }

  /** MemFS panics on this request while CachedFs answers with an empty slice. */
  ghost predicate EndsBeforeStart(files: Files, p: Path, offset: int, size: int) {
    size >= 0 && offset + size < 0 && p in files && !files[p].meta.isDir && files[p].data != []
  }

  /** After any run a cached read, hit or miss, is exactly what MemFS would answer, except for
      a request that lies wholly before the start of a non-empty file. */
  lemma ReadAgrees(prefix: string, now: nat, calls: seq<Call>, p: Path, offset: int, size: int)
    ensures var st := Run(prefix, now, calls);
            Step(prefix, st, ReadCall(p, offset, size)).1 == Read(st.files, p, offset, size) <==>
            !EndsBeforeStart(st.files, p, offset, size)
  {
    RunCoherent(prefix, now, calls);
    var st := Run(prefix, now, calls);
    assert ReadOk(prefix, st, p);
    if p in st.files && !st.files[p].meta.isDir {
      assert Read(st.files, p, 0, -1) == Data(st.files[p].data);
    }
  }

  /** A time as the cache gives it back: exact, or cut to the millisecond. */
  ghost predicate TimeKept(given: nat, actual: nat) {
    given == actual || (given % 1_000_000 == 0 && given <= actual < given + 1_000_000)
  }

  /** The answer tells the same error, or the same path, type, size and permissions, and the same times
      to the millisecond. */
  ghost predicate SameStat(r: Outcome, actual: Outcome) {
    if !actual.Info? then r == actual
    else
      && r.Info?
      && r.meta.path == actual.meta.path && r.meta.isDir == actual.meta.isDir
      && r.meta.size == actual.meta.size && r.meta.perm == actual.meta.perm
      && TimeKept(r.meta.created, actual.meta.created) && TimeKept(r.meta.modified, actual.meta.modified)
      && TimeKept(r.meta.accessed, actual.meta.accessed)
  }

  lemma MillisKept(t: nat)
    ensures TimeKept(Millis(t), t)
  {
    var q := t / 1_000_000;
    assert Millis(t) == q * 1_000_000;
  }

  /** A cached stat is right to the millisecond exactly when it is not stale. */
  lemma StatAgreesIff(prefix: string, now: nat, calls: seq<Call>, p: Path)
    ensures var st := Run(prefix, now, calls);
            SameStat(Step(prefix, st, StatCall(p)).1, Stat(st.files, p)) <==> !Stale(prefix, st, p)
  {
    RunCoherent(prefix, now, calls);
    var st := Run(prefix, now, calls);
    assert StatOk(prefix, st, p);
    if p in st.files {
      MillisKept(st.files[p].meta.created);
      MillisKept(st.files[p].meta.modified);
      MillisKept(st.files[p].meta.accessed);
    }
  }

  // ---------------------------------------------------------------------------
  // How a path becomes stale, and how long it stays so
  // ---------------------------------------------------------------------------

  /** A `remove` that drops a non-empty directory whose metadata is cached, and reports an error. */
  ghost predicate Dirties(prefix: string, st: State, c: Call, p: Path) {
    && c == Mutate(Remove(p))
    && p in st.files && st.files[p].meta.isDir && HasChildren(st.files, p)
    && Key(prefix, StatKind, p) in st.cache
  }

  /** The paths whose metadata a successful mutation makes the cache forget: those it touches, and
      for `remove_all` all whose string starts with the removed one's. */
  ghost predicate Forgets(op: Op, p: Path) {
    match op
    case RemoveAll(q) => Render(q) <= Render(p)
    case _ => Touches(op, p)
  }

  ghost predicate Clears(st: State, c: Call, p: Path) {
    c.Mutate? && !Apply(st.files, c.op).1.Failed? && Forgets(c.op, p)
  }

  lemma KeyPrefixIff(prefix: string, k: Kind, p: Path, l: Kind, q: Path)
    ensures Key(prefix, k, p) <= Key(prefix, l, q) <==> k == l && Render(p) <= Render(q)
  {
    CutPrefix(prefix, KindName(k) + ":" + Render(p), KindName(l) + ":" + Render(q));
    KindPrefix(k, l, Render(p), Render(q));
  }

  lemma CutPrefix(prefix: string, a: string, b: string)
    ensures prefix + a <= prefix + b <==> a <= b
  {
    assert (prefix + a)[|prefix|..] == a && (prefix + b)[|prefix|..] == b;
    if prefix + a <= prefix + b {
      assert forall i :: 0 <= i < |a| ==> a[i] == (prefix + a)[|prefix| + i] == (prefix + b)[|prefix| + i] == b[i];
    }
  }

  lemma KindPrefix(k: Kind, l: Kind, s: string, t: string)
    ensures KindName(k) + ":" + s <= KindName(l) + ":" + t <==> k == l && s <= t
  {
    var a, b := KindName(k) + ":" + s, KindName(l) + ":" + t;
    if a <= b {
      var rest := b[|a|..];
      assert b == KindName(k) + ":" + (s + rest);
      KindsDiffer(k, l, s + rest, t);
    } else if k == l && s <= t {
      CutPrefix(KindName(k) + ":", s, t);
    }
  }

  /** `p` is the directory that lists `q`. */
  ghost predicate IsParent(p: Path, q: Path) {
    q != [] && p == q[..|q|-1]
  }

  /** The directories whose listing a mutation makes the cache forget. */
  ghost predicate Relists(op: Op, p: Path) {
    match op
    case Rename(q, to) => IsParent(p, q) || IsParent(p, to)
    case _ => IsParent(p, op.p)
  }

  lemma KeysApart(prefix: string, k: Kind, p: Path, l: Kind, q: Path)
    ensures Key(prefix, k, p) == Key(prefix, l, q) <==> k == l && p == q
  {
    if Key(prefix, k, p) == Key(prefix, l, q) {
      KeyInjective(prefix, k, p, l, q);
    }
  }

  lemma PathForgets(cache: Cache, prefix: string, q: Path, k: Kind, p: Path)
    ensures Key(prefix, k, p) in InvalidatePath(cache, prefix, q) <==>
            Key(prefix, k, p) in cache && p != q && !(k == ReaddirKind && IsParent(p, q))
  {
    KeysApart(prefix, k, p, ReadKind, q);
    KeysApart(prefix, k, p, StatKind, q);
    KeysApart(prefix, k, p, ReaddirKind, q);
    if q != [] {
      KeysApart(prefix, k, p, ReaddirKind, q[..|q|-1]);
    }
  }

  lemma TreeForgets(cache: Cache, prefix: string, q: Path, k: Kind, p: Path)
    ensures Key(prefix, k, p) in InvalidateTree(cache, prefix, q) <==>
            Key(prefix, k, p) in cache && !(Render(q) <= Render(p)) && !(k == ReaddirKind && IsParent(p, q))
  {
    KeyPrefixIff(prefix, ReadKind, q, k, p);
    KeyPrefixIff(prefix, StatKind, q, k, p);
    KeyPrefixIff(prefix, ReaddirKind, q, k, p);
    if q != [] {
      KeysApart(prefix, k, p, ReaddirKind, q[..|q|-1]);
    }
  }

  /** Exactly what the cache forgets after a successful mutation: every answer about the paths above,
      and the listings of the directories that changed. */
  lemma InvalidateForgets(cache: Cache, prefix: string, op: Op, k: Kind, p: Path)
    ensures Key(prefix, k, p) in Invalidate(cache, prefix, op) <==>
            Key(prefix, k, p) in cache && !Forgets(op, p) && !(k == ReaddirKind && Relists(op, p))
  {
    match op
    case RemoveAll(q) => TreeForgets(cache, prefix, q, k, p);
    case Rename(q, to) =>
      PathForgets(cache, prefix, q, k, p);
      PathForgets(InvalidatePath(cache, prefix, q), prefix, to, k, p);
    case _ => PathForgets(cache, prefix, op.p, k, p);
  }

  /** After a successful mutation no listing it may have changed is answered from the cache. */
  lemma ListingsForgotten(prefix: string, st: State, op: Op, p: Path)
    requires !Apply(st.files, op).1.Failed? && (Touches(op, p) || Relists(op, p))
    ensures Key(prefix, ReaddirKind, p) !in Step(prefix, st, Mutate(op)).0.cache
  {
    if op.RemoveAll? && op.p <= p {
      RenderPrefix(op.p, p);
    }
    InvalidateForgets(st.cache, prefix, op, ReaddirKind, p);
  }

  /** Queries leave the files alone and cache metadata only of existing paths. */
  lemma QueryStale(prefix: string, st: State, c: Call, p: Path)
    requires !c.Mutate?
    ensures Stale(prefix, Step(prefix, st, c).0, p) <==> Stale(prefix, st, p)
  {
    var kind := match c case ReadCall(_, _, _) => ReadKind case StatCall(_) => StatKind case _ => ReaddirKind;
    if Key(prefix, kind, c.p) == Key(prefix, StatKind, p) {
      KeyInjective(prefix, kind, c.p, StatKind, p);
    }
  }

  lemma MutateStale(prefix: string, st: State, op: Op, p: Path)
    ensures Stale(prefix, Step(prefix, st, Mutate(op)).0, p) <==>
            Dirties(prefix, st, Mutate(op), p) || (Stale(prefix, st, p) && !Clears(st, Mutate(op), p))
  {
    InvalidateForgets(st.cache, prefix, op, StatKind, p);
    if !Touches(op, p) {
      OnlyTouched(st.files, op, p);
    } else {
      if op.RemoveAll? {
        RenderPrefix(op.p, p);
      }
      if Apply(st.files, op).1.Failed? {
        FailureChangesNothing(st.files, op);
      }
    }
  }

  /** After a call a path is stale exactly if the call is such a `remove` of it, or it was stale and
      the call did not make the cache forget it. */
  lemma StaleIff(prefix: string, st: State, c: Call, p: Path)
    ensures Stale(prefix, Step(prefix, st, c).0, p) <==>
            Dirties(prefix, st, c, p) || (Stale(prefix, st, p) && !Clears(st, c, p))
  {
    if c.Mutate? {
      MutateStale(prefix, st, c.op, p);
    } else {
      QueryStale(prefix, st, c, p);
    }
  }

  /** What a call does to the staleness of a path. */
  datatype Effect = Dirtying | Clearing | Neutral

  ghost function EffectOf(prefix: string, st: State, c: Call, p: Path): Effect {
    if Dirties(prefix, st, c, p) then Dirtying else if Clears(st, c, p) then Clearing else Neutral
  }

  /** The effects of the calls of a run, in order. */
  ghost function Effects(prefix: string, now: nat, calls: seq<Call>, p: Path): (es: seq<Effect>)
    ensures |es| == |calls|
  {
    if calls == [] then []
    else
      var init, last := calls[..|calls|-1], calls[|calls|-1];
      Effects(prefix, now, init, p) + [EffectOf(prefix, Run(prefix, now, init), last, p)]
  }

  /** The effect at `i` makes the path stale and none after it clears it. */
  ghost predicate DirtySince(es: seq<Effect>, i: nat) {
    i < |es| && es[i] == Dirtying && forall j :: i < j < |es| ==> es[j] != Clearing
  }

  /** Some effect does. */
  ghost predicate Dirty(es: seq<Effect>) {
    exists i: nat :: DirtySince(es, i)
  }

  lemma DirtyNext(es: seq<Effect>, e: Effect)
    ensures Dirty(es + [e]) <==> e == Dirtying || (e == Neutral && Dirty(es))
  {
    if i: nat :| DirtySince(es + [e], i) && i < |es| {
      assert forall j :: i < j < |es| ==> (es + [e])[j] == es[j];
      assert (es + [e])[|es|] != Clearing && DirtySince(es, i);
    }
    if e == Dirtying {
      assert DirtySince(es + [e], |es|);
    } else if e == Neutral {
      if i: nat :| DirtySince(es, i) {
        assert DirtySince(es + [e], i);
      }
    }
  }

  /** A path is stale after a run exactly if some `remove` made it so and nothing since has cleared
      it. */
  lemma {:induction false} StaleRunIff(prefix: string, now: nat, calls: seq<Call>, p: Path)
    ensures Stale(prefix, Run(prefix, now, calls), p) <==> Dirty(Effects(prefix, now, calls, p))
  {
    if calls != [] {
      var init, last := calls[..|calls|-1], calls[|calls|-1];
      StaleRunIff(prefix, now, init, p);
      StaleIff(prefix, Run(prefix, now, init), last, p);
      var before, e := Effects(prefix, now, init, p), EffectOf(prefix, Run(prefix, now, init), last, p);
      DirtyNext(before, e);
      assert Effects(prefix, now, calls, p) == before + [e];
    }
  }

  /** After every run `stat` agrees with MemFS to the millisecond exactly if no `remove` has failed
      on that non-empty directory while its metadata was cached, without being cleared since. */
  lemma StatAgreesRunIff(prefix: string, now: nat, calls: seq<Call>, p: Path)
    ensures var st := Run(prefix, now, calls);
            SameStat(Step(prefix, st, StatCall(p)).1, Stat(st.files, p)) <==>
            !Dirty(Effects(prefix, now, calls, p))
  {
    StatAgreesIff(prefix, now, calls, p);
    StaleRunIff(prefix, now, calls, p);
  }

  /** A directory with a file in it, and nothing cached. */
  function Setup(d: Path, child: Path): seq<Call> {
    [] + [Mutate(Op.Mkdir(d, 0, 0))] + [Mutate(Op.Touch(child, 0))]
  }

  lemma SetupReaches(prefix: string, now: nat, d: Path, child: Path)
    requires |d| == 1 && d < child
    ensures var st := Run(prefix, now, Setup(d, child));
            st.cache == map[] && child in st.files && d in st.files && st.files[d].meta.isDir
  {
    var s0 := Run(prefix, now, []);
    var s1 := RunPush(prefix, now, [], Mutate(Op.Mkdir(d, 0, 0)));
    assert s1.cache == map[] && d in s1.files && s1.files[d].meta.isDir;
    var s2 := RunPush(prefix, now, [] + [Mutate(Op.Mkdir(d, 0, 0))], Mutate(Op.Touch(child, 0)));
  }

  /** Look at a directory that has children, then try to remove it. */
  lemma DirtyRemove(prefix: string, st: State, d: Path, child: Path)
    requires st.cache == map[] && d in st.files && child in st.files && st.files[d].meta.isDir
    requires |d| == 1 && d < child
    ensures var st' := Step(prefix, Step(prefix, st, StatCall(d)).0, Mutate(Op.Remove(d))).0;
            d !in st'.files && Stale(prefix, st', d) && Step(prefix, st', StatCall(d)).1.Info?
  {
    var s1 := Step(prefix, st, StatCall(d)).0;
    assert s1.files == st.files && Key(prefix, StatKind, d) in s1.cache;
    assert HasChildren(s1.files, d);
  }

  /** The failure is real: afterwards `stat` still answers for a directory that is gone. */
  lemma StaleReached(prefix: string, now: nat, d: Path, child: Path)
    requires |d| == 1 && d < child
    ensures var st := Run(prefix, now, Setup(d, child) + [StatCall(d)] + [Mutate(Op.Remove(d))]);
            d !in st.files && Stale(prefix, st, d) && Step(prefix, st, StatCall(d)).1.Info?
  {
    SetupReaches(prefix, now, d, child);
    DirtyRemove(prefix, Run(prefix, now, Setup(d, child)), d, child);
    var s1 := RunPush(prefix, now, Setup(d, child), StatCall(d));
    var s2 := RunPush(prefix, now, Setup(d, child) + [StatCall(d)], Mutate(Op.Remove(d)));
  }

  lemma RunPush(prefix: string, now: nat, calls: seq<Call>, c: Call) returns (st: State)
    ensures st == Run(prefix, now, calls + [c]) == Step(prefix, Run(prefix, now, calls), c).0
  {
    assert (calls + [c])[..|calls + [c]|-1] == calls;
    st := Run(prefix, now, calls + [c]);
  }
}

/**
 MemFS (crates/racfs-plugin-memfs/src/fs): a map from paths to entries.  Symbolic links and
 extended attributes are left out.  Each operation is first a function on the map, then a
 method of the class that updates the map in place.
 */
module MemFs {
  import opened Common
  import opened Paths

  const NANOS_PER_MILLI: nat := 1_000_000

  /** File type, permission bits and times in nanoseconds. */
  datatype Meta = Meta(path: Path, isDir: bool, size: nat, perm: nat, created: nat, modified: nat, accessed: nat)

  datatype FileEntry = FileEntry(data: Bytes, meta: Meta)

  type Files = map<Path, FileEntry>

  datatype Error = NotFound | AlreadyExists | IsDirectory | NotADirectory | DirectoryNotEmpty | Panicked

  datatype Outcome =
    | Done
    | Written(count: nat)
    | Data(bytes: Bytes)
    | Info(meta: Meta)
    | Failed(error: Error)

  function NewFile(p: Path, now: nat): FileEntry {
    FileEntry([], Meta(p, false, 0, 0x1A4, now, now, now))
  }

  function NewDir(p: Path, perm: nat, now: nat): FileEntry {
    FileEntry([], Meta(p, true, 0, perm % 512, now, now, now))
  }

  // ---------------------------------------------------------------------------
  // Contents
  // ---------------------------------------------------------------------------

  function Zeros(n: nat): (r: Bytes)
    ensures |r| == n && forall i :: 0 <= i < n ==> r[i] == 0
  {
    seq(n, _ => 0)
  }

  /** `Vec::resize(n, 0)`. */
  function Resize(d: Bytes, n: nat): (r: Bytes)
    ensures |r| == n && forall i :: 0 <= i < n ==> r[i] == if i < |d| then d[i] else 0
  {
    if n <= |d| then d[..n] else d + Zeros(n - |d|)
  }

  /** The contents after `write`: a write at or past the end, with the append flag, or at a
      negative offset appends after zero padding; a write at offset 0 replaces the whole file;
      any other write overlays. */
  function WriteData(d: Bytes, data: Bytes, offset: int, append: bool): Bytes {
    if append || offset < 0 || offset >= |d| then (if offset > |d| then Resize(d, offset) else d) + data
    else if offset == 0 then data
    else d[..offset] + data + if offset + |data| <= |d| then d[offset + |data|..] else []
  }

  /** `read`: clamps to the end of the file.  A request that ends before the file starts makes
      the slice bounds wrap around, which panics. */
  function ReadData(d: Bytes, offset: int, size: int): Outcome {
    var start := if offset < 0 then 0 else offset;
    if start >= |d| then Data([])
    else if size < 0 then Data(d[start..])
    else if offset + size < 0 then Failed(Panicked)
    else Data(d[start..if offset + size < |d| then offset + size else |d|])
  }

  // ---------------------------------------------------------------------------
  // Operations
  // ---------------------------------------------------------------------------

  datatype Op =
    | Create(p: Path, now: nat)
    | Write(p: Path, data: Bytes, offset: int, append: bool, now: nat)
    | Mkdir(p: Path, perm: nat, now: nat)
    | Remove(p: Path)
    | RemoveAll(p: Path)
    | Rename(p: Path, to: Path)
    | Chmod(p: Path, perm: nat, now: nat)
    | Truncate(p: Path, size: nat, now: nat)
    | Touch(p: Path, now: nat)

  /** `ensure_parent_exists`: the root needs no entry. */
  function ParentError(files: Files, p: Path): Outcome {
    if |p| < 2 then Done
    else
      var parent := p[..|p|-1];
      if parent !in files then Failed(NotFound)
      else if !files[parent].meta.isDir then Failed(NotADirectory)
      else Done
  }

  predicate HasChildren(files: Files, p: Path) {
    exists q <- files :: q != p && p <= q
  }

  function Apply(files: Files, op: Op): (Files, Outcome) {
    match op
    case Create(p, now) =>
      if ParentError(files, p).Failed? then (files, ParentError(files, p))
      else if p in files then (files, Failed(AlreadyExists))
      else (files[p := NewFile(p, now)], Done)
    case Write(p, data, offset, append, now) =>
      if p !in files then (files, Failed(NotFound))
      else if files[p].meta.isDir then (files, Failed(IsDirectory))
      else
        var d := WriteData(files[p].data, data, offset, append);
        (files[p := FileEntry(d, files[p].meta.(size := |d|, modified := now))], Written(|data|))
    case Mkdir(p, perm, now) =>
      if |p| >= 2 && ParentError(files, p[..|p|-1]).Failed? then (files, ParentError(files, p[..|p|-1]))
      else if p in files then (files, Failed(AlreadyExists))
      else (files[p := NewDir(p, perm, now)], Done)
    case Remove(p) =>
      if p !in files then (files, Failed(NotFound))
      else if files[p].meta.isDir && HasChildren(files, p) then (files - {p}, Failed(DirectoryNotEmpty))
      else (files - {p}, Done)
    case RemoveAll(p) =>
      if p !in files then (files, Failed(NotFound))
      else (map q | q in files && !(p <= q) :: files[q], Done)
    case Rename(p, to) =>
      if p !in files then (files, Failed(NotFound))
      else if to != p && to in files then (files, Failed(AlreadyExists))
      else ((files - {p})[to := FileEntry(files[p].data, files[p].meta.(path := to))], Done)
    case Chmod(p, perm, now) =>
      if p !in files then (files, Failed(NotFound))
      else (files[p := files[p].(meta := files[p].meta.(perm := perm % 512, modified := now))], Done)
    case Truncate(p, size, now) =>
      if p !in files then (files, Failed(NotFound))
      else if files[p].meta.isDir then (files, Failed(IsDirectory))
      else (files[p := FileEntry(Resize(files[p].data, size), files[p].meta.(size := size, modified := now))], Done)
    case Touch(p, now) =>
      if p in files then (files[p := files[p].(meta := files[p].meta.(accessed := now, modified := now))], Done)
      else (files[p := NewFile(p, now)], Done)
  }

  function Read(files: Files, p: Path, offset: int, size: int): Outcome {
    if p !in files then Failed(NotFound)
    else if files[p].meta.isDir then Failed(IsDirectory)
    else ReadData(files[p].data, offset, size)
  }

  function Stat(files: Files, p: Path): Outcome {
    if p in files then Info(files[p].meta) else Failed(NotFound)
  }

  // ---------------------------------------------------------------------------
  // The filesystem object
  // ---------------------------------------------------------------------------

  class MemFileSystem {
    var files: Files

    constructor (now: nat)
      ensures files == map[[] := NewDir([], 0x1ED, now)]
    {
      files := map[[] := NewDir([], 0x1ED, now)];
    }

    /** `create` (write.rs:11-37). */
    method DoCreate(p: Path, now: nat) returns (r: Outcome)
      modifies this
      ensures (files, r) == Apply(old(files), Create(p, now))
    {
      r := ParentError(files, p);
      if r.Failed? {
        return;
      }
      if p in files {
        return Failed(AlreadyExists);
      }
      files := files[p := NewFile(p, now)];
      r := Done;
    }

    /** `write` (write.rs:39-90): pads, replaces or overlays the entry's buffer. */
    method DoWrite(p: Path, data: Bytes, offset: int, append: bool, now: nat) returns (r: Outcome)
      modifies this
      ensures (files, r) == Apply(old(files), Write(p, data, offset, append, now))
    {
      if p !in files {
        return Failed(NotFound);
      }
      var e := files[p];
      if e.meta.isDir {
        return Failed(IsDirectory);
      }
      var d := e.data;
      // `offset as usize` turns a negative offset into a huge one
      if append || offset < 0 || offset >= |d| {
        var end := if offset > 0 then offset else 0;
        if end > |d| {
          d := Resize(d, end);
        }
        d := d + data;
      } else if offset <= 0 {
        d := data;
      } else {
        var stop := offset + |data|;
        if stop > |d| {
          d := Resize(d, stop);
        }
        d := d[..offset] + data + d[stop..];
        assert d == WriteData(e.data, data, offset, append);
      }
      files := files[p := FileEntry(d, e.meta.(size := |d|, modified := now))];
      r := Written(|data|);
    }

    /** `mkdir` (dir.rs:10-41): checks the grandparent, not the parent. */
    method DoMkdir(p: Path, perm: nat, now: nat) returns (r: Outcome)
      modifies this
      ensures (files, r) == Apply(old(files), Mkdir(p, perm, now))
    {
      if |p| >= 2 {
        r := ParentError(files, p[..|p|-1]);
        if r.Failed? {
          return;
        }
      }
      if p in files {
        return Failed(AlreadyExists);
      }
      files := files[p := NewDir(p, perm, now)];
      r := Done;
    }

    /** `remove` (dir.rs:94-114): the entry is gone even when the call reports an error. */
    method DoRemove(p: Path) returns (r: Outcome)
      modifies this
      ensures (files, r) == Apply(old(files), Remove(p))
    {
      if p !in files {
        return Failed(NotFound);
      }
      var e := files[p];
      files := files - {p};
      if e.meta.isDir && exists q <- files :: q != p && p <= q {
        assert HasChildren(old(files), p);
        return Failed(DirectoryNotEmpty);
      }
      assert e.meta.isDir ==> !HasChildren(old(files), p) by {
        forall q | q in old(files) && q != p ensures e.meta.isDir ==> !(p <= q) {
          assert q in files;
        }
      }
      r := Done;
    }

    /** `remove_all` (dir.rs:116-138). */
    method DoRemoveAll(p: Path) returns (r: Outcome)
      modifies this
      ensures (files, r) == Apply(old(files), RemoveAll(p))
    {
      if p !in files {
        return Failed(NotFound);
      }
      files := map q | q in files && !(p <= q) :: files[q];
      r := Done;
    }

    /** `rename` (dir.rs:140-169): moves one entry, puts it back if the target exists. */
    method DoRename(p: Path, to: Path) returns (r: Outcome)
      modifies this
      ensures (files, r) == Apply(old(files), Rename(p, to))
    {
      if p !in files {
        return Failed(NotFound);
      }
      var e := files[p];
      files := files - {p};
      if to in files {
        files := files[p := e];
        assert files == old(files);
        return Failed(AlreadyExists);
      }
      files := files[to := FileEntry(e.data, e.meta.(path := to))];
      r := Done;
    }

    /** `truncate` and `touch` (mod.rs:200-252), `chmod` (chmod.rs:11-24). */
    method DoTruncate(p: Path, size: nat, now: nat) returns (r: Outcome)
      modifies this
      ensures (files, r) == Apply(old(files), Truncate(p, size, now))
    {
      if p !in files {
        return Failed(NotFound);
      }
      var e := files[p];
      if e.meta.isDir {
        return Failed(IsDirectory);
      }
      var d := e.data;
      if size < |d| {
        d := d[..size];
      } else if size > |d| {
        d := Resize(d, size);
      }
      assert d == Resize(e.data, size);
      files := files[p := FileEntry(d, e.meta.(size := size, modified := now))];
      r := Done;
    }

    method DoTouch(p: Path, now: nat) returns (r: Outcome)
      modifies this
      ensures (files, r) == Apply(old(files), Touch(p, now))
    {
      if p in files {
        files := files[p := files[p].(meta := files[p].meta.(accessed := now, modified := now))];
      } else {
        files := files[p := NewFile(p, now)];
      }
      r := Done;
    }

    method DoChmod(p: Path, perm: nat, now: nat) returns (r: Outcome)
      modifies this
      ensures (files, r) == Apply(old(files), Chmod(p, perm, now))
    {
      if p !in files {
        return Failed(NotFound);
      }
      files := files[p := files[p].(meta := files[p].meta.(perm := perm % 512, modified := now))];
      r := Done;
    }
  }

  // ---------------------------------------------------------------------------
  // What the operations promise
  // ---------------------------------------------------------------------------

  /** The paths an operation may touch. */
  ghost predicate Touches(op: Op, q: Path) {
    match op
    case RemoveAll(p) => p <= q
    case Rename(p, to) => q == p || q == to
    case _ => q == op.p
  }

  /** Every operation leaves every other path alone. */
  lemma OnlyTouched(files: Files, op: Op, q: Path)
    requires !Touches(op, q)
    ensures q in Apply(files, op).0 <==> q in files
    ensures q in files ==> Apply(files, op).0[q] == files[q]
  {
  }

  /** A failed operation changes nothing, except a `remove` of a non-empty directory. */
  lemma FailureChangesNothing(files: Files, op: Op)
    requires Apply(files, op).1.Failed?
    ensures Apply(files, op).0 ==
            if Apply(files, op).1.error == DirectoryNotEmpty then files - {op.p} else files
  {
  }

  /** Reading back what was just written at `offset`, whichever branch stored it. */
  lemma ReadBack(files: Files, p: Path, data: Bytes, offset: int, append: bool, now: nat)
    requires p in files && !files[p].meta.isDir && 0 <= offset && data != []
    requires append ==> |files[p].data| <= offset
    ensures Read(Apply(files, Write(p, data, offset, append, now)).0, p, offset, |data|) == Data(data)
  {
    var d := WriteData(files[p].data, data, offset, append);
    assert offset + |data| <= |d| && d[offset..offset + |data|] == data;
  }

  /** Outside the written range a write keeps every byte, unless it starts at offset 0 of a
      non-empty file: that one truncates. */
  lemma WriteKeepsRest(d: Bytes, data: Bytes, offset: int, append: bool, i: nat)
    requires i < |d| && (append || offset != 0) && (append || offset < 0 || i < offset || offset + |data| <= i)
    ensures i < |WriteData(d, data, offset, append)| && WriteData(d, data, offset, append)[i] == d[i]
  {
  }

  ghost predicate Consistent(files: Files) {
    forall p <- files :: files[p].meta.path == p && (!files[p].meta.isDir ==> files[p].meta.size == |files[p].data|)
  }

  /** Recorded paths and sizes stay right. */
  lemma ApplyConsistent(files: Files, op: Op)
    requires Consistent(files)
    ensures Consistent(Apply(files, op).0)
  {
  }

  // ---------------------------------------------------------------------------
  // What a client observes through read and stat
  // ---------------------------------------------------------------------------

  /** Where a write lands: appends go to the end, past any gap the offset leaves. */
  function Landing(d: Bytes, offset: int, append: bool): nat {
    if append || offset < 0 then (if offset > |d| then offset else |d|) else offset
  }

  /** Every byte after a write: the data where it lands, old bytes around it, zeros in a gap; only a
      plain write at offset 0 forgets the rest of the file. */
  lemma WriteBytes(d: Bytes, data: Bytes, offset: int, append: bool)
    ensures var r, at := WriteData(d, data, offset, append), Landing(d, offset, append);
            && |r| == (if !append && offset == 0 then |data| else if |d| > at + |data| then |d| else at + |data|)
            && forall i: nat :: i < |r| ==>
                 r[i] == if at <= i < at + |data| then data[i - at] else if i < |d| then d[i] else 0
  {
  }

  /** A read from a non-negative offset returns as many of the bytes from there as there are, up to the
      size; a negative size asks for all of them. */
  lemma ReadBytes(d: Bytes, offset: nat, size: int)
    ensures var r := ReadData(d, offset, size);
            && r.Data?
            && |r.bytes| == (if offset >= |d| then 0 else if size < 0 || |d| - offset < size then |d| - offset else size)
            && forall i: nat :: i < |r.bytes| ==> r.bytes[i] == d[offset + i]
  {
  }

  /** From a negative offset the request is cut to the part inside the file; it panics exactly if that
      part would end before the start of a non-empty file. */
  lemma ReadBefore(d: Bytes, offset: int, size: int)
    requires offset < 0
    ensures ReadData(d, offset, size) == Failed(Panicked) <==> d != [] && size >= 0 && offset + size < 0
    ensures ReadData(d, offset, size) != Failed(Panicked) && d != [] ==>
            ReadData(d, offset, size) == ReadData(d, 0, if size < 0 then size else offset + size)
  {
  }

  ghost predicate ParentIsDir(files: Files, p: Path) {
    |p| >= 2 ==> p[..|p|-1] in files && files[p[..|p|-1]].meta.isDir
  }

  /** A new file needs a directory above it and a free name; it is empty. */
  lemma CreateMakes(files: Files, p: Path, now: nat)
    ensures var (files', r) := Apply(files, Create(p, now));
            && (r == Done <==> ParentIsDir(files, p) && p !in files)
            && (r == Failed(AlreadyExists) <==> ParentIsDir(files, p) && p in files)
            && (r == Failed(NotFound) <==> |p| >= 2 && p[..|p|-1] !in files)
            && (r == Done || r == Failed(AlreadyExists) || r == Failed(NotFound) || r == Failed(NotADirectory))
            && (r == Done ==> Read(files', p, 0, -1) == Data([]) && Stat(files', p) == Info(Meta(p, false, 0, 420, now, now, now)))
  {
  }

  /** `mkdir` looks one level too high: it needs a directory above the parent, not the parent. */
  lemma MkdirMakes(files: Files, p: Path, perm: nat, now: nat)
    ensures var (files', r) := Apply(files, Mkdir(p, perm, now));
            && (r == Done <==> (|p| >= 2 ==> ParentIsDir(files, p[..|p|-1])) && p !in files)
            && (r == Failed(AlreadyExists) <==> (|p| >= 2 ==> ParentIsDir(files, p[..|p|-1])) && p in files)
            && (r == Failed(NotFound) <==> |p| >= 3 && p[..|p|-1][..|p|-2] !in files)
            && (r == Done || r == Failed(AlreadyExists) || r == Failed(NotFound) || r == Failed(NotADirectory))
            && (r == Done ==> Stat(files', p) == Info(Meta(p, true, 0, perm % 512, now, now, now))
                              && Read(files', p, 0, -1) == Failed(IsDirectory))
  {
  }

  /** A write needs a file, and reports the number of bytes given. */
  lemma WriteStores(files: Files, p: Path, data: Bytes, offset: int, append: bool, now: nat)
    ensures var (files', r) := Apply(files, Write(p, data, offset, append, now));
            && (r == Written(|data|) <==> p in files && !files[p].meta.isDir)
            && (r == Failed(NotFound) <==> p !in files)
            && (r == Written(|data|) || r == Failed(NotFound) || r == Failed(IsDirectory))
            && (r.Written? ==> files'[p].data == WriteData(files[p].data, data, offset, append)
                               && files'[p].meta == files[p].meta.(size := |files'[p].data|, modified := now))
  {
  }

  /** `remove` drops the entry in any case, and succeeds unless it was a directory with entries below. */
  lemma RemoveDrops(files: Files, p: Path)
    ensures var (files', r) := Apply(files, Remove(p));
            && Stat(files', p) == Failed(NotFound)
            && (r == Failed(NotFound) <==> p !in files)
            && (r == Failed(DirectoryNotEmpty) <==>
                  p in files && files[p].meta.isDir && exists q <- files :: q != p && p <= q)
            && (r == Done || r == Failed(NotFound) || r == Failed(DirectoryNotEmpty))
  {
  }

  /** `remove_all` removes exactly the path and what lies below it. */
  lemma RemoveAllDrops(files: Files, p: Path, q: Path)
    ensures var (files', r) := Apply(files, RemoveAll(p));
            && (r == if p in files then Done else Failed(NotFound))
            && Stat(files', q) == (if p in files && p <= q then Failed(NotFound) else Stat(files, q))
            && (q in files' ==> files'[q] == files[q])
  {
  }

  /** `rename` needs the path and a free target; afterwards the target answers every read and `stat` as
      the path did, but for the recorded path, and the path is gone. */
  lemma RenameMoves(files: Files, p: Path, to: Path, offset: int, size: int)
    ensures var (files', r) := Apply(files, Rename(p, to));
            && (r == Done <==> p in files && (to == p || to !in files))
            && (r == Failed(NotFound) <==> p !in files)
            && (r == Done || r == Failed(NotFound) || r == Failed(AlreadyExists))
            && (r == Done ==>
                  && Read(files', to, offset, size) == Read(files, p, offset, size)
                  && Stat(files', to) == Info(Stat(files, p).meta.(path := to))
                  && (to != p ==> Stat(files', p) == Failed(NotFound)))
  {
  }

  /** `truncate` keeps the first bytes and fills up with zeros. */
  lemma TruncateCuts(files: Files, p: Path, size: nat, now: nat)
    ensures var (files', r) := Apply(files, Truncate(p, size, now));
            && (r == Done <==> p in files && !files[p].meta.isDir)
            && (r == Done || r == if p in files then Failed(IsDirectory) else Failed(NotFound))
            && (r == Done ==>
                  && |files'[p].data| == size && files'[p].meta == files[p].meta.(size := size, modified := now)
                  && forall i: nat :: i < size ==> files'[p].data[i] == if i < |files[p].data| then files[p].data[i] else 0)
  {
  }

  /** `chmod` sets the nine permission bits and the modified time. */
  lemma ChmodSets(files: Files, p: Path, perm: nat, now: nat)
    ensures var (files', r) := Apply(files, Chmod(p, perm, now));
            && (r == if p in files then Done else Failed(NotFound))
            && (r == Done ==> files'[p].data == files[p].data
                              && files'[p].meta == files[p].meta.(perm := perm % 512, modified := now))
  {
  }

  /** `touch` always succeeds: it sets two times, or makes an empty file whatever lies above. */
  lemma TouchSets(files: Files, p: Path, now: nat)
    ensures var (files', r) := Apply(files, Touch(p, now));
            && r == Done && p in files'
            && (p in files ==> files'[p].data == files[p].data
                               && files'[p].meta == files[p].meta.(accessed := now, modified := now))
            && (p !in files ==> files'[p] == FileEntry([], Meta(p, false, 0, 420, now, now, now)))
  {
  }
}

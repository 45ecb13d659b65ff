# RACFS: verified model of its state machines

RACFS mounts agent-facing filesystems behind one virtual tree and serves them over FUSE and
HTTP. Most of it adapts libraries; what can go wrong in its own logic sits in a handful of
small state machines, and these are modelled here and proved correct for all inputs and all
runs. Handle table, log rotation, write-back flush, inode table, lock table, cache and mount
table take several locks in one operation; they are also modelled as interleavings of any
number of threads (`Handles`, `Rotate`, `FlushRace`, `InodeTable`, `LockRace`, `CacheRace`,
`MountRace`). The queue is interleaved with one consumer; the limiter holds one lock throughout,
and the breaker, MemFS, the stream buffer and directory listing are modelled one call at a time.

- `Segments`, `ArrivalOrder`, `Batches`, `WriteBack`: the FUSE write-back buffer. Small writes
  are queued, sorted and merged at flush, and sent to the server.
- `FlushRace`, `FlushToMemFs`: the same buffer with writers and flushes side by side, and with
  MemFS as the server.
- `Handles`, `HandleCapacity`: the handle table with its two indexes, its leases and its limit.
- `Rotate`: StreamRotateFS, where append, size check and rotation are locked separately.
- `Paths`, `MemFs`, `CachedFs`, `CacheRace`: a cache in front of the in-memory filesystem.
- `RateLimit`, `Breaker`: the server's fixed-window limiter and the client's circuit breaker.
- `FileLocks`, `LockRace`: advisory byte-range locks in the style of `fcntl()` in IEEE Std 1003.1.
- `Decimal`, `QueueFs`: queues whose message ids are zero-padded strings in a sorted map.
- `StreamFs`, `StreamPaths`: the stream ring buffer and its printed and parsed paths.
- `MountRouter`, `MountRace`, `Utf8`: longest-prefix routing, kept in a map and a trie.
- `InodeTable`, `Readdir`: inode numbers under races, and resumed directory listings.

Objects that the source updates in place are classes whose methods are proved against
specification functions on values; whole-run results are lemmas about those functions.
A concurrent protocol is a machine whose steps are the critical sections of the source; a step
that is not enabled leaves the machine unchanged, so a run is any list of steps. Clocks, fresh
handle ids and the server's answers are parameters. `Common` holds the byte and option types,
`Blocks` the maps over consecutive numbers.

Where the code does not do what its comments or names suggest, the code is followed:

- The limiter's configuration speaks of a maximum per window
  (crates/racfs-server/src/ratelimit.rs:25). Each window keeps it; an interval of one window
  length can see `2 * max_requests - 1` admissions, and keeps the maximum exactly if at most
  one request is allowed or the window is at most one tick (`RateLimit.MaxHoldsIff`).
- The breaker's comment speaks of allowing one request after the pause
  (crates/racfs-client/src/client.rs:182). The code closes the circuit and counts from zero,
  so five calls can fail before it opens again (`Breaker.OutageBoundReached`).
- The write-back merge sorts by offset, so after a flush an older byte can replace a newer one
  (`ArrivalOrder.FlushCanReorder`). `WriteBack.ReleasedFileIsSequentialIff` says exactly which
  runs leave the file of plain sequential writes.
- A write acknowledged while a flush of the path is sending can be dropped by the invalidation
  that ends the flush; it is not if another flush takes it first or the server refuses. It is
  safe in every continuation exactly if no flush is sending at that moment
  (`FlushRace.SafeWhenPushedIff`).
- `set_lock` tests and inserts under separate locks, so two threads can both be granted
  conflicting locks (`LockRace.SafeIff`). A read that fetches before a write and puts after its
  invalidation leaves old contents in the cache (`CacheRace.ComesRightIff`). Mount and unmount
  can leave map and trie different (`MountRace.AgreeAtRestIff`).
- `resolve_fs` slices its key at every byte offset, so it panics for every path with a character
  outside ASCII, whatever is mounted (`MountRouter.MountTable.ResolveFs`, `Utf8.AllCutsIff`).
- `head` of a queue stops naming the oldest message at the millionth (`QueueFs.DeliversInOrderIff`),
  and a stream's directory stops being listed in id order at id 1000000
  (`StreamPaths.ListingInIdOrderIff`).

## Model

| member | source | states |
|---|---|---|
| `Segments.MergeWriteSegments` | crates/racfs-fuse/src/async_fs.rs:21-52 | The merge returns runs in strictly increasing, non-touching ranges that write the same bytes to the same positions as the segments in stable offset order |
| `Segments.MergeLoop` | crates/racfs-fuse/src/async_fs.rs:26-51 | The loop over sorted segments computes the fold of one-segment merge steps |
| `Segments.RunsCorrect` | crates/racfs-fuse/src/async_fs.rs:25-51 | For every segment list: runs separated, equivalent to the stable sort, covering exactly the union of the inputs (no filler bytes), within u64, empty only for no input |
| `Segments.StableSortCorrect` | crates/racfs-fuse/src/async_fs.rs:25-25 | The sort is ordered by offset, a permutation, and keeps arrival order among equal offsets |
| `Segments.ApplyPointwise` | crates/racfs-fuse/src/async_fs.rs:186-195 | The server's overlay byte by byte: the last segment that covers a position decides it, gaps are zero, the length is the larger of file and extent |
| `Segments.EquivalentApply` | crates/racfs-fuse/src/async_fs.rs:25-51 | Lists with the same byte at every position and the same extent overlay every file alike |
| `ArrivalOrder.FlushRefinesWrites` | crates/racfs-fuse/src/async_fs.rs:21-52 | Flushing equals the writes in arrival order, for all contents of that shape and all files, if and only if at every position the last writer has the largest offset among the segments covering it |
| `ArrivalOrder.PairwiseOrderSuffices` | crates/racfs-fuse/src/async_fs.rs:21-52 | Overlapping segments arriving pairwise in non-decreasing offset order meet that condition |
| `ArrivalOrder.FlushAgrees` | crates/racfs-fuse/src/async_fs.rs:21-52 | Under the condition the sorted overlay is the arrival-order overlay, for every file |
| `ArrivalOrder.FlushCanReorder` | crates/racfs-fuse/src/async_fs.rs:25-25 | Two overlapping writes in descending offset order for which the flush leaves the older byte |
| `Batches.BatchesRefineIff` | crates/racfs-fuse/src/async_fs.rs:177-198 | Batches flushed one after the other equal the writes in arrival order, for all contents of those shapes and all files, if and only if each byte's deciding batch is in order there |
| `Batches.DecidedByte` | crates/racfs-fuse/src/async_fs.rs:177-198 | The last batch that writes a byte decides it, sorted or not |
| `WriteBack.WriteBackFs.PushWriteBack` | crates/racfs-fuse/src/cache.rs:214-227 | Appends the segment for the path and returns the exact number of pending bytes; other paths unchanged |
| `WriteBack.WriteBackFs.TakePendingWrites` | crates/racfs-fuse/src/cache.rs:230-237 | Returns the pending segments in arrival order and leaves none |
| `WriteBack.WriteBackFs.Invalidate` | crates/racfs-fuse/src/cache.rs:175-175 | Drops what is pending for the path and nothing else |
| `WriteBack.WriteBackFs.SendRuns` | crates/racfs-fuse/src/async_fs.rs:186-195 | The server receives the runs in order up to the first refusal, which is reported |
| `WriteBack.WriteBackFs.SendMerged` | crates/racfs-fuse/src/async_fs.rs:184-195 | The server receives the merged runs of the segments in order up to the first refusal |
| `WriteBack.WriteBackFs.FlushWriteBack` | crates/racfs-fuse/src/async_fs.rs:179-198 | Empties the buffer into the server as merged runs; a refusal leaves the accepted prefix and an I/O error |
| `WriteBack.WriteBackFs.WriteAsync` | crates/racfs-fuse/src/async_fs.rs:570-601 | Small writes are buffered and flushed at 256 KiB; large writes flush first and then go through |
| `WriteBack.WriteBackFs.ReleaseAsync` | crates/racfs-fuse/src/async_fs.rs:202-207 | Flushes and reports success whatever the flush said |
| `WriteBack.StepFollowsPlan` | crates/racfs-fuse/src/async_fs.rs:570-601 | One accepted call keeps the server's file equal to the batch-by-batch merged overlay and the buffer below 256 KiB |
| `WriteBack.PlanKeepsWrites` | crates/racfs-fuse/src/async_fs.rs:570-601 | Batches flushed followed by what is buffered are exactly the segments written: nothing lost, repeated or reordered |
| `WriteBack.RunFollowsPlan` | crates/racfs-fuse/src/async_fs.rs:177-207 | After every accepted run the server holds what the flushed batches dictate, the rest is pending, below 256 KiB, and together they are the writes in arrival order |
| `WriteBack.ReleasedFileIsSequentialIff` | crates/racfs-fuse/src/async_fs.rs:177-207 | For whole runs that end in a release, over all contents of the same shape, all files and all accepting servers: the released file is that of plain sequential writes if and only if at every position the last batch that writes it has its last write there at the largest offset |
| `WriteBack.OrderedWritesAreSequential` | crates/racfs-fuse/src/async_fs.rs:177-207 | In particular if overlapping writes arrive in offset order |
| `WriteBack.RefusedFlushLosesTail` | crates/racfs-fuse/src/async_fs.rs:179-207 | Whichever run the server refuses, the buffer is empty afterwards and the file is that of the whole flush below the start of the refused run and untouched from there on |
| `FlushRace.EveryWriteAccounted` | crates/racfs-fuse/src/async_fs.rs:179-198 | In every interleaving of writers and flushes each acknowledged write is in exactly one of: the buffer, the batches taken, the writes dropped |
| `FlushRace.WriteFate` | crates/racfs-fuse/src/async_fs.rs:179-198 | A write is dropped if and only if the first flush step to clear the buffer after it is an invalidation, taken for sending if and only if that step is a take, buffered if and only if there is none |
| `FlushRace.SafeWhenPushedIff` | crates/racfs-fuse/src/async_fs.rs:179-198 | A write is dropped in no continuation if and only if no flush of the path is sending at the moment it is acknowledged |
| `FlushRace.RefusalSparesBuffer` | crates/racfs-fuse/src/async_fs.rs:186-195 | A refused flush, if the only one under way, leaves everything buffered safe in every continuation |
| `FlushRace.WriteDuringFlushIsLost` | crates/racfs-fuse/src/async_fs.rs:184-196 | A run in which a write acknowledged during a successful flush is dropped |
| `FlushRace.OneFlushFollowsBatches` | crates/racfs-fuse/src/async_fs.rs:179-198 | With one flush at a time and an accepting server, at rest the file is what the batches taken dictate, whatever writers do meanwhile |
| `FlushRace.FileFollowsBatchesIff` | crates/racfs-fuse/src/async_fs.rs:179-198 | In all interleavings with an accepting server the file at rest is what the batches taken dictate if and only if there is exactly one flushing thread |
| `FlushToMemFs.FlushReplaces` | crates/racfs-plugin-memfs/src/fs/write.rs:58-84 | One flush into MemFS is the overlay of the pending writes on the old file, or on nothing if one of them starts at offset 0 |
| `FlushToMemFs.MemFsLikeOverlayIff` | crates/racfs-plugin-memfs/src/fs/write.rs:58-84 | Over all files MemFS ends with what the positional overlay dictates if and only if no flushed write starts at offset 0 |
| `Handles.HandleManager.OpenHandle` | crates/racfs-vfs/src/handle_manager.rs:67-109 | Refuses at the limit, returns the live handle of the same path and flags, or registers a new one; indexes stay inverse and the count within the limit |
| `Handles.HandleManager.CloseHandle` | crates/racfs-vfs/src/handle_manager.rs:112-131 | Removes the handle from both indexes or reports an invalid handle |
| `Handles.HandleManager.GetHandle` | crates/racfs-vfs/src/handle_manager.rs:134-161 | Returns the entry with its lease renewed, for live ids only |
| `Handles.HandleManager.UpdateOffset` | crates/racfs-vfs/src/handle_manager.rs:164-176 | Sets offset and access time of a live id and nothing else |
| `Handles.HandleManager.CollectExpired` | crates/racfs-vfs/src/handle_manager.rs:187-197 | The loop finds exactly the handles last touched a lease ago or earlier and unindexes exactly their keys |
| `Handles.HandleManager.CleanupExpired` | crates/racfs-vfs/src/handle_manager.rs:181-210 | Keeps exactly the handles whose last access plus the lease lies after now, removes the others from both indexes and counts them |
| `Handles.EveryRunIsSafe` | crates/racfs-vfs/src/handle_manager.rs:67-131 | In every interleaving of k threads the id table and the (path, flags) index are mutually inverse, count plus in-flight opens is at most the limit + k - 1, and so is the count |
| `Handles.StepKeeps` | crates/racfs-vfs/src/handle_manager.rs:67-210 | Every critical section keeps that invariant and the set of threads |
| `Handles.CleanupKeepsIff` | crates/racfs-vfs/src/handle_manager.rs:181-210 | A cleanup keeps a handle, unchanged, if and only if the lease is not zero and now is before last access plus lease |
| `Handles.TableTellsLives` | crates/racfs-vfs/src/handle_manager.rs:67-210 | In every interleaving a handle is in the table exactly from the commit that created it to its close or the first cleanup that finds its lease over, with the key, offset and times its history of opens, reads, renewals and seeks gives |
| `Handles.OffsetReadBack` | crates/racfs-vfs/src/handle_manager.rs:134-176 | After update_offset, get_handle and renewals find that offset |
| `Handles.HandlesAreKept` | crates/racfs-vfs/src/handle_manager.rs:112-210 | A handle disappears only by its own close or by a cleanup at a time when its last access is a lease or more ago |
| `Handles.ClosedStaysClosed` | crates/racfs-vfs/src/handle_manager.rs:112-210 | An id once closed or expired is invalid in every continuation |
| `HandleCapacity.OvershootReached` | crates/racfs-vfs/src/handle_manager.rs:67-109 | For every k and positive limit some interleaving opens exactly limit + k - 1 handles |
| `HandleCapacity.LimitKeptIff` | crates/racfs-vfs/src/handle_manager.rs:67-109 | The limit holds in all interleavings if and only if there is one thread or the limit is zero |
| `Rotate.StreamRotateFs.PruneOldest` | crates/racfs-plugin-streamrotatefs/src/fs/mod.rs:132-140 | The pruning loop removes the lowest archive numbers until the limit is met |
| `Rotate.StreamRotateFs.RotateNow` | crates/racfs-plugin-streamrotatefs/src/fs/mod.rs:120-156 | Archives the current file under the next number, prunes, and starts an empty file |
| `Rotate.StreamRotateFs.WriteCurrent` | crates/racfs-plugin-streamrotatefs/src/fs/write.rs:36-54 | Appends, then rotates exactly when the size limit is reached; alone it leaves the current file short |
| `Rotate.PruneCorrect` | crates/racfs-plugin-streamrotatefs/src/fs/mod.rs:132-140 | What is pruned followed by what is kept is the old content; the kept numbers are the block of the newest ones |
| `Rotate.RotatedCorrect` | crates/racfs-plugin-streamrotatefs/src/fs/mod.rs:120-156 | Rotation conserves bytes in order, keeps the numbers contiguous and at most max_files, changes no other archive |
| `Rotate.Exec` | crates/racfs-plugin-streamrotatefs/src/fs/mod.rs:120-168 | After every interleaving of writers and manual rotations: pruned bytes, archives in sequence order and current are all bytes ever appended; archive numbers are a block ending at next_seq - 1 of at most max_files |
| `Rotate.QuietMeansShort` | crates/racfs-plugin-streamrotatefs/src/fs/write.rs:36-54 | In all interleavings, with no writer between append and the end of its check, current is shorter than max_size, if and only if max_size is not zero |
| `Rotate.ArchiveImmutable` | crates/racfs-plugin-streamrotatefs/src/fs/mod.rs:120-156 | An archive keeps its bytes through every step that keeps its number |
| `Rotate.ArchivesNumbered` | crates/racfs-plugin-streamrotatefs/src/fs/mod.rs:120-130 | In every interleaving next_seq is one more than the number of rotations |
| `Rotate.LoneWriterFillsArchives` | crates/racfs-plugin-streamrotatefs/src/fs/mod.rs:158-168 | One writer without manual rotations never rotates early: every archive has reached max_size |
| `Rotate.StepKeeps` | crates/racfs-plugin-streamrotatefs/src/fs/mod.rs:120-168 | Every separately locked step keeps conservation, contiguity, the archive bound and the size claim |
| `Paths.JoinInjective` | crates/racfs-vfs/src/cached_fs.rs:46-49 | Distinct component sequences are rendered as distinct strings |
| `Paths.PrefixAtBoundary` | crates/racfs-vfs/src/mountable_fs.rs:151-180 | A string prefix is a component prefix exactly when it ends on a component boundary |
| `MemFs.MemFileSystem.DoCreate` | crates/racfs-plugin-memfs/src/fs/write.rs:11-37 | New empty file below an existing directory, or the error, with the map unchanged on error |
| `MemFs.MemFileSystem.DoWrite` | crates/racfs-plugin-memfs/src/fs/write.rs:39-90 | Append, replace at offset zero, or overlay with zero fill |
| `MemFs.MemFileSystem.DoMkdir` | crates/racfs-plugin-memfs/src/fs/dir.rs:10-41 | Directory entry added, or the error |
| `MemFs.MemFileSystem.DoRemove` | crates/racfs-plugin-memfs/src/fs/dir.rs:94-114 | Entry removed, also when the non-empty directory error is returned |
| `MemFs.MemFileSystem.DoRemoveAll` | crates/racfs-plugin-memfs/src/fs/dir.rs:116-138 | The path and everything below it removed |
| `MemFs.MemFileSystem.DoRename` | crates/racfs-plugin-memfs/src/fs/dir.rs:140-169 | The one entry moved with its metadata path renamed |
| `MemFs.MemFileSystem.DoTruncate` | crates/racfs-plugin-memfs/src/fs/mod.rs:200-226 | Data cut or zero-extended to the size, files only |
| `MemFs.MemFileSystem.DoTouch` | crates/racfs-plugin-memfs/src/fs/mod.rs:228-252 | Times set, or an empty file created without a parent check |
| `MemFs.MemFileSystem.DoChmod` | crates/racfs-plugin-memfs/src/fs/chmod.rs:11-24 | Mode set on an existing entry |
| `MemFs.OnlyTouched` | crates/racfs-plugin-memfs/src/fs/dir.rs:94-169 | An operation changes no path other than those it names or removes below |
| `MemFs.FailureChangesNothing` | crates/racfs-plugin-memfs/src/fs/dir.rs:94-114 | A failed operation leaves the map alone, except that a failed remove of a non-empty directory drops its entry |
| `MemFs.ReadBack` | crates/racfs-plugin-memfs/src/fs/write.rs:39-90 | Reading what was just written gives it back |
| `MemFs.WriteKeepsRest` | crates/racfs-plugin-memfs/src/fs/write.rs:39-90 | Bytes outside the written range survive, unless the write replaces the file |
| `MemFs.ApplyConsistent` | crates/racfs-plugin-memfs/src/fs/write.rs:39-90 | Recorded sizes and paths match the data and the keys after every operation |
| `MemFs.WriteBytes` | crates/racfs-plugin-memfs/src/fs/write.rs:57-84 | Every byte after a write: the data where it lands, old bytes around it, zeros in a gap, nothing else after a plain write at offset 0 |
| `MemFs.ReadBytes` | crates/racfs-plugin-memfs/src/fs/read.rs:10-39 | From a non-negative offset, exactly the bytes there are, up to the size |
| `MemFs.ReadBefore` | crates/racfs-plugin-memfs/src/fs/read.rs:10-39 | From a negative offset, the part inside the file, with a panic exactly if it would end before the start |
| `MemFs.CreateMakes` | crates/racfs-plugin-memfs/src/fs/write.rs:11-37 | Succeeds exactly below a directory and at a free name; the file is empty with default metadata |
| `MemFs.MkdirMakes` | crates/racfs-plugin-memfs/src/fs/dir.rs:10-41 | Succeeds exactly if the grandparent is a directory and the name free; the directory has the nine permission bits given |
| `MemFs.WriteStores` | crates/racfs-plugin-memfs/src/fs/write.rs:39-90 | Succeeds exactly on files, reports the bytes given, and changes contents, size and modified time only |
| `MemFs.RemoveDrops` | crates/racfs-plugin-memfs/src/fs/dir.rs:94-114 | The entry is gone in any case; success exactly unless it was missing or a directory with entries below |
| `MemFs.RemoveAllDrops` | crates/racfs-plugin-memfs/src/fs/dir.rs:116-138 | Exactly the path and its descendants stop existing, all else answers as before |
| `MemFs.RenameMoves` | crates/racfs-plugin-memfs/src/fs/dir.rs:140-169 | The target answers every read and stat as the path did, the path is gone; success exactly for an existing path and a free target |
| `MemFs.TruncateCuts` | crates/racfs-plugin-memfs/src/fs/mod.rs:200-226 | The first bytes are kept and zeros fill up to the size; success exactly on files |
| `MemFs.ChmodSets` | crates/racfs-plugin-memfs/src/fs/chmod.rs:11-24 | Nine permission bits and the modified time are set, nothing else |
| `MemFs.TouchSets` | crates/racfs-plugin-memfs/src/fs/mod.rs:228-252 | Two times are set, or an empty default file is made whatever lies above |
| `CachedFs.KeyInjective` | crates/racfs-vfs/src/cached_fs.rs:46-49 | Cache keys of different kinds or paths never collide |
| `CachedFs.KeyPrefix` | crates/racfs-vfs/src/cached_fs.rs:66-80 | The key of a path is a string prefix of the keys of everything below it |
| `CachedFs.KeyPrefixIff` | crates/racfs-vfs/src/cached_fs.rs:46-80 | One key is a prefix of another if and only if the kinds are equal and the path strings are in prefix relation |
| `CachedFs.HashMapCache.InvalidatePrefix` | crates/racfs-core/src/cache.rs:103-113 | The removal loop drops exactly the keys that start with the prefix |
| `CachedFs.CachedFileSystem.ReadAt` | crates/racfs-vfs/src/cached_fs.rs:85-111 | Slice of the cached bytes, or read through and fill the cache |
| `CachedFs.CachedFileSystem.StatAt` | crates/racfs-vfs/src/cached_fs.rs:113-125 | Cached metadata in milliseconds, or stat through and fill the cache |
| `CachedFs.CachedFileSystem.DropPath` | crates/racfs-vfs/src/cached_fs.rs:51-64 | Invalidates the path's entries and its parent's listing |
| `CachedFs.CachedFileSystem.DropTree` | crates/racfs-vfs/src/cached_fs.rs:66-80 | Invalidates everything cached at or below the path |
| `CachedFs.CachedFileSystem.Write` | crates/racfs-vfs/src/cached_fs.rs:136-146 | Writes through and invalidates after success only |
| `CachedFs.CachedFileSystem.Create` | crates/racfs-vfs/src/cached_fs.rs:130-134 | Creates through and invalidates the path after success only |
| `CachedFs.CachedFileSystem.Mkdir` | crates/racfs-vfs/src/cached_fs.rs:151-155 | Makes the directory and invalidates the path after success only |
| `CachedFs.CachedFileSystem.Chmod` | crates/racfs-vfs/src/cached_fs.rs:193-197 | Changes the mode and invalidates the path after success only |
| `CachedFs.CachedFileSystem.Truncate` | crates/racfs-vfs/src/cached_fs.rs:202-208 | Truncates through and invalidates the path after success only |
| `CachedFs.CachedFileSystem.Touch` | crates/racfs-vfs/src/cached_fs.rs:210-216 | Touches through and invalidates the path |
| `CachedFs.CachedFileSystem.Remove` | crates/racfs-vfs/src/cached_fs.rs:171-175 | Removes through and invalidates after success only |
| `CachedFs.CachedFileSystem.RemoveTree` | crates/racfs-vfs/src/cached_fs.rs:177-181 | Removes the tree and invalidates it |
| `CachedFs.CachedFileSystem.Rename` | crates/racfs-vfs/src/cached_fs.rs:183-188 | Renames through and invalidates both paths |
| `CachedFs.StepCoherent` | crates/racfs-vfs/src/cached_fs.rs:85-217 | Every operation, succeeding or failing, keeps the cache coherent with the filesystem |
| `CachedFs.RunCoherent` | crates/racfs-vfs/src/cached_fs.rs:46-217 | After every sequence of operations each cached file is the file's content, and each cached stat is current or left from a failed remove |
| `CachedFs.ReadAgrees` | crates/racfs-vfs/src/cached_fs.rs:85-111 | After every run, hit or miss, read returns exactly what MemFS returns, data or error, if and only if it is not a request that ends before the start of a non-empty file (where MemFS panics) |
| `CachedFs.StatAgreesIff` | crates/racfs-vfs/src/cached_fs.rs:113-125 | After every run stat tells the error MemFS tells, or its path, type, size and permissions and its times exact or cut to the millisecond, if and only if the path's entry is not stale |
| `CachedFs.StaleIff` | crates/racfs-vfs/src/cached_fs.rs:171-217 | After any call a path is stale if and only if the call removed it as a non-empty directory with cached metadata, or it was stale and no successful mutation made the cache forget it |
| `CachedFs.StaleRunIff` | crates/racfs-vfs/src/cached_fs.rs:113-217 | After every run a path is stale if and only if some such remove of it happened and nothing since has cleared it |
| `CachedFs.StatAgreesRunIff` | crates/racfs-vfs/src/cached_fs.rs:113-217 | After every run stat of a path tells what MemFS tells in that sense if and only if no failed remove of that non-empty directory stands uncleared |
| `CachedFs.InvalidateForgets` | crates/racfs-vfs/src/cached_fs.rs:51-80 | Exactly which cached contents, metadata and listings each kind of mutation forgets |
| `CachedFs.ListingsForgotten` | crates/racfs-vfs/src/cached_fs.rs:51-80 | After a successful mutation no listing of a touched path or of its parent is answered from the cache |
| `CachedFs.SecondAnswerFromCache` | crates/racfs-vfs/src/cached_fs.rs:85-169 | A read or stat that was answered is answered again from the cache, whatever the filesystem holds by then |
| `CachedFs.StaleReached` | crates/racfs-plugin-memfs/src/fs/dir.rs:97-105 | A run after which stat answers for a directory that is gone |
| `CacheRace.ComesRightIff` | crates/racfs-vfs/src/cached_fs.rs:85-217 | From any state whose wrong entries are owed an invalidation, and with no further mutation, every way of finishing leaves every cached content current if and only if no read holds bytes that have changed since it fetched them |
| `CacheRace.ChangeRepairable` | crates/racfs-vfs/src/cached_fs.rs:130-217 | A mutation, succeeding or failing, keeps every wrong entry owed an invalidation |
| `CacheRace.ReadsOkAtRestIff` | crates/racfs-vfs/src/cached_fs.rs:85-217 | Over all interleavings of lookups, fetches, puts, mutations and invalidations every cached content is current at rest if and only if there is exactly one thread |
| `CacheRace.OldContentsStay` | crates/racfs-vfs/src/cached_fs.rs:99-100 | A write between a read's fetch and its put leaves the old contents cached |
| `CacheRace.OneCall` | crates/racfs-vfs/src/cached_fs.rs:85-217 | Without interference the events of one read or mutation do what the sequential CachedFs does |
| `RateLimit.RateLimiter.Check` | crates/racfs-server/src/ratelimit.rs:98-131 | Admits while the window has room, restarts an elapsed window, reports the remaining requests and the whole seconds left in the window |
| `RateLimit.AdmissionsBounded` | crates/racfs-server/src/ratelimit.rs:98-131 | For every trace with a clock that never goes back, at most 2 * max_requests - 1 admissions of a client in any half-open interval of one window length |
| `RateLimit.TraceExplained` | crates/racfs-server/src/ratelimit.rs:98-131 | The invariant behind the bound, relating the admissions in any interval to the client's counter and window start |
| `RateLimit.WindowCountsAdmissions` | crates/racfs-server/src/ratelimit.rs:98-131 | The counter is the number of admissions since the window started, at most max_requests |
| `RateLimit.BoundReached` | crates/racfs-server/src/ratelimit.rs:98-131 | For every positive limit and window above one tick a trace reaches the bound |
| `RateLimit.MaxHoldsIff` | crates/racfs-server/src/ratelimit.rs:98-131 | max_requests bounds every interval of one window length over all traces if and only if it is at most one or the window is at most one tick |
| `RateLimit.RefusedOnlyWhenSpent` | crates/racfs-server/src/ratelimit.rs:98-131 | A client is refused only if it has been admitted max_requests times in some interval of one window length that holds the request |
| `RateLimit.ClockBackKeepsWindow` | crates/racfs-server/src/ratelimit.rs:111-116 | A clock that steps back reopens no window |
| `RateLimit.OthersUntouched` | crates/racfs-server/src/ratelimit.rs:98-131 | A request changes no other client's state |
| `Breaker.Client.SendWithRetry` | crates/racfs-client/src/client.rs:170-216 | An admitted call makes 1 to 4 attempts with at most 700 ms of backoff, returns inside the loop, and updates the circuit; an open circuit refuses without an attempt |
| `Breaker.Client.RetryLoop` | crates/racfs-client/src/client.rs:187-216 | The loop stops at the first final answer or after the last attempt |
| `Breaker.Client.RecordCircuitFailure` | crates/racfs-client/src/client.rs:218-225 | Counts the failure and opens the circuit for 30 s at the threshold |
| `Breaker.RunWellFormed` | crates/racfs-client/src/client.rs:170-225 | In every sequential run the circuit is open exactly when five failures are counted, and otherwise at most four are |
| `Breaker.RunIsExpected` | crates/racfs-client/src/client.rs:170-225 | Over every run of a fresh client the circuit is what the number of failures since the last response says: counted in fives, open for 30 s after the end of every fifth |
| `Breaker.NextRefusedIff` | crates/racfs-client/src/client.rs:174-185 | A call is refused if and only if a positive multiple of five calls failed since the last response and the last of them ended less than 30 s ago |
| `Breaker.ResponseClears` | crates/racfs-client/src/client.rs:188-192 | A response clears whatever has been counted |
| `Breaker.RefusedIff` | crates/racfs-client/src/client.rs:174-185 | An open circuit refuses without an attempt and unchanged until its time, and nothing else does |
| `Breaker.AttemptsMeaning` | crates/racfs-client/src/client.rs:187-216 | Only connect and timeout errors are retried, at most three times, with pauses adding up to 100, 300 and 700 ms; a response ends the call |
| `Breaker.OutageExplained` | crates/racfs-client/src/client.rs:170-225 | During an outage, the invariant relating the admitted starts in any interval to the failure count and the last admission |
| `Breaker.OutageBounded` | crates/racfs-client/src/client.rs:170-225 | During an outage any half-open 30 s interval has at most 5 admitted call starts and 20 attempts |
| `Breaker.OutageBoundReached` | crates/racfs-client/src/client.rs:170-225 | At first use and after every elapsed pause, five calls and twenty attempts within 30 s do occur |
| `Breaker.HalfOpenIsClosed` | crates/racfs-client/src/client.rs:174-185 | After the pause the next call is admitted and leaves the circuit closed, with one failure counted if it fails |
| `FileLocks.FileLockState.GetConflict` | crates/racfs-fuse/src/advanced.rs:75-99 | None exactly when the request is compatible, otherwise the first conflicting entry |
| `FileLocks.FileLockState.SetLock` | crates/racfs-fuse/src/advanced.rs:103-138 | Without interference, grants exactly the compatible requests, replacing the owner's overlapping entries; a refused request changes nothing |
| `FileLocks.FileLockState.Unlock` | crates/racfs-fuse/src/advanced.rs:141-149 | Drops the owner's entries that meet the range, and the inode when none is left |
| `FileLocks.FileLockState.RemoveOwner` | crates/racfs-fuse/src/advanced.rs:152-158 | Drops all entries of the owner on every inode |
| `FileLocks.EveryRunIsSafe` | crates/racfs-fuse/src/advanced.rs:75-158 | After every sequence of calls, one after the other, no two owners overlap on an inode when either writes, one owner's ranges are disjoint, and no inode has an empty list |
| `FileLocks.SharedBytesAreRead` | crates/racfs-fuse/src/advanced.rs:75-158 | After every run two owners that hold the same byte both hold it for reading |
| `FileLocks.CompatibleIffNoByteHeld` | crates/racfs-fuse/src/advanced.rs:75-99 | A request is compatible if and only if no byte it asks for is held by another owner with one of the two writing |
| `FileLocks.CompatibleIffSafe` | crates/racfs-fuse/src/advanced.rs:103-138 | A request is granted if and only if granting it keeps the table safe |
| `FileLocks.RemoveOwnerReleases` | crates/racfs-fuse/src/advanced.rs:152-158 | Afterwards the owner holds nothing on any inode and every other owner exactly what it held |
| `FileLocks.UnlockReleases` | crates/racfs-fuse/src/advanced.rs:141-149 | No released byte stays locked by the owner, and other owners keep exactly their bytes |
| `FileLocks.UnlockIsPosixIff` | crates/racfs-fuse/src/advanced.rs:141-149 | Unlock releases exactly what POSIX releases if and only if every lock of the owner that meets the range lies inside it |
| `FileLocks.GrantIsPosixIff` | crates/racfs-fuse/src/advanced.rs:126-137 | A granted lock sets the type of its range and leaves the owner's other bytes alone if and only if every lock of the owner that meets the range lies inside it |
| `LockRace.AlwaysTidy` | crates/racfs-fuse/src/advanced.rs:103-158 | With test and insertion of set_lock apart, in every interleaving one owner's ranges stay disjoint and no inode has an empty list |
| `LockRace.SafeIff` | crates/racfs-fuse/src/advanced.rs:118-137 | In all those interleavings no two owners conflict if and only if there is exactly one thread |
| `LockRace.TwoWriters` | crates/racfs-fuse/src/advanced.rs:118-137 | Any two threads can give two owners a write lock on one byte |
| `LockRace.SequentialSteps` | crates/racfs-fuse/src/advanced.rs:103-158 | The steps of calls that do not overlap do what the calls do one after the other |
| `Decimal.Pad6Monotone` | crates/racfs-plugin-queuefs/src/fs/mod.rs:154-156 | Below a million, six-digit padding maps numeric order to string order |
| `Decimal.Pad6Injective` | crates/racfs-plugin-queuefs/src/fs/mod.rs:154-156 | Below a million, different ids are printed differently |
| `Decimal.Pad6BreaksAtMillion` | crates/racfs-plugin-queuefs/src/fs/mod.rs:154-156 | "1000000" sorts before "999999", so the bound is tight |
| `Decimal.Pad6MonotoneIff` | crates/racfs-plugin-queuefs/src/fs/mod.rs:154-156 | The names of all numbers below n sort like the numbers if and only if n is at most a million |
| `Decimal.ParsePad6` | crates/racfs-plugin-streamfs/src/fs/mod.rs:151-178 | Parsing a printed id gives back every u64 |
| `Decimal.ParsePlus` | crates/racfs-plugin-streamfs/src/fs/mod.rs:167-167 | A leading plus sign is accepted |
| `Decimal.ParseRejects` | crates/racfs-plugin-streamfs/src/fs/mod.rs:167-167 | Any other character that is no digit makes the id invalid |
| `Decimal.ParseRejectsLarge` | crates/racfs-plugin-streamfs/src/fs/mod.rs:167-167 | Numbers beyond 64 bits, the empty string and a lone sign are invalid |
| `QueueFs.QueueObject.DoEnqueue` | crates/racfs-plugin-queuefs/src/fs/mod.rs:64-81 | Stores the data under the next printed id, keeping the map's key order |
| `QueueFs.QueueObject.DoAck` | crates/racfs-plugin-queuefs/src/fs/mod.rs:83-89 | Marks the message with that id, or reports that there is none |
| `QueueFs.QueueObject.GetNextUnacknowledged` | crates/racfs-plugin-queuefs/src/fs/mod.rs:100-107 | The first unacknowledged id in key order |
| `QueueFs.QueueObject.GetCount` | crates/racfs-plugin-queuefs/src/fs/mod.rs:109-111 | The number of unacknowledged messages |
| `QueueFs.InsertOrdered` | crates/racfs-plugin-queuefs/src/fs/mod.rs:70-81 | Inserting under a string key keeps the map sorted |
| `QueueFs.InsertMembers` | crates/racfs-plugin-queuefs/src/fs/mod.rs:70-81 | An insertion adds the entry, replaces the one with the same key, and keeps every other |
| `QueueFs.RunKeeps` | crates/racfs-plugin-queuefs/src/fs/mod.rs:64-107 | The invariant of every run with fewer than a million messages: entry i is the i-th message sent, printed as i, acknowledged exactly if it was received |
| `QueueFs.DeliveredInOrder` | crates/racfs-plugin-queuefs/src/fs/write.rs:34-67 | With fewer than a million messages, under any interleaving of enqueues with a consumer's head, read, acknowledge loop, the consumer has received a prefix of what was sent, once and in order, and head is the numerically oldest unacknowledged id |
| `QueueFs.RoundDelivers` | crates/racfs-plugin-queuefs/src/fs/read.rs:10-54 | Each round of the loop on a non-empty queue delivers the next message |
| `QueueFs.CountIsOutstanding` | crates/racfs-plugin-queuefs/src/fs/mod.rs:109-111 | In every run of fewer than a million messages the count is the number sent less the number received |
| `QueueFs.AckMarks` | crates/racfs-plugin-queuefs/src/fs/mod.rs:83-89 | Any stored message can be acknowledged, in any order and again, which marks it and no other |
| `QueueFs.LookupServes` | crates/racfs-plugin-queuefs/src/fs/mod.rs:91-98 | A message is served with its data exactly until it is acknowledged |
| `QueueFs.MillionthOvertakes` | crates/racfs-plugin-queuefs/src/fs/mod.rs:64-107 | A run of a million messages, 100,000 of them received, after which head is not the oldest waiting message, 100001 |
| `QueueFs.DeliversInOrderIff` | crates/racfs-plugin-queuefs/src/fs/mod.rs:64-107 | Head is the oldest message in all runs of fewer than n messages if and only if n is at most a million |
| `StreamFs.StreamObject.EvictOldest` | crates/racfs-plugin-streamfs/src/fs/write.rs:94-99 | The eviction loop removes the lowest ids until the buffer size is met, moving head past each |
| `StreamFs.StreamObject.Append` | crates/racfs-plugin-streamfs/src/fs/write.rs:103-125 | Stores under tail, advances tail, evicts |
| `StreamFs.StreamObject.Write` | crates/racfs-plugin-streamfs/src/fs/write.rs:57-102 | Patches or creates the message, moves tail past it, evicts |
| `StreamFs.StreamObject.Create` | crates/racfs-plugin-streamfs/src/fs/write.rs:14-29 | Puts an empty message under the id and moves tail past it, without evicting |
| `StreamFs.EvictKeepsNewest` | crates/racfs-plugin-streamfs/src/fs/write.rs:117-122 | Eviction leaves min(count, buffer size) messages, every one of them unchanged and newer than every one removed |
| `StreamFs.AppendsHoldLast` | crates/racfs-plugin-streamfs/src/fs/write.rs:103-125 | After any n appends and for any buffer size the stream holds exactly the last min(n, size) messages under consecutive ids, with head = max(1, tail - size) |
| `StreamFs.MixedRun` | crates/racfs-plugin-streamfs/src/fs/write.rs:57-125 | With writes, creates and removes mixed in, every id stays below tail and each append or write leaves at most buffer-size messages |
| `StreamFs.WriteHolds` | crates/racfs-plugin-streamfs/src/fs/write.rs:66-99 | Byte by byte what a message holds after a write at an offset; every other surviving message is as it was |
| `StreamFs.WrittenSurvives` | crates/racfs-plugin-streamfs/src/fs/write.rs:66-99 | A message written at the highest id survives the eviction |
| `StreamFs.CreateEmpties` | crates/racfs-plugin-streamfs/src/fs/write.rs:24-27 | A created message is empty, all others and head stay, tail ends past it |
| `StreamFs.EvictMovesHead` | crates/racfs-plugin-streamfs/src/fs/write.rs:94-99 | Eviction leaves head alone if nothing is dropped and else just past the highest id dropped |
| `StreamPaths.ParsePrinted` | crates/racfs-plugin-streamfs/src/fs/mod.rs:151-178 | For every non-empty slash-free name and every u64 id, parsing the printed path gives back that name and id |
| `StreamPaths.ParseDirectories` | crates/racfs-plugin-streamfs/src/fs/mod.rs:151-178 | The printed directories of a stream parse to their own component |
| `StreamPaths.ParseFiles` | crates/racfs-plugin-streamfs/src/fs/mod.rs:151-178 | The printed head, tail and config files parse to their own component |
| `StreamPaths.ParseNothingElse` | crates/racfs-plugin-streamfs/src/fs/mod.rs:151-178 | Every other path is rejected |
| `StreamPaths.RepeatedSuffixParses` | crates/racfs-plugin-streamfs/src/fs/mod.rs:165-169 | A doubled suffix names the same message |
| `StreamPaths.ListingInIdOrder` | crates/racfs-plugin-streamfs/src/fs/dir.rs:76-87 | For ids below a million, sorting the data directory by path leaves it in numeric id order |
| `StreamPaths.ListingInIdOrderIff` | crates/racfs-plugin-streamfs/src/fs/dir.rs:76-87 | All directories with ids below n are listed in id order if and only if n is at most a million |
| `StreamPaths.ListingBreaksAtMillion` | crates/racfs-plugin-streamfs/src/fs/dir.rs:76-87 | Ids 999999 and 1000000 are listed in the wrong order |
| `StreamPaths.SortNamesCorrect` | crates/racfs-plugin-streamfs/src/fs/dir.rs:86-86 | The listing is in string order and a permutation of the names |
| `StreamPaths.PiecesOfJoin` | crates/racfs-plugin-streamfs/src/fs/mod.rs:151-160 | Splitting a joined path at slashes gives back its components |
| `MountRouter.MountTable.Mount` | crates/racfs-vfs/src/mountable_fs.rs:53-93 | Refuses the root and existing mount points; otherwise enters the filesystem in map and trie, which stay in agreement |
| `MountRouter.MountTable.Unmount` | crates/racfs-vfs/src/mountable_fs.rs:96-118 | Removes the mount from both or reports that there is none |
| `MountRouter.MountTable.SearchTrie` | crates/racfs-vfs/src/mountable_fs.rs:127-147 | Slicing at every byte offset, panics exactly for a key outside ASCII, and otherwise finds the longest prefix of the key in the trie |
| `MountRouter.MountTable.SearchMounts` | crates/racfs-vfs/src/mountable_fs.rs:151-167 | Finds the longest mount point that is a string prefix of the key |
| `MountRouter.MountTable.ResolveFs` | crates/racfs-vfs/src/mountable_fs.rs:121-189 | Panics exactly for a key outside ASCII; otherwise returns the filesystem of the longest string-prefix mount with the path below it, and not-found exactly when no mount matches |
| `MountRouter.JoinAscii` | crates/racfs-vfs/src/mountable_fs.rs:133-134 | A path's string is ASCII exactly when each of its names is |
| `Utf8.AllCutsIff` | crates/racfs-vfs/src/mountable_fs.rs:133-134 | Slicing a string succeeds at every byte offset if and only if the string is ASCII |
| `MountRouter.SameMount` | crates/racfs-vfs/src/mountable_fs.rs:121-167 | Both searches find the same mount |
| `MountRouter.RunAgrees` | crates/racfs-vfs/src/mountable_fs.rs:53-118 | Map and trie agree after every sequence of mounts and unmounts |
| `MountRouter.RunMounts` | crates/racfs-vfs/src/mountable_fs.rs:53-118 | After every run each path holds the filesystem of the first mount there since the last unmount |
| `MountRace.AgreeAtRestIff` | crates/racfs-vfs/src/mountable_fs.rs:53-118 | In all interleavings of the single lock acquisitions of mount and unmount, map and trie agree at rest if and only if there is exactly one thread |
| `MountRace.TrieOutlivesMap` | crates/racfs-vfs/src/mountable_fs.rs:80-118 | An unmount between the two halves of a mount leaves the trie with a mount the map has lost |
| `MountRace.OneOp` | crates/racfs-vfs/src/mountable_fs.rs:53-118 | Without interference the steps of one mount or unmount do what the sequential table does |
| `MountRouter.NormalizeIdempotent` | crates/racfs-vfs/src/mountable_fs.rs:208-227 | Normalising a normalised path changes nothing |
| `MountRouter.ParentCancelsName` | crates/racfs-vfs/src/mountable_fs.rs:208-227 | A name followed by two dots normalises as if neither were there |
| `MountRouter.DotsIgnored` | crates/racfs-vfs/src/mountable_fs.rs:208-227 | A single dot anywhere, and two dots right below the root, change nothing |
| `MountRouter.PlainPathStays` | crates/racfs-vfs/src/mountable_fs.rs:208-236 | A plain absolute path is its own normal form, and its key is its string |
| `MountRouter.NothingIsRoot` | crates/racfs-vfs/src/mountable_fs.rs:223-225 | Whatever collapses to nothing is the root |
| `MountRouter.ResolvesAsNormalized` | crates/racfs-vfs/src/mountable_fs.rs:121-189 | A path has one resolution, the one of its normal form |
| `MountRouter.RoutesCorrectlyIff` | crates/racfs-vfs/src/mountable_fs.rs:169-188 | The mount found is the deepest ancestor, and mount and relative path give back the path, if and only if the match ends on a component boundary |
| `MountRouter.ResolvesToDeepestIff` | crates/racfs-vfs/src/mountable_fs.rs:121-189 | End to end for plain absolute paths: the answer is the deepest mount above the path with the rest of the path if and only if the match ends on a component boundary |
| `MountRouter.RelativeIsNotRouted` | crates/racfs-vfs/src/mountable_fs.rs:121-147 | A relative path is never routed |
| `MountRouter.MidComponentMatch` | crates/racfs-vfs/src/mountable_fs.rs:151-180 | A mount at /memfs catches /memfs2/x and hands it on whole |
| `InodeTable.InodeManager.Allocate` | crates/racfs-fuse/src/inode_manager.rs:39-51 | Returns the path's number or a new one never in the table; the maps stay mutual inverses |
| `InodeTable.InodeManager.Lookup` | crates/racfs-fuse/src/inode_manager.rs:54-61 | The two lookups undo each other |
| `InodeTable.InodeManager.Remove` | crates/racfs-fuse/src/inode_manager.rs:64-68 | Removes number and path from both maps, nothing else |
| `InodeTable.InodeManager.RemovePath` | crates/racfs-fuse/src/inode_manager.rs:71-75 | Removes path and number from both maps, nothing else |
| `InodeTable.NeverReissued` | crates/racfs-fuse/src/inode_manager.rs:39-75 | In every interleaving of the single map and counter accesses the numbers drawn are 2, 3, 4 and so on |
| `InodeTable.NumberKeepsItsPath` | crates/racfs-fuse/src/inode_manager.rs:39-75 | In every interleaving a number that names a path names no other path at any later point |
| `InodeTable.AnswersConsistent` | crates/racfs-fuse/src/inode_manager.rs:39-75 | In every interleaving any two answers, from whichever operations, that give the same number give the same path |
| `InodeTable.LookupsAnswer` | crates/racfs-fuse/src/inode_manager.rs:54-61 | A lookup answers exactly what the tables hold at that moment |
| `InodeTable.AloneIsInverse` | crates/racfs-fuse/src/inode_manager.rs:39-75 | In every run of one thread the maps are mutual inverses between operations |
| `InodeTable.RacingAllocationsAgree` | crates/racfs-fuse/src/inode_manager.rs:39-51 | In every interleaving without removals each path's number leads back to the path, and once no allocation is under way every named path is found |
| `InodeTable.TwoNumbersForOnePath` | crates/racfs-fuse/src/inode_manager.rs:39-51 | Any two racing threads among any set can give one path two numbers |
| `InodeTable.InverseAtRestIff` | crates/racfs-fuse/src/inode_manager.rs:39-75 | In all interleavings of a non-empty thread set the maps are mutual inverses at rest if and only if there is exactly one thread |
| `Readdir.BuildEntries` | crates/racfs-fuse/src/async_fs.rs:469-496 | The entries are dot, dot-dot and the server's entries under the table's numbers; known paths keep theirs, so listing again gives the same entries |
| `Readdir.ListingAt` | crates/racfs-fuse/src/async_fs.rs:469-496 | Entry by entry: dots, then number, name and kind, with symlink and directory types respected and a trailing slash making a directory otherwise |
| `Readdir.FillReply` | crates/racfs-fuse/src/blocking_adapter.rs:86-95 | The reply holds the entries from the offset on that fit before the first refusal, each stamped with the offset after it |
| `Readdir.FitIsMost` | crates/racfs-fuse/src/blocking_adapter.rs:86-95 | A reply's entries fit, and with the next one they would not |
| `Readdir.StampedAt` | crates/racfs-fuse/src/blocking_adapter.rs:87-87 | Each entry carries the offset just after it |
| `Readdir.DeliversInOrder` | crates/racfs-fuse/src/async_fs.rs:897-903 | For any buffer sizes the resumed deliveries are a stretch of the listing without gap or repeat |
| `Readdir.EmptyReplyIff` | crates/racfs-fuse/src/async_fs.rs:498-499 | A reply is empty if and only if the listing is finished or the next entry does not fit |
| `Readdir.ReadsWholeDirectory` | crates/racfs-fuse/src/async_fs.rs:897-903 | With buffers that hold any one entry the listing is delivered completely, each entry once and in order, in at most as many calls as entries, and then the reply is empty |

## Left out

- Segments.MergeWriteSegments: segments that end beyond u64 are not covered; the source's additions would overflow there.
- WriteBack.RunFollowsPlan: the server is a positional overlay that accepts or refuses (`FlushToMemFs` says where MemFS differs), and the lossy UTF-8 conversion at crates/racfs-fuse/src/async_fs.rs:187 is not modelled. Other operations on the path call `invalidate` and drop pending writes, so they are outside the claim. Calls on one path are sequential here and interleaved in `FlushRace`.
- WriteBack.WriteBackFs.Invalidate: the stat, listing and content caches that the source clears at crates/racfs-fuse/src/cache.rs:172-179 are not part of this model; nothing modelled reads them.
- FlushRace.OneFlushFollowsBatches: one flush at a time; `FlushRace.FileFollowsBatchesIff` says that this is needed.
- Handles.EveryRunIsSafe: handle ids are fresh, as for UUIDv7 in section 5.7 of RFC 9562. Freedom from deadlock is not claimed; lines 75-76 and 82-83 of handle_manager.rs take the two locks in opposite orders.
- Rotate.Exec: truncate and remove are left out; they discard bytes by design.
- CachedFs.ReadAgrees: offset plus size does not overflow i64.
- CachedFs.RunCoherent: symlinks, extended attributes and FoyerCache (whose `invalidate_prefix` does nothing) are left out, and directory listings, which MemFS computes by string prefix, are not claimed coherent. Cached timestamps are truncated to milliseconds. Calls do not overlap; `CacheRace` interleaves reads and mutations.
- RateLimit.AdmissionsBounded: the configuration is fixed over the trace.
- Breaker.OutageBounded: sequential use of one client.
- FileLocks.EveryRunIsSafe: each `set_lock` is one step; `LockRace` has the two steps of the source.
- QueueFs.DeliveredInOrder: one consumer; path parsing, the text of `.ack` writes and the unused `head_id` are left out.
- StreamFs.MixedRun: compression, negative offsets, id u64::MAX and client-written heads are left out.
- MountRouter.RunAgrees: mount points are canonical paths and calls do not overlap; `MountRace` interleaves them.
- MountRouter.MountTable.ResolveFs: paths are valid Unicode, so the lossy conversion of the source changes nothing.
- InodeTable.NeverReissued: the counter does not wrap around u64.
- Readdir.ReadsWholeDirectory: the server's listing does not change between the calls.
- Reads through FUSE after buffered writes do not see the buffer, so read-your-writes is not a property of the code.
- MemFS trees are not claimed well formed: mkdir checks the grandparent and touch no parent.
- The HTTP, SQL, S3, vector, PostgreSQL, proxy and host filesystem plugins, whose behaviour rests on foreign engines.
- hellofs, heartbeatfs, serverinfofs, devfs, the CLI, configuration, error mapping and serialised types: fixed tables and finite case lists without state that one call leaves for another.
- The server's API handlers, authentication, metrics and tracing.

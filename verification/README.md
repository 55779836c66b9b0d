# CatFS: a verified model of the upload writer and of the dentry cache

CatFS mounts a bucket of an object store as a file system. This project models
its two stateful halves in Dafny, and the file and directory handles on top of
them, and proves what each step keeps and what whole runs amount to.

**The upload writer.** A file that is written arrives as a stream of buffers.
`SequenceWriter` collects up to 8 MiB for a single PUT; when that buffer is full
and more arrives it opens a multipart upload, moves the first buffer over, and
uploads a part whenever the part buffer is full. Release finishes the object.
`Writer` has these as mutable classes; `SequentialStream` says, for any stream,
which bytes belong to which part and which calls the store gets.

**The dentry cache.** Directories and files that were seen are a tree of mutable
dentries with a 64-way sharded index by inode id (`DentryNode`, `DentryIndex`,
`LocalMeta`). `MetaService` looks names up, creates, removes and lists them
against the bucket: a lookup makes up to three probes, and a listing walks the
pages of the bucket's listing, merges each page into the tree, and sweeps out
what no page mentioned. A `Cache` value (`DentryTree`) stands for the attached
dentries; every method states the new `Cache` in terms of the old one, and the
theorems are about these functions.

**The main results**

1. *Stream = object.* Writing any stream in any cut that fits the buffers and
   releasing it makes the object at the file's path exactly that stream, touches
   no other object, and makes calls that depend on nothing but the stream. Every
   read on the same handle, and on one opened next, returns the exact slice
   (`FileSession.WriteThenRead`). A handle opened at any later time in any history
   that keeps the object returns it exactly when the cache then takes the file to
   be at least as long as the stream (`FileSizes.OpenedLater`). What each event
   makes of that size is known beforehand (`FileSizes.EventSize`), so the stream
   stays readable exactly as long as no event leaves a smaller size
   (`FileSizes.OpenedAnyTime`).
2. *When a buffer overruns.* `Part` copies without clamping. A write goes past a
   buffer exactly when it is longer than the room in the buffer in use
   (`Writer.SequenceWriter.Write`). Writers of one block size never do exactly when
   it divides 8 MiB and the part size, and parts have at least 8 MiB
   (`SequentialStream.BlocksFit`); two writes of 5 MiB do
   (`SequentialStream.UnalignedWriteDoesNotFit`).
3. *Mark and sweep.* Merging a tree `T` below `d` and sweeping leaves the paths
   each step of which is in `T` or was marked before; from clear marks that is
   exactly the paths of `T`, at every depth and in any order of iteration
   (`Refresh.RefreshExact`).
4. *A refresh against the bucket.* For any page size, a refresh leaves exactly
   the bucket's one-level listing if and only if, before it, no cached child
   carried a mark without being listed, and none was of another kind than listed
   (`Level.RefreshCoherent`). Files never carry marks between operations, in any
   history (`History.RefreshedFilesAgree`).
5. *Coherence.* A directory that agrees with the bucket goes on doing so, event
   by event and through every history, if and only if the events are harmless,
   which can be told before each event (`History.EventCoherent`,
   `History.HistoryCoherent`). Lookups, creations, writes, refreshes of the
   directory and of directories it is not below always are. For removals,
   releases, changes by others, and refreshes of a directory above there is a
   condition (`Coherence.RemoveCoherent`, `History.ReleaseCoherent`,
   `History.RefreshAbove`). Listing a directory that agrees returns the bucket's
   names and no others (`MetaService.MetaImpl.ListCoherent`).
6. *Histories.* Over every sequence of lookups, creations, removals, refreshes,
   writes and releases, and of changes that others make to the bucket, the
   dentries form a tree, and a dentry keeps its path and its kind for life
   (`History.EveryHistory`, `History.PathAndKindForLife`).
7. *Interleavings.* Over every interleaving of the locked sections ids stay
   distinct, a slot of the index that is not NULL never changes, and an attached
   dentry that is missing from the index is in the hands of exactly one thread
   (`Interleaving.AttachedIsIndexed`, `Interleaving.SlotsForLife`). Over every
   order of writes and releases on several handles each handle has the stream of
   its own writes, and the bucket is what the releases stored one after the other
   (`HandleRuns.Table.Run`): on distinct paths each handle's stream
   (`HandleRuns.DistinctPaths`), and on one path that of the last handle to store
   something (`HandleRuns.LastReleaseWins`).
8. *Directory pages.* Calls that read on from the last offset deliver the
   handle's entries once each and in order, and end, when each buffer can hold
   the next entry (`DirPaging.RunDeliversAll`). With buffers of one size they do
   so exactly when that size holds the longest entry (`DirPaging.UniformRun`).
9. *Attributes and calls.* What every lookup, creation, removal and refresh makes
   of modes, sizes, times, marks and flags of each dentry is told in terms of the
   bucket, down to the permission bits (`Attributes`). The calls are exact: a
   lookup makes one to three probes and none for a fresh name, a refresh one call
   for each page. A second lookup in time costs none
   (`MetaService.MetaImpl.FindTwice`), and a second listing none exactly when there
   is something to show (`MetaService.MetaImpl.ListTwice`).

**What the code does not do.** Some properties that the code seems meant to have
are false of it. The model follows the code. For each there is the exact
condition, and an input that shows it: for the cache a history of a mount that
starts cold (`Witnesses`).

- The sweep marks each directory that it visits (`src/meta/meta_local_mem.cpp:232`),
  so a directory that one refresh kept outlives the next refresh even when the
  bucket lists it no more (`Refresh.DirectoriesStick`, `Level.RefreshCoherent`;
  input: `Witnesses.RemovedDirectoryStays`).
- The sweep goes down into directories whose own level was not listed, at every
  depth. Of their children it drops the unmarked ones, and they count as complete
  and fresh all the same. Such a directory is left exactly when each step towards
  it was listed or marked, and then agrees with the bucket exactly when its marked
  children are all that is there (`Level.SubdirectoryCoherent`; input:
  `Witnesses.RefreshHidesFile`).
- When a name is both a file and a directory, a refresh gives the file the size 0
  exactly when the two fall on different pages, unless the file is empty anyway
  (`Level.RefreshedSize`; input, for every page size: `Witnesses.SizeLost`).
- A removal of a name that is both uncovers the directory in the bucket and not
  in the cache (`Coherence.RemoveCoherent`; input: `Witnesses.RemovalUncovers`).
- A directory that holds something is removed when the cache does not know it. The
  removal of a directory that agrees with the bucket is refused exactly when the
  bucket holds something in it (`Coherence.NotEmptyExact`; input, after a lookup:
  `Witnesses.FullDirectoryRemoved`).
- A file that is removed while it is open comes back when it is released
  (`History.ReleaseCoherent`; input: `Witnesses.UnlinkedFileReturns`).
- An expired file whose object is gone stays cached (`src/meta/meta_impl.cpp:78`):
  a lookup is right exactly when the name was not cached or was cached rightly
  (`Coherence.FindAgrees`), and the size becomes whatever the empty response
  carries (`Coherence.FindSize`; input: `Witnesses.RemovedFileStays`).
- A handle reads no further than the size that the cache had for the file when it
  was opened. A lookup of an expired file while it is written takes the size of the
  object that is there so far, a refresh takes the listed size, and a second writer
  its own, so that a file can be read short after its release (`Handles.ClampExact`,
  `FileSizes.OpenedLater`; inputs: `Witnesses.LookupCutsFile`,
  `Witnesses.ShorterWriteCutsFile`).
- An expired directory stays a directory exactly when the store reports no mode
  for its key (`Coherence.ExpiredDirectory`; input: `Witnesses.DirectoryLost`).
- A lookup of an expired file gives it a mode without a type, so a regular file is
  one after a lookup exactly while there is time (`Attributes.ExpiredType`; input:
  `Witnesses.TypeLost`).
- A refresh makes a directory complete only when it has children, so an empty one
  is listed anew each time; it is live after a refresh exactly when there is
  something to show, or it was complete before (`Attributes.RefreshedLive`; input:
  `Witnesses.EmptyListedAgain`).
- A read is not clamped exactly when its end wraps around in 64 bits to at most the
  size (`Handles.ClampedRead`; input: `Handles.WrappedRead`).
- Two threads that miss the same name both add it, and the first dentry is lost
  to the tree; adding keeps every dentry attached exactly when the name is free
  or its directory was detached (`Interleaving.AddKeepsAttached`; input:
  `Interleaving.RaceReplacesChild`).
- A directory read gets stuck where a buffer cannot hold the next entry
  (`DirPaging.EmptyReply`, `DirPaging.StuckRun`, `DirPaging.UniformRun`; inputs,
  for any entries: `DirPaging.StuckExample`).

**The domain.** The store is the interface of `src/stor/stor.h`: a map from keys
to bytes with listings by prefix and delimiter, and multipart uploads that are
put together in part-number order. Listings leave out the key that is equal to
the prefix and follow the marker contract of the Amazon S3 ListObjects call.
Uploads may answer with any positive part size; below 8 MiB the mode switch is
proved to overrun. No mode is reported for directory keys (`Lookup.NoDirModes`). Writes
are shorter than 2^31 bytes, the width of the result, and a handle is released
once and not written afterwards. Sums that the code makes in 64 bits are wrapped
where a caller can reach the wrap (`Handles.Clamp`).

## Model

| member | source | states |
|---|---|---|
| Writer.Part.Write | src/fs/fwriter/fwriter_seq_part.h:30-37 | a full buffer takes nothing; otherwise the copy is in bounds exactly when it fits, and then appends all of it |
| Writer.Part.Copy | src/fs/fwriter/fwriter_seq_part.h:39 | the same for a copy out of another buffer, which stays as it was |
| Writer.Part.Clear | src/fs/fwriter/fwriter_seq_part.h:41 | the buffer is empty |
| Writer.SequenceWriter.constructor | src/fs/fwriter/fwriter_seq.h:41 | a new writer has an empty stream and has called nothing |
| Writer.SequenceWriter.Write | src/fs/fwriter/fwriter_seq.cpp:11-24 | off the end of the stream: refused, nothing changed; else an overrun exactly when the data is longer than the room in the buffer in use; else the stream grows by the data |
| Writer.SequenceWriter.WriteData | src/fs/fwriter/fwriter_seq.cpp:26-74 | the loop keeps stream = uploaded parts ++ buffer through the mode switch; single PUT exactly up to 8 MiB |
| Writer.SequenceWriter.PutPass | src/fs/fwriter/fwriter_seq.cpp:32-58 | one pass in PUT mode: ends the write, or finds the buffer full and switches to multipart |
| Writer.SequenceWriter.FillMput | src/fs/fwriter/fwriter_seq.cpp:59-71 | one pass in multipart mode: appends and uploads a part that became full, so that no buffer is left full |
| Writer.SequenceWriter.SwitchMputMode | src/fs/fwriter/fwriter_seq.cpp:76-108 | after the switch the upload holds the first buffer's full parts and the part buffer the rest; in bounds exactly for part sizes of at least 8 MiB |
| Writer.SequenceWriter.UploadFirst | src/fs/fwriter/fwriter_seq.cpp:92-93 | a first buffer of exactly the part size becomes part 0 |
| Writer.SequenceWriter.RehomeBuffer | src/fs/fwriter/fwriter_seq.cpp:94-106 | the copy loop moves the whole first buffer when parts are larger, and overruns when they are smaller |
| Writer.SequenceWriter.UploadPart | src/fs/fwriter/fwriter_seq.cpp:110-124 | the part buffer's contents become the next numbered part |
| Writer.SequenceWriter.Release | src/fs/fwriter/fwriter_seq.cpp:130-150 | nothing for an empty stream; else the object at the path is the stream, no other object changes, and the calls are those of the stream alone |
| Writer.SequenceWriter.UploadFile | src/fs/fwriter/fwriter_seq.cpp:152-164 | up to 8 MiB one PUT of the stream is the only call |
| Writer.SequenceWriter.FinishMput | src/fs/fwriter/fwriter_seq.cpp:166-181 | the finished upload is the stream |
| Writer.SequenceWriter.UploadLast | src/fs/fwriter/fwriter_seq.cpp:166-173 | the bytes left in the buffer become the last part, if any |
| Writer.SequenceWriter.Undisturbed | src/fs/fwriter/fwriter_seq.cpp:110-124 | what others do to the store keeps a writer's invariant as long as its own upload is left alone |
| Writer.StoreDeltaTransitive | src/fs/fwriter/fwriter_seq.cpp:110-124 | effects on the store compose: own calls recorded, objects and other uploads untouched |
| SequentialStream.ChunksRebuild | src/fs/fwriter/fwriter_seq.cpp:59-71 | the full parts and the rest make up the stream |
| SequentialStream.ChunksGeometry | src/fs/fwriter/fwriter_seq.cpp:59-71 | between writes there are length / P parts of exactly P bytes, and length % P bytes in the buffer |
| SequentialStream.AppendFilling | src/fs/fwriter/fwriter_seq.cpp:62-65 | data that fills the buffer makes it the next part and leaves an empty one |
| SequentialStream.AppendWithin | src/fs/fwriter/fwriter_seq.cpp:59-71 | data that does not fill the buffer changes no part |
| SequentialStream.MultipartGeometry | src/fs/fwriter/fwriter_seq.cpp:166-173 | the parts rebuild the stream; there are ceil(N/P); all but the last have P bytes, the last 1 to P |
| SequentialStream.CallsExact | src/fs/fwriter/fwriter_seq.cpp:136-181 | one PUT is the only call exactly up to 8388608 bytes; a longer stream opens an upload, puts its parts numbered from 0 and finishes it |
| SequentialStream.AlignedWritesFit | src/fs/fwriter/fwriter_seq_part.h:30-37 | writes of a block size that divides 8 MiB and P, and a last one no longer, always fit |
| SequentialStream.BlocksFit | src/fs/fwriter/fwriter_seq_part.h:30-37 | any number of writes of one block size fits exactly when the size divides 8 MiB and the part size, and parts have at least 8 MiB |
| SequentialStream.UnalignedWriteDoesNotFit | src/fs/fwriter/fwriter_seq_part.h:34 | two writes of 5 MiB do not |
| Stor.AssembleNumbered | src/stor/stor.h:105-107 | parts numbered from 0 without gaps are put together in order |
| Stor.Stor.ListObjects | src/stor/stor.h:101 | a page of the listing by prefix and, if asked for, delimiter, from the marker on, with its next marker |
| Stor.Stor.MInit | src/stor/stor.h:105 | a new upload for the key, and nothing else |
| Stor.Stor.MPut | src/stor/stor.h:106 | the part is kept under its number |
| Stor.Stor.MFinish | src/stor/stor.h:107 | the object is the parts in part-number order, and the upload is gone |
| Handles.ClampExact | src/fs/open_file.cpp:8-23 | clamping reads to a size changes no answer exactly when that size is at least the object's, off + size wrapping in 64 bits included |
| Handles.ClampedRead | src/fs/open_file.cpp:8-23 | a clamped read is a read of the object cut to the size the handle knows, unless its end wraps around to at most that size |
| Handles.WrappedRead | src/fs/open_file.cpp:14-16 | a read past the size that the handle knows |
| Handles.SliceBytes | src/fs/open_file.cpp:8-23 | a slice has the object's bytes at their offsets, as many as asked for unless the object ends before |
| Handles.SuccessiveReads | src/fs/open_file.cpp:8-23 | reads each from where the last one ended rebuild the file |
| Handles.OpenFile.Read | src/fs/open_file.cpp:8-23 | the slice of the object that the handle's idea of the size allows |
| Handles.OpenFile.Write | src/fs/open_file.cpp:25-36 | the writer's outcome; after an accepted write the handle's size is the length of the stream |
| Handles.OpenFile.Release | src/fs/open_file.cpp:38-47 | the object is the stream; the handle's size stays |
| Handles.OpenFile.KeepsOthers | src/fs/fs_file.cpp:43-73 | a write or release leaves every other handle in order, with its own buffers and its own upload, and what it released in the store |
| HandleRuns.Table.KeepsAll | src/fs/fs_file.cpp:43-73 | so all handles stay in order and apart, on whatever paths they are |
| HandleRuns.Table.Run | src/fs/fs_file.cpp:43-73 | over any order of writes and releases each handle has the stream of its own accepted writes, and the bucket has what the releases stored, in their order, and nothing else new |
| HandleRuns.DistinctPaths | src/fs/fs_file.cpp:62-73 | on distinct paths every released stream is the object at its own path |
| HandleRuns.LastReleaseWins | src/fs/fs_file.cpp:62-73 | of the handles on one path the last to store something decides the object |
| FileSystem.CatFS.OpenFile | src/fs/fs_file.cpp:9-28 | a new handle with the dentry's path and size, or none for an unknown inode |
| FileSystem.CatFS.ReadFile | src/fs/fs_file.cpp:30-41 | an unknown handle is refused; else the read of the handle |
| FileSystem.CatFS.WriteFile | src/fs/fs_file.cpp:43-60 | refused without effect off the end; else stream, handle and inode agree about the size, only the inode's size is new in the cache, and nothing is if the dentry was removed meanwhile; no other object or upload is touched |
| FileSystem.CatFS.ReleaseFile | src/fs/fs_file.cpp:62-73 | the object is the stream, by the calls of the stream, and no other object or upload is touched, even if the file's dentry was removed meanwhile |
| FileSession.WriteBuf | src/fs/fsa.cpp:247-266 | a vector of buffers is refused only as a whole, and exactly off the end; it overruns exactly when not all buffers fit; else it is written in full and the sum is returned |
| FileSession.RestFits | src/fs/fsa.cpp:253-259 | each buffer of a vector that fits finds room after the ones before it |
| FileSession.SessionEffect | src/fs/fs_file.cpp:43-73 | writing and releasing puts the stream at the path and adds exactly its calls to the log |
| FileSession.WriteWhole | src/fs/fs_file.cpp:9-73 | open, write and release: object, calls, sizes and cache |
| FileSession.WriteThenRead | src/fs/fs_file.cpp:9-73 | whatever was written comes back from every read, on the same handle and on one opened next; only the object at the path changed |
| FileSession.OpenAndRead | src/fs/fs_file.cpp:9-41 | what a handle opened now reads: the object at the dentry's path, clamped to the cached size |
| FileSizes.EventSize | src/meta/meta_impl.cpp:65-241 | the cached size of a file after any event, from the state before it: a lookup when its time is up takes the store's answer, a refresh of its directory the listed size, a write the stream's length; nothing else changes it |
| FileSizes.EventObject | src/meta/meta_impl.cpp:119-169 | the object of a file that stays cached changes by releases to its path and by others, and by no operation of the mount |
| FileSizes.StaysBetween | src/meta/meta_local_mem.cpp:191-196 | a file that is cached at two times of a history is cached, at the same path, in between |
| FileSizes.SizeHistory | src/meta/meta_impl.cpp:65-241 | over every history a file keeps its cached size exactly as long as each event leaves it |
| FileSizes.ObjectHistory | src/meta/meta_impl.cpp:119-169 | and its object exactly as long as neither a release nor others replace it |
| FileSizes.OpenedLater | src/fs/fs_file.cpp:9-41 | after a release and any events that keep the object, a handle opened on the file reads the released stream exactly when the cached size is at least its length |
| FileSizes.OpenedAnyTime | src/fs/fs_file.cpp:9-41 | at all times after the release a handle opened then reads the stream, exactly as long as no event leaves a smaller size |
| FileSizes.WrittenAndOpened | src/fs/fs_file.cpp:9-73 | a handle reads the stream when the events since the last write left the size that it recorded |
| DentryNode.Dentry.GetFullPath | src/types/dentry.h:44-56 | the upward loop ends and yields the slash-join of the names from the root |
| DentryNode.Dentry.GetFullPathWithSlash | src/types/dentry.h:58-61 | the directory's prefix: empty for the root, else the path and a slash |
| DentryNode.Dentry.AddChild | src/types/dentry.h:72-80 | a new dentry under its name with its parent pointer |
| DentryNode.Dentry.RemoveChild | src/types/dentry.h:82-91 | the name goes, all else stays |
| DentryNode.Dentry.ChildrenList | src/types/dentry.h:127-133 | one entry for each child |
| DentryTree.WalkOfNames | src/types/dentry.h:63-70 | following get_child along a dentry's names leads to it |
| DentryTree.NamesOfWalk | src/types/dentry.h:44-70 | where a walk leads, the names are those walked |
| DentryTree.NamesInjective | src/types/dentry.h:44-56 | distinct attached dentries have distinct names from the root |
| DentryTree.BelowIsPrefix | src/types/dentry.h:44-56 | one dentry is below another exactly when its names extend the other's |
| DentryTree.AttachTree | src/types/dentry.h:72-80 | adding a child under an absent name keeps the tree |
| DentryTree.DetachTree | src/types/dentry.h:82-91 | removing a child with what is below it keeps the tree |
| DentryTree.AttachOverTree | src/types/dentry.h:72-80 | adding a child under any name keeps the tree; under a free name nothing leaves it |
| DentryTree.PathForLife | src/types/dentry.h:44-56 | a dentry that stays keeps its names from the root |
| DentryTree.DetachUndoesAttach | src/types/dentry.h:72-91 | removing undoes adding |
| Paths.SplitOfPrefix | src/types/dentry.h:44-61 | names can be read off a path again |
| Paths.PrefixOrder | src/types/dentry.h:58-61 | one directory's prefix starts a key exactly when its names start the key's names |
| Paths.PathRoundTrip | src/types/dentry.h:44-70 | splitting a dentry's path and walking it leads back to the dentry |
| Paths.PathsDistinct | src/types/dentry.h:44-56 | distinct attached dentries have distinct paths |
| Paths.UpStep | src/types/dentry.h:50-53 | the invariant of the upward loop |
| Paths.ChildPaths | src/types/dentry.h:44-61 | a child's path is its directory's prefix and its name |
| DentryIndex.IndexAdd | src/meta/meta_local_mem.cpp:36-41 | saving a new dentry keeps the index exact for all ids |
| DentryIndex.IndexSame | src/meta/meta_local_mem.cpp:79 | the NULL slot that a lookup leaves is invisible |
| LocalMeta.LocalMemMeta.constructor | src/meta/meta_local_mem.cpp:17-34 | a tree of the root alone, in the index |
| LocalMeta.LocalMemMeta.GetDentry | src/meta/meta_local_mem.cpp:79 | the dentry of that id, or null for an id never given out |
| LocalMeta.LocalMemMeta.GetNextInodeId | src/meta/meta_local_mem.cpp:191-196 | an id never given out before |
| LocalMeta.LocalMemMeta.AddChildForDentry | src/meta/meta_local_mem.cpp:91-95 | a new dentry under the name, which the index returns; a child that had the name leaves the tree with all below it |
| LocalMeta.LocalMemMeta.FindDentry | src/meta/meta_local_mem.cpp:97-104 | the child of that name, or which part is missing |
| LocalMeta.LocalMemMeta.CreateDentry | src/meta/meta_local_mem.cpp:81-89 | a dentry for the inode below an existing parent, under any name, else invalid |
| LocalMeta.LocalMemMeta.CreateDentryFromObj | src/meta/meta_local_mem.cpp:106-147 | a dentry with the size and permissions of the object and the kind asked for |
| LocalMeta.LocalMemMeta.RemoveDentry | src/meta/meta_local_mem.cpp:149-159 | the name is detached, with what is below it; all other dentries stay |
| LocalMeta.LocalMemMeta.UpdateInode | src/meta/meta_local_mem.cpp:55-75 | only the given attributes change; unknown ids are refused |
| LocalMeta.LocalMemMeta.Build | src/meta/meta_local_mem.cpp:201-219 | a recursive merge of a file tree, in any order of the children: path by path, ids and marks |
| LocalMeta.LocalMemMeta.BuildChildren | src/meta/meta_local_mem.cpp:203-218 | the loop over the children, in any order |
| LocalMeta.LocalMemMeta.BuildNext | src/meta/meta_local_mem.cpp:203-218 | one child more is merged |
| LocalMeta.LocalMemMeta.BuildChild | src/meta/meta_local_mem.cpp:204-217 | a listed child is taken over or created, merged below, and marked |
| LocalMeta.LocalMemMeta.BuildDentries | src/meta/meta_local_mem.cpp:198-222 | the whole merge below a directory |
| LocalMeta.LocalMemMeta.ClearUnsyncDentry | src/meta/meta_local_mem.cpp:224-259 | the queue loop ends and leaves exactly what is marked all the way up to the directory |
| LocalMeta.LocalMemMeta.SweepChildren | src/meta/meta_local_mem.cpp:238-257 | the loop over a dentry's children, in any order |
| Merge.Compose | src/meta/meta_local_mem.cpp:198-222 | two merges into one directory are one merge of both trees |
| Merge.LiftMerge | src/meta/meta_local_mem.cpp:214 | a merge below a marked child is a merge into its parent |
| Merge.DirStep | src/meta/meta_local_mem.cpp:203-218 | one turn of the loop for a directory child, recursion included |
| Merge.FileStep | src/meta/meta_local_mem.cpp:203-218 | one turn of the loop for a file child |
| Merge.MarkOldChild | src/meta/meta_local_mem.cpp:210-217 | a cached child keeps its id and kind and takes the listed size |
| Merge.MarkNewChild | src/meta/meta_local_mem.cpp:206-209 | a new child gets a fresh id and the listed kind |
| Merge.ObjModeKind | src/meta/meta_local_mem.cpp:136-144 | the permissions of an object never change the kind of its inode |
| Merge.ObjModeBits | src/meta/meta_local_mem.cpp:136-144 | the permission bits are those the store reports, else 0766 or 0644; the other bits say directory or regular file |
| Merge.MergeExists | src/meta/meta_local_mem.cpp:198-222 | every file tree without children under cached files can be merged, and the result is a tree |
| Sweep.PopStep | src/meta/meta_local_mem.cpp:228-236 | what taking a dentry off the queue does to the half-swept cache |
| Sweep.KeepStep | src/meta/meta_local_mem.cpp:245-256 | what passing a marked child does |
| Sweep.DropStep | src/meta/meta_local_mem.cpp:239-243 | what dropping an unmarked child does |
| Sweep.PartIsSwept | src/meta/meta_local_mem.cpp:224-259 | an empty queue means that the sweep is complete |
| Sweep.SweptTree | src/meta/meta_local_mem.cpp:224-259 | what a sweep leaves is a tree |
| SweepQueue.BfsStep | src/meta/meta_local_mem.cpp:238-257 | the queue holds each directory that is left exactly once |
| SweepQueue.BfsEnd | src/meta/meta_local_mem.cpp:228-258 | when the queue is empty everything that can be reached was visited |
| Refresh.MergeThenSweep | src/meta/meta_local_mem.cpp:198-259 | after merge and sweep a path is there exactly when each step was listed or marked before; old dentries keep their ids and new ones are fresh |
| Refresh.RefreshExact | src/meta/meta_local_mem.cpp:198-259 | from clear marks exactly the paths of the tree are left, at every depth |
| Refresh.RefreshClearsFiles | src/meta/meta_local_mem.cpp:245 | a refresh leaves no file marked |
| Refresh.DirectoriesStick | src/meta/meta_local_mem.cpp:232 | a directory kept by one refresh outlives the next, listed or not |
| Refresh.StaysAlong | src/meta/meta_local_mem.cpp:224-259 | a cached dentry below the refreshed directory stays exactly when each step towards it was listed or marked |
| Refresh.SubdirectoriesHollowed | src/meta/meta_local_mem.cpp:238-256 | of a kept directory below the refreshed one, at any depth, exactly the marked children stay; it counts as fresh, and as complete if it had a child |
| Listing.EntryShape | src/meta/meta_impl.cpp:188-208 | an entry of a one-level listing is a name, or a name and a slash, after the prefix |
| Listing.FileEntry | src/meta/meta_impl.cpp:201-207 | a name is listed as an object exactly when its key is there |
| Listing.DirEntry | src/meta/meta_impl.cpp:191-199 | a name is listed as a directory exactly when a key starts with it and a slash |
| Listing.PagesSpellListing | src/meta/meta_impl.cpp:210-233 | following markers ends, and the pages put together are the unpaged listing, each entry once |
| Listing.SeenStep | src/meta/meta_impl.cpp:229-231 | each page adds the entries up to its next marker, and less remains |
| MetaService.MetaImpl.GetRemoteObj | src/meta/meta_impl.cpp:16-35 | the object of the name, else the placeholder, else nothing |
| MetaService.MetaImpl.IsRemoteDirExist | src/meta/meta_impl.cpp:108-117 | true exactly when a key goes on after the prefix |
| MetaService.MetaImpl.FindDentry | src/meta/meta_impl.cpp:37-106 | the whole lookup: cached and live, cached and expired, object, placeholder, virtual directory, nothing; and its calls |
| MetaService.MetaImpl.FindTwice | src/meta/meta_impl.cpp:37-106 | a second lookup of a found name before its time is up makes no call, finds the same and changes nothing |
| MetaService.MetaImpl.FetchDentry | src/meta/meta_impl.cpp:42-64 | the miss branch: the three probes and what they attach |
| MetaService.MetaImpl.Revalidate | src/meta/meta_impl.cpp:65-105 | the expired branch |
| MetaService.MetaImpl.CreateDentry | src/meta/meta_impl.cpp:119-149 | an existing name is returned; else an empty object is put and a dentry attached; the calls are those of the lookup and the one PUT |
| MetaService.MetaImpl.RemoveDentry | src/meta/meta_impl.cpp:151-169 | absent names and non-empty directories are refused; else key and dentry go; the calls are those of the lookup and the one DELETE |
| MetaService.MetaImpl.BuildFtreeFromListObjects | src/meta/meta_impl.cpp:188-208 | the tree of a page: its names, files before directories of the same name |
| MetaService.MetaImpl.MergeAll | src/meta/meta_impl.cpp:213-233 | the marker loop ends, and has merged the pages of the listing one after the other |
| MetaService.MetaImpl.MergePages | src/meta/meta_impl.cpp:210-233 | together the merges are one merge of the whole level, sizes included as the pages give them |
| MetaService.MetaImpl.RefreshSubDentries | src/meta/meta_impl.cpp:210-236 | a merge of all pages that the bucket lists, by one call each, then the sweep |
| MetaService.MetaImpl.LoadSubDentries | src/meta/meta_impl.cpp:173-186 | complete and live: no store call and no change; else a refresh and its calls; the entries are the dots and each child once |
| MetaService.MetaImpl.ListTwice | src/meta/meta_impl.cpp:173-186 | two listings in a row cost the calls of one, and list the same, if there is something to show; else each costs its own |
| MetaService.LoadCost | src/meta/meta_impl.cpp:210-233 | a listing that is not live costs one call for each thousand entries begun, and one if there are none |
| MetaService.MetaImpl.ListCoherent | src/meta/meta_impl.cpp:173-186 | of a directory that agrees with the bucket the entries are the dots and one for each of the bucket's names, with the ids of the children, live or not, and it agrees afterwards |
| MetaService.ListingCoherent | src/meta/meta_impl.cpp:173-186 | the same of any cache behind a listing |
| MetaService.MetaImpl.UpdateInodeSize | src/meta/meta_impl.cpp:238-241 | only the size changes |
| Lookup.ThreeProbes | src/meta/meta_impl.cpp:16-64 | the probes decide between file, directory and nothing as a listing does |
| Lookup.FetchedKind | src/meta/meta_impl.cpp:42-64 | what a miss attaches has the kind that the bucket shows |
| Lookup.RevalidatedKeeps | src/meta/meta_impl.cpp:65-105 | an expired dentry keeps its place, kind and mark |
| Lookup.KindStable | src/meta/meta_impl.cpp:84-93 | the new mode keeps the kind exactly when no mode is reported for a directory |
| Lookup.RefreshedModeBits | src/meta/meta_impl.cpp:84-93 | the permission bits are those the store reports, else 0755 or 0644; the only other bit is that of a directory without a reported mode |
| Lookup.FindTree | src/meta/meta_impl.cpp:37-106 | a lookup keeps the tree, and every dentry in its place |
| Attributes.LookupTime | src/meta/meta_impl.cpp:65-105 | a lookup of a cached name changes time, mode and size of its dentry at most; the time is renewed exactly if it was up |
| Attributes.LookupAttributes | src/meta/meta_impl.cpp:65-105 | size, permission and type bits after a lookup: as they were while there is time, and for a directory without an object; else as the store answers |
| Attributes.ExpiredType | src/meta/meta_impl.cpp:84-103 | a regular file is one after a lookup exactly while there is time |
| Attributes.LookupNew | src/meta/meta_impl.cpp:42-64 | a lookup of a name that is not cached makes one dentry if the bucket has the name: fresh, unmarked, not complete, without children; all else stays |
| Attributes.LookupNewAttributes | src/meta/meta_impl.cpp:42-64 | its size and permission bits are the object's; a directory without an object is empty and has its parent's mode |
| Attributes.LookupFresh | src/meta/meta_impl.cpp:37-106 | after every lookup that finds something the name is fresh exactly until its time is up |
| Attributes.CreatedNode | src/meta/meta_impl.cpp:119-149 | a creation puts an empty object under the key of its kind and makes a dentry with the mode asked for, empty and already expired; all else stays |
| Attributes.RemovedNode | src/meta/meta_impl.cpp:151-169 | a removal takes the object and the dentry of the name, unless that is a directory with cached children |
| Attributes.RemovedNothing | src/meta/meta_impl.cpp:151-153 | a removal of a name that is not found does what its lookup does, and no more |
| Attributes.DetachNodes | src/types/dentry.h:82-91 | removing a child takes off exactly the child and what is below it |
| Attributes.AttachOverExact | src/types/dentry.h:72-80 | adding a child makes one dentry and takes off exactly what had the name, with all below it |
| Attributes.ColdRoot | src/meta/meta_local_mem.cpp:17-34 | a mount starts with a root of mode 0766 that is neither complete nor fresh |
| Attributes.RefreshedSelf | src/meta/meta_local_mem.cpp:224-259 | a refreshed directory keeps its name, parent, mode and size; it is marked and fresh, and complete exactly when it was before, had children, or the bucket lists some |
| Attributes.RefreshedLive | src/meta/meta_impl.cpp:180-236 | so it is live afterwards exactly until its time is up, and exactly if there is something to show or it was complete before |
| Attributes.RefreshedOutside | src/meta/meta_local_mem.cpp:198-259 | a refresh leaves what is not below the directory as it is |
| Attributes.RefreshedOld | src/meta/meta_local_mem.cpp:198-259 | a cached dentry below it that stays keeps name, parent and mode, is fresh, is marked exactly if it is a directory, and takes the listed size |
| Attributes.RefreshedNew | src/meta/meta_local_mem.cpp:198-259 | a new child is bare, fresh, marked exactly if it is a directory, and has the permission bits that the store reports, or the default ones |
| Attributes.DirectorySize | src/meta/meta_impl.cpp:191-199 | a directory that is listed gets the size 0 |
| Coherence.FindCoherent | src/meta/meta_impl.cpp:37-106 | a lookup keeps a directory equal to the bucket's listing |
| Coherence.FindAgrees | src/meta/meta_impl.cpp:37-106 | a lookup is right about the name exactly when the name was not cached or was cached rightly |
| Coherence.FindSize | src/meta/meta_impl.cpp:65-105 | a cached file keeps its size until it expires, then takes the object's, or the empty response's if the object is gone |
| Coherence.ExpiredDirectory | src/meta/meta_impl.cpp:65-105 | an expired directory stays one exactly when the store has no mode for its key |
| Coherence.FindNothing | src/meta/meta_impl.cpp:42-59 | a lookup that finds nothing changes nothing, and the bucket has nothing |
| Coherence.CreateCoherent | src/meta/meta_impl.cpp:119-149 | a creation, anywhere in the tree, keeps a directory equal to the bucket's listing |
| Coherence.RemoveCoherent | src/meta/meta_impl.cpp:151-169 | a removal keeps a directory equal to the listing exactly when nothing is left under the name, and something under the directories above |
| Coherence.NotEmptyExact | src/meta/meta_impl.cpp:160-162 | the removal of a directory that agrees with the bucket is refused as not empty exactly when the bucket holds something in it |
| Coherence.StepComplete | src/meta/meta_impl.cpp:37-169 | no operation takes the complete flag from a directory that stays |
| Coherence.StepCoherentIff | src/meta/meta_impl.cpp:37-169 | an operation keeps a directory equal to the listing exactly when it is a lookup, a creation or a removal that neither takes the directory away nor harms it |
| Coherence.RunCoherent | src/meta/meta_impl.cpp:37-169 | over whole runs of lookups, creations and harmless removals a directory stays equal to the listing |
| Level.NextPage | src/meta/meta_impl.cpp:213-233 | a further page adds its names and changes no kind: a file comes first even across pages |
| Level.RefreshHappens | src/meta/meta_impl.cpp:210-236 | every directory has a refresh, whatever the cache and the bucket hold |
| Level.RefreshTree | src/meta/meta_impl.cpp:210-236 | a refresh keeps the tree and the directory itself |
| Level.RefreshedNames | src/meta/meta_impl.cpp:210-236 | name by name what a refresh leaves, with ids and kinds |
| Level.PagedSize | src/meta/meta_impl.cpp:201-233 | the last page that mentions a name decides its size |
| Level.RefreshedSize | src/meta/meta_impl.cpp:210-236 | the size after a refresh is the object's exactly when no key goes on below the name, or file and directory are on one page, or the file is empty; else it is 0 |
| Level.ListingCost | src/meta/meta_impl.cpp:210-233 | a refresh makes as many calls as its entries take pages, and one if there are none |
| Level.RefreshCoherent | src/meta/meta_impl.cpp:210-236 | a refresh ends in the listing exactly when no stale mark and no other kind was cached |
| Level.RefreshKeepsCoherent | src/meta/meta_impl.cpp:210-236 | a refresh of a directory that agrees with the bucket leaves it so, whatever is marked |
| Level.RefreshElsewhere | src/meta/meta_local_mem.cpp:224-259 | a refresh keeps every directory that is not below the refreshed one equal to the listing |
| Level.LookupAgreesWithListing | src/meta/meta_impl.cpp:16-64 | for a name that is not cached, lookup and listing give the same kind |
| Level.FilesAgree | src/meta/meta_local_mem.cpp:198-259 | with files unmarked, the children that are not directories agree after a refresh, and files are unmarked again |
| Level.SubdirectoryCoherent | src/meta/meta_local_mem.cpp:224-259 | a directory below the refreshed one, at any depth, is left exactly when each step towards it was listed or marked, and then agrees with the bucket exactly when its marked children are what the bucket lists |
| Level.UnmarkedHidden | src/meta/meta_local_mem.cpp:224-259 | a directory that is left, at any depth, without marked children loses all of them, counts as complete and fresh, and hides what the bucket has in it |
| Conservation.KeysCoincide | src/meta/meta_impl.cpp:16-35 | the key that is put, probed and deleted for a name is one key |
| Conservation.KeysDistinct | src/meta/meta_impl.cpp:125-132 | different directories, names or kinds never share a key |
| Conservation.OneKeyAtMost | src/meta/meta_impl.cpp:119-169 | an operation changes one key at most, the file key or the directory key of its name |
| Conservation.CreateThenRemove | src/meta/meta_impl.cpp:119-169 | creating an absent name and removing it restores bucket and dentries |
| History.EventKeeps | src/meta/meta_impl.cpp:37-241 | each event, changes of the bucket by others included, keeps the tree, the unmarked files, and each dentry's name, parent and kind |
| History.EveryHistory | src/meta/meta_impl.cpp:37-241 | at all times of every history the dentries form a tree and no file is marked; between any two times names, parents and kinds are kept and ids are not used again |
| History.PathAndKindForLife | src/types/dentry.h:44-56 | over every history a dentry keeps its path and its kind |
| History.RefreshedFilesAgree | src/meta/meta_impl.cpp:210-236 | in every history a refresh makes the children that are files agree with the bucket |
| History.ColdStart | src/meta/meta_local_mem.cpp:17-34 | a mount starts in a sound state |
| History.ReleaseCoherent | src/fs/fwriter/fwriter_seq.cpp:136-181 | storing an object keeps a directory equal to the listing exactly when the key was there, or is below children that the bucket lists anyway |
| History.RefreshAbove | src/meta/meta_local_mem.cpp:224-259 | a refresh of a directory above keeps a directory equal to the listing exactly when each step towards it was listed or marked and all its children are marked |
| History.EventCoherent | src/meta/meta_impl.cpp:37-241 | each event keeps a directory equal to the listing exactly when it is harmless, which is a condition on the state before it |
| History.HistoryCoherent | src/meta/meta_impl.cpp:37-241 | so a directory stays equal to the listing over a history exactly as long as its events are harmless |
| Witnesses.RemovedDirectoryStays | src/meta/meta_local_mem.cpp:232 | a refresh, and a second one when the time is up: a directory that others removed in between is still cached |
| Witnesses.RefreshHidesFile | src/meta/meta_local_mem.cpp:238-256 | three refreshes, the last when the time is up, hide a file that is in the bucket all along, in a directory that is then complete and live |
| Witnesses.SizeLost | src/meta/meta_impl.cpp:191-207 | for every page size a bucket from which the first refresh gives a file the size 0 |
| Witnesses.RemovalUncovers | src/meta/meta_impl.cpp:151-169 | a refresh and a removal after which cache and bucket differ |
| Witnesses.RemovedFileStays | src/meta/meta_impl.cpp:74-104 | a file that others removed is found after its time is up |
| Witnesses.DirectoryLost | src/meta/meta_impl.cpp:84-93 | two lookups after which a directory is a file |
| Witnesses.UnlinkedFileReturns | src/fs/fs_file.cpp:62-73 | a file that is created, written, removed and then released is back in the bucket and not in the cache |
| Witnesses.FullDirectoryRemoved | src/meta/meta_impl.cpp:151-169 | a lookup and a removal that removes a directory with a file in it |
| Witnesses.TypeLost | src/meta/meta_impl.cpp:84-93 | two lookups after which a regular file has no type |
| Witnesses.EmptyListedAgain | src/meta/meta_local_mem.cpp:235-237 | an empty directory that is refreshed twice at the same time and never becomes live |
| Witnesses.LookupCutsFile | src/meta/meta_impl.cpp:65-104 | a file that is created, written, looked up when its time is up, and released has the size 0 in the cache until its time is up again, and whoever opens it reads nothing |
| Witnesses.ShorterWriteCutsFile | src/fs/fs_file.cpp:43-60 | of two writers the one with the longer stream releases last: the object is that stream, and a handle reads only the other one's length of it |
| OpenDirs.CatDirs.OpenDir | src/fs/fs_dir.cpp:7-19 | a new handle without entries, or none for an unknown inode |
| OpenDirs.CatDirs.ReadDir | src/fs/fs_dir.cpp:21-41 | the first read takes the listing, from the live or the refreshed cache, at the cost of that; later ones slice it and touch neither cache nor store |
| OpenDirs.CatDirs.ReleaseDir | src/fs/fs_dir.cpp:43-47 | the handle is gone and the others stay |
| OpenDirs.CatDirs.ReadDirPlus | src/fs/fsa.cpp:346-371 | the reply holds the longest run of entries from the offset that fits the buffer, each with its next offset |
| OpenDirs.CatDirs.FilledSlice | src/fs/fsa.cpp:349 | asking for as many entries as the buffer has bytes loses none |
| DirPaging.DeliversOnce | src/fs/fsa.cpp:355-369 | entries, offset and buffer size determine the reply |
| DirPaging.EmptyReply | src/fs/fsa.cpp:355-369 | a reply is empty exactly at the end, or when the next entry does not fit |
| DirPaging.DeliveredInOrder | src/fs/fsa.cpp:346-371 | a run of replies delivers the entries between its first and last offset, once and in order |
| DirPaging.RunDeliversAll | src/fs/fsa.cpp:346-371 | with buffers that hold the next entry, the run delivers everything and ends |
| DirPaging.StuckRun | src/fs/fsa.cpp:363-365 | with smaller buffers it stops for good |
| DirPaging.StuckExample | src/fs/fsa.cpp:363-365 | for any entries, any offset and any buffer size that the next entry exceeds there is a run of any number of calls that delivers nothing |
| DirPaging.UniformRun | src/fs/fsa.cpp:346-371 | with buffers of one size, enough calls deliver the directory exactly when every entry fits such a buffer |
| Interleaving.StepIds | src/meta/meta_local_mem.cpp:191-196 | every section keeps all ids distinct, those in hand included |
| Interleaving.StepSlots | src/meta/meta_local_mem.cpp:36-41 | every section keeps slots on their own dentry, and the shape of the tree |
| Interleaving.SlotKept | src/meta/meta_local_mem.cpp:79-95 | no section changes a slot that is not NULL |
| Interleaving.StepOwners | src/meta/meta_local_mem.cpp:91-95 | every section keeps each dentry in the index or in the hands of exactly one thread |
| Interleaving.RunInv | src/meta/meta_local_mem.cpp:36-196 | distinct ids, exact slots, single owners and the shape of the tree over every interleaving |
| Interleaving.SlotsForLife | src/meta/meta_local_mem.cpp:36-95 | over every interleaving a slot that is not NULL stays what it is |
| Interleaving.AttachedIsIndexed | src/meta/meta_local_mem.cpp:91-95 | an attached dentry misses from the index exactly while one thread is about to save it |
| Interleaving.QuietTreeIsIndexed | src/meta/meta_local_mem.cpp:36-95 | when no thread is in between, the whole tree is in the index under distinct ids |
| Interleaving.AddKeepsAttached | src/types/dentry.h:72-80 | adding a child keeps every dentry attached exactly when its name is free or its directory is detached |
| Interleaving.AddAttaches | src/types/dentry.h:72-80 | adding a child attaches the new dentry if its directory is attached, and takes off exactly what had the name, with all below it |
| Interleaving.RemoveDetaches | src/types/dentry.h:82-91 | removing a child takes off exactly the child and what is below it |
| Interleaving.ChildFound | src/types/dentry.h:63-70 | get_child finds the child of the name, and nothing exactly if there is none |
| Interleaving.DentryFound | src/meta/meta_local_mem.cpp:79 | get_dentry finds the dentry that the index has under the id, and nothing exactly if there is none |
| Interleaving.AllocatedId | src/meta/meta_local_mem.cpp:191-196 | an id that is handed out is in no dentry and in nobody's hands |
| Interleaving.AddedDentry | src/types/dentry.h:72-80 | an added dentry has the id its thread had taken and is the directory's child of that name |
| Interleaving.SavedIsFound | src/meta/meta_local_mem.cpp:36-79 | a dentry that was saved is what every later lookup of its id finds, whatever happens in between |
| Interleaving.SectionsKeep | src/meta/meta_local_mem.cpp:36-196 | no section changes id, name or parent of a dentry, or another thread; all but adding and removing leave the dentries as they are |
| Interleaving.RaceReplacesChild | src/meta/meta_impl.cpp:37-64 | two threads that miss the same name add it twice and lose the first dentry to the tree |

## Left out

- Level.FilesAgree: claims nothing for cached directories, whose marks stay; Level.RefreshCoherent has the exact condition.
- LocalMeta.LocalMemMeta.UpdateInode: excludes a mode that makes a file of the root or of a directory with children, because the dentries would not form a tree any more; the one caller that passes a mode is `MetaService.MetaImpl.Revalidate`, and Coherence.ExpiredDirectory says when it changes the kind.
- Writer.SequenceWriter.SwitchMputMode: excludes an upload that answers with a part size of 0; the copy loop then uploads empty parts for ever.
- Writer.SequenceWriter.RehomeBuffer: excludes a part size of 0, for which the loop that it models does not end.
- OpenDirs.CatDirs.ReadDir: does not model the wrap of off + size in 64 bits, because offsets are at most the number of entries.
- Writers and directory entries that a program still uses after freeing them: removal detaches a dentry and its memory stays. Lookups, listings and openings by the id of a removed dentry are outside the domain (`LocalMeta.LocalMemMeta.Usable`).
- The state after a copy past a buffer's end: such a write yields `Overrun` and nothing is said of what follows.
- The inode is part of its dentry; that a directory entry keeps pointing to it, so that later changes show through an old listing, is not modelled. The entry ".." carries the directory's own inode, as in the code.
- uid, gid, ctime and mtime, and the metadata that create_dentry sends along.
- Memory management, real time (each operation reads the clock once and gets it as an argument) and store failures.
- The NULL that a lookup of an unknown file or directory handle leaves in the handle table.
- What becomes of the exception of a refused write further up: it is a string, which the handlers for `std::exception` in the FUSE adapter do not catch.
- The S3 adapter, which ignores the delimiter and completes uploads without a part list: the model follows the interface.
- `LocalMemMeta::rename`, which nothing calls, and `remove_inode`.
- The FUSE adapter except write_buf and readdirplus; `readdir` skips the dot entries without advancing the offset, so its pages do not add up.
- The layout of a directory entry in the reply buffer: its size is a parameter, at least one byte.
- Within one locked section of `Interleaving` the code is atomic; that get_dentry inserts a slot under a shared lock is not treated as a data race. The shard of an id is a function of the id, so that module has one map for all shards.
- Options, logging, the main program and the build.

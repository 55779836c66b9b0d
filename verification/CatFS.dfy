// The file system over metadata and store: handles for open files.
module FileSystem {
  import opened Basics
  import opened DentryTree
  import opened DentryNode
  import opened MetaService
  import opened SequentialStream
  import opened Writer
  import opened Handles
  import Paths
  import Stor

  // No such handle, or what the write came to.
  datatype FileResult = BadHandle | Done(w: WriteResult)

  function Resized(c: Cache, ino: InodeID, size: nat): Cache {
    if ino in c.nodes then SetNode(c, ino, c.nodes[ino].(size := size)) else c
  }

  // An open file and the cache, before or after an operation.
  datatype FileState = FileState(file: FileView, cache: Cache)

  // A write of data: the stream grew by it, handle and inode have its length as
  // the size, the store saw only this writer's calls, and nothing else of the
  // cache is new.
  ghost predicate Appended(a: FileState, b: FileState, ino: InodeID, data: Bytes) {
    && b.file.hasWrote && b.file.stream == a.file.stream + data && b.file.size == |b.file.stream|
    && StoreDelta(a.file.store, b.file.store)
    && b.cache == Resized(a.cache, ino, b.file.size)
  }

  // A release: of a stream of no bytes nothing comes; any other becomes the
  // object at path, by calls that depend on nothing but the stream.
  ghost predicate Stored(a: FileView, b: FileView, path: Key, p: nat)
    requires p > 0
  {
    && b.stream == a.stream && b.size == a.size && b.hasWrote == a.hasWrote && b.store.uploadId == a.store.uploadId
    && b.store.objects == (if a.stream == [] then a.store.objects else a.store.objects[path := a.stream])
    && b.store.calls == CallsInAll(a.stream, p, path, a.store.uploadId)
    && a.store.calls <= b.store.calls && b.store.log == a.store.log + b.store.calls[|a.store.calls|..]
    && b.store.uploads == (if a.store.uptype.PUT? then a.store.uploads else a.store.uploads - {a.store.uploadId})
  }

  class CatFS {
    const meta: MetaImpl
    const stor: Stor.Stor
    var nextHandleId: nat
    var openFiles: map<nat, OpenFile>

    ghost function MetaRepr(): set<object>
      reads meta, meta.local
    {
      {this, meta, meta.local} + meta.local.all.Values
    }

    ghost predicate Valid()
      reads this, stor, meta, meta.local, meta.local.all.Values
    {
      && meta.stor == stor && meta.Valid()
      && forall h :: h in openFiles ==> h < nextHandleId
    }

    // The handle's file is in order, and its buffers are its own. Its dentry may
    // have been removed since it was opened.
    ghost predicate FileOk(f: OpenFile)
      reads this, meta, meta.local, stor, f, f.writer, f.writer.Repr
    {
      && f.stor == stor && f.Valid()
      && MetaRepr() !! f.Repr() && stor !in f.Repr()
    }

    ghost predicate IsAttached(f: OpenFile)
      reads meta, meta.local, f
    {
      f.ino in meta.local.cache.nodes
    }

    constructor (meta: MetaImpl)
      requires meta.Valid()
      ensures Valid() && this.meta == meta && this.stor == meta.stor && openFiles == map[]
    {
      this.meta, this.stor := meta, meta.stor;
      nextHandleId, openFiles := 0, map[];
    }

    // A new handle for an attached dentry, with the path and the size that the
    // cache has for it.
    method OpenFile(ino: InodeID) returns (hno: Option<nat>)
      requires Valid() && meta.local.Usable(ino)
      modifies this, meta.local`dentryIndex
      ensures Valid() && meta.local.cache == old(meta.local.cache) && meta.local.all == old(meta.local.all)
      ensures hno.None? <==> ino !in meta.local.cache.nodes
      ensures hno.None? ==> openFiles == old(openFiles)
      ensures hno.Some? ==>
                && hno.value !in old(openFiles) && hno.value in openFiles
                && openFiles == old(openFiles)[hno.value := openFiles[hno.value]]
                && FileOk(openFiles[hno.value]) && fresh(openFiles[hno.value].Repr())
                && NewFile(openFiles[hno.value], ino)
    {
      var dentry := meta.local.GetDentry(ino);
      if dentry == null {
        return None;
      }
      assert ShownAt(meta.local.all, meta.local.cache, ino);
      var path := dentry.GetFullPath(meta.local.cache, meta.local.all);
      var h := AddHandle(ino, path, dentry.size);
      return Some(h);
    }

    method AddHandle(ino: InodeID, path: Key, size: nat) returns (h: nat)
      requires Valid() && ino in meta.local.cache.nodes
      modifies this
      ensures Valid() && h !in old(openFiles) && h in openFiles
      ensures openFiles == old(openFiles)[h := openFiles[h]]
      ensures FileOk(openFiles[h]) && fresh(openFiles[h].Repr())
      ensures var f := openFiles[h];
              && f.ino == ino && f.path == path && f.size == size && !f.released && !f.hasWrote
              && f.writer.Stream == [] && f.writer.Calls == []
    {
      h := nextHandleId;
      nextHandleId := nextHandleId + 1;
      var f := new OpenFile(ino, h, path, size, stor);
      openFiles := openFiles[h := f];
    }

    ghost predicate NewFile(f: OpenFile, ino: InodeID)
      requires ino in meta.local.cache.nodes
      reads meta.local, f, f.writer
    {
      && f.ino == ino && f.path == Paths.FullPath(meta.local.cache, ino)
      && f.size == meta.local.cache.nodes[ino].size && !f.released && !f.hasWrote
      && f.writer.Stream == [] && f.writer.Calls == []
    }

    method ReadFile(hno: nat, off: nat, size: nat) returns (valid: bool, data: Bytes)
      requires Valid() && off < U64 && size < U64
      requires hno in openFiles ==> FileOk(openFiles[hno])
      modifies stor`log
      ensures Valid() && (valid <==> hno in openFiles)
      ensures valid ==> FileOk(openFiles[hno])
      ensures valid ==> data == ReadOf(stor.objects, openFiles[hno].path, openFiles[hno].size, off, size)
    {
      if hno !in openFiles {
        return false, [];
      }
      valid := true;
      data := openFiles[hno].Read(off, size);
    }

    ghost function State(f: OpenFile): FileState
      reads meta, meta.local, f, f.writer, f.writer.stor
    {
      FileState(f.View(), meta.local.cache)
    }

    // The writer's share of a write.
    method Append(f: OpenFile, off: nat, data: Bytes) returns (w: WriteResult)
      requires Valid() && FileOk(f) && !f.released && |data| < INT_LIMIT
      modifies f.Repr(), stor
      ensures WriteOutcome(w, off, data, |old(f.writer.Stream)|, stor.partSize)
      ensures w.Refused? ==> f.View() == old(f.View())
      ensures w.Wrote? ==>
                && f.hasWrote && f.writer.Stream == old(f.writer.Stream) + data && f.size == |f.writer.Stream|
                && StoreDelta(old(f.writer.Footprint()), f.writer.Footprint())
      ensures !w.Overrun? ==> Valid() && FileOk(f) && fresh(f.Repr() - old(f.Repr())) && !f.released
    {
      w := f.Write(off, data);
    }

    method RecordSize(f: OpenFile)
      requires Valid() && FileOk(f)
      modifies meta.local`dentryIndex, meta.local`cache, meta.local.all.Values
      ensures Valid() && FileOk(f)
      ensures meta.local.cache == Resized(old(meta.local.cache), f.ino, f.size)
    {
      var found := meta.UpdateInodeSize(f.ino, f.size);
    }

    // Writes at the end of the handle's stream; handle, inode and stream then
    // agree about the size, and nothing else of the cache is new.
    method WriteFile(hno: nat, off: nat, data: Bytes) returns (r: FileResult)
      requires Valid() && |data| < INT_LIMIT
      requires hno in openFiles ==> FileOk(openFiles[hno]) && !openFiles[hno].released
      modifies if hno in openFiles then openFiles[hno].Repr() else {}, stor
      modifies meta.local`dentryIndex, meta.local`cache, meta.local.all.Values
      ensures r.BadHandle? <==> hno !in openFiles
      ensures r.BadHandle? ==> Valid() && unchanged(stor, meta.local) && unchanged(meta.local.all.Values)
      ensures r.Done? ==> WriteOutcome(r.w, off, data, |old(openFiles[hno].writer.Stream)|, stor.partSize)
      ensures r == Done(Refused) ==> State(openFiles[hno]) == old(State(openFiles[hno]))
      ensures r == Done(Wrote(|data|)) ==>
                Appended(old(State(openFiles[hno])), State(openFiles[hno]), openFiles[hno].ino, data)
      ensures r.Done? && !r.w.Overrun? ==>
                && Valid() && FileOk(openFiles[hno]) && !openFiles[hno].released
                && fresh(openFiles[hno].Repr() - old(openFiles[hno].Repr()))
    {
      if hno !in openFiles {
        return BadHandle;
      }
      var f := openFiles[hno];
      var w := Append(f, off, data);
      if w.Wrote? && f.hasWrote {
        RecordSize(f);
      }
      return Done(w);
    }

    // Ends the handle's stream: a stream of no bytes touches nothing; any other
    // becomes the object at the path the file was opened under.
    method ReleaseFile(hno: nat) returns (found: bool)
      requires Valid()
      requires hno in openFiles ==> FileOk(openFiles[hno]) && !openFiles[hno].released
      modifies if hno in openFiles then openFiles[hno].Repr() else {}, stor
      ensures Valid() && (found <==> hno in openFiles)
      ensures !found ==> unchanged(stor)
      ensures found ==> FileOk(openFiles[hno]) && openFiles[hno].released
      ensures found ==> Stored(old(openFiles[hno].View()), openFiles[hno].View(), openFiles[hno].path, stor.partSize)
    {
      if hno !in openFiles {
        return false;
      }
      openFiles[hno].Release();
      return true;
    }
  }
}

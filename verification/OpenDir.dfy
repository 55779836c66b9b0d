// Open directories: each handle keeps the listing that its first read took.
module OpenDirs {
  import opened Basics
  import opened DentryTree
  import opened DentryNode
  import opened Lookup
  import opened MetaService
  import opened DirPaging

  class OpenDir {
    const ino: InodeID
    const hno: nat
    var dentries: seq<Dirent>

    constructor (ino: InodeID, hno: nat)
      ensures this.ino == ino && this.hno == hno && dentries == []
    {
      this.ino, this.hno, dentries := ino, hno, [];
    }
  }

  // An entry in a reply, with the offset to read on from.
  datatype Slot = Slot(dirent: Dirent, next: nat)

  // No such handle, its directory is gone, an offset past the entries, or the entries.
  datatype DirReply<T> = BadHandle | BadInode | PastEnd | Entries(entries: seq<T>)

  // The entries are the listing of directory d, from the cache as it was if
  // that was live, else from a refreshed one.
  ghost predicate TakenBy(entries: seq<Dirent>, d: InodeID, was: Cache, s: Cache, b: Bucket, now: Time, timeout: Time,
                          m: Cache) {
    && LoadedFrom(was, s, d, b, now, timeout, m)
    && d in s.nodes && ListsChildren(entries, s.nodes[d].children, d)
  }

  // The directory half of the file system.
  class CatDirs {
    const meta: MetaImpl
    const entrySize: EntrySize
    var nextHandleId: nat
    var openDirs: map<nat, OpenDir>

    ghost predicate Valid()
      reads this, meta, meta.local, meta.local.all.Values, meta.stor
    {
      && meta.Valid() && Positive(entrySize)
      && forall h :: h in openDirs ==> h < nextHandleId
    }

    // The handle's directory is attached, or was never there.
    ghost predicate Readable(hno: nat)
      reads this, meta, meta.local
    {
      hno in openDirs ==>
        var ino := openDirs[hno].ino;
        && meta.local.Usable(ino)
        && (ino in meta.local.cache.nodes ==> IsDirMode(meta.local.cache.nodes[ino].mode))
    }

    constructor (meta: MetaImpl, entrySize: EntrySize)
      requires meta.Valid() && Positive(entrySize)
      ensures Valid() && this.meta == meta && this.entrySize == entrySize && openDirs == map[]
    {
      this.meta, this.entrySize := meta, entrySize;
      nextHandleId, openDirs := 0, map[];
    }

    method OpenDir(ino: InodeID) returns (hno: Option<nat>)
      requires Valid()
      modifies this, meta.local`dentryIndex
      ensures Valid() && (hno.None? <==> ino !in meta.local.all)
      ensures hno.None? ==> openDirs == old(openDirs)
      ensures hno.Some? ==>
                && hno.value !in old(openDirs) && hno.value in openDirs
                && openDirs == old(openDirs)[hno.value := openDirs[hno.value]]
                && fresh(openDirs[hno.value]) && openDirs[hno.value].ino == ino && openDirs[hno.value].dentries == []
    {
      var dentry := meta.local.GetDentry(ino);
      if dentry == null {
        return None;
      }
      var h := nextHandleId;
      nextHandleId := nextHandleId + 1;
      var d := new OpenDir(ino, h);
      openDirs := openDirs[h := d];
      return Some(h);
    }

    // The first read of a handle takes the listing; from then on the handle
    // keeps it, whatever becomes of the directory.
    method ReadDir(hno: nat, off: nat, size: nat, now: Time) returns (r: DirReply<Dirent>, ghost m: Cache)
      requires Valid() && Readable(hno)
      modifies if hno in openDirs then {openDirs[hno]} else {}
      modifies meta.local, meta.local.all.Values, meta.stor`log
      ensures Valid() && (r.BadHandle? <==> hno !in openDirs)
      ensures hno in openDirs && old(openDirs[hno].dentries) != [] ==>
                && !r.BadInode? && openDirs[hno].dentries == old(openDirs[hno].dentries)
                && unchanged(meta.local) && meta.stor.log == old(meta.stor.log)
      ensures hno in openDirs && old(openDirs[hno].dentries) == [] && !r.BadInode? ==>
                && TakenBy(openDirs[hno].dentries, openDirs[hno].ino, old(meta.local.cache), meta.local.cache,
                        meta.TheBucket(), now, meta.local.timeout, m)
                && meta.stor.log == old(meta.stor.log)
                                    + LoadCalls(old(meta.local.cache), meta.TheBucket(), openDirs[hno].ino, now)
      ensures r.PastEnd? <==> hno in openDirs && !r.BadInode? && off > |openDirs[hno].dentries|
      ensures r.Entries? ==>
                openDirs[hno].dentries != [] && r == PageOf(openDirs[hno].dentries, off, size)
    {
      m := meta.local.cache;
      if hno !in openDirs {
        return BadHandle, m;
      }
      var dir := openDirs[hno];
      if dir.dentries == [] {
        var valid;
        valid, m := TakeListing(dir, now);
        if !valid {
          return BadInode, m;
        }
      }
      r := PageOf(dir.dentries, off, size);
    }

    // At most size entries from off on.
    function PageOf(ds: seq<Dirent>, off: nat, size: nat): (r: DirReply<Dirent>)
      ensures r.PastEnd? || r.Entries?
      ensures r.PastEnd? <==> off > |ds|
      ensures r.Entries? ==> off <= |ds| && r.entries == ds[off..Min(off + size, |ds|)]
    {
      if off > |ds| then PastEnd
      else if off + size >= |ds| then Entries(ds[off..])
      else Entries(ds[off..off + size])
    }

    method TakeListing(dir: OpenDir, now: Time) returns (valid: bool, ghost m: Cache)
      requires Valid() && meta.local.Usable(dir.ino)
      requires dir.ino in meta.local.cache.nodes ==> IsDirMode(meta.local.cache.nodes[dir.ino].mode)
      modifies dir, meta.local, meta.local.all.Values, meta.stor`log
      ensures Valid() && (!valid ==> dir.dentries == [])
      ensures valid ==> TakenBy(dir.dentries, dir.ino, old(meta.local.cache), meta.local.cache, meta.TheBucket(),
                                now, meta.local.timeout, m)
      ensures valid ==> meta.stor.log == old(meta.stor.log)
                                         + LoadCalls(old(meta.local.cache), meta.TheBucket(), dir.ino, now)
    {
      var dirents;
      valid, dirents, m := meta.LoadSubDentries(dir.ino, now);
      dir.dentries := dirents;
    }

    // Forgets the handle; a number that is no handle is ignored.
    method ReleaseDir(hno: nat)
      requires Valid()
      modifies this`openDirs
      ensures Valid() && openDirs == old(openDirs) - {hno}
    {
      openDirs := openDirs - {hno};
    }

    // Fills a buffer of size bytes with as many entries from off on as fit, each
    // with the offset that comes after it.
    method ReadDirPlus(hno: nat, off: nat, size: nat, now: Time) returns (r: DirReply<Slot>, ghost m: Cache)
      requires Valid() && Readable(hno)
      modifies if hno in openDirs then {openDirs[hno]} else {}
      modifies meta.local, meta.local.all.Values, meta.stor`log
      ensures Valid() && (r.BadHandle? <==> hno !in openDirs)
      ensures hno in openDirs && old(openDirs[hno].dentries) != [] ==>
                openDirs[hno].dentries == old(openDirs[hno].dentries) && unchanged(meta.local) && !r.BadInode?
      ensures hno in openDirs && old(openDirs[hno].dentries) == [] && !r.BadInode? ==>
                TakenBy(openDirs[hno].dentries, openDirs[hno].ino, old(meta.local.cache), meta.local.cache,
                        meta.TheBucket(), now, meta.local.timeout, m)
      ensures r.PastEnd? <==> hno in openDirs && !r.BadInode? && off > |openDirs[hno].dentries|
      ensures r.Entries? ==>
                var ds := openDirs[hno].dentries;
                && Delivers(ds, off, size, |r.entries|, entrySize)
                && forall i :: 0 <= i < |r.entries| ==> r.entries[i] == Slot(ds[off + i], off + i + 1)
    {
      var dirents;
      dirents, m := ReadDir(hno, off, size, now);
      match dirents {
        case BadHandle => return BadHandle, m;
        case BadInode => return BadInode, m;
        case PastEnd => return PastEnd, m;
        case Entries(ds) =>
          var slots := Fill(ds, off, size);
          FilledSlice(openDirs[hno].dentries, off, size, |slots|);
          return Entries(slots), m;
      }
    }

    // The loop over the entries of a page.
    method Fill(ds: seq<Dirent>, off: nat, size: nat) returns (slots: seq<Slot>)
      ensures Delivers(ds, 0, size, |slots|, entrySize)
      ensures forall i :: 0 <= i < |slots| ==> slots[i] == Slot(ds[i], off + i + 1)
    {
      slots := [];
      var rem, idx := size, 0;
      for i := 0 to |ds|
        invariant |slots| == idx == i && rem >= 0
        invariant Total(ds[..i], entrySize) == size - rem
        invariant forall j :: 0 <= j < i ==> slots[j] == Slot(ds[j], off + j + 1)
      {
        var entsize := entrySize(ds[i].name);
        var next := off + idx + 1;
        idx := idx + 1;
        TotalOneMore(ds, 0, i, entrySize);
        if entsize > rem {
          return;
        }
        slots := slots + [Slot(ds[i], next)];
        rem := rem - entsize;
      }
      assert ds[..|ds|] == ds;
    }

    // Taking at most size entries first loses none that would fit.
    lemma FilledSlice(ds: seq<Dirent>, off: nat, size: nat, k: nat)
      requires Positive(entrySize) && off <= |ds|
      requires Delivers(ds[off..Min(off + size, |ds|)], 0, size, k, entrySize)
      ensures Delivers(ds, off, size, k, entrySize)
    {
      var page := ds[off..Min(off + size, |ds|)];
      assert page[0..k] == ds[off..off + k];
      if k < |page| {
        assert page[0..k + 1] == ds[off..off + k + 1];
      } else if off + k < |ds| {
        TotalCounts(ds[off..off + k + 1], entrySize);
      }
    }
  }
}

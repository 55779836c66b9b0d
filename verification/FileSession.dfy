// Whole sessions on a file: vectored writes, release, and reading back.
module FileSession {
  import opened Basics
  import opened DentryTree
  import opened SequentialStream
  import opened Writer
  import opened Handles
  import opened FileSystem
  import FileSizes
  import Lookup
  import Paths

  // The reply to a vectored write; Undefined when a copy goes past a buffer.
  datatype Reply = Written(n: nat) | Thrown | Undefined

  function Sizes(bufs: seq<Bytes>): (r: seq<nat>)
    ensures |r| == |bufs|
  {
    if bufs == [] then [] else [|bufs[0]|] + Sizes(bufs[1..])
  }

  // What is written before each buffer of a vector ...
  ghost predicate Cuts(bufs: seq<Bytes>, accs: seq<Bytes>) {
    && |accs| == |bufs| + 1 && accs[0] == []
    && forall j {:trigger Cut(bufs, accs, j)} :: 0 <= j < |bufs| ==> Cut(bufs, accs, j)
  }

  ghost predicate Cut(bufs: seq<Bytes>, accs: seq<Bytes>, j: nat)
    requires j < |bufs| && |accs| == |bufs| + 1
  {
    accs[j + 1] == accs[j] + bufs[j]
  }

  lemma {:induction false} Partial(bufs: seq<Bytes>) returns (accs: seq<Bytes>)
    ensures Cuts(bufs, accs) && accs[|bufs|] == Flatten(bufs)
    decreases |bufs|
  {
    if bufs == [] {
      return [[]];
    }
    var n := |bufs| - 1;
    var front := Partial(bufs[..n]);
    FlattenAppend(bufs[..n], bufs[n]);
    assert bufs[..n] + [bufs[n]] == bufs;
    accs := front + [front[n] + bufs[n]];
    forall j | 0 <= j < |bufs| ensures Cut(bufs, accs, j) {
      if j < n { assert Cut(bufs[..n], front, j); }
    }
  }

  // ... decides whether all of them fit.
  lemma {:induction false} RestFits(n: nat, bufs: seq<Bytes>, accs: seq<Bytes>, i: nat, p: nat)
    requires p > 0 && i <= |bufs| && Cuts(bufs, accs) && AllFit(n, Sizes(bufs), p)
    ensures AllFit(n + |accs[i]|, Sizes(bufs[i..]), p)
    ensures i < |bufs| ==> |bufs[i]| <= Room(n + |accs[i]|, p)
  {
    if i == 0 {
      assert bufs[0..] == bufs;
    } else {
      RestFits(n, bufs, accs, i - 1, p);
      assert bufs[i - 1..][1..] == bufs[i..];
      assert Sizes(bufs[i - 1..])[1..] == Sizes(bufs[i..]);
      assert Cut(bufs, accs, i - 1);
      assert n + |accs[i]| == n + |accs[i - 1]| + |bufs[i - 1]|;
    }
  }

  // A buffer finds room after the ones before it.
  ghost predicate Fits(n: nat, bufs: seq<Bytes>, accs: seq<Bytes>, i: nat, p: nat)
    requires p > 0 && i < |bufs| < |accs|
  {
    |bufs[i]| <= Room(n + |accs[i]|, p)
  }

  ghost predicate FitUpTo(n: nat, bufs: seq<Bytes>, accs: seq<Bytes>, i: nat, p: nat)
    requires p > 0 && i <= |bufs| < |accs|
  {
    forall j {:trigger Fits(n, bufs, accs, j, p)} :: 0 <= j < i ==> Fits(n, bufs, accs, j, p)
  }

  lemma {:induction false} EachFits(n: nat, bufs: seq<Bytes>, accs: seq<Bytes>, i: nat, p: nat)
    requires p > 0 && i <= |bufs| && Cuts(bufs, accs)
    requires forall j {:trigger Fits(n, bufs, accs, j, p)} :: i <= j < |bufs| ==> Fits(n, bufs, accs, j, p)
    ensures AllFit(n + |accs[i]|, Sizes(bufs[i..]), p)
    decreases |bufs| - i
  {
    if i < |bufs| {
      EachFits(n, bufs, accs, i + 1, p);
      assert bufs[i..][1..] == bufs[i + 1..];
      assert Sizes(bufs[i..])[1..] == Sizes(bufs[i + 1..]);
      assert Cut(bufs, accs, i) && Fits(n, bufs, accs, i, p);
      assert n + |accs[i + 1]| == n + |accs[i]| + |bufs[i]|;
    }
  }

  // All buffers of a vector fit exactly when each one does.
  lemma AllFitIff(n: nat, bufs: seq<Bytes>, accs: seq<Bytes>, p: nat)
    requires p > 0 && Cuts(bufs, accs)
    ensures AllFit(n, Sizes(bufs), p) <==> FitUpTo(n, bufs, accs, |bufs|, p)
  {
    assert bufs[0..] == bufs;
    if AllFit(n, Sizes(bufs), p) {
      forall j | 0 <= j < |bufs| ensures Fits(n, bufs, accs, j, p) {
        RestFits(n, bufs, accs, j, p);
      }
    }
    if FitUpTo(n, bufs, accs, |bufs|, p) {
      EachFits(n, bufs, accs, 0, p);
    }
  }

  // f is open under this handle, and good for a write.
  ghost predicate Writable(fs: CatFS, hno: nat, f: OpenFile)
    reads fs, fs.meta, fs.meta.local, fs.stor, f, f.writer, f.writer.Repr
  {
    hno in fs.openFiles && fs.openFiles[hno] == f && fs.FileOk(f) && fs.IsAttached(f) && !f.released
  }

  // Nothing is written yet, or acc is; and nothing else changed.
  ghost predicate Reached(a: FileState, b: FileState, ino: InodeID, some: bool, acc: Bytes) {
    if some then Appended(a, b, ino, acc) else b == a && acc == []
  }

  lemma ReachedNext(a: FileState, b: FileState, c: FileState, ino: InodeID, some: bool, acc: Bytes, d: Bytes)
    requires Reached(a, b, ino, some, acc) && Appended(b, c, ino, d)
    requires forall i :: i in a.file.store.uploads ==> i < a.file.store.nextUpload
    ensures Appended(a, c, ino, acc + d)
  {
    if some {
      StoreDeltaTransitive(a.file.store, b.file.store, c.file.store);
      assert c.file.stream == a.file.stream + (acc + d);
      if ino in a.cache.nodes {
        SetTwice(a.cache, ino, b.cache.nodes[ino], c.cache.nodes[ino]);
      }
    } else {
      assert acc + d == d;
    }
  }

  ghost predicate OldUploads(start: FileState) {
    forall i :: i in start.file.store.uploads ==> i < start.file.store.nextUpload
  }

  // One buffer of the vector.
  method WriteStep(fs: CatFS, hno: nat, f: OpenFile, off: nat, b: Bytes, ghost start: FileState, ghost some: bool,
                   ghost acc: Bytes, ghost n: nat)
    returns (w: WriteResult)
    requires fs.Valid() && Writable(fs, hno, f) && |b| < INT_LIMIT
    requires Reached(start, fs.State(f), f.ino, some, acc) && n == |f.writer.Stream|
    requires OldUploads(start)
    modifies f.Repr(), fs.stor
    modifies fs.meta.local`dentryIndex, fs.meta.local`cache, fs.meta.local.all.Values
    ensures WriteOutcome(w, off, b, n, fs.stor.partSize)
    ensures !w.Overrun? ==> fs.Valid() && Writable(fs, hno, f)
    ensures !w.Overrun? ==> fresh(f.Repr() - old(f.Repr()))
    ensures w.Refused? ==> fs.State(f) == old(fs.State(f))
    ensures w.Wrote? ==> Appended(start, fs.State(f), f.ino, acc + b)
  {
    ghost var mid, ino := fs.State(f), f.ino;
    var r := fs.WriteFile(hno, off, b);
    w := r.w;
    if w.Wrote? {
      ReachedNext(start, mid, fs.State(f), ino, some, acc, b);
    }
  }

  lemma OutcomeFits(w: WriteResult, off: nat, m: nat, bufs: seq<Bytes>, accs: seq<Bytes>, i: nat, p: nat, n: nat)
    requires p > 0 && i < |bufs| < |accs| && n == m + |accs[i]| && WriteOutcome(w, off, bufs[i], n, p)
    ensures w.Wrote? ==> Fits(m, bufs, accs, i, p)
    ensures w.Overrun? ==> !Fits(m, bufs, accs, i, p)
  {}

  method WriteIth(fs: CatFS, hno: nat, f: OpenFile, off: nat, bufs: seq<Bytes>, i: nat, ghost start: FileState,
                  ghost accs: seq<Bytes>)
    returns (w: WriteResult, ghost now: FileState)
    requires fs.Valid() && Writable(fs, hno, f) && i < |bufs| && |bufs[i]| < INT_LIMIT
    requires Cuts(bufs, accs)
    requires Reached(start, fs.State(f), f.ino, i > 0, accs[i])
    requires OldUploads(start)
    modifies f.Repr(), fs.stor
    modifies fs.meta.local`dentryIndex, fs.meta.local`cache, fs.meta.local.all.Values
    ensures w.Refused? <==> off != |start.file.stream| + |accs[i]|
    ensures !w.Overrun? ==> fs.Valid() && Writable(fs, hno, f)
    ensures !w.Overrun? ==> fresh(f.Repr() - old(f.Repr()))
    ensures w.Refused? ==> fs.State(f) == old(fs.State(f))
    ensures w.Overrun? ==> !Fits(|start.file.stream|, bufs, accs, i, fs.stor.partSize)
    ensures w.Wrote? ==> |accs[i + 1]| == |accs[i]| + w.n
    ensures w.Wrote? ==> Fits(|start.file.stream|, bufs, accs, i, fs.stor.partSize)
    ensures !w.Overrun? ==> now == fs.State(f)
    ensures w.Wrote? ==> Reached(start, now, f.ino, true, accs[i + 1])
  {
    ghost var n := |start.file.stream| + |accs[i]|;
    assert n == |fs.State(f).file.stream|;
    assert Cut(bufs, accs, i);
    w := WriteStep(fs, hno, f, off, bufs[i], start, i > 0, accs[i], n);
    OutcomeFits(w, off, |start.file.stream|, bufs, accs, i, fs.stor.partSize, n);
    now := fs.State(f);
  }

  // Writes the buffers of a vector one after the other. A vector is refused,
  // without effect, only as a whole.
  method WriteBuf(fs: CatFS, hno: nat, f: OpenFile, off: nat, bufs: seq<Bytes>) returns (r: Reply)
    requires fs.Valid() && Writable(fs, hno, f)
    requires forall b :: b in bufs ==> |b| < INT_LIMIT
    modifies f.Repr(), fs.stor
    modifies fs.meta.local`dentryIndex, fs.meta.local`cache, fs.meta.local.all.Values
    ensures r.Thrown? <==> bufs != [] && off != |old(f.writer.Stream)|
    ensures r.Undefined? <==>
              bufs != [] && off == |old(f.writer.Stream)| && !AllFit(off, Sizes(bufs), fs.stor.partSize)
    ensures !r.Undefined? ==> fs.Valid() && Writable(fs, hno, f) && fresh(f.Repr() - old(f.Repr()))
    ensures r.Thrown? ==> fs.State(f) == old(fs.State(f))
    ensures r.Written? ==> r.n == |Flatten(bufs)|
    ensures r.Written? ==> Reached(old(fs.State(f)), fs.State(f), f.ino, bufs != [], Flatten(bufs))
  {
    ghost var accs := Partial(bufs);
    ghost var start := fs.State(f);
    AllFitIff(|start.file.stream|, bufs, accs, fs.stor.partSize);
    r := WriteEach(fs, hno, f, off, bufs, start, accs);
  }

  method WriteEach(fs: CatFS, hno: nat, f: OpenFile, off: nat, bufs: seq<Bytes>, ghost start: FileState,
                   ghost accs: seq<Bytes>)
    returns (r: Reply)
    requires fs.Valid() && Writable(fs, hno, f)
    requires Cuts(bufs, accs)
    requires Reached(start, fs.State(f), f.ino, false, accs[0])
    requires forall j :: 0 <= j < |bufs| ==> |bufs[j]| < INT_LIMIT
    requires OldUploads(start)
    modifies f.Repr(), fs.stor
    modifies fs.meta.local`dentryIndex, fs.meta.local`cache, fs.meta.local.all.Values
    ensures r.Thrown? ==> bufs != [] && off != |start.file.stream| && fs.State(f) == start
    ensures r.Written? && bufs != [] ==> off == |start.file.stream|
    ensures r.Undefined? ==>
              bufs != [] && off == |start.file.stream|
              && !FitUpTo(|start.file.stream|, bufs, accs, |bufs|, fs.stor.partSize)
    ensures !r.Undefined? ==> fs.Valid() && Writable(fs, hno, f) && fresh(f.Repr() - old(f.Repr()))
    ensures r.Written? ==> r.n == |accs[|bufs|]|
    ensures r.Written? ==> FitUpTo(|start.file.stream|, bufs, accs, |bufs|, fs.stor.partSize)
    ensures r.Written? ==> Reached(start, fs.State(f), f.ino, bufs != [], accs[|bufs|])
  {
    var res: nat, offset: nat, i: nat := 0, off, 0;
    ghost var p, now := fs.stor.partSize, fs.State(f);
    while i < |bufs|
      invariant i <= |bufs| && fs.Valid() && Writable(fs, hno, f)
      invariant now == fs.State(f) && Reached(start, now, f.ino, i > 0, accs[i])
      invariant res == |accs[i]| && offset == off + res && (i > 0 ==> off == |start.file.stream|)
      invariant FitUpTo(|start.file.stream|, bufs, accs, i, p)
      invariant fresh(f.Repr() - old(f.Repr()))
    {
      var w;
      w, now := WriteIth(fs, hno, f, offset, bufs, i, start, accs);
      match w {
        case Refused =>
          return Thrown;
        case Overrun =>
          return Undefined;
        case Wrote(k) =>
          offset, res, i := offset + k, res + k, i + 1;
      }
    }
    return Written(res);
  }

  // What a written and released file looks like.
  ghost predicate Closed(fs: CatFS, hno: nat, f: OpenFile, path: Key, stream: Bytes)
    reads fs, fs.meta, fs.meta.local, fs.stor, f, f.writer, f.writer.Repr
  {
    && hno in fs.openFiles && fs.openFiles[hno] == f && fs.FileOk(f) && fs.IsAttached(f)
    && f.path == path && f.size == |stream| && path in fs.stor.objects && fs.stor.objects[path] == stream
    && fs.meta.local.cache.nodes[f.ino].size == |stream|
  }

  // Writing data to a new file and releasing it, on the store.
  lemma SessionEffect(a: FileState, b: FileState, c: FileView, ino: InodeID, data: Bytes, path: Key, p: nat)
    requires p > 0 && Appended(a, b, ino, data) && Stored(b.file, c, path, p)
    requires a.file.stream == [] && a.file.store.calls == [] && data != []
    ensures b.file.stream == data && b.file.size == |data| && c.size == |data|
    ensures c.store.objects == a.file.store.objects[path := data]
    ensures c.store.log == a.file.store.log + CallsInAll(data, p, path, c.store.uploadId)
  {
    assert [] + data == data;
    var m, n := b.file.store.calls, c.store.calls;
    assert m[0..] == m && n == m + n[|m|..];
    assert c.store.log == a.file.store.log + (m + n[|m|..]);
  }

  // Opens a file, writes a stream that fits, in any cut, and releases it: the
  // object at the file's path is the stream, and no other object is touched.
  method WriteWhole(fs: CatFS, ino: InodeID, bufs: seq<Bytes>) returns (hno: nat, f: OpenFile)
    requires fs.Valid() && fs.meta.local.Usable(ino) && ino in fs.meta.local.cache.nodes
    requires forall b :: b in bufs ==> |b| < INT_LIMIT
    requires AllFit(0, Sizes(bufs), fs.stor.partSize) && Flatten(bufs) != []
    modifies fs, fs.stor, fs.meta.local`dentryIndex, fs.meta.local`cache, fs.meta.local.all.Values
    ensures fs.Valid() && f.ino == ino
    ensures Closed(fs, hno, f, Paths.FullPath(old(fs.meta.local.cache), ino), Flatten(bufs))
    ensures fs.stor.objects == old(fs.stor.objects)[f.path := Flatten(bufs)]
    ensures fs.stor.log == old(fs.stor.log) + CallsInAll(Flatten(bufs), fs.stor.partSize, f.path, f.writer.uploadId)
    ensures fs.meta.local.cache == Resized(old(fs.meta.local.cache), ino, |Flatten(bufs)|)
  {
    var h := fs.OpenFile(ino);
    hno, f := h.value, fs.openFiles[h.value];
    ghost var start := fs.State(f);
    var r := WriteBuf(fs, hno, f, 0, bufs);
    ghost var written := fs.State(f);
    var found := fs.ReleaseFile(hno);
    SessionEffect(start, written, f.View(), ino, Flatten(bufs), f.path, fs.stor.partSize);
  }

  method ReadClosed(fs: CatFS, hno: nat, f: OpenFile, ghost path: Key, ghost stream: Bytes, off: nat, size: nat)
    returns (data: Bytes)
    requires fs.Valid() && Closed(fs, hno, f, path, stream)
    requires off < U64 && size < U64 && |stream| < U64
    modifies fs.stor`log
    ensures fs.Valid() && Closed(fs, hno, f, path, stream)
    ensures data == Slice(stream, off, size)
  {
    var valid;
    valid, data := fs.ReadFile(hno, off, size);
    ClampEnough(stream, off, size, |stream|);
  }

  lemma ResizedPath(c: Cache, ino: InodeID, size: nat)
    requires Tree(c) && ino in c.nodes
    ensures Paths.FullPath(Resized(c, ino, size), ino) == Paths.FullPath(c, ino)
  {
    SetNodeTree(c, ino, c.nodes[ino].(size := size));
    ShapeNames(c, Resized(c, ino, size), ino, ino);
  }

  // Opens a file and reads.
  method OpenAndRead(fs: CatFS, ino: InodeID, off: nat, size: nat) returns (data: Bytes)
    requires fs.Valid() && fs.meta.local.Usable(ino) && ino in fs.meta.local.cache.nodes
    requires off < U64 && size < U64
    modifies fs, fs.stor`log, fs.meta.local`dentryIndex
    ensures fs.Valid() && fs.meta.local.cache == old(fs.meta.local.cache)
    ensures data == FileSizes.OpenedReads(Lookup.State(fs.meta.local.cache, fs.meta.TheBucket()), ino, off, size)
  {
    var h := fs.OpenFile(ino);
    var valid;
    valid, data := fs.ReadFile(h.value, off, size);
  }

  // What was written comes back from any read, on the handle it was written
  // by and on one opened next.
  method WriteThenRead(fs: CatFS, ino: InodeID, bufs: seq<Bytes>, off: nat, size: nat) returns (same: Bytes,
                       later: Bytes)
    requires fs.Valid() && fs.meta.local.Usable(ino) && ino in fs.meta.local.cache.nodes
    requires forall b :: b in bufs ==> |b| < INT_LIMIT
    requires AllFit(0, Sizes(bufs), fs.stor.partSize) && Flatten(bufs) != []
    requires off < U64 && size < U64 && |Flatten(bufs)| < U64
    modifies fs, fs.stor, fs.meta.local`dentryIndex, fs.meta.local`cache, fs.meta.local.all.Values
    ensures fs.Valid() && same == Slice(Flatten(bufs), off, size) && later == same
    ensures fs.stor.objects == old(fs.stor.objects)[Paths.FullPath(old(fs.meta.local.cache), ino) := Flatten(bufs)]
  {
    ghost var path := Paths.FullPath(fs.meta.local.cache, ino);
    ResizedPath(fs.meta.local.cache, ino, |Flatten(bufs)|);
    var hno, f := WriteWhole(fs, ino, bufs);
    same := ReadClosed(fs, hno, f, path, Flatten(bufs), off, size);
    later := OpenAndRead(fs, ino, off, size);
    ClampEnough(Flatten(bufs), off, size, |Flatten(bufs)|);
  }
}

// One open file: a direct reader and a sequential writer over the same object.
module Handles {
  import opened Basics
  import opened SequentialStream
  import opened Writer
  import Stor

  // Offsets and sizes are unsigned 64-bit words.
  const U64: nat := 0x1_0000_0000_0000_0000

  // The bytes from off on, at most size of them.
  function Slice(data: Bytes, off: nat, size: nat): Bytes {
    if off >= |data| then [] else data[off..Min(off + size, |data|)]
  }

  // What a read of (off, size) asks the store for when the file is taken to be
  // fileSize bytes long: nothing, or so many bytes from off on. The end of the
  // range is computed in 64 bits.
  function Clamp(off: nat, size: nat, fileSize: nat): nat {
    if off >= fileSize then 0
    else if (off + size) % U64 > fileSize then fileSize - off
    else size
  }

  // The slice has the bytes of the object at their offsets, as many as asked for
  // unless the object ends before.
  lemma SliceBytes(data: Bytes, off: nat, size: nat)
    ensures |Slice(data, off, size)| == if off >= |data| then 0 else Min(size, |data| - off)
    ensures forall i :: 0 <= i < |Slice(data, off, size)| ==> Slice(data, off, size)[i] == data[off + i]
  {}

  lemma CutSlice(data: Bytes, off: nat, size: nat, n: nat)
    requires n <= |data|
    ensures Slice(data[..n], off, size) == Slice(data, off, if off >= n then 0 else Min(size, n - off))
  {
    if off < n {
      var end := Min(off + size, n);
      assert data[..n][off..end] == data[off..end];
    }
  }

  // A clamped read is a read of the object cut to fileSize bytes. The exception
  // is an end that wraps around in 64 bits to at most fileSize: that read is not
  // clamped.
  lemma ClampedRead(data: Bytes, off: nat, size: nat, fileSize: nat)
    requires off < 0x1_0000_0000_0000_0000 && size < 0x1_0000_0000_0000_0000
    requires |data| < 0x1_0000_0000_0000_0000 && fileSize < 0x1_0000_0000_0000_0000
    ensures Slice(data, off, Clamp(off, size, fileSize))
            == if off < fileSize && 0x1_0000_0000_0000_0000 <= off + size <= 0x1_0000_0000_0000_0000 + fileSize
               then Slice(data, off, size)
               else Slice(data[..Min(fileSize, |data|)], off, size)
  {
    CutSlice(data, off, size, Min(fileSize, |data|));
    var end := off + size;
    if end >= U64 {
      assert end == 1 * U64 + (end - U64) && end - U64 < U64;
      DivUnique(end, U64, 1, end - U64);
    } else {
      DivUnique(end, U64, 0, end);
    }
    ClampCases(off, size, fileSize, end % U64);
  }

  // A handle that takes an object of 3 bytes to be 2 bytes long, and a read of
  // 2^64 - 1 bytes from offset 1: it returns the third byte as well.
  lemma WrappedRead(data: Bytes)
    requires |data| == 3
    ensures Slice(data, 1, Clamp(1, 0xFFFF_FFFF_FFFF_FFFF, 2)) == data[1..3]
  {
    ClampedRead(data, 1, 0xFFFF_FFFF_FFFF_FFFF, 2);
  }

  lemma ClampCases(off: nat, size: nat, fileSize: nat, end: nat)
    requires end == (off + size) % U64
    ensures Clamp(off, size, fileSize)
            == if off >= fileSize then 0 else if end > fileSize then fileSize - off else size
  {}

  // What a handle that takes the file to be fileSize bytes long reads.
  function ReadOf(objects: map<Key, Bytes>, path: Key, fileSize: nat, off: nat, size: nat): Bytes {
    if path in objects then Slice(objects[path], off, Clamp(off, size, fileSize)) else []
  }

  // Clamping to at least the length of the object never changes the answer, not
  // even when off + size wraps around.
  lemma ClampEnough(data: Bytes, off: nat, size: nat, fileSize: nat)
    requires off < U64 && size < U64 && |data| < U64 && |data| <= fileSize
    ensures Slice(data, off, Clamp(off, size, fileSize)) == Slice(data, off, size)
  {
    if off < fileSize && off + size >= U64 {
      assert (off + size) % U64 == off + size - U64;
    }
  }

  // No read is cut short by the size that the file is taken to have.
  ghost predicate ReadsAll(data: Bytes, fileSize: nat) {
    forall off: nat, size: nat {:trigger Clamp(off, size, fileSize)} :: off < U64 && size < U64 ==>
      Slice(data, off, Clamp(off, size, fileSize)) == Slice(data, off, size)
  }

  // So it is exactly when that size is at least the object's: a read of the
  // whole object shows a smaller one.
  lemma ClampExact(data: Bytes, fileSize: nat)
    requires |data| < U64
    ensures ReadsAll(data, fileSize) <==> |data| <= fileSize
  {
    if |data| <= fileSize {
      forall off: nat, size: nat | off < U64 && size < U64
        ensures Slice(data, off, Clamp(off, size, fileSize)) == Slice(data, off, size)
      {
        ClampEnough(data, off, size, fileSize);
      }
    } else {
      assert |Slice(data, 0, Clamp(0, |data|, fileSize))| == fileSize && |Slice(data, 0, |data|)| == |data|;
    }
  }

  // Reads of these sizes, each from where the last one ended.
  function Reads(data: Bytes, off: nat, sizes: seq<nat>): seq<Bytes>
    decreases |sizes|
  {
    if sizes == [] then []
    else
      var piece := Slice(data, off, sizes[0]);
      [piece] + Reads(data, off + |piece|, sizes[1..])
  }

  lemma SliceSplit(data: Bytes, off: nat, a: nat, b: nat)
    requires off <= |data|
    ensures Slice(data, off, a) + Slice(data, off + |Slice(data, off, a)|, b) == Slice(data, off, a + b)
  {}

  // Reading on from any offset gives the bytes from there on; sizes that add
  // up to what is left rebuild the whole rest.
  lemma {:induction false} SuccessiveReads(data: Bytes, off: nat, sizes: seq<nat>)
    requires off <= |data|
    ensures Flatten(Reads(data, off, sizes)) == Slice(data, off, Sum(sizes))
    decreases |sizes|
  {
    if sizes != [] {
      var piece := Slice(data, off, sizes[0]);
      var rest := Reads(data, off + |piece|, sizes[1..]);
      SuccessiveReads(data, off + |piece|, sizes[1..]);
      SliceSplit(data, off, sizes[0], Sum(sizes[1..]));
      assert ([piece] + rest)[1..] == rest;
      assert Flatten([piece] + rest) == piece + Flatten(rest);
    }
  }

  // What a write comes to: refused off the end of the stream, an overrun
  // exactly when it does not fit the room left, else accepted in full.
  predicate WriteOutcome(w: WriteResult, off: nat, data: Bytes, n: nat, p: nat)
    requires p > 0
  {
    && (w.Refused? <==> off != n)
    && (w.Overrun? <==> off == n && |data| > Room(n, p))
    && (w.Wrote? ==> w.n == |data|)
  }

  // What of an open file, and of the store behind it, a refused write leaves alone.
  datatype FileView = FileView(stream: Bytes, size: nat, hasWrote: bool, store: StoreView)

  class OpenFile {
    const ino: nat
    const hno: nat
    const path: Key
    const stor: Stor.Stor
    const writer: SequenceWriter
    var size: nat
    var isWriting: bool
    var hasWrote: bool
    ghost var released: bool

    ghost function Repr(): set<object>
      reads this, writer
    {
      {this, writer} + writer.Repr
    }

    // What a handle knows of the file's size is the length of its stream, once
    // something was written.
    ghost predicate Valid()
      reads this, writer, stor, writer.Repr
    {
      && this !in writer.Repr && writer.stor == stor && writer.path == path && stor.Valid()
      && (!released ==> writer.Valid())
      && (hasWrote ==> size == |writer.Stream|)
      && (!hasWrote ==> writer.Stream == [])
    }

    ghost function View(): FileView
      reads this, writer, writer.stor
    {
      FileView(writer.Stream, size, hasWrote, writer.Footprint())
    }

    // The handle has an upload open.
    ghost predicate Uploading()
      reads this, writer
    {
      !released && writer.uptype.MPUT?
    }

    // Two handles share neither buffers nor an open upload.
    ghost predicate Apart(g: OpenFile)
      reads this, writer, g, g.writer
    {
      && Repr() !! g.Repr()
      && (Uploading() && g.Uploading() ==> writer.uploadId != g.writer.uploadId)
    }

    // A released stream is the object at the handle's path.
    ghost predicate Settled()
      reads this, writer, stor
    {
      released && writer.Stream != [] ==> path in stor.objects && stor.objects[path] == writer.Stream
    }

    // A writer's effect on the store, up to and including its release, leaves
    // the other handles in order, and apart from this one; what they released
    // stays if they are on other paths.
    twostate lemma KeepsOthers(g: OpenFile)
      requires stor == g.stor && stor !in old(g.Repr()) && stor.Valid()
      requires old(Valid()) && old(g.Valid()) && old(Apart(g)) && unchanged(old(g.Repr()))
      requires fresh(Repr() - old(Repr()))
      requires released || StoreDelta(old(writer.Footprint()), writer.Footprint())
      requires released ==> forall i :: i in old(stor.uploads) && (old(Uploading()) ==> i != old(writer.uploadId)) ==>
                                          i in stor.uploads && stor.uploads[i] == old(stor.uploads[i])
      requires forall k :: k in old(stor.objects) && k != path ==>
                 k in stor.objects && stor.objects[k] == old(stor.objects[k])
      requires old(released) ==> released
      ensures g.Valid() && Apart(g)
      ensures old(g.Settled()) && g.path != path ==> g.Settled()
    {
      if !g.released {
        g.writer.Undisturbed();
      }
    }

    constructor (ino: nat, hno: nat, path: Key, size: nat, stor: Stor.Stor)
      requires stor.Valid()
      ensures Valid() && fresh(Repr()) && !released && !hasWrote
      ensures this.ino == ino && this.hno == hno && this.path == path && this.size == size && this.stor == stor
      ensures writer.uptype.PUT? && writer.Stream == [] && writer.Calls == []
    {
      this.ino, this.hno, this.path, this.size, this.stor := ino, hno, path, size, stor;
      isWriting, hasWrote, released := false, false, false;
      writer := new SequenceWriter(path, stor);
    }

    method Read(off: nat, size: nat) returns (data: Bytes)
      requires Valid() && off < U64 && size < U64
      modifies stor`log
      ensures Valid()
      ensures data == ReadOf(stor.objects, path, this.size, off, size)
    {
      if off >= this.size {
        return [];
      }
      var n := size;
      if (off + n) % U64 > this.size {
        n := this.size - off;
      }
      if n == 0 {
        return [];
      }
      data := stor.ReadFile(path, off, n);
    }

    method Write(off: nat, data: Bytes) returns (r: WriteResult)
      requires Valid() && !released && |data| < INT_LIMIT
      modifies Repr(), stor
      ensures released == old(released)
      ensures WriteOutcome(r, off, data, |old(writer.Stream)|, stor.partSize)
      ensures r.Refused? ==> Valid() && View() == old(View()) && Repr() == old(Repr())
      ensures r.Wrote? ==> Valid() && hasWrote && writer.Stream == old(writer.Stream) + data && size == |writer.Stream|
      ensures r.Wrote? ==> StoreDelta(old(writer.Footprint()), writer.Footprint()) && fresh(Repr() - old(Repr()))
    {
      isWriting := true;
      r := writer.Write(off, data);
      if r.Wrote? {
        hasWrote := true;
        size := writer.FileSize();
      }
    }

    method Release()
      requires Valid() && !released
      modifies Repr(), stor
      ensures Valid() && released && hasWrote == old(hasWrote) && size == old(size)
      ensures writer.uploadId == old(writer.uploadId)
      ensures writer.Stream == old(writer.Stream) && Repr() <= old(Repr())
      ensures stor.objects
              == if writer.Stream == [] then old(stor.objects) else old(stor.objects)[path := writer.Stream]
      ensures writer.Calls == CallsInAll(writer.Stream, stor.partSize, path, writer.uploadId)
      ensures old(writer.Calls) <= writer.Calls && stor.log == old(stor.log) + writer.Calls[|old(writer.Calls)|..]
      ensures stor.nextUpload == old(stor.nextUpload)
      ensures stor.uploads
              == if old(writer.uptype).PUT? then old(stor.uploads) else old(stor.uploads) - {old(writer.uploadId)}
    {
      writer.Release();
      isWriting := false;
      released := true;
    }
  }
}

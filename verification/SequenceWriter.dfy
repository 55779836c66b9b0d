// The sequential upload writer: a bounded buffer and the PUT / multipart state
// machine over it.
module Writer {
  import opened Basics
  import opened SequentialStream
  import Stor

  // The result of int-returning calls: sizes are int.
  const INT_LIMIT: nat := 0x8000_0000

  class Part {
    const buf: array<byte>
    const partSize: nat
    var woff: nat

    ghost predicate Valid()
      reads this
    {
      buf.Length == partSize && woff <= partSize
    }

    ghost function Contents(): Bytes
      reads this, buf
      requires Valid()
    {
      buf[..woff]
    }

    constructor (size: nat)
      ensures Valid() && fresh(buf) && partSize == size && Contents() == []
    {
      buf := new byte[size];
      partSize := size;
      woff := 0;
    }

    function Len(): nat
      reads this
    {
      woff
    }

    function Cap(): nat
      requires Valid()
      reads this
    {
      partSize - woff
    }

    predicate Full()
      reads this
    {
      partSize == woff
    }

    // Copies all `size` bytes or none. A full buffer takes nothing; otherwise
    // nothing clamps the copy, and it is in bounds exactly when it fits.
    method Write(data: Bytes, size: nat) returns (n: nat, inBounds: bool)
      requires Valid() && size <= |data|
      modifies this, buf
      ensures Valid()
      ensures old(Full()) ==> n == 0 && inBounds && Contents() == old(Contents())
      ensures !old(Full()) ==> (inBounds <==> size <= old(Cap()))
      ensures !old(Full()) && inBounds ==> n == size && Contents() == old(Contents()) + data[..size]
    {
      if woff == partSize {
        return 0, true;
      }
      if size > partSize - woff {
        return 0, false;
      }
      forall i | 0 <= i < size {
        buf[woff + i] := data[i];
      }
      woff := woff + size;
      return size, true;
    }

    method Copy(src: Part, off: nat, size: nat) returns (n: nat, inBounds: bool)
      requires Valid() && src.Valid() && off + size <= src.woff
      requires src != this && src.buf != buf
      modifies this, buf
      ensures Valid()
      ensures old(Full()) ==> n == 0 && inBounds && Contents() == old(Contents())
      ensures !old(Full()) ==> (inBounds <==> size <= old(Cap()))
      ensures !old(Full()) && inBounds ==>
                n == size && Contents() == old(Contents()) + src.Contents()[off..off + size]
    {
      var from := src.buf[off..off + size];
      assert from == src.Contents()[off..off + size];
      n, inBounds := Write(from, size);
      assert from[..size] == from && src.Contents() == old(src.Contents());
    }

    method Clear()
      requires Valid()
      modifies this
      ensures Valid() && Contents() == []
    {
      woff := 0;
    }
  }

  datatype UpType = PUT | MPUT

  // What became of a write: accepted in full, refused because it is not at the
  // end of the stream, or a copy past the end of a buffer (undefined behaviour).
  datatype WriteResult = Wrote(n: nat) | Refused | Overrun

  // What of a store and a writer the writer's effect on the store is about.
  datatype StoreView = StoreView(
    calls: seq<Call>, uptype: UpType, uploadId: nat,
    log: seq<Call>, objects: map<Key, Bytes>, uploads: map<nat, Stor.Upload>, nextUpload: nat)

  // What a writer does to the store before it is released: it records its
  // calls, opens at most its own upload and leaves objects and other uploads alone.
  ghost predicate StoreDelta(a: StoreView, b: StoreView) {
    && a.calls <= b.calls
    && b.log == a.log + b.calls[|a.calls|..]
    && b.objects == a.objects
    && a.nextUpload <= b.nextUpload
    && ((b.uptype == a.uptype && b.uploadId == a.uploadId)
        || (a.uptype.PUT? && b.uptype.MPUT? && b.uploadId >= a.nextUpload))
    && (forall i :: i in a.uploads && (a.uptype.PUT? || i != a.uploadId) ==>
          i in b.uploads && b.uploads[i] == a.uploads[i])
  }

  lemma StoreDeltaTransitive(a: StoreView, b: StoreView, c: StoreView)
    requires StoreDelta(a, b) && StoreDelta(b, c)
    requires forall i :: i in a.uploads ==> i < a.nextUpload
    ensures StoreDelta(a, c)
  {
    assert c.log == a.log + (b.calls[|a.calls|..] + c.calls[|b.calls|..]);
    assert c.calls[|a.calls|..] == b.calls[|a.calls|..] + c.calls[|b.calls|..];
  }

  class SequenceWriter {
    const path: Key
    const stor: Stor.Stor
    var putPart: Part?
    var mputPart: Part?
    var uploadId: nat
    var partNum: nat
    var uptype: UpType
    var nextWriteOffset: nat

    // The bytes accepted so far, and the store calls made for them.
    ghost var Stream: Bytes
    ghost var Calls: seq<Call>

    // The writer, its parts and their buffers.
    ghost var Repr: set<object>

    ghost predicate Separate()
      reads this
    {
      && this in Repr && stor !in Repr
      && (putPart != null ==> putPart in Repr && putPart.buf in Repr)
      && (mputPart != null ==> mputPart in Repr && mputPart.buf in Repr)
      && (putPart != null && mputPart != null ==> putPart != mputPart && putPart.buf != mputPart.buf)
    }

    // The open upload holds exactly the full parts of the stream, numbered in
    // order, and the buffer holds the rest.
    ghost predicate Multipart(s: Bytes, key: Key)
      reads this, stor, Repr
    {
      && stor.partSize >= MB_8
      && mputPart != null && mputPart in Repr && mputPart.buf in Repr
      && mputPart.Valid() && mputPart.partSize == stor.partSize
      && mputPart.Contents() == Tail(s, stor.partSize)
      && uploadId in stor.uploads
      && stor.uploads[uploadId] == Stor.Upload(key, Stor.PartMap(Chunks(s, stor.partSize)), |Chunks(s, stor.partSize)|)
      && partNum == |Chunks(s, stor.partSize)|
      && Calls == [MInit(key, uploadId)] + PartCalls(key, uploadId, Chunks(s, stor.partSize))
    }

    ghost predicate SinglePut(s: Bytes)
      reads this, Repr
    {
      && |s| <= MB_8
      && (putPart == null ==> s == [])
      && (putPart != null ==>
            && putPart in Repr && putPart.buf in Repr
            && putPart.Valid() && putPart.partSize == MB_8 && putPart.Contents() == s)
      && Calls == []
    }

    ghost predicate Buffered(s: Bytes)
      reads this, stor, Repr
    {
      && stor.Valid() && Separate()
      && (uptype.PUT? ==> SinglePut(s))
      && (uptype.MPUT? ==> Multipart(s, path))
    }

    ghost predicate Valid()
      reads this, stor, Repr
    {
      && Buffered(Stream)
      && (uptype.PUT? <==> |Stream| <= MB_8)
      && nextWriteOffset == |Stream|
    }

    constructor (path: Key, stor: Stor.Stor)
      requires stor.Valid()
      ensures Valid() && fresh(Repr) && Stream == [] && Calls == []
      ensures this.path == path && this.stor == stor
    {
      this.path, this.stor := path, stor;
      putPart, mputPart := null, null;
      uptype, nextWriteOffset := PUT, 0;
      uploadId, partNum := 0, 0;
      Stream, Calls, Repr := [], [], {this};
    }

    // Uploads the contents of a part under the next part number.
    method UploadPart(part: Part)
      requires stor.Valid() && part.Valid() && uploadId in stor.uploads && stor !in Repr
      requires part.buf as object != stor && part.buf as object != this
      requires part as object != stor && part as object != this
      requires partNum == stor.uploads[uploadId].bound
      modifies this`partNum, this`Calls, stor`uploads, stor`log
      ensures stor.Valid() && partNum == old(partNum) + 1
      ensures var u := old(stor.uploads[uploadId]);
              stor.uploads == old(stor.uploads)[uploadId :=
                u.(parts := u.parts[u.bound := part.Contents()], bound := u.bound + 1)]
      ensures Calls == old(Calls) + [MPut(path, uploadId, old(partNum), part.Contents())]
      ensures stor.log == old(stor.log) + [MPut(path, uploadId, old(partNum), part.Contents())]
    {
      var n := partNum;
      partNum := partNum + 1;
      stor.MPut(path, uploadId, n, part.buf[..part.Len()]);
      Calls := Calls + [MPut(path, uploadId, n, part.buf[..part.Len()])];
    }

    ghost function Footprint(): StoreView
      reads this, stor
    {
      StoreView(Calls, uptype, uploadId, stor.log, stor.objects, stor.uploads, stor.nextUpload)
    }

    // The state right after an upload was opened for a full single-PUT buffer.
    ghost predicate JustOpened()
      reads this, stor, Repr
    {
      && stor.Valid() && Separate() && uptype.MPUT?
      && mputPart != null && mputPart.Valid() && mputPart.partSize == stor.partSize
      && uploadId in stor.uploads && stor.uploads[uploadId] == Stor.Upload(path, map[], 0)
      && partNum == 0 && Calls == [MInit(path, uploadId)]
    }

    method OpenUpload()
      requires Buffered(Stream) && uptype.PUT? && |Stream| == MB_8
      modifies this`mputPart, this`uptype, this`uploadId, this`partNum, this`Calls, this`Repr, stor
      ensures JustOpened() && mputPart.Contents() == []
      ensures putPart != null && putPart.Valid() && putPart.Contents() == Stream
      ensures StoreDelta(old(Footprint()), Footprint()) && fresh(Repr - old(Repr)) && fresh(mputPart)
      ensures fresh(mputPart.buf)
      ensures uploadId == old(stor.nextUpload)
    {
      uploadId := stor.MInit(path);
      Calls := Calls + [MInit(path, uploadId)];
      AllocateMput();
      uptype := MPUT;
      partNum := 0;
    }

    method AllocateMput()
      modifies this`mputPart, this`Repr
      ensures mputPart != null && mputPart.Valid() && mputPart.partSize == stor.partSize && mputPart.Contents() == []
      ensures fresh(mputPart) && fresh(mputPart.buf) && Repr == old(Repr) + {mputPart, mputPart.buf}
    {
      mputPart := new Part(stor.partSize);
      Repr := Repr + {mputPart, mputPart.buf};
    }

    // A buffer of exactly the part size becomes part 0 as it is.
    method UploadFirst()
      requires JustOpened() && stor.partSize == MB_8 && mputPart.Contents() == []
      requires putPart != null && putPart.Valid() && putPart.Contents() == Stream && |Stream| == MB_8
      modifies this`partNum, this`Calls, stor`uploads, stor`log
      ensures Buffered(Stream)
      ensures stor.uploads == old(stor.uploads)[uploadId := stor.uploads[uploadId]]
      ensures old(Calls) <= Calls && stor.log == old(stor.log) + Calls[|old(Calls)|..]
    {
      UploadPart(putPart);
      AppendFilling([], Stream, stor.partSize);
      assert [] + Stream == Stream;
      assert Stor.PartMap([Stream]) == map[0 := Stream];
    }

    // The loop that moves the first buffer into parts of another size.
    method RehomeBuffer() returns (inBounds: bool)
      requires JustOpened() && stor.partSize != MB_8 && mputPart.Contents() == []
      requires putPart != null && putPart.Valid() && putPart.Contents() == Stream && |Stream| == MB_8
      modifies this`partNum, this`Calls, stor`uploads, stor`log, mputPart, mputPart.buf
      ensures inBounds <==> stor.partSize >= MB_8
      ensures inBounds ==> Buffered(Stream) && Calls == old(Calls)
      ensures inBounds ==> stor.uploads == old(stor.uploads) && stor.log == old(stor.log)
    {
      var copyBytes := 0;
      var copyTotal := putPart.Len();
      while copyBytes < copyTotal
        invariant copyTotal == MB_8 && (copyBytes == 0 || (copyBytes == MB_8 && stor.partSize > MB_8))
        invariant JustOpened() && mputPart.Contents() == Stream[..copyBytes]
        invariant stor.uploads == old(stor.uploads) && stor.log == old(stor.log)
        invariant putPart.Valid() && putPart.Contents() == Stream
      {
        var n, ok := mputPart.Copy(putPart, copyBytes, copyTotal - copyBytes);
        if !ok {
          return false;
        }
        copyBytes := copyBytes + n;
        if mputPart.Full() {
          // Uploads and clears the part; a part of another size than the
          // buffer that took the whole buffer is larger, and is not full.
          assert false;
        }
      }
      assert Stor.PartMap([]) == map[];
      assert Stream[..MB_8] == Stream;
      return true;
    }

    // Switching modes at a full buffer: a copy into a smaller part goes past its end.
    method SwitchMputMode() returns (inBounds: bool)
      requires Buffered(Stream) && uptype.PUT? && |Stream| == MB_8
      modifies this`mputPart, this`uptype, this`uploadId, this`partNum, this`Calls, this`Repr, stor
      ensures inBounds <==> stor.partSize >= MB_8
      ensures inBounds ==> uptype.MPUT? && Buffered(Stream)
      ensures inBounds ==> StoreDelta(old(Footprint()), Footprint()) && fresh(Repr - old(Repr))
    {
      OpenUpload();
      if mputPart.Cap() == putPart.Len() {
        UploadFirst();
        inBounds := true;
      } else {
        inBounds := RehomeBuffer();
      }
    }

    // One pass of the single-PUT case: copy into the 8 MiB buffer.
    method FillPut(data: Bytes, size: nat) returns (n: nat, inBounds: bool)
      requires Buffered(Stream) && uptype.PUT? && size == |data|
      modifies this`putPart, this`Repr, putPart, if putPart == null then {} else {putPart.buf}
      ensures |Stream| == MB_8 ==> inBounds && n == 0 && Buffered(Stream)
      ensures |Stream| < MB_8 ==> (inBounds <==> size <= MB_8 - |Stream|)
      ensures |Stream| < MB_8 && inBounds ==> n == size && Buffered(Stream + data)
      ensures putPart != null && (inBounds ==> (putPart.Full() <==> |Stream| + n == MB_8))
      ensures fresh(Repr - old(Repr))
    {
      if putPart == null {
        putPart := new Part(MB_8);
        Repr := Repr + {putPart, putPart.buf};
      }
      n, inBounds := putPart.Write(data, size);
      assert data[..size] == data;
    }

    // One pass of the multipart case: copy into the current part, and upload
    // the part once it is full.
    method FillMput(data: Bytes, size: nat) returns (n: nat, inBounds: bool)
      requires Buffered(Stream) && uptype.MPUT? && |Stream| >= MB_8 && size == |data|
      modifies this`partNum, this`Calls, stor`uploads, stor`log, mputPart, mputPart.buf
      ensures inBounds <==> size <= Room(|Stream|, stor.partSize)
      ensures inBounds ==> n == size && Buffered(Stream + data)
      ensures inBounds ==> StoreDelta(old(Footprint()), Footprint())
    {
      var p := stor.partSize;
      ChunksGeometry(Stream, p);
      LeftIs(|Stream|, p);
      assert data[..size] == data;
      n, inBounds := mputPart.Write(data, size);
      if !inBounds {
        return;
      }
      if mputPart.Full() {
        ghost var chunks, b := Chunks(Stream, p), Tail(Stream, p) + data;
        AppendFilling(Stream, data, p);
        PartCallsAppend(path, uploadId, chunks, b);
        UploadPart(mputPart);
        assert Stor.PartMap(chunks + [b]) == Stor.PartMap(chunks)[|chunks| := b];
        mputPart.Clear();
      } else {
        AppendWithin(Stream, data, p);
      }
    }

    // The single-PUT case of the loop: `done` when the write ends here.
    method PutPass(data: Bytes, size: nat) returns (n: nat, done: bool, inBounds: bool)
      requires Valid() && uptype.PUT? && 0 < size == |data|
      modifies Repr, stor
      ensures Stream == old(Stream) && nextWriteOffset == old(nextWriteOffset)
      ensures |Stream| < MB_8 ==> (inBounds <==> size <= MB_8 - |Stream|)
      ensures |Stream| == MB_8 ==> (inBounds <==> stor.partSize >= MB_8)
      ensures inBounds && |Stream| < MB_8 ==> done && n == size && Buffered(Stream + data) && uptype.PUT?
      ensures inBounds && |Stream| == MB_8 ==> !done && n == 0 && Buffered(Stream) && uptype.MPUT?
      ensures inBounds ==> StoreDelta(old(Footprint()), Footprint()) && fresh(Repr - old(Repr))
    {
      n, inBounds := FillPut(data, size);
      done := inBounds;
      if inBounds && putPart.Full() {
        var leftBytes := size - n;
        if leftBytes > 0 {
          // The buffer was full before this write: go multipart.
          inBounds := SwitchMputMode();
          done := false;
        }
      }
    }

    // Writes all of data, or stops at the first copy past the end of a buffer.
    method WriteData(data: Bytes) returns (inBounds: bool)
      requires Valid() && |data| < INT_LIMIT
      modifies Repr, stor
      ensures inBounds <==> |data| <= Room(|Stream|, stor.partSize)
      ensures Stream == old(Stream) && nextWriteOffset == old(nextWriteOffset)
      ensures inBounds ==> Buffered(Stream + data) && (uptype.PUT? <==> |Stream + data| <= MB_8)
      ensures inBounds ==> StoreDelta(old(Footprint()), Footprint()) && fresh(Repr - old(Repr))
    {
      var wbytes, total := 0, |data|;
      var rest, size := data, |data|;
      assert Stream + [] == Stream;
      while wbytes != total
        invariant wbytes == 0 || wbytes == total
        invariant wbytes == 0 ==> rest == data && size == total && Buffered(Stream)
        invariant wbytes == 0 && (total == 0 || uptype.PUT?) ==> Valid()
        invariant wbytes == 0 && total > 0 && uptype.MPUT? ==> |Stream| >= MB_8
        invariant wbytes == total > 0 ==> Buffered(Stream + data) && uptype.MPUT? && |Stream| >= MB_8
        invariant wbytes == total > 0 ==> total <= Room(|Stream|, stor.partSize)
        invariant Stream == old(Stream) && nextWriteOffset == old(nextWriteOffset)
        invariant StoreDelta(old(Footprint()), Footprint()) && fresh(Repr - old(Repr))
        decreases total - wbytes, if uptype.PUT? then 1 else 0
      {
        var n, ok, done := 0, true, false;
        ghost var before := Footprint();
        match uptype {
          case PUT =>
            n, done, ok := PutPass(rest, size);
          case MPUT =>
            n, ok := FillMput(rest, size);
        }
        if !ok {
          return false;
        }
        StoreDeltaTransitive(old(Footprint()), before, Footprint());
        if done {
          return true;
        }
        wbytes := wbytes + n;
        rest := rest[wbytes..];
        size := size - wbytes;
      }
      return true;
    }

    // Accepts data at the end of the stream, in full, exactly when it fits the
    // buffer in use; refuses any other offset without any effect.
    method Write(off: nat, data: Bytes) returns (r: WriteResult)
      requires Valid() && |data| < INT_LIMIT
      modifies Repr, stor
      ensures r.Refused? <==> off != old(nextWriteOffset)
      ensures r.Refused? ==> Valid() && Stream == old(Stream) && Footprint() == old(Footprint()) && Repr == old(Repr)
      ensures !r.Refused? ==> (r == Wrote(|data|) <==> |data| <= Room(|old(Stream)|, stor.partSize))
      ensures !r.Refused? ==> (r.Overrun? <==> |data| > Room(|old(Stream)|, stor.partSize))
      ensures r.Wrote? ==> Valid() && Stream == old(Stream) + data
      ensures r.Wrote? ==> StoreDelta(old(Footprint()), Footprint()) && fresh(Repr - old(Repr))
    {
      if nextWriteOffset != off {
        return Refused;
      }
      var ok := WriteData(data);
      if !ok {
        return Overrun;
      }
      nextWriteOffset := nextWriteOffset + |data|;
      Stream := Stream + data;
      return Wrote(|data|);
    }

    function FileSize(): nat
      reads this
    {
      nextWriteOffset
    }

    // What others do to the store does not disturb a writer, as long as its own
    // upload is left alone.
    twostate lemma Undisturbed()
      requires old(Valid()) && unchanged(old(Repr)) && stor.Valid()
      requires uptype.MPUT? ==> uploadId in stor.uploads && stor.uploads[uploadId] == old(stor.uploads[uploadId])
      ensures Valid()
    {}

    // Ends the stream. A stream of no bytes touches nothing; any other becomes
    // the object at the writer's path, and nothing else changes in the bucket.
    method Release()
      requires Valid()
      modifies Repr, stor
      ensures stor.Valid()
      ensures stor.objects == if Stream == [] then old(stor.objects) else old(stor.objects)[path := Stream]
      ensures Stream == old(Stream) && uploadId == old(uploadId)
      ensures Calls == CallsInAll(Stream, stor.partSize, path, uploadId)
      ensures old(Calls) <= Calls && stor.log == old(stor.log) + Calls[|old(Calls)|..]
      ensures stor.nextUpload == old(stor.nextUpload)
      ensures stor.uploads == if uptype.PUT? then old(stor.uploads) else old(stor.uploads) - {uploadId}
      ensures uptype == old(uptype) && Repr == old(Repr)
    {
      if nextWriteOffset == 0 {
        return;
      }
      match uptype {
        case PUT => UploadFile();
        case MPUT => FinishMput();
      }
    }

    method UploadFile()
      requires Valid() && uptype.PUT? && Stream != []
      modifies this`Calls, stor`objects, stor`log
      ensures stor.Valid() && stor.objects == old(stor.objects)[path := Stream]
      ensures Calls == CallsInAll(Stream, stor.partSize, path, uploadId)
      ensures stor.log == old(stor.log) + Calls
    {
      stor.PutFile(path, putPart.buf[..putPart.Len()]);
      Calls := Calls + [PutFile(path, Stream)];
    }

    method FinishMput()
      requires Valid() && uptype.MPUT?
      modifies this`Calls, this`partNum, this`mputPart, stor
      ensures stor.Valid() && stor.objects == old(stor.objects)[path := Stream]
      ensures Calls == CallsInAll(Stream, stor.partSize, path, uploadId)
      ensures old(Calls) <= Calls && stor.log == old(stor.log) + Calls[|old(Calls)|..]
      ensures stor.nextUpload == old(stor.nextUpload) && stor.uploads == old(stor.uploads) - {uploadId}
    {
      ghost var p := stor.partSize;
      ghost var chunks, tail := Chunks(Stream, p), Tail(Stream, p);
      UploadLast();
      MultipartGeometry(Stream, p);
      Stor.AssembleNumbered(AllParts(Stream, p), |AllParts(Stream, p)|);
      assert AllParts(Stream, p)[..|AllParts(Stream, p)|] == AllParts(Stream, p);
      stor.MFinish(path, uploadId);
      Calls := Calls + [MFinish(path, uploadId)];
    }

    // The bytes left in the buffer, if any, become the last part.
    method UploadLast()
      requires Valid() && uptype.MPUT?
      modifies this`Calls, this`partNum, this`mputPart, stor`uploads, stor`log
      ensures stor.Valid() && uploadId in stor.uploads
      ensures var parts := AllParts(Stream, stor.partSize);
              && stor.uploads == old(stor.uploads)[uploadId := Stor.Upload(path, Stor.PartMap(parts), |parts|)]
              && Calls == [MInit(path, uploadId)] + PartCalls(path, uploadId, parts)
      ensures old(Calls) <= Calls && stor.log == old(stor.log) + Calls[|old(Calls)|..]
    {
      if mputPart.Len() > 0 {
        ghost var chunks, tail := Chunks(Stream, stor.partSize), Tail(Stream, stor.partSize);
        UploadPart(mputPart);
        PartCallsAppend(path, uploadId, chunks, tail);
        assert Stor.PartMap(chunks + [tail]) == Stor.PartMap(chunks)[|chunks| := tail];
        mputPart := null;
      }
    }
  }
}

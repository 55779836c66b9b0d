// Several open files at once: writes and releases on their handles in any order.
module HandleRuns {
  import opened Basics
  import opened SequentialStream
  import opened Writer
  import opened Handles
  import Stor

  // What a handle has accepted, and whether it was released.
  datatype Handle = Handle(stream: Bytes, released: bool)

  datatype Act = Write(i: nat, off: nat, data: Bytes) | Release(i: nat)

  function Next(hs: seq<Handle>, a: Act): (r: seq<Handle>)
    requires a.i < |hs|
    ensures |r| == |hs|
  {
    match a
    case Write(i, off, data) =>
      if off == |hs[i].stream| then hs[i := hs[i].(stream := hs[i].stream + data)] else hs
    case Release(i) => hs[i := hs[i].(released := true)]
  }

  // A handle is written until it is released, and a write that is accepted fits.
  ghost predicate Fine(hs: seq<Handle>, a: Act, p: nat)
    requires p > 0
  {
    && a.i < |hs| && !hs[a.i].released
    && (a.Write? ==>
          |a.data| < INT_LIMIT && (a.off == |hs[a.i].stream| ==> |a.data| <= Room(|hs[a.i].stream|, p)))
  }

  ghost predicate AllFine(hs: seq<Handle>, acts: seq<Act>, p: nat)
    requires p > 0
    decreases |acts|
  {
    acts == [] || (Fine(hs, acts[0], p) && AllFine(Next(hs, acts[0]), acts[1..], p))
  }

  ghost function After(hs: seq<Handle>, acts: seq<Act>, p: nat): seq<Handle>
    requires p > 0 && AllFine(hs, acts, p)
    decreases |acts|
  {
    if acts == [] then hs else After(Next(hs, acts[0]), acts[1..], p)
  }

  // The objects of the bucket after one act: a release stores a stream that is
  // not empty at the handle's path.
  function ObjectsNext(objects: map<Key, Bytes>, hs: seq<Handle>, paths: seq<Key>, a: Act): map<Key, Bytes>
    requires a.i < |hs| == |paths|
  {
    if a.Release? && hs[a.i].stream != [] then objects[paths[a.i] := hs[a.i].stream] else objects
  }

  ghost function ObjectsAfter(objects: map<Key, Bytes>, hs: seq<Handle>, paths: seq<Key>, acts: seq<Act>, p: nat):
    map<Key, Bytes>
    requires p > 0 && AllFine(hs, acts, p) && |paths| == |hs|
    decreases |acts|
  {
    if acts == [] then objects
    else ObjectsAfter(ObjectsNext(objects, hs, paths, acts[0]), Next(hs, acts[0]), paths, acts[1..], p)
  }

  // A released handle keeps its stream.
  lemma {:induction false} ReleasedStays(hs: seq<Handle>, acts: seq<Act>, p: nat, i: nat)
    requires p > 0 && AllFine(hs, acts, p) && i < |hs| && hs[i].released
    ensures var end := After(hs, acts, p);
            |end| == |hs| && end[i] == hs[i]
    decreases |acts|
  {
    if acts != [] {
      ReleasedStays(Next(hs, acts[0]), acts[1..], p, i);
    }
  }

  // An act that stores nothing at a path k, given the handles at the end.
  ghost predicate Spares(end: seq<Handle>, paths: seq<Key>, a: Act, k: Key)
    requires |paths| == |end|
  {
    a.Release? && a.i < |end| ==> paths[a.i] != k || end[a.i].stream == []
  }

  // An object at whose path nothing is stored stays.
  lemma {:induction false} NotStored(objects: map<Key, Bytes>, hs: seq<Handle>, paths: seq<Key>, acts: seq<Act>,
                                     p: nat, k: Key, end: seq<Handle>)
    requires p > 0 && AllFine(hs, acts, p) && |paths| == |hs| == |end| && end == After(hs, acts, p)
    requires forall j :: 0 <= j < |acts| ==> Spares(end, paths, acts[j], k)
    ensures var after := ObjectsAfter(objects, hs, paths, acts, p);
            (k in after <==> k in objects) && (k in objects ==> after[k] == objects[k])
    decreases |acts|
  {
    if acts != [] {
      var a, hs' := acts[0], Next(hs, acts[0]);
      if a.Release? {
        ReleasedStays(hs', acts[1..], p, a.i);
        assert Spares(end, paths, a, k);
      }
      NotStored(ObjectsNext(objects, hs, paths, a), hs', paths, acts[1..], p, k, end);
    }
  }

  // Of the handles on one path the last to store something decides.
  lemma {:induction false} LastReleaseWins(objects: map<Key, Bytes>, hs: seq<Handle>, paths: seq<Key>, acts: seq<Act>,
                                           p: nat, n: nat, end: seq<Handle>)
    requires p > 0 && AllFine(hs, acts, p) && |paths| == |hs| == |end| && end == After(hs, acts, p)
    requires n < |acts| && acts[n].Release? && acts[n].i < |hs| && end[acts[n].i].stream != []
    requires forall j :: n < j < |acts| ==> Spares(end, paths, acts[j], paths[acts[n].i])
    ensures var after, i := ObjectsAfter(objects, hs, paths, acts, p), acts[n].i;
            paths[i] in after && after[paths[i]] == end[i].stream
    decreases n
  {
    var a, hs' := acts[0], Next(hs, acts[0]);
    var objects' := ObjectsNext(objects, hs, paths, a);
    if n == 0 {
      ReleasedStays(hs', acts[1..], p, a.i);
      NotStored(objects', hs', paths, acts[1..], p, paths[a.i], end);
    } else {
      LastReleaseWins(objects', hs', paths, acts[1..], p, n - 1, end);
    }
  }

  // A released stream is the object at its path.
  ghost predicate Stored(objects: map<Key, Bytes>, h: Handle, k: Key) {
    h.released && h.stream != [] ==> k in objects && objects[k] == h.stream
  }

  // On distinct paths every released stream is the object at its own path.
  lemma {:induction false} DistinctPaths(objects: map<Key, Bytes>, hs: seq<Handle>, paths: seq<Key>, acts: seq<Act>,
                                         p: nat)
    requires p > 0 && AllFine(hs, acts, p) && |paths| == |hs|
    requires forall i, j :: 0 <= i < j < |paths| ==> paths[i] != paths[j]
    requires forall i :: 0 <= i < |hs| ==> Stored(objects, hs[i], paths[i])
    ensures var after, end := ObjectsAfter(objects, hs, paths, acts, p), After(hs, acts, p);
            |end| == |hs| && forall i :: 0 <= i < |hs| ==> Stored(after, end[i], paths[i])
    decreases |acts|
  {
    if acts != [] {
      DistinctPaths(ObjectsNext(objects, hs, paths, acts[0]), Next(hs, acts[0]), paths, acts[1..], p);
    }
  }

  // Act k leads from these handles and objects to the next ones.
  ghost predicate TraceStep(hss: seq<seq<Handle>>, oss: seq<map<Key, Bytes>>, paths: seq<Key>, acts: seq<Act>, p: nat,
                            k: nat)
    requires p > 0 && k < |acts| && |hss| == |oss| == |acts| + 1
  {
    && |hss[k]| == |paths| && Fine(hss[k], acts[k], p)
    && hss[k + 1] == Next(hss[k], acts[k]) && oss[k + 1] == ObjectsNext(oss[k], hss[k], paths, acts[k])
  }

  ghost predicate IsTrace(hss: seq<seq<Handle>>, oss: seq<map<Key, Bytes>>, paths: seq<Key>, acts: seq<Act>, p: nat)
    requires p > 0
  {
    && |hss| == |oss| == |acts| + 1
    && forall k {:trigger TraceStep(hss, oss, paths, acts, p, k)} ::
         0 <= k < |acts| ==> TraceStep(hss, oss, paths, acts, p, k)
  }

  lemma {:induction false} Trace(objects: map<Key, Bytes>, hs: seq<Handle>, paths: seq<Key>, acts: seq<Act>, p: nat)
    returns (hss: seq<seq<Handle>>, oss: seq<map<Key, Bytes>>)
    requires p > 0 && AllFine(hs, acts, p) && |paths| == |hs|
    ensures IsTrace(hss, oss, paths, acts, p) && hss[0] == hs && oss[0] == objects
    ensures hss[|acts|] == After(hs, acts, p) && oss[|acts|] == ObjectsAfter(objects, hs, paths, acts, p)
    decreases |acts|
  {
    if acts == [] {
      return [hs], [objects];
    }
    var a := acts[0];
    var hss', oss' := Trace(ObjectsNext(objects, hs, paths, a), Next(hs, a), paths, acts[1..], p);
    hss, oss := [hs] + hss', [objects] + oss';
    forall k | 0 <= k < |acts| ensures TraceStep(hss, oss, paths, acts, p, k) {
      if k > 0 { assert TraceStep(hss', oss', paths, acts[1..], p, k - 1); }
    }
  }

  // Handles on one store.
  class Table {
    const stor: Stor.Stor
    const files: seq<OpenFile>
    // The handles, their writers and buffers.
    ghost var Repr: set<object>

    constructor (stor: Stor.Stor, files: seq<OpenFile>)
      ensures this.stor == stor && this.files == files
      ensures forall i {:trigger Owns(i)} :: 0 <= i < |files| ==> Owns(i)
      ensures forall o :: o in Repr ==> exists i :: 0 <= i < |files| && o in files[i].Repr()
    {
      this.stor, this.files := stor, files;
      Repr := set i, o | 0 <= i < |files| && o in files[i].Repr() :: o;
    }

    ghost predicate Owns(i: nat)
      requires i < |files|
      reads this, files, files[i].writer
    {
      files[i].Repr() <= Repr
    }

    // Handle i is in order.
    ghost predicate InOrder(i: nat)
      requires i < |files|
      reads files, stor, files[i].writer, files[i].writer.Repr
    {
      files[i].stor == stor && files[i].Valid() && stor !in files[i].Repr() && this !in files[i].Repr()
    }

    ghost predicate Separate(i: nat, j: nat)
      requires i < |files| && j < |files|
      reads files, files[i].writer, files[j].writer
    {
      i != j ==> files[i].Apart(files[j])
    }

    ghost predicate Good()
      reads *
    {
      && stor.Valid()
      && (forall i {:trigger InOrder(i)} :: 0 <= i < |files| ==> InOrder(i))
      && (forall i, j {:trigger Separate(i, j)} :: 0 <= i < |files| && 0 <= j < |files| ==> Separate(i, j))
    }

    ghost function Handles(): (hs: seq<Handle>)
      reads *
      ensures |hs| == |files|
    {
      seq(|files|, i requires 0 <= i < |files| reads * => Handle(files[i].writer.Stream, files[i].released))
    }

    ghost function Paths(): (r: seq<Key>)
      ensures |r| == |files|
    {
      seq(|files|, i requires 0 <= i < |files| => files[i].path)
    }

    // What one handle's act does to the others.
    twostate lemma KeepsAll(i: nat)
      requires i < |files| && old(Good()) && stor.Valid() && InOrder(i) && fresh(files[i].Repr() - old(files[i].Repr()))
      requires forall j :: 0 <= j < |files| && j != i ==> unchanged(old(files[j].Repr()))
      requires files[i].released || StoreDelta(old(files[i].writer.Footprint()), files[i].writer.Footprint())
      requires files[i].released ==>
                 forall u :: u in old(stor.uploads)
                             && (old(files[i].Uploading()) ==> u != old(files[i].writer.uploadId)) ==>
                   u in stor.uploads && stor.uploads[u] == old(stor.uploads[u])
      requires forall k :: k in old(stor.objects) && k != files[i].path ==>
                 k in stor.objects && stor.objects[k] == old(stor.objects[k])
      requires !old(files[i].released)
      ensures Good()
    {
      forall j | 0 <= j < |files| && j != i
        ensures InOrder(j) && files[i].Apart(files[j])
      {
        assert old(InOrder(i)) && old(InOrder(j)) && old(Separate(i, j));
        files[i].KeepsOthers(files[j]);
      }
      forall j, k | 0 <= j < |files| && 0 <= k < |files| ensures Separate(j, k) {
        assert old(Separate(j, k)) && old(Separate(k, j));
      }
    }

    // The other handles own none of what one handle's act may change.
    lemma OwnBuffers(i: nat)
      requires i < |files| && Good()
      ensures this !in files[i].Repr()
      ensures forall j :: 0 <= j < |files| && j != i ==> files[i].Repr() !! files[j].Repr() && stor !in files[j].Repr()
    {
      assert InOrder(i);
      forall j | 0 <= j < |files| && j != i ensures files[i].Repr() !! files[j].Repr() && stor !in files[j].Repr() {
        assert Separate(i, j) && InOrder(j);
      }
    }

    method WriteOne(i: nat, off: nat, data: Bytes)
      requires i < |files| && Good() && !files[i].released && |data| < INT_LIMIT
      requires off == |files[i].writer.Stream| ==> |data| <= Room(|files[i].writer.Stream|, stor.partSize)
      modifies files[i].Repr(), stor
      ensures Good() && !files[i].released && fresh(files[i].Repr() - old(files[i].Repr()))
      ensures stor.objects == old(stor.objects)
      ensures files[i].writer.Stream
              == if off == |old(files[i].writer.Stream)| then old(files[i].writer.Stream) + data
                 else old(files[i].writer.Stream)
    {
      assert InOrder(i);
      OwnBuffers(i);
      var r := files[i].Write(off, data);
      KeepsAll(i);
    }

    method ReleaseOne(i: nat)
      requires i < |files| && Good() && !files[i].released
      modifies files[i].Repr(), stor
      ensures Good() && files[i].released && fresh(files[i].Repr() - old(files[i].Repr()))
      ensures files[i].writer.Stream == old(files[i].writer.Stream)
      ensures stor.objects
              == if files[i].writer.Stream == [] then old(stor.objects)
                 else old(stor.objects)[files[i].path := files[i].writer.Stream]
    {
      assert InOrder(i);
      OwnBuffers(i);
      files[i].Release();
      KeepsAll(i);
    }

    method Do(a: Act)
      requires Good() && Fine(Handles(), a, stor.partSize)
      requires forall i {:trigger Owns(i)} :: 0 <= i < |files| ==> Owns(i)
      modifies this`Repr, Repr, stor
      ensures Good() && Handles() == Next(old(Handles()), a)
      ensures stor.objects == ObjectsNext(old(stor.objects), old(Handles()), Paths(), a)
      ensures fresh(Repr - old(Repr)) && forall i {:trigger Owns(i)} :: 0 <= i < |files| ==> Owns(i)
    {
      assert Owns(a.i);
      OwnBuffers(a.i);
      match a {
        case Write(i, off, data) => WriteOne(i, off, data);
        case Release(i) => ReleaseOne(i);
      }
      GrowRepr(a.i);
      forall j | 0 <= j < |files| ensures Owns(j) {
        assert old(Owns(j));
        assert j != a.i ==> files[j].Repr() == old(files[j].Repr());
      }
    }

    method GrowRepr(i: nat)
      requires i < |files| && Good()
      modifies this`Repr
      ensures Good() && Repr == old(Repr) + files[i].Repr() && Handles() == old(Handles())
    {
      Repr := Repr + files[i].Repr();
      forall j | 0 <= j < |files| ensures InOrder(j) { assert old(InOrder(j)); }
      forall j, k | 0 <= j < |files| && 0 <= k < |files| ensures Separate(j, k) { assert old(Separate(j, k)); }
    }

    // Whatever the order of writes and releases on the handles, each has the
    // stream of its own accepted writes, and the bucket has what the releases
    // stored, one after the other.
    method Run(acts: seq<Act>)
      requires Good() && AllFine(Handles(), acts, stor.partSize)
      requires forall i {:trigger Owns(i)} :: 0 <= i < |files| ==> Owns(i)
      modifies this`Repr, Repr, stor
      ensures Good() && Handles() == After(old(Handles()), acts, stor.partSize)
      ensures stor.objects == ObjectsAfter(old(stor.objects), old(Handles()), Paths(), acts, stor.partSize)
      ensures fresh(Repr - old(Repr)) && forall i {:trigger Owns(i)} :: 0 <= i < |files| ==> Owns(i)
    {
      ghost var p, paths := stor.partSize, Paths();
      ghost var hss, oss := Trace(stor.objects, Handles(), paths, acts, p);
      for k := 0 to |acts|
        invariant Good() && Handles() == hss[k] && stor.objects == oss[k]
        invariant fresh(Repr - old(Repr)) && forall i {:trigger Owns(i)} :: 0 <= i < |files| ==> Owns(i)
      {
        assert TraceStep(hss, oss, paths, acts, p, k);
        Do(acts[k]);
      }
    }
  }
}

// What a file that is opened later reads: the size that the cache has for it
// over whole histories, and the object behind it.
module FileSizes {
  import opened Basics
  import opened DentryTree
  import opened Paths
  import opened Lookup
  import opened Coherence
  import opened Conservation
  import opened Level
  import opened Attributes
  import opened Handles
  import opened History

  // x is a cached file.
  ghost predicate IsFile(s: State, x: InodeID) {
    x in s.cache.nodes && !IsDirMode(s.cache.nodes[x].mode)
  }

  // ---- One event ------------------------------------------------------------------

  // The operation looks x up.
  ghost predicate LooksUp(c: Cache, op: Op, x: InodeID) {
    op.p in c.nodes && op.n in c.nodes[op.p].children && c.nodes[op.p].children[op.n] == x
  }

  // What the store answers about the size of a key.
  function AnsweredSize(b: Bucket, k: Key): nat {
    if k in b.objects then |b.objects[k]| else b.junk
  }

  // What a refresh of d makes of the size of x.
  ghost function ListedSize(s: State, d: InodeID, max: nat, x: InodeID): nat
    requires x in s.cache.nodes
  {
    var n := s.cache.nodes[x];
    if max >= 1 && x != ROOT && n.parent == d && [n.name] in PagedInfo(s.bucket, DirPrefix(s.cache, d), max)
    then PagedInfo(s.bucket, DirPrefix(s.cache, d), max)[[n.name]].size
    else n.size
  }

  // What an event makes of the cached size of a file: a lookup when its time is
  // up takes what the store answers, a refresh of its directory what is listed,
  // a write what the writer's stream has; nothing else changes it.
  ghost function SizeAfter(s: State, e: Event, x: InodeID): nat
    requires x in s.cache.nodes
  {
    var n := s.cache.nodes[x];
    match e
    case Mount(op) =>
      if LooksUp(s.cache, op, x) && n.ttl < op.now then AnsweredSize(s.bucket, FullPath(s.cache, x)) else n.size
    case Refresh(d, max, _, _, _) => ListedSize(s, d, max, x)
    case Write(ino, size) => if ino == x then size else n.size
    case Release(_, _) => n.size
    case Outside(_) => n.size
  }

  lemma EventSize(s: State, e: Event, t: State, timeout: Time, x: InodeID)
    requires Sound(s) && Follows(s, e, t, timeout) && IsFile(s, x) && x in t.cache.nodes
    ensures t.cache.nodes[x].size == SizeAfter(s, e, x)
  {
    match e
    case Mount(op) => MountSize(s, op, t, timeout, op.now + timeout, x);
    case Refresh(d, max, _, ttl, m) => RefreshSize(s, t.cache, d, max, ttl, m, x);
    case Write(_, _) =>
    case Release(_, _) =>
    case Outside(_) =>
  }

  lemma MountSize(s: State, op: Op, t: State, timeout: Time, ttl: Time, x: InodeID)
    requires Sound(s) && Follows(s, Mount(op), t, timeout) && ttl == op.now + timeout
    requires IsFile(s, x) && x in t.cache.nodes
    ensures t.cache.nodes[x].size == SizeAfter(s, Mount(op), x)
  {
    var c, b := s.cache, s.bucket;
    var f := FindSpec(c, b, op.p, op.n, op.now, ttl);
    DirStays(c, b, op.p, op.n, op.now, ttl);
    StepCases(s, op, t, timeout, ttl);
    LookupSize(s, op, ttl, f, x);
    StepNode(s, op, t, ttl, f, x);
  }

  lemma LookupSize(s: State, op: Op, ttl: Time, f: Cache, x: InodeID)
    requires Tree(s.cache) && op.p in s.cache.nodes && IsFile(s, x)
    requires f == FindSpec(s.cache, s.bucket, op.p, op.n, op.now, ttl)
    ensures x in f.nodes && x < f.next && f.nodes[x].size == SizeAfter(s, Mount(op), x)
  {
    IdsBelowNext(s.cache);
    if op.n in s.cache.nodes[op.p].children {
      ChildNames(s.cache, op.p, op.n);
    }
  }

  // What comes after the lookup keeps the node of x, up to its children.
  lemma StepNode(s: State, op: Op, t: State, ttl: Time, f: Cache, x: InodeID)
    requires op.p in s.cache.nodes && f == FindSpec(s.cache, s.bucket, op.p, op.n, op.now, ttl) && op.p in f.nodes
    requires op.Find? ==> t == s.(cache := f)
    requires op.Create? ==> t == CreateSpec(s, op.p, op.n, op.mode, op.now, ttl)
    requires op.Remove? ==> t == RemoveSpec(s, op.p, op.n, op.now, ttl)
    requires x in f.nodes && x != f.next && x in t.cache.nodes
    ensures t.cache.nodes[x].size == f.nodes[x].size
  {}

  lemma RefreshSize(s: State, u: Cache, d: InodeID, max: nat, ttl: Time, m: Cache, x: InodeID)
    requires Tree(s.cache) && d in s.cache.nodes && IsDirMode(s.cache.nodes[d].mode) && IsFile(s, x)
    requires RefreshedWith(s.cache, u, d, s.bucket, max, ttl, m) && x in u.nodes
    ensures u.nodes[x].size == ListedSize(s, d, max, x)
  {
    MergedSize(s.cache, m, d, PagedInfo(s.bucket, DirPrefix(s.cache, d), max), x);
    SweptSize(m, d, ttl, x);
  }

  // ---- The object behind it ------------------------------------------------------------

  ghost function ObjectAt(b: Bucket, k: Key): Option<Bytes> {
    if k in b.objects then Some(b.objects[k]) else None
  }

  // What an event makes of the object of a file that stays cached: only releases
  // and changes by others concern it.
  ghost function ObjectAfter(s: State, e: Event, k: Key): Option<Bytes> {
    match e
    case Mount(_) => ObjectAt(s.bucket, k)
    case Refresh(_, _, _, _, _) => ObjectAt(s.bucket, k)
    case Write(_, _) => ObjectAt(s.bucket, k)
    case Release(path, stream) => if path == k then Some(stream) else ObjectAt(s.bucket, k)
    case Outside(objects) => if k in objects then Some(objects[k]) else None
  }

  lemma EventObject(s: State, e: Event, t: State, timeout: Time, x: InodeID)
    requires Sound(s) && Follows(s, e, t, timeout) && IsFile(s, x) && x in t.cache.nodes
    ensures ObjectAt(t.bucket, FullPath(s.cache, x)) == ObjectAfter(s, e, FullPath(s.cache, x))
  {
    match e
    case Mount(op) => MountObject(s, op, t, timeout, op.now + timeout, x);
    case Refresh(_, _, _, _, _) =>
    case Write(_, _) =>
    case Release(_, _) =>
    case Outside(_) =>
  }

  // An operation on another name touches another key; one on the file itself
  // creates nothing, and a removal takes it out of the cache.
  lemma MountObject(s: State, op: Op, t: State, timeout: Time, ttl: Time, x: InodeID)
    requires Sound(s) && Follows(s, Mount(op), t, timeout) && ttl == op.now + timeout
    requires IsFile(s, x) && x in t.cache.nodes
    ensures ObjectAt(t.bucket, FullPath(s.cache, x)) == ObjectAt(s.bucket, FullPath(s.cache, x))
  {
    var c, n := s.cache, s.cache.nodes[x];
    assert Placed(c, x);
    ChildPaths(c, n.parent, n.name);
    if LooksUp(c, op, x) {
      DirStays(c, s.bucket, op.p, op.n, op.now, ttl);
      StepCases(s, op, t, timeout, ttl);
      FoundAgain(s, op, ttl, FindSpec(c, s.bucket, op.p, op.n, op.now, ttl), x);
      OwnObject(s, op, t, ttl, FindSpec(c, s.bucket, op.p, op.n, op.now, ttl), x);
    } else {
      var kind := OneKeyAtMost(s, op, timeout);
      if ChildKey(c, op.p, op.n, kind) == ChildKey(c, n.parent, n.name, File) {
        KeysDistinct(c, op.p, op.n, kind, n.parent, n.name, File);
      }
    }
  }

  lemma FoundAgain(s: State, op: Op, ttl: Time, f: Cache, x: InodeID)
    requires Tree(s.cache) && NoDirModes(s.bucket) && IsFile(s, x) && LooksUp(s.cache, op, x)
    requires f == FindSpec(s.cache, s.bucket, op.p, op.n, op.now, ttl)
    ensures x in f.nodes && !IsDirMode(f.nodes[x].mode) && LooksUp(f, op, x)
  {
    ChildNames(s.cache, op.p, op.n);
    RevalidatedNode(s.cache, s.bucket, x, ttl);
  }

  lemma OwnObject(s: State, op: Op, t: State, ttl: Time, f: Cache, x: InodeID)
    requires op.p in s.cache.nodes && f == FindSpec(s.cache, s.bucket, op.p, op.n, op.now, ttl)
    requires x in f.nodes && !IsDirMode(f.nodes[x].mode) && LooksUp(f, op, x) && x in t.cache.nodes
    requires op.Find? ==> t == s.(cache := f)
    requires op.Create? ==> t == CreateSpec(s, op.p, op.n, op.mode, op.now, ttl)
    requires op.Remove? ==> t == RemoveSpec(s, op.p, op.n, op.now, ttl)
    ensures t.bucket == s.bucket
  {
    assert Below(f, x, x);
  }

  // ---- Whole histories -----------------------------------------------------------------

  // A dentry that is cached at two times is cached in between.
  lemma StaysBetween(states: seq<State>, events: seq<Event>, timeout: Time, i: nat, k: nat, j: nat, x: InodeID)
    requires Happened(states, events, timeout) && Sound(states[0]) && i <= k <= j < |states|
    requires IsFile(states[i], x) && x in states[j].cache.nodes
    ensures IsFile(states[k], x) && FullPath(states[k].cache, x) == FullPath(states[i].cache, x)
  {
    EveryHistory(states, events, timeout, i, k);
    EveryHistory(states, events, timeout, k, j);
    IdsBelowNext(states[i].cache);
    LifePath(states[i].cache, states[k].cache, x);
  }

  ghost predicate HasSize(states: seq<State>, k: nat, x: InodeID, n: nat)
    requires k < |states|
  {
    x in states[k].cache.nodes && states[k].cache.nodes[x].size == n
  }

  // Event k leaves the file with size n.
  ghost predicate LeavesSize(states: seq<State>, events: seq<Event>, k: nat, x: InodeID, n: nat)
    requires k < |events| && k < |states|
  {
    x in states[k].cache.nodes && SizeAfter(states[k], events[k], x) == n
  }

  // Over every history a file keeps its cached size exactly as long as the events
  // leave it.
  lemma {:induction false} SizeHistory(states: seq<State>, events: seq<Event>, timeout: Time, i: nat, j: nat,
                                       x: InodeID, n: nat)
    requires Happened(states, events, timeout) && Sound(states[0]) && i <= j < |states|
    requires IsFile(states[i], x) && HasSize(states, i, x, n) && x in states[j].cache.nodes
    ensures (forall k :: i <= k <= j ==> HasSize(states, k, x, n))
            <==> forall k :: i <= k < j ==> LeavesSize(states, events, k, x, n)
    decreases j
  {
    if i < j {
      StaysBetween(states, events, timeout, i, j - 1, j, x);
      SizeHistory(states, events, timeout, i, j - 1, x, n);
      EveryHistory(states, events, timeout, j - 1, j - 1);
      assert StepAt(states, events, j - 1, timeout);
      EventSize(states[j - 1], events[j - 1], states[j], timeout, x);
      assert LeavesSize(states, events, j - 1, x, n) <==> HasSize(states, j, x, n);
    }
  }

  ghost predicate HasObject(states: seq<State>, k: nat, path: Key, stream: Bytes)
    requires k < |states|
  {
    ObjectAt(states[k].bucket, path) == Some(stream)
  }

  // Event k leaves the object at path with this content.
  ghost predicate LeavesObject(states: seq<State>, events: seq<Event>, k: nat, path: Key, stream: Bytes)
    requires k < |events| && k < |states|
  {
    ObjectAfter(states[k], events[k], path) == Some(stream)
  }

  // ... and its object exactly as long as neither a release nor others replace it.
  lemma {:induction false} ObjectHistory(states: seq<State>, events: seq<Event>, timeout: Time, i: nat, j: nat,
                                         x: InodeID, path: Key, stream: Bytes)
    requires Happened(states, events, timeout) && Sound(states[0]) && i <= j < |states|
    requires IsFile(states[i], x) && x in states[j].cache.nodes && path == FullPath(states[i].cache, x)
    requires HasObject(states, i, path, stream)
    ensures (forall k :: i <= k <= j ==> HasObject(states, k, path, stream))
            <==> forall k :: i <= k < j ==> LeavesObject(states, events, k, path, stream)
    decreases j
  {
    if i < j {
      StaysBetween(states, events, timeout, i, j - 1, j, x);
      ObjectHistory(states, events, timeout, i, j - 1, x, path, stream);
      EveryHistory(states, events, timeout, j - 1, j - 1);
      assert StepAt(states, events, j - 1, timeout);
      EventObject(states[j - 1], events[j - 1], states[j], timeout, x);
      assert LeavesObject(states, events, j - 1, path, stream) <==> HasObject(states, j, path, stream);
    }
  }

  // ---- Opened later ----------------------------------------------------------------------

  // What a handle that is opened on x now reads as long as the object stays.
  ghost function OpenedReads(s: State, x: InodeID, off: nat, size: nat): Bytes
    requires x in s.cache.nodes
  {
    ReadOf(s.bucket.objects, FullPath(s.cache, x), s.cache.nodes[x].size, off, size)
  }

  // Every read of such a handle returns what the stream has there.
  ghost predicate ShowsStream(s: State, x: InodeID, stream: Bytes)
    requires x in s.cache.nodes
  {
    forall off: nat, size: nat {:trigger OpenedReads(s, x, off, size)} :: off < U64 && size < U64 ==>
      OpenedReads(s, x, off, size) == Slice(stream, off, size)
  }

  lemma ShowsExact(s: State, x: InodeID, stream: Bytes)
    requires x in s.cache.nodes && |stream| < U64 && ObjectAt(s.bucket, FullPath(s.cache, x)) == Some(stream)
    ensures ShowsStream(s, x, stream) <==> |stream| <= s.cache.nodes[x].size
  {
    var n := s.cache.nodes[x].size;
    ClampExact(stream, n);
    if ShowsStream(s, x, stream) {
      forall off: nat, size: nat | off < U64 && size < U64
        ensures Slice(stream, off, Clamp(off, size, n)) == Slice(stream, off, size)
      {
        assert OpenedReads(s, x, off, size) == Slice(stream, off, size);
      }
    }
  }

  // A stream is released, and then anything happens that keeps the object. A
  // handle opened after that reads the stream exactly when the cache takes the
  // file to be at least as long.
  lemma OpenedLater(states: seq<State>, events: seq<Event>, timeout: Time, r: nat, j: nat, x: InodeID, stream: Bytes)
    requires Happened(states, events, timeout) && Sound(states[0]) && r < j < |states|
    requires IsFile(states[r], x) && x in states[j].cache.nodes && |stream| < U64
    requires events[r] == Release(FullPath(states[r].cache, x), stream)
    requires forall k :: r < k < j ==> LeavesObject(states, events, k, FullPath(states[r].cache, x), stream)
    ensures ObjectAt(states[j].bucket, FullPath(states[j].cache, x)) == Some(stream)
    ensures ShowsStream(states[j], x, stream) <==> |stream| <= states[j].cache.nodes[x].size
  {
    var path := FullPath(states[r].cache, x);
    assert StepAt(states, events, r, timeout);
    StaysBetween(states, events, timeout, r, r + 1, j, x);
    StaysBetween(states, events, timeout, r, j, j, x);
    assert HasObject(states, r + 1, path, stream);
    ObjectHistory(states, events, timeout, r + 1, j, x, path, stream);
    assert HasObject(states, j, path, stream);
    ShowsExact(states[j], x, stream);
  }

  // The cache takes the file to be at least n bytes long after event k.
  ghost predicate LeavesAtLeast(states: seq<State>, events: seq<Event>, k: nat, x: InodeID, n: nat)
    requires k < |events| && k < |states|
  {
    x in states[k].cache.nodes && n <= SizeAfter(states[k], events[k], x)
  }

  ghost predicate ShowsAt(states: seq<State>, k: nat, x: InodeID, stream: Bytes)
    requires k < |states|
  {
    x in states[k].cache.nodes && ShowsStream(states[k], x, stream)
  }

  // So the stream can be read by whoever opens the file, at all times, exactly
  // as long as no event leaves a smaller size.
  lemma OpenedAnyTime(states: seq<State>, events: seq<Event>, timeout: Time, r: nat, j: nat, x: InodeID, stream: Bytes)
    requires Happened(states, events, timeout) && Sound(states[0]) && r < j < |states|
    requires IsFile(states[r], x) && x in states[j].cache.nodes && |stream| < U64
    requires events[r] == Release(FullPath(states[r].cache, x), stream)
    requires forall k :: r < k < j ==> LeavesObject(states, events, k, FullPath(states[r].cache, x), stream)
    ensures (forall k :: r < k <= j ==> ShowsAt(states, k, x, stream))
            <==> forall k :: r <= k < j ==> LeavesAtLeast(states, events, k, x, |stream|)
  {
    forall k | r <= k < j ensures LeavesAtLeast(states, events, k, x, |stream|) <==> ShowsAt(states, k + 1, x, stream) {
      StaysBetween(states, events, timeout, r, k, j, x);
      StaysBetween(states, events, timeout, r, k + 1, j, x);
      EveryHistory(states, events, timeout, k, k);
      assert StepAt(states, events, k, timeout);
      EventSize(states[k], events[k], states[k + 1], timeout, x);
      OpenedLater(states, events, timeout, r, k + 1, x, stream);
    }
    if forall k :: r < k <= j ==> ShowsAt(states, k, x, stream) {
      forall k | r <= k < j ensures LeavesAtLeast(states, events, k, x, |stream|) {
        assert ShowsAt(states, k + 1, x, stream);
      }
    } else {
      var k :| r < k <= j && !ShowsAt(states, k, x, stream);
      assert !LeavesAtLeast(states, events, k - 1, x, |stream|);
    }
  }

  // In particular a handle reads the stream when the events since the last write
  // left the size that the write recorded.
  lemma WrittenAndOpened(states: seq<State>, events: seq<Event>, timeout: Time, w: nat, r: nat, j: nat, x: InodeID,
                         stream: Bytes)
    requires Happened(states, events, timeout) && Sound(states[0]) && w < j < |states| && r < j
    requires IsFile(states[w], x) && IsFile(states[r], x) && x in states[j].cache.nodes && |stream| < U64
    requires events[w] == Write(x, |stream|) && events[r] == Release(FullPath(states[r].cache, x), stream)
    requires forall k :: r < k < j ==> LeavesObject(states, events, k, FullPath(states[r].cache, x), stream)
    requires forall k :: w < k < j ==> LeavesSize(states, events, k, x, |stream|)
    ensures ShowsStream(states[j], x, stream)
  {
    assert StepAt(states, events, w, timeout);
    StaysBetween(states, events, timeout, w, w + 1, j, x);
    assert HasSize(states, w + 1, x, |stream|);
    SizeHistory(states, events, timeout, w + 1, j, x, |stream|);
    assert HasSize(states, j, x, |stream|);
    OpenedLater(states, events, timeout, r, j, x, stream);
  }
}

// What a lookup, a create and a remove through the mount do to the cache and
// to the bucket, as functions of both.
module Lookup {
  import opened Basics
  import opened Listing
  import opened DentryTree
  import opened Merge
  import opened Paths
  import opened SequentialStream

  // The cached inodes' bits for an inode whose time is up: the mode that the
  // store reports, or a default one.
  function RefreshedMode(isDir: bool, reported: Option<Mode>): Mode {
    match reported
    case Some(m) => m & 0x1FF
    case None => if isDir then S_IFDIR | 0x1ED else 0x1A4
  }

  // The permissions are those that the store reports, else 0755 for a directory
  // and 0644 for a file. No other bit is left but the one of a directory without a
  // reported mode.
  lemma RefreshedModeBits(isDir: bool, reported: Option<Mode>)
    ensures RefreshedMode(isDir, reported) & 0x1FF
            == if reported.Some? then reported.value & 0x1FF else if isDir then 0x1ED else 0x1A4
    ensures RefreshedMode(isDir, reported) & !0x1FF == if isDir && reported.None? then 0x4000 else 0
  {}

  // The reported mode is cut to its permission bits, so a directory stays a
  // directory exactly when the store reports no mode for it.
  lemma KindStable(isDir: bool, reported: Option<Mode>)
    ensures IsDirMode(RefreshedMode(isDir, reported)) == isDir <==> !(isDir && reported.Some?)
  {}

  // A bucket: its objects, and the modes that the store reports for some of them.
  datatype Bucket = Bucket(objects: map<Key, Bytes>, modes: map<Key, Mode>, junk: nat)

  ghost function Keys(b: Bucket): set<Key> {
    b.objects.Keys
  }

  // No mode is reported for directory keys.
  ghost predicate NoDirModes(b: Bucket) {
    forall k :: k in b.modes ==> k != "" && !IsCommonPrefix(k)
  }

  function Reported(b: Bucket, k: Key): Option<Mode> {
    if k in b.modes then Some(b.modes[k]) else None
  }

  function SetTtl(c: Cache, x: InodeID, ttl: Time): Cache
    requires x in c.nodes
  {
    SetNode(c, x, c.nodes[x].(ttl := ttl))
  }

  // ---- Lookup -------------------------------------------------------------------

  // The key of a cached dentry's object.
  ghost function OwnKey(c: Cache, x: InodeID): Key
    requires x in c.nodes
  {
    if IsDirMode(c.nodes[x].mode) then DirPrefix(c, x) else FullPath(c, x)
  }

  // A cached dentry whose time is up is asked about again. A directory may be
  // without an object; a file without one keeps its place with whatever size
  // the empty answer carries.
  ghost function Revalidated(c: Cache, b: Bucket, x: InodeID, ttl: Time): Cache
    requires x in c.nodes
  {
    var n := c.nodes[x];
    var key := OwnKey(c, x);
    if key !in b.objects && IsDirMode(n.mode) then SetTtl(c, x, ttl)
    else
      var found := key in b.objects;
      SetNode(c, x, n.(size := if found then |b.objects[key]| else b.junk,
                       mode := RefreshedMode(IsDirMode(n.mode), if found then Reported(b, key) else None),
                       ttl := ttl))
  }

  // A name that is not cached is looked up in the bucket: as an object, as a
  // directory placeholder, as a prefix of other keys.
  ghost function Fetched(c: Cache, b: Bucket, p: InodeID, n: string, ttl: Time): Cache
    requires p in c.nodes
  {
    match KindAt(Keys(b), DirPrefix(c, p), n)
    case None => c
    case Some(kind) =>
      var key := ChildKey(c, p, n, kind);
      var d :=
        if key in b.objects then Attach(c, p, n, ObjMode(kind.Dir?, Reported(b, key)), |b.objects[key]|)
        else Attach(c, p, n, c.nodes[p].mode, 0);
      SetTtl(d, c.next, ttl)
  }

  ghost function FindSpec(c: Cache, b: Bucket, p: InodeID, n: string, now: Time, ttl: Time): Cache
    requires p in c.nodes
  {
    if n in c.nodes[p].children then
      var x := c.nodes[p].children[n];
      if x in c.nodes && c.nodes[x].ttl < now then Revalidated(c, b, x, ttl) else c
    else Fetched(c, b, p, n, ttl)
  }

  // The calls of the probes for a name: for its object, for the placeholder, and
  // for keys that go on after the placeholder, up to the first that succeeds.
  function MissCalls(keys: set<Key>, key: Key): seq<Call> {
    if key in keys then [HeadFile(key)]
    else if key + "/" in keys then [HeadFile(key), HeadFile(key + "/")]
    else [HeadFile(key), HeadFile(key + "/"), Call.ListObjects(key + "/", false, "")]
  }

  // The calls of a lookup.
  ghost function FindCalls(c: Cache, b: Bucket, p: InodeID, n: string, now: Time): seq<Call>
    requires p in c.nodes
  {
    if n !in c.nodes[p].children then MissCalls(Keys(b), DirPrefix(c, p) + n)
    else if Fresh(c, p, n, now) || c.nodes[p].children[n] !in c.nodes then []
    else [HeadFile(OwnKey(c, c.nodes[p].children[n]))]
  }

  // Name n of directory p is cached and its time is not up.
  ghost predicate Fresh(c: Cache, p: InodeID, n: string, now: Time) {
    p in c.nodes && n in c.nodes[p].children && c.nodes[p].children[n] in c.nodes
    && now <= c.nodes[c.nodes[p].children[n]].ttl
  }

  ghost function ChildKind(c: Cache, p: InodeID, n: string): Option<Kind> {
    if p in c.nodes && n in c.nodes[p].children && c.nodes[p].children[n] in c.nodes
    then Some(KindOf(c.nodes[c.nodes[p].children[n]].mode))
    else None
  }

  // The three probes decide the kind: an object of the name, a placeholder,
  // a key that goes on after the placeholder.
  lemma ThreeProbes(keys: set<Key>, prefix: Key, n: string)
    ensures KindAt(keys, prefix, n) ==
            if prefix + n in keys then Some(File)
            else if prefix + n + "/" in keys || exists k :: k in keys && prefix + n + "/" < k then Some(Dir)
            else None
  {
    var e := prefix + n + "/";
    if AnyUnder(keys, e) {
      var k :| k in keys && e <= k;
      if k != e { assert e < k; }
    }
    if k :| k in keys && (k == e || e < k) {
      assert e <= k;
    }
  }

  // A directory without a placeholder takes the mode of its parent ...
  lemma FetchedVirtual(c: Cache, b: Bucket, p: InodeID, n: string, ttl: Time)
    requires p in c.nodes && KindAt(Keys(b), DirPrefix(c, p), n) == Some(Dir)
    requires DirPrefix(c, p) + n + "/" !in b.objects
    ensures Fetched(c, b, p, n, ttl) == SetTtl(Attach(c, p, n, c.nodes[p].mode, 0), c.next, ttl)
  {}

  // ... an object has the size and, within its kind, the mode that it is listed with.
  lemma FetchedObject(c: Cache, b: Bucket, p: InodeID, n: string, ttl: Time, isDir: bool)
    requires p in c.nodes && (isDir <==> DirPrefix(c, p) + n !in b.objects)
    requires isDir ==> DirPrefix(c, p) + n + "/" in b.objects
    ensures var key := if isDir then DirPrefix(c, p) + n + "/" else DirPrefix(c, p) + n;
            Fetched(c, b, p, n, ttl)
            == SetTtl(Attach(c, p, n, ObjMode(isDir, Reported(b, key)), |b.objects[key]|), c.next, ttl)
  {
    ThreeProbes(Keys(b), DirPrefix(c, p), n);
  }

  // What a fetch attaches.
  lemma FetchedKind(c: Cache, b: Bucket, p: InodeID, n: string, ttl: Time)
    requires Tree(c) && p in c.nodes && IsDirMode(c.nodes[p].mode) && n !in c.nodes[p].children
    ensures ChildKind(Fetched(c, b, p, n, ttl), p, n) == KindAt(Keys(b), DirPrefix(c, p), n)
  {
    IdsBelowNext(c);
    ObjModeKind(true, Reported(b, ChildKey(c, p, n, Dir)));
    ObjModeKind(false, Reported(b, ChildKey(c, p, n, File)));
  }

  lemma RevalidatedKeeps(c: Cache, b: Bucket, x: InodeID, ttl: Time)
    requires Tree(c) && x in c.nodes && NoDirModes(b)
    ensures Tree(Revalidated(c, b, x, ttl)) && SameShape(c, Revalidated(c, b, x, ttl))
    ensures Revalidated(c, b, x, ttl).next == c.next
    ensures forall r :: r in c.nodes ==>
              IsDirMode(Revalidated(c, b, x, ttl).nodes[r].mode) == IsDirMode(c.nodes[r].mode)
              && Revalidated(c, b, x, ttl).nodes[r].synced == c.nodes[r].synced
  {
    var d := Revalidated(c, b, x, ttl);
    RevalidatedNode(c, b, x, ttl);
    SetNodeTree(c, x, d.nodes[x]);
  }

  // Only the dentry itself is new, and its place and kind are not.
  lemma RevalidatedNode(c: Cache, b: Bucket, x: InodeID, ttl: Time)
    requires Tree(c) && x in c.nodes && NoDirModes(b)
    ensures var d := Revalidated(c, b, x, ttl);
            && x in d.nodes && d == SetNode(c, x, d.nodes[x])
            && SamePlace(c.nodes[x], d.nodes[x]) && d.nodes[x].synced == c.nodes[x].synced
            && IsDirMode(d.nodes[x].mode) == IsDirMode(c.nodes[x].mode)
  {
    var key := OwnKey(c, x);
    var isDir := IsDirMode(c.nodes[x].mode);
    PathRoundTrip(c, x);
    if x != ROOT { assert isDir ==> IsCommonPrefix(key); }
    KindStable(isDir, if key in b.objects then Reported(b, key) else None);
  }

  lemma FetchedTree(c: Cache, b: Bucket, p: InodeID, n: string, ttl: Time)
    requires Tree(c) && p in c.nodes && IsDirMode(c.nodes[p].mode) && n !in c.nodes[p].children && ValidName(n)
    ensures Tree(Fetched(c, b, p, n, ttl)) && Stays(c, Fetched(c, b, p, n, ttl))
  {
    match KindAt(Keys(b), DirPrefix(c, p), n)
    case None => forall r | r in c.nodes ensures r != ROOT ==> c.nodes[r].parent in c.nodes { assert Placed(c, r); }
    case Some(kind) =>
      var key := ChildKey(c, p, n, kind);
      var mode := if key in b.objects then ObjMode(kind.Dir?, Reported(b, key)) else c.nodes[p].mode;
      var size := if key in b.objects then |b.objects[key]| else 0;
      AttachTree(c, p, n, mode, size);
      AttachStays(c, p, n, mode, size);
      var d := Attach(c, p, n, mode, size);
      IdsBelowNext(c);
      SetNodeTree(d, c.next, d.nodes[c.next].(ttl := ttl));
  }

  lemma FindTree(c: Cache, b: Bucket, p: InodeID, n: string, now: Time, ttl: Time)
    requires Tree(c) && p in c.nodes && IsDirMode(c.nodes[p].mode) && ValidName(n) && NoDirModes(b)
    ensures Tree(FindSpec(c, b, p, n, now, ttl)) && Stays(c, FindSpec(c, b, p, n, now, ttl))
    ensures c.nodes.Keys <= FindSpec(c, b, p, n, now, ttl).nodes.Keys
  {
    IdsBelowNext(c);
    if n in c.nodes[p].children {
      ChildNames(c, p, n);
      RevalidatedKeeps(c, b, c.nodes[p].children[n], ttl);
      forall r | r in c.nodes ensures r != ROOT ==> c.nodes[r].parent in c.nodes { assert Placed(c, r); }
    } else {
      FetchedTree(c, b, p, n, ttl);
    }
  }

  // ---- Create and remove ---------------------------------------------------------

  datatype State = State(cache: Cache, bucket: Bucket)

  datatype RemoveResult = Removed | Absent | NotEmpty

  ghost function CreateSpec(s: State, p: InodeID, n: string, mode: Mode, now: Time, ttl: Time): State
    requires p in s.cache.nodes && p in FindSpec(s.cache, s.bucket, p, n, now, ttl).nodes
  {
    var f := FindSpec(s.cache, s.bucket, p, n, now, ttl);
    if n in f.nodes[p].children then s.(cache := f)
    else
      var key := ChildKey(f, p, n, KindOf(mode));
      State(Attach(f, p, n, mode, 0), s.bucket.(objects := s.bucket.objects[key := []]))
  }

  ghost function RemoveOutcome(c: Cache, p: InodeID, n: string): RemoveResult
    requires p in c.nodes
  {
    if n !in c.nodes[p].children || c.nodes[p].children[n] !in c.nodes then Absent
    else
      var x := c.nodes[c.nodes[p].children[n]];
      if IsDirMode(x.mode) && x.children != map[] then NotEmpty else Removed
  }

  ghost function RemovedKey(c: Cache, p: InodeID, n: string): Key
    requires p in c.nodes && n in c.nodes[p].children && c.nodes[p].children[n] in c.nodes
  {
    ChildKey(c, p, n, KindOf(c.nodes[c.nodes[p].children[n]].mode))
  }

  ghost function AfterRemoval(s: State, p: InodeID, n: string): State
    requires p in s.cache.nodes && n in s.cache.nodes[p].children && s.cache.nodes[p].children[n] in s.cache.nodes
  {
    State(Detach(s.cache, p, n), s.bucket.(objects := s.bucket.objects - {RemovedKey(s.cache, p, n)}))
  }

  ghost function RemoveSpec(s: State, p: InodeID, n: string, now: Time, ttl: Time): State
    requires p in s.cache.nodes && p in FindSpec(s.cache, s.bucket, p, n, now, ttl).nodes
  {
    var f := FindSpec(s.cache, s.bucket, p, n, now, ttl);
    if RemoveOutcome(f, p, n) != Removed then s.(cache := f) else AfterRemoval(s.(cache := f), p, n)
  }

  // The calls of a creation and of a removal: those of the lookup, and one more
  // if there is something to do.
  ghost function CreateCalls(s: State, p: InodeID, n: string, mode: Mode, now: Time, ttl: Time): seq<Call>
    requires p in s.cache.nodes
  {
    var f := FindSpec(s.cache, s.bucket, p, n, now, ttl);
    FindCalls(s.cache, s.bucket, p, n, now)
    + if p !in f.nodes || n in f.nodes[p].children then [] else [PutFile(ChildKey(f, p, n, KindOf(mode)), [])]
  }

  ghost function DeleteCalls(f: Cache, p: InodeID, n: string): seq<Call> {
    if p in f.nodes && RemoveOutcome(f, p, n) == Removed then [DeleteFile(RemovedKey(f, p, n))] else []
  }

  ghost function RemoveCalls(s: State, p: InodeID, n: string, now: Time, ttl: Time): seq<Call>
    requires p in s.cache.nodes
  {
    FindCalls(s.cache, s.bucket, p, n, now) + DeleteCalls(FindSpec(s.cache, s.bucket, p, n, now, ttl), p, n)
  }
}

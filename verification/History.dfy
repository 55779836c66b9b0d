// Whole histories of the mount: any sequence of lookups, creations, removals,
// refreshes, writes and releases, and of changes that others make to the bucket.
module History {
  import opened Basics
  import opened DentryTree
  import opened Merge
  import opened Sweep
  import opened Refresh
  import opened Paths
  import opened Lookup
  import opened Coherence
  import opened Level
  import opened Listing

  datatype Event =
    | Mount(op: Op)
    | Refresh(d: InodeID, max: nat, now: Time, ttl: Time, m: Cache)
    | Write(ino: InodeID, size: nat)
    | Release(path: Key, stream: Bytes)
    | Outside(objects: map<Key, Bytes>)

  // What an event does. The times of the events of a history may come in any
  // order, which is more than a clock allows.
  ghost predicate Follows(s: State, e: Event, t: State, timeout: Time) {
    match e
    case Mount(op) =>
      op.p in s.cache.nodes && IsDirMode(s.cache.nodes[op.p].mode) && ValidName(op.n) && t == Step(s, op, timeout)
    case Refresh(d, max, now, ttl, m) =>
      && d in s.cache.nodes && IsDirMode(s.cache.nodes[d].mode) && !Live(s.cache, d, now) && ttl == now + timeout
      && t.bucket == s.bucket && RefreshedWith(s.cache, t.cache, d, s.bucket, max, ttl, m)
    case Write(ino, size) =>
      ino in s.cache.nodes && t == s.(cache := SetNode(s.cache, ino, s.cache.nodes[ino].(size := size)))
    case Release(path, stream) =>
      stream != [] && t == s.(bucket := s.bucket.(objects := s.bucket.objects[path := stream]))
    case Outside(objects) =>
      t == s.(bucket := s.bucket.(objects := objects))
  }

  ghost predicate StepAt(states: seq<State>, events: seq<Event>, i: nat, timeout: Time)
    requires i < |events| < |states|
  {
    Follows(states[i], events[i], states[i + 1], timeout)
  }

  ghost predicate Happened(states: seq<State>, events: seq<Event>, timeout: Time) {
    |states| == |events| + 1 && forall i :: 0 <= i < |events| ==> StepAt(states, events, i, timeout)
  }

  // What holds between the events of every history.
  ghost predicate Sound(s: State) {
    Tree(s.cache) && FilesClear(s.cache) && NoDirModes(s.bucket)
  }

  // A dentry that stays has the same name, parent and kind, and ids are not
  // used again.
  ghost predicate ForLife(c: Cache, d: Cache) {
    && c.next <= d.next
    && (forall r :: r in d.nodes && r !in c.nodes ==> c.next <= r)
    && (forall r :: r in c.nodes && r in d.nodes ==> SameLife(c.nodes[r], d.nodes[r]))
  }

  predicate SameLife(m: Node, n: Node) {
    m.name == n.name && m.parent == n.parent && (IsDirMode(m.mode) <==> IsDirMode(n.mode))
  }

  lemma ForLifeTransitive(c: Cache, d: Cache, e: Cache)
    requires Tree(c) && ForLife(c, d) && ForLife(d, e)
    ensures ForLife(c, e)
  {
    IdsBelowNext(c);
  }

  lemma FindForLife(c: Cache, b: Bucket, p: InodeID, n: string, now: Time, ttl: Time)
    requires Tree(c) && p in c.nodes && IsDirMode(c.nodes[p].mode) && ValidName(n) && NoDirModes(b)
    ensures ForLife(c, FindSpec(c, b, p, n, now, ttl))
    ensures FilesClear(c) ==> FilesClear(FindSpec(c, b, p, n, now, ttl))
  {
    if n in c.nodes[p].children {
      ChildNames(c, p, n);
      var x := c.nodes[p].children[n];
      RevalidatedKeeps(c, b, x, ttl);
      RevalidatedNode(c, b, x, ttl);
    } else {
      FetchForLife(c, b, p, n, ttl);
    }
  }

  lemma FetchForLife(c: Cache, b: Bucket, p: InodeID, n: string, ttl: Time)
    requires Tree(c) && p in c.nodes
    ensures ForLife(c, Fetched(c, b, p, n, ttl))
    ensures FilesClear(c) ==> FilesClear(Fetched(c, b, p, n, ttl))
  {
    IdsBelowNext(c);
  }

  lemma AttachForLife(c: Cache, p: InodeID, n: string, mode: Mode)
    requires Tree(c) && p in c.nodes
    ensures ForLife(c, Attach(c, p, n, mode, 0))
    ensures FilesClear(c) ==> FilesClear(Attach(c, p, n, mode, 0))
  {
    IdsBelowNext(c);
  }

  lemma FindKeeps(s: State, p: InodeID, n: string, now: Time, ttl: Time, t: State)
    requires Sound(s) && p in s.cache.nodes && IsDirMode(s.cache.nodes[p].mode) && ValidName(n)
    requires t == s.(cache := FindSpec(s.cache, s.bucket, p, n, now, ttl))
    ensures Sound(t) && ForLife(s.cache, t.cache)
  {
    FindTree(s.cache, s.bucket, p, n, now, ttl);
    FindForLife(s.cache, s.bucket, p, n, now, ttl);
  }

  lemma CreateKeeps(s: State, p: InodeID, n: string, mode: Mode, now: Time, ttl: Time, t: State)
    requires Sound(s) && p in s.cache.nodes && IsDirMode(s.cache.nodes[p].mode) && ValidName(n)
    requires p in FindSpec(s.cache, s.bucket, p, n, now, ttl).nodes && t == CreateSpec(s, p, n, mode, now, ttl)
    ensures Sound(t) && ForLife(s.cache, t.cache)
  {
    var c := s.cache;
    var f := FindSpec(c, s.bucket, p, n, now, ttl);
    FindTree(c, s.bucket, p, n, now, ttl);
    FindForLife(c, s.bucket, p, n, now, ttl);
    if n !in f.nodes[p].children {
      FindNothing(c, s.bucket, p, n, now, ttl);
      AttachTree(c, p, n, mode, 0);
      AttachForLife(c, p, n, mode);
    }
  }

  lemma RemoveKeeps(s: State, p: InodeID, n: string, now: Time, ttl: Time, t: State)
    requires Sound(s) && p in s.cache.nodes && IsDirMode(s.cache.nodes[p].mode) && ValidName(n)
    requires p in FindSpec(s.cache, s.bucket, p, n, now, ttl).nodes && t == RemoveSpec(s, p, n, now, ttl)
    ensures Sound(t) && ForLife(s.cache, t.cache)
  {
    var f := FindSpec(s.cache, s.bucket, p, n, now, ttl);
    FindTree(s.cache, s.bucket, p, n, now, ttl);
    FindForLife(s.cache, s.bucket, p, n, now, ttl);
    DetachTree(f, p, n);
    RemoveForLife(s.cache, f, p, n);
  }

  lemma StepCases(s: State, op: Op, t: State, timeout: Time, ttl: Time)
    requires t == Step(s, op, timeout) && ttl == op.now + timeout && op.p in s.cache.nodes
    requires op.p in FindSpec(s.cache, s.bucket, op.p, op.n, op.now, ttl).nodes
    ensures op.Find? ==> t == s.(cache := FindSpec(s.cache, s.bucket, op.p, op.n, op.now, ttl))
    ensures op.Create? ==> t == CreateSpec(s, op.p, op.n, op.mode, op.now, ttl)
    ensures op.Remove? ==> t == RemoveSpec(s, op.p, op.n, op.now, ttl)
  {
    match op {
      case Find(p, n, now) =>
      case Create(p, n, mode, now) => assert t == CreateSpec(s, p, n, mode, now, ttl);
      case Remove(p, n, now) => assert t == RemoveSpec(s, p, n, now, ttl);
    }
  }

  lemma MountKeeps(s: State, op: Op, t: State, timeout: Time)
    requires Sound(s) && op.p in s.cache.nodes && IsDirMode(s.cache.nodes[op.p].mode) && ValidName(op.n)
    requires t == Step(s, op, timeout)
    ensures Sound(t) && ForLife(s.cache, t.cache)
  {
    var ttl := op.now + timeout;
    DirStays(s.cache, s.bucket, op.p, op.n, op.now, ttl);
    StepCases(s, op, t, timeout, ttl);
    match op
    case Find(p, n, now) => FindKeeps(s, p, n, now, ttl, t);
    case Create(p, n, mode, now) => CreateKeeps(s, p, n, mode, now, ttl, t);
    case Remove(p, n, now) => RemoveKeeps(s, p, n, now, ttl, t);
  }

  lemma RemoveForLife(c: Cache, f: Cache, p: InodeID, n: string)
    requires Tree(c) && Tree(f) && p in f.nodes && ForLife(c, f)
    ensures ForLife(c, Detach(f, p, n))
    ensures FilesClear(f) ==> FilesClear(Detach(f, p, n))
  {}

  lemma RefreshForLife(c: Cache, m: Cache, d: InodeID, info: Info, ttl: Time)
    requires Tree(c) && MergedBy(c, m, d, info)
    ensures ForLife(c, Swept(m, d, ttl))
  {}

  lemma RefreshSound(s: State, t: State, d: InodeID, max: nat, ttl: Time, m: Cache)
    requires Sound(s) && d in s.cache.nodes && IsDirMode(s.cache.nodes[d].mode) && t.bucket == s.bucket
    requires RefreshedWith(s.cache, t.cache, d, s.bucket, max, ttl, m)
    ensures Sound(t) && ForLife(s.cache, t.cache)
  {
    var info := PagedInfo(s.bucket, DirPrefix(s.cache, d), max);
    RefreshTree(s.cache, t.cache, d, s.bucket, max, ttl, m);
    RefreshClearsFiles(s.cache, m, d, info, ttl);
    RefreshForLife(s.cache, m, d, info, ttl);
  }

  lemma EventKeeps(s: State, e: Event, t: State, timeout: Time)
    requires Sound(s) && Follows(s, e, t, timeout)
    ensures Sound(t) && ForLife(s.cache, t.cache)
  {
    IdsBelowNext(s.cache);
    match e
    case Mount(op) => MountKeeps(s, op, t, timeout);
    case Refresh(d, max, _, ttl, m) => RefreshSound(s, t, d, max, ttl, m);
    case Write(ino, size) =>
      SetNodeTree(s.cache, ino, s.cache.nodes[ino].(size := size));
    case Release(_, _) =>
    case Outside(_) =>
  }

  // Over every history the dentries form a tree in which only directories have
  // children, and no file carries a mark; and a dentry that is there at two
  // times was the same file or the same directory, at the same path, all along.
  lemma {:induction false} EveryHistory(states: seq<State>, events: seq<Event>, timeout: Time, i: nat, j: nat)
    requires Happened(states, events, timeout) && Sound(states[0]) && i <= j < |states|
    ensures Sound(states[i]) && Sound(states[j]) && ForLife(states[i].cache, states[j].cache)
    decreases j
  {
    if j > 0 {
      EveryHistory(states, events, timeout, if i < j then i else j - 1, j - 1);
      assert StepAt(states, events, j - 1, timeout);
      EventKeeps(states[j - 1], events[j - 1], states[j], timeout);
      if i < j { ForLifeTransitive(states[i].cache, states[j - 1].cache, states[j].cache); }
    }
  }

  lemma PathAndKindForLife(states: seq<State>, events: seq<Event>, timeout: Time, i: nat, j: nat, r: InodeID)
    requires Happened(states, events, timeout) && Sound(states[0]) && i <= j < |states|
    requires r in states[i].cache.nodes && r in states[j].cache.nodes
    ensures FullPath(states[i].cache, r) == FullPath(states[j].cache, r)
    ensures IsDirMode(states[i].cache.nodes[r].mode) == IsDirMode(states[j].cache.nodes[r].mode)
  {
    EveryHistory(states, events, timeout, i, j);
    LifePath(states[i].cache, states[j].cache, r);
  }

  lemma LifePath(c: Cache, d: Cache, r: InodeID)
    requires Tree(c) && Tree(d) && ForLife(c, d) && r in c.nodes && r in d.nodes
    ensures FullPath(c, r) == FullPath(d, r)
  {
    forall x | x in c.nodes && x in d.nodes ensures x != ROOT ==> c.nodes[x].parent in d.nodes { assert Placed(d, x); }
    PathForLife(c, d, r);
  }

  // Whatever happened before, and however often the directory was refreshed: a
  // refresh leaves the children that are files, or that were not cached, in
  // agreement with the bucket, each name that is listed and no other.
  lemma RefreshedFilesAgree(states: seq<State>, events: seq<Event>, timeout: Time, i: nat, n: string)
    requires Happened(states, events, timeout) && Sound(states[0]) && i < |events| && events[i].Refresh? && ValidName(n)
    requires ChildKind(states[i].cache, events[i].d, n) != Some(Dir)
    ensures var d, b, s := events[i].d, states[i].bucket, states[i + 1].cache;
            && d in s.nodes
            && (n in s.nodes[d].children <==> KindAt(Keys(b), DirPrefix(states[i].cache, d), n).Some?)
            && DirPrefix(s, d) == DirPrefix(states[i].cache, d)
  {
    EveryHistory(states, events, timeout, i, i + 1);
    assert StepAt(states, events, i, timeout);
    RefreshAgrees(states[i], events[i], states[i + 1], timeout, n);
  }

  lemma RefreshAgrees(s: State, e: Event, t: State, timeout: Time, n: string)
    requires Sound(s) && e.Refresh? && Follows(s, e, t, timeout)
    requires ValidName(n) && ChildKind(s.cache, e.d, n) != Some(Dir)
    ensures e.d in t.cache.nodes && DirPrefix(t.cache, e.d) == DirPrefix(s.cache, e.d)
    ensures n in t.cache.nodes[e.d].children <==> KindAt(Keys(s.bucket), DirPrefix(s.cache, e.d), n).Some?
  {
    FilesAgree(s.cache, t.cache, e.d, s.bucket, e.max, e.ttl, e.m);
    RefreshedPath(s.cache, t.cache, e.d, s.bucket, e.max, e.ttl, e.m);
  }

  // ---- Coherence over histories --------------------------------------------------------

  // A new key hurts no name of directory d when it is there already, or when it
  // is no child's key and goes on below children that the bucket lists anyway.
  ghost predicate KeyHarmless(s: State, d: InodeID, k: Key) {
    k in Keys(s.bucket) || forall m :: ValidName(m) ==> NameUnhurt(Keys(s.bucket), DirPrefix(s.cache, d), k, m)
  }

  ghost predicate NameUnhurt(keys: set<Key>, prefix: Key, k: Key, m: string) {
    k != prefix + m && (prefix + m + "/" <= k ==> KindAt(keys, prefix, m).Some?)
  }

  // Putting an object keeps a directory coherent exactly then.
  lemma ReleaseCoherent(s: State, d: InodeID, k: Key, stream: Bytes)
    requires Coherent(s, d)
    ensures Coherent(s.(bucket := s.bucket.(objects := s.bucket.objects[k := stream])), d) <==> KeyHarmless(s, d, k)
  {
    var t := s.(bucket := s.bucket.(objects := s.bucket.objects[k := stream]));
    var keys, prefix := Keys(s.bucket), DirPrefix(s.cache, d);
    assert Keys(t.bucket) == keys + {k};
    if k in keys { assert Keys(t.bucket) == keys; }
    forall m | ValidName(m) ensures Agrees(t, d, m) <==> k in keys || NameUnhurt(keys, prefix, k, m) {
      assert Agrees(s, d, m);
      if k !in keys { KindWithKey(keys, k, prefix, m); }
    }
  }

  lemma KindWithKey(keys: set<Key>, k: Key, prefix: Key, m: string)
    requires k !in keys
    ensures KindAt(keys + {k}, prefix, m) == KindAt(keys, prefix, m) <==> NameUnhurt(keys, prefix, k, m)
  {
    if !Touches(prefix, k, m) {
      UntouchedKind(keys, keys + {k}, k, prefix, m);
    } else if k != prefix + m && KindAt(keys, prefix, m) == Some(Dir) {
      OldDirKind(keys, k, prefix, m);
    }
  }

  // The events that leave directory d in agreement with the bucket: a harmless
  // operation; a refresh of d, of a directory that d is not below, or of one that
  // d is below, if it keeps d and all children of d; a write; a release or a
  // change by others that lists the same names at d.
  ghost predicate Harmless(s: State, e: Event, d: InodeID, timeout: Time)
    requires d in s.cache.nodes
  {
    match e
    case Mount(op) => Allowed(s, d, op, timeout)
    case Refresh(x, max, _, _, _) => x == d || !Below(s.cache, x, d) || KeptWhole(s, x, max, d)
    case Write(_, _) => true
    case Release(path, _) => KeyHarmless(s, d, path)
    case Outside(objects) => SameListing(s, d, objects.Keys)
  }

  // A refresh of x reaches d along listed or marked steps, and finds all
  // children of d marked.
  ghost predicate KeptWhole(s: State, x: InodeID, max: nat, d: InodeID)
    requires d in s.cache.nodes
  {
    && max >= 1
    && Survives(s.cache, x, PagedInfo(s.bucket, DirPrefix(s.cache, x), max), PathBelow(s.cache, x, d))
    && forall n :: n in s.cache.nodes[d].children ==> Marked(s.cache, d, n)
  }

  ghost predicate SameListing(s: State, d: InodeID, keys: set<Key>) {
    forall n :: ValidName(n) ==>
      KindAt(keys, DirPrefix(s.cache, d), n) == KindAt(Keys(s.bucket), DirPrefix(s.cache, d), n)
  }

  // An event keeps the agreement exactly when it is harmless.
  lemma EventCoherent(s: State, e: Event, t: State, d: InodeID, timeout: Time)
    requires Sound(s) && Follows(s, e, t, timeout) && Coherent(s, d)
    ensures Coherent(t, d) <==> Harmless(s, e, d, timeout)
  {
    match e
    case Mount(op) => StepCoherentIff(s, d, op, t, timeout);
    case Refresh(x, max, _, ttl, m) =>
      if x == d {
        RefreshKeepsCoherent(s.cache, t.cache, d, s.bucket, max, ttl, m);
      } else if !Below(s.cache, x, d) {
        RefreshElsewhere(s.cache, t.cache, x, s.bucket, max, ttl, m, d);
      } else {
        RefreshAbove(s, t.cache, x, max, ttl, m, d);
      }
    case Write(ino, size) => ResizeCoherent(s, ino, size, d);
    case Release(path, stream) => ReleaseCoherent(s, d, path, stream);
    case Outside(objects) =>
      forall n | ValidName(n)
        ensures Agrees(t, d, n) <==>
                KindAt(objects.Keys, DirPrefix(s.cache, d), n) == KindAt(Keys(s.bucket), DirPrefix(s.cache, d), n)
      {
        assert Agrees(s, d, n);
      }
  }

  lemma RefreshAbove(s: State, u: Cache, x: InodeID, max: nat, ttl: Time, m: Cache, d: InodeID)
    requires Tree(s.cache) && x in s.cache.nodes && RefreshedWith(s.cache, u, x, s.bucket, max, ttl, m)
    requires Coherent(s, d) && Below(s.cache, x, d) && x != d
    ensures Coherent(State(u, s.bucket), d) <==> KeptWhole(s, x, max, d)
  {
    SubdirectoryCoherent(s.cache, u, x, s.bucket, max, ttl, m, d);
    forall n | ValidName(n) ensures KindAt(Keys(s.bucket), DirPrefix(s.cache, d), n) == ChildKind(s.cache, d, n) {
      assert Agrees(s, d, n);
    }
    if OnlyMarkedListed(s.cache, s.bucket, d) {
      forall n | n in s.cache.nodes[d].children ensures Marked(s.cache, d, n) { ChildNames(s.cache, d, n); }
    }
  }

  lemma ResizeCoherent(s: State, ino: InodeID, size: nat, d: InodeID)
    requires Tree(s.cache) && ino in s.cache.nodes && Coherent(s, d)
    ensures Coherent(s.(cache := SetNode(s.cache, ino, s.cache.nodes[ino].(size := size))), d)
  {
    var t := s.(cache := SetNode(s.cache, ino, s.cache.nodes[ino].(size := size)));
    SetNodeTree(s.cache, ino, s.cache.nodes[ino].(size := size));
    ShapeNames(s.cache, t.cache, d, d);
    forall n | ValidName(n) ensures Agrees(t, d, n) { assert Agrees(s, d, n); }
  }

  ghost predicate HarmlessAt(states: seq<State>, events: seq<Event>, i: nat, d: InodeID, timeout: Time)
    requires i < |events| < |states|
  {
    d in states[i].cache.nodes && Harmless(states[i], events[i], d, timeout)
  }

  // Over every history a directory that agrees with the bucket goes on doing so,
  // event by event, exactly as long as the events are harmless.
  lemma {:induction false} HistoryCoherent(states: seq<State>, events: seq<Event>, timeout: Time, d: InodeID, j: nat)
    requires Happened(states, events, timeout) && Sound(states[0]) && Coherent(states[0], d) && j < |states|
    ensures (forall i :: 0 <= i <= j ==> Coherent(states[i], d))
            <==> forall i :: 0 <= i < j ==> HarmlessAt(states, events, i, d, timeout)
  {
    if j > 0 {
      HistoryCoherent(states, events, timeout, d, j - 1);
      EveryHistory(states, events, timeout, j - 1, j - 1);
      assert StepAt(states, events, j - 1, timeout);
      if Coherent(states[j - 1], d) { EventCoherent(states[j - 1], events[j - 1], states[j], d, timeout); }
      assert HarmlessAt(states, events, j - 1, d, timeout) <==>
             d in states[j - 1].cache.nodes && Harmless(states[j - 1], events[j - 1], d, timeout);
    }
  }

  // Every mount starts in a sound state.
  lemma ColdStart(b: Bucket)
    requires NoDirModes(b)
    ensures Sound(State(ColdCache(), b))
  {
    ColdTree();
  }
}

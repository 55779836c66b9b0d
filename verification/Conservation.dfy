// Keys and conservation: the operations agree about keys, and undo each other.
module Conservation {
  import opened Basics
  import opened Listing
  import opened DentryTree
  import opened Paths
  import opened Lookup
  import opened Coherence

  // The key that a lookup asks about, that a creation puts and that a removal
  // deletes are the same for a dentry at any depth.
  lemma KeysCoincide(c: Cache, p: InodeID, n: string)
    requires Tree(c) && p in c.nodes && n in c.nodes[p].children && c.nodes[p].children[n] in c.nodes
    ensures var x := c.nodes[p].children[n];
            OwnKey(c, x) == RemovedKey(c, p, n) == ChildKey(c, p, n, KindOf(c.nodes[x].mode))
  {
    ChildPaths(c, p, n);
  }

  // Different children of different directories have different keys.
  lemma KeysDistinct(c: Cache, p: InodeID, n: string, kind: Kind, p': InodeID, n': string, kind': Kind)
    requires Tree(c) && p in c.nodes && p' in c.nodes && ValidName(n) && ValidName(n')
    requires ChildKey(c, p, n, kind) == ChildKey(c, p', n', kind')
    ensures p == p' && n == n' && kind == kind'
  {
    var ns, ns' := Names(c, p), Names(c, p');
    NamesValid(c, p);
    NamesValid(c, p');
    LastIsSlash(Prefix(ns), n);
    LastIsSlash(Prefix(ns'), n');
    assert kind == kind';
    PrefixAppend(ns, n);
    PrefixAppend(ns', n');
    SplitOfPrefix(ns + [n], "");
    SplitOfPrefix(ns' + [n'], "");
    assert Prefix(ns + [n]) + "" == Prefix(ns + [n]) && Prefix(ns' + [n']) + "" == Prefix(ns' + [n']);
    assert Prefix(ns + [n]) == Prefix(ns' + [n']);
    assert (ns + [n])[..|ns|] == ns && (ns' + [n'])[..|ns'|] == ns';
    assert (ns + [n])[|ns|] == n && (ns' + [n'])[|ns'|] == n';
    NamesInjective(c, p, p');
  }

  lemma LastIsSlash(prefix: Key, n: string)
    requires ValidName(n)
    ensures IsCommonPrefix(prefix + n + "/") && !IsCommonPrefix(prefix + n)
  {
    assert (prefix + n)[|prefix + n| - 1] == n[|n| - 1];
  }

  // The buckets differ at this key at most.
  ghost predicate OnlyAt(b: Bucket, d: Bucket, key: Key) {
    forall k :: k != key ==>
      (k in d.objects <==> k in b.objects) && (k in b.objects ==> d.objects[k] == b.objects[k])
  }

  // The kind whose key the operation may touch, given what its lookup found.
  ghost function TouchedKind(f: Cache, op: Op): Kind {
    match op
    case Find(_, _, _) => File
    case Create(_, _, mode, _) => KindOf(mode)
    case Remove(p, n, _) =>
      var kind := ChildKind(f, p, n);
      if kind.Some? then kind.value else File
  }

  // One operation changes one key of the bucket at most, and it is a key of
  // the name it was called with.
  lemma OneKeyAtMost(s: State, op: Op, timeout: Time) returns (kind: Kind)
    requires Tree(s.cache) && op.p in s.cache.nodes && IsDirMode(s.cache.nodes[op.p].mode) && ValidName(op.n)
    requires NoDirModes(s.bucket)
    ensures OnlyAt(s.bucket, Step(s, op, timeout).bucket, ChildKey(s.cache, op.p, op.n, kind))
  {
    var f := FindSpec(s.cache, s.bucket, op.p, op.n, op.now, op.now + timeout);
    FindTree(s.cache, s.bucket, op.p, op.n, op.now, op.now + timeout);
    PathForLife(s.cache, f, op.p);
    kind := TouchedKind(f, op);
    StepOneKey(s, f, op, Step(s, op, timeout), timeout);
    assert DirPrefix(f, op.p) == DirPrefix(s.cache, op.p);
  }

  lemma StepOneKey(s: State, f: Cache, op: Op, t: State, timeout: Time)
    requires op.p in s.cache.nodes && f == FindSpec(s.cache, s.bucket, op.p, op.n, op.now, op.now + timeout)
    requires op.p in f.nodes && t == Step(s, op, timeout)
    ensures OnlyAt(s.bucket, t.bucket, ChildKey(f, op.p, op.n, TouchedKind(f, op)))
  {
    match op
    case Find(_, _, _) =>
    case Create(p, n, mode, now) => CreateOneKey(s, f, p, n, mode, now, now + timeout, t);
    case Remove(p, n, now) => RemoveOneKey(s, f, p, n, now, now + timeout, t);
  }

  lemma CreateOneKey(s: State, f: Cache, p: InodeID, n: string, mode: Mode, now: Time, ttl: Time, t: State)
    requires p in s.cache.nodes && f == FindSpec(s.cache, s.bucket, p, n, now, ttl) && p in f.nodes
    requires t == CreateSpec(s, p, n, mode, now, ttl)
    ensures OnlyAt(s.bucket, t.bucket, ChildKey(f, p, n, KindOf(mode)))
  {}

  lemma RemoveOneKey(s: State, f: Cache, p: InodeID, n: string, now: Time, ttl: Time, t: State)
    requires p in s.cache.nodes && f == FindSpec(s.cache, s.bucket, p, n, now, ttl) && p in f.nodes
    requires t == RemoveSpec(s, p, n, now, ttl)
    ensures RemoveOutcome(f, p, n) == Removed ==> OnlyAt(s.bucket, t.bucket, RemovedKey(f, p, n))
    ensures RemoveOutcome(f, p, n) != Removed ==> t.bucket == s.bucket
  {}

  // Creating a name that is absent from cache and bucket and then removing it,
  // at any later time, restores both: only an inode id is used up.
  lemma CreateThenRemove(s: State, p: InodeID, n: string, mode: Mode, now: Time, now': Time, ttl: Time, ttl': Time)
    requires Tree(s.cache) && p in s.cache.nodes && IsDirMode(s.cache.nodes[p].mode) && ValidName(n)
    requires NoDirModes(s.bucket)
    requires n !in s.cache.nodes[p].children && KindAt(Keys(s.bucket), DirPrefix(s.cache, p), n) == None
    ensures p in FindSpec(s.cache, s.bucket, p, n, now, ttl).nodes
    ensures var t := CreateSpec(s, p, n, mode, now, ttl);
            && p in t.cache.nodes && p in FindSpec(t.cache, t.bucket, p, n, now', ttl').nodes
            && var u := RemoveSpec(t, p, n, now', ttl');
            && u.bucket == s.bucket && u.cache.nodes == s.cache.nodes
            && Keys(t.bucket) == Keys(s.bucket) + {ChildKey(s.cache, p, n, KindOf(mode))}
  {
    var c, b := s.cache, s.bucket;
    FindTree(c, b, p, n, now, ttl);
    IdsBelowNext(c);
    var t := CreateSpec(s, p, n, mode, now, ttl);
    assert t == Created(s, p, n, mode);
    RemoveNew(s, p, n, mode, now', ttl');
  }

  ghost function Created(s: State, p: InodeID, n: string, mode: Mode): State
    requires p in s.cache.nodes
  {
    State(Attach(s.cache, p, n, mode, 0),
          s.bucket.(objects := s.bucket.objects[ChildKey(s.cache, p, n, KindOf(mode)) := []]))
  }

  lemma RemoveNew(s: State, p: InodeID, n: string, mode: Mode, now': Time, ttl': Time)
    requires Tree(s.cache) && p in s.cache.nodes && IsDirMode(s.cache.nodes[p].mode) && ValidName(n)
    requires NoDirModes(s.bucket)
    requires n !in s.cache.nodes[p].children && KindAt(Keys(s.bucket), DirPrefix(s.cache, p), n) == None
    ensures var t := Created(s, p, n, mode);
            && p in t.cache.nodes && p in FindSpec(t.cache, t.bucket, p, n, now', ttl').nodes
            && var u := RemoveSpec(t, p, n, now', ttl');
            u.bucket == s.bucket && u.cache.nodes == s.cache.nodes
  {
    var c, b, t := s.cache, s.bucket, Created(s, p, n, mode);
    var f := FindSpec(t.cache, t.bucket, p, n, now', ttl');
    var key := ChildKey(c, p, n, KindOf(mode));
    FoundNew(s, p, n, mode, now', ttl');
    DetachedIsBefore(c, f, p, n, mode);
    AbsentKey(Keys(b), DirPrefix(c, p), n);
    assert b.objects[key := []] - {key} == b.objects;
  }

  // What a lookup makes of the new dentry.
  lemma FoundNew(s: State, p: InodeID, n: string, mode: Mode, now': Time, ttl': Time)
    requires Tree(s.cache) && p in s.cache.nodes && IsDirMode(s.cache.nodes[p].mode) && ValidName(n)
    requires NoDirModes(s.bucket)
    requires n !in s.cache.nodes[p].children
    ensures var t := Created(s, p, n, mode);
            var f := FindSpec(t.cache, t.bucket, p, n, now', ttl');
            var x := s.cache.next;
            && Tree(f) && p in f.nodes && f.nodes[p] == t.cache.nodes[p]
            && n in f.nodes[p].children && f.nodes[p].children[n] == x
            && x in f.nodes && f.nodes.Keys == s.cache.nodes.Keys + {x} && x !in s.cache.nodes
            && (forall r :: r in s.cache.nodes && r != p ==> f.nodes[r] == s.cache.nodes[r])
            && RemoveOutcome(f, p, n) == Removed
            && RemovedKey(f, p, n) == ChildKey(s.cache, p, n, KindOf(mode))
  {
    var c, a, b := s.cache, Attach(s.cache, p, n, mode, 0), Created(s, p, n, mode).bucket;
    NewDentry(c, p, n, mode);
    var f := FindSpec(a, b, p, n, now', ttl');
    RevalidatedKeeps(a, b, c.next, ttl');
    assert f == a || f == Revalidated(a, b, c.next, ttl');
    ShapeNames(a, f, p, p);
  }

  lemma NewDentry(c: Cache, p: InodeID, n: string, mode: Mode)
    requires Tree(c) && p in c.nodes && IsDirMode(c.nodes[p].mode) && ValidName(n) && n !in c.nodes[p].children
    ensures var a := Attach(c, p, n, mode, 0);
            && Tree(a) && c.next in a.nodes && c.next !in c.nodes && c.next != p
            && a.nodes.Keys == c.nodes.Keys + {c.next}
            && a.nodes[c.next] == NewNode(n, p, mode, 0)
            && Names(a, p) == Names(c, p)
  {
    IdsBelowNext(c);
    AttachTree(c, p, n, mode, 0);
    AttachStays(c, p, n, mode, 0);
    PathForLife(c, Attach(c, p, n, mode, 0), p);
  }

  lemma AbsentKey(keys: set<Key>, prefix: Key, n: string)
    requires KindAt(keys, prefix, n) == None
    ensures prefix + n !in keys && prefix + n + "/" !in keys
  {
    assert prefix + n + "/" <= prefix + n + "/";
  }

  // Taking the new dentry off again leaves what was there, whatever a lookup
  // in between has done to the dentry's attributes.
  lemma DetachedIsBefore(c: Cache, f: Cache, p: InodeID, n: string, mode: Mode)
    requires Tree(c) && Tree(f) && p in c.nodes && n !in c.nodes[p].children
    requires p in f.nodes && n in f.nodes[p].children && f.nodes[p].children[n] == c.next && c.next in f.nodes
    requires f.nodes.Keys == c.nodes.Keys + {c.next}
    requires f.nodes[p] == Attach(c, p, n, mode, 0).nodes[p]
    requires forall r :: r in c.nodes && r != p ==> f.nodes[r] == c.nodes[r]
    requires RemoveOutcome(f, p, n) == Removed
    ensures Detach(f, p, n).nodes == c.nodes
  {
    LeafRemoved(f, p, n);
    IdsBelowNext(c);
    assert f.nodes[p].children - {n} == c.nodes[p].children;
    assert Detach(f, p, n).nodes.Keys == c.nodes.Keys;
  }
}

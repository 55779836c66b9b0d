// When a cached directory agrees with the bucket, and what keeps it so.
module Coherence {
  import opened Basics
  import opened Listing
  import opened DentryTree
  import opened Merge
  import opened Paths
  import opened Refresh
  import opened Lookup

  // Directory d shows exactly the names, and the kinds, of the bucket's
  // one-level listing at its path.
  ghost predicate Coherent(s: State, d: InodeID) {
    && d in s.cache.nodes
    && forall n :: ValidName(n) ==> Agrees(s, d, n)
  }

  ghost predicate Agrees(s: State, d: InodeID, n: string) {
    ChildKind(s.cache, d, n) == KindAt(Keys(s.bucket), DirPrefix(s.cache, d), n)
  }

  // ---- Which names a key matters for -----------------------------------------------

  ghost predicate Touches(prefix: Key, k: Key, m: string) {
    k == prefix + m || prefix + m + "/" <= k
  }

  lemma UntouchedKind(keys: set<Key>, keys': set<Key>, k: Key, prefix: Key, m: string)
    requires keys' == keys + {k} || keys' == keys - {k}
    requires !Touches(prefix, k, m)
    ensures KindAt(keys', prefix, m) == KindAt(keys, prefix, m)
  {
    var e := prefix + m + "/";
    if AnyUnder(keys, e) {
      var h :| h in keys && e <= h;
      assert h in keys';
    }
    if AnyUnder(keys', e) {
      var h :| h in keys' && e <= h;
      assert h in keys;
    }
  }

  // A child key matters to directory d for one name at most: the child's own,
  // or that of the child of d that the child's directory is at or below.
  lemma TouchedNames(c: Cache, d: InodeID, p: InodeID, n: string, kind: Kind, m: string)
    requires Tree(c) && d in c.nodes && p in c.nodes && ValidName(n) && ValidName(m)
    ensures Touches(DirPrefix(c, d), ChildKey(c, p, n, kind), m) ==>
              (d == p && m == n) || Names(c, d) + [m] <= Names(c, p)
  {
    var ds, ps := Names(c, d), Names(c, p);
    NamesValid(c, d);
    NamesValid(c, p);
    PrefixAppend(ds, m);
    PrefixAppend(ps, n);
    PrefixOrder(ds + [m], ps, n);
    PrefixOrder(ds + [m], ps + [n], "");
    assert Prefix(ps + [n]) + "" == Prefix(ps + [n]);
    SplitOfPrefix(ds, m);
    SplitOfPrefix(ps, n);
    SplitOfPrefix(ps + [n], "");
    if Prefix(ds) + m == Prefix(ps) + n {
      NamesInjective(c, d, p);
    }
    assert (Prefix(ds) + m)[|Prefix(ds) + m| - 1] == m[|m| - 1];
    if ds + [m] <= ps + [n] && !(ds + [m] <= ps) {
      assert ds + [m] == ps + [n];
      assert (ds + [m])[..|ds|] == ds && (ps + [n])[..|ps|] == ps;
      NamesInjective(c, d, p);
      assert (ds + [m])[|ds|] == m && (ps + [n])[|ps|] == n;
    }
  }

  lemma OwnTouch(c: Cache, p: InodeID, n: string, kind: Kind)
    ensures Touches(DirPrefix(c, p), ChildKey(c, p, n, kind), n)
  {}

  // The child of d above p is there and is a directory.
  lemma StepTowards(c: Cache, d: InodeID, p: InodeID, m: string)
    requires Tree(c) && d in c.nodes && p in c.nodes && IsDirMode(c.nodes[p].mode)
    requires Names(c, d) + [m] <= Names(c, p)
    ensures ChildKind(c, d, m) == Some(Dir) && d != p
  {
    var ds, ps := Names(c, d), Names(c, p);
    WalkOfNames(c, p);
    WalkOfNames(c, d);
    assert ps[..|ds|] == ds by { assert (ds + [m])[..|ds|] == ds; }
    WalkSplit(c, ROOT, ps, |ds|);
    assert ps[|ds|] == m by { assert (ds + [m])[|ds|] == m; }
    ChildNames(c, d, m);
    var a := c.nodes[d].children[m];
    assert ps[..|ds| + 1] == ds + [m];
    WalkOfNames(c, a);
    WalkSplit(c, ROOT, ps, |ds| + 1);
    if |ds| + 1 < |ps| {
      assert ChildrenPlaced(c, a);
    } else {
      assert ps == ds + [m];
      NamesInjective(c, a, p);
    }
  }

  // ---- Lookups keep coherence ---------------------------------------------------------

  lemma FindKinds(c: Cache, b: Bucket, p: InodeID, n: string, now: Time, ttl: Time, d: InodeID, m: string)
    requires Tree(c) && p in c.nodes && IsDirMode(c.nodes[p].mode) && ValidName(n) && NoDirModes(b) && d in c.nodes
    requires !(d == p && m == n && n !in c.nodes[p].children)
    ensures ChildKind(FindSpec(c, b, p, n, now, ttl), d, m) == ChildKind(c, d, m)
  {
    if n in c.nodes[p].children {
      ChildNames(c, p, n);
      RevalidatedKeeps(c, b, c.nodes[p].children[n], ttl);
    } else {
      FetchedKinds(c, b, p, n, ttl, d, m);
    }
  }

  lemma FetchedKinds(c: Cache, b: Bucket, p: InodeID, n: string, ttl: Time, d: InodeID, m: string)
    requires Tree(c) && p in c.nodes && d in c.nodes && n !in c.nodes[p].children && !(d == p && m == n)
    ensures ChildKind(Fetched(c, b, p, n, ttl), d, m) == ChildKind(c, d, m)
  {
    IdsBelowNext(c);
    if m in c.nodes[d].children { ChildNames(c, d, m); }
  }

  lemma FindCoherent(c: Cache, b: Bucket, p: InodeID, n: string, now: Time, ttl: Time, d: InodeID)
    requires Tree(c) && p in c.nodes && IsDirMode(c.nodes[p].mode) && ValidName(n) && NoDirModes(b)
    requires Coherent(State(c, b), d)
    ensures Coherent(State(FindSpec(c, b, p, n, now, ttl), b), d)
  {
    var f := FindSpec(c, b, p, n, now, ttl);
    FindTree(c, b, p, n, now, ttl);
    PathForLife(c, f, d);
    forall m | ValidName(m) ensures Agrees(State(f, b), d, m) {
      assert Agrees(State(c, b), d, m);
      if d == p && m == n && n !in c.nodes[p].children {
        assert ChildKind(c, p, n) == None;
      } else {
        FindKinds(c, b, p, n, now, ttl, d, m);
      }
    }
  }

  // When a lookup is right: its answer for the name agrees with the bucket
  // exactly when the name was not cached, or was cached in agreement. An
  // expired dentry is asked about again, but never taken out.
  lemma FindAgrees(c: Cache, b: Bucket, p: InodeID, n: string, now: Time, ttl: Time)
    requires Tree(c) && p in c.nodes && IsDirMode(c.nodes[p].mode) && ValidName(n) && NoDirModes(b)
    ensures Agrees(State(FindSpec(c, b, p, n, now, ttl), b), p, n) <==>
            (n in c.nodes[p].children ==> Agrees(State(c, b), p, n))
  {
    var f := FindSpec(c, b, p, n, now, ttl);
    FindTree(c, b, p, n, now, ttl);
    PathForLife(c, f, p);
    if n in c.nodes[p].children {
      FindKinds(c, b, p, n, now, ttl, p, n);
    } else {
      FetchedKind(c, b, p, n, ttl);
    }
  }

  // What a lookup makes of the size of a cached file: if its time is up, the
  // object's, or what the empty answer carries if the object is gone.
  lemma FindSize(c: Cache, b: Bucket, p: InodeID, n: string, now: Time, ttl: Time)
    requires Tree(c) && p in c.nodes && ChildKind(c, p, n) == Some(File)
    ensures var x, k := c.nodes[p].children[n], ChildKey(c, p, n, File);
            var f := FindSpec(c, b, p, n, now, ttl);
            && x in f.nodes
            && f.nodes[x].size == if c.nodes[x].ttl >= now then c.nodes[x].size
                                  else if k in b.objects then |b.objects[k]| else b.junk
  {
    ChildPaths(c, p, n);
  }

  // An expired directory is a directory after a lookup exactly when the store
  // has no mode for its key.
  lemma ExpiredDirectory(c: Cache, b: Bucket, p: InodeID, n: string, now: Time, ttl: Time)
    requires Tree(c) && p in c.nodes && ChildKind(c, p, n) == Some(Dir) && c.nodes[c.nodes[p].children[n]].ttl < now
    ensures ChildKind(FindSpec(c, b, p, n, now, ttl), p, n) == Some(Dir) <==>
            !(ChildKey(c, p, n, Dir) in b.objects && ChildKey(c, p, n, Dir) in b.modes)
  {
    ChildPaths(c, p, n);
    ChildNames(c, p, n);
    var key := ChildKey(c, p, n, Dir);
    KindStable(true, if key in b.objects then Reported(b, key) else None);
    assert Placed(c, c.nodes[p].children[n]);
  }

  // A lookup that finds nothing leaves the cache as it is, and the bucket has
  // nothing under the name.
  lemma FindNothing(c: Cache, b: Bucket, p: InodeID, n: string, now: Time, ttl: Time)
    requires Tree(c) && p in c.nodes && IsDirMode(c.nodes[p].mode) && ValidName(n) && NoDirModes(b)
    requires p in FindSpec(c, b, p, n, now, ttl).nodes && n !in FindSpec(c, b, p, n, now, ttl).nodes[p].children
    ensures FindSpec(c, b, p, n, now, ttl) == c && n !in c.nodes[p].children
    ensures KindAt(Keys(b), DirPrefix(c, p), n) == None
  {
    if n in c.nodes[p].children {
      ChildNames(c, p, n);
      RevalidatedKeeps(c, b, c.nodes[p].children[n], ttl);
    } else {
      IdsBelowNext(c);
      FetchedKind(c, b, p, n, ttl);
    }
  }

  // ---- Creating keeps coherence -----------------------------------------------------------

  lemma CreateCoherent(s: State, p: InodeID, n: string, mode: Mode, now: Time, ttl: Time, d: InodeID)
    requires Tree(s.cache) && p in s.cache.nodes && IsDirMode(s.cache.nodes[p].mode) && ValidName(n)
    requires NoDirModes(s.bucket)
    requires Coherent(s, d)
    ensures p in FindSpec(s.cache, s.bucket, p, n, now, ttl).nodes
    ensures Coherent(CreateSpec(s, p, n, mode, now, ttl), d)
  {
    var c, b := s.cache, s.bucket;
    FindTree(c, b, p, n, now, ttl);
    var f := FindSpec(c, b, p, n, now, ttl);
    if n in f.nodes[p].children {
      FindCoherent(c, b, p, n, now, ttl, d);
    } else {
      FindNothing(c, b, p, n, now, ttl);
      var t := CreateSpec(s, p, n, mode, now, ttl);
      AttachTree(c, p, n, mode, 0);
      AttachStays(c, p, n, mode, 0);
      PathForLife(c, t.cache, d);
      forall m | ValidName(m) ensures Agrees(t, d, m) {
        assert Agrees(s, d, m);
        CreateAgrees(s, p, n, mode, d, m);
      }
    }
  }

  lemma CreateAgrees(s: State, p: InodeID, n: string, mode: Mode, d: InodeID, m: string)
    requires Tree(s.cache) && p in s.cache.nodes && IsDirMode(s.cache.nodes[p].mode) && ValidName(n) && ValidName(m)
    requires n !in s.cache.nodes[p].children && KindAt(Keys(s.bucket), DirPrefix(s.cache, p), n) == None
    requires d in s.cache.nodes && Agrees(s, d, m)
    requires Names(Attach(s.cache, p, n, mode, 0), d) == Names(s.cache, d)
    ensures var k := ChildKey(s.cache, p, n, KindOf(mode));
            Agrees(State(Attach(s.cache, p, n, mode, 0), s.bucket.(objects := s.bucket.objects[k := []])), d, m)
  {
    var c, keys := s.cache, Keys(s.bucket);
    var kind := KindOf(mode);
    var k := ChildKey(c, p, n, kind);
    var a := Attach(c, p, n, mode, 0);
    var keys' := s.bucket.objects[k := []].Keys;
    assert keys' == keys + {k};
    TouchedNames(c, d, p, n, kind, m);
    AttachedKind(c, p, n, mode, d, m);
    if !Touches(DirPrefix(c, d), k, m) {
      OwnTouch(c, p, n, kind);
      UntouchedKind(keys, keys', k, DirPrefix(c, d), m);
    } else if d == p && m == n {
      NewKind(keys, DirPrefix(c, p), n, kind);
    } else {
      StepTowards(c, d, p, m);
      OldDirKind(keys, k, DirPrefix(c, d), m);
    }
  }

  lemma AttachedKind(c: Cache, p: InodeID, n: string, mode: Mode, d: InodeID, m: string)
    requires Tree(c) && p in c.nodes && d in c.nodes && n !in c.nodes[p].children
    ensures ChildKind(Attach(c, p, n, mode, 0), d, m)
            == if d == p && m == n then Some(KindOf(mode)) else ChildKind(c, d, m)
  {
    IdsBelowNext(c);
    if m in c.nodes[d].children { ChildNames(c, d, m); }
  }

  lemma NewKind(keys: set<Key>, prefix: Key, n: string, kind: Kind)
    requires KindAt(keys, prefix, n) == None && ValidName(n)
    ensures KindAt(keys + {if kind.Dir? then prefix + n + "/" else prefix + n}, prefix, n) == Some(kind)
  {
    if kind.Dir? {
      assert prefix + n + "/" <= prefix + n + "/";
      assert |prefix + n| != |prefix + n + "/"|;
    }
  }

  lemma OldDirKind(keys: set<Key>, k: Key, prefix: Key, m: string)
    requires KindAt(keys, prefix, m) == Some(Dir) && k != prefix + m
    ensures KindAt(keys + {k}, prefix, m) == Some(Dir)
  {
    var h :| h in keys && prefix + m + "/" <= h;
    assert h in keys + {k};
  }

  // ---- Removing: exactly when coherence is kept ---------------------------------------------

  // What the bucket must look like, besides the key k that goes, for
  // directory d to agree with it after name n of directory p was removed:
  // nothing is left under the removed name if it was in d itself, and something
  // is left under the child of d that leads to p if p lies deeper.
  ghost predicate RemovalHarmless(s: State, d: InodeID, p: InodeID, n: string, k: Key) {
    if d == p then !AnyUnder(Keys(s.bucket) - {k}, DirPrefix(s.cache, d) + n + "/")
    else forall m :: ValidName(m) && Names(s.cache, d) + [m] <= Names(s.cache, p) ==>
                       AnyUnder(Keys(s.bucket) - {k}, DirPrefix(s.cache, d) + m + "/")
  }

  // Only the removed dentry leaves: it has nothing below it.
  lemma LeafRemoved(c: Cache, p: InodeID, n: string)
    requires Tree(c) && p in c.nodes && RemoveOutcome(c, p, n) == Removed
    ensures n in c.nodes[p].children && c.nodes[p].children[n] in c.nodes
    ensures var x := c.nodes[p].children[n];
            && Detach(c, p, n).nodes.Keys == c.nodes.Keys - {x} && x != p
            && forall r :: r in c.nodes && r != x ==>
                 Detach(c, p, n).nodes[r]
                 == if r == p then c.nodes[p].(children := c.nodes[p].children - {n}) else c.nodes[r]
  {
    var x := c.nodes[p].children[n];
    ChildNames(c, p, n);
    assert ChildrenPlaced(c, x);
    forall r | r in c.nodes ensures Below(c, x, r) <==> r == x { LeafBelow(c, x, r); }
    assert Detach(c, p, n).nodes.Keys == c.nodes.Keys - {x};
  }

  lemma {:induction false} LeafBelow(c: Cache, x: InodeID, r: InodeID)
    requires Tree(c) && x in c.nodes && r in c.nodes && c.nodes[x].children == map[]
    ensures Below(c, x, r) <==> r == x
    decreases r
  {
    assert Placed(c, r);
    if r != x && r != ROOT { LeafBelow(c, x, c.nodes[r].parent); }
    if r == ROOT { RootAlone(c, x); IdsBelowNext(c); }
  }

  lemma RemoveAgrees(s: State, p: InodeID, n: string, d: InodeID, m: string)
    requires Tree(s.cache) && p in s.cache.nodes && IsDirMode(s.cache.nodes[p].mode) && ValidName(n) && ValidName(m)
    requires RemoveOutcome(s.cache, p, n) == Removed
    requires n in s.cache.nodes[p].children && s.cache.nodes[p].children[n] in s.cache.nodes
    requires d in s.cache.nodes && d != s.cache.nodes[p].children[n] && Coherent(s, d)
    ensures var k := RemovedKey(s.cache, p, n);
            var keys := Keys(s.bucket) - {k};
            var prefix := DirPrefix(s.cache, d);
            ChildKind(Detach(s.cache, p, n), d, m) == KindAt(keys, prefix, m) <==>
            (d == p && m == n ==> !AnyUnder(keys, prefix + n + "/"))
            && (Names(s.cache, d) + [m] <= Names(s.cache, p) ==> AnyUnder(keys, prefix + m + "/"))
  {
    var c, keys := s.cache, Keys(s.bucket);
    var x := c.nodes[p].children[n];
    var kind := KindOf(c.nodes[x].mode);
    var k := RemovedKey(c, p, n);
    var prefix := DirPrefix(c, d);
    LeafRemoved(c, p, n);
    assert Agrees(s, d, m);
    if m in c.nodes[d].children { ChildNames(c, d, m); }
    if n in c.nodes[p].children { ChildNames(c, p, n); }
    TouchedNames(c, d, p, n, kind, m);
    OwnTouch(c, p, n, kind);
    if Names(c, d) + [m] <= Names(c, p) {
      StepTowards(c, d, p, m);
      assert prefix + m !in keys;
      assert ChildKind(c, d, m) == Some(Dir);
      assert !(d == p);
      assert ChildKind(Detach(c, p, n), d, m) == Some(Dir) by { StepStays(c, p, n, d, m); }
    } else if !Touches(prefix, k, m) {
      UntouchedKind(keys, keys - {k}, k, prefix, m);
      assert !(d == p && m == n);
      if d == p { assert ChildKind(Detach(c, p, n), d, m) == ChildKind(c, d, m); }
    } else {
      assert d == p && m == n;
      assert ChildKind(Detach(c, p, n), d, m) == None;
      if kind.Dir? { assert prefix + n !in keys; }
    }
  }

  // The child of d above p is not the dentry that leaves p.
  lemma StepStays(c: Cache, p: InodeID, n: string, d: InodeID, m: string)
    requires Tree(c) && p in c.nodes && d in c.nodes && IsDirMode(c.nodes[p].mode)
    requires RemoveOutcome(c, p, n) == Removed && d != p
    requires n in c.nodes[p].children && c.nodes[p].children[n] in c.nodes
    requires ChildKind(c, d, m) == Some(Dir)
    requires d != c.nodes[p].children[n]
    ensures ChildKind(Detach(c, p, n), d, m) == Some(Dir)
  {
    LeafRemoved(c, p, n);
    ChildNames(c, d, m);
    ChildNames(c, p, n);
  }

  // Removing keeps directory d coherent exactly when the removal is harmless.
  lemma RemoveCoherent(s: State, p: InodeID, n: string, d: InodeID)
    requires Tree(s.cache) && p in s.cache.nodes && IsDirMode(s.cache.nodes[p].mode) && ValidName(n)
    requires RemoveOutcome(s.cache, p, n) == Removed
    requires n in s.cache.nodes[p].children && s.cache.nodes[p].children[n] in s.cache.nodes
    requires Coherent(s, d) && d != s.cache.nodes[p].children[n]
    ensures Coherent(AfterRemoval(s, p, n), d) <==> RemovalHarmless(s, d, p, n, RemovedKey(s.cache, p, n))
  {
    var c := s.cache;
    var t := AfterRemoval(s, p, n);
    var k := RemovedKey(c, p, n);
    LeafRemoved(c, p, n);
    DetachStays(c, p, n);
    PathForLife(c, t.cache, d);
    assert Keys(t.bucket) == Keys(s.bucket) - {k};
    forall m | ValidName(m)
      ensures Agrees(t, d, m) <==>
              (d == p && m == n ==> !AnyUnder(Keys(t.bucket), DirPrefix(c, d) + n + "/"))
              && (Names(c, d) + [m] <= Names(c, p) ==> AnyUnder(Keys(t.bucket), DirPrefix(c, d) + m + "/"))
    {
      RemoveAgrees(s, p, n, d, m);
    }
    if d == p {
      assert forall m :: !(Names(c, d) + [m] <= Names(c, p));
      assert Agrees(t, d, n) <==> !AnyUnder(Keys(t.bucket), DirPrefix(c, d) + n + "/");
    }
  }

  // A removal says "not empty" of a directory that agrees with the bucket exactly
  // when the bucket holds something in it.
  lemma NotEmptyExact(s: State, p: InodeID, n: string)
    requires Tree(s.cache) && p in s.cache.nodes && ChildKind(s.cache, p, n) == Some(Dir)
    requires Coherent(s, s.cache.nodes[p].children[n])
    ensures RemoveOutcome(s.cache, p, n) == NotEmpty <==>
            exists k :: HoldsName(s, s.cache.nodes[p].children[n], k)
  {
    var c, x := s.cache, s.cache.nodes[p].children[n];
    forall k | ValidName(k) ensures HoldsName(s, x, k) <==> ChildKind(c, x, k).Some? { assert Agrees(s, x, k); }
    if c.nodes[x].children != map[] {
      var k :| k in c.nodes[x].children;
      ChildNames(c, x, k);
      assert HoldsName(s, x, k);
    }
  }

  // The bucket lists this name in directory x.
  ghost predicate HoldsName(s: State, x: InodeID, k: string) {
    ValidName(k) && KindAt(Keys(s.bucket), DirPrefix(s.cache, x), k).Some?
  }

  // ---- Runs ------------------------------------------------------------------------------------

  datatype Op =
    | Find(p: InodeID, n: string, now: Time)
    | Create(p: InodeID, n: string, mode: Mode, now: Time)
    | Remove(p: InodeID, n: string, now: Time)

  ghost function Step(s: State, op: Op, timeout: Time): State {
    if op.p !in s.cache.nodes || op.p !in FindSpec(s.cache, s.bucket, op.p, op.n, op.now, op.now + timeout).nodes then s
    else
      match op
      case Find(p, n, now) => s.(cache := FindSpec(s.cache, s.bucket, p, n, now, now + timeout))
      case Create(p, n, mode, now) => CreateSpec(s, p, n, mode, now, now + timeout)
      case Remove(p, n, now) => RemoveSpec(s, p, n, now, now + timeout)
  }

  // The operation names a directory and an entry; a removal neither takes d
  // itself away nor harms its agreement with the bucket.
  ghost predicate Allowed(s: State, d: InodeID, op: Op, timeout: Time) {
    && op.p in s.cache.nodes && IsDirMode(s.cache.nodes[op.p].mode) && ValidName(op.n)
    && (op.Remove? ==>
          var f := FindSpec(s.cache, s.bucket, op.p, op.n, op.now, op.now + timeout);
          op.p in f.nodes && RemoveOutcome(f, op.p, op.n) == Removed ==>
            && op.n in f.nodes[op.p].children && f.nodes[op.p].children[op.n] in f.nodes
            && f.nodes[op.p].children[op.n] != d
            && RemovalHarmless(s.(cache := f), d, op.p, op.n, RemovedKey(f, op.p, op.n)))
  }

  ghost predicate RunAllowed(s: State, d: InodeID, ops: seq<Op>, timeout: Time)
    decreases |ops|
  {
    ops == [] || (Allowed(s, d, ops[0], timeout) && RunAllowed(Step(s, ops[0], timeout), d, ops[1..], timeout))
  }

  ghost function Run(s: State, ops: seq<Op>, timeout: Time): State
    decreases |ops|
  {
    if ops == [] then s else Run(Step(s, ops[0], timeout), ops[1..], timeout)
  }

  lemma StepCoherent(s: State, d: InodeID, op: Op, timeout: Time)
    requires Tree(s.cache) && NoDirModes(s.bucket) && Coherent(s, d) && Allowed(s, d, op, timeout)
    ensures var t := Step(s, op, timeout); Tree(t.cache) && NoDirModes(t.bucket) && Coherent(t, d)
    ensures Stays(s.cache, Step(s, op, timeout).cache)
  {
    var ttl := op.now + timeout;
    var c, b, p, n := s.cache, s.bucket, op.p, op.n;
    var f := FindSpec(c, b, p, n, op.now, ttl);
    FindTree(c, b, p, n, op.now, ttl);
    FindCoherent(c, b, p, n, op.now, ttl, d);
    if op.Create? {
      CreateCoherent(s, p, n, op.mode, op.now, ttl, d);
      if n !in f.nodes[p].children {
        FindNothing(c, b, p, n, op.now, ttl);
        AttachTree(c, p, n, op.mode, 0);
        AttachStays(c, p, n, op.mode, 0);
      }
    } else if op.Remove? && RemoveOutcome(f, p, n) == Removed {
      assert IsDirMode(f.nodes[p].mode) by { DirStays(c, b, p, n, op.now, ttl); }
      RemoveCoherent(State(f, b), p, n, d);
      DetachTree(f, p, n);
      DetachStays(f, p, n);
    }
  }

  // An operation keeps the agreement of d exactly when it is allowed.
  lemma StepCoherentIff(s: State, d: InodeID, op: Op, t: State, timeout: Time)
    requires Tree(s.cache) && NoDirModes(s.bucket) && Coherent(s, d) && t == Step(s, op, timeout)
    requires op.p in s.cache.nodes && IsDirMode(s.cache.nodes[op.p].mode) && ValidName(op.n)
    ensures Coherent(t, d) <==> Allowed(s, d, op, timeout)
  {
    if Allowed(s, d, op, timeout) {
      StepCoherent(s, d, op, timeout);
    } else {
      var f := FindSpec(s.cache, s.bucket, op.p, op.n, op.now, op.now + timeout);
      DirStays(s.cache, s.bucket, op.p, op.n, op.now, op.now + timeout);
      LeafChild(f, op.p, op.n);
      RemovalHarms(s, d, op.p, op.n, op.now, op.now + timeout, f, t);
    }
  }

  lemma LeafChild(f: Cache, p: InodeID, n: string)
    requires p in f.nodes
    ensures RemoveOutcome(f, p, n) == Removed ==> n in f.nodes[p].children && f.nodes[p].children[n] in f.nodes
  {}

  lemma RemovalHarms(s: State, d: InodeID, p: InodeID, n: string, now: Time, ttl: Time, f: Cache, t: State)
    requires Tree(s.cache) && NoDirModes(s.bucket) && Coherent(s, d)
    requires p in s.cache.nodes && IsDirMode(s.cache.nodes[p].mode) && ValidName(n)
    requires f == FindSpec(s.cache, s.bucket, p, n, now, ttl) && p in f.nodes && t == RemoveSpec(s, p, n, now, ttl)
    requires RemoveOutcome(f, p, n) == Removed
    requires n in f.nodes[p].children && f.nodes[p].children[n] in f.nodes
    requires f.nodes[p].children[n] == d || !RemovalHarmless(s.(cache := f), d, p, n, RemovedKey(f, p, n))
    ensures !Coherent(t, d)
  {
    FindTree(s.cache, s.bucket, p, n, now, ttl);
    FindCoherent(s.cache, s.bucket, p, n, now, ttl, d);
    DirStays(s.cache, s.bucket, p, n, now, ttl);
    HarmfulRemoval(State(f, s.bucket), p, n, d, t);
  }

  lemma HarmfulRemoval(s: State, p: InodeID, n: string, d: InodeID, t: State)
    requires Tree(s.cache) && p in s.cache.nodes && IsDirMode(s.cache.nodes[p].mode) && ValidName(n)
    requires RemoveOutcome(s.cache, p, n) == Removed && Coherent(s, d)
    requires n in s.cache.nodes[p].children && s.cache.nodes[p].children[n] in s.cache.nodes
    requires t == AfterRemoval(s, p, n)
    requires s.cache.nodes[p].children[n] == d || !RemovalHarmless(s, d, p, n, RemovedKey(s.cache, p, n))
    ensures !Coherent(t, d)
  {
    LeafRemoved(s.cache, p, n);
    if s.cache.nodes[p].children[n] != d { RemoveCoherent(s, p, n, d); }
  }

  // A directory that was listed completely stays so as long as it is attached.
  lemma StepComplete(s: State, d: InodeID, op: Op, t: State, timeout: Time)
    requires Tree(s.cache) && d in s.cache.nodes && t == Step(s, op, timeout) && d in t.cache.nodes
    ensures t.cache.nodes[d].complete == s.cache.nodes[d].complete
  {
    if op.p in s.cache.nodes { FindComplete(s.cache, s.bucket, op.p, op.n, op.now, op.now + timeout, d); }
  }

  lemma FindComplete(c: Cache, b: Bucket, p: InodeID, n: string, now: Time, ttl: Time, d: InodeID)
    requires Tree(c) && p in c.nodes && d in c.nodes
    ensures var f := FindSpec(c, b, p, n, now, ttl);
            d in f.nodes && f.nodes[d].complete == c.nodes[d].complete && f.next > d
  {
    IdsBelowNext(c);
  }

  lemma DirStays(c: Cache, b: Bucket, p: InodeID, n: string, now: Time, ttl: Time)
    requires Tree(c) && p in c.nodes && IsDirMode(c.nodes[p].mode) && ValidName(n) && NoDirModes(b)
    ensures p in FindSpec(c, b, p, n, now, ttl).nodes && IsDirMode(FindSpec(c, b, p, n, now, ttl).nodes[p].mode)
  {
    IdsBelowNext(c);
    if n in c.nodes[p].children {
      ChildNames(c, p, n);
      RevalidatedKeeps(c, b, c.nodes[p].children[n], ttl);
    }
  }

  // Cache coherence over runs: a directory that agrees with the bucket goes on
  // doing so through any lookups, creations and harmless removals, anywhere in
  // the tree and at any times.
  lemma {:induction false} RunCoherent(s: State, d: InodeID, ops: seq<Op>, timeout: Time)
    requires Tree(s.cache) && NoDirModes(s.bucket) && Coherent(s, d) && RunAllowed(s, d, ops, timeout)
    ensures Tree(Run(s, ops, timeout).cache) && Coherent(Run(s, ops, timeout), d)
    decreases |ops|
  {
    if ops != [] {
      StepCoherent(s, d, ops[0], timeout);
      RunCoherent(Step(s, ops[0], timeout), d, ops[1..], timeout);
    }
  }
}

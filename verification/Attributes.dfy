// Dentries attribute by attribute: what a lookup, a creation, a removal and a
// refresh make of modes, sizes, times, marks and flags, in terms of what the
// bucket holds.
module Attributes {
  import opened Basics
  import opened Listing
  import opened DentryTree
  import opened Merge
  import opened Sweep
  import opened Refresh
  import opened Paths
  import opened Lookup
  import opened Level

  // ---- Lookups --------------------------------------------------------------------------

  // All of a node but the size, the mode and the time.
  function Rest(n: Node): Node {
    n.(size := 0, mode := 0, ttl := 0)
  }

  // These caches have the same dentries, and only x may differ.
  ghost predicate OnlyDentry(c: Cache, f: Cache, x: InodeID) {
    f.next == c.next && f.nodes.Keys == c.nodes.Keys && forall r :: r in c.nodes && r != x ==> f.nodes[r] == c.nodes[r]
  }

  // A lookup of a cached name changes the time, the mode and the size of its
  // dentry at most, and only if its time is up: then the time is renewed.
  lemma LookupTime(c: Cache, b: Bucket, p: InodeID, n: string, now: Time, ttl: Time)
    requires Tree(c) && p in c.nodes && n in c.nodes[p].children
    ensures var f, x := FindSpec(c, b, p, n, now, ttl), c.nodes[p].children[n];
            && x in c.nodes && OnlyDentry(c, f, x) && Rest(f.nodes[x]) == Rest(c.nodes[x])
            && f.nodes[x].ttl == if c.nodes[x].ttl < now then ttl else c.nodes[x].ttl
  {
    ChildNames(c, p, n);
  }

  // What the store answers about a dentry: the size and the mode of its object,
  // or what an empty answer holds.
  ghost predicate Answered(b: Bucket, key: Key, isDir: bool, n: Node) {
    && n.size == (if key in b.objects then |b.objects[key]| else b.junk)
    && n.mode & 0x1FF == (if key in b.objects && key in b.modes then b.modes[key] & 0x1FF
                          else if isDir then 0x1ED else 0x1A4)
    && n.mode & !0x1FF == (if isDir && (key in b.objects ==> key !in b.modes) then 0x4000 else 0)
  }

  // The size and the mode of a cached name after a lookup: as they were while
  // there is time, and of a directory without an object; else what the store
  // answers.
  lemma LookupAttributes(c: Cache, b: Bucket, p: InodeID, n: string, now: Time, ttl: Time, kind: Kind)
    requires Tree(c) && p in c.nodes && ChildKind(c, p, n) == Some(kind)
    ensures var f, x, key := FindSpec(c, b, p, n, now, ttl), c.nodes[p].children[n], ChildKey(c, p, n, kind);
            && x in f.nodes
            && if c.nodes[x].ttl >= now || (key !in b.objects && kind.Dir?)
               then f.nodes[x].mode == c.nodes[x].mode && f.nodes[x].size == c.nodes[x].size
               else Answered(b, key, kind.Dir?, f.nodes[x])
  {
    var x, key := c.nodes[p].children[n], ChildKey(c, p, n, kind);
    ChildPaths(c, p, n);
    assert OwnKey(c, x) == key;
    assert FindSpec(c, b, p, n, now, ttl) == if c.nodes[x].ttl < now then Revalidated(c, b, x, ttl) else c;
    if key in b.objects || kind.File? {
      AnswerTaken(c, b, x, ttl, key, kind.Dir?);
    } else {
      NoAnswer(c, b, x, ttl, key);
    }
  }

  lemma NoAnswer(c: Cache, b: Bucket, x: InodeID, ttl: Time, key: Key)
    requires x in c.nodes && key == OwnKey(c, x) && IsDirMode(c.nodes[x].mode) && key !in b.objects
    ensures x in Revalidated(c, b, x, ttl).nodes
    ensures Revalidated(c, b, x, ttl).nodes[x].mode == c.nodes[x].mode
    ensures Revalidated(c, b, x, ttl).nodes[x].size == c.nodes[x].size
  {}

  lemma AnswerTaken(c: Cache, b: Bucket, x: InodeID, ttl: Time, key: Key, isDir: bool)
    requires x in c.nodes && key == OwnKey(c, x) && isDir == IsDirMode(c.nodes[x].mode)
    requires key in b.objects || !isDir
    ensures x in Revalidated(c, b, x, ttl).nodes && Answered(b, key, isDir, Revalidated(c, b, x, ttl).nodes[x])
  {
    RefreshedModeBits(isDir, if key in b.objects then Reported(b, key) else None);
  }

  // So a regular file is one after a lookup exactly while there is time: the mode
  // that it gets then has no type.
  lemma ExpiredType(c: Cache, b: Bucket, p: InodeID, n: string, now: Time, ttl: Time)
    requires Tree(c) && p in c.nodes && ChildKind(c, p, n) == Some(File)
    requires c.nodes[c.nodes[p].children[n]].mode & !0x1FF == 0x8000
    ensures var f, x := FindSpec(c, b, p, n, now, ttl), c.nodes[p].children[n];
            x in f.nodes && (f.nodes[x].mode & !0x1FF == 0x8000 <==> c.nodes[x].ttl >= now)
  {
    LookupAttributes(c, b, p, n, now, ttl, File);
  }

  // A lookup of a name that is not cached and not in the bucket changes nothing;
  // else it makes one dentry, fresh, unmarked, and not complete.
  lemma LookupNew(c: Cache, b: Bucket, p: InodeID, n: string, now: Time, ttl: Time)
    requires Tree(c) && p in c.nodes && n !in c.nodes[p].children
    ensures var f, kind := FindSpec(c, b, p, n, now, ttl), KindAt(Keys(b), DirPrefix(c, p), n);
            if kind.None? then f == c
            else
              var x := c.next;
              && x !in c.nodes && f.next == x + 1 && f.nodes.Keys == c.nodes.Keys + {x}
              && (forall r :: r in c.nodes && r != p ==> f.nodes[r] == c.nodes[r])
              && f.nodes[p] == c.nodes[p].(children := c.nodes[p].children[n := x])
              && f.nodes[x].name == n && f.nodes[x].parent == p && f.nodes[x].children == map[]
              && f.nodes[x].ttl == ttl && !f.nodes[x].synced && !f.nodes[x].complete
  {
    IdsBelowNext(c);
  }

  // Its size and mode are the object's; a directory without an object is empty
  // and has its parent's mode.
  lemma LookupNewAttributes(c: Cache, b: Bucket, p: InodeID, n: string, now: Time, ttl: Time, kind: Kind)
    requires Tree(c) && p in c.nodes && n !in c.nodes[p].children
    requires KindAt(Keys(b), DirPrefix(c, p), n) == Some(kind)
    ensures var f, key := FindSpec(c, b, p, n, now, ttl), ChildKey(c, p, n, kind);
            && c.next in f.nodes
            && if key !in b.objects then f.nodes[c.next].size == 0 && f.nodes[c.next].mode == c.nodes[p].mode
               else
                 && f.nodes[c.next].size == |b.objects[key]|
                 && f.nodes[c.next].mode & 0x1FF
                    == (if key in b.modes then b.modes[key] & 0x1FF else if kind.Dir? then 0x1F6 else 0x1A4)
                 && f.nodes[c.next].mode & !0x1FF == (if kind.Dir? then 0x4000 else 0x8000)
  {
    ObjModeBits(kind.Dir?, Reported(b, ChildKey(c, p, n, kind)));
  }

  // After every lookup that finds something the name can be had from the cache
  // until the time of its dentry is up.
  lemma LookupFresh(c: Cache, b: Bucket, p: InodeID, n: string, now: Time, ttl: Time, later: Time)
    requires Tree(c) && p in c.nodes && p in FindSpec(c, b, p, n, now, ttl).nodes
    requires n in FindSpec(c, b, p, n, now, ttl).nodes[p].children
    ensures Fresh(FindSpec(c, b, p, n, now, ttl), p, n, later)
            <==> later <= if Fresh(c, p, n, now) then c.nodes[c.nodes[p].children[n]].ttl else ttl
  {
    if n in c.nodes[p].children {
      LookupTime(c, b, p, n, now, ttl);
      ChildNames(c, p, n);
    } else {
      LookupNew(c, b, p, n, now, ttl);
    }
  }

  // ---- Creations and removals -------------------------------------------------------------

  // A creation of a name that the lookup did not find puts an empty object under
  // the key of its kind, and a dentry with the mode asked for, empty, unmarked,
  // not complete, and with its time already up.
  lemma CreatedNode(s: State, p: InodeID, n: string, mode: Mode, now: Time, ttl: Time, f: Cache)
    requires Tree(f) && p in s.cache.nodes && f == FindSpec(s.cache, s.bucket, p, n, now, ttl) && p in f.nodes
    ensures var t, x := CreateSpec(s, p, n, mode, now, ttl), f.next;
            if n in f.nodes[p].children then t.cache == f && t.bucket == s.bucket
            else
              var key := DirPrefix(f, p) + n + (if mode & 0x4000 != 0 then "/" else "");
              && t.bucket.modes == s.bucket.modes && key in t.bucket.objects && t.bucket.objects[key] == []
              && t.bucket.objects - {key} == s.bucket.objects - {key}
              && t.cache.next == x + 1 && t.cache.nodes.Keys == f.nodes.Keys + {x}
              && (forall r :: r in f.nodes && r != p ==> t.cache.nodes[r] == f.nodes[r])
              && t.cache.nodes[p] == f.nodes[p].(children := f.nodes[p].children[n := x])
              && t.cache.nodes[x] == Node(n, p, mode, 0, false, 0, false, map[])
  {
    IdsBelowNext(f);
    assert DirPrefix(f, p) + n + "" == DirPrefix(f, p) + n;
  }

  // Removing a child takes off the child and what is below it, and no other
  // dentry; its directory loses the name, and all else is as it was.
  lemma DetachNodes(c: Cache, p: InodeID, n: string, x: InodeID, t: Cache)
    requires Tree(c) && p in c.nodes && n in c.nodes[p].children && x == c.nodes[p].children[n]
    requires t == Detach(c, p, n)
    ensures t.next == c.next && p in t.nodes && t.nodes[p] == c.nodes[p].(children := c.nodes[p].children - {n})
    ensures forall r :: r in t.nodes <==> r in c.nodes && !Below(c, x, r)
    ensures forall r :: r in t.nodes && r != p ==> t.nodes[r] == c.nodes[r]
  {
    ChildNames(c, p, n);
    if Below(c, x, p) { BelowOrder(c, x, p); }
  }

  // A removal takes the object of the name and its dentry, unless the dentry is a
  // directory with cached children.
  lemma RemovedNode(s: State, p: InodeID, n: string, now: Time, ttl: Time, f: Cache, x: InodeID, t: State)
    requires Tree(f) && p in s.cache.nodes && f == FindSpec(s.cache, s.bucket, p, n, now, ttl) && p in f.nodes
    requires n in f.nodes[p].children && x == f.nodes[p].children[n] && t == RemoveSpec(s, p, n, now, ttl)
    ensures x in f.nodes
    ensures if f.nodes[x].mode & 0x4000 != 0 && f.nodes[x].children != map[] then t == s.(cache := f)
            else
              var key := DirPrefix(f, p) + n + (if f.nodes[x].mode & 0x4000 != 0 then "/" else "");
              t.bucket == s.bucket.(objects := s.bucket.objects - {key}) && t.cache == Detach(f, p, n)
  {
    ChildNames(f, p, n);
    assert DirPrefix(f, p) + n + "" == DirPrefix(f, p) + n;
  }

  lemma RemovedNothing(s: State, p: InodeID, n: string, now: Time, ttl: Time, f: Cache)
    requires p in s.cache.nodes && f == FindSpec(s.cache, s.bucket, p, n, now, ttl) && p in f.nodes
    requires n !in f.nodes[p].children
    ensures RemoveSpec(s, p, n, now, ttl) == s.(cache := f)
  {}

  // Adding a child under any name makes one dentry and takes off what had the
  // name, with all below it.
  lemma AttachOverExact(c: Cache, p: InodeID, n: string, mode: Mode, size: nat, d: Cache)
    requires Tree(c) && p in c.nodes && d == AttachOver(c, p, n, mode, size)
    ensures forall r :: r in d.nodes <==>
              r == c.next
              || (r in c.nodes && (n in c.nodes[p].children ==> !Below(c, c.nodes[p].children[n], r)))
    ensures d.nodes[c.next] == Node(n, p, mode, size, false, 0, false, map[])
  {
    if n in c.nodes[p].children {
      DetachNodes(c, p, n, c.nodes[p].children[n], Detach(c, p, n));
    }
  }

  // ---- Refreshes ----------------------------------------------------------------------------

  lemma MergedSize(c: Cache, m: Cache, d: InodeID, info: Info, x: InodeID)
    requires Tree(c) && d in c.nodes && x in c.nodes && x != d && MergedBy(c, m, d, info)
    requires forall q :: q in info ==> |q| == 1
    ensures x in m.nodes
    ensures var n := c.nodes[x];
            m.nodes[x].size == if x != ROOT && n.parent == d && [n.name] in info then info[[n.name]].size else n.size
  {
    assert Placed(c, x);
    if Below(c, d, x) {
      var q := PathBelow(c, d, x);
      PathBelowWalks(c, d, x);
      assert PathMerged(c, m, d, info, q);
      ChildPath(c, d, x, q);
    }
  }

  // A path of one name leads to a child.
  lemma ChildPath(c: Cache, d: InodeID, x: InodeID, q: seq<string>)
    requires Tree(c) && d in c.nodes && x in c.nodes && x != ROOT && Walk(c, d, q) == Some(x)
    ensures |q| == 1 <==> c.nodes[x].parent == d
    ensures q == [c.nodes[x].name] <==> c.nodes[x].parent == d
  {
    assert Placed(c, x);
    if |q| == 1 {
      assert q == [q[0]];
      WalkOne(c, d, q[0]);
      ChildNames(c, d, q[0]);
    }
    if c.nodes[x].parent == d {
      WalkOne(c, d, c.nodes[x].name);
      WalkUnique(c, d, q, [c.nodes[x].name]);
    }
  }

  lemma SweptSize(m: Cache, d: InodeID, ttl: Time, x: InodeID)
    requires x in Swept(m, d, ttl).nodes
    ensures x in m.nodes && Swept(m, d, ttl).nodes[x].size == m.nodes[x].size
  {}

  // A refresh of d leaves all that is not below d as it is, and makes dentries for
  // children of d only.
  lemma RefreshedOutside(c: Cache, s: Cache, d: InodeID, b: Bucket, max: nat, ttl: Time, m: Cache)
    requires Tree(c) && d in c.nodes && RefreshedWith(c, s, d, b, max, ttl, m)
    ensures forall r :: r in c.nodes && !Below(c, d, r) ==> r in s.nodes && s.nodes[r] == c.nodes[r]
    ensures forall r :: r in s.nodes && r !in c.nodes ==> c.next <= r < s.next && Below(m, d, r)
  {
    IdsBelowNext(m);
    forall r | r in c.nodes && !Below(c, d, r) ensures r in s.nodes && s.nodes[r] == c.nodes[r] {
      BelowStable(c, m, d, r);
    }
  }

  // There is something to show in the directory, or it counted as complete before.
  ghost predicate Shows(c: Cache, b: Bucket, d: InodeID)
    requires d in c.nodes
  {
    || c.nodes[d].complete || c.nodes[d].children != map[]
    || exists n :: ValidName(n) && KindAt(Keys(b), DirPrefix(c, d), n).Some?
  }

  // The directory itself keeps its name, its parent, its mode and its size. It is
  // marked and fresh, and complete exactly when it was before, or when it had
  // children or gets some: an empty directory never becomes complete.
  lemma RefreshedSelf(c: Cache, s: Cache, d: InodeID, b: Bucket, max: nat, ttl: Time, m: Cache)
    requires Tree(c) && d in c.nodes && RefreshedWith(c, s, d, b, max, ttl, m)
    ensures d in s.nodes && s.nodes[d].synced && s.nodes[d].ttl == ttl
    ensures s.nodes[d].name == c.nodes[d].name && s.nodes[d].parent == c.nodes[d].parent
    ensures s.nodes[d].mode == c.nodes[d].mode && s.nodes[d].size == c.nodes[d].size
    ensures s.nodes[d].complete <==> Shows(c, b, d)
  {
    var info := PagedInfo(b, DirPrefix(c, d), max);
    SweptTree(m, d, ttl);
    assert PathMerged(c, m, d, info, []);
    assert Below(m, d, d);
    MergedChildren(c, m, d, b, DirPrefix(c, d), info);
  }

  // After the merge the directory has children exactly if it had some or the
  // bucket lists some.
  lemma MergedChildren(c: Cache, m: Cache, d: InodeID, b: Bucket, prefix: Key, info: Info)
    requires Tree(c) && d in c.nodes && d in m.nodes && MergedBy(c, m, d, info)
    requires LevelInfo(info, b, prefix, EntrySet(Keys(b), prefix, true))
    ensures m.nodes[d].children != map[] <==>
            c.nodes[d].children != map[] || exists n :: ValidName(n) && KindAt(Keys(b), prefix, n).Some?
  {
    forall n ensures n in m.nodes[d].children <==>
                     n in c.nodes[d].children || (ValidName(n) && KindAt(Keys(b), prefix, n).Some?)
    {
      MergedChild(c, m, d, b, prefix, info, n);
    }
    if c.nodes[d].children != map[] {
      var n :| n in c.nodes[d].children;
      assert n in m.nodes[d].children;
    }
    if m.nodes[d].children != map[] {
      var n :| n in m.nodes[d].children;
    }
  }

  lemma MergedChild(c: Cache, m: Cache, d: InodeID, b: Bucket, prefix: Key, info: Info, n: string)
    requires Tree(c) && d in c.nodes && d in m.nodes && MergedBy(c, m, d, info)
    requires LevelInfo(info, b, prefix, EntrySet(Keys(b), prefix, true))
    ensures n in m.nodes[d].children <==>
            n in c.nodes[d].children || (ValidName(n) && KindAt(Keys(b), prefix, n).Some?)
  {
    var entries := EntrySet(Keys(b), prefix, true);
    assert PathMerged(c, m, d, info, [n]);
    WalkOne(c, d, n);
    WalkOne(m, d, n);
    EntryNames(Keys(b), prefix, entries, n);
    if ValidName(n) { ListedNames(Keys(b), prefix, n); }
    if [n] in info { assert [n][0] == n; }
    if n in PageNames(prefix, entries) { assert NameInfo(info, b, prefix, entries, n); }
  }

  // So it is live after its refresh, until its time is up, exactly when it is
  // not empty or was complete before.
  lemma RefreshedLive(c: Cache, s: Cache, d: InodeID, b: Bucket, max: nat, ttl: Time, m: Cache, later: Time)
    requires Tree(c) && d in c.nodes && RefreshedWith(c, s, d, b, max, ttl, m)
    ensures Live(s, d, later) <==> later <= ttl && Shows(c, b, d)
  {
    RefreshedSelf(c, s, d, b, max, ttl, m);
  }

  // What was cached below d and stays keeps its name, its parent and its mode. It
  // is fresh, marked exactly if it is a directory, and a directory that had
  // children is complete. Children of d take the listed size.
  lemma RefreshedOld(c: Cache, s: Cache, d: InodeID, b: Bucket, max: nat, ttl: Time, m: Cache, x: InodeID)
    requires Tree(c) && d in c.nodes && RefreshedWith(c, s, d, b, max, ttl, m)
    requires x in c.nodes && Below(c, d, x) && x != d && x in s.nodes
    ensures s.nodes[x].name == c.nodes[x].name && s.nodes[x].parent == c.nodes[x].parent
    ensures s.nodes[x].mode == c.nodes[x].mode && s.nodes[x].ttl == ttl
    ensures s.nodes[x].synced <==> IsDirMode(c.nodes[x].mode)
    ensures IsDirMode(c.nodes[x].mode) ==>
              (s.nodes[x].complete <==> c.nodes[x].complete || c.nodes[x].children != map[])
    ensures var n, info := c.nodes[x], PagedInfo(b, DirPrefix(c, d), max);
            s.nodes[x].size == if n.parent == d && [n.name] in info then info[[n.name]].size else n.size
  {
    var info := PagedInfo(b, DirPrefix(c, d), max);
    assert Placed(c, x) && Placed(c, d);
    if x == ROOT { BelowOrder(c, d, x); }
    SubdirectoriesHollowed(c, m, d, info, ttl, x);
    BelowStable(c, m, d, x);
    MergedSize(c, m, d, info, x);
    SweptSize(m, d, ttl, x);
  }

  // What is new is a child of d, without children, fresh, not complete, and marked
  // exactly if it is a directory. A file has the permissions that the store
  // reports, a directory has the default ones.
  lemma RefreshedNew(c: Cache, s: Cache, d: InodeID, b: Bucket, max: nat, ttl: Time, m: Cache, n: string, x: InodeID)
    requires Tree(c) && d in c.nodes && RefreshedWith(c, s, d, b, max, ttl, m) && ValidName(n)
    requires d in s.nodes && n in s.nodes[d].children && n !in c.nodes[d].children && x == s.nodes[d].children[n]
    ensures x in s.nodes && s.nodes[x].name == n && s.nodes[x].parent == d && s.nodes[x].children == map[]
    ensures s.nodes[x].ttl == ttl && !s.nodes[x].complete
    ensures var key := DirPrefix(c, d) + n;
            if key in b.objects
            then
              && s.nodes[x].mode & !0x1FF == 0x8000 && !s.nodes[x].synced
              && s.nodes[x].mode & 0x1FF == (if key in b.modes then b.modes[key] & 0x1FF else 0x1A4)
            else s.nodes[x].mode == 0x41F6 && s.nodes[x].synced
  {
    var info := PagedInfo(b, DirPrefix(c, d), max);
    RefreshTree(c, s, d, b, max, ttl, m);
    ChildNames(s, d, n);
    NewChildBare(c, s, d, b, max, ttl, m, n);
    NewMode(c, m, d, b, DirPrefix(c, d), info, n, x);
    ChildNames(m, d, n);
  }

  lemma NewMode(c: Cache, m: Cache, d: InodeID, b: Bucket, prefix: Key, info: Info, n: string, x: InodeID)
    requires Tree(c) && d in c.nodes && d in m.nodes && MergedBy(c, m, d, info)
    requires LevelInfo(info, b, prefix, EntrySet(Keys(b), prefix, true)) && ValidName(n)
    requires n !in c.nodes[d].children && n in m.nodes[d].children && x == m.nodes[d].children[n]
    ensures x in m.nodes
    ensures if prefix + n in b.objects
            then m.nodes[x].mode & !0x1FF == 0x8000
                 && m.nodes[x].mode & 0x1FF == (if prefix + n in b.modes then b.modes[prefix + n] & 0x1FF else 0x1A4)
            else m.nodes[x].mode == 0x41F6
  {
    var entries := EntrySet(Keys(b), prefix, true);
    assert PathMerged(c, m, d, info, [n]);
    WalkOne(c, d, n);
    WalkOne(m, d, n);
    assert [n][0] in PageNames(prefix, entries);
    assert NameInfo(info, b, prefix, entries, n);
    FileEntry(Keys(b), prefix, n);
    ObjModeBits(info[[n]].isDir, info[[n]].mode);
  }

  // A directory that is listed gets the size 0.
  lemma {:induction false} DirectorySize(b: Bucket, prefix: Key, n: string, info: Info, entries: set<Key>,
                                         marker: Key, max: nat)
    requires max >= 1 && prefix + n !in entries && ([n] in info ==> info[[n]].size == 0)
    ensures var all := Merged(b, prefix, info, Pages(entries, marker, max));
            [n] in all ==> all[[n]].size == 0
    decreases |Remaining(entries, marker)|
  {
    var p := PageAfter(entries, marker, max);
    PageStep(entries, marker, max, p, Sorted(Remaining(entries, marker)));
    PagesNext(b, prefix, info, entries, marker, max, p);
    PageDirectory(b, prefix, n, p);
    if p.isTrunc {
      DirectorySize(b, prefix, n, Then(info, PageInfo(b, prefix, p)), entries, p.nextMarker, max);
    }
  }

  lemma PageDirectory(b: Bucket, prefix: Key, n: string, p: Page)
    requires prefix + n !in p.entries
    ensures [n] in PageInfo(b, prefix, p) ==> PageInfo(b, prefix, p)[[n]].size == 0
  {
    assert prefix + n !in Elements(p.entries);
    var ts := PageTree(b, prefix, Elements(p.entries));
    if InfoAt(ts, [n]).Some? { assert ts[n] == NodeFor(b, prefix, Elements(p.entries), n); }
  }

  // A mount starts with the root alone: a directory of mode 0766 whose time is up
  // at once.
  lemma ColdRoot()
    ensures ColdCache() == Cache(map[ROOT := Node("", 0, 0x41F6, 0, false, 0, false, map[])], ROOT + 1)
    ensures forall now :: !Live(ColdCache(), ROOT, now)
  {}
}

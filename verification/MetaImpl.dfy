// The metadata service: the dentry cache in front of the bucket.
module MetaService {
  import opened Basics
  import opened Listing
  import opened DentryTree
  import opened DentryNode
  import opened LocalMeta
  import opened Merge
  import opened Sweep
  import opened Paths
  import opened Lookup
  import opened Coherence
  import opened Level
  import opened Attributes
  import opened SequentialStream
  import Stor

  class MetaImpl {
    const local: LocalMemMeta
    const stor: Stor.Stor
    const timeout: Time

    ghost function TheBucket(): Bucket
      reads stor
    {
      Bucket(stor.objects, stor.modes, stor.junk)
    }

    ghost predicate Valid()
      reads this, local, local.all.Values, stor
    {
      local.Valid() && stor.Valid() && NoDirModes(TheBucket())
    }

    // The directory part of a call: an attached directory and an entry name.
    ghost predicate Names(pino: InodeID, name: string)
      reads local
    {
      local.Usable(pino) && ValidName(name)
      && (pino in local.cache.nodes ==> IsDirMode(local.cache.nodes[pino].mode))
    }

    constructor (local: LocalMemMeta, stor: Stor.Stor, timeout: Time)
      requires local.Valid() && stor.Valid() && NoDirModes(Bucket(stor.objects, stor.modes, stor.junk))
      ensures Valid() && this.local == local && this.stor == stor && this.timeout == timeout
    {
      this.local, this.stor, this.timeout := local, stor, timeout;
    }

    // Is there an object of this name, or else a directory placeholder?
    method GetRemoteObj(parent: Dentry, name: string) returns (exist: bool, isDir: bool, obj: Stor.ObjInfo)
      requires Valid() && local.Attached(parent)
      modifies stor`log
      ensures Valid()
      ensures var key := DirPrefix(local.cache, parent.ino) + name;
              && exist == (key in stor.objects || key + "/" in stor.objects)
              && isDir == (exist && key !in stor.objects)
              && (exist ==> obj == Stor.InfoOf(stor.objects, stor.modes, if isDir then key + "/" else key))
              && stor.log == old(stor.log)
                             + [HeadFile(key)] + (if key in stor.objects then [] else [HeadFile(key + "/")])
    {
      assert ShownAt(local.all, local.cache, parent.ino);
      var fullpath := parent.GetFullPathWithSlash(local.cache, local.all);
      fullpath := fullpath + name;
      isDir := false;
      exist, obj := stor.HeadFile(fullpath);
      if !exist {
        exist, obj := stor.HeadFile(fullpath + "/");
        if exist {
          isDir := true;
        }
      }
    }

    // Does any key start with this prefix?
    method IsRemoteDirExist(path: string) returns (r: bool)
      requires Valid()
      modifies stor`log
      ensures Valid()
      ensures r <==> exists k :: k in stor.objects && path < k
      ensures stor.log == old(stor.log) + [ListObjects(path, false, "")]
    {
      var resp := stor.ListObjects(false, path, 1, "");
      ListedAny(stor.objects.Keys, path);
      r := |resp.objs| > 0;
    }

    lemma ListedAny(keys: set<Key>, path: string)
      ensures |PageAfter(EntrySet(keys, path, false), "", 1).entries| > 0 <==> exists k :: k in keys && path < k
    {
      var all := EntrySet(keys, path, false);
      var rest := Remaining(all, "");
      if k :| k in keys && path < k {
        assert EntryOf(path, k, false) == k && k in all;
        assert Less("", k) && k in rest;
      }
      if rest != {} {
        var e :| e in rest;
        var k :| k in keys && path < k && e == EntryOf(path, k, false);
      }
    }

    // The miss branch of find_dentry.
    method FetchDentry(parent: Dentry, name: string, now: Time) returns (r: FindResult)
      requires Valid() && local.Attached(parent) && IsDirMode(parent.mode) && ValidName(name)
      requires name !in local.cache.nodes[parent.ino].children
      modifies local, parent, stor`log
      ensures Valid()
      ensures local.cache == Fetched(old(local.cache), TheBucket(), parent.ino, name, now + timeout)
      ensures Extends(old(local.all), local.all)
      ensures forall i :: i in local.all && i !in old(local.all) ==> fresh(local.all[i])
      ensures r.Found? || r.NotFound?
      ensures r.Found? ==> local.Attached(r.dentry) && r.dentry.ino == old(local.cache).next
      ensures r.NotFound? <==> KindAt(Keys(TheBucket()), DirPrefix(old(local.cache), parent.ino), name) == None
      ensures stor.log == old(stor.log) + MissCalls(stor.objects.Keys, DirPrefix(old(local.cache), parent.ino) + name)
    {
      assert ShownAt(local.all, local.cache, parent.ino);
      var prefix := parent.GetFullPathWithSlash(local.cache, local.all);
      ThreeProbes(Keys(TheBucket()), prefix, name);
      var exist, isDir, obj := GetRemoteObj(parent, name);
      if exist {
        r := CacheObject(parent, name, now, isDir, obj);
        return;
      }
      var under := IsRemoteDirExist(prefix + name + "/");
      if !under {
        return NotFound;
      }
      r := CacheVirtualDir(parent, name, now);
    }

    // A dentry for an object of the bucket.
    method CacheObject(parent: Dentry, name: string, now: Time, isDir: bool, obj: Stor.ObjInfo) returns (r: FindResult)
      requires Valid() && local.Attached(parent) && IsDirMode(parent.mode) && ValidName(name)
      requires name !in local.cache.nodes[parent.ino].children
      requires var key := DirPrefix(local.cache, parent.ino) + name;
               && (isDir <==> key !in stor.objects) && (isDir ==> key + "/" in stor.objects)
               && obj == Stor.InfoOf(stor.objects, stor.modes, if isDir then key + "/" else key)
      modifies local, parent
      ensures Valid() && Extends(old(local.all), local.all)
      ensures forall i :: i in local.all && i !in old(local.all) ==> fresh(local.all[i])
      ensures local.cache == Fetched(old(local.cache), TheBucket(), parent.ino, name, now + timeout)
      ensures r.Found? && local.Attached(r.dentry) && r.dentry.ino == old(local.cache).next
    {
      FetchedObject(local.cache, TheBucket(), parent.ino, name, now + timeout, isDir);
      r := AttachObject(parent, name, isDir, obj);
      local.RenewTtl(r.dentry, now, timeout);
    }

    method AttachObject(parent: Dentry, name: string, isDir: bool, obj: Stor.ObjInfo) returns (r: FindResult)
      requires Valid() && local.Attached(parent) && IsDirMode(parent.mode) && ValidName(name)
      requires name !in local.cache.nodes[parent.ino].children
      modifies local, parent
      ensures Valid() && Extends(old(local.all), local.all)
      ensures forall i :: i in local.all && i !in old(local.all) ==> fresh(local.all[i])
      ensures local.cache == Attach(old(local.cache), parent.ino, name, ObjMode(isDir, obj.mode), obj.size)
      ensures r.Found? && local.Attached(r.dentry) && r.dentry.ino == old(local.cache).next
    {
      assert ShownAt(local.all, local.cache, parent.ino);
      r := local.CreateDentryFromObj(parent.ino, name, obj.mode, obj.size, isDir);
    }

    // A dentry for a directory that exists only as a prefix of keys.
    method CacheVirtualDir(parent: Dentry, name: string, now: Time) returns (r: FindResult)
      requires Valid() && local.Attached(parent) && IsDirMode(parent.mode) && ValidName(name)
      requires name !in local.cache.nodes[parent.ino].children
      requires KindAt(Keys(TheBucket()), DirPrefix(local.cache, parent.ino), name) == Some(Dir)
      requires DirPrefix(local.cache, parent.ino) + name + "/" !in stor.objects
      modifies local, parent
      ensures Valid() && Extends(old(local.all), local.all)
      ensures forall i :: i in local.all && i !in old(local.all) ==> fresh(local.all[i])
      ensures local.cache == Fetched(old(local.cache), TheBucket(), parent.ino, name, now + timeout)
      ensures r.Found? && local.Attached(r.dentry) && r.dentry.ino == old(local.cache).next
    {
      FetchedVirtual(local.cache, TheBucket(), parent.ino, name, now + timeout);
      r := AttachVirtual(parent, name);
      local.RenewTtl(r.dentry, now, timeout);
    }

    method AttachVirtual(parent: Dentry, name: string) returns (r: FindResult)
      requires Valid() && local.Attached(parent) && IsDirMode(parent.mode) && ValidName(name)
      requires name !in local.cache.nodes[parent.ino].children
      modifies local, parent
      ensures Valid() && Extends(old(local.all), local.all)
      ensures forall i :: i in local.all && i !in old(local.all) ==> fresh(local.all[i])
      ensures local.cache == Attach(old(local.cache), parent.ino, name, old(local.cache).nodes[parent.ino].mode, 0)
      ensures r.Found? && local.Attached(r.dentry) && r.dentry.ino == old(local.cache).next
    {
      assert ShownAt(local.all, local.cache, parent.ino);
      var inode := local.CreateNewInode(parent.mode);
      assert old(local.cache).(next := inode.ino + 1).(next := inode.ino) == old(local.cache);
      r := local.CreateDentry(parent.ino, name, inode);
    }

    // The expired branch of find_dentry.
    method Revalidate(d: Dentry, now: Time)
      requires Valid() && local.Attached(d) && d.ino != ROOT
      modifies local, d, stor`log
      ensures Valid() && local.all == old(local.all)
      ensures local.cache == Revalidated(old(local.cache), TheBucket(), d.ino, now + timeout)
      ensures stor.log == old(stor.log) + [HeadFile(OwnKey(old(local.cache), d.ino))]
    {
      assert ShownAt(local.all, local.cache, d.ino);
      ghost var c := local.cache;
      var path;
      if d.IsDir() {
        path := d.GetFullPathWithSlash(c, local.all);
      } else {
        path := d.GetFullPath(c, local.all);
      }
      var exist, obj := stor.HeadFile(path);
      if !exist && d.IsDir() {
        local.RenewTtl(d, now, timeout);
        return;
      }
      RevalidatedKeeps(c, TheBucket(), d.ino, now + timeout);
      Reload(d, obj.size, RefreshedMode(d.IsDir(), obj.mode), now);
    }

    // Overwrites the attributes of a dentry and gives it more time.
    method Reload(d: Dentry, size: nat, mode: Mode, now: Time)
      requires local.Valid() && local.Attached(d) && IsDirMode(mode) == IsDirMode(local.cache.nodes[d.ino].mode)
      modifies local, d
      ensures local.Valid() && local.all == old(local.all)
      ensures local.cache == SetNode(old(local.cache), d.ino,
                                     old(local.cache).nodes[d.ino].(size := size, mode := mode, ttl := now + timeout))
    {
      ghost var c := local.cache;
      var ok := local.UpdateInode(d.ino, Some(size), Some(mode));
      local.RenewTtl(d, now, timeout);
      SetTwice(c, d.ino, LocalMemMeta.WithAttributes(c.nodes[d.ino], Some(size), Some(mode)),
               c.nodes[d.ino].(size := size, mode := mode, ttl := now + timeout));
    }

    // A name in a directory: from the cache if its time is not up, else from
    // the bucket. An answer from a live cache entry costs no call.
    method FindDentry(pino: InodeID, name: string, onlyLocal: bool, now: Time) returns (r: FindResult)
      requires Valid() && Names(pino, name)
      modifies local, local.all.Values, stor`log
      ensures Valid() && Extends(old(local.all), local.all)
      ensures forall i :: i in local.all && i !in old(local.all) ==> fresh(local.all[i])
      ensures r.InvalidInode? <==> pino !in old(local.cache).nodes
      ensures var c := old(local.cache);
              pino in c.nodes ==>
                && local.cache == (if onlyLocal && name !in c.nodes[pino].children then c
                                   else FindSpec(c, TheBucket(), pino, name, now, now + timeout))
                && pino in local.cache.nodes
                && (r.NotFound? <==> name !in local.cache.nodes[pino].children)
                && (r.Found? ==> name in local.cache.nodes[pino].children && local.Attached(r.dentry)
                                 && r.dentry.ino == local.cache.nodes[pino].children[name])
                && stor.log == old(stor.log) + (if onlyLocal && name !in c.nodes[pino].children then []
                                                else FindCalls(c, TheBucket(), pino, name, now))
    {
      r := local.FindDentry(pino, name);
      if r.InvalidInode? {
        return;
      }
      if r.NotFound? {
        if onlyLocal {
          return;
        }
        r := FetchMissing(pino, name, now);
        return;
      }
      ghost var c := local.cache;
      ChildNames(c, pino, name);
      assert ShownAt(local.all, local.cache, r.dentry.ino);
      if !r.dentry.IsExpired(now) {
        return;
      }
      IdsBelowNext(c);
      RevalidatedKeeps(c, TheBucket(), r.dentry.ino, now + timeout);
      Revalidate(r.dentry, now);
    }

    method FetchMissing(pino: InodeID, name: string, now: Time) returns (r: FindResult)
      requires Valid() && Names(pino, name) && pino in local.cache.nodes && name !in local.cache.nodes[pino].children
      modifies local, local.all.Values, stor`log
      ensures Valid() && Extends(old(local.all), local.all)
      ensures forall i :: i in local.all && i !in old(local.all) ==> fresh(local.all[i])
      ensures local.cache == FindSpec(old(local.cache), TheBucket(), pino, name, now, now + timeout)
      ensures stor.log == old(stor.log) + FindCalls(old(local.cache), TheBucket(), pino, name, now)
      ensures pino in local.cache.nodes && !r.InvalidInode?
      ensures r.NotFound? <==> name !in local.cache.nodes[pino].children
      ensures r.Found? ==> name in local.cache.nodes[pino].children && local.Attached(r.dentry)
                           && r.dentry.ino == local.cache.nodes[pino].children[name]
    {
      ghost var c := local.cache;
      IdsBelowNext(c);
      assert ShownAt(local.all, c, pino);
      var parent := local.GetDentry(pino);
      r := FetchDentry(parent, name, now);
    }

    // A second lookup of a name that the first one found, before the time that it
    // got is up, costs no call, and changes nothing.
    method FindTwice(pino: InodeID, name: string, now: Time, later: Time) returns (r: FindResult, again: FindResult)
      requires Valid() && Names(pino, name) && pino in local.cache.nodes && !Fresh(local.cache, pino, name, now)
      requires later <= now + timeout
      modifies local, local.all.Values, stor`log
      ensures Valid()
      ensures r.Found? ==>
                && again.Found? && again.dentry.ino == r.dentry.ino
                && stor.log == old(stor.log) + FindCalls(old(local.cache), TheBucket(), pino, name, now)
                && local.cache == FindSpec(old(local.cache), TheBucket(), pino, name, now, now + timeout)
    {
      ghost var c, b := local.cache, TheBucket();
      r := FindDentry(pino, name, false, now);
      again := r;
      if r.Found? {
        ghost var f := local.cache;
        assert TheBucket() == b;
        FoundAgain(c, b, pino, name, now, timeout, later, f);
        again := FindDentry(pino, name, false, later);
      }
    }

    lemma FoundAgain(c: Cache, b: Bucket, p: InodeID, n: string, now: Time, timeout: Time, later: Time, f: Cache)
      requires Tree(c) && p in c.nodes && IsDirMode(c.nodes[p].mode) && ValidName(n) && NoDirModes(b)
      requires f == FindSpec(c, b, p, n, now, now + timeout) && p in f.nodes && n in f.nodes[p].children
      requires !Fresh(c, p, n, now) && later <= now + timeout
      ensures IsDirMode(f.nodes[p].mode) && FindCalls(f, b, p, n, later) == []
      ensures FindSpec(f, b, p, n, later, later + timeout) == f
    {
      LookupFresh(c, b, p, n, now, now + timeout, later);
      DirStays(c, b, p, n, now, now + timeout);
    }

    // Creates an object and a dentry for a name that is neither cached nor in the bucket.
    method CreateDentry(pino: InodeID, name: string, mode: Mode, now: Time) returns (r: FindResult)
      requires Valid() && Names(pino, name)
      modifies local, local.all.Values, stor`objects, stor`log
      ensures Valid() && Extends(old(local.all), local.all)
      ensures forall i :: i in local.all && i !in old(local.all) ==> fresh(local.all[i])
      ensures r.InvalidInode? <==> pino !in old(local.cache).nodes
      ensures r.InvalidInode? || r.Found?
      ensures var s := State(old(local.cache), old(TheBucket()));
              pino in s.cache.nodes ==>
                && pino in FindSpec(s.cache, s.bucket, pino, name, now, now + timeout).nodes
                && State(local.cache, TheBucket()) == CreateSpec(s, pino, name, mode, now, now + timeout)
                && pino in local.cache.nodes && name in local.cache.nodes[pino].children
                && r.dentry.ino == local.cache.nodes[pino].children[name] && local.Attached(r.dentry)
      ensures pino in old(local.cache).nodes ==>
                stor.log == old(stor.log) + CreateCalls(State(old(local.cache), old(TheBucket())), pino, name, mode,
                                                        now, now + timeout)
    {
      r := FindDentry(pino, name, false, now);
      if !r.NotFound? {
        return;
      }
      ghost var c, b := old(local.cache), old(TheBucket());
      FindNothing(c, b, pino, name, now, now + timeout);
      CallsJoin(old(stor.log), FindCalls(c, b, pino, name, now), [PutFile(ChildKey(c, pino, name, KindOf(mode)), [])]);
      r := CreateNew(pino, name, mode);
    }

    // A name that is neither cached nor in the bucket.
    method CreateNew(pino: InodeID, name: string, mode: Mode) returns (r: FindResult)
      requires Valid() && Names(pino, name) && pino in local.cache.nodes && name !in local.cache.nodes[pino].children
      modifies local, local.all.Values, stor`objects, stor`log
      ensures Valid() && Extends(old(local.all), local.all)
      ensures forall i :: i in local.all && i !in old(local.all) ==> fresh(local.all[i])
      ensures local.cache == Attach(old(local.cache), pino, name, mode, 0)
      ensures stor.objects == old(stor.objects)[ChildKey(old(local.cache), pino, name, KindOf(mode)) := []]
      ensures stor.log == old(stor.log) + [PutFile(ChildKey(old(local.cache), pino, name, KindOf(mode)), [])]
      ensures r.Found? && r.dentry.ino == old(local.cache).next && local.Attached(r.dentry)
    {
      ghost var c := local.cache;
      assert ShownAt(local.all, c, pino);
      var parent := local.GetDentry(pino);
      PutObject(parent, name, mode);
      var inode := local.CreateNewInode(mode);
      assert c.(next := inode.ino + 1).(next := inode.ino) == c;
      r := local.CreateDentry(pino, name, inode);
      IdsBelowNext(c);
    }

    // The empty object or directory placeholder that stands for a new dentry.
    method PutObject(parent: Dentry, name: string, mode: Mode)
      requires Valid() && local.Attached(parent)
      modifies stor`objects, stor`log
      ensures Valid()
      ensures stor.objects == old(stor.objects)[ChildKey(local.cache, parent.ino, name, KindOf(mode)) := []]
      ensures stor.log == old(stor.log) + [PutFile(ChildKey(local.cache, parent.ino, name, KindOf(mode)), [])]
    {
      ghost var c := local.cache;
      assert ShownAt(local.all, c, parent.ino);
      var key;
      if parent.IsRoot() {
        key := name;
        assert DirPrefix(c, parent.ino) + name == name;
      } else {
        key := parent.GetFullPath(c, local.all);
        key := key + "/" + name;
        PathRoundTrip(c, parent.ino);
      }
      if IsDirMode(mode) {
        key := key + "/";
      }
      stor.PutFile(key, []);
    }

    // Removes a file, or a directory without cached children, from the bucket
    // and from the cache.
    method RemoveDentry(pino: InodeID, name: string, now: Time) returns (valid: bool, r: RemoveResult)
      requires Valid() && Names(pino, name)
      modifies local, local.all.Values, stor`objects, stor`log
      ensures Valid() && Extends(old(local.all), local.all)
      ensures forall i :: i in local.all && i !in old(local.all) ==> fresh(local.all[i])
      ensures valid <==> pino in old(local.cache).nodes
      ensures var s := State(old(local.cache), old(TheBucket()));
              pino in s.cache.nodes ==>
                && pino in FindSpec(s.cache, s.bucket, pino, name, now, now + timeout).nodes
                && State(local.cache, TheBucket()) == RemoveSpec(s, pino, name, now, now + timeout)
                && r == RemoveOutcome(FindSpec(s.cache, s.bucket, pino, name, now, now + timeout), pino, name)
      ensures valid ==> stor.log == old(stor.log) + RemoveCalls(State(old(local.cache), old(TheBucket())), pino, name,
                                                                now, now + timeout)
    {
      ghost var s := State(local.cache, TheBucket());
      var found := FindDentry(pino, name, false, now);
      ghost var f := State(local.cache, TheBucket());
      assert f.bucket == s.bucket;
      valid := !found.InvalidInode?;
      r := Absent;
      if !valid {
        return;
      }
      RemoveJoins(s, pino, name, now, timeout, f);
      CallsJoin(old(stor.log), FindCalls(s.cache, s.bucket, pino, name, now), DeleteCalls(f.cache, pino, name));
      if found.Found? {
        r := RemoveFound(pino, name, found.dentry);
      }
    }

    lemma CallsJoin(log: seq<Call>, a: seq<Call>, b: seq<Call>)
      ensures log + (a + b) == log + a + b
    {}

    // A lookup and then the removal of what it found make up the removal.
    lemma RemoveJoins(s: State, p: InodeID, n: string, now: Time, timeout: Time, f: State)
      requires p in s.cache.nodes && f.cache == FindSpec(s.cache, f.bucket, p, n, now, now + timeout)
      requires f.bucket == s.bucket && p in f.cache.nodes
      ensures RemoveSpec(s, p, n, now, now + timeout)
              == if RemoveOutcome(f.cache, p, n) == Removed then AfterRemoval(f, p, n) else f
      ensures RemoveCalls(s, p, n, now, now + timeout)
              == FindCalls(s.cache, s.bucket, p, n, now) + DeleteCalls(f.cache, p, n)
    {}

    method RemoveFound(pino: InodeID, name: string, dentry: Dentry) returns (r: RemoveResult)
      requires Valid() && pino in local.cache.nodes && name in local.cache.nodes[pino].children
      requires local.Attached(dentry) && dentry.ino == local.cache.nodes[pino].children[name]
      modifies local, local.all.Values, stor`objects, stor`log
      ensures Valid() && local.all == old(local.all) && r == RemoveOutcome(old(local.cache), pino, name)
      ensures r != Removed ==> local.cache == old(local.cache) && TheBucket() == old(TheBucket())
      ensures r == Removed ==>
                State(local.cache, TheBucket()) == AfterRemoval(State(old(local.cache), old(TheBucket())), pino, name)
      ensures stor.log == old(stor.log) + DeleteCalls(old(local.cache), pino, name)
    {
      r := DeleteObject(pino, name, dentry);
      if r == NotEmpty {
        return;
      }
      var ok := local.RemoveDentry(pino, name);
    }

    // Deletes the object or placeholder of a dentry, unless it has cached children.
    method DeleteObject(pino: InodeID, name: string, dentry: Dentry) returns (r: RemoveResult)
      requires Valid() && pino in local.cache.nodes && name in local.cache.nodes[pino].children
      requires local.Attached(dentry) && dentry.ino == local.cache.nodes[pino].children[name]
      modifies stor`objects, stor`log
      ensures Valid() && r == RemoveOutcome(local.cache, pino, name)
      ensures r == Removed || r == NotEmpty
      ensures stor.objects
              == if r == Removed then old(stor.objects) - {RemovedKey(local.cache, pino, name)} else old(stor.objects)
      ensures stor.log == old(stor.log) + DeleteCalls(local.cache, pino, name)
    {
      ghost var c := local.cache;
      assert ShownAt(local.all, c, dentry.ino);
      ChildPaths(c, pino, name);
      EmptyIds(dentry.children);
      var fullpath := dentry.GetFullPath(c, local.all);
      if !dentry.IsDir() {
        stor.DeleteFile(fullpath);
      } else {
        if |dentry.children| != 0 {
          return NotEmpty;
        }
        stor.DeleteFile(fullpath + "/");
      }
      return Removed;
    }

    // ---- Refreshing a directory ------------------------------------------------------

    // The tree that a page describes: directories first, then files over them.
    method BuildFtreeFromListObjects(prefix: Key, resp: Stor.ListResp, ghost entries: seq<Key>, ghost keys: set<Key>)
      returns (root: FTree)
      requires Elements(entries) <= EntrySet(keys, prefix, true)
      requires resp.objs == Stor.Infos(stor.objects, stor.modes, entries)
      requires resp.commonPrefixes == Stor.Prefixes(entries)
      ensures root.children == PageTree(TheBucket(), prefix, Elements(entries))
    {
      var dirs := DirNodes(prefix, resp.commonPrefixes, keys);
      var all := FileNodes(prefix, resp.objs, entries, keys, dirs);
      ghost var tree := PageTree(TheBucket(), prefix, Elements(entries));
      forall n ensures (n in all <==> n in tree) && (n in tree ==> all[n] == tree[n]) {
        EntryNames(keys, prefix, Elements(entries), n);
        NotCommon(prefix, n);
        OnlyValid(keys, prefix, Elements(entries), n);
      }
      assert all == tree;
      root := FTree(true, None, 0, all);
    }

    lemma NotCommon(prefix: Key, n: string)
      ensures ValidName(n) ==> !IsCommonPrefix(prefix + n)
      ensures IsCommonPrefix(prefix + n + "/")
    {
      if ValidName(n) { assert (prefix + n)[|prefix + n| - 1] == n[|n| - 1]; }
    }

    lemma OnlyValid(keys: set<Key>, prefix: Key, entries: set<Key>, n: string)
      requires entries <= EntrySet(keys, prefix, true)
      ensures prefix + n in entries && !IsCommonPrefix(prefix + n) ==> ValidName(n)
      ensures prefix + n + "/" in entries && n != "" ==> ValidName(n)
    {
      if prefix + n in entries && !IsCommonPrefix(prefix + n) {
        var m := EntryShape(keys, prefix, prefix + n);
        assert (prefix + n)[|prefix|..] == n && (prefix + m)[|prefix|..] == m;
      }
      if prefix + n + "/" in entries {
        var m := EntryShape(keys, prefix, prefix + n + "/");
        SameName(prefix, n, m, "/");
      }
    }

    method DirNodes(prefix: Key, prefixes: seq<Key>, ghost keys: set<Key>) returns (dirs: map<string, FTree>)
      requires forall e :: e in prefixes ==> e in EntrySet(keys, prefix, true) && IsCommonPrefix(e)
      ensures forall n :: n in dirs <==> n != "" && prefix + n + "/" in prefixes
      ensures forall n :: n in dirs ==> dirs[n] == FTree(true, None, 0, map[])
    {
      dirs := map[];
      for i := 0 to |prefixes|
        invariant forall n :: n in dirs <==> n != "" && prefix + n + "/" in prefixes[..i]
        invariant forall n :: n in dirs ==> dirs[n] == FTree(true, None, 0, map[])
      {
        var e := prefixes[i];
        ghost var m := EntryShape(keys, prefix, e);
        var dirname := e[|prefix|..|e| - 1];
        assert dirname == m && e == prefix + dirname + "/";
        assert prefixes[..i + 1] == prefixes[..i] + [e];
        forall n ensures prefix + n + "/" == e <==> n == dirname { SameName(prefix, n, dirname, "/"); }
        if dirname != "" {
          dirs := dirs[dirname := FTree(true, None, 0, map[])];
        }
      }
      assert prefixes[..|prefixes|] == prefixes;
    }

    lemma SameName(prefix: Key, n: string, m: string, end: string)
      ensures prefix + n + end == prefix + m + end <==> n == m
    {
      assert (prefix + n + end)[|prefix|..|prefix + n|] == n;
      assert (prefix + m + end)[|prefix|..|prefix + m|] == m;
      if prefix + n + end == prefix + m + end { assert |n| == |m|; }
    }

    method FileNodes(prefix: Key, objs: seq<Stor.ObjInfo>, ghost entries: seq<Key>, ghost keys: set<Key>,
                     dirs: map<string, FTree>)
      returns (all: map<string, FTree>)
      requires Elements(entries) <= EntrySet(keys, prefix, true)
      requires objs == Stor.Infos(stor.objects, stor.modes, entries)
      ensures forall n :: n in all <==> n in dirs || prefix + n in Stor.Files(entries)
      ensures forall n :: n in all ==>
                all[n] == if prefix + n in Stor.Files(entries) then FileNode(prefix + n) else dirs[n]
    {
      all := dirs;
      ghost var files := Stor.Files(entries);
      for i := 0 to |objs|
        invariant forall n :: n in all <==> n in dirs || prefix + n in files[..i]
        invariant forall n :: n in all ==> all[n] == if prefix + n in files[..i] then FileNode(prefix + n) else dirs[n]
      {
        var obj := objs[i];
        FileName(keys, prefix, entries, files, i);
        var filename := obj.name[|prefix|..];
        all := all[filename := FTree(false, obj.mode, obj.size, map[])];
      }
      assert files[..|objs|] == files;
    }

    lemma FileName(keys: set<Key>, prefix: Key, entries: seq<Key>, files: seq<Key>, i: nat)
      requires Elements(entries) <= EntrySet(keys, prefix, true) && files == Stor.Files(entries) && i < |files|
      ensures |prefix| <= |files[i]| && prefix + files[i][|prefix|..] == files[i]
      ensures forall n :: prefix + n in files[..i + 1] <==> prefix + n in files[..i] || n == files[i][|prefix|..]
    {
      assert files[i] in files && files[i] in Elements(entries);
      var m := EntryShape(keys, prefix, files[i]);
      assert files[i][|prefix|..] == m;
      assert files[..i + 1] == files[..i] + [files[i]];
      forall n ensures prefix + n == files[i] <==> n == m {
        assert (prefix + n)[|prefix|..] == n;
      }
    }

    ghost function FileNode(k: Key): FTree
      reads stor
    {
      FTree(false, Reported(TheBucket(), k), if k in stor.objects then |stor.objects[k]| else 0, map[])
    }

    // One page of the listing of d, merged into the cache.
    method MergePage(dentry: Dentry, prefix: Key, marker: Key, max: nat) returns (isTrunc: bool, nextMarker: Key)
      requires Valid() && local.Attached(dentry) && IsDirMode(local.cache.nodes[dentry.ino].mode) && max >= 1
      modifies local, local.all.Values, stor`log
      ensures Valid() && Extends(old(local.all), local.all)
      ensures forall i :: i in local.all && i !in old(local.all) ==> fresh(local.all[i])
      ensures var p := PageAfter(EntrySet(stor.objects.Keys, prefix, true), marker, max);
              && isTrunc == p.isTrunc && nextMarker == p.nextMarker
              && MergedBy(old(local.cache), local.cache, dentry.ino,
                          TreeInfo(PageTree(TheBucket(), prefix, Elements(p.entries))))
      ensures stor.log == old(stor.log) + [ListObjects(prefix, true, marker)]
    {
      ghost var keys, entries := stor.objects.Keys, EntrySet(stor.objects.Keys, prefix, true);
      ghost var p := PageAfter(entries, marker, max);
      PageCovers(entries, marker, max, p);
      var resp := stor.ListObjects(true, prefix, max, marker);
      var root := BuildFtreeFromListObjects(prefix, resp, p.entries, keys);
      PageMergeable(local.cache, TheBucket(), keys, dentry.ino, prefix, Elements(p.entries));
      local.BuildDentries(dentry.ino, root);
      isTrunc, nextMarker := resp.isTrunc, resp.nextMarker;
    }

    // Lists the directory page by page, merges every page, and sweeps out what
    // no page mentioned.
    method RefreshSubDentries(dentry: Dentry, max: nat, now: Time) returns (ghost m: Cache)
      requires Valid() && local.Attached(dentry) && IsDirMode(local.cache.nodes[dentry.ino].mode) && max >= 1
      modifies local, local.all.Values, stor`log
      ensures Valid() && Extends(old(local.all), local.all)
      ensures forall i :: i in local.all && i !in old(local.all) ==> fresh(local.all[i])
      ensures RefreshedWith(old(local.cache), local.cache, dentry.ino, TheBucket(), max, now + local.timeout, m)
      ensures stor.log == old(stor.log)
                          + ListingCalls(TheBucket(), DirPrefix(old(local.cache), dentry.ino), max)
    {
      MergePages(dentry, max);
      m := local.cache;
      SweepMerged(dentry, now, m);
    }

    method SweepMerged(dentry: Dentry, now: Time, ghost m: Cache)
      requires Valid() && local.Attached(dentry) && m == local.cache
      modifies local`cache, local.all.Values
      ensures Valid() && local.cache == Swept(m, dentry.ino, now + local.timeout)
    {
      local.ClearUnsyncDentry(dentry, now);
    }

    method MergePages(dentry: Dentry, max: nat)
      requires Valid() && local.Attached(dentry) && IsDirMode(local.cache.nodes[dentry.ino].mode) && max >= 1
      modifies local, local.all.Values, stor`log
      ensures Valid() && Extends(old(local.all), local.all)
      ensures forall i :: i in local.all && i !in old(local.all) ==> fresh(local.all[i])
      ensures local.Attached(dentry)
      ensures Complete(old(local.cache), local.cache, dentry.ino, TheBucket(),
                       DirPrefix(old(local.cache), dentry.ino), max)
      ensures stor.log == old(stor.log)
                          + ListingCalls(TheBucket(), DirPrefix(old(local.cache), dentry.ino), max)
    {
      ghost var c := local.cache;
      assert ShownAt(local.all, c, dentry.ino);
      var prefix := dentry.GetFullPathWithSlash(c, local.all);
      SeenStart(EntrySet(Keys(TheBucket()), prefix, true));
      ghost var pages, infos := ChainOf(TheBucket(), prefix, "", max, imap[], PagedInfo(TheBucket(), prefix, max));
      MergeAll(dentry, prefix, max, c, TheBucket(), pages, infos);
    }

    // The loop over the pages.
    method MergeAll(dentry: Dentry, prefix: Key, max: nat, ghost c: Cache, ghost b: Bucket,
                    ghost pages: seq<Page>, ghost infos: seq<Info>)
      requires Valid() && local.Attached(dentry) && max >= 1
      requires Tree(c) && dentry.ino in c.nodes && IsDirMode(c.nodes[dentry.ino].mode)
      requires b == TheBucket() && Chain(pages, infos, b, prefix, max)
      requires AtPage(c, local.cache, dentry.ino, b, prefix, "", max, pages, infos, 0)
      modifies local, local.all.Values, stor`log
      ensures Valid() && Extends(old(local.all), local.all)
      ensures forall i :: i in local.all && i !in old(local.all) ==> fresh(local.all[i])
      ensures SoFar(c, local.cache, dentry.ino, b, prefix, EntrySet(Keys(b), prefix, true), true,
                    Whole(pages, infos, b, prefix))
      ensures stor.log == old(stor.log) + PageCalls(pages, prefix, |pages|)
    {
      var marker := "";
      ghost var k, l, was, log := 0, local, local.all, stor.log;
      while true
        invariant Valid() && TheBucket() == b && Extends(was, l.all)
        invariant forall i :: i in l.all && i !in was ==> fresh(l.all[i])
        invariant 0 <= k < |pages| && AtPage(c, l.cache, dentry.ino, b, prefix, marker, max, pages, infos, k)
        invariant marker == MarkerOf(pages, k) && stor.log == log + PageCalls(pages, prefix, k)
        decreases |pages| - k
      {
        ghost var mid := l.all;
        var isTrunc, nextMarker := MergeNext(dentry, prefix, marker, max, c, b, pages, infos, k, log);
        ExtendsTransitive(was, mid, l.all);
        forall i | i in l.all && i !in was ensures fresh(l.all[i]) {
          if i in mid { assert l.all[i] == mid[i]; }
        }
        if !isTrunc {
          break;
        }
        marker, k := nextMarker, k + 1;
      }
    }

    // One turn of the loop over the pages.
    method MergeNext(dentry: Dentry, prefix: Key, marker: Key, max: nat, ghost c: Cache, ghost b: Bucket,
                     ghost pages: seq<Page>, ghost infos: seq<Info>, ghost k: nat, ghost log: seq<Call>)
      returns (isTrunc: bool, nextMarker: Key)
      requires Valid() && dentry.ino in local.all && local.all[dentry.ino] == dentry && max >= 1
      requires Tree(c) && dentry.ino in c.nodes && IsDirMode(c.nodes[dentry.ino].mode)
      requires b == TheBucket() && Chain(pages, infos, b, prefix, max)
      requires AtPage(c, local.cache, dentry.ino, b, prefix, marker, max, pages, infos, k)
      requires marker == MarkerOf(pages, k) && stor.log == log + PageCalls(pages, prefix, k)
      modifies local, local.all.Values, stor`log
      ensures Valid() && Extends(old(local.all), local.all)
      ensures forall i :: i in local.all && i !in old(local.all) ==> fresh(local.all[i])
      ensures isTrunc ==> AtPage(c, local.cache, dentry.ino, b, prefix, nextMarker, max, pages, infos, k + 1)
      ensures !isTrunc ==> SoFar(c, local.cache, dentry.ino, b, prefix, EntrySet(Keys(b), prefix, true), true,
                                 Whole(pages, infos, b, prefix))
      ensures isTrunc ==> k + 1 < |pages| && nextMarker == MarkerOf(pages, k + 1)
      ensures !isTrunc ==> k + 1 == |pages|
      ensures stor.log == log + PageCalls(pages, prefix, k + 1)
    {
      ghost var m := local.cache;
      isTrunc, nextMarker := MergePage(dentry, prefix, marker, max);
      ChainStep(c, m, local.cache, dentry.ino, b, prefix, marker, max, pages, infos, k);
      OnePageMore(log, pages, prefix, k);
      assert Link(pages, infos, b, prefix, max, k);
    }

    lemma OnePageMore(log: seq<Call>, pages: seq<Page>, prefix: Key, k: nat)
      requires k < |pages|
      ensures log + PageCalls(pages, prefix, k + 1)
              == log + PageCalls(pages, prefix, k)
                 + [ListObjects(prefix, true, MarkerOf(pages, k))]
    {}

    // ---- Listing a directory -----------------------------------------------------------

    // What is listed of a directory that agrees with the bucket: the names and
    // no others that the bucket lists, whether or not it is refreshed first.
    method ListCoherent(ino: InodeID, now: Time) returns (dirents: seq<Dirent>, ghost m: Cache)
      requires Valid() && Coherent(State(local.cache, TheBucket()), ino) && IsDirMode(local.cache.nodes[ino].mode)
      modifies local, local.all.Values, stor`log
      ensures Valid() && Coherent(State(local.cache, TheBucket()), ino)
      ensures |dirents| >= 2 && Spells(dirents[2..], TheBucket(), DirPrefix(old(local.cache), ino))
      ensures dirents[0] == Dirent(".", ino) && dirents[1] == Dirent("..", ino)
      ensures ino in local.cache.nodes && |dirents| == 2 + |local.cache.nodes[ino].children|
      ensures forall e :: e in dirents[2..] ==>
                e.name in local.cache.nodes[ino].children && e.ino == local.cache.nodes[ino].children[e.name]
      ensures Live(old(local.cache), ino, now) ==> local.cache == old(local.cache)
      ensures stor.log == old(stor.log) + LoadCalls(old(local.cache), TheBucket(), ino, now)
    {
      ghost var c := local.cache;
      var valid;
      valid, dirents, m := LoadSubDentries(ino, now);
      ListingCoherent(c, local.cache, ino, TheBucket(), now, local.timeout, m, dirents);
    }

    // A second listing, before the time that the first one gave is up, costs no
    // call and lists the same, if the directory is not empty. An empty one is
    // listed anew each time, unless it was complete before.
    method ListTwice(ino: InodeID, now: Time, later: Time) returns (dirents: seq<Dirent>, again: seq<Dirent>)
      requires Valid() && ino in local.cache.nodes && IsDirMode(local.cache.nodes[ino].mode)
      requires !Live(local.cache, ino, now) && later <= now + local.timeout
      modifies local, local.all.Values, stor`log
      ensures Valid()
      ensures stor.log == old(stor.log) + CallsOfTwo(old(local.cache), TheBucket(), ino)
      ensures Shows(old(local.cache), TheBucket(), ino) ==>
                |again| == |dirents| && forall e :: e in again <==> e in dirents
    {
      ghost var c, b := local.cache, TheBucket();
      dirents := ListFirst(ino, now);
      ghost var s, valid, m := local.cache, true, c;
      valid, again, m := LoadSubDentries(ino, later);
      TwoListings(old(stor.log), c, s, b, ino, now, later);
      if Live(s, ino, later) { SameEntries(dirents, again, s.nodes[ino].children, ino); }
    }

    // A listing of a directory that is not live.
    method ListFirst(ino: InodeID, now: Time) returns (dirents: seq<Dirent>)
      requires Valid() && ino in local.cache.nodes && IsDirMode(local.cache.nodes[ino].mode)
      requires !Live(local.cache, ino, now)
      modifies local, local.all.Values, stor`log
      ensures Valid() && Extends(old(local.all), local.all)
      ensures forall i :: i in local.all && i !in old(local.all) ==> fresh(local.all[i])
      ensures ino in local.cache.nodes && local.cache.nodes[ino].mode == old(local.cache).nodes[ino].mode
      ensures DirPrefix(local.cache, ino) == DirPrefix(old(local.cache), ino)
      ensures local.cache.nodes[ino].ttl == now + local.timeout
      ensures local.cache.nodes[ino].complete <==> Shows(old(local.cache), TheBucket(), ino)
      ensures ListsChildren(dirents, local.cache.nodes[ino].children, ino)
      ensures stor.log == old(stor.log) + LoadCalls(old(local.cache), TheBucket(), ino, now)
    {
      ghost var c, b := local.cache, TheBucket();
      ghost var valid, m := true, c;
      valid, dirents, m := LoadSubDentries(ino, now);
      LoadedSelf(c, local.cache, ino, b, now, local.timeout, m);
    }

    lemma TwoListings(log: seq<Call>, c: Cache, s: Cache, b: Bucket, d: InodeID, now: Time, later: Time)
      requires d in c.nodes && !Live(c, d, now) && DirPrefix(s, d) == DirPrefix(c, d)
      requires Live(s, d, later) <==> Shows(c, b, d)
      ensures log + LoadCalls(c, b, d, now) + LoadCalls(s, b, d, later) == log + CallsOfTwo(c, b, d)
    {}

    lemma SameEntries(a: seq<Dirent>, b: seq<Dirent>, children: map<string, InodeID>, ino: InodeID)
      requires ListsChildren(a, children, ino) && ListsChildren(b, children, ino)
      ensures |a| == |b| && forall e :: e in a <==> e in b
    {
      assert a == a[..2] + a[2..] && b == b[..2] + b[2..];
      assert a[..2] == b[..2];
    }

    // The entries of a directory. From a complete and live cache this costs no
    // call; otherwise the directory is refreshed first.
    method LoadSubDentries(ino: InodeID, now: Time) returns (valid: bool, dirents: seq<Dirent>, ghost m: Cache)
      requires Valid() && local.Usable(ino) && (ino in local.cache.nodes ==> IsDirMode(local.cache.nodes[ino].mode))
      modifies local, local.all.Values, stor`log
      ensures Valid() && Extends(old(local.all), local.all)
      ensures forall i :: i in local.all && i !in old(local.all) ==> fresh(local.all[i])
      ensures (valid <==> ino in old(local.cache).nodes) && (!valid ==> dirents == [])
      ensures valid ==> LoadedFrom(old(local.cache), local.cache, ino, TheBucket(), now, local.timeout, m)
      ensures valid ==> stor.log == old(stor.log) + LoadCalls(old(local.cache), TheBucket(), ino, now)
      ensures valid ==> ino in local.cache.nodes && ListsChildren(dirents, local.cache.nodes[ino].children, ino)
    {
      dirents := [];
      m := local.cache;
      var dentry := local.GetDentry(ino);
      valid := dentry != null;
      if !valid {
        return;
      }
      assert ShownAt(local.all, local.cache, ino);
      if !dentry.complete || dentry.IsExpired(now) {
        m := RefreshSubDentries(dentry, MAX_KEYS, now);
        KeepsItself(m, dentry.ino, now + local.timeout);
      }
      dirents := Entries(dentry);
    }

    lemma KeepsItself(m: Cache, d: InodeID, ttl: Time)
      requires d in m.nodes
      ensures d in Swept(m, d, ttl).nodes
    {}

    method Entries(dentry: Dentry) returns (dirents: seq<Dirent>)
      requires local.Valid() && local.Attached(dentry)
      ensures ListsChildren(dirents, local.cache.nodes[dentry.ino].children, dentry.ino)
    {
      assert ShownAt(local.all, local.cache, dentry.ino);
      forall k | k in dentry.children ensures dentry.children[k].name == k {
        local.ChildFacts(dentry, k);
        ChildNames(local.cache, dentry.ino, k);
        assert ShownAt(local.all, local.cache, dentry.children[k].ino);
      }
      var children := dentry.ChildrenList();
      assert Ids(dentry.children).Keys == dentry.children.Keys;
      dirents := [Dirent(".", dentry.ino), Dirent("..", dentry.ino)] + children;
    }

    method UpdateInodeSize(ino: InodeID, size: nat) returns (valid: bool)
      requires Valid()
      modifies local`dentryIndex, local`cache, if ino in local.all then {local.all[ino]} else {}
      ensures Valid() && (valid <==> ino in local.all)
      ensures local.cache == if ino !in old(local.cache).nodes then old(local.cache)
                             else SetNode(old(local.cache), ino, old(local.cache).nodes[ino].(size := size))
    {
      valid := local.UpdateInode(ino, Some(size), None);
    }
  }

  // The most entries that a listing page asks for.
  const MAX_KEYS: nat := 1000

  // The cache behind a listing: as it was if it was live, else refreshed.
  ghost predicate LoadedFrom(c: Cache, s: Cache, d: InodeID, b: Bucket, now: Time, timeout: Time, m: Cache) {
    if Live(c, d, now) then s == c else RefreshedWith(c, s, d, b, MAX_KEYS, now + timeout, m)
  }

  // The calls of a listing: none from a live cache, else those of the refresh.
  ghost function LoadCalls(c: Cache, b: Bucket, d: InodeID, now: Time): seq<Call> {
    if Live(c, d, now) then [] else ListingCalls(b, DirPrefix(c, d), MAX_KEYS)
  }

  // The calls of two listings in a row, the first of a directory that is not live.
  ghost function CallsOfTwo(c: Cache, b: Bucket, d: InodeID): seq<Call>
    requires d in c.nodes
  {
    var calls := ListingCalls(b, DirPrefix(c, d), MAX_KEYS);
    if Shows(c, b, d) then calls else calls + calls
  }

  // So many calls as there are thousands of entries, and one for an empty directory.
  lemma LoadCost(c: Cache, b: Bucket, d: InodeID, now: Time, n: nat)
    requires n == |EntrySet(Keys(b), DirPrefix(c, d), true)|
    ensures |LoadCalls(c, b, d, now)| == if Live(c, d, now) then 0 else if n == 0 then 1 else (n + 999) / 1000
  {
    ListingCost(b, DirPrefix(c, d), MAX_KEYS, n);
  }

  // The two dot entries, then each child exactly once.
  ghost predicate ListsChildren(dirents: seq<Dirent>, children: map<string, InodeID>, ino: InodeID) {
    && |dirents| == 2 + |children|
    && dirents[0] == Dirent(".", ino) && dirents[1] == Dirent("..", ino)
    && forall e :: e in dirents[2..] <==> e.name in children && e.ino == children[e.name]
  }

  // The entries have exactly the names that the bucket lists.
  ghost predicate Spells(entries: seq<Dirent>, b: Bucket, prefix: Key) {
    forall n :: ValidName(n) ==> (HasName(entries, n) <==> KindAt(Keys(b), prefix, n).Some?)
  }

  ghost predicate HasName(entries: seq<Dirent>, n: string) {
    exists e :: e in entries && e.name == n
  }

  // A listing of a directory that agrees with the bucket, live or not.
  lemma ListingCoherent(c: Cache, s: Cache, d: InodeID, b: Bucket, now: Time, timeout: Time, m: Cache,
                        dirents: seq<Dirent>)
    requires Tree(c) && Coherent(State(c, b), d) && LoadedFrom(c, s, d, b, now, timeout, m)
    requires d in s.nodes && ListsChildren(dirents, s.nodes[d].children, d)
    ensures Coherent(State(s, b), d) && Spells(dirents[2..], b, DirPrefix(c, d))
  {
    LoadedCoherent(c, s, d, b, now, timeout, m);
    CoherentSpells(s, d, b, dirents);
  }

  lemma LoadedCoherent(c: Cache, s: Cache, d: InodeID, b: Bucket, now: Time, timeout: Time, m: Cache)
    requires Tree(c) && Coherent(State(c, b), d) && LoadedFrom(c, s, d, b, now, timeout, m)
    ensures Tree(s) && Coherent(State(s, b), d) && Names(s, d) == Names(c, d)
  {
    if !Live(c, d, now) {
      RefreshKeepsCoherent(c, s, d, b, MAX_KEYS, now + timeout, m);
      RefreshTree(c, s, d, b, MAX_KEYS, now + timeout, m);
      RefreshedPath(c, s, d, b, MAX_KEYS, now + timeout, m);
    }
  }

  lemma LoadedSelf(c: Cache, s: Cache, d: InodeID, b: Bucket, now: Time, timeout: Time, m: Cache)
    requires Tree(c) && d in c.nodes && !Live(c, d, now) && LoadedFrom(c, s, d, b, now, timeout, m)
    ensures d in s.nodes && s.nodes[d].mode == c.nodes[d].mode && DirPrefix(s, d) == DirPrefix(c, d)
    ensures s.nodes[d].ttl == now + timeout && (s.nodes[d].complete <==> Shows(c, b, d))
  {
    forall ttl: Time | RefreshedWith(c, s, d, b, MAX_KEYS, ttl, m)
      ensures d in s.nodes && s.nodes[d].mode == c.nodes[d].mode && DirPrefix(s, d) == DirPrefix(c, d)
      ensures s.nodes[d].ttl == ttl && (s.nodes[d].complete <==> Shows(c, b, d))
    {
      RefreshedSelf(c, s, d, b, MAX_KEYS, ttl, m);
      RefreshedPath(c, s, d, b, MAX_KEYS, ttl, m);
    }
  }

  lemma CoherentSpells(s: Cache, d: InodeID, b: Bucket, dirents: seq<Dirent>)
    requires Tree(s) && Coherent(State(s, b), d) && ListsChildren(dirents, s.nodes[d].children, d)
    ensures Spells(dirents[2..], b, DirPrefix(s, d))
  {
    forall n | ValidName(n) ensures HasName(dirents[2..], n) <==> KindAt(Keys(b), DirPrefix(s, d), n).Some? {
      assert Agrees(State(s, b), d, n);
      if n in s.nodes[d].children {
        ChildNames(s, d, n);
        assert Dirent(n, s.nodes[d].children[n]) in dirents[2..];
      }
    }
  }
}

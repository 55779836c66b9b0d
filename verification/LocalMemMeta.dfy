// The in-memory metadata: the inode index, the id allocator, and the dentry
// tree itself.
module LocalMeta {
  import opened Basics
  import opened DentryTree
  import opened DentryIndex
  import opened DentryNode
  import opened Merge
  import opened Sweep
  import opened SweepQueue

  datatype Inode = Inode(ino: InodeID, mode: Mode, size: nat)

  // Ways of not finding a dentry: a parent id without a dentry, or no such name.
  datatype FindResult = InvalidInode | NotFound | Found(dentry: Dentry)

  type Dentries = map<InodeID, Dentry>

  // No dentry is ever forgotten or replaced under its id.
  ghost predicate Extends(was: Dentries, now: Dentries) {
    forall i :: i in was ==> i in now && now[i] == was[i]
  }

  lemma ExtendsTransitive(a: Dentries, b: Dentries, c: Dentries)
    requires Extends(a, b) && Extends(b, c)
    ensures Extends(a, c)
  {}

  lemma NextTree(c: Cache, next: InodeID)
    requires Tree(c)
    requires forall i :: i in c.nodes ==> i < next
    ensures Tree(c.(next := next))
  {
    var d := c.(next := next);
    forall r | r in d.nodes ensures Placed(d, r) && ChildrenPlaced(d, r) {
      assert Placed(c, r) && ChildrenPlaced(c, r);
    }
  }

  class LocalMemMeta {
    const timeout: Time
    var nextInodeId: InodeID
    var rootDentry: Dentry
    // Sharded by id; a lookup leaves a null slot behind for an unknown id.
    var dentryIndex: Index
    // Every dentry there ever was, by id, and what the attached ones stand for.
    ghost var all: Dentries
    ghost var cache: Cache

    // The attached dentries form a tree ...
    ghost predicate TreeValid()
      reads this, all.Values
    {
      && Shown(all, cache) && Tree(cache) && cache.next == nextInodeId
      && ROOT in all && rootDentry == all[ROOT]
    }

    // ... and the index returns each of them for its id.
    ghost predicate Valid()
      reads this, all.Values
    {
      TreeValid() && IndexOf(dentryIndex, all, nextInodeId)
    }

    // Not the id of a dentry that was removed: its object is gone, but the
    // index still holds it.
    ghost predicate Usable(ino: InodeID)
      reads this
    {
      ino in all ==> ino in cache.nodes
    }

    // An attached dentry.
    ghost predicate Attached(d: Dentry)
      reads this
    {
      d.ino in cache.nodes && d.ino in all && all[d.ino] == d
    }

    constructor (timeout: Time)
      ensures Valid() && fresh(all.Values) && this.timeout == timeout
      ensures cache == ColdCache()
    {
      this.timeout := timeout;
      nextInodeId := ROOT + 1;
      var root := new Dentry("", ROOT, S_IFDIR | 0x1F6, 0, null);
      rootDentry := root;
      dentryIndex := SetSlot(seq(LOCK_COUNT, _ => map[]), ROOT, root);
      all := map[ROOT := root];
      cache := ColdCache();
      new;
      ColdTree();
      assert Ids(map[]) == map[];
      assert ShownAt(all, cache, ROOT);
    }

    method SaveDentryIndex(d: Dentry)
      requires |dentryIndex| == LOCK_COUNT
      modifies this`dentryIndex
      ensures OneSlot(old(dentryIndex), dentryIndex, d.ino, d)
    {
      dentryIndex := SetSlot(dentryIndex, d.ino, d);
    }

    method GetDentry(ino: InodeID) returns (d: Dentry?)
      requires Valid()
      modifies this`dentryIndex
      ensures Valid() && d == if ino in all then all[ino] else null
    {
      d := if ino in dentryIndex[ino % LOCK_COUNT] then dentryIndex[ino % LOCK_COUNT][ino] else null;
      assert d == Slot(dentryIndex, ino);
      if d == null {
        dentryIndex := SetSlot(dentryIndex, ino, null);
        IndexSame(old(dentryIndex), dentryIndex, all, nextInodeId);
      }
    }

    method GetNextInodeId() returns (ino: InodeID)
      requires Valid()
      modifies this`nextInodeId, this`cache
      ensures Valid() && ino == old(nextInodeId) && cache == old(cache).(next := ino + 1)
      ensures ino !in all
    {
      IdsBelowNext(cache);
      NextTree(cache, nextInodeId + 1);
      ino := nextInodeId;
      nextInodeId := nextInodeId + 1;
      cache := cache.(next := nextInodeId);
      forall i | i in cache.nodes ensures ShownAt(all, cache, i) { assert old(ShownAt(all, cache, i)); }
    }

    // ---- How single changes to the objects show in the value -------------------

    // Every one of these dentries but d is as it was.
    twostate predicate OthersSame(was: Dentries, d: Dentry)
      reads was.Values
    {
      forall i :: i in was && was[i] != d ==> unchanged(was[i])
    }

    twostate lemma OneChanged(d: Dentry)
      requires old(Shown(all, cache)) && all == old(all) && d.ino in cache.nodes && d.ino in all && all[d.ino] == d
      requires OthersSame(all, d)
      requires forall k :: k in d.children ==> k in old(d.children) && d.children[k] == old(d.children)[k]
      requires cache.nodes.Keys <= old(cache.nodes).Keys
      requires forall i :: i in cache.nodes ==> cache.nodes[i] == if i == d.ino then d.Node() else old(cache).nodes[i]
      ensures Shown(all, cache)
    {
      forall i | i in cache.nodes ensures ShownAt(all, cache, i) { assert old(ShownAt(all, cache, i)); }
    }

    // A changed dentry shows in the value when the value has its new node.
    twostate lemma NodeChanged(d: Dentry)
      requires old(TreeValid()) && old(Attached(d)) && all == old(all) && OthersSame(all, d)
      requires rootDentry == old(rootDentry) && nextInodeId == old(nextInodeId) && d.children == old(d.children)
      requires MayTake(old(cache), d.ino, d.mode) && cache == SetNode(old(cache), d.ino, d.Node())
      ensures TreeValid()
    {
      assert old(ShownAt(all, cache, d.ino));
      SetNodeTree(old(cache), d.ino, d.Node());
      OneChanged(d);
    }

    twostate lemma OneAdded(parent: Dentry, new child: Dentry)
      requires old(Shown(all, cache)) && parent.ino in old(cache.nodes) && old(all[parent.ino]) == parent
      requires child.ino !in old(all) && child.ino != ROOT && all == old(all)[child.ino := child]
      requires child.parent == parent && child.children == map[]
      requires OthersSame(old(all), parent) && parent.children == old(parent.children)[child.name := child]
      requires cache.nodes.Keys <= old(cache.nodes).Keys + {child.ino}
      requires forall i :: i in cache.nodes ==>
                 cache.nodes[i] == if i == child.ino then child.Node()
                                   else if i == parent.ino then parent.Node() else old(cache.nodes)[i]
      ensures Shown(all, cache)
    {
      forall i | i in cache.nodes ensures ShownAt(all, cache, i) {
        if i != child.ino { assert old(ShownAt(all, cache, i)); }
      }
    }

    // What a dentry says about itself and its children is what the cache says.
    lemma ChildFacts(parent: Dentry, k: string)
      requires TreeValid() && Attached(parent)
      ensures cache.nodes[parent.ino] == parent.Node()
      ensures k in parent.children <==> k in cache.nodes[parent.ino].children
      ensures k in parent.children ==>
                && cache.nodes[parent.ino].children[k] == parent.children[k].ino && Attached(parent.children[k])
    {
      assert ShownAt(all, cache, parent.ino) && ChildrenPlaced(cache, parent.ino);
    }

    // ---- Adding and removing ----------------------------------------------------

    // add_child: the new dentry hangs in the tree but is not indexed yet.
    method AddChild(parent: Dentry, name: string, inode: Inode) returns (child: Dentry)
      requires TreeValid() && Attached(parent) && IsDirMode(parent.mode) && ValidName(name)
      requires inode.ino + 1 == nextInodeId && inode.ino !in all
      modifies this`all, this`cache, parent`children
      ensures TreeValid() && fresh(child) && child.ino == inode.ino && all == old(all)[inode.ino := child]
      ensures cache == AttachOver(old(cache).(next := inode.ino), parent.ino, name, inode.mode, inode.size)
    {
      ChildFacts(parent, name);
      IdsBelowNext(cache);
      ghost var v := cache.(next := inode.ino);
      NextTree(cache, inode.ino);
      AttachOverTree(v, parent.ino, name, inode.mode, inode.size);
      AttachOverNodes(v, parent.ino, name, inode.mode, inode.size);
      child := parent.AddChild(name, inode.ino, inode.mode, inode.size);
      all := all[inode.ino := child];
      cache := AttachOver(v, parent.ino, name, inode.mode, inode.size);
      OneAdded(parent, child);
    }

    method AddChildForDentry(parent: Dentry, name: string, inode: Inode) returns (child: Dentry)
      requires Valid() && Attached(parent) && IsDirMode(parent.mode) && ValidName(name)
      requires inode.ino + 1 == nextInodeId && inode.ino !in all
      modifies this`dentryIndex, this`all, this`cache, parent`children
      ensures Valid() && fresh(child) && child.ino == inode.ino && all == old(all)[inode.ino := child]
      ensures cache == AttachOver(old(cache).(next := inode.ino), parent.ino, name, inode.mode, inode.size)
    {
      child := AddChild(parent, name, inode);
      SaveDentryIndex(child);
      IndexAdd(old(dentryIndex), dentryIndex, old(all), nextInodeId, child.ino, child);
    }

    // The dentry an attached parent has under this name.
    method FindDentry(pino: InodeID, name: string) returns (r: FindResult)
      requires Valid() && Usable(pino)
      modifies this`dentryIndex
      ensures Valid()
      ensures r.InvalidInode? <==> pino !in cache.nodes
      ensures r.NotFound? <==> pino in cache.nodes && name !in cache.nodes[pino].children
      ensures r.Found? ==> name in cache.nodes[pino].children && r.dentry.ino == cache.nodes[pino].children[name]
                           && Attached(r.dentry)
    {
      var parent := GetDentry(pino);
      if parent == null {
        return InvalidInode;
      }
      assert ShownAt(all, cache, pino);
      ChildFacts(parent, name);
      var child := parent.GetChild(name);
      if child == null {
        return NotFound;
      }
      return Found(child);
    }

    // ---- Creating ------------------------------------------------------------

    method Obj2Inode(mode: Option<Mode>, size: nat, isDir: bool) returns (inode: Inode)
      requires Valid()
      modifies this`nextInodeId, this`cache
      ensures Valid() && inode == Inode(old(nextInodeId), ObjMode(isDir, mode), size)
      ensures cache == old(cache).(next := inode.ino + 1) && inode.ino !in all
    {
      var ino := GetNextInodeId();
      inode := Inode(ino, ObjMode(isDir, mode), size);
    }

    method CreateNewInode(mode: Mode) returns (inode: Inode)
      requires Valid()
      modifies this`nextInodeId, this`cache
      ensures Valid() && inode == Inode(old(nextInodeId), mode, 0)
      ensures cache == old(cache).(next := inode.ino + 1) && inode.ino !in all
    {
      var ino := GetNextInodeId();
      inode := Inode(ino, mode, 0);
    }

    // Attaches a new dentry for an inode allocated just before.
    method CreateDentry(pino: InodeID, name: string, inode: Inode) returns (r: FindResult)
      requires Valid() && Usable(pino)
      requires pino in cache.nodes ==>
                 IsDirMode(cache.nodes[pino].mode) && ValidName(name)
      requires inode.ino + 1 == nextInodeId && inode.ino !in all
      modifies this`dentryIndex, this`all, this`cache, if pino in all then {all[pino]} else {}
      ensures Valid()
      ensures pino !in old(cache).nodes ==> r.InvalidInode? && cache == old(cache) && all == old(all)
      ensures pino in old(cache).nodes ==>
                && r.Found? && fresh(r.dentry) && r.dentry.ino == inode.ino && all == old(all)[inode.ino := r.dentry]
                && cache == AttachOver(old(cache).(next := inode.ino), pino, name, inode.mode, inode.size)
    {
      var parent := GetDentry(pino);
      if parent == null {
        return InvalidInode;
      }
      assert ShownAt(all, cache, pino);
      ChildFacts(parent, name);
      var child := AddChildForDentry(parent, name, inode);
      return Found(child);
    }

    method CreateDentryFromObj(pino: InodeID, name: string, mode: Option<Mode>, size: nat, isDir: bool)
      returns (r: FindResult)
      requires Valid() && Usable(pino)
      requires pino in cache.nodes ==>
                 IsDirMode(cache.nodes[pino].mode) && ValidName(name)
      modifies this`dentryIndex, this`all, this`cache, this`nextInodeId, if pino in all then {all[pino]} else {}
      ensures Valid()
      ensures pino !in old(cache).nodes ==> r.InvalidInode? && cache == old(cache) && all == old(all)
      ensures pino in old(cache).nodes ==>
                && r.Found? && fresh(r.dentry) && r.dentry.ino == old(cache).next
                && all == old(all)[old(cache).next := r.dentry]
                && cache == AttachOver(old(cache), pino, name, ObjMode(isDir, mode), size)
    {
      var parent := GetDentry(pino);
      if parent == null {
        return InvalidInode;
      }
      assert ShownAt(all, cache, pino);
      ChildFacts(parent, name);
      var inode := Obj2Inode(mode, size, isDir);
      var child := AddChildForDentry(parent, name, inode);
      assert old(cache).(next := inode.ino + 1).(next := inode.ino) == old(cache);
      return Found(child);
    }

    // ---- Removing ---------------------------------------------------------------

    method DetachChild(parent: Dentry, name: string)
      requires TreeValid() && Attached(parent) && name in parent.children
      modifies this`cache, parent`children
      ensures TreeValid() && cache == Detach(old(cache), parent.ino, name)
    {
      ChildFacts(parent, name);
      DetachTree(cache, parent.ino, name);
      parent.RemoveChild(name);
      cache := Detach(cache, parent.ino, name);
      OneChanged(parent);
    }

    // Takes a dentry, and what is below it, off its parent; the index keeps its slot.
    method RemoveDentry(pino: InodeID, name: string) returns (valid: bool)
      requires Valid() && Usable(pino)
      modifies this`dentryIndex, this`cache, if pino in all then {all[pino]} else {}
      ensures Valid() && (valid <==> pino in old(cache).nodes)
      ensures cache == if pino in old(cache).nodes then Detach(old(cache), pino, name) else old(cache)
    {
      var parent := GetDentry(pino);
      if parent == null {
        return false;
      }
      assert ShownAt(all, cache, pino);
      ChildFacts(parent, name);
      if name in parent.children {
        DetachChild(parent, name);
      }
      return true;
    }

    // ---- Updating ---------------------------------------------------------------

    // Sets the attributes that are given. Of a dentry that was removed the cache
    // shows nothing.
    method UpdateInode(ino: InodeID, size: Option<nat>, mode: Option<Mode>) returns (valid: bool)
      requires Valid()
      requires ino in cache.nodes && mode.Some? ==> MayTake(cache, ino, mode.value)
      modifies this`dentryIndex, this`cache, if ino in all then {all[ino]} else {}
      ensures Valid() && (valid <==> ino in all)
      ensures cache == if ino !in old(cache).nodes then old(cache) else
                SetNode(old(cache), ino, WithAttributes(old(cache).nodes[ino], size, mode))
    {
      var d := GetDentry(ino);
      if d == null {
        return false;
      }
      SetAttributes(ino, d, size, mode);
      return true;
    }

    static function WithAttributes(n: Node, size: Option<nat>, mode: Option<Mode>): Node {
      n.(size := if size.Some? then size.value else n.size, mode := if mode.Some? then mode.value else n.mode)
    }

    method SetAttributes(ghost ino: InodeID, d: Dentry, size: Option<nat>, mode: Option<Mode>)
      requires TreeValid() && ino in all && all[ino] == d && d.ino == ino
      requires ino in cache.nodes && mode.Some? ==> MayTake(cache, ino, mode.value)
      modifies this`cache, d`size, d`mode
      ensures TreeValid()
      ensures cache == if ino !in old(cache).nodes then old(cache) else
                SetNode(old(cache), ino, WithAttributes(old(cache).nodes[ino], size, mode))
    {
      assert ino in cache.nodes ==> ShownAt(all, cache, ino);
      d.SetAttributes(size, mode);
      if ino in cache.nodes {
        cache := SetNode(cache, ino, d.Node());
        NodeChanged(d);
      } else {
        forall i | i in cache.nodes ensures ShownAt(all, cache, i) { assert old(ShownAt(all, cache, i)); }
      }
    }

    // ---- Merging a listing --------------------------------------------------------

    method SetSynced(d: Dentry, synced: bool)
      requires TreeValid() && Attached(d)
      modifies this`cache, d`synced
      ensures TreeValid()
      ensures cache == SetNode(old(cache), d.ino, old(cache).nodes[d.ino].(synced := synced))
    {
      assert ShownAt(all, cache, d.ino);
      d.synced := synced;
      cache := SetNode(cache, d.ino, d.Node());
      NodeChanged(d);
    }

    method SetSize(d: Dentry, size: nat)
      requires TreeValid() && Attached(d)
      modifies this`cache, d`size
      ensures TreeValid()
      ensures cache == SetNode(old(cache), d.ino, old(cache).nodes[d.ino].(size := size))
    {
      assert ShownAt(all, cache, d.ino);
      d.Update(size);
      cache := SetNode(cache, d.ino, d.Node());
      NodeChanged(d);
    }

    method RenewTtl(d: Dentry, now: Time, duration: Time)
      requires TreeValid() && Attached(d)
      modifies this`cache, d`ttl
      ensures TreeValid()
      ensures cache == SetNode(old(cache), d.ino, old(cache).nodes[d.ino].(ttl := now + duration))
    {
      assert ShownAt(all, cache, d.ino);
      d.IncTtl(now, duration);
      cache := SetNode(cache, d.ino, d.Node());
      NodeChanged(d);
    }

    // The child of a listed name: the cached one with its listed size, or a new one.
    method TakeListed(parent: Dentry, k: string, t: FTree) returns (child: Dentry)
      requires Valid() && Attached(parent) && IsDirMode(parent.mode) && ValidName(k)
      modifies this, all.Values
      ensures Valid()
      ensures Extends(old(all), all) && forall i :: i in all && i !in old(all) ==> fresh(all[i])
      ensures parent.ino in old(cache).nodes && cache == TakeChild(old(cache), parent.ino, k, t)
      ensures child.ino == ListedChild(old(cache), parent.ino, k) && Attached(child)
    {
      ChildFacts(parent, k);
      var found := parent.GetChild(k);
      if found == null {
        var r := CreateDentryFromObj(parent.ino, k, t.mode, t.size, t.isDir);
        child := r.dentry;
      } else {
        child := found;
        SetSize(child, t.size);
      }
    }

    // One listed child: taken, merged below if it is a directory, and marked.
    method BuildChild(parent: Dentry, k: string, t: FTree)
      requires Valid() && Attached(parent) && IsDirMode(parent.mode) && ValidName(k) && parent.synced
      requires t.isDir ==> Mergeable(TakeChild(cache, parent.ino, k, t), ListedChild(cache, parent.ino, k), t.children)
      modifies this, all.Values
      ensures Valid()
      ensures Extends(old(all), all) && forall i :: i in all && i !in old(all) ==> fresh(all[i])
      ensures !t.isDir ==> cache == MarkChild(old(cache), parent.ino, k, t)
      ensures t.isDir ==> MergedBy(TakeChild(old(cache), parent.ino, k, t), cache,
                                   ListedChild(old(cache), parent.ino, k), TreeInfo(t.children))
      decreases t, 2
    {
      ghost var c := cache;
      ChildFacts(parent, k);
      var child := TakeListed(parent, k, t);
      if t.isDir {
        ghost var taken := all;
        Build(child, t);
        ExtendsTransitive(old(all), taken, all);
        forall i | i in all && i !in old(all) ensures fresh(all[i]) {
          if i in taken { assert all[i] == taken[i]; }
        }
        MarkMerged(child, TakeChild(c, parent.ino, k, t), TreeInfo(t.children));
      } else {
        SetSynced(child, true);
        assert cache == MarkChild(c, parent.ino, k, t) by { MarkChildMerged(c, parent.ino, k, t); }
      }
    }

    // Marking a directory that its own merge has marked.
    method MarkMerged(child: Dentry, ghost c: Cache, ghost info: Info)
      requires TreeValid() && child.ino in all && all[child.ino] == child
      requires MergedBy(c, cache, child.ino, info) && child.ino in c.nodes
      modifies this`cache, child`synced
      ensures TreeValid() && cache == old(cache)
    {
      assert PathMerged(c, cache, child.ino, info, []);
      SetSynced(child, true);
      SetSame(old(cache), child.ino);
    }

    // Merges the children of a listed node into the dentry, in any order.
    method Build(parent: Dentry, node: FTree)
      requires Valid() && Attached(parent) && Mergeable(cache, parent.ino, node.children)
      modifies this, all.Values
      ensures Valid()
      ensures Extends(old(all), all) && forall i :: i in all && i !in old(all) ==> fresh(all[i])
      ensures MergedBy(old(cache), cache, parent.ino, TreeInfo(node.children))
      decreases node, 1
    {
      ghost var c := cache;
      assert Tree(c);
      MarkBuilt(parent);
      BuildChildren(parent, node, c);
      DoneBounds(node.children, node.children.Keys - {});
    }

    method BuildChildren(parent: Dentry, node: FTree, ghost c: Cache)
      requires Valid() && Attached(parent) && parent.ino in c.nodes && Tree(c)
      requires Mergeable(c, parent.ino, node.children) && MergedBy(c, cache, parent.ino, TreeInfo(map[]))
      modifies this, all.Values
      ensures Valid()
      ensures Extends(old(all), all) && forall i :: i in all && i !in old(all) ==> fresh(all[i])
      ensures MergedBy(c, cache, parent.ino, TreeInfo(Done(node.children, node.children.Keys - {})))
      decreases node, 0
    {
      var rest := node.children.Keys;
      ghost var was := all;
      DoneBounds(node.children, node.children.Keys - rest);
      while rest != {}
        invariant rest <= node.children.Keys && Valid()
        invariant Extends(was, all) && forall i :: i in all && i !in was ==> fresh(all[i])
        invariant MergedBy(c, cache, parent.ino, TreeInfo(Done(node.children, node.children.Keys - rest)))
        decreases |rest|
      {
        var k :| k in rest;
        ghost var mid := all;
        BuildNext(parent, k, node.children[k], c, node.children, rest);
        ExtendsTransitive(was, mid, all);
        forall i | i in all && i !in was ensures fresh(all[i]) {
          if i in mid { assert all[i] == mid[i]; }
        }
        rest := rest - {k};
      }
    }

    method MarkBuilt(parent: Dentry)
      requires Valid() && Attached(parent)
      modifies this`cache, parent`synced
      ensures Valid() && MergedBy(old(cache), cache, parent.ino, TreeInfo(map[]))
    {
      MarkParent(cache, parent.ino);
      SetSynced(parent, true);
    }

    // One turn of the loop over the children, for what has been merged so far.
    method BuildNext(parent: Dentry, k: string, t: FTree, ghost c: Cache, ghost ts: map<string, FTree>,
                     ghost rest: set<string>)
      requires Valid() && Attached(parent) && parent.ino in c.nodes && Tree(c) && Mergeable(c, parent.ino, ts)
      requires k in rest && rest <= ts.Keys && t == ts[k]
      requires MergedBy(c, cache, parent.ino, TreeInfo(Done(ts, ts.Keys - rest)))
      modifies this, all.Values
      ensures Valid()
      ensures Extends(old(all), all) && forall i :: i in all && i !in old(all) ==> fresh(all[i])
      ensures MergedBy(c, cache, parent.ino, TreeInfo(Done(ts, ts.Keys - (rest - {k}))))
      decreases t, 3
    {
      ghost var d, p, done := cache, parent.ino, ts.Keys - rest;
      assert done + {k} == ts.Keys - (rest - {k});
      ChildFacts(parent, k);
      ChildReady(c, d, p, ts, done, k);
      if t.isDir { ChildMergeable(c, d, p, ts, done, k); }
      BuildChild(parent, k, t);
      if t.isDir { DirStep(c, d, cache, p, ts, done, k); } else { FileStep(c, d, p, ts, done, k); }
    }

    // build_dentries: merges a file tree below the dentry with this id.
    method BuildDentries(pino: InodeID, root: FTree)
      requires Valid() && pino in cache.nodes && Mergeable(cache, pino, root.children)
      modifies this, all.Values
      ensures Valid()
      ensures Extends(old(all), all) && forall i :: i in all && i !in old(all) ==> fresh(all[i])
      ensures MergedBy(old(cache), cache, pino, TreeInfo(root.children))
    {
      assert ShownAt(all, cache, pino);
      var parent := GetDentry(pino);
      Build(parent, root);
    }

    // ---- Sweeping -----------------------------------------------------------------

    // A directory leaves the queue: marked, fresh, and complete if it has children.
    method VisitDir(e: Dentry, now: Time)
      requires TreeValid() && Attached(e)
      modifies this`cache, e`synced, e`ttl, e`complete
      ensures TreeValid()
      ensures cache == SetNode(old(cache), e.ino, Popped(old(cache).nodes[e.ino], now + timeout))
    {
      assert ShownAt(all, cache, e.ino);
      MarkVisited(e, now);
      cache := SetNode(cache, e.ino, e.Node());
      NodeChanged(e);
    }

    method MarkVisited(e: Dentry, now: Time)
      modifies e`synced, e`ttl, e`complete
      ensures e.Node() == Popped(old(e.Node()), now + timeout)
    {
      e.synced := true;
      e.IncTtl(now, timeout);
      EmptyIds(e.children);
      if e.children != map[] {
        e.complete := true;
      }
    }

    // A marked child: its mark is taken, and it is fresh.
    method SettleChild(m: Dentry, now: Time)
      requires TreeValid() && Attached(m)
      modifies this`cache, m`synced, m`ttl, m`complete
      ensures TreeValid()
      ensures cache == SetNode(old(cache), m.ino, Settled(old(cache).nodes[m.ino], now + timeout))
    {
      assert ShownAt(all, cache, m.ino);
      TakeMark(m, now);
      cache := SetNode(cache, m.ino, m.Node());
      NodeChanged(m);
    }

    method TakeMark(m: Dentry, now: Time)
      modifies m`synced, m`ttl, m`complete
      ensures m.Node() == Settled(old(m.Node()), now + timeout)
    {
      m.synced := false;
      m.IncTtl(now, timeout);
      EmptyIds(m.children);
      if m.IsDir() && m.children != map[] {
        m.complete := true;
      }
    }

    // One child of directory e: dropped if it is not marked; a marked
    // directory joins the queue.
    method SweepChild(e: Dentry, k: string, queue: seq<Dentry>, now: Time,
                      ghost c: Cache, ghost d: InodeID, ghost popped: set<InodeID>, ghost done: set<InodeID>,
                      ghost rest: set<string>)
      returns (queue': seq<Dentry>, ghost m: InodeID)
      requires TreeValid() && e.ino in all && all[e.ino] == e && QueueIn(queue, all) && Tree(c)
      requires cache == Part(c, popped, done, now + timeout) && k in rest
      requires Bfs(c, d, popped, done, Inos(queue), e.ino, rest)
      modifies this`cache, all.Values
      ensures TreeValid() && QueueIn(queue', all)
      ensures cache == Part(c, popped, done + {m}, now + timeout)
      ensures Bfs(c, d, popped, done + {m}, Inos(queue'), e.ino, rest - {k})
    {
      m := c.nodes[e.ino].children[k];
      BfsChild(c, d, popped, done, Inos(queue), e.ino, rest, k);
      var child := ChildOf(e, k, c, popped, done, now);
      if !child.synced {
        DropChild(e, k, m, c, popped, done, now);
        queue' := queue;
      } else {
        KeepChild(child, c, popped, done, now);
        queue' := Queued(queue, child);
      }
      BfsStep(c, d, popped, done, Inos(queue), e.ino, rest, k, m, Inos(queue'));
    }

    // A directory joins the queue.
    method Queued(queue: seq<Dentry>, child: Dentry) returns (queue': seq<Dentry>)
      requires QueueIn(queue, all) && child.ino in all && all[child.ino] == child
      ensures QueueIn(queue', all)
      ensures Inos(queue') == if IsDirMode(child.mode) then Inos(queue) + [child.ino] else Inos(queue)
    {
      queue' := if child.IsDir() then queue + [child] else queue;
      InosPush(queue, child);
    }

    // The dentry of a child that was not looked at yet.
    method ChildOf(e: Dentry, k: string, ghost c: Cache, ghost popped: set<InodeID>, ghost done: set<InodeID>,
                   now: Time)
      returns (child: Dentry)
      requires TreeValid() && e.ino in all && all[e.ino] == e && Tree(c)
      requires cache == Part(c, popped, done, now + timeout)
      requires e.ino in c.nodes && k in c.nodes[e.ino].children && !Gone(c, done, e.ino)
      requires var m := c.nodes[e.ino].children[k]; m in c.nodes && m !in done && m !in popped && !Gone(c, done, m)
      ensures child.ino == c.nodes[e.ino].children[k] && Attached(child)
      ensures child.synced == c.nodes[child.ino].synced && child.mode == c.nodes[child.ino].mode
      ensures Attached(e) && k in e.children && e.children[k] == child
    {
      PartChild(c, popped, done, e.ino, k, now + timeout);
      ChildFacts(e, k);
      child := e.children[k];
      assert ShownAt(all, cache, child.ino);
    }

    method DropChild(e: Dentry, k: string, ghost m: InodeID,
                     ghost c: Cache, ghost popped: set<InodeID>, ghost done: set<InodeID>, now: Time)
      requires TreeValid() && Attached(e) && k in e.children && Tree(c)
      requires cache == Part(c, popped, done, now + timeout)
      requires Frontier(c, popped, done) && e.ino in c.nodes && !Gone(c, done, e.ino)
      requires k in c.nodes[e.ino].children && m == c.nodes[e.ino].children[k]
      requires m in c.nodes && m !in done && !c.nodes[m].synced
      modifies this`cache, e`children
      ensures TreeValid() && cache == Part(c, popped, done + {m}, now + timeout)
    {
      DetachChild(e, k);
      AfterDrop(c, popped, done, e.ino, k, m, now + timeout, old(cache), cache);
    }

    method KeepChild(child: Dentry, ghost c: Cache, ghost popped: set<InodeID>, ghost done: set<InodeID>, now: Time)
      requires TreeValid() && Attached(child) && Tree(c) && cache == Part(c, popped, done, now + timeout)
      requires Frontier(c, popped, done)
      requires child.ino in c.nodes && child.ino !in popped && child.ino !in done && !Gone(c, done, child.ino)
      requires c.nodes[child.ino].synced
      modifies this`cache, child`synced, child`ttl, child`complete
      ensures TreeValid() && cache == Part(c, popped, done + {child.ino}, now + timeout)
    {
      SettleChild(child, now);
      AfterKeep(c, popped, done, child.ino, now + timeout, old(cache), cache);
    }

    // clear_unsync_dentry: drops, directory by directory, what is not marked.
    method ClearUnsyncDentry(parent: Dentry, now: Time)
      requires Valid() && Attached(parent)
      modifies this`cache, all.Values
      ensures Valid() && cache == Swept(old(cache), parent.ino, now + timeout)
    {
      ghost var c, d := cache, parent.ino;
      PartStart(c, now + timeout);
      BfsStart(c, d);
      var queue := [parent];
      assert Inos(queue) == [d];
      ghost var popped, done := SweepQueued(queue, now, c, d);
      AfterAll(c, d, popped, done, now + timeout, cache);
    }

    method SweepQueued(start: seq<Dentry>, now: Time, ghost c: Cache, ghost d: InodeID)
      returns (ghost popped: set<InodeID>, ghost done: set<InodeID>)
      requires TreeValid() && QueueIn(start, all) && Tree(c)
      requires cache == Part(c, {}, {}, now + timeout) && Bfs(c, d, {}, {}, Inos(start), d, {})
      modifies this`cache, all.Values
      ensures TreeValid() && cache == Part(c, popped, done, now + timeout) && Exhausted(c, d, popped, done)
    {
      var queue := start;
      ghost var last: InodeID;
      popped, done, last := {}, {}, d;
      while queue != []
        invariant TreeValid() && QueueIn(queue, all)
        invariant cache == Part(c, popped, done, now + timeout)
        invariant Bfs(c, d, popped, done, Inos(queue), last, {})
        decreases c.nodes.Keys - popped
      {
        queue, popped, done, last := SweepNext(queue, now, c, d, popped, done, last);
      }
      BfsEnd(c, d, popped, done, last);
    }

    // One directory: taken off the queue, and its children looked at.
    method SweepNext(queue: seq<Dentry>, now: Time, ghost c: Cache, ghost d: InodeID,
                     ghost popped: set<InodeID>, ghost done: set<InodeID>, ghost last: InodeID)
      returns (queue': seq<Dentry>, ghost popped': set<InodeID>, ghost done': set<InodeID>, ghost e': InodeID)
      requires TreeValid() && QueueIn(queue, all) && Tree(c) && queue != []
      requires cache == Part(c, popped, done, now + timeout) && Bfs(c, d, popped, done, Inos(queue), last, {})
      modifies this`cache, all.Values
      ensures TreeValid() && QueueIn(queue', all)
      ensures cache == Part(c, popped', done', now + timeout) && Bfs(c, d, popped', done', Inos(queue'), e', {})
      ensures e' in c.nodes && e' !in popped && popped' == popped + {e'}
    {
      var e := queue[0];
      InosPop(queue);
      BfsPop(c, d, popped, done, Inos(queue), last);
      VisitNext(e, c, popped, done, now);
      popped', e' := popped + {e.ino}, e.ino;
      queue', done' := SweepChildren(e, queue[1..], now, c, d, popped', done);
    }

    method VisitNext(e: Dentry, ghost c: Cache, ghost popped: set<InodeID>, ghost done: set<InodeID>, now: Time)
      requires TreeValid() && e.ino in all && all[e.ino] == e && Tree(c)
      requires cache == Part(c, popped, done, now + timeout)
      requires Frontier(c, popped, done) && e.ino in c.nodes && e.ino !in popped && !Gone(c, done, e.ino)
      modifies this`cache, e`synced, e`ttl, e`complete
      ensures TreeValid() && cache == Part(c, popped + {e.ino}, done, now + timeout)
      ensures e.ino in cache.nodes && cache.nodes[e.ino].children == c.nodes[e.ino].children
    {
      assert e.ino in cache.nodes;
      VisitDir(e, now);
      AfterPop(c, popped, done, e.ino, now + timeout, old(cache), cache);
    }

    // The loop over the children of one directory, in any order.
    method SweepChildren(e: Dentry, queue: seq<Dentry>, now: Time,
                         ghost c: Cache, ghost d: InodeID, ghost popped: set<InodeID>, ghost done: set<InodeID>)
      returns (queue': seq<Dentry>, ghost done': set<InodeID>)
      requires TreeValid() && e.ino in all && all[e.ino] == e && QueueIn(queue, all) && Tree(c)
      requires e.ino in cache.nodes && cache == Part(c, popped, done, now + timeout)
      requires e.ino in c.nodes && cache.nodes[e.ino].children == c.nodes[e.ino].children
      requires Bfs(c, d, popped, done, Inos(queue), e.ino, c.nodes[e.ino].children.Keys)
      modifies this`cache, all.Values
      ensures TreeValid() && QueueIn(queue', all)
      ensures cache == Part(c, popped, done', now + timeout)
      ensures Bfs(c, d, popped, done', Inos(queue'), e.ino, {})
    {
      queue', done' := queue, done;
      assert ShownAt(all, cache, e.ino);
      var rest := e.children.Keys;
      assert rest == c.nodes[e.ino].children.Keys;
      while rest != {}
        invariant TreeValid() && QueueIn(queue', all)
        invariant cache == Part(c, popped, done', now + timeout)
        invariant Bfs(c, d, popped, done', Inos(queue'), e.ino, rest)
        decreases |rest|
      {
        var k :| k in rest;
        ghost var m: InodeID;
        queue', m := SweepChild(e, k, queue', now, c, d, popped, done', rest);
        rest, done' := rest - {k}, done' + {m};
      }
    }
  }

  function Inos(queue: seq<Dentry>): seq<InodeID> {
    seq(|queue|, i requires 0 <= i < |queue| => queue[i].ino)
  }

  lemma InosPop(queue: seq<Dentry>)
    requires queue != []
    ensures Inos(queue[1..]) == Inos(queue)[1..] && Inos(queue)[0] == queue[0].ino
  {}

  lemma InosPush(queue: seq<Dentry>, m: Dentry)
    ensures Inos(queue + [m]) == Inos(queue) + [m.ino]
  {}

  ghost predicate QueueIn(queue: seq<Dentry>, all: Dentries) {
    forall x :: x in queue ==> x.ino in all && all[x.ino] == x
  }

  lemma EmptyIds(children: map<string, Dentry>)
    ensures Ids(children) == map[] <==> children == map[]
  {
    if children != map[] {
      var k :| k in children;
      assert k in Ids(children);
    }
  }
}

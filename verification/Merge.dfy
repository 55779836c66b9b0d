// Merging a file tree into the cache (build_dentries), told path by path.
module Merge {
  import opened Basics
  import opened DentryTree

  // A tree of listed files and directories, by name.
  datatype FTree = FTree(isDir: bool, mode: Option<Mode>, size: nat, children: map<string, FTree>)

  datatype NodeInfo = NodeInfo(isDir: bool, mode: Option<Mode>, size: nat)

  // The mode of an inode made from an object (obj2inode).
  function ObjMode(isDir: bool, mode: Option<Mode>): Mode {
    var base: Mode := if isDir then S_IFDIR | 0x1F6 else S_IFREG | 0x1A4;
    match mode
    case None => base
    case Some(m) => (base & !0x1FF) | (m & 0x1FF)
  }

  // An inode has the permissions that the store reports, else 0766 for a
  // directory and 0644 for a file; its other bits say which of the two it is.
  lemma ObjModeBits(isDir: bool, mode: Option<Mode>)
    ensures ObjMode(isDir, mode) & 0x1FF == if mode.Some? then mode.value & 0x1FF else if isDir then 0x1F6 else 0x1A4
    ensures ObjMode(isDir, mode) & !0x1FF == if isDir then 0x4000 else 0x8000
  {}

  lemma ObjModeKind(isDir: bool, mode: Option<Mode>)
    ensures IsDirMode(ObjMode(isDir, mode)) == isDir
  {}

  function InfoAt(ts: map<string, FTree>, q: seq<string>): Option<NodeInfo>
    decreases |q|
  {
    if q == [] || q[0] !in ts then None
    else
      var t := ts[q[0]];
      if |q| == 1 then Some(NodeInfo(t.isDir, t.mode, t.size))
      else if t.isDir then InfoAt(t.children, q[1..])
      else None
  }

  type Info = imap<seq<string>, NodeInfo>

  // The paths of a tree with what it says about each.
  ghost function TreeInfo(ts: map<string, FTree>): Info {
    imap q: seq<string> | InfoAt(ts, q).Some? :: InfoAt(ts, q).value
  }

  // Merging one tree after another: the first to mention a path decides the
  // kind, the last to mention it decides the size.
  ghost function Then(a: Info, b: Info): Info {
    imap q: seq<string> | q in a || q in b ::
      NodeInfo(if q in a then a[q].isDir else b[q].isDir,
               if q in a then a[q].mode else b[q].mode,
               if q in b then b[q].size else a[q].size)
  }

  // ---- What a merge into directory p does, path by path ---------------------

  ghost predicate PathMerged(c: Cache, d: Cache, p: InodeID, info: Info, q: seq<string>) {
    match Walk(c, p, q)
    case Some(r) =>
      && Walk(d, p, q) == Some(r) && r in c.nodes && r in d.nodes
      && (d.nodes[r].synced <==> c.nodes[r].synced || q == [] || q in info)
      && d.nodes[r].size == (if q in info then info[q].size else c.nodes[r].size)
    case None =>
      if q !in info then Walk(d, p, q) == None
      else
        && Walk(d, p, q).Some?
        && var i := Walk(d, p, q).value;
        && i in d.nodes && c.next <= i < d.next
        && d.nodes[i].synced && d.nodes[i].size == info[q].size
        && d.nodes[i].mode == ObjMode(info[q].isDir, info[q].mode)
        && !d.nodes[i].complete && d.nodes[i].ttl == 0
  }

  // Attributes that a merge never touches.
  ghost predicate SameIdentity(m: Node, n: Node) {
    m.name == n.name && m.parent == n.parent && m.mode == n.mode && m.ttl == n.ttl && m.complete == n.complete
  }

  ghost predicate Frame(c: Cache, d: Cache, p: InodeID) {
    && c.next <= d.next
    && (forall r :: r in c.nodes ==> r in d.nodes && SameIdentity(c.nodes[r], d.nodes[r]))
    && (forall r :: r in c.nodes && !Below(c, p, r) ==> d.nodes[r] == c.nodes[r])
    && (forall r :: r in d.nodes && r !in c.nodes ==> c.next <= r && Below(d, p, r))
  }

  // Dentries that were there keep their id, kind and place; each listed path
  // is there afterwards, new ones under fresh ids; marks are added on listed
  // paths and nowhere else; nothing outside p's subtree changes.
  ghost predicate MergedBy(c: Cache, d: Cache, p: InodeID, info: Info) {
    && Frame(c, d, p)
    && forall q: seq<string> {:trigger PathMerged(c, d, p, info, q)} :: PathMerged(c, d, p, info, q)
  }

  // ---- Composition -----------------------------------------------------------

  lemma {:induction false} BelowStable(c: Cache, d: Cache, p: InodeID, r: InodeID)
    requires Tree(c) && r in c.nodes
    requires forall x :: x in c.nodes ==> x in d.nodes && SameIdentity(c.nodes[x], d.nodes[x])
    ensures Below(c, p, r) == Below(d, p, r)
    decreases r
  {
    assert Placed(c, r);
    if r != ROOT {
      BelowStable(c, d, p, c.nodes[r].parent);
    } else {
      RootAlone(c, p);
      if Below(d, p, 0) && p != 0 { BelowOrder(d, p, 0); }
    }
  }

  lemma {:induction false} BelowKept(c: Cache, d: Cache, p: InodeID, r: InodeID)
    requires Below(c, p, r)
    requires forall x :: x in c.nodes ==> x in d.nodes && SameIdentity(c.nodes[x], d.nodes[x])
    ensures Below(d, p, r)
    decreases r
  {
    if r != p { BelowKept(c, d, p, c.nodes[r].parent); }
  }

  lemma RootAlone(c: Cache, p: InodeID)
    requires Tree(c)
    ensures Below(c, p, 0) <==> p == 0
  {
    if Below(c, p, 0) { BelowOrder(c, p, 0); }
  }

  lemma PathCompose(c: Cache, d: Cache, e: Cache, p: InodeID, a: Info, b: Info, q: seq<string>)
    requires Frame(c, d, p) && Frame(d, e, p)
    requires PathMerged(c, d, p, a, q) && PathMerged(d, e, p, b, q)
    ensures PathMerged(c, e, p, Then(a, b), q)
  {}

  lemma Compose(c: Cache, d: Cache, e: Cache, p: InodeID, a: Info, b: Info)
    requires Tree(c) && MergedBy(c, d, p, a) && MergedBy(d, e, p, b)
    ensures MergedBy(c, e, p, Then(a, b))
  {
    forall r | r in c.nodes && !Below(c, p, r) ensures e.nodes[r] == c.nodes[r] {
      BelowStable(c, d, p, r);
    }
    forall r | r in d.nodes && r !in c.nodes ensures Below(e, p, r) {
      BelowKept(d, e, p, r);
    }
    forall q: seq<string> ensures PathMerged(c, e, p, Then(a, b), q) {
      assert PathMerged(c, d, p, a, q) && PathMerged(d, e, p, b, q);
      PathCompose(c, d, e, p, a, b, q);
    }
  }

  // ---- Disjoint subtrees -------------------------------------------------------

  lemma {:induction false} Comparable(c: Cache, x: InodeID, y: InodeID, r: InodeID)
    requires Below(c, x, r) && Below(c, y, r)
    ensures Below(c, x, y) || Below(c, y, x)
    decreases r
  {
    if r != x && r != y { Comparable(c, x, y, c.nodes[r].parent); }
  }

  lemma SiblingsDisjoint(c: Cache, p: InodeID, j: string, k: string, r: InodeID)
    requires Tree(c) && p in c.nodes && j in c.nodes[p].children && k in c.nodes[p].children && j != k
    requires Below(c, c.nodes[p].children[j], r)
    ensures !Below(c, c.nodes[p].children[k], r)
  {
    ChildNames(c, p, j);
    ChildNames(c, p, k);
    assert ChildrenPlaced(c, p);
    var x, y := c.nodes[p].children[j], c.nodes[p].children[k];
    ChildSubtrees(c, p, x, y);
    ChildSubtrees(c, p, y, x);
    if Below(c, y, r) { Comparable(c, x, y, r); }
  }

  // A walk through a subtree that did not change.
  lemma {:induction false} WalkSame(c: Cache, d: Cache, a: InodeID, q: seq<string>)
    requires Tree(c) && a in c.nodes
    requires forall r :: r in c.nodes && Below(c, a, r) ==> r in d.nodes && d.nodes[r] == c.nodes[r]
    ensures Walk(d, a, q) == Walk(c, a, q)
    ensures Walk(c, a, q).Some? ==> Walk(c, a, q).value in c.nodes && Below(c, a, Walk(c, a, q).value)
    decreases |q|
  {
    if q != [] && q[0] in c.nodes[a].children {
      ChildNames(c, a, q[0]);
      var i := c.nodes[a].children[q[0]];
      forall r | r in c.nodes && Below(c, i, r) ensures Below(c, a, r) { BelowTransitive(c, a, i, r); }
      WalkSame(c, d, i, q[1..]);
    }
  }

  // ---- One listed child -----------------------------------------------------------

  // A listed child is created if it is missing, gets its size, and is marked.
  function MarkChild(c: Cache, p: InodeID, k: string, t: FTree): Cache
    requires p in c.nodes
  {
    if k in c.nodes[p].children && c.nodes[p].children[k] in c.nodes then
      var i := c.nodes[p].children[k];
      SetNode(c, i, c.nodes[i].(size := t.size, synced := true))
    else
      var d := Attach(c, p, k, ObjMode(t.isDir, t.mode), t.size);
      SetNode(d, c.next, d.nodes[c.next].(synced := true))
  }

  ghost function One(k: string, t: FTree): Info {
    imap[[k] := NodeInfo(t.isDir, t.mode, t.size)]
  }

  lemma MarkOldChild(c: Cache, p: InodeID, k: string, t: FTree)
    requires Tree(c) && p in c.nodes && c.nodes[p].synced && k in c.nodes[p].children
    ensures Tree(MarkChild(c, p, k, t)) && MergedBy(c, MarkChild(c, p, k, t), p, One(k, t))
  {
    ChildNames(c, p, k);
    assert ChildrenPlaced(c, p);
    var i := c.nodes[p].children[k];
    var d := MarkChild(c, p, k, t);
    SetNodeTree(c, i, d.nodes[i]);
    forall q: seq<string> ensures PathMerged(c, d, p, One(k, t), q) {
      ShapeWalk(c, d, p, q);
      assert [k] == [k] + [];
      assert Walk(c, p, [k]) == Walk(c, i, []);
      if Walk(c, p, q) == Some(i) { WalkUnique(c, p, q, [k]); }
      if Walk(c, p, q).Some? { WalkIsBelow(c, p, q); }
    }
  }

  // Two walks that end in the same dentry are the same walk.
  lemma WalkUnique(c: Cache, p: InodeID, q: seq<string>, q': seq<string>)
    requires Tree(c) && p in c.nodes && Walk(c, p, q).Some? && Walk(c, p, q') == Walk(c, p, q)
    ensures q == q'
  {
    var ns := Names(c, p);
    NamesOfWalk(c, p, q, ns);
    NamesOfWalk(c, p, q', ns);
    assert (ns + q)[|ns|..] == q && (ns + q')[|ns|..] == q';
  }

  lemma MarkNewChild(c: Cache, p: InodeID, k: string, t: FTree)
    requires Tree(c) && p in c.nodes && c.nodes[p].synced && k !in c.nodes[p].children
    requires IsDirMode(c.nodes[p].mode) && ValidName(k)
    ensures Tree(MarkChild(c, p, k, t)) && MergedBy(c, MarkChild(c, p, k, t), p, One(k, t))
  {
    var d := MarkChild(c, p, k, t);
    var a := Attach(c, p, k, ObjMode(t.isDir, t.mode), t.size);
    AttachTree(c, p, k, ObjMode(t.isDir, t.mode), t.size);
    SetNodeTree(a, c.next, d.nodes[c.next]);
    IdsBelowNext(c);
    forall q: seq<string> ensures PathMerged(c, d, p, One(k, t), q) {
      NewChildPath(c, d, p, k, t, q);
    }
  }

  lemma NewChildPath(c: Cache, d: Cache, p: InodeID, k: string, t: FTree, q: seq<string>)
    requires Tree(c) && p in c.nodes && c.nodes[p].synced && k !in c.nodes[p].children
    requires d == MarkChild(c, p, k, t)
    ensures PathMerged(c, d, p, One(k, t), q)
  {
    IdsBelowNext(c);
    if q != [] && q[0] in c.nodes[p].children {
      ChildNames(c, p, q[0]);
      var j := c.nodes[p].children[q[0]];
      forall r | r in c.nodes && Below(c, j, r) ensures d.nodes[r] == c.nodes[r] {
        BelowOrder(c, j, r);
      }
      WalkSame(c, d, j, q[1..]);
    } else if q != [] && q[0] == k {
      assert Walk(d, p, q) == Walk(d, c.next, q[1..]);
      if |q| == 1 { assert q == [k]; }
    }
  }

  // ---- Merging below a child ------------------------------------------------------

  ghost function Lift(k: string, info: Info): Info {
    imap q: seq<string> | q != [] && q[0] == k && q[1..] in info :: info[q[1..]]
  }

  // A merge below a marked child is a merge into the parent.
  lemma LiftMerge(c: Cache, d: Cache, p: InodeID, k: string, info: Info)
    requires Tree(c) && p in c.nodes && c.nodes[p].synced && k in c.nodes[p].children
    requires var i := c.nodes[p].children[k]; i in c.nodes && c.nodes[i].synced && MergedBy(c, d, i, info)
    requires [] !in info
    ensures MergedBy(c, d, p, Lift(k, info))
  {
    ChildNames(c, p, k);
    var i := c.nodes[p].children[k];
    forall r | r in c.nodes && !Below(c, p, r) ensures !Below(c, i, r) {
      if Below(c, i, r) { BelowTransitive(c, p, i, r); }
    }
    if Below(c, i, p) { BelowOrder(c, i, p); }
    assert d.nodes[p] == c.nodes[p];
    forall r | r in d.nodes && r !in c.nodes ensures Below(d, p, r) {
      assert Below(d, p, i);
      BelowTransitive(d, p, i, r);
    }
    forall q: seq<string> ensures PathMerged(c, d, p, Lift(k, info), q) {
      if q != [] && q[0] == k {
        assert PathMerged(c, d, i, info, q[1..]);
      } else if q != [] && q[0] in c.nodes[p].children {
        ChildNames(c, p, q[0]);
        var j := c.nodes[p].children[q[0]];
        forall r | r in c.nodes && Below(c, j, r) ensures d.nodes[r] == c.nodes[r] {
          SiblingsDisjoint(c, p, q[0], k, r);
        }
        WalkSame(c, d, j, q[1..]);
      }
    }
  }

  // ---- The whole level -------------------------------------------------------------

  // Marking the parent itself, which the merge does first.
  lemma MarkParent(c: Cache, p: InodeID)
    requires Tree(c) && p in c.nodes
    ensures var d := SetNode(c, p, c.nodes[p].(synced := true));
            Tree(d) && MergedBy(c, d, p, TreeInfo(map[]))
  {
    var d := SetNode(c, p, c.nodes[p].(synced := true));
    SetNodeTree(c, p, d.nodes[p]);
    forall q: seq<string> ensures PathMerged(c, d, p, TreeInfo(map[]), q) {
      ShapeWalk(c, d, p, q);
      if Walk(c, p, q).Some? { WalkIsBelow(c, p, q); }
      if Walk(c, p, q) == Some(p) { WalkUnique(c, p, q, []); }
    }
  }

  // What one more child adds to the tree merged so far.
  ghost function WithChild(a: Info, k: string, t: FTree): Info {
    var leaf := Then(a, One(k, t));
    if t.isDir then Then(leaf, Lift(k, TreeInfo(t.children))) else leaf
  }

  lemma InfoStepAt(ts: map<string, FTree>, k: string, t: FTree, q: seq<string>)
    requires k !in ts
    ensures q in TreeInfo(ts[k := t]) <==> q in WithChild(TreeInfo(ts), k, t)
    ensures q in TreeInfo(ts[k := t]) ==> TreeInfo(ts[k := t])[q] == WithChild(TreeInfo(ts), k, t)[q]
  {
    if q == [k] {
      assert q[1..] == [];
      assert InfoAt(t.children, []) == None && InfoAt(ts, q) == None;
    } else if q != [] && q[0] == k {
      assert q[1..] != [] && InfoAt(ts, q) == None;
      assert InfoAt(ts[k := t], q) == if t.isDir then InfoAt(t.children, q[1..]) else None;
    } else {
      assert q != [k];
      assert InfoAt(ts[k := t], q) == InfoAt(ts, q);
    }
  }

  lemma InfoStep(ts: map<string, FTree>, k: string, t: FTree)
    requires k !in ts
    ensures TreeInfo(ts[k := t]) == WithChild(TreeInfo(ts), k, t)
  {
    var a, b := TreeInfo(ts[k := t]), WithChild(TreeInfo(ts), k, t);
    forall q: seq<string> ensures (q in a <==> q in b) && (q in a ==> a[q] == b[q]) {
      InfoStepAt(ts, k, t, q);
    }
  }

  // ---- One turn of the merge loop -------------------------------------------------

  // The tree can be merged below p: names are names, and no cached file stands
  // where the tree has children.
  ghost predicate PathMergeable(c: Cache, p: InodeID, ts: map<string, FTree>, q: seq<string>) {
    q in TreeInfo(ts) ==>
      && q != [] && ValidName(q[|q| - 1])
      && match Walk(c, p, q[..|q| - 1])
         case Some(r) => r in c.nodes && IsDirMode(c.nodes[r].mode)
         case None => true
  }

  ghost predicate Mergeable(c: Cache, p: InodeID, ts: map<string, FTree>) {
    forall q: seq<string> {:trigger PathMergeable(c, p, ts, q)} :: PathMergeable(c, p, ts, q)
  }

  function Done(ts: map<string, FTree>, done: set<string>): map<string, FTree> {
    map k | k in ts && k in done :: ts[k]
  }

  lemma DoneBounds(ts: map<string, FTree>, done: set<string>)
    ensures Done(ts, {}) == map[]
    ensures done == ts.Keys ==> Done(ts, done) == ts
  {}

  lemma DoneMore(ts: map<string, FTree>, done: set<string>, k: string)
    requires k in ts && k !in done
    ensures Done(ts, done + {k}) == Done(ts, done)[k := ts[k]] && k !in Done(ts, done)
  {}

  // Before child k is looked at, the cache can take it.
  lemma ChildReady(c: Cache, d: Cache, p: InodeID, ts: map<string, FTree>, done: set<string>, k: string)
    requires Tree(c) && Tree(d) && p in c.nodes && Mergeable(c, p, ts)
    requires MergedBy(c, d, p, TreeInfo(Done(ts, done))) && k in ts
    ensures p in d.nodes && IsDirMode(d.nodes[p].mode) && ValidName(k) && d.nodes[p].synced
  {
    assert PathMergeable(c, p, ts, [k]);
    assert InfoAt(ts, [k]).Some?;
    assert [k][..0] == [];
    assert PathMerged(c, d, p, TreeInfo(Done(ts, done)), []);
  }

  // The child as it is handed to the recursive call: there, with its size, not
  // yet marked.
  function ListedChild(c: Cache, p: InodeID, k: string): InodeID
    requires p in c.nodes
  {
    if k in c.nodes[p].children then c.nodes[p].children[k] else c.next
  }

  function TakeChild(c: Cache, p: InodeID, k: string, t: FTree): Cache
    requires p in c.nodes
  {
    if k in c.nodes[p].children && c.nodes[p].children[k] in c.nodes then
      var i := c.nodes[p].children[k];
      SetNode(c, i, c.nodes[i].(size := t.size))
    else Attach(c, p, k, ObjMode(t.isDir, t.mode), t.size)
  }

  lemma SetSame(c: Cache, i: InodeID)
    requires i in c.nodes && c.nodes[i].synced
    ensures SetNode(c, i, c.nodes[i].(synced := true)) == c
  {
    assert SetNode(c, i, c.nodes[i].(synced := true)).nodes == c.nodes;
  }

  lemma MarkChildMerged(c: Cache, p: InodeID, k: string, t: FTree)
    requires Tree(c) && p in c.nodes && c.nodes[p].synced && IsDirMode(c.nodes[p].mode) && ValidName(k)
    ensures Tree(TakeChild(c, p, k, t)) && Tree(MarkChild(c, p, k, t))
    ensures MergedBy(c, MarkChild(c, p, k, t), p, One(k, t))
    ensures var d := TakeChild(c, p, k, t);
            && p in d.nodes && k in d.nodes[p].children && d.nodes[p].children[k] in d.nodes
            && var i := d.nodes[p].children[k];
            && i == ListedChild(c, p, k)
            && MarkChild(c, p, k, t) == SetNode(d, i, d.nodes[i].(synced := true))
            && (k in c.nodes[p].children ==> i == c.nodes[p].children[k])
            && (k !in c.nodes[p].children ==> i == c.next && d.nodes[i].mode == ObjMode(t.isDir, t.mode)
                                                && d.nodes[i].children == map[])
  {
    assert ChildrenPlaced(c, p);
    if k in c.nodes[p].children {
      MarkOldChild(c, p, k, t);
      ChildNames(c, p, k);
      var i := c.nodes[p].children[k];
      SetNodeTree(c, i, c.nodes[i].(size := t.size));
    } else {
      MarkNewChild(c, p, k, t);
      IdsBelowNext(c);
      AttachTree(c, p, k, ObjMode(t.isDir, t.mode), t.size);
    }
  }

  // Marking p first makes no difference to a merge into p.
  lemma PreMark(c: Cache, d: Cache, p: InodeID, info: Info)
    requires Tree(c) && p in c.nodes && MergedBy(c, d, p, info)
    ensures MergedBy(SetNode(c, p, c.nodes[p].(synced := true)), d, p, info)
  {
    var m := SetNode(c, p, c.nodes[p].(synced := true));
    forall r | r in m.nodes && !Below(m, p, r) ensures d.nodes[r] == m.nodes[r] {
      ShapeNames(c, m, p, r);
    }
    forall q: seq<string> ensures PathMerged(m, d, p, info, q) {
      ShapeWalk(c, m, p, q);
      assert PathMerged(c, d, p, info, q);
      if Walk(c, p, q) == Some(p) { WalkUnique(c, p, q, []); }
    }
  }

  // A file: taking it and marking it.
  lemma FileStep(c: Cache, d: Cache, p: InodeID, ts: map<string, FTree>, done: set<string>, k: string)
    requires Tree(c) && Tree(d) && p in c.nodes && Mergeable(c, p, ts)
    requires MergedBy(c, d, p, TreeInfo(Done(ts, done))) && k in ts && k !in done && !ts[k].isDir
    ensures p in d.nodes
    ensures MergedBy(c, MarkChild(d, p, k, ts[k]), p, TreeInfo(Done(ts, done + {k})))
  {
    ChildReady(c, d, p, ts, done, k);
    MarkChildMerged(d, p, k, ts[k]);
    Compose(c, d, MarkChild(d, p, k, ts[k]), p, TreeInfo(Done(ts, done)), One(k, ts[k]));
    DoneMore(ts, done, k);
    InfoStep(Done(ts, done), k, ts[k]);
  }

  // A directory: taking it and merging its children into it, which marks it.
  lemma DirStep(c: Cache, d: Cache, e: Cache, p: InodeID, ts: map<string, FTree>, done: set<string>, k: string)
    requires Tree(c) && Tree(d) && p in c.nodes && Mergeable(c, p, ts)
    requires MergedBy(c, d, p, TreeInfo(Done(ts, done))) && k in ts && k !in done && ts[k].isDir
    requires p in d.nodes
    requires MergedBy(TakeChild(d, p, k, ts[k]), e, ListedChild(d, p, k), TreeInfo(ts[k].children))
    ensures MergedBy(c, e, p, TreeInfo(Done(ts, done + {k})))
  {
    ChildReady(c, d, p, ts, done, k);
    MarkChildMerged(d, p, k, ts[k]);
    BelowStep(d, e, p, k, ts[k]);
    var m := MarkChild(d, p, k, ts[k]);
    var below := TreeInfo(ts[k].children);
    var a := TreeInfo(Done(ts, done));
    Compose(c, d, m, p, a, One(k, ts[k]));
    Compose(c, m, e, p, Then(a, One(k, ts[k])), Lift(k, below));
    DoneMore(ts, done, k);
    InfoStep(Done(ts, done), k, ts[k]);
  }

  lemma BelowStep(d: Cache, e: Cache, p: InodeID, k: string, t: FTree)
    requires Tree(d) && p in d.nodes && d.nodes[p].synced && IsDirMode(d.nodes[p].mode) && ValidName(k)
    requires MergedBy(TakeChild(d, p, k, t), e, ListedChild(d, p, k), TreeInfo(t.children))
    ensures MergedBy(MarkChild(d, p, k, t), e, p, Lift(k, TreeInfo(t.children)))
  {
    MarkChildMerged(d, p, k, t);
    var u, m := TakeChild(d, p, k, t), MarkChild(d, p, k, t);
    var i := u.nodes[p].children[k];
    ChildNames(u, p, k);
    LiftMarked(u, m, e, p, k, i, TreeInfo(t.children));
  }

  lemma LiftMarked(u: Cache, m: Cache, e: Cache, p: InodeID, k: string, i: InodeID, info: Info)
    requires Tree(u) && Tree(m) && p in u.nodes && u.nodes[p].synced && i in u.nodes && k in u.nodes[p].children
    requires u.nodes[p].children[k] == i && i != p && m == SetNode(u, i, u.nodes[i].(synced := true))
    requires MergedBy(u, e, i, info) && [] !in info
    ensures MergedBy(m, e, p, Lift(k, info))
  {
    PreMark(u, e, i, info);
    LiftMerge(m, e, p, k, info);
  }

  // The recursive call can be made.
  lemma ChildMergeable(c: Cache, d: Cache, p: InodeID, ts: map<string, FTree>, done: set<string>, k: string)
    requires Tree(c) && Tree(d) && p in c.nodes && Mergeable(c, p, ts)
    requires MergedBy(c, d, p, TreeInfo(Done(ts, done))) && k in ts && k !in done && ts[k].isDir
    ensures p in d.nodes
    ensures Mergeable(TakeChild(d, p, k, ts[k]), ListedChild(d, p, k), ts[k].children)
  {
    ChildReady(c, d, p, ts, done, k);
    var t := TakeChild(d, p, k, ts[k]);
    var i := ListedChild(d, p, k);
    forall q: seq<string> ensures PathMergeable(t, i, ts[k].children, q) {
      if q in TreeInfo(ts[k].children) {
        ChildPathMergeable(c, d, p, ts, done, k, q);
      }
    }
  }

  // Every tree that can be merged has a merge: the one that takes the children
  // in the order in which they are picked.
  lemma {:induction false} MergeExists(c: Cache, p: InodeID, t: FTree) returns (m: Cache)
    requires Tree(c) && p in c.nodes && Mergeable(c, p, t.children)
    ensures Tree(m) && MergedBy(c, m, p, TreeInfo(t.children))
    decreases t, 1
  {
    var ts := t.children;
    m := SetNode(c, p, c.nodes[p].(synced := true));
    MarkParent(c, p);
    var done: set<string> := {};
    DoneBounds(ts, done);
    while done != ts.Keys
      invariant done <= ts.Keys && Tree(m) && MergedBy(c, m, p, TreeInfo(Done(ts, done)))
      decreases |ts.Keys - done|
    {
      var k :| k in ts.Keys - done;
      m := MergeOneMore(c, m, p, t, done, k);
      assert ts.Keys - (done + {k}) == ts.Keys - done - {k};
      done := done + {k};
    }
    DoneBounds(ts, done);
  }

  lemma {:induction false} MergeOneMore(c: Cache, d: Cache, p: InodeID, t: FTree, done: set<string>, k: string)
    returns (e: Cache)
    requires Tree(c) && Tree(d) && p in c.nodes && Mergeable(c, p, t.children)
    requires k in t.children && k !in done && MergedBy(c, d, p, TreeInfo(Done(t.children, done)))
    ensures Tree(e) && MergedBy(c, e, p, TreeInfo(Done(t.children, done + {k})))
    decreases t, 0
  {
    var ts := t.children;
    ChildReady(c, d, p, ts, done, k);
    MarkChildMerged(d, p, k, ts[k]);
    if ts[k].isDir {
      ChildMergeable(c, d, p, ts, done, k);
      e := MergeExists(TakeChild(d, p, k, ts[k]), ListedChild(d, p, k), ts[k]);
      DirStep(c, d, e, p, ts, done, k);
    } else {
      e := MarkChild(d, p, k, ts[k]);
      FileStep(c, d, p, ts, done, k);
    }
  }

  lemma ChildPathMergeable(c: Cache, d: Cache, p: InodeID, ts: map<string, FTree>, done: set<string>, k: string,
                           q: seq<string>)
    requires Tree(c) && Tree(d) && p in c.nodes && Mergeable(c, p, ts)
    requires MergedBy(c, d, p, TreeInfo(Done(ts, done))) && k in ts && k !in done && ts[k].isDir
    requires q in TreeInfo(ts[k].children)
    requires p in d.nodes && d.nodes[p].synced && IsDirMode(d.nodes[p].mode) && ValidName(k)
    ensures PathMergeable(TakeChild(d, p, k, ts[k]), ListedChild(d, p, k), ts[k].children, q)
  {
    ParentMergeable(c, p, ts, k, q);
    if k in d.nodes[p].children {
      NotDone(ts, done, k, q[..|q| - 1]);
      ChildNames(d, p, k);
      OldChildDir(c, d, p, TreeInfo(Done(ts, done)), k, q[..|q| - 1]);
      TakeOld(d, p, k, ts[k], ts[k].children, q);
    } else {
      TakeNew(d, p, k, ts[k], ts[k].children, q);
    }
  }

  lemma NotDone(ts: map<string, FTree>, done: set<string>, k: string, q: seq<string>)
    requires k !in done
    ensures [k] + q !in TreeInfo(Done(ts, done))
  {
    assert ([k] + q)[0] == k;
  }

  lemma ParentMergeable(c: Cache, p: InodeID, ts: map<string, FTree>, k: string, q: seq<string>)
    requires Mergeable(c, p, ts) && k in ts && ts[k].isDir && q in TreeInfo(ts[k].children)
    ensures q != [] && ValidName(q[|q| - 1])
    ensures match Walk(c, p, [k] + q[..|q| - 1])
            case Some(r) => r in c.nodes && IsDirMode(c.nodes[r].mode)
            case None => true
  {
    var kq := [k] + q;
    assert kq[1..] == q && InfoAt(ts, kq).Some?;
    assert PathMergeable(c, p, ts, kq);
    assert kq[..|kq| - 1] == [k] + q[..|q| - 1];
  }

  lemma TakeOld(d: Cache, p: InodeID, k: string, t: FTree, ts: map<string, FTree>, q: seq<string>)
    requires Tree(d) && p in d.nodes && k in d.nodes[p].children && d.nodes[p].children[k] in d.nodes
    requires q != [] && ValidName(q[|q| - 1])
    requires match Walk(d, d.nodes[p].children[k], q[..|q| - 1])
             case Some(r) => r in d.nodes && IsDirMode(d.nodes[r].mode)
             case None => true
    ensures PathMergeable(TakeChild(d, p, k, t), ListedChild(d, p, k), ts, q)
  {
    var e := TakeChild(d, p, k, t);
    assert SameShape(d, e);
    ShapeWalk(d, e, d.nodes[p].children[k], q[..|q| - 1]);
  }

  lemma TakeNew(d: Cache, p: InodeID, k: string, t: FTree, ts: map<string, FTree>, q: seq<string>)
    requires Tree(d) && p in d.nodes && k !in d.nodes[p].children && t.isDir
    requires q != [] && ValidName(q[|q| - 1])
    ensures PathMergeable(TakeChild(d, p, k, t), ListedChild(d, p, k), ts, q)
  {
    IdsBelowNext(d);
    ObjModeKind(true, t.mode);
  }

  lemma OldChildDir(c: Cache, d: Cache, p: InodeID, info: Info, k: string, q: seq<string>)
    requires Tree(c) && Tree(d) && p in c.nodes && MergedBy(c, d, p, info)
    requires [k] + q !in info && p in d.nodes && k in d.nodes[p].children
    requires match Walk(c, p, [k] + q)
             case Some(r) => r in c.nodes && IsDirMode(c.nodes[r].mode)
             case None => true
    ensures match Walk(d, d.nodes[p].children[k], q)
            case Some(r) => r in d.nodes && IsDirMode(d.nodes[r].mode)
            case None => true
  {
    assert ([k] + q)[1..] == q;
    assert Walk(d, p, [k] + q) == Walk(d, d.nodes[p].children[k], q);
    assert PathMerged(c, d, p, info, [k] + q);
  }
}
